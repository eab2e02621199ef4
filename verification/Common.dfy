/** Facts about sequences and 32-bit counters that several modules need. */
module Common {

  /** Counters of 32 bits wrap here. */
  const U32 := 0x1_0000_0000

  lemma AddMod(x: nat, y: nat)
    ensures (x + y) % U32 == (x % U32 + y) % U32
  {
    var q, p, r := x / U32, (x % U32 + y) / U32, (x % U32 + y) % U32;
    assert x + y == U32 * (q + p) + r;
  }

  lemma SliceOfSlice<T>(s: seq<T>, lo: nat, hi: nat, i: nat, j: nat)
    requires lo <= hi <= |s| && i <= j <= hi - lo
    ensures s[lo..hi][i..j] == s[lo + i..lo + j]
  {
    forall k | 0 <= k < j - i
      ensures s[lo..hi][i..j][k] == s[lo + i..lo + j][k]
    {
      assert s[lo..hi][i + k] == s[lo + i + k];
    }
  }

  /** A slice that lies in a part two sequences share. */
  lemma SharedSlice<T>(a: seq<T>, b: seq<T>, lo: nat, hi: nat, i: nat, j: nat)
    requires |a| == |b| && lo <= i <= j <= hi <= |a| && a[lo..hi] == b[lo..hi]
    ensures a[i..j] == b[i..j]
  {
    SliceOfSlice(a, lo, hi, i - lo, j - lo);
    SliceOfSlice(b, lo, hi, i - lo, j - lo);
  }

  lemma PartsOfThree<T>(x: seq<T>, y: seq<T>, z: seq<T>)
    ensures
      var all := x + y + z;
      all[0..|x|] == x && all[|x|..|x| + |y|] == y && all[|x| + |y|..|all|] == z
  {}
}

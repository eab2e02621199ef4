/** Counting set bits eight bytes at a time, against counting them byte by byte. */
module Popcount {
  import opened Common

  type Byte = x: int | 0 <= x < 256 witness 0

  /** Set bits of a number. */
  function Pop(x: nat): nat {
    if x == 0 then 0 else x % 2 + Pop(x / 2)
  }

  function Pow2(k: nat): (p: nat)
    ensures p > 0
  {
    if k == 0 then 1 else 2 * Pow2(k - 1)
  }

  /** Set bits of the bytes. */
  function Bits(s: seq<Byte>): nat {
    if |s| == 0 then 0 else Pop(s[0]) + Bits(s[1..])
  }

  /** Bytes read as one little-endian number. */
  function Word(s: seq<Byte>): nat {
    if |s| == 0 then 0 else s[0] + 256 * Word(s[1..])
  }

  lemma {:induction false} PopOfParts(k: nat, low: nat, high: nat)
    requires low < Pow2(k)
    ensures Pop(low + Pow2(k) * high) == Pop(low) + Pop(high)
  {
    hide Pop;
    if k == 0 {
      PopZero();
    } else {
      var p := Pow2(k - 1);
      PopOfParts(k - 1, low / 2, high);
      Halves(low, p, high);
      PopStep(low + 2 * p * high);
      PopStep(low);
    }
  }

  lemma PopZero()
    ensures Pop(0) == 0
  {}

  lemma PopStep(x: nat)
    ensures Pop(x) == x % 2 + Pop(x / 2)
  {}

  lemma Halves(low: nat, p: nat, high: nat)
    ensures (low + 2 * p * high) / 2 == low / 2 + p * high && (low + 2 * p * high) % 2 == low % 2
  {
    var m := p * high;
    assert low + 2 * p * high == low + 2 * m;
  }

  /** A word holds the bits of its bytes, whatever its length. */
  lemma {:induction false} WordHoldsTheBits(s: seq<Byte>)
    ensures Pop(Word(s)) == Bits(s)
  {
    if |s| > 0 {
      WordHoldsTheBits(s[1..]);
      PowerOfEight();
      PopOfParts(8, s[0], Word(s[1..]));
    }
  }

  lemma PowerOfEight()
    ensures Pow2(8) == 256
  {
    assert Pow2(4) == 16;
  }

  lemma {:induction false} BitsOfParts(a: seq<Byte>, b: seq<Byte>)
    ensures Bits(a + b) == Bits(a) + Bits(b)
  {
    if |a| == 0 {
      assert a + b == b;
    } else {
      BitsOfParts(a[1..], b);
      assert (a + b)[1..] == a[1..] + b;
    }
  }

  /** The next part of the buffer counted. */
  lemma BitsUpTo(s: seq<Byte>, i: nat, j: nat)
    requires i <= j <= |s|
    ensures Bits(s[..j]) == Bits(s[..i]) + Bits(s[i..j])
    ensures j == i + 1 ==> Bits(s[i..j]) == Pop(s[i])
  {
    BitsOfParts(s[..i], s[i..j]);
    assert s[..i] + s[i..j] == s[..j];
    if j == i + 1 {
      assert s[i..j][1..] == [];
    }
  }

  /** popcount_byte. */
  method CountByte(p: array<Byte>, n: nat) returns (bits: nat)
    requires n <= p.Length && n < U32
    ensures bits == Bits(p[..n]) % U32
  {
    hide Pop, Bits;
    bits := 0;
    NoBits();
    var i := 0;
    while i < n
      invariant i <= n && bits == Bits(p[..i]) % U32
    {
      BitsUpTo(p[..], i, i + 1);
      assert p[..][..i] == p[..i] && p[..][..i + 1] == p[..i + 1];
      AddMod(Bits(p[..i]), Pop(p[i]));
      bits := (bits + Pop(p[i])) % U32;
      i := i + 1;
    }
  }

  lemma NoBits()
    ensures Bits([]) == 0
  {}

  /** popcount_word. The guard adds to the index in 32 bits. */
  method CountWord(p: array<Byte>, n: nat) returns (bits: nat)
    requires n <= p.Length && n < U32 - 8
    ensures bits == Bits(p[..n]) % U32
  {
    hide Pop, Bits, Word;
    bits := 0;
    NoBits();
    var i := 0;
    while (i + 8) % U32 <= n
      invariant i <= n && bits == Bits(p[..i]) % U32
      decreases n - i
    {
      GuardIsExact(i, n);
      var w := Word(p[i..i + 8]);
      WordHoldsTheBits(p[i..i + 8]);
      BitsUpTo(p[..], i, i + 8);
      assert p[..][..i] == p[..i] && p[..][..i + 8] == p[..i + 8] && p[..][i..i + 8] == p[i..i + 8];
      AddMod(Bits(p[..i]), Pop(w));
      bits := (bits + Pop(w)) % U32;
      i := i + 8;
    }
    while i < n
      invariant i <= n && bits == Bits(p[..i]) % U32
    {
      BitsUpTo(p[..], i, i + 1);
      assert p[..][..i] == p[..i] && p[..][..i + 1] == p[..i + 1];
      AddMod(Bits(p[..i]), Pop(p[i]));
      bits := (bits + Pop(p[i])) % U32;
      i := i + 1;
    }
  }

  lemma GuardIsExact(i: nat, n: nat)
    requires i <= n < U32 - 8
    ensures (i + 8) % U32 <= n <==> i + 8 <= n
  {}

  /** The 32-bit guard keeps the words inside the buffer exactly below the last eight lengths. */
  lemma GuardHoldsIff(n: nat)
    requires n < U32
    ensures (forall i: nat :: i <= n && i % 8 == 0 ==> ((i + 8) % U32 <= n <==> i + 8 <= n)) <==> n < U32 - 8
  {
    if n < U32 - 8 {
      forall i: nat | i <= n && i % 8 == 0
        ensures (i + 8) % U32 <= n <==> i + 8 <= n
      {
        GuardIsExact(i, n);
      }
    } else {
      var last := U32 - 8;
      assert last % 8 == 0 && (last + 8) % U32 == 0;
    }
  }
}

/** CD-Text packs to R-W subcode blocks for the lead-in: plain six-bit packing of the pack ring,
    four packs to a 96-symbol block, in the smallest number of blocks that closes the ring. */
module CdTextEncode {
  import opened CdTextPack
  import opened Crc16

  const BLOCK := 96
  /** Bytes gathered for one block: four packs. */
  const GATHER := 72

  datatype Status = Ok | ErrInval

  // ---- block count ---------------------------------------------------------------------------------

  function Gcd4(a: nat): nat {
    if a % 4 == 0 then 4 else if a % 2 == 0 then 2 else 1
  }

  function BlockCount(npacks: nat): nat {
    if npacks == 0 then 0 else npacks / Gcd4(npacks)
  }

  /** b blocks of four packs come out even with a ring of n. */
  predicate Closes(b: nat, n: nat)
    requires n > 0
  {
    (4 * b) % n == 0
  }

  lemma Multiple(n: nat, m: nat)
    requires n > 0 && m % n == 0
    ensures m == n * (m / n)
  {}

  lemma MultipleMod(n: nat, k: nat)
    requires n > 0
    ensures (n * k) % n == 0
  {
    DivModIs(n * k, n, k, 0);
  }

  lemma DivModIs(a: int, n: int, q: int, r: int)
    requires n > 0 && 0 <= r < n && a == n * q + r
    ensures a / n == q && a % n == r
  {
    var d := q - a / n;
    assert n * d == a % n - r by { assert n * d == n * q - n * (a / n); }
    assert d >= 1 ==> n * d >= n;
    assert d <= -1 ==> n * d <= -n;
  }

  lemma FactorBound(n: nat, k: nat, m: nat)
    requires n > 0 && n * k < n * m
    ensures k < m
  {
    assert k >= m ==> n * k >= n * m;
  }

  /** The block count is the least positive number of blocks that closes the ring; of nothing, none. */
  lemma BlockCountIsLeast(n: nat, b: nat)
    requires n > 0
    ensures BlockCount(0) == 0
    ensures BlockCount(n) > 0 && Closes(BlockCount(n), n)
    ensures 0 < b < BlockCount(n) ==> !Closes(b, n)
  {
    var m := 4 / Gcd4(n);
    assert 4 * BlockCount(n) == n * m;
    MultipleMod(n, m);
    if 0 < b < BlockCount(n) && Closes(b, n) {
      Multiple(n, 4 * b);
      var k := 4 * b / n;
      LeastMultiple(n, k, b);
      FactorBound(n, k, m);
    }
  }

  /** A positive multiple of n that is a multiple of four is at least 4 / gcd(n, 4) times n. */
  lemma LeastMultiple(n: nat, k: nat, b: nat)
    requires n > 0 && b > 0 && 4 * b == n * k
    ensures k >= 4 / Gcd4(n)
  {
    Gcd4Values(n);
    hide Gcd4;
    FactorBound(n, 0, k);
    if k == 1 {
      SmallMultiples(n, b);
    } else if k == 2 {
      SmallMultiples(n, b);
    } else if k == 3 {
      SmallMultiples(n, b);
    }
  }

  lemma Gcd4Values(n: nat)
    ensures Gcd4(n) in {1, 2, 4}
  {}

  lemma SmallMultiples(n: nat, b: nat)
    ensures 4 * b == n || 4 * b == 3 * n ==> Gcd4(n) == 4
    ensures 4 * b == 2 * n ==> Gcd4(n) >= 2
  {
    hide Gcd4;
    if 4 * b == n {
      Gcd4OfMultiple(n, b);
    }
    if 4 * b == 3 * n {
      Gcd4OfMultiple(n, n - b);
    }
    if 4 * b == 2 * n {
      Gcd4OfEven(n, b);
    }
  }

  lemma Gcd4OfMultiple(n: nat, q: nat)
    requires n == 4 * q
    ensures Gcd4(n) == 4
  {
    DivModIs(n, 4, q, 0);
  }

  lemma Gcd4OfEven(n: nat, q: nat)
    requires n == 2 * q
    ensures Gcd4(n) >= 2
  {
    DivModIs(n, 2, q, 0);
  }

  // ---- six-bit packing ------------------------------------------------------------------------------

  /** Symbol t of the four that carry three bytes. */
  function Pack3(a: Byte, b: Byte, c: Byte, t: nat): Byte
    requires t < 4
  {
    if t == 0 then (a >> 2) & 0x3f
    else if t == 1 then ((a << 4) & 0x30) | ((b >> 4) & 0x0f)
    else if t == 2 then ((b << 2) & 0x3c) | ((c >> 6) & 0x03)
    else c & 0x3f
  }

  /** The inverse: byte t of three from four symbols. */
  function Unpack3(s0: Byte, s1: Byte, s2: Byte, s3: Byte, t: nat): Byte
    requires t < 3
  {
    if t == 0 then (s0 << 2) | (s1 >> 4)
    else if t == 1 then (s1 << 4) | (s2 >> 2)
    else (s2 << 6) | s3
  }

  lemma PackingRoundTrips(a: Byte, b: Byte, c: Byte)
    ensures
      var s0, s1, s2, s3 := Pack3(a, b, c, 0), Pack3(a, b, c, 1), Pack3(a, b, c, 2), Pack3(a, b, c, 3);
      Unpack3(s0, s1, s2, s3, 0) == a && Unpack3(s0, s1, s2, s3, 1) == b && Unpack3(s0, s1, s2, s3, 2) == c
  {}

  /** Read most significant first, the four symbols are the base-64 digits of the number whose
      base-256 digits are the three bytes. */
  lemma PackingIsBase64(a: Byte, b: Byte, c: Byte)
    ensures
      var s0, s1, s2, s3 := Pack3(a, b, c, 0), Pack3(a, b, c, 1), Pack3(a, b, c, 2), Pack3(a, b, c, 3);
      ((s0 as bv24) << 18) | ((s1 as bv24) << 12) | ((s2 as bv24) << 6) | (s3 as bv24) ==
      ((a as bv24) << 16) | ((b as bv24) << 8) | (c as bv24)
  {}

  /** The P and Q bits stay clear. */
  lemma PackingIsSixBits(a: Byte, b: Byte, c: Byte, t: nat)
    requires t < 4
    ensures Pack3(a, b, c, t) & 0xc0 == 0
  {}

  // ---- the ring --------------------------------------------------------------------------------------

  predicate IsRing(packs: seq<Byte>, n: nat) {
    n > 0 && |packs| == PACK * n
  }

  /** Byte k of the pack ring repeated forever. */
  function RingByte(packs: seq<Byte>, n: nat, k: nat): Byte
    requires IsRing(packs, n)
  {
    packs[k % (PACK * n)]
  }

  /** Symbol s of the packing of that endless byte stream. */
  function RingSymbol(packs: seq<Byte>, n: nat, s: nat): Byte
    requires IsRing(packs, n)
  {
    var at := 3 * (s / 4);
    Pack3(RingByte(packs, n, at), RingByte(packs, n, at + 1), RingByte(packs, n, at + 2), s % 4)
  }

  lemma RingIndex(n: nat, q: nat, x: nat)
    requires n > 0 && x < PACK
    ensures (PACK * q + x) % (PACK * n) == PACK * (q % n) + x
  {
    assert q == n * (q / n) + q % n;
    assert PACK * q + x == (PACK * n) * (q / n) + (PACK * (q % n) + x) by {
      assert PACK * (n * (q / n)) == (PACK * n) * (q / n);
    }
    DivModIs(PACK * q + x, PACK * n, q / n, PACK * (q % n) + x);
  }

  /** Gather four packs from the ring, starting at pack 4b. */
  method GatherFour(packs: seq<Byte>, n: nat, b: nat, buf: array<Byte>)
    requires IsRing(packs, n) && buf.Length == GATHER
    modifies buf
    ensures forall i: nat {:trigger buf[i]} :: i < GATHER ==> buf[i] == RingByte(packs, n, GATHER * b + i)
  {
    hide RingByte;
    for j := 0 to 4
      invariant forall i: nat {:trigger buf[i]} :: i < PACK * j ==> buf[i] == RingByte(packs, n, GATHER * b + i)
    {
      CopyPack(packs, n, 4 * b + j, buf, PACK * j);
    }
  }

  method CopyPack(packs: seq<Byte>, n: nat, q: nat, buf: array<Byte>, at: nat)
    requires IsRing(packs, n) && at + PACK <= buf.Length
    modifies buf
    ensures forall i: nat {:trigger buf[i]} :: i < at ==> buf[i] == old(buf[i])
    ensures forall i: nat {:trigger buf[i]} :: at <= i < at + PACK ==> buf[i] == RingByte(packs, n, PACK * q + (i - at))
  {
    hide RingByte;
    var idx := q % n;
    for x := 0 to PACK
      invariant forall i: nat {:trigger buf[i]} :: i < at ==> buf[i] == old(buf[i])
      invariant forall i: nat {:trigger buf[i]} :: at <= i < at + x ==>
        buf[i] == RingByte(packs, n, PACK * q + (i - at))
    {
      RingByteIs(packs, n, q, x);
      buf[at + x] := packs[PACK * idx + x];
    }
  }

  lemma RingByteIs(packs: seq<Byte>, n: nat, q: nat, x: nat)
    requires IsRing(packs, n) && x < PACK
    ensures PACK * (q % n) + x < |packs|
    ensures RingByte(packs, n, PACK * q + x) == packs[PACK * (q % n) + x]
  {
    RingIndex(n, q, x);
  }

  /** Pack one gathered block, 24 groups of three bytes to four symbols. */
  method PackBlock(packs: seq<Byte>, n: nat, b: nat, buf: array<Byte>, out: array<Byte>)
    requires IsRing(packs, n) && buf.Length == GATHER && buf != out && BLOCK * b + BLOCK <= out.Length
    requires forall i: nat {:trigger buf[i]} :: i < GATHER ==> buf[i] == RingByte(packs, n, GATHER * b + i)
    modifies out
    ensures forall s: nat {:trigger out[s]} :: s < BLOCK * b || BLOCK * b + BLOCK <= s < out.Length ==>
      out[s] == old(out[s])
    ensures forall s: nat {:trigger out[s]} :: BLOCK * b <= s < BLOCK * b + BLOCK ==> out[s] == RingSymbol(packs, n, s)
  {
    hide RingByte, Pack3;
    for g := 0 to 24
      invariant forall s: nat {:trigger out[s]} :: s < BLOCK * b || BLOCK * b + BLOCK <= s < out.Length ==>
        out[s] == old(out[s])
      invariant forall s: nat {:trigger out[s]} :: BLOCK * b <= s < BLOCK * b + 4 * g ==>
        out[s] == RingSymbol(packs, n, s)
    {
      var at := BLOCK * b + 4 * g;
      var x, y, z := buf[3 * g], buf[3 * g + 1], buf[3 * g + 2];
      SymbolsOfGroup(packs, n, b, g);
      out[at] := Pack3(x, y, z, 0);
      out[at + 1] := Pack3(x, y, z, 1);
      out[at + 2] := Pack3(x, y, z, 2);
      out[at + 3] := Pack3(x, y, z, 3);
    }
  }

  lemma SymbolsOfGroup(packs: seq<Byte>, n: nat, b: nat, g: nat)
    requires IsRing(packs, n) && g < 24
    ensures
      var at, from := BLOCK * b + 4 * g, GATHER * b + 3 * g;
      var x, y, z := RingByte(packs, n, from), RingByte(packs, n, from + 1), RingByte(packs, n, from + 2);
      && RingSymbol(packs, n, at) == Pack3(x, y, z, 0) && RingSymbol(packs, n, at + 1) == Pack3(x, y, z, 1)
      && RingSymbol(packs, n, at + 2) == Pack3(x, y, z, 2) && RingSymbol(packs, n, at + 3) == Pack3(x, y, z, 3)
  {
    hide RingByte, Pack3;
    var at := BLOCK * b + 4 * g;
    assert at / 4 == 24 * b + g;
  }

  /** adsc_cdtext_encode_rw: the emitted symbols are the packing of the ring, block after block. */
  method EncodeRw(packs: seq<Byte>, npacks: nat, out: array<Byte>) returns (rc: Status)
    requires |packs| == PACK * npacks && BLOCK * BlockCount(npacks) <= out.Length
    modifies out
    ensures rc == ErrInval <==> npacks == 0
    ensures rc == ErrInval ==> out[..] == old(out[..])
    ensures rc == Ok ==> forall s: nat {:trigger out[s]} :: s < out.Length ==>
      out[s] == if s < BLOCK * BlockCount(npacks) then RingSymbol(packs, npacks, s) else old(out[s])
  {
    hide RingSymbol, BlockCount;
    if npacks == 0 {
      return ErrInval;
    }
    var nblocks := BlockCount(npacks);
    for b := 0 to nblocks
      invariant forall s: nat {:trigger out[s]} :: s < out.Length ==>
        out[s] == if s < BLOCK * b then RingSymbol(packs, npacks, s) else old(out[s])
    {
      var buf := new Byte[GATHER];
      GatherFour(packs, npacks, b, buf);
      PackBlock(packs, npacks, b, buf, out);
    }
    rc := Ok;
  }

  // ---- repeating the blocks is packing the endless ring -------------------------------------------------

  lemma RingBytePeriod(packs: seq<Byte>, n: nat, k: nat, turns: nat)
    requires IsRing(packs, n)
    ensures RingByte(packs, n, k + GATHER * BlockCount(n) * turns) == RingByte(packs, n, k)
  {
    hide BlockCount;
    var p := PACK * n;
    var c := 4 * BlockCount(n) / n;
    BlockCountIsLeast(n, 0);
    Multiple(n, 4 * BlockCount(n));
    var q := k / p;
    assert GATHER * BlockCount(n) * turns == p * (c * turns) by {
      assert 4 * BlockCount(n) == n * c;
      assert GATHER * BlockCount(n) == PACK * (n * c) == p * c;
      assert (p * c) * turns == p * (c * turns);
    }
    assert p * (q + c * turns) == p * q + p * (c * turns);
    DivModIs(k + p * (c * turns), p, q + c * turns, k % p);
  }

  /** Symbol s of the packed endless ring is symbol s of the emitted blocks repeated forever: after
      any number of repetitions the packing starts over. */
  lemma RepeatedBlocksAreThePackedRing(packs: seq<Byte>, n: nat, emitted: seq<Byte>, s: nat, turns: nat)
    requires IsRing(packs, n)
    requires |emitted| == BLOCK * BlockCount(n) && s < |emitted|
    requires forall i: nat {:trigger emitted[i]} :: i < |emitted| ==> emitted[i] == RingSymbol(packs, n, i)
    ensures RingSymbol(packs, n, s + |emitted| * turns) == emitted[s]
  {
    hide RingByte, BlockCount, RingSymbol;
    var t := 24 * BlockCount(n) * turns;
    var at := 3 * (s / 4);
    RegroupPeriods(BlockCount(n), turns);
    RingBytePeriod(packs, n, at, turns);
    RingBytePeriod(packs, n, at + 1, turns);
    RingBytePeriod(packs, n, at + 2, turns);
    SymbolPeriod(packs, n, s, t);
  }

  lemma RegroupPeriods(c: nat, turns: nat)
    ensures BLOCK * c * turns == 4 * (24 * c * turns)
    ensures GATHER * c * turns == 3 * (24 * c * turns)
  {
    var x := c * turns;
    assert BLOCK * c * turns == BLOCK * x && GATHER * c * turns == GATHER * x && 24 * c * turns == 24 * x;
  }

  lemma SymbolPeriod(packs: seq<Byte>, n: nat, s: nat, t: nat)
    requires IsRing(packs, n)
    requires
      var at := 3 * (s / 4);
      && RingByte(packs, n, at + 3 * t) == RingByte(packs, n, at)
      && RingByte(packs, n, at + 1 + 3 * t) == RingByte(packs, n, at + 1)
      && RingByte(packs, n, at + 2 + 3 * t) == RingByte(packs, n, at + 2)
    ensures RingSymbol(packs, n, s + 4 * t) == RingSymbol(packs, n, s)
  {
    hide RingByte, Pack3;
    assert (s + 4 * t) / 4 == s / 4 + t && (s + 4 * t) % 4 == s % 4;
  }

  /** Reading a block back gives the 72 bytes of its four packs. */
  lemma UnpackingRecoversThePacks(packs: seq<Byte>, n: nat, g: nat, t: nat)
    requires IsRing(packs, n) && t < 3
    ensures
      Unpack3(RingSymbol(packs, n, 4 * g), RingSymbol(packs, n, 4 * g + 1), RingSymbol(packs, n, 4 * g + 2),
              RingSymbol(packs, n, 4 * g + 3), t) == RingByte(packs, n, 3 * g + t)
  {
    hide RingByte, Pack3, Unpack3;
    PackingRoundTrips(RingByte(packs, n, 3 * g), RingByte(packs, n, 3 * g + 1), RingByte(packs, n, 3 * g + 2));
  }
}

/** How far apart two wrong bits must be for the CRC gate to miss them: the register's period on a
    single bit is 32767, the largest the polynomial allows. */
module CrcPeriod {
  import opened Crc16

  const PERIOD := 32767

  // ---- multiplication in the register ----------------------------------------------------------------

  function Pick(a: Word, b: Word): Word { if b & 1 != 0 then a else 0 }

  function Down1(b: Word): Word { b >> 1 }

  /** Sum of the shifts of a named by the n low bits of b. */
  function Horner(a: Word, b: Word, n: nat): Word
    decreases n
  {
    if n == 0 then 0 else Xor(Pick(a, b), Horner(Shift1(a), Down1(b), n - 1))
  }

  function DownBy(b: Word, n: nat): Word
    decreases n
  {
    if n == 0 then b else DownBy(Down1(b), n - 1)
  }

  lemma LowestBit(b: Word)
    ensures b == Xor(Pick(1, b), Shift1(Down1(b)))
  {}

  lemma {:induction false} ShiftOfPick(k: nat, b: Word)
    ensures Shift(k, Pick(1, b)) == Pick(Shift(k, 1), b)
  {
    ShiftZero(k);
  }

  /** Shifting a word k times is multiplying it by one bit shifted k times. */
  lemma {:induction false} HornerIsShift(k: nat, b: Word, n: nat)
    requires DownBy(b, n) == 0
    ensures Horner(Shift(k, 1), b, n) == Shift(k, b)
    decreases n
  {
    hide Xor, Shift1, Pick, Down1;
    if n == 0 {
      ShiftZero(k);
    } else {
      var c := Down1(b);
      HornerIsShift(k + 1, c, n - 1);
      ShiftAdd(k, 1, c);
      LowestBit(b);
      ShiftLinear(k, Pick(1, b), Shift1(c));
      ShiftOfPick(k, b);
      ShiftOnce(c);
    }
  }

  function Shift4(a: Word): Word { Shift1(Shift1(Shift1(Shift1(a)))) }

  function Down4(b: Word): Word { b >> 4 }

  function Four(a: Word, b: Word): Word {
    Xor(Pick(a, b), Xor(Pick(Shift1(a), b >> 1),
        Xor(Pick(Shift1(Shift1(a)), b >> 2), Pick(Shift1(Shift1(Shift1(a))), b >> 3))))
  }

  /** The product of two words, written out. */
  function Times(a: Word, b: Word): Word {
    Xor(Four(a, b), Xor(Four(Shift4(a), Down4(b)),
        Xor(Four(Shift4(Shift4(a)), Down4(Down4(b))), Four(Shift4(Shift4(Shift4(a))), Down4(Down4(Down4(b)))))))
  }

  lemma Downs(b: Word)
    ensures Down1(b) == b >> 1 && Down1(b >> 1) == b >> 2 && Down1(b >> 2) == b >> 3 && Down1(b >> 3) == b >> 4
  {}

  lemma HornerFour(a: Word, b: Word, n: nat)
    ensures Horner(a, b, n + 4) == Xor(Four(a, b), Horner(Shift4(a), Down4(b), n))
  {
    hide Xor, Shift1, Pick, Down1;
    Downs(b);
    var a1 := Shift1(a);
    var a2 := Shift1(a1);
    var a3 := Shift1(a2);
    var rest := Horner(Shift1(a3), b >> 4, n);
    assert Horner(a3, b >> 3, n + 1) == Xor(Pick(a3, b >> 3), rest);
    assert Horner(a2, b >> 2, n + 2) == Xor(Pick(a2, b >> 2), Horner(a3, b >> 3, n + 1));
    assert Horner(a1, b >> 1, n + 3) == Xor(Pick(a1, b >> 1), Horner(a2, b >> 2, n + 2));
    assert Horner(a, b, n + 4) == Xor(Pick(a, b), Horner(a1, b >> 1, n + 3));
    Regroup(Pick(a, b), Pick(a1, b >> 1), Pick(a2, b >> 2), Pick(a3, b >> 3), rest);
  }

  lemma Regroup(p: Word, q: Word, r: Word, s: Word, t: Word)
    ensures Xor(p, Xor(q, Xor(r, Xor(s, t)))) == Xor(Xor(p, Xor(q, Xor(r, s))), t)
  {
    hide Xor;
    XorAssoc(r, s, t);
    XorAssoc(q, Xor(r, s), t);
    XorAssoc(p, Xor(q, Xor(r, s)), t);
  }

  lemma NoMore(b: Word)
    ensures Down4(Down4(Down4(Down4(b)))) == 0
  {}

  lemma HornerNone(a: Word, b: Word)
    ensures Horner(a, b, 0) == 0
  {}

  lemma HornerIsTimes(a: Word, b: Word)
    ensures Horner(a, b, 16) == Times(a, b)
  {
    hide Xor, Shift4, Four, Down4, Horner;
    var a4, b4 := Shift4(a), Down4(b);
    var a8, b8 := Shift4(a4), Down4(b4);
    var a12, b12 := Shift4(a8), Down4(b8);
    HornerFour(a, b, 12);
    HornerFour(a4, b4, 8);
    HornerFour(a8, b8, 4);
    HornerFour(a12, b12, 0);
    HornerNone(Shift4(a12), Down4(b12));
    XorZero(Four(a12, b12));
  }

  lemma DownFour(b: Word, n: nat)
    ensures DownBy(b, n + 4) == DownBy(Down4(b), n)
  {
    hide Down1;
    Downs(b);
    assert DownBy(b >> 2, n + 2) == DownBy(b >> 3, n + 1) == DownBy(b >> 4, n);
    assert DownBy(b, n + 4) == DownBy(b >> 1, n + 3) == DownBy(b >> 2, n + 2);
  }

  lemma NothingLeft(b: Word)
    ensures DownBy(b, 16) == 0
  {
    hide Down4;
    NoMore(b);
    DownFour(b, 12);
    DownFour(Down4(b), 8);
    DownFour(Down4(Down4(b)), 4);
    DownFour(Down4(Down4(Down4(b))), 0);
  }

  /** Shift counts add where words multiply. */
  lemma PowersMultiply(j: nat, k: nat)
    ensures Shift(j + k, 1) == Times(Shift(j, 1), Shift(k, 1))
  {
    hide Shift, Times, Horner, DownBy;
    ShiftAdd(j, k, 1);
    NothingLeft(Shift(k, 1));
    HornerIsShift(j, Shift(k, 1), 16);
    HornerIsTimes(Shift(j, 1), Shift(k, 1));
  }

  lemma Product(j: nat, a: Word, k: nat, b: Word, c: Word)
    requires Shift(j, 1) == a && Shift(k, 1) == b && Times(a, b) == c
    ensures Shift(j + k, 1) == c
  {
    hide Times, Shift;
    PowersMultiply(j, k);
  }

  // ---- the period -------------------------------------------------------------------------------------

  lemma LowProducts()
    ensures Times(0x0002, 0x0002) == 0x0004
    ensures Times(0x0004, 0x0004) == 0x0010
    ensures Times(0x0010, 0x0010) == 0x0100
    ensures Times(0x0100, 0x0002) == 0x0200
    ensures Times(0x0100, 0x0100) == 0x1021
    ensures Times(0x1021, 0x1021) == 0x3730
    ensures Times(0x3730, 0x3730) == 0xb861
    ensures Times(0xb861, 0xb861) == 0xaefc
  {}

  lemma HighProducts()
    ensures Times(0xaefc, 0xaefc) == 0x8e29
    ensures Times(0x8e29, 0x8e29) == 0x13fc
    ensures Times(0x13fc, 0x13fc) == 0x36c4
    ensures Times(0x36c4, 0x36c4) == 0xfd50
    ensures Times(0xfd50, 0xfd50) == 0xaa9e
    ensures Times(0xaa9e, 0xaa9e) == 0x881c
    ensures Times(0x881c, 0x881c) == 0x4458
    ensures Times(0x4458, 0x4458) == 0x0002
  {}

  lemma MixedProducts()
    ensures Times(0xaefc, 0xb861) == 0x650b
    ensures Times(0x650b, 0x1021) == 0x45b4
    ensures Times(0x45b4, 0x0200) == 0x48e3
    ensures Times(0x36c4, 0x3730) == 0xf147
    ensures Times(0xf147, 0x0002) == 0xf2af
    ensures Times(0xaa9e, 0x13fc) == 0x54a0
    ensures Times(0x54a0, 0xb861) == 0x0106
    ensures Times(0x0106, 0x0200) == 0x2c42
  {}

  /** The register after the powers of two, up to 32768 shifts of a single bit. */
  lemma PowersOfTwo()
    ensures Shift(1, 1) == 0x0002
    ensures Shift(9, 1) == 0x0200 && Shift(16, 1) == 0x1021 && Shift(32, 1) == 0x3730 && Shift(64, 1) == 0xb861
    ensures Shift(128, 1) == 0xaefc && Shift(512, 1) == 0x13fc && Shift(1024, 1) == 0x36c4 && Shift(4096, 1) == 0xaa9e
    ensures Shift(32768, 1) == 0x0002
  {
    hide Times, Shift;
    LowProducts();
    HighProducts();
    OneShift();
    Product(1, 0x0002, 1, 0x0002, 0x0004);
    Product(2, 0x0004, 2, 0x0004, 0x0010);
    Product(4, 0x0010, 4, 0x0010, 0x0100);
    Product(8, 0x0100, 1, 0x0002, 0x0200);
    Product(8, 0x0100, 8, 0x0100, 0x1021);
    Product(16, 0x1021, 16, 0x1021, 0x3730);
    Product(32, 0x3730, 32, 0x3730, 0xb861);
    Product(64, 0xb861, 64, 0xb861, 0xaefc);
    Product(128, 0xaefc, 128, 0xaefc, 0x8e29);
    Product(256, 0x8e29, 256, 0x8e29, 0x13fc);
    Product(512, 0x13fc, 512, 0x13fc, 0x36c4);
    Product(1024, 0x36c4, 1024, 0x36c4, 0xfd50);
    Product(2048, 0xfd50, 2048, 0xfd50, 0xaa9e);
    Product(4096, 0xaa9e, 4096, 0xaa9e, 0x881c);
    Product(8192, 0x881c, 8192, 0x881c, 0x4458);
    Product(16384, 0x4458, 16384, 0x4458, 0x0002);
  }

  lemma OneShift()
    ensures Shift(1, 1) == 0x0002
  {}

  /** A full period, and none of its largest proper divisors, brings a single bit back. */
  lemma PeriodReturns()
    ensures Shift(PERIOD, 1) == 1
    ensures Shift(217, 1) != 1 && Shift(1057, 1) != 1 && Shift(4681, 1) != 1
  {
    hide Times, Shift;
    PowersOfTwo();
    MixedProducts();
    Product(128, 0xaefc, 64, 0xb861, 0x650b);
    Product(192, 0x650b, 16, 0x1021, 0x45b4);
    Product(208, 0x45b4, 9, 0x0200, 0x48e3);
    Product(1024, 0x36c4, 32, 0x3730, 0xf147);
    Product(1056, 0xf147, 1, 0x0002, 0xf2af);
    Product(4096, 0xaa9e, 512, 0x13fc, 0x54a0);
    Product(4608, 0x54a0, 64, 0xb861, 0x0106);
    Product(4672, 0x0106, 9, 0x0200, 0x2c42);
    ShiftAdd(1, PERIOD, 1);
    ShiftInjective(1, Shift(PERIOD, 1), 1);
  }

  predicate Returns(k: nat) { Shift(k, 1) == 1 }

  lemma ReturnsDifference(j: nat, k: nat)
    requires Returns(j) && Returns(j + k)
    ensures Returns(k)
  {
    hide Shift;
    ShiftAdd(j, k, 1);
    ShiftInjective(j, Shift(k, 1), 1);
  }

  lemma {:induction false} ReturnsMultiple(k: nat, m: nat)
    requires Returns(k)
    ensures Returns(k * m)
  {
    hide Shift;
    if m > 0 {
      ReturnsMultiple(k, m - 1);
      ShiftAdd(k, k * (m - 1), 1);
      assert k * m == k + k * (m - 1);
    } else {
      NoShift();
    }
  }

  lemma NoShift()
    ensures Shift(0, 1) == 1
  {}

  lemma ReturnsRemainder(q: nat, n: nat, k: nat)
    requires k > 0 && Returns(q * k) && Returns(q * n)
    ensures Returns(q * (n % k))
  {
    hide Returns;
    var t := n / k;
    ReturnsMultiple(q * k, t);
    assert q * n == q * k * t + q * (n % k) by {
      assert n == k * t + n % k;
      assert q * (k * t + n % k) == q * (k * t) + q * (n % k);
      assert q * (k * t) == q * k * t;
    }
    ReturnsDifference(q * k * t, q * (n % k));
  }

  /** Multiples of q that return have a common divisor, times q, that returns. */
  lemma {:induction false} CommonDivisor(q: nat, n: nat, k: nat) returns (g: nat)
    requires n > 0 && Returns(q * n) && Returns(q * k)
    ensures 0 < g && Returns(q * g) && n % g == 0 && k % g == 0
    decreases k
  {
    hide Returns;
    if k == 0 {
      g := n;
    } else {
      ReturnsRemainder(q, n, k);
      g := CommonDivisor(q, k, n % k);
      DividesSum(n, k, g);
    }
  }

  lemma DividesSum(n: nat, k: nat, g: nat)
    requires k > 0 && g > 0 && k % g == 0 && (n % k) % g == 0
    ensures n % g == 0
  {
    var q, a, b := n / k, k / g, (n % k) / g;
    assert k == g * a && n % k == g * b && n == k * q + n % k;
    assert g * a * q == g * (a * q);
    assert n == g * (a * q + b);
    Multiple(g, a * q + b);
  }

  lemma Multiple(g: nat, m: nat)
    requires g > 0
    ensures (g * m) % g == 0
  {
    var d: int := m - g * m / g;
    assert (g * m) % g == g * d;
    assert d >= 1 ==> g * d >= g;
    assert d <= -1 ==> g * d + g <= 0;
  }

  ghost predicate Prime(p: nat) {
    p > 1 && forall d {:trigger p % d} :: 1 < d < p ==> p % d != 0
  }

  lemma SmallFactor(p: nat, d: nat, e: nat)
    requires p in {7, 31, 151} && d > 1 && e > 1
    ensures p != d * e
  {
    if p == d * e {
      LargeProduct(d, e);
      if d < 13 {
        SmallFirstFactor(p, d, e);
      } else {
        SmallFirstFactor(p, e, d);
      }
    }
  }

  lemma LargeProduct(d: nat, e: nat)
    ensures d >= 13 && e >= 13 ==> d * e >= 169
  {
    if d >= 13 && e >= 13 {
      assert d * e >= 13 * e;
    }
  }

  lemma SmallFirstFactor(p: nat, d: nat, e: nat)
    requires p in {7, 31, 151} && 1 < d < 13 && e > 1
    ensures p != d * e
  {
    assert d == 2 ==> d * e == 2 * e;
    assert d == 3 ==> d * e == 3 * e;
    assert d == 4 ==> d * e == 4 * e;
    assert d == 5 ==> d * e == 5 * e;
    assert d == 6 ==> d * e == 6 * e;
    assert d == 7 ==> d * e == 7 * e;
    assert d == 8 ==> d * e == 8 * e;
    assert d == 9 ==> d * e == 9 * e;
    assert d == 10 ==> d * e == 10 * e;
    assert d == 11 ==> d * e == 11 * e;
    assert d == 12 ==> d * e == 12 * e;
  }

  lemma ArePrime(p: nat)
    requires p in {7, 31, 151}
    ensures Prime(p)
  {
    forall d | 1 < d < p
      ensures p % d != 0
    {
      var e := p / d;
      if p % d == 0 {
        assert p == d * e;
        assert e <= 1 ==> d * e <= d;
        SmallFactor(p, d, e);
      }
    }
  }

  lemma DivisorOfPrime(p: nat, g: nat)
    requires Prime(p) && g > 0 && p % g == 0
    ensures g == 1 || g == p
  {
    if g > p {
      SmallMod(p, g);
    }
  }

  lemma SmallMod(n: nat, k: nat)
    requires n < k
    ensures n % k == n
  {}

  /** A prime factor whose cofactor does not return divides every shift count that returns. */
  lemma PrimeDivides(p: nat, q: nat, k: nat)
    requires Prime(p) && Returns(q * p) && !Returns(q) && Returns(k)
    ensures k % p == 0
  {
    hide Returns, Prime;
    PrimeIsPositive(p);
    ReturnsMultiple(k, q);
    assert q * k == k * q;
    var g := CommonDivisor(q, p, k);
    DivisorOfPrime(p, g);
    assert q * 1 == q;
  }

  lemma PrimeIsPositive(p: nat)
    requires Prime(p)
    ensures p > 1
  {}

  /** A single bit comes back after the multiples of 32767 shifts and no others. */
  lemma ReturnsIff(k: nat)
    ensures Returns(k) <==> k % PERIOD == 0
  {
    hide Returns, Prime;
    WhatReturns();
    ReturnsMultiple(PERIOD, k / PERIOD);
    assert k % PERIOD == 0 ==> k == PERIOD * (k / PERIOD);
    if Returns(k) {
      ArePrime(7);
      ArePrime(31);
      ArePrime(151);
      PrimeDivides(7, 4681, k);
      PrimeDivides(31, 1057, k);
      PrimeDivides(151, 217, k);
      Together(k);
    }
  }

  lemma WhatReturns()
    ensures Returns(PERIOD) && !Returns(217) && !Returns(1057) && !Returns(4681)
    ensures Returns(4681 * 7) && Returns(1057 * 31) && Returns(217 * 151)
  {
    hide Shift;
    PeriodReturns();
  }

  lemma Together(k: nat)
    requires k % 7 == 0 && k % 31 == 0 && k % 151 == 0
    ensures k % PERIOD == 0
  {
    var t := CommonMultiple(k, k / 7, k / 31, k / 151);
    Multiple(PERIOD, t);
  }

  lemma CommonMultiple(k: nat, a: nat, b: nat, c: nat) returns (t: nat)
    requires k == 7 * a && k == 31 * b && k == 151 * c
    ensures k == PERIOD * t
  {
    var m: int := 9 * b - 2 * a;
    assert k == 217 * m;
    var u: int := 135 * c - 194 * m;
    assert k == PERIOD * u;
    t := u;
  }

  // ---- errors of two bits --------------------------------------------------------------------------------

  lemma {:induction false} ClearBitsShift(c: Word, bits: seq<bool>)
    requires AllClear(bits)
    ensures CrcBits(c, bits) == Shift(|bits|, c)
    decreases |bits|
  {
    hide Xor, Shift1;
    if |bits| > 0 {
      XorZero(c);
      ClearBitsShift(Shift1(c), bits[1..]);
      ShiftAdd(|bits| - 1, 1, c);
      ShiftOnce(c);
    }
  }

  /** Exactly the bits i and j are set. */
  ghost predicate TwoBitsAt(bits: seq<bool>, i: nat, j: nat) {
    i < j < |bits| && forall k :: 0 <= k < |bits| ==> (bits[k] <==> k == i || k == j)
  }

  lemma SetBit(c: Word)
    ensures CrcBits(c, [true]) == Shift1(Xor(c, 0x8000))
  {
    assert [true][1..] == [];
  }

  lemma TopIsAPower()
    ensures Shift(15, 1) == 0x8000 && Shift1(0x8000) == Shift(16, 1)
  {
    hide Shift, Times;
    PowersOfTwo();
    ShiftAdd(1, 15, 1);
    ShiftOnce(0x8000);
    assert Shift1(0x8000) == 0x1021;
    ShiftInjective(1, Shift(15, 1), 0x8000);
  }

  /** The register after a clear prefix, a set bit, a clear stretch, a set bit and a clear rest. */
  lemma TwoBitCrc(bits: seq<bool>, i: nat, j: nat)
    requires TwoBitsAt(bits, i, j)
    ensures CrcBits(0, bits) == Shift(|bits| - j + 15, Xor(Shift(j - i, 1), 1))
  {
    hide Xor, Shift1, Shift, CrcBits;
    var a, b, c := bits[..i], bits[i + 1..j], bits[j + 1..];
    var d, m := j - i, |c|;
    assert bits == a + ([true] + (b + ([true] + c)));
    CrcBitsConcat(0, a, [true] + (b + ([true] + c)));
    ClearBitsShift(0, a);
    ShiftZero(i);
    CrcBitsConcat(0, [true], b + ([true] + c));
    SetBit(0);
    XorZero(0x8000);
    TopIsAPower();
    CrcBitsConcat(Shift(16, 1), b, [true] + c);
    ClearBitsShift(Shift(16, 1), b);
    ShiftAdd(|b|, 16, 1);
    ShiftAdd(15, d, 1);
    var r := Shift(15, Shift(d, 1));
    CrcBitsConcat(r, [true], c);
    SetBit(r);
    ShiftLinear(15, Shift(d, 1), 1);
    var s := Xor(Shift(d, 1), 1);
    ShiftAdd(1, 15, s);
    ShiftOnce(Shift(15, s));
    ClearBitsShift(Shift(16, s), c);
    ShiftAdd(m, 16, s);
  }

  /** An error in two bits of an accepted frame is missed exactly when a multiple of 32767 lies
      between them. */
  lemma TwoBitErrorIsMissedIff(frame: seq<Byte>, error: seq<Byte>, i: nat, j: nat)
    requires |frame| == |error| && Accepts(frame) && TwoBitsAt(FrameBits(error), i, j)
    ensures Accepts(XorBytes(frame, error)) <==> (j - i) % PERIOD == 0
  {
    hide Xor, Shift, Accepts, CrcBits, CrcFrom, FrameBits, XorBytes, TwoBitsAt;
    UndetectedIffCrcZero(frame, error);
    CrcIsCrcOfBits(0, error);
    InOrder(FrameBits(error), i, j);
    TwoBitCrc(FrameBits(error), i, j);
    ShiftedZeroIff(8 * |error| - j + 15, Xor(Shift(j - i, 1), 1));
    XorZeroIffEqual(Shift(j - i, 1), 1);
    ReturnsIff(j - i);
  }

  lemma InOrder(bits: seq<bool>, i: nat, j: nat)
    requires TwoBitsAt(bits, i, j)
    ensures i < j < |bits|
  {}

  lemma ShiftedZeroIff(k: nat, c: Word)
    ensures Shift(k, c) == 0 <==> c == 0
  {
    hide Shift;
    ShiftZero(k);
    if Shift(k, c) == 0 {
      ShiftInjective(k, c, 0);
    }
  }

  // ---- errors of up to three bits ------------------------------------------------------------------------

  ghost function BitCount(bits: seq<bool>): nat {
    if |bits| == 0 then 0 else (if bits[0] then 1 else 0) + BitCount(bits[1..])
  }

  lemma {:induction false} OddCountIs(bits: seq<bool>)
    ensures OddCount(bits) <==> BitCount(bits) % 2 == 1
  {
    if |bits| > 0 {
      OddCountIs(bits[1..]);
    }
  }

  lemma {:induction false} NoneSet(bits: seq<bool>)
    requires BitCount(bits) == 0
    ensures AllClear(bits)
  {
    if |bits| > 0 {
      NoneSet(bits[1..]);
      assert forall i :: 1 <= i < |bits| ==> bits[i] == bits[1..][i - 1];
    }
  }

  lemma {:induction false} OneSet(bits: seq<bool>) returns (i: nat)
    requires BitCount(bits) == 1
    ensures i < |bits| && forall k :: 0 <= k < |bits| ==> (bits[k] <==> k == i)
  {
    assert forall k :: 1 <= k < |bits| ==> bits[k] == bits[1..][k - 1];
    if bits[0] {
      NoneSet(bits[1..]);
      i := 0;
    } else {
      i := OneSet(bits[1..]);
      i := i + 1;
    }
  }

  lemma {:induction false} TwoSet(bits: seq<bool>) returns (i: nat, j: nat)
    requires BitCount(bits) == 2
    ensures TwoBitsAt(bits, i, j)
  {
    assert forall k :: 1 <= k < |bits| ==> bits[k] == bits[1..][k - 1];
    if bits[0] {
      j := OneSet(bits[1..]);
      i, j := 0, j + 1;
    } else {
      i, j := TwoSet(bits[1..]);
      i, j := i + 1, j + 1;
    }
  }

  /** In a frame of at most 32767 bits, as Q frames and CD-Text packs are, every error of one, two or
      three bits is rejected. */
  lemma FewBitErrorsAreDetected(frame: seq<Byte>, error: seq<Byte>)
    requires |frame| == |error| && Accepts(frame) && 8 * |frame| <= PERIOD
    requires 1 <= BitCount(FrameBits(error)) <= 3
    ensures !Accepts(XorBytes(frame, error))
  {
    hide Accepts, FrameBits, BitCount, OddCount, XorBytes;
    OddCountIs(FrameBits(error));
    if BitCount(FrameBits(error)) == 2 {
      var i, j := TwoSet(FrameBits(error));
      TwoBitErrorIsMissedIff(frame, error, i, j);
    } else {
      OddErrorIsDetected(frame, error);
    }
  }
}

/** CRC-16 with polynomial 0x1021, initial value 0, most significant bit first: the one integrity
    check of the Q subchannel and of CD-Text packs, and its table-driven twin. */
module Crc16 {

  type Byte = bv8
  type Word = bv16

  function Xor(a: Word, b: Word): Word { a ^ b }

  /** One bit of the shift register: the bit that falls out comes back at positions 0, 5 and 12. */
  function Shift1(c: Word): Word {
    var t := c >> 15;
    Xor(Xor(Xor(c << 1, t), t << 5), t << 12)
  }

  function Shift(k: nat, c: Word): Word {
    if k == 0 then c else Shift1(Shift(k - 1, c))
  }

  /** A byte entering at the top of the register. */
  function High(d: Byte): Word {
    (d as Word) << 8
  }

  /** The register after a byte string. */
  function CrcFrom(c: Word, data: seq<Byte>): Word
    decreases |data|
  {
    if |data| == 0 then c else CrcFrom(Shift(8, Xor(c, High(data[0]))), data[1..])
  }

  function Crc(data: seq<Byte>): Word {
    CrcFrom(0, data)
  }

  // ---- the register is linear and reversible ---------------------------------------------

  lemma XorComm(a: Word, b: Word)
    ensures Xor(a, b) == Xor(b, a)
  {}

  lemma XorAssoc(a: Word, b: Word, c: Word)
    ensures Xor(Xor(a, b), c) == Xor(a, Xor(b, c))
  {}

  lemma XorZero(a: Word)
    ensures Xor(a, 0) == a && Xor(0, a) == a && Xor(a, a) == 0
  {}

  lemma XorZeroIffEqual(a: Word, b: Word)
    ensures Xor(a, b) == 0 <==> a == b
  {
    hide Xor;
    XorAssoc(a, b, b);
    XorZero(a);
    XorZero(b);
  }

  lemma XorInterchange(a: Word, b: Word, c: Word, d: Word)
    ensures Xor(Xor(a, b), Xor(c, d)) == Xor(Xor(a, c), Xor(b, d))
  {
    hide Xor;
    XorAssoc(a, b, Xor(c, d));
    XorAssoc(b, c, d);
    XorAssoc(c, b, d);
    XorComm(b, c);
    XorAssoc(a, c, Xor(b, d));
  }

  lemma Shift1Linear(a: Word, b: Word)
    ensures Shift1(Xor(a, b)) == Xor(Shift1(a), Shift1(b))
  {
    hide Xor;
    var t, u := a >> 15, b >> 15;
    MovesDistribute(a, b);
    MovesDistribute(t, u);
    XorInterchange(a << 1, b << 1, t, u);
    XorInterchange(Xor(a << 1, t), Xor(b << 1, u), t << 5, u << 5);
    XorInterchange(Xor(Xor(a << 1, t), t << 5), Xor(Xor(b << 1, u), u << 5), t << 12, u << 12);
  }

  lemma MovesDistribute(a: Word, b: Word)
    ensures Xor(a, b) << 1 == Xor(a << 1, b << 1)
    ensures Xor(a, b) >> 15 == Xor(a >> 15, b >> 15)
    ensures Xor(a, b) << 5 == Xor(a << 5, b << 5)
    ensures Xor(a, b) << 12 == Xor(a << 12, b << 12)
  {
    hide Xor;
    MoveBy1(a, b);
    MoveDownBy15(a, b);
    MoveBy5(a, b);
    MoveBy12(a, b);
  }

  lemma MoveBy1(a: Word, b: Word)
    ensures Xor(a, b) << 1 == Xor(a << 1, b << 1)
  {
    hide Xor;
    MoveOfSum(a, b);
  }

  lemma MoveDownBy15(a: Word, b: Word)
    ensures Xor(a, b) >> 15 == Xor(a >> 15, b >> 15)
  {}

  lemma MoveBy5(a: Word, b: Word)
    ensures Xor(a, b) << 5 == Xor(a << 5, b << 5)
  {}

  lemma MoveBy12(a: Word, b: Word)
    ensures Xor(a, b) << 12 == Xor(a << 12, b << 12)
  {}

  lemma Shift1Injective(a: Word, b: Word)
    requires Shift1(a) == Shift1(b)
    ensures a == b
  {
    hide Shift1, Xor;
    Shift1Linear(a, b);
    XorZeroIffEqual(Shift1(a), Shift1(b));
    XorZeroIffEqual(a, b);
    Shift1ByTest(Xor(a, b));
    XorZeroIffEqual(Xor(a, b) << 1, 0x1021);
    ShiftedIsEven(Xor(a, b));
  }

  lemma ShiftedIsEven(c: Word)
    ensures c << 1 != 0x1021
    ensures c << 1 == 0 && c & 0x8000 == 0 ==> c == 0
  {}

  lemma {:induction false} ShiftLinear(k: nat, a: Word, b: Word)
    ensures Shift(k, Xor(a, b)) == Xor(Shift(k, a), Shift(k, b))
  {
    hide Xor, Shift1;
    if k > 0 {
      ShiftLinear(k - 1, a, b);
      Shift1Linear(Shift(k - 1, a), Shift(k - 1, b));
    }
  }

  lemma {:induction false} ShiftInjective(k: nat, a: Word, b: Word)
    requires Shift(k, a) == Shift(k, b)
    ensures a == b
  {
    hide Shift1;
    if k > 0 {
      Shift1Injective(Shift(k - 1, a), Shift(k - 1, b));
      ShiftInjective(k - 1, a, b);
    }
  }

  lemma {:induction false} ShiftAdd(j: nat, k: nat, c: Word)
    ensures Shift(j + k, c) == Shift(j, Shift(k, c))
  {
    hide Shift1;
    if j > 0 {
      ShiftAdd(j - 1, k, c);
    }
  }

  lemma {:induction false} ShiftZero(k: nat)
    ensures Shift(k, 0) == 0
  {
    if k > 0 {
      ShiftZero(k - 1);
    }
  }

  /** The register step as the loop writes it, testing the bit that falls out. */
  lemma Shift1ByTest(c: Word)
    ensures Shift1(c) == if c & 0x8000 != 0 then Xor(c << 1, 0x1021) else c << 1
  {
    hide Shift1, Xor;
    if c & 0x8000 != 0 {
      TopBitSet(c);
      Shift1Feedback(c);
    } else {
      Shift1Plain(c);
    }
  }

  lemma TopBitSet(c: Word)
    ensures c & 0x8000 != 0 ==> c >> 15 == 1
    ensures c & 0x8000 == 0 ==> c >> 15 == 0
  {}

  lemma Shift1Feedback(c: Word)
    requires c >> 15 == 1
    ensures Shift1(c) == Xor(c << 1, 0x1021)
  {}

  lemma Shift1Plain(c: Word)
    requires c & 0x8000 == 0
    ensures Shift1(c) == c << 1
  {
    TopBitSet(c);
  }

  /** A byte in the low half reaches the high half unchanged: nothing falls out on the way. */
  lemma ShiftLowByte(d: Byte)
    ensures Shift(8, d as Word) == High(d)
  {
    hide Shift1;
    var c := d as Word;
    LowByteStaysBelowTop(d);
    Shift1Plain(c);
    Shift1Plain(c << 1);
    Shift1Plain(c << 1 << 1);
    Shift1Plain(c << 1 << 1 << 1);
    Shift1Plain(c << 1 << 1 << 1 << 1);
    Shift1Plain(c << 1 << 1 << 1 << 1 << 1);
    Shift1Plain(c << 1 << 1 << 1 << 1 << 1 << 1);
    Shift1Plain(c << 1 << 1 << 1 << 1 << 1 << 1 << 1);
    ShiftEightUnrolled(c);
  }

  lemma LowByteStaysBelowTop(d: Byte)
    ensures
      var c := d as Word;
      && c & 0x8000 == 0 && (c << 1) & 0x8000 == 0 && (c << 1 << 1) & 0x8000 == 0
      && (c << 1 << 1 << 1) & 0x8000 == 0 && (c << 1 << 1 << 1 << 1) & 0x8000 == 0
      && (c << 1 << 1 << 1 << 1 << 1) & 0x8000 == 0
      && (c << 1 << 1 << 1 << 1 << 1 << 1) & 0x8000 == 0
      && (c << 1 << 1 << 1 << 1 << 1 << 1 << 1) & 0x8000 == 0
      && c << 1 << 1 << 1 << 1 << 1 << 1 << 1 << 1 == High(d)
  {}

  lemma ShiftEightUnrolled(c: Word)
    ensures Shift(8, c) == Shift1(Shift1(Shift1(Shift1(Shift1(Shift1(Shift1(Shift1(c))))))))
  {
    hide Shift1;
    assert Shift(1, c) == Shift1(c);
    assert Shift(2, c) == Shift1(Shift(1, c));
    assert Shift(3, c) == Shift1(Shift(2, c));
    assert Shift(4, c) == Shift1(Shift(3, c));
    assert Shift(5, c) == Shift1(Shift(4, c));
    assert Shift(6, c) == Shift1(Shift(5, c));
    assert Shift(7, c) == Shift1(Shift(6, c));
    assert Shift(8, c) == Shift1(Shift(7, c));
  }

  // ---- the two implementations -------------------------------------------------------------

  method EightBits(c: Word) returns (r: Word)
    ensures r == Shift(8, c)
  {
    hide Shift1, Xor;
    r := c;
    for b := 0 to 8
      invariant r == Shift(b, c)
    {
      Shift1ByTest(r);
      r := if r & 0x8000 != 0 then Xor(r << 1, 0x1021) else r << 1;
    }
  }

  /** adsc_crc16: bit by bit. */
  method Compute(data: seq<Byte>) returns (crc: Word)
    ensures crc == Crc(data)
  {
    hide Shift1, Xor, High;
    crc := 0;
    for i := 0 to |data|
      invariant CrcFrom(crc, data[i..]) == Crc(data)
    {
      assert data[i..][1..] == data[i + 1..];
      crc := EightBits(Xor(crc, High(data[i])));
    }
  }

  ghost predicate IsTable(tab: array<Word>)
    reads tab
  {
    tab.Length == 256 && forall n: Byte {:trigger High(n)} :: tab[n as int] == Shift(8, High(n))
  }

  method TableInit(tab: array<Word>)
    requires tab.Length == 256
    modifies tab
    ensures IsTable(tab)
  {
    hide Shift1, Xor, High;
    for n := 0 to 256
      invariant forall m: Byte {:trigger High(m)} :: m as int < n ==> tab[m as int] == Shift(8, High(m))
    {
      var c := EightBits(High(n as Byte));
      tab[n] := c;
      forall m: Byte {:trigger High(m)} | m as int == n
        ensures m == n as Byte
      {
        ByteRoundTrip(m);
      }
    }
  }

  lemma ByteRoundTrip(m: Byte)
    ensures (m as int) as Byte == m
  {}

  /** The byte-at-a-time form agrees with the bitwise one on every input. */
  method ComputeByTable(tab: array<Word>, data: seq<Byte>) returns (crc: Word)
    requires IsTable(tab)
    ensures crc == Crc(data)
  {
    hide Shift1, Xor, High, Shift;
    crc := 0;
    for i := 0 to |data|
      invariant CrcFrom(crc, data[i..]) == Crc(data)
    {
      assert data[i..][1..] == data[i + 1..];
      var n := (crc >> 8) as Byte ^ data[i];
      TableStep(crc, data[i]);
      assert tab[n as int] == Shift(8, High(n));
      crc := Xor(crc << 8, tab[n as int]);
    }
  }

  /** Eight shifts split into the bytes of the register: one is looked up, one just moves. */
  lemma TableStep(crc: Word, d: Byte)
    ensures Shift(8, Xor(crc, High(d))) == Xor(crc << 8, Shift(8, High((crc >> 8) as Byte ^ d)))
  {
    hide Shift1, Xor, High, Shift;
    var lo := (crc & 0xff) as Byte;
    SplitRegister(crc, d);
    ShiftLinear(8, lo as Word, High((crc >> 8) as Byte ^ d));
    ShiftLowByte(lo);
  }

  lemma SplitRegister(crc: Word, d: Byte)
    ensures Xor(crc, High(d)) == Xor((crc & 0xff) as Byte as Word, High((crc >> 8) as Byte ^ d))
    ensures High((crc & 0xff) as Byte) == crc << 8
  {}

  // ---- what the check detects ----------------------------------------------------------------

  function XorByte(x: Byte, y: Byte): Byte { x ^ y }

  function XorBytes(x: seq<Byte>, y: seq<Byte>): (z: seq<Byte>)
    requires |x| == |y|
    ensures |z| == |x|
  {
    if |x| == 0 then [] else [XorByte(x[0], y[0])] + XorBytes(x[1..], y[1..])
  }

  lemma HighLinear(x: Byte, y: Byte)
    ensures High(XorByte(x, y)) == Xor(High(x), High(y))
  {}

  /** The check value of a sum is the sum of the check values. */
  lemma {:induction false} CrcLinear(a: Word, b: Word, x: seq<Byte>, y: seq<Byte>)
    requires |x| == |y|
    ensures CrcFrom(Xor(a, b), XorBytes(x, y)) == Xor(CrcFrom(a, x), CrcFrom(b, y))
    decreases |x|
  {
    hide Xor, High, Shift, XorByte;
    if |x| > 0 {
      HighLinear(x[0], y[0]);
      XorInterchange(a, b, High(x[0]), High(y[0]));
      ShiftLinear(8, Xor(a, High(x[0])), Xor(b, High(y[0])));
      CrcLinear(Shift(8, Xor(a, High(x[0]))), Shift(8, Xor(b, High(y[0]))), x[1..], y[1..]);
    }
  }

  lemma {:induction false} CrcConcat(c: Word, x: seq<Byte>, y: seq<Byte>)
    ensures CrcFrom(c, x + y) == CrcFrom(CrcFrom(c, x), y)
    decreases |x|
  {
    hide Xor, High, Shift;
    if |x| == 0 {
      assert x + y == y;
    } else {
      assert (x + y)[1..] == x[1..] + y;
      CrcConcat(Shift(8, Xor(c, High(x[0]))), x[1..], y);
    }
  }

  function Not(c: Word): Word { !c }

  function Join(hi: Byte, lo: Byte): Word {
    (hi as Word << 8) | lo as Word
  }

  function HighByte(w: Word): Byte { (w >> 8) as Byte }

  function LowByte(w: Word): Byte { (w & 0xff) as Byte }

  lemma NotNot(w: Word)
    ensures Not(Not(w)) == w
  {}

  lemma JoinSplit(w: Word)
    ensures Join(HighByte(w), LowByte(w)) == w
  {}

  /** The check field of a frame. */
  function Stored(frame: seq<Byte>): Word
    requires |frame| >= 2
  {
    Join(frame[|frame| - 2], frame[|frame| - 1])
  }

  /** The gate: the last two bytes hold the complement of the check value of the others. */
  predicate Accepts(frame: seq<Byte>) {
    |frame| >= 2 && Crc(frame[..|frame| - 2]) == Not(Stored(frame))
  }

  /** The register after a whole frame is a constant exactly when the frame is accepted. */
  lemma AcceptsIffResidue(frame: seq<Byte>)
    requires |frame| >= 2
    ensures Accepts(frame) <==> Crc(frame) == Shift(16, 0xFFFF)
  {
    hide Xor, High, Shift, Join, Not;
    var n := |frame| - 2;
    var c, hi, lo := Crc(frame[..n]), frame[n], frame[n + 1];
    assert frame == frame[..n] + [hi, lo];
    CrcConcat(0, frame[..n], [hi, lo]);
    TwoBytes(c, hi, lo);
    ComplementBySum(c, Stored(frame));
    if Shift(16, Xor(c, Stored(frame))) == Shift(16, 0xFFFF) {
      ShiftInjective(16, Xor(c, Stored(frame)), 0xFFFF);
    }
  }

  lemma TwoBytes(c: Word, hi: Byte, lo: Byte)
    ensures CrcFrom(c, [hi, lo]) == Shift(16, Xor(c, Join(hi, lo)))
  {
    hide Xor, High, Shift, Shift1, Join;
    var s := Xor(c, High(hi));
    assert [hi, lo][1..] == [lo];
    assert CrcFrom(c, [hi, lo]) == CrcFrom(Shift(8, s), [lo]);
    assert CrcFrom(Shift(8, s), [lo]) == Shift(8, Xor(Shift(8, s), High(lo)));
    ShiftLowByte(lo);
    ShiftLinear(8, s, lo as Word);
    ShiftAdd(8, 8, Xor(s, lo as Word));
    JoinBytes(hi, lo);
    XorAssoc(c, High(hi), lo as Word);
  }

  lemma JoinBytes(hi: Byte, lo: Byte)
    ensures Join(hi, lo) == Xor(High(hi), lo as Word)
  {}

  lemma ComplementBySum(c: Word, s: Word)
    ensures c == Not(s) <==> Xor(c, s) == 0xFFFF
  {
    hide Xor, Not;
    ComplementIsSum(s);
    XorAssoc(c, s, s);
    XorAssoc(0xFFFF, s, s);
    XorComm(0xFFFF, s);
    XorZero(c);
    XorZero(s);
    XorZero(0xFFFF);
  }

  lemma ComplementIsSum(s: Word)
    ensures Not(s) == Xor(s, 0xFFFF)
  {}

  /** An error pattern goes undetected exactly when its own check value is zero. */
  lemma UndetectedIffCrcZero(frame: seq<Byte>, error: seq<Byte>)
    requires |frame| == |error| && Accepts(frame)
    ensures Accepts(XorBytes(frame, error)) <==> Crc(error) == 0
  {
    hide Xor, Shift, Stored, CrcFrom, Not;
    AcceptsIffResidue(frame);
    AcceptsIffResidue(XorBytes(frame, error));
    CrcLinear(0, 0, frame, error);
    XorZero(0);
    XorZero(Crc(frame));
    XorCancel(Crc(frame), Crc(error));
  }

  lemma XorCancel(a: Word, b: Word)
    ensures Xor(a, b) == a <==> b == 0
  {}

  // ---- the same check, bit by bit ------------------------------------------------------------

  predicate Top(c: Word) { c & 0x8000 != 0 }

  function Shl1(c: Word): Word { c << 1 }

  function Bit(b: bool): Word { if b then 0x8000 else 0 }

  /** The k leading bits of a word, most significant first. */
  function TopBits(c: Word, k: nat): (bits: seq<bool>)
    ensures |bits| == k
    decreases k
  {
    if k == 0 then [] else [Top(c)] + TopBits(Shl1(c), k - 1)
  }

  /** What is left of a word once k leading bits have been shifted out. */
  function Drop(c: Word, k: nat): Word
    decreases k
  {
    if k == 0 then c else Drop(Shl1(c), k - 1)
  }

  function FrameBits(data: seq<Byte>): (bits: seq<bool>)
    ensures |bits| == 8 * |data|
  {
    if |data| == 0 then [] else TopBits(High(data[0]), 8) + FrameBits(data[1..])
  }

  function CrcBits(c: Word, bits: seq<bool>): Word
    decreases |bits|
  {
    if |bits| == 0 then c else CrcBits(Shift1(Xor(c, Bit(bits[0]))), bits[1..])
  }

  lemma TopAgrees(c: Word, b: bool)
    ensures Top(c) == b ==> Shift1(Xor(c, Bit(b))) == Shl1(c)
    ensures Top(c) != b ==> Shift1(Xor(c, Bit(b))) == Xor(Shl1(c), 0x1021)
  {
    hide Shift1;
    Shift1ByTest(Xor(c, Bit(b)));
    FlipTop(c);
  }

  lemma FlipTop(c: Word)
    ensures Xor(c, 0) == c
    ensures Top(Xor(c, 0x8000)) <==> !Top(c)
    ensures Shl1(Xor(c, 0x8000)) == Shl1(c)
  {}

  /** Entering a word's leading bits one at a time is entering the word and shifting. */
  lemma {:induction false} LeadingBits(c: Word, w: Word, k: nat)
    requires Drop(w, k) == 0
    ensures CrcBits(c, TopBits(w, k)) == Shift(k, Xor(c, w))
    decreases k
  {
    hide Shift1, Xor, Top, Bit, Shl1;
    if k == 0 {
      XorZero(c);
    } else {
      var b := Bit(Top(w));
      TopAgrees(w, Top(w));
      LeadingBits(Shift1(Xor(c, b)), Shl1(w), k - 1);
      Shift1Linear(Xor(c, b), Xor(w, b));
      XorInterchange(c, b, w, b);
      XorZero(b);
      XorZero(Xor(c, w));
      ShiftAdd(k - 1, 1, Xor(c, w));
      ShiftOnce(Xor(c, w));
    }
  }

  lemma ShiftOnce(c: Word)
    ensures Shift(1, c) == Shift1(c)
  {
    hide Shift1;
  }

  lemma ByteIsEightBits(d: Byte)
    ensures Drop(High(d), 8) == 0
  {
    var c := High(d);
    DropEightUnrolled(c);
    EightShiftsClearHigh(d);
  }

  lemma DropEightUnrolled(c: Word)
    ensures Drop(c, 8) == Shl1(Shl1(Shl1(Shl1(Shl1(Shl1(Shl1(Shl1(c))))))))
  {
    hide Shl1;
    var c2 := Shl1(Shl1(c));
    var c4 := Shl1(Shl1(c2));
    var c6 := Shl1(Shl1(c4));
    assert Drop(c6, 2) == Drop(Shl1(c6), 1) == Drop(Shl1(Shl1(c6)), 0);
    assert Drop(c4, 4) == Drop(Shl1(c4), 3) == Drop(c6, 2);
    assert Drop(c2, 6) == Drop(Shl1(c2), 5) == Drop(c4, 4);
    assert Drop(c, 8) == Drop(Shl1(c), 7) == Drop(c2, 6);
  }

  lemma EightShiftsClearHigh(d: Byte)
    ensures Shl1(Shl1(Shl1(Shl1(Shl1(Shl1(Shl1(Shl1(High(d))))))))) == 0
  {}

  lemma {:induction false} CrcBitsConcat(c: Word, x: seq<bool>, y: seq<bool>)
    ensures CrcBits(c, x + y) == CrcBits(CrcBits(c, x), y)
    decreases |x|
  {
    hide Shift1, Xor, Bit;
    if |x| == 0 {
      assert x + y == y;
    } else {
      assert (x + y)[1..] == x[1..] + y;
      CrcBitsConcat(Shift1(Xor(c, Bit(x[0]))), x[1..], y);
    }
  }

  /** The byte-wise and the bit-wise register agree. */
  lemma {:induction false} CrcIsCrcOfBits(c: Word, data: seq<Byte>)
    ensures CrcFrom(c, data) == CrcBits(c, FrameBits(data))
    decreases |data|
  {
    hide Shift1, Xor, Bit, High, Shift;
    if |data| > 0 {
      var w := High(data[0]);
      ByteIsEightBits(data[0]);
      LeadingBits(c, w, 8);
      CrcBitsConcat(c, TopBits(w, 8), FrameBits(data[1..]));
      CrcIsCrcOfBits(Shift(8, Xor(c, w)), data[1..]);
    }
  }

  // ---- bursts --------------------------------------------------------------------------------------

  ghost predicate AllClear(bits: seq<bool>) {
    forall i :: 0 <= i < |bits| ==> !bits[i]
  }

  /** Every set bit lies among the 16 consecutive positions starting at p. */
  ghost predicate BurstAt(bits: seq<bool>, p: nat) {
    forall i :: 0 <= i < |bits| && bits[i] ==> p <= i < p + 16
  }

  lemma {:induction false} DropKeepsBit(w: Word, m: Word, k: nat)
    requires w & m == m
    ensures Drop(w, k) & Drop(m, k) == Drop(m, k)
    decreases k
  {
    hide Shl1;
    if k > 0 {
      ShiftedMask(w, m);
      DropKeepsBit(Shl1(w), Shl1(m), k - 1);
    }
  }

  lemma ShiftedMask(w: Word, m: Word)
    requires w & m == m
    ensures Shl1(w) & Shl1(m) == Shl1(m)
  {}

  lemma {:induction false} DropAdd(w: Word, j: nat, k: nat)
    ensures Drop(w, j + k) == Drop(Drop(w, j), k)
    decreases j
  {
    hide Shl1;
    if j > 0 {
      DropAdd(Shl1(w), j - 1, k);
    }
  }

  lemma {:induction false} DropZero(k: nat)
    ensures Drop(0, k) == 0
    decreases k
  {
    if k > 0 {
      assert Shl1(0) == 0;
      DropZero(k - 1);
    }
  }

  lemma OneTravelsFifteen()
    ensures Drop(1, 15) == 0x8000
  {
    assert Drop(1, 5) == 0x20;
    assert Drop(0x20, 5) == 0x400;
    assert Drop(0x400, 5) == 0x8000;
    DropAdd(1, 5, 5);
    DropAdd(1, 10, 5);
  }

  lemma OddSurvives(w: Word, k: nat)
    requires w & 1 == 1 && k <= 15
    ensures Drop(w, k) != 0
  {
    hide Shl1;
    if Drop(w, k) == 0 {
      DropKeepsBit(w, 1, k);
      NothingBelowZero(Drop(1, k));
      DropAdd(1, k, 15 - k);
      DropZero(15 - k);
      OneTravelsFifteen();
    }
  }

  lemma NothingBelowZero(m: Word)
    requires 0 & m == m
    ensures m == 0
  {}

  /** Backwards through at most 16 bits: a register that ends at zero started as those bits. */
  lemma {:induction false} ZeroEndForcesBits(s: Word, bits: seq<bool>)
    requires |bits| <= 16 && CrcBits(s, bits) == 0
    ensures TopBits(s, |bits|) == bits && Drop(s, |bits|) == 0
    decreases |bits|
  {
    hide Shift1, Xor, Top, Bit, Shl1;
    if |bits| > 0 {
      var next := Shift1(Xor(s, Bit(bits[0])));
      ZeroEndForcesBits(next, bits[1..]);
      TopAgrees(s, bits[0]);
      if Top(s) != bits[0] {
        FeedbackIsOdd(s);
        OddSurvives(next, |bits| - 1);
      }
    }
  }

  lemma FeedbackIsOdd(s: Word)
    ensures Xor(Shl1(s), 0x1021) & 1 == 1
  {}

  lemma {:induction false} TopBitsOfZero(k: nat)
    ensures AllClear(TopBits(0, k))
    decreases k
  {
    if k > 0 {
      assert Shl1(0) == 0;
      TopBitsOfZero(k - 1);
    }
  }

  lemma {:induction false} ClearBitsJustShift(c: Word, bits: seq<bool>)
    requires AllClear(bits) && CrcBits(c, bits) == 0
    ensures c == 0
    decreases |bits|
  {
    hide Shift1, Xor;
    if |bits| > 0 {
      XorZero(c);
      ClearBitsJustShift(Shift1(c), bits[1..]);
      Shift1OfZero();
      Shift1Injective(c, 0);
    }
  }

  lemma Shift1OfZero()
    ensures Shift1(0) == 0
  {}

  /** No nonempty burst has check value zero. */
  lemma {:induction false} BurstHasNonzeroCrc(bits: seq<bool>, p: nat)
    requires BurstAt(bits, p) && CrcBits(0, bits) == 0
    ensures AllClear(bits)
    decreases p
  {
    hide Shift1, Xor;
    if p > 0 && |bits| > 0 {
      XorZero(0);
      Shift1OfZero();
      BurstHasNonzeroCrc(bits[1..], p - 1);
      assert forall i :: 0 < i < |bits| ==> bits[i] == bits[1..][i - 1];
    } else {
      var m := if |bits| < 16 then |bits| else 16;
      assert bits == bits[..m] + bits[m..];
      CrcBitsConcat(0, bits[..m], bits[m..]);
      ClearBitsJustShift(CrcBits(0, bits[..m]), bits[m..]);
      ZeroEndForcesBits(0, bits[..m]);
      TopBitsOfZero(m);
    }
  }

  lemma {:induction false} ClearFrame(data: seq<Byte>, i: nat)
    requires AllClear(FrameBits(data)) && i < |data|
    ensures data[i] == 0
  {
    hide High;
    var first := TopBits(High(data[0]), 8);
    if i == 0 {
      assert forall k: nat :: k < 8 ==> first[k] == FrameBits(data)[k];
      LeadingBits(0, High(data[0]), 8) by { ByteIsEightBits(data[0]); }
      ClearCrc(first);
      XorZero(High(data[0]));
      ShiftZero(8);
      ShiftInjective(8, High(data[0]), 0);
      HighIsZero(data[0]);
    } else {
      assert forall k: nat :: k < |FrameBits(data[1..])| ==> FrameBits(data[1..])[k] == FrameBits(data)[8 + k];
      ClearFrame(data[1..], i - 1);
    }
  }

  lemma {:induction false} ClearCrc(bits: seq<bool>)
    requires AllClear(bits)
    ensures CrcBits(0, bits) == 0
    decreases |bits|
  {
    hide Shift1, Xor;
    if |bits| > 0 {
      XorZero(0);
      Shift1OfZero();
      ClearCrc(bits[1..]);
    }
  }

  lemma HighIsZero(d: Byte)
    ensures High(d) == 0 <==> d == 0
  {}

  /** Every nonzero error confined to 16 consecutive bits of an accepted frame, in the data, in
      the check field or across both, is rejected. */
  lemma BurstIsDetected(frame: seq<Byte>, error: seq<Byte>, p: nat, i: nat)
    requires |frame| == |error| && Accepts(frame)
    requires i < |error| && error[i] != 0
    requires BurstAt(FrameBits(error), p)
    ensures !Accepts(XorBytes(frame, error))
  {
    hide Xor, Shift1, Shift, High, Accepts, CrcBits, CrcFrom;
    UndetectedIffCrcZero(frame, error);
    CrcIsCrcOfBits(0, error);
    if Crc(error) == 0 {
      BurstHasNonzeroCrc(FrameBits(error), p);
      ClearFrame(error, i);
    }
  }

  // ---- errors of odd weight ------------------------------------------------------------------------

  /** Parity of the k leading bits of a word. */
  predicate Odd(c: Word, k: nat)
    decreases k
  {
    if k == 0 then false else Top(c) != Odd(Shl1(c), k - 1)
  }

  predicate OddCount(bits: seq<bool>) {
    if |bits| == 0 then false else bits[0] != OddCount(bits[1..])
  }

  lemma TopOfSum(a: Word, b: Word)
    ensures Top(Xor(a, b)) <==> (Top(a) != Top(b))
  {}

  lemma MoveOfSum(a: Word, b: Word)
    ensures Shl1(Xor(a, b)) == Xor(Shl1(a), Shl1(b))
  {}

  lemma TopLinear(a: Word, b: Word)
    ensures Top(Xor(a, b)) <==> (Top(a) != Top(b))
    ensures Shl1(Xor(a, b)) == Xor(Shl1(a), Shl1(b))
  {
    hide Shl1, Top, Xor;
    TopOfSum(a, b);
    MoveOfSum(a, b);
  }

  lemma {:induction false} OddLinear(a: Word, b: Word, k: nat)
    ensures Odd(Xor(a, b), k) <==> (Odd(a, k) != Odd(b, k))
    decreases k
  {
    hide Xor, Top, Shl1;
    if k > 0 {
      TopLinear(a, b);
      OddLinear(Shl1(a), Shl1(b), k - 1);
    }
  }

  lemma {:induction false} OddExtends(c: Word, k: nat)
    ensures Odd(c, k + 1) <==> (Odd(c, k) != Top(Drop(c, k)))
    decreases k
  {
    hide Top, Shl1;
    if k > 0 {
      OddExtends(Shl1(c), k - 1);
    } else {
      assert Odd(Shl1(c), 0) == false;
    }
  }

  lemma {:induction false} DropSixteen(c: Word)
    ensures Drop(c, 16) == 0
  {
    DropAdd(c, 8, 8);
    DropEightUnrolled(c);
    DropEightUnrolled(Drop(c, 8));
    SixteenShifts(c);
  }

  lemma SixteenShifts(c: Word)
    ensures
      var h := Shl1(Shl1(Shl1(Shl1(Shl1(Shl1(Shl1(Shl1(c))))))));
      Shl1(Shl1(Shl1(Shl1(Shl1(Shl1(Shl1(Shl1(h)))))))) == 0
  {}

  lemma OddOfFeedback()
    ensures Odd(0x1021, 16)
    ensures Odd(0x8000, 16) && !Odd(0, 16)
  {
    OddOfZero(16);
    OddOfZero(15);
    assert Shl1(0x8000) == 0;
    assert Odd(0x8000, 1);
    assert Odd(0x2000, 3);
    assert Odd(0x0800, 5);
    assert !Odd(0x8400, 6);
    assert !Odd(0x0840, 10);
    assert !Odd(0x0210, 12);
    assert Odd(0x8108, 13);
  }

  lemma {:induction false} OddOfZero(k: nat)
    ensures !Odd(0, k)
    decreases k
  {
    if k > 0 {
      assert Shl1(0) == 0;
      OddOfZero(k - 1);
    }
  }

  lemma OddOfStep(c: Word)
    ensures Odd(Shift1(c), 16) == Odd(c, 16)
  {
    hide Xor, Shift1, Odd, Top, Shl1;
    Shift1ByTest(c);
    OddLinear(c << 1, 0x1021, 16);
    OddOfFeedback();
    OddOfMove(c);
  }

  /** Moving a word up one place drops its top bit from the count and adds nothing. */
  lemma OddOfMove(c: Word)
    ensures Odd(c << 1, 16) <==> (Odd(c, 16) != (c & 0x8000 != 0))
  {
    OddExtends(Shl1(c), 15);
    assert Drop(c, 16) == Drop(Shl1(c), 15);
    DropSixteen(c);
    assert Odd(c, 16) == (Top(c) != Odd(Shl1(c), 15));
  }

  /** The parity of the register is the parity of everything that entered it. */
  lemma {:induction false} OddOfCrc(c: Word, bits: seq<bool>)
    ensures Odd(CrcBits(c, bits), 16) <==> (Odd(c, 16) != OddCount(bits))
    decreases |bits|
  {
    hide Xor, Shift1, Odd, Top, Shl1;
    if |bits| > 0 {
      OddOfCrc(Shift1(Xor(c, Bit(bits[0]))), bits[1..]);
      OddOfStep(Xor(c, Bit(bits[0])));
      OddLinear(c, Bit(bits[0]), 16);
      OddOfFeedback();
    }
  }

  /** Every error in an odd number of bits is rejected, wherever the bits are. */
  lemma OddErrorIsDetected(frame: seq<Byte>, error: seq<Byte>)
    requires |frame| == |error| && Accepts(frame) && OddCount(FrameBits(error))
    ensures !Accepts(XorBytes(frame, error))
  {
    hide Xor, Shift1, Shift, High, Accepts, CrcBits, CrcFrom, Odd, OddCount;
    UndetectedIffCrcZero(frame, error);
    CrcIsCrcOfBits(0, error);
    OddOfCrc(0, FrameBits(error));
    OddOfFeedback();
  }
}

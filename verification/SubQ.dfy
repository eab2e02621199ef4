/** The Q subchannel: its 96 bits taken out of a raw P-W block, and the CRC-gated frame parser. */
module SubQ {
  import opened Crc16

  const RAW_BYTES := 96
  const FRAME_BYTES := 12

  const ADR_POSITION: Byte := 1
  const ADR_MCN: Byte := 2
  const ADR_ISRC: Byte := 3

  datatype Status = Ok | ErrCrc

  /** A parsed frame. Every payload field is zero or empty unless the frame is CRC-good and of the
      kind that carries it. */
  datatype Frame = Frame(control: Byte, adr: Byte, crcOk: bool, tno: nat, index: nat,
                         relM: nat, relS: nat, relF: nat, absM: nat, absS: nat, absF: nat,
                         mcn: seq<Byte>, isrc: seq<Byte>)

  // ---- extraction -----------------------------------------------------------------------------

  predicate QBit(b: Byte) { b & 0x40 != 0 }

  function Append(acc: Byte, b: Byte): Byte {
    (acc << 1) | ((b >> 6) & 1)
  }

  /** The byte built from the Q bits of raw[from..from+k]. */
  function Gathered(raw: seq<Byte>, from: nat, k: nat): Byte
    requires from + k <= |raw|
  {
    if k == 0 then 0 else Append(Gathered(raw, from, k - 1), raw[from + k - 1])
  }

  function QBytes(raw: seq<Byte>): (q: seq<Byte>)
    requires |raw| == RAW_BYTES
    ensures |q| == FRAME_BYTES
  {
    seq(FRAME_BYTES, (b: nat) requires b < FRAME_BYTES && |raw| == RAW_BYTES => Gathered(raw, 8 * b, 8))
  }

  method ExtractQ(raw: seq<Byte>, q: array<Byte>)
    requires |raw| == RAW_BYTES && q.Length == FRAME_BYTES
    modifies q
    ensures q[..] == QBytes(raw)
  {
    hide Append;
    for i := 0 to FRAME_BYTES
      invariant forall b: nat :: b < i ==> q[b] == 0
    {
      q[i] := 0;
    }
    for i := 0 to RAW_BYTES
      invariant forall b: nat {:trigger q[b]} :: b < i / 8 ==> q[b] == Gathered(raw, 8 * b, 8)
      invariant i < RAW_BYTES ==> q[i / 8] == Gathered(raw, 8 * (i / 8), i % 8)
      invariant forall b: nat {:trigger q[b]} :: i / 8 < b < FRAME_BYTES ==> q[b] == 0
    {
      q[i / 8] := Append(q[i / 8], raw[i]);
    }
  }

  /** The Q bits of n raw bytes from `from` on, in order. */
  function QBits(raw: seq<Byte>, from: nat, n: nat): (bits: seq<bool>)
    requires from + n <= |raw|
    ensures |bits| == n
    decreases n
  {
    if n == 0 then [] else [QBit(raw[from])] + QBits(raw, from + 1, n - 1)
  }

  function AppendEight(b: seq<Byte>): Byte
    requires |b| == 8
  {
    Append(Append(Append(Append(Append(Append(Append(Append(0, b[0]), b[1]), b[2]), b[3]), b[4]), b[5]), b[6]), b[7])
  }

  function ShlUpTo7(h: Word, i: nat): Word
    requires i < 8
  {
    if i == 0 then h
    else if i == 1 then Shl1(h)
    else if i == 2 then Shl1(Shl1(h))
    else if i == 3 then Shl1(Shl1(Shl1(h)))
    else if i == 4 then Shl1(Shl1(Shl1(Shl1(h))))
    else if i == 5 then Shl1(Shl1(Shl1(Shl1(Shl1(h)))))
    else if i == 6 then Shl1(Shl1(Shl1(Shl1(Shl1(Shl1(h))))))
    else Shl1(Shl1(Shl1(Shl1(Shl1(Shl1(Shl1(h)))))))
  }

  lemma AppendedBit(b: seq<Byte>, i: nat)
    requires |b| == 8 && i < 8
    ensures Top(ShlUpTo7(High(AppendEight(b)), i)) == QBit(b[i])
  {}

  lemma GatheredUnrolled(raw: seq<Byte>, from: nat)
    requires from + 8 <= |raw|
    ensures
      Gathered(raw, from, 8) == AppendEight(raw[from..from + 8])
  {
    hide Append;
    assert Gathered(raw, from, 1) == Append(0, raw[from]);
    assert Gathered(raw, from, 2) == Append(Gathered(raw, from, 1), raw[from + 1]);
    assert Gathered(raw, from, 3) == Append(Gathered(raw, from, 2), raw[from + 2]);
    assert Gathered(raw, from, 4) == Append(Gathered(raw, from, 3), raw[from + 3]);
    assert Gathered(raw, from, 5) == Append(Gathered(raw, from, 4), raw[from + 4]);
    assert Gathered(raw, from, 6) == Append(Gathered(raw, from, 5), raw[from + 5]);
    assert Gathered(raw, from, 7) == Append(Gathered(raw, from, 6), raw[from + 6]);
  }

  lemma DropUnrolled(h: Word, i: nat)
    requires i < 8
    ensures Drop(h, i) == ShlUpTo7(h, i)
  {
    hide Shl1;
    if i > 0 {
      DropUnrolled(h, i - 1);
      DropOneMore(h, i - 1);
    }
  }

  lemma DropOneMore(h: Word, k: nat)
    ensures Drop(h, k + 1) == Shl1(Drop(h, k))
  {
    hide Shl1;
    DropAdd(h, k, 1);
    assert Drop(Drop(h, k), 1) == Drop(Shl1(Drop(h, k)), 0);
  }

  lemma {:induction false} TopBitsAt(h: Word, k: nat, i: nat)
    requires i < k
    ensures TopBits(h, k)[i] == Top(Drop(h, i))
    decreases k
  {
    hide Top, Shl1;
    if i > 0 {
      TopBitsAt(Shl1(h), k - 1, i - 1);
    }
  }

  lemma {:induction false} QBitsAt(raw: seq<Byte>, from: nat, n: nat, i: nat)
    requires from + n <= |raw| && i < n
    ensures QBits(raw, from, n)[i] == QBit(raw[from + i])
    decreases n
  {
    hide QBit;
    if i > 0 {
      QBitsAt(raw, from + 1, n - 1, i - 1);
    }
  }

  lemma BitOfGathered(raw: seq<Byte>, from: nat, i: nat)
    requires from + 8 <= |raw| && i < 8
    ensures Top(Drop(High(Gathered(raw, from, 8)), i)) == QBit(raw[from + i])
  {
    hide AppendEight, High, Top, ShlUpTo7, QBit, Drop, Gathered;
    AppendedBit(raw[from..from + 8], i);
    GatheredUnrolled(raw, from);
    DropUnrolled(High(Gathered(raw, from, 8)), i);
  }

  lemma ByteCarriesItsBits(raw: seq<Byte>, from: nat)
    requires from + 8 <= |raw|
    ensures TopBits(High(Gathered(raw, from, 8)), 8) == QBits(raw, from, 8)
  {
    hide High, Top, QBit, Drop, TopBits, QBits, Gathered;
    var h := High(Gathered(raw, from, 8));
    forall i: nat | i < 8
      ensures TopBits(h, 8)[i] == QBits(raw, from, 8)[i]
    {
      TopBitsAt(h, 8, i);
      QBitsAt(raw, from, 8, i);
      BitOfGathered(raw, from, i);
    }
  }

  /** Extraction keeps the 96 Q bits in the order the subcode frames carried them. */
  lemma ExtractionKeepsTheBits(raw: seq<Byte>)
    requires |raw| == RAW_BYTES
    ensures FrameBits(QBytes(raw)) == QBits(raw, 0, RAW_BYTES)
  {
    BytesCarryTheirBits(raw, 0);
    assert QBytes(raw)[0..] == QBytes(raw);
  }

  lemma {:induction false} BytesCarryTheirBits(raw: seq<Byte>, b: nat)
    requires |raw| == RAW_BYTES && b <= FRAME_BYTES
    ensures FrameBits(QBytes(raw)[b..]) == QBits(raw, 8 * b, RAW_BYTES - 8 * b)
    decreases FRAME_BYTES - b
  {
    hide Append, High, QBit, TopBits, QBits;
    var q := QBytes(raw);
    if b < FRAME_BYTES {
      BytesCarryTheirBits(raw, b + 1);
      assert q[b..][1..] == q[b + 1..];
      ByteCarriesItsBits(raw, 8 * b);
      QBitsSplit(raw, 8 * b, 8, RAW_BYTES - 8 * b - 8);
    } else {
      QBitsNone(raw, RAW_BYTES);
    }
  }

  lemma QBitsNone(raw: seq<Byte>, from: nat)
    requires from <= |raw|
    ensures QBits(raw, from, 0) == []
  {}

  lemma {:induction false} QBitsSplit(raw: seq<Byte>, from: nat, m: nat, n: nat)
    requires from + m + n <= |raw|
    ensures QBits(raw, from, m + n) == QBits(raw, from, m) + QBits(raw, from + m, n)
    decreases m
  {
    hide QBit;
    if m > 0 {
      QBitsSplit(raw, from + 1, m - 1, n);
    }
  }

  /** Bit j of a byte, the most significant first. */
  predicate Bit(x: Byte, j: nat)
    requires j < 8
  {
    x & (if j == 0 then 0x80 else if j == 1 then 0x40 else if j == 2 then 0x20 else if j == 3 then 0x10
         else if j == 4 then 0x08 else if j == 5 then 0x04 else if j == 6 then 0x02 else 0x01) != 0
  }

  lemma AppendedAre(b: seq<Byte>)
    requires |b| == 8
    ensures
      var q := AppendEight(b);
      && (q & 0x80 != 0 <==> b[0] & 0x40 != 0) && (q & 0x40 != 0 <==> b[1] & 0x40 != 0)
      && (q & 0x20 != 0 <==> b[2] & 0x40 != 0) && (q & 0x10 != 0 <==> b[3] & 0x40 != 0)
      && (q & 0x08 != 0 <==> b[4] & 0x40 != 0) && (q & 0x04 != 0 <==> b[5] & 0x40 != 0)
      && (q & 0x02 != 0 <==> b[6] & 0x40 != 0) && (q & 0x01 != 0 <==> b[7] & 0x40 != 0)
  {}

  /** Bit 6 of raw byte i becomes bit i % 8 of Q byte i / 8, counted from the top. */
  lemma ExtractionPlacesEachBit(raw: seq<Byte>, i: nat)
    requires |raw| == 96 && i < 96
    ensures Bit(QBytes(raw)[i / 8], i % 8) <==> raw[i] & 0x40 != 0
  {
    hide Append, AppendEight, Gathered;
    var b := i / 8;
    GatheredUnrolled(raw, 8 * b);
    AppendedAre(raw[8 * b..8 * b + 8]);
    assert raw[8 * b..8 * b + 8][i % 8] == raw[i];
  }

  lemma BitsSettleTheByte(x: Byte, y: Byte)
    requires forall j: nat :: j < 8 ==> Bit(x, j) == Bit(y, j)
    ensures x == y
  {
    assert Bit(x, 0) == Bit(y, 0) && Bit(x, 1) == Bit(y, 1) && Bit(x, 2) == Bit(y, 2) && Bit(x, 3) == Bit(y, 3);
    assert Bit(x, 4) == Bit(y, 4) && Bit(x, 5) == Bit(y, 5) && Bit(x, 6) == Bit(y, 6) && Bit(x, 7) == Bit(y, 7);
  }

  /** The raw bytes carry the frame q: one bit of it each, in bit 6, the other bits being arbitrary. */
  ghost predicate CarriesFrame(raw: seq<Byte>, q: seq<Byte>)
    requires |raw| == 96 && |q| == 12
  {
    forall i: nat {:trigger raw[i]} :: i < 96 ==> (raw[i] & 0x40 != 0 <==> Bit(q[i / 8], i % 8))
  }

  lemma ExtractionRecoversTheFrame(raw: seq<Byte>, q: seq<Byte>)
    requires |raw| == 96 && |q| == 12 && CarriesFrame(raw, q)
    ensures QBytes(raw) == q
  {
    hide Bit, Gathered;
    forall b: nat | b < 12
      ensures QBytes(raw)[b] == q[b]
    {
      forall j: nat | j < 8
        ensures Bit(QBytes(raw)[b], j) == Bit(q[b], j)
      {
        var i := 8 * b + j;
        assert i / 8 == b && i % 8 == j;
        ExtractionPlacesEachBit(raw, i);
        assert raw[i] & 0x40 != 0 <==> Bit(q[b], j);
      }
      BitsSettleTheByte(QBytes(raw)[b], q[b]);
    }
  }

  // ---- parsing ----------------------------------------------------------------------------------

  function Bcd(v: Byte): nat {
    ((v >> 4) as nat) * 10 + (v & 0x0f) as nat
  }

  /** A character of a code: digits and capital letters lie from 0x30 on. */
  function Char(v: Byte): Byte { v + 0x30 }

  function NibbleAt(q: seq<Byte>, at: nat, i: nat): Byte
    requires at + i / 2 < |q|
  {
    if i % 2 == 0 then q[at + i / 2] >> 4 else q[at + i / 2] & 0x0f
  }

  /** n decimal characters, two to a byte from `at` on. */
  function DigitChars(q: seq<Byte>, at: nat, n: nat): (t: seq<Byte>)
    requires at + (n + 1) / 2 <= |q|
    ensures |t| == n
  {
    if n == 0 then [] else DigitChars(q, at, n - 1) + [Char(NibbleAt(q, at, n - 1))]
  }

  function TopSix(x: Byte): Byte { x >> 2 }

  function TwoAndFour(x: Byte, y: Byte): Byte { ((x & 0x03) << 4) | (y >> 4) }

  function FourAndTwo(x: Byte, y: Byte): Byte { ((x & 0x0f) << 2) | (y >> 6) }

  function LowSix(x: Byte): Byte { x & 0x3f }

  /** Five characters of six bits each in the four bytes from 1 on. */
  function SixBitChars(q: seq<Byte>): (t: seq<Byte>)
    requires |q| == FRAME_BYTES
    ensures |t| == 5
  {
    [Char(TopSix(q[1])), Char(TwoAndFour(q[1], q[2])), Char(FourAndTwo(q[2], q[3])), Char(LowSix(q[3])),
      Char(TopSix(q[4]))]
  }

  function Bare(control: Byte, adr: Byte, crcOk: bool): Frame {
    Frame(control, adr, crcOk, 0, 0, 0, 0, 0, 0, 0, 0, [], [])
  }

  /** accudisc_q_parse: the payload is decoded only for a CRC-good frame, by its kind. */
  function Parse(q: seq<Byte>): (r: (Status, Frame))
    requires |q| == FRAME_BYTES
    ensures r.0 == Ok <==> Accepts(q)
    ensures r.1.crcOk <==> Accepts(q)
    ensures r.1.control == q[0] >> 4 && r.1.adr == q[0] & 0x0f
    ensures !Accepts(q) || r.1.adr != 1 ==>
      && r.1.tno == r.1.index == r.1.relM == r.1.relS == r.1.relF == 0
      && r.1.absM == r.1.absS == r.1.absF == 0
    ensures |r.1.mcn| == (if Accepts(q) && r.1.adr == 2 then 13 else 0)
    ensures |r.1.isrc| == (if Accepts(q) && r.1.adr == 3 then 12 else 0)
  {
    var control, adr := q[0] >> 4, q[0] & 0x0f;
    if Crc(q[..10]) != Not(Stored(q)) then
      (ErrCrc, Bare(control, adr, false))
    else if adr == ADR_POSITION then
      (Ok, Frame(control, adr, true, Bcd(q[1]), Bcd(q[2]), Bcd(q[3]), Bcd(q[4]), Bcd(q[5]),
                 Bcd(q[7]), Bcd(q[8]), Bcd(q[9]), [], []))
    else if adr == ADR_MCN then
      (Ok, Bare(control, adr, true).(mcn := DigitChars(q, 1, 13)))
    else if adr == ADR_ISRC then
      (Ok, Bare(control, adr, true).(isrc := SixBitChars(q) + DigitChars(q, 5, 7)))
    else
      (Ok, Bare(control, adr, true))
  }

  // ---- parsing is the inverse of recording --------------------------------------------------------

  function Nibbles(hi: Byte, lo: Byte): Byte { (hi << 4) | lo }

  function ToBcd(v: nat): Byte
    requires v < 100
  {
    Nibbles((v / 10) as Byte, (v % 10) as Byte)
  }

  lemma NibblesOf(hi: Byte, lo: Byte)
    requires hi < 16 && lo < 16
    ensures Nibbles(hi, lo) >> 4 == hi && Nibbles(hi, lo) & 0x0f == lo
  {}

  lemma Digit(x: nat)
    requires x < 10
    ensures (x as Byte) < 16 && (x as Byte) as nat == x
  {}

  lemma BcdOfNibbles(hi: Byte, lo: Byte)
    requires hi < 16 && lo < 16
    ensures Bcd(Nibbles(hi, lo)) == (hi as nat) * 10 + lo as nat
  {
    hide Nibbles;
    NibblesOf(hi, lo);
  }

  lemma BcdRoundTrip(v: nat)
    requires v < 100
    ensures Bcd(ToBcd(v)) == v
  {
    hide Nibbles, Bcd;
    Digit(v / 10);
    Digit(v % 10);
    BcdOfNibbles((v / 10) as Byte, (v % 10) as Byte);
  }

  /** A frame a recorder writes: ten bytes and their check field. */
  function WithCheck(payload: seq<Byte>): (q: seq<Byte>)
    requires |payload| == 10
    ensures |q| == FRAME_BYTES && q[..10] == payload
  {
    payload + [HighByte(Not(Crc(payload))), LowByte(Not(Crc(payload)))]
  }

  lemma CheckedFrameIsAccepted(payload: seq<Byte>)
    requires |payload| == 10
    ensures Accepts(WithCheck(payload)) && Crc(WithCheck(payload)[..10]) == Not(Stored(WithCheck(payload)))
  {
    hide Crc, Not, Join, HighByte, LowByte;
    JoinSplit(Not(Crc(payload)));
    NotNot(Crc(payload));
  }

  function Recorded(control: Byte, tno: nat, index: nat, relM: nat, relS: nat, relF: nat,
                    absM: nat, absS: nat, absF: nat): (q: seq<Byte>)
    requires tno < 100 && index < 100 && relM < 100 && relS < 100 && relF < 100
    requires absM < 100 && absS < 100 && absF < 100
    ensures |q| == FRAME_BYTES
  {
    WithCheck([Nibbles(control, ADR_POSITION), ToBcd(tno), ToBcd(index), ToBcd(relM), ToBcd(relS), ToBcd(relF),
               0, ToBcd(absM), ToBcd(absS), ToBcd(absF)])
  }

  /** Every field of a recorded position frame is read back. */
  lemma ParsingReadsTheRecording(control: Byte, tno: nat, index: nat, relM: nat, relS: nat, relF: nat,
                                 absM: nat, absS: nat, absF: nat)
    requires control < 16
    requires tno < 100 && index < 100 && relM < 100 && relS < 100 && relF < 100
    requires absM < 100 && absS < 100 && absF < 100
    ensures Parse(Recorded(control, tno, index, relM, relS, relF, absM, absS, absF)) ==
            (Ok, Frame(control, ADR_POSITION, true, tno, index, relM, relS, relF, absM, absS, absF, [], []))
  {
    hide Crc, Not, Join, HighByte, LowByte, ToBcd, Bcd, Nibbles, Accepts, Stored, DigitChars, SixBitChars;
    var payload := [Nibbles(control, ADR_POSITION), ToBcd(tno), ToBcd(index), ToBcd(relM), ToBcd(relS), ToBcd(relF),
                    0, ToBcd(absM), ToBcd(absS), ToBcd(absF)];
    CheckedFrameIsAccepted(payload);
    NibblesOf(control, ADR_POSITION);
    BcdRoundTrip(tno);
    BcdRoundTrip(index);
    BcdRoundTrip(relM);
    BcdRoundTrip(relS);
    BcdRoundTrip(relF);
    BcdRoundTrip(absM);
    BcdRoundTrip(absS);
    BcdRoundTrip(absF);
  }

  predicate AreDigits(d: seq<Byte>) { forall i :: 0 <= i < |d| ==> d[i] < 10 }

  /** Decimal digits two to a byte, the last byte filled up with a zero. */
  function Packed(d: seq<Byte>): (p: seq<Byte>)
    ensures |p| == (|d| + 1) / 2
    decreases |d|
  {
    if |d| == 0 then [] else if |d| == 1 then [Nibbles(d[0], 0)] else [Nibbles(d[0], d[1])] + Packed(d[2..])
  }

  function Chars(d: seq<Byte>): (t: seq<Byte>)
    ensures |t| == |d| && forall i :: 0 <= i < |d| ==> t[i] == Char(d[i])
  {
    if |d| == 0 then [] else Chars(d[..|d| - 1]) + [Char(d[|d| - 1])]
  }

  lemma {:induction false} PackedNibble(d: seq<Byte>, i: nat)
    requires AreDigits(d) && i < |d|
    ensures NibbleAt(Packed(d), 0, i) == d[i]
    decreases |d|
  {
    hide Nibbles;
    NibblesOf(d[0], if |d| == 1 then 0 else d[1]);
    if i >= 2 {
      PackedNibble(d[2..], i - 2);
      NibbleOfTail(Nibbles(d[0], d[1]), Packed(d[2..]), i);
    }
  }

  lemma NibbleOfTail(x: Byte, p: seq<Byte>, i: nat)
    requires i >= 2 && i / 2 < |p| + 1
    ensures NibbleAt([x] + p, 0, i) == NibbleAt(p, 0, i - 2)
  {
    assert ([x] + p)[i / 2] == p[i / 2 - 1];
  }

  lemma {:induction false} DigitsAreRead(q: seq<Byte>, at: nat, d: seq<Byte>, n: nat)
    requires AreDigits(d) && n <= |d| && at + (|d| + 1) / 2 <= |q| && q[at..at + (|d| + 1) / 2] == Packed(d)
    ensures DigitChars(q, at, n) == Chars(d[..n])
  {
    hide Packed, Char, NibbleAt, Chars;
    if n > 0 {
      DigitsAreRead(q, at, d, n - 1);
      PackedNibble(d, n - 1);
      NibbleShifts(q, at, Packed(d), n - 1);
      assert d[..n][..n - 1] == d[..n - 1];
    }
  }

  lemma NibbleShifts(q: seq<Byte>, at: nat, p: seq<Byte>, i: nat)
    requires at + |p| <= |q| && q[at..at + |p|] == p && i / 2 < |p|
    ensures NibbleAt(q, at, i) == NibbleAt(p, 0, i)
  {
    assert q[at + i / 2] == q[at..at + |p|][i / 2];
  }

  /** The 13 digits of a recorded catalogue number are read back, digit d as character 0x30 + d. */
  lemma ParsingReadsTheCatalogueNumber(control: Byte, d: seq<Byte>, aframe: Byte)
    requires control < 16 && |d| == 13 && forall i :: 0 <= i < 13 ==> d[i] < 10
    ensures
      var (status, q) := Parse(WithCheck([Nibbles(control, ADR_MCN)] + Packed(d) + [0, aframe]));
      && status == Ok && q == Bare(control, ADR_MCN, true).(mcn := q.mcn)
      && |q.mcn| == 13 && forall i :: 0 <= i < 13 ==> q.mcn[i] == 0x30 + d[i]
  {
    hide Crc, Not, Join, HighByte, LowByte, Nibbles, Accepts, Stored, Packed, Chars, DigitChars, SixBitChars, Bcd;
    var payload := [Nibbles(control, ADR_MCN)] + Packed(d) + [0, aframe];
    var q := WithCheck(payload);
    CheckedFrameIsAccepted(payload);
    NibblesOf(control, ADR_MCN);
    assert q[1..8] == q[..10][1..8] == Packed(d);
    DigitsAreRead(q, 1, d, 13);
    assert d[..13] == d;
  }

  function SixAndTwo(x: Byte, y: Byte): Byte { (x << 2) | (y >> 4) }

  function FourAndFour(x: Byte, y: Byte): Byte { (x << 4) | (y >> 2) }

  function TwoAndSix(x: Byte, y: Byte): Byte { (x << 6) | y }

  /** Five codes of six bits in four bytes. */
  function SixBitBytes(c: seq<Byte>): (b: seq<Byte>)
    requires |c| == 5
    ensures |b| == 4
  {
    [SixAndTwo(c[0], c[1]), FourAndFour(c[1], c[2]), TwoAndSix(c[2], c[3]), SixAndTwo(c[4], 0)]
  }

  lemma FirstCodes(c0: Byte, c1: Byte, c2: Byte)
    requires c0 < 64 && c1 < 64 && c2 < 64
    ensures TopSix(SixAndTwo(c0, c1)) == c0 && TwoAndFour(SixAndTwo(c0, c1), FourAndFour(c1, c2)) == c1
  {}

  lemma LastCodes(c1: Byte, c2: Byte, c3: Byte, c4: Byte)
    requires c1 < 64 && c2 < 64 && c3 < 64 && c4 < 64
    ensures FourAndTwo(FourAndFour(c1, c2), TwoAndSix(c2, c3)) == c2 && LowSix(TwoAndSix(c2, c3)) == c3
    ensures TopSix(SixAndTwo(c4, 0)) == c4
  {}

  /** The five codes and seven digits of a recorded ISRC are read back, code c as character 0x30 + c. */
  lemma ParsingReadsTheIsrc(control: Byte, c: seq<Byte>, d: seq<Byte>, aframe: Byte)
    requires control < 16 && |c| == 5 && (forall i :: 0 <= i < 5 ==> c[i] < 64)
    requires |d| == 7 && forall i :: 0 <= i < 7 ==> d[i] < 10
    ensures
      var (status, q) := Parse(WithCheck([Nibbles(control, ADR_ISRC)] + SixBitBytes(c) + Packed(d) + [aframe]));
      && status == Ok && q == Bare(control, ADR_ISRC, true).(isrc := q.isrc)
      && |q.isrc| == 12 && (forall i :: 0 <= i < 5 ==> q.isrc[i] == 0x30 + c[i])
      && forall i :: 5 <= i < 12 ==> q.isrc[i] == 0x30 + d[i - 5]
  {
    hide Crc, Not, Join, HighByte, LowByte, Nibbles, Accepts, Stored, Packed, Chars, DigitChars, SixBitChars,
      SixBitBytes, Bcd;
    var payload := [Nibbles(control, ADR_ISRC)] + SixBitBytes(c) + Packed(d) + [aframe];
    var q := WithCheck(payload);
    CheckedFrameIsAccepted(payload);
    NibblesOf(control, ADR_ISRC);
    assert q[1..5] == q[..10][1..5] == SixBitBytes(c);
    CodesAreRead(q, c);
    assert q[5..9] == q[..10][5..9] == Packed(d);
    DigitsAreRead(q, 5, d, 7);
    assert d[..7] == d;
  }

  lemma CodesAreRead(q: seq<Byte>, c: seq<Byte>)
    requires |q| == FRAME_BYTES && |c| == 5 && (forall i :: 0 <= i < 5 ==> c[i] < 64) && q[1..5] == SixBitBytes(c)
    ensures SixBitChars(q) == Chars(c)
  {
    hide Char, Chars, TopSix, TwoAndFour, FourAndTwo, LowSix, SixAndTwo, FourAndFour, TwoAndSix;
    var b := q[1..5];
    assert b[0] == q[1] && b[1] == q[2] && b[2] == q[3] && b[3] == q[4];
    FirstCodes(c[0], c[1], c[2]);
    LastCodes(c[1], c[2], c[3], c[4]);
  }

  // ---- disturbed subcode ---------------------------------------------------------------------------

  lemma {:induction false} TopBitsOfXor(a: Word, b: Word, k: nat, i: nat)
    requires i < k
    ensures TopBits(Xor(a, b), k)[i] == (TopBits(a, k)[i] != TopBits(b, k)[i])
    decreases k
  {
    hide Xor, Top, Shl1;
    TopLinear(a, b);
    if i > 0 {
      TopBitsOfXor(Shl1(a), Shl1(b), k - 1, i - 1);
    }
  }

  lemma {:induction false} FrameBitsOfXor(x: seq<Byte>, y: seq<Byte>, i: nat)
    requires |x| == |y| && i < 8 * |x|
    ensures FrameBits(XorBytes(x, y))[i] == (FrameBits(x)[i] != FrameBits(y)[i])
    decreases |x|
  {
    hide Xor, High, TopBits, XorByte;
    if i < 8 {
      HighLinear(x[0], y[0]);
      TopBitsOfXor(High(x[0]), High(y[0]), 8, i);
    } else {
      FrameBitsOfXor(x[1..], y[1..], i - 8);
    }
  }

  lemma {:induction false} XorBytesUndone(x: seq<Byte>, y: seq<Byte>)
    requires |x| == |y|
    ensures XorBytes(x, XorBytes(x, y)) == y
  {
    hide XorByte;
    if |x| > 0 {
      XorBytesUndone(x[1..], y[1..]);
      ByteXorUndone(x[0], y[0]);
      assert y == [y[0]] + y[1..];
    }
  }

  lemma ByteXorUndone(a: Byte, b: Byte)
    ensures XorByte(a, XorByte(a, b)) == b
  {}

  lemma {:induction false} XorBytesZero(x: seq<Byte>, y: seq<Byte>)
    requires |x| == |y| && forall i :: 0 <= i < |x| ==> XorBytes(x, y)[i] == 0
    ensures x == y
  {
    hide XorByte;
    if |x| > 0 {
      var z := XorBytes(x, y);
      assert z[0] == 0;
      assert forall i :: 0 <= i < |x| - 1 ==> z[1..][i] == z[i + 1];
      XorBytesZero(x[1..], y[1..]);
      ByteXorZero(x[0], y[0]);
      assert x == [x[0]] + x[1..] && y == [y[0]] + y[1..];
    }
  }

  lemma ByteXorZero(a: Byte, b: Byte)
    requires XorByte(a, b) == 0
    ensures a == b
  {}

  /** A disturbance of the Q bits of at most 16 consecutive subcode frames of a good block never
      yields another good frame. */
  lemma SubcodeBurstIsRejected(raw: seq<Byte>, hit: seq<Byte>, p: nat, k: nat)
    requires |raw| == |hit| == 96
    requires Parse(QBytes(raw)).0 == Ok
    requires k < 96 && (raw[k] & 0x40 != 0) != (hit[k] & 0x40 != 0)
    requires forall i :: 0 <= i < 96 && (raw[i] & 0x40 != 0) != (hit[i] & 0x40 != 0) ==> p <= i < p + 16
    ensures Parse(QBytes(hit)).0 == ErrCrc
  {
    assert QBit(raw[k]) != QBit(hit[k]);
    forall i: nat | i < 96 && QBit(raw[i]) != QBit(hit[i])
      ensures p <= i < p + 16
    {
      assert (raw[i] & 0x40 != 0) != (hit[i] & 0x40 != 0);
    }
    QBurstIsRejected(raw, hit, p, k);
  }

  lemma QBurstIsRejected(raw: seq<Byte>, hit: seq<Byte>, p: nat, k: nat)
    requires |raw| == |hit| == RAW_BYTES
    requires Parse(QBytes(raw)).0 == Ok
    requires k < RAW_BYTES && QBit(raw[k]) != QBit(hit[k])
    requires forall i :: 0 <= i < RAW_BYTES && QBit(raw[i]) != QBit(hit[i]) ==> p <= i < p + 16
    ensures Parse(QBytes(hit)).0 == ErrCrc
  {
    hide QBit, FrameBits, QBits, Accepts, QBytes;
    var good, bad := QBytes(raw), QBytes(hit);
    var error := XorBytes(good, bad);
    forall i: nat | i < RAW_BYTES
      ensures FrameBits(good)[i] == QBit(raw[i]) && FrameBits(bad)[i] == QBit(hit[i])
      ensures FrameBits(error)[i] == (QBit(raw[i]) != QBit(hit[i]))
    {
      ExtractionKeepsTheBits(raw);
      ExtractionKeepsTheBits(hit);
      QBitsAt(raw, 0, RAW_BYTES, i);
      QBitsAt(hit, 0, RAW_BYTES, i);
      FrameBitsOfXor(good, bad, i);
    }
    assert FrameBits(good)[k] != FrameBits(bad)[k];
    if forall j :: 0 <= j < FRAME_BYTES ==> error[j] == 0 {
      XorBytesZero(good, bad);
    }
    var j :| 0 <= j < FRAME_BYTES && error[j] != 0;
    BurstIsDetected(good, error, p, j);
    XorBytesUndone(good, bad);
  }
}

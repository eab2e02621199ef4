/** CD-Text decoding: 18-byte packs to per-track strings. A string belongs to the track the pack
    header settles on while its terminator arrives, not to the n-th track. */
module CdText {
  import opened CdTextPack
  import opened Common
  import opened Crc16

  const PAYLOAD := 12
  const TEXT_MAX := 160
  const TRACKS := 100
  const TAB: Byte := 9

  type Text = seq<Byte>

  datatype Status = Ok | ErrShort

  /** The four decoded kinds of string, in the order the decoder lists their pack types. */
  const KINDS: nat := 4

  function KindOf(packType: Byte): (k: nat)
    ensures k <= KINDS
  {
    if packType == 0x80 then 0 else if packType == 0x81 then 1
    else if packType == 0x82 then 2 else if packType == 0x8e then 3 else KINDS
  }

  /** Packs that are decoded: good check value, no extension, single-byte characters, block 0, a
      known type. */
  predicate Usable(p: RawPack) {
    && Accepts(p)
    && p[1] & 0x80 == 0 && p[3] & 0x80 == 0 && (p[3] >> 4) & 0x07 == 0
    && KindOf(p[0]) < KINDS
  }

  predicate OfKind(p: RawPack, kind: nat) {
    Usable(p) && KindOf(p[0]) == kind
  }

  function HeaderTrack(p: RawPack): nat {
    (p[1] & 0x7f) as nat
  }

  // ---- closed form ---------------------------------------------------------------------------------

  /** The payload bytes of one kind's packs, as one stream. */
  function Stream(packs: seq<RawPack>): (b: seq<Byte>)
    ensures |b| == PAYLOAD * |packs|
  {
    if |packs| == 0 then [] else Stream(packs[..|packs| - 1]) + packs[|packs| - 1][4..16]
  }

  /** A finished string and the track it is for. */
  datatype Commit = Commit(track: nat, text: Text)

  /** NULs among stream bytes lo up to hi. */
  function NulCount(b: seq<Byte>, lo: nat, hi: nat): nat
    requires lo <= hi <= |b|
  {
    if lo == hi then 0 else NulCount(b, lo, hi - 1) + (if b[hi - 1] == 0 then 1 else 0)
  }

  /** Start of the string in progress at stream position m. */
  function StringStart(b: seq<Byte>, m: nat): (s: nat)
    requires m <= |b|
    ensures s <= m
  {
    if m == 0 then 0 else if b[m - 1] == 0 then m else StringStart(b, m - 1)
  }

  /** A field holds one byte less than its size, the terminator taking the last. */
  function Truncate(t: Text): (r: Text)
    ensures |r| < TEXT_MAX
  {
    if |t| < TEXT_MAX then t else t[..TEXT_MAX - 1]
  }

  /** The commit made by the NUL at stream position m: the header of its own pack plus the NULs
      earlier in that same pack name the track, the bytes since the previous NUL are the text. */
  function CommitAt(packs: seq<RawPack>, m: nat): Commit
    requires m < PAYLOAD * |packs|
  {
    var b := Stream(packs);
    var pack := m / PAYLOAD;
    Commit(HeaderTrack(packs[pack]) + NulCount(b, PAYLOAD * pack, m), Truncate(b[StringStart(b, m)..m]))
  }

  /** All commits among the first m stream bytes, in order. */
  function Commits(packs: seq<RawPack>, m: nat): seq<Commit>
    requires m <= PAYLOAD * |packs|
  {
    if m == 0 then []
    else Commits(packs, m - 1) + (if Stream(packs)[m - 1] == 0 then [CommitAt(packs, m - 1)] else [])
  }

  /** One kind's strings by track; 0 is the album. */
  type Row = r: seq<Text> | |r| == TRACKS witness seq(TRACKS, i => [])

  function EmptyRow(): Row {
    seq(TRACKS, i => [])
  }

  function Apply(row: Row, c: Commit): Row {
    if c.track >= TRACKS then row
    else if c.text == [TAB] && c.track >= 1 then row[c.track := row[c.track - 1]]
    else row[c.track := c.text]
  }

  function ApplyAll(row: Row, cs: seq<Commit>): Row {
    if |cs| == 0 then row else Apply(ApplyAll(row, cs[..|cs| - 1]), cs[|cs| - 1])
  }

  /** What one kind's packs say, on their own. */
  function Decoded(packs: seq<RawPack>): Row {
    ApplyAll(EmptyRow(), Commits(packs, PAYLOAD * |packs|))
  }

  /** The usable packs of one kind, in order. */
  function Select(packs: seq<RawPack>, kind: nat): seq<RawPack> {
    if |packs| == 0 then []
    else Select(packs[..|packs| - 1], kind) +
         (if OfKind(packs[|packs| - 1], kind) then [packs[|packs| - 1]] else [])
  }

  function UsableCount(packs: seq<RawPack>): nat {
    if |packs| == 0 then 0
    else UsableCount(packs[..|packs| - 1]) + (if Usable(packs[|packs| - 1]) then 1 else 0)
  }

  /** The packs in a blob: everything after the header that fills a whole pack. */
  function Packs(raw: seq<Byte>): (packs: seq<RawPack>)
    ensures |packs| == if |raw| < HEADER then 0 else PackCount(raw)
  {
    if |raw| < HEADER then []
    else
      seq(PackCount(raw), (k: nat) requires |raw| >= HEADER && k < PackCount(raw) => PackOf(raw, k))
  }

  // ---- the assembler ---------------------------------------------------------------------------------

  class Strings {
    /** rows[kind][track] */
    var rows: seq<Row>

    constructor ()
      ensures rows == seq(KINDS, i => EmptyRow())
    {
      rows := seq(KINDS, i => EmptyRow());
    }
  }

  class Assembler {
    const text: Strings
    const kind: nat
    /** Track of the string in progress; -1 before any pack. */
    var track: int
    /** The string under construction. */
    var buf: Text

    constructor (text: Strings, kind: nat)
      ensures this.text == text && this.kind == kind && track == -1 && buf == []
    {
      this.text, this.kind := text, kind;
      track, buf := -1, [];
    }

    /** One payload byte. A NUL commits the buffered string to whichever track the headers have
        settled on by now. */
    method PutChar(c: Byte)
      requires kind < |text.rows| && track >= 0 && |buf| < TEXT_MAX
      modifies this, text
      ensures |buf| < TEXT_MAX
      ensures c != 0 ==> track == old(track) && buf == Truncate(old(buf) + [c]) && text.rows == old(text.rows)
      ensures c == 0 ==>
        && track == old(track) + 1 && buf == []
        && text.rows == old(text.rows)[kind := Apply(old(text.rows)[kind], Commit(old(track), old(buf)))]
    {
      if c != 0 {
        if |buf| < TEXT_MAX - 1 {
          buf := buf + [c];
        }
        return;
      }
      var row := text.rows[kind];
      if 0 <= track <= 99 {
        if |buf| == 1 && buf[0] == TAB && track >= 1 {
          text.rows := text.rows[kind := row[track := row[track - 1]]];
        } else {
          text.rows := text.rows[kind := row[track := buf]];
        }
      }
      track := track + 1;
      buf := [];
    }

    /** The assembler has absorbed the first m stream bytes of these packs. */
    ghost predicate Absorbed(packs: seq<RawPack>, m: nat)
      requires m <= PAYLOAD * |packs|
      reads this, text
    {
      && kind < |text.rows|
      && buf == Truncate(Stream(packs)[StringStart(Stream(packs), m)..m])
      && text.rows[kind] == ApplyAll(EmptyRow(), Commits(packs, m))
    }

    /** Take one pack of this kind: resynchronise on its header, then feed its payload. */
    method FeedPack(p: RawPack, ghost packs: seq<RawPack>)
      requires Absorbed(packs, PAYLOAD * |packs|)
      modifies this, text
      ensures Absorbed(packs + [p], PAYLOAD * |packs| + PAYLOAD)
      ensures |text.rows| == |old(text.rows)|
      ensures forall k: nat {:trigger text.rows[k]} :: k < |text.rows| && k != kind ==>
        text.rows[k] == old(text.rows)[k]
    {
      hide Commits, CommitAt, StringStart, NulCount, Truncate, HeaderTrack, ApplyAll, Apply, Stream;
      ghost var base := PAYLOAD * |packs|;
      LaterPacksDoNotMatter(packs, p, base);
      StreamExtends(packs, p);
      NulCountNone(Stream(packs + [p]), base);
      track := HeaderTrack(p);
      for i := 4 to 16
        invariant Absorbed(packs + [p], base + i - 4)
        invariant track == HeaderTrack(p) + NulCount(Stream(packs + [p]), base, base + i - 4)
        invariant |text.rows| == |old(text.rows)|
        invariant forall k: nat {:trigger text.rows[k]} :: k < |text.rows| && k != kind ==>
          text.rows[k] == old(text.rows)[k]
      {
        hide Absorbed;
        FeedByte(p, i - 4, packs);
      }
    }

    /** One payload byte of the pack being taken. */
    method FeedByte(p: RawPack, i: nat, ghost packs: seq<RawPack>)
      requires i < PAYLOAD
      requires Absorbed(packs + [p], PAYLOAD * |packs| + i)
      requires track == HeaderTrack(p) + NulCount(Stream(packs + [p]), PAYLOAD * |packs|, PAYLOAD * |packs| + i)
      modifies this, text
      ensures Absorbed(packs + [p], PAYLOAD * |packs| + i + 1)
      ensures track == HeaderTrack(p) + NulCount(Stream(packs + [p]), PAYLOAD * |packs|, PAYLOAD * |packs| + i + 1)
      ensures |text.rows| == |old(text.rows)|
      ensures forall k: nat {:trigger text.rows[k]} :: k < |text.rows| && k != kind ==>
        text.rows[k] == old(text.rows)[k]
    {
      hide Commits, CommitAt, StringStart, NulCount, Truncate, HeaderTrack, ApplyAll, Apply, Stream;
      StreamExtends(packs, p);
      ByteStep(packs + [p], |packs|, i);
      assert Stream(packs + [p])[PAYLOAD * |packs| + i] == p[4 + i];
      PutChar(p[4 + i]);
    }
  }

  // ---- why the closed form is what the assembler computes -----------------------------------------------

  lemma StreamExtends(packs: seq<RawPack>, p: RawPack)
    ensures Stream(packs + [p]) == Stream(packs) + p[4..16]
  {
    assert (packs + [p])[..|packs|] == packs;
  }

  lemma NulCountNone(b: seq<Byte>, lo: nat)
    requires lo <= |b|
    ensures NulCount(b, lo, lo) == 0
  {}

  lemma {:induction false} NulCountPrefix(b: seq<Byte>, c: seq<Byte>, lo: nat, hi: nat)
    requires lo <= hi <= |b| && b <= c
    ensures NulCount(b, lo, hi) == NulCount(c, lo, hi)
  {
    if lo < hi {
      NulCountPrefix(b, c, lo, hi - 1);
    }
  }

  lemma {:induction false} StringStartPrefix(b: seq<Byte>, c: seq<Byte>, m: nat)
    requires m <= |b| && b <= c
    ensures StringStart(b, m) == StringStart(c, m)
  {
    if m > 0 {
      StringStartPrefix(b, c, m - 1);
    }
  }

  lemma {:induction false} CommitsPrefix(packs: seq<RawPack>, p: RawPack, m: nat)
    requires m <= PAYLOAD * |packs|
    ensures Commits(packs + [p], m) == Commits(packs, m)
  {
    hide StringStart, NulCount, Truncate, HeaderTrack, Stream;
    if m > 0 {
      CommitsPrefix(packs, p, m - 1);
      StreamExtends(packs, p);
      NulCountPrefix(Stream(packs), Stream(packs + [p]), PAYLOAD * ((m - 1) / PAYLOAD), m - 1);
      StringStartPrefix(Stream(packs), Stream(packs + [p]), m - 1);
      var s := StringStart(Stream(packs), m - 1);
      SliceOfPrefix(Stream(packs), p[4..16], s, m - 1);
    }
  }

  lemma SliceOfPrefix(b: seq<Byte>, more: seq<Byte>, i: nat, j: nat)
    requires i <= j <= |b|
    ensures (b + more)[i..j] == b[i..j]
  {
    assert (b + more)[0..|b|] == b[0..|b|];
    SliceOfSlice(b + more, 0, |b|, i, j);
    SliceOfSlice(b, 0, |b|, i, j);
  }

  lemma LaterPacksDoNotMatter(packs: seq<RawPack>, p: RawPack, m: nat)
    requires m <= PAYLOAD * |packs|
    ensures Commits(packs + [p], m) == Commits(packs, m)
    ensures
      var b, c := Stream(packs), Stream(packs + [p]);
      c[StringStart(c, m)..m] == b[StringStart(b, m)..m]
  {
    hide StringStart, Commits, Stream;
    CommitsPrefix(packs, p, m);
    StreamExtends(packs, p);
    StringStartPrefix(Stream(packs), Stream(packs + [p]), m);
  }

  lemma TruncateStep(t: Text, c: Byte)
    ensures Truncate(Truncate(t) + [c]) == Truncate(t + [c])
  {}

  /** What one more stream byte, the i-th of pack k's payload, does to the closed form. */
  lemma ByteStep(packs: seq<RawPack>, k: nat, i: nat)
    requires k < |packs| && i < PAYLOAD
    ensures
      var m := PAYLOAD * k + i;
      var b := Stream(packs);
      var text := Truncate(b[StringStart(b, m)..m]);
      var text' := Truncate(b[StringStart(b, m + 1)..m + 1]);
      && NulCount(b, PAYLOAD * k, m + 1) == NulCount(b, PAYLOAD * k, m) + (if b[m] == 0 then 1 else 0)
      && (b[m] != 0 ==> text' == Truncate(text + [b[m]]) && Commits(packs, m + 1) == Commits(packs, m))
      && (b[m] == 0 ==>
            && text' == []
            && forall row :: ApplyAll(row, Commits(packs, m + 1)) ==
                 Apply(ApplyAll(row, Commits(packs, m)),
                       Commit(HeaderTrack(packs[k]) + NulCount(b, PAYLOAD * k, m), text)))
  {
    hide HeaderTrack, Stream, Apply, Truncate, Commits, CommitAt, ApplyAll;
    var m := PAYLOAD * k + i;
    var b := Stream(packs);
    var s := StringStart(b, m);
    CommitsStep(packs, m);
    if b[m] != 0 {
      assert b[s..m + 1] == b[s..m] + [b[m]];
      TruncateStep(b[s..m], b[m]);
    } else {
      assert b[m + 1..m + 1] == [];
      TruncateNothing();
      CommitAtIs(packs, k, i);
      forall row
        ensures ApplyAll(row, Commits(packs, m) + [CommitAt(packs, m)]) ==
                Apply(ApplyAll(row, Commits(packs, m)), CommitAt(packs, m))
      {
        ApplyOneMore(row, Commits(packs, m), CommitAt(packs, m));
      }
    }
  }

  lemma CommitsStep(packs: seq<RawPack>, m: nat)
    requires m < PAYLOAD * |packs|
    ensures Commits(packs, m + 1) ==
            if Stream(packs)[m] == 0 then Commits(packs, m) + [CommitAt(packs, m)] else Commits(packs, m)
  {
    hide Stream, CommitAt;
  }

  lemma CommitAtIs(packs: seq<RawPack>, k: nat, i: nat)
    requires k < |packs| && i < PAYLOAD
    ensures
      var m := PAYLOAD * k + i;
      var b := Stream(packs);
      CommitAt(packs, m) ==
      Commit(HeaderTrack(packs[k]) + NulCount(b, PAYLOAD * k, m), Truncate(b[StringStart(b, m)..m]))
  {
    hide Stream, HeaderTrack, Truncate, NulCount, StringStart;
    assert (PAYLOAD * k + i) / PAYLOAD == k;
  }

  lemma ApplyOneMore(row: Row, cs: seq<Commit>, c: Commit)
    ensures ApplyAll(row, cs + [c]) == Apply(ApplyAll(row, cs), c)
  {
    hide Apply;
    assert (cs + [c])[..|cs|] == cs;
  }

  lemma TruncateNothing()
    ensures Truncate([]) == []
  {}

  // ---- decoding a blob ------------------------------------------------------------------------------------

  lemma NothingAbsorbed(k: nat)
    requires k < KINDS
    ensures Select([], k) == [] && ApplyAll(EmptyRow(), Commits([], 0)) == EmptyRow()
    ensures Truncate(Stream([])[StringStart(Stream([]), 0)..0]) == []
  {}

  lemma SelectStep(packs: seq<RawPack>, p: RawPack, k: nat)
    ensures Select(packs + [p], k) == Select(packs, k) + (if OfKind(p, k) then [p] else [])
    ensures UsableCount(packs + [p]) == UsableCount(packs) + (if Usable(p) then 1 else 0)
  {
    hide OfKind, Usable;
    assert (packs + [p])[..|packs|] == packs;
  }

  /** The four assemblers, each having absorbed its own kind's packs so far. */
  ghost predicate AllAbsorbed(text: Strings, asms: seq<Assembler>, packs: seq<RawPack>)
    reads text, asms
  {
    && |asms| == KINDS && |text.rows| == KINDS
    && (forall k: nat {:trigger asms[k]} :: k < KINDS ==>
          && asms[k].text == text && asms[k].kind == k
          && asms[k].Absorbed(Select(packs, k), PAYLOAD * |Select(packs, k)|))
    && (forall j: nat, k: nat {:trigger asms[j], asms[k]} :: j < k < KINDS ==> asms[j] != asms[k])
  }

  /** One pack of the loop: skipped, or given to the assembler of its kind. */
  method Dispatch(text: Strings, asms: seq<Assembler>, p: RawPack, ghost packs: seq<RawPack>) returns (used: bool)
    requires AllAbsorbed(text, asms, packs)
    modifies text, asms
    ensures AllAbsorbed(text, asms, packs + [p])
    ensures used <==> Usable(p)
  {
    hide Select, Commits, ApplyAll, Truncate, StringStart, Stream, Accepts;
    ghost var longer := packs + [p];
    forall k: nat
      ensures Select(longer, k) == if OfKind(p, k) then Select(packs, k) + [p] else Select(packs, k)
    {
      SelectStep(packs, p, k);
    }
    if !Accepts(p) {
      assert !Usable(p);
      return false;
    }
    if p[1] & 0x80 != 0 || p[3] & 0x80 != 0 || (p[3] >> 4) & 0x07 != 0 {
      assert !Usable(p);
      return false;
    }
    var kind := KindOf(p[0]);
    if kind == KINDS {
      assert !Usable(p);
      return false;
    }
    asms[kind].FeedPack(p, Select(packs, kind));
    used := true;
  }

  /** accudisc_cdtext_decode: every kind's strings are what its own packs say. */
  method Decode(raw: seq<Byte>) returns (rc: Status, text: Strings)
    ensures rc == ErrShort <==> UsableCount(Packs(raw)) == 0
    ensures fresh(text)
    ensures rc == Ok ==> text.rows == seq(KINDS, (k: nat) => Decoded(Select(Packs(raw), k)))
  {
    hide AllAbsorbed, Select, Usable, PackOf, UsableCount;
    text := new Strings();
    ghost var packs := Packs(raw);
    assert packs[..0] == [];
    NothingUsable();
    if |raw| < HEADER + PACK {
      assert packs == [];
      return ErrShort, text;
    }
    var asm80 := new Assembler(text, 0);
    var asm81 := new Assembler(text, 1);
    var asm82 := new Assembler(text, 2);
    var asm8e := new Assembler(text, 3);
    var asms := [asm80, asm81, asm82, asm8e];
    StartAbsorbed(text, asms);
    var used := 0;
    var off := HEADER;
    ghost var n := 0;
    while off + PACK <= |raw|
      invariant off == HEADER + PACK * n && n <= |packs|
      invariant fresh(text) && fresh(asms)
      invariant AllAbsorbed(text, asms, packs[..n])
      invariant used == UsableCount(packs[..n])
      decreases |raw| - off
    {
      assert packs[..n + 1] == packs[..n] + [packs[n]];
      SelectStep(packs[..n], packs[n], 0);
      assert packs[n] == raw[off..off + PACK] by { PackIs(raw, n); }
      var took := Dispatch(text, asms, raw[off..off + PACK], packs[..n]);
      if took {
        used := used + 1;
      }
      off := off + PACK;
      n := n + 1;
    }
    assert packs[..n] == packs;
    AbsorbedIsDecoded(text, asms, packs);
    rc := if used == 0 then ErrShort else Ok;
  }

  lemma NothingUsable()
    ensures UsableCount([]) == 0
  {}

  lemma PackIs(raw: seq<Byte>, n: nat)
    requires n < |Packs(raw)|
    ensures Packs(raw)[n] == raw[HEADER + PACK * n..HEADER + PACK * n + PACK]
  {}

  lemma StartAbsorbed(text: Strings, asms: seq<Assembler>)
    requires text.rows == seq(KINDS, i => EmptyRow()) && |asms| == KINDS
    requires forall k: nat {:trigger asms[k]} :: k < KINDS ==>
      asms[k].text == text && asms[k].kind == k && asms[k].buf == []
    ensures AllAbsorbed(text, asms, [])
  {
    hide Select, Commits, ApplyAll, Truncate, StringStart, Stream;
    forall k: nat | k < KINDS
      ensures asms[k].Absorbed(Select([], k), PAYLOAD * |Select([], k)|)
    {
      NothingAbsorbed(k);
      TruncateNothing();
    }
    assert forall j: nat, k: nat {:trigger asms[j], asms[k]} :: j < k < KINDS ==> asms[j].kind != asms[k].kind;
  }

  lemma AbsorbedIsDecoded(text: Strings, asms: seq<Assembler>, packs: seq<RawPack>)
    requires AllAbsorbed(text, asms, packs)
    ensures text.rows == seq(KINDS, (k: nat) => Decoded(Select(packs, k)))
  {
    hide Select, Commits, ApplyAll, Truncate, StringStart, Stream;
    forall k: nat | k < KINDS
      ensures text.rows[k] == Decoded(Select(packs, k))
    {
      assert asms[k].kind == k;
    }
  }

  // ---- consequences ----------------------------------------------------------------------------------------

  lemma {:induction false} SelectConcat(a: seq<RawPack>, b: seq<RawPack>, k: nat)
    ensures Select(a + b, k) == Select(a, k) + Select(b, k)
  {
    hide OfKind;
    if |b| == 0 {
      assert a + b == a;
    } else {
      assert (a + b)[..|a + b| - 1] == a + b[..|b| - 1];
      SelectConcat(a, b[..|b| - 1], k);
    }
  }

  /** Neighbouring packs of different kinds may be exchanged without changing any decoded string,
      so any interleaving of the kinds decodes alike. */
  lemma InterleavingDoesNotMatter(before: seq<RawPack>, p: RawPack, q: RawPack, after: seq<RawPack>, k: nat)
    requires !(Usable(p) && Usable(q) && KindOf(p[0]) == KindOf(q[0]))
    ensures Decoded(Select(before + [p, q] + after, k)) == Decoded(Select(before + [q, p] + after, k))
  {
    hide Decoded, Usable, KindOf, Select;
    SelectConcat(before + [p, q], after, k);
    SelectConcat(before + [q, p], after, k);
    SelectConcat(before, [p, q], k);
    SelectConcat(before, [q, p], k);
    SelectPair(p, q, k);
    SelectPair(q, p, k);
    assert Select([p, q], k) == Select([q, p], k);
  }

  lemma SelectPair(p: RawPack, q: RawPack, k: nat)
    ensures Select([p, q], k) == (if OfKind(p, k) then [p] else []) + (if OfKind(q, k) then [q] else [])
  {
    hide OfKind;
    assert [p, q] == [p] + [q];
    SelectStep([p], q, k);
    assert [p] == [] + [p];
    SelectStep([], p, k);
  }

  lemma {:induction false} OtherTracksKeep(row: Row, cs: seq<Commit>, t: nat)
    requires t < TRACKS && forall i :: 0 <= i < |cs| ==> cs[i].track != t
    ensures ApplyAll(row, cs)[t] == row[t]
  {
    if |cs| > 0 {
      OtherTracksKeep(row, cs[..|cs| - 1], t);
    }
  }

  lemma {:induction false} ApplyAllConcat(row: Row, a: seq<Commit>, b: seq<Commit>)
    ensures ApplyAll(row, a + b) == ApplyAll(ApplyAll(row, a), b)
  {
    hide Apply;
    if |b| == 0 {
      assert a + b == a;
    } else {
      assert (a + b)[..|a + b| - 1] == a + b[..|b| - 1];
      ApplyAllConcat(row, a, b[..|b| - 1]);
    }
  }

  lemma ApplyLast(row: Row, cs: seq<Commit>)
    requires |cs| > 0
    ensures ApplyAll(row, cs) == Apply(ApplyAll(row, cs[..|cs| - 1]), cs[|cs| - 1])
  {}

  /** A track's string is the last one committed to it, a lone TAB standing for what the previous
      track held at that moment; a track nothing was committed to stays empty. */
  lemma FieldIsLastCommit(cs: seq<Commit>, i: nat)
    requires i < |cs| && cs[i].track < TRACKS
    requires forall j :: i < j < |cs| ==> cs[j].track != cs[i].track
    ensures
      var t := cs[i].track;
      ApplyAll(EmptyRow(), cs)[t] ==
        if cs[i].text == [TAB] && t >= 1 then ApplyAll(EmptyRow(), cs[..i])[t - 1] else cs[i].text
  {
    hide ApplyAll;
    var before, after := cs[..i + 1], cs[i + 1..];
    assert cs == before + after;
    ApplyLast(EmptyRow(), before);
    ApplyAllConcat(EmptyRow(), before, after);
    OtherTracksKeep(ApplyAll(EmptyRow(), before), after, cs[i].track);
    assert before[..i] == cs[..i];
  }

  /** Which packs are used, in numbers: a good check field, no extension bit in the track byte, no
      double-byte bit and no other block in byte 3, and one of the four types. */
  lemma UsableIff(p: RawPack)
    ensures Usable(p) <==>
      Accepts(p) && p[1] < 0x80 && p[3] < 0x10 && (p[0] == 0x80 || p[0] == 0x81 || p[0] == 0x82 || p[0] == 0x8e)
    ensures OfKind(p, 0) <==> Usable(p) && p[0] == 0x80
    ensures OfKind(p, 1) <==> Usable(p) && p[0] == 0x81
    ensures OfKind(p, 2) <==> Usable(p) && p[0] == 0x82
    ensures OfKind(p, 3) <==> Usable(p) && p[0] == 0x8e
  {
    hide Accepts;
    BlockBits(p[3]);
    ExtensionBit(p[1]);
  }

  lemma BlockBits(b: Byte)
    ensures b & 0x80 == 0 && (b >> 4) & 0x07 == 0 <==> b < 0x10
  {}

  lemma ExtensionBit(b: Byte)
    ensures b & 0x80 == 0 <==> b < 0x80
    ensures b < 0x80 ==> b & 0x7f == b
  {}

  // ---- what was recorded is decoded ----------------------------------------------------------------------

  /** Where string i begins in the stream: every earlier string takes its length and a terminator. */
  function Start(texts: seq<Text>, i: nat): nat
    requires i <= |texts|
  {
    if i == 0 then 0 else Start(texts, i - 1) + |texts[i - 1]| + 1
  }

  /** Stream position m is payload byte m % 12 of pack m / 12. */
  function PayloadByte(packs: seq<RawPack>, m: nat): Byte
    requires m < 12 * |packs|
  {
    packs[m / 12][4 + m % 12]
  }

  ghost predicate Rising(tracks: seq<nat>) {
    forall i: nat, j: nat {:trigger tracks[i], tracks[j]} :: i < j < |tracks| ==> tracks[i] < tracks[j]
  }

  /** The packs of one kind as a recorder writes them: strings without NUL, each with its terminator,
      cut into payloads of twelve bytes, the last filled up with zeros; byte 1 of a pack is the track
      of the string in progress at its first payload byte. The tracks rise but may leave gaps. */
  ghost predicate Recording(packs: seq<RawPack>, texts: seq<Text>, tracks: seq<nat>) {
    var n := |texts|;
    && |tracks| == n && Rising(tracks)
    && (forall i: nat {:trigger tracks[i]} :: i < n ==> tracks[i] < 100)
    && (forall i: nat {:trigger texts[i]} :: i < n ==> 0 !in texts[i])
    && 12 * (|packs| - 1) < Start(texts, n) <= 12 * |packs|
    && (forall m: nat {:trigger PayloadByte(packs, m)} :: Start(texts, n) <= m < 12 * |packs| ==>
          PayloadByte(packs, m) == 0)
    && (forall i: nat, m: nat {:trigger texts[i], PayloadByte(packs, m)} ::
          i < n && Start(texts, i) <= m < Start(texts, i + 1) && m < 12 * |packs| ==>
          PayloadByte(packs, m) == if m < Start(texts, i) + |texts[i]| then texts[i][m - Start(texts, i)] else 0)
    && (forall i: nat, k: nat {:trigger tracks[i], packs[k]} ::
          i < n && k < |packs| && Start(texts, i) <= 12 * k < Start(texts, i + 1) ==> packs[k][1] as nat == tracks[i])
  }

  /** Every string that follows a gap has a pack beginning inside it, whose header can say so. */
  ghost predicate GapsAnnounced(texts: seq<Text>, tracks: seq<nat>)
    requires |texts| == |tracks|
  {
    forall i: nat {:trigger tracks[i]} :: 0 < i < |texts| && tracks[i] != tracks[i - 1] + 1 ==>
      PackBeginsIn(texts, i)
  }

  ghost predicate PackBeginsIn(texts: seq<Text>, i: nat)
    requires i < |texts|
  {
    exists k: nat {:trigger 12 * k} :: Start(texts, i) <= 12 * k < Start(texts, i + 1)
  }

  /** The position of the terminator of string i. */
  function Terminator(texts: seq<Text>, i: nat): nat
    requires i < |texts|
  {
    Start(texts, i) + |texts[i]|
  }

  function Kept(t: Text): Text {
    if |t| < 160 then t else t[..159]
  }

  lemma {:induction false} StreamAt(packs: seq<RawPack>, m: nat)
    requires m < 12 * |packs|
    ensures Stream(packs)[m] == PayloadByte(packs, m)
  {
    if m < 12 * (|packs| - 1) {
      StreamAt(packs[..|packs| - 1], m);
    } else {
      assert m / 12 == |packs| - 1;
    }
  }

  lemma {:induction false} StartsRise(texts: seq<Text>, i: nat, j: nat)
    requires i <= j <= |texts|
    ensures Start(texts, i) + (j - i) <= Start(texts, j)
  {
    if i < j {
      StartsRise(texts, i, j - 1);
    }
  }

  lemma {:induction false} StringAt(texts: seq<Text>, n: nat, m: nat) returns (i: nat)
    requires n <= |texts| && m < Start(texts, n)
    ensures i < n && Start(texts, i) <= m < Start(texts, i + 1)
  {
    if m < Start(texts, n - 1) {
      i := StringAt(texts, n - 1, m);
    } else {
      i := n - 1;
    }
  }

  lemma ByteOfString(packs: seq<RawPack>, texts: seq<Text>, tracks: seq<nat>, i: nat, m: nat)
    requires Recording(packs, texts, tracks) && i < |texts| && Start(texts, i) <= m < Start(texts, i + 1)
    ensures m < 12 * |packs|
    ensures Stream(packs)[m] == if m < Terminator(texts, i) then texts[i][m - Start(texts, i)] else 0
    ensures m < Terminator(texts, i) ==> Stream(packs)[m] != 0
  {
    hide Stream, PayloadByte;
    StartsRise(texts, i + 1, |texts|);
    StreamAt(packs, m);
  }

  /** Inside string i the NULs before are those of the i strings before, and it began at Start(i). */
  lemma {:induction false} InString(packs: seq<RawPack>, texts: seq<Text>, tracks: seq<nat>, i: nat, m: nat)
    requires Recording(packs, texts, tracks) && i < |texts| && Start(texts, i) <= m < Start(texts, i + 1)
    ensures m < 12 * |packs|
    ensures NulCount(Stream(packs), 0, m) == i && StringStart(Stream(packs), m) == Start(texts, i)
    decreases m
  {
    hide Stream, Recording;
    ByteOfString(packs, texts, tracks, i, m);
    if m > Start(texts, i) {
      InString(packs, texts, tracks, i, m - 1);
      ByteOfString(packs, texts, tracks, i, m - 1);
    } else if i > 0 {
      InString(packs, texts, tracks, i - 1, m - 1);
      ByteOfString(packs, texts, tracks, i - 1, m - 1);
    }
  }

  lemma {:induction false} NulCountAdds(b: seq<Byte>, lo: nat, hi: nat)
    requires lo <= hi <= |b|
    ensures NulCount(b, 0, hi) == NulCount(b, 0, lo) + NulCount(b, lo, hi)
  {
    if lo < hi {
      NulCountAdds(b, lo, hi - 1);
    }
  }

  lemma HeaderOfString(packs: seq<RawPack>, texts: seq<Text>, tracks: seq<nat>, j: nat, k: nat)
    requires Recording(packs, texts, tracks) && j < |texts| && k < |packs|
    requires Start(texts, j) <= 12 * k < Start(texts, j + 1)
    ensures HeaderTrack(packs[k]) == tracks[j]
  {
    assert packs[k][1] as nat == tracks[j];
    HeaderIsTheTrackByte(packs[k]);
  }

  /** String i is committed by its terminator to the track in the header of that pack, which string j
      begins, plus one for every string that ends between. */
  lemma CommitOfString(packs: seq<RawPack>, texts: seq<Text>, tracks: seq<nat>, i: nat, j: nat)
    requires Recording(packs, texts, tracks) && j <= i < |texts|
    requires Start(texts, j) <= 12 * (Terminator(texts, i) / 12) < Start(texts, j + 1)
    ensures Terminator(texts, i) < 12 * |packs| && Stream(packs)[Terminator(texts, i)] == 0
    ensures CommitAt(packs, Terminator(texts, i)) == Commit(tracks[j] + i - j, Kept(texts[i]))
  {
    hide Stream, NulCount, StringStart;
    var m := Terminator(texts, i);
    var k := m / 12;
    InString(packs, texts, tracks, i, m);
    ByteOfString(packs, texts, tracks, i, m);
    InString(packs, texts, tracks, j, 12 * k);
    NulCountAdds(Stream(packs), 12 * k, m);
    assert Stream(packs)[Start(texts, i)..m] == texts[i] by {
      forall c: nat | c < |texts[i]|
        ensures Stream(packs)[Start(texts, i) + c] == texts[i][c]
      {
        ByteOfString(packs, texts, tracks, i, Start(texts, i) + c);
      }
    }
    HeaderOfString(packs, texts, tracks, j, k);
  }

  lemma HeaderIsTheTrackByte(p: RawPack)
    requires (p[1] as nat) < 100
    ensures HeaderTrack(p) == p[1] as nat
  {
    ExtensionBit(p[1]);
  }

  /** The string that begins the pack of i's terminator. */
  lemma PackOfTerminator(packs: seq<RawPack>, texts: seq<Text>, tracks: seq<nat>, i: nat) returns (j: nat)
    requires Recording(packs, texts, tracks) && i < |texts|
    ensures j <= i && Start(texts, j) <= 12 * (Terminator(texts, i) / 12) < Start(texts, j + 1)
  {
    hide Recording;
    j := StringAt(texts, i + 1, 12 * (Terminator(texts, i) / 12));
  }

  /** Until string i ends, the commits are those of the strings before it. */
  lemma {:induction false} CommitsOfStrings(packs: seq<RawPack>, texts: seq<Text>, tracks: seq<nat>, i: nat, m: nat)
    requires Recording(packs, texts, tracks) && i <= |texts| && Start(texts, i) <= m <= 12 * |packs|
    requires if i < |texts| then m <= Terminator(texts, i) else m == Start(texts, i)
    ensures |Commits(packs, m)| == i
    ensures forall x: nat {:trigger Terminator(texts, x)} :: x < i ==>
      Terminator(texts, x) < 12 * |packs| && Commits(packs, m)[x] == CommitAt(packs, Terminator(texts, x))
    decreases m
  {
    hide Stream, CommitAt, Recording;
    if m > Start(texts, i) {
      CommitsOfStrings(packs, texts, tracks, i, m - 1);
      ByteOfString(packs, texts, tracks, i, m - 1);
      CommitsStep(packs, m - 1);
    } else if i > 0 {
      CommitsOfStrings(packs, texts, tracks, i - 1, m - 1);
      ByteOfString(packs, texts, tracks, i - 1, m - 1);
      CommitsStep(packs, m - 1);
      assert Terminator(texts, i - 1) == m - 1;
    }
  }

  lemma {:induction false} TracksCount(tracks: seq<nat>, j: nat, i: nat)
    requires j <= i < |tracks|
    requires Rising(tracks)
    ensures tracks[j] + i - j <= tracks[i]
    ensures tracks[j] + i - j == tracks[i] <==>
      forall g: nat {:trigger tracks[g]} :: j < g <= i ==> tracks[g] == tracks[g - 1] + 1
  {
    if j < i {
      TracksCount(tracks, j, i - 1);
    }
  }

  /** Every recorded string is committed to its own track exactly when every gap is announced by a
      pack that begins in the string behind it. */
  lemma AttributionIsRightIff(packs: seq<RawPack>, texts: seq<Text>, tracks: seq<nat>)
    requires Recording(packs, texts, tracks)
    ensures |Commits(packs, Start(texts, |texts|))| == |texts|
    ensures GapsAnnounced(texts, tracks) <==>
      forall i: nat {:trigger texts[i]} :: i < |texts| ==>
        Commits(packs, Start(texts, |texts|))[i] == Commit(tracks[i], Kept(texts[i]))
  {
    hide Commits, CommitAt;
    CommitsOfStrings(packs, texts, tracks, |texts|, Start(texts, |texts|));
    var cs := Commits(packs, Start(texts, |texts|));
    if GapsAnnounced(texts, tracks) {
      forall i: nat | i < |texts|
        ensures cs[i] == Commit(tracks[i], Kept(texts[i]))
      {
        AnnouncedIsRight(packs, texts, tracks, i);
      }
    }
    if forall i: nat {:trigger texts[i]} :: i < |texts| ==> cs[i] == Commit(tracks[i], Kept(texts[i])) {
      forall i: nat | 0 < i < |texts| && tracks[i] != tracks[i - 1] + 1
        ensures PackBeginsIn(texts, i)
      {
        assert texts[i] == texts[i];
        UnannouncedIsWrong(packs, texts, tracks, i);
      }
    }
  }

  lemma AnnouncedIsRight(packs: seq<RawPack>, texts: seq<Text>, tracks: seq<nat>, i: nat)
    requires Recording(packs, texts, tracks) && GapsAnnounced(texts, tracks) && i < |texts|
    ensures Terminator(texts, i) < 12 * |packs|
    ensures CommitAt(packs, Terminator(texts, i)) == Commit(tracks[i], Kept(texts[i]))
  {
    hide CommitAt, Terminator, Start;
    var j := PackOfTerminator(packs, texts, tracks, i);
    CommitOfString(packs, texts, tracks, i, j);
    forall g: nat | j < g <= i && tracks[g] != tracks[g - 1] + 1
      ensures false
    {
      NoPackBegins(texts, i, j, g);
    }
    TracksCount(tracks, j, i);
  }

  /** No pack begins in a string that lies behind the one beginning the pack of i's terminator. */
  lemma NoPackBegins(texts: seq<Text>, i: nat, j: nat, g: nat)
    requires j < g <= i < |texts| && 12 * (Terminator(texts, i) / 12) < Start(texts, j + 1)
    ensures !PackBeginsIn(texts, g)
  {
    StartsRise(texts, j + 1, g);
    StartsRise(texts, g + 1, i + 1);
    forall k: nat | Start(texts, g) <= 12 * k
      ensures 12 * k >= Start(texts, g + 1)
    {
      assert k > Terminator(texts, i) / 12;
    }
  }

  lemma UnannouncedIsWrong(packs: seq<RawPack>, texts: seq<Text>, tracks: seq<nat>, i: nat)
    requires Recording(packs, texts, tracks) && 0 < i < |texts| && tracks[i] != tracks[i - 1] + 1
    requires Terminator(texts, i) < 12 * |packs|
    requires CommitAt(packs, Terminator(texts, i)).track == tracks[i]
    ensures PackBeginsIn(texts, i)
  {
    hide CommitAt;
    var j := PackOfTerminator(packs, texts, tracks, i);
    CommitOfString(packs, texts, tracks, i, j);
    TracksCount(tracks, j, i);
    assert j == i;
    assert Start(texts, i) <= 12 * (Terminator(texts, i) / 12) < Start(texts, i + 1);
  }

  lemma {:induction false} InPadding(packs: seq<RawPack>, texts: seq<Text>, tracks: seq<nat>, m: nat)
    requires Recording(packs, texts, tracks) && |texts| > 0 && Start(texts, |texts|) <= m <= 12 * |packs|
    ensures NulCount(Stream(packs), 0, m) == |texts| + m - Start(texts, |texts|)
    ensures StringStart(Stream(packs), m) == m
    ensures m < 12 * |packs| ==> Stream(packs)[m] == 0
    decreases m
  {
    hide Stream, PayloadByte;
    if m < 12 * |packs| {
      StreamAt(packs, m);
    }
    if m > Start(texts, |texts|) {
      InPadding(packs, texts, tracks, m - 1);
    } else {
      InString(packs, texts, tracks, |texts| - 1, m - 1);
      ByteOfString(packs, texts, tracks, |texts| - 1, m - 1);
    }
  }

  /** The zeros behind the last string commit empty strings to the tracks behind the last one. */
  lemma CommitOfPadding(packs: seq<RawPack>, texts: seq<Text>, tracks: seq<nat>, m: nat)
    requires Recording(packs, texts, tracks) && GapsAnnounced(texts, tracks) && |texts| > 0
    requires Start(texts, |texts|) <= m < 12 * |packs|
    ensures CommitAt(packs, m) == Commit(tracks[|texts| - 1] + 1 + m - Start(texts, |texts|), [])
  {
    hide Stream, NulCount, StringStart, HeaderTrack, GapsAnnounced;
    var last := |texts| - 1;
    var j := PackOfTerminator(packs, texts, tracks, last);
    CommitOfString(packs, texts, tracks, last, j);
    AnnouncedIsRight(packs, texts, tracks, last);
    var k := m / 12;
    assert k == |packs| - 1 == Terminator(texts, last) / 12;
    InPadding(packs, texts, tracks, m);
    InString(packs, texts, tracks, j, 12 * k);
    NulCountAdds(Stream(packs), 12 * k, m);
    HeaderOfString(packs, texts, tracks, j, k);
  }

  /** What the strings and the zeros behind them commit. */
  ghost predicate AreTheCommits(cs: seq<Commit>, texts: seq<Text>, tracks: seq<nat>)
    requires |texts| == |tracks|
  {
    && |cs| >= |texts| > 0
    && (forall x: nat {:trigger cs[x]} :: x < |texts| ==> cs[x] == Commit(tracks[x], Kept(texts[x])))
    && (forall x: nat {:trigger cs[x]} :: |texts| <= x < |cs| ==>
          cs[x] == Commit(tracks[|texts| - 1] + 1 + x - |texts|, []))
  }

  lemma {:induction false} AllCommits(packs: seq<RawPack>, texts: seq<Text>, tracks: seq<nat>, m: nat)
    requires Recording(packs, texts, tracks) && GapsAnnounced(texts, tracks) && |texts| > 0
    requires Start(texts, |texts|) <= m <= 12 * |packs|
    ensures AreTheCommits(Commits(packs, m), texts, tracks)
    ensures |Commits(packs, m)| == |texts| + m - Start(texts, |texts|)
    decreases m
  {
    hide Stream, CommitAt, Recording, GapsAnnounced;
    if m > Start(texts, |texts|) {
      AllCommits(packs, texts, tracks, m - 1);
      InPadding(packs, texts, tracks, m - 1);
      CommitsStep(packs, m - 1);
      CommitOfPadding(packs, texts, tracks, m - 1);
    } else {
      AttributionIsRightIff(packs, texts, tracks);
    }
  }

  ghost predicate RisingCommits(cs: seq<Commit>) {
    forall x: nat, y: nat {:trigger cs[x], cs[y]} :: x < y < |cs| ==> cs[x].track < cs[y].track
  }

  /** Commits to rising tracks never meet, and a lone TAB finds the track before it finished. */
  lemma RisingCommitsStand(cs: seq<Commit>, x: nat)
    requires RisingCommits(cs) && x < |cs| && cs[x].track < TRACKS
    ensures
      var row := ApplyAll(EmptyRow(), cs);
      var t := cs[x].track;
      row[t] == if cs[x].text == [TAB] && t >= 1 then row[t - 1] else cs[x].text
  {
    hide ApplyAll, Apply, EmptyRow;
    FieldIsLastCommit(cs, x);
    if cs[x].track >= 1 {
      ApplyAllConcat(EmptyRow(), cs[..x], cs[x..]);
      assert cs == cs[..x] + cs[x..];
      OtherTracksKeep(ApplyAll(EmptyRow(), cs[..x]), cs[x..], cs[x].track - 1);
    }
  }

  /** The recording comes back: every string is found at its own track, cut to what a field holds, a
      lone TAB repeating what the track before it has; every other track is empty. It takes that each
      gap in the tracks is announced, as AttributionIsRightIff says. */
  lemma RecordedStringsAreDecoded(packs: seq<RawPack>, texts: seq<Text>, tracks: seq<nat>)
    requires Recording(packs, texts, tracks) && GapsAnnounced(texts, tracks)
    ensures
      var row := Decoded(packs);
      && (forall i: nat {:trigger tracks[i]} :: i < |texts| ==>
            var t := tracks[i];
            row[t] == if texts[i] == [9] && t >= 1 then row[t - 1]
                      else if |texts[i]| < 160 then texts[i] else texts[i][..159])
      && (forall t: nat {:trigger row[t]} :: t < 100 && t !in tracks ==> row[t] == [])
  {
    hide Stream, Commits, ApplyAll, Apply, GapsAnnounced;
    if |texts| > 0 {
      AllCommits(packs, texts, tracks, 12 * |packs|);
      var cs := Commits(packs, 12 * |packs|);
      CommitsRise(cs, texts, tracks);
      forall i: nat | i < |texts|
        ensures
          var row, t := Decoded(packs), tracks[i];
          row[t] == if texts[i] == [9] && t >= 1 then row[t - 1] else Kept(texts[i])
      {
        RisingCommitsStand(cs, i);
        assert cs[i] == Commit(tracks[i], Kept(texts[i]));
      }
      forall t: nat | t < 100 && t !in tracks
        ensures Decoded(packs)[t] == []
      {
        if x: nat :| x < |cs| && cs[x].track == t {
          RisingCommitsStand(cs, x);
        } else {
          OtherTracksKeep(EmptyRow(), cs, t);
        }
      }
    } else {
      NothingDecoded();
    }
  }

  lemma CommitsRise(cs: seq<Commit>, texts: seq<Text>, tracks: seq<nat>)
    requires |texts| == |tracks| && Rising(tracks) && AreTheCommits(cs, texts, tracks)
    ensures RisingCommits(cs)
  {}

  lemma NothingDecoded()
    ensures Decoded([]) == EmptyRow()
  {}
}

/** The streaming R-W decoder: an eight-pack ring that undoes the convolutional interleave and
    the symbol permutation, followed by both Reed-Solomon codes. */
module RwDecoder {
  import opened Gf64
  import RS = ReedSolomon

  const PACK_SYMBOLS := 24
  const PACKS_PER_SECTOR := 4
  const SPAN := 8

  /** rw_perm: the logical position whose symbol travels at channel position i. */
  const RW_PERM: seq<nat> := [
     0, 18,  5, 23,  4,  2,  6,  7,
     8,  9, 10, 11, 12, 13, 14, 15,
    16, 17,  1, 19, 20, 21, 22,  3
  ]

  /** The table is three transpositions and the identity everywhere else. */
  function Perm(i: nat): (p: nat)
    requires i < PACK_SYMBOLS
    ensures p < PACK_SYMBOLS
  {
    if i == 1 then 18 else if i == 18 then 1
    else if i == 2 then 5 else if i == 5 then 2
    else if i == 3 then 23 else if i == 23 then 3
    else i
  }

  lemma PermIsTheTable()
    ensures seq(PACK_SYMBOLS, (i: nat) requires i < PACK_SYMBOLS => Perm(i)) == RW_PERM
  {}

  type ChannelPack = p: seq<Sym> | |p| == PACK_SYMBOLS witness seq(PACK_SYMBOLS, i => 0)

  datatype Pack = Pack(symbol: ChannelPack, pFixed: nat, qFixed: nat, pFailed: bool, qFailed: bool)

  datatype Stats = Stats(packs: nat, pFixed: nat, qFixed: nat, pFailed: nat, qFailed: nat,
                         modeZero: nat, modeGraphics: nat)

  datatype Status = Ok | ErrInval

  // ---- specification ----------------------------------------------------------------------

  lemma PermIsInvolution(i: nat)
    requires i < PACK_SYMBOLS
    ensures Perm(Perm(i)) == i
  {}

  /** The symbols belonging to logical pack n, collected from the channel packs that carry them:
      logical symbol j travels at channel position Perm(j), delayed by that position mod 8. */
  function Gather(stream: seq<ChannelPack>, n: nat): (w: seq<Sym>)
    requires n + SPAN <= |stream|
    ensures |w| == PACK_SYMBOLS
  {
    seq(PACK_SYMBOLS, (j: nat) requires j < PACK_SYMBOLS && n + SPAN <= |stream| =>
      stream[n + Perm(j) % SPAN][Perm(j)])
  }

  /** The recorder's side: channel position i of pack c carries symbol Perm(i) of the logical
      pack i mod 8 earlier. Before the first logical pack has reached a position, anything. */
  ghost predicate Interleaved(logical: seq<ChannelPack>, channel: seq<ChannelPack>) {
    forall c: nat, i: nat {:trigger channel[c][i]} ::
      c < |channel| && i < PACK_SYMBOLS && i % SPAN <= c && c - i % SPAN < |logical| ==>
      channel[c][i] == logical[c - i % SPAN][Perm(i)]
  }

  /** A logical pack as recorded: a word of the (24,20) code whose first four symbols are a word
      of the (4,2) code. */
  ghost predicate WellFormed(pack: ChannelPack) {
    RS.IsCodeword(pack, 4) && RS.IsCodeword(pack[..4], 2)
  }

  /** What the two corrections make of a gathered pack. */
  ghost function DecodePack(w: ChannelPack): Pack {
    var (afterP, p) := RS.Decode(w, 4);
    var (head, q) := RS.Decode(afterP[..4], 2);
    Pack(head + afterP[4..], if p < 0 then 0 else p, if q < 0 then 0 else q, p < 0, q < 0)
  }

  function Mode(pack: Pack): bv6 {
    (pack.symbol[0] >> 3) & 0x07
  }

  function Tally(st: Stats, pack: Pack): Stats {
    Stats(st.packs + 1, st.pFixed + pack.pFixed, st.qFixed + pack.qFixed,
          st.pFailed + (if pack.pFailed then 1 else 0),
          st.qFailed + (if pack.qFailed then 1 else 0),
          st.modeZero + (if Mode(pack) == 0 then 1 else 0),
          st.modeGraphics + (if Mode(pack) == 1 then 1 else 0))
  }

  function TallyAll(st: Stats, packs: seq<Pack>): Stats {
    if |packs| == 0 then st else Tally(TallyAll(st, packs[..|packs| - 1]), packs[|packs| - 1])
  }

  lemma NoTally(st: Stats)
    ensures TallyAll(st, []) == st
  {}

  lemma TallyStep(st: Stats, packs: seq<Pack>, p: Pack)
    ensures TallyAll(st, packs + [p]) == Tally(TallyAll(st, packs), p)
  {
    hide Tally;
    assert (packs + [p])[..|packs|] == packs;
  }

  lemma TallyMore(st: Stats, packs: seq<Pack>, more: seq<Pack>)
    requires |more| <= 1
    ensures TallyAll(st, packs + more) == TallyAll(TallyAll(st, packs), more)
  {
    hide Tally;
    NoTally(TallyAll(st, packs));
    if |more| == 1 {
      TallyStep(st, packs, more[0]);
      TallyStep(TallyAll(st, packs), [], more[0]);
      assert [] + [more[0]] == more;
    } else {
      assert packs + more == packs;
    }
  }

  function Total(counts: seq<nat>): nat {
    if |counts| == 0 then 0 else Total(counts[..|counts| - 1]) + counts[|counts| - 1]
  }

  lemma TotalStep(counts: seq<nat>, more: seq<nat>)
    requires |more| == |counts| + 1 && more[..|counts|] == counts
    ensures Total(more) == Total(counts) + more[|counts|]
  {}

  lemma ModeOfFirstSymbol(pack: Pack)
    ensures Mode(pack) == 0 <==> pack.symbol[0] < 8
    ensures Mode(pack) == 1 <==> 8 <= pack.symbol[0] < 16
  {}

  /** The statistics over any list of packs: how many came and how many symbols each code fixed. */
  lemma {:induction false} TallyTotals(st: Stats, packs: seq<Pack>)
    ensures
      var t := TallyAll(st, packs);
      && t.packs == st.packs + |packs|
      && t.pFixed == st.pFixed + Total(seq(|packs|, (k: nat) requires k < |packs| => packs[k].pFixed))
      && t.qFixed == st.qFixed + Total(seq(|packs|, (k: nat) requires k < |packs| => packs[k].qFixed))
  {
    hide Mode, Total;
    if |packs| == 0 {
      TotalOfNone(seq(|packs|, (k: nat) requires k < |packs| => packs[k].pFixed));
      TotalOfNone(seq(|packs|, (k: nat) requires k < |packs| => packs[k].qFixed));
    } else {
      var n := |packs| - 1;
      var shorter := packs[..n];
      TallyTotals(st, shorter);
      TotalStep(seq(n, (k: nat) requires k < n => shorter[k].pFixed),
                seq(n + 1, (k: nat) requires k < n + 1 => packs[k].pFixed));
      TotalStep(seq(n, (k: nat) requires k < n => shorter[k].qFixed),
                seq(n + 1, (k: nat) requires k < n + 1 => packs[k].qFixed));
    }
  }

  /** How many blocks each code gave up on. */
  lemma {:induction false} TallyFailures(st: Stats, packs: seq<Pack>)
    ensures
      var t := TallyAll(st, packs);
      && t.pFailed == st.pFailed + |set k: nat | k < |packs| && packs[k].pFailed|
      && t.qFailed == st.qFailed + |set k: nat | k < |packs| && packs[k].qFailed|
  {
    hide Mode;
    if |packs| > 0 {
      var n := |packs| - 1;
      var shorter := packs[..n];
      TallyFailures(st, shorter);
      CountStep(n, set k: nat | k < n && shorter[k].pFailed, set k: nat | k < n + 1 && packs[k].pFailed);
      CountStep(n, set k: nat | k < n && shorter[k].qFailed, set k: nat | k < n + 1 && packs[k].qFailed);
    }
  }

  /** How many packs have mode 0 and mode 1 in the high bits of their first symbol. */
  lemma {:induction false} TallyModes(st: Stats, packs: seq<Pack>)
    ensures
      var t := TallyAll(st, packs);
      && t.modeZero == st.modeZero + |set k: nat | k < |packs| && packs[k].symbol[0] < 8|
      && t.modeGraphics == st.modeGraphics + |set k: nat | k < |packs| && 8 <= packs[k].symbol[0] < 16|
  {
    hide Mode;
    if |packs| > 0 {
      var n := |packs| - 1;
      var shorter := packs[..n];
      TallyModes(st, shorter);
      CountStep(n, set k: nat | k < n && shorter[k].symbol[0] < 8, set k: nat | k < n + 1 && packs[k].symbol[0] < 8);
      CountStep(n, set k: nat | k < n && 8 <= shorter[k].symbol[0] < 16,
                set k: nat | k < n + 1 && 8 <= packs[k].symbol[0] < 16);
      ModeOfFirstSymbol(packs[n]);
    }
  }

  lemma TotalOfNone(counts: seq<nat>)
    requires counts == []
    ensures Total(counts) == 0
  {}

  lemma CountStep(n: nat, before: set<nat>, after: set<nat>)
    requires forall k :: k in before ==> k < n
    requires forall k: nat :: k in after <==> k in before || (k == n && n in after)
    ensures |after| == |before| + (if n in after then 1 else 0)
  {
    assert after == if n in after then before + {n} else before;
  }

  function LowSix(b: bv8): Sym {
    (b & 0x3f) as Sym
  }

  /** One sector of raw subcode as channel packs: R-W is the low six bits of each byte. */
  function ChannelPacks(raw: seq<bv8>): (packs: seq<ChannelPack>)
    requires |raw| == PACKS_PER_SECTOR * PACK_SYMBOLS
    ensures |packs| == PACKS_PER_SECTOR
  {
    seq(PACKS_PER_SECTOR, (k: nat) requires k < PACKS_PER_SECTOR && |raw| == PACKS_PER_SECTOR * PACK_SYMBOLS =>
      ChannelPackAt(raw, k))
  }

  function ChannelPackAt(raw: seq<bv8>, k: nat): (sym: ChannelPack)
    requires |raw| == PACKS_PER_SECTOR * PACK_SYMBOLS && k < PACKS_PER_SECTOR
  {
    seq(PACK_SYMBOLS, (i: nat) requires i < PACK_SYMBOLS => LowSix(raw[k * PACK_SYMBOLS + i]))
  }

  lemma ChannelPacksAt(raw: seq<bv8>, k: nat)
    requires |raw| == PACKS_PER_SECTOR * PACK_SYMBOLS && k < PACKS_PER_SECTOR
    ensures ChannelPacks(raw)[k] == ChannelPackAt(raw, k)
  {
    hide ChannelPackAt;
  }

  /** The subcode byte a disc carries for an R-W symbol: P in bit 7 and Q in bit 6 are whatever those
      channels say. */
  predicate Carries(b: bv8, sym: Sym) {
    b == sym as bv8 || b == sym as bv8 | 0x40 || b == sym as bv8 | 0x80 || b == sym as bv8 | 0xc0
  }

  ghost predicate SectorCarries(raw: seq<bv8>, packs: seq<ChannelPack>)
    requires |raw| == 96 && |packs| == 4
  {
    forall k: nat, i: nat {:trigger packs[k][i]} :: k < 4 && i < 24 ==> Carries(raw[24 * k + i], packs[k][i])
  }

  lemma LowSixIsTheSymbol(b: bv8, sym: Sym)
    requires Carries(b, sym)
    ensures LowSix(b) == sym
  {}

  /** Whatever P and Q are, the bytes of a sector give back the symbols they carry. */
  lemma SectorGivesItsPacks(raw: seq<bv8>, packs: seq<ChannelPack>)
    requires |raw| == 96 && |packs| == 4 && SectorCarries(raw, packs)
    ensures ChannelPacks(raw) == packs
  {
    hide LowSix, Carries;
    forall k: nat | k < 4
      ensures ChannelPacks(raw)[k] == packs[k]
    {
      ChannelPacksAt(raw, k);
      forall i: nat | i < 24
        ensures ChannelPackAt(raw, k)[i] == packs[k][i]
      {
        LowSixIsTheSymbol(raw[24 * k + i], packs[k][i]);
      }
    }
  }

  /** The packs a decoder emits for logical indices lo up to hi. */
  ghost function Emissions(stream: seq<ChannelPack>, lo: nat, hi: nat): (out: seq<Pack>)
    requires lo <= hi <= Complete(|stream|)
    ensures |out| == hi - lo
  {
    seq(hi - lo, (k: nat) requires k < hi - lo && hi <= Complete(|stream|) =>
      DecodePack(Gather(stream, lo + k)))
  }

  /** Logical packs complete once n channel packs have been seen: everything but the seven the
      interleave still spreads over. */
  function Complete(n: nat): nat {
    if n < SPAN then 0 else n - (SPAN - 1)
  }

  /** Ring slot of the channel pack pushed `age` packs ago; age 0 is the most recent. */
  function Slot(head: nat, age: nat): (slot: nat)
    requires head < SPAN && age < SPAN
    ensures slot < SPAN
  {
    (head + SPAN - age) % SPAN
  }

  // ---- the decoder ----------------------------------------------------------------------------

  class Decoder {
    const hist: array2<Sym>
    var head: nat
    var seen: nat
    var st: Stats
    /** Every channel pack pushed since the decoder was opened. */
    ghost var fed: seq<ChannelPack>

    ghost predicate Valid()
      reads this, hist
    {
      && hist.Length0 == SPAN && hist.Length1 == PACK_SYMBOLS
      && head < SPAN
      && seen == (if |fed| < SPAN then |fed| else SPAN)
      && forall age: nat {:trigger Slot(head, age)} ::
           age < seen ==> Holds(Slot(head, age), fed[|fed| - 1 - age])
    }

    ghost predicate Holds(slot: nat, sym: ChannelPack)
      requires hist.Length0 == SPAN && hist.Length1 == PACK_SYMBOLS && slot < SPAN
      reads hist
    {
      forall i: nat :: i < PACK_SYMBOLS ==> hist[slot, i] == sym[i]
    }

    constructor Open()
      ensures Valid() && fresh(hist) && fed == []
      ensures st == Stats(0, 0, 0, 0, 0, 0, 0)
    {
      hist := new Sym[SPAN, PACK_SYMBOLS]((i, j) => 0);
      head, seen, st := 0, 0, Stats(0, 0, 0, 0, 0, 0, 0);
      fed := [];
    }

    method PushChannelPack(sym: ChannelPack)
      requires Valid()
      modifies this`head, this`seen, this`fed, hist
      ensures Valid() && fed == old(fed) + [sym]
    {
      head := (head + 1) % SPAN;
      forall i | 0 <= i < PACK_SYMBOLS {
        hist[head, i] := sym[i];
      }
      if seen < SPAN {
        seen := seen + 1;
      }
      fed := fed + [sym];
      forall age: nat | age < seen
        ensures Holds(Slot(head, age), fed[|fed| - 1 - age])
      {
        RingSlot(old(head), age);
        if age > 0 {
          assert old(Holds(Slot(head, age - 1), fed[|fed| - 1 - (age - 1)]));
        }
      }
    }

    /** Gathers the symbols of the oldest complete logical pack. */
    method Assemble(v: array<Sym>)
      requires Valid() && seen == SPAN && v.Length == PACK_SYMBOLS
      modifies v
      ensures v[..] == Gather(fed, |fed| - SPAN)
    {
      hide Perm;
      ghost var want := Gather(fed, |fed| - SPAN);
      for i := 0 to PACK_SYMBOLS
        invariant forall q: nat {:trigger Perm(q)} :: q < i ==> v[Perm(q)] == want[Perm(q)]
      {
        var age := 7 - i % 8;
        var slot := Slot(head, age);
        PermIsInvolution(i);
        assert Holds(slot, fed[|fed| - 1 - age]);
        v[Perm(i)] := hist[slot, i];
      }
      forall j: nat | j < PACK_SYMBOLS
        ensures v[j] == want[j]
      {
        PermIsInvolution(j);
        assert v[Perm(Perm(j))] == want[Perm(Perm(j))];
      }
    }

    /** P first, over the whole pack, then Q over its first four symbols. */
    static method Correct(v: array<Sym>) returns (out: Pack)
      requires v.Length == PACK_SYMBOLS
      modifies v
      ensures out == DecodePack(old(v[..]))
    {
      hide RS.Decoded;
      ghost var want := v[..];
      assert v[..PACK_SYMBOLS] == want;
      var p := RS.RsCorrect(v, PACK_SYMBOLS, 4);
      ghost var afterP := v[..];
      assert v[..PACK_SYMBOLS] == afterP;
      RS.DecodingIsDeterministic(want, afterP, RS.Decode(want, 4).0, 4, p, RS.Decode(want, 4).1);
      var q := RS.RsCorrect(v, 4, 2);
      RS.DecodingIsDeterministic(afterP[..4], v[..4], RS.Decode(afterP[..4], 2).0, 2, q, RS.Decode(afterP[..4], 2).1);
      assert v[..] == v[..4] + v[4..];
      out := Pack(v[..], if p < 0 then 0 else p, if q < 0 then 0 else q, p < 0, q < 0);
    }

    /** The oldest logical pack the ring completes, after both corrections. */
    method EmitPack() returns (out: Pack)
      requires Valid() && seen == SPAN
      modifies this`st
      ensures out == DecodePack(Gather(fed, |fed| - SPAN))
      ensures st == Tally(old(st), out)
    {
      hide Gather, DecodePack;
      var v := new Sym[PACK_SYMBOLS](i => 0);
      Assemble(v);
      out := Correct(v);
      st := Tally(st, out);
    }

    /** Feed one sector. max is 0 to prime without emitting, or at least a sector's packs. */
    method Feed(raw: seq<bv8>, out: array?<Pack>, max: nat) returns (rc: Status, emitted: nat)
      requires Valid() && |raw| == PACKS_PER_SECTOR * PACK_SYMBOLS
      requires out != null ==> max <= out.Length
      modifies this`head, this`seen, this`fed, this`st, hist, out
      ensures Valid()
      ensures rc == ErrInval <==> (out == null && max > 0) || (max != 0 && max < PACKS_PER_SECTOR)
      ensures rc == ErrInval ==> fed == old(fed) && st == old(st) && (out != null ==> out[..] == old(out[..]))
      ensures rc == Ok ==> fed == old(fed) + ChannelPacks(raw)
      ensures rc == Ok ==> emitted == if max == 0 then 0 else Complete(|fed|) - Complete(|old(fed)|)
      ensures rc == Ok && out != null ==>
        && out[emitted..] == old(out[emitted..])
        && (max > 0 ==> out[..emitted] == Emissions(fed, Complete(|old(fed)|), Complete(|fed|)))
        && st == TallyAll(old(st), out[..emitted])
      ensures rc == Ok && out == null ==> st == old(st)
    {
      NoTally(st);
      hide DecodePack, Gather, Emissions, TallyAll, Valid, ChannelPacks, SinkHolds;
      if (out == null && max > 0) || (max != 0 && max < PACKS_PER_SECTOR) {
        return ErrInval, 0;
      }
      ghost var was := if out == null then [] else out[..];
      NothingSunk(out, was);
      ghost var got;
      emitted, got := FeedSector(raw, out, max, was);
      SinkParts(out, was, got);
      rc := Ok;
    }

    /** The packs of one sector, fed one after the other. */
    method FeedSector(raw: seq<bv8>, out: array?<Pack>, max: nat, ghost was: seq<Pack>)
      returns (emitted: nat, ghost got: seq<Pack>)
      requires Valid() && |raw| == PACKS_PER_SECTOR * PACK_SYMBOLS
      requires max > 0 ==> out != null && PACKS_PER_SECTOR <= max <= out.Length
      requires SinkHolds(out, was, [])
      modifies this`head, this`seen, this`fed, this`st, hist, out
      ensures Valid() && fed == old(fed) + ChannelPacks(raw) && st == TallyAll(old(st), got)
      ensures emitted == |got| && SinkHolds(out, was, got)
      ensures got == if max == 0 then [] else Emissions(fed, Complete(|old(fed)|), Complete(|fed|))
    {
      hide DecodePack, Gather, ChannelPackAt, Emissions, TallyAll, Valid, ChannelPacks, SinkHolds;
      emitted, got := 0, [];
      ghost var base := Complete(|fed|);
      NoEmissions(fed, base);
      NoTally(st);
      for pk := 0 to PACKS_PER_SECTOR
        invariant Valid() && fed == old(fed) + ChannelPacks(raw)[..pk]
        invariant emitted == |got| <= pk && got == if max == 0 then [] else Emissions(fed, base, Complete(|fed|))
        invariant SinkHolds(out, was, got) && st == TallyAll(old(st), got)
      {
        ghost var before := fed;
        ChannelPacksAt(raw, pk);
        assert ChannelPacks(raw)[..pk + 1] == ChannelPacks(raw)[..pk] + [ChannelPacks(raw)[pk]];
        ghost var more;
        emitted, more := FeedPack(ChannelPackAt(raw, pk), out, max, emitted, was, got);
        EmissionsStep(before, fed, base);
        TallyMore(old(st), got, more);
        got := got + more;
      }
    }

    /** One turn of the sector loop: the push always happens, the emission only when the ring is
        full and the sink has room. */
    method FeedPack(sym: ChannelPack, out: array?<Pack>, max: nat, n: nat, ghost was: seq<Pack>, ghost got: seq<Pack>)
      returns (n': nat, ghost more: seq<Pack>)
      requires Valid() && n == |got| <= max && (max > 0 ==> out != null && max <= out.Length)
      requires SinkHolds(out, was, got)
      modifies this`head, this`seen, this`fed, this`st, hist, out
      ensures Valid() && fed == old(fed) + [sym]
      ensures more == if |fed| < SPAN || n == max then [] else [DecodePack(Gather(fed, |fed| - SPAN))]
      ensures n' == n + |more| && st == TallyAll(old(st), more) && SinkHolds(out, was, got + more)
    {
      hide DecodePack, Gather, Tally, TallyAll;
      n', more := n, [];
      NoTally(st);
      PushChannelPack(sym);
      assert got + [] == got;
      if seen < SPAN {
        return;
      }
      if n < max {
        TallyStep(st, [], DecodePack(Gather(fed, |fed| - SPAN)));
        var pack := EmitPack();
        assert [] + [pack] == [pack];
        out[n] := pack;
        n', more := n + 1, [pack];
        Sunk(out[..], was, got, pack);
      }
    }
  }

  /** The sink array holds the packs got, in front of what it held before. */
  ghost predicate SinkHolds(out: array?<Pack>, was: seq<Pack>, got: seq<Pack>)
    reads out
  {
    out != null ==> |got| <= |was| && out[..] == got + was[|got|..]
  }

  lemma NothingSunk(out: array?<Pack>, was: seq<Pack>)
    requires out != null ==> out[..] == was
    ensures SinkHolds(out, was, [])
  {}

  lemma SinkParts(out: array?<Pack>, was: seq<Pack>, got: seq<Pack>)
    requires SinkHolds(out, was, got) && (out != null ==> |was| == out.Length)
    ensures out != null ==> |got| <= out.Length && out[..|got|] == got && out[|got|..] == was[|got|..]
  {
    if out != null {
      assert out[..|got|] == out[..][..|got|] && out[|got|..] == out[..][|got|..];
    }
  }

  lemma Sunk(now: seq<Pack>, was: seq<Pack>, got: seq<Pack>, pack: Pack)
    requires |got| < |was| && now == (got + was[|got|..])[|got| := pack]
    ensures now == got + [pack] + was[|got| + 1..]
  {}

  lemma NoEmissions(stream: seq<ChannelPack>, at: nat)
    requires at <= Complete(|stream|)
    ensures Emissions(stream, at, at) == []
  {}

  /** One more channel pack completes one more logical pack, once the ring is full. */
  lemma EmissionsStep(stream: seq<ChannelPack>, longer: seq<ChannelPack>, base: nat)
    requires stream <= longer && |longer| == |stream| + 1 && base <= Complete(|stream|)
    ensures Emissions(longer, base, Complete(|longer|)) ==
            Emissions(stream, base, Complete(|stream|)) +
            (if |longer| < SPAN then [] else [DecodePack(Gather(longer, |longer| - SPAN))])
  {
    hide DecodePack, Gather;
    EmissionsExtend(stream, longer, base);
  }

  lemma GatherIgnoresLaterPacks(stream: seq<ChannelPack>, longer: seq<ChannelPack>, n: nat)
    requires n + SPAN <= |stream| && stream <= longer
    ensures Gather(stream, n) == Gather(longer, n)
  {}

  lemma RingSlot(head: nat, age: nat)
    requires head < SPAN && age < SPAN
    ensures
      var now := (head + 1) % SPAN;
      && (age == 0 ==> Slot(now, age) == now)
      && (age > 0 ==> Slot(now, age) == Slot(head, age - 1) != now)
  {}

  // ---- the interleave is undone ------------------------------------------------------------

  /** On the recorded stream the ring collects exactly the logical packs, in order. */
  lemma GatherUndoesInterleave(logical: seq<ChannelPack>, channel: seq<ChannelPack>, n: nat)
    requires Interleaved(logical, channel) && n < |logical| && n + SPAN <= |channel|
    ensures Gather(channel, n) == logical[n]
  {
    hide Perm;
    forall j: nat | j < PACK_SYMBOLS
      ensures Gather(channel, n)[j] == logical[n][j]
    {
      PermIsInvolution(j);
      assert channel[n + Perm(j) % SPAN][Perm(j)] == Gather(channel, n)[j];
    }
  }

  /** Up to two bad symbols in a gathered pack are repaired, reported and hidden from Q. */
  lemma DecodePackRepairs(pack: ChannelPack, w: ChannelPack)
    requires WellFormed(pack) && RS.Distance(pack, w) <= 2
    ensures DecodePack(w) == Pack(pack, RS.Distance(pack, w), 0, false, false)
  {
    hide RS.Decoded, RS.IsCodeword, RS.Distance;
    var afterP := RS.Decode(w, 4);
    RS.DecodingRestores(pack, w, afterP.0, 4, afterP.1);
    var afterQ := RS.Decode(pack[..4], 2);
    RS.DistanceZero(pack[..4], pack[..4]);
    RS.DecodingRestores(pack[..4], pack[..4], afterQ.0, 2, afterQ.1);
    assert pack[..4] + pack[4..] == pack;
  }

  /** v is what P leaves of the gathered pack w: a codeword at the reported distance, or w itself when
      none is within two symbols. */
  ghost predicate LeftByP(w: ChannelPack, v: ChannelPack, d: Pack) {
    && (d.pFailed <==> forall c: ChannelPack :: RS.IsCodeword(c, 4) ==> RS.Distance(c, w) > 2)
    && (d.pFailed ==> v == w && d.pFixed == 0)
    && (!d.pFailed ==> RS.IsCodeword(v, 4) && RS.Distance(w, v) == d.pFixed <= 2)
  }

  /** The emitted symbols are v with its first four replaced by what Q leaves of them. */
  ghost predicate LeftByQ(v: ChannelPack, d: Pack) {
    && (d.qFailed <==> forall c: seq<Sym> :: |c| == 4 && RS.IsCodeword(c, 2) ==> RS.Distance(c, v[..4]) > 1)
    && (d.qFailed ==> d.symbol == v && d.qFixed == 0)
    && (!d.qFailed ==> RS.IsCodeword(d.symbol[..4], 2) && RS.Distance(v[..4], d.symbol[..4]) == d.qFixed <= 1)
    && d.symbol[4..] == v[4..]
  }

  /** Every gathered pack, however damaged: each flag is raised exactly when no codeword is in reach of
      what its code is given, and the counts are the symbols each code changed. */
  lemma DecodePackOutcome(w: ChannelPack) returns (v: ChannelPack)
    ensures LeftByP(w, v, DecodePack(w)) && LeftByQ(v, DecodePack(w))
  {
    hide RS.IsCodeword, RS.Distance;
    var p := RS.Decode(w, 4);
    v := p.0;
    RS.DecodingSucceedsIff(w, v, 4, p.1);
    var q := RS.Decode(v[..4], 2);
    RS.DecodingSucceedsIff(v[..4], q.0, 2, q.1);
    assert v[..4] + v[4..] == v;
  }

  /** The received stream differs from the recorded one in at most two symbols of each logical
      pack whose eight channel packs have all arrived. */
  ghost predicate LightlyDamaged(sent: seq<ChannelPack>, received: seq<ChannelPack>) {
    && |sent| == |received|
    && forall n: nat {:trigger Gather(received, n)} :: n + SPAN <= |sent| ==>
         RS.Distance(Gather(sent, n), Gather(received, n)) <= 2
  }

  /** The decoder's output on a lightly damaged recording is the recording. */
  lemma EmissionsAreTheRecording(logical: seq<ChannelPack>, sent: seq<ChannelPack>, received: seq<ChannelPack>,
                                 lo: nat, hi: nat)
    requires Interleaved(logical, sent) && LightlyDamaged(sent, received)
    requires lo <= hi <= |logical| && hi <= Complete(|sent|)
    requires forall n: nat :: n < |logical| ==> WellFormed(logical[n])
    ensures forall k: nat {:trigger Emissions(received, lo, hi)[k]} :: k < hi - lo ==>
      var pack := Emissions(received, lo, hi)[k];
      pack.symbol == logical[lo + k] && !pack.pFailed && !pack.qFailed && pack.qFixed == 0
  {
    hide DecodePack, Gather, Interleaved, RS.Distance, WellFormed;
    forall k: nat | k < hi - lo
      ensures
        var pack := Emissions(received, lo, hi)[k];
        pack.symbol == logical[lo + k] && !pack.pFailed && !pack.qFailed && pack.qFixed == 0
    {
      GatherUndoesInterleave(logical, sent, lo + k);
      DecodePackRepairs(logical[lo + k], Gather(received, lo + k));
    }
  }

  function Channel(sectors: seq<seq<bv8>>): (packs: seq<ChannelPack>)
    requires forall s :: 0 <= s < |sectors| ==> |sectors[s]| == PACKS_PER_SECTOR * PACK_SYMBOLS
    ensures |packs| == PACKS_PER_SECTOR * |sectors|
  {
    if |sectors| == 0 then [] else Channel(sectors[..|sectors| - 1]) + ChannelPacks(sectors[|sectors| - 1])
  }

  lemma ChannelSteps(sectors: seq<seq<bv8>>)
    requires forall s :: 0 <= s < |sectors| ==> |sectors[s]| == PACKS_PER_SECTOR * PACK_SYMBOLS
    ensures Channel(sectors[..0]) == []
    ensures forall s: nat {:trigger sectors[s]} :: s < |sectors| ==>
      Channel(sectors[..s + 1]) == Channel(sectors[..s]) + ChannelPacks(sectors[s])
  {
    hide ChannelPacks;
    forall s: nat | s < |sectors|
      ensures Channel(sectors[..s + 1]) == Channel(sectors[..s]) + ChannelPacks(sectors[s])
    {
      assert sectors[..s + 1][..s] == sectors[..s];
    }
  }

  /** Appends packs to an output that takes `room` of them in all, stopping at the first refusal. */
  method WriteAll(cdg: seq<Pack>, packs: seq<Pack>, room: nat) returns (ok: bool, cdg': seq<Pack>)
    requires |cdg| <= room
    ensures ok <==> |cdg| + |packs| <= room
    ensures cdg' == if ok then cdg + packs else (cdg + packs)[..room]
  {
    cdg' := cdg;
    for p := 0 to |packs|
      invariant |cdg'| == |cdg| + p <= room && cdg' == cdg + packs[..p]
    {
      if |cdg'| == room {
        return false, cdg';
      }
      cdg' := cdg' + [packs[p]];
    }
    ok := true;
  }

  /** One sector of the client loop: fed, and its packs written out. */
  method StreamSector(dec: Decoder, raw: seq<bv8>, pk: array<Pack>, cdg: seq<Pack>, room: nat, ghost base: nat)
    returns (ok: bool, cdg': seq<Pack>)
    requires dec.Valid() && |raw| == PACKS_PER_SECTOR * PACK_SYMBOLS && pk.Length == PACKS_PER_SECTOR
    requires base <= Complete(|dec.fed|) && cdg == Emissions(dec.fed, base, Complete(|dec.fed|)) && |cdg| <= room
    modifies dec, dec.hist, pk
    ensures dec.Valid() && dec.fed == old(dec.fed) + ChannelPacks(raw)
    ensures
      var all := Emissions(dec.fed, base, Complete(|dec.fed|));
      (ok <==> |all| <= room) && cdg' == if ok then all else all[..room]
  {
    hide DecodePack, Gather, ChannelPacks, Tally, TallyAll, Emissions;
    ghost var before := dec.fed;
    var rc, got := dec.Feed(raw, pk, PACKS_PER_SECTOR);
    EmissionsExtend(before, dec.fed, base);
    ok, cdg' := WriteAll(cdg, pk[..got], room);
  }

  /** The client loop of the command line tool: sector by sector a full sink is fed and the emitted
      packs are written out, up to the first write the output refuses. */
  method Stream(dec: Decoder, sectors: seq<seq<bv8>>, room: nat) returns (ok: bool, cdg: seq<Pack>, ghost n: nat)
    requires dec.Valid()
    requires forall s :: 0 <= s < |sectors| ==> |sectors[s]| == PACKS_PER_SECTOR * PACK_SYMBOLS
    modifies dec, dec.hist
    ensures dec.Valid() && n <= |sectors| && dec.fed == old(dec.fed) + Channel(sectors[..n])
    ensures
      var base := Complete(|old(dec.fed)|);
      var all := Emissions(dec.fed, base, Complete(|dec.fed|));
      && (ok <==> |all| <= room)
      && (ok ==> n == |sectors| && cdg == all)
      && (!ok ==> n > 0 && cdg == all[..room])
      && (!ok ==> Complete(|old(dec.fed)| + PACKS_PER_SECTOR * (n - 1)) - base <= room)
  {
    hide ChannelPacks, Emissions, Channel;
    cdg := [];
    ghost var base := Complete(|dec.fed|);
    NoEmissions(dec.fed, base);
    ChannelSteps(sectors);
    var pk := new Pack[PACKS_PER_SECTOR](i => Pack(seq(PACK_SYMBOLS, j => 0), 0, 0, false, false));
    n := 0;
    for s := 0 to |sectors|
      invariant dec.Valid() && n == s && dec.fed == old(dec.fed) + Channel(sectors[..s])
      invariant cdg == Emissions(dec.fed, base, Complete(|dec.fed|)) && |cdg| <= room
    {
      ok, cdg := StreamSector(dec, sectors[s], pk, cdg, room, base);
      n := s + 1;
      if !ok {
        return;
      }
    }
    ok := true;
    assert sectors[..|sectors|] == sectors;
  }

  /** Feeding more never changes what was already emitted, and continues where that stopped. */
  lemma EmissionsExtend(stream: seq<ChannelPack>, longer: seq<ChannelPack>, base: nat)
    requires stream <= longer && base <= Complete(|stream|)
    ensures Emissions(longer, base, Complete(|longer|)) ==
            Emissions(stream, base, Complete(|stream|)) + Emissions(longer, Complete(|stream|), Complete(|longer|))
  {
    hide DecodePack, Gather;
    var left := Emissions(longer, base, Complete(|longer|));
    var right := Emissions(stream, base, Complete(|stream|)) +
      Emissions(longer, Complete(|stream|), Complete(|longer|));
    forall k: nat | k < |left|
      ensures left[k] == right[k]
    {
      if k < Complete(|stream|) - base {
        GatherIgnoresLaterPacks(stream, longer, base + k);
      }
    }
  }

  // ---- runs of arbitrary calls ---------------------------------------------------------------

  datatype Call = Call(raw: seq<bv8>, hasSink: bool, max: nat)

  ghost predicate WellTyped(calls: seq<Call>) {
    forall k :: 0 <= k < |calls| ==> |calls[k].raw| == PACKS_PER_SECTOR * PACK_SYMBOLS
  }

  predicate Accepted(call: Call) {
    !(!call.hasSink && call.max > 0) && !(call.max != 0 && call.max < PACKS_PER_SECTOR)
  }

  /** The channel packs pushed by a run of calls on a fresh decoder: an accepted call pushes its
      sector whatever its sink, a rejected one pushes nothing. */
  ghost function FedAfter(calls: seq<Call>): (stream: seq<ChannelPack>)
    requires WellTyped(calls)
  {
    if |calls| == 0 then []
    else
      var call := calls[|calls| - 1];
      FedAfter(calls[..|calls| - 1]) + (if Accepted(call) then ChannelPacks(call.raw) else [])
  }

  /** The packs the last call of a run delivers. */
  ghost function Delivered(calls: seq<Call>): seq<Pack>
    requires WellTyped(calls) && |calls| > 0
  {
    var stream := FedAfter(calls);
    if !Accepted(calls[|calls| - 1]) || calls[|calls| - 1].max == 0 then []
    else Emissions(stream, Complete(|FedAfter(calls[..|calls| - 1])|), Complete(|stream|))
  }

  lemma {:induction false} FedAfterGrows(calls: seq<Call>, k: nat)
    requires WellTyped(calls) && k <= |calls|
    ensures FedAfter(calls[..k]) <= FedAfter(calls)
  {
    hide ChannelPacks;
    if k < |calls| {
      var shorter := calls[..|calls| - 1];
      FedAfterGrows(shorter, k);
      assert shorter[..k] == calls[..k];
    } else {
      assert calls[..k] == calls;
    }
  }

  lemma RunStep(calls: seq<Call>, k: nat)
    requires WellTyped(calls) && k < |calls|
    ensures
      var before, call := FedAfter(calls[..k]), calls[k];
      var after := if Accepted(call) then before + ChannelPacks(call.raw) else before;
      && FedAfter(calls[..k + 1]) == after
      && Delivered(calls[..k + 1]) ==
           if Accepted(call) && call.max > 0 then Emissions(after, Complete(|before|), Complete(|after|)) else []
  {
    hide ChannelPacks, Emissions;
    assert calls[..k + 1][..k] == calls[..k];
  }

  /** The bytes of the accepted sectors of a run carry the received stream, four packs a sector. */
  ghost predicate Received(calls: seq<Call>, received: seq<ChannelPack>)
    requires WellTyped(calls)
  {
    if |calls| == 0 then received == []
    else if !Accepted(calls[|calls| - 1]) then Received(calls[..|calls| - 1], received)
    else
      && |received| >= 4
      && SectorCarries(calls[|calls| - 1].raw, received[|received| - 4..])
      && Received(calls[..|calls| - 1], received[..|received| - 4])
  }

  function AcceptedCalls(calls: seq<Call>): nat {
    if |calls| == 0 then 0
    else AcceptedCalls(calls[..|calls| - 1]) + (if Accepted(calls[|calls| - 1]) then 1 else 0)
  }

  lemma {:induction false} ReceivedIsFed(calls: seq<Call>, received: seq<ChannelPack>)
    requires WellTyped(calls) && Received(calls, received)
    ensures FedAfter(calls) == received
  {
    hide ChannelPacks, SectorCarries;
    if |calls| > 0 {
      var call, n := calls[|calls| - 1], |received|;
      if Accepted(call) {
        ReceivedIsFed(calls[..|calls| - 1], received[..n - 4]);
        SectorGivesItsPacks(call.raw, received[n - 4..]);
      } else {
        ReceivedIsFed(calls[..|calls| - 1], received);
      }
    }
  }

  lemma {:induction false} FedLength(calls: seq<Call>)
    requires WellTyped(calls)
    ensures |FedAfter(calls)| == 4 * AcceptedCalls(calls)
  {
    hide ChannelPacks;
    if |calls| > 0 {
      FedLength(calls[..|calls| - 1]);
    }
  }

  /** Whatever mixture of priming, rejected and emitting calls came before, the k-th call delivers
      exactly the recorded packs its sector completes, latency seven packs: from the bytes of the
      accepted sectors, P and Q being arbitrary, to the recorded symbols. */
  lemma AnyRunDeliversTheRecording(calls: seq<Call>, k: nat, logical: seq<ChannelPack>, sent: seq<ChannelPack>,
                                   received: seq<ChannelPack>)
    requires WellTyped(calls) && k < |calls| && Accepted(calls[k]) && calls[k].max > 0
    requires Interleaved(logical, sent) && LightlyDamaged(sent, received) && Received(calls, received)
    requires |sent| <= |logical| + 7
    requires forall n: nat :: n < |logical| ==> WellFormed(logical[n])
    ensures
      var before := 4 * AcceptedCalls(calls[..k]);
      var lo, hi := if before < 8 then 0 else before - 7, if before + 4 < 8 then 0 else before - 3;
      var packs := Delivered(calls[..k + 1]);
      && hi <= |logical|
      && |packs| == hi - lo
      && forall i: nat {:trigger packs[i]} :: i < |packs| ==>
           packs[i].symbol == logical[lo + i] && !packs[i].pFailed && !packs[i].qFailed
  {
    hide DecodePack, Gather, Interleaved, WellFormed, Emissions, ChannelPacks, FedAfter, Delivered, LightlyDamaged,
         Received;
    ReceivedIsFed(calls, received);
    FedLength(calls[..k]);
    RunStep(calls, k);
    SameLength(sent, received);
    var prefix := calls[..k + 1];
    var stream, before := FedAfter(prefix), FedAfter(calls[..k]);
    FedAfterStep(calls, k);
    FedAfterGrows(calls, k + 1);
    var lo, hi := Complete(|before|), Complete(|stream|);
    EmissionsOfPrefix(stream, received, lo);
    EmissionsAreTheRecording(logical, sent, received, lo, hi);
    assert prefix[..k] == calls[..k];
  }

  lemma SameLength(sent: seq<ChannelPack>, received: seq<ChannelPack>)
    requires LightlyDamaged(sent, received)
    ensures |sent| == |received|
  {}

  lemma FedAfterStep(calls: seq<Call>, k: nat)
    requires WellTyped(calls) && k < |calls| && Accepted(calls[k])
    ensures FedAfter(calls[..k + 1]) == FedAfter(calls[..k]) + ChannelPacks(calls[k].raw)
  {
    hide ChannelPacks;
    assert calls[..k + 1][..k] == calls[..k];
  }

  lemma EmissionsOfPrefix(stream: seq<ChannelPack>, longer: seq<ChannelPack>, lo: nat)
    requires stream <= longer && lo <= Complete(|stream|)
    ensures Emissions(stream, lo, Complete(|stream|)) == Emissions(longer, lo, Complete(|stream|))
  {
    hide DecodePack, Gather;
    forall k: nat | k < Complete(|stream|) - lo
      ensures Emissions(stream, lo, Complete(|stream|))[k] == Emissions(longer, lo, Complete(|stream|))[k]
    {
      GatherIgnoresLaterPacks(stream, longer, lo + k);
    }
  }

  /** Any list of calls on a fresh decoder feeds and delivers what the folds above say, so what is
      proved of the folds holds of the decoder. */
  method RunCalls(dec: Decoder, calls: seq<Call>, out: array<Pack>) returns (delivered: seq<seq<Pack>>)
    requires dec.Valid() && dec.fed == [] && WellTyped(calls)
    requires forall k :: 0 <= k < |calls| ==> calls[k].max <= out.Length
    modifies dec, dec.hist, out
    ensures dec.Valid() && dec.fed == FedAfter(calls)
    ensures |delivered| == |calls|
    ensures forall k: nat {:trigger delivered[k]} :: k < |calls| ==> delivered[k] == Delivered(calls[..k + 1])
  {
    hide DecodePack, Gather, ChannelPacks, Tally, TallyAll, Emissions, FedAfter, Delivered;
    delivered := [];
    NothingFed(calls);
    for k := 0 to |calls|
      invariant dec.Valid() && dec.fed == FedAfter(calls[..k]) && |delivered| == k
      invariant forall i: nat {:trigger delivered[i]} :: i < k ==> delivered[i] == Delivered(calls[..i + 1])
    {
      var call := calls[k];
      RunStep(calls, k);
      var packs: seq<Pack> := [];
      if call.hasSink {
        var rc, emitted := dec.Feed(call.raw, out, call.max);
        packs := if rc == Ok then out[..emitted] else [];
      } else {
        var rc, emitted := dec.Feed(call.raw, null, call.max);
      }
      delivered := delivered + [packs];
    }
    assert calls[..|calls|] == calls;
  }

  lemma NothingFed(calls: seq<Call>)
    requires WellTyped(calls)
    ensures FedAfter(calls[..0]) == []
  {}

}

/** The C2/audio alignment probe: fired C2 flags of a sector read twice, scored at every candidate
    shift against the bytes that came back different. */
module C2Lag {
  import opened Common
  import Crc = Crc16

  type Byte = Crc.Byte

  const AUDIO := 2352
  const C2 := 294
  const MAX_SHIFT := 8
  const NSHIFT := 17
  const U16 := 0x1_0000
  const MIN_FLAGS := 64
  const MIN_DIFFS := 64
  const MIN_TP := 32
  const MIN_PEAK_MILLI := 100
  const MIN_CONTRAST := 3

  type Audio = a: seq<Byte> | |a| == AUDIO witness seq(AUDIO, i => 0)
  type Bitmap = c: seq<Byte> | |c| == C2 witness seq(C2, i => 0)

  /** One sector read twice. */
  datatype Pair = Pair(audioA: Audio, c2A: Bitmap, audioB: Audio, c2B: Bitmap)

  datatype Outcome = Ok | NotFound

  datatype Lag = Lag(lagPairs: int, flagsUsed: nat, diffBytes: nat, peakMilli: nat, runnerMilli: nat)

  // ---- specification -------------------------------------------------------------------------------

  predicate Differs(p: Pair, i: nat)
    requires i < AUDIO
  {
    p.audioA[i] != p.audioB[i]
  }

  /** Flag f of a bitmap is set; most significant bit first. */
  predicate Fired(c2: Bitmap, f: nat)
    requires f < AUDIO
  {
    (c2[f / 8] >> (7 - f % 8)) & 1 != 0
  }

  /** At lag s flag f describes a byte of the sector. */
  predicate InRange(f: int, s: int) {
    0 <= f - 4 * s < AUDIO
  }

  /** Flags among the first n with a target at lag s. */
  ghost function FlagCount(c2: Bitmap, s: int, n: nat): nat
    requires n <= AUDIO
  {
    if n == 0 then 0 else FlagCount(c2, s, n - 1) + (if Fired(c2, n - 1) && InRange(n - 1, s) then 1 else 0)
  }

  /** Those whose target came back different. */
  ghost function TpCount(p: Pair, c2: Bitmap, s: int, n: nat): nat
    requires n <= AUDIO
  {
    if n == 0 then 0
    else
      TpCount(p, c2, s, n - 1) +
      (if Fired(c2, n - 1) && InRange(n - 1, s) && Differs(p, n - 1 - 4 * s) then 1 else 0)
  }

  ghost function DiffCount(p: Pair, n: nat): nat
    requires n <= AUDIO
  {
    if n == 0 then 0 else DiffCount(p, n - 1) + (if Differs(p, n - 1) then 1 else 0)
  }

  ghost function FlagsOf(p: Pair, s: int): nat {
    FlagCount(p.c2A, s, AUDIO) + FlagCount(p.c2B, s, AUDIO)
  }

  ghost function TpOf(p: Pair, s: int): nat {
    TpCount(p, p.c2A, s, AUDIO) + TpCount(p, p.c2B, s, AUDIO)
  }

  ghost function DiffOf(p: Pair): nat {
    DiffCount(p, AUDIO)
  }

  ghost function Total(f: Pair -> nat, pairs: seq<Pair>): nat {
    if |pairs| == 0 then 0 else Total(f, pairs[..|pairs| - 1]) + f(pairs[|pairs| - 1])
  }

  ghost function FlagsAt(pairs: seq<Pair>, s: int): nat {
    Total((p: Pair) => FlagsOf(p, s), pairs)
  }

  ghost function TpAt(pairs: seq<Pair>, s: int): nat {
    Total((p: Pair) => TpOf(p, s), pairs)
  }

  ghost function DiffsOf(pairs: seq<Pair>): nat {
    Total((p: Pair) => DiffOf(p), pairs)
  }

  lemma OneMorePair(pairs: seq<Pair>, p: Pair, s: int)
    ensures FlagsAt(pairs + [p], s) == FlagsAt(pairs, s) + FlagsOf(p, s)
    ensures TpAt(pairs + [p], s) == TpAt(pairs, s) + TpOf(p, s)
    ensures DiffsOf(pairs + [p]) == DiffsOf(pairs) + DiffOf(p)
  {
    hide FlagsOf, TpOf, DiffOf;
    assert (pairs + [p])[..|pairs|] == pairs;
  }

  // ---- the counts are sizes of sets ----------------------------------------------------------------------

  lemma BitOfByte(b: Byte)
    ensures (b >> 7) & 1 != 0 <==> b & 0x80 != 0
    ensures (b >> 6) & 1 != 0 <==> b & 0x40 != 0
    ensures (b >> 5) & 1 != 0 <==> b & 0x20 != 0
    ensures (b >> 4) & 1 != 0 <==> b & 0x10 != 0
    ensures (b >> 3) & 1 != 0 <==> b & 0x08 != 0
    ensures (b >> 2) & 1 != 0 <==> b & 0x04 != 0
    ensures (b >> 1) & 1 != 0 <==> b & 0x02 != 0
    ensures (b >> 0) & 1 != 0 <==> b & 0x01 != 0
  {}

  /** Flag f is bit f % 8 of byte f / 8 of 294, counted from the top. */
  lemma FlagIsItsBit(c2: Bitmap, f: nat)
    requires f < 2352
    ensures |c2| == 294
    ensures Fired(c2, f) <==>
      c2[f / 8] & (match f % 8 case 0 => 0x80 case 1 => 0x40 case 2 => 0x20 case 3 => 0x10
                   case 4 => 0x08 case 5 => 0x04 case 6 => 0x02 case _ => 0x01) != 0
  {
    BitOfByte(c2[f / 8]);
  }

  /** The fired flags among the first n that describe a byte of the sector at lag s. */
  ghost function Flagged(c2: Bitmap, s: int, n: nat): set<nat>
    requires n <= 2352
  {
    set f: nat | f < n && Fired(c2, f) && 0 <= f - 4 * s < 2352
  }

  /** Those whose byte came back different in the other read. */
  ghost function Confirmed(p: Pair, c2: Bitmap, s: int, n: nat): set<nat>
    requires n <= 2352
  {
    set f: nat | f < n && Fired(c2, f) && 0 <= f - 4 * s < 2352 && p.audioA[f - 4 * s] != p.audioB[f - 4 * s]
  }

  ghost function Changed(p: Pair, n: nat): set<nat>
    requires n <= 2352
  {
    set i: nat | i < n && p.audioA[i] != p.audioB[i]
  }

  /** A set of numbers below n + 1 has those below n and possibly n. */
  lemma OneMoreMember(before: set<nat>, after: set<nat>, n: nat)
    requires forall f :: f in before ==> f < n
    requires forall f: nat :: f in after <==> f in before || (f == n && n in after)
    ensures |after| == |before| + (if n in after then 1 else 0)
  {
    assert after == if n in after then before + {n} else before;
  }

  lemma {:induction false} CountsAreSizes(p: Pair, c2: Bitmap, s: int, n: nat)
    requires n <= 2352
    ensures FlagCount(c2, s, n) == |Flagged(c2, s, n)|
    ensures TpCount(p, c2, s, n) == |Confirmed(p, c2, s, n)|
    ensures DiffCount(p, n) == |Changed(p, n)|
  {
    hide Fired;
    if n > 0 {
      CountsAreSizes(p, c2, s, n - 1);
      OneMoreMember(Flagged(c2, s, n - 1), Flagged(c2, s, n), n - 1);
      OneMoreMember(Confirmed(p, c2, s, n - 1), Confirmed(p, c2, s, n), n - 1);
      OneMoreMember(Changed(p, n - 1), Changed(p, n), n - 1);
    } else {
      assert Flagged(c2, s, 0) == {} && Confirmed(p, c2, s, 0) == {} && Changed(p, 0) == {};
    }
  }

  /** One pair's evidence at lag s: fired flags f of either read whose byte f - 4 * s exists, those
      among them whose byte differs between the reads, and the differing bytes. */
  lemma EvidenceOfAPair(p: Pair, s: int)
    ensures FlagsOf(p, s) == |Flagged(p.c2A, s, 2352)| + |Flagged(p.c2B, s, 2352)|
    ensures TpOf(p, s) == |Confirmed(p, p.c2A, s, 2352)| + |Confirmed(p, p.c2B, s, 2352)|
    ensures DiffOf(p) == |Changed(p, 2352)|
  {
    hide FlagCount, TpCount, DiffCount, Flagged, Confirmed, Changed;
    CountsAreSizes(p, p.c2A, s, 2352);
    CountsAreSizes(p, p.c2B, s, 2352);
  }

  // ---- the accumulator --------------------------------------------------------------------------------

  class Accumulator {
    const tp: array<nat>
    const flags: array<nat>
    var diffBytes: nat

    ghost predicate Valid()
      reads this
    {
      tp != flags && tp.Length == NSHIFT && flags.Length == NSHIFT
    }

    /** The counters are the totals over these pairs. */
    ghost predicate Holds(pairs: seq<Pair>)
      reads this, tp, flags
    {
      && Valid()
      && diffBytes == DiffsOf(pairs)
      && forall k: nat {:trigger flags[k]} {:trigger tp[k]} :: k < NSHIFT ==>
           flags[k] == FlagsAt(pairs, k - MAX_SHIFT) && tp[k] == TpAt(pairs, k - MAX_SHIFT)
    }

    constructor ()
      ensures Holds([]) && fresh(tp) && fresh(flags)
    {
      tp := new nat[NSHIFT](i => 0);
      flags := new nat[NSHIFT](i => 0);
      diffBytes := 0;
    }

    /** Score one fired flag at every candidate lag. */
    method ScoreFlag(f: nat, p: Pair)
      requires Valid() && f < AUDIO
      modifies tp, flags
      ensures forall k: nat {:trigger flags[k]} :: k < NSHIFT ==>
        flags[k] == old(flags[k]) + (if InRange(f, k - MAX_SHIFT) then 1 else 0)
      ensures forall k: nat {:trigger tp[k]} :: k < NSHIFT ==>
        tp[k] == old(tp[k]) + (if InRange(f, k - MAX_SHIFT) && Differs(p, f - 4 * (k - MAX_SHIFT)) then 1 else 0)
    {
      for s := -MAX_SHIFT to MAX_SHIFT + 1
        invariant forall k: nat {:trigger flags[k]} :: k < NSHIFT ==>
          flags[k] == old(flags[k]) + (if k - MAX_SHIFT < s && InRange(f, k - MAX_SHIFT) then 1 else 0)
        invariant forall k: nat {:trigger tp[k]} :: k < NSHIFT ==>
          tp[k] == old(tp[k]) +
            (if k - MAX_SHIFT < s && InRange(f, k - MAX_SHIFT) && Differs(p, f - 4 * (k - MAX_SHIFT)) then 1 else 0)
      {
        var t := f - 4 * s;
        var idx := s + MAX_SHIFT;
        if t < 0 || t >= AUDIO {
          continue;
        }
        flags[idx] := flags[idx] + 1;
        tp[idx] := tp[idx] + (if Differs(p, t) then 1 else 0);
      }
    }

    /** Score one read's bitmap. */
    method ScoreRead(c2: Bitmap, p: Pair)
      requires Valid()
      modifies tp, flags
      ensures forall k: nat {:trigger flags[k]} :: k < NSHIFT ==>
        flags[k] == old(flags[k]) + FlagCount(c2, k - MAX_SHIFT, AUDIO)
      ensures forall k: nat {:trigger tp[k]} :: k < NSHIFT ==>
        tp[k] == old(tp[k]) + TpCount(p, c2, k - MAX_SHIFT, AUDIO)
    {
      hide Fired, Differs;
      forall s: int
        ensures FlagCount(c2, s, 0) == 0 && TpCount(p, c2, s, 0) == 0
      {}
      for f := 0 to AUDIO
        invariant forall k: nat {:trigger flags[k]} :: k < NSHIFT ==>
          flags[k] == old(flags[k]) + FlagCount(c2, k - MAX_SHIFT, f)
        invariant forall k: nat {:trigger tp[k]} :: k < NSHIFT ==>
          tp[k] == old(tp[k]) + TpCount(p, c2, k - MAX_SHIFT, f)
      {
        if Fired(c2, f) {
          ScoreFlag(f, p);
        }
      }
    }

    method CountDiffs(p: Pair) returns (n: nat)
      ensures n == DiffOf(p)
    {
      n := 0;
      for i := 0 to AUDIO
        invariant n == DiffCount(p, i)
      {
        if Differs(p, i) {
          n := n + 1;
        }
      }
    }

    /** adsc_c2lag_add. */
    method Add(p: Pair, ghost pairs: seq<Pair>)
      requires Holds(pairs)
      modifies this`diffBytes, tp, flags
      ensures Holds(pairs + [p])
    {
      hide FlagCount, TpCount, DiffCount, FlagsAt, TpAt, DiffsOf;
      OneMorePair(pairs, p, 0);
      var d := CountDiffs(p);
      diffBytes := diffBytes + d;
      ScoreRead(p.c2A, p);
      ScoreRead(p.c2B, p);
      forall k: nat | k < NSHIFT
        ensures flags[k] == FlagsAt(pairs + [p], k - MAX_SHIFT) && tp[k] == TpAt(pairs + [p], k - MAX_SHIFT)
      {
        OneMorePair(pairs, p, k - MAX_SHIFT);
      }
    }
  }

  // ---- the verdict ---------------------------------------------------------------------------------------

  /** Agreement at one shift, per mille. */
  function Precision(tp: nat, flags: nat): nat {
    if flags == 0 then 0 else tp * 1000 / flags % U32
  }

  /** The first shift with the greatest precision. */
  ghost predicate IsBest(prec: seq<nat>, best: nat) {
    && best < |prec|
    && (forall k :: 0 <= k < |prec| ==> prec[k] <= prec[best])
    && (forall k :: 0 <= k < best ==> prec[k] < prec[best])
  }

  /** The greatest precision among the other shifts. */
  ghost predicate IsRunner(prec: seq<nat>, best: nat, runner: nat) {
    && (forall k :: 0 <= k < |prec| && k != best ==> prec[k] <= runner)
    && (runner > 0 ==> exists k :: 0 <= k < |prec| && k != best && prec[k] == runner)
  }

  predicate Conclusive(flags: nat, tp: nat, diffBytes: nat, peak: nat, runner: nat) {
    && flags >= MIN_FLAGS && tp >= MIN_TP && diffBytes >= MIN_DIFFS
    && peak >= MIN_PEAK_MILLI && peak >= MIN_CONTRAST * runner % U32
  }

  function Clamp(diffBytes: nat): nat {
    if diffBytes > 0xffff_ffff then 0xffff_ffff else diffBytes
  }

  function PrecisionsOf(tp: seq<nat>, flags: seq<nat>): (prec: seq<nat>)
    requires |tp| == |flags| == NSHIFT
    ensures |prec| == NSHIFT
  {
    seq(NSHIFT, (k: nat) requires k < NSHIFT && |tp| == |flags| == NSHIFT => Precision(tp[k], flags[k]))
  }

  /** What the counters come to: the two per-mille figures are compared in 32 bits and reported in 16. */
  ghost predicate ResultOf(tp: seq<nat>, flags: seq<nat>, diffBytes: nat, rc: Outcome, out: Lag, runner: nat)
    requires |tp| == |flags| == NSHIFT
  {
    var prec := PrecisionsOf(tp, flags);
    var best := out.lagPairs + MAX_SHIFT;
    && 0 <= best && IsBest(prec, best) && IsRunner(prec, best, runner)
    && out.peakMilli == prec[best] % U16 && out.runnerMilli == runner % U16
    && out.flagsUsed == flags[best] % U32 && out.diffBytes == Clamp(diffBytes)
    && (rc == Ok <==> Conclusive(flags[best], tp[best], diffBytes, prec[best], runner))
  }

  /** adsc_c2lag_result. */
  method Result(tp: seq<nat>, flags: seq<nat>, diffBytes: nat) returns (rc: Outcome, out: Lag, ghost runnerUp: nat)
    requires |tp| == |flags| == NSHIFT
    ensures ResultOf(tp, flags, diffBytes, rc, out, runnerUp)
  {
    hide Precision;
    ghost var want := PrecisionsOf(tp, flags);
    var best := 0;
    var prec: seq<nat> := [];
    for i := 0 to NSHIFT
      invariant |prec| == i && prec == want[..i]
      invariant best <= i && (i > 0 ==> best < i)
      invariant forall k :: 0 <= k < i ==> prec[k] <= prec[best]
      invariant forall k :: 0 <= k < best && best < i ==> prec[k] < prec[best]
    {
      prec := prec + [Precision(tp[i], flags[i])];
      if prec[i] > prec[best] {
        best := i;
      }
    }
    assert prec == want;
    var runner: nat := 0;
    for i := 0 to NSHIFT
      invariant forall k :: 0 <= k < i && k != best ==> prec[k] <= runner
      invariant runner > 0 ==> exists k :: 0 <= k < i && k != best && prec[k] == runner
    {
      if i != best && prec[i] > runner {
        runner := prec[i];
      }
    }
    runnerUp := runner;
    out := Lag(best - MAX_SHIFT, flags[best] % U32, if diffBytes > 0xffff_ffff then 0xffff_ffff else diffBytes,
               prec[best] % U16, runner % U16);
    rc := if Conclusive(flags[best], tp[best], diffBytes, prec[best], runner) then Ok else NotFound;
  }

  // ---- what a conclusive verdict means ------------------------------------------------------------------

  lemma {:induction false} TpCountAtMostFlagCount(p: Pair, c2: Bitmap, s: int, n: nat)
    requires n <= AUDIO
    ensures TpCount(p, c2, s, n) <= FlagCount(c2, s, n)
  {
    hide Fired, Differs;
    if n > 0 {
      TpCountAtMostFlagCount(p, c2, s, n - 1);
    }
  }

  lemma {:induction false} TpAtMostFlags(pairs: seq<Pair>, s: int)
    ensures TpAt(pairs, s) <= FlagsAt(pairs, s)
  {
    hide TpCount, FlagCount;
    if |pairs| > 0 {
      var p := pairs[|pairs| - 1];
      TpAtMostFlags(pairs[..|pairs| - 1], s);
      TpCountAtMostFlagCount(p, p.c2A, s, AUDIO);
      TpCountAtMostFlagCount(p, p.c2B, s, AUDIO);
    }
  }

  lemma PrecisionRange(tp: nat, flags: nat)
    requires tp <= flags
    ensures Precision(tp, flags) <= 1000
    ensures tp == flags > 0 ==> Precision(tp, flags) == 1000
  {
    if flags > 0 {
      var q := tp * 1000 / flags;
      QuotientBounds(tp * 1000, flags);
      Factor(flags, q, 1000);
      SmallMod(q);
      if tp == flags {
        Factor(flags, 1000, q);
      }
    }
  }

  lemma QuotientBounds(a: nat, b: nat)
    requires b > 0
    ensures b * (a / b) <= a < b * (a / b + 1)
  {}

  /** The agreement in per mille, rounded down. */
  ghost predicate IsMilli(m: nat, tp: nat, flags: nat) {
    m * flags <= 1000 * tp < (m + 1) * flags
  }

  lemma PrecisionIsMilli(tp: nat, flags: nat)
    requires 0 < flags && tp <= flags
    ensures IsMilli(Precision(tp, flags), tp, flags)
  {
    var q := tp * 1000 / flags;
    QuotientBounds(tp * 1000, flags);
    Factor(flags, q, 1000);
    SmallMod(q);
  }

  lemma MilliIsUnique(m: nat, r: nat, tp: nat, flags: nat)
    requires IsMilli(m, tp, flags) && IsMilli(r, tp, flags)
    ensures m == r
  {
    Factor(flags, m, r);
    Factor(flags, r, m);
  }

  /** Comparing products with a positive common factor compares the other factors. */
  lemma Factor(n: nat, k: nat, m: nat)
    requires n > 0
    ensures n * k < n * (m + 1) ==> k <= m
  {
    assert k >= m + 1 ==> n * k >= n * (m + 1);
  }

  /** Every fired flag of the bitmap that describes a byte at lag s describes one that came back
      different. */
  ghost predicate Explained(p: Pair, c2: Bitmap, s: int) {
    forall f: nat {:trigger Fired(c2, f)} :: f < AUDIO && Fired(c2, f) && InRange(f, s) ==> Differs(p, f - 4 * s)
  }

  ghost predicate TrueLag(pairs: seq<Pair>, s: int) {
    forall i :: 0 <= i < |pairs| ==> Explained(pairs[i], pairs[i].c2A, s) && Explained(pairs[i], pairs[i].c2B, s)
  }

  lemma {:induction false} ExplainedMeansAllTrue(p: Pair, c2: Bitmap, s: int, n: nat)
    requires n <= AUDIO && Explained(p, c2, s)
    ensures TpCount(p, c2, s, n) == FlagCount(c2, s, n)
  {
    hide Fired, Differs;
    if n > 0 {
      ExplainedMeansAllTrue(p, c2, s, n - 1);
    }
  }

  lemma {:induction false} TrueLagMeansFullPrecision(pairs: seq<Pair>, s: int)
    requires TrueLag(pairs, s)
    ensures TpAt(pairs, s) == FlagsAt(pairs, s)
  {
    hide TpCount, FlagCount, Explained;
    if |pairs| > 0 {
      var p := pairs[|pairs| - 1];
      TrueLagMeansFullPrecision(pairs[..|pairs| - 1], s);
      ExplainedMeansAllTrue(p, p.c2A, s, AUDIO);
      ExplainedMeansAllTrue(p, p.c2B, s, AUDIO);
    }
  }

  /** The precision at every shift. */
  ghost function Precisions(pairs: seq<Pair>): (prec: seq<nat>)
    ensures |prec| == NSHIFT
    ensures forall k: nat {:trigger prec[k]} :: k < NSHIFT ==>
      prec[k] == Precision(TpAt(pairs, k - MAX_SHIFT), FlagsAt(pairs, k - MAX_SHIFT))
  {
    seq<nat>(NSHIFT, (k: nat) => Precision(TpAt(pairs, k - MAX_SHIFT), FlagsAt(pairs, k - MAX_SHIFT)))
  }

  /** What the result of a run of pairs looks like. */
  ghost predicate IsResult(pairs: seq<Pair>, rc: Outcome, out: Lag) {
    var prec := Precisions(pairs);
    var best := out.lagPairs + MAX_SHIFT;
    && 0 <= best && IsBest(prec, best) && IsRunner(prec, best, out.runnerMilli) && out.peakMilli == prec[best]
    && out.flagsUsed == FlagsAt(pairs, out.lagPairs) % U32 && out.diffBytes == Clamp(DiffsOf(pairs))
    && (rc == Ok <==>
          && FlagsAt(pairs, out.lagPairs) >= MIN_FLAGS && TpAt(pairs, out.lagPairs) >= MIN_TP
          && DiffsOf(pairs) >= MIN_DIFFS
          && out.peakMilli >= MIN_PEAK_MILLI && out.peakMilli >= MIN_CONTRAST * out.runnerMilli)
  }

  lemma SmallPrecisions(pairs: seq<Pair>)
    ensures forall k: nat {:trigger Precisions(pairs)[k]} :: k < NSHIFT ==> Precisions(pairs)[k] <= 1000
  {
    hide Precision, TpAt, FlagsAt;
    forall k: nat | k < NSHIFT
      ensures Precisions(pairs)[k] <= 1000
    {
      TpAtMostFlags(pairs, k - MAX_SHIFT);
      PrecisionRange(TpAt(pairs, k - MAX_SHIFT), FlagsAt(pairs, k - MAX_SHIFT));
    }
  }

  /** Counters that come from pairs lose nothing on the way into the narrow fields. */
  lemma NothingIsCutOff(pairs: seq<Pair>, tp: seq<nat>, flags: seq<nat>, rc: Outcome, out: Lag, runner: nat)
    requires |tp| == |flags| == NSHIFT && ResultOf(tp, flags, DiffsOf(pairs), rc, out, runner)
    requires forall k: nat :: k < NSHIFT ==> tp[k] == TpAt(pairs, k - MAX_SHIFT)
    requires forall k: nat :: k < NSHIFT ==> flags[k] == FlagsAt(pairs, k - MAX_SHIFT)
    ensures IsResult(pairs, rc, out)
  {
    hide Precision, TpAt, FlagsAt, DiffsOf, Clamp;
    SmallPrecisions(pairs);
    assert PrecisionsOf(tp, flags) == Precisions(pairs);
    var prec := Precisions(pairs);
    assert runner <= 1000;
    SmallMod(runner);
    SmallMod(prec[out.lagPairs + MAX_SHIFT]);
  }

  lemma SmallMod(x: nat)
    requires x <= 1000
    ensures x % U16 == x && MIN_CONTRAST * x % U32 == MIN_CONTRAST * x && x % U32 == x
  {}

  /** The probe over a whole run: every pair added, then the verdict. */
  method Probe(pairs: seq<Pair>) returns (rc: Outcome, out: Lag)
    ensures IsResult(pairs, rc, out)
  {
    var acc := new Accumulator();
    for i := 0 to |pairs|
      invariant fresh(acc.tp) && fresh(acc.flags) && acc.Holds(pairs[..i])
    {
      acc.Add(pairs[i], pairs[..i]);
      assert pairs[..i + 1] == pairs[..i] + [pairs[i]];
    }
    assert pairs[..|pairs|] == pairs;
    var tp, flags := acc.tp[..], acc.flags[..];
    forall k: nat | k < NSHIFT
      ensures tp[k] == TpAt(pairs, k - MAX_SHIFT) && flags[k] == FlagsAt(pairs, k - MAX_SHIFT)
    {
      assert tp[k] == acc.tp[k] && flags[k] == acc.flags[k];
    }
    ghost var runner;
    rc, out, runner := Result(tp, flags, acc.diffBytes);
    NothingIsCutOff(pairs, tp, flags, rc, out, runner);
  }

  /** Under a single true lag a conclusive verdict names it, exactly when some fired flag describes a
      byte of its sector at that lag; agreement is never reported above 1000. */
  lemma ConclusiveVerdictIsTrue(pairs: seq<Pair>, s: int, rc: Outcome, out: Lag)
    requires -MAX_SHIFT <= s <= MAX_SHIFT && TrueLag(pairs, s)
    requires IsResult(pairs, rc, out) && rc == Ok
    ensures out.lagPairs == s <==> FlagsAt(pairs, s) > 0
    ensures out.peakMilli <= 1000
  {
    hide Precision, FlagsAt, TpAt, TrueLag;
    var prec := Precisions(pairs);
    TrueLagMeansFullPrecision(pairs, s);
    TpAtMostFlags(pairs, out.lagPairs);
    PrecisionRange(TpAt(pairs, out.lagPairs), FlagsAt(pairs, out.lagPairs));
    PrecisionRange(TpAt(pairs, s), FlagsAt(pairs, s));
    assert prec[s + MAX_SHIFT] == Precision(TpAt(pairs, s), FlagsAt(pairs, s));
    assert prec[out.lagPairs + MAX_SHIFT] == Precision(TpAt(pairs, out.lagPairs), FlagsAt(pairs, out.lagPairs));
  }

  // ---- when a lag is named ---------------------------------------------------------------------------------

  /** The exact condition, on the evidence alone: enough flags, confirmed flags and differing bytes at
      lag s, an agreement of at least a tenth there, and at most a third of it at every other lag, both
      in whole per mille. */
  ghost predicate Named(pairs: seq<Pair>, s: int) {
    && FlagsAt(pairs, s) >= 64 && TpAt(pairs, s) >= 32 && DiffsOf(pairs) >= 64
    && exists m: nat :: IsMilli(m, TpAt(pairs, s), FlagsAt(pairs, s)) && m >= 100 && DominatedBy(pairs, s, m)
  }

  /** Every lag but s has at most a third of m. */
  ghost predicate DominatedBy(pairs: seq<Pair>, s: int, m: nat) {
    forall k: int, r: nat {:trigger IsMilli(r, TpAt(pairs, k), FlagsAt(pairs, k))} ::
      -8 <= k <= 8 && k != s && IsMilli(r, TpAt(pairs, k), FlagsAt(pairs, k)) ==> 3 * r <= m
  }

  lemma PrecisionAt(pairs: seq<Pair>, k: int)
    requires -8 <= k <= 8
    ensures Precisions(pairs)[k + 8] == Precision(TpAt(pairs, k), FlagsAt(pairs, k))
    ensures FlagsAt(pairs, k) > 0 ==> IsMilli(Precisions(pairs)[k + 8], TpAt(pairs, k), FlagsAt(pairs, k))
    ensures FlagsAt(pairs, k) == 0 ==> Precisions(pairs)[k + 8] == 0
  {
    hide TpAt, FlagsAt, IsMilli;
    assert Precisions(pairs)[k + 8] == Precision(TpAt(pairs, k + 8 - MAX_SHIFT), FlagsAt(pairs, k + 8 - MAX_SHIFT));
    TpAtMostFlags(pairs, k);
    if FlagsAt(pairs, k) > 0 {
      PrecisionIsMilli(TpAt(pairs, k), FlagsAt(pairs, k));
    }
  }

  /** The probe says OK and names lag s exactly under that condition. */
  lemma VerdictIff(pairs: seq<Pair>, s: int, rc: Outcome, out: Lag)
    requires -8 <= s <= 8 && IsResult(pairs, rc, out)
    ensures rc == Ok && out.lagPairs == s <==> Named(pairs, s)
  {
    hide Precisions, Precision, TpAt, FlagsAt, DiffsOf, IsMilli, Clamp;
    if rc == Ok && out.lagPairs == s {
      NamedIsDominant(pairs, s, rc, out);
    }
    if Named(pairs, s) {
      DominantIsNamed(pairs, s, rc, out);
    }
  }

  lemma NamedIsDominant(pairs: seq<Pair>, s: int, rc: Outcome, out: Lag)
    requires -8 <= s <= 8 && IsResult(pairs, rc, out) && rc == Ok && out.lagPairs == s
    ensures Named(pairs, s)
  {
    hide Precisions, Precision, TpAt, FlagsAt, DiffsOf, IsMilli, Clamp;
    var prec := Precisions(pairs);
    PrecisionAt(pairs, s);
    forall k: int, r: nat | -8 <= k <= 8 && k != s && IsMilli(r, TpAt(pairs, k), FlagsAt(pairs, k))
      ensures 3 * r <= prec[s + 8]
    {
      PrecisionAt(pairs, k);
      MilliNeedsFlags(r, TpAt(pairs, k), FlagsAt(pairs, k));
      MilliIsUnique(r, prec[k + 8], TpAt(pairs, k), FlagsAt(pairs, k));
      assert prec[k + 8] <= out.runnerMilli;
    }
  }

  lemma MilliNeedsFlags(m: nat, tp: nat, flags: nat)
    requires IsMilli(m, tp, flags)
    ensures flags > 0
  {}

  lemma DominantIsNamed(pairs: seq<Pair>, s: int, rc: Outcome, out: Lag)
    requires -8 <= s <= 8 && IsResult(pairs, rc, out) && Named(pairs, s)
    ensures rc == Ok && out.lagPairs == s
  {
    hide Precisions, Precision, TpAt, FlagsAt, DiffsOf, IsMilli, Clamp;
    var prec := Precisions(pairs);
    var m: nat :| IsMilli(m, TpAt(pairs, s), FlagsAt(pairs, s)) && m >= 100 && DominatedBy(pairs, s, m);
    PrecisionAt(pairs, s);
    MilliIsUnique(m, prec[s + 8], TpAt(pairs, s), FlagsAt(pairs, s));
    forall i | 0 <= i < 17 && i != s + 8
      ensures 3 * prec[i] <= m
    {
      PrecisionAt(pairs, i - 8);
    }
  }

  /** Enough evidence at s, agreement there of at least a tenth, and three times the agreement of every
      other lag as a ratio of the counts: the probe says OK and names s. Rounding costs nothing. */
  lemma DominantLagIsNamed(pairs: seq<Pair>, s: int, rc: Outcome, out: Lag)
    requires -8 <= s <= 8 && IsResult(pairs, rc, out)
    requires FlagsAt(pairs, s) >= 64 && TpAt(pairs, s) >= 32 && DiffsOf(pairs) >= 64
    requires 10 * TpAt(pairs, s) >= FlagsAt(pairs, s)
    requires forall k: int {:trigger TpAt(pairs, k)} :: -8 <= k <= 8 && k != s ==>
      TpAt(pairs, s) * FlagsAt(pairs, k) >= 3 * TpAt(pairs, k) * FlagsAt(pairs, s)
    ensures rc == Ok && out.lagPairs == s
  {
    hide Precisions, Precision, TpAt, FlagsAt, DiffsOf, IsMilli, IsResult;
    var tp, flags := TpAt(pairs, s), FlagsAt(pairs, s);
    TpAtMostFlags(pairs, s);
    PrecisionIsMilli(tp, flags);
    var m := Precision(tp, flags);
    AtLeastATenth(m, tp, flags);
    forall k: int, r: nat | -8 <= k <= 8 && k != s && IsMilli(r, TpAt(pairs, k), FlagsAt(pairs, k))
      ensures 3 * r <= m
    {
      AThird(m, tp, flags, r, TpAt(pairs, k), FlagsAt(pairs, k));
    }
    VerdictIff(pairs, s, rc, out);
  }

  lemma AtLeastATenth(m: nat, tp: nat, flags: nat)
    requires IsMilli(m, tp, flags) && 10 * tp >= flags
    ensures m >= 100
  {
    Factor(flags, 100, m);
  }

  /** 3 r < m + 1, multiplied out by both numbers of flags. */
  lemma AThird(m: nat, tp: nat, flags: nat, r: nat, tp': nat, flags': nat)
    requires IsMilli(m, tp, flags) && IsMilli(r, tp', flags') && flags > 0
    requires tp * flags' >= 3 * tp' * flags
    ensures 3 * r <= m
  {
    MilliNeedsFlags(r, tp', flags');
    Scale(3 * flags, r * flags', 1000 * tp');
    ScaleStrictly(flags', 1000 * tp, (m + 1) * flags);
    Rearranged(m + 1, tp, flags, r, tp', flags');
    Positive(flags, flags');
    Factor(flags * flags', 3 * r, m);
  }

  lemma Rearranged(m: nat, tp: nat, flags: nat, r: nat, tp': nat, flags': nat)
    ensures 3 * flags * (r * flags') == flags * flags' * (3 * r)
    ensures 3 * flags * (1000 * tp') == 1000 * (3 * tp' * flags)
    ensures flags' * (1000 * tp) == 1000 * (tp * flags')
    ensures flags' * (m * flags) == flags * flags' * m
  {
    Regroup(flags, r, flags');
    Regroup(flags, m, flags');
  }

  lemma Regroup(a: nat, b: nat, c: nat)
    ensures a * (b * c) == a * c * b && c * (b * a) == a * c * b
  {}

  lemma Positive(a: nat, b: nat)
    requires a > 0 && b > 0
    ensures a * b > 0
  {}

  lemma Scale(n: nat, a: nat, b: nat)
    requires a <= b
    ensures n * a <= n * b
  {}

  lemma ScaleStrictly(n: nat, a: nat, b: nat)
    requires a < b && n > 0
    ensures n * a < n * b
  {}

  // ---- order and roles do not matter ---------------------------------------------------------------------

  lemma {:induction false} TotalConcat(f: Pair -> nat, a: seq<Pair>, b: seq<Pair>)
    ensures Total(f, a + b) == Total(f, a) + Total(f, b)
  {
    if |b| == 0 {
      assert a + b == a;
    } else {
      assert (a + b)[..|a + b| - 1] == a + b[..|b| - 1];
      TotalConcat(f, a, b[..|b| - 1]);
    }
  }

  function Without(b: seq<Pair>, i: nat): seq<Pair>
    requires i < |b|
  {
    b[..i] + b[i + 1..]
  }

  lemma TotalOneMore(f: Pair -> nat, a: seq<Pair>, p: Pair)
    ensures Total(f, a + [p]) == Total(f, a) + f(p)
  {
    assert (a + [p])[..|a|] == a;
  }

  lemma TotalWithout(f: Pair -> nat, b: seq<Pair>, i: nat)
    requires i < |b|
    ensures Total(f, b) == Total(f, Without(b, i)) + f(b[i])
  {
    hide Total;
    var head, tail := b[..i], b[i + 1..];
    TotalConcat(f, head, tail);
    TotalConcat(f, head + [b[i]], tail);
    TotalOneMore(f, head, b[i]);
    assert b == head + [b[i]] + tail;
  }

  lemma MultisetWithout(a: seq<Pair>, b: seq<Pair>) returns (i: nat)
    requires |a| > 0 && multiset(a) == multiset(b)
    ensures i < |b| && b[i] == a[|a| - 1]
    ensures multiset(a[..|a| - 1]) == multiset(Without(b, i))
  {
    var p := a[|a| - 1];
    assert a == a[..|a| - 1] + [p];
    assert p in multiset(b);
    i :| 0 <= i < |b| && b[i] == p;
    assert b == b[..i] + [p] + b[i + 1..];
    assert multiset(b) == multiset(Without(b, i)) + multiset{p};
    assert multiset(a) == multiset(a[..|a| - 1]) + multiset{p};
    assert multiset(Without(b, i)) == multiset(b) - multiset{p};
  }

  lemma {:induction false} TotalIgnoresOrder(f: Pair -> nat, a: seq<Pair>, b: seq<Pair>)
    requires multiset(a) == multiset(b)
    ensures Total(f, a) == Total(f, b)
    decreases |a|
  {
    if |a| == 0 {
      assert |multiset(b)| == 0;
    } else {
      var i := MultisetWithout(a, b);
      hide Without;
      TotalIgnoresOrder(f, a[..|a| - 1], Without(b, i));
      TotalWithout(f, b, i);
    }
  }

  /** The verdict does not depend on the order the pairs were taken in. */
  lemma OrderOfPairsDoesNotMatter(a: seq<Pair>, b: seq<Pair>, rc: Outcome, out: Lag)
    requires multiset(a) == multiset(b)
    ensures IsResult(a, rc, out) <==> IsResult(b, rc, out)
  {
    hide Precision, Total;
    forall s: int
      ensures FlagsAt(a, s) == FlagsAt(b, s) && TpAt(a, s) == TpAt(b, s)
    {
      TotalIgnoresOrder((p: Pair) => FlagsOf(p, s), a, b);
      TotalIgnoresOrder((p: Pair) => TpOf(p, s), a, b);
    }
    TotalIgnoresOrder((p: Pair) => DiffOf(p), a, b);
    assert Precisions(a) == Precisions(b);
  }

  function Swapped(p: Pair): Pair {
    Pair(p.audioB, p.c2B, p.audioA, p.c2A)
  }

  lemma {:induction false} SwapKeepsTp(p: Pair, c2: Bitmap, s: int, n: nat)
    requires n <= AUDIO
    ensures TpCount(Swapped(p), c2, s, n) == TpCount(p, c2, s, n)
    ensures DiffCount(Swapped(p), n) == DiffCount(p, n)
  {
    hide Fired;
    if n > 0 {
      SwapKeepsTp(p, c2, s, n - 1);
    }
  }

  /** Which read came first does not matter either. */
  lemma RolesOfReadsDoNotMatter(p: Pair, s: int)
    ensures FlagsOf(Swapped(p), s) == FlagsOf(p, s) && TpOf(Swapped(p), s) == TpOf(p, s)
    ensures DiffOf(Swapped(p)) == DiffOf(p)
  {
    hide FlagCount, TpCount, DiffCount;
    SwapKeepsTp(p, p.c2A, s, AUDIO);
    SwapKeepsTp(p, p.c2B, s, AUDIO);
  }

  lemma {:induction false} TotalPointwise(f: Pair -> nat, a: seq<Pair>, b: seq<Pair>)
    requires |a| == |b| && forall i :: 0 <= i < |a| ==> f(a[i]) == f(b[i])
    ensures Total(f, a) == Total(f, b)
  {
    if |a| > 0 {
      TotalPointwise(f, a[..|a| - 1], b[..|b| - 1]);
    }
  }

  /** Exchanging the two reads of any of the pairs leaves the verdict alone. */
  lemma SwappingReadsDoesNotMatter(a: seq<Pair>, b: seq<Pair>, rc: Outcome, out: Lag)
    requires |a| == |b| && forall i :: 0 <= i < |a| ==> b[i] == a[i] || b[i] == Swapped(a[i])
    ensures IsResult(a, rc, out) <==> IsResult(b, rc, out)
  {
    hide Precision, Total, FlagsOf, TpOf, DiffOf, Swapped;
    forall s: int
      ensures FlagsAt(a, s) == FlagsAt(b, s) && TpAt(a, s) == TpAt(b, s) && DiffsOf(a) == DiffsOf(b)
    {
      forall i | 0 <= i < |a|
        ensures FlagsOf(a[i], s) == FlagsOf(b[i], s) && TpOf(a[i], s) == TpOf(b[i], s) && DiffOf(a[i]) == DiffOf(b[i])
      {
        RolesOfReadsDoNotMatter(a[i], s);
      }
      TotalPointwise((p: Pair) => FlagsOf(p, s), a, b);
      TotalPointwise((p: Pair) => TpOf(p, s), a, b);
      TotalPointwise((p: Pair) => DiffOf(p), a, b);
    }
    assert Precisions(a) == Precisions(b);
  }
}

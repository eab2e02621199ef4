/** The speed ladder: cutting a span into cache-fresh windows, and judging which requested speeds are
    rungs of their own. */
module Speeds {

  const CHUNK := 27
  const MIN_SECTORS := 150
  const MAX_SECTORS := 2250
  const BANDS := 3
  const ADMIT_NOISE_CX := 50

  type U16 = x: nat | x < 0x1_0000

  /** A sixteen-bit value no settled rung's equivalent may keep; used to mark one in passing. */
  const SENTINEL: U16 := 0xffff

  datatype Verdict = Unknown | Admitted | Duplicate | Quantized

  datatype Rung = Rung(requestedX: U16, reportedX: U16, measuredCx: U16, minCx: U16, maxCx: U16,
                       equivX: U16, verdict: Verdict)

  // ---- windows ---------------------------------------------------------------------------------------

  datatype Layout = Windows(slot: nat, band: nat) | ErrInval

  /** adsc_speeds_layout. */
  function LayOut(count: nat, ncand: nat, points: nat): Layout {
    if ncand == 0 || (points != 1 && points != BANDS) then ErrInval
    else
      var s := count / (points * ncand);
      if s < MIN_SECTORS + CHUNK then ErrInval else Windows(s, s * ncand)
  }

  /** First sector of rung i's window in band b, from the start of the span. */
  function WindowStart(l: Layout, b: nat, i: nat): nat
    requires l.Windows?
  {
    b * l.band + i * l.slot
  }

  /** Sectors timed for a candidate: clamped, and short enough to leave room for the warm-up. */
  function Wanted(candidate: nat, slot: nat): nat
    requires slot >= MIN_SECTORS + CHUNK
  {
    var w := candidate * 75;
    var lo := if w < MIN_SECTORS then MIN_SECTORS else w;
    var hi := if lo > MAX_SECTORS then MAX_SECTORS else lo;
    if hi > slot - CHUNK then slot - CHUNK else hi
  }

  /** Which spans are cut: those with at least 177 sectors a window, in one band or three, into windows as
      long as the span allows. */
  lemma LayoutIff(count: nat, ncand: nat, points: nat)
    ensures LayOut(count, ncand, points) == ErrInval <==>
      ncand == 0 || !(points == 1 || points == 3) || count < 177 * (points * ncand)
    ensures
      var l := LayOut(count, ncand, points);
      l.Windows? ==>
        && l.slot * (points * ncand) <= count < (l.slot + 1) * (points * ncand)
        && l.band == l.slot * ncand
  {
    if ncand > 0 && (points == 1 || points == 3) {
      var windows := points * ncand;
      var s := count / windows;
      assert count == s * windows + count % windows;
      assert (s + 1) * windows == s * windows + windows;
      if s < 177 {
        Scale(windows, s + 1, 177);
      } else {
        Scale(windows, 177, s);
      }
    }
  }

  /** A second of audio per speed step is timed, but no fewer than 150 sectors, no more than 2250, and
      no more than the window leaves beside the warm-up of 27. */
  lemma WantedIs(candidate: nat, slot: nat)
    requires slot >= 177
    ensures
      var w := Wanted(candidate, slot);
      && 150 <= w <= slot - 27 && w <= 2250
      && (w == 75 * candidate
          || (w == 150 > 75 * candidate)
          || (w < 75 * candidate && (w == slot - 27 || w == 2250)))
  {}

  /** Every window, warm-up included, lies in the span, and no two windows share a sector. */
  lemma WindowsAreDisjoint(count: nat, ncand: nat, points: nat, b: nat, i: nat, b': nat, i': nat, candidate: nat)
    requires LayOut(count, ncand, points).Windows?
    requires b < points && b' < points && i < ncand && i' < ncand && (b != b' || i != i')
    ensures
      var l := LayOut(count, ncand, points);
      var used := CHUNK + Wanted(candidate, l.slot);
      && MIN_SECTORS + CHUNK <= used <= l.slot
      && WindowStart(l, b, i) + used <= count
      && (|| WindowStart(l, b, i) + used <= WindowStart(l, b', i')
          || WindowStart(l, b', i') + l.slot <= WindowStart(l, b, i))
  {
    var l := LayOut(count, ncand, points);
    QuotientFits(count, points * ncand);
    WindowGeometry(l.slot, ncand, points, b, i, b', i');
  }

  lemma QuotientFits(a: nat, b: nat)
    requires b > 0
    ensures b * (a / b) <= a
  {}

  lemma WindowGeometry(s: nat, ncand: nat, points: nat, b: nat, i: nat, b': nat, i': nat)
    requires b < points && b' < points && i < ncand && i' < ncand && (b != b' || i != i')
    ensures
      var x, y := b * (s * ncand) + i * s, b' * (s * ncand) + i' * s;
      && x + s <= (points * ncand) * s
      && (x + s <= y || y + s <= x)
  {
    SlotNumber(s, ncand, b, i);
    SlotNumber(s, ncand, b', i');
    var x, y := b * ncand + i, b' * ncand + i';
    SlotInSpan(ncand, points, b, i);
    DifferentSlots(ncand, b, i, b', i');
    Scale(s, x + 1, points * ncand);
    Scale(s, x + 1, x + 1);
    Scale(s, y + 1, y + 1);
    if x < y {
      Scale(s, x + 1, y);
    } else {
      Scale(s, y + 1, x);
    }
  }

  lemma SlotNumber(s: nat, ncand: nat, b: nat, i: nat)
    ensures b * (s * ncand) + i * s == s * (b * ncand + i)
  {
    assert b * (s * ncand) == s * (b * ncand);
  }

  lemma SlotInSpan(ncand: nat, points: nat, b: nat, i: nat)
    requires b < points && i < ncand
    ensures b * ncand + i + 1 <= points * ncand
  {
    Scale(ncand, b + 1, points);
  }

  lemma DifferentSlots(ncand: nat, b: nat, i: nat, b': nat, i': nat)
    requires i < ncand && i' < ncand && (b != b' || i != i')
    ensures b * ncand + i != b' * ncand + i'
  {
    if b < b' {
      Scale(ncand, b + 1, b');
    } else if b' < b {
      Scale(ncand, b' + 1, b);
    }
  }

  lemma Scale(s: nat, x: nat, y: nat)
    requires x <= y
    ensures s * x <= s * y
    ensures x > 0 ==> s * x == s * (x - 1) + s
  {
    assert s * y - s * x == s * (y - x);
  }

  // ---- admission ----------------------------------------------------------------------------------------

  /** How much of a rung's spread one window accounts for. */
  function RadiusStep(r: Rung, n: nat, points: nat): nat {
    if points < 2 || n == 0 || r.maxCx <= r.minCx then 0 else (r.maxCx - r.minCx) / ((points - 1) * n)
  }

  function Margin(r: Rung, best: Rung, n: nat, points: nat, k: nat): nat {
    var mine, other := RadiusStep(r, n, points), RadiusStep(best, n, points);
    var m := (if other > mine then other else mine) * k;
    if m < ADMIT_NOISE_CX then ADMIT_NOISE_CX else m
  }

  /** The radius step is the spread's share per window over all windows but one band's, rounded down. */
  lemma RadiusStepIsTheShare(r: Rung, n: nat, points: nat)
    requires points >= 2 && n > 0
    ensures
      var windows, step := (points - 1) * n, RadiusStep(r, n, points);
      if r.maxCx > r.minCx then step * windows <= r.maxCx - r.minCx < (step + 1) * windows else step == 0
  {
    if r.maxCx > r.minCx {
      ShareOf(r, n, points);
    }
  }

  lemma ShareOf(r: Rung, n: nat, points: nat)
    requires points >= 2 && n > 0 && r.maxCx > r.minCx
    ensures
      var windows, step := (points - 1) * n, RadiusStep(r, n, points);
      step * windows <= r.maxCx - r.minCx < (step + 1) * windows
  {
    var windows, spread := (points - 1) * n, r.maxCx - r.minCx;
    assert windows > 0 by { Scale(points - 1, 1, n); }
    var step := spread / windows;
    assert spread == step * windows + spread % windows;
    assert (step + 1) * windows == step * windows + windows;
  }

  /** The margin is the largest of the noise floor and k radius steps of either rung, and symmetric. */
  lemma MarginIsTheLargest(r: Rung, best: Rung, n: nat, points: nat, k: nat)
    ensures
      var m, a, b := Margin(r, best, n, points, k), k * RadiusStep(r, n, points), k * RadiusStep(best, n, points);
      && m >= 50 && m >= a && m >= b
      && (m == 50 || m == a || m == b)
      && m == Margin(best, r, n, points, k)
  {
    hide RadiusStep;
    var mine, other := RadiusStep(r, n, points), RadiusStep(best, n, points);
    if other > mine {
      Scale(k, mine, other);
    } else {
      Scale(k, other, mine);
    }
  }

  predicate Faster(r: Rung, best: Rung, n: nat, points: nat, k: nat) {
    r.measuredCx > best.measuredCx + Margin(r, best, n, points, k)
  }

  predicate Snapped(r: Rung) {
    r.reportedX != 0 && r.reportedX < r.requestedX
  }

  /** The order rungs are taken in: slowest request first, table order among equals. */
  predicate Before(s: seq<Rung>, i: nat, j: nat)
    requires i < |s| && j < |s|
  {
    s[i].requestedX < s[j].requestedX || (s[i].requestedX == s[j].requestedX && i < j)
  }

  /** b is the last rung admitted before i. */
  ghost predicate LastAdmitted(s: seq<Rung>, b: nat, i: nat)
    requires i < |s|
  {
    && b < |s| && s[b].verdict == Admitted && Before(s, b, i)
    && forall c: nat :: c < |s| && s[c].verdict == Admitted && Before(s, c, i) ==> c == b || Before(s, c, b)
  }

  ghost predicate NoneAdmitted(s: seq<Rung>, i: nat)
    requires i < |s|
  {
    forall c: nat :: c < |s| && s[c].verdict == Admitted ==> !Before(s, c, i)
  }

  /** Equivalents as left by the selection loop, or after the sentinel was cleared. */
  function Left(x: U16, cleared: bool): U16 {
    if cleared && x == SENTINEL then 0 else x
  }

  /** The verdict a rung should have given the verdicts before it. */
  ghost predicate Judged(s: seq<Rung>, points: nat, k: nat, i: nat, cleared: bool)
    requires i < |s|
  {
    var r := s[i];
    if r.measuredCx == 0 then r.verdict == Unknown && r.equivX == Left(SENTINEL, cleared)
    else if Snapped(r) then r.verdict == Quantized && r.equivX == r.reportedX
    else if NoneAdmitted(s, i) then r.verdict == Admitted && r.equivX == 0
    else exists b: nat :: LastAdmitted(s, b, i) && Outcome(r, s[b], |s|, points, k, cleared)
  }

  predicate Outcome(r: Rung, best: Rung, n: nat, points: nat, k: nat, cleared: bool) {
    if Faster(r, best, n, points, k) then r.verdict == Admitted && r.equivX == 0
    else r.verdict == Duplicate && r.equivX == Left(best.requestedX, cleared)
  }

  predicate Settled(r: Rung) {
    r.verdict != Unknown || r.equivX != 0
  }

  /** Only the two result fields of a rung may change. */
  predicate SameProbe(r: Rung, r': Rung) {
    r' == r.(verdict := r'.verdict, equivX := r'.equivX)
  }

  ghost predicate SameProbes(s: seq<Rung>, s': seq<Rung>) {
    |s| == |s'| && forall i :: 0 <= i < |s| ==> SameProbe(s[i], s'[i])
  }

  function SettledCount(s: seq<Rung>): (c: nat)
    ensures c <= |s|
  {
    if |s| == 0 then 0 else SettledCount(s[..|s| - 1]) + (if Settled(s[|s| - 1]) then 1 else 0)
  }

  lemma {:induction false} SettlingOneCounts(s: seq<Rung>, i: nat, r: Rung)
    requires i < |s| && !Settled(s[i]) && Settled(r)
    ensures SettledCount(s[i := r]) == SettledCount(s) + 1
  {
    if i == |s| - 1 {
      assert s[i := r][..|s| - 1] == s[..|s| - 1];
    } else {
      assert s[i := r][..|s| - 1] == s[..|s| - 1][i := r];
      SettlingOneCounts(s[..|s| - 1], i, r);
    }
  }

  lemma {:induction false} AllSettledWhenFull(s: seq<Rung>, i: nat)
    requires SettledCount(s) == |s| && i < |s|
    ensures Settled(s[i])
  {
    if i < |s| - 1 {
      AllSettledWhenFull(s[..|s| - 1], i);
    }
  }

  lemma {:induction false} SomeUnsettled(s: seq<Rung>) returns (i: nat)
    requires SettledCount(s) < |s|
    ensures i < |s| && !Settled(s[i])
  {
    if Settled(s[|s| - 1]) {
      i := SomeUnsettled(s[..|s| - 1]);
    } else {
      i := |s| - 1;
    }
  }

  /** The selection loop's state: settled rungs are judged and come before all others; best is the
      last one admitted, -1 when none is. */
  ghost predicate Progress(s: seq<Rung>, points: nat, k: nat, done: nat, best: int) {
    && done == SettledCount(s)
    && (forall i: nat :: i < |s| && !Settled(s[i]) ==> s[i].verdict == Unknown && s[i].equivX == 0)
    && (forall i: nat :: i < |s| && Settled(s[i]) ==> Judged(s, points, k, i, false))
    && (forall i: nat, j: nat :: i < |s| && j < |s| && Settled(s[i]) && !Settled(s[j]) ==> Before(s, i, j))
    && -1 <= best < |s|
    && (best == -1 ==> forall i: nat :: i < |s| ==> s[i].verdict != Admitted)
    && (best >= 0 ==>
          && s[best].verdict == Admitted
          && forall c: nat :: c < |s| && s[c].verdict == Admitted ==> c == best || Before(s, c, best))
  }

  /** What the loop makes of the rung it picks, given the last rung admitted. */
  function Judge(s: seq<Rung>, points: nat, k: nat, pick: nat, best: int): Rung
    requires pick < |s| && -1 <= best < |s|
  {
    var r := s[pick];
    if r.measuredCx == 0 then r.(verdict := Unknown, equivX := SENTINEL)
    else if Snapped(r) then r.(verdict := Quantized, equivX := r.reportedX)
    else if best < 0 then r.(verdict := Admitted)
    else if Faster(r, s[best], |s|, points, k) then r.(verdict := Admitted)
    else r.(verdict := Duplicate, equivX := s[best].requestedX)
  }

  /** A judgement only looks at earlier rungs, so settling a later one does not disturb it. */
  lemma JudgedUndisturbed(s: seq<Rung>, points: nat, k: nat, i: nat, pick: nat, r: Rung)
    requires i < |s| && pick < |s| && i != pick && Judged(s, points, k, i, false)
    requires Before(s, i, pick) && SameProbe(s[pick], r) && s[pick].verdict == Unknown
    ensures Judged(s[pick := r], points, k, i, false)
  {
    hide Faster, Snapped;
    var s' := s[pick := r];
    assert forall c: nat, d: nat :: c < |s| && d < |s| ==> Before(s', c, d) == Before(s, c, d);
    if s[i].measuredCx != 0 && !Snapped(s[i]) && !NoneAdmitted(s, i) {
      var b: nat :| LastAdmitted(s, b, i) && Outcome(s[i], s[b], |s|, points, k, false);
      assert LastAdmitted(s', b, i) && s'[b] == s[b];
      assert s'[b].verdict == Admitted && Before(s', b, i);
    }
  }

  /** The picked rung, judged, is judged. */
  lemma PickedIsJudged(s: seq<Rung>, points: nat, k: nat, pick: nat, best: int)
    requires pick < |s| && !Settled(s[pick]) && s[pick].equivX == 0
    requires -1 <= best < |s|
    requires best == -1 ==> forall i: nat :: i < |s| ==> s[i].verdict != Admitted
    requires best >= 0 ==> LastAdmitted(s, best, pick)
    ensures Judged(s[pick := Judge(s, points, k, pick, best)], points, k, pick, false)
  {
    hide Faster, Snapped;
    var r := Judge(s, points, k, pick, best);
    var s' := s[pick := r];
    assert forall c: nat, d: nat :: c < |s| && d < |s| ==> Before(s', c, d) == Before(s, c, d);
    SameProbeSameStep(s[pick], r, r, |s|, points, k);
    if r.measuredCx != 0 && !Snapped(r) {
      if best >= 0 {
        SameProbeSameStep(s[pick], r, s[best], |s|, points, k);
        assert best != pick && s'[best] == s[best];
        assert LastAdmitted(s', best, pick);
        assert s'[best].verdict == Admitted && Before(s', best, pick);
        assert Outcome(r, s'[best], |s'|, points, k, false);
      } else {
        assert s'[pick] == r && NoneAdmitted(s', pick);
      }
    }
  }

  lemma SameProbeSameStep(r: Rung, r': Rung, best: Rung, n: nat, points: nat, k: nat)
    requires SameProbe(r, r')
    ensures Faster(r', best, n, points, k) == Faster(r, best, n, points, k)
    ensures Snapped(r') == Snapped(r)
  {}

  lemma ProgressStep(s: seq<Rung>, points: nat, k: nat, done: nat, best: int, pick: nat)
    requires Progress(s, points, k, done, best) && pick < |s| && !Settled(s[pick])
    requires forall j: nat :: j < |s| && !Settled(s[j]) ==> j == pick || Before(s, pick, j)
    ensures
      var r := Judge(s, points, k, pick, best);
      Progress(s[pick := r], points, k, done + 1, if r.verdict == Admitted then pick else best)
  {
    hide Faster, Snapped, Judged;
    var r := Judge(s, points, k, pick, best);
    var s' := s[pick := r];
    SettlingOneCounts(s, pick, r);
    PickedIsJudged(s, points, k, pick, best);
    forall i: nat | i < |s| && Settled(s[i])
      ensures Judged(s', points, k, i, false)
    {
      JudgedUndisturbed(s, points, k, i, pick, r);
    }
    assert forall c: nat, d: nat :: c < |s| && d < |s| ==> Before(s', c, d) == Before(s, c, d);
  }

  // ---- the loop ----------------------------------------------------------------------------------------

  /** The slowest unsettled rung. */
  method Pick(rungs: array<Rung>) returns (pick: nat)
    requires SettledCount(rungs[..]) < rungs.Length
    ensures pick < rungs.Length && !Settled(rungs[pick])
    ensures forall j: nat :: j < rungs.Length && !Settled(rungs[j]) ==> j == pick || Before(rungs[..], pick, j)
  {
    var p := -1;
    for i := 0 to rungs.Length
      invariant -1 <= p < i
      invariant p == -1 ==> forall j: nat :: j < i ==> Settled(rungs[j])
      invariant p >= 0 ==>
        && !Settled(rungs[p])
        && forall j: nat :: j < i && !Settled(rungs[j]) ==> j == p || Before(rungs[..], p, j)
    {
      if rungs[i].verdict != Unknown || rungs[i].equivX != 0 {
        continue;
      }
      if p < 0 || rungs[i].requestedX < rungs[p].requestedX {
        p := i;
      }
    }
    var u := SomeUnsettled(rungs[..]);
    pick := p;
  }

  method Reset(rungs: array<Rung>)
    modifies rungs
    ensures SameProbes(old(rungs[..]), rungs[..])
    ensures forall i: nat :: i < rungs.Length ==> rungs[i].verdict == Unknown && rungs[i].equivX == 0
  {
    for i := 0 to rungs.Length
      invariant forall j: nat {:trigger rungs[j]} :: j < i ==>
        rungs[j] == old(rungs[j]).(verdict := Unknown, equivX := 0)
      invariant forall j: nat {:trigger rungs[j]} :: i <= j < rungs.Length ==> rungs[j] == old(rungs[j])
    {
      rungs[i] := rungs[i].(verdict := Unknown, equivX := 0);
    }
  }

  method ClearSentinels(rungs: array<Rung>)
    modifies rungs
    ensures forall i: nat :: i < rungs.Length ==> rungs[i] == old(rungs[i]).(equivX := Left(old(rungs[i]).equivX, true))
  {
    for i := 0 to rungs.Length
      invariant forall j: nat {:trigger rungs[j]} :: j < i ==>
        rungs[j] == old(rungs[j]).(equivX := Left(old(rungs[j]).equivX, true))
      invariant forall j: nat {:trigger rungs[j]} :: i <= j < rungs.Length ==> rungs[j] == old(rungs[j])
    {
      if rungs[i].equivX == SENTINEL {
        rungs[i] := rungs[i].(equivX := 0);
      }
    }
  }

  /** adsc_speeds_admit: judges every rung in as many picks as there are rungs. */
  method Admit(rungs: array<Rung>, points: nat, k: nat) returns (ghost picks: nat)
    modifies rungs
    ensures SameProbes(old(rungs[..]), rungs[..])
    ensures points < 2 ==> forall i: nat :: i < rungs.Length ==> rungs[i].verdict == Unknown && rungs[i].equivX == 0
    ensures points >= 2 ==>
      && picks == rungs.Length
      && forall i: nat {:trigger rungs[i]} :: i < rungs.Length ==> Judged(rungs[..], points, k, i, true)
  {
    hide Judged, Judge, Before;
    picks := 0;
    if rungs.Length == 0 {
      return;
    }
    Reset(rungs);
    if points < 2 {
      return;
    }
    NoneSettled(rungs[..], points, k);
    var done := 0;
    var best: int := -1;
    while done < rungs.Length
      invariant done <= rungs.Length && picks == done
      invariant SameProbes(old(rungs[..]), rungs[..])
      invariant Progress(rungs[..], points, k, done, best)
    {
      ghost var s := rungs[..];
      var pick := Pick(rungs);
      ProgressStep(s, points, k, done, best, pick);
      var r := JudgeRung(rungs, points, k, pick, best);
      JudgeKeepsProbe(s, points, k, pick, best);
      rungs[pick] := r;
      assert rungs[..] == s[pick := r];
      if r.verdict == Admitted {
        best := pick;
      }
      done := done + 1;
      picks := picks + 1;
    }
    ghost var raw := rungs[..];
    forall i: nat | i < |raw|
      ensures Judged(raw, points, k, i, false)
    {
      AllSettledWhenFull(raw, i);
    }
    ClearSentinels(rungs);
    forall i: nat | i < |raw|
      ensures Judged(rungs[..], points, k, i, true)
    {
      ClearingKeepsJudgement(raw, rungs[..], points, k, i);
    }
  }

  method JudgeRung(rungs: array<Rung>, points: nat, k: nat, pick: nat, best: int) returns (r: Rung)
    requires pick < rungs.Length && -1 <= best < rungs.Length
    ensures r == Judge(rungs[..], points, k, pick, best)
  {
    r := rungs[pick];
    if r.measuredCx == 0 {
      r := r.(verdict := Unknown, equivX := SENTINEL);
    } else if r.reportedX != 0 && r.reportedX < r.requestedX {
      r := r.(verdict := Quantized, equivX := r.reportedX);
    } else if best < 0 {
      r := r.(verdict := Admitted);
    } else {
      var step := RadiusStep(r, rungs.Length, points);
      var other := RadiusStep(rungs[best], rungs.Length, points);
      if other > step {
        step := other;
      }
      var margin := step * k;
      if margin < ADMIT_NOISE_CX {
        margin := ADMIT_NOISE_CX;
      }
      if r.measuredCx > rungs[best].measuredCx && r.measuredCx - rungs[best].measuredCx > margin {
        r := r.(verdict := Admitted);
      } else {
        r := r.(verdict := Duplicate, equivX := rungs[best].requestedX);
      }
    }
  }

  lemma JudgeKeepsProbe(s: seq<Rung>, points: nat, k: nat, pick: nat, best: int)
    requires pick < |s| && -1 <= best < |s|
    ensures SameProbe(s[pick], Judge(s, points, k, pick, best))
  {}

  lemma ClearingKeepsJudgement(s: seq<Rung>, s': seq<Rung>, points: nat, k: nat, i: nat)
    requires |s| == |s'| && forall j: nat :: j < |s| ==> s'[j] == s[j].(equivX := Left(s[j].equivX, true))
    requires i < |s| && Judged(s, points, k, i, false)
    ensures Judged(s', points, k, i, true)
  {
    hide Faster, Snapped;
    assert forall c: nat, d: nat :: c < |s| && d < |s| ==> Before(s', c, d) == Before(s, c, d);
    var r := s[i];
    SnappedIsNotSentinel(r);
    if r.measuredCx != 0 {
      SameProbeSameStep(r, s'[i], r, |s|, points, k);
      if !Snapped(r) && !NoneAdmitted(s, i) {
        var b: nat :| LastAdmitted(s, b, i) && Outcome(r, s[b], |s|, points, k, false);
        SameProbesSameStep(r, s'[i], s[b], s'[b], |s|, points, k);
        assert LastAdmitted(s', b, i);
        assert s'[b].verdict == Admitted && Before(s', b, i);
        assert Outcome(s'[i], s'[b], |s'|, points, k, true);
      }
    }
  }

  lemma SnappedIsNotSentinel(r: Rung)
    ensures Snapped(r) ==> r.reportedX != SENTINEL
  {}

  lemma SameProbesSameStep(r: Rung, r': Rung, best: Rung, best': Rung, n: nat, points: nat, k: nat)
    requires SameProbe(r, r') && SameProbe(best, best')
    ensures Faster(r', best', n, points, k) == Faster(r, best, n, points, k)
  {}

  lemma {:induction false} NoneSettled(s: seq<Rung>, points: nat, k: nat)
    requires forall i: nat :: i < |s| ==> s[i].verdict == Unknown && s[i].equivX == 0
    ensures Progress(s, points, k, 0, -1)
  {
    NoneCounted(s);
  }

  lemma {:induction false} NoneCounted(s: seq<Rung>)
    requires forall i: nat :: i < |s| ==> !Settled(s[i])
    ensures SettledCount(s) == 0
  {
    if |s| > 0 {
      NoneCounted(s[..|s| - 1]);
    }
  }

  // ---- what the verdicts mean -----------------------------------------------------------------------------

  ghost predicate AllJudged(s: seq<Rung>, points: nat, k: nat) {
    forall i: nat {:trigger s[i]} :: i < |s| ==> Judged(s, points, k, i, true)
  }

  /** Unknown is exactly the rungs that did not measure. */
  lemma UnknownIffUnmeasured(s: seq<Rung>, points: nat, k: nat, i: nat)
    requires AllJudged(s, points, k) && i < |s|
    ensures s[i].verdict == Unknown <==> s[i].measuredCx == 0
    ensures s[i].verdict == Unknown ==> s[i].equivX == 0
    ensures s[i].verdict == Quantized <==> s[i].measuredCx != 0 && 0 < s[i].reportedX < s[i].requestedX
    ensures s[i].verdict == Quantized ==> s[i].equivX == s[i].reportedX
  {
    assert Judged(s, points, k, i, true);
  }

  /** A duplicate names the last rung admitted before it: one requested no faster, that it is not
      faster than by the margin. */
  lemma DuplicateNamesAnAdmittedRung(s: seq<Rung>, points: nat, k: nat, i: nat) returns (b: nat)
    requires AllJudged(s, points, k) && i < |s| && s[i].verdict == Duplicate
    ensures b < |s| && s[b].verdict == Admitted && s[b].requestedX <= s[i].requestedX
    ensures s[i].equivX == if s[b].requestedX == 0xffff then 0 else s[b].requestedX
    ensures s[i].measuredCx <= s[b].measuredCx + Margin(s[i], s[b], |s|, points, k)
  {
    hide Margin;
    assert Judged(s, points, k, i, true);
    b :| LastAdmitted(s, b, i) && Outcome(s[i], s[b], |s|, points, k, true);
  }

  ghost function Earlier(s: seq<Rung>, i: nat): set<nat>
    requires i < |s|
  {
    set c: nat | c < |s| && Before(s, c, i)
  }

  /** Between admitted rungs the measured rate rises with the request: by more than the margin over
      the last one admitted before, and by more than the noise floor over every earlier one. */
  lemma {:induction false} AdmittedRatesRise(s: seq<Rung>, points: nat, k: nat, a: nat, i: nat)
    requires AllJudged(s, points, k) && a < |s| && i < |s|
    requires s[a].verdict == Admitted && s[i].verdict == Admitted && Before(s, a, i)
    ensures s[i].measuredCx > s[a].measuredCx + 50
    ensures LastAdmitted(s, a, i) ==> s[i].measuredCx > s[a].measuredCx + Margin(s[i], s[a], |s|, points, k)
    decreases |Earlier(s, i)|
  {
    hide Margin, Before;
    assert Judged(s, points, k, i, true);
    BeforeIsAnOrder(s);
    var b: nat :| LastAdmitted(s, b, i) && Outcome(s[i], s[b], |s|, points, k, true);
    MarginAboveNoise(s[i], s[b], |s|, points, k);
    if a != b {
      assert b in Earlier(s, i) && b !in Earlier(s, b);
      assert Earlier(s, b) <= Earlier(s, i);
      SmallerSet(Earlier(s, b), Earlier(s, i), b);
      AdmittedRatesRise(s, points, k, a, b);
    }
  }

  lemma SmallerSet(x: set<nat>, y: set<nat>, e: nat)
    requires x <= y && e in y && e !in x
    ensures |x| < |y|
  {
    assert x <= y - {e};
    SubsetSize(x, y - {e});
  }

  lemma {:induction false} SubsetSize(x: set<nat>, y: set<nat>)
    requires x <= y
    ensures |x| <= |y|
  {
    if x != {} {
      var e :| e in x;
      SubsetSize(x - {e}, y - {e});
    }
  }

  lemma MarginAboveNoise(r: Rung, best: Rung, n: nat, points: nat, k: nat)
    ensures Margin(r, best, n, points, k) >= ADMIT_NOISE_CX
  {}

  lemma BeforeIsAnOrder(s: seq<Rung>)
    ensures forall i: nat :: i < |s| ==> !Before(s, i, i)
    ensures forall i: nat, j: nat, l: nat :: i < |s| && j < |s| && l < |s| && Before(s, i, j) && Before(s, j, l) ==>
      Before(s, i, l)
    ensures forall i: nat, j: nat :: i < |s| && j < |s| && i != j ==> Before(s, i, j) || Before(s, j, i)
  {}

  // ---- table order does not matter ----------------------------------------------------------------------

  ghost predicate DistinctRequests(s: seq<Rung>) {
    forall i: nat, j: nat :: i < j < |s| ==> s[i].requestedX != s[j].requestedX
  }

  /** The same probes, in whatever order: every rung of one is the probe of some rung of the other. */
  ghost predicate SameTable(s: seq<Rung>, t: seq<Rung>) {
    && |s| == |t|
    && (forall i: nat {:trigger s[i]} :: i < |s| ==> exists j: nat {:trigger t[j]} :: j < |t| && SameProbe(s[i], t[j]))
    && (forall j: nat {:trigger t[j]} :: j < |t| ==> exists i: nat {:trigger s[i]} :: i < |s| && SameProbe(s[i], t[j]))
  }

  /** Everything taken before rung i of one table is, result and all, taken before rung j of the other. */
  ghost predicate EarlierAgree(s: seq<Rung>, i: nat, t: seq<Rung>, j: nat)
    requires i < |s| && j < |t|
  {
    forall c: nat {:trigger s[c]} :: c < |s| && Before(s, c, i) ==>
      exists d: nat {:trigger t[d]} :: d < |t| && Before(t, d, j) && t[d] == s[c]
  }

  lemma Counterpart(s: seq<Rung>, i: nat, t: seq<Rung>, j: nat, c: nat) returns (d: nat)
    requires i < |s| && j < |t| && EarlierAgree(s, i, t, j)
    requires c < |s| && Before(s, c, i)
    ensures d < |t| && Before(t, d, j) && t[d] == s[c]
  {
    assert s[c] == s[c];
    d :| d < |t| && Before(t, d, j) && t[d] == s[c];
  }

  lemma SameLastAdmitted(s: seq<Rung>, i: nat, t: seq<Rung>, j: nat, b: nat) returns (d: nat)
    requires i < |s| && j < |t| && EarlierAgree(s, i, t, j) && EarlierAgree(t, j, s, i)
    requires DistinctRequests(s) && DistinctRequests(t)
    requires LastAdmitted(s, b, i)
    ensures LastAdmitted(t, d, j) && t[d] == s[b]
  {
    hide EarlierAgree;
    d := Counterpart(s, i, t, j, b);
    forall e: nat | e < |t| && t[e].verdict == Admitted && Before(t, e, j)
      ensures e == d || Before(t, e, d)
    {
      var c := Counterpart(t, j, s, i, e);
      assert c == b || Before(s, c, b);
    }
  }

  lemma JudgementsAgree(s: seq<Rung>, t: seq<Rung>, points: nat, k: nat, i: nat, j: nat)
    requires i < |s| && j < |t| && |s| == |t| && SameProbe(s[i], t[j])
    requires Judged(s, points, k, i, true) && Judged(t, points, k, j, true)
    requires DistinctRequests(s) && DistinctRequests(t)
    requires EarlierAgree(s, i, t, j) && EarlierAgree(t, j, s, i)
    ensures s[i] == t[j]
  {
    hide Faster, Snapped, EarlierAgree, DistinctRequests;
    SameProbeSameStep(s[i], t[j], s[i], |s|, points, k);
    if s[i].measuredCx != 0 && !Snapped(s[i]) {
      if NoneAdmitted(s, i) {
        if !NoneAdmitted(t, j) {
          var e: nat :| e < |t| && t[e].verdict == Admitted && Before(t, e, j);
          var c := Counterpart(t, j, s, i, e);
        }
      } else {
        var b: nat :| LastAdmitted(s, b, i) && Outcome(s[i], s[b], |s|, points, k, true);
        var d := SameLastAdmitted(s, i, t, j, b);
        assert t[d].verdict == Admitted && Before(t, d, j);
        var d': nat :| LastAdmitted(t, d', j) && Outcome(t[j], t[d'], |t|, points, k, true);
        BeforeIsAnOrder(t);
        assert d == d';
        SameProbeSameStep(s[i], t[j], s[b], |s|, points, k);
      }
    }
  }

  /** With distinct requests the judgement of a probe does not depend on where it stands in the table. */
  lemma {:induction false} VerdictsIgnoreTableOrder(s: seq<Rung>, t: seq<Rung>, points: nat, k: nat, i: nat, j: nat)
    requires AllJudged(s, points, k) && AllJudged(t, points, k)
    requires DistinctRequests(s) && DistinctRequests(t) && SameTable(s, t)
    requires i < |s| && j < |t| && SameProbe(s[i], t[j])
    ensures s[i] == t[j]
    decreases s[i].requestedX
  {
    hide Judged;
    forall c: nat | c < |s| && Before(s, c, i)
      ensures exists d: nat {:trigger t[d]} :: d < |t| && Before(t, d, j) && t[d] == s[c]
    {
      var d: nat :| d < |t| && SameProbe(s[c], t[d]);
      VerdictsIgnoreTableOrder(s, t, points, k, c, d);
    }
    forall d: nat | d < |t| && Before(t, d, j)
      ensures exists c: nat {:trigger s[c]} :: c < |s| && Before(s, c, i) && s[c] == t[d]
    {
      var c: nat :| c < |s| && SameProbe(s[c], t[d]);
      VerdictsIgnoreTableOrder(s, t, points, k, c, d);
    }
    JudgementsAgree(s, t, points, k, i, j);
  }
}

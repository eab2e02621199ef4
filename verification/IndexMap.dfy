/** The pregap decoder: per track, what the CRC-good Q frames around the table-of-contents
    boundary say about an index-0 stretch before it. */
module IndexMap {
  import opened SubQ
  import Crc = Crc16

  /** How far before a boundary index-0 frames are looked for. */
  const PREGAP_SCAN_FRAMES := 400
  /** The approach window over which good and bad frames are counted. */
  const CLEAN_WINDOW_FRAMES := 150

  datatype PregapState = NoData | None | Present | Unknown

  datatype Track = Track(number: nat, lba: int)

  datatype Entry = Entry(track: nat, pregapState: PregapState, maxIndex: nat, index1Lba: int, qIndex1Lba: int,
                         index0Lba: int, pregapFrames: nat, crcOk: nat, crcBad: nat)

  /** A scan: frames[k] was read at sector base + k. */
  datatype Scan = Scan(base: int, frames: seq<Frame>) {
    function End(): int { base + |frames| }

    predicate Holds(lba: int) { base <= lba < End() }

    function At(lba: int): Frame
      requires Holds(lba)
    {
      frames[lba - base]
    }
  }

  function RelFrames(q: Frame): nat {
    (q.relM * 60 + q.relS) * 75 + q.relF
  }

  lemma TimeParts(r: nat)
    requires r < 100 * 60 * 75
    ensures r / 4500 < 100 && r / 75 % 60 < 100 && r % 75 < 100
    ensures ((r / 4500) * 60 + r / 75 % 60) * 75 + r % 75 == r
  {
    var seconds := r / 75;
    assert r / 4500 == seconds / 60;
  }

  /** A frame recorded r frames into its track, or before its start, in minutes, seconds and frames,
      is read back as r. */
  lemma RecordedTimeIsRead(control: Crc.Byte, tno: nat, index: nat, r: nat, absM: nat, absS: nat, absF: nat)
    requires control < 16 && tno < 100 && index < 100 && r < 100 * 60 * 75
    requires absM < 100 && absS < 100 && absF < 100
    ensures
      var q := Parse(Recorded(control, tno, index, r / 4500, r / 75 % 60, r % 75, absM, absS, absF)).1;
      q.crcOk && q.adr == ADR_POSITION && q.tno == tno && q.index == index && RelFrames(q) == r
  {
    hide Recorded, Parse;
    TimeParts(r);
    ParsingReadsTheRecording(control, tno, index, r / 4500, r / 75 % 60, r % 75, absM, absS, absF);
  }

  // ---- specification ---------------------------------------------------------------------------

  predicate IsPosition(q: Frame) { q.crcOk && q.adr == ADR_POSITION }

  /** A trusted frame of the track. */
  predicate Claims(q: Frame, track: nat) { IsPosition(q) && q.tno == track }

  predicate PregapFrame(q: Frame, track: nat) { Claims(q, track) && q.index == 0 }

  /** The boundary is covered when the sector right before it was scanned. */
  predicate Covered(s: Scan, l: int) { s.Holds(l - 1) }

  /** Sector lba lies in the hunting window before boundary l and was scanned. */
  predicate InApproach(s: Scan, l: int, lba: int) {
    l - PREGAP_SCAN_FRAMES <= lba < l && s.Holds(lba)
  }

  /** m is the greatest track-relative time shown by a trusted index-0 frame in the approach;
      0 when there is none. */
  ghost predicate IsLongestPregap(s: Scan, t: Track, hi: int, m: nat) {
    && (forall lba :: SeesPregap(s, t, hi, lba) ==> RelFrames(s.At(lba)) <= m)
    && (m > 0 ==> exists lba :: SeesPregap(s, t, hi, lba) && RelFrames(s.At(lba)) == m)
  }

  ghost predicate SeesPregap(s: Scan, t: Track, hi: int, lba: int) {
    lba < hi && InApproach(s, t.lba, lba) && PregapFrame(s.At(lba), t.number)
  }

  /** m is the greatest index shown by a trusted frame of the track, boundary sector included. */
  ghost predicate IsHighestIndex(s: Scan, t: Track, hi: int, m: nat) {
    && (forall lba :: SeesTrack(s, t, hi, lba) ==> s.At(lba).index <= m)
    && (m > 0 ==> exists lba :: SeesTrack(s, t, hi, lba) && s.At(lba).index == m)
  }

  ghost predicate SeesTrack(s: Scan, t: Track, hi: int, lba: int) {
    t.lba - PREGAP_SCAN_FRAMES <= lba < hi && s.Holds(lba) && Claims(s.At(lba), t.number)
  }

  /** Walking down from the boundary past good non-position frames, the first other frame is a
      good position frame. */
  ghost predicate CleanBoundary(s: Scan, l: int) {
    exists lba :: CleanAt(s, l, lba)
  }

  ghost predicate CleanAt(s: Scan, l: int, lba: int) {
    && InApproach(s, l, lba) && IsPosition(s.At(lba))
    && forall k {:trigger s.At(k)} :: lba < k < l && s.Holds(k) ==> s.At(k).crcOk && s.At(k).adr != ADR_POSITION
  }

  /** Frames with the given CRC verdict among the sectors from lo up to hi. */
  ghost function CountCrc(s: Scan, ok: bool, lo: int, hi: int): nat
    decreases hi - lo
  {
    if hi <= lo then 0
    else CountCrc(s, ok, lo, hi - 1) + (if s.Holds(hi - 1) && s.At(hi - 1).crcOk == ok then 1 else 0)
  }

  /** What the update rule of the cross-check field leaves behind: -1, or the sector of some
      trusted index-1 frame. A stored negative sector counts as nothing stored, so the least
      sector wins only among the nonnegative ones. */
  ghost predicate IsQIndex1(s: Scan, t: Track, hi: int, x: int) {
    && (SeesIndex1(s, t, hi, x) || (x == -1 && forall lba :: !SeesIndex1(s, t, hi, lba)))
    && (x >= 0 ==> forall lba :: 0 <= lba && SeesIndex1(s, t, hi, lba) ==> x <= lba)
    && (x < 0 ==> forall lba :: SeesIndex1(s, t, hi, lba) ==> lba <= x)
  }

  ghost predicate SeesIndex1(s: Scan, t: Track, hi: int, lba: int) {
    SeesTrack(s, t, hi, lba) && s.At(lba).index == 1
  }

  ghost predicate Describes(s: Scan, t: Track, e: Entry) {
    && e.track == t.number && e.index1Lba == t.lba
    && (!Covered(s, t.lba) ==> e == Entry(t.number, NoData, 0, t.lba, -1, -1, 0, 0, 0))
    && (Covered(s, t.lba) ==>
          && IsLongestPregap(s, t, t.lba, e.pregapFrames)
          && e.pregapState == (if e.pregapFrames > 0 then Present
                               else if CleanBoundary(s, t.lba) then None else Unknown)
          && e.index0Lba == (if e.pregapFrames > 0 then t.lba - e.pregapFrames else -1)
          && IsHighestIndex(s, t, t.lba + 1, e.maxIndex)
          && IsQIndex1(s, t, t.lba + 1, e.qIndex1Lba)
          && e.crcOk == CountCrc(s, true, t.lba - CLEAN_WINDOW_FRAMES, t.lba)
          && e.crcBad == CountCrc(s, false, t.lba - CLEAN_WINDOW_FRAMES, t.lba))
  }

  // ---- decoding ------------------------------------------------------------------------------------

  function FrameAt(raw: seq<Crc.Byte>, k: nat): Frame
    requires RAW_BYTES * (k + 1) <= |raw|
  {
    Parse(QBytes(raw[RAW_BYTES * k..RAW_BYTES * (k + 1)])).1
  }

  function Parsed(raw: seq<Crc.Byte>, base: int, count: nat): (s: Scan)
    requires |raw| == RAW_BYTES * count
    ensures s.base == base && |s.frames| == count
  {
    Scan(base, seq(count, (k: nat) requires k < count && |raw| == RAW_BYTES * count =>
      FrameAt(raw, k)))
  }

  /** A sector whose raw bytes carry a recorded position frame in their Q bits is seen as that frame:
      track, index and the time r in frames from the start of the track. */
  lemma RecordedSectorIsSeen(raw: seq<Crc.Byte>, base: int, count: nat, k: nat, control: Crc.Byte, tno: nat, index: nat,
                             r: nat, absM: nat, absS: nat, absF: nat)
    requires |raw| == 96 * count && k < count
    requires control < 16 && tno < 100 && index < 100 && r < 100 * 60 * 75
    requires absM < 100 && absS < 100 && absF < 100
    requires CarriesFrame(raw[96 * k..96 * (k + 1)],
                          Recorded(control, tno, index, r / 4500, r / 75 % 60, r % 75, absM, absS, absF))
    ensures
      var q := Parsed(raw, base, count).At(base + k);
      q.crcOk && q.adr == ADR_POSITION && q.tno == tno && q.index == index && RelFrames(q) == r
  {
    hide Recorded, SubQ.Parse, QBytes, CarriesFrame, RelFrames;
    ExtractionRecoversTheFrame(raw[96 * k..96 * (k + 1)],
                               Recorded(control, tno, index, r / 4500, r / 75 % 60, r % 75, absM, absS, absF));
    RecordedTimeIsRead(control, tno, index, r, absM, absS, absF);
  }

  /** Extract and parse the frame of one sector. */
  method ReadFrame(raw: seq<Crc.Byte>, k: nat) returns (q: Frame)
    requires RAW_BYTES * (k + 1) <= |raw|
    ensures q == FrameAt(raw, k)
  {
    var qb := new Crc.Byte[FRAME_BYTES];
    ExtractQ(raw[RAW_BYTES * k..RAW_BYTES * (k + 1)], qb);
    q := Parse(qb[..]).1;
  }

  /** First pass: walk the approach and the boundary sector, tallying what the good frames say. */
  method ScanApproach(raw: seq<Crc.Byte>, ghost s: Scan, base: int, count: nat, t: Track)
    returns (maxRel: nat, maxIndex: nat, qIndex1: int, crcOk: nat, crcBad: nat)
    requires |raw| == RAW_BYTES * count && s == Parsed(raw, base, count)
    ensures IsLongestPregap(s, t, t.lba, maxRel)
    ensures IsHighestIndex(s, t, t.lba + 1, maxIndex)
    ensures IsQIndex1(s, t, t.lba + 1, qIndex1)
    ensures crcOk == CountCrc(s, true, t.lba - CLEAN_WINDOW_FRAMES, t.lba)
    ensures crcBad == CountCrc(s, false, t.lba - CLEAN_WINDOW_FRAMES, t.lba)
  {
    hide FrameAt, RelFrames, IsLongestPregap, IsHighestIndex, IsQIndex1, CountCrc;
    maxRel, maxIndex, qIndex1, crcOk, crcBad := 0, 0, -1, 0, 0;
    var scanEnd := base + count;
    TalliesStart(s, t);
    for lba := t.lba - PREGAP_SCAN_FRAMES to t.lba + 1
      invariant IsLongestPregap(s, t, Min(lba, t.lba), maxRel)
      invariant IsHighestIndex(s, t, lba, maxIndex)
      invariant IsQIndex1(s, t, lba, qIndex1)
      invariant crcOk == CountCrc(s, true, t.lba - CLEAN_WINDOW_FRAMES, Min(lba, t.lba))
      invariant crcBad == CountCrc(s, false, t.lba - CLEAN_WINDOW_FRAMES, Min(lba, t.lba))
    {
      LongestPregapStep(s, t, lba, maxRel);
      HighestIndexStep(s, t, lba, maxIndex);
      QIndex1Step(s, t, lba, qIndex1);
      CountStep(s, true, t.lba - CLEAN_WINDOW_FRAMES, lba);
      CountStep(s, false, t.lba - CLEAN_WINDOW_FRAMES, lba);
      if lba < base || lba >= scanEnd {
        continue;
      }
      var q := ReadFrame(raw, lba - base);
      assert q == s.At(lba);
      var inClean := t.lba - CLEAN_WINDOW_FRAMES <= lba < t.lba;
      if !q.crcOk {
        if inClean {
          crcBad := crcBad + 1;
        }
        continue;
      }
      if inClean {
        crcOk := crcOk + 1;
      }
      if q.adr != ADR_POSITION {
        continue;
      }
      if q.tno == t.number {
        if q.index > maxIndex {
          maxIndex := q.index;
        }
        if q.index == 0 && lba < t.lba {
          var r := RelFrames(q);
          if r > maxRel {
            maxRel := r;
          }
        } else if q.index == 1 {
          if qIndex1 < 0 || lba < qIndex1 {
            qIndex1 := lba;
          }
        }
      }
    }
  }

  function Min(a: int, b: int): int { if a < b then a else b }

  lemma TalliesStart(s: Scan, t: Track)
    ensures
      var lo := t.lba - PREGAP_SCAN_FRAMES;
      && IsLongestPregap(s, t, lo, 0) && IsHighestIndex(s, t, lo, 0) && IsQIndex1(s, t, lo, -1)
      && CountCrc(s, true, t.lba - CLEAN_WINDOW_FRAMES, lo) == 0
      && CountCrc(s, false, t.lba - CLEAN_WINDOW_FRAMES, lo) == 0
  {}

  lemma LongestPregapStep(s: Scan, t: Track, lba: int, m: nat)
    requires t.lba - PREGAP_SCAN_FRAMES <= lba && IsLongestPregap(s, t, Min(lba, t.lba), m)
    ensures IsLongestPregap(s, t, Min(lba + 1, t.lba),
      if SeesPregap(s, t, lba + 1, lba) && RelFrames(s.At(lba)) > m then RelFrames(s.At(lba)) else m)
  {
    hide RelFrames;
    var m' := if SeesPregap(s, t, lba + 1, lba) && RelFrames(s.At(lba)) > m then RelFrames(s.At(lba)) else m;
    if m' == m && m > 0 {
      var k :| SeesPregap(s, t, Min(lba, t.lba), k) && RelFrames(s.At(k)) == m;
      assert SeesPregap(s, t, Min(lba + 1, t.lba), k);
    } else if m' > 0 {
      assert SeesPregap(s, t, Min(lba + 1, t.lba), lba);
    }
  }

  lemma HighestIndexStep(s: Scan, t: Track, lba: int, m: nat)
    requires t.lba - PREGAP_SCAN_FRAMES <= lba && IsHighestIndex(s, t, lba, m)
    ensures IsHighestIndex(s, t, lba + 1,
      if SeesTrack(s, t, lba + 1, lba) && s.At(lba).index > m then s.At(lba).index else m)
  {
    var m' := if SeesTrack(s, t, lba + 1, lba) && s.At(lba).index > m then s.At(lba).index else m;
    if m' == m && m > 0 {
      var k :| SeesTrack(s, t, lba, k) && s.At(k).index == m;
      assert SeesTrack(s, t, lba + 1, k);
    } else if m' > 0 {
      assert SeesTrack(s, t, lba + 1, lba);
    }
  }

  lemma QIndex1Step(s: Scan, t: Track, lba: int, x: int)
    requires t.lba - PREGAP_SCAN_FRAMES <= lba && IsQIndex1(s, t, lba, x)
    ensures IsQIndex1(s, t, lba + 1, if SeesIndex1(s, t, lba + 1, lba) && (x < 0 || lba < x) then lba else x)
  {
    var hi := lba + 1;
    forall k
      ensures SeesIndex1(s, t, hi, k) <==> SeesIndex1(s, t, lba, k) || (k == lba && SeesIndex1(s, t, hi, lba))
    {}
  }

  lemma CountStep(s: Scan, ok: bool, lo: int, lba: int)
    ensures CountCrc(s, ok, lo, lba + 1) ==
      CountCrc(s, ok, lo, lba) + (if lo <= lba && s.Holds(lba) && s.At(lba).crcOk == ok then 1 else 0)
  {}

  /** Second pass: walk down from the boundary to the first frame that decides. */
  method WalkDown(raw: seq<Crc.Byte>, ghost s: Scan, base: int, count: nat, l: int) returns (clean: bool)
    requires |raw| == RAW_BYTES * count && s == Parsed(raw, base, count) && Covered(s, l)
    ensures clean <==> CleanBoundary(s, l)
  {
    hide FrameAt;
    var lba := l - 1;
    while lba >= l - PREGAP_SCAN_FRAMES && lba >= base
      invariant lba < l
      invariant forall k {:trigger s.At(k)} :: lba < k < l && s.Holds(k) ==>
        s.At(k).crcOk && s.At(k).adr != ADR_POSITION
      decreases lba - base
    {
      var q := ReadFrame(raw, lba - base);
      assert q == s.At(lba);
      if !q.crcOk {
        return false;
      }
      if q.adr == ADR_POSITION {
        assert CleanAt(s, l, lba);
        return true;
      }
      lba := lba - 1;
    }
    return false;
  }

  method DecodeTrack(raw: seq<Crc.Byte>, ghost s: Scan, base: int, count: nat, t: Track) returns (e: Entry)
    requires |raw| == RAW_BYTES * count && s == Parsed(raw, base, count)
    ensures Describes(s, t, e)
  {
    if base > t.lba - 1 || base + count <= t.lba - 1 {
      return Entry(t.number, NoData, 0, t.lba, -1, -1, 0, 0, 0);
    }
    hide FrameAt, Parsed, IsLongestPregap, IsHighestIndex, IsQIndex1, CountCrc, CleanBoundary, Describes;
    var maxRel, maxIndex, qIndex1, crcOk, crcBad := ScanApproach(raw, s, base, count, t);
    if maxRel > 0 {
      e := Entry(t.number, Present, maxIndex, t.lba, qIndex1, t.lba - maxRel, maxRel, crcOk, crcBad);
    } else {
      var clean := WalkDown(raw, s, base, count, t.lba);
      e := Entry(t.number, if clean then None else Unknown, maxIndex, t.lba, qIndex1, -1, 0, crcOk, crcBad);
    }
    CoveredIsDescribed(s, t, e);
  }

  lemma CoveredIsDescribed(s: Scan, t: Track, e: Entry)
    requires Covered(s, t.lba) && e.track == t.number && e.index1Lba == t.lba
    requires IsLongestPregap(s, t, t.lba, e.pregapFrames)
    requires e.pregapState == (if e.pregapFrames > 0 then Present else if CleanBoundary(s, t.lba) then None
      else Unknown)
    requires e.index0Lba == (if e.pregapFrames > 0 then t.lba - e.pregapFrames else -1)
    requires IsHighestIndex(s, t, t.lba + 1, e.maxIndex) && IsQIndex1(s, t, t.lba + 1, e.qIndex1Lba)
    requires e.crcOk == CountCrc(s, true, t.lba - CLEAN_WINDOW_FRAMES, t.lba)
    requires e.crcBad == CountCrc(s, false, t.lba - CLEAN_WINDOW_FRAMES, t.lba)
    ensures Describes(s, t, e)
  {
    hide IsLongestPregap, IsHighestIndex, IsQIndex1, CountCrc, CleanBoundary;
  }

  /** accudisc_index_map_decode: one entry per track, as many as fit. */
  method Decode(raw: seq<Crc.Byte>, base: int, count: nat, toc: seq<Track>, out: array<Entry>, maxOut: nat)
    returns (written: nat)
    requires |raw| == RAW_BYTES * count && maxOut <= out.Length
    modifies out
    ensures written == if |toc| < maxOut then |toc| else maxOut
    ensures forall i: nat {:trigger out[i]} :: i < written ==> Describes(Parsed(raw, base, count), toc[i], out[i])
    ensures out[written..] == old(out[written..])
  {
    hide Describes;
    written := 0;
    while written < |toc| && written < maxOut
      invariant written <= |toc| && written <= maxOut
      invariant forall i: nat {:trigger out[i]} :: i < written ==> Describes(Parsed(raw, base, count), toc[i], out[i])
      invariant out[written..] == old(out[written..])
    {
      var e := DecodeTrack(raw, Parsed(raw, base, count), base, count, toc[written]);
      out[written] := e;
      written := written + 1;
    }
  }

  // ---- damage never hides a pregap ------------------------------------------------------------------

  /** The read lost nothing but CRCs: every frame is the recorded one or visibly bad. */
  ghost predicate DamagedCopy(truth: Scan, seen: Scan) {
    && truth.base == seen.base && |truth.frames| == |seen.frames|
    && forall k :: 0 <= k < |seen.frames| ==> seen.frames[k] == truth.frames[k] || !seen.frames[k].crcOk
  }

  /** A recorded pregap of p frames: they abut the boundary, count down to it, at least one is a
      position frame, and nothing before them in the window claims index 0 of the track. */
  ghost predicate HasPregap(truth: Scan, t: Track, p: nat) {
    && 1 <= p <= 400 && truth.base <= t.lba - p && t.lba <= truth.End()
    && (forall lba {:trigger truth.At(lba)} :: t.lba - p <= lba < t.lba ==>
          truth.At(lba).crcOk &&
          (truth.At(lba).adr == ADR_POSITION ==>
             PregapFrame(truth.At(lba), t.number) && RelFrames(truth.At(lba)) == t.lba - lba))
    && (exists lba {:trigger truth.At(lba)} :: t.lba - p <= lba < t.lba && truth.At(lba).adr == ADR_POSITION)
    && (forall lba {:trigger truth.At(lba)} :: InApproach(truth, t.lba, lba) && lba < t.lba - p ==>
          !PregapFrame(truth.At(lba), t.number))
  }

  /** A recorded gapless boundary: no index-0 frame of the track in the window. */
  ghost predicate IsGapless(truth: Scan, t: Track) {
    forall lba {:trigger truth.At(lba)} :: InApproach(truth, t.lba, lba) ==> !PregapFrame(truth.At(lba), t.number)
  }

  lemma DamageKeepsGoodFrames(truth: Scan, seen: Scan, lba: int)
    requires DamagedCopy(truth, seen) && seen.Holds(lba)
    ensures truth.Holds(lba)
    ensures seen.At(lba) == truth.At(lba) || !seen.At(lba).crcOk
  {}

  /** For every subset of frames lost, a recorded pregap is reported present or unknown, never
      absent: present exactly when one of its position frames survives, and then with a length
      that never exceeds the recorded one. */
  lemma DamageNeverHidesAPregap(truth: Scan, seen: Scan, t: Track, p: nat, e: Entry)
    requires DamagedCopy(truth, seen) && HasPregap(truth, t, p) && Describes(seen, t, e)
    ensures e.pregapState == Present || e.pregapState == Unknown
    ensures e.pregapState == Present ==>
      1 <= e.pregapFrames <= p && e.index0Lba == t.lba - e.pregapFrames >= t.lba - p
    ensures e.pregapState == Present <==>
      exists lba {:trigger seen.At(lba)} :: t.lba - p <= lba < t.lba && IsPosition(seen.At(lba))
  {
    hide RelFrames, IsHighestIndex, IsQIndex1, CountCrc;
    SurvivorIsSeen(truth, seen, t, p);
    if e.pregapFrames > 0 {
      var lba :| SeesPregap(seen, t, t.lba, lba) && RelFrames(seen.At(lba)) == e.pregapFrames;
      DamageKeepsGoodFrames(truth, seen, lba);
      assert truth.At(lba) == seen.At(lba);
    } else if CleanBoundary(seen, t.lba) {
      var lba :| CleanAt(seen, t.lba, lba);
      DamageKeepsGoodFrames(truth, seen, lba);
      var w :| t.lba - p <= w < t.lba && truth.At(w).adr == ADR_POSITION;
      DamageKeepsGoodFrames(truth, seen, w);
      if lba >= t.lba - p && !SeesPregap(seen, t, t.lba, lba) {
        assert false;
      }
    }
  }

  lemma SurvivorIsSeen(truth: Scan, seen: Scan, t: Track, p: nat)
    requires DamagedCopy(truth, seen) && HasPregap(truth, t, p)
    ensures forall lba {:trigger seen.At(lba)} :: t.lba - p <= lba < t.lba && IsPosition(seen.At(lba)) ==>
      SeesPregap(seen, t, t.lba, lba) && RelFrames(seen.At(lba)) == t.lba - lba
  {
    hide RelFrames;
    forall lba | t.lba - p <= lba < t.lba && IsPosition(seen.At(lba))
      ensures SeesPregap(seen, t, t.lba, lba) && RelFrames(seen.At(lba)) == t.lba - lba
    {
      DamageKeepsGoodFrames(truth, seen, lba);
      assert truth.At(lba) == seen.At(lba);
    }
  }

  /** The reported length is exact whenever the first frame of the pregap is an intact position
      frame; and generally it is the distance of the earliest intact one. */
  lemma IntactTransitionGivesExactLength(truth: Scan, seen: Scan, t: Track, p: nat, e: Entry, first: int)
    requires DamagedCopy(truth, seen) && HasPregap(truth, t, p) && Describes(seen, t, e)
    requires t.lba - p <= first < t.lba && IsPosition(seen.At(first))
    requires forall k {:trigger seen.At(k)} :: t.lba - p <= k < first ==> !IsPosition(seen.At(k))
    ensures e.pregapState == Present && e.pregapFrames == t.lba - first
  {
    hide RelFrames, IsHighestIndex, IsQIndex1, CountCrc;
    DamageKeepsGoodFrames(truth, seen, first);
    assert truth.At(first) == seen.At(first);
    assert SeesPregap(seen, t, t.lba, first);
    var lba :| SeesPregap(seen, t, t.lba, lba) && RelFrames(seen.At(lba)) == e.pregapFrames;
    DamageKeepsGoodFrames(truth, seen, lba);
    assert truth.At(lba) == seen.At(lba);
  }

  /** A gapless boundary is never reported as having a pregap, whatever was lost. */
  lemma GaplessIsNeverPresent(truth: Scan, seen: Scan, t: Track, e: Entry)
    requires DamagedCopy(truth, seen) && IsGapless(truth, t) && Describes(seen, t, e)
    ensures e.pregapState != Present
  {
    hide RelFrames, IsHighestIndex, IsQIndex1, CountCrc;
    if Covered(seen, t.lba) && e.pregapFrames > 0 {
      var lba :| SeesPregap(seen, t, t.lba, lba) && RelFrames(seen.At(lba)) == e.pregapFrames;
      DamageKeepsGoodFrames(truth, seen, lba);
    }
  }

  /** The boundary was scanned and its recording has no pregap: the frames of the approach are all
      good and none of them claims index 0 of the track. */
  ghost predicate RecordedGapless(truth: Scan, t: Track) {
    && truth.base < t.lba <= truth.base + |truth.frames|
    && forall k: nat {:trigger truth.frames[k]} :: k < t.lba - truth.base && t.lba - 400 <= truth.base + k ==>
         && truth.frames[k].crcOk
         && !(truth.frames[k].adr == ADR_POSITION && truth.frames[k].tno == t.number && truth.frames[k].index == 0)
  }

  /** When NONE is reported: of a gapless boundary with its last position frame at w, exactly when every
      frame from w to the boundary survived. Anything less leaves it UNKNOWN. */
  lemma GaplessIsNoneIff(truth: Scan, seen: Scan, t: Track, e: Entry, w: nat)
    requires DamagedCopy(truth, seen) && RecordedGapless(truth, t) && Describes(seen, t, e)
    requires t.lba - 400 <= truth.base + w < t.lba && truth.frames[w].adr == ADR_POSITION
    requires forall k: nat {:trigger truth.frames[k]} :: w < k < t.lba - truth.base ==>
      truth.frames[k].adr != ADR_POSITION
    ensures e.pregapState == None <==>
      forall k: nat {:trigger seen.frames[k]} :: w <= k < t.lba - truth.base ==> seen.frames[k].crcOk
    ensures e.pregapState == None || e.pregapState == Unknown
  {
    hide RelFrames, IsHighestIndex, IsQIndex1, CountCrc;
    NothingIsPresent(truth, seen, t, e);
    if forall k: nat {:trigger seen.frames[k]} :: w <= k < t.lba - truth.base ==> seen.frames[k].crcOk {
      assert CleanAt(seen, t.lba, truth.base + w);
    } else {
      var k: nat :| w <= k < t.lba - truth.base && !seen.frames[k].crcOk;
      assert !seen.At(truth.base + k).crcOk;
      forall lba
        ensures !CleanAt(seen, t.lba, lba)
      {
        if seen.Holds(lba) {
          DamageKeepsGoodFrames(truth, seen, lba);
        }
      }
    }
  }

  /** Without a position frame in the approach nothing says that the boundary is clean. */
  lemma GaplessWithoutPositionsIsUnknown(truth: Scan, seen: Scan, t: Track, e: Entry)
    requires DamagedCopy(truth, seen) && RecordedGapless(truth, t) && Describes(seen, t, e)
    requires forall k: nat {:trigger truth.frames[k]} ::
      k < t.lba - truth.base && t.lba - 400 <= truth.base + k ==> truth.frames[k].adr != ADR_POSITION
    ensures e.pregapState == Unknown
  {
    hide RelFrames, IsHighestIndex, IsQIndex1, CountCrc;
    NothingIsPresent(truth, seen, t, e);
    forall lba
      ensures !CleanAt(seen, t.lba, lba)
    {
      if seen.Holds(lba) {
        DamageKeepsGoodFrames(truth, seen, lba);
      }
    }
  }

  lemma NothingIsPresent(truth: Scan, seen: Scan, t: Track, e: Entry)
    requires DamagedCopy(truth, seen) && RecordedGapless(truth, t) && Describes(seen, t, e)
    ensures Covered(seen, t.lba) && e.pregapFrames == 0
  {
    hide RelFrames, IsHighestIndex, IsQIndex1, CountCrc;
    forall lba
      ensures !SeesPregap(seen, t, t.lba, lba)
    {
      if seen.Holds(lba) {
        DamageKeepsGoodFrames(truth, seen, lba);
      }
    }
  }

  // ---- the tallies and the cross-check field ----------------------------------------------------------

  /** CRC-good position frames among the sectors from lo up to hi. */
  ghost function CountPositions(s: Scan, lo: int, hi: int): nat
    decreases hi - lo
  {
    if hi <= lo then 0
    else CountPositions(s, lo, hi - 1) + (if s.Holds(hi - 1) && IsPosition(s.At(hi - 1)) then 1 else 0)
  }

  lemma {:induction false} PositionsAreAmongTheGood(s: Scan, lo: int, hi: int)
    ensures CountPositions(s, lo, hi) <= CountCrc(s, true, lo, hi)
    ensures CountPositions(s, lo, hi) == CountCrc(s, true, lo, hi) <==>
      forall lba {:trigger s.At(lba)} :: lo <= lba < hi && s.Holds(lba) && s.At(lba).crcOk ==>
        s.At(lba).adr == ADR_POSITION
    decreases hi - lo
  {
    if lo < hi {
      PositionsAreAmongTheGood(s, lo, hi - 1);
    }
  }

  /** The good-frame tally is the number of CRC-good position frames exactly when no good frame of
      another kind lies in the window. */
  lemma TallyIsOfPositionFramesIff(s: Scan, t: Track, e: Entry)
    requires Covered(s, t.lba) && Describes(s, t, e)
    ensures
      e.crcOk == CountPositions(s, t.lba - 150, t.lba) <==>
      forall lba {:trigger s.At(lba)} ::
        t.lba - 150 <= lba < t.lba && s.Holds(lba) && s.At(lba).crcOk ==> s.At(lba).adr == ADR_POSITION
  {
    PositionsAreAmongTheGood(s, t.lba - 150, t.lba);
  }

  /** Every frame of the window that was scanned is counted once, as good or as bad. */
  lemma EveryFrameIsTallied(s: Scan, t: Track, e: Entry)
    requires s.base < t.lba <= s.base + |s.frames| && Describes(s, t, e)
    ensures e.crcOk + e.crcBad == if t.lba - s.base < 150 then t.lba - s.base else 150
  {
    TalliesAddUp(s, t.lba - 150, t.lba);
  }

  lemma {:induction false} TalliesAddUp(s: Scan, lo: int, hi: int)
    requires hi <= s.base + |s.frames|
    ensures
      var from := if lo < s.base then s.base else lo;
      CountCrc(s, true, lo, hi) + CountCrc(s, false, lo, hi) == if hi < from then 0 else hi - from
    decreases hi - lo
  {
    if lo < hi {
      TalliesAddUp(s, lo, hi - 1);
    }
  }

  /** The cross-check field holds the first trusted index-1 sector exactly when that sector is not
      negative or is the only one: a stored negative sector is taken for nothing stored. */
  lemma CrossCheckIsFirstSightingIff(s: Scan, t: Track, hi: int, e: Entry, first: int)
    requires Covered(s, t.lba) && Describes(s, t, e) && hi == t.lba + 1
    requires SeesIndex1(s, t, hi, first)
    requires forall k :: SeesIndex1(s, t, hi, k) ==> first <= k
    ensures e.qIndex1Lba == first <==> first >= 0 || forall k :: SeesIndex1(s, t, hi, k) ==> k == first
  {
    hide IsLongestPregap, IsHighestIndex, CountCrc, CleanBoundary;
  }

  /** Two index-1 frames before sector 0: the field names the second. */
  lemma NegativeSightingIsOverwritten(e: Entry)
    requires
      var q := Frame(0, ADR_POSITION, true, 1, 1, 0, 0, 0, 0, 0, 0, [], []);
      Describes(Scan(-2, [q, q]), Track(1, 0), e)
    ensures e.qIndex1Lba == -1
  {
    hide IsLongestPregap, IsHighestIndex, CountCrc, CleanBoundary;
    var q := Frame(0, ADR_POSITION, true, 1, 1, 0, 0, 0, 0, 0, 0, [], []);
    var s := Scan(-2, [q, q]);
    assert SeesIndex1(s, Track(1, 0), 1, -2);
    assert SeesIndex1(s, Track(1, 0), 1, -1);
  }
}

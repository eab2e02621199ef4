/** Where the subchannel field lies in the records of a combined read, judged by counting good Q
    frames at the two possible places, and the rewrite that brings it to the standard one. */
module Layout {
  import opened Common
  import opened Crc16
  import SubQ

  const AUDIO := 2352
  const SUB_RAW := 96
  const SUB_Q := 16
  const MISFRAME_SPAN := 16
  const MISFRAME_MIN_SECTORS := 4

  datatype Order = Unknown | Mmc | SubFirst

  datatype Verdict = Verdict(layout: Order, hitsMmc: nat, hitsSub: nat, misframed: nat)

  predicate SubLenOk(subLen: int) {
    subLen == SUB_RAW || subLen == SUB_Q
  }

  // ---- counting evidence ---------------------------------------------------------------------------

  /** A CRC-valid Q frame in a subchannel field: de-interleaved from raw P-W, or the first twelve
      bytes of formatted Q. */
  predicate QValid(field: seq<Byte>)
    requires |field| == SUB_RAW || |field| == SUB_Q
  {
    if |field| == SUB_RAW then Accepts(SubQ.QBytes(field)) else Accepts(field[..12])
  }

  /** Offset of a field of record s. */
  function At(s: nat, stride: nat, subOff: nat): nat {
    s * stride + subOff
  }

  lemma AtMonotone(s: nat, t: nat, stride: nat, subOff: nat)
    requires s <= t
    ensures At(s, stride, subOff) <= At(t, stride, subOff)
  {
    assert s * stride <= t * stride;
  }

  /** Record s at the given stride carries a valid Q frame, and lies wholly in the buffer. */
  predicate Hit(buf: seq<Byte>, s: nat, stride: nat, subOff: nat, subLen: nat)
    requires SubLenOk(subLen)
  {
    var at := At(s, stride, subOff);
    at + subLen <= |buf| && QValid(buf[at..at + subLen])
  }

  ghost function HitCount(buf: seq<Byte>, n: nat, stride: nat, subOff: nat, subLen: nat): (h: nat)
    requires SubLenOk(subLen)
    ensures h <= n
  {
    if n == 0 then 0
    else HitCount(buf, n - 1, stride, subOff, subLen) + (if Hit(buf, n - 1, stride, subOff, subLen) then 1 else 0)
  }

  /** Once a record runs past the buffer every later one does. */
  lemma {:induction false} NoHitsPastTheEnd(buf: seq<Byte>, n: nat, s: nat, stride: nat, subOff: nat, subLen: nat)
    requires SubLenOk(subLen) && s <= n && At(s, stride, subOff) + subLen > |buf|
    ensures HitCount(buf, n, stride, subOff, subLen) == HitCount(buf, s, stride, subOff, subLen)
  {
    hide QValid, At;
    if s < n {
      NoHitsPastTheEnd(buf, n - 1, s, stride, subOff, subLen);
      AtMonotone(s, n - 1, stride, subOff);
    }
  }

  method CheckQ(field: seq<Byte>) returns (valid: bool)
    requires |field| == SUB_RAW || |field| == SUB_Q
    ensures valid <==> QValid(field)
  {
    var q := new Byte[12];
    if |field| == SUB_RAW {
      SubQ.ExtractQ(field, q);
    } else {
      forall i | 0 <= i < 12 {
        q[i] := field[i];
      }
      assert q[..] == field[..12];
    }
    valid := SubQ.Parse(q[..]).1.crcOk;
  }

  /** adsc_layout_q_hits. */
  method QHits(buf: seq<Byte>, nsec: nat, stride: nat, subOff: nat, subLen: nat) returns (hits: nat)
    ensures SubLenOk(subLen) ==> hits == HitCount(buf, nsec, stride, subOff, subLen)
    ensures !SubLenOk(subLen) ==> hits == 0
  {
    hide QValid, At;
    hits := 0;
    if !SubLenOk(subLen) {
      return;
    }
    for s := 0 to nsec
      invariant hits == HitCount(buf, s, stride, subOff, subLen)
    {
      var at := At(s, stride, subOff);
      if at + subLen > |buf| {
        NoHitsPastTheEnd(buf, nsec, s, stride, subOff, subLen);
        return;
      }
      var valid := CheckQ(buf[at..at + subLen]);
      if valid {
        hits := hits + 1;
      }
    }
  }

  /** One position wins with hits of its own and at most a third as many at the other. */
  function Winner(mmc: nat, sub: nat): Order {
    if mmc > 0 && sub * 3 <= mmc then Mmc
    else if sub > 0 && mmc * 3 <= sub then SubFirst
    else Unknown
  }

  /** The two positions cannot both win, and exchanging the evidence exchanges the verdict. */
  lemma WinnerIsSymmetric(mmc: nat, sub: nat)
    ensures Winner(sub, mmc) == match Winner(mmc, sub) case Unknown => Unknown case Mmc => SubFirst case SubFirst => Mmc
  {}

  // ---- the verdict -----------------------------------------------------------------------------------

  /** A displaced stride explains the buffer: at least two, and at least half, of the records after
      the first verify there. */
  ghost predicate Explains(buf: seq<Byte>, nsec: nat, stride: nat, subOff: nat, subLen: nat)
    requires SubLenOk(subLen) && nsec >= 1
  {
    var h := HitCount(buf, nsec, stride, subOff, subLen) - (if Hit(buf, 0, stride, subOff, subLen) then 1 else 0);
    h * 2 >= nsec - 1 && h >= 2
  }

  ghost predicate ExplainsEither(buf: seq<Byte>, nsec: nat, stride: nat, c2Len: nat, subLen: nat)
    requires SubLenOk(subLen) && nsec >= 1
  {
    Explains(buf, nsec, stride, AUDIO + c2Len, subLen) || Explains(buf, nsec, stride, AUDIO, subLen)
  }

  predicate Suspicious(nsec: nat, hitsMmc: nat, hitsSub: nat) {
    nsec >= MISFRAME_MIN_SECTORS && hitsMmc * 2 < nsec && hitsSub * 2 < nsec
  }

  ghost predicate IsVerdict(buf: seq<Byte>, nsec: nat, sectorLen: nat, c2Len: nat, v: Verdict) {
    var subLen := sectorLen - AUDIO - c2Len;
    if !SubLenOk(subLen) then v == Verdict(Unknown, 0, 0, 0)
    else
      && v.hitsMmc == HitCount(buf, nsec, sectorLen, AUDIO + c2Len, subLen)
      && v.hitsSub == HitCount(buf, nsec, sectorLen, AUDIO, subLen)
      && (v.misframed == 0 ==> v.layout == Winner(v.hitsMmc, v.hitsSub))
      && (v.misframed != 0 ==>
            && v.layout == Unknown && Suspicious(nsec, v.hitsMmc, v.hitsSub)
            && sectorLen < v.misframed <= sectorLen + MISFRAME_SPAN
            && ExplainsEither(buf, nsec, v.misframed, c2Len, subLen)
            && forall stride: nat {:trigger ExplainsEither(buf, nsec, stride, c2Len, subLen)} ::
                 sectorLen < stride < v.misframed ==> !ExplainsEither(buf, nsec, stride, c2Len, subLen))
      && (v.misframed == 0 && Suspicious(nsec, v.hitsMmc, v.hitsSub) ==>
            forall stride: nat {:trigger ExplainsEither(buf, nsec, stride, c2Len, subLen)} ::
              sectorLen < stride <= sectorLen + MISFRAME_SPAN ==> !ExplainsEither(buf, nsec, stride, c2Len, subLen))
  }

  lemma {:induction false} FirstHitCounts(buf: seq<Byte>, n: nat, stride: nat, subOff: nat, subLen: nat)
    requires SubLenOk(subLen) && n >= 1
    ensures HitCount(buf, n, stride, subOff, subLen) >= (if Hit(buf, 0, stride, subOff, subLen) then 1 else 0)
  {
    hide Hit;
    if n > 1 {
      FirstHitCounts(buf, n - 1, stride, subOff, subLen);
    }
  }

  /** Records after the first that verify at a displaced stride. */
  method TailHits(buf: seq<Byte>, nsec: nat, stride: nat, subOff: nat, subLen: nat) returns (h: nat)
    requires SubLenOk(subLen) && nsec >= 1 && subOff + subLen <= |buf|
    ensures h == HitCount(buf, nsec, stride, subOff, subLen) - (if Hit(buf, 0, stride, subOff, subLen) then 1 else 0)
  {
    hide QValid, HitCount;
    var all := QHits(buf, nsec, stride, subOff, subLen);
    var first := CheckQ(buf[subOff..subOff + subLen]);
    FirstHitCounts(buf, nsec, stride, subOff, subLen);
    assert 0 * stride == 0;
    h := all - (if first then 1 else 0);
  }

  /** One step of the displaced-stride search. */
  method TryStride(buf: seq<Byte>, nsec: nat, stride: nat, c2Len: nat, subLen: nat) returns (found: bool)
    requires SubLenOk(subLen) && nsec >= 1 && AUDIO + c2Len + subLen <= |buf|
    ensures found <==> ExplainsEither(buf, nsec, stride, c2Len, subLen)
  {
    hide Hit, HitCount;
    var h := TailHits(buf, nsec, stride, AUDIO + c2Len, subLen);
    if h * 2 >= nsec - 1 && h >= 2 {
      return true;
    }
    h := TailHits(buf, nsec, stride, AUDIO, subLen);
    found := h * 2 >= nsec - 1 && h >= 2;
  }

  /** adsc_layout_inspect. */
  method Inspect(buf: seq<Byte>, nsec: nat, sectorLen: nat, c2Len: nat) returns (v: Verdict)
    requires |buf| == nsec * sectorLen
    ensures IsVerdict(buf, nsec, sectorLen, c2Len, v)
  {
    hide Hit, HitCount, ExplainsEither;
    v := Verdict(Unknown, 0, 0, 0);
    if sectorLen < AUDIO + c2Len {
      return;
    }
    var subLen := sectorLen - AUDIO - c2Len;
    if !SubLenOk(subLen) {
      return;
    }
    var hitsMmc := QHits(buf, nsec, sectorLen, AUDIO + c2Len, subLen);
    var hitsSub := QHits(buf, nsec, sectorLen, AUDIO, subLen);
    v := Verdict(Winner(hitsMmc, hitsSub), hitsMmc, hitsSub, 0);
    var best := if hitsMmc > hitsSub then hitsMmc else hitsSub;
    if nsec < MISFRAME_MIN_SECTORS || best * 2 >= nsec {
      return;
    }
    AtLeastOne(nsec, sectorLen);
    for stride := sectorLen + 1 to sectorLen + MISFRAME_SPAN + 1
      invariant forall k: nat {:trigger ExplainsEither(buf, nsec, k, c2Len, subLen)} ::
        sectorLen < k < stride ==> !ExplainsEither(buf, nsec, k, c2Len, subLen)
    {
      var found := TryStride(buf, nsec, stride, c2Len, subLen);
      if found {
        return v.(misframed := stride, layout := Unknown);
      }
    }
  }

  lemma AtLeastOne(n: nat, len: nat)
    requires n >= 1
    ensures n * len >= len
  {}

  // ---- the rewrite --------------------------------------------------------------------------------------

  /** A record of the given shape. */
  predicate IsRecord(rec: seq<Byte>, c2Len: nat, subLen: nat) {
    |rec| == AUDIO + c2Len + subLen
  }

  /** AUDIO | SUB | C2 to AUDIO | C2 | SUB. */
  function Rotate(rec: seq<Byte>, c2Len: nat, subLen: nat): (r: seq<Byte>)
    requires IsRecord(rec, c2Len, subLen)
    ensures |r| == |rec|
  {
    rec[..AUDIO] + rec[AUDIO + subLen..] + rec[AUDIO..AUDIO + subLen]
  }

  /** Nothing is lost: rotating with the field lengths exchanged undoes a rotation. */
  lemma RotatingBackRestores(rec: seq<Byte>, c2Len: nat, subLen: nat)
    requires IsRecord(rec, c2Len, subLen)
    ensures Rotate(Rotate(rec, c2Len, subLen), subLen, c2Len) == rec
    ensures Rotate(rec, c2Len, subLen)[..AUDIO] == rec[..AUDIO]
  {}

  function Record(buf: seq<Byte>, s: nat, len: nat): (rec: seq<Byte>)
    requires At(s, len, len) <= |buf|
    ensures |rec| == len
  {
    buf[At(s, len, 0)..At(s, len, len)]
  }

  /** Every one of the first n records rotated, the rest of the buffer as it was. */
  function RotateAll(buf: seq<Byte>, n: nat, c2Len: nat, subLen: nat): (r: seq<Byte>)
    requires At(n, AUDIO + c2Len + subLen, 0) <= |buf|
    ensures |r| == |buf|
  {
    if n == 0 then buf
    else
      var len := AUDIO + c2Len + subLen;
      AtMonotone(n - 1, n, len, 0);
      AtStep(n - 1, len);
      RotateAll(buf, n - 1, c2Len, subLen)[..At(n - 1, len, 0)]
      + Rotate(Record(buf, n - 1, len), c2Len, subLen)
      + buf[At(n, len, 0)..]
  }

  lemma AtStep(s: nat, len: nat)
    ensures At(s, len, len) == At(s + 1, len, 0) == At(s, len, 0) + len
  {
    assert (s + 1) * len == s * len + len;
  }

  /** The record at `at` rotated and nothing else changed. */
  ghost predicate RotatedAt(was: seq<Byte>, now: seq<Byte>, at: nat, c2Len: nat, subLen: nat) {
    var end := at + AUDIO + c2Len + subLen;
    && |was| == |now| && end <= |was|
    && now[..at] == was[..at] && now[at..end] == Rotate(was[at..end], c2Len, subLen) && now[end..] == was[end..]
  }

  /** n bytes moved down to `to`. */
  ghost predicate Moved(was: seq<Byte>, now: seq<Byte>, to: nat, shift: nat, n: nat) {
    && |now| == |was| && to + shift + n <= |was|
    && (forall k :: 0 <= k < to || to + n <= k < |was| ==> now[k] == was[k])
    && (forall k :: to <= k < to + n ==> now[k] == was[k + shift])
  }

  /** Bytes written at `at`. */
  ghost predicate Written(was: seq<Byte>, now: seq<Byte>, at: nat, bytes: seq<Byte>) {
    && |now| == |was| && at + |bytes| <= |was|
    && (forall k :: 0 <= k < at || at + |bytes| <= k < |was| ==> now[k] == was[k])
    && (forall k :: at <= k < at + |bytes| ==> now[k] == bytes[k - at])
  }

  /** memmove of n bytes to a lower, possibly overlapping, position. */
  method MoveDown(buf: array<Byte>, to: nat, shift: nat, n: nat)
    requires to + shift + n <= buf.Length
    modifies buf
    ensures Moved(old(buf[..]), buf[..], to, shift, n)
  {
    ghost var was := buf[..];
    for i := 0 to n
      invariant forall k {:trigger buf[k]} :: 0 <= k < to || to + i <= k < buf.Length ==> buf[k] == was[k]
      invariant forall k {:trigger buf[k]} :: to <= k < to + i ==> buf[k] == was[k + shift]
    {
      buf[to + i] := buf[to + shift + i];
    }
  }

  method PutAt(buf: array<Byte>, at: nat, bytes: seq<Byte>)
    requires at + |bytes| <= buf.Length
    modifies buf
    ensures Written(old(buf[..]), buf[..], at, bytes)
  {
    for i := 0 to |bytes|
      invariant forall k {:trigger buf[k]} :: 0 <= k < at || at + i <= k < buf.Length ==> buf[k] == old(buf[k])
      invariant forall k {:trigger buf[k]} :: at <= k < at + i ==> buf[k] == bytes[k - at]
    {
      buf[at + i] := bytes[i];
    }
  }

  /** adsc_layout_to_mmc on one record, in place: save the subchannel, move the C2 field down over
      it, put the subchannel behind. */
  method RotateRecord(buf: array<Byte>, at: nat, c2Len: nat, subLen: nat)
    requires at + AUDIO + c2Len + subLen <= buf.Length && subLen <= SUB_RAW
    modifies buf
    ensures RotatedAt(old(buf[..]), buf[..], at, c2Len, subLen)
  {
    hide RotatedAt, Moved, Written;
    ghost var was := buf[..];
    var rec := at + AUDIO;
    var sub := buf[rec..rec + subLen];
    assert sub == was[rec..rec + subLen];
    MoveDown(buf, rec, subLen, c2Len);
    ghost var moved := buf[..];
    PutAt(buf, rec + c2Len, sub);
    RotatedInPlace(was, moved, buf[..], at, c2Len, subLen);
  }

  lemma MovedSlices(was: seq<Byte>, now: seq<Byte>, to: nat, shift: nat, n: nat)
    requires Moved(was, now, to, shift, n)
    ensures |now| == |was| && to + shift + n <= |was|
    ensures now[0..to] == was[0..to] && now[to + n..|was|] == was[to + n..|was|]
    ensures now[to..to + n] == was[to + shift..to + shift + n]
  {}

  lemma WrittenSlices(was: seq<Byte>, now: seq<Byte>, at: nat, bytes: seq<Byte>)
    requires Written(was, now, at, bytes)
    ensures |now| == |was| && at + |bytes| <= |was|
    ensures now[0..at] == was[0..at] && now[at + |bytes|..|was|] == was[at + |bytes|..|was|]
    ensures now[at..at + |bytes|] == bytes
  {}

  lemma RotatedInPlace(was: seq<Byte>, moved: seq<Byte>, now: seq<Byte>, at: nat, c2Len: nat, subLen: nat)
    requires at + AUDIO + c2Len + subLen <= |was|
    requires Moved(was, moved, at + AUDIO, subLen, c2Len)
    requires Written(moved, now, at + AUDIO + c2Len, was[at + AUDIO..at + AUDIO + subLen])
    ensures RotatedAt(was, now, at, c2Len, subLen)
  {
    hide Rotate, Moved, Written, RotatedAt;
    var rec, mid, end := at + AUDIO, at + AUDIO + c2Len, at + AUDIO + c2Len + subLen;
    MovedSlices(was, moved, rec, subLen, c2Len);
    WrittenSlices(moved, now, mid, was[rec..rec + subLen]);
    SharedSlice(now, moved, 0, mid, 0, at);
    SharedSlice(now, moved, 0, mid, at, rec);
    SharedSlice(now, moved, 0, mid, rec, mid);
    SharedSlice(moved, was, 0, rec, 0, at);
    SharedSlice(moved, was, 0, rec, at, rec);
    SharedSlice(moved, was, mid, |was|, end, |was|);
    JoinsUp(now, at, rec, mid, end);
    RotatedParts(was, at, c2Len, subLen);
    RotatedBySlices(was, now, at, c2Len, subLen);
  }

  lemma JoinsUp(s: seq<Byte>, a: nat, b: nat, c: nat, d: nat)
    requires a <= b <= c <= d <= |s|
    ensures s[a..d] == s[a..b] + s[b..c] + s[c..d]
  {}

  lemma RotatedBySlices(was: seq<Byte>, now: seq<Byte>, at: nat, c2Len: nat, subLen: nat)
    requires |was| == |now| && at + AUDIO + c2Len + subLen <= |was|
    requires
      var end := at + AUDIO + c2Len + subLen;
      && now[0..at] == was[0..at] && now[end..|was|] == was[end..|was|]
      && now[at..end] == Rotate(was[at..end], c2Len, subLen)
    ensures RotatedAt(was, now, at, c2Len, subLen)
  {
    hide Rotate;
  }

  lemma RotatedParts(was: seq<Byte>, at: nat, c2Len: nat, subLen: nat)
    requires at + AUDIO + c2Len + subLen <= |was|
    ensures
      var rec, end := at + AUDIO, at + AUDIO + c2Len + subLen;
      Rotate(was[at..end], c2Len, subLen) ==
        was[at..rec] + was[rec + subLen..rec + subLen + c2Len] + was[rec..rec + subLen]
  {
    var end := at + AUDIO + c2Len + subLen;
    SliceOfSlice(was, at, end, 0, AUDIO);
    SliceOfSlice(was, at, end, AUDIO, AUDIO + subLen);
    SliceOfSlice(was, at, end, AUDIO + subLen, end - at);
  }

  /** adsc_layout_to_mmc: any other record shape is left alone. */
  method ToMmc(buf: array<Byte>, nsec: nat, sectorLen: nat, c2Len: nat)
    requires At(nsec, sectorLen, 0) <= buf.Length
    modifies buf
    ensures
      var subLen := sectorLen - AUDIO - c2Len;
      buf[..] == if SubLenOk(subLen) then RotateAll(old(buf[..]), nsec, c2Len, subLen) else old(buf[..])
  {
    hide At, Rotate, RotateAll, RotatedAt;
    if sectorLen < AUDIO + c2Len {
      return;
    }
    var subLen := sectorLen - AUDIO - c2Len;
    if !SubLenOk(subLen) {
      return;
    }
    ghost var was := buf[..];
    AtMonotone(0, nsec, sectorLen, 0);
    RotateAllNone(was, c2Len, subLen);
    for s := 0 to nsec
      invariant At(s, sectorLen, 0) <= buf.Length
      invariant buf[..] == RotateAll(was, s, c2Len, subLen)
    {
      AtMonotone(s + 1, nsec, sectorLen, 0);
      AtStep(s, sectorLen);
      ghost var before := buf[..];
      RotateRecord(buf, At(s, sectorLen, 0), c2Len, subLen);
      RotateAllNext(was, before, buf[..], s, c2Len, subLen);
    }
  }

  lemma RotateAllNext(was: seq<Byte>, before: seq<Byte>, now: seq<Byte>, n: nat, c2Len: nat, subLen: nat)
    requires At(n + 1, AUDIO + c2Len + subLen, 0) <= |was|
    requires At(n, AUDIO + c2Len + subLen, 0) <= |was| && before == RotateAll(was, n, c2Len, subLen)
    requires RotatedAt(before, now, At(n, AUDIO + c2Len + subLen, 0), c2Len, subLen)
    ensures now == RotateAll(was, n + 1, c2Len, subLen)
  {
    hide At, Rotate, RotateAll;
    RotateAllStep(was, n, c2Len, subLen);
    var len := AUDIO + c2Len + subLen;
    var at := At(n, len, 0);
    SliceOfSlice(before, at, |was|, 0, len);
    SliceOfSlice(was, at, |was|, 0, len);
    SliceOfSlice(before, at, |was|, len, |was| - at);
    SliceOfSlice(was, at, |was|, len, |was| - at);
    assert before[at..|was|] == was[at..|was|];
    assert now == now[..at] + now[at..at + len] + now[at + len..];
  }

  lemma RotateAllNone(buf: seq<Byte>, c2Len: nat, subLen: nat)
    requires At(0, AUDIO + c2Len + subLen, 0) <= |buf|
    ensures RotateAll(buf, 0, c2Len, subLen) == buf
  {}

  lemma RotateAllStep(buf: seq<Byte>, n: nat, c2Len: nat, subLen: nat)
    requires At(n + 1, AUDIO + c2Len + subLen, 0) <= |buf|
    ensures
      var len := AUDIO + c2Len + subLen;
      && At(n, len, 0) + len <= |buf|
      && RotateAll(buf, n + 1, c2Len, subLen) ==
           RotateAll(buf, n, c2Len, subLen)[..At(n, len, 0)]
           + Rotate(buf[At(n, len, 0)..At(n, len, 0) + len], c2Len, subLen)
           + buf[At(n, len, 0) + len..]
      && RotateAll(buf, n, c2Len, subLen)[At(n, len, 0)..] == buf[At(n, len, 0)..]
  {
    hide At, Rotate;
    var len := AUDIO + c2Len + subLen;
    AtStep(n, len);
    AtMonotone(n, n + 1, len, 0);
    if n > 0 {
      AtStep(n - 1, len);
      AtMonotone(n - 1, n, len, 0);
    }
  }

  // ---- the rewrite preserves the evidence -----------------------------------------------------------------

  /** The field at the SUB position of a record is the field at the MMC position of the rotated one. */
  lemma RotatedField(rec: seq<Byte>, c2Len: nat, subLen: nat)
    requires IsRecord(rec, c2Len, subLen)
    ensures Rotate(rec, c2Len, subLen)[AUDIO + c2Len..AUDIO + c2Len + subLen] == rec[AUDIO..AUDIO + subLen]
  {}

  lemma {:induction false} RotateAllRecords(buf: seq<Byte>, n: nat, c2Len: nat, subLen: nat, s: nat)
    requires At(n, AUDIO + c2Len + subLen, 0) <= |buf| && s < n
    ensures
      var len := AUDIO + c2Len + subLen;
      && At(s, len, 0) + len <= |buf|
      && RotateAll(buf, n, c2Len, subLen)[At(s, len, 0)..At(s, len, 0) + len]
           == Rotate(buf[At(s, len, 0)..At(s, len, 0) + len], c2Len, subLen)
  {
    hide At, Rotate, RotateAll;
    var len := AUDIO + c2Len + subLen;
    AtMonotone(s + 1, n, len, 0);
    AtMonotone(n - 1, n, len, 0);
    AtStep(s, len);
    AtStep(n - 1, len);
    RotateAllStep(buf, n - 1, c2Len, subLen);
    var at, end := At(s, len, 0), At(n - 1, len, 0);
    var shorter, longer := RotateAll(buf, n - 1, c2Len, subLen), RotateAll(buf, n, c2Len, subLen);
    if s < n - 1 {
      RotateAllRecords(buf, n - 1, c2Len, subLen, s);
      AtMonotone(s + 1, n - 1, len, 0);
      assert longer[..end] == shorter[..end];
      SliceOfSlice(longer, 0, end, at, at + len);
      SliceOfSlice(shorter, 0, end, at, at + len);
      assert longer[0..end] == shorter[0..end];
    }
  }

  lemma AtField(s: nat, len: nat, off: nat)
    ensures At(s, len, off) == At(s, len, 0) + off
  {}

  lemma RotationMovesEachHit(buf: seq<Byte>, nsec: nat, c2Len: nat, subLen: nat, s: nat)
    requires SubLenOk(subLen) && |buf| == At(nsec, AUDIO + c2Len + subLen, 0) && s < nsec
    ensures
      var len := AUDIO + c2Len + subLen;
      Hit(RotateAll(buf, nsec, c2Len, subLen), s, len, AUDIO + c2Len, subLen) <==> Hit(buf, s, len, AUDIO, subLen)
  {
    hide At, Rotate, RotateAll, QValid;
    var len := AUDIO + c2Len + subLen;
    var now := RotateAll(buf, nsec, c2Len, subLen);
    RotateAllRecords(buf, nsec, c2Len, subLen, s);
    AtField(s, len, AUDIO);
    AtField(s, len, AUDIO + c2Len);
    var at := At(s, len, 0);
    var rec := buf[at..at + len];
    RotatedField(rec, c2Len, subLen);
    SliceOfSlice(now, at, at + len, AUDIO + c2Len, AUDIO + c2Len + subLen);
    SliceOfSlice(buf, at, at + len, AUDIO, AUDIO + subLen);
  }

  lemma {:induction false} HitsFollowFirst(buf: seq<Byte>, nsec: nat, c2Len: nat, subLen: nat, n: nat)
    requires SubLenOk(subLen) && |buf| == At(nsec, AUDIO + c2Len + subLen, 0) && n <= nsec
    ensures
      var len := AUDIO + c2Len + subLen;
      HitCount(RotateAll(buf, nsec, c2Len, subLen), n, len, AUDIO + c2Len, subLen) ==
      HitCount(buf, n, len, AUDIO, subLen)
  {
    hide At, Rotate, RotateAll, Hit;
    if n > 0 {
      HitsFollowFirst(buf, nsec, c2Len, subLen, n - 1);
      RotationMovesEachHit(buf, nsec, c2Len, subLen, n - 1);
    }
  }

  /** After the rewrite the evidence at the standard's position is what it was, before, at the other. */
  lemma RewriteMovesTheEvidence(buf: seq<Byte>, nsec: nat, c2Len: nat, subLen: nat)
    requires SubLenOk(subLen) && |buf| == At(nsec, AUDIO + c2Len + subLen, 0)
    ensures
      var len := AUDIO + c2Len + subLen;
      HitCount(RotateAll(buf, nsec, c2Len, subLen), nsec, len, AUDIO + c2Len, subLen) ==
      HitCount(buf, nsec, len, AUDIO, subLen)
  {
    hide At, Rotate, RotateAll, Hit;
    HitsFollowFirst(buf, nsec, c2Len, subLen, nsec);
  }

  /** Rewriting with the field lengths exchanged restores the buffer byte for byte. */
  lemma RewritingBackRestores(buf: seq<Byte>, nsec: nat, c2Len: nat, subLen: nat)
    requires |buf| == At(nsec, AUDIO + c2Len + subLen, 0)
    ensures RotateAll(RotateAll(buf, nsec, c2Len, subLen), nsec, subLen, c2Len) == buf
  {
    hide At, Rotate, RotateAll;
    var there := RotateAll(buf, nsec, c2Len, subLen);
    BackAndForth(buf, there, nsec, nsec, c2Len, subLen);
  }

  lemma {:induction false} BackAndForth(buf: seq<Byte>, there: seq<Byte>, nsec: nat, n: nat, c2Len: nat, subLen: nat)
    requires n <= nsec && |buf| == At(nsec, AUDIO + c2Len + subLen, 0) && there == RotateAll(buf, nsec, c2Len, subLen)
    ensures At(n, AUDIO + subLen + c2Len, 0) <= |there|
    ensures RotateAll(there, n, subLen, c2Len) ==
      buf[..At(n, AUDIO + c2Len + subLen, 0)] + there[At(n, AUDIO + c2Len + subLen, 0)..]
  {
    hide At, Rotate, RotateAll;
    var len := AUDIO + c2Len + subLen;
    AtMonotone(n, nsec, len, 0);
    if n == 0 {
      RotateAllNone(there, subLen, c2Len);
      AtZero(len);
    } else {
      BackAndForth(buf, there, nsec, n - 1, c2Len, subLen);
      AtStep(n - 1, len);
      RotateAllRecords(buf, nsec, c2Len, subLen, n - 1);
      RotateAllStep(there, n - 1, subLen, c2Len);
      var at := At(n - 1, len, 0);
      RotatingBackRestores(buf[at..at + len], c2Len, subLen);
      assert RotateAll(there, n - 1, subLen, c2Len)[..at] == buf[..at];
      assert buf[..at] + buf[at..at + len] == buf[..at + len];
    }
  }

  lemma AtZero(len: nat)
    ensures At(0, len, 0) == 0
  {}

  // ---- from the data to the verdict -----------------------------------------------------------------------

  /** A field counts exactly when the frame it carries verifies: in the Q bits of 96 raw bytes, or in
      the first twelve of 16 bytes of formatted Q. */
  lemma ValidFieldIff(field: seq<Byte>, q: seq<Byte>)
    requires |q| == 12
    requires |field| == 96 || |field| == 16
    requires if |field| == 96 then SubQ.CarriesFrame(field, q) else field[..12] == q
    ensures QValid(field) <==> Accepts(q)
  {
    hide Accepts, SubQ.CarriesFrame, SubQ.QBytes;
    if |field| == 96 {
      SubQ.ExtractionRecoversTheFrame(field, q);
    }
  }

  /** The records from `from` up to n whose field at subOff carries a valid frame. */
  ghost function Hits(buf: seq<Byte>, from: nat, n: nat, stride: nat, subOff: nat, subLen: nat): set<nat>
    requires SubLenOk(subLen)
  {
    set s: nat | from <= s < n && Hit(buf, s, stride, subOff, subLen)
  }

  lemma HitsStep(buf: seq<Byte>, from: nat, n: nat, stride: nat, subOff: nat, subLen: nat)
    requires SubLenOk(subLen) && from <= n
    ensures |Hits(buf, from, n + 1, stride, subOff, subLen)| ==
      |Hits(buf, from, n, stride, subOff, subLen)| + (if Hit(buf, n, stride, subOff, subLen) then 1 else 0)
  {
    hide Hit;
    var hit := if Hit(buf, n, stride, subOff, subLen) then {n} else {};
    assert Hits(buf, from, n + 1, stride, subOff, subLen) == Hits(buf, from, n, stride, subOff, subLen) + hit;
  }

  lemma NoHits(buf: seq<Byte>, from: nat, stride: nat, subOff: nat, subLen: nat)
    requires SubLenOk(subLen)
    ensures |Hits(buf, from, from, stride, subOff, subLen)| == 0
  {
    hide Hit;
    assert Hits(buf, from, from, stride, subOff, subLen) == {};
  }

  lemma {:induction false} HitCountIsTheNumber(buf: seq<Byte>, n: nat, stride: nat, subOff: nat, subLen: nat)
    requires SubLenOk(subLen)
    ensures HitCount(buf, n, stride, subOff, subLen) == |Hits(buf, 0, n, stride, subOff, subLen)|
    ensures n >= 1 ==>
      HitCount(buf, n, stride, subOff, subLen) ==
        |Hits(buf, 1, n, stride, subOff, subLen)| + (if Hit(buf, 0, stride, subOff, subLen) then 1 else 0)
  {
    hide Hit, Hits;
    if n > 0 {
      HitCountIsTheNumber(buf, n - 1, stride, subOff, subLen);
      HitsStep(buf, 0, n - 1, stride, subOff, subLen);
      if n > 1 {
        HitsStep(buf, 1, n - 1, stride, subOff, subLen);
      } else {
        NoHits(buf, 1, stride, subOff, subLen);
      }
    } else {
      NoHits(buf, 0, stride, subOff, subLen);
    }
  }

  /** At a displaced stride at least two, and at least half, of the records behind the first verify, in
      one order or the other. */
  ghost predicate Displaced(buf: seq<Byte>, nsec: nat, stride: nat, c2Len: nat, subLen: nat)
    requires SubLenOk(subLen)
  {
    DisplacedAt(buf, nsec, stride, 2352 + c2Len, subLen) || DisplacedAt(buf, nsec, stride, 2352, subLen)
  }

  ghost predicate DisplacedAt(buf: seq<Byte>, nsec: nat, stride: nat, subOff: nat, subLen: nat)
    requires SubLenOk(subLen)
  {
    var h := |Hits(buf, 1, nsec, stride, subOff, subLen)|;
    h >= 2 && 2 * h >= nsec - 1
  }

  lemma ExplainsIsDisplaced(buf: seq<Byte>, nsec: nat, stride: nat, c2Len: nat, subLen: nat)
    requires SubLenOk(subLen) && nsec >= 1
    ensures ExplainsEither(buf, nsec, stride, c2Len, subLen) <==> Displaced(buf, nsec, stride, c2Len, subLen)
  {
    hide Hit, HitCount, Hits;
    HitCountIsTheNumber(buf, nsec, stride, 2352 + c2Len, subLen);
    HitCountIsTheNumber(buf, nsec, stride, 2352, subLen);
  }

  /** A buffer is called misframed exactly when it has at least four records, fewer than half of them
      verify at either position, and a stride longer by up to 16 bytes explains it. */
  lemma MisframedIff(buf: seq<Byte>, nsec: nat, c2Len: nat, subLen: nat, v: Verdict)
    requires (subLen == 96 || subLen == 16) && IsVerdict(buf, nsec, 2352 + c2Len + subLen, c2Len, v)
    ensures
      var len := 2352 + c2Len + subLen;
      v.misframed != 0 <==>
      && nsec >= 4
      && 2 * |Hits(buf, 0, nsec, len, 2352 + c2Len, subLen)| < nsec
      && 2 * |Hits(buf, 0, nsec, len, 2352, subLen)| < nsec
      && exists stride: nat :: len < stride <= len + 16 && Displaced(buf, nsec, stride, c2Len, subLen)
  {
    hide Hit, HitCount, Hits, Displaced, ExplainsEither;
    var len := 2352 + c2Len + subLen;
    HitCountIsTheNumber(buf, nsec, len, 2352 + c2Len, subLen);
    HitCountIsTheNumber(buf, nsec, len, 2352, subLen);
    if v.misframed != 0 {
      ExplainsIsDisplaced(buf, nsec, v.misframed, c2Len, subLen);
    } else if Suspicious(nsec, v.hitsMmc, v.hitsSub) {
      forall stride: nat | len < stride <= len + 16
        ensures !Displaced(buf, nsec, stride, c2Len, subLen)
      {
        ExplainsIsDisplaced(buf, nsec, stride, c2Len, subLen);
      }
    }
  }

  /** Which order the verdict names: the one with evidence at its position and at most a third as much
      at the other. */
  lemma VerdictIff(buf: seq<Byte>, nsec: nat, c2Len: nat, subLen: nat, v: Verdict)
    requires (subLen == 96 || subLen == 16) && IsVerdict(buf, nsec, 2352 + c2Len + subLen, c2Len, v)
    ensures
      var len := 2352 + c2Len + subLen;
      var mmc, sub := |Hits(buf, 0, nsec, len, 2352 + c2Len, subLen)|, |Hits(buf, 0, nsec, len, 2352, subLen)|;
      && (v.layout == Mmc <==> v.misframed == 0 && mmc >= 1 && 3 * sub <= mmc)
      && (v.layout == SubFirst <==> v.misframed == 0 && sub >= 1 && 3 * mmc <= sub)
      && v.hitsMmc == mmc && v.hitsSub == sub
  {
    hide Hit, HitCount, Hits, ExplainsEither;
    HitCountIsTheNumber(buf, nsec, 2352 + c2Len + subLen, 2352 + c2Len, subLen);
    HitCountIsTheNumber(buf, nsec, 2352 + c2Len + subLen, 2352, subLen);
  }
}

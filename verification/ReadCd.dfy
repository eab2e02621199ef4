/** READ CD shaping: the transfer length is rounded up until the transport is known to refuse it,
    and a combined C2 + subchannel buffer is returned in the standard's record order. The latches
    of one device handle persist over every call made through it. */
module ReadCd {
  import opened Common
  import opened Layout
  import Crc = Crc16

  type Byte = Crc.Byte

  const C2_NONE := 0
  const C2_294 := 1
  const C2_296 := 2
  const SUB_NONE := 0
  const SUBCHANNEL_RAW := 1
  const SUBCHANNEL_Q := 2
  const UINT32_MAX := 0xFFFF_FFFF

  datatype Rc = Ok | ErrInval | ErrIo | ErrSense | ErrShort

  /** What one issued command brings back. Data is whatever the drive transfers, byte by byte. */
  datatype Reply = Reply(rc: Rc, resid: nat, senseValid: bool, senseKey: nat, driverTimeout: bool, data: nat -> Byte)

  function C2Len(c2: nat): nat {
    if c2 == C2_294 then 294 else if c2 == C2_296 then 296 else 0
  }

  function SubLen(sub: nat): nat {
    if sub == SUBCHANNEL_RAW then 96 else if sub == SUBCHANNEL_Q then 16 else 0
  }

  function SectorLen(c2: nat, sub: nat): nat {
    AUDIO + C2Len(c2) + SubLen(sub)
  }

  predicate ArgsOk(nsec: nat, c2: nat, sub: nat, sectorLen: nat) {
    && c2 <= C2_296 && sub <= SUBCHANNEL_Q
    && sectorLen == SectorLen(c2, sub) && nsec != 0 && nsec <= UINT32_MAX / sectorLen
  }

  // ---- the transfer --------------------------------------------------------------------------------

  function RoundUp(exact: nat): (want: nat)
    ensures want % 16 == 0 && exact <= want < exact + 16
  {
    (exact + 15) / 16 * 16
  }

  /** The rounded length is the least multiple of 16 that holds the data. */
  lemma RoundUpIsLeast(exact: nat, m: nat)
    requires m % 16 == 0 && m >= exact
    ensures RoundUp(exact) <= m
  {}

  /** Whether the transfer is rounded: never once refused, only when there is something to round,
      and only into a bounce buffer of the handle. */
  predicate Rounds(xferExact: int, exact: nat, cap: nat) {
    xferExact != 1 && exact % 16 != 0 && exact <= UINT32_MAX - 15 && cap >= RoundUp(exact)
  }

  /** Bounce capacity after trying to grow it. */
  function Grown(xferExact: int, exact: nat, cap: nat, canGrow: bool): nat {
    if xferExact != 1 && exact % 16 != 0 && exact <= UINT32_MAX - 15 && cap < RoundUp(exact) && canGrow
    then RoundUp(exact)
    else cap
  }

  /** A GOOD transfer shorter than the data is an error; the rounding slack is not data. */
  function Checked(r: Reply, slack: nat): Rc {
    if r.rc == Ok && r.resid > slack then ErrShort else r.rc
  }

  /** Could a rounded read have failed because of the rounding? */
  predicate Suspect(rc: Rc, r: Reply) {
    rc == ErrIo || (rc == ErrSense && r.senseValid && r.senseKey == 5)
  }

  predicate Retries(xferExact: int, rounded: bool, rc: Rc, r: Reply) {
    rounded && xferExact == 0 && Suspect(rc, r)
  }

  /** The length latch after a call: 1 when rounding was refused where the exact length went
      through, -1 when a rounded read succeeded. A timeout proves nothing. */
  function NextExact(xferExact: int, rounded: bool, slack: nat, first: Reply, second: Reply): int {
    var rc := Checked(first, slack);
    if Retries(xferExact, rounded, rc, first) then
      (if Checked(second, 0) == Ok && !(rc == ErrIo && first.driverTimeout) then 1 else xferExact)
    else if rounded && rc == Ok then -1
    else xferExact
  }

  // ---- one call -------------------------------------------------------------------------------------

  /** One call as the length latch sees it. */
  datatype Call = Call(exact: nat, canGrow: bool, first: Reply, second: Reply)

  datatype Latch = Latch(xferExact: int, cap: nat)

  /** Whether the call's first transfer is rounded, and by how much. */
  predicate Rounded(l: Latch, c: Call) {
    Rounds(l.xferExact, c.exact, Grown(l.xferExact, c.exact, l.cap, c.canGrow))
  }

  function Slack(l: Latch, c: Call): nat {
    if Rounded(l, c) then RoundUp(c.exact) - c.exact else 0
  }

  predicate Retried(l: Latch, c: Call) {
    Retries(l.xferExact, Rounded(l, c), Checked(c.first, Slack(l, c)), c.first)
  }

  /** Transfer lengths of the commands the call issues. */
  function LengthsIssued(l: Latch, c: Call): seq<nat> {
    [c.exact + Slack(l, c)] + (if Retried(l, c) then [c.exact] else [])
  }

  /** The reply whose data the caller gets. */
  function Answer(l: Latch, c: Call): Reply {
    if Retried(l, c) then c.second else c.first
  }

  function ReadOutcome(l: Latch, c: Call): Rc {
    if Retried(l, c) then Checked(c.second, 0) else Checked(c.first, Slack(l, c))
  }

  function After(l: Latch, c: Call): Latch {
    Latch(NextExact(l.xferExact, Rounded(l, c), Slack(l, c), c.first, c.second),
          Grown(l.xferExact, c.exact, l.cap, c.canGrow))
  }

  // ---- the record order -----------------------------------------------------------------------------

  function Votes(v: Verdict): nat {
    if v.hitsMmc > v.hitsSub then v.hitsMmc else v.hitsSub
  }

  /** The order latch after a buffer that was not misframed. */
  function NextLatch(latch: Order, v: Verdict): Order {
    if v.layout != Unknown && Votes(v) >= 2 then v.layout else latch
  }

  /** The order the buffer is taken to be in. */
  function OrderUsed(latch: Order, v: Verdict): Order {
    if v.layout != Unknown then v.layout else latch
  }

  /** The records in the standard's order. */
  function Sorted(data: seq<Byte>, latch: Order, v: Verdict, nsec: nat, c2: nat, sub: nat): seq<Byte>
    requires |data| == At(nsec, SectorLen(c2, sub), 0)
  {
    if OrderUsed(latch, v) == SubFirst then RotateAll(data, nsec, C2Len(c2), SubLen(sub)) else data
  }

  class Device {
    /** What the handle knows about rounding: nothing at 0, that it works at -1, that it does not at 1. */
    var xferExact: int
    var bounceCap: nat
    /** Record order by C2 and subchannel mode. */
    const layout: array2<Order>
    /** Transfer lengths of every READ CD issued on the handle. */
    ghost var issued: seq<nat>

    ghost predicate Valid()
      reads this
    {
      layout.Length0 == 3 && layout.Length1 == 3 && -1 <= xferExact <= 1
    }

    constructor ()
      ensures Valid() && fresh(layout) && xferExact == 0 && bounceCap == 0 && issued == []
      ensures forall i, j :: 0 <= i < 3 && 0 <= j < 3 ==> layout[i, j] == Unknown
    {
      layout := new Order[3, 3]((i, j) => Unknown);
      xferExact, bounceCap, issued := 0, 0, [];
    }

    /** read_cd_once: one command of xfer bytes into dst. */
    method ReadOnce(dst: array<Byte>, exact: nat, xfer: nat, r: Reply) returns (rc: Rc, timedOut: bool)
      requires exact <= xfer <= dst.Length
      modifies dst, this`issued
      ensures rc == Checked(r, xfer - exact) && (timedOut <==> rc == ErrIo && r.driverTimeout)
      ensures dst[..xfer] == DataOf(r, xfer)
      ensures dst[xfer..] == old(dst[xfer..])
      ensures issued == old(issued) + [xfer]
    {
      for i := 0 to xfer
        invariant forall k: nat {:trigger dst[k]} :: k < i ==> dst[k] == r.data(k)
        invariant dst[xfer..] == old(dst[xfer..]) && issued == old(issued)
      {
        dst[i] := r.data(i);
      }
      issued := issued + [xfer];
      rc := if r.rc == Ok && r.resid > xfer - exact then ErrShort else r.rc;
      timedOut := rc == ErrIo && r.driverTimeout;
    }

    /** The length to transfer: rounded when the handle has, or gets, a bounce buffer for it. */
    method ChooseLength(exact: nat, canGrow: bool) returns (xfer: nat)
      modifies this`bounceCap
      ensures bounceCap == Grown(xferExact, exact, old(bounceCap), canGrow)
      ensures xfer == if Rounds(xferExact, exact, bounceCap) then RoundUp(exact) else exact
    {
      xfer := exact;
      if xferExact != 1 && exact % 16 != 0 && exact <= UINT32_MAX - 15 {
        var want := RoundUp(exact);
        if bounceCap < want && canGrow {
          bounceCap := want;
        }
        if bounceCap >= want {
          xfer := want;
        }
      }
    }

    /** The transfer part of adsc_mmc_read_cd: a rounded read lands in the bounce buffer and only its
        exact bytes are copied out. */
    method Transfer(buf: array<Byte>, exact: nat, canGrow: bool, first: Reply, second: Reply) returns (rc: Rc)
      requires Valid() && exact <= buf.Length
      modifies this`xferExact, this`bounceCap, this`issued, buf
      ensures Valid()
      ensures
        var l, c := Latch(old(xferExact), old(bounceCap)), Call(exact, canGrow, first, second);
        && Latch(xferExact, bounceCap) == After(l, c)
        && issued == old(issued) + LengthsIssued(l, c)
        && rc == ReadOutcome(l, c)
        && (rc == Ok ==> buf[..exact] == DataOf(Answer(l, c), exact))
      ensures buf[exact..] == old(buf[exact..])
    {
      hide DataOf, Checked, Grown, Rounds;
      RoundingIsStrict(xferExact, exact, Grown(xferExact, exact, bounceCap, canGrow));
      var xfer := ChooseLength(exact, canGrow);
      var dst := buf;
      if xfer != exact {
        dst := new Byte[xfer];
      }
      var timedOut;
      rc, timedOut := ReadOnce(dst, exact, xfer, first);
      DataPrefix(first, exact, xfer);
      assert dst[..exact] == dst[..xfer][..exact];
      if xfer != exact && xferExact == 0 && Suspect(rc, first) {
        var rc2, _ := ReadOnce(buf, exact, exact, second);
        if rc2 == Ok && !timedOut {
          xferExact := 1;
        }
        return rc2;
      }
      if rc != Ok {
        return;
      }
      if xfer != exact {
        CopyOut(buf, dst, exact);
        xferExact := -1;
      }
    }

    method CopyOut(buf: array<Byte>, dst: array<Byte>, exact: nat)
      requires buf != dst && exact <= buf.Length && exact <= dst.Length
      modifies buf
      ensures buf[..exact] == dst[..exact] && buf[exact..] == old(buf[exact..])
    {
      for i := 0 to exact
        invariant buf[..i] == dst[..i] && buf[exact..] == old(buf[exact..])
      {
        buf[i] := dst[i];
      }
    }

    /** read_cd_layout: sort the records, or refuse a misframed buffer. */
    method SortRecords(c2: nat, sub: nat, buf: array<Byte>, nsec: nat) returns (rc: Rc, ghost v: Verdict)
      requires Valid() && 0 < c2 <= C2_296 && 0 < sub <= SUBCHANNEL_Q
      requires At(nsec, SectorLen(c2, sub), 0) <= buf.Length
      modifies layout, buf
      ensures
        var len := SectorLen(c2, sub);
        var exact := At(nsec, len, 0);
        var was := old(buf[..exact]);
        && IsVerdict(was, nsec, len, C2Len(c2), v)
        && (rc == ErrIo <==> v.misframed != 0) && (rc == Ok <==> v.misframed == 0)
        && layout[c2, sub] == (if v.misframed != 0 then old(layout[c2, sub]) else NextLatch(old(layout[c2, sub]), v))
        && (v.misframed != 0 ==> buf[..exact] == was)
        && (v.misframed == 0 ==> buf[..exact] == Sorted(was, layout[c2, sub], v, nsec, c2, sub))
        && buf[exact..] == old(buf[exact..])
      ensures forall i, j :: 0 <= i < 3 && 0 <= j < 3 && (i != c2 || j != sub) ==> layout[i, j] == old(layout[i, j])
    {
      hide IsVerdict, RotateAll;
      var len := SectorLen(c2, sub);
      var exact := At(nsec, len, 0);
      var verdict := Inspect(buf[..exact], nsec, len, C2Len(c2));
      v := verdict;
      if verdict.misframed != 0 {
        return ErrIo, v;
      }
      var votes := if verdict.hitsMmc > verdict.hitsSub then verdict.hitsMmc else verdict.hitsSub;
      if verdict.layout != Unknown && votes >= 2 && layout[c2, sub] != verdict.layout {
        layout[c2, sub] := verdict.layout;
      }
      var use := if verdict.layout != Unknown then verdict.layout else layout[c2, sub];
      if use == SubFirst {
        RotatePrefix(buf, nsec, len, C2Len(c2), exact);
      }
      rc := Ok;
    }

    /** adsc_mmc_read_cd. The caller's buffer holds nsec records; nothing beyond them is touched. */
    method Read(nsec: nat, c2: nat, sub: nat, buf: array<Byte>, sectorLen: nat, canGrow: bool,
                first: Reply, second: Reply) returns (rc: Rc, ghost v: Verdict)
      requires Valid()
      requires ArgsOk(nsec, c2, sub, sectorLen) ==> At(nsec, sectorLen, 0) <= buf.Length
      requires first.rc != ErrInval && second.rc != ErrInval
      modifies this`xferExact, this`bounceCap, this`issued, layout, buf
      ensures Valid()
      ensures rc == ErrInval <==> !ArgsOk(nsec, c2, sub, sectorLen)
      ensures rc == ErrInval ==>
        && xferExact == old(xferExact) && bounceCap == old(bounceCap) && issued == old(issued)
        && buf[..] == old(buf[..])
        && forall i, j :: 0 <= i < 3 && 0 <= j < 3 ==> layout[i, j] == old(layout[i, j])
      ensures rc != ErrInval ==>
        var exact := At(nsec, sectorLen, 0);
        var l, c := Latch(old(xferExact), old(bounceCap)), Call(exact, canGrow, first, second);
        var data := DataOf(Answer(l, c), exact);
        && Latch(xferExact, bounceCap) == After(l, c)
        && issued == old(issued) + LengthsIssued(l, c)
        && buf[exact..] == old(buf[exact..])
        && (ReadOutcome(l, c) != Ok ==> rc == ReadOutcome(l, c) && layout[c2, sub] == old(layout[c2, sub]))
        && (ReadOutcome(l, c) == Ok && (c2 == C2_NONE || sub == SUB_NONE) ==> rc == Ok && buf[..exact] == data)
        && (ReadOutcome(l, c) == Ok && c2 != C2_NONE && sub != SUB_NONE ==>
              && IsVerdict(data, nsec, sectorLen, C2Len(c2), v)
              && rc == (if v.misframed != 0 then ErrIo else Ok)
              && layout[c2, sub] ==
                (if v.misframed != 0 then old(layout[c2, sub]) else NextLatch(old(layout[c2, sub]), v))
              && (rc == Ok ==> buf[..exact] == Sorted(data, layout[c2, sub], v, nsec, c2, sub)))
      ensures forall i, j :: 0 <= i < 3 && 0 <= j < 3 && (i != c2 || j != sub) ==> layout[i, j] == old(layout[i, j])
      ensures c2 == C2_NONE || sub == SUB_NONE ==>
        forall i, j :: 0 <= i < 3 && 0 <= j < 3 ==> layout[i, j] == old(layout[i, j])
    {
      hide IsVerdict, RotateAll, NextExact, Checked, Grown, Retried, Slack;
      v := Verdict(Unknown, 0, 0, 0);
      if c2 > C2_296 || sub > SUBCHANNEL_Q || sectorLen != SectorLen(c2, sub)
        || nsec == 0 || nsec > UINT32_MAX / sectorLen {
        return ErrInval, v;
      }
      var exact := At(nsec, sectorLen, 0);
      OutcomeIsNotInval(Latch(xferExact, bounceCap), Call(exact, canGrow, first, second));
      rc := Transfer(buf, exact, canGrow, first, second);
      if rc != Ok {
        return;
      }
      ghost var data := buf[..exact];
      if c2 != C2_NONE && sub != SUB_NONE {
        rc, v := SortRecords(c2, sub, buf, nsec);
      }
    }
  }

  lemma OutcomeIsNotInval(l: Latch, c: Call)
    requires c.first.rc != ErrInval && c.second.rc != ErrInval
    ensures ReadOutcome(l, c) != ErrInval
  {}

  lemma RoundingIsStrict(xferExact: int, exact: nat, cap: nat)
    ensures Rounds(xferExact, exact, cap) ==> RoundUp(exact) > exact
  {}

  /** The data of the answering read, as a sequence. */
  ghost function DataOf(r: Reply, n: nat): (d: seq<Byte>)
    ensures |d| == n && forall i: nat {:trigger d[i]} :: i < n ==> d[i] == r.data(i)
  {
    seq(n, (i: nat) => r.data(i))
  }

  lemma DataPrefix(r: Reply, m: nat, n: nat)
    requires m <= n
    ensures DataOf(r, n)[..m] == DataOf(r, m)
  {}

  /** The rewrite of the records at the front of a longer buffer. */
  method RotatePrefix(buf: array<Byte>, nsec: nat, len: nat, c2Len: nat, exact: nat)
    requires exact == At(nsec, len, 0) <= buf.Length && SubLenOk(len - AUDIO - c2Len)
    modifies buf
    ensures buf[..exact] == RotateAll(old(buf[..exact]), nsec, c2Len, len - AUDIO - c2Len)
    ensures buf[exact..] == old(buf[exact..])
  {
    ghost var was := buf[..];
    ToMmc(buf, nsec, len, c2Len);
    RotateAllPrefix(was, exact, nsec, c2Len, len - AUDIO - c2Len);
    assert buf[..exact] == buf[..][..exact] && buf[exact..] == buf[..][exact..];
  }

  lemma {:induction false} RotateAllPrefix(buf: seq<Byte>, exact: nat, n: nat, c2Len: nat, subLen: nat)
    requires At(n, AUDIO + c2Len + subLen, 0) <= exact <= |buf|
    ensures RotateAll(buf, n, c2Len, subLen) == RotateAll(buf[..exact], n, c2Len, subLen) + buf[exact..]
  {
    hide At, Rotate, RotateAll;
    var len := AUDIO + c2Len + subLen;
    if n == 0 {
      RotateAllNone(buf, c2Len, subLen);
      RotateAllNone(buf[..exact], c2Len, subLen);
    } else {
      AtMonotone(n - 1, n, len, 0);
      AtStep(n - 1, len);
      RotateAllPrefix(buf, exact, n - 1, c2Len, subLen);
      RotateAllStep(buf, n - 1, c2Len, subLen);
      RotateAllStep(buf[..exact], n - 1, c2Len, subLen);
      PrefixParts(buf, exact, RotateAll(buf[..exact], n - 1, c2Len, subLen), At(n - 1, len, 0), len);
    }
  }

  /** One record replaced in the front part of a buffer is one record replaced in the whole. */
  lemma PrefixParts(buf: seq<Byte>, exact: nat, front: seq<Byte>, at: nat, len: nat)
    requires |front| == exact <= |buf| && at + len <= exact
    ensures buf[..exact][at..at + len] == buf[at..at + len]
    ensures (front + buf[exact..])[..at] == front[..at]
    ensures forall mid: seq<Byte> ::
      front[..at] + mid + buf[at + len..] == front[..at] + mid + buf[..exact][at + len..] + buf[exact..]
  {
    SliceOfSlice(buf, 0, exact, at, at + len);
    SliceOfSlice(buf, 0, exact, at + len, exact);
    assert buf[at + len..] == buf[at + len..exact] + buf[exact..];
    forall mid: seq<Byte>
      ensures front[..at] + mid + buf[at + len..] == front[..at] + mid + buf[..exact][at + len..] + buf[exact..]
    {
      var rest := buf[..exact][at + len..];
      assert front[..at] + mid + (rest + buf[exact..]) == front[..at] + mid + rest + buf[exact..];
    }
  }

  // ---- whole runs --------------------------------------------------------------------------------------

  function AfterAll(l: Latch, calls: seq<Call>): Latch {
    if |calls| == 0 then l else After(AfterAll(l, calls[..|calls| - 1]), calls[|calls| - 1])
  }

  /** Once a handle has learned its transfer length it never unlearns it, whatever the drive does
      later, and from then on every call is a single command. */
  lemma {:induction false} LengthIsLearnedOnce(calls: seq<Call>, i: nat)
    requires i <= |calls|
    ensures -1 <= AfterAll(Latch(0, 0), calls).xferExact <= 1
    ensures AfterAll(Latch(0, 0), calls[..i]).xferExact != 0 ==>
      AfterAll(Latch(0, 0), calls).xferExact == AfterAll(Latch(0, 0), calls[..i]).xferExact
    ensures i < |calls| && |LengthsIssued(AfterAll(Latch(0, 0), calls[..i]), calls[i])| == 2 ==>
      AfterAll(Latch(0, 0), calls[..i]).xferExact == 0
  {
    hide Checked, Grown, Rounds, Slack;
    if |calls| == 0 || i == |calls| {
      assert calls[..i] == calls;
      if |calls| > 0 {
        LengthIsLearnedOnce(calls[..|calls| - 1], 0);
      }
    } else {
      var shorter := calls[..|calls| - 1];
      LengthIsLearnedOnce(shorter, i);
      assert shorter[..i] == calls[..i];
      AfterKeepsLearned(AfterAll(Latch(0, 0), shorter), calls[|calls| - 1]);
    }
  }

  lemma AfterKeepsLearned(l: Latch, c: Call)
    requires -1 <= l.xferExact <= 1
    ensures -1 <= After(l, c).xferExact <= 1
    ensures l.xferExact != 0 ==> After(l, c).xferExact == l.xferExact
  {
    hide Checked, Grown;
  }

  /** A rounded read that times out and goes through at the exact length teaches nothing. */
  lemma TimeoutTeachesNothing(l: Latch, c: Call)
    requires l.xferExact == 0 && c.first.rc == ErrIo && c.first.driverTimeout
    ensures After(l, c).xferExact == 0
  {}

  /** The order latch over a run of buffers read in one mode. */
  function LatchAfter(latch: Order, verdicts: seq<Verdict>): Order {
    if |verdicts| == 0 then latch
    else
      var v := verdicts[|verdicts| - 1];
      var before := LatchAfter(latch, verdicts[..|verdicts| - 1]);
      if v.misframed != 0 then before else NextLatch(before, v)
  }

  /** The latch is the verdict of the last buffer that showed at least two agreeing records;
      buffers without evidence, and misframed ones, leave it alone. */
  lemma {:induction false} LatchIsLastGoodEvidence(verdicts: seq<Verdict>, i: nat)
    requires i < |verdicts|
    requires verdicts[i].misframed == 0 && verdicts[i].layout != Unknown && Votes(verdicts[i]) >= 2
    requires forall j :: i < j < |verdicts| ==>
      verdicts[j].misframed != 0 || verdicts[j].layout == Unknown || Votes(verdicts[j]) < 2
    ensures LatchAfter(Unknown, verdicts) == verdicts[i].layout
  {
    if i < |verdicts| - 1 {
      LatchIsLastGoodEvidence(verdicts[..|verdicts| - 1], i);
    }
  }

  lemma {:induction false} NoEvidenceNoLatch(verdicts: seq<Verdict>)
    requires forall j :: 0 <= j < |verdicts| ==>
      verdicts[j].misframed != 0 || verdicts[j].layout == Unknown || Votes(verdicts[j]) < 2
    ensures LatchAfter(Unknown, verdicts) == Unknown
  {
    if |verdicts| > 0 {
      NoEvidenceNoLatch(verdicts[..|verdicts| - 1]);
    }
  }

  // ---- runs of the method itself -------------------------------------------------------------------------

  datatype Request = Request(nsec: nat, c2: nat, sub: nat, sectorLen: nat, canGrow: bool, first: Reply, second: Reply)

  /** What a request showed about the record order: the verdict on a buffer that was read and combines
      C2 and subchannel. */
  datatype Sighting = Nothing | Buffer(c2: nat, sub: nat, v: Verdict)

  predicate RequestOk(q: Request) { ArgsOk(q.nsec, q.c2, q.sub, q.sectorLen) }

  function CallOf(q: Request): Call {
    Call(At(q.nsec, q.sectorLen, 0), q.canGrow, q.first, q.second)
  }

  /** The calls that get past the argument check. */
  function CallsOf(reqs: seq<Request>): seq<Call> {
    if |reqs| == 0 then []
    else
      var q := reqs[|reqs| - 1];
      CallsOf(reqs[..|reqs| - 1]) + (if RequestOk(q) then [CallOf(q)] else [])
  }

  function AllIssued(l: Latch, calls: seq<Call>): seq<nat> {
    if |calls| == 0 then []
    else
      var before := calls[..|calls| - 1];
      AllIssued(l, before) + LengthsIssued(AfterAll(l, before), calls[|calls| - 1])
  }

  ghost predicate Shows(l: Latch, q: Request, s: Sighting) {
    if RequestOk(q) && q.c2 != C2_NONE && q.sub != SUB_NONE && ReadOutcome(l, CallOf(q)) == Ok then
      && s.Buffer? && s.c2 == q.c2 && s.sub == q.sub
      && IsVerdict(DataOf(Answer(l, CallOf(q)), CallOf(q).exact), q.nsec, q.sectorLen, C2Len(q.c2), s.v)
    else s.Nothing?
  }

  /** Each request's sighting is that of the data it read, in the state the requests before left. */
  ghost predicate Saw(l: Latch, reqs: seq<Request>, seen: seq<Sighting>) {
    && |seen| == |reqs|
    && forall k: nat {:trigger seen[k]} :: k < |reqs| ==> Shows(AfterAll(l, CallsOf(reqs[..k])), reqs[k], seen[k])
  }

  /** The verdicts on the buffers read in one mode. */
  function ModeVerdicts(seen: seq<Sighting>, c2: nat, sub: nat): seq<Verdict> {
    if |seen| == 0 then []
    else
      var s := seen[|seen| - 1];
      ModeVerdicts(seen[..|seen| - 1], c2, sub) + (if s.Buffer? && s.c2 == c2 && s.sub == sub then [s.v] else [])
  }

  lemma CallsStep(l: Latch, reqs: seq<Request>, k: nat)
    requires k < |reqs|
    ensures
      var before, q := CallsOf(reqs[..k]), reqs[k];
      && CallsOf(reqs[..k + 1]) == before + (if RequestOk(q) then [CallOf(q)] else [])
      && (RequestOk(q) ==>
            && AfterAll(l, CallsOf(reqs[..k + 1])) == After(AfterAll(l, before), CallOf(q))
            && AllIssued(l, CallsOf(reqs[..k + 1])) ==
              AllIssued(l, before) + LengthsIssued(AfterAll(l, before), CallOf(q)))
      && (!RequestOk(q) ==> CallsOf(reqs[..k + 1]) == before)
  {
    hide After, LengthsIssued, RequestOk, CallOf;
    assert reqs[..k + 1][..k] == reqs[..k];
    var before, q := CallsOf(reqs[..k]), reqs[k];
    assert (before + [CallOf(q)])[..|before|] == before;
  }

  lemma LatchStep(seen: seq<Sighting>, s: Sighting, latch: Order, c2: nat, sub: nat)
    ensures
      var before := LatchAfter(latch, ModeVerdicts(seen, c2, sub));
      LatchAfter(latch, ModeVerdicts(seen + [s], c2, sub)) ==
        if s.Buffer? && s.c2 == c2 && s.sub == sub && s.v.misframed == 0 then NextLatch(before, s.v) else before
  {
    hide NextLatch;
    var vs := ModeVerdicts(seen, c2, sub);
    assert (seen + [s])[..|seen|] == seen;
    if s.Buffer? && s.c2 == c2 && s.sub == sub {
      assert ModeVerdicts(seen + [s], c2, sub) == vs + [s.v];
      assert (vs + [s.v])[..|vs|] == vs;
    } else {
      assert vs + [] == vs;
      assert ModeVerdicts(seen + [s], c2, sub) == vs;
    }
  }

  lemma SawMore(l: Latch, reqs: seq<Request>, k: nat, seen: seq<Sighting>, s: Sighting)
    requires k < |reqs| && Saw(l, reqs[..k], seen) && Shows(AfterAll(l, CallsOf(reqs[..k])), reqs[k], s)
    ensures Saw(l, reqs[..k + 1], seen + [s])
  {
    hide Shows, AfterAll, CallsOf;
    forall i: nat | i < k + 1
      ensures Shows(AfterAll(l, CallsOf(reqs[..k + 1][..i])), reqs[..k + 1][i], (seen + [s])[i])
    {
      assert reqs[..k + 1][..i] == reqs[..i];
      if i < k {
        assert reqs[..k][..i] == reqs[..i];
        assert Shows(AfterAll(l, CallsOf(reqs[..k][..i])), reqs[..k][i], seen[i]);
      }
    }
  }

  /** One request of a run, with what it showed. */
  method ReadRequest(dev: Device, q: Request, buf: array<Byte>) returns (ghost s: Sighting)
    requires dev.Valid() && q.first.rc != ErrInval && q.second.rc != ErrInval
    requires RequestOk(q) ==> At(q.nsec, q.sectorLen, 0) <= buf.Length
    modifies dev`xferExact, dev`bounceCap, dev`issued, dev.layout, buf
    ensures dev.Valid()
    ensures
      var l := Latch(old(dev.xferExact), old(dev.bounceCap));
      && Shows(l, q, s)
      && (RequestOk(q) ==>
            && Latch(dev.xferExact, dev.bounceCap) == After(l, CallOf(q))
            && dev.issued == old(dev.issued) + LengthsIssued(l, CallOf(q)))
      && (!RequestOk(q) ==> Latch(dev.xferExact, dev.bounceCap) == l && dev.issued == old(dev.issued))
    ensures forall i, j :: 0 <= i < 3 && 0 <= j < 3 ==>
      dev.layout[i, j] ==
        if s.Buffer? && s.c2 == i && s.sub == j && s.v.misframed == 0 then NextLatch(old(dev.layout[i, j]), s.v)
        else old(dev.layout[i, j])
  {
    hide After, LengthsIssued, NextLatch, IsVerdict, Answer, ReadOutcome, ArgsOk, Sorted;
    ghost var l := Latch(dev.xferExact, dev.bounceCap);
    OutcomeIsNotInval(l, CallOf(q));
    ArgsInRange(q.nsec, q.c2, q.sub, q.sectorLen);
    var rc;
    ghost var v;
    rc, v := dev.Read(q.nsec, q.c2, q.sub, buf, q.sectorLen, q.canGrow, q.first, q.second);
    s := if RequestOk(q) && q.c2 != C2_NONE && q.sub != SUB_NONE && ReadOutcome(l, CallOf(q)) == Ok
      then Buffer(q.c2, q.sub, v) else Nothing;
  }

  lemma ArgsInRange(nsec: nat, c2: nat, sub: nat, sectorLen: nat)
    ensures ArgsOk(nsec, c2, sub, sectorLen) ==> c2 < 3 && sub < 3
  {}

  /** Any run of requests on one handle leaves the latches the folds above describe, so what is proved
      of the folds holds of the handle. */
  method ReadAll(dev: Device, reqs: seq<Request>, buf: array<Byte>) returns (ghost seen: seq<Sighting>)
    requires dev.Valid()
    requires forall q :: q in reqs ==> q.first.rc != ErrInval && q.second.rc != ErrInval
    requires forall q :: q in reqs && RequestOk(q) ==> At(q.nsec, q.sectorLen, 0) <= buf.Length
    modifies dev`xferExact, dev`bounceCap, dev`issued, dev.layout, buf
    ensures dev.Valid()
    ensures
      var l := Latch(old(dev.xferExact), old(dev.bounceCap));
      && Latch(dev.xferExact, dev.bounceCap) == AfterAll(l, CallsOf(reqs))
      && dev.issued == old(dev.issued) + AllIssued(l, CallsOf(reqs))
      && Saw(l, reqs, seen)
    ensures forall i, j :: 0 <= i < 3 && 0 <= j < 3 ==>
      dev.layout[i, j] == LatchAfter(old(dev.layout[i, j]), ModeVerdicts(seen, i, j))
  {
    hide After, LengthsIssued, NextLatch, AfterAll, CallsOf, AllIssued, ArgsOk, Shows, LatchAfter, ModeVerdicts, At;
    ghost var l := Latch(dev.xferExact, dev.bounceCap);
    seen := [];
    NothingRead(l, reqs);
    for k := 0 to |reqs|
      invariant dev.Valid()
      invariant Latch(dev.xferExact, dev.bounceCap) == AfterAll(l, CallsOf(reqs[..k]))
      invariant dev.issued == old(dev.issued) + AllIssued(l, CallsOf(reqs[..k]))
      invariant Saw(l, reqs[..k], seen)
      invariant forall i, j :: 0 <= i < 3 && 0 <= j < 3 ==>
        dev.layout[i, j] == LatchAfter(old(dev.layout[i, j]), ModeVerdicts(seen, i, j))
    {
      hide Saw;
      CallsStep(l, reqs, k);
      ghost var s := ReadRequest(dev, reqs[k], buf);
      SawMore(l, reqs, k, seen, s);
      forall i: nat, j: nat | i < 3 && j < 3
        ensures dev.layout[i, j] == LatchAfter(old(dev.layout[i, j]), ModeVerdicts(seen + [s], i, j))
      {
        LatchStep(seen, s, old(dev.layout[i, j]), i, j);
      }
      seen := seen + [s];
    }
    assert reqs[..|reqs|] == reqs;
  }

  lemma NothingRead(l: Latch, reqs: seq<Request>)
    ensures CallsOf(reqs[..0]) == [] && AfterAll(l, []) == l && AllIssued(l, []) == [] && Saw(l, reqs[..0], [])
    ensures forall latch, c2, sub :: LatchAfter(latch, ModeVerdicts([], c2, sub)) == latch
  {}

  /** The record sizes of every mode: audio, C2, subchannel. */
  lemma RecordSizes(c2: nat, sub: nat)
    ensures C2Len(0) == 0 && C2Len(1) == 294 && C2Len(2) == 296
    ensures SubLen(0) == 0 && SubLen(1) == 96 && SubLen(2) == 16
    ensures SectorLen(c2, sub) == 2352 + C2Len(c2) + SubLen(sub)
  {}

  /** When the answering transfer counts as good: the drive said so and, rounding slack aside, left
      nothing out. */
  lemma OutcomeIsOkIff(l: Latch, c: Call)
    ensures ReadOutcome(l, c) == Ok <==>
      Answer(l, c).rc == Ok && Answer(l, c).resid + c.exact <= if Retried(l, c) then c.exact else LengthsIssued(l, c)[0]
  {}

  /** When a second command is sent: nothing is known about rounding yet, the length needs it and a
      buffer for it exists, and the rounded read failed on the wire or as an illegal request. */
  lemma RetriedIff(l: Latch, c: Call)
    ensures Retried(l, c) <==>
      && l.xferExact == 0
      && c.exact % 16 != 0 && c.exact <= 0xFFFF_FFFF - 15
      && (c.canGrow || l.cap >= c.exact + 16 - c.exact % 16)
      && (c.first.rc == ErrIo || (c.first.rc == ErrSense && c.first.senseValid && c.first.senseKey == 5))
  {}

  /** From the data of a drive that follows the standard to the caller: a buffer whose records verify
      behind C2, and at most a third as often behind the audio, is judged standard and left alone. Where
      half of them verify it cannot be taken for misframed either. */
  lemma StandardRecordsAreKept(standard: seq<Byte>, nsec: nat, c2: nat, sub: nat, latch: Order, v: Verdict)
    requires (c2 == 1 || c2 == 2) && (sub == 1 || sub == 2) && |standard| == At(nsec, SectorLen(c2, sub), 0)
    requires IsVerdict(standard, nsec, SectorLen(c2, sub), C2Len(c2), v)
    requires
      var len, subLen := SectorLen(c2, sub), SubLen(sub);
      var mmc := |Hits(standard, 0, nsec, len, 2352 + C2Len(c2), subLen)|;
      && mmc >= 1 && 3 * |Hits(standard, 0, nsec, len, 2352, subLen)| <= mmc
      && (v.misframed == 0 || 2 * mmc >= nsec)
    ensures v.layout == Mmc && v.misframed == 0 && Sorted(standard, latch, v, nsec, c2, sub) == standard
  {
    hide Hits, IsVerdict, At, Displaced;
    VerdictIff(standard, nsec, C2Len(c2), SubLen(sub), v);
    MisframedIff(standard, nsec, C2Len(c2), SubLen(sub), v);
  }

  /** From the data of a drive that puts the subchannel first to the caller: standard records with
      their trailing fields exchanged, judged by their own hits, come back standard. */
  lemma ExchangedRecordsComeBackStandard(standard: seq<Byte>, delivered: seq<Byte>, nsec: nat, c2: nat, sub: nat,
                                         latch: Order, v: Verdict)
    requires (c2 == 1 || c2 == 2) && (sub == 1 || sub == 2) && |standard| == At(nsec, SectorLen(c2, sub), 0)
    requires delivered == RotateAll(standard, nsec, SubLen(sub), C2Len(c2))
    requires IsVerdict(delivered, nsec, SectorLen(c2, sub), C2Len(c2), v)
    requires
      var len, subLen := SectorLen(c2, sub), SubLen(sub);
      var good := |Hits(standard, 0, nsec, len, 2352 + C2Len(c2), subLen)|;
      && good >= 1 && 3 * |Hits(delivered, 0, nsec, len, 2352 + C2Len(c2), subLen)| <= good
      && (v.misframed == 0 || 2 * good >= nsec)
    ensures v.layout == SubFirst && v.misframed == 0 && Sorted(delivered, latch, v, nsec, c2, sub) == standard
  {
    hide Hits, HitCount, IsVerdict, At, Displaced, RotateAll;
    var len, subLen := SectorLen(c2, sub), SubLen(sub);
    RewritingBackRestores(standard, nsec, subLen, C2Len(c2));
    RewriteMovesTheEvidence(delivered, nsec, C2Len(c2), subLen);
    HitCountIsTheNumber(standard, nsec, len, 2352 + C2Len(c2), subLen);
    HitCountIsTheNumber(delivered, nsec, len, 2352, subLen);
    VerdictIff(delivered, nsec, C2Len(c2), subLen, v);
    MisframedIff(delivered, nsec, C2Len(c2), subLen, v);
  }

  /** A drive that delivers standard records with the two trailing fields exchanged, and is known or
      seen to: the caller gets the standard records. */
  lemma SubFirstComesBackStandard(standard: seq<Byte>, nsec: nat, c2: nat, sub: nat, latch: Order, v: Verdict)
    requires |standard| == At(nsec, SectorLen(c2, sub), 0)
    requires OrderUsed(latch, v) == SubFirst
    ensures
      var delivered := RotateAll(standard, nsec, SubLen(sub), C2Len(c2));
      Sorted(delivered, latch, v, nsec, c2, sub) == standard
  {
    hide RotateAll;
    RewritingBackRestores(standard, nsec, SubLen(sub), C2Len(c2));
  }
}

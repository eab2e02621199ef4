/** Readiness: which refusals mean that the command did not execute, the retries they allow, and the
    wait for a drive to become ready. The drive is an arbitrary stream of replies. */
module Ready {
  import opened Common

  type Byte = x: int | 0 <= x < 256 witness 0

  datatype Rc = Ok | ErrIo | ErrSense

  datatype Sense = Sense(valid: bool, key: Byte, asc: Byte, ascq: Byte)

  const NO_SENSE := Sense(false, 0, 0, 0)

  /** One issue of a command, as the transport reports it. */
  datatype Reply = Reply(rc: Rc, sense: Sense)

  datatype Verdict = Yes | Wait | RetryNow | NoMedium | Other

  const POLL_MS := 250
  const TIMEOUT_MS := 60000
  const UA_RETRIES := 3

  /** adsc_ready_classify. */
  function Classify(rc: Rc, s: Sense): Verdict {
    if rc == Ok then Yes
    else if rc != ErrSense || !s.valid then Other
    else if s.key == 0x06 then (if s.asc == 0x28 || s.asc == 0x29 then RetryNow else Other)
    else if s.key == 0x02 then (if s.asc == 0x3A then NoMedium else if s.asc == 0x04 then Wait else Other)
    else Other
  }

  /** adsc_op_repeatable. */
  predicate Repeatable(op: Byte) {
    op in {0x00, 0x03, 0x12, 0x1A, 0x23, 0x25, 0x28, 0x42, 0x43, 0x46, 0x4A, 0x51, 0x52, 0x5A, 0x5C,
           0xA8, 0xAC, 0xAD, 0xB9, 0xBD, 0xBE}
  }

  /** The sense a handle holds after a reply. */
  function SenseOf(r: Reply): Sense {
    if r.rc == Ok then NO_SENSE else r.sense
  }

  function VerdictOf(r: Reply): Verdict {
    Classify(r.rc, SenseOf(r))
  }

  // ---- what a run of attempts may look like --------------------------------------------------------

  /** Replies of one verdict among n from start. */
  function Count(replies: nat -> Reply, start: nat, n: nat, v: Verdict): nat {
    if n == 0 then 0 else Count(replies, start, n - 1, v) + (if VerdictOf(replies(start + n - 1)) == v then 1 else 0)
  }

  /** Whether the command is issued once more after attempt k. */
  predicate Again(replies: nat -> Reply, start: nat, op: Byte, waitOff: bool, k: nat) {
    && Repeatable(op)
    && match VerdictOf(replies(start + k))
       case RetryNow => Count(replies, start, k, RetryNow) < UA_RETRIES
       case Wait => !waitOff && op != 0x00 && POLL_MS * Count(replies, start, k, Wait) < TIMEOUT_MS
       case _ => false
  }

  /** A call of n attempts: every one but the last leads to another, the last does not. */
  ghost predicate IsCall(replies: nat -> Reply, start: nat, op: Byte, waitOff: bool, n: nat) {
    && n >= 1
    && (forall k :: 0 <= k < n - 1 ==> Again(replies, start, op, waitOff, k))
    && !Again(replies, start, op, waitOff, n - 1)
  }

  lemma VerdictIs(r: Reply, what: Verdict)
    requires what == Classify(r.rc, SenseOf(r))
    ensures what == VerdictOf(r)
  {}

  lemma AgainIff(replies: nat -> Reply, start: nat, op: Byte, waitOff: bool, k: nat, what: Verdict)
    requires Repeatable(op) && what == VerdictOf(replies(start + k))
    ensures Again(replies, start, op, waitOff, k) <==>
      || (what == RetryNow && Count(replies, start, k, RetryNow) < UA_RETRIES)
      || (what == Wait && !waitOff && op != 0x00 && POLL_MS * Count(replies, start, k, Wait) < TIMEOUT_MS)
  {
    hide VerdictOf, Count, Repeatable;
  }

  lemma EndsHere(replies: nat -> Reply, start: nat, op: Byte, waitOff: bool, k: nat)
    requires replies(start + k).rc != ErrSense || !Repeatable(op)
    ensures !Again(replies, start, op, waitOff, k)
  {
    hide Repeatable, Count;
  }

  lemma YesIsOk(r: Reply)
    ensures VerdictOf(r) == Yes <==> r.rc == Ok
  {}

  // ---- the counter of the wait --------------------------------------------------------------------------

  /** Last multiple of the poll interval below the wrap of the millisecond counter. */
  const LAST_MULTIPLE := 4294967250

  /** Polls after which the wrapping counter stands at its largest even value. */
  const WORST_POLLS := 1494648619

  /** The millisecond counter after some polls, as 32 bits hold it. */
  function Waited(polls: nat): nat {
    (POLL_MS * polls) % U32
  }

  lemma PollFits(polls: nat, timeoutMs: nat)
    requires timeoutMs < U32 && Waited(polls) < timeoutMs
    ensures Waited(polls + 1) == (Waited(polls) + POLL_MS) % U32
    ensures timeoutMs <= LAST_MULTIPLE && POLL_MS * polls < timeoutMs + POLL_MS ==> POLL_MS * polls < timeoutMs
  {
    AddMod(POLL_MS * polls, POLL_MS);
    if timeoutMs <= LAST_MULTIPLE && POLL_MS * polls < timeoutMs + POLL_MS {
      assert POLL_MS * polls < U32;
    }
  }

  /** The one timeout the wait never reaches: the counter steps by an even number and wraps, so it
      never stands at the largest value. */
  lemma TimeoutIsReachedIff(timeoutMs: nat)
    requires timeoutMs < U32
    ensures (exists polls: nat :: Waited(polls) >= timeoutMs) <==> timeoutMs != U32 - 1
  {
    assert Waited(WORST_POLLS) == 4294967294;
    forall polls: nat
      ensures Waited(polls) != U32 - 1
    {
      EvenStaysEven(polls);
    }
  }

  lemma EvenStaysEven(polls: nat)
    ensures Waited(polls) % 2 == 0
  {
    var q := POLL_MS * polls / U32;
    assert Waited(polls) == 2 * (125 * polls - 0x8000_0000 * q);
  }

  // ---- bounds -----------------------------------------------------------------------------------------

  lemma {:induction false} CountSplit(replies: nat -> Reply, start: nat, m: nat, n: nat, v: Verdict)
    ensures Count(replies, start, m + n, v) == Count(replies, start, m, v) + Count(replies, start + m, n, v)
  {
    if n > 0 {
      CountSplit(replies, start, m, n - 1, v);
      assert start + (m + n) - 1 == (start + m) + n - 1;
    }
  }

  lemma NothingYet(replies: nat -> Reply, start: nat)
    ensures (forall v :: Count(replies, start, 0, v) == 0) && Waited(0) == 0
  {}

  /** Counting on from a middle point, one reply more included. */
  lemma CountUpTo(replies: nat -> Reply, start: nat, mid: nat, end: nat, v: Verdict)
    requires start <= mid <= end
    ensures Count(replies, start, end - start, v) == Count(replies, start, mid - start, v) +
      Count(replies, mid, end - mid, v)
    ensures Count(replies, start, end + 1 - start, v) ==
            Count(replies, start, end - start, v) + (if VerdictOf(replies(end)) == v then 1 else 0)
  {
    CountSplit(replies, start, mid - start, end - mid, v);
  }

  /** Every attempt but the last is a unit attention or a not-ready, within its budget. */
  lemma {:induction false} CountsBounded(replies: nat -> Reply, start: nat, op: Byte, waitOff: bool, n: nat)
    requires forall k :: 0 <= k < n ==> Again(replies, start, op, waitOff, k)
    ensures n == Count(replies, start, n, RetryNow) + Count(replies, start, n, Wait)
    ensures Count(replies, start, n, RetryNow) <= UA_RETRIES
    ensures Count(replies, start, n, Wait) <= TIMEOUT_MS / POLL_MS
    ensures op == 0x00 || waitOff ==> Count(replies, start, n, Wait) == 0
  {
    hide VerdictOf, Repeatable;
    if n > 0 {
      CountsBounded(replies, start, op, waitOff, n - 1);
      assert Again(replies, start, op, waitOff, n - 1);
    }
  }

  /** How often a command can reach the drive. */
  lemma AttemptsAreBounded(replies: nat -> Reply, start: nat, op: Byte, waitOff: bool, n: nat)
    requires IsCall(replies, start, op, waitOff, n)
    ensures !Repeatable(op) ==> n == 1
    ensures n <= 1 + UA_RETRIES + TIMEOUT_MS / POLL_MS == 244
    ensures op == 0x00 || waitOff ==> n <= 1 + UA_RETRIES && Count(replies, start, n - 1, Wait) == 0
  {
    hide VerdictOf;
    CountsBounded(replies, start, op, waitOff, n - 1);
    if n > 1 {
      assert Again(replies, start, op, waitOff, 0);
    }
  }

  /** Commands that write, erase or change the drive's state. */
  const STATE_CHANGING: set<Byte> := {
    0x2A /* WRITE(10) */, 0xAA /* WRITE(12) */, 0x5D /* SEND CUE SHEET */, 0x5B /* CLOSE TRACK/SESSION */,
    0xA1 /* BLANK */, 0x54 /* SEND OPC */, 0x04 /* FORMAT UNIT */, 0x15 /* MODE SELECT(6) */,
    0x55 /* MODE SELECT(10) */, 0xB6 /* SET STREAMING */, 0xBB /* SET CD SPEED */, 0x1B /* START STOP UNIT */,
    0x1E /* PREVENT ALLOW MEDIUM REMOVAL */, 0x35 /* SYNCHRONIZE CACHE */
  }

  /** No state-changing command, and no command of the vendor-specific groups, is ever repeated,
      whatever the drive answers. */
  lemma StateChangesAreNeverRepeated(replies: nat -> Reply, start: nat, op: Byte, waitOff: bool, n: nat)
    requires IsCall(replies, start, op, waitOff, n)
    requires op in STATE_CHANGING || op >= 0xC0
    ensures n == 1
  {
    AttemptsAreBounded(replies, start, op, waitOff, n);
  }

  /** No repeated attempt had executed: the drive had answered it with CHECK CONDITION, as a unit
      attention or as not ready. */
  lemma OnlyUnexecutedCommandsAreRepeated(replies: nat -> Reply, start: nat, op: Byte, waitOff: bool, n: nat, k: nat)
    requires IsCall(replies, start, op, waitOff, n) && k < n - 1
    ensures
      var r := replies(start + k);
      && r.rc == ErrSense && r.sense.valid
      && ((r.sense.key == 6 && r.sense.asc in {0x28, 0x29}) || (r.sense.key == 2 && r.sense.asc == 0x04))
  {
    hide Repeatable;
    assert Again(replies, start, op, waitOff, k);
  }

  /** The number of attempts is settled by the replies. */
  lemma CallLengthIsUnique(replies: nat -> Reply, start: nat, op: Byte, waitOff: bool, m: nat, n: nat)
    requires IsCall(replies, start, op, waitOff, m) && IsCall(replies, start, op, waitOff, n)
    ensures m == n
  {
    hide Again;
  }

  /** A drive that answers with three unit attentions and then is never ready. */
  function Stubborn(n: nat): Reply {
    Reply(ErrSense, if n < UA_RETRIES then Sense(true, 6, 0x28, 0) else Sense(true, 2, 4, 1))
  }

  lemma {:induction false} StubbornCounts(n: nat)
    ensures Count(Stubborn, 0, n, RetryNow) == if n < UA_RETRIES then n else UA_RETRIES
    ensures Count(Stubborn, 0, n, Wait) == if n < UA_RETRIES then 0 else n - UA_RETRIES
  {
    if n > 0 {
      StubbornCounts(n - 1);
    }
  }

  /** The bound is met: any repeatable command but TEST UNIT READY can be issued 244 times. */
  lemma BoundIsReached(op: Byte)
    requires Repeatable(op) && op != 0x00
    ensures IsCall(Stubborn, 0, op, false, 244)
  {
    hide Count, Repeatable;
    forall k | 0 <= k < 243
      ensures Again(Stubborn, 0, op, false, k)
    {
      StubbornCounts(k);
    }
    StubbornCounts(243);
  }

  /** TEST UNIT READY repeats itself on unit attentions alone. */
  lemma AskingNeverWaits(replies: nat -> Reply, start: nat, waitOff: bool, n: nat)
    requires IsCall(replies, start, 0x00, waitOff, n)
    ensures forall i :: start <= i < start + n - 1 ==> VerdictOf(replies(i)) == RetryNow
    ensures Count(replies, start, n - 1, Wait) == 0
  {
    hide VerdictOf;
    CountsBounded(replies, start, 0x00, waitOff, n - 1);
    forall i | start <= i < start + n - 1
      ensures VerdictOf(replies(i)) == RetryNow
    {
      assert Again(replies, start, 0x00, waitOff, i - start);
      assert start + (i - start) == i;
    }
  }

  // ---- when the wait ends -------------------------------------------------------------------------

  /** Reply n ends a wait that started at reply start: the drive is ready, has no medium or fails
      otherwise, or it is still not ready with the timeout reached. */
  ghost predicate Ends(replies: nat -> Reply, start: nat, timeoutMs: nat, n: nat) {
    && n >= start
    && match VerdictOf(replies(n))
       case RetryNow => false
       case Wait => Waited(Count(replies, start, n - start, Wait)) >= timeoutMs
       case _ => true
  }

  lemma {:induction false} AllWaits(replies: nat -> Reply, start: nat, n: nat)
    requires forall i :: start <= i < start + n ==> VerdictOf(replies(i)) == Wait
    ensures Count(replies, start, n, Wait) == n
  {
    hide VerdictOf;
    if n > 0 {
      AllWaits(replies, start, n - 1);
    }
  }

  /** A count that is exceeded was stood at just before some reply. */
  lemma {:induction false} CountPasses(replies: nat -> Reply, start: nat, n: nat, v: Verdict, c: nat) returns (i: nat)
    requires Count(replies, start, n, v) > c
    ensures i < n && VerdictOf(replies(start + i)) == v && Count(replies, start, i, v) == c
  {
    hide VerdictOf;
    if Count(replies, start, n - 1, v) > c {
      i := CountPasses(replies, start, n - 1, v, c);
    } else {
      i := n - 1;
    }
  }

  /** The wait comes back for every drive whose unit attentions are finite and every timeout but the
      largest. */
  lemma CalmDriveEnds(replies: nat -> Reply, start: nat, timeoutMs: nat, calm: nat) returns (last: nat)
    requires timeoutMs < U32 - 1
    requires forall n :: n >= calm ==> VerdictOf(replies(n)) != RetryNow
    ensures Ends(replies, start, timeoutMs, last)
  {
    hide VerdictOf, Count, Waited;
    var p, m := if start < calm then calm else start, WORST_POLLS + 1;
    if n :| p <= n < p + m && VerdictOf(replies(n)) != Wait {
      last := n;
    } else {
      AllWaits(replies, p, m);
      CountUpTo(replies, start, p, p + m, Wait);
      var i := CountPasses(replies, start, p + m - start, Wait, WORST_POLLS);
      WorstPolls();
      last := start + i;
    }
  }

  lemma WorstPolls()
    ensures Waited(WORST_POLLS) == U32 - 2
  {}

  /** With the largest timeout a drive that is never ready is waited for without end. */
  lemma LargestTimeoutNeverEnds(replies: nat -> Reply, start: nat, n: nat)
    requires forall i :: i >= start ==> VerdictOf(replies(i)) in {RetryNow, Wait}
    ensures !Ends(replies, start, U32 - 1, n)
  {
    hide VerdictOf, Count, Waited;
    if n >= start {
      var polls := Count(replies, start, n - start, Wait);
      EvenStaysEven(polls);
      CounterFits(polls);
    }
  }

  lemma CounterFits(polls: nat)
    ensures Waited(polls) < U32
  {}

  // ---- in terms of what the drive says ------------------------------------------------------------------

  /** Commands that only ask. */
  const ASKING: set<Byte> := {
    0x00 /* TEST UNIT READY */, 0x03 /* REQUEST SENSE */, 0x12 /* INQUIRY */, 0x1A /* MODE SENSE(6) */,
    0x23 /* READ FORMAT CAPACITIES */, 0x25 /* READ CAPACITY */, 0x28 /* READ(10) */, 0x42 /* READ SUB-CHANNEL */,
    0x43 /* READ TOC/PMA/ATIP */, 0x46 /* GET CONFIGURATION */, 0x4A /* GET EVENT STATUS NOTIFICATION */,
    0x51 /* READ DISC INFORMATION */, 0x52 /* READ TRACK INFORMATION */, 0x5A /* MODE SENSE(10) */,
    0x5C /* READ BUFFER CAPACITY */, 0xA8 /* READ(12) */, 0xAC /* GET PERFORMANCE */,
    0xAD /* READ DISC STRUCTURE */, 0xB9 /* READ CD MSF */, 0xBD /* MECHANISM STATUS */, 0xBE /* READ CD */
  }

  /** UNIT ATTENTION: the medium may have changed, or power on or reset. */
  predicate UnitAttention(r: Reply) {
    r.rc == ErrSense && r.sense.valid && r.sense.key == 6 && (r.sense.asc == 0x28 || r.sense.asc == 0x29)
  }

  /** NOT READY, logical unit not ready. */
  predicate NotReady(r: Reply) {
    r.rc == ErrSense && r.sense.valid && r.sense.key == 2 && r.sense.asc == 4
  }

  lemma VerdictIff(r: Reply)
    ensures VerdictOf(r) == RetryNow <==> UnitAttention(r)
    ensures VerdictOf(r) == Wait <==> NotReady(r)
    ensures VerdictOf(r) == NoMedium <==> r.rc == ErrSense && r.sense.valid && r.sense.key == 2 && r.sense.asc == 0x3A
    ensures SenseOf(r) == if r.rc == Ok then Sense(false, 0, 0, 0) else r.sense
  {}

  /** The unit attentions among replies lo up to hi. */
  ghost function Attentions(replies: nat -> Reply, lo: nat, hi: nat): set<nat> {
    set i: nat | lo <= i < hi && UnitAttention(replies(i))
  }

  /** The not-readies among replies lo up to hi. */
  ghost function NotReadies(replies: nat -> Reply, lo: nat, hi: nat): set<nat> {
    set i: nat | lo <= i < hi && NotReady(replies(i))
  }

  lemma AttentionsStep(replies: nat -> Reply, lo: nat, hi: nat)
    requires lo <= hi
    ensures |Attentions(replies, lo, hi + 1)| ==
      |Attentions(replies, lo, hi)| + (if UnitAttention(replies(hi)) then 1 else 0)
  {
    hide UnitAttention;
    assert Attentions(replies, lo, hi + 1) ==
      Attentions(replies, lo, hi) + (if UnitAttention(replies(hi)) then {hi} else {});
  }

  lemma NotReadiesStep(replies: nat -> Reply, lo: nat, hi: nat)
    requires lo <= hi
    ensures |NotReadies(replies, lo, hi + 1)| ==
      |NotReadies(replies, lo, hi)| + (if NotReady(replies(hi)) then 1 else 0)
  {
    hide NotReady;
    assert NotReadies(replies, lo, hi + 1) ==
      NotReadies(replies, lo, hi) + (if NotReady(replies(hi)) then {hi} else {});
  }

  lemma NoneBetween(replies: nat -> Reply, at: nat)
    ensures |Attentions(replies, at, at)| == 0 && |NotReadies(replies, at, at)| == 0
  {
    hide UnitAttention, NotReady;
    assert Attentions(replies, at, at) == {} && NotReadies(replies, at, at) == {};
  }

  lemma {:induction false} CountIsTheNumber(replies: nat -> Reply, start: nat, n: nat)
    ensures Count(replies, start, n, RetryNow) == |Attentions(replies, start, start + n)|
    ensures Count(replies, start, n, Wait) == |NotReadies(replies, start, start + n)|
  {
    hide VerdictOf, UnitAttention, NotReady, Attentions, NotReadies;
    if n > 0 {
      CountIsTheNumber(replies, start, n - 1);
      VerdictIff(replies(start + n - 1));
      AttentionsStep(replies, start, start + n - 1);
      NotReadiesStep(replies, start, start + n - 1);
    } else {
      NoneBetween(replies, start);
    }
  }

  /** After attempt k a command goes out again exactly when it only asks and the drive answered with a
      unit attention, fewer than three having come before, or, for any command but TEST UNIT READY and
      unless the wait is switched off, with not ready, less than a minute having been waited. */
  lemma RepeatedIff(replies: nat -> Reply, start: nat, op: Byte, waitOff: bool, k: nat)
    ensures Again(replies, start, op, waitOff, k) <==>
      && op in ASKING
      && (|| (UnitAttention(replies(start + k)) && |Attentions(replies, start, start + k)| < 3)
          || (NotReady(replies(start + k)) && !waitOff && op != 0
              && 250 * |NotReadies(replies, start, start + k)| < 60000))
  {
    hide VerdictOf, UnitAttention, NotReady, Count, Attentions, NotReadies;
    VerdictIff(replies(start + k));
    CountIsTheNumber(replies, start, k);
    AskingIsRepeatable(op);
  }

  lemma AskingIsRepeatable(op: Byte)
    ensures Repeatable(op) <==> op in ASKING
  {}

  /** A reply ends the wait unless it is a unit attention, or not ready with the counter, 250 ms a poll
      in 32 bits, still below the timeout. */
  lemma EndsIff(replies: nat -> Reply, start: nat, timeoutMs: nat, n: nat)
    requires n >= start
    ensures Ends(replies, start, timeoutMs, n) <==>
      && !UnitAttention(replies(n))
      && (NotReady(replies(n)) ==>
            250 * |NotReadies(replies, start, n)| % 0x1_0000_0000 >= timeoutMs)
  {
    hide VerdictOf, UnitAttention, NotReady, Count, Attentions, NotReadies;
    VerdictIff(replies(n));
    CountIsTheNumber(replies, start, n - start);
  }

  // ---- the handle ---------------------------------------------------------------------------------

  class Device {
    const replies: nat -> Reply
    /** Commands issued, over the life of the handle. */
    var issued: nat
    /** Milliseconds slept, over the life of the handle. */
    var slept: nat
    var lastSense: Sense
    var readyWaitOff: bool

    constructor (replies: nat -> Reply)
      ensures this.replies == replies && issued == 0 && slept == 0 && lastSense == NO_SENSE && !readyWaitOff
    {
      this.replies := replies;
      issued, slept, lastSense, readyWaitOff := 0, 0, NO_SENSE, false;
    }

    /** exec_once. */
    method ExecOnce() returns (rc: Rc)
      modifies this`issued, this`lastSense
      ensures issued == old(issued) + 1 && rc == replies(old(issued)).rc
      ensures lastSense == SenseOf(replies(old(issued)))
    {
      var r := replies(issued);
      rc := r.rc;
      lastSense := if rc == Ok then NO_SENSE else r.sense;
      issued := issued + 1;
    }

    /** adsc_dev_exec. */
    method Exec(op: Byte) returns (rc: Rc)
      modifies this`issued, this`slept, this`lastSense
      ensures issued > old(issued) && IsCall(replies, old(issued), op, readyWaitOff, issued - old(issued))
      ensures rc == replies(issued - 1).rc && lastSense == SenseOf(replies(issued - 1))
      ensures slept == old(slept) + POLL_MS * Count(replies, old(issued), issued - old(issued) - 1, Wait)
    {
      hide Classify, Repeatable, Count, SenseOf, Again, VerdictOf;
      var ua, waited := 0, 0;
      ghost var start := issued;
      NothingYet(replies, issued);
      rc := ExecOnce();
      while rc == ErrSense && Repeatable(op)
        invariant start == old(issued) < issued
        invariant rc == replies(issued - 1).rc && lastSense == SenseOf(replies(issued - 1))
        invariant forall k :: 0 <= k < issued - start - 1 ==> Again(replies, start, op, readyWaitOff, k)
        invariant ua == Count(replies, start, issued - start - 1, RetryNow)
        invariant waited == POLL_MS * Count(replies, start, issued - start - 1, Wait) && slept == old(slept) + waited
        decreases UA_RETRIES - ua, TIMEOUT_MS - waited
      {
        var what := Classify(rc, lastSense);
        VerdictIs(replies(issued - 1), what);
        AgainIff(replies, start, op, readyWaitOff, issued - 1 - start, what);
        CountUpTo(replies, start, start, issued - 1, RetryNow);
        CountUpTo(replies, start, start, issued - 1, Wait);
        if what == RetryNow {
          if ua >= UA_RETRIES {
            break;
          }
          ua := ua + 1;
          rc := ExecOnce();
          continue;
        }
        if what != Wait || readyWaitOff || op == 0x00 {
          break;
        }
        if waited >= TIMEOUT_MS {
          break;
        }
        slept := slept + POLL_MS;
        waited := waited + POLL_MS;
        rc := ExecOnce();
      }
      if rc != ErrSense || !Repeatable(op) {
        EndsHere(replies, start, op, readyWaitOff, issued - 1 - start);
      }
    }

    /** adsc_dev_wait_ready, wherever it comes back at all: it stops at the first reply that ends it. */
    method WaitReady(timeoutMs: nat, ghost last: nat) returns (rc: Rc)
      requires timeoutMs < U32 && Ends(replies, issued, timeoutMs, last)
      modifies this`issued, this`slept, this`lastSense
      ensures issued > old(issued) && lastSense == SenseOf(replies(issued - 1))
      ensures Ends(replies, old(issued), timeoutMs, issued - 1)
      ensures forall n: nat :: old(issued) <= n < issued - 1 ==> !Ends(replies, old(issued), timeoutMs, n)
      ensures rc == Ok <==> replies(issued - 1).rc == Ok
      ensures rc == if VerdictOf(replies(issued - 1)) == Wait then ErrIo else replies(issued - 1).rc
      ensures slept == old(slept) + POLL_MS * Count(replies, old(issued), issued - old(issued) - 1, Wait)
      ensures timeoutMs <= 4294967250 ==> slept < old(slept) + timeoutMs + POLL_MS
    {
      hide Classify, Count, IsCall, Waited;
      var waited := 0;
      ghost var polls := 0;
      ghost var start := issued;
      NothingYet(replies, issued);
      while true
        invariant start == old(issued) <= issued && waited == Waited(polls)
        invariant polls == Count(replies, start, issued - start, Wait)
        invariant slept == old(slept) + POLL_MS * polls
        invariant forall n: nat :: start <= n < issued ==> !Ends(replies, start, timeoutMs, n)
        invariant timeoutMs <= LAST_MULTIPLE ==> POLL_MS * polls < timeoutMs + POLL_MS
        decreases last + 1 - issued
      {
        ghost var before := issued;
        rc := Exec(0x00);
        var what := Classify(rc, lastSense);
        AskingNeverWaits(replies, before, readyWaitOff, issued - before);
        CountUpTo(replies, start, before, issued - 1, Wait);
        assert what == VerdictOf(replies(issued - 1));
        YesIsOk(replies(issued - 1));
        if what == Yes {
          return Ok;
        }
        if what == RetryNow {
          continue;
        }
        if what == NoMedium || what == Other {
          return rc;
        }
        if waited >= timeoutMs {
          return ErrIo;
        }
        PollFits(polls, timeoutMs);
        slept := slept + POLL_MS;
        waited := (waited + POLL_MS) % U32;
        polls := polls + 1;
      }
    }
  }
}

/** The ring of chunks that lets the engine read on while the caller's sink is busy, as a step system
    of two threads whose critical sections are atomic. Waiting for a condition is a state, left by a
    signal of the other thread or spuriously. */
module AccuBuffer {

  const MIN_SLOTS := 2
  const MAX_SLOTS := 4096
  /** The slot count is a 32-bit counter and wraps. */
  const WRAP := 0x1_0000_0000

  /** The consumer thread: about to take the lock, waiting for not_empty, inside the sink with
      one slot's chunk, or gone. */
  datatype Consumer<T> = Ready | Asleep | Calling(slot: nat, chunk: T) | Exited

  /** The producer thread: between calls, in push about to take the lock, waiting for not_full, in
      stop waiting for the consumer to exit, or returned from stop. */
  datatype Producer<T> = Idle | Pushing(c: T) | Blocked(c: T) | Joining | Stopped(rc: int)

  datatype State<T> = State(slots: seq<T>, head: nat, tail: nat, count: nat, producerDone: bool, sinkRc: int,
                            consumer: Consumer<T>, producer: Producer<T>,
                            // what has happened so far
                            pushed: seq<T>, delivered: seq<T>, results: seq<int>, discarded: bool)
  {
    function N(): nat { |slots| }
  }

  /** adsc_accubuf_start sizes the ring in whole slots, clamped. */
  function SlotCount(bytes: nat, slotBytes: nat): (n: nat)
    requires slotBytes > 0
    ensures 2 <= n <= 4096
    ensures n > 2 ==> n * slotBytes <= bytes
    ensures n < 4096 ==> bytes < (n + 1) * slotBytes
  {
    var want := bytes / slotBytes;
    if want < MIN_SLOTS then MIN_SLOTS else if want > MAX_SLOTS then MAX_SLOTS else want
  }

  function Wake<T>(c: Consumer<T>): Consumer<T> {
    if c.Asleep? then Ready else c
  }

  function Unblock<T>(p: Producer<T>): Producer<T> {
    if p.Blocked? then Pushing(p.c) else p
  }

  function Increment(count: nat): (c: nat)
    requires count < WRAP
    ensures c == if count == WRAP - 1 then 0 else count + 1
  {
    (count + 1) % WRAP
  }

  function Decrement(count: nat): (c: nat)
    requires count < WRAP
    ensures c == if count == 0 then WRAP - 1 else count - 1
  {
    (count + WRAP - 1) % WRAP
  }

  // ---- the critical sections ------------------------------------------------------------------

  /** drain, first section: wait, exit, or pick up the chunk at the tail. */
  function TakeSection<T>(s: State<T>): State<T>
    requires s.consumer.Ready? && s.tail < s.N()
  {
    if s.count == 0 && !s.producerDone then s.(consumer := Asleep)
    else if s.count == 0 then s.(consumer := Exited)
    else s.(consumer := Calling(s.tail, s.slots[s.tail]), delivered := s.delivered + [s.slots[s.tail]])
  }

  /** drain, second section: the sink has returned rc. */
  function ReturnSection<T>(s: State<T>, rc: int): State<T>
    requires s.consumer.Calling? && s.N() > 0 && s.count < WRAP
  {
    s.(tail := Succ(s.tail, s.N()),
       count := Decrement(s.count),
       sinkRc := if rc != 0 && s.sinkRc == 0 then rc else s.sinkRc,
       producer := Unblock(s.producer),
       consumer := if rc != 0 then Exited else Ready,
       results := s.results + [rc])
  }

  /** push, under the lock: wait while full and unrefused, give up on a refusal, or copy in. */
  function PushSection<T>(s: State<T>): State<T>
    requires s.producer.Pushing? && s.head < s.N() && s.count < WRAP
  {
    if s.count == s.N() && s.sinkRc == 0 then s.(producer := Blocked(s.producer.c))
    else if s.sinkRc != 0 then s.(producer := Idle)
    else s.(slots := s.slots[s.head := s.producer.c],
            head := Succ(s.head, s.N()),
            count := Increment(s.count),
            consumer := Wake(s.consumer),
            producer := Idle,
            pushed := s.pushed + [s.producer.c])
  }

  /** stop, under the lock. */
  function StopSection<T>(s: State<T>, discard: bool): State<T>
    requires s.producer.Idle?
  {
    s.(producerDone := true,
       count := if discard then 0 else s.count,
       tail := if discard then s.head else s.tail,
       consumer := Wake(s.consumer),
       producer := Joining,
       discarded := discard)
  }

  // ---- runs --------------------------------------------------------------------------------------

  ghost predicate Init<T(!new)>(s: State<T>) {
    && MIN_SLOTS <= s.N() <= MAX_SLOTS
    && s.head == s.tail == s.count == s.sinkRc == 0 && !s.producerDone && !s.discarded
    && s.consumer.Ready? && s.producer.Idle?
    && s.pushed == s.delivered == [] && s.results == []
  }

  /** One step of either thread, spurious wakeups included. */
  ghost predicate Next<T(!new)>(s: State<T>, s': State<T>) {
    || (s.consumer.Ready? && s.tail < s.N() && s' == TakeSection(s))
    || (s.consumer.Calling? && s.N() > 0 && s.count < WRAP && exists rc :: s' == ReturnSection(s, rc))
    || (s.consumer.Asleep? && s' == s.(consumer := Ready))
    || (s.producer.Idle? && exists c :: s' == s.(producer := Pushing(c)))
    || (s.producer.Pushing? && s.head < s.N() && s.count < WRAP && s' == PushSection(s))
    || (s.producer.Blocked? && s' == s.(producer := Pushing(s.producer.c)))
    || (s.producer.Idle? && exists discard :: s' == StopSection(s, discard))
    || (s.producer.Joining? && s.consumer.Exited? && s' == s.(producer := Stopped(s.sinkRc)))
  }

  /** Consecutive states of a run. */
  ghost predicate Run<T(!new)>(run: seq<State<T>>) {
    |run| > 0 && forall i :: 0 <= i < |run| - 1 ==> Next(run[i], run[i + 1])
  }

  ghost predicate Reachable<T(!new)>(s: State<T>) {
    exists run: seq<State<T>> :: Run(run) && Init(run[0]) && run[|run| - 1] == s
  }

  // ---- what every reachable state keeps ------------------------------------------------------------

  /** Holds in every state, abandoned or not: who can be waiting and why. */
  ghost predicate Waits<T(!new)>(s: State<T>) {
    && MIN_SLOTS <= s.N() <= MAX_SLOTS && s.head < s.N() && s.tail < s.N() && s.count < WRAP
    && (s.producerDone <==> s.producer.Joining? || s.producer.Stopped?)
    && (s.discarded ==> s.producerDone)
    && (s.consumer.Asleep? ==> s.count == 0 && !s.producerDone)
    && (s.producer.Blocked? ==> s.count == s.N() && s.sinkRc == 0)
    && (s.consumer.Exited? ==> s.sinkRc != 0 || s.producerDone)
    && (s.producer.Stopped? ==> s.consumer.Exited? && s.producer.rc == s.sinkRc)
    && Refusals(s)
  }

  /** The reported code is the sink's one nonzero result, which ended its being called. */
  ghost predicate Refusals<T(!new)>(s: State<T>) {
    && |s.delivered| == |s.results| + (if s.consumer.Calling? then 1 else 0)
    && (s.sinkRc == 0 ==> forall i :: 0 <= i < |s.results| ==> s.results[i] == 0)
    && (s.sinkRc != 0 ==>
          && s.consumer.Exited?
          && |s.results| > 0 && s.results[|s.results| - 1] == s.sinkRc
          && forall i :: 0 <= i < |s.results| - 1 ==> s.results[i] == 0)
  }

  /** Until a discard: the ring holds exactly the pushed chunks not yet returned from the sink, in
      order, and the chunk inside the sink is still in its slot. */
  ghost predicate Ring<T(!new)>(s: State<T>) {
    && 0 < s.N() && s.tail < s.N() && s.count <= s.N() && s.count <= |s.pushed|
    && s.head == Index(s.tail, s.count, s.N())
    && (forall k: nat {:trigger Index(s.tail, k, s.N())} :: k < s.count ==>
          s.slots[Index(s.tail, k, s.N())] == s.pushed[|s.pushed| - s.count + k])
    && (s.consumer.Calling? ==>
          s.count > 0 && s.consumer.slot == s.tail && s.consumer.chunk == s.slots[s.tail])
    && s.delivered == s.pushed[..|s.pushed| - s.count + (if s.consumer.Calling? then 1 else 0)]
    && (s.consumer.Exited? && s.sinkRc == 0 ==> s.count == 0)
  }

  /** The k-th slot from the tail. */
  function Index(tail: nat, k: nat, n: nat): (i: nat)
    requires tail < n && k <= n
    ensures i < n
  {
    if tail + k < n then tail + k else tail + k - n
  }

  function Succ(i: nat, n: nat): (j: nat)
    requires n > 0
    ensures j < n
  {
    (i + 1) % n
  }

  ghost predicate Inv<T(!new)>(s: State<T>) {
    Waits(s) && (!s.discarded ==> Ring(s))
  }

  lemma WaitsInitially<T(!new)>(s: State<T>)
    requires Init(s)
    ensures Inv(s)
  {}

  lemma WaitsStep<T(!new)>(s: State<T>, s': State<T>)
    requires Waits(s) && Next(s, s')
    ensures Waits(s')
  {
    hide Succ, Increment, Decrement, Waits, TakeSection, ReturnSection, PushSection, StopSection, Wake, Unblock;
    if s.consumer.Ready? && s.tail < s.N() && s' == TakeSection(s) {
      WaitsAfterTake(s);
    } else if s.consumer.Calling? && s.N() > 0 && s.count < WRAP && exists rc :: s' == ReturnSection(s, rc) {
      var rc :| s' == ReturnSection(s, rc);
      WaitsAfterReturn(s, rc);
    } else if s.producer.Pushing? && s.head < s.N() && s.count < WRAP && s' == PushSection(s) {
      WaitsAfterPush(s);
    } else if s.producer.Idle? && exists discard :: s' == StopSection(s, discard) {
      var discard :| s' == StopSection(s, discard);
      WaitsAfterStop(s, discard);
    } else {
      WaitsOtherwise(s, s');
    }
  }

  lemma WaitsAfterTake<T(!new)>(s: State<T>)
    requires Waits(s) && s.consumer.Ready? && s.tail < s.N()
    ensures Waits(TakeSection(s))
  {}

  lemma WaitsAfterReturn<T(!new)>(s: State<T>, rc: int)
    requires Waits(s) && s.consumer.Calling? && s.N() > 0
    ensures Waits(ReturnSection(s, rc))
  {
    hide Succ, Decrement;
  }

  lemma WaitsAfterPush<T(!new)>(s: State<T>)
    requires Waits(s) && s.producer.Pushing? && s.head < s.N()
    ensures Waits(PushSection(s))
  {
    hide Succ, Increment;
  }

  lemma WaitsAfterStop<T(!new)>(s: State<T>, discard: bool)
    requires Waits(s) && s.producer.Idle?
    ensures Waits(StopSection(s, discard))
  {}

  /** Waking up, calling push and returning from stop. */
  lemma WaitsOtherwise<T(!new)>(s: State<T>, s': State<T>)
    requires Waits(s)
    requires
      || (s.consumer.Asleep? && s' == s.(consumer := Ready))
      || (s.producer.Idle? && exists c :: s' == s.(producer := Pushing(c)))
      || (s.producer.Blocked? && s' == s.(producer := Pushing(s.producer.c)))
      || (s.producer.Joining? && s.consumer.Exited? && s' == s.(producer := Stopped(s.sinkRc)))
    ensures Waits(s')
  {}

  lemma SuccIs(i: nat, n: nat)
    requires i < n
    ensures Succ(i, n) == if i + 1 == n then 0 else i + 1
  {
    if i + 1 < n {
      SmallMod(i + 1, n);
    }
  }

  lemma SmallMod(i: nat, n: nat)
    requires i < n
    ensures i % n == i
  {}

  lemma IndexLaws(tail: nat, k: nat, n: nat)
    requires tail < n && k < n
    ensures Index(tail, 0, n) == tail
    ensures Succ(Index(tail, k, n), n) == Index(tail, k + 1, n)
    ensures Index(Succ(tail, n), k, n) == Index(tail, k + 1, n)
  {
    hide Succ;
    SuccIs(tail, n);
    SuccIs(Index(tail, k, n), n);
  }

  lemma IndexInjective(tail: nat, j: nat, k: nat, n: nat)
    requires tail < n && j < k < n
    ensures Index(tail, j, n) != Index(tail, k, n)
  {}

  lemma RingAfterTake<T(!new)>(s: State<T>)
    requires Waits(s) && Ring(s) && s.consumer.Ready?
    ensures Ring(TakeSection(s))
  {
    hide Index, Succ, Increment, Decrement;
    IndexLaws(s.tail, 0, s.N());
  }

  lemma RingAfterReturn<T(!new)>(s: State<T>, rc: int)
    requires Waits(s) && Ring(s) && s.consumer.Calling?
    ensures Ring(ReturnSection(s, rc))
  {
    hide Index, Succ, Increment, Decrement;
    var s' := ReturnSection(s, rc);
    var n := s.N();
    forall k: nat | k < s.count
      ensures Index(s'.tail, k, n) == Index(s.tail, k + 1, n)
    {
      IndexLaws(s.tail, k, n);
    }
    IndexLaws(s.tail, s.count - 1, n);
    assert s.pushed[..|s.pushed| - s.count + 1] == s.delivered;
  }

  /** The slots a push leaves in use, in order. */
  lemma SlotsAfterPush<T(!new)>(s: State<T>)
    requires Waits(s) && Ring(s) && s.producer.Pushing? && s.sinkRc == 0 && s.count < s.N()
    ensures
      var s' := PushSection(s);
      forall k: nat {:trigger Index(s.tail, k, s.N())} :: k < s.count + 1 ==>
        s'.slots[Index(s.tail, k, s.N())] == s'.pushed[|s'.pushed| - (s.count + 1) + k]
  {
    hide Index, Succ, Increment;
    forall k: nat | k < s.count
      ensures Index(s.tail, k, s.N()) != s.head
    {
      IndexInjective(s.tail, k, s.count, s.N());
    }
  }

  lemma RingAfterPush<T(!new)>(s: State<T>)
    requires Waits(s) && Ring(s) && s.producer.Pushing?
    ensures Ring(PushSection(s))
  {
    hide Index, Succ, Increment, Decrement, Ring;
    RingSize(s);
    if s.sinkRc == 0 && s.count < s.N() {
      RingAfterAcceptedPush(s);
    } else {
      RingIgnoresWaiting(s, PushSection(s));
    }
  }

  lemma RingSize<T(!new)>(s: State<T>)
    requires Ring(s)
    ensures s.count <= s.N()
  {}

  lemma RingAfterAcceptedPush<T(!new)>(s: State<T>)
    requires Waits(s) && Ring(s) && s.producer.Pushing? && s.sinkRc == 0 && s.count < s.N()
    ensures Ring(PushSection(s))
  {
    hide Index, Succ, Increment, Decrement;
    SlotsAfterPush(s);
    IndexLaws(s.tail, s.count, s.N());
    IndexLaws(s.tail, 0, s.N());
    if s.consumer.Calling? {
      IndexInjective(s.tail, 0, s.count, s.N());
    }
    PrefixOfLonger(s.pushed, s.producer.c, |s.pushed| - s.count + (if s.consumer.Calling? then 1 else 0));
  }

  lemma PrefixOfLonger<T>(p: seq<T>, c: T, m: nat)
    requires m <= |p|
    ensures (p + [c])[..m] == p[..m]
  {}

  lemma RingStep<T(!new)>(s: State<T>, s': State<T>)
    requires Waits(s) && Ring(s) && Next(s, s') && !s'.discarded
    ensures Ring(s')
  {
    hide Index, Ring, Succ, Increment, Decrement;
    if s.consumer.Ready? && s' == TakeSection(s) {
      RingAfterTake(s);
    } else if s.consumer.Calling? && exists rc :: s' == ReturnSection(s, rc) {
      var rc :| s' == ReturnSection(s, rc);
      RingAfterReturn(s, rc);
    } else if s.producer.Pushing? && s' == PushSection(s) {
      RingAfterPush(s);
    } else {
      RingIgnoresWaiting(s, s');
    }
  }

  lemma RingIgnoresWaiting<T(!new)>(s: State<T>, s': State<T>)
    requires Ring(s)
    requires s'.slots == s.slots && s'.tail == s.tail && s'.head == s.head && s'.count == s.count
    requires s'.pushed == s.pushed && s'.delivered == s.delivered && s'.sinkRc == s.sinkRc
    requires s'.consumer == s.consumer || (s.consumer.Asleep? && s'.consumer.Ready?)
    ensures Ring(s')
  {}

  // ---- every interleaving ------------------------------------------------------------------------

  lemma InvStep<T(!new)>(s: State<T>, s': State<T>)
    requires Inv(s) && Next(s, s')
    ensures Inv(s')
  {
    hide Ring, Index, Succ, Waits;
    WaitsStep(s, s');
    if s.discarded {
      DiscardIsForever(s, s');
    } else if !s'.discarded {
      RingStep(s, s');
    }
  }

  lemma DiscardIsForever<T(!new)>(s: State<T>, s': State<T>)
    requires Waits(s) && Next(s, s') && s.discarded
    ensures s'.discarded
  {}

  lemma {:induction false} RunKeepsInv<T(!new)>(run: seq<State<T>>, i: nat)
    requires Run(run) && Init(run[0]) && i < |run|
    ensures Inv(run[i])
  {
    hide Inv, Next, Init;
    if i == 0 {
      WaitsInitially(run[0]);
    } else {
      RunKeepsInv(run, i - 1);
      assert Next(run[i - 1], run[i - 1 + 1]);
      InvStep(run[i - 1], run[i]);
    }
  }

  lemma ReachableKeepsInv<T(!new)>(s: State<T>)
    requires Reachable(s)
    ensures Inv(s)
  {
    hide Inv, Init;
    var run: seq<State<T>> :| Run(run) && Init(run[0]) && run[|run| - 1] == s;
    RunKeepsInv(run, |run| - 1);
  }

  /** What reaches the sink is an in-order prefix of what was pushed, and the chunk a callback is
      looking at stays in its slot, equal to what was pushed, for the whole callback. */
  lemma DeliveredInOrderAndIntact<T(!new)>(s: State<T>)
    requires Reachable(s) && !s.discarded
    ensures s.delivered <= s.pushed
    ensures |s.pushed| <= |s.delivered| + s.N()
    ensures s.consumer.Calling? ==>
      && |s.delivered| > 0
      && s.consumer.slot < s.N()
      && s.slots[s.consumer.slot] == s.consumer.chunk == s.pushed[|s.delivered| - 1]
  {
    ReachableKeepsInv(s);
    hide Index;
    if s.consumer.Calling? {
      IndexLaws(s.tail, 0, s.N());
      assert s.slots[Index(s.tail, 0, s.N())] == s.pushed[|s.pushed| - s.count + 0];
    }
  }

  /** A draining stop with no refusal hands over everything that was pushed. */
  lemma DrainingStopDeliversAll<T(!new)>(s: State<T>)
    requires Reachable(s) && s.producer.Stopped? && s.producer.rc == 0 && !s.discarded
    ensures s.delivered == s.pushed
    ensures forall i :: 0 <= i < |s.results| ==> s.results[i] == 0
  {
    ReachableKeepsInv(s);
  }

  /** Stop reports the sink's first nonzero result, and the sink was never called after it. */
  lemma StopReportsFirstRefusal<T(!new)>(s: State<T>)
    requires Reachable(s) && s.producer.Stopped?
    ensures |s.delivered| == |s.results|
    ensures s.producer.rc == 0 ==> forall i :: 0 <= i < |s.results| ==> s.results[i] == 0
    ensures s.producer.rc != 0 ==>
      && |s.results| > 0 && s.results[|s.results| - 1] == s.producer.rc
      && forall i :: 0 <= i < |s.results| - 1 ==> s.results[i] == 0
  {
    ReachableKeepsInv(s);
  }

  predicate ProducerCanMove<T>(s: State<T>) {
    s.producer.Idle? || s.producer.Pushing? || (s.producer.Joining? && s.consumer.Exited?)
  }

  predicate ConsumerCanMove<T>(s: State<T>) {
    s.consumer.Ready? || s.consumer.Calling?
  }

  /** Some step takes the producer on. */
  ghost predicate ProducerSteps<T(!new)>(s: State<T>) {
    exists s': State<T> :: Next(s, s') && s'.producer != s.producer
  }

  /** Some step takes the consumer on. */
  ghost predicate ConsumerSteps<T(!new)>(s: State<T>) {
    exists s': State<T> :: Next(s, s') && s'.consumer != s.consumer
  }

  lemma MovingIsAStep<T(!new)>(s: State<T>)
    requires Waits(s)
    ensures ProducerCanMove(s) ==> ProducerSteps(s)
    ensures ConsumerCanMove(s) ==> ConsumerSteps(s)
  {
    hide Succ, Increment, Decrement;
    if s.producer.Idle? {
      assert Next(s, StopSection(s, false));
    } else if s.producer.Pushing? {
      assert Next(s, PushSection(s));
    } else if s.producer.Joining? && s.consumer.Exited? {
      assert Next(s, s.(producer := Stopped(s.sinkRc)));
    }
    if s.consumer.Ready? {
      assert Next(s, TakeSection(s));
    } else if s.consumer.Calling? {
      assert Next(s, ReturnSection(s, 0));
    }
  }

  /** No wakeup is lost: whichever thread is waiting, the other one can move, without counting
      spurious wakeups. */
  lemma NoDeadlock<T(!new)>(s: State<T>)
    requires Reachable(s) && !s.producer.Stopped?
    ensures ProducerCanMove(s) || ConsumerCanMove(s)
    ensures s.producer.Blocked? ==> ConsumerSteps(s)
    ensures s.consumer.Asleep? ==> ProducerSteps(s)
  {
    hide ProducerSteps, ConsumerSteps;
    ReachableKeepsInv(s);
    MovingIsAStep(s);
  }

  /** Callbacks the consumer can still make once the producer is in stop, the count wrapping as the
      code lets it. */
  function CallsLeft<T>(s: State<T>): nat
    requires s.count < WRAP
  {
    match s.consumer
    case Exited => 0
    case Calling(_, _) => Decrement(s.count)
    case _ => s.count
  }

  /** Work left for the consumer once the producer is in stop. */
  function Remaining<T>(s: State<T>): nat
    requires s.count < WRAP
  {
    2 * CallsLeft(s) + (if s.consumer.Exited? then 0 else if s.consumer.Calling? then 2 else 1)
  }

  lemma StopStep<T(!new)>(s: State<T>, s': State<T>)
    requires Waits(s) && s.producer.Joining? && Next(s, s')
    ensures s.count < WRAP && s'.count < WRAP
    ensures s'.producer.Stopped? || (s'.producer.Joining? && Remaining(s') < Remaining(s))
    ensures |s'.delivered| + CallsLeft(s') <= |s.delivered| + CallsLeft(s)
  {
    hide Index, Succ;
  }

  /** Stop comes back, draining or discarding: every step brings the consumer's exit closer. */
  lemma StopProgresses<T(!new)>(s: State<T>, s': State<T>)
    requires Reachable(s) && s.producer.Joining? && Next(s, s')
    ensures s.count < WRAP && s'.count < WRAP
    ensures s'.producer.Stopped? || (s'.producer.Joining? && Remaining(s') < Remaining(s))
  {
    ReachableKeepsInv(s);
    StopStep(s, s');
  }

  // ---- discarding while the sink is running ---------------------------------------------------------

  ghost predicate From<T(!new)>(run: seq<State<T>>, s: State<T>) {
    Run(run) && run[0] == s
  }

  /** An abandoned ring with nothing in flight: only the consumer's exit is left. */
  ghost predicate Abandoned<T(!new)>(s: State<T>, delivered: seq<T>) {
    && s.producerDone && (s.producer.Joining? || s.producer.Stopped?)
    && ((s.consumer.Ready? && s.count == 0) || s.consumer.Exited?)
    && s.delivered == delivered
  }

  lemma {:induction false} AbandonedStays<T(!new)>(run: seq<State<T>>, delivered: seq<T>, i: nat)
    requires Run(run) && Abandoned(run[0], delivered) && i < |run|
    ensures Abandoned(run[i], delivered)
    ensures run[i].count == run[0].count && run[i].N() == run[0].N()
  {
    hide Succ;
    if i > 0 {
      AbandonedStays(run, delivered, i - 1);
      assert Next(run[i - 1], run[i - 1 + 1]);
    }
  }

  /** The slot count stays within the ring after a discarding stop exactly when the sink is not
      running at that moment. */
  lemma DiscardKeepsCountIff<T(!new)>(s: State<T>)
    requires Reachable(s) && s.producer.Idle?
    ensures
      (forall run: seq<State<T>> {:trigger From(run, StopSection(s, true))} :: From(run, StopSection(s, true)) ==>
         run[|run| - 1].count <= run[|run| - 1].N())
      <==> !s.consumer.Calling?
  {
    ReachableKeepsInv(s);
    var stopped := StopSection(s, true);
    if s.consumer.Calling? {
      var after := ReturnSection(stopped, 0);
      assert Next(stopped, after);
      assert From([stopped, after], stopped);
      assert after.count == WRAP - 1;
    } else {
      forall run: seq<State<T>> | From(run, stopped)
        ensures run[|run| - 1].count <= run[|run| - 1].N()
      {
        AbandonedStays(run, s.delivered, |run| - 1);
      }
    }
  }

  /** A discarding stop is the last the sink hears of the ring exactly when the sink is not running
      at that moment. */
  lemma DiscardIsFinalIff<T(!new)>(s: State<T>)
    requires Reachable(s) && s.producer.Idle?
    ensures
      (forall run: seq<State<T>> {:trigger From(run, StopSection(s, true))} :: From(run, StopSection(s, true)) ==>
         run[|run| - 1].delivered == s.delivered)
      <==> !s.consumer.Calling?
  {
    ReachableKeepsInv(s);
    var stopped := StopSection(s, true);
    if s.consumer.Calling? {
      var after := ReturnSection(stopped, 0);
      var stale := TakeSection(after);
      assert Next(stopped, after);
      assert Next(after, stale);
      assert From([stopped, after, stale], stopped);
      assert |stale.delivered| == |s.delivered| + 1;
    } else {
      forall run: seq<State<T>> | From(run, stopped)
        ensures run[|run| - 1].delivered == s.delivered
      {
        AbandonedStays(run, s.delivered, |run| - 1);
      }
    }
  }

  /** With the sink running, its own answer decides: the consumer stops after this callback exactly
      when the callback refuses. */
  lemma InFlightAnswerDecides<T(!new)>(s: State<T>, rc: int)
    requires Reachable(s) && s.producer.Idle? && s.consumer.Calling? && s.N() > 0
    ensures
      var after := ReturnSection(StopSection(s, true), rc);
      (forall run: seq<State<T>> {:trigger From(run, after)} :: From(run, after) ==>
         run[|run| - 1].delivered == s.delivered)
      <==> rc != 0
  {
    ReachableKeepsInv(s);
    var after := ReturnSection(StopSection(s, true), rc);
    if rc == 0 {
      var stale := TakeSection(after);
      assert Next(after, stale);
      assert From([after, stale], after);
      assert |stale.delivered| == |s.delivered| + 1;
    } else {
      forall run: seq<State<T>> | From(run, after)
        ensures run[|run| - 1].delivered == s.delivered
      {
        AbandonedStays(run, s.delivered, |run| - 1);
      }
    }
  }

  lemma {:induction false} DeliveriesBounded<T(!new)>(run: seq<State<T>>, i: nat)
    requires Run(run) && Waits(run[0]) && run[0].producer.Joining? && i < |run|
    ensures Waits(run[i]) && (run[i].producer.Joining? || run[i].producer.Stopped?) && run[i].count < WRAP
    ensures |run[i].delivered| + CallsLeft(run[i]) <= |run[0].delivered| + CallsLeft(run[0])
  {
    hide Waits, CallsLeft, Next;
    WaitsCount(run[0]);
    if i > 0 {
      DeliveriesBounded(run, i - 1);
      assert Next(run[i - 1], run[i - 1 + 1]);
      WaitsStep(run[i - 1], run[i]);
      if run[i - 1].producer.Joining? {
        StopStep(run[i - 1], run[i]);
      } else {
        NothingAfterStop(run[i - 1], run[i]);
      }
    }
  }

  lemma WaitsCount<T(!new)>(s: State<T>)
    requires Waits(s)
    ensures s.count < WRAP
  {}

  lemma NothingAfterStop<T(!new)>(s: State<T>, s': State<T>)
    requires Waits(s) && s.producer.Stopped?
    ensures !Next(s, s')
  {}

  lemma Preceded<T(!new)>(s: State<T>, rest: seq<State<T>>)
    requires Run(rest) && Next(s, rest[0])
    ensures Run([s] + rest)
  {
    hide Next;
    var run := [s] + rest;
    forall i | 0 <= i < |run| - 1
      ensures Next(run[i], run[i + 1])
    {
      if i >= 1 {
        assert Next(rest[i - 1], rest[i - 1 + 1]);
      }
    }
  }

  /** A consumer that is never refused goes on until the count is used up. */
  lemma {:induction false} DrainRun<T(!new)>(s: State<T>) returns (run: seq<State<T>>)
    requires s.consumer.Ready? && s.producerDone && s.tail < s.N() && s.count < WRAP
    ensures From(run, s) && run[|run| - 1].consumer.Exited?
    ensures |run[|run| - 1].delivered| == |s.delivered| + s.count
    decreases s.count
  {
    var taken := TakeSection(s);
    assert Next(s, taken);
    if s.count == 0 {
      run := [s, taken];
    } else {
      var returned := ReturnSection(taken, 0);
      assert Next(taken, returned);
      var rest := DrainRun(returned);
      Preceded(taken, rest);
      Preceded(s, [taken] + rest);
      run := [s] + ([taken] + rest);
    }
  }

  /** After a discarding stop during a callback the sink is called at most 2^32 - 1 times more, and
      that many times if it never refuses. */
  lemma StaleDeliveries<T(!new)>(s: State<T>) returns (worst: seq<State<T>>)
    requires Reachable(s) && s.producer.Idle? && s.consumer.Calling?
    ensures forall run: seq<State<T>> {:trigger From(run, StopSection(s, true))} :: From(run, StopSection(s, true)) ==>
      |run[|run| - 1].delivered| <= |s.delivered| + WRAP - 1
    ensures From(worst, StopSection(s, true)) && worst[|worst| - 1].consumer.Exited?
    ensures |worst[|worst| - 1].delivered| == |s.delivered| + WRAP - 1
  {
    ReachableKeepsInv(s);
    var stopped := StopSection(s, true);
    assert Next(s, stopped);
    WaitsStep(s, stopped);
    forall run: seq<State<T>> | From(run, stopped)
      ensures |run[|run| - 1].delivered| <= |s.delivered| + WRAP - 1
    {
      DeliveriesBounded(run, |run| - 1);
    }
    var returned := ReturnSection(stopped, 0);
    assert Next(stopped, returned);
    var rest := DrainRun(returned);
    worst := [stopped] + rest;
    Preceded(stopped, rest);
  }

  /** Push, callback and discarding stop: the ring is marked empty one slot on. */
  lemma RaceBegins<T(!new)>(start: State<T>, c: T, calling: State<T>)
    requires Init(start) && calling == TakeSection(PushSection(start.(producer := Pushing(c))))
    ensures
      var s := StopSection(calling, true);
      && s.slots == start.slots[0 := c] && s.tail == 1 && s.count == 0 && s.producer.Joining? && s.discarded
      && s.consumer == Calling(0, c) && s.pushed == s.delivered == [c] && s.sinkRc == 0
  {
    hide Increment;
    SuccIs(0, start.N());
  }

  /** The callback returns: the count wraps and the slot behind is delivered. */
  lemma RaceEnds<T(!new)>(s: State<T>, returned: State<T>)
    requires s.N() >= 2 && s.tail == 1 && s.count == 0 && s.consumer.Calling? && returned == ReturnSection(s, 0)
    ensures returned.tail < s.N() && returned.consumer.Ready?
    ensures
      var next := TakeSection(returned);
      && next.pushed == s.pushed && next.discarded == s.discarded
      && next.delivered == s.delivered + [s.slots[if s.N() == 2 then 0 else 2]]
  {
    SuccIs(1, s.N());
  }

  lemma RaceIsARun<T(!new)>(start: State<T>, c: T, pushing: State<T>, filled: State<T>, calling: State<T>)
    requires Init(start) && pushing == start.(producer := Pushing(c))
    requires filled == PushSection(pushing) && calling == TakeSection(filled)
    ensures Next(start, pushing) && Next(pushing, filled) && Next(filled, calling)
    ensures Next(calling, StopSection(calling, true))
  {
    hide Next, Succ, Increment;
    StepAsks(start, c);
    StepPushes(pushing);
    StepTakes(filled);
    StepStops(calling, true);
  }

  lemma RunReaches<T(!new)>(run: seq<State<T>>)
    requires |run| > 0 && Init(run[0]) && forall i :: 0 <= i < |run| - 1 ==> Next(run[i], run[i + 1])
    ensures Reachable(run[|run| - 1])
  {
    hide Next;
    assert Run(run);
  }

  /** The race is real: one push, one callback, a discarding stop during it, and the sink is called
      a second time, two slots on from the chunk that was pushed: in a ring of two with the same chunk
      again, otherwise with what the slot held before anything was pushed. */
  lemma DiscardRace<T(!new)>(start: State<T>, c: T) returns (s: State<T>)
    requires Init(start)
    ensures Reachable(s) && s.discarded
    ensures s.pushed == [c] && s.delivered == [c, if |start.slots| == 2 then c else start.slots[2]]
  {
    var pushing := start.(producer := Pushing(c));
    var filled := PushSection(pushing);
    var calling := TakeSection(filled);
    var stopping := StopSection(calling, true);
    RaceBegins(start, c, calling);
    RaceIsARun(start, c, pushing, filled, calling);
    hide Next, PushSection, TakeSection, StopSection, ReturnSection;
    var returned := ReturnSection(stopping, 0);
    RaceEnds(stopping, returned);
    s := TakeSection(returned);
    StepReturns(stopping, 0);
    StepTakes(returned);
    RunReaches([start, pushing, filled, calling, stopping, returned, s]);
  }

  lemma StepAsks<T(!new)>(s: State<T>, c: T)
    requires s.producer.Idle?
    ensures Next(s, s.(producer := Pushing(c)))
  {}

  lemma StepPushes<T(!new)>(s: State<T>)
    requires s.producer.Pushing? && s.head < s.N() && s.count < WRAP
    ensures Next(s, PushSection(s))
  {}

  lemma StepTakes<T(!new)>(s: State<T>)
    requires s.consumer.Ready? && s.tail < s.N()
    ensures Next(s, TakeSection(s))
  {}

  lemma StepStops<T(!new)>(s: State<T>, discard: bool)
    requires s.producer.Idle?
    ensures Next(s, StopSection(s, discard))
  {}

  lemma StepReturns<T(!new)>(s: State<T>, rc: int)
    requires s.consumer.Calling? && s.N() > 0 && s.count < WRAP
    ensures Next(s, ReturnSection(s, rc))
  {}

  // ---- the code ---------------------------------------------------------------------------------------

  datatype Taken<T> = MustWait | Finished | Sink(chunk: T)
  datatype PushResult = Waiting | Refused(rc: int) | Accepted

  /** struct adsc_accubuf with the two threads' positions and the history as ghost state. Each
      method is one critical section. */
  class Buffer<T(0,!new)> {
    const slot: array<T>
    var head: nat
    var tail: nat
    var count: nat
    var producerDone: bool
    var sinkRc: int
    ghost var consumer: Consumer<T>
    ghost var producer: Producer<T>
    ghost var pushed: seq<T>
    ghost var delivered: seq<T>
    ghost var results: seq<int>
    ghost var discarded: bool

    ghost function Abs(): State<T>
      reads this, slot
    {
      State(slot[..], head, tail, count, producerDone, sinkRc, consumer, producer, pushed, delivered, results,
        discarded)
    }

    constructor (bytes: nat, slotBytes: nat)
      requires slotBytes > 0
      ensures fresh(slot) && slot.Length == SlotCount(bytes, slotBytes)
      ensures Init(Abs())
    {
      slot := new T[SlotCount(bytes, slotBytes)];
      head, tail, count, producerDone, sinkRc := 0, 0, 0, false, 0;
      consumer, producer := Ready, Idle;
      pushed, delivered, results, discarded := [], [], [], false;
    }

    method Take() returns (what: Taken<T>)
      requires consumer.Ready? && tail < slot.Length
      modifies this`consumer, this`delivered
      ensures Abs() == TakeSection(old(Abs()))
      ensures what.MustWait? <==> consumer.Asleep?
      ensures what.Finished? <==> consumer.Exited?
      ensures what.Sink? ==> consumer == Calling(tail, what.chunk)
    {
      if count == 0 && !producerDone {
        consumer := Asleep;
        return MustWait;
      }
      if count == 0 {
        consumer := Exited;
        return Finished;
      }
      what := Sink(slot[tail]);
      consumer := Calling(tail, slot[tail]);
      delivered := delivered + [slot[tail]];
    }

    method Return(rc: int)
      requires consumer.Calling? && slot.Length > 0 && count < WRAP
      modifies this`tail, this`count, this`sinkRc, this`consumer, this`producer, this`results
      ensures Abs() == ReturnSection(old(Abs()), rc)
    {
      tail := (tail + 1) % slot.Length;
      count := Decrement(count);
      if rc != 0 && sinkRc == 0 {
        sinkRc := rc;
      }
      producer := Unblock(producer);
      consumer := if rc != 0 then Exited else Ready;
      results := results + [rc];
    }

    method Push(c: T) returns (r: PushResult)
      requires producer == Pushing(c) && head < slot.Length && count < WRAP
      modifies this`head, this`count, this`consumer, this`producer, this`pushed, slot
      ensures Abs() == PushSection(old(Abs()))
      ensures r.Waiting? <==> producer.Blocked?
      ensures r.Accepted? <==> pushed == old(pushed) + [c]
      ensures r.Refused? ==> r.rc == sinkRc != 0 && pushed == old(pushed)
    {
      if count == slot.Length && sinkRc == 0 {
        producer := Blocked(c);
        return Waiting;
      }
      if sinkRc != 0 {
        producer := Idle;
        return Refused(sinkRc);
      }
      slot[head] := c;
      head := (head + 1) % slot.Length;
      count := Increment(count);
      consumer := Wake(consumer);
      producer := Idle;
      pushed := pushed + [c];
      r := Accepted;
    }

    method Stop(discard: bool)
      requires producer.Idle?
      modifies this`producerDone, this`count, this`tail, this`consumer, this`producer, this`discarded
      ensures Abs() == StopSection(old(Abs()), discard)
    {
      producerDone := true;
      if discard {
        count := 0;
        tail := head;
      }
      consumer := Wake(consumer);
      producer := Joining;
      discarded := discard;
    }
  }
}

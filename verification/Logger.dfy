/** The tracepoint event logger in its running phase: one producer, the flush thread and the pool
    worker, interleaved step by step over the buffer pool and the task queue. */
module Logger {
  import opened Seqs
  import opened Batching
  import BP = BufferPool
  import FT = FlushTasks

  /** Blocked: addEvent waits on cv_ inside the block that owns availableBuffersMutex_. */
  datatype Producer = Ready | Blocked(event: Event)

  /** `accepted` is a history: the events addEvent has stored. */
  datatype State = State(pool: BP.Pool, work: FT.Work, producer: Producer, accepted: seq<Event>)

  datatype Step = AddEvent(e: Event) | Wake | Pop | Send | Return | Timeout | Take | Serialize | Finish

  function Init(n: nat): State
    requires n > 0
  {
    State(BP.InitPool(n), FT.Work([], FT.Waiting, [], []), Ready, [])
  }

  ghost predicate Enabled(s: State, step: Step)
    requires BP.InRange(s.pool)
  {
    match step
    case AddEvent(_) => s.producer.Ready?
    case Wake => s.producer.Blocked? && s.pool.available != []
    case Pop => s.pool.flusher.Idle? && s.pool.flush != []
    case Send => s.pool.flusher.Holding?
    // needs availableBuffersMutex_, which a blocked producer keeps
    case Return => s.pool.flusher.Handed? && s.producer.Ready?
    // reached only after wait_for or the drain loop has seen an empty flush deque
    case Timeout =>
      && s.pool.flusher.Idle? && s.pool.flush == [] && s.producer.Ready?
      && s.pool.current.Some? && s.pool.contents[s.pool.current.value] != []
    case Take => s.work.worker.Waiting? && s.work.tasks != []
    case Serialize => s.work.worker.Running? && s.work.worker.rest != []
    case Finish => s.work.worker.Running? && s.work.worker.rest == []
  }

  /** addEvent once a current buffer exists or the available deque has one. */
  function Accept(s: State, e: Event): State
    requires BP.InRange(s.pool) && (s.pool.current.Some? || s.pool.available != [])
  {
    var pool := if s.pool.current.None? then BP.TakeAvailable(s.pool) else s.pool;
    s.(pool := BP.Store(pool, e), producer := Ready, accepted := s.accepted + [e])
  }

  function AfterAddEvent(s: State, e: Event): State
    requires BP.InRange(s.pool) && s.producer.Ready?
  {
    if s.pool.current.None? && s.pool.available == [] then s.(producer := Blocked(e)) else Accept(s, e)
  }

  function AfterSend(s: State): State
    requires BP.InRange(s.pool) && s.pool.flusher.Holding?
  {
    s.(pool := BP.HandOver(s.pool), work := FT.Enqueue(s.work, s.pool.contents[s.pool.flusher.buffer]))
  }

  function Next(s: State, step: Step): State
    requires BP.InRange(s.pool) && Enabled(s, step)
  {
    match step
    case AddEvent(e) => AfterAddEvent(s, e)
    case Wake => Accept(s, s.producer.event)
    case Pop => s.(pool := BP.Pop(s.pool))
    case Send => AfterSend(s)
    case Return => s.(pool := BP.GiveBack(s.pool))
    case Timeout => s.(pool := BP.Expire(s.pool))
    case Take => s.(work := FT.TakeTask(s.work))
    case Serialize => s.(work := FT.SerializeOne(s.work))
    case Finish => s.(work := FT.FinishTask(s.work))
  }

  // ----- the invariant over all runs ---------------------------------------------------------------

  /** Nothing is lost, duplicated or reordered on the way from addEvent to Kafka: the accepted
      events are the handled ones, then those in the tasks, then those in the pool. */
  ghost predicate Conserved(s: State) {
    && BP.InRange(s.pool)
    && s.accepted == s.work.handled + FT.WorkEvents(s.work) + BP.PoolEvents(s.pool)
  }

  ghost predicate Inv(s: State) {
    && BP.Good(s.pool)
    && FT.Good(s.work)
    && Conserved(s)
    && (s.producer.Blocked? ==> s.pool.current.None? && s.pool.available == [])
  }

  lemma InitInv(n: nat)
    requires n > 0
    ensures Inv(Init(n))
  {
    BP.InitGood(n);
  }

  lemma TakeAvailableInv(s: State)
    requires Inv(s) && s.producer.Ready? && s.pool.current.None?
    ensures Inv(s.(pool := BP.TakeAvailable(s.pool)))
  {
    BP.TakeAvailableGood(s.pool);
  }

  lemma StoreInv(s: State, e: Event)
    requires Inv(s) && s.producer.Ready? && s.pool.current.Some?
    ensures Inv(s.(pool := BP.Store(s.pool, e), accepted := s.accepted + [e]))
  {
    BP.StoreGood(s.pool, e);
    Associate(s.work.handled + FT.WorkEvents(s.work), BP.PoolEvents(s.pool), [e]);
  }

  lemma AcceptInv(s: State, e: Event)
    requires Inv(s) && s.producer.Ready? && (s.pool.current.Some? || s.pool.available != [])
    ensures Inv(Accept(s, e))
  {
    if s.pool.current.None? {
      TakeAvailableInv(s);
      StoreInv(s.(pool := BP.TakeAvailable(s.pool)), e);
    } else {
      StoreInv(s, e);
    }
  }

  lemma SendInv(s: State)
    requires Inv(s) && s.pool.flusher.Holding?
    ensures Inv(AfterSend(s))
  {
    var events := s.pool.contents[s.pool.flusher.buffer];
    BP.HandOverGood(s.pool);
    FT.EnqueueGood(s.work, events);
    var h, w, p := s.work.handled, FT.WorkEvents(s.work), BP.PoolEvents(BP.HandOver(s.pool));
    Associate(h + w, events, p);
    Associate(h, w, events);
  }

  /** Every step of every thread keeps ownership, buffer sizes and the event sequence. */
  lemma StepInv(s: State, step: Step)
    requires Inv(s) && Enabled(s, step)
    ensures Inv(Next(s, step))
  {
    match step
    case AddEvent(e) =>
      if s.pool.current.Some? || s.pool.available != [] {
        AcceptInv(s, e);
      }
    case Wake =>
    case Pop => BP.PopGood(s.pool);
    case Send => SendInv(s);
    case Return => BP.GiveBackGood(s.pool);
    case Timeout => BP.ExpireGood(s.pool);
    case Take => FT.TakeTaskGood(s.work);
    case Serialize => FT.SerializeOneGood(s.work);
    case Finish => FT.FinishTaskGood(s.work);
  }

  /** `s` can take all of `steps` in order. */
  ghost predicate CanRun(s: State, steps: seq<Step>)
    decreases |steps|
  {
    steps == [] || (BP.InRange(s.pool) && Enabled(s, steps[0]) && CanRun(Next(s, steps[0]), steps[1..]))
  }

  ghost function Run(s: State, steps: seq<Step>): State
    requires CanRun(s, steps)
    decreases |steps|
  {
    if steps == [] then s else Run(Next(s, steps[0]), steps[1..])
  }

  lemma {:induction false} RunInv(s: State, steps: seq<Step>)
    requires Inv(s) && CanRun(s, steps)
    ensures Inv(Run(s, steps))
    decreases |steps|
  {
    if steps != [] {
      StepInv(s, steps[0]);
      RunInv(Next(s, steps[0]), steps[1..]);
    }
  }

  /** The main result, over every interleaving: whatever has been sent to Kafka, plus the open
      batch, is what the oldest accepted events serialise to, and the other accepted events are in
      the tasks and buffers in order; every buffer has one owner and the right fill. */
  lemma EveryRun(n: nat, steps: seq<Step>)
    requires n > 0 && CanRun(Init(n), steps)
    ensures var s := Run(Init(n), steps);
            && BP.Good(s.pool) && |s.pool.contents| == n
            && s.work.handled <= s.accepted
            && s.accepted[|s.work.handled|..] == FT.WorkEvents(s.work) + BP.PoolEvents(s.pool)
            && Flatten(s.work.kafka) + FT.Unsent(s.work.worker) == Messages(s.work.handled)
  {
    InitInv(n);
    RunInv(Init(n), steps);
    RunKeepsBuffers(Init(n), steps);
    var s := Run(Init(n), steps);
    StillOnTheWay(s);
  }

  lemma StillOnTheWay(s: State)
    requires Inv(s)
    ensures s.work.handled <= s.accepted
    ensures s.accepted[|s.work.handled|..] == FT.WorkEvents(s.work) + BP.PoolEvents(s.pool)
  {
    var h, w, p := s.work.handled, FT.WorkEvents(s.work), BP.PoolEvents(s.pool);
    Associate(h, w, p);
    assert h <= s.accepted && s.accepted[|h|..] == w + p;
  }

  lemma {:induction false} RunKeepsBuffers(s: State, steps: seq<Step>)
    requires Inv(s) && CanRun(s, steps)
    ensures |Run(s, steps).pool.contents| == |s.pool.contents|
    decreases |steps|
  {
    if steps != [] {
      var t := Next(s, steps[0]);
      StepInv(s, steps[0]);
      assert |t.pool.contents| == |s.pool.contents|;
      RunKeepsBuffers(t, steps[1..]);
    }
  }

  // ----- the exhausted pool ------------------------------------------------------------------------

  /** A producer that found the pool exhausted never gets out while the logger runs: the flush
      thread needs the mutex that the waiting producer keeps, so no buffer comes back. It stores
      nothing more, and the flush thread gets at most one more buffer out of the flush deque. */
  lemma {:induction false} BlockedForever(s: State, steps: seq<Step>)
    requires Inv(s) && s.producer.Blocked? && CanRun(s, steps)
    ensures var t := Run(s, steps);
            && t.producer == s.producer && t.accepted == s.accepted && t.pool.available == []
            && |s.pool.flush| - (if s.pool.flusher.Idle? then 1 else 0) <= |t.pool.flush| <= |s.pool.flush|
            && (t.pool.flusher.Idle? ==> t.pool.flush == s.pool.flush && s.pool.flusher.Idle?)
    decreases |steps|
  {
    if steps != [] {
      StepInv(s, steps[0]);
      BlockedForever(Next(s, steps[0]), steps[1..]);
    }
  }

  /** addEvent blocks exactly when every buffer is queued or in the flusher's hands. */
  lemma BlocksExactly(s: State, e: Event)
    requires Inv(s) && s.producer.Ready?
    ensures AfterAddEvent(s, e).producer.Blocked? <==>
            forall b: nat :: b < |s.pool.contents| ==> b in s.pool.flush || BP.InFlight(s.pool.flusher) == Some(b)
  {
    if AfterAddEvent(s, e).producer.Blocked? {
      forall b: nat | b < |s.pool.contents|
        ensures b in s.pool.flush || BP.InFlight(s.pool.flusher) == Some(b)
      {
        BP.OwnedExactlyOnce(s.pool, b);
      }
    } else if s.pool.current.Some? {
      BP.OwnedExactlyOnce(s.pool, s.pool.current.value);
    } else {
      BP.OwnedExactlyOnce(s.pool, s.pool.available[0]);
    }
  }

  lemma {:induction false} RunAppend(s: State, steps: seq<Step>, x: Step)
    requires CanRun(s, steps) && BP.InRange(Run(s, steps).pool) && Enabled(Run(s, steps), x)
    ensures CanRun(s, steps + [x]) && Run(s, steps + [x]) == Next(Run(s, steps), x)
    decreases |steps|
  {
    if steps == [] {
      assert steps + [x] == [x] && [x][1..] == [];
    } else {
      assert (steps + [x])[0] == steps[0] && (steps + [x])[1..] == steps[1..] + [x];
      RunAppend(Next(s, steps[0]), steps[1..], x);
    }
  }

  function Repeated(e: Event, k: nat): (r: seq<Event>)
    ensures |r| == k
  {
    seq(k, _ => e)
  }

  function Additions(e: Event, k: nat): seq<Step> {
    seq(k, _ => AddEvent(e))
  }

  /** A logger with one buffer, `k` events after its start, while nobody flushes. */
  function OneBuffer(e: Event, k: nat): State {
    var full := k >= BP.BUFFER_SIZE;
    State(
      BP.Pool([Repeated(e, k)], [], if full then [0] else [], if full then None else Some(0), full, BP.Idle),
      FT.Work([], FT.Waiting, [], []), Ready, Repeated(e, k))
  }

  lemma {:induction false} Filling(e: Event, k: nat)
    requires k <= BP.BUFFER_SIZE
    ensures CanRun(Init(1), Additions(e, k)) && Run(Init(1), Additions(e, k)) == OneBuffer(e, k)
  {
    if k == 0 {
      assert Init(1) == OneBuffer(e, 0) by {
        assert Init(1).pool.contents == [[]];
      }
    } else {
      Filling(e, k - 1);
      assert Additions(e, k) == Additions(e, k - 1) + [AddEvent(e)];
      RunAppend(Init(1), Additions(e, k - 1), AddEvent(e));
      OneMore(e, k - 1);
    }
  }

  lemma OneMore(e: Event, k: nat)
    requires k < BP.BUFFER_SIZE
    ensures BP.InRange(OneBuffer(e, k).pool) && AfterAddEvent(OneBuffer(e, k), e) == OneBuffer(e, k + 1)
  {
    assert Repeated(e, k) + [e] == Repeated(e, k + 1);
    var s := OneBuffer(e, k);
    assert s.pool.contents[0 := Repeated(e, k + 1)] == [Repeated(e, k + 1)];
  }

  /** A blocked producer is reached: with one buffer, by the 1001st event if nothing is flushed before. */
  lemma BlockIsReached(e: Event)
    ensures var steps := Additions(e, BP.BUFFER_SIZE + 1);
      CanRun(Init(1), steps) && Run(Init(1), steps).producer == Blocked(e)
  {
    var n := BP.BUFFER_SIZE;
    Filling(e, n);
    assert Additions(e, n + 1) == Additions(e, n) + [AddEvent(e)];
    RunAppend(Init(1), Additions(e, n), AddEvent(e));
  }

  // ----- a producer that is not blocked can have everything delivered -------------------------------

  /** The next thing the flush thread or the worker has to do; None when there is nothing left. */
  function Pending(s: State): Option<Step>
    requires BP.InRange(s.pool)
  {
    match s.pool.flusher
    case Holding(_) => Some(Send)
    case Handed(_) => Some(Return)
    case Idle =>
      if s.pool.flush != [] then Some(Pop)
      else if s.pool.current.Some? && s.pool.contents[s.pool.current.value] != [] then Some(Timeout)
      else match s.work.worker
           case Running(rest, _) => if rest != [] then Some(Serialize) else Some(Finish)
           case Waiting => if s.work.tasks != [] then Some(Take) else None
  }

  /** What is left for the flush thread, and for the worker. */
  function FlushWork(s: State): nat
    requires BP.InRange(s.pool)
  {
    3 * |s.pool.flush|
    + (match s.pool.flusher case Idle => 0 case Holding(_) => 2 case Handed(_) => 1)
    + (if s.pool.current.Some? && s.pool.contents[s.pool.current.value] != [] then 4 else 0)
  }

  function TaskWork(tasks: seq<seq<Event>>): nat {
    if tasks == [] then 0 else |tasks[0]| + 2 + TaskWork(tasks[1..])
  }

  function WorkerWork(w: FT.Work): nat {
    TaskWork(w.tasks) + match w.worker case Waiting => 0 case Running(rest, _) => |rest| + 1
  }

  ghost predicate Smaller(t: State, s: State)
    requires BP.InRange(t.pool) && BP.InRange(s.pool)
  {
    FlushWork(t) < FlushWork(s) || (FlushWork(t) == FlushWork(s) && WorkerWork(t.work) < WorkerWork(s.work))
  }

  lemma PopProgress(s: State)
    requires BP.InRange(s.pool) && Enabled(s, Pop)
    ensures BP.InRange(BP.Pop(s.pool)) && Smaller(Next(s, Pop), s)
  {
  }

  lemma HeldProgress(s: State)
    requires BP.InRange(s.pool) && BP.Partition(s.pool) && s.producer.Ready? && !s.pool.flusher.Idle?
    ensures var t := Next(s, Pending(s).value); BP.InRange(t.pool) && FlushWork(t) < FlushWork(s)
  {
    BP.InFlightAlone(s.pool);
    if s.pool.flusher.Handed? {
      assert Next(s, Pending(s).value) == s.(pool := BP.GiveBack(s.pool));
    } else {
      assert Next(s, Pending(s).value) == AfterSend(s);
    }
  }

  lemma TimeoutProgress(s: State)
    requires Inv(s) && Enabled(s, Timeout)
    ensures BP.InRange(BP.Expire(s.pool)) && Smaller(Next(s, Timeout), s)
  {
    BP.ExpireGood(s.pool);
    var q := BP.Expire(s.pool);
    assert q.flush == [s.pool.current.value];
    if s.pool.available != [] {
      assert q.contents[q.current.value] == [];
    }
  }

  lemma WorkerProgress(s: State)
    requires Inv(s) && (s.work.worker.Running? || s.work.tasks != [])
    requires s.pool.flusher.Idle? && s.pool.flush == []
    requires s.pool.current.Some? ==> s.pool.contents[s.pool.current.value] == []
    ensures Enabled(s, Pending(s).value)
    ensures var t := Next(s, Pending(s).value);
            t.pool == s.pool && Smaller(t, s) && t.producer == s.producer && t.accepted == s.accepted
  {
  }

  lemma PendingProgress(s: State)
    requires Inv(s) && s.producer.Ready? && Pending(s).Some?
    ensures Enabled(s, Pending(s).value)
    ensures var t := Next(s, Pending(s).value);
            Inv(t) && Smaller(t, s) && t.producer.Ready? && t.accepted == s.accepted
  {
    if !s.pool.flusher.Idle? {
      HeldProgress(s);
    } else if s.pool.flush != [] {
      PopProgress(s);
    } else if Enabled(s, Timeout) {
      TimeoutProgress(s);
    } else {
      WorkerProgress(s);
    }
    StepInv(s, Pending(s).value);
  }

  lemma NothingPending(s: State)
    requires Inv(s) && s.producer.Ready? && Pending(s).None?
    ensures Flatten(s.work.kafka) == Messages(s.accepted)
  {
    assert BP.PoolEvents(s.pool) == [] && FT.WorkEvents(s.work) == [];
    assert s.work.handled + [] + [] == s.work.handled;
    assert Flatten(s.work.kafka) + [] == Flatten(s.work.kafka);
  }

  /** From every reachable state whose producer is not blocked, the flush thread and the worker can
      run to a state in which Kafka has been sent the messages of exactly the accepted events. */
  lemma {:induction false} EverythingIsDelivered(s: State) returns (steps: seq<Step>)
    requires Inv(s) && s.producer.Ready?
    ensures CanRun(s, steps) && forall i :: 0 <= i < |steps| ==> !steps[i].AddEvent? && !steps[i].Wake?
    ensures var t := Run(s, steps); t.accepted == s.accepted && Flatten(t.work.kafka) == Messages(s.accepted)
    decreases FlushWork(s), WorkerWork(s.work)
  {
    if Pending(s).None? {
      steps := [];
      NothingPending(s);
    } else {
      var step := Pending(s).value;
      PendingProgress(s);
      var rest := EverythingIsDelivered(Next(s, step));
      steps := [step] + rest;
      assert steps[0] == step && steps[1..] == rest;
    }
  }
}

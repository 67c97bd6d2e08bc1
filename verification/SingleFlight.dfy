/** Policy updates started by several monitor threads: the atomic flag policy_update_running, the
    mutex, and the retry loop of update_policy_on_event, for any number of threads. */
module SingleFlight {
  import opened Seqs

  /** The tracepoint program looks at `exiting` in the retry loop, the LSM program does not. */
  datatype Program = Tracepoint | Lsm

  /** Where a thread is. Notifying: about to lock the mutex for notify_one. Asking: about to exchange
      the flag. Locking: has won the flag. Starting: at the top of the retry loop, holding the mutex.
      Loaded: has read what the world looked like. Sleeping: in wait_for, mutex released. Releasing:
      out of the loop and the mutex, about to clear the flag. */
  datatype Pc = Idle | Notifying | Asking | Locking | Starting | Loaded(version: nat) | Sleeping | Releasing

  datatype Outcome = Success | Failure | Exception

  /** `version` counts the changes of the policy file and the containers, `installed` is the version
      that the last successful update had read, `unseen` has a thread once for every record of a change
      that it has still to handle. */
  datatype State = State(
    pcs: seq<Pc>, flag: bool, mutex: Option<nat>, exiting: bool,
    version: nat, installed: nat, unseen: multiset<nat>)

  datatype Step =
    | Change(t: nat)
    | Quit
    | Told(t: nat, notify: bool)
    | Notify(t: nat)
    | Ask(t: nat)
    | Lock(t: nat)
    | Begin(t: nat)
    | Finish(t: nat, outcome: Outcome)
    | Wake(t: nat)
    | Release(t: nat)

  function Start(n: nat): State {
    State(seq(n, _ => Idle), false, None, false, 0, 0, multiset{})
  }

  /** The thread a step belongs to; the world changes and the exit signal comes by themselves. */
  function Actor(step: Step): Option<nat> {
    match step
    case Change(_) => None
    case Quit => None
    case Told(t, _) => Some(t)
    case Notify(t) => Some(t)
    case Ask(t) => Some(t)
    case Lock(t) => Some(t)
    case Begin(t) => Some(t)
    case Finish(t, _) => Some(t)
    case Wake(t) => Some(t)
    case Release(t) => Some(t)
  }

  ghost predicate Enabled(s: State, step: Step) {
    match step
    case Change(t) => t < |s.pcs|
    case Quit => true
    case Told(t, _) => t < |s.pcs| && s.pcs[t].Idle? && t in s.unseen
    case Notify(t) => t < |s.pcs| && s.pcs[t].Notifying? && s.mutex.None?
    case Ask(t) => t < |s.pcs| && s.pcs[t].Asking?
    case Lock(t) => t < |s.pcs| && s.pcs[t].Locking? && s.mutex.None?
    case Begin(t) => t < |s.pcs| && s.pcs[t].Starting?
    case Finish(t, _) => t < |s.pcs| && s.pcs[t].Loaded?
    // woken by notify_one or by the three seconds, wait_for takes the mutex again
    case Wake(t) => t < |s.pcs| && s.pcs[t].Sleeping? && s.mutex.None?
    case Release(t) => t < |s.pcs| && s.pcs[t].Releasing?
  }

  function Stale(s: State): bool {
    s.installed != s.version
  }

  /** The steps that end an update without success: the exit signal at the top of the loop or after the
      wait, in the tracepoint program, and an exception. */
  predicate Aborts(p: Program, s: State, step: Step) {
    (p.Tracepoint? && s.exiting && (step.Begin? || step.Wake?)) || (step.Finish? && step.outcome.Exception?)
  }

  /** The exits of the try block: success, abort and exception all release the mutex. */
  function Leave(s: State, t: nat): State
    requires t < |s.pcs|
  {
    s.(pcs := s.pcs[t := Releasing], mutex := None)
  }

  ghost function Next(p: Program, s: State, step: Step): State
    requires Enabled(s, step)
  {
    match step
    case Change(t) => s.(version := s.version + 1, unseen := s.unseen + multiset{t})
    case Quit => s.(exiting := true)
    case Told(t, notify) =>
      s.(pcs := s.pcs[t := if notify then Notifying else Asking], unseen := s.unseen - multiset{t})
    case Notify(t) => s.(pcs := s.pcs[t := Asking])
    case Ask(t) =>
      if s.flag then s.(pcs := s.pcs[t := Idle])
      else s.(pcs := s.pcs[t := Locking], flag := true)
    case Lock(t) => s.(pcs := s.pcs[t := Starting], mutex := Some(t))
    case Begin(t) =>
      if Aborts(p, s, step) then Leave(s, t) else s.(pcs := s.pcs[t := Loaded(s.version)])
    case Finish(t, outcome) =>
      (match outcome
       case Success => Leave(s, t).(installed := s.pcs[t].version)
       case Failure => s.(pcs := s.pcs[t := Sleeping], mutex := None)
       case Exception => Leave(s, t))
    case Wake(t) =>
      if Aborts(p, s, step) then Leave(s, t) else s.(pcs := s.pcs[t := Starting], mutex := Some(t))
    case Release(t) => s.(pcs := s.pcs[t := Idle], flag := false)
  }

  // ----- at most one update ------------------------------------------------------------------------

  predicate Updating(pc: Pc) {
    pc.Locking? || pc.Starting? || pc.Loaded? || pc.Sleeping? || pc.Releasing?
  }

  /** The flag is set exactly while a thread is updating, at most one thread is, and the mutex is held
      exactly while that thread works in the loop. */
  ghost predicate Exclusive(s: State) {
    Alone(s) && Flagged(s) && Guarded(s)
  }

  ghost predicate Alone(s: State) {
    forall t, u :: 0 <= t < |s.pcs| && 0 <= u < |s.pcs| && Updating(s.pcs[t]) && Updating(s.pcs[u]) ==> t == u
  }

  ghost predicate Flagged(s: State) {
    s.flag <==> exists t :: 0 <= t < |s.pcs| && Updating(s.pcs[t])
  }

  ghost predicate Guarded(s: State) {
    && (s.mutex.Some? ==> s.mutex.value < |s.pcs|)
    && (forall t :: 0 <= t < |s.pcs| ==> (s.mutex == Some(t) <==> s.pcs[t].Starting? || s.pcs[t].Loaded?))
  }

  /** A step changes the place of its own thread only. */
  lemma StepMoves(p: Program, s: State, step: Step)
    requires Enabled(s, step)
    ensures |Next(p, s, step).pcs| == |s.pcs| && (Actor(step).Some? ==> Actor(step).value < |s.pcs|)
    ensures forall u :: 0 <= u < |s.pcs| && Actor(step) != Some(u) ==> Next(p, s, step).pcs[u] == s.pcs[u]
  {
  }

  /** A thread joins the update only by winning the flag, and clears it when it leaves. */
  lemma StepFlags(p: Program, s: State, step: Step, a: nat)
    requires Enabled(s, step) && Actor(step) == Some(a) && a < |s.pcs|
    ensures a < |Next(p, s, step).pcs|
    ensures var before, after, flag := Updating(s.pcs[a]), Updating(Next(p, s, step).pcs[a]), Next(p, s, step).flag;
            if after && !before then !s.flag && flag else if before && !after then !flag else flag == s.flag
  {
  }

  lemma StepAlone(p: Program, s: State, step: Step)
    requires Alone(s) && Flagged(s) && Enabled(s, step)
    ensures Alone(Next(p, s, step)) && Flagged(Next(p, s, step))
  {
    StepMoves(p, s, step);
    if Actor(step).Some? {
      StepFlags(p, s, step, Actor(step).value);
    }
    MovesKeepAlone(s, Next(p, s, step), Actor(step));
  }

  lemma MovesKeepAlone(s: State, t: State, actor: Option<nat>)
    requires Alone(s) && Flagged(s) && |t.pcs| == |s.pcs| && (actor.Some? ==> actor.value < |s.pcs|)
    requires forall u :: 0 <= u < |s.pcs| && actor != Some(u) ==> t.pcs[u] == s.pcs[u]
    requires if actor.None? then t.flag == s.flag
             else
               var before, after := Updating(s.pcs[actor.value]), Updating(t.pcs[actor.value]);
               if after && !before then !s.flag && t.flag else if before && !after then !t.flag else t.flag == s.flag
    ensures Alone(t) && Flagged(t)
  {
    if u :| 0 <= u < |s.pcs| && Updating(s.pcs[u]) {
      assert actor != Some(u) ==> Updating(t.pcs[u]);
    }
  }

  lemma StepGuarded(p: Program, s: State, step: Step)
    requires Guarded(s) && Enabled(s, step)
    ensures Guarded(Next(p, s, step))
  {
    if Actor(step).None? {
      assert Next(p, s, step).pcs == s.pcs;
    }
  }

  lemma StepExclusive(p: Program, s: State, step: Step)
    requires Exclusive(s) && Enabled(s, step)
    ensures Exclusive(Next(p, s, step))
  {
    StepAlone(p, s, step);
    StepGuarded(p, s, step);
  }

  /** What is installed was read before what is being installed. */
  ghost predicate Ordered(s: State) {
    && s.installed <= s.version
    && forall t :: 0 <= t < |s.pcs| && s.pcs[t].Loaded? ==> s.installed <= s.pcs[t].version <= s.version
  }

  ghost predicate Inv(s: State) {
    Exclusive(s) && Ordered(s)
  }

  lemma StepOrdered(p: Program, s: State, step: Step)
    requires Inv(s) && Enabled(s, step)
    ensures Ordered(Next(p, s, step))
  {
    var t := Next(p, s, step);
    if Actor(step).Some? {
      var a := Actor(step).value;
      forall u | 0 <= u < |t.pcs| && t.pcs[u].Loaded? ensures t.installed <= t.pcs[u].version <= t.version {
        assert u != a ==> t.pcs[u] == s.pcs[u];
        assert Updating(s.pcs[u]) && Updating(s.pcs[a]) ==> u == a;
      }
    }
  }

  lemma StepInv(p: Program, s: State, step: Step)
    requires Inv(s) && Enabled(s, step)
    ensures Inv(Next(p, s, step))
  {
    StepExclusive(p, s, step);
    StepOrdered(p, s, step);
  }

  // ----- runs --------------------------------------------------------------------------------------

  ghost predicate CanRun(p: Program, s: State, steps: seq<Step>)
    decreases |steps|, 0
  {
    steps == [] ||
    (var front := steps[..|steps| - 1]; CanRun(p, s, front) && Enabled(Run(p, s, front), steps[|steps| - 1]))
  }

  ghost function Run(p: Program, s: State, steps: seq<Step>): State
    requires CanRun(p, s, steps)
    decreases |steps|, 1
  {
    if steps == [] then s else Next(p, Run(p, s, steps[..|steps| - 1]), steps[|steps| - 1])
  }

  lemma Append(p: Program, s: State, steps: seq<Step>, step: Step)
    requires CanRun(p, s, steps) && Enabled(Run(p, s, steps), step)
    ensures CanRun(p, s, steps + [step]) && Run(p, s, steps + [step]) == Next(p, Run(p, s, steps), step)
  {
    assert (steps + [step])[..|steps|] == steps;
  }

  lemma {:induction false} PrefixRuns(p: Program, s: State, steps: seq<Step>, k: nat)
    requires CanRun(p, s, steps) && k <= |steps|
    ensures CanRun(p, s, steps[..k])
    decreases |steps|
  {
    if k == |steps| {
      assert steps[..k] == steps;
    } else {
      PrefixRuns(p, s, steps[..|steps| - 1], k);
      assert steps[..|steps| - 1][..k] == steps[..k];
    }
  }

  /** The state before step `k` of a run. */
  ghost function At(p: Program, s: State, steps: seq<Step>, k: nat): State
    requires CanRun(p, s, steps) && k <= |steps|
  {
    PrefixRuns(p, s, steps, k);
    Run(p, s, steps[..k])
  }

  lemma {:induction false} RunInv(p: Program, s: State, steps: seq<Step>)
    requires Inv(s) && CanRun(p, s, steps)
    ensures Inv(Run(p, s, steps))
    decreases |steps|
  {
    if steps != [] {
      RunInv(p, s, steps[..|steps| - 1]);
      StepInv(p, Run(p, s, steps[..|steps| - 1]), steps[|steps| - 1]);
    }
  }

  /** Over every interleaving of any number of threads, in both programs. */
  lemma AtMostOneUpdate(p: Program, n: nat, steps: seq<Step>)
    requires CanRun(p, Start(n), steps)
    ensures Exclusive(Run(p, Start(n), steps))
  {
    RunInv(p, Start(n), steps);
  }

  // ----- progress ----------------------------------------------------------------------------------

  /** The updating thread is never stuck: in every reachable state it can take a step of its own. */
  lemma UpdaterCanStep(s: State, t: nat) returns (step: Step)
    requires Inv(s) && t < |s.pcs| && Updating(s.pcs[t])
    ensures Enabled(s, step) && Actor(step) == Some(t)
  {
    assert s.mutex.Some? ==> Updating(s.pcs[s.mutex.value]) && s.mutex.value == t;
    match s.pcs[t]
    case Locking => step := Lock(t);
    case Starting => step := Begin(t);
    case Loaded(_) => step := Finish(t, Success);
    case Sleeping => step := Wake(t);
    case Releasing => step := Release(t);
  }

  /** Some thread can step whenever one is not idle. */
  lemma SomeThreadCanStep(s: State, t: nat) returns (step: Step)
    requires Inv(s) && t < |s.pcs| && !s.pcs[t].Idle?
    ensures Enabled(s, step) && Actor(step).Some?
  {
    if s.mutex.Some? {
      step := UpdaterCanStep(s, s.mutex.value);
    } else {
      match s.pcs[t]
      case Notifying => step := Notify(t);
      case Asking => step := Ask(t);
      case Locking => step := Lock(t);
      case Starting => step := Begin(t);
      case Loaded(_) => step := Finish(t, Success);
      case Sleeping => step := Wake(t);
      case Releasing => step := Release(t);
    }
  }

  /** How many own steps a tracepoint update can still take once the program is exiting. */
  function StepsLeft(pc: Pc): nat {
    match pc
    case Idle => 0
    case Notifying => 5
    case Asking => 4
    case Locking => 3
    case Starting => 2
    case Loaded(_) => 3
    case Sleeping => 2
    case Releasing => 1
  }

  /** Once exiting, every own step of a tracepoint thread brings it closer to idle, whatever fails, so
      no update outlives the signal by more than its last attempt. */
  lemma TracepointWindsDown(s: State, step: Step, t: nat)
    requires Enabled(s, step) && s.exiting && Actor(step) == Some(t) && !s.pcs[t].Idle?
    ensures StepsLeft(Next(Tracepoint, s, step).pcs[t]) < StepsLeft(s.pcs[t])
  {
  }

  /** One failing attempt of the LSM loop brings it back to where it was. */
  lemma FailedAttempt(s: State, t: nat, steps: seq<Step>) returns (longer: seq<Step>)
    requires CanRun(Lsm, s, steps)
    requires var now := Run(Lsm, s, steps); t < |now.pcs| && now.pcs[t].Starting? && now.mutex == Some(t)
    ensures longer == steps + [Begin(t), Finish(t, Failure), Wake(t)]
    ensures CanRun(Lsm, s, longer) && Run(Lsm, s, longer) == Run(Lsm, s, steps)
  {
    var now := Run(Lsm, s, steps);
    Append(Lsm, s, steps, Begin(t));
    Append(Lsm, s, steps + [Begin(t)], Finish(t, Failure));
    Append(Lsm, s, steps + [Begin(t)] + [Finish(t, Failure)], Wake(t));
    longer := steps + [Begin(t)] + [Finish(t, Failure)] + [Wake(t)];
    assert Run(Lsm, s, longer).pcs == now.pcs;
  }

  function Attempts(t: nat, k: nat): seq<Step> {
    if k == 0 then [] else Attempts(t, k - 1) + [Begin(t), Finish(t, Failure), Wake(t)]
  }

  /** The LSM loop has no such bound: a run from the start in which the exit signal is followed by any
      number of failing attempts, each of them begun after it. */
  lemma {:induction false} LsmRetriesForever(k: nat)
    ensures var steps := [Change(0), Told(0, false), Ask(0), Lock(0), Quit] + Attempts(0, k);
            && CanRun(Lsm, Start(1), steps) && Run(Lsm, Start(1), steps).exiting
            && Run(Lsm, Start(1), steps).pcs == [Starting] && Run(Lsm, Start(1), steps).mutex == Some(0)
  {
    var start := [Change(0), Told(0, false), Ask(0), Lock(0), Quit];
    if k == 0 {
      assert start + Attempts(0, 0) == start;
      LsmExiting();
    } else {
      LsmRetriesForever(k - 1);
      var longer := FailedAttempt(Start(1), 0, start + Attempts(0, k - 1));
      assert longer == start + Attempts(0, k);
    }
  }

  lemma LsmExiting()
    ensures var steps := [Change(0), Told(0, false), Ask(0), Lock(0), Quit];
            && CanRun(Lsm, Start(1), steps)
            && Run(Lsm, Start(1), steps) == State([Starting], true, Some(0), true, 1, 0, multiset{})
  {
    var s0 := Start(1);
    assert s0.pcs == [Idle];
    Append(Lsm, s0, [], Change(0));
    Append(Lsm, s0, [Change(0)], Told(0, false));
    assert Run(Lsm, s0, [Change(0)] + [Told(0, false)]).unseen == multiset{};
    Append(Lsm, s0, [Change(0)] + [Told(0, false)], Ask(0));
    Append(Lsm, s0, [Change(0)] + [Told(0, false)] + [Ask(0)], Lock(0));
    Append(Lsm, s0, [Change(0)] + [Told(0, false)] + [Ask(0)] + [Lock(0)], Quit);
    assert [Change(0)] + [Told(0, false)] + [Ask(0)] + [Lock(0)] + [Quit]
        == [Change(0), Told(0, false), Ask(0), Lock(0), Quit];
  }
}

/** Enter/exit correlation: sys_enter stores argument pointers in a bounded map of its syscall,
    sys_exit looks them up and deletes an entry, under any interleaving of threads. */
module ArgsMaps {
  import opened Seqs

  const CAPACITY: nat := 1024

  /** The syscalls that have an args map. */
  datatype Call =
    | Socketpair | Getsockopt | Getsockname | Getpeername | Accept | Accept4 | Recvfrom | Recvmsg
    | Getdents | Getdents64 | Getresuid | Getresgid | Getrlimit | Capget

  /** map_key; it tells live threads apart. */
  datatype Key = Key(pid: nat, tid: nat, pidNs: nat)

  type Args = seq<nat>
  type Maps = map<Call, map<Key, Args>>

  /** What a thread inside a call handed over at its enter, and whether the map took it. */
  datatype Entered = Entered(call: Call, args: Args, stored: bool)

  /** `inside`: the threads between enter and exit. `lost`: threads that died there, by call. */
  datatype State = State(maps: Maps, inside: map<Key, Entered>, lost: set<(Call, Key)>)

  datatype Step =
    | Enter(key: Key, call: Call, args: Args)
    | Exit(key: Key, timestamp: nat, logged: bool, ret: int)
    | Die(key: Key)

  ghost predicate Complete(maps: Maps) {
    forall c :: c in maps
  }

  // ----- the handlers ------------------------------------------------------------------------------

  /** bpf_map_update_elem with BPF_ANY: replaces an entry, adds one only while there is room. */
  function Insert(m: map<Key, Args>, key: Key, args: Args): map<Key, Args> {
    if key in m || |m| < CAPACITY then m[key := args] else m
  }

  function Lookup(m: map<Key, Args>, key: Key): Option<Args> {
    if key in m then Some(m[key]) else None
  }

  /** The map an exit handler deletes from: its own, but for three of them. */
  function ExitMap(call: Call): Call {
    match call
    case Accept4 => Accept
    case Getdents => Getsockopt
    case Getdents64 => Getsockopt
    case _ => call
  }

  /** The key it deletes: sys_exit_socketpair passes the task record itself, whose first twelve bytes
      are a zero count and the low half of the timestamp. */
  function ExitKey(call: Call, key: Key, timestamp: nat): Key {
    if call.Socketpair? then Key(0, 0, timestamp % 0x1_0000_0000) else key
  }

  function AfterEnter(maps: Maps, call: Call, key: Key, args: Args): Maps
    requires call in maps
  {
    maps[call := Insert(maps[call], key, args)]
  }

  function AfterExit(maps: Maps, call: Call, key: Key, timestamp: nat): Maps
    requires ExitMap(call) in maps
  {
    maps[ExitMap(call) := maps[ExitMap(call)] - {ExitKey(call, key, timestamp)}]
  }

  /** The args an exit finds. It looks only when the event is recorded and the call succeeded. */
  function Found(maps: Maps, call: Call, key: Key, logged: bool, ret: int): Option<Args>
    requires call in maps
  {
    if logged && ret >= 0 then Lookup(maps[call], key) else None
  }

  // ----- the threads -------------------------------------------------------------------------------

  const CALLS: set<Call> := {
    Socketpair, Getsockopt, Getsockname, Getpeername, Accept, Accept4, Recvfrom, Recvmsg,
    Getdents, Getdents64, Getresuid, Getresgid, Getrlimit, Capget
  }

  const START := State(map c | c in CALLS :: map[], map[], {})

  /** A thread is in one call at a time; pid 0 is the idle task, which makes no calls. */
  ghost predicate Enabled(s: State, step: Step) {
    match step
    case Enter(key, _, _) => key !in s.inside && key.pid != 0
    case Exit(key, _, _, _) => key in s.inside
    case Die(key) => key in s.inside
  }

  ghost function Next(s: State, step: Step): State
    requires Complete(s.maps) && Enabled(s, step)
  {
    match step
    case Enter(key, call, args) =>
      var stored := key in s.maps[call] || |s.maps[call]| < CAPACITY;
      s.(maps := AfterEnter(s.maps, call, key, args), inside := s.inside[key := Entered(call, args, stored)])
    case Exit(key, timestamp, _, _) =>
      var call := s.inside[key].call;
      s.(maps := AfterExit(s.maps, call, key, timestamp), inside := s.inside - {key}, lost := s.lost - {(call, key)})
    case Die(key) =>
      s.(inside := s.inside - {key}, lost := s.lost + {(s.inside[key].call, key)})
  }

  /** A thread inside a call finds its own args if the map took them, and nothing otherwise. */
  ghost predicate Paired(s: State)
    requires Complete(s.maps)
  {
    forall key :: key in s.inside ==>
      var e := s.inside[key];
      Lookup(s.maps[e.call], key) == if e.stored then Some(e.args) else None
  }

  ghost predicate Bounded(s: State)
    requires Complete(s.maps)
  {
    && (forall c :: |s.maps[c]| <= CAPACITY)
    && (forall c, key :: key in s.maps[c] ==> key.pid != 0)
    && (forall key :: key in s.inside ==> key.pid != 0)
  }

  /** The ten calls whose exit deletes the entry that its enter made, and the four whose exit does not. */
  const SELF_DELETING: set<Call> := {
    Getsockopt, Getsockname, Getpeername, Accept, Recvfrom, Recvmsg, Getresuid, Getresgid, Getrlimit, Capget
  }

  const LEAKY: set<Call> := {Socketpair, Accept4, Getdents, Getdents64}

  lemma TenAndFour(call: Call)
    ensures call in LEAKY <==> call !in SELF_DELETING
    ensures call in SELF_DELETING ==> ExitMap(call) == call
    ensures ExitMap(call) in LEAKY ==> call.Socketpair?
  {
    match call
    case Socketpair =>
    case Getsockopt =>
    case Getsockname =>
    case Getpeername =>
    case Accept =>
    case Accept4 =>
    case Recvfrom =>
    case Recvmsg =>
    case Getdents =>
    case Getdents64 =>
    case Getresuid =>
    case Getresgid =>
    case Getrlimit =>
    case Capget =>
  }

  /** The threads that may have an entry in the map of a call. */
  ghost predicate Occupant(s: State, call: Call, key: Key) {
    (key in s.inside && s.inside[key].call == call) || (call, key) in s.lost
  }

  ghost predicate Occupied(s: State)
    requires Complete(s.maps)
  {
    forall c, key :: c in SELF_DELETING && key in s.maps[c] ==> Occupant(s, c, key)
  }

  ghost predicate Inv(s: State) {
    Complete(s.maps) && Paired(s) && Bounded(s) && Occupied(s)
  }

  lemma EveryCallHasAMap(c: Call)
    ensures c in CALLS
  {
    match c
    case Socketpair =>
    case Getsockopt =>
    case Getsockname =>
    case Getpeername =>
    case Accept =>
    case Accept4 =>
    case Recvfrom =>
    case Recvmsg =>
    case Getdents =>
    case Getdents64 =>
    case Getresuid =>
    case Getresgid =>
    case Getrlimit =>
    case Capget =>
  }

  lemma StartComplete()
    ensures Complete(START.maps)
  {
    forall c ensures c in START.maps {
      EveryCallHasAMap(c);
    }
  }

  lemma StartInv()
    ensures Inv(START)
  {
    StartComplete();
  }

  lemma RemoveSize(m: map<Key, Args>, key: Key)
    ensures |m - {key}| <= |m|
  {
    assert (m - {key}).Keys == m.Keys - {key};
    assert m.Keys - {key} <= m.Keys;
    SubsetSize(m.Keys - {key}, m.Keys);
    assert |(m - {key}).Keys| <= |m.Keys|;
  }

  lemma {:induction false} SubsetSize<T>(a: set<T>, b: set<T>)
    requires a <= b
    ensures |a| <= |b|
  {
    if a != {} {
      var x :| x in a;
      SubsetSize(a - {x}, b - {x});
    }
  }

  lemma EnterPaired(s: State, key: Key, call: Call, args: Args)
    requires Complete(s.maps) && Paired(s) && Enabled(s, Enter(key, call, args))
    ensures var t := Next(s, Enter(key, call, args)); Complete(t.maps) && Paired(t)
  {
  }

  lemma EnterBounded(s: State, key: Key, call: Call, args: Args)
    requires Complete(s.maps) && Bounded(s) && Enabled(s, Enter(key, call, args))
    ensures var t := Next(s, Enter(key, call, args)); Complete(t.maps) && Bounded(t)
  {
    var m := s.maps[call];
    assert key in m ==> |m[key := args]| == |m|;
  }

  lemma EnterOccupied(s: State, key: Key, call: Call, args: Args)
    requires Complete(s.maps) && Occupied(s) && Enabled(s, Enter(key, call, args))
    ensures var t := Next(s, Enter(key, call, args)); Complete(t.maps) && Occupied(t)
  {
    var t := Next(s, Enter(key, call, args));
    forall c, k | c in SELF_DELETING && k in t.maps[c] ensures Occupant(t, c, k) {
      assert k in s.maps[c] ==> Occupant(s, c, k);
    }
  }

  lemma EnterInv(s: State, key: Key, call: Call, args: Args)
    requires Inv(s) && Enabled(s, Enter(key, call, args))
    ensures Inv(Next(s, Enter(key, call, args)))
  {
    EnterPaired(s, key, call, args);
    EnterBounded(s, key, call, args);
    EnterOccupied(s, key, call, args);
  }

  lemma ExitPaired(s: State, key: Key, timestamp: nat, logged: bool, ret: int)
    requires Complete(s.maps) && Paired(s) && key in s.inside
    requires forall k :: k in s.inside ==> k.pid != 0
    ensures var t := Next(s, Exit(key, timestamp, logged, ret)); Complete(t.maps) && Paired(t)
  {
  }

  lemma ExitBounded(s: State, key: Key, timestamp: nat, logged: bool, ret: int)
    requires Complete(s.maps) && Bounded(s) && key in s.inside
    ensures var t := Next(s, Exit(key, timestamp, logged, ret)); Complete(t.maps) && Bounded(t)
  {
    var call := s.inside[key].call;
    RemoveSize(s.maps[ExitMap(call)], ExitKey(call, key, timestamp));
  }

  lemma ExitOccupied(s: State, key: Key, timestamp: nat, logged: bool, ret: int)
    requires Complete(s.maps) && Occupied(s) && key in s.inside
    ensures var t := Next(s, Exit(key, timestamp, logged, ret)); Complete(t.maps) && Occupied(t)
  {
    var t, call := Next(s, Exit(key, timestamp, logged, ret)), s.inside[key].call;
    TenAndFour(call);
    forall c, k | c in SELF_DELETING && k in t.maps[c] ensures Occupant(t, c, k) {
      assert Occupant(s, c, k);
    }
  }

  lemma ExitInv(s: State, key: Key, timestamp: nat, logged: bool, ret: int)
    requires Inv(s) && key in s.inside
    ensures Inv(Next(s, Exit(key, timestamp, logged, ret)))
  {
    ExitPaired(s, key, timestamp, logged, ret);
    ExitBounded(s, key, timestamp, logged, ret);
    ExitOccupied(s, key, timestamp, logged, ret);
  }

  lemma StepInv(s: State, step: Step)
    requires Inv(s) && Enabled(s, step)
    ensures Inv(Next(s, step))
  {
    match step
    case Enter(key, call, args) => EnterInv(s, key, call, args);
    case Exit(key, timestamp, logged, ret) => ExitInv(s, key, timestamp, logged, ret);
    case Die(key) =>
  }

  ghost predicate CanRun(s: State, steps: seq<Step>)
    decreases |steps|
  {
    steps == [] || (Complete(s.maps) && Enabled(s, steps[0]) && CanRun(Next(s, steps[0]), steps[1..]))
  }

  ghost function Run(s: State, steps: seq<Step>): State
    requires CanRun(s, steps)
    decreases |steps|
  {
    if steps == [] then s else Run(Next(s, steps[0]), steps[1..])
  }

  lemma {:induction false} RunInv(s: State, steps: seq<Step>)
    requires Inv(s) && CanRun(s, steps)
    ensures Inv(Run(s, steps))
    decreases |steps|
  {
    if steps != [] {
      StepInv(s, steps[0]);
      RunInv(Next(s, steps[0]), steps[1..]);
    }
  }

  /** The entry of a thread's latest enter in a run, if the run has one after its latest exit. */
  function LastEnter(steps: seq<Step>, key: Key): (r: Option<Step>)
    ensures r.Some? ==> r.value.Enter? && r.value.key == key
  {
    if steps == [] then None
    else
      var last := steps[|steps| - 1];
      if last.key != key then LastEnter(steps[..|steps| - 1], key)
      else if last.Enter? then Some(last) else None
  }

  lemma {:induction false} RunSnoc(s: State, steps: seq<Step>, step: Step)
    requires CanRun(s, steps + [step])
    ensures CanRun(s, steps) && Complete(Run(s, steps).maps) && Enabled(Run(s, steps), step)
    ensures Run(s, steps + [step]) == Next(Run(s, steps), step)
    decreases |steps|
  {
    if steps != [] {
      assert (steps + [step])[1..] == steps[1..] + [step];
      RunSnoc(Next(s, steps[0]), steps[1..], step);
    }
  }

  ghost predicate InsideBy(s: State, key: Key, enter: Option<Step>)
    requires enter.Some? ==> enter.value.Enter?
  {
    && (key in s.inside <==> enter.Some?)
    && (enter.Some? ==> s.inside[key].call == enter.value.call && s.inside[key].args == enter.value.args)
  }

  lemma InsideStep(s: State, step: Step, key: Key, enter: Option<Step>)
    requires Complete(s.maps) && Enabled(s, step) && (enter.Some? ==> enter.value.Enter?) && InsideBy(s, key, enter)
    ensures InsideBy(Next(s, step), key, if step.key != key then enter else if step.Enter? then Some(step) else None)
  {
  }

  /** A thread is inside exactly the call of its latest unmatched enter, with that enter's args. */
  lemma {:induction false} InsideIsLastEnter(steps: seq<Step>, key: Key)
    requires CanRun(START, steps)
    ensures InsideBy(Run(START, steps), key, LastEnter(steps, key))
    decreases |steps|
  {
    if steps != [] {
      var front, last := steps[..|steps| - 1], steps[|steps| - 1];
      assert steps == front + [last];
      RunSnoc(START, front, last);
      InsideIsLastEnter(front, key);
      InsideStep(Run(START, front), last, key, LastEnter(front, key));
    }
  }

  /** The main result, over every interleaving, for all 14 maps: what an exit finds is nothing, or
      exactly the args that the same thread stored at the enter this exit belongs to. */
  lemma ExitFindsItsOwnArgs(steps: seq<Step>, exit: Step)
    requires exit.Exit? && CanRun(START, steps + [exit])
    ensures CanRun(START, steps)
    ensures var s := Run(START, steps);
            && exit.key in s.inside && Complete(s.maps)
            && LastEnter(steps, exit.key).Some?
            && var enter, found := LastEnter(steps, exit.key).value,
                                   Found(s.maps, s.inside[exit.key].call, exit.key, exit.logged, exit.ret);
               && enter.call == s.inside[exit.key].call
               && (found == None || found == Some(enter.args))
               && (found == Some(enter.args) <==> exit.logged && exit.ret >= 0 && s.inside[exit.key].stored)
  {
    RunSnoc(START, steps, exit);
    StartInv();
    RunInv(START, steps);
    InsideIsLastEnter(steps, exit.key);
  }

  // ----- occupancy ---------------------------------------------------------------------------------

  /** For the ten calls whose exit deletes its own entry, whether or not the event is recorded: only
      threads inside the call, or that died in it, have an entry. */
  lemma OnlyOccupantsHaveEntries(steps: seq<Step>, call: Call, key: Key)
    requires CanRun(START, steps) && call in SELF_DELETING
    ensures Complete(Run(START, steps).maps)
    ensures key in Run(START, steps).maps[call] ==> Occupant(Run(START, steps), call, key)
  {
    StartInv();
    RunInv(START, steps);
  }

  /** So their inserts succeed while fewer than 1024 threads are inside the call or died in it. */
  lemma RoomForOccupants(s: State, call: Call, occupants: set<Key>)
    requires Inv(s) && call in SELF_DELETING && |occupants| < CAPACITY
    requires forall key :: Occupant(s, call, key) ==> key in occupants
    ensures |s.maps[call]| < CAPACITY
  {
    assert s.maps[call].Keys <= occupants;
    SubsetSize(s.maps[call].Keys, occupants);
    assert |s.maps[call].Keys| == |s.maps[call]|;
  }

  lemma LeakyStep(s: State, step: Step, call: Call)
    requires Complete(s.maps) && Bounded(s) && Enabled(s, step) && call in LEAKY
    ensures call in Next(s, step).maps && s.maps[call].Keys <= Next(s, step).maps[call].Keys
  {
    if step.Exit? {
      ExitLeaves(s, step, call);
    }
  }

  lemma ExitLeaves(s: State, step: Step, call: Call)
    requires Complete(s.maps) && Bounded(s) && step.Exit? && Enabled(s, step) && call in LEAKY
    ensures call in Next(s, step).maps && Next(s, step).maps[call] == s.maps[call]
  {
    var of := s.inside[step.key].call;
    TenAndFour(of);
    assert ExitMap(of) == call ==> ExitKey(of, step.key, step.timestamp) !in s.maps[call];
  }

  /** The other four maps never lose an entry: nothing deletes from them a key that a thread can have. */
  lemma {:induction false} LeakyMapsOnlyGrow(s: State, steps: seq<Step>, call: Call)
    requires Inv(s) && CanRun(s, steps) && call in LEAKY
    ensures Complete(Run(s, steps).maps)
    ensures s.maps[call].Keys <= Run(s, steps).maps[call].Keys
    decreases |steps|
  {
    if steps != [] {
      StepInv(s, steps[0]);
      LeakyStep(s, steps[0], call);
      LeakyMapsOnlyGrow(Next(s, steps[0]), steps[1..], call);
    }
  }

  /** Once such a map is full, a thread without an entry in it never gets one, so its exits from that
      call never find any args again. */
  lemma {:induction false} FullLeakyMapStarves(s: State, steps: seq<Step>, call: Call, key: Key)
    requires Inv(s) && CanRun(s, steps) && call in LEAKY
    requires |s.maps[call]| == CAPACITY && key !in s.maps[call]
    ensures Complete(Run(s, steps).maps) && key !in Run(s, steps).maps[call]
    decreases |steps|
  {
    if steps != [] {
      var t := Next(s, steps[0]);
      StepInv(s, steps[0]);
      FullStaysTheSame(s, steps[0], call);
      FullLeakyMapStarves(t, steps[1..], call, key);
    }
  }

  lemma FullStaysTheSame(s: State, step: Step, call: Call)
    requires Inv(s) && Enabled(s, step) && call in LEAKY && |s.maps[call]| == CAPACITY
    ensures call in Next(s, step).maps && Next(s, step).maps[call].Keys == s.maps[call].Keys
    ensures |Next(s, step).maps[call]| == CAPACITY
  {
    match step
    case Enter(key, c, args) =>
      if c == call {
        var m := Insert(s.maps[call], key, args);
        assert m.Keys == s.maps[call].Keys;
        assert |m.Keys| == |m| && |s.maps[call].Keys| == |s.maps[call]|;
      }
    case Exit(_, _, _, _) => ExitLeaves(s, step, call);
    case Die(_) =>
  }

  // ----- what a leaky map holds -----------------------------------------------------------------------

  /** The distinct keys that entered the call, in the order of their first enter. */
  function Entrants(steps: seq<Step>, call: Call): seq<Key> {
    if steps == [] then []
    else
      var before, last := Entrants(steps[..|steps| - 1], call), steps[|steps| - 1];
      if last.Enter? && last.call == call && last.key !in before then before + [last.key] else before
  }

  lemma {:induction false} EntrantsAreDistinct(steps: seq<Step>, call: Call)
    ensures forall i, j :: 0 <= i < j < |Entrants(steps, call)| ==> Entrants(steps, call)[i] != Entrants(steps, call)[j]
  {
    if steps != [] {
      EntrantsAreDistinct(steps[..|steps| - 1], call);
    }
  }

  function UpToCapacity(keys: seq<Key>): seq<Key> {
    if |keys| <= CAPACITY then keys else keys[..CAPACITY]
  }

  /** A map's keys are the first 1024 of these. */
  ghost predicate HoldsFirst(m: map<Key, Args>, entrants: seq<Key>) {
    && (forall key :: key in m <==> key in UpToCapacity(entrants))
    && |m| == |UpToCapacity(entrants)|
  }

  lemma EnterHoldsFirst(m: map<Key, Args>, entrants: seq<Key>, key: Key, args: Args)
    requires HoldsFirst(m, entrants)
    ensures HoldsFirst(Insert(m, key, args), if key in entrants then entrants else entrants + [key])
  {
    var all := entrants + [key];
    if key in m {
      assert Insert(m, key, args).Keys == m.Keys;
      assert |Insert(m, key, args).Keys| == |m.Keys| && key in entrants;
    } else if |entrants| >= CAPACITY {
      assert all[..CAPACITY] == entrants[..CAPACITY];
      assert Insert(m, key, args) == m;
    } else {
      assert UpToCapacity(all) == all;
    }
  }

  lemma EnterLeaves(s: State, step: Step, call: Call)
    requires Complete(s.maps) && Enabled(s, step) && step.Enter?
    ensures Complete(Next(s, step).maps)
    ensures Next(s, step).maps[call] ==
            if step.call == call then Insert(s.maps[call], step.key, step.args) else s.maps[call]
  {
  }

  /** What the four leaky maps hold after any run: exactly the first 1024 distinct keys that entered the
      call, whatever exited since. */
  lemma {:induction false} LeakyMapsHoldTheFirst(steps: seq<Step>, call: Call)
    requires CanRun(START, steps) && call in LEAKY
    ensures Complete(Run(START, steps).maps) && HoldsFirst(Run(START, steps).maps[call], Entrants(steps, call))
    decreases |steps|
  {
    StartInv();
    if steps != [] {
      var front, last := steps[..|steps| - 1], steps[|steps| - 1];
      assert steps == front + [last];
      RunSnoc(START, front, last);
      LeakyMapsHoldTheFirst(front, call);
      RunInv(START, front);
      var s := Run(START, front);
      match last
      case Enter(key, c, args) =>
        EnterLeaves(s, last, call);
        if c == call {
          EnterHoldsFirst(s.maps[call], Entrants(front, call), key, args);
        }
      case Exit(_, _, _, _) => ExitLeaves(s, last, call);
      case Die(_) =>
    } else {
      EveryCallHasAMap(call);
    }
  }

  /** `n` threads that one after the other enter and leave the call. */
  function Visits(call: Call, n: nat): seq<Step> {
    if n == 0 then []
    else Visits(call, n - 1) + [Enter(Key(n, n, 0), call, [])] + [Exit(Key(n, n, 0), 0, true, 0)]
  }

  lemma VisitRuns(s: State, steps: seq<Step>, call: Call, key: Key) returns (longer: seq<Step>)
    requires CanRun(s, steps) && Inv(s) && Run(s, steps).inside == map[] && key.pid != 0
    ensures longer == steps + [Enter(key, call, [])] + [Exit(key, 0, true, 0)]
    ensures CanRun(s, longer) && Run(s, longer).inside == map[]
  {
    var enter, exit := Enter(key, call, []), Exit(key, 0, true, 0);
    RunInv(s, steps);
    var now := Run(s, steps);
    StepInv(now, enter);
    RunAppend(s, steps, enter);
    StepInv(Next(now, enter), exit);
    RunAppend(s, steps + [enter], exit);
    longer := steps + [enter] + [exit];
    assert Run(s, longer).inside == map[];
  }

  lemma {:induction false} RunAppend(s: State, steps: seq<Step>, x: Step)
    requires CanRun(s, steps) && Complete(Run(s, steps).maps) && Enabled(Run(s, steps), x)
    ensures CanRun(s, steps + [x]) && Run(s, steps + [x]) == Next(Run(s, steps), x)
    decreases |steps|
  {
    if steps == [] {
      assert steps + [x] == [x] && [x][1..] == [];
    } else {
      assert (steps + [x])[0] == steps[0] && (steps + [x])[1..] == steps[1..] + [x];
      RunAppend(Next(s, steps[0]), steps[1..], x);
    }
  }

  lemma {:induction false} VisitsRun(call: Call, n: nat)
    ensures CanRun(START, Visits(call, n)) && Run(START, Visits(call, n)).inside == map[]
  {
    if n > 0 {
      VisitsRun(call, n - 1);
      StartInv();
      var longer := VisitRuns(START, Visits(call, n - 1), call, Key(n, n, 0));
    }
  }

  lemma {:induction false} EntrantsOfVisits(call: Call, n: nat)
    ensures |Entrants(Visits(call, n), call)| == n
    ensures forall i :: 0 <= i < n ==> 1 <= Entrants(Visits(call, n), call)[i].pid <= n
  {
    if n > 0 {
      EntrantsOfVisits(call, n - 1);
      VisitEntrants(Visits(call, n - 1), call, Key(n, n, 0));
    }
  }

  lemma EntrantsAppend(steps: seq<Step>, x: Step, call: Call)
    ensures Entrants(steps + [x], call) ==
            if x.Enter? && x.call == call && x.key !in Entrants(steps, call) then Entrants(steps, call) + [x.key]
            else Entrants(steps, call)
  {
    assert (steps + [x])[..|steps|] == steps;
  }

  lemma VisitEntrants(steps: seq<Step>, call: Call, key: Key)
    requires key !in Entrants(steps, call)
    ensures Entrants(steps + [Enter(key, call, [])] + [Exit(key, 0, true, 0)], call) == Entrants(steps, call) + [key]
  {
    EntrantsAppend(steps, Enter(key, call, []), call);
    EntrantsAppend(steps + [Enter(key, call, [])], Exit(key, 0, true, 0), call);
  }

  /** A full map is reached: 1024 threads that enter and leave, one after the other, fill it for good,
      although no thread is inside any call. */
  lemma FullMapIsReached(call: Call)
    requires call in LEAKY
    ensures var steps := Visits(call, CAPACITY);
      && CanRun(START, steps) && Run(START, steps).inside == map[]
      && Complete(Run(START, steps).maps) && |Run(START, steps).maps[call]| == CAPACITY
      && forall key: Key :: key.pid > CAPACITY ==> key !in Run(START, steps).maps[call]
  {
    VisitsRun(call, CAPACITY);
    EntrantsOfVisits(call, CAPACITY);
    LeakyMapsHoldTheFirst(Visits(call, CAPACITY), call);
  }

  // ----- the maps in place -------------------------------------------------------------------------

  class ArgsMaps {
    var maps: Maps

    constructor ()
      ensures Complete(maps) && maps == START.maps
    {
      maps := START.maps;
      StartComplete();
    }

    /** sys_enter: the map is updated before the event is filtered. */
    method SysEnter(call: Call, key: Key, args: Args)
      requires Complete(maps)
      modifies this
      ensures Complete(maps) && maps == AfterEnter(old(maps), call, key, args)
      ensures var m := old(maps)[call];
              maps == if key in m || |m| < 1024 then old(maps)[call := m[key := args]] else old(maps)
    {
      var m := maps[call];
      if key in m || |m| < CAPACITY {
        maps := maps[call := m[key := args]];
      } else {
        assert maps == maps[call := m];
      }
    }

    /** sys_exit: look up when there is an event to fill, delete in any case. */
    method SysExit(call: Call, key: Key, timestamp: nat, logged: bool, ret: int) returns (found: Option<Args>)
      requires Complete(maps)
      modifies this
      ensures Complete(maps) && maps == AfterExit(old(maps), call, key, timestamp)
      // the map that loses the thread's key, and no other map or key is touched
      ensures call in SELF_DELETING ==> maps == old(maps)[call := old(maps)[call] - {key}]
      ensures call == Accept4 ==> maps == old(maps)[Accept := old(maps)[Accept] - {key}]
      ensures call == Getdents || call == Getdents64 ==> maps == old(maps)[Getsockopt := old(maps)[Getsockopt] - {key}]
      ensures call == Socketpair ==>
                maps == old(maps)[Socketpair := old(maps)[Socketpair] - {Key(0, 0, timestamp % 0x1_0000_0000)}]
      ensures found == Found(old(maps), call, key, logged, ret)
    {
      found := None;
      if logged {
        if ret >= 0 {
          if key in maps[call] {
            found := Some(maps[call][key]);
          }
        }
      }
      TenAndFour(call);
      maps := maps[ExitMap(call) := maps[ExitMap(call)] - {ExitKey(call, key, timestamp)}];
    }
  }
}

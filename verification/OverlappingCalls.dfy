/** sys_enter on several CPUs at once: every access to the shared counters is a step of its own. What the
    records then carry, and what the script makes of them. */
module OverlappingCalls {
  import opened LossAccounting

  /** How far a call on one CPU is; `own` is the number it took when it counted itself. Counted: about to
      reserve. Failed: about to count the error. */
  datatype Pc =
    | Idle
    | Counted(own: nat)
    | Failed(own: nat)
    | Reserved(own: nat)
    | ErrorRead(own: nat, errorCnt: nat)
    | Filled(own: nat, record: Record)

  /** Three histories: the numbers of the calls whose reservation failed or succeeded, and for every record
      in the log the own number of its call. */
  datatype State = State(shared: Shared, pcs: seq<Pc>, failed: set<nat>, granted: set<nat>, owners: seq<nat>)

  datatype Step =
    | Count(c: nat)
    | Reserve(c: nat, room: bool)
    | CountError(c: nat)
    | ReadError(c: nat)
    | ReadCnt(c: nat)
    | Submit(c: nat)

  predicate Enabled(s: State, step: Step) {
    && step.c < |s.pcs|
    && var pc := s.pcs[step.c];
       match step
       case Count(_) => pc.Idle?
       case Reserve(_, _) => pc.Counted?
       case CountError(_) => pc.Failed?
       case ReadError(_) => pc.Reserved?
       case ReadCnt(_) => pc.ErrorRead?
       case Submit(_) => pc.Filled?
  }

  function Next(s: State, step: Step): State
    requires Enabled(s, step)
  {
    var sh, pc := s.shared, s.pcs[step.c];
    match step
    case Count(c) => s.(shared := sh.(cnt := sh.cnt + 1), pcs := s.pcs[c := Counted(sh.cnt + 1)])
    case Reserve(c, room) =>
      if room then s.(pcs := s.pcs[c := Reserved(pc.own)], granted := s.granted + {pc.own})
      else s.(pcs := s.pcs[c := Failed(pc.own)], failed := s.failed + {pc.own})
    case CountError(c) => s.(shared := sh.(errorCnt := sh.errorCnt + 1), pcs := s.pcs[c := Idle])
    case ReadError(c) => s.(pcs := s.pcs[c := ErrorRead(pc.own, sh.errorCnt)])
    case ReadCnt(c) => s.(pcs := s.pcs[c := Filled(pc.own, Record(sh.cnt, pc.errorCnt))])
    case Submit(c) =>
      s.(shared := sh.(log := sh.log + [pc.record]), pcs := s.pcs[c := Idle], owners := s.owners + [pc.own])
  }

  function Start(cpus: nat): State {
    State(ZERO, seq(cpus, _ => Idle), {}, {}, [])
  }

  ghost predicate Quiet(s: State) {
    forall c :: 0 <= c < |s.pcs| ==> s.pcs[c].Idle?
  }

  predicate CanRun(s: State, steps: seq<Step>)
    decreases |steps|, 0
  {
    steps == [] ||
    (var front := steps[..|steps| - 1]; CanRun(s, front) && Enabled(Run(s, front), steps[|steps| - 1]))
  }

  function Run(s: State, steps: seq<Step>): State
    requires CanRun(s, steps)
    decreases |steps|, 1
  {
    if steps == [] then s else Next(Run(s, steps[..|steps| - 1]), steps[|steps| - 1])
  }

  lemma Append(s: State, steps: seq<Step>, x: Step)
    requires CanRun(s, steps) && Enabled(Run(s, steps), x)
    ensures CanRun(s, steps + [x]) && Run(s, steps + [x]) == Next(Run(s, steps), x)
  {
    assert (steps + [x])[..|steps|] == steps;
  }

  // ----- every number is accounted for ---------------------------------------------------------------

  function Busy(pc: Pc): nat {
    if pc.Idle? then 0 else 1
  }

  function InFlight(pcs: seq<Pc>): nat {
    if pcs == [] then 0 else InFlight(pcs[..|pcs| - 1]) + Busy(pcs[|pcs| - 1])
  }

  lemma {:induction false} InFlightUpdate(pcs: seq<Pc>, c: nat, pc: Pc)
    requires c < |pcs|
    ensures InFlight(pcs[c := pc]) == InFlight(pcs) - Busy(pcs[c]) + Busy(pc)
  {
    var n := |pcs| - 1;
    if c == n {
      assert pcs[c := pc][..n] == pcs[..n];
    } else {
      assert pcs[c := pc][..n] == pcs[..n][c := pc];
      InFlightUpdate(pcs[..n], c, pc);
    }
  }

  lemma {:induction false} NoneInFlight(pcs: seq<Pc>)
    ensures InFlight(pcs) == 0 <==> forall c :: 0 <= c < |pcs| ==> pcs[c].Idle?
  {
    if pcs != [] {
      NoneInFlight(pcs[..|pcs| - 1]);
    }
  }

  /** Every number handed out was submitted, counted as an error, or belongs to a call under way. */
  ghost predicate Conserved(s: State) {
    s.shared.cnt == |s.shared.log| + s.shared.errorCnt + InFlight(s.pcs)
  }

  /** The numbers on the records are ones that were handed out, if not to that call. */
  ghost predicate InRange(s: State) {
    && (forall k :: 0 <= k < |s.shared.log| ==> 1 <= s.shared.log[k].cnt <= s.shared.cnt)
    && (forall c :: 0 <= c < |s.pcs| && !s.pcs[c].Idle? ==> 1 <= s.pcs[c].own <= s.shared.cnt)
    && (forall c :: 0 <= c < |s.pcs| && s.pcs[c].Filled? ==> 1 <= s.pcs[c].record.cnt <= s.shared.cnt)
  }

  ghost predicate Undecided(s: State, n: nat) {
    exists c :: 0 <= c < |s.pcs| && s.pcs[c] == Counted(n)
  }

  /** Each number handed out is that of one call: undecided, failed or granted. */
  ghost predicate Decided(s: State) {
    && s.failed !! s.granted
    && (forall n :: n in s.failed + s.granted ==> 1 <= n <= s.shared.cnt && !Undecided(s, n))
    && (forall n: nat :: 1 <= n <= s.shared.cnt ==> n in s.failed || n in s.granted || Undecided(s, n))
    && (forall c, d :: 0 <= c < |s.pcs| && 0 <= d < |s.pcs| && s.pcs[c].Counted? && s.pcs[c] == s.pcs[d] ==> c == d)
    && (forall c :: 0 <= c < |s.pcs| && (s.pcs[c].Reserved? || s.pcs[c].ErrorRead? || s.pcs[c].Filled?) ==>
          s.pcs[c].own in s.granted)
  }

  ghost predicate Inv(s: State) {
    Conserved(s) && InRange(s) && Decided(s)
  }

  lemma StepDecided(s: State, step: Step)
    requires InRange(s) && Decided(s) && Enabled(s, step)
    ensures Decided(Next(s, step))
  {
    var t, c := Next(s, step), step.c;
    assert t.pcs[c] != s.pcs[c] && forall d :: 0 <= d < |s.pcs| && d != c ==> t.pcs[d] == s.pcs[d];
    forall n: nat ensures Undecided(t, n) <==> (Undecided(s, n) && s.pcs[c] != Counted(n)) || t.pcs[c] == Counted(n) {
      if d :| 0 <= d < |s.pcs| && s.pcs[d] == Counted(n) && d != c {
        assert t.pcs[d] == Counted(n);
      }
    }
  }

  lemma StepConserved(s: State, step: Step)
    requires Conserved(s) && InRange(s) && Enabled(s, step)
    ensures Conserved(Next(s, step)) && InRange(Next(s, step))
  {
    InFlightUpdate(s.pcs, step.c, Next(s, step).pcs[step.c]);
  }

  lemma StepInv(s: State, step: Step)
    requires Inv(s) && Enabled(s, step)
    ensures Inv(Next(s, step))
  {
    StepConserved(s, step);
    StepDecided(s, step);
  }

  lemma StartInv(cpus: nat)
    ensures Inv(Start(cpus))
  {
    NoneInFlight(Start(cpus).pcs);
  }

  lemma {:induction false} RunInv(cpus: nat, steps: seq<Step>)
    requires CanRun(Start(cpus), steps)
    ensures Inv(Run(Start(cpus), steps))
    decreases |steps|
  {
    if steps == [] {
      StartInv(cpus);
    } else {
      RunInv(cpus, steps[..|steps| - 1]);
      StepInv(Run(Start(cpus), steps[..|steps| - 1]), steps[|steps| - 1]);
    }
  }

  /** In every reachable state, whatever overlaps: the numbers add up, and they are exactly those of the
      submitted and the failed calls when none is under way. */
  lemma CountsBalance(cpus: nat, steps: seq<Step>)
    requires CanRun(Start(cpus), steps)
    ensures Inv(Run(Start(cpus), steps))
    ensures var s := Run(Start(cpus), steps);
      Quiet(s) <==> s.shared.cnt == |s.shared.log| + s.shared.errorCnt
    ensures var s := Run(Start(cpus), steps);
      Quiet(s) ==> forall n: nat :: 1 <= n <= s.shared.cnt ==> (n in s.failed <==> n !in s.granted)
  {
    RunInv(cpus, steps);
    NoneInFlight(Run(Start(cpus), steps).pcs);
  }

  /** When calls overlap, a record may carry a later call's number, so a number can be missing although
      nothing was lost. But every such number is offset by a duplicate: over every interleaving, once no
      call is under way, the losses are the missing numbers less the duplicates, plus the numbers
      before the first and after the last one in the logs. */
  lemma LossesBalance(cpus: nat, steps: seq<Step>, cnts: seq<int>, first: int, last: int)
    requires CanRun(Start(cpus), steps) && Quiet(Run(Start(cpus), steps))
    requires multiset(cnts) == multiset(Numbers(Run(Start(cpus), steps).shared.log)) && Spans(cnts, first, last)
    ensures 1 <= first && last <= Run(Start(cpus), steps).shared.cnt
    ensures var sh := Run(Start(cpus), steps).shared;
      sh.errorCnt == |Missing(cnts)| - CountDuplicateCnts(cnts) + (first - 1) + (sh.cnt - last)
  {
    RunInv(cpus, steps);
    NoneInFlight(Run(Start(cpus), steps).pcs);
    var numbers := Numbers(Run(Start(cpus), steps).shared.log);
    assert |multiset(cnts)| == |multiset(numbers)|;
    NumberOf(cnts, numbers, first);
    NumberOf(cnts, numbers, last);
    DuplicatesOffset(cnts, first, last);
  }

  // ----- which number a record carries ------------------------------------------------------------------

  /** The calls counted so far. */
  function Counts(steps: seq<Step>): nat {
    if steps == [] then 0
    else Counts(steps[..|steps| - 1]) + if steps[|steps| - 1].Count? then 1 else 0
  }

  lemma {:induction false} CountsGrow(steps: seq<Step>, i: nat, j: nat)
    requires i <= j <= |steps|
    ensures Counts(steps[..i]) <= Counts(steps[..j])
    ensures Counts(steps[..i]) == Counts(steps[..j]) <==> forall k :: i <= k < j ==> !steps[k].Count?
  {
    if i < j {
      CountsGrow(steps, i, j - 1);
      assert steps[..j][..j - 1] == steps[..j - 1];
    }
  }

  /** Step `i` counts a call on CPU `c`: its own number is the one it makes cnt. */
  predicate Takes(steps: seq<Step>, i: nat, c: nat, own: nat) {
    i < |steps| && steps[i] == Count(c) && own == Counts(steps[..i + 1])
  }

  /** The call counted at step `i` reads its number at step `j`. */
  predicate ReadsFor(steps: seq<Step>, i: nat, j: nat, own: nat, cnt: nat) {
    && i < j < |steps| && Takes(steps, i, steps[i].c, own)
    && steps[j] == ReadCnt(steps[i].c) && cnt == Counts(steps[..j])
    && forall k :: i < k < j ==> steps[k] != Count(steps[i].c)
  }

  /** A call is overtaken when another one counts itself before it reads. */
  predicate Overtaken(steps: seq<Step>, i: nat, j: nat) {
    exists k :: i < k < j && k < |steps| && steps[k].Count?
  }

  /** Over every interleaving: the number a call reads is its own if and only if no other call counted
      itself in between. */
  lemma OwnNumberExactly(steps: seq<Step>, i: nat, j: nat, own: nat, cnt: nat)
    requires ReadsFor(steps, i, j, own, cnt)
    ensures own <= cnt && (cnt == own <==> !Overtaken(steps, i, j))
  {
    CountsGrow(steps, i + 1, j);
  }

  /** Where the call under way on CPU `c` was counted. */
  predicate Underway(steps: seq<Step>, i: nat, c: nat, own: nat) {
    Takes(steps, i, c, own) && forall k :: i < k < |steps| ==> steps[k] != Count(c)
  }

  ghost predicate HasOrigin(steps: seq<Step>, c: nat, own: nat) {
    exists i :: Underway(steps, i, c, own)
  }

  ghost predicate HasReading(steps: seq<Step>, own: nat, cnt: nat) {
    exists i, j :: ReadsFor(steps, i, j, own, cnt)
  }

  /** Every call under way was counted by a step of the run, and every record was read by one. */
  ghost predicate Explained(s: State, steps: seq<Step>) {
    && s.shared.cnt == Counts(steps)
    && (forall c :: 0 <= c < |s.pcs| && !s.pcs[c].Idle? ==> HasOrigin(steps, c, s.pcs[c].own))
    && (forall c :: 0 <= c < |s.pcs| && s.pcs[c].Filled? ==> HasReading(steps, s.pcs[c].own, s.pcs[c].record.cnt))
    && |s.owners| == |s.shared.log|
    && (forall k :: 0 <= k < |s.owners| ==> HasReading(steps, s.owners[k], s.shared.log[k].cnt))
  }

  lemma StillOrigin(steps: seq<Step>, x: Step, c: nat, own: nat)
    requires HasOrigin(steps, c, own) && x != Count(c)
    ensures HasOrigin(steps + [x], c, own)
  {
    var i: nat :| Underway(steps, i, c, own);
    assert (steps + [x])[..i + 1] == steps[..i + 1];
    assert Underway(steps + [x], i, c, own);
  }

  lemma StillRead(steps: seq<Step>, x: Step, own: nat, cnt: nat)
    requires HasReading(steps, own, cnt)
    ensures HasReading(steps + [x], own, cnt)
  {
    var i: nat, j: nat :| ReadsFor(steps, i, j, own, cnt);
    assert (steps + [x])[..i + 1] == steps[..i + 1] && (steps + [x])[..j] == steps[..j];
    assert ReadsFor(steps + [x], i, j, own, cnt);
  }

  lemma NewReading(steps: seq<Step>, c: nat, own: nat)
    requires HasOrigin(steps, c, own)
    ensures HasReading(steps + [ReadCnt(c)], own, Counts(steps))
  {
    var i: nat :| Underway(steps, i, c, own);
    var all := steps + [ReadCnt(c)];
    assert all[..i + 1] == steps[..i + 1] && all[..|steps|] == steps;
    assert ReadsFor(all, i, |steps|, own, Counts(steps));
  }

  lemma NewOrigin(steps: seq<Step>, c: nat)
    ensures HasOrigin(steps + [Count(c)], c, Counts(steps) + 1)
  {
    var all := steps + [Count(c)];
    assert all[..|steps| + 1] == all && all[..|all| - 1] == steps;
    assert Underway(all, |steps|, c, Counts(steps) + 1);
  }

  lemma StepOrigin(s: State, steps: seq<Step>, x: Step, c: nat)
    requires Explained(s, steps) && Enabled(s, x) && c < |s.pcs| && !Next(s, x).pcs[c].Idle?
    ensures HasOrigin(steps + [x], c, Next(s, x).pcs[c].own)
  {
    if x == Count(c) {
      NewOrigin(steps, c);
    } else {
      StillOrigin(steps, x, c, s.pcs[c].own);
    }
  }

  lemma StepExplained(s: State, steps: seq<Step>, x: Step)
    requires Explained(s, steps) && Enabled(s, x)
    ensures Explained(Next(s, x), steps + [x])
  {
    var t, all := Next(s, x), steps + [x];
    assert all[..|steps|] == steps;
    forall c | 0 <= c < |t.pcs| && !t.pcs[c].Idle? ensures HasOrigin(all, c, t.pcs[c].own) {
      StepOrigin(s, steps, x, c);
    }
    forall c | 0 <= c < |t.pcs| && t.pcs[c].Filled? ensures HasReading(all, t.pcs[c].own, t.pcs[c].record.cnt) {
      if x == ReadCnt(c) {
        NewReading(steps, c, s.pcs[c].own);
      } else {
        StillRead(steps, x, s.pcs[c].own, s.pcs[c].record.cnt);
      }
    }
    forall k | 0 <= k < |t.owners| ensures HasReading(all, t.owners[k], t.shared.log[k].cnt) {
      if k < |s.owners| {
        StillRead(steps, x, s.owners[k], s.shared.log[k].cnt);
      } else {
        StillRead(steps, x, s.pcs[x.c].own, s.pcs[x.c].record.cnt);
      }
    }
  }

  lemma {:induction false} RunExplained(cpus: nat, steps: seq<Step>)
    requires CanRun(Start(cpus), steps)
    ensures Explained(Run(Start(cpus), steps), steps)
    decreases |steps|
  {
    if steps != [] {
      var front, x := steps[..|steps| - 1], steps[|steps| - 1];
      assert steps == front + [x];
      RunExplained(cpus, front);
      StepExplained(Run(Start(cpus), front), front, x);
    }
  }

  /** Over every interleaving, for every record in the log: it carries the own number of its call if and
      only if no other call counted itself between that call's counting and its reading. */
  lemma RecordCarriesOwnExactly(cpus: nat, steps: seq<Step>, k: nat)
    requires CanRun(Start(cpus), steps) && k < |Run(Start(cpus), steps).shared.log|
    ensures var s := Run(Start(cpus), steps);
      && |s.owners| == |s.shared.log|
      && exists i: nat, j: nat ::
           && ReadsFor(steps, i, j, s.owners[k], s.shared.log[k].cnt)
           && (s.shared.log[k].cnt == s.owners[k] <==> !Overtaken(steps, i, j))
  {
    RunExplained(cpus, steps);
    var s := Run(Start(cpus), steps);
    assert HasReading(steps, s.owners[k], s.shared.log[k].cnt);
    var i: nat, j: nat :| ReadsFor(steps, i, j, s.owners[k], s.shared.log[k].cnt);
    OwnNumberExactly(steps, i, j, s.owners[k], s.shared.log[k].cnt);
  }

  // ----- which numbers the script reports -----------------------------------------------------------------

  /** Some call reads its number while cnt is `n`. */
  predicate ReadAt(steps: seq<Step>, n: int) {
    exists j :: 0 <= j < |steps| && steps[j].ReadCnt? && Counts(steps[..j]) == n
  }

  ghost predicate Carried(s: State, n: int) {
    n in Numbers(s.shared.log) || exists c :: 0 <= c < |s.pcs| && s.pcs[c].Filled? && s.pcs[c].record.cnt == n
  }

  lemma ReadAtSnoc(steps: seq<Step>, x: Step, n: int)
    ensures ReadAt(steps + [x], n) <==> ReadAt(steps, n) || (x.ReadCnt? && Counts(steps) == n)
  {
    var all := steps + [x];
    assert all[..|steps|] == steps && all[|steps|] == x;
    forall j | 0 <= j < |steps| ensures all[j] == steps[j] && all[..j] == steps[..j] {}
    if ReadAt(steps, n) {
      var j :| 0 <= j < |steps| && steps[j].ReadCnt? && Counts(steps[..j]) == n;
      assert all[j].ReadCnt? && Counts(all[..j]) == n;
    }
  }

  lemma CarriedStep(s: State, x: Step, n: int)
    requires Enabled(s, x)
    ensures Carried(Next(s, x), n) <==> Carried(s, n) || (x.ReadCnt? && s.shared.cnt == n)
  {
    var t, c := Next(s, x), x.c;
    assert t.pcs[c] != s.pcs[c] && forall d :: 0 <= d < |s.pcs| && d != c ==> t.pcs[d] == s.pcs[d];
    if x.Submit? {
      assert Numbers(t.shared.log) == Numbers(s.shared.log) + [s.pcs[c].record.cnt];
    } else {
      assert t.shared.log == s.shared.log;
    }
  }

  lemma {:induction false} CarriedIsRead(cpus: nat, steps: seq<Step>, n: int)
    requires CanRun(Start(cpus), steps)
    ensures Carried(Run(Start(cpus), steps), n) <==> ReadAt(steps, n)
    decreases |steps|
  {
    if steps != [] {
      var front, x := steps[..|steps| - 1], steps[|steps| - 1];
      assert steps == front + [x];
      CarriedIsRead(cpus, front, n);
      RunExplained(cpus, front);
      ReadAtSnoc(front, x, n);
      CarriedStep(Run(Start(cpus), front), x, n);
    }
  }

  /** Over every interleaving, once no call is under way: the script reports a number exactly if it lies
      in the range of the logs and no call read its number while cnt was that number. */
  lemma ReportedExactly(cpus: nat, steps: seq<Step>, cnts: seq<int>, first: int, last: int, n: int)
    requires CanRun(Start(cpus), steps) && Quiet(Run(Start(cpus), steps))
    requires Logged(Run(Start(cpus), steps).shared.log, cnts) && Spans(cnts, first, last)
    ensures n in Missing(cnts) <==> first <= n <= last && !ReadAt(steps, n)
  {
    MissingIsGaps(cnts, first, last);
    CarriedIsRead(cpus, steps, n);
    assert n in Elements(cnts) <==> n in Numbers(Run(Start(cpus), steps).shared.log);
  }

  /** The script names exactly the calls in its range whose reservation failed. */
  ghost predicate NamesTheLost(s: State, cnts: seq<int>, first: int, last: int) {
    forall n: nat :: first <= n <= last ==> (n in Missing(cnts) <==> n in s.failed)
  }

  /** So it is right if and only if, for every number in its range, some call read it exactly if the call
      that took it got a record. */
  lemma NamesTheLostExactly(cpus: nat, steps: seq<Step>, cnts: seq<int>, first: int, last: int)
    requires CanRun(Start(cpus), steps) && Quiet(Run(Start(cpus), steps))
    requires Logged(Run(Start(cpus), steps).shared.log, cnts) && Spans(cnts, first, last)
    ensures NamesTheLost(Run(Start(cpus), steps), cnts, first, last) <==>
            forall n: nat :: first <= n <= last ==> (ReadAt(steps, n) <==> n in Run(Start(cpus), steps).granted)
  {
    var s := Run(Start(cpus), steps);
    RunInv(cpus, steps);
    RangeIsHandedOut(cpus, steps, cnts, first, last);
    forall n: nat | first <= n <= last ensures n in Missing(cnts) <==> !ReadAt(steps, n) {
      ReportedExactly(cpus, steps, cnts, first, last, n);
    }
    forall n: nat | first <= n <= last ensures n in s.failed <==> n !in s.granted {
      assert !Undecided(s, n);
    }
  }

  lemma RangeIsHandedOut(cpus: nat, steps: seq<Step>, cnts: seq<int>, first: int, last: int)
    requires CanRun(Start(cpus), steps)
    requires Logged(Run(Start(cpus), steps).shared.log, cnts) && Spans(cnts, first, last)
    ensures 1 <= first <= last <= Run(Start(cpus), steps).shared.cnt
  {
    var s := Run(Start(cpus), steps);
    RunInv(cpus, steps);
    assert first in Elements(cnts) && last in Elements(cnts);
    assert first in Numbers(s.shared.log) && last in Numbers(s.shared.log);
  }

  // ----- when no call is overtaken --------------------------------------------------------------------------

  ghost predicate NoneOvertaken(steps: seq<Step>) {
    forall i: nat, j: nat, own, cnt :: ReadsFor(steps, i, j, own, cnt) ==> !Overtaken(steps, i, j)
  }

  /** A call with a record has read its number, or is about to. */
  ghost predicate GrantedReads(s: State, steps: seq<Step>) {
    forall n: nat :: n in s.granted ==>
      (exists cnt :: HasReading(steps, n, cnt)) ||
      (exists c :: 0 <= c < |s.pcs| && (s.pcs[c].Reserved? || s.pcs[c].ErrorRead?) && s.pcs[c].own == n)
  }

  lemma StepGrantedReads(s: State, steps: seq<Step>, x: Step)
    requires Explained(s, steps) && GrantedReads(s, steps) && Enabled(s, x)
    ensures GrantedReads(Next(s, x), steps + [x])
  {
    var t, all := Next(s, x), steps + [x];
    assert forall d :: 0 <= d < |s.pcs| && d != x.c ==> t.pcs[d] == s.pcs[d];
    forall n: nat | n in t.granted
      ensures (exists cnt :: HasReading(all, n, cnt)) ||
              (exists c :: 0 <= c < |t.pcs| && (t.pcs[c].Reserved? || t.pcs[c].ErrorRead?) && t.pcs[c].own == n)
    {
      if cnt :| HasReading(steps, n, cnt) {
        StillRead(steps, x, n, cnt);
      } else if n in s.granted {
        var c :| 0 <= c < |s.pcs| && (s.pcs[c].Reserved? || s.pcs[c].ErrorRead?) && s.pcs[c].own == n;
        if x == ReadCnt(c) {
          NewReading(steps, c, n);
        }
        assert c != x.c ==> t.pcs[c] == s.pcs[c];
      } else {
        assert t.pcs[x.c] == Reserved(n);
      }
    }
  }

  /** Who reads was granted a record. */
  ghost predicate ReadersGranted(s: State, steps: seq<Step>) {
    forall own, cnt :: HasReading(steps, own, cnt) ==> own in s.granted
  }

  lemma NewReader(steps: seq<Step>, x: Step, own: nat, cnt: nat, mine: nat)
    requires HasReading(steps + [x], own, cnt) && !HasReading(steps, own, cnt)
    requires x.ReadCnt? ==> HasOrigin(steps, x.c, mine)
    ensures x.ReadCnt? && own == mine
  {
    var all := steps + [x];
    var i: nat, j: nat :| ReadsFor(all, i, j, own, cnt);
    assert all[i] == steps[i] && all[..i + 1] == steps[..i + 1] && all[..j] == steps[..j];
    assert forall k :: 0 <= k < |steps| ==> all[k] == steps[k];
    if j < |steps| {
      assert ReadsFor(steps, i, j, own, cnt);
    }
    SameOrigin(steps, i, x.c, own, mine);
  }

  lemma SameOrigin(steps: seq<Step>, i: nat, c: nat, own: nat, mine: nat)
    requires Underway(steps, i, c, own) && HasOrigin(steps, c, mine)
    ensures own == mine
  {
    var k: nat :| Underway(steps, k, c, mine);
    assert k == i;
  }

  lemma StepReadersGranted(s: State, steps: seq<Step>, x: Step)
    requires Explained(s, steps) && Decided(s) && ReadersGranted(s, steps) && Enabled(s, x)
    ensures ReadersGranted(Next(s, x), steps + [x])
  {
    forall own, cnt | HasReading(steps + [x], own, cnt) ensures own in Next(s, x).granted {
      if !HasReading(steps, own, cnt) {
        NewReader(steps, x, own, cnt, if x.ReadCnt? then s.pcs[x.c].own else 0);
      }
    }
  }

  lemma {:induction false} RunGranted(cpus: nat, steps: seq<Step>)
    requires CanRun(Start(cpus), steps)
    ensures GrantedReads(Run(Start(cpus), steps), steps) && ReadersGranted(Run(Start(cpus), steps), steps)
    decreases |steps|
  {
    if steps != [] {
      var front, x := steps[..|steps| - 1], steps[|steps| - 1];
      assert steps == front + [x];
      RunGranted(cpus, front);
      RunExplained(cpus, front);
      RunInv(cpus, front);
      StepGrantedReads(Run(Start(cpus), front), front, x);
      StepReadersGranted(Run(Start(cpus), front), front, x);
    }
  }

  /** The number of a call that is not overtaken is read exactly if the call got a record. */
  lemma ReadExactlyIfGranted(cpus: nat, steps: seq<Step>, n: nat)
    requires CanRun(Start(cpus), steps) && Quiet(Run(Start(cpus), steps)) && NoneOvertaken(steps)
    ensures ReadAt(steps, n) <==> n in Run(Start(cpus), steps).granted
  {
    var s := Run(Start(cpus), steps);
    RunGranted(cpus, steps);
    RunExplained(cpus, steps);
    if ReadAt(steps, n) {
      CarriedIsRead(cpus, steps, n);
      var k :| 0 <= k < |s.shared.log| && Numbers(s.shared.log)[k] == n;
      NotOvertaken(steps, s.owners[k], n);
    }
    if n in s.granted {
      var cnt: nat :| HasReading(steps, n, cnt);
      NotOvertaken(steps, n, cnt);
    }
  }

  lemma NotOvertaken(steps: seq<Step>, own: nat, cnt: nat)
    requires NoneOvertaken(steps) && HasReading(steps, own, cnt)
    ensures own == cnt && ReadAt(steps, cnt)
  {
    var i: nat, j: nat :| ReadsFor(steps, i, j, own, cnt);
    OwnNumberExactly(steps, i, j, own, cnt);
  }

  /** In particular the script names exactly the lost calls when no call is overtaken, however else they
      overlap. */
  lemma RightWhenNoneOvertaken(cpus: nat, steps: seq<Step>, cnts: seq<int>, first: int, last: int)
    requires CanRun(Start(cpus), steps) && Quiet(Run(Start(cpus), steps)) && NoneOvertaken(steps)
    requires Logged(Run(Start(cpus), steps).shared.log, cnts) && Spans(cnts, first, last)
    ensures NamesTheLost(Run(Start(cpus), steps), cnts, first, last)
  {
    forall n: nat ensures ReadAt(steps, n) <==> n in Run(Start(cpus), steps).granted {
      ReadExactlyIfGranted(cpus, steps, n);
    }
    NamesTheLostExactly(cpus, steps, cnts, first, last);
  }

  // ----- runs of calls -------------------------------------------------------------------------------------

  lemma Extend(s: State, steps: seq<Step>, now: State, x: Step) returns (longer: seq<Step>)
    requires CanRun(s, steps) && Run(s, steps) == now && Enabled(now, x)
    ensures CanRun(s, longer) && Run(s, longer) == Next(now, x)
  {
    Append(s, steps, x);
    longer := steps + [x];
  }

  function AfterGranted(s: State, c: nat): State
    requires c < |s.pcs| && s.pcs[c].Counted?
  {
    var sh := s.shared;
    var own := s.pcs[c].own;
    var r := Record(sh.cnt, sh.errorCnt);
    State(sh.(log := sh.log + [r]), s.pcs[c := Idle], s.failed, s.granted + {own}, s.owners + [own])
  }

  /** The rest of a call that gets a record, without interruption. */
  lemma GrantedCall(s: State, steps: seq<Step>, now: State, c: nat) returns (longer: seq<Step>)
    requires CanRun(s, steps) && Run(s, steps) == now && c < |now.pcs| && now.pcs[c].Counted?
    ensures CanRun(s, longer) && Run(s, longer) == AfterGranted(now, c)
  {
    var s1 := Next(now, Reserve(c, true));
    var s2 := Next(s1, ReadError(c));
    var s3 := Next(s2, ReadCnt(c));
    longer := Extend(s, steps, now, Reserve(c, true));
    longer := Extend(s, longer, s1, ReadError(c));
    longer := Extend(s, longer, s2, ReadCnt(c));
    longer := Extend(s, longer, s3, Submit(c));
    assert Next(s3, Submit(c)).pcs == now.pcs[c := Idle];
  }

  function AfterCall(s: State, room: bool): State {
    var own := s.shared.cnt + 1;
    if room then State(Call(s.shared, true), s.pcs, s.failed, s.granted + {own}, s.owners + [own])
    else State(Call(s.shared, false), s.pcs, s.failed + {own}, s.granted, s.owners)
  }

  /** A call that no other call interrupts is one of those runs, and has the effect of Call. */
  lemma UninterruptedCall(s: State, steps: seq<Step>, now: State, c: nat, room: bool) returns (longer: seq<Step>)
    requires CanRun(s, steps) && Run(s, steps) == now && c < |now.pcs| && now.pcs[c].Idle?
    ensures CanRun(s, longer) && Run(s, longer) == AfterCall(now, room)
  {
    var s1 := Next(now, Count(c));
    longer := Extend(s, steps, now, Count(c));
    if room {
      longer := GrantedCall(s, longer, s1, c);
      assert AfterGranted(s1, c).pcs == now.pcs;
    } else {
      longer := FailedCall(s, longer, s1, c);
      assert AfterFailed(s1, c).pcs == now.pcs;
    }
  }

  function AfterFailed(s: State, c: nat): State
    requires c < |s.pcs| && s.pcs[c].Counted?
  {
    var sh := s.shared;
    s.(shared := sh.(errorCnt := sh.errorCnt + 1), pcs := s.pcs[c := Idle], failed := s.failed + {s.pcs[c].own})
  }

  lemma FailedCall(s: State, steps: seq<Step>, now: State, c: nat) returns (longer: seq<Step>)
    requires CanRun(s, steps) && Run(s, steps) == now && c < |now.pcs| && now.pcs[c].Counted?
    ensures CanRun(s, longer) && Run(s, longer) == AfterFailed(now, c)
  {
    var s1 := Next(now, Reserve(c, false));
    longer := Extend(s, steps, now, Reserve(c, false));
    longer := Extend(s, longer, s1, CountError(c));
    assert Next(s1, CountError(c)).pcs == now.pcs[c := Idle];
  }

  /** So the calls taken one at a time are among the runs. */
  lemma {:induction false} SerialRun(outcomes: seq<bool>) returns (steps: seq<Step>)
    ensures CanRun(Start(1), steps) && Quiet(Run(Start(1), steps)) && Run(Start(1), steps).shared == After(outcomes)
    ensures |Run(Start(1), steps).pcs| == 1
  {
    steps := [];
    if outcomes != [] {
      var n := |outcomes| - 1;
      steps := SerialRun(outcomes[..n]);
      steps := UninterruptedCall(Start(1), steps, Run(Start(1), steps), 0, outcomes[n]);
    }
  }

  /** One call by itself on the first of two CPUs. */
  lemma FirstCall() returns (steps: seq<Step>, now: State)
    ensures now == State(Shared(1, 0, [Record(1, 0)]), [Idle, Idle], {}, {1}, [1])
    ensures CanRun(Start(2), steps) && Run(Start(2), steps) == now
  {
    assert Start(2).pcs == [Idle, Idle];
    steps := UninterruptedCall(Start(2), [], Start(2), 0, true);
    now := AfterCall(Start(2), true);
    assert now.granted == {1};
  }

  ghost predicate RaisesFalseAlarm(s: State) {
    Quiet(s) && s.failed == {} && s.shared.errorCnt == 0 && Missing(Numbers(s.shared.log)) == [2]
  }

  /** A false alarm: nothing was lost, and the script reports number 2 as missing. */
  lemma MissingWithoutLoss()
    ensures exists steps :: CanRun(Start(2), steps) && RaisesFalseAlarm(Run(Start(2), steps))
  {
    var steps, s0 := FirstCall();
    var s2 := s0.(shared := Shared(3, 0, [Record(1, 0)]), pcs := [Counted(2), Counted(3)]);
    var s3 := AfterGranted(s2, 0);
    steps := CountTwo(steps, s0);
    steps := GrantedCall(Start(2), steps, s2, 0);
    steps := GrantedCall(Start(2), steps, s3, 1);
    FalseReport(AfterGranted(s3, 1));
  }

  lemma FalseReport(s: State)
    requires Quiet(s) && s.failed == {} && s.shared == Shared(3, 0, [Record(1, 0)] + [Record(3, 0)] + [Record(3, 0)])
    ensures RaisesFalseAlarm(s)
  {
    FalseAlarm();
    assert Numbers(s.shared.log) == [1, 3, 3];
  }

  /** Both CPUs count before either goes on. */
  lemma CountTwo(steps: seq<Step>, now: State) returns (longer: seq<Step>)
    requires CanRun(Start(2), steps) && Run(Start(2), steps) == now && now.pcs == [Idle, Idle] && now.shared.cnt == 1
    ensures CanRun(Start(2), longer)
    ensures Run(Start(2), longer) == now.(shared := now.shared.(cnt := 3), pcs := [Counted(2), Counted(3)])
  {
    var s1 := now.(shared := now.shared.(cnt := 2), pcs := [Counted(2), Idle]);
    longer := Extend(Start(2), steps, now, Count(0));
    assert Next(now, Count(0)) == s1;
    longer := Extend(Start(2), longer, s1, Count(1));
    assert Next(s1, Count(1)).pcs == [Counted(2), Counted(3)];
  }

  lemma FalseAlarm()
    ensures Missing([1, 3, 3]) == [2] && CountDuplicateCnts([1, 3, 3]) == 1
  {
    var cnts := [1, 3, 3];
    assert cnts[0] == 1 && cnts[1] == 3;
    assert Elements(cnts) == {1, 3};
    MissingIsGaps(cnts, 1, 3);
    OneGap();
  }

  lemma OneGap()
    ensures Gaps(1, 3, {1, 3}) == [2]
  {
    assert Gaps(4, 3, {1, 3}) == [];
    assert Gaps(3, 3, {1, 3}) == [];
    assert Gaps(2, 3, {1, 3}) == [2];
  }

  ghost predicate NamesTheWrongCall(s: State) {
    && Quiet(s) && s.failed == {3} && s.granted == {1, 2, 4} && s.shared.errorCnt == 1
    && Missing(Numbers(s.shared.log)) == [2] && CountDuplicateCnts(Numbers(s.shared.log)) == 0
  }

  /** A wrong name: call 2 was logged and call 3 was lost, the script reports number 2 as missing, and the
      count is right. */
  lemma WrongCallReported()
    ensures exists steps :: CanRun(Start(2), steps) && NamesTheWrongCall(Run(Start(2), steps))
  {
    var steps, s0 := FirstCall();
    var s2 := s0.(shared := Shared(3, 0, [Record(1, 0)]), pcs := [Counted(2), Counted(3)]);
    steps := CountTwo(steps, s0);
    steps := FailedCall(Start(2), steps, s2, 1);
    var s4 := AfterFailed(s2, 1);
    assert s4 == State(Shared(3, 1, [Record(1, 0)]), [Counted(2), Idle], {3}, {1}, [1]);
    steps := WrongRest(steps, s4);
  }

  lemma WrongRest(first: seq<Step>, s4: State) returns (steps: seq<Step>)
    requires CanRun(Start(2), first) && Run(Start(2), first) == s4
    requires s4 == State(Shared(3, 1, [Record(1, 0)]), [Counted(2), Idle], {3}, {1}, [1])
    ensures CanRun(Start(2), steps) && NamesTheWrongCall(Run(Start(2), steps))
  {
    steps := GrantedCall(Start(2), first, s4, 0);
    steps := UninterruptedCall(Start(2), steps, AfterGranted(s4, 0), 0, true);
    WrongReport(AfterCall(AfterGranted(s4, 0), true));
  }

  lemma WrongReport(s: State)
    requires Quiet(s) && s.failed == {3} && s.granted == {1} + {2} + {4}
    requires s.shared == Shared(4, 1, [Record(1, 0)] + [Record(3, 1)] + [Record(4, 1)])
    ensures NamesTheWrongCall(s)
  {
    WrongNumbers();
    assert Numbers(s.shared.log) == [1, 3, 4];
  }

  lemma WrongNumbers()
    ensures Missing([1, 3, 4]) == [2] && CountDuplicateCnts([1, 3, 4]) == 0
  {
    var cnts := [1, 3, 4];
    assert cnts[0] == 1 && cnts[1] == 3 && cnts[2] == 4;
    assert Elements(cnts) == {1, 3, 4};
    MissingIsGaps(cnts, 1, 4);
    GapAtTwo();
    DuplicatesOffset(cnts, 1, 4);
  }

  lemma GapAtTwo()
    ensures Gaps(1, 4, {1, 3, 4}) == [2]
  {
    assert Gaps(5, 4, {1, 3, 4}) == [];
    assert Gaps(4, 4, {1, 3, 4}) == [];
    assert Gaps(3, 4, {1, 3, 4}) == [];
    assert Gaps(2, 4, {1, 3, 4}) == [2];
  }
}

/** When a change of the policy file or the containers is missed for good: the exact condition, read off
    the steps of a run. */
module MissedChanges {
  import opened Seqs
  import opened SingleFlight

  // ----- what the steps of a run say ---------------------------------------------------------------

  /** Step `b` reads the world for an attempt that succeeds. */
  ghost predicate Succeeds(steps: seq<Step>, b: nat) {
    b < |steps| && steps[b].Begin? && exists f :: EndsWell(steps, b, f)
  }

  ghost predicate EndsWell(steps: seq<Step>, b: nat, f: nat)
    requires b < |steps| && steps[b].Begin?
  {
    b < f < |steps| && steps[f] == Finish(steps[b].t, Success) && NoStepOf(steps, steps[b].t, b, f)
  }

  ghost predicate NoStepOf(steps: seq<Step>, t: nat, b: nat, f: nat)
    requires f <= |steps|
  {
    forall j :: b < j < f ==> Actor(steps[j]) != Some(t)
  }

  function ChangesSeen(steps: seq<Step>, t: nat): nat {
    if steps == [] then 0
    else ChangesSeen(steps[..|steps| - 1], t) + if steps[|steps| - 1] == Change(t) then 1 else 0
  }

  function ChangesTold(steps: seq<Step>, t: nat): nat {
    if steps == [] then 0
    else
      var last := steps[|steps| - 1];
      ChangesTold(steps[..|steps| - 1], t) + if last.Told? && last.t == t then 1 else 0
  }

  /** Step `k` is the request for the change of step `i`: a thread handles its records in order. */
  predicate Requests(steps: seq<Step>, k: nat, i: nat) {
    && i < k < |steps| && steps[i].Change? && steps[k] == Ask(steps[i].t)
    && ChangesTold(steps[..k], steps[i].t) == ChangesSeen(steps[..i + 1], steps[i].t)
  }

  /** The request for the change is turned away while another update is running, and nobody reads the
      world after the change. */
  ghost predicate TurnedAway(p: Program, s: State, steps: seq<Step>, i: nat, k: nat)
    requires CanRun(p, s, steps)
  {
    Requests(steps, k, i) && At(p, s, steps, k).flag && forall b :: i < b < |steps| ==> !steps[b].Begin?
  }

  /** After the change an update ends by exception or by the exit signal, and no attempt that reads the
      world after the change succeeds. */
  ghost predicate CutShort(p: Program, s: State, steps: seq<Step>, i: nat, k: nat)
    requires CanRun(p, s, steps)
  {
    && i < k < |steps| && steps[i].Change? && Aborts(p, At(p, s, steps, k), steps[k])
    && forall b :: i < b < |steps| ==> !Succeeds(steps, b)
  }

  /** Some change is missed, in one of the two ways. */
  ghost predicate Misses(p: Program, s: State, steps: seq<Step>)
    requires CanRun(p, s, steps)
  {
    exists i: nat, k: nat :: TurnedAway(p, s, steps, i, k) || CutShort(p, s, steps, i, k)
  }

  // ----- changes that a successful update has read ----------------------------------------------------

  function Changes(steps: seq<Step>): nat {
    if steps == [] then 0
    else Changes(steps[..|steps| - 1]) + if steps[|steps| - 1].Change? then 1 else 0
  }

  lemma {:induction false} ChangesGrow(steps: seq<Step>, j: nat, k: nat)
    requires j <= k <= |steps|
    ensures Changes(steps[..j]) <= Changes(steps[..k])
    ensures j < k && steps[j].Change? ==> Changes(steps[..j]) < Changes(steps[..k])
  {
    if j < k {
      ChangesGrow(steps, j, k - 1);
      assert steps[..k][..k - 1] == steps[..k - 1];
    }
  }

  ghost predicate Covered(steps: seq<Step>, i: nat) {
    exists b :: i < b < |steps| && Succeeds(steps, b)
  }

  /** The index of a thread's latest step. */
  function Latest(steps: seq<Step>, t: nat): (r: Option<nat>)
    ensures r.Some? ==> r.value < |steps| && Actor(steps[r.value]) == Some(t) && NoStepOf(steps, t, r.value, |steps|)
    ensures r.None? ==> forall j :: 0 <= j < |steps| ==> Actor(steps[j]) != Some(t)
  {
    if steps == [] then None
    else if Actor(steps[|steps| - 1]) == Some(t) then Some(|steps| - 1)
    else Latest(steps[..|steps| - 1], t)
  }

  lemma StillSucceeds(steps: seq<Step>, x: Step, b: nat)
    requires Succeeds(steps, b)
    ensures Succeeds(steps + [x], b)
  {
    var f :| EndsWell(steps, b, f);
    assert EndsWell(steps + [x], b, f);
  }

  lemma StillCovered(steps: seq<Step>, x: Step, i: nat)
    requires Covered(steps, i)
    ensures Covered(steps + [x], i)
  {
    var b :| i < b < |steps| && Succeeds(steps, b);
    StillSucceeds(steps, x, b);
  }

  lemma NewlySucceeds(steps: seq<Step>, t: nat)
    requires Latest(steps, t).Some? && steps[Latest(steps, t).value] == Begin(t)
    ensures Succeeds(steps + [Finish(t, Success)], Latest(steps, t).value)
  {
    assert EndsWell(steps + [Finish(t, Success)], Latest(steps, t).value, |steps|);
  }

  lemma WasWell(steps: seq<Step>, x: Step, b: nat, f: nat)
    requires b < f < |steps| && (steps + [x])[b].Begin? && EndsWell(steps + [x], b, f)
    ensures Succeeds(steps, b)
  {
    var all := steps + [x];
    assert all[b] == steps[b] && all[f] == steps[f];
    forall j | b < j < f ensures Actor(steps[j]) != Some(steps[b].t) {
      assert all[j] == steps[j];
    }
    assert EndsWell(steps, b, f);
  }

  /** Only the end of a successful attempt covers further changes: those before its reading. */
  lemma CoveredByLast(steps: seq<Step>, x: Step, i: nat)
    requires Covered(steps + [x], i) && !Covered(steps, i)
    ensures x.Finish? && x.outcome.Success?
    ensures Latest(steps, x.t).Some? && i < Latest(steps, x.t).value
  {
    var all := steps + [x];
    var b :| i < b < |all| && Succeeds(all, b);
    var f: nat :| EndsWell(all, b, f);
    assert forall j :: 0 <= j < |steps| ==> all[j] == steps[j];
    if f < |steps| {
      WasWell(steps, x, b, f);
    }
    assert NoStepOf(all, x.t, b, |steps|);
  }

  /** A loaded thread's latest step read the world, at the version it carries. */
  ghost predicate LoadedSince(s: State, steps: seq<Step>) {
    forall t :: 0 <= t < |s.pcs| && s.pcs[t].Loaded? ==> LoadedAt(steps, t, s.pcs[t].version)
  }

  predicate LoadedAt(steps: seq<Step>, t: nat, version: nat) {
    var b := Latest(steps, t);
    b.Some? && steps[b.value] == Begin(t) && version == Changes(steps[..b.value])
  }

  ghost predicate Counted(s: State, steps: seq<Step>) {
    s.version == Changes(steps) && LoadedSince(s, steps)
  }

  lemma CountedStep(p: Program, s: State, steps: seq<Step>, x: Step)
    requires Counted(s, steps) && Enabled(s, x)
    ensures Counted(Next(p, s, x), steps + [x])
  {
    var all, t := steps + [x], Next(p, s, x);
    assert all[..|steps|] == steps;
    forall u | 0 <= u < |t.pcs| && t.pcs[u].Loaded? ensures LoadedAt(all, u, t.pcs[u].version) {
      if Actor(x) != Some(u) {
        var b := Latest(steps, u).value;
        assert t.pcs[u] == s.pcs[u] && LoadedAt(steps, u, s.pcs[u].version);
        assert all[..b] == steps[..b];
      }
    }
  }

  /** The installed version is past exactly the covered changes. */
  ghost predicate Installs(s: State, steps: seq<Step>, i: nat)
    requires i < |steps|
  {
    s.installed > Changes(steps[..i]) <==> Covered(steps, i)
  }

  lemma InstallsStep(p: Program, s: State, steps: seq<Step>, x: Step, i: nat)
    requires Inv(s) && Counted(s, steps) && Enabled(s, x) && i < |steps| && steps[i].Change? && Installs(s, steps, i)
    ensures Installs(Next(p, s, x), steps + [x], i)
  {
    var all := steps + [x];
    assert all[..i] == steps[..i];
    if Covered(steps, i) {
      StillCovered(steps, x, i);
    }
    if x.Finish? && x.outcome.Success? {
      assert LoadedAt(steps, x.t, s.pcs[x.t].version);
      var b := Latest(steps, x.t).value;
      if i < b {
        NewlySucceeds(steps, x.t);
        ChangesGrow(steps, i, b);
      } else {
        ChangesGrow(steps, b, i);
      }
    }
    if Covered(all, i) && !Covered(steps, i) {
      CoveredByLast(steps, x, i);
    }
  }

  // ----- what becomes of a change ----------------------------------------------------------------------

  ghost predicate Aborted(p: Program, s: State, steps: seq<Step>, i: nat)
    requires CanRun(p, s, steps)
  {
    exists k: nat :: i < k < |steps| && Aborts(p, At(p, s, steps, k), steps[k])
  }

  ghost predicate Refused(p: Program, s: State, steps: seq<Step>, i: nat)
    requires CanRun(p, s, steps)
  {
    exists k: nat :: Requests(steps, k, i) && At(p, s, steps, k).flag
  }

  /** An update that has still to read the world, or has read the change. */
  predicate Carries(pc: Pc, change: nat) {
    pc.Locking? || pc.Starting? || pc.Sleeping? || (pc.Loaded? && pc.version > change)
  }

  ghost predicate Carried(s: State, change: nat) {
    exists u :: 0 <= u < |s.pcs| && Carries(s.pcs[u], change)
  }

  /** The change is covered, or an update that read or will read it is under way or was cut short. */
  ghost predicate Handled(p: Program, s: State, steps: seq<Step>, i: nat)
    requires CanRun(p, s, steps) && i < |steps|
  {
    Covered(steps, i) || Aborted(p, s, steps, i) || Carried(Run(p, s, steps), Changes(steps[..i]))
  }

  lemma AtAppend(p: Program, s: State, steps: seq<Step>, x: Step, k: nat)
    requires CanRun(p, s, steps) && Enabled(Run(p, s, steps), x) && k <= |steps|
    ensures CanRun(p, s, steps + [x]) && At(p, s, steps + [x], k) == At(p, s, steps, k)
    ensures k == |steps| ==> At(p, s, steps, k) == Run(p, s, steps)
  {
    Append(p, s, steps, x);
    assert (steps + [x])[..k] == steps[..k];
    if k == |steps| {
      assert steps[..k] == steps;
    }
  }

  lemma StillAborted(p: Program, s: State, steps: seq<Step>, x: Step, i: nat)
    requires CanRun(p, s, steps) && Enabled(Run(p, s, steps), x) && i < |steps|
    requires Aborted(p, s, steps, i) || Aborts(p, Run(p, s, steps), x)
    ensures CanRun(p, s, steps + [x]) && Aborted(p, s, steps + [x], i)
  {
    var k: nat := |steps|;
    if Aborted(p, s, steps, i) {
      k :| i < k < |steps| && Aborts(p, At(p, s, steps, k), steps[k]);
    }
    AtAppend(p, s, steps, x, k);
    assert i < k < |steps + [x]| && Aborts(p, At(p, s, steps + [x], k), (steps + [x])[k]);
  }

  lemma StillRefused(p: Program, s: State, steps: seq<Step>, x: Step, i: nat)
    requires CanRun(p, s, steps) && Enabled(Run(p, s, steps), x) && Refused(p, s, steps, i)
    ensures CanRun(p, s, steps + [x]) && Refused(p, s, steps + [x], i)
  {
    var k: nat :| Requests(steps, k, i) && At(p, s, steps, k).flag;
    AtAppend(p, s, steps, x, k);
    assert (steps + [x])[..k] == steps[..k] && (steps + [x])[..i + 1] == steps[..i + 1];
    assert Requests(steps + [x], k, i);
  }

  /** An update that carries a change goes on carrying it, covers it, or is cut short. */
  lemma CarriedStep(p: Program, s: State, x: Step, u: nat, change: nat)
    requires Enabled(s, x) && u < |s.pcs| && Carries(s.pcs[u], change) && change < s.version
    ensures Carries(Next(p, s, x).pcs[u], change) || Aborts(p, s, x)
            || (x == Finish(u, Success) && s.pcs[u].Loaded? && s.pcs[u].version > change)
  {
  }

  lemma HandledStep(p: Program, s: State, steps: seq<Step>, x: Step, i: nat)
    requires CanRun(p, s, steps) && Enabled(Run(p, s, steps), x) && Counted(Run(p, s, steps), steps)
    requires i < |steps| && steps[i].Change? && Handled(p, s, steps, i)
    ensures CanRun(p, s, steps + [x]) && Handled(p, s, steps + [x], i)
  {
    var now, all, change := Run(p, s, steps), steps + [x], Changes(steps[..i]);
    Append(p, s, steps, x);
    assert all[..i] == steps[..i];
    if Covered(steps, i) {
      StillCovered(steps, x, i);
    } else if Aborted(p, s, steps, i) || Aborts(p, now, x) {
      StillAborted(p, s, steps, x, i);
    } else {
      var u :| 0 <= u < |now.pcs| && Carries(now.pcs[u], change);
      ChangesGrow(steps, i, |steps|);
      assert steps[..|steps|] == steps;
      CarriedStep(p, now, x, u, change);
      if x == Finish(u, Success) {
        FinishCovers(now, steps, u, i);
      }
    }
  }

  lemma FinishCovers(now: State, steps: seq<Step>, u: nat, i: nat)
    requires LoadedSince(now, steps) && u < |now.pcs| && now.pcs[u].Loaded? && i < |steps|
    requires now.pcs[u].version > Changes(steps[..i])
    ensures Covered(steps + [Finish(u, Success)], i)
  {
    assert LoadedAt(steps, u, now.pcs[u].version);
    var b := Latest(steps, u).value;
    if b <= i {
      ChangesGrow(steps, b, i);
    }
    NewlySucceeds(steps, u);
  }

  /** Every report of a change is on its way until its thread has been told of it. */
  ghost predicate Reported(s: State, steps: seq<Step>) {
    forall t: nat :: s.unseen[t] == ChangesSeen(steps, t) - ChangesTold(steps, t)
  }

  lemma ReportedStep(p: Program, s: State, steps: seq<Step>, x: Step)
    requires Reported(s, steps) && Enabled(s, x)
    ensures Reported(Next(p, s, x), steps + [x])
  {
    assert (steps + [x])[..|steps|] == steps;
  }

  /** What becomes of a change: its thread has not got to it, or is asking for an update, or has been
      turned away, or the change is handled. */
  ghost predicate Traced(p: Program, s: State, steps: seq<Step>, i: nat)
    requires CanRun(p, s, steps) && i < |steps| && steps[i].Change?
  {
    || OnItsWay(Run(p, s, steps), steps, steps[i].t, ChangesSeen(steps[..i + 1], steps[i].t))
    || Refused(p, s, steps, i)
    || Handled(p, s, steps, i)
  }

  /** The thread has not been told of its `own`-th change, or was told of it last and is still asking. */
  predicate OnItsWay(now: State, steps: seq<Step>, t: nat, own: nat) {
    || ChangesTold(steps, t) < own
    || (ChangesTold(steps, t) == own && t < |now.pcs| && (now.pcs[t].Notifying? || now.pcs[t].Asking?))
  }

  lemma OnItsWayStep(p: Program, now: State, steps: seq<Step>, x: Step, t: nat, own: nat)
    requires Enabled(now, x) && OnItsWay(now, steps, t, own)
    ensures OnItsWay(Next(p, now, x), steps + [x], t, own) || (x == Ask(t) && ChangesTold(steps, t) == own)
  {
    assert (steps + [x])[..|steps|] == steps;
  }

  lemma TracedStep(p: Program, s: State, steps: seq<Step>, x: Step, i: nat)
    requires CanRun(p, s, steps) && Enabled(Run(p, s, steps), x) && Counted(Run(p, s, steps), steps)
    requires i < |steps| && steps[i].Change? && Traced(p, s, steps, i)
    ensures CanRun(p, s, steps + [x]) && Traced(p, s, steps + [x], i)
  {
    var t, own := steps[i].t, ChangesSeen(steps[..i + 1], steps[i].t);
    Append(p, s, steps, x);
    assert (steps + [x])[..i + 1] == steps[..i + 1];
    if Handled(p, s, steps, i) {
      HandledStep(p, s, steps, x, i);
    } else if Refused(p, s, steps, i) {
      StillRefused(p, s, steps, x, i);
    } else {
      OnItsWayStep(p, Run(p, s, steps), steps, x, t, own);
      if x == Ask(t) && ChangesTold(steps, t) == own {
        AskTraced(p, s, steps, i);
      }
    }
  }

  lemma AskTraced(p: Program, s: State, steps: seq<Step>, i: nat)
    requires CanRun(p, s, steps) && i < |steps| && steps[i].Change? && Enabled(Run(p, s, steps), Ask(steps[i].t))
    requires ChangesTold(steps, steps[i].t) == ChangesSeen(steps[..i + 1], steps[i].t)
    ensures CanRun(p, s, steps + [Ask(steps[i].t)]) && Traced(p, s, steps + [Ask(steps[i].t)], i)
  {
    var now, t := Run(p, s, steps), steps[i].t;
    var all := steps + [Ask(t)];
    Append(p, s, steps, Ask(t));
    assert all[..i + 1] == steps[..i + 1] && all[..|steps|] == steps;
    if now.flag {
      AtAppend(p, s, steps, Ask(t), |steps|);
      assert Requests(all, |steps|, i) && At(p, s, all, |steps|).flag;
    } else {
      assert Carries(Run(p, s, all).pcs[t], Changes(all[..i]));
    }
  }

  /** Once somebody reads the world after a change, the change is handled. */
  ghost predicate ReadIsHandled(p: Program, s: State, steps: seq<Step>, i: nat)
    requires CanRun(p, s, steps) && i < |steps|
  {
    (exists b :: i < b < |steps| && steps[b].Begin?) ==> Handled(p, s, steps, i)
  }

  lemma ReadIsHandledStep(p: Program, s: State, steps: seq<Step>, x: Step, i: nat)
    requires CanRun(p, s, steps) && Enabled(Run(p, s, steps), x) && Counted(Run(p, s, steps), steps)
    requires i < |steps| && steps[i].Change? && ReadIsHandled(p, s, steps, i)
    ensures CanRun(p, s, steps + [x]) && ReadIsHandled(p, s, steps + [x], i)
  {
    var now, all := Run(p, s, steps), steps + [x];
    Append(p, s, steps, x);
    if x.Begin? {
      assert Carries(now.pcs[x.t], Changes(steps[..i]));
    }
    if Handled(p, s, steps, i) {
      HandledStep(p, s, steps, x, i);
    } else {
      forall b | i < b < |all| ensures !all[b].Begin? {
        assert b < |steps| ==> all[b] == steps[b];
      }
    }
  }

  // ----- the exact condition -----------------------------------------------------------------------------

  lemma {:induction false} RunCounted(p: Program, n: nat, steps: seq<Step>)
    requires CanRun(p, Start(n), steps)
    ensures Inv(Run(p, Start(n), steps)) && Counted(Run(p, Start(n), steps), steps)
    ensures Reported(Run(p, Start(n), steps), steps)
    decreases |steps|
  {
    if steps != [] {
      var front, x := steps[..|steps| - 1], steps[|steps| - 1];
      assert steps == front + [x];
      RunCounted(p, n, front);
      StepInv(p, Run(p, Start(n), front), x);
      CountedStep(p, Run(p, Start(n), front), front, x);
      ReportedStep(p, Run(p, Start(n), front), front, x);
    }
  }

  lemma NewChange(p: Program, n: nat, front: seq<Step>, t: nat)
    requires CanRun(p, Start(n), front) && Enabled(Run(p, Start(n), front), Change(t))
    ensures var steps := front + [Change(t)];
      && CanRun(p, Start(n), steps) && Installs(Run(p, Start(n), steps), steps, |front|)
      && Traced(p, Start(n), steps, |front|) && ReadIsHandled(p, Start(n), steps, |front|)
  {
    var steps := front + [Change(t)];
    Append(p, Start(n), front, Change(t));
    RunCounted(p, n, front);
    assert steps[..|front|] == front && steps[..|front| + 1] == steps;
  }

  lemma {:induction false} RunTraces(p: Program, n: nat, steps: seq<Step>, i: nat)
    requires CanRun(p, Start(n), steps) && i < |steps| && steps[i].Change?
    ensures Installs(Run(p, Start(n), steps), steps, i)
    ensures Traced(p, Start(n), steps, i) && ReadIsHandled(p, Start(n), steps, i)
    decreases |steps|
  {
    var front, x := steps[..|steps| - 1], steps[|steps| - 1];
    assert steps == front + [x];
    if i == |front| {
      NewChange(p, n, front, x.t);
    } else {
      RunTraces(p, n, front, i);
      RunCounted(p, n, front);
      InstallsStep(p, Run(p, Start(n), front), front, x, i);
      TracedStep(p, Start(n), front, x, i);
      ReadIsHandledStep(p, Start(n), front, x, i);
    }
  }

  ghost predicate Quiet(s: State) {
    s.unseen == multiset{} && forall t :: 0 <= t < |s.pcs| ==> s.pcs[t].Idle?
  }

  /** The policy in force is not the one of the latest change. */
  predicate Stale(s: State) {
    s.installed != s.version
  }

  lemma {:induction false} LastChange(steps: seq<Step>) returns (i: nat)
    requires Changes(steps) > 0
    ensures i < |steps| && steps[i].Change? && Changes(steps[..i]) == Changes(steps) - 1
  {
    var n := |steps| - 1;
    if steps[n].Change? {
      i := n;
    } else {
      i := LastChange(steps[..n]);
      assert steps[..n][..i] == steps[..i];
    }
  }

  /** In any reachable state the policy is out of date exactly if some change is not covered. */
  lemma StaleExactly(p: Program, n: nat, steps: seq<Step>)
    requires CanRun(p, Start(n), steps)
    ensures Stale(Run(p, Start(n), steps)) <==> exists i :: 0 <= i < |steps| && steps[i].Change? && !Covered(steps, i)
  {
    RunCounted(p, n, steps);
    if Stale(Run(p, Start(n), steps)) {
      var i := LastChange(steps);
      RunTraces(p, n, steps, i);
    }
    if i: nat :| i < |steps| && steps[i].Change? && !Covered(steps, i) {
      RunTraces(p, n, steps, i);
      ChangesGrow(steps, i, |steps|);
      assert steps[..|steps|] == steps;
    }
  }

  /** At rest, a change that is not covered was turned away or cut short. */
  lemma UncoveredIsMissed(p: Program, n: nat, steps: seq<Step>, i: nat)
    requires CanRun(p, Start(n), steps) && Quiet(Run(p, Start(n), steps))
    requires i < |steps| && steps[i].Change? && !Covered(steps, i)
    ensures Misses(p, Start(n), steps)
  {
    RunCounted(p, n, steps);
    RunTraces(p, n, steps, i);
    SeenGrow(steps, i + 1, |steps|, steps[i].t);
    assert steps[..|steps|] == steps;
    if Aborted(p, Start(n), steps, i) {
      var k: nat :| i < k < |steps| && Aborts(p, At(p, Start(n), steps, k), steps[k]);
      assert CutShort(p, Start(n), steps, i, k);
    } else {
      assert Refused(p, Start(n), steps, i);
      var k: nat :| Requests(steps, k, i) && At(p, Start(n), steps, k).flag;
      assert TurnedAway(p, Start(n), steps, i, k);
    }
  }

  lemma {:induction false} SeenGrow(steps: seq<Step>, j: nat, k: nat, t: nat)
    requires j <= k <= |steps|
    ensures ChangesSeen(steps[..j], t) <= ChangesSeen(steps[..k], t)
  {
    if j < k {
      SeenGrow(steps, j, k - 1, t);
      assert steps[..k][..k - 1] == steps[..k - 1];
    }
  }

  /** When everything has come to rest, the policy in force is out of date if and only if the run misses
      a change: its request was turned away and nobody read the world after it, or an update after it
      was cut short and no later reading led to success. */
  lemma MissedExactly(p: Program, n: nat, steps: seq<Step>)
    requires CanRun(p, Start(n), steps) && Quiet(Run(p, Start(n), steps))
    ensures Stale(Run(p, Start(n), steps)) <==> Misses(p, Start(n), steps)
  {
    StaleExactly(p, n, steps);
    if i: nat :| i < |steps| && steps[i].Change? && !Covered(steps, i) {
      UncoveredIsMissed(p, n, steps, i);
    }
    if i: nat, k: nat :| TurnedAway(p, Start(n), steps, i, k) || CutShort(p, Start(n), steps, i, k) {
      assert !Covered(steps, i);
    }
  }

  ghost predicate StaleAtRest(s: State) {
    Quiet(s) && Stale(s)
  }

  /** A change can be missed for good: the second thread is turned away while the first one, done with
      its attempt, has not cleared the flag. */
  lemma AChangeCanBeMissed(p: Program)
    ensures exists steps :: CanRun(p, Start(2), steps) && StaleAtRest(Run(p, Start(2), steps))
  {
    var first := WindowIsReached(p);
    var steps := WindowLosesAChange(p, first);
  }

  /** The first thread's update has succeeded, but it has not cleared the flag yet. */
  const WINDOW := State([Releasing, Idle], true, None, false, 1, 1, multiset{})

  lemma Extend(p: Program, s: State, steps: seq<Step>, now: State, x: Step) returns (longer: seq<Step>)
    requires CanRun(p, s, steps) && Run(p, s, steps) == now && Enabled(now, x)
    ensures CanRun(p, s, longer) && Run(p, s, longer) == Next(p, now, x)
  {
    Append(p, s, steps, x);
    longer := steps + [x];
  }

  lemma WindowIsReached(p: Program) returns (steps: seq<Step>)
    ensures CanRun(p, Start(2), steps) && Run(p, Start(2), steps) == WINDOW
  {
    var s4 := State([Starting, Idle], true, Some(0), false, 1, 0, multiset{});
    var s5 := s4.(pcs := [Loaded(1), Idle]);
    steps := FirstIsStarting(p);
    steps := Extend(p, Start(2), steps, s4, Begin(0));
    assert Next(p, s4, Begin(0)) == s5;
    steps := Extend(p, Start(2), steps, s5, Finish(0, Success));
    assert Next(p, s5, Finish(0, Success)) == WINDOW;
  }

  lemma FirstIsStarting(p: Program) returns (steps: seq<Step>)
    ensures CanRun(p, Start(2), steps)
    ensures Run(p, Start(2), steps) == State([Starting, Idle], true, Some(0), false, 1, 0, multiset{})
  {
    var s2 := State([Asking, Idle], false, None, false, 1, 0, multiset{});
    var s3 := s2.(pcs := [Locking, Idle], flag := true);
    steps := FirstAsks(p);
    steps := Extend(p, Start(2), steps, s2, Ask(0));
    assert Next(p, s2, Ask(0)) == s3;
    steps := Extend(p, Start(2), steps, s3, Lock(0));
  }

  lemma FirstAsks(p: Program) returns (steps: seq<Step>)
    ensures CanRun(p, Start(2), steps)
    ensures Run(p, Start(2), steps) == State([Asking, Idle], false, None, false, 1, 0, multiset{})
  {
    var s0 := State([Idle, Idle], false, None, false, 0, 0, multiset{});
    assert Start(2).pcs == s0.pcs;
    var s1 := s0.(version := 1, unseen := multiset{0});
    steps := Extend(p, Start(2), [], s0, Change(0));
    assert Next(p, s0, Change(0)) == s1;
    steps := Extend(p, Start(2), steps, s1, Told(0, false));
    assert Next(p, s1, Told(0, false)).unseen == multiset{};
  }

  lemma WindowLosesAChange(p: Program, first: seq<Step>) returns (steps: seq<Step>)
    requires CanRun(p, Start(2), first) && Run(p, Start(2), first) == WINDOW
    ensures CanRun(p, Start(2), steps) && Quiet(Run(p, Start(2), steps)) && Stale(Run(p, Start(2), steps))
  {
    var s1 := WINDOW.(version := 2, unseen := multiset{1});
    var s2 := s1.(pcs := [Releasing, Asking], unseen := multiset{});
    var s3 := s2.(pcs := [Releasing, Idle]);
    steps := Extend(p, Start(2), first, WINDOW, Change(1));
    assert Next(p, WINDOW, Change(1)) == s1;
    steps := Extend(p, Start(2), steps, s1, Told(1, false));
    assert Next(p, s1, Told(1, false)) == s2;
    steps := Extend(p, Start(2), steps, s2, Ask(1));
    assert Next(p, s2, Ask(1)) == s3;
    steps := Extend(p, Start(2), steps, s3, Release(0));
  }
}

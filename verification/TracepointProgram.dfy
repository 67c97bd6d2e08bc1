/** The tracepoint program's reload in its own form: the container list, the namespace set and the
    shared map, rewritten in place. It is proved to do one step of module TracepointPolicy. */
module TracepointProgram {
  import opened Seqs
  import opened SyscallRows
  import opened Containers
  import TP = TracepointPolicy

  datatype LoadedPolicy = Unreadable | Parsed(containers: seq<YamlContainer<seq<string>>>)

  /** A detected container; `nsId` holds whatever was in memory until it is set. */
  datatype Container = Container(id: string, pid: int, syscalls: seq<string>, nsId: nat)

  type NamespaceOf = int -> nat

  /** The first entry with the id of entry `i`. A container that matches several patterns is detected
      once for each, under the same id. */
  ghost predicate IsFirst(found: seq<ContainerInfo<seq<string>>>, i: nat)
    requires i < |found|
  {
    forall j :: 0 <= j < i ==> found[j].id != found[i].id
  }

  /** updateContainerNsId sets the first entry with the id, so the other entries keep the memory they
      were built with. */
  ghost function EffectiveNs(found: seq<ContainerInfo<seq<string>>>, nsOf: NamespaceOf, memory: nat -> nat, i: nat): nat
    requires i < |found|
  {
    if IsFirst(found, i) then nsOf(found[i].pid) else memory(i)
  }

  ghost function Targets(found: seq<ContainerInfo<seq<string>>>, ids: SyscallIds, nsOf: NamespaceOf,
          memory: nat -> nat): seq<TP.Target> {
    seq(|found|, i requires 0 <= i < |found| =>
      TP.Target(EffectiveNs(found, nsOf, memory, i), Wanted(ids, found[i].policy)))
  }

  /** Every container gets its own namespace, whatever was in memory, exactly when no id occurs twice. */
  lemma NamespacesAreRight(found: seq<ContainerInfo<seq<string>>>, nsOf: NamespaceOf)
    ensures (forall memory: nat -> nat, i :: 0 <= i < |found| ==>
               EffectiveNs(found, nsOf, memory, i) == nsOf(found[i].pid))
            <==> (forall i, j :: 0 <= i < j < |found| ==> found[i].id != found[j].id)
  {
    if i, j :| 0 <= i < j < |found| && found[i].id == found[j].id {
      var memory: nat -> nat := _ => nsOf(found[j].pid) + 1;
      assert EffectiveNs(found, nsOf, memory, j) != nsOf(found[j].pid);
    }
  }

  ghost function ReloadOf(file: LoadedPolicy, docker: Option<seq<DockerContainer>>, regex: Regex, inspect: Inspect,
                          ids: SyscallIds, nsOf: NamespaceOf, memory: nat -> nat, failing: set<nat>): TP.Reload
  {
    match file
    case Unreadable => TP.Threw
    case Parsed(yaml) =>
      if yaml == [] then TP.EmptyPolicy(failing)
      else
        var found := if docker.Some? then Detected(yaml, docker.value, regex, inspect) else [];
        if found == [] then TP.NoContainer
        else TP.Success(Targets(found, ids, nsOf, memory), failing)
  }

  class TracepointProgram {
    var rows: map<nat, seq<int>>
    var current: set<nat>
    var containers: seq<Container>

    ghost function View(): TP.State
      reads this
    {
      TP.State(rows, current)
    }

    constructor ()
      ensures View() == TP.START
    {
      rows, current, containers := map[], {}, [];
    }

    method UpdateElem(ns: nat, row: seq<int>, failing: set<nat>) returns (ok: bool)
      modifies this`rows
      ensures rows == TP.Write(old(rows), failing, ns, row) && ok == (ns !in failing)
    {
      ok := ns !in failing;
      if ok {
        rows := rows[ns := row];
      }
    }

    method ClearEntries(gone: set<nat>, failing: set<nat>) returns (ok: bool)
      modifies this`rows
      ensures rows == TP.ClearRows(old(rows), failing, gone) && ok == (gone !! failing)
    {
      var before := rows;
      var remaining := gone;
      ok := true;
      assert rows == TP.ClearRows(before, failing, gone - remaining);
      while remaining != {}
        invariant remaining <= gone
        invariant rows == TP.ClearRows(before, failing, gone - remaining)
        invariant ok == ((gone - remaining) !! failing)
        decreases |remaining|
      {
        var ns :| ns in remaining;
        remaining := remaining - {ns};
        var row := FillRow([]);
        var written := UpdateElem(ns, row, failing);
        if !written {
          ok := false;
        }
      }
      assert gone - remaining == gone;
    }

    method ClearAllPolicies(failing: set<nat>) returns (code: int)
      modifies this
      ensures View() == TP.Next(old(View()), TP.EmptyPolicy(failing)) && containers == []
      ensures code == if old(current) !! failing then 0 else -1
    {
      var ok := ClearEntries(current, failing);
      code := if ok then 0 else -1;
      current := {};
      containers := [];
    }

    method UpdateContainerNsId(id: string, ns: nat)
      modifies this`containers
      ensures |containers| == |old(containers)|
      ensures forall j :: 0 <= j < |containers| ==>
                containers[j] == if old(containers)[j].id == id
                                    && (forall k :: 0 <= k < j ==> old(containers)[k].id != id)
                                 then old(containers)[j].(nsId := ns) else old(containers)[j]
    {
      for j := 0 to |containers|
        invariant forall k :: 0 <= k < j ==> containers[k].id != id
      {
        if containers[j].id == id {
          containers := containers[j := containers[j].(nsId := ns)];
          return;
        }
      }
    }

    /** The container list while the loop runs: as detected, and only first entries ever get their
        namespace set. */
    ghost predicate Listed(found: seq<ContainerInfo<seq<string>>>, memory: nat -> nat)
      reads this`containers
    {
      && |containers| == |found|
      && (forall j :: 0 <= j < |found| ==>
            containers[j].id == found[j].id && containers[j].pid == found[j].pid
            && containers[j].syscalls == found[j].policy)
      && (forall j :: 0 <= j < |found| && !IsFirst(found, j) ==> containers[j].nsId == memory(j))
    }

    method SetNamespace(ghost found: seq<ContainerInfo<seq<string>>>, nsOf: NamespaceOf, ghost memory: nat -> nat,
            i: nat)
      requires Listed(found, memory) && i < |found|
      modifies this`containers
      ensures Listed(found, memory) && containers[i].nsId == EffectiveNs(found, nsOf, memory, i)
    {
      var c := containers[i];
      UpdateContainerNsId(c.id, nsOf(c.pid));
    }

    /** The loop over the detected containers: set the namespace, build the row, write it. */
    method WriteRows(ids: SyscallIds, ghost found: seq<ContainerInfo<seq<string>>>, nsOf: NamespaceOf,
            ghost memory: nat -> nat, failing: set<nat>)
      returns (present: set<nat>)
      requires Numbers(ids) && Listed(found, memory)
      modifies this`rows, this`containers
      ensures rows == TP.WriteTargets(old(rows), failing, Targets(found, ids, nsOf, memory))
      ensures present == TP.Namespaces(Targets(found, ids, nsOf, memory))
    {
      ghost var targets := Targets(found, ids, nsOf, memory);
      ghost var before := rows;
      present := {};
      var n := |containers|;
      for i := 0 to n
        invariant Listed(found, memory) && n == |found| == |targets|
        invariant rows == TP.WriteTargets(before, failing, targets[..i])
        invariant present == TP.Namespaces(targets[..i])
      {
        var list := SyscallList(ids, containers[i].syscalls);
        SetNamespace(found, nsOf, memory, i);
        var ns := containers[i].nsId;
        present := present + {ns};
        var row := FillRow(list);
        var ok := UpdateElem(ns, row, failing);
        NextTarget(targets, i);
      }
      assert targets[..n] == targets;
    }

    /** update_policy_with_file: None when loading the YAML throws. */
    method UpdatePolicyWithFile(file: LoadedPolicy, docker: Option<seq<DockerContainer>>, regex: Regex,
            inspect: Inspect, ids: SyscallIds, nsOf: NamespaceOf, memory: nat -> nat,
            failing: set<nat>)
      returns (code: Option<int>)
      requires Numbers(ids)
      modifies this
      ensures TP.ValidReload(ReloadOf(file, docker, regex, inspect, ids, nsOf, memory, failing))
      ensures View() == TP.Next(old(View()), ReloadOf(file, docker, regex, inspect, ids, nsOf, memory, failing))
      ensures code == match ReloadOf(file, docker, regex, inspect, ids, nsOf, memory, failing)
                      case Threw => None
                      case EmptyPolicy(_) => Some(if old(current) !! failing then 0 else -1)
                      case NoContainer => Some(-1)
                      case Success(_, _) => Some(0)
      ensures file.Unreadable? ==> View() == old(View()) && containers == old(containers) && code == None
      ensures file.Parsed? && file.containers == [] ==>
                && current == {} && containers == [] && rows == TP.ClearRows(old(rows), failing, old(current))
                && code == Some(if old(current) !! failing then 0 else -1)
      ensures file.Parsed? && file.containers != []
              && (docker.None? || Detected(file.containers, docker.value, regex, inspect) == []) ==>
                View() == old(View()) && code == Some(-1)
      ensures file.Parsed? && file.containers != [] && docker.Some?
              && Detected(file.containers, docker.value, regex, inspect) != [] ==>
                code == Some(0)
    {
      if file.Unreadable? {
        return None;
      }
      if file.containers == [] {
        var cleared := ClearAllPolicies(failing);
        return Some(cleared);
      }
      var found := GetContainerPIDs(file.containers, docker, regex, inspect);
      containers := seq(|found|, i requires 0 <= i < |found| =>
        Container(found[i].id, found[i].pid, found[i].policy, memory(i)));
      if |containers| == 0 {
        return Some(-1);
      }
      Reconcile(ids, found, nsOf, memory, failing);
      code := Some(0);
    }

    /** With containers detected: write their rows, clear those of the namespaces that have left, and
        remember the new set. */
    method Reconcile(ids: SyscallIds, ghost found: seq<ContainerInfo<seq<string>>>, nsOf: NamespaceOf,
            ghost memory: nat -> nat, failing: set<nat>)
      requires Numbers(ids) && Listed(found, memory)
      modifies this
      ensures TP.ValidReload(TP.Success(Targets(found, ids, nsOf, memory), failing))
      ensures View() == TP.Next(old(View()), TP.Success(Targets(found, ids, nsOf, memory), failing))
    {
      TargetsAreValid(found, ids, nsOf, memory, failing);
      var present := WriteRows(ids, found, nsOf, memory, failing);
      var ok := ClearEntries(current - present, failing);
      current := present;
    }
  }

  lemma TargetsAreValid(found: seq<ContainerInfo<seq<string>>>, ids: SyscallIds, nsOf: NamespaceOf,
          memory: nat -> nat, failing: set<nat>)
    requires Numbers(ids)
    ensures TP.ValidReload(TP.Success(Targets(found, ids, nsOf, memory), failing))
  {
    forall i | 0 <= i < |found| ensures -1 !in Wanted(ids, found[i].policy) {
      WantedIsNonNegative(ids, found[i].policy);
    }
  }

  lemma NextTarget(targets: seq<TP.Target>, i: nat)
    requires i < |targets|
    ensures targets[..i + 1][..i] == targets[..i]
    ensures TP.Namespaces(targets[..i + 1]) == TP.Namespaces(targets[..i]) + {targets[i].ns}
  {
    forall k | 0 <= k < i ensures targets[..i][k] == targets[..i + 1][k] {}
    assert targets[..i + 1][i] == targets[i];
  }

  // ----- from the program's inputs to the kernel's answer -------------------------------------------------

  /** What one reload finds: the policy file, Docker's answers, the namespaces, the memory its container
      list is built in, and the namespaces whose map writes fail. */
  datatype Input = Input(file: LoadedPolicy, docker: Option<seq<DockerContainer>>, regex: Regex, inspect: Inspect,
                         nsOf: NamespaceOf, memory: nat -> nat, failing: set<nat>)

  ghost function ReloadFor(x: Input, ids: SyscallIds): TP.Reload {
    ReloadOf(x.file, x.docker, x.regex, x.inspect, ids, x.nsOf, x.memory, x.failing)
  }

  ghost function History(inputs: seq<Input>, ids: SyscallIds): (r: seq<TP.Reload>)
    ensures |r| == |inputs| && forall i :: 0 <= i < |r| ==> r[i] == ReloadFor(inputs[i], ids)
  {
    seq(|inputs|, i requires 0 <= i < |inputs| => ReloadFor(inputs[i], ids))
  }

  lemma HistoryIsValid(inputs: seq<Input>, ids: SyscallIds)
    requires Numbers(ids)
    ensures TP.Valid(History(inputs, ids))
  {
    forall i | 0 <= i < |inputs| ensures TP.ValidReload(ReloadFor(inputs[i], ids)) {
      var x := inputs[i];
      if x.file.Parsed? && x.docker.Some? {
        var found := Detected(x.file.containers, x.docker.value, x.regex, x.inspect);
        TargetsAreValid(found, ids, x.nsOf, x.memory, x.failing);
      }
    }
  }

  /** What the reload detects, when it gets that far. */
  function FoundBy(x: Input): seq<ContainerInfo<seq<string>>> {
    if x.file.Parsed? && x.file.containers != [] && x.docker.Some?
    then Detected(x.file.containers, x.docker.value, x.regex, x.inspect) else []
  }

  /** Container `i` is the last one in the namespace. */
  predicate IsLastIn(x: Input, ns: nat, i: nat)
  {
    var found := FoundBy(x);
    i < |found| && x.nsOf(found[i].pid) == ns && forall j :: i < j < |found| ==> x.nsOf(found[j].pid) != ns
  }

  ghost predicate DistinctIds(x: Input) {
    forall i, j :: 0 <= i < j < |FoundBy(x)| ==> FoundBy(x)[i].id != FoundBy(x)[j].id
  }

  lemma {:induction false} LastWantedIs(targets: seq<TP.Target>, ns: nat, i: nat)
    requires i < |targets| && targets[i].ns == ns && forall j :: i < j < |targets| ==> targets[j].ns != ns
    ensures TP.LastWanted(targets, ns) == Some(targets[i].wanted)
    decreases |targets|
  {
    if i < |targets| - 1 {
      LastWantedIs(targets[..|targets| - 1], ns, i);
    }
  }

  lemma {:induction false} LastWantedIsNone(targets: seq<TP.Target>, ns: nat)
    requires forall j :: 0 <= j < |targets| ==> targets[j].ns != ns
    ensures TP.LastWanted(targets, ns).None?
  {
    if targets != [] {
      LastWantedIsNone(targets[..|targets| - 1], ns);
    }
  }

  lemma TargetOf(x: Input, ids: SyscallIds, i: nat)
    requires DistinctIds(x) && i < |FoundBy(x)|
    ensures Targets(FoundBy(x), ids, x.nsOf, x.memory)[i]
            == TP.Target(x.nsOf(FoundBy(x)[i].pid), Wanted(ids, FoundBy(x)[i].policy))
  {
  }

  /** From the program's inputs to the kernel: after any history that ends in a reload which detects
      containers with distinct ids, the kernel logs a syscall in a namespace exactly if the last container
      of the namespace names it, known and with fewer than 120 known names before it. For a namespace with
      a container it is enough that the last write succeeded, for any other that it was cleared when it was
      left. */
  lemma KernelLogsWhatIsListed(inputs: seq<Input>, x: Input, ids: SyscallIds, ns: nat, id: int)
    requires Numbers(ids) && id >= 0 && x.file.Parsed? && x.file.containers != [] && x.docker.Some?
    requires Detected(x.file.containers, x.docker.value, x.regex, x.inspect) != [] && DistinctIds(x)
    requires TP.UpToDate(History(inputs + [x], ids), ns)
    ensures TP.Valid(History(inputs + [x], ids))
    ensures var found := Detected(x.file.containers, x.docker.value, x.regex, x.inspect);
            TP.Logged(History(inputs + [x], ids), ns, id) <==>
            exists i :: 0 <= i < |found| && x.nsOf(found[i].pid) == ns
                        && (forall j :: i < j < |found| ==> x.nsOf(found[j].pid) != ns)
                        && Asks(ids, found[i].policy, id)
  {
    var history, targets := History(inputs + [x], ids), Targets(FoundBy(x), ids, x.nsOf, x.memory);
    HistoryIsValid(inputs + [x], ids);
    TP.KernelAgreesWithPolicy(history, ns, id);
    assert history[|inputs|] == TP.Success(targets, x.failing);
    assert TP.InForce(history, ns) == TP.LastWanted(targets, ns);
    ListedByLast(x, ids, ns, id);
  }

  lemma ListedByLast(x: Input, ids: SyscallIds, ns: nat, id: int)
    requires DistinctIds(x)
    ensures TP.Listed(TP.LastWanted(Targets(FoundBy(x), ids, x.nsOf, x.memory), ns), id) <==>
            exists i :: 0 <= i < |FoundBy(x)| && IsLastIn(x, ns, i) && Asks(ids, FoundBy(x)[i].policy, id)
  {
    var found, targets := FoundBy(x), Targets(FoundBy(x), ids, x.nsOf, x.memory);
    forall i | 0 <= i < |found| ensures targets[i].ns == x.nsOf(found[i].pid) {
      TargetOf(x, ids, i);
    }
    if exists i :: 0 <= i < |found| && x.nsOf(found[i].pid) == ns {
      var i := LastIn(x, ns, |found|);
      LastWantedIs(targets, ns, i);
      TargetOf(x, ids, i);
      WantedAre(ids, found[i].policy, id);
      forall k | 0 <= k < |found| && IsLastIn(x, ns, k) ensures k == i {}
    } else {
      LastWantedIsNone(targets, ns);
    }
  }

  lemma {:induction false} LastIn(x: Input, ns: nat, n: nat) returns (i: nat)
    requires n <= |FoundBy(x)| && exists k :: 0 <= k < n && x.nsOf(FoundBy(x)[k].pid) == ns
    requires forall j :: n <= j < |FoundBy(x)| ==> x.nsOf(FoundBy(x)[j].pid) != ns
    ensures IsLastIn(x, ns, i)
  {
    if x.nsOf(FoundBy(x)[n - 1].pid) == ns {
      i := n - 1;
    } else {
      i := LastIn(x, ns, n - 1);
    }
  }

  /** A namespace in which the last reload finds a container is up to date if its own write succeeded. */
  lemma NamedIsUpToDate(inputs: seq<Input>, x: Input, ids: SyscallIds, ns: nat, i: nat)
    requires FoundBy(x) != [] && DistinctIds(x) && i < |FoundBy(x)|
    requires x.nsOf(FoundBy(x)[i].pid) == ns && ns !in x.failing
    ensures TP.UpToDate(History(inputs + [x], ids), ns)
  {
    var history, targets := History(inputs + [x], ids), Targets(FoundBy(x), ids, x.nsOf, x.memory);
    assert history[|inputs|] == TP.Success(targets, x.failing);
    TargetOf(x, ids, i);
    assert targets[i].ns in TP.Namespaces(targets);
    TP.LastWantedIsTarget(targets, ns);
  }
}

/** Reloading the LSM policy: clearing the BPF map, detecting the containers, and writing one
    compiled table for each. */
module LsmReload {
  import opened Seqs
  import opened Flags
  import opened CStrings
  import opened PolicyTable
  import opened Matcher
  import opened Containers
  import Hooks

  /** A BPF hash map: entries, and the order in which get_next_key walks them. */
  class BpfMap {
    var entries: PolicyMap
    var order: seq<PolicyKey>

    ghost predicate Valid()
      reads this
    {
      && (forall k :: k in order <==> k in entries)
      && (forall i, j :: 0 <= i < j < |order| ==> order[i] != order[j])
    }

    constructor ()
      ensures Valid() && entries == map[]
    {
      entries, order := map[], [];
    }

    /** bpf_map_get_next_key: the key after `key`, or the first one when `key` is null or unknown. */
    method GetNextKey(key: Option<PolicyKey>) returns (next: Option<PolicyKey>)
      requires Valid()
      ensures next.Some? ==> next.value in entries
      ensures forall i :: 0 <= i < |order| && key == Some(order[i]) ==>
                next == if i + 1 < |order| then Some(order[i + 1]) else None
      ensures (key.None? || key.value !in entries) && entries != map[] ==> next.Some?
    {
      if key.Some? {
        for i := 0 to |order|
          invariant forall j :: 0 <= j < i ==> order[j] != key.value
        {
          if order[i] == key.value {
            return if i + 1 < |order| then Some(order[i + 1]) else None;
          }
        }
      }
      if order == [] {
        assert forall k :: k in entries ==> k in order;
        assert entries == map[];
      }
      next := if order == [] then None else Some(order[0]);
    }

    method DeleteElem(key: PolicyKey) returns (ok: bool)
      requires Valid()
      modifies this
      ensures Valid() && ok == (key in old(entries)) && entries == old(entries) - {key}
    {
      ok := key in entries;
      if ok {
        var i :| 0 <= i < |order| && order[i] == key;
        order := order[..i] + order[i + 1..];
        entries := entries - {key};
      }
    }

    /** Inserts anywhere in the walk; the table bytes are copied. */
    method UpdateElem(key: PolicyKey, value: Table)
      requires Valid()
      modifies this
      ensures Valid() && entries == old(entries)[key := value]
    {
      if key !in entries {
        var p :| 0 <= p <= |order|;
        order := order[..p] + [key] + order[p..];
      }
      entries := entries[key := value];
    }

    /** clear_bpf_map asks for the key after one it has just deleted, so every turn starts at the
        first key again; the number of entries falls until there is none. */
    method Clear()
      requires Valid()
      modifies this
      ensures Valid() && entries == map[]
    {
      var next := GetNextKey(None);
      while next.Some?
        invariant Valid()
        invariant next.Some? ==> next.value in entries
        invariant next.None? ==> entries == map[]
        decreases |entries|, next.Some?
      {
        var key := next.value;
        assert |entries - {key}| < |entries| by {
          SmallerWithout(entries, key);
        }
        var ok := DeleteElem(key);
        if !ok {
          break;
        }
        next := GetNextKey(Some(key));
      }
    }
  }

  lemma SmallerWithout(m: PolicyMap, k: PolicyKey)
    requires k in m
    ensures |m - {k}| < |m|
  {
    assert (m - {k}).Keys == m.Keys - {k};
    assert |(m - {k}).Keys| < |m.Keys|;
  }

  datatype LoadedPolicy = Unreadable | Parsed(containers: seq<YamlContainer<LsmPolicies>>)

  /** Threw: the YAML could not be loaded, or an address in it could not be parsed. */
  datatype ReloadResult = Updated | NoPolicy | NoContainer | Threw

  type Namespaces = int -> PolicyKey

  /** A container that gets a table: it has a pid, and both namespace ids could be read. */
  predicate Eligible(c: ContainerInfo<LsmPolicies>, ns: Namespaces) {
    c.pid != 0 && ns(c.pid).pidNs != 0 && ns(c.pid).mntNs != 0
  }

  /** The policy of the last eligible container with that key. */
  function LastWriter(containers: seq<ContainerInfo<LsmPolicies>>, ns: Namespaces,
          key: PolicyKey): Option<LsmPolicies> {
    if containers == [] then None
    else
      var last := containers[|containers| - 1];
      if Eligible(last, ns) && ns(last.pid) == key then Some(last.policy)
      else LastWriter(containers[..|containers| - 1], ns, key)
  }

  /** Container `i` is the last one with a pid, readable namespace ids and that key. */
  predicate IsLastWriter(containers: seq<ContainerInfo<LsmPolicies>>, ns: Namespaces, key: PolicyKey, i: nat) {
    && i < |containers| && containers[i].pid != 0 && ns(containers[i].pid) == key && key.pidNs != 0 && key.mntNs != 0
    && forall j :: i < j < |containers| && containers[j].pid != 0 ==> ns(containers[j].pid) != key
  }

  lemma {:induction false} LastWriterIs(containers: seq<ContainerInfo<LsmPolicies>>, ns: Namespaces, key: PolicyKey)
    ensures forall i :: 0 <= i < |containers| && IsLastWriter(containers, ns, key, i) ==>
              LastWriter(containers, ns, key) == Some(containers[i].policy)
    ensures LastWriter(containers, ns, key).Some? <==>
            exists i :: 0 <= i < |containers| && IsLastWriter(containers, ns, key, i)
  {
    if containers != [] {
      var n := |containers| - 1;
      var front := containers[..n];
      LastWriterIs(front, ns, key);
      if Eligible(containers[n], ns) && ns(containers[n].pid) == key {
        assert IsLastWriter(containers, ns, key, n);
      } else {
        forall i: nat | i < n ensures IsLastWriter(front, ns, key, i) <==> IsLastWriter(containers, ns, key, i) {
          if IsLastWriter(front, ns, key, i) && containers[n].pid != 0 {
            assert ns(containers[n].pid) != key;
          }
        }
        assert !IsLastWriter(containers, ns, key, n);
      }
    }
  }

  /** The map holds a table for exactly the keys that have a writer, and it represents its policy. */
  ghost predicate Holds(m: PolicyMap, containers: seq<ContainerInfo<LsmPolicies>>, ns: Namespaces) {
    forall key ::
      match LastWriter(containers, ns, key)
      case None => key !in m
      case Some(p) => key in m && Represents(m[key], p)
  }

  ghost predicate AllFit(yaml: seq<YamlContainer<LsmPolicies>>) {
    forall i :: 0 <= i < |yaml| ==> Fits(yaml[i].policy)
  }

  lemma DetectedFit(yaml: seq<YamlContainer<LsmPolicies>>, docker: seq<DockerContainer>, regex: Regex,
          inspect: Inspect, i: nat)
    requires AllFit(yaml) && i < |Detected(yaml, docker, regex, inspect)|
    ensures Fits(Detected(yaml, docker, regex, inspect)[i].policy)
  {
    var origins := DetectedExactly(yaml, docker, regex, inspect);
    assert YieldsFrom(Detected(yaml, docker, regex, inspect)[i], yaml, docker, regex, inspect, origins[i]);
  }

  /** The first container whose compilation throws, or the end. */
  function Stop(containers: seq<ContainerInfo<LsmPolicies>>, ns: Namespaces): (n: nat)
    ensures n <= |containers|
    ensures forall i :: 0 <= i < n && Eligible(containers[i], ns) ==> Parses(containers[i].policy.network)
    ensures n < |containers| ==> Eligible(containers[n], ns) && !Parses(containers[n].policy.network)
  {
    if containers == [] || (Eligible(containers[0], ns) && !Parses(containers[0].policy.network)) then 0
    else 1 + Stop(containers[1..], ns)
  }

  /** Some container that would get a table has an address that throws. */
  predicate Throws(containers: seq<ContainerInfo<LsmPolicies>>, ns: Namespaces) {
    exists i :: 0 <= i < |containers| && Eligible(containers[i], ns) && !Parses(containers[i].policy.network)
  }

  /** That is: a container with a pid and readable namespace ids has a network rule whose address throws. */
  lemma ThrowsExactly(containers: seq<ContainerInfo<LsmPolicies>>, ns: Namespaces)
    ensures Throws(containers, ns) <==>
            exists i, k ::
              && 0 <= i < |containers| && containers[i].pid != 0
              && ns(containers[i].pid).pidNs != 0 && ns(containers[i].pid).mntNs != 0
              && 0 <= k < |containers[i].policy.network| && containers[i].policy.network[k].address.None?
  {
    if i :| 0 <= i < |containers| && Eligible(containers[i], ns) && !Parses(containers[i].policy.network) {
      var k :| 0 <= k < |containers[i].policy.network| && containers[i].policy.network[k].address.None?;
    }
  }

  lemma StopIs(containers: seq<ContainerInfo<LsmPolicies>>, ns: Namespaces, n: nat)
    requires n <= |containers|
    requires forall i :: 0 <= i < n && Eligible(containers[i], ns) ==> Parses(containers[i].policy.network)
    requires n < |containers| ==> Eligible(containers[n], ns) && !Parses(containers[n].policy.network)
    ensures Stop(containers, ns) == n && (Throws(containers, ns) <==> n < |containers|)
  {
    var stop := Stop(containers, ns);
    assert !(stop < n) && !(n < stop);
  }

  /** The container loop, up to a container that throws. `garbage` is what the record's memory holds at each turn. */
  method WriteTables(bpf: BpfMap, flagsMap: FlagsMap, containers: seq<ContainerInfo<LsmPolicies>>, ns: Namespaces,
          garbage: nat -> Table)
    returns (ok: bool)
    requires bpf.Valid() && bpf.entries == map[] && Consistent(flagsMap.entries)
    requires forall i :: 0 <= i < |containers| ==> Fits(containers[i].policy)
    requires forall i :: Shaped(garbage(i))
    modifies bpf, flagsMap
    ensures bpf.Valid() && Consistent(flagsMap.entries)
    ensures Holds(bpf.entries, containers[..Stop(containers, ns)], ns) && (ok <==> !Throws(containers, ns))
    ensures ok ==> Holds(bpf.entries, containers, ns)
  {
    for i := 0 to |containers|
      invariant bpf.Valid() && Consistent(flagsMap.entries)
      invariant Holds(bpf.entries, containers[..i], ns)
      invariant forall j :: 0 <= j < i && Eligible(containers[j], ns) ==> Parses(containers[j].policy.network)
    {
      var c := containers[i];
      assert containers[..i + 1][..i] == containers[..i];
      if c.pid == 0 {
        continue;
      }
      var key := ns(c.pid);
      if key.pidNs == 0 || key.mntNs == 0 {
        continue;
      }
      var table := CompileTable(flagsMap, c.policy, garbage(i));
      if table.None? {
        StopIs(containers, ns, i);
        return false;
      }
      bpf.UpdateElem(key, table.value);
    }
    StopIs(containers, ns, |containers|);
    assert containers[..|containers|] == containers;
    ok := true;
  }

  method CompileTable(flagsMap: FlagsMap, p: LsmPolicies, garbage: Table) returns (t: Option<Table>)
    requires Shaped(garbage) && Fits(p) && Consistent(flagsMap.entries)
    modifies flagsMap
    ensures Consistent(flagsMap.entries) && (t.Some? <==> Parses(p.network))
    ensures t.Some? ==> Represents(t.value, p)
  {
    var value := new PolicyValue(garbage);
    var ok := value.Compile(flagsMap, p);
    if !ok {
      return None;
    }
    return Some(
      Table(value.numFile, value.numNetwork, value.numProcess, value.file[..], value.network[..], value.process[..]));
  }

  /** An unreadable file and a file without containers leave the map untouched. Any other file empties it,
      and it then holds exactly what the last writers among the containers found put in, or, when an
      address throws, what those before the throwing container did. */
  method UpdatePolicyWithFile(bpf: BpfMap, flagsMap: FlagsMap, file: LoadedPolicy, docker: Option<seq<DockerContainer>>,
                              regex: Regex, inspect: Inspect, ns: Namespaces, garbage: nat -> Table)
    returns (r: ReloadResult)
    requires bpf.Valid() && Consistent(flagsMap.entries)
    requires file.Parsed? ==> AllFit(file.containers)
    requires forall i :: Shaped(garbage(i))
    modifies bpf, flagsMap
    ensures bpf.Valid() && Consistent(flagsMap.entries)
    ensures r.Threw? <==>
            file.Unreadable?
            || (file.containers != [] && docker.Some?
                && Throws(Detected(file.containers, docker.value, regex, inspect), ns))
    ensures r.NoPolicy? <==> file.Parsed? && file.containers == []
    ensures file.Unreadable? || r.NoPolicy? ==> bpf.entries == old(bpf.entries)
    ensures r.NoContainer? <==>
            file.Parsed? && file.containers != []
            && (docker.None? || Detected(file.containers, docker.value, regex, inspect) == [])
    ensures r.NoContainer? ==> bpf.entries == map[]
    ensures r.Updated? ==>
            docker.Some? && Holds(bpf.entries, Detected(file.containers, docker.value, regex, inspect), ns)
    ensures r.Threw? && file.Parsed? ==>
            var found := Detected(file.containers, docker.value, regex, inspect);
            Holds(bpf.entries, found[..Stop(found, ns)], ns)
  {
    if file.Unreadable? {
      return Threw;
    }
    if file.containers == [] {
      return NoPolicy;
    }
    bpf.Clear();
    var containers := GetContainerPIDs(file.containers, docker, regex, inspect);
    if |containers| == 0 {
      return NoContainer;
    }
    forall i | 0 <= i < |containers| ensures Fits(containers[i].policy) {
      DetectedFit(file.containers, docker.value, regex, inspect, i);
    }
    var ok := WriteTables(bpf, flagsMap, containers, ns, garbage);
    r := if ok then Updated else Threw;
  }

  lemma HeldTablesAreShaped(m: PolicyMap, containers: seq<ContainerInfo<LsmPolicies>>, ns: Namespaces)
    requires Holds(m, containers, ns)
    ensures WellShaped(m)
  {
    forall k | k in m ensures Shaped(m[k]) {
      assert LastWriter(containers, ns, k).Some?;
    }
  }

  /** From the YAML file to the verdict: after a successful reload, a file hook in a container gives
      the outcome its own rules prescribe, and every other task is unrestricted. */
  lemma ReloadedVerdicts(m: PolicyMap, containers: seq<ContainerInfo<LsmPolicies>>, ns: Namespaces,
                         key: PolicyKey, env: Hooks.Env, h: Hooks.FileHook, path: seq<char>)
    requires Holds(m, containers, ns)
    ensures WellShaped(m)
    ensures Hooks.FileOutcome(m, key, env, h, path) ==
            match LastWriter(containers, ns, key)
            case None => Hooks.Outcome(0, None)
            case Some(p) =>
              if p.file == [] || !env.reserved || !env.hasTask then Hooks.Outcome(0, None)
              else Hooks.Direct(p.file, h, CString(UpTo(path, MAX_PATH_LENGTH)))
  {
    HeldTablesAreShaped(m, containers, ns);
    match LastWriter(containers, ns, key)
    case None =>
    case Some(p) => Hooks.FileVerdictMeaning(m[key], p, h, path);
  }

  /** The same for the process and the network hooks. */
  lemma ReloadedProcessVerdicts(m: PolicyMap, containers: seq<ContainerInfo<LsmPolicies>>, ns: Namespaces,
                                key: PolicyKey, env: Hooks.Env, comm: seq<char>, newUid: nat)
    requires Holds(m, containers, ns)
    ensures WellShaped(m)
    ensures var p := LastWriter(containers, ns, key);
            Hooks.ExecOutcome(m, key, env, comm) ==
            if p.None? || p.value.process == [] || !env.reserved then Hooks.Outcome(0, None)
            else if !env.hasTask then Hooks.Outcome(-1, None)
            else Hooks.DeniedBy(Hooks.ProcessRule(p.value.process, comm), {ProcExec, FileExec})
    ensures var p := LastWriter(containers, ns, key);
            Hooks.SetuidOutcome(m, key, env, newUid) ==
            if p.None? || p.value.process == [] || !env.reserved || !env.hasTask || newUid != 0
            then Hooks.Outcome(0, None)
            else Hooks.DeniedBy(Hooks.ProcessRule(p.value.process, Hooks.SETUID), {ProcSetuid})
  {
    HeldTablesAreShaped(m, containers, ns);
    match LastWriter(containers, ns, key)
    case None =>
    case Some(p) =>
      Hooks.ProcessVerdictMeaning(m[key], p, comm, newUid);
      Hooks.ProcessVerdictMeaning(m[key], p, Hooks.SETUID, newUid);
  }

  lemma ReloadedNetworkVerdicts(m: PolicyMap, containers: seq<ContainerInfo<LsmPolicies>>, ns: Namespaces,
                                key: PolicyKey, env: Hooks.Env, net: Endpoint)
    requires Holds(m, containers, ns)
    ensures WellShaped(m)
    ensures var p := LastWriter(containers, ns, key);
            Hooks.ConnectOutcome(m, key, env, net) ==
            if p.None? || p.value.network == [] || !env.reserved || !env.hasTask then Hooks.Outcome(0, None)
            else Hooks.DeniedBy(Hooks.NetworkRule(p.value.network, net), {NetConnect, NetDst})
    ensures var p := LastWriter(containers, ns, key);
            Hooks.RecvmsgOutcome(m, key, env, net) ==
            if p.None? || p.value.network == [] || !env.reserved || !env.hasTask then Hooks.Outcome(0, None)
            else Hooks.DeniedBy(Hooks.NetworkRule(p.value.network, net), {NetConnect, NetSrc})
  {
    HeldTablesAreShaped(m, containers, ns);
    match LastWriter(containers, ns, key)
    case None =>
    case Some(p) => Hooks.NetworkVerdictMeaning(m[key], p, net);
  }
}

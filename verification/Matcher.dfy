/** The kernel side: should_monitor and match_policy over the compiled tables, and what they find in
    terms of the rules the tables were compiled from. */
module Matcher {
  import opened Seqs
  import opened Flags
  import opened CStrings
  import opened PolicyTable

  datatype PolicyKey = PolicyKey(pidNs: nat, mntNs: nat)

  type PolicyMap = map<PolicyKey, Table>

  ghost predicate WellShaped(m: PolicyMap) {
    forall k :: k in m ==> Shaped(m[k])
  }

  // ----- the slot that decides -----------------------------------------------------------------------

  /** `i` is the slot that decides: it is counted, it matches, and none before it does. */
  ghost predicate Decides<S>(slots: seq<S>, count: nat, matches: S -> bool, i: nat) {
    i < count && i < |slots| && matches(slots[i]) && forall j :: 0 <= j < i ==> !matches(slots[j])
  }

  ghost function Deciding<S>(slots: seq<S>, count: nat, matches: S -> bool): (r: Option<nat>)
    ensures r.Some? ==> Decides(slots, count, matches, r.value)
  {
    if i: nat :| Decides(slots, count, matches, i) then Some(i) else None
  }

  lemma DecidingIs<S>(slots: seq<S>, count: nat, matches: S -> bool, i: nat)
    requires Decides(slots, count, matches, i)
    ensures Deciding(slots, count, matches) == Some(i)
  {
    var r := Deciding(slots, count, matches);
    assert !(i < r.value) && !(r.value < i);
  }

  lemma {:induction false} NoneDecides<S>(slots: seq<S>, count: nat, matches: S -> bool, n: nat)
    requires Deciding(slots, count, matches).None? && n <= count && n <= |slots|
    ensures forall j :: 0 <= j < n ==> !matches(slots[j])
  {
    if n > 0 {
      NoneDecides(slots, count, matches, n - 1);
      assert !Decides(slots, count, matches, n - 1);
    }
  }

  /** If the counted slots match as the rules do, the deciding slot is that of the first matching rule. */
  lemma DecidingMeaning<S, R>(slots: seq<S>, count: nat, matches: S -> bool, rules: seq<R>, covers: R -> bool)
    requires count == |rules| <= |slots| && forall i :: 0 <= i < count ==> (matches(slots[i]) <==> covers(rules[i]))
    ensures var i := Deciding(slots, count, matches);
            && (i.Some? ==> i.value < count)
            && FirstThat(rules, covers) == if i.Some? then Some(rules[i.value]) else None
  {
    var i := Deciding(slots, count, matches);
    if i.Some? {
      FirstThatIs(rules, covers, i.value);
    } else {
      NoneDecides(slots, count, matches, count);
      FirstThatIs(rules, covers, count);
    }
  }

  // ----- what each kind of slot matches ----------------------------------------------------------------

  function FileMatcher(path: seq<char>): FilePolicy -> bool {
    (slot: FilePolicy) =>
      NUL in slot.path && Covers(CString(slot.path), Has(slot.flags, Recursive), CString(UpTo(path, MAX_PATH_LENGTH)))
  }

  function ProcessMatcher(comm: seq<char>): ProcessPolicy -> bool {
    (slot: ProcessPolicy) => NUL in slot.comm && CString(slot.comm) == CString(UpTo(comm, TASK_COMM_LEN))
  }

  /** A connection as the network hooks describe it. */
  datatype Endpoint = Endpoint(ip: int, port: int, protocol: int)

  /** 0 in a slot's port or protocol is a wildcard and its subnet mask is not looked at. */
  function NetworkMatcher(net: Endpoint): NetworkPolicy -> bool {
    (slot: NetworkPolicy) =>
      && slot.ip == net.ip
      && (slot.port == net.port || slot.port == 0)
      && (slot.protocol == net.protocol || slot.protocol == 0)
  }

  ghost function DecidingFile(t: Table, path: seq<char>): Option<nat> {
    Deciding(t.file, t.numFile, FileMatcher(path))
  }

  ghost function DecidingProcess(t: Table, comm: seq<char>): Option<nat> {
    Deciding(t.process, t.numProcess, ProcessMatcher(comm))
  }

  ghost function DecidingNetwork(t: Table, net: Endpoint): Option<nat> {
    Deciding(t.network, t.numNetwork, NetworkMatcher(net))
  }

  /** The flags match_policy returns for a file operation on `path`. */
  ghost function FileFlags(t: Table, path: seq<char>): Word {
    match DecidingFile(t, path) case None => {} case Some(i) => t.file[i].flags
  }

  ghost function ProcessFlags(t: Table, comm: seq<char>): Word {
    match DecidingProcess(t, comm) case None => {} case Some(i) => t.process[i].flags
  }

  ghost function NetworkFlags(t: Table, net: Endpoint): Word {
    match DecidingNetwork(t, net) case None => {} case Some(i) => t.network[i].flags
  }

  // ----- the loops -----------------------------------------------------------------------------------

  method ShouldMonitorNetwork(m: PolicyMap, key: PolicyKey) returns (r: bool)
    ensures r <==> key in m && m[key].numNetwork > 0
  {
    r := key in m && m[key].numNetwork > 0;
  }

  method ShouldMonitorFile(m: PolicyMap, key: PolicyKey) returns (r: bool)
    ensures r <==> key in m && m[key].numFile > 0
  {
    r := key in m && m[key].numFile > 0;
  }

  method ShouldMonitorProcess(m: PolicyMap, key: PolicyKey) returns (r: bool)
    ensures r <==> key in m && m[key].numProcess > 0
  {
    r := key in m && m[key].numProcess > 0;
  }

  method MatchNetwork(m: PolicyMap, key: PolicyKey, net: Endpoint) returns (flags: Word)
    requires WellShaped(m)
    ensures flags == if key in m then NetworkFlags(m[key], net) else {}
  {
    if key !in m {
      return {};
    }
    var t := m[key];
    for i := 0 to MAX_POLICIES
      invariant forall j :: 0 <= j < i ==> j < t.numNetwork && !NetworkMatcher(net)(t.network[j])
    {
      if i >= t.numNetwork {
        break;
      }
      var slot := t.network[i];
      if slot.ip == net.ip && (slot.port == net.port || slot.port == 0)
         && (slot.protocol == net.protocol || slot.protocol == 0) {
        DecidingIs(t.network, t.numNetwork, NetworkMatcher(net), i);
        return slot.flags;
      }
    }
    flags := {};
  }

  method MatchFile(m: PolicyMap, key: PolicyKey, path: seq<char>) returns (flags: Word)
    requires WellShaped(m)
    requires MAX_PATH_LENGTH <= |path| || NUL in path
    ensures flags == if key in m then FileFlags(m[key], path) else {}
  {
    if key !in m {
      return {};
    }
    var t := m[key];
    for i := 0 to MAX_POLICIES
      invariant forall j :: 0 <= j < i ==> j < t.numFile && !FileMatcher(path)(t.file[j])
    {
      if i >= t.numFile {
        break;
      }
      assert t.file[i].path[..MAX_PATH_LENGTH] == t.file[i].path;
      var r := CompareStrings(t.file[i].path, path, MAX_PATH_LENGTH, t.file[i].flags);
      if r == 0 {
        DecidingIs(t.file, t.numFile, FileMatcher(path), i);
        return t.file[i].flags;
      }
    }
    flags := {};
  }

  method MatchProcess(m: PolicyMap, key: PolicyKey, comm: seq<char>) returns (flags: Word)
    requires WellShaped(m)
    requires TASK_COMM_LEN <= |comm| || NUL in comm
    ensures flags == if key in m then ProcessFlags(m[key], comm) else {}
  {
    if key !in m {
      return {};
    }
    var t := m[key];
    for i := 0 to MAX_POLICIES
      invariant forall j :: 0 <= j < i ==> j < t.numProcess && !ProcessMatcher(comm)(t.process[j])
    {
      if i >= t.numProcess {
        break;
      }
      assert t.process[i].comm[..TASK_COMM_LEN] == t.process[i].comm;
      HasPosition({}, Recursive);
      var r := CompareStrings(t.process[i].comm, comm, TASK_COMM_LEN, {});
      if r == 0 {
        DecidingIs(t.process, t.numProcess, ProcessMatcher(comm), i);
        return t.process[i].flags;
      }
    }
    flags := {};
  }

  // ----- in terms of the rules ---------------------------------------------------------------------

  predicate RuleCovers(rule: YamlFile, path: seq<char>) {
    Covers(CString(rule.path), Name(Recursive) in rule.flags, path)
  }

  predicate NetworkRuleMatches(rule: YamlNetwork, net: Endpoint) {
    && rule.address.Some? && rule.address.value.ip == net.ip
    && (Port(rule.port) == net.port || Port(rule.port) == 0)
    && (Protocol(rule.protocol) == net.protocol || Protocol(rule.protocol) == 0)
  }

  function Covering(path: seq<char>): YamlFile -> bool {
    (rule: YamlFile) => RuleCovers(rule, path)
  }

  function ForCommand(comm: seq<char>): YamlProcess -> bool {
    (rule: YamlProcess) => CString(rule.comm) == comm
  }

  function ForEndpoint(net: Endpoint): YamlNetwork -> bool {
    (rule: YamlNetwork) => NetworkRuleMatches(rule, net)
  }

  /** The first rule of the list that covers the path. */
  function FirstRule(rules: seq<YamlFile>, path: seq<char>): Option<YamlFile> {
    FirstThat(rules, Covering(path))
  }

  function FirstProcessRule(rules: seq<YamlProcess>, comm: seq<char>): Option<YamlProcess> {
    FirstThat(rules, ForCommand(comm))
  }

  function FirstNetworkRule(rules: seq<YamlNetwork>, net: Endpoint): Option<YamlNetwork> {
    FirstThat(rules, ForEndpoint(net))
  }

  lemma SlotMatchesRule(t: Table, p: LsmPolicies, path: seq<char>, i: nat)
    requires Represents(t, p) && i < t.numFile
    ensures FileMatcher(path)(t.file[i]) <==> RuleCovers(p.file[i], CString(UpTo(path, MAX_PATH_LENGTH)))
  {
    FlagsOfHas(p.file[i].flags, Recursive);
  }

  /** The slot that decides is the one of the first rule that covers the string. */
  lemma DecidingFileMeaning(t: Table, p: LsmPolicies, path: seq<char>)
    requires Represents(t, p)
    ensures var i := DecidingFile(t, path);
            && (i.Some? ==> i.value < |p.file|)
            && FirstRule(p.file, CString(UpTo(path, MAX_PATH_LENGTH))) ==
               if i.Some? then Some(p.file[i.value]) else None
  {
    forall i | 0 <= i < t.numFile
      ensures FileMatcher(path)(t.file[i]) <==> Covering(CString(UpTo(path, MAX_PATH_LENGTH)))(p.file[i])
    {
      SlotMatchesRule(t, p, path, i);
    }
    DecidingMeaning(t.file, t.numFile, FileMatcher(path), p.file, Covering(CString(UpTo(path, MAX_PATH_LENGTH))));
  }

  /** Compiling and matching loses nothing: the flags found for a path are those of the first rule of
      the list that covers it, read from the rule's own names. */
  lemma FileMatchMeaning(t: Table, p: LsmPolicies, path: seq<char>)
    requires Represents(t, p)
    ensures FileFlags(t, path) ==
            match FirstRule(p.file, CString(UpTo(path, MAX_PATH_LENGTH)))
            case None => {}
            case Some(rule) => FlagsOf(rule.flags)
  {
    DecidingFileMeaning(t, p, path);
  }

  lemma ProcessMatchMeaning(t: Table, p: LsmPolicies, comm: seq<char>)
    requires Represents(t, p)
    ensures ProcessFlags(t, comm) ==
            match FirstProcessRule(p.process, CString(UpTo(comm, TASK_COMM_LEN)))
            case None => {}
            case Some(rule) => FlagsOf(rule.flags)
  {
    var seen := CString(UpTo(comm, TASK_COMM_LEN));
    DecidingMeaning(t.process, t.numProcess, ProcessMatcher(comm), p.process, ForCommand(seen));
  }

  lemma NetworkMatchMeaning(t: Table, p: LsmPolicies, net: Endpoint)
    requires Represents(t, p)
    ensures NetworkFlags(t, net) ==
            match FirstNetworkRule(p.network, net)
            case None => {}
            case Some(rule) => FlagsOf(rule.flags)
  {
    DecidingMeaning(t.network, t.numNetwork, NetworkMatcher(net), p.network, ForEndpoint(net));
  }
}

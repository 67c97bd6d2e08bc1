/** The nine live LSM hooks: their verdicts, and what the verdicts mean in terms of the rules. */
module Hooks {
  import opened Seqs
  import opened Flags
  import opened CStrings
  import opened PolicyTable
  import opened Matcher

  /** What a hook returns, and the retval of the event it submits, if it submits one. */
  datatype Outcome = Outcome(ret: int, submitted: Option<int>)

  /** Whether bpf_ringbuf_reserve gives a record and init_context finds the task. */
  datatype Env = Env(reserved: bool, hasTask: bool)

  const O_WRONLY: Word := {0}
  const O_RDWR: Word := {1}
  const FMODE_EXEC: Word := {18}

  /** A file operation as its hook sees it; Open carries file->f_flags. */
  datatype FileHook = Open(fFlags: Word) | Unlink | Mkdir | Rename | Create

  // ----- the decision each hook takes from the matched flags ---------------------------------------

  function Deny(audit: bool): Outcome {
    if audit then Outcome(0, Some(0)) else Outcome(-1, Some(-1))
  }

  function Permit(audit: bool): Outcome {
    if audit then Outcome(-1, Some(-1)) else Outcome(0, Some(0))
  }

  function FileDecision(h: FileHook, flags: Word): Outcome {
    var audit := Has(flags, Audit);
    match h
    case Open(f) =>
      if f * (O_WRONLY + O_RDWR) != {} then if Has(flags, FileWrite) then Permit(audit) else Outcome(-1, None)
      else if Has(flags, FileRead) then Deny(audit)
      else if Has(flags, FileExec) && f * FMODE_EXEC != {} then Deny(audit)
      else Outcome(0, None)
    case Unlink => if Has(flags, FileDelete) then Permit(audit) else Outcome(-1, None)
    case Mkdir => if Has(flags, FileAppend) then Permit(audit) else Outcome(-1, None)
    case Rename => if Has(flags, FileRename) then Permit(audit) else Outcome(-1, None)
    case Create => if Has(flags, FileCreate) then Deny(audit) else Outcome(0, None)
  }

  /** The conversion to __u8 in bprm_check_security keeps the low eight bits. */
  function LowByte(w: Word): Word {
    set i | i in w && i < 8
  }

  function ExecDecision(flags: Word): Outcome {
    if flags == {} then Outcome(0, None)
    else if Has(flags, ProcExec) || Has(flags, FileExec) then Deny(Has(flags, Audit))
    else Outcome(if LowByte(flags * Bit(Allow)) != {} then -1 else 0, None)
  }

  function SetuidDecision(flags: Word, newUid: nat): Outcome {
    if Has(flags, ProcSetuid) && newUid == 0 then Deny(Has(flags, Audit)) else Outcome(0, None)
  }

  function ConnectDecision(flags: Word): Outcome {
    if Has(flags, NetConnect) || Has(flags, NetDst) then Deny(Has(flags, Audit)) else Outcome(0, None)
  }

  function RecvmsgDecision(flags: Word): Outcome {
    if Has(flags, NetConnect) || Has(flags, NetSrc) then Deny(Has(flags, Audit)) else Outcome(0, None)
  }

  /** A file hook from its inputs: unmonitored, unrecorded and unattributed calls pass. */
  ghost function FileOutcome(m: PolicyMap, key: PolicyKey, env: Env, h: FileHook, path: seq<char>): Outcome
    requires WellShaped(m)
  {
    if key !in m || m[key].numFile == 0 || !env.reserved || !env.hasTask then Outcome(0, None)
    else FileDecision(h, FileFlags(m[key], path))
  }

  /** The process and the network hooks from their inputs; an exec that cannot be attributed is denied. */
  ghost function ExecOutcome(m: PolicyMap, key: PolicyKey, env: Env, comm: seq<char>): Outcome
    requires WellShaped(m)
  {
    if key !in m || m[key].numProcess == 0 || !env.reserved then Outcome(0, None)
    else if !env.hasTask then Outcome(-1, None)
    else ExecDecision(ProcessFlags(m[key], comm))
  }

  ghost function SetuidOutcome(m: PolicyMap, key: PolicyKey, env: Env, newUid: nat): Outcome
    requires WellShaped(m)
  {
    if key !in m || m[key].numProcess == 0 || !env.reserved || !env.hasTask then Outcome(0, None)
    else SetuidDecision(ProcessFlags(m[key], SETUID), newUid)
  }

  const SETUID: seq<char> := "setuid\0"

  const AF_INET: int := 2
  const AF_INET6: int := 10
  const SOCK_STREAM: int := 1
  const SOCK_DGRAM: int := 2
  const IPPROTO_IP: int := 0
  const IPPROTO_TCP: int := 6
  const IPPROTO_UDP: int := 17
  const IPPROTO_IPV6: int := 41

  /** The address a socket connects to, as its family has it. */
  datatype SockAddr = SockAddr(family: int, ip: int, port: int)

  /** A connect is described by address and port of its family and the protocol of its socket type; the
      address of IPv6, and port and address of other families, are 0. */
  function ConnectEndpoint(address: SockAddr, sockType: int): Endpoint {
    Endpoint(
      if address.family == AF_INET then address.ip else 0,
      if address.family == AF_INET || address.family == AF_INET6 then address.port else 0,
      if sockType == SOCK_STREAM then IPPROTO_TCP else if sockType == SOCK_DGRAM then IPPROTO_UDP else IPPROTO_IP)
  }

  /** A receive is described by the socket's peer address and its own port; the protocol stays 0. */
  function ReceiveEndpoint(ip: int, port: int): Endpoint {
    Endpoint(ip, port, 0)
  }

  ghost function ConnectOutcome(m: PolicyMap, key: PolicyKey, env: Env, net: Endpoint): Outcome
    requires WellShaped(m)
  {
    if key !in m || m[key].numNetwork == 0 || !env.reserved || !env.hasTask then Outcome(0, None)
    else ConnectDecision(NetworkFlags(m[key], net))
  }

  ghost function RecvmsgOutcome(m: PolicyMap, key: PolicyKey, env: Env, net: Endpoint): Outcome
    requires WellShaped(m)
  {
    if key !in m || m[key].numNetwork == 0 || !env.reserved || !env.hasTask then Outcome(0, None)
    else RecvmsgDecision(NetworkFlags(m[key], net))
  }

  // ----- the hooks ---------------------------------------------------------------------------------

  method FileOpen(m: PolicyMap, key: PolicyKey, env: Env, fFlags: Word, path: seq<char>) returns (o: Outcome)
    requires WellShaped(m) && (MAX_PATH_LENGTH <= |path| || NUL in path)
    ensures o == FileOutcome(m, key, env, Open(fFlags), path)
  {
    var monitored := ShouldMonitorFile(m, key);
    if !monitored || !env.reserved || !env.hasTask {
      return Outcome(0, None);
    }
    var flags := MatchFile(m, key, path);
    var isCheck, ret, retval := false, 0, 0;
    if fFlags * (O_WRONLY + O_RDWR) != {} {
      ret, retval := -1, -1;
      if Has(flags, FileWrite) {
        retval := if Has(flags, Audit) then -1 else 0;
        ret, isCheck := retval, true;
      }
    } else if Has(flags, FileRead) && fFlags * O_WRONLY == {} {
      retval := if Has(flags, Audit) then 0 else -1;
      ret, isCheck := retval, true;
    } else if Has(flags, FileExec) && fFlags * FMODE_EXEC != {} {
      retval := if Has(flags, Audit) then 0 else -1;
      ret, isCheck := retval, true;
    }
    assert fFlags * (O_WRONLY + O_RDWR) == {} ==> fFlags * O_WRONLY == {} by {
      assert fFlags * O_WRONLY <= fFlags * (O_WRONLY + O_RDWR);
    }
    o := Outcome(ret, if isCheck then Some(retval) else None);
  }

  method PathUnlink(m: PolicyMap, key: PolicyKey, env: Env, path: seq<char>) returns (o: Outcome)
    requires WellShaped(m) && (MAX_PATH_LENGTH <= |path| || NUL in path)
    ensures o == FileOutcome(m, key, env, Unlink, path)
  {
    o := WhitelistHook(m, key, env, FileDelete, path);
  }

  method PathMkdir(m: PolicyMap, key: PolicyKey, env: Env, path: seq<char>) returns (o: Outcome)
    requires WellShaped(m) && (MAX_PATH_LENGTH <= |path| || NUL in path)
    ensures o == FileOutcome(m, key, env, Mkdir, path)
  {
    o := WhitelistHook(m, key, env, FileAppend, path);
  }

  method PathRename(m: PolicyMap, key: PolicyKey, env: Env, oldDir: seq<char>) returns (o: Outcome)
    requires WellShaped(m) && (MAX_PATH_LENGTH <= |oldDir| || NUL in oldDir)
    ensures o == FileOutcome(m, key, env, Rename, oldDir)
  {
    o := WhitelistHook(m, key, env, FileRename, oldDir);
  }

  /** The common text of path_unlink, path_mkdir and path_rename. */
  method WhitelistHook(m: PolicyMap, key: PolicyKey, env: Env, permission: Flag, path: seq<char>) returns (o: Outcome)
    requires WellShaped(m) && (MAX_PATH_LENGTH <= |path| || NUL in path)
    ensures o == if key !in m || m[key].numFile == 0 || !env.reserved || !env.hasTask then Outcome(0, None)
                 else if Has(FileFlags(m[key], path), permission) then Permit(Has(FileFlags(m[key], path), Audit))
                 else Outcome(-1, None)
  {
    var monitored := ShouldMonitorFile(m, key);
    if !monitored || !env.reserved || !env.hasTask {
      return Outcome(0, None);
    }
    var flags := MatchFile(m, key, path);
    if Has(flags, permission) {
      var retval := if Has(flags, Audit) then -1 else 0;
      o := Outcome(retval, Some(retval));
    } else {
      o := Outcome(-1, None);
    }
  }

  method InodeCreate(m: PolicyMap, key: PolicyKey, env: Env, nameRead: bool, fileName: seq<char>) returns (o: Outcome)
    requires WellShaped(m) && (MAX_PATH_LENGTH <= |fileName| || NUL in fileName)
    ensures o == if nameRead then FileOutcome(m, key, env, Create, fileName) else Outcome(0, None)
  {
    var monitored := ShouldMonitorFile(m, key);
    if !monitored || !env.reserved || !env.hasTask || !nameRead {
      return Outcome(0, None);
    }
    var flags := MatchFile(m, key, fileName);
    if Has(flags, FileCreate) {
      var retval := if Has(flags, Audit) then 0 else -1;
      o := Outcome(retval, Some(retval));
    } else {
      o := Outcome(0, None);
    }
  }

  method BprmCheckSecurity(m: PolicyMap, key: PolicyKey, env: Env, comm: seq<char>) returns (o: Outcome)
    requires WellShaped(m) && (TASK_COMM_LEN <= |comm| || NUL in comm)
    ensures o == ExecOutcome(m, key, env, comm)
  {
    var monitored := ShouldMonitorProcess(m, key);
    if !monitored || !env.reserved {
      return Outcome(0, None);
    }
    var ret := if env.hasTask then 0 else -1;
    if ret < 0 {
      return Outcome(ret, None);
    }
    var flags := MatchProcess(m, key, comm);
    if flags == {} {
      return Outcome(ret, None);
    }
    var mode := LowByte(flags * Bit(Allow));
    if mode != {} {
      ret := -1;
    } else {
      ret := 0;
    }
    if Has(flags, ProcExec) || Has(flags, FileExec) {
      var retval := if Has(flags, Audit) then 0 else -1;
      return Outcome(retval, Some(retval));
    }
    o := Outcome(ret, None);
  }

  method TaskFixSetuid(m: PolicyMap, key: PolicyKey, env: Env, newUid: nat) returns (o: Outcome)
    requires WellShaped(m)
    ensures o == SetuidOutcome(m, key, env, newUid)
  {
    var monitored := ShouldMonitorProcess(m, key);
    if !monitored || !env.reserved || !env.hasTask {
      return Outcome(0, None);
    }
    assert SETUID[6] == NUL;
    var flags := MatchProcess(m, key, SETUID);
    if flags == {} {
      return Outcome(0, None);
    }
    if Has(flags, ProcSetuid) && newUid == 0 {
      var retval := if Has(flags, Audit) then 0 else -1;
      return Outcome(retval, Some(retval));
    }
    o := Outcome(0, None);
  }

  method SocketConnect(m: PolicyMap, key: PolicyKey, env: Env, address: SockAddr, sockType: int) returns (o: Outcome)
    requires WellShaped(m)
    ensures o == ConnectOutcome(m, key, env, ConnectEndpoint(address, sockType))
  {
    var monitored := ShouldMonitorNetwork(m, key);
    if !monitored || !env.reserved || !env.hasTask {
      return Outcome(0, None);
    }
    var net := Endpoint(0, 0, 0);
    if address.family == AF_INET {
      net := Endpoint(address.ip, address.port, IPPROTO_TCP);
    } else if address.family == AF_INET6 {
      net := Endpoint(0, address.port, IPPROTO_IPV6);
    }
    if sockType == SOCK_STREAM {
      net := net.(protocol := IPPROTO_TCP);
    } else if sockType == SOCK_DGRAM {
      net := net.(protocol := IPPROTO_UDP);
    } else {
      net := net.(protocol := IPPROTO_IP);
    }
    var flags := MatchNetwork(m, key, net);
    if Has(flags, NetConnect) || Has(flags, NetDst) {
      return if Has(flags, Audit) then Outcome(0, Some(0)) else Outcome(-1, Some(-1));
    }
    o := Outcome(0, None);
  }

  method SocketRecvmsg(m: PolicyMap, key: PolicyKey, env: Env, ip: int, port: int) returns (o: Outcome)
    requires WellShaped(m)
    ensures o == RecvmsgOutcome(m, key, env, ReceiveEndpoint(ip, port))
  {
    var monitored := ShouldMonitorNetwork(m, key);
    if !monitored || !env.reserved || !env.hasTask {
      return Outcome(0, None);
    }
    var net := Endpoint(0, 0, 0);
    net := net.(ip := ip, port := port);
    var flags := MatchNetwork(m, key, net);
    if Has(flags, NetConnect) || Has(flags, NetSrc) {
      return if Has(flags, Audit) then Outcome(0, Some(0)) else Outcome(-1, Some(-1));
    }
    o := Outcome(0, None);
  }

  // ----- the meaning of the file verdicts ------------------------------------------------------------

  /** The names in a rule that speak about the operation. */
  function Concerning(h: FileHook): set<Flag> {
    match h
    case Open(f) =>
      if f * (O_WRONLY + O_RDWR) != {} then {FileWrite}
      else if f * FMODE_EXEC != {} then {FileRead, FileExec}
      else {FileRead}
    case Unlink => {FileDelete}
    case Mkdir => {FileAppend}
    case Rename => {FileRename}
    case Create => {FileCreate}
  }

  /** Writing, deleting, making directories and renaming are denied unless a rule permits them;
      reading, executing and creating are allowed unless a rule denies them. */
  predicate DeniedByDefault(h: FileHook) {
    match h
    case Open(f) => f * (O_WRONLY + O_RDWR) != {}
    case Unlink => true
    case Mkdir => true
    case Rename => true
    case Create => false
  }

  predicate Mentions(rule: YamlFile, h: FileHook) {
    exists f :: f in Concerning(h) && Name(f) in rule.flags
  }

  /** The verdict read off the YAML rules: the first rule that covers the path decides. If it
      mentions the operation, an event is sent, and the default verdict is reversed unless the rule
      also says POLICY_AUDIT. In every other case the default verdict stands. */
  function Direct(rules: seq<YamlFile>, h: FileHook, path: seq<char>): Outcome {
    var default := if DeniedByDefault(h) then -1 else 0;
    match FirstRule(rules, path)
    case None => Outcome(default, None)
    case Some(rule) =>
      if !Mentions(rule, h) then Outcome(default, None)
      else
        var ret := if Name(Audit) in rule.flags then default else -1 - default;
        Outcome(ret, Some(ret))
  }

  lemma DecisionMeaning(rule: YamlFile, h: FileHook)
    ensures FileDecision(h, FlagsOf(rule.flags)) ==
            var default := if DeniedByDefault(h) then -1 else 0;
            if !Mentions(rule, h) then Outcome(default, None)
            else
              var ret := if Name(Audit) in rule.flags then default else -1 - default;
              Outcome(ret, Some(ret))
  {
    forall f ensures Has(FlagsOf(rule.flags), f) <==> Name(f) in rule.flags {
      FlagsOfHas(rule.flags, f);
    }
  }

  /** Compiling the rules to the fixed table and running the hook on it gives, for every path the
      kernel may pass, the verdict and the event that the rules themselves prescribe. */
  lemma FileVerdictMeaning(t: Table, p: LsmPolicies, h: FileHook, path: seq<char>)
    requires Represents(t, p)
    ensures FileDecision(h, FileFlags(t, path)) == Direct(p.file, h, CString(UpTo(path, MAX_PATH_LENGTH)))
  {
    FileMatchMeaning(t, p, path);
    match FirstRule(p.file, CString(UpTo(path, MAX_PATH_LENGTH)))
    case Some(rule) => DecisionMeaning(rule, h);
    case None => DecisionMeaning(YamlFile("", [], []), h);
  }

  /** The verdict of the other four hooks, read off the names of the deciding rule: denied with an event
      if the rule has one of the names, let through with an event if it also has POLICY_AUDIT. */
  function DeniedBy(rule: Option<seq<string>>, denying: set<Flag>): Outcome {
    if rule.None? || !(exists f :: f in denying && Name(f) in rule.value) then Outcome(0, None)
    else
      var ret := if Name(Audit) in rule.value then 0 else -1;
      Outcome(ret, Some(ret))
  }

  function ProcessRule(rules: seq<YamlProcess>, comm: seq<char>): Option<seq<string>> {
    match FirstProcessRule(rules, CString(UpTo(comm, TASK_COMM_LEN)))
    case None => None
    case Some(rule) => Some(rule.flags)
  }

  function NetworkRule(rules: seq<YamlNetwork>, net: Endpoint): Option<seq<string>> {
    match FirstNetworkRule(rules, net)
    case None => None
    case Some(rule) => Some(rule.flags)
  }

  /** The flag word of the deciding rule. */
  function RuleFlags(rule: Option<seq<string>>): Word {
    match rule case None => {} case Some(names) => FlagsOf(names)
  }

  lemma RuleFlagsHas(rule: Option<seq<string>>, f: Flag)
    ensures Has(RuleFlags(rule), f) <==> rule.Some? && Name(f) in rule.value
  {
    match rule
    case None => HasPosition({}, f);
    case Some(names) => FlagsOfHas(names, f);
  }

  lemma DeniedByMeaning(rule: Option<seq<string>>, newUid: nat)
    ensures ExecDecision(RuleFlags(rule)) == DeniedBy(rule, {ProcExec, FileExec})
    ensures SetuidDecision(RuleFlags(rule), newUid) ==
            if newUid == 0 then DeniedBy(rule, {ProcSetuid}) else Outcome(0, None)
    ensures ConnectDecision(RuleFlags(rule)) == DeniedBy(rule, {NetConnect, NetDst})
    ensures RecvmsgDecision(RuleFlags(rule)) == DeniedBy(rule, {NetConnect, NetSrc})
  {
    forall f ensures Has(RuleFlags(rule), f) <==> rule.Some? && Name(f) in rule.value {
      RuleFlagsHas(rule, f);
    }
    forall f ensures !Has({}, f) {
      HasPosition({}, f);
    }
    AllowModeIsEmpty(RuleFlags(rule));
  }

  /** The two process hooks, for any command name: the first rule for exactly that name decides. */
  lemma ProcessVerdictMeaning(t: Table, p: LsmPolicies, comm: seq<char>, newUid: nat)
    requires Represents(t, p)
    ensures ExecDecision(ProcessFlags(t, comm)) == DeniedBy(ProcessRule(p.process, comm), {ProcExec, FileExec})
    ensures SetuidDecision(ProcessFlags(t, comm), newUid) ==
            if newUid == 0 then DeniedBy(ProcessRule(p.process, comm), {ProcSetuid}) else Outcome(0, None)
  {
    ProcessMatchMeaning(t, p, comm);
    DeniedByMeaning(ProcessRule(p.process, comm), newUid);
  }

  /** The two network hooks: the first rule for the address whose port and protocol agree or are 0. */
  lemma NetworkVerdictMeaning(t: Table, p: LsmPolicies, net: Endpoint)
    requires Represents(t, p)
    ensures ConnectDecision(NetworkFlags(t, net)) == DeniedBy(NetworkRule(p.network, net), {NetConnect, NetDst})
    ensures RecvmsgDecision(NetworkFlags(t, net)) == DeniedBy(NetworkRule(p.network, net), {NetConnect, NetSrc})
  {
    NetworkMatchMeaning(t, p, net);
    DeniedByMeaning(NetworkRule(p.network, net), 0);
  }

  // ----- the same, in the words of the YAML file -------------------------------------------------------

  /** Rule `i` is the first one that covers the string; `i` is the number of rules when none does. */
  ghost predicate FirstCovering(rules: seq<YamlFile>, seen: seq<char>, i: nat) {
    && i <= |rules| && (i < |rules| ==> RuleCovers(rules[i], seen))
    && forall j :: 0 <= j < i ==> !RuleCovers(rules[j], seen)
  }

  lemma FileFlagsByName(t: Table, p: LsmPolicies, path: seq<char>, i: nat, f: Flag)
    requires Represents(t, p) && FirstCovering(p.file, CString(UpTo(path, MAX_PATH_LENGTH)), i)
    ensures Has(FileFlags(t, path), f) <==> i < |p.file| && Name(f) in p.file[i].flags
  {
    FileMatchMeaning(t, p, path);
    FirstThatIs(p.file, Covering(CString(UpTo(path, MAX_PATH_LENGTH))), i);
    if i < |p.file| {
      FlagsOfHas(p.file[i].flags, f);
    } else {
      HasPosition({}, f);
    }
  }

  /** Opening for writing, bits 0 and 1 of f_flags: denied, unless the first covering rule says
      POLICY_FILE_WRITE and does not say POLICY_AUDIT; an event goes with POLICY_FILE_WRITE only. */
  lemma WriteVerdict(t: Table, p: LsmPolicies, path: seq<char>, i: nat, f: Word)
    requires Represents(t, p) && FirstCovering(p.file, CString(UpTo(path, MAX_PATH_LENGTH)), i) && (0 in f || 1 in f)
    ensures var names := if i < |p.file| then p.file[i].flags else [];
            FileDecision(Open(f), FileFlags(t, path)) ==
            if "POLICY_FILE_WRITE" !in names then Outcome(-1, None)
            else if "POLICY_AUDIT" in names then Outcome(-1, Some(-1)) else Outcome(0, Some(0))
  {
    FileFlagsByName(t, p, path, i, FileWrite);
    FileFlagsByName(t, p, path, i, Audit);
    assert 0 in f ==> 0 in f * (O_WRONLY + O_RDWR);
    assert 1 in f ==> 1 in f * (O_WRONLY + O_RDWR);
  }

  /** Any other opening: allowed, unless the rule says POLICY_FILE_READ, or POLICY_FILE_EXEC and the opening
      is for execution, bit 18; then an event goes, and it is denied if the rule does not say POLICY_AUDIT. */
  lemma ReadVerdict(t: Table, p: LsmPolicies, path: seq<char>, i: nat, f: Word)
    requires Represents(t, p) && FirstCovering(p.file, CString(UpTo(path, MAX_PATH_LENGTH)), i) && 0 !in f && 1 !in f
    ensures var names := if i < |p.file| then p.file[i].flags else [];
            FileDecision(Open(f), FileFlags(t, path)) ==
            if "POLICY_FILE_READ" in names || ("POLICY_FILE_EXEC" in names && 18 in f)
            then if "POLICY_AUDIT" in names then Outcome(0, Some(0)) else Outcome(-1, Some(-1))
            else Outcome(0, None)
  {
    FileFlagsByName(t, p, path, i, FileRead);
    FileFlagsByName(t, p, path, i, FileExec);
    FileFlagsByName(t, p, path, i, Audit);
    assert f * (O_WRONLY + O_RDWR) == {};
    assert f * FMODE_EXEC == if 18 in f then {18} else {};
  }

  /** Deleting, making directories and renaming: denied unless the rule permits it. */
  lemma PermitVerdicts(t: Table, p: LsmPolicies, path: seq<char>, i: nat)
    requires Represents(t, p) && FirstCovering(p.file, CString(UpTo(path, MAX_PATH_LENGTH)), i)
    ensures var names := if i < |p.file| then p.file[i].flags else [];
            var permitted := if "POLICY_AUDIT" in names then Outcome(-1, Some(-1)) else Outcome(0, Some(0));
            && FileDecision(Unlink, FileFlags(t, path)) ==
               (if "POLICY_FILE_DELETE" in names then permitted else Outcome(-1, None))
            && FileDecision(Mkdir, FileFlags(t, path)) ==
               (if "POLICY_FILE_APPEND" in names then permitted else Outcome(-1, None))
            && FileDecision(Rename, FileFlags(t, path)) ==
               (if "POLICY_FILE_RENAME" in names then permitted else Outcome(-1, None))
  {
    FileFlagsByName(t, p, path, i, FileDelete);
    FileFlagsByName(t, p, path, i, FileAppend);
    FileFlagsByName(t, p, path, i, FileRename);
    FileFlagsByName(t, p, path, i, Audit);
  }

  /** Creating: allowed unless the rule denies it. */
  lemma CreateVerdict(t: Table, p: LsmPolicies, name: seq<char>, i: nat)
    requires Represents(t, p) && FirstCovering(p.file, CString(UpTo(name, MAX_PATH_LENGTH)), i)
    ensures var names := if i < |p.file| then p.file[i].flags else [];
            FileDecision(Create, FileFlags(t, name)) ==
            if "POLICY_FILE_CREATE" in names
            then if "POLICY_AUDIT" in names then Outcome(0, Some(0)) else Outcome(-1, Some(-1))
            else Outcome(0, None)
  {
    FileFlagsByName(t, p, name, i, FileCreate);
    FileFlagsByName(t, p, name, i, Audit);
  }

  function NamesOf(rule: Option<seq<string>>): seq<string> {
    match rule case None => [] case Some(names) => names
  }

  lemma ExecByName(rule: Option<seq<string>>)
    ensures var names := NamesOf(rule);
            ExecDecision(RuleFlags(rule)) ==
            if "POLICY_PROC_EXEC" !in names && "POLICY_FILE_EXEC" !in names then Outcome(0, None)
            else if "POLICY_AUDIT" in names then Outcome(0, Some(0)) else Outcome(-1, Some(-1))
  {
    AllowModeIsEmpty(RuleFlags(rule));
    RuleFlagsHas(rule, ProcExec);
    RuleFlagsHas(rule, FileExec);
    RuleFlagsHas(rule, Audit);
    HasPosition(RuleFlags(rule), ProcExec);
    HasPosition(RuleFlags(rule), FileExec);
  }

  lemma SetuidByName(rule: Option<seq<string>>, newUid: nat)
    ensures var names := NamesOf(rule);
            SetuidDecision(RuleFlags(rule), newUid) ==
            if "POLICY_PROC_SETUID" !in names || newUid != 0 then Outcome(0, None)
            else if "POLICY_AUDIT" in names then Outcome(0, Some(0)) else Outcome(-1, Some(-1))
  {
    RuleFlagsHas(rule, ProcSetuid);
    RuleFlagsHas(rule, Audit);
  }

  lemma ConnectByName(rule: Option<seq<string>>)
    ensures var names := NamesOf(rule);
            ConnectDecision(RuleFlags(rule)) ==
            if "POLICY_NET_CONNECT" !in names && "POLICY_NET_DST" !in names then Outcome(0, None)
            else if "POLICY_AUDIT" in names then Outcome(0, Some(0)) else Outcome(-1, Some(-1))
  {
    RuleFlagsHas(rule, NetConnect);
    RuleFlagsHas(rule, NetDst);
    RuleFlagsHas(rule, Audit);
  }

  lemma ReceiveByName(rule: Option<seq<string>>)
    ensures var names := NamesOf(rule);
            RecvmsgDecision(RuleFlags(rule)) ==
            if "POLICY_NET_CONNECT" !in names && "POLICY_NET_SRC" !in names then Outcome(0, None)
            else if "POLICY_AUDIT" in names then Outcome(0, Some(0)) else Outcome(-1, Some(-1))
  {
    RuleFlagsHas(rule, NetConnect);
    RuleFlagsHas(rule, NetSrc);
    RuleFlagsHas(rule, Audit);
  }

  /** Exec and setuid: let through silently, unless the first rule for exactly that name denies it. */
  lemma ProcessVerdicts(t: Table, p: LsmPolicies, comm: seq<char>, i: nat, newUid: nat)
    requires Represents(t, p) && i <= |p.process|
    requires i < |p.process| ==> CString(p.process[i].comm) == CString(UpTo(comm, TASK_COMM_LEN))
    requires forall j :: 0 <= j < i ==> CString(p.process[j].comm) != CString(UpTo(comm, TASK_COMM_LEN))
    ensures var names := if i < |p.process| then p.process[i].flags else [];
            && ExecDecision(ProcessFlags(t, comm)) ==
               (if "POLICY_PROC_EXEC" !in names && "POLICY_FILE_EXEC" !in names then Outcome(0, None)
                else if "POLICY_AUDIT" in names then Outcome(0, Some(0)) else Outcome(-1, Some(-1)))
            && SetuidDecision(ProcessFlags(t, comm), newUid) ==
               (if "POLICY_PROC_SETUID" !in names || newUid != 0 then Outcome(0, None)
                else if "POLICY_AUDIT" in names then Outcome(0, Some(0)) else Outcome(-1, Some(-1)))
  {
    ProcessMatchMeaning(t, p, comm);
    FirstThatIs(p.process, ForCommand(CString(UpTo(comm, TASK_COMM_LEN))), i);
    var rule := if i < |p.process| then Some(p.process[i].flags) else None;
    ExecByName(rule);
    SetuidByName(rule, newUid);
  }

  /** Which rules a connect meets: family 2 is IPv4 and 10 is IPv6, whose address counts as 0; protocol 6 goes
      with stream sockets, type 1, and 17 with datagram sockets, type 2. A rule's port and protocol are what
      16 and 8 bits keep of them, and 0 is a wildcard. */
  lemma ConnectMeetsRule(rule: YamlNetwork, address: SockAddr, sockType: int)
    ensures NetworkRuleMatches(rule, ConnectEndpoint(address, sockType)) <==>
            && rule.address.Some?
            && rule.address.value.ip == (if address.family == 2 then address.ip else 0)
            && rule.port % 65536 in {0, if address.family in {2, 10} then address.port else 0}
            && rule.protocol % 256 in {0, if sockType == 1 then 6 else if sockType == 2 then 17 else 0}
  {
  }

  /** Which rules a receive meets: those for the peer's address and the own port that name no protocol. */
  lemma ReceiveMeetsRule(rule: YamlNetwork, ip: int, port: int)
    ensures NetworkRuleMatches(rule, ReceiveEndpoint(ip, port)) <==>
            && rule.address.Some? && rule.address.value.ip == ip
            && rule.port % 65536 in {0, port} && rule.protocol % 256 == 0
  {
  }

  /** Connect and receive: let through silently, unless the first rule that they meet denies it. */
  lemma NetworkVerdicts(t: Table, p: LsmPolicies, net: Endpoint, i: nat)
    requires Represents(t, p) && i <= |p.network| && (i < |p.network| ==> NetworkRuleMatches(p.network[i], net))
    requires forall j :: 0 <= j < i ==> !NetworkRuleMatches(p.network[j], net)
    ensures var names := if i < |p.network| then p.network[i].flags else [];
            && ConnectDecision(NetworkFlags(t, net)) ==
               (if "POLICY_NET_CONNECT" !in names && "POLICY_NET_DST" !in names then Outcome(0, None)
                else if "POLICY_AUDIT" in names then Outcome(0, Some(0)) else Outcome(-1, Some(-1)))
            && RecvmsgDecision(NetworkFlags(t, net)) ==
               (if "POLICY_NET_CONNECT" !in names && "POLICY_NET_SRC" !in names then Outcome(0, None)
                else if "POLICY_AUDIT" in names then Outcome(0, Some(0)) else Outcome(-1, Some(-1)))
  {
    NetworkMatchMeaning(t, p, net);
    FirstThatIs(p.network, ForEndpoint(net), i);
    var rule := if i < |p.network| then Some(p.network[i].flags) else None;
    ConnectByName(rule);
    ReceiveByName(rule);
  }

  /** So in a compiled table a rule stored with protocol 6 decides no datagram connect, one stored with 17 no
      stream connect, and only rules for address 0 decide an IPv6 connect. */
  lemma ConnectIsDecidedBy(t: Table, p: LsmPolicies, address: SockAddr, sockType: int)
    requires Represents(t, p)
    ensures var i := DecidingNetwork(t, ConnectEndpoint(address, sockType));
            i.Some? ==>
              && i.value < |p.network| && p.network[i.value].address.Some?
              && (p.network[i.value].protocol % 256 == 6 ==> sockType == 1)
              && (p.network[i.value].protocol % 256 == 17 ==> sockType == 2)
              && (address.family == 10 ==> p.network[i.value].address.value.ip == 0)
              && (address.family == 2 ==> p.network[i.value].address.value.ip == address.ip)
              && (address.family in {2, 10} && p.network[i.value].port % 65536 != 0 ==>
                    p.network[i.value].port % 65536 == address.port)
  {
    var net := ConnectEndpoint(address, sockType);
    DecidingMeaning(t.network, t.numNetwork, NetworkMatcher(net), p.network, ForEndpoint(net));
    var i := DecidingNetwork(t, net);
    if i.Some? {
      ConnectMeetsRule(p.network[i.value], address, sockType);
    }
  }

  /** And a rule that agrees with a connect in address, port and protocol decides it when no earlier rule
      meets it. */
  lemma AgreeingRuleDecides(t: Table, p: LsmPolicies, i: nat, ip: int, port: int, sockType: int)
    requires Represents(t, p) && i < |p.network| && 0 <= port < 65536 && sockType in {1, 2}
    requires p.network[i].address.Some? && p.network[i].address.value.ip == ip && p.network[i].port == port
    requires p.network[i].protocol == if sockType == 1 then 6 else 17
    requires forall j :: 0 <= j < i ==>
               !NetworkRuleMatches(p.network[j], ConnectEndpoint(SockAddr(2, ip, port), sockType))
    ensures DecidingNetwork(t, ConnectEndpoint(SockAddr(2, ip, port), sockType)) == Some(i)
  {
    DecidingIs(t.network, t.numNetwork, NetworkMatcher(ConnectEndpoint(SockAddr(2, ip, port), sockType)), i);
  }

  /** A rule that names a protocol decides no receive, whatever the peer. */
  lemma ProtocolRuleIgnoresReceives(t: Table, p: LsmPolicies, ip: int, port: int)
    requires Represents(t, p)
    ensures var rule := FirstNetworkRule(p.network, ReceiveEndpoint(ip, port));
            && (rule.Some? ==> Protocol(rule.value.protocol) == 0)
            && (rule.None? ==> RecvmsgDecision(NetworkFlags(t, ReceiveEndpoint(ip, port))) == Outcome(0, None))
  {
    var net := ReceiveEndpoint(ip, port);
    NetworkVerdictMeaning(t, p, net);
    FirstThatHolds(p.network, ForEndpoint(net));
  }

  /** POLICY_ALLOW is bit 29, so its conversion to __u8 is 0 for every rule: the default-deny mode
      that the comments in bprm_check_security announce is never entered. */
  lemma AllowModeIsEmpty(flags: Word)
    ensures LowByte(flags * Bit(Allow)) == {}
  {
    assert Position(Allow) == 29;
  }

  // ----- POLICY_AUDIT ------------------------------------------------------------------------------

  function WithAudit(w: Word): Word {
    w + Bit(Audit)
  }

  lemma WithAuditHas(w: Word, f: Flag)
    ensures Has(WithAudit(w), f) <==> f == Audit || Has(w, f)
  {
    HasPosition(WithAudit(w), f);
    HasPosition(w, f);
    if Position(f) == Position(Audit) {
      PositionInjective(f, Audit);
    }
  }

  /** The deciding slot's flags with POLICY_AUDIT added. */
  function AuditFile(t: Table, i: nat): Table
    requires i < |t.file|
  {
    t.(file := t.file[i := t.file[i].(flags := WithAudit(t.file[i].flags))])
  }

  function AuditProcess(t: Table, i: nat): Table
    requires i < |t.process|
  {
    t.(process := t.process[i := t.process[i].(flags := WithAudit(t.process[i].flags))])
  }

  function AuditNetwork(t: Table, i: nat): Table
    requires i < |t.network|
  {
    t.(network := t.network[i := t.network[i].(flags := WithAudit(t.network[i].flags))])
  }

  lemma AuditedDecision(flags: Word, h: FileHook, newUid: nat)
    ensures FileDecision(h, WithAudit(flags)).ret == FileDecision(h, {}).ret
    ensures ExecDecision(WithAudit(flags)).ret == ExecDecision({}).ret
    ensures SetuidDecision(WithAudit(flags), newUid).ret == SetuidDecision({}, newUid).ret
    ensures ConnectDecision(WithAudit(flags)).ret == ConnectDecision({}).ret
    ensures RecvmsgDecision(WithAudit(flags)).ret == RecvmsgDecision({}).ret
  {
    forall f ensures Has(WithAudit(flags), f) <==> f == Audit || Has(flags, f) {
      WithAuditHas(flags, f);
    }
    forall f ensures !Has({}, f) {
      HasPosition({}, f);
    }
    AllowModeIsEmpty(WithAudit(flags));
  }

  lemma AuditKeepsFile(t: Table, i: nat, path: seq<char>)
    requires DecidingFile(t, path) == Some(i)
    ensures FileFlags(AuditFile(t, i), path) == WithAudit(t.file[i].flags)
  {
    WithAuditHas(t.file[i].flags, Recursive);
    DecidingIs(AuditFile(t, i).file, t.numFile, FileMatcher(path), i);
  }

  lemma AuditKeepsProcess(t: Table, i: nat, comm: seq<char>)
    requires DecidingProcess(t, comm) == Some(i)
    ensures ProcessFlags(AuditProcess(t, i), comm) == WithAudit(t.process[i].flags)
  {
    DecidingIs(AuditProcess(t, i).process, t.numProcess, ProcessMatcher(comm), i);
  }

  lemma AuditKeepsNetwork(t: Table, i: nat, net: Endpoint)
    requires DecidingNetwork(t, net) == Some(i)
    ensures NetworkFlags(AuditNetwork(t, i), net) == WithAudit(t.network[i].flags)
  {
    DecidingIs(AuditNetwork(t, i).network, t.numNetwork, NetworkMatcher(net), i);
  }

  /** In any table, adding POLICY_AUDIT to the deciding rule makes the verdict of each of the nine
      hooks what it is when no rule matches. */
  lemma AuditNeutral(t: Table, i: nat, h: FileHook, path: seq<char>, newUid: nat, comm: seq<char>, net: Endpoint)
    ensures DecidingFile(t, path) == Some(i) ==>
              FileDecision(h, FileFlags(AuditFile(t, i), path)).ret == FileDecision(h, {}).ret
    ensures DecidingProcess(t, comm) == Some(i) ==>
              && ExecDecision(ProcessFlags(AuditProcess(t, i), comm)).ret == ExecDecision({}).ret
              && SetuidDecision(ProcessFlags(AuditProcess(t, i), comm), newUid).ret == SetuidDecision({}, newUid).ret
    ensures DecidingNetwork(t, net) == Some(i) ==>
              && ConnectDecision(NetworkFlags(AuditNetwork(t, i), net)).ret == ConnectDecision({}).ret
              && RecvmsgDecision(NetworkFlags(AuditNetwork(t, i), net)).ret == RecvmsgDecision({}).ret
  {
    if DecidingFile(t, path) == Some(i) {
      AuditKeepsFile(t, i, path);
      AuditedDecision(t.file[i].flags, h, newUid);
    }
    if DecidingProcess(t, comm) == Some(i) {
      AuditKeepsProcess(t, i, comm);
      AuditedDecision(t.process[i].flags, h, newUid);
    }
    if DecidingNetwork(t, net) == Some(i) {
      AuditKeepsNetwork(t, i, net);
      AuditedDecision(t.network[i].flags, h, newUid);
    }
  }
}

/** The fixed-size policy record shared with the kernel, and the compiler that fills it from the
    rules of a container (the body of the container loop in update_policy_with_file). */
module PolicyTable {
  import opened Seqs
  import opened Flags
  import opened CStrings

  const MAX_POLICIES: nat := 64
  const MAX_PATH_LENGTH: nat := 256
  const TASK_COMM_LEN: nat := 16
  const MAX_UID_LIST: nat := 30

  datatype YamlFile = YamlFile(path: string, flags: seq<string>, uid: seq<int>)
  datatype Address = Address(ip: int, subnetMask: int)
  /** `address` is what parse_ip makes of the text; None when it throws on the prefix length. */
  datatype YamlNetwork =
    YamlNetwork(address: Option<Address>, port: int, protocol: int, flags: seq<string>, uid: seq<int>)
  datatype YamlProcess = YamlProcess(comm: string, flags: seq<string>, uid: seq<int>)
  datatype LsmPolicies = LsmPolicies(file: seq<YamlFile>, network: seq<YamlNetwork>, process: seq<YamlProcess>)

  datatype FilePolicy = FilePolicy(path: seq<char>, uid: seq<int>, flags: Word)
  datatype NetworkPolicy = NetworkPolicy(ip: int, subnetMask: int, port: int, protocol: int, uid: seq<int>, flags: Word)
  datatype ProcessPolicy = ProcessPolicy(comm: seq<char>, uid: seq<int>, flags: Word)

  /** The bytes of a policy_value; slots from the counts on hold whatever was in memory. */
  datatype Table = Table(
    numFile: nat, numNetwork: nat, numProcess: nat,
    file: seq<FilePolicy>, network: seq<NetworkPolicy>, process: seq<ProcessPolicy>)

  ghost predicate Shaped(t: Table) {
    && |t.file| == |t.network| == |t.process| == MAX_POLICIES
    && (forall i :: 0 <= i < MAX_POLICIES ==> |t.file[i].path| == MAX_PATH_LENGTH && |t.file[i].uid| == MAX_UID_LIST)
    && (forall i :: 0 <= i < MAX_POLICIES ==>
          |t.process[i].comm| == TASK_COMM_LEN && |t.process[i].uid| == MAX_UID_LIST)
  }

  /** The bounds that the compiler relies on without checking. */
  ghost predicate FileFits(rules: seq<YamlFile>) {
    |rules| <= MAX_POLICIES
    && forall i :: 0 <= i < |rules| ==> |CString(rules[i].path)| < MAX_PATH_LENGTH && |rules[i].uid| <= MAX_UID_LIST
  }

  ghost predicate NetworkFits(rules: seq<YamlNetwork>) {
    |rules| <= MAX_POLICIES && forall i :: 0 <= i < |rules| ==> |rules[i].uid| <= MAX_UID_LIST
  }

  /** No address throws. */
  predicate Parses(rules: seq<YamlNetwork>) {
    forall i :: 0 <= i < |rules| ==> rules[i].address.Some?
  }

  ghost predicate ProcessFits(rules: seq<YamlProcess>) {
    |rules| <= MAX_POLICIES
    && forall i :: 0 <= i < |rules| ==> |CString(rules[i].comm)| < TASK_COMM_LEN && |rules[i].uid| <= MAX_UID_LIST
  }

  ghost predicate Fits(p: LsmPolicies) {
    FileFits(p.file) && NetworkFits(p.network) && ProcessFits(p.process)
  }

  // ----- what each slot holds afterwards -----------------------------------------------------------

  function Overlay(base: seq<int>, over: seq<int>): seq<int>
    requires |over| <= |base|
  {
    over + base[|over|..]
  }

  function FileSlot(slot: FilePolicy, rule: YamlFile): FilePolicy
    requires |slot.path| == MAX_PATH_LENGTH && |slot.uid| == MAX_UID_LIST
    requires |CString(rule.path)| < MAX_PATH_LENGTH && |rule.uid| <= MAX_UID_LIST
  {
    FilePolicy(StrCpy(slot.path, rule.path), Overlay(slot.uid, rule.uid), FlagsOf(rule.flags))
  }

  /** The uid list of a network rule goes to the file slot of the same index. */
  function ClobberedSlot(slot: FilePolicy, rule: YamlNetwork): FilePolicy
    requires |slot.uid| == MAX_UID_LIST && |rule.uid| <= MAX_UID_LIST
  {
    slot.(uid := Overlay(slot.uid, rule.uid))
  }

  /** The record has 16 bits for a port and 8 for a protocol; an int assigned to them loses the rest. */
  function Port(port: int): nat {
    port % 0x1_0000
  }

  function Protocol(protocol: int): nat {
    protocol % 0x100
  }

  function NetworkSlot(slot: NetworkPolicy, rule: YamlNetwork): NetworkPolicy
    requires rule.address.Some?
  {
    var address := rule.address.value;
    NetworkPolicy(address.ip, address.subnetMask, Port(rule.port), Protocol(rule.protocol), slot.uid,
                  FlagsOf(rule.flags))
  }

  function ProcessSlot(slot: ProcessPolicy, rule: YamlProcess): ProcessPolicy
    requires |slot.comm| == TASK_COMM_LEN && |slot.uid| == MAX_UID_LIST
    requires |CString(rule.comm)| < TASK_COMM_LEN && |rule.uid| <= MAX_UID_LIST
  {
    ProcessPolicy(StrCpy(slot.comm, rule.comm), Overlay(slot.uid, rule.uid), FlagsOf(rule.flags))
  }

  /** A network slot holds the address of its rule, its flags, and what 16 and 8 bits keep of port and protocol. */
  predicate NetworkSlotIs(slot: NetworkPolicy, rule: YamlNetwork) {
    && rule.address == Some(Address(slot.ip, slot.subnetMask)) && slot.flags == FlagsOf(rule.flags)
    && slot.port == rule.port % 65536 && slot.protocol == rule.protocol % 256
  }

  /** A port and a protocol that fit their fields are kept, as is the wildcard. */
  lemma InRangeIsKept(port: nat, protocol: nat)
    ensures Port(port) == port <==> port < 65536
    ensures Protocol(protocol) == protocol <==> protocol < 256
  {
  }

  /** The table represents the rules: the kernel-relevant parts of the counted slots are those of
      the rules, in order. */
  ghost predicate Represents(t: Table, p: LsmPolicies) {
    && Shaped(t) && Parses(p.network)
    && t.numFile == |p.file| <= MAX_POLICIES && t.numNetwork == |p.network| <= MAX_POLICIES
    && t.numProcess == |p.process| <= MAX_POLICIES
    && (forall i :: 0 <= i < t.numFile ==>
          NUL in t.file[i].path && CString(t.file[i].path) == CString(p.file[i].path)
          && t.file[i].flags == FlagsOf(p.file[i].flags))
    && (forall i :: 0 <= i < t.numNetwork ==> NetworkSlotIs(t.network[i], p.network[i]))
    && (forall i :: 0 <= i < t.numProcess ==>
          NUL in t.process[i].comm && CString(t.process[i].comm) == CString(p.process[i].comm)
          && t.process[i].flags == FlagsOf(p.process[i].flags))
  }

  // ----- the compiler ------------------------------------------------------------------------------

  /** The inner loop over a uid list: the slots it does not reach keep what they held. */
  method CopyUids(slots: seq<int>, uids: seq<int>) returns (r: seq<int>)
    requires |uids| <= |slots|
    ensures r == Overlay(slots, uids)
    ensures |r| == |slots| && r[..|uids|] == uids && r[|uids|..] == slots[|uids|..]
  {
    r := slots;
    for i := 0 to |uids|
      invariant r == Overlay(slots, uids[..i])
    {
      r := r[i := uids[i]];
    }
    assert uids[..|uids|] == uids;
  }

  method CompileFileRule(flagsMap: FlagsMap, slot: FilePolicy, rule: YamlFile) returns (r: FilePolicy)
    requires |slot.path| == MAX_PATH_LENGTH && |slot.uid| == MAX_UID_LIST
    requires |CString(rule.path)| < MAX_PATH_LENGTH && |rule.uid| <= MAX_UID_LIST
    requires Consistent(flagsMap.entries)
    modifies flagsMap
    ensures Consistent(flagsMap.entries) && r == FileSlot(slot, rule)
  {
    r := slot.(path := StrCpy(slot.path, rule.path));
    var flags := flagsMap.StringToFlags(rule.flags);
    var uid := CopyUids(r.uid, rule.uid);
    r := r.(flags := flags, uid := uid);
  }

  method CompileProcessRule(flagsMap: FlagsMap, slot: ProcessPolicy, rule: YamlProcess) returns (r: ProcessPolicy)
    requires |slot.comm| == TASK_COMM_LEN && |slot.uid| == MAX_UID_LIST
    requires |CString(rule.comm)| < TASK_COMM_LEN && |rule.uid| <= MAX_UID_LIST
    requires Consistent(flagsMap.entries)
    modifies flagsMap
    ensures Consistent(flagsMap.entries) && r == ProcessSlot(slot, rule)
  {
    r := slot.(comm := StrCpy(slot.comm, rule.comm));
    var flags := flagsMap.StringToFlags(rule.flags);
    var uid := CopyUids(r.uid, rule.uid);
    r := r.(flags := flags, uid := uid);
  }

  /** All of a network rule but its uids. */
  method CompileNetworkRule(flagsMap: FlagsMap, slot: NetworkPolicy, rule: YamlNetwork) returns (r: NetworkPolicy)
    requires Consistent(flagsMap.entries) && rule.address.Some?
    modifies flagsMap
    ensures Consistent(flagsMap.entries) && r == NetworkSlot(slot, rule)
  {
    var address := rule.address.value;
    r := slot.(ip := address.ip, subnetMask := address.subnetMask);
    r := r.(port := rule.port % 0x1_0000, protocol := rule.protocol % 0x100);
    var flags := flagsMap.StringToFlags(rule.flags);
    r := r.(flags := flags);
  }

  class PolicyValue {
    var numFile: nat
    var numNetwork: nat
    var numProcess: nat
    const file: array<FilePolicy>
    const network: array<NetworkPolicy>
    const process: array<ProcessPolicy>

    ghost function View(): Table
      reads this, file, network, process
    {
      Table(numFile, numNetwork, numProcess, file[..], network[..], process[..])
    }

    /** A stack variable: any bytes at all, in the shape of the record. */
    constructor (garbage: Table)
      requires Shaped(garbage)
      ensures View() == garbage && fresh(file) && fresh(network) && fresh(process)
    {
      numFile, numNetwork, numProcess := garbage.numFile, garbage.numNetwork, garbage.numProcess;
      file := new FilePolicy[MAX_POLICIES](i requires 0 <= i < MAX_POLICIES => garbage.file[i]);
      network := new NetworkPolicy[MAX_POLICIES](i requires 0 <= i < MAX_POLICIES => garbage.network[i]);
      process := new ProcessPolicy[MAX_POLICIES](i requires 0 <= i < MAX_POLICIES => garbage.process[i]);
      new;
      assert file[..] == garbage.file && network[..] == garbage.network && process[..] == garbage.process;
    }

    ghost predicate FileShaped()
      reads file
    {
      file.Length == MAX_POLICIES
      && forall i :: 0 <= i < MAX_POLICIES ==> |file[i].path| == MAX_PATH_LENGTH && |file[i].uid| == MAX_UID_LIST
    }

    ghost predicate ProcessShaped()
      reads process
    {
      process.Length == MAX_POLICIES
      && forall i :: 0 <= i < MAX_POLICIES ==> |process[i].comm| == TASK_COMM_LEN && |process[i].uid| == MAX_UID_LIST
    }

    method FillFile(flagsMap: FlagsMap, rules: seq<YamlFile>)
      requires FileShaped() && Consistent(flagsMap.entries) && FileFits(rules)
      modifies this`numFile, file, flagsMap
      ensures Consistent(flagsMap.entries) && numFile == |rules|
      ensures forall i :: 0 <= i < MAX_POLICIES ==>
                file[i] == if i < |rules| then FileSlot(old(file[i]), rules[i]) else old(file[i])
    {
      ghost var file0 := file[..];
      numFile := 0;
      for k := 0 to |rules|
        modifies this`numFile, file, flagsMap
        invariant numFile == k && Consistent(flagsMap.entries)
        invariant forall i :: k <= i < MAX_POLICIES ==> file[i] == file0[i]
        invariant forall i :: 0 <= i < k ==> file[i] == FileSlot(file0[i], rules[i])
      {
        file[numFile] := CompileFileRule(flagsMap, file[numFile], rules[k]);
        numFile := numFile + 1;
      }
    }

    /** Gives up at the first address that throws. */
    method FillNetwork(flagsMap: FlagsMap, rules: seq<YamlNetwork>) returns (ok: bool)
      requires FileShaped() && network.Length == MAX_POLICIES && Consistent(flagsMap.entries) && NetworkFits(rules)
      modifies this`numNetwork, file, network, flagsMap
      ensures Consistent(flagsMap.entries) && (ok <==> forall i :: 0 <= i < |rules| ==> rules[i].address.Some?)
      ensures ok ==> numNetwork == |rules|
      ensures ok ==> forall i :: 0 <= i < MAX_POLICIES ==>
                network[i] == if i < |rules| then NetworkSlot(old(network[i]), rules[i]) else old(network[i])
      ensures ok ==> forall i :: 0 <= i < MAX_POLICIES ==>
                file[i] == if i < |rules| then ClobberedSlot(old(file[i]), rules[i]) else old(file[i])
    {
      ghost var file0, network0 := file[..], network[..];
      numNetwork := 0;
      for k := 0 to |rules|
        modifies this`numNetwork, file, network, flagsMap
        invariant numNetwork == k && Consistent(flagsMap.entries)
        invariant forall i :: 0 <= i < k ==> rules[i].address.Some?
        invariant forall i :: k <= i < MAX_POLICIES ==> file[i] == file0[i] && network[i] == network0[i]
        invariant forall i :: 0 <= i < k ==> network[i] == NetworkSlot(network0[i], rules[i])
        invariant forall i :: 0 <= i < k ==> file[i] == ClobberedSlot(file0[i], rules[i])
      {
        if rules[k].address.None? {
          return false;
        }
        network[numNetwork] := CompileNetworkRule(flagsMap, network[numNetwork], rules[k]);
        CopyNetworkUids(rules[k].uid);
        numNetwork := numNetwork + 1;
      }
      ok := true;
    }

    /** The uid loop of a network rule writes into the file policy of the same number. */
    method CopyNetworkUids(uids: seq<int>)
      requires numNetwork < file.Length && |uids| <= |file[numNetwork].uid|
      modifies file
      ensures file[numNetwork] == old(file[numNetwork]).(uid := Overlay(old(file[numNetwork].uid), uids))
      ensures forall i :: 0 <= i < file.Length && i != numNetwork ==> file[i] == old(file[i])
    {
      var uid := CopyUids(file[numNetwork].uid, uids);
      file[numNetwork] := file[numNetwork].(uid := uid);
    }

    method FillProcess(flagsMap: FlagsMap, rules: seq<YamlProcess>)
      requires ProcessShaped() && Consistent(flagsMap.entries) && ProcessFits(rules)
      modifies this`numProcess, process, flagsMap
      ensures Consistent(flagsMap.entries) && numProcess == |rules|
      ensures forall i :: 0 <= i < MAX_POLICIES ==>
                process[i] == if i < |rules| then ProcessSlot(old(process[i]), rules[i]) else old(process[i])
    {
      ghost var process0 := process[..];
      numProcess := 0;
      for k := 0 to |rules|
        modifies this`numProcess, process, flagsMap
        invariant numProcess == k && Consistent(flagsMap.entries)
        invariant forall i :: k <= i < MAX_POLICIES ==> process[i] == process0[i]
        invariant forall i :: 0 <= i < k ==> process[i] == ProcessSlot(process0[i], rules[i])
      {
        process[numProcess] := CompileProcessRule(flagsMap, process[numProcess], rules[k]);
        numProcess := numProcess + 1;
      }
    }

    /** File, network, then process rules, over whatever the record held before; an address that throws
        ends it. */
    method Compile(flagsMap: FlagsMap, p: LsmPolicies) returns (ok: bool)
      requires Shaped(View()) && Consistent(flagsMap.entries) && Fits(p)
      modifies this, file, network, process, flagsMap
      ensures Consistent(flagsMap.entries)
      ensures ok <==> Parses(p.network)
      ensures ok ==> Represents(View(), p)
      // the uid lists end up where the network loop puts them
      ensures ok ==> forall i :: 0 <= i < |p.process| ==> process[i].uid[..|p.process[i].uid|] == p.process[i].uid
      ensures ok ==> forall i :: |p.network| <= i < |p.file| ==> file[i].uid[..|p.file[i].uid|] == p.file[i].uid
      ensures ok ==> forall i :: 0 <= i < |p.network| ==> file[i].uid[..|p.network[i].uid|] == p.network[i].uid
    {
      assert |View().file| == file.Length && |View().network| == network.Length && |View().process| == process.Length;
      assert FileShaped() by {
        assert forall i :: 0 <= i < file.Length ==> View().file[i] == file[i];
      }
      assert ProcessShaped() by {
        assert forall i :: 0 <= i < process.Length ==> View().process[i] == process[i];
      }
      FillFile(flagsMap, p.file);
      ok := FillNetwork(flagsMap, p.network);
      if ok {
        FillProcess(flagsMap, p.process);
      }
    }
  }
}

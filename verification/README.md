# Youmuu: a verified model

Youmuu watches containers from the kernel. An LSM program enforces YAML policies, a tracepoint
program logs syscalls to Kafka, and user-space managers detect containers, compile policies into BPF
maps and reload them when the policy file or the set of containers changes. This project models the
stateful core of the repository in Dafny and proves what that core keeps.

| module | what it models |
|---|---|
| `Batching`, `BufferPool`, `FlushTasks`, `Logger`, `EventLogger` | the tracepoint event logger: a fixed set of buffers moved between producer, flush thread and pool worker, interleaved step by step. `Logger` is the step system with the results over all runs; `EventLogger.EventLogger` is the C++ class, each method proved to do one step of it |
| `Flags`, `CStrings`, `PolicyTable`, `Matcher`, `PolicyLaws`, `Hooks` | the LSM policy: flag names to words, rule lists to the fixed 64-slot record, the kernel's string comparison and matching, the nine live hooks, and laws about whole rule lists |
| `Containers`, `LsmReload` | which containers are detected under which policy, and the LSM reload down to the verdict |
| `SyscallRows`, `TracepointPolicy`, `TracepointProgram` | the 120-slot syscall rows, reconciliation over any history of reloads, and the reload as the program performs it |
| `ArgsMaps` | the fourteen bounded maps that carry syscall arguments from enter to exit |
| `EventStream` | newline framing of Docker's chunked event stream |
| `SingleFlight`, `MissedChanges` | policy updates started by several threads, and when a change is missed for good |
| `ObjectCursor` | `rfl::Object`, searched from a cached cursor |
| `LossAccounting`, `OverlappingCalls` | the counters of the raw tracepoint, for calls one at a time and for calls that overlap, and the script that reads them back from the logs |
| `Seqs` | options and flattened sequences |

Concurrency is modelled as interleaved steps, one step for each critical section or atomic access, and
the results hold for every interleaving. Docker's answers, regex matches, loaded YAML, namespace ids,
uninitialised memory, failing map writes and full ring buffers are parameters that may take any value.

## What the code does that its comments and examples do not say

- `addEvent` waits for a buffer while it holds `availableBuffersMutex_`, which the flush thread needs
  to give a buffer back. `Logger.BlocksExactly` says when a producer gets there, `Logger.BlockIsReached`
  that one can, `Logger.BlockedForever` that it never leaves while the logger runs.
- The comment beside `max_batch_size` says 1MB; the constant is 10 * 1024 * 1024.
- `bprm_check_security` keeps `flags & POLICY_ALLOW` in a `__u8`, and POLICY_ALLOW is bit 29, so the
  default-deny mode of its comments is never entered (`Hooks.AllowModeIsEmpty`). For that reason audit
  neutrality holds for this hook too (`Hooks.AuditNeutral`).
- POLICY_RECURSIVE works only on a path that ends in a slash (`PolicyLaws.RecursiveNeedsSlash`); the
  sample policy writes `/var/log` without one.
- A rule's port and protocol are ints in the YAML and 16 and 8 bits in the record, so port 65536 and
  protocol 256 become 0, the wildcard (`PolicyTable.NetworkSlot`). A receive is described with protocol 0,
  so a rule that names a protocol never applies to one (`Hooks.ProtocolRuleIgnoresReceives`).
- An address whose prefix length is no number ends a reload by exception after the map has been emptied:
  it then holds the tables of the containers before that one (`LsmReload.UpdatePolicyWithFile`).
- The uid list of a network rule is written into the file policy of the same index
  (`PolicyTable.PolicyValue.Compile`); no match result depends on it (`PolicyLaws.NonInterference`).
- A container that matches several patterns is listed several times under one id, and only its first
  entry gets its namespace id; the others use whatever was in memory
  (`TracepointProgram.NamespacesAreRight`).
- A row whose clearing failed is never cleared again (`TracepointPolicy.FailedClearStays`,
  `TracepointPolicy.StaleRowIsReached`); `TracepointPolicy.AgreesExactly` says for every history when row
  and policy agree. The id -1 counts as listed in every row that has room for a sentinel
  (`TracepointPolicy.MinusOneIsLogged`).
- The exits of accept4, getdents and getdents64 delete from another syscall's map, and that of
  socketpair deletes a key no thread has. These four maps hold the first 1024 threads that ever entered
  the call (`ArgsMaps.LeakyMapsHoldTheFirst`); once full (`ArgsMaps.FullMapIsReached`) they starve every
  other thread (`ArgsMaps.FullLeakyMapStarves`). Pairing still holds for them.
- The LSM retry loop does not look at the exit signal (`SingleFlight.LsmRetriesForever`), and in both
  programs a change can be missed between the end of an update and the clearing of its flag
  (`MissedChanges.AChangeCanBeMissed`; `MissedChanges.MissedExactly` gives the exact condition).
- `rfl::Object::insert` accepts a name twice; lookups then depend on earlier lookups exactly if the
  values differ (`ObjectCursor.CursorIrrelevantExactly`).
- Overlapping `sys_enter` calls may stamp a later call's number, exactly when they are overtaken
  (`OverlappingCalls.RecordCarriesOwnExactly`). The script can then report a loss where there was none
  (`OverlappingCalls.MissingWithoutLoss`) or name a logged call instead of the lost one
  (`OverlappingCalls.WrongCallReported`). `OverlappingCalls.NamesTheLostExactly` says when it is right; the
  totals balance in any case (`OverlappingCalls.LossesBalance`).

## Model

| member | source | states |
|---|---|---|
| Logger.EveryRun | src/tracepoint/EventLogger.cpp:219-484 | in every state of every interleaving of producer, flush thread with timeout, and worker: the accepted events are the handled ones, then the rest of the running job, the queued jobs, the in-flight, queued and current buffers, in order; the batches sent are the serialised handled events; every buffer has one owner and the fill of its role |
| Logger.StepInv | src/tracepoint/EventLogger.cpp:219-398 | each critical section of each thread keeps ownership, fills and the event sequence |
| Logger.BlocksExactly | src/tracepoint/EventLogger.cpp:221-229 | addEvent blocks if and only if every buffer is queued for flush or in the flusher's hands |
| Logger.BlockIsReached | src/tracepoint/EventLogger.cpp:221-254 | a run from the constructed logger with one buffer that ends with a blocked producer: 1001 events without a flush |
| Logger.BlockedForever | src/tracepoint/EventLogger.cpp:224-227 | over every run from a blocked state the producer stays blocked, nothing more is accepted, no buffer becomes available, and at most one more buffer leaves the flush deque |
| Logger.EverythingIsDelivered | src/tracepoint/EventLogger.cpp:276-345 | from every reachable state with an unblocked producer, flusher and worker steps alone lead to a state where Kafka has been sent exactly the messages of the accepted events |
| Logger.PendingProgress | src/tracepoint/EventLogger.cpp:276-383 | the next flusher or worker step is enabled, keeps the invariant and lowers a well-founded measure |
| BufferPool.OwnedExactlyOnce | src/tracepoint/EventLogger.h:34-83 | the multiset partition read out: each buffer is in exactly one role and in no deque twice |
| BufferPool.InitGood | src/tracepoint/EventLogger.cpp:19-43 | the constructed pool is partitioned, empty and correctly filled |
| BufferPool.StoreGood | src/tracepoint/EventLogger.cpp:242-254 | storing appends one event at the young end and keeps partition and fills, also when it fills the buffer |
| BufferPool.PopGood | src/tracepoint/EventLogger.cpp:278-286 | popping keeps partition, fills, order, and isFlushing_ iff the deque is non-empty |
| BufferPool.HandOverGood | src/tracepoint/EventLogger.cpp:295 | handing a buffer over takes exactly its events off the old end of the pool |
| BufferPool.GiveBackGood | src/tracepoint/EventLogger.cpp:298-304 | returning the buffer loses no event and makes it available exactly once |
| BufferPool.ExpireGood | src/tracepoint/EventLogger.cpp:318-345 | the timeout moves a non-empty current buffer behind the queued ones without changing the event sequence |
| FlushTasks.SerializeOneGood | src/tracepoint/EventLogger.cpp:415-467 | one turn of the worker's loop moves one event from unhandled to handled, and sent plus open batch stay the serialisation of the handled ones |
| FlushTasks.TaskBatches | src/tracepoint/EventLogger.cpp:358-484 | a job run to its end adds to Kafka exactly a batching of its messages, whatever was sent before |
| Batching.SendEvents | src/tracepoint/EventLogger.cpp:409-473 | the batches concatenate to the messages in order, none is empty, each has fewer than 10 MiB of characters without its final message, all but the last reach 10 MiB; messageCount is the total |
| Batching.BytesAreCharacters | src/tracepoint/EventLogger.cpp:453-457 | the size compared with the limit is the number of characters in the batch |
| Batching.MessagesAre | src/tracepoint/EventLogger.cpp:415-466 | the messages are the texts of the events that serialise, each once, in their order, and nothing else |
| Batching.BatchingUnique | src/tracepoint/EventLogger.cpp:409-473 | those properties determine the batches: two batchings of the same messages are equal |
| EventLogger.EventLogger.constructor | src/tracepoint/EventLogger.cpp:19-43 | the new object is the initial state and satisfies the invariant |
| EventLogger.EventLogger.Create | src/tracepoint/EventLogger.cpp:16-18 | construction is refused exactly for a buffer count of 0 |
| EventLogger.EventLogger.AddEvent | src/tracepoint/EventLogger.cpp:219-258 | does exactly the producer's step, blocking included, and keeps the invariant |
| EventLogger.EventLogger.PopForFlush | src/tracepoint/EventLogger.cpp:276-286 | does exactly the flusher's pop step |
| EventLogger.EventLogger.SendEventsToKafka | src/tracepoint/EventLogger.cpp:401-404 | does exactly the step that turns a buffer's events into a queued job |
| EventLogger.EventLogger.ReturnBuffer | src/tracepoint/EventLogger.cpp:298-304 | does exactly the step that gives the buffer back |
| EventLogger.EventLogger.FlushOnTimeout | src/tracepoint/EventLogger.cpp:315-345 | does exactly the timeout step |
| EventLogger.EventLogger.TakeTask | src/tracepoint/EventLogger.cpp:358-381 | does exactly the worker's pop step |
| EventLogger.EventLogger.SerializeNext | src/tracepoint/EventLogger.cpp:415-467 | does exactly one turn of the event loop, JSON failure included |
| EventLogger.EventLogger.FinishTask | src/tracepoint/EventLogger.cpp:470-473 | sends what is left and ends the job |
| Flags.FlagsOfHas | src/lsm/parser.h:49-57 | a flag word has a flag's bit if and only if the list has its name |
| Flags.SingleNames | src/lsm/policy_map_structs.h:51-90 | each of the 19 names by itself gives the header's bit |
| Flags.WordRoundTrip | src/lsm/parser.h:49-70 | string_to_flags of flags_to_string is the word masked to the 19 known bits |
| Flags.NamesRoundTrip | src/lsm/parser.h:49-70 | flags_to_string of string_to_flags lists the known names of the list, ascending, each once |
| Flags.AscendingUnique | src/lsm/parser.h:60-70 | an ascending list is determined by its members, so both round trips fix the result |
| Flags.LessIsLexicographic | src/lsm/parser.h:60-70 | the order of flags_map is that of strings: a proper prefix first, else the smaller character at the first difference |
| Flags.FlagsMap.StringToFlags | src/lsm/parser.h:49-57 | the result is the word of the names after any history of calls, and inserted zero entries keep flags_map consistent |
| Flags.FlagsMap.FlagsToString | src/lsm/parser.h:60-70 | the result is the ascending list of the names of exactly the flags in the word, whatever unknown names are in flags_map |
| Flags.Select | src/lsm/parser.h:60-70 | iterating in key order keeps exactly the names whose value meets the word, ascending |
| CStrings.StrCpy | src/lsm/enforcement.cpp:564 | the buffer then reads as the source string, is terminated, and keeps its size, whatever it held before |
| CStrings.CompareStrings | src/lsm/bpf_map_structs.h:83-96 | returns 0 if and only if the rule's string ends within the limit and equals the other, or the rule is recursive, ends in a slash and is a proper prefix of it |
| PolicyTable.CopyUids | src/lsm/enforcement.cpp:567-569 | the list overwrites the front of the uid slots, the rest stays |
| PolicyTable.PolicyValue.FillFile | src/lsm/enforcement.cpp:561-572 | every counted file slot is its rule laid over the old bytes, the others are untouched |
| PolicyTable.PolicyValue.FillNetwork | src/lsm/enforcement.cpp:575-593 | succeeds if and only if no address throws; then every counted network slot is its rule with the old uids, port and protocol cut to 16 and 8 bits, and the uids go to the file slots |
| PolicyTable.PolicyValue.FillProcess | src/lsm/enforcement.cpp:596-607 | every counted process slot is its rule laid over the old bytes |
| PolicyTable.PolicyValue.Compile | src/lsm/enforcement.cpp:560-607 | succeeds if and only if no address throws; then, for any uninitialised record, the result represents the rules, and the file slots hold the network rules' uids |
| PolicyTable.InRangeIsKept | src/lsm/policy_map_structs.h:77-84 | a port or protocol is stored as it is if and only if it fits its field |
| Matcher.MatchFile | src/lsm/bpf_map_structs.h:172-196 | the flags of the first matching file slot, or none |
| Matcher.MatchProcess | src/lsm/bpf_map_structs.h:213-223 | the flags of the first matching process slot, or none |
| Matcher.MatchNetwork | src/lsm/bpf_map_structs.h:198-212 | the flags of the first slot with the same address whose port and protocol are equal or 0, or none |
| Matcher.FileMatchMeaning | src/lsm/bpf_map_structs.h:185-196 | for every path, the compiled table yields the flags named by the first YAML rule that covers the path |
| Matcher.ProcessMatchMeaning | src/lsm/bpf_map_structs.h:213-223 | for every command name, the table yields the flags named by the first YAML rule for exactly that name |
| Matcher.NetworkMatchMeaning | src/lsm/bpf_map_structs.h:198-212 | for every endpoint, the table yields the flags named by the first YAML network rule whose address agrees and whose port and protocol, cut to the record's bits, agree or are 0 |
| PolicyLaws.NonInterference | src/lsm/enforcement.cpp:544-607 | match results are the same for two compilations that differ in uids, bytes after a NUL, previous memory, uncounted slots and network rules |
| PolicyLaws.DeadExactlyWhenShadowed | src/lsm/bpf_map_structs.h:83-196 | in a compiled table, for all contents of the kernel's 256-byte path field: a rule decides some string if and only if no single earlier rule shadows it; several rules together never kill a rule that none of them kills alone |
| PolicyLaws.DeadForTerminatedExactly | src/lsm/bpf_map_structs.h:83-196 | the same for NUL-terminated strings, where a tree path of 255 characters is also dead after a rule for the same path |
| PolicyLaws.DeleteShadowed | src/lsm/bpf_map_structs.h:186-196 | deleting a shadowed rule changes the deciding rule of no path |
| PolicyLaws.DeleteShadowedCompiled | src/lsm/bpf_map_structs.h:186-196 | compiling with and without a shadowed rule gives the same match for every string |
| PolicyLaws.RecursiveNeedsSlash | src/lsm/bpf_map_structs.h:88 | without a trailing slash a recursive rule covers its own path only |
| PolicyLaws.CoversExactly | src/lsm/bpf_map_structs.h:83-96 | a rule covers its own path and, with POLICY_RECURSIVE and a final slash, exactly the longer paths that begin with it |
| Hooks.FileOpen | src/lsm/enforcement.bpf.c:136-198 | verdict and event for every f_flags, table and path; passes when unmonitored, unrecorded or unattributed |
| Hooks.PathUnlink | src/lsm/enforcement.bpf.c:202-240 | verdict and event of a deletion |
| Hooks.PathMkdir | src/lsm/enforcement.bpf.c:244-285 | verdict and event of making a directory |
| Hooks.PathRename | src/lsm/enforcement.bpf.c:289-329 | verdict and event of a rename, decided on the old directory |
| Hooks.InodeCreate | src/lsm/enforcement.bpf.c:334-373 | verdict and event of a creation, decided on the bare name |
| Hooks.BprmCheckSecurity | src/lsm/enforcement.bpf.c:24-76 | verdict and event of an exec, with the truncation to eight bits |
| Hooks.TaskFixSetuid | src/lsm/enforcement.bpf.c:79-126 | verdict and event of a setuid, decided by the rule named setuid |
| Hooks.SocketConnect | src/lsm/enforcement.bpf.c:380-456 | verdict and event of a connect, for the endpoint built from the address family and the socket type |
| Hooks.SocketRecvmsg | src/lsm/enforcement.bpf.c:459-513 | verdict and event of a receive, for the endpoint built from peer address and own port, protocol 0 |
| Hooks.FileVerdictMeaning | src/lsm/enforcement.bpf.c:136-373 | for every rule list, operation and path, compiling, matching and deciding gives the verdict and event of the direct reading of the YAML rules: first covering rule, fixed default, reversed by a mention, kept by POLICY_AUDIT |
| Hooks.WriteVerdict | src/lsm/enforcement.bpf.c:172-178 | opening for writing is denied unless the first covering YAML rule names POLICY_FILE_WRITE and not POLICY_AUDIT; which event goes with it |
| Hooks.ReadVerdict | src/lsm/enforcement.bpf.c:179-186 | any other opening is allowed unless that rule names POLICY_FILE_READ, or POLICY_FILE_EXEC for an execution, and not POLICY_AUDIT; which event goes with it |
| Hooks.PermitVerdicts | src/lsm/enforcement.bpf.c:202-329 | unlink, mkdir and rename are denied unless that rule names POLICY_FILE_DELETE, POLICY_FILE_APPEND or POLICY_FILE_RENAME and not POLICY_AUDIT; which event goes with it |
| Hooks.CreateVerdict | src/lsm/enforcement.bpf.c:362-372 | creation is allowed unless that rule names POLICY_FILE_CREATE and not POLICY_AUDIT; which event goes with it |
| Hooks.ProcessVerdictMeaning | src/lsm/enforcement.bpf.c:24-126 | for every rule list and name, the verdict and event of exec and setuid are the direct reading of the YAML rules: denied with an event if the first rule for that name says so, let through with an event if it also says POLICY_AUDIT, else let through silently |
| Hooks.ProcessVerdicts | src/lsm/enforcement.bpf.c:24-126 | exec and setuid to 0 by the names of the first rule for the command: POLICY_PROC_EXEC or POLICY_FILE_EXEC, and POLICY_PROC_SETUID; verdict and event |
| Hooks.NetworkVerdictMeaning | src/lsm/enforcement.bpf.c:380-513 | the same for connect and receive, decided by the first rule for the address whose port and protocol, as stored, agree or are 0 |
| Hooks.NetworkVerdicts | src/lsm/enforcement.bpf.c:380-513 | connect and receive by the names of the first rule that meets the endpoint: POLICY_NET_CONNECT with POLICY_NET_DST or POLICY_NET_SRC; verdict and event |
| Hooks.ConnectMeetsRule | src/lsm/enforcement.bpf.c:404-438 | exactly which rules a connect meets, by address family, address, port and socket type |
| Hooks.ReceiveMeetsRule | src/lsm/enforcement.bpf.c:477-498 | exactly which rules a receive meets: peer address, own port, no protocol |
| Hooks.ConnectIsDecidedBy | src/lsm/enforcement.bpf.c:404-438 | in a compiled table, protocol 6 decides no datagram and 17 no stream connect, IPv6 is decided by address 0 only, IPv4 by its own address, and a port by itself or 0 |
| Hooks.AgreeingRuleDecides | src/lsm/bpf_map_structs.h:198-212 | a rule that agrees with an IPv4 connect in address, port and protocol decides it when no earlier rule meets it |
| Hooks.ProtocolRuleIgnoresReceives | src/lsm/enforcement.bpf.c:477-498 | no rule with a protocol decides a receive; without another rule for the endpoint it passes silently |
| Hooks.AllowModeIsEmpty | src/lsm/enforcement.bpf.c:59 | the truncated POLICY_ALLOW mode is 0 for every word |
| Hooks.AuditNeutral | src/lsm/enforcement.bpf.c:18-513 | adding POLICY_AUDIT to the deciding rule makes the verdict of each of the nine hooks what it is when no rule matches |
| Containers.IsMonitored | src/lsm/container_info.cpp:9-28 | all matching patterns in order; a pattern that does not compile matches only its own text |
| Containers.FindPolicy | src/lsm/container_info.cpp:101-106 | the policy of the first YAML entry of that name, none exactly when no entry has it |
| Containers.InspectMatches | src/lsm/container_info.cpp:88-113 | one entry per answered inspection, under the policy of the pattern inspected |
| Containers.GetContainerPIDs | src/lsm/container_info.cpp:41-123 | all detected entries in order, none when Docker does not answer |
| Containers.DetectedExactly | src/lsm/container_info.cpp:61-115 | the detected entries are exactly the successful matches of a container with a YAML entry, ordered by container and then by entry, each with the container's id, name and pid and the policy of the first entry of that name |
| Containers.DisplayName | src/lsm/container_info.cpp:72-84 | the first name without its leading slash, `unknown` when there is none |
| LsmReload.BpfMap.GetNextKey | src/lsm/enforcement.cpp:894-910 | the key after a known one in the walk; for no key or an unknown one, an entry whenever there is one |
| LsmReload.BpfMap.Clear | src/lsm/enforcement.cpp:894-910 | terminates with an empty map although it always asks for the key after a deleted one |
| LsmReload.CompileTable | src/lsm/enforcement.cpp:544-607 | there is a record for a container if and only if no address of its rules throws, and the record represents its policy |
| LsmReload.WriteTables | src/lsm/enforcement.cpp:543-612 | the map then holds exactly the last writer's table for every key, skipping containers without pid or namespaces; when an address throws, exactly those of the containers before it |
| LsmReload.LastWriterIs | src/lsm/enforcement.cpp:543-612 | the policy for a key is that of the last container with a pid and that readable key, by position |
| LsmReload.ThrowsExactly | src/lsm/parser.h:80-99 | a reload throws if and only if a container with pid and namespaces has an address that parse_ip rejects |
| LsmReload.UpdatePolicyWithFile | src/lsm/enforcement.cpp:517-614 | which of the four results a reload has and what map each leaves: untouched, empty, exactly the last writers' tables, or exactly those of the containers before the one whose address throws |
| LsmReload.ReloadedVerdicts | src/lsm/enforcement.cpp:517-614 | from YAML file to verdict: after a reload every file hook outcome is the direct reading of the last writer's rules, and tasks outside are unrestricted |
| LsmReload.ReloadedProcessVerdicts | src/lsm/enforcement.cpp:517-614 | the same for exec and setuid: after a reload the outcome is the direct reading of the last writer's process rules |
| LsmReload.ReloadedNetworkVerdicts | src/lsm/enforcement.cpp:517-614 | the same for connect and receive and the last writer's network rules |
| SyscallRows.StringToSyscalls | src/tracepoint/parser.h:217-230 | one id per name, -1 for an unknown one |
| SyscallRows.SyscallList | src/tracepoint/tracepoint.cpp:182-195 | the list has an id if and only if some name with that id has fewer than 120 known names before it |
| SyscallRows.WantedAre | src/tracepoint/tracepoint.cpp:182-195 | the same, and the ids stand in the order of their names |
| SyscallRows.FillRow | src/tracepoint/tracepoint.cpp:202-210 | the list followed by -1 up to 120 |
| SyscallRows.ShouldLogEvent | src/tracepoint/tracepoint.bpf.c:65-80 | true if and only if the namespace has a row in which the id comes before any sentinel |
| SyscallRows.ScanFindsListed | src/tracepoint/tracepoint.bpf.c:65-80 | the scan of a padded row finds exactly the listed ids, and -1 exactly when there is room for a sentinel |
| TracepointPolicy.RowsAre | src/tracepoint/tracepoint.cpp:59-247 | after any history, whichever writes failed: a namespace has a row if and only if a write for it has succeeded, and the row is the list of the last such write |
| TracepointPolicy.ClearedRows | src/tracepoint/tracepoint.cpp:59-75 | a clear fills exactly the rows of the given namespaces whose write succeeds with 120 times -1 |
| TracepointPolicy.AgreesExactly | src/tracepoint/tracepoint.cpp:148-247 | after any history, row and monitored set agree with the list in force if and only if the last successful write wrote that list, or cleared the row when there is none |
| TracepointPolicy.KernelLogsLastWritten | src/tracepoint/tracepoint.bpf.c:65-80 | after any history the kernel logs a syscall id if and only if the last successful write for the namespace listed it |
| TracepointPolicy.KernelAgreesExactly | src/tracepoint/tracepoint.cpp:59-247 | the kernel logs what the policy asks for, on all ids, if and only if that write and the list in force have the same ids |
| TracepointPolicy.UpToDateAgrees | src/tracepoint/tracepoint.cpp:148-247 | one later write that succeeds repairs whatever failed before it: then row, monitored set and list in force agree |
| TracepointPolicy.KernelAgreesWithPolicy | src/tracepoint/tracepoint.cpp:59-247 | the kernel logs a syscall id if and only if the list in force has it, whenever the last write attempted for the namespace succeeded, in particular when none ever failed |
| TracepointPolicy.MinusOneIsLogged | src/tracepoint/tracepoint.bpf.c:65-80 | for every history, the exact namespaces in which the id -1 is logged |
| TracepointPolicy.FailedClearStays | src/tracepoint/tracepoint.cpp:226-244 | once a namespace has left the monitored set, its row is unchanged by every later history that does not name it |
| TracepointPolicy.StaleRowIsReached | src/tracepoint/tracepoint.cpp:77-96 | two reloads, a list and then an empty policy whose clear fails, after which the kernel logs the old ids for good |
| TracepointProgram.NamespacesAreRight | src/tracepoint/container_info.cpp:160-168 | every entry gets its own namespace id whatever was in memory if and only if no container id occurs twice |
| TracepointProgram.TracepointProgram.ClearEntries | src/tracepoint/tracepoint.cpp:226-241 | exactly the rows of the given namespaces whose write succeeds become empty, in any order |
| TracepointProgram.TracepointProgram.ClearAllPolicies | src/tracepoint/tracepoint.cpp:77-96 | does the empty-policy reload, and reports -1 exactly if a clear failed |
| TracepointProgram.TracepointProgram.UpdateContainerNsId | src/tracepoint/container_info.cpp:160-168 | sets the namespace of the first entry with the id and of no other |
| TracepointProgram.TracepointProgram.WriteRows | src/tracepoint/tracepoint.cpp:180-223 | every detected container's row is written in order under its effective namespace, and those namespaces are the new set |
| TracepointProgram.TracepointProgram.UpdatePolicyWithFile | src/tracepoint/tracepoint.cpp:148-247 | the whole reload is one step of the reconciliation model; an unreadable file changes nothing, an empty one clears all rows, nothing detected leaves the map and returns -1, containers detected return 0 |
| TracepointProgram.KernelLogsWhatIsListed | src/tracepoint/tracepoint.cpp:148-247 | from the program's inputs: after any history ending in a reload that detects containers with distinct ids, the kernel logs a syscall if and only if the last container of the namespace names it with fewer than 120 known names before it |
| TracepointProgram.NamedIsUpToDate | src/tracepoint/tracepoint.cpp:197-219 | for a namespace with a container it is enough that its own last write succeeded |
| ArgsMaps.ExitFindsItsOwnArgs | src/tracepoint/tracepoint.bpf.c:174-571 | over every interleaving of threads, for all fourteen maps: an exit finds nothing or exactly the args of its own thread's matching enter, and finds them if and only if the event is logged, the call succeeded and the map took them |
| ArgsMaps.InsideIsLastEnter | src/tracepoint/tracepoint.bpf.c:174-571 | a thread is inside exactly the call of its latest unmatched enter |
| ArgsMaps.StepInv | src/tracepoint/map.h:32-128 | every enter, exit and thread death keeps pairing, the capacity of 1024 and the occupancy of the ten self-deleting maps |
| ArgsMaps.TenAndFour | src/tracepoint/tracepoint.bpf.c:174-4971 | the ten calls whose exit deletes from their own map, and the four whose map loses nothing but through socketpair's key |
| ArgsMaps.OnlyOccupantsHaveEntries | src/tracepoint/tracepoint.bpf.c:265-519 | for the ten syscalls whose exit deletes its own key, only threads inside that call, or that died in it, have an entry, filtered events and full ring buffers included |
| ArgsMaps.RoomForOccupants | src/tracepoint/map.h:32-128 | those maps take every insert while fewer than 1024 threads are in the call |
| ArgsMaps.LeakyMapsOnlyGrow | src/tracepoint/tracepoint.bpf.c:1705-1802 | the maps of socketpair, accept4, getdents and getdents64 never lose a key |
| ArgsMaps.LeakyMapsHoldTheFirst | src/tracepoint/tracepoint.bpf.c:1705-1802 | after any run such a map holds exactly the first 1024 distinct threads that entered the call, whatever exited since |
| ArgsMaps.FullMapIsReached | src/tracepoint/tracepoint.bpf.c:523-571 | 1024 threads that enter and leave, one after the other, fill such a map although no thread is inside a call |
| ArgsMaps.FullLeakyMapStarves | src/tracepoint/tracepoint.bpf.c:523-571 | once such a map is full, a thread without an entry never gets one again |
| ArgsMaps.ArgsMaps.SysEnter | src/tracepoint/tracepoint.bpf.c:473-480 | replaces the thread's entry, adds one only below capacity, changes no other map |
| ArgsMaps.ArgsMaps.SysExit | src/tracepoint/tracepoint.bpf.c:494-519 | what is found, and the one entry deleted, recorded or not: the thread's own for the ten calls, the thread's in accept's map for accept4 and in getsockopt's for both getdents, key (0, 0, low half of the timestamp) for socketpair |
| EventStream.DockerEventData.Callback | src/tracepoint/tracepoint.cpp:320-384 | the records parsed are the newline-terminated ones of buffer and chunk, the buffer keeps the tail, and the updates started are those of the parsed container actions, whichever records fail to parse |
| EventStream.TriggersAre | src/tracepoint/tracepoint.cpp:343-365 | one update for every record that parses and reports one of the actions for a container, in order, and no other |
| EventStream.FramingUnique | src/lsm/enforcement.cpp:652-706 | records and tail are the one and only way to write the stream as newline-free records, each with its newline, and a newline-free rest |
| EventStream.ChunkInvariant | src/tracepoint/tracepoint.cpp:320-384 | however the stream is cut into chunks, the records handed over are those of the whole stream and the retained buffer is its tail |
| EventStream.UpdatesChunkInvariant | src/lsm/enforcement.cpp:652-706 | so are the policy updates started |
| EventStream.Cut | src/tracepoint/tracepoint.cpp:320-384 | cutting a stream anywhere loses, adds and reorders no record |
| SingleFlight.AtMostOneUpdate | src/tracepoint/tracepoint.cpp:255-306 | over every interleaving of any number of threads: at most one is updating, the flag is set exactly while one is, and the mutex is held exactly while it works in the loop |
| SingleFlight.StepExclusive | src/lsm/enforcement.cpp:618-641 | every step, and so every exit by success, abort or exception, keeps that |
| SingleFlight.UpdaterCanStep | src/tracepoint/tracepoint.cpp:262-301 | the updating thread can always take a step of its own |
| SingleFlight.SomeThreadCanStep | src/tracepoint/tracepoint.cpp:508-523 | some thread can step whenever one is not idle |
| SingleFlight.TracepointWindsDown | src/tracepoint/tracepoint.cpp:264-296 | after the exit signal every own step of a tracepoint thread lowers a bound on what it still does |
| SingleFlight.LsmRetriesForever | src/lsm/enforcement.cpp:627-635 | a run of the LSM program from the start in which the exit signal is followed by any number of failing attempts |
| MissedChanges.StaleExactly | src/tracepoint/tracepoint.cpp:255-306 | in every reachable state the policy in force is out of date if and only if some change was read by no attempt that succeeded |
| MissedChanges.MissedExactly | src/tracepoint/tracepoint.cpp:255-306 | for every run that has come to rest: the policy in force is out of date if and only if the request for some change was turned away and nobody read the world after the change, or an update after it ended by exception or exit signal and no attempt that read the world after it succeeded |
| MissedChanges.AChangeCanBeMissed | src/tracepoint/tracepoint.cpp:257-261 | a run of two threads after which everything is at rest and a change is not installed |
| ObjectCursor.Object.Find | src/include/reflect-cpp/include/rfl/Object.hpp:211-225 | the first hit going round from the cursor, with the exact number of comparisons and the new cursor |
| ObjectCursor.Object.Insert | src/include/reflect-cpp/include/rfl/Object.hpp:97-107 | appends, even a name that is there, and puts the cursor at 0 |
| ObjectCursor.Object.InsertAll | src/include/reflect-cpp/include/rfl/Object.hpp:110-114 | appends all, in order |
| ObjectCursor.Object.Index | src/include/reflect-cpp/include/rfl/Object.hpp:156-175 | the field of that name, found with nothing else changed or appended blank with the cursor at 0 |
| ObjectCursor.Object.Assign | src/include/reflect-cpp/include/rfl/Object.hpp:156-175 | writing through the reference |
| ObjectCursor.Object.Clear | src/include/reflect-cpp/include/rfl/Object.hpp:178-181 | empties and resets the cursor |
| ObjectCursor.Object.Get | src/include/reflect-cpp/include/rfl/Object.hpp:184-208 | the value, or the error of a missing name |
| ObjectCursor.LookupAgrees | src/include/reflect-cpp/include/rfl/Object.hpp:202-225 | with distinct names, a lookup from any cursor gives what the association map holds |
| ObjectCursor.HistoryAgrees | src/include/reflect-cpp/include/rfl/Object.hpp:97-225 | over any history that inserts only new names, all answers are those of an association map |
| ObjectCursor.StepAgrees | src/include/reflect-cpp/include/rfl/Object.hpp:97-225 | each operation keeps the names distinct and the cursor within the size, and updates the association map |
| ObjectCursor.CursorIrrelevantExactly | src/include/reflect-cpp/include/rfl/Object.hpp:211-225 | lookups are independent of the cursor if and only if equal names have equal values |
| ObjectCursor.CostBounds | src/include/reflect-cpp/include/rfl/Object.hpp:211-225 | no search costs more than n comparisons, an absent name costs exactly n |
| ObjectCursor.PassesAreLinear | src/include/reflect-cpp/include/rfl/Object.hpp:211-231 | reading all n names in the order of insertion, any number of times over, costs exactly n per pass |
| LossAccounting.RawTracepoint.SysEnter | src/raw_tracepoint/raw_tracepoint.bpf.c:159-227 | one call that nothing interrupts: the counters and the record it leaves |
| LossAccounting.RawTracepoint.SysEnters | src/raw_tracepoint/raw_tracepoint.bpf.c:159-227 | any number of calls one after the other, from zeroed counters, leave exactly the counters and records of the serial run |
| LossAccounting.CountersMean | src/raw_tracepoint/raw_tracepoint.bpf.c:117-169 | calls one at a time: cnt is the number of calls, err_cnt that of failed reservations, and cnt = submitted + err_cnt |
| LossAccounting.LogIsStamped | src/raw_tracepoint/raw_tracepoint.bpf.c:167-169 | every record carries its own place in the run and the number of failures before it, ascending |
| LossAccounting.SortedUnique | src/raw_tracepoint/log/check_missing_events.py:82 | ascending, with exactly the numbers of the list |
| LossAccounting.Gaps | src/raw_tracepoint/log/check_missing_events.py:54-59 | ascending, exactly the numbers of the range that are not in the set |
| LossAccounting.MissingExactly | src/raw_tracepoint/log/check_missing_events.py:47-60 | calls one at a time, logs in any order: the script names exactly the calls between the first and last record whose reservation failed |
| LossAccounting.MissingCount | src/raw_tracepoint/log/check_missing_events.py:47-60 | their number is last.error_cnt - first.error_cnt |
| LossAccounting.DuplicatesOffset | src/raw_tracepoint/log/check_missing_events.py:6-11 | for any list of numbers, missing less duplicates is the span less the list's length |
| OverlappingCalls.CountsBalance | src/raw_tracepoint/raw_tracepoint.bpf.c:159-227 | over every interleaving of calls: cnt = submitted + err_cnt + calls under way, so cnt = submitted + err_cnt exactly when none is, and then every number is that of one call, failed or granted |
| OverlappingCalls.LossesBalance | src/raw_tracepoint/log/check_missing_events.py:6-60 | over every interleaving, once no call is under way: err_cnt = missing - duplicates + the numbers before the first and after the last one logged |
| OverlappingCalls.UninterruptedCall | src/raw_tracepoint/raw_tracepoint.bpf.c:159-227 | the one-at-a-time call is a run of the interleaved machine |
| OverlappingCalls.SerialRun | src/raw_tracepoint/raw_tracepoint.bpf.c:159-227 | so every serial run of calls is a run of the interleaved machine with the same counters and records |
| OverlappingCalls.RecordCarriesOwnExactly | src/raw_tracepoint/raw_tracepoint.bpf.c:160-169 | over every interleaving, a record carries the number its own call took if and only if no other call counted itself between that call's counting and its reading |
| OverlappingCalls.ReportedExactly | src/raw_tracepoint/log/check_missing_events.py:47-60 | over every interleaving, the script reports a number if and only if it lies in the range of the logs and no call read its number while cnt was that number |
| OverlappingCalls.NamesTheLostExactly | src/raw_tracepoint/log/check_missing_events.py:47-60 | the script names exactly the lost calls in its range if and only if each number there was read by some call exactly if its own call got a record |
| OverlappingCalls.RightWhenNoneOvertaken | src/raw_tracepoint/log/check_missing_events.py:47-60 | in particular when no call is overtaken, however else they overlap |
| OverlappingCalls.MissingWithoutLoss | src/raw_tracepoint/raw_tracepoint.bpf.c:160-169 | a run of two CPUs without any loss after which the script reports number 2 as missing |
| OverlappingCalls.WrongCallReported | src/raw_tracepoint/raw_tracepoint.bpf.c:160-169 | a run of two CPUs in which call 3 is lost and the script reports number 2, with the right count |

## Left out

- Shutdown of the logger: the destructor sets stop_ before the last flush, so conservation and ownership are claims about the running logger.
- The pool runs one worker thread, as the constructor starts it; the round robin over several queues is not modelled.
- The raw_tracepoint event logger and its monitoring map: a buffer's role is inferred from its size there.
- Wall-clock time: the flush timeout and the three-second wait are steps that may happen at any moment.
- Kafka, curl, Docker's HTTP and JSON, YAML, regex, inotify, /proc and ring buffers themselves: their answers are parameters.
- Byte order of ports and the parsing of addresses: a rule's address, port and protocol are compared as they are stored; the source stores ports in host order and compares them with kernel fields of mixed order. Subnet masks are never consulted, here as there.
- The two map lookups of one hook (should_monitor, then match_policy) see the same map; a reload between them is not modelled.
- Map write errors and LRU eviction in the LSM policy map, rule counts above 64, strings and uid lists beyond their arrays: stated as preconditions (`PolicyTable.Fits`), which the program does not check.
- The tables of syscall and hook names, syscalls_to_string, and the hundreds of handlers that only copy arguments.
- The 32-bit flag word is a set of bit positions, on which |, & and tests for zero are union, intersection and emptiness; the 64-bit counters are unbounded.
- A moved-from rfl::Object, whose cursor may exceed its size; iterators that rename a field in place.
- Hooks.PathRename: get_process_path and the other event fields are not modelled, only the verdict and whether an event is sent.
- ArgsMaps.RoomForOccupants: threads that die inside a call keep their entry, as in the source, and count as occupants.
- SingleFlight and OverlappingCalls are step systems on values, without a class: the steps of several threads interleave within one call of update_policy_on_event or sys_enter.
- MissedChanges.MissedExactly: `version` numbers stand for the contents of the policy file and the containers, and an attempt reads both in one step; the source reads the file first and asks Docker afterwards.
- Reading the numbers out of the log files with a regular expression: the list of numbers is the input.

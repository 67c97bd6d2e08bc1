/** Reloading the tracepoint policy: rows for the new namespaces, cleared rows for those that left,
    and the kernel's view of it after any history of reloads. */
module TracepointPolicy {
  import opened Seqs
  import opened SyscallRows

  /** The map shared with the kernel and the set of namespaces the program believes it monitors. */
  datatype State = State(rows: map<nat, seq<int>>, current: set<nat>)

  const START := State(map[], {})

  /** A container with the namespace that its row is written for. */
  datatype Target = Target(ns: nat, wanted: seq<int>)

  /** One call of update_policy_with_file. `failing`: the namespaces whose map writes fail in it. */
  datatype Reload =
    | Threw
    | EmptyPolicy(failing: set<nat>)
    | NoContainer
    | Success(targets: seq<Target>, failing: set<nat>)

  ghost predicate ValidReload(r: Reload) {
    r.Success? ==> forall i :: 0 <= i < |r.targets| ==> |r.targets[i].wanted| <= SLOTS && -1 !in r.targets[i].wanted
  }

  // ----- one reload --------------------------------------------------------------------------------

  function Write(rows: map<nat, seq<int>>, failing: set<nat>, ns: nat, row: seq<int>): map<nat, seq<int>> {
    if ns in failing then rows else rows[ns := row]
  }

  function WriteTargets(rows: map<nat, seq<int>>, failing: set<nat>, targets: seq<Target>): map<nat, seq<int>>
    requires forall i :: 0 <= i < |targets| ==> |targets[i].wanted| <= SLOTS
  {
    if targets == [] then rows
    else
      var last := targets[|targets| - 1];
      Write(WriteTargets(rows, failing, targets[..|targets| - 1]), failing, last.ns, Padded(last.wanted))
  }

  function ClearRows(rows: map<nat, seq<int>>, failing: set<nat>, gone: set<nat>): map<nat, seq<int>> {
    map ns | ns in rows.Keys + (gone - failing) :: if ns in gone && ns !in failing then Padded([]) else rows[ns]
  }

  /** Exactly the rows of the given namespaces whose write succeeds become empty. */
  lemma ClearedRows(rows: map<nat, seq<int>>, failing: set<nat>, gone: set<nat>, ns: nat)
    ensures var after := ClearRows(rows, failing, gone);
            if ns in gone && ns !in failing then ns in after && after[ns] == seq(120, _ => -1)
            else (ns in after <==> ns in rows) && (ns in rows ==> after[ns] == rows[ns])
  {
    assert Padded([]) == seq(120, _ => -1);
  }

  function Namespaces(targets: seq<Target>): set<nat> {
    set i | 0 <= i < |targets| :: targets[i].ns
  }

  ghost function Next(s: State, r: Reload): State
    requires ValidReload(r)
  {
    match r
    case Threw => s
    case NoContainer => s
    case EmptyPolicy(failing) => State(ClearRows(s.rows, failing, s.current), {})
    case Success(targets, failing) =>
      var present := Namespaces(targets);
      State(ClearRows(WriteTargets(s.rows, failing, targets), failing, s.current - present), present)
  }

  // ----- what the kernel should log ------------------------------------------------------------------

  /** The list of the last container with that namespace. */
  function LastWanted(targets: seq<Target>, ns: nat): Option<seq<int>> {
    if targets == [] then None
    else if targets[|targets| - 1].ns == ns then Some(targets[|targets| - 1].wanted)
    else LastWanted(targets[..|targets| - 1], ns)
  }

  /** The list in force after one more reload; one that threw or found no container changes nothing. */
  function InForceAfter(wanted: Option<seq<int>>, r: Reload, ns: nat): Option<seq<int>> {
    match r
    case Threw => wanted
    case NoContainer => wanted
    case EmptyPolicy(_) => None
    case Success(targets, _) => LastWanted(targets, ns)
  }

  function InForce(history: seq<Reload>, ns: nat): Option<seq<int>> {
    if history == [] then None
    else InForceAfter(InForce(history[..|history| - 1], ns), history[|history| - 1], ns)
  }

  ghost function Run(history: seq<Reload>): State
    requires forall i :: 0 <= i < |history| ==> ValidReload(history[i])
  {
    if history == [] then START
    else Next(Run(history[..|history| - 1]), history[|history| - 1])
  }

  // ----- what the map holds --------------------------------------------------------------------------

  /** The namespaces the program believes it monitors; map writes that fail do not change that. */
  function Monitored(history: seq<Reload>): set<nat> {
    if history == [] then {}
    else
      match history[|history| - 1]
      case Threw => Monitored(history[..|history| - 1])
      case NoContainer => Monitored(history[..|history| - 1])
      case EmptyPolicy(_) => {}
      case Success(targets, _) => Namespaces(targets)
  }

  /** The list that a reload tries to write for the namespace, [] for a clear; None when it writes nothing. */
  function Attempted(monitored: bool, r: Reload, ns: nat): Option<seq<int>> {
    match r
    case Threw => None
    case NoContainer => None
    case EmptyPolicy(_) => if monitored then Some([]) else None
    case Success(targets, _) =>
      if LastWanted(targets, ns).Some? then LastWanted(targets, ns)
      else if monitored then Some([]) else None
  }

  predicate Fails(r: Reload, ns: nat) {
    match r
    case Threw => false
    case NoContainer => false
    case EmptyPolicy(failing) => ns in failing
    case Success(_, failing) => ns in failing
  }

  /** The list of the last write for the namespace that succeeded. */
  function LastWritten(history: seq<Reload>, ns: nat): Option<seq<int>> {
    if history == [] then None
    else
      var front, last := history[..|history| - 1], history[|history| - 1];
      var attempt := Attempted(ns in Monitored(front), last, ns);
      if attempt.Some? && !Fails(last, ns) then attempt else LastWritten(front, ns)
  }

  ghost predicate Valid(history: seq<Reload>) {
    forall i :: 0 <= i < |history| ==> ValidReload(history[i])
  }

  /** The namespace has a row exactly if a write for it has succeeded, and the row is that list. */
  ghost predicate RowIs(s: State, ns: nat, written: Option<seq<int>>) {
    && (ns in s.rows <==> written.Some?)
    && (written.Some? ==> |written.value| <= SLOTS && -1 !in written.value && s.rows[ns] == Padded(written.value))
  }

  lemma {:induction false} LastWantedIsTarget(targets: seq<Target>, ns: nat)
    ensures LastWanted(targets, ns).Some? <==> ns in Namespaces(targets)
    ensures LastWanted(targets, ns).Some? ==> Target(ns, LastWanted(targets, ns).value) in targets
  {
    if targets != [] {
      var front, last := targets[..|targets| - 1], targets[|targets| - 1];
      LastWantedIsTarget(front, ns);
      assert Namespaces(targets) == Namespaces(front) + {last.ns} by {
        forall i | 0 <= i < |front| ensures front[i] == targets[i] {}
      }
    }
  }

  lemma {:induction false} WrittenRow(rows: map<nat, seq<int>>, failing: set<nat>, targets: seq<Target>, ns: nat)
    requires forall i :: 0 <= i < |targets| ==> |targets[i].wanted| <= SLOTS
    ensures var after, list := WriteTargets(rows, failing, targets), LastWanted(targets, ns);
            if list.None? || ns in failing
            then (ns in after <==> ns in rows) && (ns in rows ==> after[ns] == rows[ns])
            else |list.value| <= SLOTS && ns in after && after[ns] == Padded(list.value)
  {
    if targets != [] {
      WrittenRow(rows, failing, targets[..|targets| - 1], ns);
    }
  }

  lemma ReloadWrites(s: State, r: Reload, ns: nat, written: Option<seq<int>>)
    requires ValidReload(r) && RowIs(s, ns, written)
    ensures var attempt := Attempted(ns in s.current, r, ns);
            RowIs(Next(s, r), ns, if attempt.Some? && !Fails(r, ns) then attempt else written)
  {
    match r
    case Success(targets, failing) =>
      LastWantedIsTarget(targets, ns);
      WrittenRow(s.rows, failing, targets, ns);
    case _ =>
  }

  /** After any history, whichever writes failed: the monitored set, and the row of every namespace. */
  lemma {:induction false} RowsAre(history: seq<Reload>, ns: nat)
    requires Valid(history)
    ensures Run(history).current == Monitored(history)
    ensures RowIs(Run(history), ns, LastWritten(history, ns))
  {
    if history != [] {
      var front := history[..|history| - 1];
      RowsAre(front, ns);
      ReloadWrites(Run(front), history[|history| - 1], ns, LastWritten(front, ns));
    }
  }

  // ----- when the map agrees with the policy ---------------------------------------------------------

  /** The row of the namespace is the list in force, and a namespace with a non-empty row is one that
      the program knows it has to clear. */
  ghost predicate Agrees(s: State, ns: nat, wanted: Option<seq<int>>) {
    match wanted
    case None => ns !in s.current && (ns in s.rows ==> s.rows[ns] == Padded([]))
    case Some(list) => |list| <= SLOTS && ns in s.current && ns in s.rows && s.rows[ns] == Padded(list)
  }

  lemma {:induction false} InForceIsMonitored(history: seq<Reload>, ns: nat)
    requires Valid(history)
    ensures InForce(history, ns).Some? <==> ns in Monitored(history)
    ensures InForce(history, ns).Some? ==> |InForce(history, ns).value| <= SLOTS && -1 !in InForce(history, ns).value
  {
    if history != [] {
      InForceIsMonitored(history[..|history| - 1], ns);
      match history[|history| - 1]
      case Success(targets, _) => LastWantedIsTarget(targets, ns);
      case _ =>
    }
  }

  lemma PaddedInjective(a: seq<int>, b: seq<int>)
    requires |a| <= SLOTS && |b| <= SLOTS && -1 !in a && -1 !in b && Padded(a) == Padded(b)
    ensures a == b
  {
    PaddedPrefix(a, b);
    PaddedPrefix(b, a);
  }

  lemma PaddedPrefix(a: seq<int>, b: seq<int>)
    requires |a| <= SLOTS && |b| <= SLOTS && -1 !in a && Padded(a) == Padded(b)
    ensures a <= b
  {
    assert |b| < SLOTS ==> Padded(b)[|b|] == -1;
    assert forall i :: 0 <= i < |a| ==> Padded(a)[i] == a[i] && a[i] in a;
    assert forall i :: 0 <= i < |a| && i < |b| ==> Padded(b)[i] == b[i];
  }

  /** The last write that succeeded wrote the list in force, or cleared the row when no list is in force. */
  predicate WrittenIsInForce(history: seq<Reload>, ns: nat) {
    || LastWritten(history, ns) == InForce(history, ns)
    || (InForce(history, ns).None? && LastWritten(history, ns) == Some([]))
  }

  /** After any history, row and policy in force agree if and only if the last write that succeeded for
      the namespace is the list in force, or no list is in force and it was a clear or there was none. */
  lemma AgreesExactly(history: seq<Reload>, ns: nat)
    requires Valid(history)
    ensures Agrees(Run(history), ns, InForce(history, ns)) <==>
            WrittenIsInForce(history, ns)
  {
    RowsAre(history, ns);
    InForceIsMonitored(history, ns);
    var written, wanted := LastWritten(history, ns), InForce(history, ns);
    if written.Some? && Padded(written.value) == Padded(if wanted.Some? then wanted.value else []) {
      PaddedInjective(written.value, if wanted.Some? then wanted.value else []);
    }
  }

  function Listed(list: Option<seq<int>>, id: int): bool {
    list.Some? && id in list.value
  }

  /** What should_log_event answers after a history. */
  ghost predicate Logged(history: seq<Reload>, ns: nat, id: int)
    requires Valid(history)
  {
    ns in Run(history).rows && Scan(Run(history).rows[ns], id)
  }

  /** After any history of successful, failed, empty and throwing reloads, whichever writes failed: the
      kernel logs a syscall id exactly if the last successful write for the namespace listed it. */
  lemma KernelLogsLastWritten(history: seq<Reload>, ns: nat, id: int)
    requires Valid(history) && id >= 0
    ensures Logged(history, ns, id) <==> Listed(LastWritten(history, ns), id)
  {
    RowsAre(history, ns);
    ScanFindsListed(if LastWritten(history, ns).Some? then LastWritten(history, ns).value else [], id);
  }

  /** So the kernel logs what the policy in force asks for, on all syscall ids, exactly if that write and
      the policy list the same ids. */
  lemma KernelAgreesExactly(history: seq<Reload>, ns: nat)
    requires Valid(history)
    ensures (forall id :: id >= 0 ==> (Logged(history, ns, id) <==> Listed(InForce(history, ns), id))) <==>
            (forall id :: id >= 0 ==> (Listed(LastWritten(history, ns), id) <==> Listed(InForce(history, ns), id)))
  {
    forall id: int | id >= 0 ensures Logged(history, ns, id) <==> Listed(LastWritten(history, ns), id) {
      KernelLogsLastWritten(history, ns, id);
    }
  }

  /** No write for the namespace has failed since the list in force was to be written. */
  predicate UpToDate(history: seq<Reload>, ns: nat) {
    history == [] ||
    (var front, last := history[..|history| - 1], history[|history| - 1];
     if Attempted(ns in Monitored(front), last, ns).Some? then !Fails(last, ns) else UpToDate(front, ns))
  }

  /** One later write that succeeds repairs whatever failed before it. */
  lemma {:induction false} UpToDateAgrees(history: seq<Reload>, ns: nat)
    requires Valid(history) && UpToDate(history, ns)
    ensures WrittenIsInForce(history, ns)
    ensures Agrees(Run(history), ns, InForce(history, ns))
  {
    if history != [] {
      var front, last := history[..|history| - 1], history[|history| - 1];
      InForceIsMonitored(front, ns);
      if Attempted(ns in Monitored(front), last, ns).None? {
        UpToDateAgrees(front, ns);
      }
    }
    AgreesExactly(history, ns);
  }

  /** No write for the namespace ever failed. */
  ghost predicate Untouched(history: seq<Reload>, ns: nat) {
    forall i :: 0 <= i < |history| ==> !Fails(history[i], ns)
  }

  lemma {:induction false} UntouchedIsUpToDate(history: seq<Reload>, ns: nat)
    requires Untouched(history, ns)
    ensures UpToDate(history, ns)
  {
    if history != [] {
      UntouchedIsUpToDate(history[..|history| - 1], ns);
    }
  }

  /** The kernel agrees with the policy in force whenever the last write attempted for the namespace
      succeeded, in particular when no write for it ever failed. */
  lemma KernelAgreesWithPolicy(history: seq<Reload>, ns: nat, id: int)
    requires Valid(history) && id >= 0
    ensures Untouched(history, ns) ==> UpToDate(history, ns)
    ensures UpToDate(history, ns) ==> (Logged(history, ns, id) <==> Listed(InForce(history, ns), id))
  {
    if Untouched(history, ns) {
      UntouchedIsUpToDate(history, ns);
    }
    if UpToDate(history, ns) {
      UpToDateAgrees(history, ns);
      KernelLogsLastWritten(history, ns, id);
    }
  }

  /** The id -1 is logged although no policy can list it: exactly in the namespaces that have a row,
      unless the row has 120 ids. */
  lemma MinusOneIsLogged(history: seq<Reload>, ns: nat)
    requires Valid(history)
    ensures Logged(history, ns, -1) <==> LastWritten(history, ns).Some? && |LastWritten(history, ns).value| < SLOTS
  {
    RowsAre(history, ns);
    ScanFindsListed(if LastWritten(history, ns).Some? then LastWritten(history, ns).value else [], -1);
  }

  /** A reload that writes a list for the namespace. */
  predicate Names(r: Reload, ns: nat) {
    r.Success? && LastWanted(r.targets, ns).Some?
  }

  /** A clear that fails is never repeated: the row it leaves stays through every later history that
      does not name the namespace. */
  lemma {:induction false} FailedClearStays(history: seq<Reload>, later: seq<Reload>, ns: nat)
    requires ns !in Monitored(history) && forall i :: 0 <= i < |later| ==> !Names(later[i], ns)
    ensures ns !in Monitored(history + later)
    ensures LastWritten(history + later, ns) == LastWritten(history, ns)
    decreases |later|
  {
    if later == [] {
      assert history + later == history;
    } else {
      var front, last := later[..|later| - 1], later[|later| - 1];
      var all := history + later;
      assert all[..|all| - 1] == history + front && all[|all| - 1] == last;
      FailedClearStays(history, front, ns);
      if last.Success? {
        LastWantedIsTarget(last.targets, ns);
      }
    }
  }

  /** Two reloads get there: the policy lists some ids, then it is emptied and the clear fails. From then
      on, through every later history that does not name the namespace, no list is in force and the kernel
      logs exactly the old ids. */
  lemma StaleRowIsReached(ns: nat, list: seq<int>, later: seq<Reload>, id: int)
    requires |list| <= SLOTS && -1 !in list && id >= 0
    requires forall i :: 0 <= i < |later| ==> ValidReload(later[i]) && !Names(later[i], ns)
    ensures var history := [Success([Target(ns, list)], {}), EmptyPolicy({ns})] + later;
      && Valid(history) && InForce(history, ns).None?
      && (Logged(history, ns, id) <==> id in list)
  {
    var targets := [Target(ns, list)];
    var first := [Success(targets, {})];
    var start := [Success(targets, {}), EmptyPolicy({ns})];
    assert start[..1] == first && first[..0] == [];
    assert LastWanted(targets, ns) == Some(list);
    LastWantedIsTarget(targets, ns);
    assert LastWritten(first, ns) == Some(list);
    assert LastWritten(start, ns) == Some(list) && Monitored(start) == {};
    FailedClearStays(start, later, ns);
    assert Valid(start + later);
    InForceIsMonitored(start + later, ns);
    KernelLogsLastWritten(start + later, ns, id);
  }
}

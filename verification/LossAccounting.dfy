/** The counters of the raw tracepoint and the script that looks for lost events in its logs. */
module LossAccounting {

  /** What sys_enter stamps on a record: the failures counted so far and the running number. */
  datatype Record = Record(cnt: nat, errorCnt: nat)

  /** The two global counters, and the records submitted so far. */
  datatype Shared = Shared(cnt: nat, errorCnt: nat, log: seq<Record>)

  const ZERO := Shared(0, 0, [])

  // ----- one call at a time --------------------------------------------------------------------------

  /** A whole call; `reserved` says whether the ring buffer had room. */
  function Call(s: Shared, reserved: bool): Shared {
    if reserved then Shared(s.cnt + 1, s.errorCnt, s.log + [Record(s.cnt + 1, s.errorCnt)])
    else s.(cnt := s.cnt + 1, errorCnt := s.errorCnt + 1)
  }

  function After(outcomes: seq<bool>): Shared {
    if outcomes == [] then ZERO
    else Call(After(outcomes[..|outcomes| - 1]), outcomes[|outcomes| - 1])
  }

  function Failures(outcomes: seq<bool>): nat {
    if outcomes == [] then 0
    else Failures(outcomes[..|outcomes| - 1]) + if outcomes[|outcomes| - 1] then 0 else 1
  }

  /** Every record carries its own place in the run and the number of failures before it. */
  ghost predicate Stamped(outcomes: seq<bool>, r: Record) {
    1 <= r.cnt <= |outcomes| && outcomes[r.cnt - 1] && r.errorCnt == Failures(outcomes[..r.cnt])
  }

  lemma {:induction false} CountersMean(outcomes: seq<bool>)
    ensures After(outcomes).cnt == |outcomes|
    ensures After(outcomes).errorCnt == Failures(outcomes)
    ensures After(outcomes).cnt == |After(outcomes).log| + After(outcomes).errorCnt
  {
    if outcomes != [] {
      CountersMean(outcomes[..|outcomes| - 1]);
    }
  }

  lemma {:induction false} LogIsStamped(outcomes: seq<bool>)
    ensures forall k :: 0 <= k < |After(outcomes).log| ==> Stamped(outcomes, After(outcomes).log[k])
    ensures forall j, k :: 0 <= j < k < |After(outcomes).log| ==>
              After(outcomes).log[j].cnt < After(outcomes).log[k].cnt
  {
    if outcomes != [] {
      var n := |outcomes| - 1;
      var before := outcomes[..n];
      LogIsStamped(before);
      CountersMean(before);
      assert outcomes[..n + 1] == outcomes;
      forall k | 0 <= k < |After(before).log| ensures Stamped(outcomes, After(before).log[k]) {
        var c := After(before).log[k].cnt;
        assert Stamped(before, After(before).log[k]) && outcomes[..c] == before[..c];
      }
    }
  }

  lemma {:induction false} LogHasEverySuccess(outcomes: seq<bool>, n: nat)
    requires 1 <= n <= |outcomes| && outcomes[n - 1]
    ensures exists k :: 0 <= k < |After(outcomes).log| && After(outcomes).log[k].cnt == n
  {
    var before := outcomes[..|outcomes| - 1];
    CountersMean(before);
    if n == |outcomes| {
      assert After(outcomes).log[|After(before).log|].cnt == n;
    } else {
      LogHasEverySuccess(before, n);
      var k :| 0 <= k < |After(before).log| && After(before).log[k].cnt == n;
      assert After(outcomes).log[k].cnt == n;
    }
  }

  // ----- the script ------------------------------------------------------------------------------------

  ghost predicate Ascending(s: seq<int>) {
    forall j, k :: 0 <= j < k < |s| ==> s[j] < s[k]
  }

  function Insert(x: int, s: seq<int>): (r: seq<int>)
    ensures forall n :: n in r <==> n == x || n in s
  {
    if s == [] || x < s[0] then [x] + s
    else if x == s[0] then s
    else [s[0]] + Insert(x, s[1..])
  }

  lemma AscendingFront(x: int, s: seq<int>)
    requires Ascending(s) && forall n :: n in s ==> x < n
    ensures Ascending([x] + s)
  {
    forall j, k | 0 <= j < k < |[x] + s| ensures ([x] + s)[j] < ([x] + s)[k] {
      assert s[k - 1] in s;
    }
  }

  lemma {:induction false} InsertAscending(x: int, s: seq<int>)
    requires Ascending(s)
    ensures Ascending(Insert(x, s))
  {
    if s == [] || x < s[0] {
      AscendingFront(x, s);
    } else if x > s[0] {
      InsertAscending(x, s[1..]);
      AscendingFront(s[0], Insert(x, s[1..]));
    }
  }

  /** sorted(set(cnts)) */
  function SortedUnique(cnts: seq<int>): (r: seq<int>)
    ensures Ascending(r)
    ensures forall n :: n in r <==> n in cnts
  {
    if cnts == [] then []
    else
      var rest := SortedUnique(cnts[1..]);
      InsertAscending(cnts[0], rest);
      Insert(cnts[0], rest)
  }

  function Elements(cnts: seq<int>): set<int> {
    set n | n in cnts
  }

  /** sorted(expected - actual) for the range from start to end. */
  function Gaps(start: int, end: int, actual: set<int>): (r: seq<int>)
    ensures Ascending(r)
    ensures forall n :: n in r <==> start <= n <= end && n !in actual
    decreases end - start + 1
  {
    if start > end then []
    else
      var rest := Gaps(start + 1, end, actual);
      if start in actual then rest
      else
        AscendingFront(start, rest);
        [start] + rest
  }

  function FindMissingCnts(sortedCnts: seq<int>): seq<int> {
    if sortedCnts == [] then [] else Gaps(sortedCnts[0], sortedCnts[|sortedCnts| - 1], Elements(sortedCnts))
  }

  function CountDuplicateCnts(cnts: seq<int>): int {
    |cnts| - |Elements(cnts)|
  }

  /** The report for the numbers of all log files together, in whatever order they come. */
  function Missing(cnts: seq<int>): seq<int> {
    FindMissingCnts(SortedUnique(cnts))
  }

  ghost predicate Spans(cnts: seq<int>, first: int, last: int) {
    first in cnts && last in cnts && forall k :: 0 <= k < |cnts| ==> first <= cnts[k] <= last
  }

  lemma MissingIsGaps(cnts: seq<int>, first: int, last: int)
    requires Spans(cnts, first, last)
    ensures Missing(cnts) == Gaps(first, last, Elements(cnts))
  {
    var s := SortedUnique(cnts);
    assert first in s && last in s;
    var a :| 0 <= a < |s| && s[a] == first;
    var b :| 0 <= b < |s| && s[b] == last;
    assert s[0] in cnts && s[|s| - 1] in cnts;
    assert s[0] == first && s[|s| - 1] == last;
    assert Elements(s) == Elements(cnts);
  }

  // ----- what the report means --------------------------------------------------------------------------

  lemma {:induction false} GapsCountFailures(outcomes: seq<bool>, start: int, end: int, actual: set<int>)
    requires 1 <= start <= end + 1 <= |outcomes| + 1
    requires forall n :: start <= n <= end ==> (n in actual <==> outcomes[n - 1])
    ensures |Gaps(start, end, actual)| == Failures(outcomes[..end]) - Failures(outcomes[..start - 1])
    decreases end - start + 1
  {
    if start <= end {
      GapsCountFailures(outcomes, start + 1, end, actual);
      assert outcomes[..start][..start - 1] == outcomes[..start - 1];
    }
  }

  function Numbers(log: seq<Record>): (r: seq<int>)
    ensures |r| == |log| && forall k :: 0 <= k < |log| ==> r[k] == log[k].cnt
  {
    seq(|log|, k requires 0 <= k < |log| => log[k].cnt)
  }

  /** The logs hold the numbers of these records, in any order and however often. */
  ghost predicate Logged(log: seq<Record>, cnts: seq<int>) {
    Elements(cnts) == Elements(Numbers(log))
  }

  predicate Succeeded(outcomes: seq<bool>, n: int) {
    1 <= n <= |outcomes| && outcomes[n - 1]
  }

  predicate Lost(outcomes: seq<bool>, n: int) {
    1 <= n <= |outcomes| && !outcomes[n - 1]
  }

  lemma RecordSucceeded(outcomes: seq<bool>, k: nat)
    requires k < |After(outcomes).log|
    ensures Succeeded(outcomes, After(outcomes).log[k].cnt)
  {
    LogIsStamped(outcomes);
    assert Stamped(outcomes, After(outcomes).log[k]);
  }

  lemma LoggedExactly(outcomes: seq<bool>, cnts: seq<int>, n: int)
    requires Logged(After(outcomes).log, cnts)
    ensures n in Elements(cnts) <==> Succeeded(outcomes, n)
  {
    var log := After(outcomes).log;
    if n in Elements(cnts) {
      assert n in Numbers(log);
      var k :| 0 <= k < |log| && Numbers(log)[k] == n;
      RecordSucceeded(outcomes, k);
    }
    if Succeeded(outcomes, n) {
      LogHasEverySuccess(outcomes, n);
      var k :| 0 <= k < |log| && log[k].cnt == n;
      assert Numbers(log)[k] in Elements(Numbers(log));
    }
  }

  /** The first and the last record. */
  lemma LogEnds(outcomes: seq<bool>, cnts: seq<int>) returns (first: Record, last: Record)
    requires After(outcomes).log != [] && Logged(After(outcomes).log, cnts)
    ensures first == After(outcomes).log[0] && last == After(outcomes).log[|After(outcomes).log| - 1]
    ensures Stamped(outcomes, first) && Stamped(outcomes, last) && first.cnt <= last.cnt
    ensures Spans(cnts, first.cnt, last.cnt)
  {
    var log := After(outcomes).log;
    first, last := log[0], log[|log| - 1];
    LogIsStamped(outcomes);
    assert Numbers(log)[0] in Elements(cnts) && Numbers(log)[|log| - 1] in Elements(cnts);
    forall k | 0 <= k < |cnts| ensures first.cnt <= cnts[k] <= last.cnt {
      assert cnts[k] in Elements(Numbers(log));
      var j :| 0 <= j < |log| && Numbers(log)[j] == cnts[k];
    }
  }

  /** When calls do not overlap, the script names exactly the calls between the first and the last
      record whose reservation failed. */
  lemma MissingExactly(outcomes: seq<bool>, cnts: seq<int>, n: int)
    requires After(outcomes).log != [] && Logged(After(outcomes).log, cnts)
    ensures var log := After(outcomes).log;
      n in Missing(cnts) <==> log[0].cnt < n < log[|log| - 1].cnt && Lost(outcomes, n)
  {
    var first, last := LogEnds(outcomes, cnts);
    MissingIsGaps(cnts, first.cnt, last.cnt);
    LoggedExactly(outcomes, cnts, n);
    LoggedExactly(outcomes, cnts, first.cnt);
    LoggedExactly(outcomes, cnts, last.cnt);
  }

  /** Their number is the difference of the error counts on the last and the first record. */
  lemma MissingCount(outcomes: seq<bool>, cnts: seq<int>)
    requires After(outcomes).log != [] && Logged(After(outcomes).log, cnts)
    ensures var log := After(outcomes).log;
      |Missing(cnts)| == log[|log| - 1].errorCnt - log[0].errorCnt
  {
    var first, last := LogEnds(outcomes, cnts);
    MissingIsGaps(cnts, first.cnt, last.cnt);
    forall n ensures n in Elements(cnts) <==> Succeeded(outcomes, n) {
      LoggedExactly(outcomes, cnts, n);
    }
    GapsBetween(outcomes, first.cnt, last.cnt, Elements(cnts));
  }

  lemma GapsBetween(outcomes: seq<bool>, first: nat, last: nat, actual: set<int>)
    requires Succeeded(outcomes, first) && first <= last <= |outcomes|
    requires forall n :: n in actual <==> Succeeded(outcomes, n)
    ensures |Gaps(first, last, actual)| == Failures(outcomes[..last]) - Failures(outcomes[..first])
  {
    GapsCountFailures(outcomes, first, last, actual);
    assert outcomes[..first][..first - 1] == outcomes[..first - 1];
  }

  // ----- missing numbers and duplicates -----------------------------------------------------------------

  lemma {:induction false} GapsAndElements(start: int, end: int, actual: set<int>)
    requires start <= end + 1 && forall n :: n in actual ==> start <= n <= end
    ensures |Gaps(start, end, actual)| + |actual| == end - start + 1
    decreases end - start + 1
  {
    if start > end {
      assert forall n :: n !in actual;
      assert actual == {};
    } else if start in actual {
      GapsAndElements(start + 1, end, actual - {start});
      SameGaps(start + 1, end, actual, actual - {start});
    } else {
      GapsAndElements(start + 1, end, actual);
    }
  }

  lemma {:induction false} SameGaps(start: int, end: int, a: set<int>, b: set<int>)
    requires forall n :: start <= n <= end ==> (n in a <==> n in b)
    ensures Gaps(start, end, a) == Gaps(start, end, b)
    decreases end - start + 1
  {
    if start <= end {
      SameGaps(start + 1, end, a, b);
    }
  }

  lemma DuplicatesOffset(cnts: seq<int>, first: int, last: int)
    requires Spans(cnts, first, last)
    ensures |Missing(cnts)| - CountDuplicateCnts(cnts) == last - first + 1 - |cnts|
  {
    MissingIsGaps(cnts, first, last);
    GapsAndElements(first, last, Elements(cnts));
  }

  lemma NumberOf(cnts: seq<int>, numbers: seq<int>, n: int)
    requires multiset(cnts) == multiset(numbers) && n in cnts
    ensures exists k :: 0 <= k < |numbers| && numbers[k] == n
  {
    assert n in multiset(numbers);
  }

  // ----- the program -----------------------------------------------------------------------------------------

  /** The counters as the program keeps them; the calls of one CPU follow each other. */
  class RawTracepoint {
    var cnt: nat
    var errCnt: nat
    var log: seq<Record>

    ghost function Value(): Shared
      reads this
    {
      Shared(cnt, errCnt, log)
    }

    constructor ()
      ensures Value() == ZERO
    {
      cnt, errCnt, log := 0, 0, [];
    }

    method SysEnter(room: bool)
      modifies this
      ensures Value() == Call(old(Value()), room)
      ensures cnt == old(cnt) + 1 && errCnt == old(errCnt) + if room then 0 else 1
      ensures log == if room then old(log) + [Record(cnt, errCnt)] else old(log)
    {
      cnt := cnt + 1;
      if !room {
        errCnt := errCnt + 1;
        return;
      }
      var errorCnt := errCnt;
      log := log + [Record(cnt, errorCnt)];
    }

    /** A whole run of calls, one at a time. */
    method SysEnters(outcomes: seq<bool>)
      requires Value() == ZERO
      modifies this
      ensures Value() == After(outcomes)
    {
      var k := 0;
      while k < |outcomes|
        invariant 0 <= k <= |outcomes| && Value() == After(outcomes[..k])
      {
        assert outcomes[..k + 1][..k] == outcomes[..k];
        SysEnter(outcomes[k]);
        k := k + 1;
      }
      assert outcomes[..k] == outcomes;
    }
  }
}

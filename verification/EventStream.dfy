/** The newline framing of Docker's event stream, which arrives in chunks of any size. */
module EventStream {
  import opened Seqs

  const NEWLINE: char := '\n'

  /** Position of the first newline at or after `pos`, or the length when there is none. */
  function Find(s: string, pos: nat): (r: nat)
    requires pos <= |s|
    ensures pos <= r <= |s|
    ensures forall i :: pos <= i < r ==> s[i] != NEWLINE
    ensures r < |s| ==> s[r] == NEWLINE
    decreases |s| - pos
  {
    if pos == |s| || s[pos] == NEWLINE then pos else Find(s, pos + 1)
  }

  /** The newline-terminated records of a stream, without their newlines. */
  function Records(s: string): seq<string> {
    var n := Find(s, 0);
    if n == |s| then [] else [s[..n]] + Records(s[n + 1..])
  }

  /** What follows the last newline. */
  function Tail(s: string): string {
    var n := Find(s, 0);
    if n == |s| then s else Tail(s[n + 1..])
  }

  // ----- what records and tail are -------------------------------------------------------------------

  function Join(records: seq<string>): string {
    if records == [] then "" else records[0] + [NEWLINE] + Join(records[1..])
  }

  ghost predicate NewlineFree(s: string) {
    forall i :: 0 <= i < |s| ==> s[i] != NEWLINE
  }

  /** The stream is these records, each ended by its newline, and this newline-free tail. */
  ghost predicate IsFraming(s: string, records: seq<string>, tail: string) {
    && s == Join(records) + tail && NewlineFree(tail)
    && forall i :: 0 <= i < |records| ==> NewlineFree(records[i])
  }

  lemma FindIs(s: string, n: nat)
    requires n <= |s| && NewlineFree(s[..n]) && (n < |s| ==> s[n] == NEWLINE)
    ensures Find(s, 0) == n
  {
    forall i | 0 <= i < n ensures s[i] != NEWLINE {
      assert s[..n][i] != NEWLINE;
    }
  }

  lemma FrameFirst(s: string, n: nat, records: seq<string>, tail: string)
    requires n < |s| && s[n] == NEWLINE && NewlineFree(s[..n]) && IsFraming(s[n + 1..], records, tail)
    ensures IsFraming(s, [s[..n]] + records, tail)
  {
    var all, head, j := [s[..n]] + records, s[..n], Join(records);
    assert all[0] == head && all[1..] == records;
    assert s == head + ([NEWLINE] + s[n + 1..]);
    assert head + ([NEWLINE] + (j + tail)) == (head + [NEWLINE] + j) + tail;
  }

  lemma {:induction false} FramesItself(s: string)
    ensures IsFraming(s, Records(s), Tail(s))
    decreases |s|
  {
    var n := Find(s, 0);
    if n < |s| {
      FramesItself(s[n + 1..]);
      FrameFirst(s, n, Records(s[n + 1..]), Tail(s[n + 1..]));
    }
  }

  lemma {:induction false} FramingIs(s: string, records: seq<string>, tail: string)
    requires IsFraming(s, records, tail)
    ensures records == Records(s) && tail == Tail(s)
    decreases |records|
  {
    if records == [] {
      assert s == tail && s[..|s|] == s;
      FindIs(s, |s|);
    } else {
      var head, rest := records[0], Join(records[1..]) + tail;
      assert s == head + ([NEWLINE] + rest) by {
        var j := Join(records[1..]);
        assert (head + [NEWLINE] + j) + tail == head + ([NEWLINE] + (j + tail));
      }
      assert s[..|head|] == head && s[|head| + 1..] == rest;
      FindIs(s, |head|);
      FramingIs(rest, records[1..], tail);
    }
  }

  /** Records and Tail are the one and only framing. */
  lemma FramingUnique(s: string, records: seq<string>, tail: string)
    ensures IsFraming(s, records, tail) <==> records == Records(s) && tail == Tail(s)
  {
    FramesItself(s);
    if IsFraming(s, records, tail) {
      FramingIs(s, records, tail);
    }
  }

  /** The first record and what follows it. */
  lemma FirstRecord(s: string, json: string, after: string)
    requires NewlineFree(json) && s == json + [NEWLINE] + after
    ensures Records(s) == [json] + Records(after) && Tail(s) == Tail(after)
  {
    assert s[..|json|] == json && s[|json| + 1..] == after;
    FindIs(s, |json|);
  }

  lemma NoRecord(s: string)
    requires NewlineFree(s)
    ensures Records(s) == [] && Tail(s) == s
  {
    assert s[..|s|] == s;
    FindIs(s, |s|);
  }

  lemma SplitRest(s: string, pos: nat, n: nat)
    requires pos <= n < |s| && s[n] == NEWLINE
    ensures s[pos..] == s[pos..n] + [NEWLINE] + s[n + 1..]
  {
  }

  /** The records taken so far, with what is still behind `pos`, frame the stream. */
  ghost predicate Taken(s: string, pos: nat, records: seq<string>) {
    pos <= |s| && Records(s) == records + Records(s[pos..]) && Tail(s) == Tail(s[pos..])
  }

  lemma TakeNext(s: string, pos: nat, records: seq<string>, n: nat)
    requires Taken(s, pos, records) && n == Find(s, pos) && n < |s|
    ensures Taken(s, n + 1, records + [s[pos..n]])
  {
    RestRecords(s, pos, n);
    Shift(Records(s), records, Records(s[pos..]), s[pos..n], Records(s[n + 1..]));
  }

  lemma Shift<T>(all: seq<T>, taken: seq<T>, rest: seq<T>, next: T, after: seq<T>)
    requires all == taken + rest && rest == [next] + after
    ensures all == (taken + [next]) + after
  {
  }

  lemma RestRecords(s: string, pos: nat, n: nat)
    requires pos <= n < |s| && n == Find(s, pos)
    ensures Records(s[pos..]) == [s[pos..n]] + Records(s[n + 1..]) && Tail(s[pos..]) == Tail(s[n + 1..])
  {
    SplitRest(s, pos, n);
    FirstRecord(s[pos..], s[pos..n], s[n + 1..]);
  }

  lemma TakenAll(s: string, pos: nat, records: seq<string>)
    requires Taken(s, pos, records) && Find(s, pos) == |s|
    ensures Records(s) == records && Tail(s) == s[pos..]
  {
    NoRecord(s[pos..]);
    assert records + [] == records;
  }

  // ----- the callback ------------------------------------------------------------------------------

  /** What parsing a record gives: its Type and Action, or an exception. */
  datatype Parsed = Failed | Event(kind: string, action: string)

  type Parser = string -> Parsed

  /** The actions that make the callback start a policy update. */
  function Triggers(records: seq<string>, parse: Parser, actions: set<string>): seq<string> {
    if records == [] then []
    else
      var last := records[|records| - 1];
      Triggers(records[..|records| - 1], parse, actions)
      + match parse(last)
        case Failed => []
        case Event(kind, action) => if kind == "container" && action in actions then [action] else []
  }

  lemma TriggersSnoc(records: seq<string>, json: string, parse: Parser, actions: set<string>)
    ensures Triggers(records + [json], parse, actions) == Triggers(records, parse, actions)
            + if parse(json).Event? && parse(json).kind == "container" && parse(json).action in actions
              then [parse(json).action] else []
  {
    assert (records + [json])[..|records|] == records;
  }

  const TRACEPOINT_ACTIONS: set<string> := {"destroy", "stop", "start", "restart"}
  const LSM_ACTIONS: set<string> := {"create", "destroy", "stop", "start", "restart"}

  /** Record `k` parses and reports one of the actions for a container. */
  predicate Reports(records: seq<string>, parse: Parser, actions: set<string>, k: int) {
    0 <= k < |records| && parse(records[k]).Event? && parse(records[k]).kind == "container"
    && parse(records[k]).action in actions
  }

  function ReportsBefore(records: seq<string>, parse: Parser, actions: set<string>, k: nat): set<nat> {
    set j: nat | j < k && Reports(records, parse, actions, j)
  }

  lemma ReportsBeforeNext(records: seq<string>, parse: Parser, actions: set<string>, k: nat)
    ensures |ReportsBefore(records, parse, actions, k + 1)| ==
            |ReportsBefore(records, parse, actions, k)| + if Reports(records, parse, actions, k) then 1 else 0
  {
    var before := ReportsBefore(records, parse, actions, k);
    assert ReportsBefore(records, parse, actions, k + 1) ==
           if Reports(records, parse, actions, k) then before + {k} else before;
  }

  lemma ReportsOfFront(records: seq<string>, parse: Parser, actions: set<string>, n: nat, k: nat)
    requires k <= n <= |records|
    ensures ReportsBefore(records[..n], parse, actions, k) == ReportsBefore(records, parse, actions, k)
  {
  }

  /** One update is started for every such record, in order, and for no other. */
  lemma {:induction false} TriggersAre(records: seq<string>, parse: Parser, actions: set<string>)
    ensures |Triggers(records, parse, actions)| == |ReportsBefore(records, parse, actions, |records|)|
    ensures forall k :: Reports(records, parse, actions, k) ==>
              && |ReportsBefore(records, parse, actions, k)| < |Triggers(records, parse, actions)|
              && Triggers(records, parse, actions)[|ReportsBefore(records, parse, actions, k)|]
                 == parse(records[k]).action
  {
    if records == [] {
      assert ReportsBefore(records, parse, actions, 0) == {};
    } else {
      var n := |records| - 1;
      TriggersAre(records[..n], parse, actions);
      TriggersSnoc(records[..n], records[n], parse, actions);
      assert records == records[..n] + [records[n]];
      ReportsOfFront(records, parse, actions, n, n);
      ReportsBeforeNext(records, parse, actions, n);
      forall k | Reports(records, parse, actions, k)
        ensures |ReportsBefore(records, parse, actions, k)| < |Triggers(records, parse, actions)|
        ensures Triggers(records, parse, actions)[|ReportsBefore(records, parse, actions, k)|]
                == parse(records[k]).action
      {
        ReportsOfFront(records, parse, actions, n, k);
        assert k < n ==> Reports(records[..n], parse, actions, k);
      }
    }
  }

  class DockerEventData {
    var buffer: string

    constructor ()
      ensures buffer == ""
    {
      buffer := "";
    }

    /** docker_event_callback: the records handed to the parser and the updates started. A record that
        does not parse is dropped and the loop goes on behind it. */
    method Callback(chunk: string, parse: Parser, actions: set<string>, exiting: bool)
      returns (records: seq<string>, updates: seq<string>, consumed: nat)
      modifies this
      ensures records == Records(old(buffer) + chunk)
      ensures buffer == Tail(old(buffer) + chunk)
      ensures updates == Triggers(records, parse, actions)
      ensures consumed == if exiting then 0 else |chunk|
    {
      buffer := buffer + chunk;
      ghost var whole := buffer;
      records, updates := [], [];
      var pos := 0;
      assert whole[0..] == whole;
      while true
        invariant buffer == whole && Taken(whole, pos, records)
        invariant updates == Triggers(records, parse, actions)
        decreases |buffer| - pos
      {
        var newlinePos := Find(buffer, pos);
        if newlinePos == |buffer| {
          break;
        }
        TakeNext(whole, pos, records, newlinePos);
        var json := buffer[pos..newlinePos];
        pos := newlinePos + 1;
        TriggersSnoc(records, json, parse, actions);
        records := records + [json];
        var parsed := parse(json);
        if parsed.Event? && parsed.kind == "container" {
          if parsed.action in actions {
            updates := updates + [parsed.action];
          }
        }
      }
      TakenAll(whole, pos, records);
      buffer := buffer[pos..];
      consumed := if exiting then 0 else |chunk|;
    }
  }

  // ----- chunks ------------------------------------------------------------------------------------

  /** All records handed to the parser over a sequence of calls, starting with `buffer`. */
  function RecordsOver(buffer: string, chunks: seq<string>): seq<string>
    decreases |chunks|
  {
    if chunks == [] then []
    else Records(buffer + chunks[0]) + RecordsOver(Tail(buffer + chunks[0]), chunks[1..])
  }

  function TailOver(buffer: string, chunks: seq<string>): string
    decreases |chunks|
  {
    if chunks == [] then buffer else TailOver(Tail(buffer + chunks[0]), chunks[1..])
  }

  /** Cutting a stream in two hands over the same records. */
  lemma Cut(a: string, b: string)
    ensures Records(a + b) == Records(a) + Records(Tail(a) + b)
    ensures Tail(a + b) == Tail(Tail(a) + b)
  {
    FramesItself(a);
    FramesItself(Tail(a) + b);
    CutFraming(a, b, Records(a), Tail(a), Records(Tail(a) + b), Tail(Tail(a) + b));
    FramingIs(a + b, Records(a) + Records(Tail(a) + b), Tail(Tail(a) + b));
  }

  lemma CutFraming(a: string, b: string, before: seq<string>, held: string, after: seq<string>, tail: string)
    requires IsFraming(a, before, held) && IsFraming(held + b, after, tail)
    ensures IsFraming(a + b, before + after, tail)
  {
    JoinConcat(before, after);
    var j, k := Join(before), Join(after);
    assert a + b == j + (held + b);
    assert j + (k + tail) == (j + k) + tail;
  }

  lemma {:induction false} JoinConcat(a: seq<string>, b: seq<string>)
    ensures Join(a + b) == Join(a) + Join(b)
  {
    if a == [] {
      assert a + b == b;
    } else {
      assert (a + b)[0] == a[0] && (a + b)[1..] == a[1..] + b;
      JoinConcat(a[1..], b);
    }
  }

  /** However the stream is cut into chunks, the records are those of the whole stream, in order, and
      the retained buffer is its tail. */
  lemma {:induction false} ChunkInvariant(buffer: string, chunks: seq<string>)
    requires NewlineFree(buffer)
    ensures RecordsOver(buffer, chunks) == Records(buffer + Flatten(chunks))
    ensures TailOver(buffer, chunks) == Tail(buffer + Flatten(chunks))
    decreases |chunks|
  {
    if chunks == [] {
      assert buffer + Flatten(chunks) == buffer;
      FindIs(buffer, |buffer|);
    } else {
      var first, rest := buffer + chunks[0], Flatten(chunks[1..]);
      Cut(first, rest);
      assert buffer + Flatten(chunks) == first + rest;
      FramingUnique(first, Records(first), Tail(first));
      ChunkInvariant(Tail(first), chunks[1..]);
    }
  }

  lemma {:induction false} TriggersConcat(a: seq<string>, b: seq<string>, parse: Parser, actions: set<string>)
    ensures Triggers(a + b, parse, actions) == Triggers(a, parse, actions) + Triggers(b, parse, actions)
  {
    if b == [] {
      assert a + b == a;
    } else {
      var front := b[..|b| - 1];
      assert (a + b)[..|a + b| - 1] == a + front;
      TriggersConcat(a, front, parse, actions);
    }
  }

  /** The updates started over a sequence of calls. */
  function UpdatesOver(buffer: string, chunks: seq<string>, parse: Parser, actions: set<string>): seq<string>
    decreases |chunks|
  {
    if chunks == [] then []
    else Triggers(Records(buffer + chunks[0]), parse, actions)
         + UpdatesOver(Tail(buffer + chunks[0]), chunks[1..], parse, actions)
  }

  /** So the policy updates do not depend on the chunks either, whichever records fail to parse. */
  lemma {:induction false} UpdatesChunkInvariant(buffer: string, chunks: seq<string>, parse: Parser,
          actions: set<string>)
    requires NewlineFree(buffer)
    ensures UpdatesOver(buffer, chunks, parse, actions) == Triggers(Records(buffer + Flatten(chunks)), parse, actions)
    decreases |chunks|
  {
    ChunkInvariant(buffer, chunks);
    if chunks != [] {
      var first := buffer + chunks[0];
      FramingUnique(first, Records(first), Tail(first));
      UpdatesChunkInvariant(Tail(first), chunks[1..], parse, actions);
      ChunkInvariant(Tail(first), chunks[1..]);
      TriggersConcat(Records(first), RecordsOver(Tail(first), chunks[1..]), parse, actions);
    }
  }
}

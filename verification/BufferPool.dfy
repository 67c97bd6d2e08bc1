/** The buffers of the tracepoint event logger: a fixed set that the producer and the flush thread
    move between "available", "queued for flush", "current" and "in the flusher's hands". Each
    function below is one critical section. */
module BufferPool {
  import opened Seqs
  import opened Batching

  const BUFFER_SIZE: nat := 1000

  /** Holding: popped from the flush deque. Handed: its events have been moved into a task. */
  datatype Flusher = Idle | Holding(buffer: nat) | Handed(buffer: nat)

  datatype Pool = Pool(
    contents: seq<seq<Event>>,
    available: seq<nat>,
    flush: seq<nat>,
    current: Option<nat>,
    isFlushing: bool,
    flusher: Flusher)

  function InFlight(f: Flusher): Option<nat> {
    match f case Idle => None case Holding(b) => Some(b) case Handed(b) => Some(b)
  }

  ghost predicate AllBelow(deque: seq<nat>, n: nat) {
    forall i :: 0 <= i < |deque| ==> deque[i] < n
  }

  /** Every pointer in the deques and roles names a buffer. */
  ghost predicate InRange(p: Pool) {
    && AllBelow(p.available, |p.contents|)
    && AllBelow(p.flush, |p.contents|)
    && (p.current.Some? ==> p.current.value < |p.contents|)
    && (InFlight(p.flusher).Some? ==> InFlight(p.flusher).value < |p.contents|)
  }

  // ----- the critical sections -------------------------------------------------------------------

  function InitPool(n: nat): Pool
    requires n > 0
  {
    Pool(seq(n, _ => []), seq(n - 1, i requires 0 <= i < n - 1 => i + 1), [], Some(0), false, Idle)
  }

  /** Make the front of the available deque the current buffer; none when the deque is empty. */
  function TakeAvailable(p: Pool): Pool {
    if p.available == [] then p.(current := None)
    else p.(current := Some(p.available[0]), available := p.available[1..])
  }

  /** push_back into the current buffer, which is queued when that fills it. */
  function Store(p: Pool, e: Event): Pool
    requires InRange(p) && p.current.Some?
  {
    var b := p.current.value;
    var filled := p.contents[b] + [e];
    if |filled| >= BUFFER_SIZE
    then p.(contents := p.contents[b := filled], flush := p.flush + [b], isFlushing := true, current := None)
    else p.(contents := p.contents[b := filled])
  }

  function Pop(p: Pool): Pool
    requires p.flush != []
  {
    p.(flusher := Holding(p.flush[0]), flush := p.flush[1..], isFlushing := p.isFlushing && |p.flush| > 1)
  }

  /** The events of the buffer being flushed move into a task and leave it empty. */
  function HandOver(p: Pool): Pool
    requires InRange(p) && p.flusher.Holding?
  {
    p.(flusher := Handed(p.flusher.buffer), contents := p.contents[p.flusher.buffer := []])
  }

  function GiveBack(p: Pool): Pool
    requires InRange(p) && p.flusher.Handed?
  {
    var b := p.flusher.buffer;
    p.(flusher := Idle, contents := p.contents[b := []], available := p.available + [b])
  }

  /** The current buffer has waited too long: queue it and take a new one if there is one. */
  function Expire(p: Pool): Pool
    requires p.current.Some?
  {
    TakeAvailable(p.(flush := p.flush + [p.current.value], isFlushing := true))
  }

  // ----- ownership -------------------------------------------------------------------------------

  function OwnedBy(o: Option<nat>): multiset<nat> {
    match o case None => multiset{} case Some(b) => multiset{b}
  }

  function Owners(p: Pool): multiset<nat> {
    multiset(p.available) + multiset(p.flush) + OwnedBy(p.current) + OwnedBy(InFlight(p.flusher))
  }

  /** Every buffer has exactly one owner. */
  ghost predicate Partition(p: Pool) {
    forall b: nat :: Owners(p)[b] == if b < |p.contents| then 1 else 0
  }

  /** The readable form of Partition: one of four roles, and no deque holds a buffer twice. */
  lemma OwnedExactlyOnce(p: Pool, b: nat)
    requires Partition(p) && b < |p.contents|
    ensures multiset(p.available)[b] + multiset(p.flush)[b]
            + (if p.current == Some(b) then 1 else 0) + (if InFlight(p.flusher) == Some(b) then 1 else 0) == 1
    ensures b in p.available ==> b !in p.flush && p.current != Some(b) && InFlight(p.flusher) != Some(b)
    ensures b in p.flush ==> p.current != Some(b) && InFlight(p.flusher) != Some(b)
    ensures p.current == Some(b) ==> InFlight(p.flusher) != Some(b)
  {
    assert Owners(p)[b] == 1;
  }

  ghost predicate Absent(b: nat, deque: seq<nat>) {
    forall i :: 0 <= i < |deque| ==> deque[i] != b
  }

  lemma CurrentAlone(p: Pool)
    requires InRange(p) && Partition(p) && p.current.Some?
    ensures Absent(p.current.value, p.available) && Absent(p.current.value, p.flush)
    ensures InFlight(p.flusher) != p.current
  {
    OwnedExactlyOnce(p, p.current.value);
  }

  lemma InFlightAlone(p: Pool)
    requires InRange(p) && Partition(p) && InFlight(p.flusher).Some?
    ensures var b := InFlight(p.flusher).value;
            Absent(b, p.available) && Absent(b, p.flush) && p.current != Some(b)
  {
    OwnedExactlyOnce(p, InFlight(p.flusher).value);
  }

  lemma InitPartition(n: nat)
    requires n > 0
    ensures InRange(InitPool(n)) && Partition(InitPool(n))
  {
    forall b: nat ensures Owners(InitPool(n))[b] == if b < n then 1 else 0 {
      UpToCounts(n - 1, b);
    }
  }

  lemma {:induction false} UpToCounts(m: nat, b: nat)
    ensures multiset(seq(m, i requires 0 <= i < m => i + 1))[b] == if 1 <= b <= m then 1 else 0
  {
    if m > 0 {
      UpToCounts(m - 1, b);
      assert seq(m, i requires 0 <= i < m => i + 1) == seq(m - 1, i requires 0 <= i < m - 1 => i + 1) + [m];
    }
  }

  lemma TakeAvailablePartition(p: Pool)
    requires InRange(p) && Partition(p) && p.current.None?
    ensures InRange(TakeAvailable(p)) && Partition(TakeAvailable(p))
  {
    if p.available != [] {
      assert p.available == [p.available[0]] + p.available[1..];
    }
    assert Owners(TakeAvailable(p)) == Owners(p);
  }

  lemma StorePartition(p: Pool, e: Event)
    requires InRange(p) && Partition(p) && p.current.Some?
    ensures InRange(Store(p, e)) && Partition(Store(p, e))
  {
    var b, q := p.current.value, Store(p, e);
    if q.current.None? {
      assert multiset(p.flush + [b]) == multiset(p.flush) + multiset{b};
    }
    assert Owners(q) == Owners(p);
  }

  lemma PopPartition(p: Pool)
    requires InRange(p) && Partition(p) && p.flusher.Idle? && p.flush != []
    ensures InRange(Pop(p)) && Partition(Pop(p))
  {
    assert p.flush == [p.flush[0]] + p.flush[1..];
    assert Owners(Pop(p)) == Owners(p);
  }

  lemma HandOverPartition(p: Pool)
    requires InRange(p) && Partition(p) && p.flusher.Holding?
    ensures InRange(HandOver(p)) && Partition(HandOver(p))
  {
    assert Owners(HandOver(p)) == Owners(p);
  }

  lemma GiveBackPartition(p: Pool)
    requires InRange(p) && Partition(p) && p.flusher.Handed?
    ensures InRange(GiveBack(p)) && Partition(GiveBack(p))
  {
    assert Owners(GiveBack(p)) == Owners(p);
  }

  lemma ExpirePartition(p: Pool)
    requires InRange(p) && Partition(p) && p.current.Some?
    ensures InRange(Expire(p)) && Partition(Expire(p))
  {
    var q := p.(flush := p.flush + [p.current.value], isFlushing := true, current := None);
    assert Owners(q) == Owners(p);
    TakeAvailablePartition(q);
    assert Expire(p) == TakeAvailable(q);
  }

  // ----- how full a buffer is in each role ---------------------------------------------------------

  ghost predicate Sizes(p: Pool)
    requires InRange(p)
  {
    && (forall i :: 0 <= i < |p.available| ==> p.contents[p.available[i]] == [])
    && (forall i :: 0 <= i < |p.flush| ==> 1 <= |p.contents[p.flush[i]]| <= BUFFER_SIZE)
    && (p.current.Some? ==> |p.contents[p.current.value]| < BUFFER_SIZE)
    && (p.flusher.Holding? ==> 1 <= |p.contents[p.flusher.buffer]| <= BUFFER_SIZE)
    && (p.flusher.Handed? ==> p.contents[p.flusher.buffer] == [])
    && (p.isFlushing <==> p.flush != [])
  }

  ghost predicate Good(p: Pool) {
    InRange(p) && Partition(p) && Sizes(p)
  }

  lemma InitGood(n: nat)
    requires n > 0
    ensures Good(InitPool(n)) && PoolEvents(InitPool(n)) == []
  {
    InitPartition(n);
  }

  lemma TakeAvailableGood(p: Pool)
    requires Good(p) && p.current.None?
    ensures Good(TakeAvailable(p))
    ensures PoolEvents(TakeAvailable(p)) == PoolEvents(p)
  {
    TakeAvailablePartition(p);
  }

  lemma StoreSizes(p: Pool, e: Event)
    requires InRange(p) && Partition(p) && Sizes(p) && p.current.Some?
    ensures InRange(Store(p, e)) && Sizes(Store(p, e))
  {
    CurrentAlone(p);
  }

  lemma HandOverSizes(p: Pool)
    requires InRange(p) && Partition(p) && Sizes(p) && p.flusher.Holding?
    ensures InRange(HandOver(p)) && Sizes(HandOver(p))
  {
    InFlightAlone(p);
  }

  lemma ExpireSizes(p: Pool)
    requires InRange(p) && Partition(p) && Sizes(p) && p.current.Some? && p.contents[p.current.value] != []
    ensures InRange(Expire(p)) && Sizes(Expire(p))
  {
  }

  // ----- the events in the pool ------------------------------------------------------------------

  function Stored(contents: seq<seq<Event>>, deque: seq<nat>): seq<Event>
    requires AllBelow(deque, |contents|)
  {
    if deque == [] then [] else contents[deque[0]] + Stored(contents, deque[1..])
  }

  function StoredIn(contents: seq<seq<Event>>, o: Option<nat>): seq<Event>
    requires o.Some? ==> o.value < |contents|
  {
    match o case None => [] case Some(b) => contents[b]
  }

  /** Oldest first: the buffer being flushed, the queued ones, the current one. */
  function PoolEvents(p: Pool): seq<Event>
    requires InRange(p)
  {
    StoredIn(p.contents, InFlight(p.flusher)) + Stored(p.contents, p.flush) + StoredIn(p.contents, p.current)
  }

  lemma {:induction false} StoredFrame(contents: seq<seq<Event>>, deque: seq<nat>, b: nat, events: seq<Event>)
    requires b < |contents| && Absent(b, deque)
    requires AllBelow(deque, |contents|)
    ensures Stored(contents[b := events], deque) == Stored(contents, deque)
  {
    if deque != [] {
      StoredFrame(contents, deque[1..], b, events);
    }
  }

  lemma {:induction false} StoredSnoc(contents: seq<seq<Event>>, deque: seq<nat>, b: nat)
    requires b < |contents|
    requires AllBelow(deque, |contents|)
    ensures Stored(contents, deque + [b]) == Stored(contents, deque) + contents[b]
  {
    if deque == [] {
      assert deque + [b] == [b];
      assert Stored(contents, [b]) == contents[b] + Stored(contents, []);
    } else {
      StoredSnoc(contents, deque[1..], b);
      assert (deque + [b])[1..] == deque[1..] + [b];
    }
  }

  lemma StoreEvents(p: Pool, e: Event)
    requires InRange(p) && Partition(p) && p.current.Some?
    ensures InRange(Store(p, e)) && PoolEvents(Store(p, e)) == PoolEvents(p) + [e]
  {
    var b := p.current.value;
    var filled := p.contents[b] + [e];
    CurrentAlone(p);
    StoredFrame(p.contents, p.flush, b, filled);
    StoredSnoc(p.contents[b := filled], p.flush, b);
    var held, queued := StoredIn(p.contents, InFlight(p.flusher)), Stored(p.contents, p.flush);
    assert held + (queued + filled) + [] == held + queued + filled;
  }

  lemma HandOverEvents(p: Pool)
    requires InRange(p) && Partition(p) && p.flusher.Holding?
    ensures InRange(HandOver(p)) && p.contents[p.flusher.buffer] + PoolEvents(HandOver(p)) == PoolEvents(p)
  {
    InFlightAlone(p);
    StoredFrame(p.contents, p.flush, p.flusher.buffer, []);
    var held, queued := p.contents[p.flusher.buffer], Stored(p.contents, p.flush);
    assert held + ([] + queued) == held + queued;
  }

  lemma ExpireEvents(p: Pool)
    requires InRange(p) && Sizes(p) && p.current.Some?
    ensures InRange(Expire(p)) && PoolEvents(Expire(p)) == PoolEvents(p)
  {
    StoredSnoc(p.contents, p.flush, p.current.value);
    var held, queued := StoredIn(p.contents, InFlight(p.flusher)), Stored(p.contents, p.flush);
    var young := p.contents[p.current.value];
    assert held + (queued + young) + [] == held + queued + young;
  }

  // ----- every critical section keeps the pool good ------------------------------------------------

  lemma StoreGood(p: Pool, e: Event)
    requires Good(p) && p.current.Some?
    ensures Good(Store(p, e)) && PoolEvents(Store(p, e)) == PoolEvents(p) + [e]
  {
    StorePartition(p, e);
    StoreSizes(p, e);
    StoreEvents(p, e);
  }

  lemma PopGood(p: Pool)
    requires Good(p) && p.flusher.Idle? && p.flush != []
    ensures Good(Pop(p)) && PoolEvents(Pop(p)) == PoolEvents(p)
  {
    PopPartition(p);
  }

  lemma HandOverGood(p: Pool)
    requires Good(p) && p.flusher.Holding?
    ensures Good(HandOver(p))
    ensures p.contents[p.flusher.buffer] + PoolEvents(HandOver(p)) == PoolEvents(p)
  {
    HandOverPartition(p);
    HandOverSizes(p);
    HandOverEvents(p);
  }

  lemma GiveBackGood(p: Pool)
    requires Good(p) && p.flusher.Handed?
    ensures Good(GiveBack(p)) && PoolEvents(GiveBack(p)) == PoolEvents(p)
  {
    GiveBackPartition(p);
    assert p.contents[p.flusher.buffer := []] == p.contents;
  }

  lemma ExpireGood(p: Pool)
    requires Good(p) && p.current.Some? && p.contents[p.current.value] != []
    ensures Good(Expire(p)) && PoolEvents(Expire(p)) == PoolEvents(p)
  {
    ExpirePartition(p);
    ExpireSizes(p);
    ExpireEvents(p);
  }
}

/** How one flush task turns its events into Kafka batches (the lambda of sendEventsToKafka). */
module Batching {
  import opened Seqs

  const MAX_BATCH_SIZE: nat := 10 * 1024 * 1024

  /** An accepted event. `json` is its serialised text; None when serialising it throws, in which
      case the task logs the error and goes on with the next event. */
  datatype Event = Event(id: int, json: Option<string>)

  function Messages(events: seq<Event>): seq<string> {
    if events == [] then []
    else (match events[0].json
          case Some(text) => [text]
          case None => []) + Messages(events[1..])
  }

  function Bytes(batch: seq<string>): nat {
    if batch == [] then 0 else Bytes(batch[..|batch| - 1]) + |batch[|batch| - 1]|
  }

  /** Bytes counts the characters of the batch, not its messages. */
  lemma {:induction false} BytesAreCharacters(batch: seq<string>)
    ensures Bytes(batch) == |Flatten(batch)|
  {
    if batch != [] {
      var front, last := batch[..|batch| - 1], batch[|batch| - 1];
      assert batch == front + [last];
      BytesAreCharacters(front);
      FlattenSnoc(front, last);
    }
  }

  /** What a sequence of batches has to be to carry `messages`: nothing lost, duplicated or
      reordered, no empty batch, every batch small enough before its final message, and every batch
      but the last one full. */
  ghost predicate IsBatching(messages: seq<string>, batches: seq<seq<string>>) {
    && Flatten(batches) == messages
    && (forall i :: 0 <= i < |batches| ==> Closable(batches[i]))
    && (forall i :: 0 <= i < |batches| - 1 ==> Bytes(batches[i]) >= MAX_BATCH_SIZE)
  }

  /** The limits in characters: 10 MiB is reached by every batch but the last, and by no batch without its
      final message. */
  ghost predicate WithinLimits(batches: seq<seq<string>>) {
    && (forall i :: 0 <= i < |batches| - 1 ==> |Flatten(batches[i])| >= 10 * 1024 * 1024)
    && (forall i :: 0 <= i < |batches| ==>
          batches[i] != [] && |Flatten(batches[i][..|batches[i]| - 1])| < 10 * 1024 * 1024)
  }

  lemma LimitsAreCharacters(messages: seq<string>, batches: seq<seq<string>>)
    requires IsBatching(messages, batches)
    ensures WithinLimits(batches)
  {
    forall i | 0 <= i < |batches| - 1 ensures |Flatten(batches[i])| >= 10 * 1024 * 1024 {
      BytesAreCharacters(batches[i]);
    }
    forall i | 0 <= i < |batches|
      ensures batches[i] != [] && |Flatten(batches[i][..|batches[i]| - 1])| < 10 * 1024 * 1024
    {
      assert Closable(batches[i]);
      BytesAreCharacters(batches[i][..|batches[i]| - 1]);
    }
  }

  ghost predicate Closable(batch: seq<string>) {
    batch != [] && Bytes(batch[..|batch| - 1]) < MAX_BATCH_SIZE
  }

  lemma {:induction false} MessagesConcat(xs: seq<Event>, ys: seq<Event>)
    ensures Messages(xs + ys) == Messages(xs) + Messages(ys)
  {
    if xs == [] {
      assert xs + ys == ys;
    } else {
      var whole := xs + ys;
      assert whole[0] == xs[0] && whole[1..] == xs[1..] + ys;
      MessagesConcat(xs[1..], ys);
    }
  }

  lemma {:induction false} BytesMonotone(batch: seq<string>, k: nat)
    requires k <= |batch|
    ensures Bytes(batch[..k]) <= Bytes(batch)
  {
    if k < |batch| {
      var front := batch[..|batch| - 1];
      BytesMonotone(front, k);
      assert front[..k] == batch[..k];
    } else {
      assert batch[..k] == batch;
    }
  }

  lemma PrefixNotFull(batch: seq<string>, k: nat)
    requires Closable(batch) && k < |batch|
    ensures Bytes(batch[..k]) < MAX_BATCH_SIZE
  {
    var front := batch[..|batch| - 1];
    BytesMonotone(front, k);
    assert front[..k] == batch[..k];
  }

  /** Two batchings of the same messages agree on their first batch. */
  lemma FirstBatchNotShorter(messages: seq<string>, a: seq<seq<string>>, b: seq<seq<string>>)
    requires IsBatching(messages, a) && IsBatching(messages, b) && a != [] && b != []
    ensures |a[0]| >= |b[0]|
  {
    assert a[0] == messages[..|a[0]|] && b[0] == messages[..|b[0]|];
    if |a[0]| < |b[0]| {
      if |a| == 1 {
        assert a == [] + [a[0]];
        FlattenSnoc([], a[0]);
      }
      assert b[0][..|a[0]|] == a[0];
      PrefixNotFull(b[0], |a[0]|);
    }
  }

  /** The batches are determined by the messages alone. */
  lemma {:induction false} BatchingUnique(messages: seq<string>, a: seq<seq<string>>, b: seq<seq<string>>)
    requires IsBatching(messages, a) && IsBatching(messages, b)
    ensures a == b
    decreases |a|
  {
    if a == [] || b == [] {
      assert a != [] ==> Closable(a[0]) && |Flatten(a)| > 0;
      assert b != [] ==> Closable(b[0]) && |Flatten(b)| > 0;
    } else {
      FirstBatchNotShorter(messages, a, b);
      FirstBatchNotShorter(messages, b, a);
      assert a[0] == messages[..|a[0]|] && b[0] == messages[..|b[0]|];
      var rest := messages[|a[0]|..];
      assert Flatten(a[1..]) == rest && Flatten(b[1..]) == rest;
      BatchingUnique(rest, a[1..], b[1..]);
    }
  }

  lemma MessagesSnoc(past: seq<Event>, e: Event)
    ensures Messages(past + [e]) == Messages(past) + match e.json case Some(text) => [text] case None => []
  {
    MessagesConcat(past, [e]);
    assert Messages([e]) == (match e.json case Some(text) => [text] case None => []) + Messages([]);
  }

  /** The events before `i` that serialise. */
  function SerialisedBefore(events: seq<Event>, i: nat): set<nat>
    requires i <= |events|
  {
    set j: nat | j < i && events[j].json.Some?
  }

  lemma SerialisedBeforeNext(events: seq<Event>, i: nat)
    requires i < |events|
    ensures |SerialisedBefore(events, i + 1)| ==
            |SerialisedBefore(events, i)| + if events[i].json.Some? then 1 else 0
  {
    var before, after := SerialisedBefore(events, i), SerialisedBefore(events, i + 1);
    assert after == if events[i].json.Some? then before + {i} else before;
  }

  /** The messages are the texts of the events that serialise, each once and in their order. */
  lemma {:induction false} MessagesAre(events: seq<Event>)
    ensures |Messages(events)| == |SerialisedBefore(events, |events|)|
    ensures forall i :: 0 <= i < |events| && events[i].json.Some? ==>
              && |SerialisedBefore(events, i)| < |Messages(events)|
              && Messages(events)[|SerialisedBefore(events, i)|] == events[i].json.value
    decreases |events|
  {
    if events == [] {
      assert SerialisedBefore(events, 0) == {};
    } else {
      var n := |events| - 1;
      var front := events[..n];
      assert events == front + [events[n]];
      MessagesAre(front);
      MessagesSnoc(front, events[n]);
      forall i: nat | i <= n ensures SerialisedBefore(front, i) == SerialisedBefore(events, i) {}
      SerialisedBeforeNext(events, n);
    }
  }

  /** `sent` and the open `batch` carry the messages of the events in `past`, as the loop of the
      task leaves them. */
  ghost predicate Partial(sent: seq<seq<string>>, batch: seq<string>, past: seq<Event>) {
    && Flatten(sent) + batch == Messages(past)
    && Bytes(batch) < MAX_BATCH_SIZE
    && (forall i :: 0 <= i < |sent| ==> Closable(sent[i]) && Bytes(sent[i]) >= MAX_BATCH_SIZE)
  }

  lemma PartialSkip(sent: seq<seq<string>>, batch: seq<string>, past: seq<Event>, e: Event)
    requires Partial(sent, batch, past) && e.json.None?
    ensures Partial(sent, batch, past + [e])
  {
    MessagesSnoc(past, e);
  }

  lemma PartialAdd(sent: seq<seq<string>>, batch: seq<string>, past: seq<Event>, e: Event, message: string)
    requires Partial(sent, batch, past) && e.json == Some(message)
    requires Bytes(batch + [message]) < MAX_BATCH_SIZE
    ensures Partial(sent, batch + [message], past + [e])
  {
    MessagesSnoc(past, e);
  }

  lemma PartialSend(sent: seq<seq<string>>, batch: seq<string>, past: seq<Event>, e: Event, message: string)
    requires Partial(sent, batch, past) && e.json == Some(message)
    requires Bytes(batch + [message]) >= MAX_BATCH_SIZE
    ensures Partial(sent + [batch + [message]], [], past + [e])
  {
    var full := batch + [message];
    assert full[..|full| - 1] == batch;
    SendFlattens(sent, batch, past, e, message);
  }

  lemma SendFlattens(sent: seq<seq<string>>, batch: seq<string>, past: seq<Event>, e: Event, message: string)
    requires Flatten(sent) + batch == Messages(past) && e.json == Some(message)
    ensures Flatten(sent + [batch + [message]]) == Messages(past + [e])
  {
    MessagesSnoc(past, e);
    FlattenSnoc(sent, batch + [message]);
    var f := Flatten(sent);
    assert f + (batch + [message]) == (f + batch) + [message];
  }

  lemma PartialFinish(sent: seq<seq<string>>, batch: seq<string>, past: seq<Event>)
    requires Partial(sent, batch, past)
    ensures IsBatching(Messages(past), if batch == [] then sent else sent + [batch])
  {
    if batch != [] {
      BytesMonotone(batch, |batch| - 1);
      FlattenSnoc(sent, batch);
    }
  }

  /** The task's loop: append each message, send when the limit is reached, send what is left. */
  method SendEvents(events: seq<Event>) returns (sent: seq<seq<string>>, messageCount: nat)
    ensures IsBatching(Messages(events), sent)
    ensures messageCount == |Messages(events)|
    ensures WithinLimits(sent)
  {
    sent := [];
    messageCount := 0;
    var batch: seq<string> := [];
    var currentBatchSize := 0;
    var k := 0;
    while k < |events|
      invariant 0 <= k <= |events|
      invariant Partial(sent, batch, events[..k])
      invariant messageCount == |Flatten(sent)|
      invariant currentBatchSize == Bytes(batch)
    {
      ghost var past := events[..k];
      assert events[..k + 1] == past + [events[k]];
      match events[k].json {
        case None =>
          PartialSkip(sent, batch, past, events[k]);
        case Some(message) =>
          ghost var before := batch;
          batch := batch + [message];
          assert batch[..|before|] == before;
          currentBatchSize := currentBatchSize + |message|;
          if currentBatchSize >= MAX_BATCH_SIZE {
            PartialSend(sent, before, past, events[k], message);
            FlattenSnoc(sent, batch);
            sent := sent + [batch];
            messageCount := messageCount + |batch|;
            batch := [];
            currentBatchSize := 0;
          } else {
            PartialAdd(sent, before, past, events[k], message);
          }
      }
      k := k + 1;
    }
    assert events[..k] == events;
    PartialFinish(sent, batch, events);
    if batch != [] {
      FlattenSnoc(sent, batch);
      sent := sent + [batch];
      messageCount := messageCount + |batch|;
    }
    LimitsAreCharacters(Messages(events), sent);
  }
}

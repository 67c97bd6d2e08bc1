/** The task queue and the one pool worker of the tracepoint event logger: enqueueTask,
    threadPoolWorker and, event by event, the task that sendEventsToKafka enqueues. */
module FlushTasks {
  import opened Seqs
  import opened Batching

  /** Running: the events of the task still to be serialised, and the batch being filled. */
  datatype Worker = Waiting | Running(rest: seq<Event>, batch: seq<string>)

  /** `handled` is a history: the events the worker has gone through. `kafka` is the list of
      batches sent. */
  datatype Work = Work(tasks: seq<seq<Event>>, worker: Worker, kafka: seq<seq<string>>, handled: seq<Event>)

  function Enqueue(w: Work, events: seq<Event>): Work {
    if events == [] then w else w.(tasks := w.tasks + [events])
  }

  function TakeTask(w: Work): Work
    requires w.worker.Waiting? && w.tasks != []
  {
    w.(worker := Running(w.tasks[0], []), tasks := w.tasks[1..])
  }

  /** One turn of the loop over the events: serialise, add to the batch, send a full batch. */
  function SerializeOne(w: Work): Work
    requires w.worker.Running? && w.worker.rest != []
  {
    var e, rest, batch := w.worker.rest[0], w.worker.rest[1..], w.worker.batch;
    var t := w.(handled := w.handled + [e]);
    match e.json
    case None => t.(worker := Running(rest, batch))
    case Some(message) =>
      if Bytes(batch + [message]) >= MAX_BATCH_SIZE
      then t.(worker := Running(rest, []), kafka := w.kafka + [batch + [message]])
      else t.(worker := Running(rest, batch + [message]))
  }

  function FinishTask(w: Work): Work
    requires w.worker.Running? && w.worker.rest == []
  {
    w.(worker := Waiting, kafka := if w.worker.batch == [] then w.kafka else w.kafka + [w.worker.batch])
  }

  function Unhandled(w: Worker): seq<Event> {
    match w case Waiting => [] case Running(rest, _) => rest
  }

  function Unsent(w: Worker): seq<string> {
    match w case Waiting => [] case Running(_, batch) => batch
  }

  /** Oldest first: the rest of the running task, then the queued tasks. */
  function WorkEvents(w: Work): seq<Event> {
    Unhandled(w.worker) + Flatten(w.tasks)
  }

  /** What has been sent, plus the open batch, is what the handled events serialise to. */
  ghost predicate Good(w: Work) {
    && (forall i :: 0 <= i < |w.tasks| ==> w.tasks[i] != [])
    && (w.worker.Running? ==> Bytes(w.worker.batch) < MAX_BATCH_SIZE)
    && Flatten(w.kafka) + Unsent(w.worker) == Messages(w.handled)
  }

  lemma EnqueueGood(w: Work, events: seq<Event>)
    requires Good(w)
    ensures Good(Enqueue(w, events)) && WorkEvents(Enqueue(w, events)) == WorkEvents(w) + events
  {
    FlattenSnoc(w.tasks, events);
    var u, f := Unhandled(w.worker), Flatten(w.tasks);
    assert u + (f + events) == (u + f) + events;
  }

  lemma TakeTaskGood(w: Work)
    requires Good(w) && w.worker.Waiting? && w.tasks != []
    ensures Good(TakeTask(w)) && WorkEvents(TakeTask(w)) == WorkEvents(w)
  {
  }

  lemma SerializeOneGood(w: Work)
    requires Good(w) && w.worker.Running? && w.worker.rest != []
    ensures Good(SerializeOne(w))
    ensures SerializeOne(w).handled + WorkEvents(SerializeOne(w)) == w.handled + WorkEvents(w)
  {
    var e, rest, batch := w.worker.rest[0], w.worker.rest[1..], w.worker.batch;
    MessagesConcat(w.handled, [e]);
    assert Messages([e]) == (match e.json case Some(text) => [text] case None => []) + Messages([]);
    if e.json.Some? {
      FlattenSnoc(w.kafka, batch + [e.json.value]);
    }
    var f := Flatten(w.tasks);
    assert w.worker.rest == [e] + rest;
    assert (w.handled + [e]) + (rest + f) == w.handled + (([e] + rest) + f);
  }

  lemma FinishTaskGood(w: Work)
    requires Good(w) && w.worker.Running? && w.worker.rest == []
    ensures Good(FinishTask(w)) && WorkEvents(FinishTask(w)) == WorkEvents(w)
  {
    FlattenSnoc(w.kafka, w.worker.batch);
  }

  /** The worker taken to the end of its running task. */
  function RunTask(w: Work): Work
    requires w.worker.Running?
    decreases |w.worker.rest|
  {
    if w.worker.rest == [] then FinishTask(w) else RunTask(SerializeOne(w))
  }

  /** The batch, if any, that one turn sends. */
  function SentByOne(w: Work): seq<seq<string>>
    requires w.worker.Running? && w.worker.rest != []
  {
    match w.worker.rest[0].json
    case None => []
    case Some(message) =>
      var batch := w.worker.batch + [message];
      if Bytes(batch) >= MAX_BATCH_SIZE then [batch] else []
  }

  lemma SerializeOneSends(w: Work)
    requires w.worker.Running? && w.worker.rest != []
    ensures var next := SerializeOne(w);
            && next.tasks == w.tasks && next.handled == w.handled + [w.worker.rest[0]]
            && next.kafka == w.kafka + SentByOne(w)
            && next.worker.Running? && next.worker.rest == w.worker.rest[1..]
  {
    assert w.kafka + [] == w.kafka;
  }

  /** What the running task still has to send. */
  function StillToSend(w: Work): seq<seq<string>>
    requires w.worker.Running?
    decreases |w.worker.rest|
  {
    if w.worker.rest == [] then if w.worker.batch == [] then [] else [w.worker.batch]
    else SentByOne(w) + StillToSend(SerializeOne(w))
  }

  lemma {:induction false} RunTaskSends(w: Work)
    requires w.worker.Running?
    ensures var done := RunTask(w);
            && done.worker.Waiting? && done.tasks == w.tasks && done.handled == w.handled + w.worker.rest
            && done.kafka == w.kafka + StillToSend(w)
    decreases |w.worker.rest|
  {
    if w.worker.rest != [] {
      SerializeOneSends(w);
      RunTaskSends(SerializeOne(w));
      Regroup(w.handled, w.worker.rest);
      Associate(w.kafka, SentByOne(w), StillToSend(SerializeOne(w)));
    }
  }

  lemma PartialStep(w: Work, sent: seq<seq<string>>, past: seq<Event>)
    requires w.worker.Running? && w.worker.rest != [] && Partial(sent, w.worker.batch, past)
    ensures Partial(sent + SentByOne(w), SerializeOne(w).worker.batch, past + [w.worker.rest[0]])
  {
    var e, batch := w.worker.rest[0], w.worker.batch;
    assert sent + [] == sent;
    if e.json.None? {
      PartialSkip(sent, batch, past, e);
    } else if Bytes(batch + [e.json.value]) < MAX_BATCH_SIZE {
      PartialAdd(sent, batch, past, e, e.json.value);
    } else {
      PartialSend(sent, batch, past, e, e.json.value);
    }
  }

  lemma StepConcat(w: Work, sent: seq<seq<string>>, past: seq<Event>)
    requires w.worker.Running? && w.worker.rest != []
    ensures SerializeOne(w).worker.Running?
    ensures (past + [w.worker.rest[0]]) + SerializeOne(w).worker.rest == past + w.worker.rest
    ensures (sent + SentByOne(w)) + StillToSend(SerializeOne(w)) == sent + StillToSend(w)
  {
    SerializeOneSends(w);
    Regroup(past, w.worker.rest);
    Associate(sent, SentByOne(w), StillToSend(SerializeOne(w)));
  }

  lemma {:induction false} StillToSendBatches(w: Work, sent: seq<seq<string>>, past: seq<Event>)
    requires w.worker.Running? && Partial(sent, w.worker.batch, past)
    ensures IsBatching(Messages(past + w.worker.rest), sent + StillToSend(w))
    decreases |w.worker.rest|
  {
    if w.worker.rest == [] {
      PartialFinish(sent, w.worker.batch, past);
      assert past + w.worker.rest == past;
      assert sent + [] == sent;
    } else {
      PartialStep(w, sent, past);
      StepConcat(w, sent, past);
      StillToSendBatches(SerializeOne(w), sent + SentByOne(w), past + [w.worker.rest[0]]);
    }
  }

  /** A task run to its end adds to Kafka exactly the batching of its messages, whatever else
      happened before. With BatchingUnique these are the batches that SendEvents computes. */
  lemma TaskBatches(w: Work)
    requires w.worker.Waiting? && w.tasks != []
    ensures var done := RunTask(TakeTask(w));
            && done.worker.Waiting? && done.tasks == w.tasks[1..] && done.handled == w.handled + w.tasks[0]
            && w.kafka <= done.kafka && IsBatching(Messages(w.tasks[0]), done.kafka[|w.kafka|..])
  {
    var running := TakeTask(w);
    RunTaskSends(running);
    StillToSendBatches(running, [], []);
    assert [] + w.tasks[0] == w.tasks[0];
    assert [] + StillToSend(running) == StillToSend(running);
  }
}

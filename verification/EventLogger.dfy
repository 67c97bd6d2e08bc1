/** The event logger as the C++ class has it: fields updated in place, one method for each critical
    section. Every method is proved to do the step of module Logger that bears its name. */
module EventLogger {
  import opened Seqs
  import opened Batching
  import BP = BufferPool
  import FT = FlushTasks
  import L = Logger

  class EventLogger {
    const buffers: array<seq<Event>>
    var availableBuffers: seq<nat>
    var flushBuffers: seq<nat>
    var currentBuffer: Option<nat>
    var isFlushing: bool
    var flusher: BP.Flusher
    var producer: L.Producer
    var taskQueue: seq<seq<Event>>
    var worker: FT.Worker
    var kafka: seq<seq<string>>
    ghost var accepted: seq<Event>
    ghost var handled: seq<Event>

    ghost function View(): L.State
      reads this, buffers
    {
      L.State(BP.Pool(buffers[..], availableBuffers, flushBuffers, currentBuffer, isFlushing, flusher),
              FT.Work(taskQueue, worker, kafka, handled), producer, accepted)
    }

    constructor (bufferCount: nat)
      requires bufferCount > 0
      ensures fresh(buffers) && View() == L.Init(bufferCount) && L.Inv(View())
    {
      buffers := new seq<Event>[bufferCount](_ => []);
      var available := seq(bufferCount, i => i);
      currentBuffer := Some(available[0]);
      availableBuffers := available[1..];
      flushBuffers := [];
      isFlushing := false;
      flusher := BP.Idle;
      producer := L.Ready;
      taskQueue, worker, kafka := [], FT.Waiting, [];
      accepted, handled := [], [];
      new;
      assert buffers[..] == seq(bufferCount, _ => []);
      L.InitInv(bufferCount);
    }

    /** The C++ constructor throws on an empty pool. */
    static method Create(bufferCount: nat) returns (r: Option<EventLogger>)
      ensures r.None? <==> bufferCount == 0
      ensures r.Some? ==> fresh(r.value) && fresh(r.value.buffers) && r.value.View() == L.Init(bufferCount)
    {
      if bufferCount == 0 {
        return None;
      }
      var logger := new EventLogger(bufferCount);
      return Some(logger);
    }

    method AddEvent(e: Event)
      requires L.Inv(View()) && producer.Ready?
      modifies this, buffers
      ensures View() == L.AfterAddEvent(old(View()), e) && L.Inv(View())
      ensures old(currentBuffer.None? && availableBuffers == []) <==> producer == L.Blocked(e)
      ensures old(currentBuffer).Some? ==> (currentBuffer.None? <==> |old(buffers[currentBuffer.value])| == 999)
      ensures accepted == if producer.Blocked? then old(accepted) else old(accepted) + [e]
    {
      ghost var before := View();
      L.StepInv(before, L.AddEvent(e));
      if currentBuffer.None? {
        if availableBuffers == [] {
          producer := L.Blocked(e);
          return;
        }
        currentBuffer := Some(availableBuffers[0]);
        availableBuffers := availableBuffers[1..];
        assert View().pool == BP.TakeAvailable(before.pool);
      }
      PushBack(e);
    }

    /** The end of addEvent, with a current buffer at hand. */
    method PushBack(e: Event)
      requires BP.InRange(View().pool) && currentBuffer.Some? && producer.Ready?
      modifies this, buffers
      ensures var s := old(View()); View() == s.(pool := BP.Store(s.pool, e), accepted := s.accepted + [e])
    {
      var b := currentBuffer.value;
      buffers[b] := buffers[b] + [e];
      accepted := accepted + [e];
      if |buffers[b]| >= BP.BUFFER_SIZE {
        flushBuffers := flushBuffers + [b];
        isFlushing := true;
        currentBuffer := None;
      }
    }

    method PopForFlush()
      requires L.Inv(View()) && L.Enabled(View(), L.Pop)
      modifies this
      ensures View() == L.Next(old(View()), L.Pop) && L.Inv(View())
      ensures [flusher.buffer] + flushBuffers == old(flushBuffers) && (isFlushing <==> flushBuffers != [])
    {
      L.StepInv(View(), L.Pop);
      flusher := BP.Holding(flushBuffers[0]);
      flushBuffers := flushBuffers[1..];
      if flushBuffers == [] {
        isFlushing := false;
      }
    }

    method SendEventsToKafka()
      requires L.Inv(View()) && L.Enabled(View(), L.Send)
      modifies this, buffers
      ensures View() == L.AfterSend(old(View())) && L.Inv(View())
      ensures taskQueue == old(taskQueue) + [old(buffers[flusher.buffer])] && buffers[flusher.buffer] == []
    {
      L.StepInv(View(), L.Send);
      var b := flusher.buffer;
      if buffers[b] != [] {
        taskQueue := taskQueue + [buffers[b]];
        buffers[b] := [];
      }
      flusher := BP.Handed(b);
    }

    method ReturnBuffer()
      requires L.Inv(View()) && L.Enabled(View(), L.Return)
      modifies this, buffers
      ensures View() == L.Next(old(View()), L.Return) && L.Inv(View())
      ensures availableBuffers == old(availableBuffers) + [old(flusher.buffer)] && flusher == BP.Idle
    {
      L.StepInv(View(), L.Return);
      var b := flusher.buffer;
      buffers[b] := [];
      availableBuffers := availableBuffers + [b];
      flusher := BP.Idle;
    }

    method FlushOnTimeout()
      requires L.Inv(View()) && L.Enabled(View(), L.Timeout)
      modifies this
      ensures View() == L.Next(old(View()), L.Timeout) && L.Inv(View())
      ensures flushBuffers == old(flushBuffers) + [old(currentBuffer).value] && isFlushing
      ensures (if currentBuffer.Some? then [currentBuffer.value] else []) + availableBuffers == old(availableBuffers)
    {
      L.StepInv(View(), L.Timeout);
      flushBuffers := flushBuffers + [currentBuffer.value];
      isFlushing := true;
      if availableBuffers != [] {
        currentBuffer := Some(availableBuffers[0]);
        availableBuffers := availableBuffers[1..];
      } else {
        currentBuffer := None;
      }
    }

    method TakeTask()
      requires L.Inv(View()) && L.Enabled(View(), L.Take)
      modifies this
      ensures View() == L.Next(old(View()), L.Take) && L.Inv(View())
      ensures worker == FT.Running(old(taskQueue)[0], []) && taskQueue == old(taskQueue)[1..]
    {
      L.StepInv(View(), L.Take);
      worker := FT.Running(taskQueue[0], []);
      taskQueue := taskQueue[1..];
    }

    method SerializeNext()
      requires L.Inv(View()) && L.Enabled(View(), L.Serialize)
      modifies this
      ensures View() == L.Next(old(View()), L.Serialize) && L.Inv(View())
    {
      L.StepInv(View(), L.Serialize);
      var e, rest, batch := worker.rest[0], worker.rest[1..], worker.batch;
      handled := handled + [e];
      if e.json.Some? {
        batch := batch + [e.json.value];
        if Bytes(batch) >= MAX_BATCH_SIZE {
          kafka := kafka + [batch];
          batch := [];
        }
      }
      worker := FT.Running(rest, batch);
    }

    method FinishTask()
      requires L.Inv(View()) && L.Enabled(View(), L.Finish)
      modifies this
      ensures View() == L.Next(old(View()), L.Finish) && L.Inv(View())
    {
      L.StepInv(View(), L.Finish);
      if worker.batch != [] {
        kafka := kafka + [worker.batch];
      }
      worker := FT.Waiting;
    }
  }
}

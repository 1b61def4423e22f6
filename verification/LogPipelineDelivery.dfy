/** What Shutdown delivers: the records on their way to the exporter, and which of the queued ones are lost. */
module LogPipelineDelivery {
  import opened Prelude
  import opened QueueSpec
  import opened LogPipeline
  import opened LogPipelineRecords
  import opened LogPipelineSafety
  import opened LogPipelineRuns
  import opened LogPipelinePromises

  // ----- accepted records are exported in the order of their acceptance -----

  /**
   The records that EnqueueExport or Shutdown have sent on the export channel so far, none given up: in that order.
   */
  function Accepted(p: Pipe): seq<RecordId>
    requires p.work.Valid()
  {
    p.Exported() + (p.work.Rest() + InputRecords(p.input))
  }

  /** Nothing accepted is lost without a failed chunk; with the exporter stopped nothing is accepted any more. */
  ghost predicate Delivers(p: Pipe, p': Pipe, stopped: bool) {
    && p.work.Valid() && p'.work.Valid()
    && (p.failed ==> p'.failed)
    && (!p'.failed ==> Accepted(p) <= Accepted(p'))
    && (stopped && !p'.failed ==> Accepted(p') == Accepted(p))
    && (stopped ==> forall r :: r in Accepted(p') ==> r in Accepted(p))
  }

  lemma SameDelivers(p: Pipe, p': Pipe, stopped: bool)
    requires p.work.Valid() && p'.calls == p.calls && p'.work == p.work && p'.input == p.input && p'.failed == p.failed
    ensures Delivers(p, p', stopped)
  {
  }

  lemma SendDelivers(p: Pipe, p': Pipe, x: Item, stopped: bool)
    requires p.work.Valid() && p'.calls == p.calls && p'.work == p.work && p'.failed == p.failed
    requires p'.input == p.input + [x] && (stopped ==> x.Records() == [])
    ensures Delivers(p, p', stopped)
  {
    InputAppend(p.input, x);
    Longer(p.Exported(), p.work.Rest(), InputRecords(p.input), x.Records());
  }

  lemma Longer(a: seq<RecordId>, b: seq<RecordId>, s: seq<RecordId>, t: seq<RecordId>)
    ensures a + (b + (s + t)) == (a + (b + s)) + t
    ensures t == [] ==> a + (b + (s + t)) == a + (b + s)
  {
  }

  lemma TakeDelivers(p: Pipe, buf: BufferId, room: nat, verdict: Verdict, stopped: bool)
    requires p.work.Valid() && (stopped ==> verdict != Sent)
    ensures Delivers(p, TakeBatch(p, buf, room, verdict), stopped)
  {
    if verdict == Sent {
      SendDelivers(p, TakeBatch(p, buf, room, verdict), Batch(buf, QueueSpec.Batch(p.queue, room), false), stopped);
    } else {
      SameDelivers(p, TakeBatch(p, buf, room, verdict), stopped);
    }
  }

  lemma ReceiveDelivers(p: Pipe, stopped: bool)
    requires p.input != [] && p.work == NoWork
    ensures Delivers(p, Receive(p), stopped)
  {
    assert p.work.Rest() == [] && Receive(p).work.Rest() == p.input[0].Records();
    assert [] + InputRecords(p.input) == InputRecords(p.input);
    assert Accepted(Receive(p)) == Accepted(p);
  }

  lemma Advance(a: seq<RecordId>, rest: seq<RecordId>, n: nat, s: seq<RecordId>)
    requires n <= |rest|
    ensures (a + rest[..n]) + (rest[n..] + s) == a + (rest + s)
    ensures forall r :: r in (a + rest[..n]) + ([] + s) ==> r in a + (rest + s)
  {
  }

  lemma ChunkDelivers(p: Pipe, chunk: seq<RecordId>, ok: bool, stopped: bool)
    requires p.work.Work? && p.work.Valid() && chunk <= p.work.Rest()
    ensures Delivers(p, ExportChunk(p, chunk, ok), stopped)
  {
    var rest := p.work.Rest();
    assert chunk == rest[..|chunk|];
    RestAfterChunk(p, chunk, ok);
    CallAppend(p.calls, chunk);
    Advance(p.Exported(), rest, |chunk|, InputRecords(p.input));
  }

  lemma RespondDelivers(p: Pipe, stopped: bool)
    requires p.work.Work? && p.work.done == |p.work.item.Records()|
    ensures Delivers(p, p.(work := NoWork), stopped)
  {
    assert p.work.Rest() == [] == p.(work := NoWork).work.Rest();
  }

  // ----- every step and every run -----

  lemma PollDelivers(c: Config, s: State, e: PollStep)
    requires s.pipe.work.Valid() && PollEnabled(c, s, e)
    ensures Delivers(s.pipe, PollApply(c, s, e).pipe, s.ctl.expStopped)
  {
    if e == PollStep.Dequeue {
      TakeDelivers(s.pipe, s.poller.buf, c.batchSize, Offer(c, s, c.batchSize), s.ctl.expStopped);
    } else {
      SameDelivers(s.pipe, PollApply(c, s, e).pipe, s.ctl.expStopped);
    }
  }

  lemma FlushDelivers(c: Config, s: State, t: CallerId, e: FlushStep)
    requires s.pipe.work.Valid() && FlushEnabled(c, s, t, e)
    ensures Delivers(s.pipe, FlushApply(c, s, t, e).pipe, s.ctl.expStopped)
  {
    if e == Attempt {
      TakeDelivers(s.pipe, s.flushers[t].buf, c.queueCap, Offer(c, s, c.queueCap), s.ctl.expStopped);
    } else if e == Send {
      SendDelivers(s.pipe, SendMarker(s.pipe, t), Marker(t), s.ctl.expStopped);
    } else {
      SameDelivers(s.pipe, FlushApply(c, s, t, e).pipe, s.ctl.expStopped);
    }
  }

  lemma ShutDelivers(c: Config, s: State, e: ShutStep)
    requires Flags(s.ctl) && PipeFlags(s) && ShutEnabled(c, s, e)
    ensures Delivers(s.pipe, ShutApply(s, e).pipe, s.ctl.expStopped)
  {
    if e == SendExport {
      SendDelivers(s.pipe, SendHeld(s.pipe), s.pipe.held.value, s.ctl.expStopped);
    } else {
      SameDelivers(s.pipe, ShutApply(s, e).pipe, s.ctl.expStopped);
    }
  }

  lemma ExportDelivers(c: Config, s: State, e: ExportStep)
    requires c.Valid() && Memory(c, s) && s.pipe.work.Valid() && ExportEnabled(s, e)
    ensures Delivers(s.pipe, ExportApply(c, s, e).pipe, s.ctl.expStopped)
  {
    match e
    case Take => ReceiveDelivers(s.pipe, s.ctl.expStopped);
    case Chunk(ok) =>
      ChunkIsNext(c, s, ok);
      ChunkDelivers(s.pipe, NextChunk(c, s), ok, s.ctl.expStopped);
    case Respond => RespondDelivers(s.pipe, s.ctl.expStopped);
    case Exit => SameDelivers(s.pipe, s.pipe, s.ctl.expStopped);
  }

  lemma StepDelivers(c: Config, s: State, step: Step)
    requires c.Valid() && ControlInv(c, s) && Memory(c, s) && Enabled(c, s, step)
    ensures Delivers(s.pipe, After(c, s, step).pipe, s.ctl.expStopped)
  {
    match step
    case Emit(t, e) => SameDelivers(s.pipe, EmitApply(c, s, t, e).pipe, s.ctl.expStopped);
    case Poll(e) => PollDelivers(c, s, e);
    case Flush(t, e) => FlushDelivers(c, s, t, e);
    case Shut(e) => ShutDelivers(c, s, e);
    case Export(e) => ExportDelivers(c, s, e);
  }

  lemma StaysStopped(c: Config, s: State, step: Step)
    requires Enabled(c, s, step) && s.ctl.expStopped
    ensures After(c, s, step).ctl.expStopped
  {
    match step
    case Emit(t, e) =>
    case Poll(e) =>
    case Flush(t, e) =>
    case Shut(e) =>
    case Export(e) =>
  }

  lemma NextDelivers(c: Config, trace: seq<State>, i: nat)
    requires c.Valid() && IsRun(c, trace) && i + 1 < |trace|
    ensures Delivers(trace[i].pipe, trace[i + 1].pipe, trace[i].ctl.expStopped)
    ensures trace[i].ctl.expStopped ==> trace[i + 1].ctl.expStopped
  {
    RunInv(c, trace, i);
    assert StepAt(c, trace, i + 1);
    var step :| Enabled(c, trace[i], step) && trace[i + 1] == After(c, trace[i], step);
    StepDelivers(c, trace[i], step);
    if trace[i].ctl.expStopped {
      StaysStopped(c, trace[i], step);
    }
  }

  lemma DeliversOn(p: Pipe, q: Pipe, r: Pipe, stopped: bool, later: bool)
    requires Delivers(p, q, stopped) && Delivers(q, r, later) && (stopped ==> later)
    ensures Delivers(p, r, stopped)
  {
  }

  /**
   In every run, what has been accepted stays in front of what is accepted later until a chunk fails, and once the
   exporter is stopped nothing is added.
   */
  lemma {:induction false} RunDelivers(c: Config, trace: seq<State>, i: nat, k: nat)
    requires c.Valid() && IsRun(c, trace) && i <= k < |trace|
    ensures Delivers(trace[i].pipe, trace[k].pipe, trace[i].ctl.expStopped)
    ensures trace[i].ctl.expStopped ==> trace[k].ctl.expStopped
    decreases k
  {
    if i == k {
      RunInv(c, trace, i);
    } else {
      RunDelivers(c, trace, i, k - 1);
      NextDelivers(c, trace, k - 1);
      DeliversOn(trace[i].pipe, trace[k - 1].pipe, trace[k].pipe, trace[i].ctl.expStopped, trace[k - 1].ctl.expStopped);
    }
  }

  // ----- what a Shutdown that saw the export goroutine end has delivered -----

  lemma FinishedPipe(c: Config, trace: seq<State>, k: nat)
    requires c.Valid() && IsRun(c, trace) && k < |trace| && trace[k].ctl.shut == Finished(true)
    ensures trace[k].pipe.work.Valid() && Accepted(trace[k].pipe) == trace[k].pipe.Exported()
    ensures trace[k].pipe.held == None
  {
    RunInv(c, trace, k);
    assert trace[k].pipe.input == [] && trace[k].pipe.work == NoWork;
    assert InputRecords([]) == [];
  }

  lemma InAccepted(p: Pipe, r: RecordId)
    requires p.work.Valid()
    ensures r in Accepted(p) <==> r in p.Exported() || r in p.work.Rest() || r in InputRecords(p.input)
  {
  }

  lemma NotQueuedTwice(p: Pipe, r: RecordId)
    requires Conserved(p) && r in Accepted(p)
    ensures r !in p.queue && r !in p.HeldRecords() && r !in p.overwritten && r !in p.discarded
  {
    InAccepted(p, r);
    assert Copies(p, r) <= 1;
  }

  /**
   When Shutdown returns after seeing the export goroutine end, and no chunk failed, exactly the records accepted before
   the exporter was stopped have been exported, in the order of their acceptance; so of what was in the pipeline when it
   was stopped, exactly the queued records are lost.
   */
  lemma ShutdownDelivers(c: Config, trace: seq<State>, i: nat, k: nat)
    requires c.Valid() && IsRun(c, trace) && i <= k < |trace|
    requires trace[i].ctl.expStopped && trace[k].ctl.shut == Finished(true) && !trace[k].pipe.failed
    ensures trace[i].pipe.work.Valid()
    ensures trace[k].pipe.Exported() == Accepted(trace[i].pipe)
    ensures forall r :: InPipeline(trace[i].pipe, r) ==>
              (r in trace[k].pipe.Exported() <==> r !in trace[i].pipe.queue)
  {
    RunInv(c, trace, i);
    RunDelivers(c, trace, i, k);
    FinishedPipe(c, trace, k);
    forall r | InPipeline(trace[i].pipe, r)
      ensures r in trace[k].pipe.Exported() <==> r !in trace[i].pipe.queue
    {
      InAccepted(trace[i].pipe, r);
      if r in Accepted(trace[i].pipe) {
        NotQueuedTwice(trace[i].pipe, r);
      }
    }
  }

  /** A record that is still queued when the exporter is stopped is never exported, whatever happens then. */
  lemma QueuedIsNeverExported(c: Config, trace: seq<State>, i: nat, k: nat, r: RecordId)
    requires c.Valid() && IsRun(c, trace) && i <= k < |trace|
    requires trace[i].ctl.expStopped && r in trace[i].pipe.queue
    ensures r !in trace[k].pipe.Exported()
  {
    RunInv(c, trace, i);
    RunDelivers(c, trace, i, k);
    InAccepted(trace[k].pipe, r);
    if r in Accepted(trace[i].pipe) {
      NotQueuedTwice(trace[i].pipe, r);
    }
  }

  // ----- a ForceFlush call that returned nil because the exporter was stopped -----

  lemma EmptiedIsAccepted(c: Config, trace: seq<State>, j: nat, t: CallerId, r: RecordId)
    requires c.Valid() && IsRun(c, trace) && j + 1 < |trace| && Empties(c, trace, j, t) && !trace[j].ctl.expStopped
    requires trace[j].pipe.work.Valid() && InPipeline(trace[j].pipe, r)
    ensures trace[j + 1].pipe.work.Valid() && r in Accepted(trace[j + 1].pipe)
  {
    RunInv(c, trace, j);
    var p, buf := trace[j].pipe, trace[j].flushers[t].buf;
    var verdict := Offer(c, trace[j], c.queueCap);
    assert QueueSpec.Batch(p.queue, c.queueCap) == p.queue;
    InputAppend(p.input, Batch(buf, p.queue, false));
    InAccepted(trace[j + 1].pipe, r);
  }

  /**
   Whether the call that emptied the queue in step j took the record from the queue after the exporter was stopped.
   */
  ghost predicate Swallows(s: State, r: RecordId) {
    s.ctl.expStopped && r in s.pipe.queue
  }

  /**
   What becomes of the records when ForceFlush has returned nil because the exporter was stopped.  The call emptied the
   queue in some step; when a Shutdown has seen the export goroutine end, in state m, and no chunk failed, exactly the
   records that the call took after the stop have not been exported.
   */
  lemma StoppedNilExports(c: Config, trace: seq<State>, i: nat, k: nat, m: nat, t: CallerId)
    requires c.Valid() && IsRun(c, trace) && i <= k <= m < |trace|
    requires t !in trace[i].flushers && t in trace[k].flushers && trace[k].flushers[t] == Abandoned(false)
    requires trace[m].ctl.shut == Finished(true) && !trace[m].pipe.failed
    ensures exists j :: i <= j < k && Empties(c, trace, j, t) && ExportedButSwallowed(trace, j, m)
  {
    var j := EmptiedBefore(c, trace, i, k, t);
    EmptiedFate(c, trace, j, m, t);
  }

  ghost predicate ExportedButSwallowed(trace: seq<State>, j: nat, m: nat)
    requires j <= m < |trace|
  {
    && trace[j].pipe.work.Valid()
    && forall r :: InPipeline(trace[j].pipe, r) ==> (r in trace[m].pipe.Exported() <==> !Swallows(trace[j], r))
  }

  lemma EmptiedFate(c: Config, trace: seq<State>, j: nat, m: nat, t: CallerId)
    requires c.Valid() && IsRun(c, trace) && j < m < |trace| && Empties(c, trace, j, t)
    requires trace[m].ctl.shut == Finished(true) && !trace[m].pipe.failed
    ensures ExportedButSwallowed(trace, j, m)
  {
    RunInv(c, trace, j);
    if trace[j].ctl.expStopped {
      ShutdownDelivers(c, trace, j, m);
    } else {
      RunDelivers(c, trace, j + 1, m);
      FinishedPipe(c, trace, m);
      forall r | InPipeline(trace[j].pipe, r)
        ensures r in trace[m].pipe.Exported()
      {
        EmptiedIsAccepted(c, trace, j, t, r);
      }
    }
  }

  /** Step j is Shutdown taking everything from the queue. */
  ghost predicate FlushesAt(c: Config, trace: seq<State>, j: nat)
    requires j + 1 < |trace|
  {
    ShutEnabled(c, trace[j], FlushQueue) && trace[j + 1] == ShutApply(trace[j], FlushQueue)
  }

  /** What is in the queue was there before or is newer than everything before. */
  lemma StepQueues(c: Config, s: State, step: Step)
    requires c.Valid() && Sizes(c, s.pipe) && Enabled(c, s, step)
    ensures NewerQueue(s.pipe, After(c, s, step).pipe)
  {
    if step.Emit? {
      PutMoves(c, s.pipe);
    } else if step == Poll(PollStep.Dequeue) {
      TakeMoves(s.pipe, s.poller.buf, c.batchSize, Offer(c, s, c.batchSize));
    } else if step.Flush? && step.f == Attempt {
      TakeMoves(s.pipe, s.flushers[step.call].buf, c.queueCap, Offer(c, s, c.queueCap));
    } else {
      NothingQueued(c, s, step);
    }
  }

  lemma NothingQueued(c: Config, s: State, step: Step)
    requires Enabled(c, s, step)
    requires !step.Emit? && step != Poll(PollStep.Dequeue) && !(step.Flush? && step.f == Attempt)
    ensures var p' := After(c, s, step).pipe;
      p'.enqueued == s.pipe.enqueued && (p'.queue == s.pipe.queue || p'.queue == [])
  {
    match step
    case Poll(e) =>
    case Flush(t, e) =>
    case Shut(e) =>
    case Export(e) =>
  }

  ghost predicate NewerQueue(p: Pipe, p': Pipe) {
    p.enqueued <= p'.enqueued && forall r :: r in p'.queue ==> r in p.queue || r >= p.enqueued
  }

  lemma NextQueues(c: Config, trace: seq<State>, i: nat)
    requires c.Valid() && IsRun(c, trace) && i + 1 < |trace|
    ensures NewerQueue(trace[i].pipe, trace[i + 1].pipe)
  {
    RunInv(c, trace, i);
    assert StepAt(c, trace, i + 1);
    var step :| Enabled(c, trace[i], step) && trace[i + 1] == After(c, trace[i], step);
    StepQueues(c, trace[i], step);
  }

  lemma {:induction false} QueueAfterFlush(c: Config, trace: seq<State>, j: nat, k: nat)
    requires c.Valid() && IsRun(c, trace) && j < k < |trace| && FlushesAt(c, trace, j)
    ensures trace[j].pipe.enqueued <= trace[k].pipe.enqueued
    ensures forall r :: r in trace[k].pipe.queue ==> r >= trace[j].pipe.enqueued
    decreases k
  {
    if j + 1 < k {
      QueueAfterFlush(c, trace, j, k - 1);
      NextQueues(c, trace, k - 1);
    }
  }

  lemma StepOverwrites(c: Config, s: State, step: Step)
    requires c.Valid() && Sizes(c, s.pipe) && Enabled(c, s, step)
    ensures s.pipe.overwritten <= After(c, s, step).pipe.overwritten
    ensures forall r :: r in After(c, s, step).pipe.overwritten ==> r in s.pipe.overwritten || r in s.pipe.queue
  {
    if step.Emit? && step.e.Enqueue? {
      PutOverwrites(c, s.pipe);
    } else {
      NothingOverwritten(c, s, step);
    }
  }

  lemma NothingOverwritten(c: Config, s: State, step: Step)
    requires Enabled(c, s, step) && !(step.Emit? && step.e.Enqueue?)
    ensures After(c, s, step).pipe.overwritten == s.pipe.overwritten
  {
    match step
    case Emit(t, e) =>
    case Poll(e) =>
    case Flush(t, e) =>
    case Shut(e) =>
    case Export(e) =>
  }

  lemma PutOverwrites(c: Config, p: Pipe)
    requires c.Valid() && |p.queue| <= c.queueCap
    ensures p.overwritten <= PutRecord(c, p).overwritten
    ensures forall r :: r in PutRecord(c, p).overwritten ==> r in p.overwritten || r in p.queue
  {
  }

  lemma NextOverwrites(c: Config, trace: seq<State>, i: nat)
    requires c.Valid() && IsRun(c, trace) && i + 1 < |trace|
    ensures trace[i].pipe.overwritten <= trace[i + 1].pipe.overwritten
    ensures forall r :: r in trace[i + 1].pipe.overwritten ==>
              r in trace[i].pipe.overwritten || r in trace[i].pipe.queue
  {
    RunInv(c, trace, i);
    assert StepAt(c, trace, i + 1);
    var step :| Enabled(c, trace[i], step) && trace[i + 1] == After(c, trace[i], step);
    StepOverwrites(c, trace[i], step);
  }

  /**
   A record enqueued before the flush is overwritten later only if it was by then: it is not in the queue any more.
   */
  lemma {:induction false} OverwrittenAfterFlush(c: Config, trace: seq<State>, j: nat, k: nat, r: RecordId)
    requires c.Valid() && IsRun(c, trace) && j < k < |trace| && FlushesAt(c, trace, j) && r < trace[j].pipe.enqueued
    ensures r in trace[k].pipe.overwritten <==> r in trace[j].pipe.overwritten
    decreases k
  {
    if j + 1 < k {
      OverwrittenAfterFlush(c, trace, j, k - 1, r);
      QueueAfterFlush(c, trace, j, k - 1);
      NextOverwrites(c, trace, k - 1);
    }
  }

  /**
   When Shutdown, having flushed the queue in step j, returns after seeing the export goroutine end, every record
   enqueued before the flush has been exported, discarded, or was overwritten before; only later ones can be left in the
   queue.  Without a failed chunk everything accepted before the flush has been exported, so what was discarded since
   is what was flushed, by a cancelled send.
   */
  lemma ShutdownDrains(c: Config, trace: seq<State>, j: nat, k: nat)
    requires c.Valid() && IsRun(c, trace) && j < k < |trace| && FlushesAt(c, trace, j)
    requires trace[k].ctl.shut == Finished(true)
    ensures trace[j].pipe.work.Valid()
    ensures var p, p' := trace[j].pipe, trace[k].pipe;
            && (forall r: RecordId :: r < p.enqueued ==>
                  r in p'.Exported() || r in p.overwritten || r in p'.discarded)
            && (forall r: RecordId :: p.enqueued <= r < p'.enqueued ==>
                  r in p'.Exported() || r in p'.overwritten || r in p'.discarded || r in p'.queue)
            && (forall r: RecordId :: r in p'.queue ==> p.enqueued <= r < p'.enqueued)
    ensures !trace[k].pipe.failed ==>
            var p, p' := trace[j].pipe, trace[k].pipe;
            && Accepted(p) <= p'.Exported()
            && (forall r: RecordId :: r < p.enqueued && r in p'.discarded ==> r in p.discarded || r in p.queue)
  {
    RunDelivers(c, trace, j, k);
    FinishedPipe(c, trace, k);
    forall r: RecordId
      ensures DrainedOf(trace[j].pipe, trace[k].pipe, r)
    {
      OneDrained(c, trace, j, k, r);
    }
    AllDrained(trace[j].pipe, trace[k].pipe);
  }

  lemma OneDrained(c: Config, trace: seq<State>, j: nat, k: nat, r: RecordId)
    requires c.Valid() && IsRun(c, trace) && j < k < |trace| && FlushesAt(c, trace, j)
    requires trace[k].ctl.shut == Finished(true)
    ensures trace[j].pipe.work.Valid() && DrainedOf(trace[j].pipe, trace[k].pipe, r)
  {
    RunInv(c, trace, j);
    RunInv(c, trace, k);
    RunDelivers(c, trace, j, k);
    FinishedPipe(c, trace, k);
    QueueAfterFlush(c, trace, j, k);
    if r < trace[j].pipe.enqueued {
      OverwrittenAfterFlush(c, trace, j, k, r);
    }
    WhereItWent(trace[j].pipe, trace[k].pipe, r);
  }

  lemma AllDrained(p: Pipe, p': Pipe)
    requires p.work.Valid() && forall r: RecordId :: DrainedOf(p, p', r)
    ensures forall r: RecordId :: r < p.enqueued ==> r in p'.Exported() || r in p.overwritten || r in p'.discarded
    ensures forall r: RecordId :: p.enqueued <= r < p'.enqueued ==>
              r in p'.Exported() || r in p'.overwritten || r in p'.discarded || r in p'.queue
    ensures forall r: RecordId :: r in p'.queue ==> p.enqueued <= r < p'.enqueued
    ensures !p'.failed ==>
              forall r: RecordId :: r < p.enqueued && r in p'.discarded ==> r in p.discarded || r in p.queue
  {
    forall r: RecordId
      ensures r < p.enqueued ==> r in p'.Exported() || r in p.overwritten || r in p'.discarded
      ensures p.enqueued <= r < p'.enqueued ==>
                r in p'.Exported() || r in p'.overwritten || r in p'.discarded || r in p'.queue
      ensures r in p'.queue ==> p.enqueued <= r < p'.enqueued
      ensures !p'.failed && r < p.enqueued && r in p'.discarded ==> r in p.discarded || r in p.queue
    {
      assert DrainedOf(p, p', r);
    }
  }

  /** What ShutdownDrains says of one record. */
  ghost predicate DrainedOf(p: Pipe, p': Pipe, r: RecordId)
    requires p.work.Valid()
  {
    && (r < p.enqueued ==> r in p'.Exported() || r in p.overwritten || r in p'.discarded)
    && (p.enqueued <= r < p'.enqueued ==>
          r in p'.Exported() || r in p'.overwritten || r in p'.discarded || r in p'.queue)
    && (r in p'.queue ==> p.enqueued <= r < p'.enqueued)
    && (!p'.failed && r < p.enqueued && r in p'.discarded ==> r in p.discarded || r in p.queue)
  }

  lemma WhereItWent(p: Pipe, p': Pipe, r: RecordId)
    requires Conserved(p) && Conserved(p') && p.held == None && p'.held == None && p.enqueued <= p'.enqueued
    requires Accepted(p') == p'.Exported() && (!p'.failed ==> Accepted(p) <= Accepted(p'))
    requires r < p.enqueued ==> (r in p'.overwritten <==> r in p.overwritten)
    requires r in p'.queue ==> r >= p.enqueued
    ensures DrainedOf(p, p', r)
  {
    InAccepted(p', r);
    InAccepted(p, r);
    if r < p'.enqueued {
      SumPlaces(p', r);
    }
    if r in p'.queue {
      OnlyPlace(p', r);
    }
    if r < p.enqueued && !p'.failed && r in p'.discarded {
      SumPlaces(p, r);
      assert Copies(p', r) <= 1;
      assert r !in p'.Exported() && r !in p'.overwritten;
    }
    PrefixMember(Accepted(p), p'.Exported(), r);
  }

  lemma PrefixMember(s: seq<RecordId>, t: seq<RecordId>, r: RecordId)
    ensures s <= t && r in s ==> r in t
  {
  }

  /** Whether Shutdown flushed the queue at all can be told from its history. */
  lemma {:induction false} FlushedInSomeStep(c: Config, trace: seq<State>, k: nat)
    requires c.Valid() && IsRun(c, trace) && k < |trace|
    ensures trace[k].pipe.flushed <==> exists j :: 0 <= j < k && FlushesAt(c, trace, j)
  {
    if k > 0 {
      FlushedInSomeStep(c, trace, k - 1);
      NextFlushed(c, trace, k - 1);
    }
  }

  lemma NextFlushed(c: Config, trace: seq<State>, i: nat)
    requires c.Valid() && IsRun(c, trace) && i + 1 < |trace|
    ensures trace[i + 1].pipe.flushed <==> trace[i].pipe.flushed || FlushesAt(c, trace, i)
  {
    assert StepAt(c, trace, i + 1);
    var step :| Enabled(c, trace[i], step) && trace[i + 1] == After(c, trace[i], step);
    if step != Shut(FlushQueue) {
      FlushedStep(c, trace[i], step);
    }
  }

  lemma FlushedStep(c: Config, s: State, step: Step)
    requires Enabled(c, s, step) && step != Shut(FlushQueue)
    ensures After(c, s, step).pipe.flushed == s.pipe.flushed
  {
    match step
    case Emit(t, e) =>
    case Poll(e) =>
    case Flush(t, e) =>
    case Shut(e) =>
    case Export(e) =>
  }
}

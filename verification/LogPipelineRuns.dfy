/** The invariant of the log export pipeline holds in every state of every run; the promises that follow from it. */
module LogPipelineRuns {
  import opened LogPipeline
  import opened LogPipelineRecords
  import opened LogPipelineSafety

  ghost predicate Inv(c: Config, s: State) {
    && ControlInv(c, s)
    && Memory(c, s)
    && Records(c, s.pipe)
    && Calls(s)
    && Wakes(c, s)
  }

  // ----- records -----

  lemma StepRecords(c: Config, s: State, step: Step)
    requires c.Valid() && ControlInv(c, s) && Memory(c, s) && Records(c, s.pipe) && Enabled(c, s, step)
    ensures Records(c, After(c, s, step).pipe)
  {
    match step
    case Emit(t, e) => if e.Enqueue? { PutRecords(c, s.pipe); }
    case Poll(e) =>
      if e.Dequeue? { TakeRecords(c, s.pipe, s.poller.buf, c.batchSize, Offer(c, s, c.batchSize)); }
    case Flush(t, e) =>
      if e.Attempt? { TakeRecords(c, s.pipe, s.flushers[t].buf, c.queueCap, Offer(c, s, c.queueCap)); }
      if e.Send? { MarkerRecords(c, s.pipe, t); }
    case Shut(e) => HeldRecordsKept(c, s.pipe, s.arrays.next);
    case Export(e) =>
      if e.Take? { ReceiveRecords(c, s.pipe); }
      if e.Chunk? {
        ChunkIsNext(c, s, e.ok);
        ChunkRecords(c, s.pipe, NextChunk(c, s), e.ok);
      }
      if e.Respond? { RespondRecords(c, s.pipe); }
  }

  lemma RespondRecords(c: Config, p: Pipe)
    requires Records(c, p) && p.work.Work? && p.work.done == |p.work.item.Records()|
    ensures Records(c, p.(work := NoWork))
  {
    var p' := p.(work := NoWork);
    assert p.work.Rest() == [] == p'.work.Rest();
    assert forall r: RecordId :: Copies(p', r) == Copies(p, r);
    if !p.overtaken {
      var x, y, z, w :| OrderedAt(p, x, y, z, w);
      assert OrderedAt(p', x, y, z, w);
    }
  }

  // ----- ForceFlush calls -----

  /** Moving records out of the queue keeps what every ForceFlush call relies on. */
  lemma KeepCalls(s: State, p': Pipe)
    requires Calls(s) && QueueMoves(s.pipe, p')
    ensures forall t :: t in s.flushers ==> CallHolds(p', t, s.flushers[t])
  {
    forall t | t in s.flushers
      ensures CallHolds(p', t, s.flushers[t])
    {
      MovesKeepCall(s.pipe, p', t, s.flushers[t]);
    }
  }

  lemma EmitCalls(c: Config, s: State, t: CallerId, e: EmitStep)
    requires c.Valid() && ControlInv(c, s) && Calls(s) && EmitEnabled(s, t, e)
    ensures Calls(EmitApply(c, s, t, e))
  {
    if e.Enqueue? {
      PutMoves(c, s.pipe);
      KeepCalls(s, PutRecord(c, s.pipe));
    }
  }

  lemma PollCalls(c: Config, s: State, e: PollStep)
    requires Calls(s) && PollEnabled(c, s, e)
    ensures Calls(PollApply(c, s, e))
  {
    if e.Dequeue? {
      var verdict := Offer(c, s, c.batchSize);
      TakeMoves(s.pipe, s.poller.buf, c.batchSize, verdict);
      KeepCalls(s, TakeBatch(s.pipe, s.poller.buf, c.batchSize, verdict));
    }
  }

  lemma AttemptCalls(c: Config, s: State, t: CallerId)
    requires ControlInv(c, s) && Calls(s) && FlushEnabled(c, s, t, Attempt)
    ensures Calls(FlushApply(c, s, t, Attempt))
  {
    var verdict := Offer(c, s, c.queueCap);
    var p' := TakeBatch(s.pipe, s.flushers[t].buf, c.queueCap, verdict);
    TakeMoves(s.pipe, s.flushers[t].buf, c.queueCap, verdict);
    KeepCalls(s, p');
    if verdict != Refused {
      NewGoalHolds(c, s, t);
      AcceptedCalls(c, s, t);
    } else {
      RefusedCalls(c, s, t);
    }
  }

  /** An accepted attempt empties the queue: its buffer is as large as the queue. */
  lemma NewGoalHolds(c: Config, s: State, t: CallerId)
    requires ControlInv(c, s) && FlushEnabled(c, s, t, Attempt) && Offer(c, s, c.queueCap) != Refused
    ensures GoalHolds(TakeBatch(s.pipe, s.flushers[t].buf, c.queueCap, Offer(c, s, c.queueCap)), NewGoal(s))
  {
    assert TakeBatch(s.pipe, s.flushers[t].buf, c.queueCap, Offer(c, s, c.queueCap)).queue == [];
  }

  /** The calls rely on no less after an attempt, if they all still hold of the records. */
  lemma AcceptedCalls(c: Config, s: State, t: CallerId)
    requires ControlInv(c, s) && Calls(s) && FlushEnabled(c, s, t, Attempt) && Offer(c, s, c.queueCap) != Refused
    requires var p' := TakeBatch(s.pipe, s.flushers[t].buf, c.queueCap, Offer(c, s, c.queueCap));
      GoalHolds(p', NewGoal(s)) && forall u :: u in s.flushers ==> CallHolds(p', u, s.flushers[u])
    ensures Calls(FlushApply(c, s, t, Attempt))
  {
  }

  lemma RefusedCalls(c: Config, s: State, t: CallerId)
    requires ControlInv(c, s) && Calls(s) && FlushEnabled(c, s, t, Attempt) && Offer(c, s, c.queueCap) == Refused
    requires var p' := TakeBatch(s.pipe, s.flushers[t].buf, c.queueCap, Refused);
      forall u :: u in s.flushers ==> CallHolds(p', u, s.flushers[u])
    ensures Calls(FlushApply(c, s, t, Attempt))
  {
  }

  lemma SendCalls(c: Config, s: State, t: CallerId)
    requires ControlInv(c, s) && Calls(s) && FlushEnabled(c, s, t, Send)
    ensures Calls(FlushApply(c, s, t, Send))
  {
    var p' := SendMarker(s.pipe, t);
    assert Marker(t) !in s.pipe.input;
    BehindAbsent(s.pipe.input, t);
    BehindAppend(s.pipe.input, Marker(t), t);
    forall u | u in s.flushers
      ensures CallHolds(p', u, s.flushers[u])
    {
      MarkerKeepsCall(s.pipe, t, u, s.flushers[u]);
    }
    assert CallHolds(p', t, Awaiting(s.flushers[t].goal));
  }

  lemma FlushCalls(c: Config, s: State, t: CallerId, e: FlushStep)
    requires Calls(s) && FlushEnabled(c, s, t, e) && e != Attempt && e != Send
    ensures Calls(FlushApply(c, s, t, e))
  {
  }

  lemma ShutCalls(c: Config, s: State, e: ShutStep)
    requires ControlInv(c, s) && Calls(s) && ShutEnabled(c, s, e)
    ensures Calls(ShutApply(s, e))
  {
    forall t | t in s.flushers
      ensures CallHolds(ShutPipe(s, e), t, s.flushers[t])
    {
      HeldKeepsCall(s.pipe, t, s.flushers[t]);
      if e.FlushQueue? {
        FlushAllKeepsCall(s.pipe, s.arrays.next, t, s.flushers[t]);
      }
    }
  }

  lemma ExportCalls(c: Config, s: State, e: ExportStep)
    requires c.Valid() && Memory(c, s) && Calls(s) && ExportEnabled(s, e) && e != Respond
    ensures Calls(ExportApply(c, s, e))
  {
    if e.Chunk? {
      ChunkIsNext(c, s, e.ok);
    }
    forall t | t in s.flushers
      ensures CallHolds(ExportApply(c, s, e).pipe, t, s.flushers[t])
    {
      if e.Take? {
        ReceiveKeepsCall(s.pipe, t, s.flushers[t]);
      }
      if e.Chunk? {
        ChunkKeepsCall(s.pipe, NextChunk(c, s), e.ok, t, s.flushers[t]);
      }
    }
  }

  lemma RespondCalls(c: Config, s: State)
    requires Calls(s) && ExportEnabled(s, Respond)
    ensures Calls(ExportApply(c, s, Respond))
  {
    var s' := ExportApply(c, s, Respond);
    forall t | t in s'.flushers
      ensures CallHolds(s'.pipe, t, s'.flushers[t])
    {
      assert CallHolds(s.pipe, t, s.flushers[t]);
    }
  }

  lemma StepCalls(c: Config, s: State, step: Step)
    requires c.Valid() && ControlInv(c, s) && Memory(c, s) && Calls(s) && Enabled(c, s, step)
    ensures Calls(After(c, s, step))
  {
    match step
    case Emit(t, e) => EmitCalls(c, s, t, e);
    case Poll(e) => PollCalls(c, s, e);
    case Flush(t, e) =>
      if e == Attempt { AttemptCalls(c, s, t); }
      else if e == Send { SendCalls(c, s, t); }
      else { FlushCalls(c, s, t, e); }
    case Shut(e) => ShutCalls(c, s, e);
    case Export(e) => if e == Respond { RespondCalls(c, s); } else { ExportCalls(c, s, e); }
  }

  // ----- wake-ups -----

  lemma StepWakes(c: Config, s: State, step: Step)
    requires ControlInv(c, s) && Wakes(c, s) && Enabled(c, s, step)
    ensures Wakes(c, After(c, s, step))
  {
    match step
    case Emit(t, e) => EmitWakes(c, s, t, e);
    case Poll(e) => PollWakes(c, s, e);
    case Flush(t, e) => FlushWakes(c, s, t, e);
    case Shut(e) =>
    case Export(e) =>
  }

  lemma PollWakes(c: Config, s: State, e: PollStep)
    requires Wakes(c, s) && PollEnabled(c, s, e)
    ensures Wakes(c, PollApply(c, s, e))
  {
  }

  lemma FlushWakes(c: Config, s: State, t: CallerId, e: FlushStep)
    requires Wakes(c, s) && FlushEnabled(c, s, t, e)
    ensures Wakes(c, FlushApply(c, s, t, e))
  {
  }

  lemma EmitWakes(c: Config, s: State, t: CallerId, e: EmitStep)
    requires Wakes(c, s) && EmitEnabled(s, t, e)
    ensures Wakes(c, EmitApply(c, s, t, e))
  {
    var s' := EmitApply(c, s, t, e);
    if e.Check? && |s.pipe.queue| >= c.batchSize && s.poller.pc == Waiting && !s.poller.trigger {
      var u :| u in s.emitters && s.emitters[u] == Triggering;
      assert s'.emitters[u] == Triggering;
    }
    if e.Enqueue? && |s'.pipe.queue| >= c.batchSize {
      assert s'.emitters[t] == Triggering;
    }
  }

  // ----- every run -----

  lemma StepMemory(c: Config, s: State, step: Step)
    requires Memory(c, s) && Enabled(c, s, step)
    ensures Memory(c, After(c, s, step))
  {
    match step
    case Emit(t, e) => EmitMemory(c, s, t, e);
    case Poll(e) => if e == PollStep.Dequeue { PollDequeueMemory(c, s); } else { PollMemory(c, s, e); }
    case Flush(t, e) => if e == Attempt { AttemptMemory(c, s, t); } else { FlushMemory(c, s, t, e); }
    case Shut(e) => ShutMemory(c, s, e);
    case Export(e) => if e == Respond { RespondMemory(c, s); } else { ExportMemory(c, s, e); }
  }

  lemma StepControl(c: Config, s: State, step: Step)
    requires c.Valid() && ControlInv(c, s) && Enabled(c, s, step)
    ensures ControlInv(c, After(c, s, step))
  {
    match step
    case Emit(t, e) => EmitControl(c, s, t, e);
    case Poll(e) => PollControl(c, s, e);
    case Flush(t, e) => if e == Attempt { AttemptControl(c, s, t); } else { FlushControl(c, s, t, e); }
    case Shut(e) => ShutControlInv(c, s, e);
    case Export(e) => ExportControl(c, s, e);
  }

  lemma StepInv(c: Config, s: State, step: Step)
    requires c.Valid() && Inv(c, s) && Enabled(c, s, step)
    ensures Inv(c, After(c, s, step))
  {
    StepControl(c, s, step);
    StepMemory(c, s, step);
    StepRecords(c, s, step);
    StepCalls(c, s, step);
    StepWakes(c, s, step);
  }

  lemma InitInv(c: Config)
    requires c.Valid()
    ensures Inv(c, Init(c))
  {
    assert OrderedAt(EMPTY_PIPE, 0, 0, 0, 0);
  }

  /** Every state of every run satisfies the invariant. */
  lemma {:induction false} RunInv(c: Config, trace: seq<State>, i: nat)
    requires c.Valid() && IsRun(c, trace) && i < |trace|
    ensures Inv(c, trace[i])
  {
    if i == 0 {
      InitInv(c);
    } else {
      RunInv(c, trace, i - 1);
      assert StepAt(c, trace, i);
      var step :| Enabled(c, trace[i - 1], step) && trace[i] == After(c, trace[i - 1], step);
      StepInv(c, trace[i - 1], step);
    }
  }
}

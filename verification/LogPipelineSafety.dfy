/** Invariants of the log export pipeline and what follows from them for every run. */
module LogPipelineSafety {
  import opened Prelude
  import opened LogPipeline
  import opened LogPipelineRecords

  // ----- control -----

  /** How far Shutdown got determines the stop flags, the channel's state and who may hold records. */
  ghost predicate Flags(k: Control) {
    && (k.stopped <==> k.shut != NotStarted)
    && (k.killed ==> k.shut != NotStarted && k.shut != Swapped)
    && (k.inputMu == Shutter <==> k.shut == ExportSending || k.shut == Draining)
    && (k.inputMu.Flusher? ==> !k.closed)
    && (k.expStopped <==> k.shut == Closing || k.shut == Draining || k.shut.Finished?)
    && (k.closed <==> k.shut == Draining || k.shut.Finished?)
    && (k.shut == Finished(true) ==> k.exportDone)
    && (k.exportDone ==> k.closed)
  }

  ghost predicate PipeFlags(s: State) {
    && (s.pipe.held.Some? <==> s.ctl.shut == ExportLocking || s.ctl.shut == ExportSending)
    && (s.pipe.held.Some? ==> s.pipe.held.value.Batch? && s.pipe.HeldRecords() != [])
    && (s.ctl.exportDone ==> s.pipe.input == [] && s.pipe.work == NoWork)
    && (s.pipe.discarded != [] ==> s.pipe.failed || s.ctl.stopped)
    && (s.pipe.flushed || s.pipe.held.Some? ==> s.ctl.stopped && s.pipe.flushed)
    && s.pipe.work.Valid()
    && (s.ctl.shut == Flushing || s.pipe.held.Some? ==> s.poller.pc == Dead)
    && (s.pipe.overtaken ==> s.flushers != map[])
  }

  /** A ForceFlush call is sending exactly when it holds inputMu. */
  ghost predicate Locks(s: State) {
    && (s.ctl.inputMu.Flusher? ==> s.ctl.inputMu.call in s.flushers && s.flushers[s.ctl.inputMu.call].Sending?)
    && (forall t :: t in s.flushers && s.flushers[t].Sending? ==> s.ctl.inputMu == Flusher(t))
    && (forall t :: t in s.flushers ==> GoesOn(s.ctl, s.flushers[t]))
  }

  /** A call that emptied the queue when the exporter was stopped already does not get beyond that. */
  ghost predicate GoesOn(k: Control, pc: FlushPc) {
    pc.GoalOf().Some? && pc.GoalOf().value.stopped ==> k.expStopped && pc.Locking?
  }

  ghost predicate Sizes(c: Config, p: Pipe) {
    && |p.queue| <= c.queueCap
    && |p.input| <= c.inputCap
  }

  ghost predicate ControlInv(c: Config, s: State) {
    Flags(s.ctl) && PipeFlags(s) && Locks(s) && Sizes(c, s.pipe)
  }

  lemma EmitControl(c: Config, s: State, t: CallerId, e: EmitStep)
    requires c.Valid() && ControlInv(c, s) && EmitEnabled(s, t, e)
    ensures ControlInv(c, EmitApply(c, s, t, e))
  {
  }

  lemma PollControl(c: Config, s: State, e: PollStep)
    requires ControlInv(c, s) && PollEnabled(c, s, e)
    ensures ControlInv(c, PollApply(c, s, e))
  {
  }

  lemma FlushControl(c: Config, s: State, t: CallerId, e: FlushStep)
    requires ControlInv(c, s) && FlushEnabled(c, s, t, e) && e != Attempt
    ensures ControlInv(c, FlushApply(c, s, t, e))
  {
  }

  lemma AttemptControl(c: Config, s: State, t: CallerId)
    requires ControlInv(c, s) && FlushEnabled(c, s, t, Attempt)
    ensures ControlInv(c, FlushApply(c, s, t, Attempt))
  {
    AttemptPipe(c, s, t);
    AttemptLocks(c, s, t);
  }

  lemma AttemptPipe(c: Config, s: State, t: CallerId)
    requires ControlInv(c, s) && FlushEnabled(c, s, t, Attempt)
    ensures PipeFlags(FlushApply(c, s, t, Attempt)) && Sizes(c, FlushApply(c, s, t, Attempt).pipe)
    ensures FlushApply(c, s, t, Attempt).ctl == s.ctl
  {
    assert t in FlushApply(c, s, t, Attempt).flushers;
  }

  lemma AttemptLocks(c: Config, s: State, t: CallerId)
    requires Locks(s) && FlushEnabled(c, s, t, Attempt)
    ensures Locks(FlushApply(c, s, t, Attempt))
  {
  }

  lemma ShutControlInv(c: Config, s: State, e: ShutStep)
    requires ControlInv(c, s) && ShutEnabled(c, s, e)
    ensures ControlInv(c, ShutApply(s, e))
  {
  }

  lemma ExportControl(c: Config, s: State, e: ExportStep)
    requires ControlInv(c, s) && ExportEnabled(s, e)
    ensures ControlInv(c, ExportApply(c, s, e))
  {
  }

  // ----- arrays -----

  /** Memory still holds the records of an accepted batch, in an array nobody may write. */
  ghost predicate Frozen(mem: map<BufferId, Array>, item: Item) {
    item.Batch? ==> item.buf in mem && mem[item.buf].owner == GivenAway && item.records <= mem[item.buf].data
  }

  ghost predicate Owns(mem: map<BufferId, Array>, b: BufferId, owner: Owner, size: nat) {
    b in mem && mem[b].owner == owner && |mem[b].data| == size
  }

  ghost predicate FlusherOwns(c: Config, mem: map<BufferId, Array>, t: CallerId, pc: FlushPc) {
    pc.Trying? || pc.Tried? ==> Owns(mem, pc.buf, FlushOwns(t), c.queueCap)
  }

  ghost predicate Memory(c: Config, s: State) {
    && (forall b :: b in s.arrays.mem ==> b < s.arrays.next)
    && Owns(s.arrays.mem, s.poller.buf, PollOwns, c.batchSize)
    && (forall t :: t in s.flushers ==> FlusherOwns(c, s.arrays.mem, t, s.flushers[t]))
    && (forall i :: 0 <= i < |s.pipe.input| ==> Frozen(s.arrays.mem, s.pipe.input[i]))
    && (s.pipe.work.Work? ==> Frozen(s.arrays.mem, s.pipe.work.item))
    && (s.pipe.held.Some? ==> Frozen(s.arrays.mem, s.pipe.held.value))
  }

  lemma EmitMemory(c: Config, s: State, t: CallerId, e: EmitStep)
    requires Memory(c, s) && EmitEnabled(s, t, e)
    ensures Memory(c, EmitApply(c, s, t, e))
  {
  }

  lemma PollMemory(c: Config, s: State, e: PollStep)
    requires Memory(c, s) && PollEnabled(c, s, e) && e != PollStep.Dequeue
    ensures Memory(c, PollApply(c, s, e))
  {
  }

  lemma PollDequeueMemory(c: Config, s: State)
    requires Memory(c, s) && PollEnabled(c, s, PollStep.Dequeue)
    ensures Memory(c, PollApply(c, s, PollStep.Dequeue))
  {
    if Offer(c, s, c.batchSize) == Refused {
      PollRefusedMemory(c, s);
    } else {
      PollAcceptedMemory(c, s);
    }
  }

  lemma PollRefusedMemory(c: Config, s: State)
    requires Memory(c, s) && PollEnabled(c, s, PollStep.Dequeue) && Offer(c, s, c.batchSize) == Refused
    ensures Memory(c, PollApply(c, s, PollStep.Dequeue))
  {
  }

  lemma PollAcceptedMemory(c: Config, s: State)
    requires Memory(c, s) && PollEnabled(c, s, PollStep.Dequeue) && Offer(c, s, c.batchSize) != Refused
    ensures Memory(c, PollApply(c, s, PollStep.Dequeue))
  {
  }

  lemma FlushMemory(c: Config, s: State, t: CallerId, e: FlushStep)
    requires Memory(c, s) && FlushEnabled(c, s, t, e) && e != Attempt
    ensures Memory(c, FlushApply(c, s, t, e))
  {
  }

  lemma AttemptMemory(c: Config, s: State, t: CallerId)
    requires Memory(c, s) && FlushEnabled(c, s, t, Attempt)
    ensures Memory(c, FlushApply(c, s, t, Attempt))
  {
  }

  lemma ShutMemory(c: Config, s: State, e: ShutStep)
    requires Memory(c, s) && ShutEnabled(c, s, e)
    ensures Memory(c, ShutApply(s, e))
  {
  }

  lemma ExportMemory(c: Config, s: State, e: ExportStep)
    requires Memory(c, s) && ExportEnabled(s, e) && e != Respond
    ensures Memory(c, ExportApply(c, s, e))
  {
  }

  lemma RespondMemory(c: Config, s: State)
    requires Memory(c, s) && ExportEnabled(s, Respond)
    ensures Memory(c, ExportApply(c, s, Respond))
  {
  }

  // ----- records -----

  ghost predicate ChunkSizes(c: Config, calls: seq<seq<RecordId>>) {
    forall i :: 0 <= i < |calls| ==> 1 <= |calls[i]| <= c.batchSize
  }

  ghost predicate Records(c: Config, p: Pipe) {
    && Conserved(p)
    && (!p.overtaken ==> Ordered(p))
    && ChunkSizes(c, p.calls)
  }

  lemma PutRecords(c: Config, p: Pipe)
    requires c.Valid() && Records(c, p) && Sizes(c, p)
    ensures Records(c, PutRecord(c, p))
  {
    forall r: RecordId { PutCopies(c, p, r); }
    if !p.overtaken { PutKeepsOrder(c, p); }
  }

  lemma TakeRecords(c: Config, p: Pipe, buf: BufferId, room: nat, verdict: Verdict)
    requires Records(c, p)
    ensures Records(c, TakeBatch(p, buf, room, verdict))
  {
    forall r: RecordId { TakeCopies(p, buf, room, verdict, r); }
    if !TakeBatch(p, buf, room, verdict).overtaken { TakeKeepsOrder(p, buf, room, verdict); }
  }

  lemma MarkerRecords(c: Config, p: Pipe, call: CallerId)
    requires Records(c, p)
    ensures Records(c, SendMarker(p, call))
  {
    forall r: RecordId { MarkerCopies(p, call, r); }
    if !p.overtaken { MarkerKeepsOrder(p, call); }
  }

  lemma HeldRecordsKept(c: Config, p: Pipe, buf: BufferId)
    requires Records(c, p)
    ensures p.held == None ==> Records(c, FlushAll(p, buf))
    ensures Records(c, SendHeld(p)) && Records(c, DropHeld(p))
  {
    if p.held == None {
      forall r: RecordId { FlushAllCopies(p, buf, r); }
      if !p.overtaken { FlushAllKeepsOrder(p, buf); }
    }
    forall r: RecordId { SendHeldCopies(p, r); }
    forall r: RecordId { DropHeldCopies(p, r); }
    if !p.overtaken { HeldKeepsOrder(p); }
  }

  lemma ReceiveRecords(c: Config, p: Pipe)
    requires Records(c, p) && p.input != [] && p.work == NoWork
    ensures Records(c, Receive(p))
  {
    forall r: RecordId { ReceiveCopies(p, r); }
    if !p.overtaken { ReceiveKeepsOrder(p); }
  }

  lemma ChunkRecords(c: Config, p: Pipe, chunk: seq<RecordId>, ok: bool)
    requires Records(c, p) && p.work.Work? && chunk <= p.work.Rest() && 1 <= |chunk| <= c.batchSize
    ensures Records(c, ExportChunk(p, chunk, ok))
  {
    ChunkConserved(p, chunk, ok);
    if !p.overtaken { ChunkKeepsOrder(p, chunk, ok); }
  }

  lemma ChunkConserved(p: Pipe, chunk: seq<RecordId>, ok: bool)
    requires Conserved(p) && p.work.Work? && chunk <= p.work.Rest()
    ensures Conserved(ExportChunk(p, chunk, ok))
  {
    RestAfterChunk(p, chunk, ok);
    forall r: RecordId
      ensures Copies(ExportChunk(p, chunk, ok), r) == Copies(p, r)
    {
      ChunkCopies(p, chunk, ok, r);
    }
  }

  /** The slice read from memory is the next part of the batch as it was accepted. */
  lemma ChunkIsNext(c: Config, s: State, ok: bool)
    requires c.Valid() && Memory(c, s) && ExportEnabled(s, Chunk(ok))
    ensures NextChunk(c, s) <= s.pipe.work.Rest()
    ensures 1 <= |NextChunk(c, s)| <= c.batchSize
  {
    var item, lo := s.pipe.work.item, s.pipe.work.done;
    var hi := Min(lo + c.batchSize, |item.records|);
    assert s.arrays.mem[item.buf].data[lo..hi] == item.records[lo..hi];
    assert item.records[lo..hi] == item.records[lo..][..hi - lo];
  }

  // ----- ForceFlush calls -----

  ghost predicate Sent(pc: FlushPc) {
    pc.Awaiting? || pc.Answered? || pc.Called? || pc.Abandoned?
  }

  ghost predicate Known(flushers: map<CallerId, FlushPc>, item: Item) {
    item.Marker? ==> item.call in flushers && Sent(flushers[item.call])
  }

  ghost predicate Calls(s: State) {
    && (forall i :: 0 <= i < |s.pipe.input| ==> Known(s.flushers, s.pipe.input[i]))
    && (s.pipe.work.Work? ==> Known(s.flushers, s.pipe.work.item))
    && (forall t :: t in s.flushers ==> CallHolds(s.pipe, t, s.flushers[t]))
  }

  // ----- wake-ups -----

  /** A full batch in the queue means that the poll goroutine is awake, will be woken, or is about to be triggered. */
  ghost predicate Wakes(c: Config, s: State) {
    s.poller.pc != Dead && |s.pipe.queue| >= c.batchSize ==>
      || s.poller.trigger
      || s.poller.pc == Woken
      || s.poller.pc == Retriggering
      || exists t :: t in s.emitters && s.emitters[t] == Triggering
  }
}

/** What the log export pipeline promises, for every run and every interleaving. */
module LogPipelinePromises {
  import opened Prelude
  import opened QueueSpec
  import opened LogPipeline
  import opened LogPipelineRecords
  import opened LogPipelineSafety
  import opened LogPipelineRuns

  // ----- conservation -----

  lemma OnceOnly(s: seq<RecordId>, j: nat, k: nat)
    requires j < k < |s| && Num(s, s[j]) <= 1
    ensures s[j] != s[k]
  {
    NumSplit(s, k, s[j]);
    assert s[..k][j] == s[j] && s[k..][0] == s[k];
  }

  /**
   Every record enqueued so far is in exactly one place: queued, flushed by Shutdown and not sent yet, in the export
   channel, in the hands of the export goroutine, exported, overwritten or discarded.  No record is exported twice.
   */
  lemma NothingLostNothingTwice(c: Config, trace: seq<State>, i: nat)
    requires c.Valid() && IsRun(c, trace) && i < |trace|
    ensures trace[i].pipe.work.Valid()
    ensures forall r: RecordId :: Copies(trace[i].pipe, r) == if r < trace[i].pipe.enqueued then 1 else 0
    ensures var exported := trace[i].pipe.Exported();
            forall j, k :: 0 <= j < k < |exported| ==> exported[j] != exported[k]
  {
    RunInv(c, trace, i);
    var exported := trace[i].pipe.Exported();
    forall j, k | 0 <= j < k < |exported|
      ensures exported[j] != exported[k]
    {
      assert Copies(trace[i].pipe, exported[j]) <= 1;
      OnceOnly(exported, j, k);
    }
  }

  /** Every call of the wrapped exporter gets between one record and the maximal batch size. */
  lemma ChunksAreBounded(c: Config, trace: seq<State>, i: nat)
    requires c.Valid() && IsRun(c, trace) && i < |trace|
    ensures forall j :: 0 <= j < |trace[i].pipe.calls| ==> 1 <= |trace[i].pipe.calls[j]| <= c.batchSize
  {
    RunInv(c, trace, i);
  }

  // ----- payload arrays -----

  lemma StepWritesNoGivenArray(c: Config, s: State, step: Step, b: BufferId)
    requires Memory(c, s) && Enabled(c, s, step)
    requires b in s.arrays.mem && s.arrays.mem[b].owner == GivenAway
    ensures b in After(c, s, step).arrays.mem && After(c, s, step).arrays.mem[b] == s.arrays.mem[b]
  {
    match step
    case Emit(t, e) =>
    case Poll(e) =>
    case Flush(t, e) => assert t in s.flushers ==> FlusherOwns(c, s.arrays.mem, t, s.flushers[t]);
    case Shut(e) =>
    case Export(e) =>
  }

  lemma NextWritesNoGivenArray(c: Config, trace: seq<State>, k: nat, b: BufferId)
    requires c.Valid() && IsRun(c, trace) && k + 1 < |trace|
    requires b in trace[k].arrays.mem && trace[k].arrays.mem[b].owner == GivenAway
    ensures b in trace[k + 1].arrays.mem && trace[k + 1].arrays.mem[b] == trace[k].arrays.mem[b]
  {
    RunInv(c, trace, k);
    assert StepAt(c, trace, k + 1);
    var step :| Enabled(c, trace[k], step) && trace[k + 1] == After(c, trace[k], step);
    StepWritesNoGivenArray(c, trace[k], step, b);
  }

  /** An array whose batch EnqueueExport accepted is never written again. */
  lemma {:induction false} AcceptedArraysAreFrozen(c: Config, trace: seq<State>, i: nat, k: nat, b: BufferId)
    requires c.Valid() && IsRun(c, trace) && i <= k < |trace|
    requires b in trace[i].arrays.mem && trace[i].arrays.mem[b].owner == GivenAway
    ensures b in trace[k].arrays.mem && trace[k].arrays.mem[b] == trace[i].arrays.mem[b]
    decreases k
  {
    if i < k {
      AcceptedArraysAreFrozen(c, trace, i, k - 1, b);
      NextWritesNoGivenArray(c, trace, k - 1, b);
    }
  }

  /** What the export goroutine reads is what was accepted: every buffered batch is still intact in its array. */
  lemma BufferedBatchesAreIntact(c: Config, trace: seq<State>, i: nat)
    requires c.Valid() && IsRun(c, trace) && i < |trace|
    ensures var s := trace[i];
            forall x :: x in s.pipe.input && x.Batch? ==>
              x.buf in s.arrays.mem && s.arrays.mem[x.buf].owner == GivenAway && x.records <= s.arrays.mem[x.buf].data
  {
    RunInv(c, trace, i);
    forall x | x in trace[i].pipe.input
      ensures Frozen(trace[i].arrays.mem, x)
    {
      var k :| 0 <= k < |trace[i].pipe.input| && trace[i].pipe.input[k] == x;
    }
  }

  // ----- order -----

  /**
   The exported records, the ones in hand, the buffered ones, the ones held by Shutdown and the queued ones are, one
   after the other, in strictly increasing emission order.
   */
  ghost predicate InOrder(p: Pipe) {
    p.work.Valid() && Within(Line(p), 0, p.enqueued)
  }

  /** The order is kept, also by Shutdown, until a batch is accepted while Shutdown holds what it has flushed. */
  lemma EmissionOrder(c: Config, trace: seq<State>, i: nat)
    requires c.Valid() && IsRun(c, trace) && i < |trace| && !trace[i].pipe.overtaken
    ensures InOrder(trace[i].pipe)
  {
    RunInv(c, trace, i);
    OrderedLine(trace[i].pipe);
  }

  lemma Overtakes(front: seq<RecordId>, input: seq<RecordId>, held: seq<RecordId>, rest: seq<RecordId>, n: nat, hi: nat)
    requires n < |input| && held != [] && input[n] > held[0]
    ensures !Within(front + input + held + rest, 0, hi)
  {
    var s := front + input + held + rest;
    assert s[|front| + n] == input[n] && s[|front| + |input|] == held[0];
  }

  lemma OlderHeld(p: Pipe)
    requires Ordered(p) && p.HeldRecords() != [] && p.queue != []
    ensures p.HeldRecords()[0] < p.queue[0]
  {
    var a, b, c, d :| OrderedAt(p, a, b, c, d);
    assert p.HeldRecords()[0] < d <= p.queue[0];
  }

  /** Accepting a batch behind records that Shutdown holds does break the order: the held ones are older. */
  lemma AcceptedBehindHeld(p: Pipe, buf: BufferId, room: nat)
    requires Ordered(p) && p.HeldRecords() != [] && QueueSpec.Batch(p.queue, room) != []
    ensures !InOrder(TakeBatch(p, buf, room, Sent))
  {
    var p' := TakeBatch(p, buf, room, Sent);
    var batch := QueueSpec.Batch(p.queue, room);
    OlderHeld(p);
    InputAppend(p.input, Batch(buf, batch, false));
    var n := |InputRecords(p.input)|;
    assert InputRecords(p'.input)[n] == batch[0] == p.queue[0];
    Overtakes(p.Exported() + p'.work.Rest(), InputRecords(p'.input), p'.HeldRecords(), p'.queue, n, p.enqueued);
  }

  lemma OvertakenStays(c: Config, s: State, step: Step)
    requires Enabled(c, s, step) && s.pipe.overtaken
    ensures After(c, s, step).pipe.overtaken
  {
  }

  lemma OfferOvertakes(c: Config, s: State, buf: BufferId, room: nat)
    requires Ordered(s.pipe) && PipeFlags(s) && !s.pipe.overtaken
    ensures var p' := TakeBatch(s.pipe, buf, room, Offer(c, s, room)); p'.overtaken ==> !InOrder(p')
  {
    if Offer(c, s, room) == Sent && s.pipe.held.Some? {
      AcceptedBehindHeld(s.pipe, buf, room);
    }
  }

  /** The step that sets the history bit is the acceptance of such a batch. */
  lemma OvertakingStep(c: Config, s: State, step: Step)
    requires Ordered(s.pipe) && PipeFlags(s) && Enabled(c, s, step) && !s.pipe.overtaken
    ensures After(c, s, step).pipe.overtaken ==> !InOrder(After(c, s, step).pipe)
  {
    if step == Poll(PollStep.Dequeue) {
      OfferOvertakes(c, s, s.poller.buf, c.batchSize);
    } else if step.Flush? && step.f == Attempt {
      OfferOvertakes(c, s, s.flushers[step.call].buf, c.queueCap);
    } else {
      NothingOvertakes(c, s, step);
    }
  }

  lemma NothingOvertakes(c: Config, s: State, step: Step)
    requires Enabled(c, s, step) && step != Poll(PollStep.Dequeue) && !(step.Flush? && step.f == Attempt)
    ensures After(c, s, step).pipe.overtaken == s.pipe.overtaken
  {
  }

  lemma OvertakingNext(c: Config, trace: seq<State>, i: nat)
    requires c.Valid() && IsRun(c, trace) && i + 1 < |trace|
    ensures trace[i].pipe.overtaken ==> trace[i + 1].pipe.overtaken
    ensures !trace[i].pipe.overtaken && trace[i + 1].pipe.overtaken ==> !InOrder(trace[i + 1].pipe)
  {
    RunInv(c, trace, i);
    assert StepAt(c, trace, i + 1);
    var step :| Enabled(c, trace[i], step) && trace[i + 1] == After(c, trace[i], step);
    if trace[i].pipe.overtaken {
      OvertakenStays(c, trace[i], step);
    } else {
      OvertakingStep(c, trace[i], step);
    }
  }

  /** The states of a run up to number i are in order. */
  ghost predicate InOrderUpTo(trace: seq<State>, i: nat)
    requires i < |trace|
  {
    forall j :: 0 <= j <= i ==> InOrder(trace[j].pipe)
  }

  /** All states of a run up to now are in order if and only if no batch was accepted while Shutdown held its flush. */
  lemma {:induction false} EmissionOrderIff(c: Config, trace: seq<State>, i: nat)
    requires c.Valid() && IsRun(c, trace) && i < |trace|
    ensures !trace[i].pipe.overtaken <==> InOrderUpTo(trace, i)
  {
    if !trace[i].pipe.overtaken {
      EmissionOrder(c, trace, i);
    }
    if i > 0 {
      EmissionOrderIff(c, trace, i - 1);
      OvertakingNext(c, trace, i - 1);
      UpToNext(trace, i);
    }
  }

  lemma UpToNext(trace: seq<State>, i: nat)
    requires 0 < i < |trace|
    ensures InOrderUpTo(trace, i) <==> InOrderUpTo(trace, i - 1) && InOrder(trace[i].pipe)
  {
  }

  /** Without a ForceFlush call a run is in order to its end, Shutdown included. */
  lemma OrderWithoutForceFlush(c: Config, trace: seq<State>, i: nat)
    requires c.Valid() && IsRun(c, trace) && i < |trace| && trace[i].flushers == map[]
    ensures InOrder(trace[i].pipe)
  {
    RunInv(c, trace, i);
    EmissionOrder(c, trace, i);
  }

  // ----- wake-ups -----

  /** While the poll goroutine lives, a full batch in the queue never goes unnoticed. */
  lemma NoLostWakeUp(c: Config, trace: seq<State>, i: nat)
    requires c.Valid() && IsRun(c, trace) && i < |trace|
    requires trace[i].poller.pc != Dead && |trace[i].pipe.queue| >= c.batchSize
    ensures || trace[i].poller.trigger || trace[i].poller.pc == Woken || trace[i].poller.pc == Retriggering
            || exists t :: t in trace[i].emitters && trace[i].emitters[t] == Triggering
  {
    RunInv(c, trace, i);
  }

  ghost predicate NeverTriggered(s: State) {
    && !s.poller.trigger
    && s.poller.pc != Retriggering
    && forall t :: t in s.emitters ==> s.emitters[t] != Triggering
  }

  /**
   With a batch size above the queue size, which the configuration allows, no OnEmit ever triggers an export: only
   the ticker and explicit flushes do.
   */
  lemma {:induction false} OversizedBatchesNeverTrigger(c: Config, trace: seq<State>, i: nat)
    requires c.Valid() && c.batchSize > c.queueCap && IsRun(c, trace) && i < |trace|
    ensures NeverTriggered(trace[i])
  {
    if i > 0 {
      var s := trace[i - 1];
      OversizedBatchesNeverTrigger(c, trace, i - 1);
      RunInv(c, trace, i - 1);
      assert StepAt(c, trace, i);
      var step :| Enabled(c, s, step) && trace[i] == After(c, s, step);
      StepSmall(c, s, step);
    }
  }

  lemma StepSmall(c: Config, s: State, step: Step)
    requires c.Valid() && c.batchSize > c.queueCap && Sizes(c, s.pipe) && NeverTriggered(s) && Enabled(c, s, step)
    ensures NeverTriggered(After(c, s, step))
  {
    match step
    case Emit(t, e) =>
    case Poll(e) =>
    case Flush(t, e) =>
    case Shut(e) =>
    case Export(e) =>
  }

  // ----- ForceFlush -----

  /** Once a ForceFlush call has a goal, it keeps it until it returns. */
  lemma {:induction false} GoalIsKept(c: Config, trace: seq<State>, i: nat, k: nat, t: CallerId)
    requires c.Valid() && IsRun(c, trace) && i <= k < |trace|
    requires t in trace[i].flushers && trace[i].flushers[t].GoalOf().Some?
    ensures t in trace[k].flushers
    ensures trace[k].flushers[t].Abandoned? || trace[k].flushers[t].GoalOf() == trace[i].flushers[t].GoalOf()
    decreases k
  {
    if i < k {
      GoalIsKept(c, trace, i, k - 1, t);
      assert StepAt(c, trace, k);
      FollowsKeepsGoal(c, trace[k - 1], trace[k], t);
    }
  }

  lemma StepKeepsGoal(c: Config, s: State, step: Step, t: CallerId)
    requires t in s.flushers && (s.flushers[t].Abandoned? || s.flushers[t].GoalOf().Some?) && Enabled(c, s, step)
    ensures t in After(c, s, step).flushers
    ensures var pc' := After(c, s, step).flushers[t];
            pc'.Abandoned? || (!s.flushers[t].Abandoned? && pc'.GoalOf() == s.flushers[t].GoalOf())
  {
    match step
    case Emit(u, e) =>
    case Poll(e) =>
    case Flush(u, e) =>
    case Shut(e) =>
    case Export(e) =>
  }

  lemma FollowsKeepsGoal(c: Config, s: State, s': State, t: CallerId)
    requires t in s.flushers && (s.flushers[t].Abandoned? || s.flushers[t].GoalOf().Some?) && Follows(c, s, s')
    ensures t in s'.flushers
    ensures s'.flushers[t].Abandoned?
         || (!s.flushers[t].Abandoned? && s'.flushers[t].GoalOf() == s.flushers[t].GoalOf())
  {
    var step :| Enabled(c, s, step) && s' == After(c, s, step);
    StepKeepsGoal(c, s, step, t);
  }

  lemma SumPlaces(p: Pipe, r: RecordId)
    requires Conserved(p) && r < p.enqueued
    ensures r in p.Exported() || r in p.work.Rest() || r in InputRecords(p.input) || r in p.HeldRecords()
         || r in p.queue || r in p.overwritten || r in p.discarded
  {
    assert Copies(p, r) == 1;
  }

  lemma OnlyPlace(p: Pipe, r: RecordId)
    requires Conserved(p)
    requires r in p.Exported() || r in p.work.Rest() || r in InputRecords(p.input) || r in p.queue
    ensures r < p.enqueued && r !in p.overwritten && r !in p.discarded && r !in p.HeldRecords()
  {
    assert Copies(p, r) >= 1;
  }

  /** The records the pipeline has accepted and not lost: exported, in hand, buffered or queued. */
  ghost predicate InPipeline(p: Pipe, r: RecordId)
    requires p.work.Valid()
  {
    r in p.Exported() || r in p.work.Rest() || r in InputRecords(p.input) || r in p.queue
  }

  /** Step j is the call emptying the queue. */
  ghost predicate Empties(c: Config, trace: seq<State>, j: nat, t: CallerId)
    requires j + 1 < |trace|
  {
    && FlushEnabled(c, trace[j], t, Attempt)
    && trace[j + 1] == FlushApply(c, trace[j], t, Attempt)
    && Offer(c, trace[j], c.queueCap) != Refused
  }

  /**
   The flush guarantee.  A ForceFlush call empties the queue in step j and calls the wrapped exporter's ForceFlush in
   state k or has called it, whatever Shutdown does meanwhile: every record that was queued, buffered, in hand or
   exported when the call emptied the queue has by then been passed to the wrapped Export, or was given up after a
   failed chunk; without a failed chunk it has been passed to Export.
   */
  lemma FlushGuarantee(c: Config, trace: seq<State>, j: nat, k: nat, t: CallerId)
    requires c.Valid() && IsRun(c, trace) && j < k < |trace|
    requires Empties(c, trace, j, t)
    requires t in trace[k].flushers && (trace[k].flushers[t].Answered? || trace[k].flushers[t].Called?)
    ensures trace[j].pipe.work.Valid()
    ensures forall r :: InPipeline(trace[j].pipe, r) ==> r in trace[k].pipe.Exported() || r in trace[k].pipe.discarded
    ensures !trace[k].pipe.failed ==> forall r :: InPipeline(trace[j].pipe, r) ==> r in trace[k].pipe.Exported()
  {
    RunInv(c, trace, j);
    RunInv(c, trace, k);
    GoalIsKept(c, trace, j + 1, k, t);
    var p, p' := trace[j].pipe, trace[k].pipe;
    var g := NewGoal(trace[j]);
    assert GoesOn(trace[k].ctl, trace[k].flushers[t]);
    assert CallHolds(p', t, trace[k].flushers[t]);
    forall r | InPipeline(p, r)
      ensures r in p'.Exported() || (r in p'.discarded && p'.failed)
    {
      OnlyPlace(p, r);
      assert r in g.due;
      SumPlaces(p', r);
    }
  }

  // ----- answers -----

  predicate IsReply(item: Item) {
    item.Batch? && item.reply
  }

  /** The request of a waiting call, or of Shutdown, is in the export channel or in the export goroutine's hand. */
  ghost predicate Served(s: State) {
    && (forall t :: t in s.flushers && s.flushers[t].Awaiting? ==> IsUnderWay(s.pipe, Marker(t)))
    && (s.ctl.shut == ExportAwaiting ==> exists x :: IsReply(x) && IsUnderWay(s.pipe, x))
    && (s.pipe.held.Some? ==> IsReply(s.pipe.held.value))
  }

  ghost predicate IsUnderWay(p: Pipe, item: Item) {
    item in p.input || (p.work.Work? && p.work.item == item)
  }

  lemma StaysUnderWay(c: Config, s: State, step: Step, item: Item)
    requires Enabled(c, s, step) && IsUnderWay(s.pipe, item)
    ensures IsUnderWay(After(c, s, step).pipe, item) || (step == Export(Respond) && s.pipe.work.item == item)
  {
    match step
    case Emit(t, e) =>
    case Poll(e) => PollKeepsInput(c, s, e);
    case Flush(t, e) => FlushKeepsInput(c, s, t, e);
    case Shut(e) => ShutKeepsInput(s, e);
    case Export(e) => ExportStaysUnderWay(c, s, e, item);
  }

  lemma PollKeepsInput(c: Config, s: State, e: PollStep)
    requires PollEnabled(c, s, e)
    ensures s.pipe.input <= PollApply(c, s, e).pipe.input && PollApply(c, s, e).pipe.work == s.pipe.work
  {
  }

  lemma FlushKeepsInput(c: Config, s: State, t: CallerId, e: FlushStep)
    requires FlushEnabled(c, s, t, e)
    ensures s.pipe.input <= FlushApply(c, s, t, e).pipe.input && FlushApply(c, s, t, e).pipe.work == s.pipe.work
  {
  }

  lemma ShutKeepsInput(s: State, e: ShutStep)
    ensures s.pipe.input <= ShutApply(s, e).pipe.input && ShutApply(s, e).pipe.work == s.pipe.work
  {
  }

  lemma ExportStaysUnderWay(c: Config, s: State, e: ExportStep, item: Item)
    requires ExportEnabled(s, e) && IsUnderWay(s.pipe, item)
    ensures IsUnderWay(ExportApply(c, s, e).pipe, item) || (e == Respond && s.pipe.work.item == item)
  {
  }

  lemma StepServesCalls(c: Config, s: State, step: Step, t: CallerId)
    requires Served(s) && Enabled(c, s, step)
    requires t in After(c, s, step).flushers && After(c, s, step).flushers[t].Awaiting?
    ensures IsUnderWay(After(c, s, step).pipe, Marker(t))
  {
    if step != Flush(t, Send) {
      StillAwaiting(c, s, step, t);
      StaysUnderWay(c, s, step, Marker(t));
    }
  }

  lemma StillAwaiting(c: Config, s: State, step: Step, t: CallerId)
    requires Enabled(c, s, step) && step != Flush(t, Send)
    requires t in After(c, s, step).flushers && After(c, s, step).flushers[t].Awaiting?
    ensures t in s.flushers && s.flushers[t].Awaiting?
    ensures step == Export(Respond) ==> s.pipe.work.item != Marker(t)
  {
    match step
    case Emit(u, e) =>
    case Poll(e) =>
    case Flush(u, e) =>
    case Shut(e) =>
    case Export(e) =>
  }

  lemma StepServesShutdown(c: Config, s: State, step: Step)
    requires Served(s) && PipeFlags(s) && Enabled(c, s, step) && After(c, s, step).ctl.shut == ExportAwaiting
    ensures exists x :: IsReply(x) && IsUnderWay(After(c, s, step).pipe, x)
  {
    if step == Shut(SendExport) {
      assert IsUnderWay(After(c, s, step).pipe, s.pipe.held.value);
    } else {
      ShutdownStillWaits(c, s, step);
      var x :| IsReply(x) && IsUnderWay(s.pipe, x);
      StaysUnderWay(c, s, step, x);
    }
  }

  lemma ShutdownStillWaits(c: Config, s: State, step: Step)
    requires Enabled(c, s, step) && step != Shut(SendExport) && After(c, s, step).ctl.shut == ExportAwaiting
    ensures s.ctl.shut == ExportAwaiting && (step == Export(Respond) ==> !IsReply(s.pipe.work.item))
  {
    match step
    case Emit(t, e) =>
    case Poll(e) =>
    case Flush(t, e) =>
    case Shut(e) =>
    case Export(e) =>
  }

  lemma HeldIsReply(c: Config, s: State, step: Step)
    requires Served(s) && Enabled(c, s, step) && After(c, s, step).pipe.held.Some?
    ensures IsReply(After(c, s, step).pipe.held.value)
  {
    if step != Shut(FlushQueue) {
      HeldStays(c, s, step);
    }
  }

  lemma HeldStays(c: Config, s: State, step: Step)
    requires Enabled(c, s, step) && step != Shut(FlushQueue)
    ensures After(c, s, step).pipe.held == s.pipe.held || After(c, s, step).pipe.held == None
  {
    match step
    case Emit(t, e) =>
    case Poll(e) =>
    case Flush(t, e) =>
    case Shut(e) =>
    case Export(e) =>
  }

  lemma StepServed(c: Config, s: State, step: Step)
    requires Served(s) && PipeFlags(s) && Enabled(c, s, step)
    ensures Served(After(c, s, step))
  {
    var s' := After(c, s, step);
    forall t | t in s'.flushers && s'.flushers[t].Awaiting?
      ensures IsUnderWay(s'.pipe, Marker(t))
    {
      StepServesCalls(c, s, step, t);
    }
    if s'.ctl.shut == ExportAwaiting {
      StepServesShutdown(c, s, step);
    }
    if s'.pipe.held.Some? {
      HeldIsReply(c, s, step);
    }
  }

  lemma {:induction false} RunServed(c: Config, trace: seq<State>, i: nat)
    requires c.Valid() && IsRun(c, trace) && i < |trace|
    ensures Served(trace[i])
  {
    if i > 0 {
      RunServed(c, trace, i - 1);
      RunInv(c, trace, i - 1);
      assert StepAt(c, trace, i);
      var step :| Enabled(c, trace[i - 1], step) && trace[i] == After(c, trace[i - 1], step);
      StepServed(c, trace[i - 1], step);
    }
  }

  /** The export goroutine does not end while a call waits for its answer. */
  lemma NobodyAwaitsAfterExit(c: Config, trace: seq<State>, i: nat)
    requires c.Valid() && IsRun(c, trace) && i < |trace| && trace[i].ctl.exportDone
    ensures forall t :: t in trace[i].flushers ==> !trace[i].flushers[t].Awaiting?
    ensures trace[i].ctl.shut != ExportAwaiting
  {
    RunServed(c, trace, i);
    RunInv(c, trace, i);
  }

  /** Consecutive states of the pipeline in which only the export goroutine makes steps. */
  ghost predicate ByExporter(c: Config, path: seq<State>) {
    path != [] && forall i :: 0 < i < |path| ==> ExportStepAt(c, path, i)
  }

  ghost predicate ExportStepAt(c: Config, path: seq<State>, i: nat)
    requires 0 < i < |path|
  {
    ExportMoves(c, path[i - 1], path[i])
  }

  ghost predicate ExportMoves(c: Config, s: State, s': State) {
    exists e :: ExportEnabled(s, e) && s' == ExportApply(c, s, e)
  }

  lemma Prepend(c: Config, s: State, e: ExportStep, path: seq<State>)
    requires ExportEnabled(s, e) && ByExporter(c, path) && path[0] == ExportApply(c, s, e)
    ensures ByExporter(c, [s] + path)
  {
    var longer := [s] + path;
    forall i | 0 < i < |longer|
      ensures ExportStepAt(c, longer, i)
    {
      if i == 1 {
        assert ExportMoves(c, s, path[0]);
      } else {
        assert ExportStepAt(c, path, i - 1);
      }
    }
  }

  /** What the export goroutine does next. */
  function NextExport(w: Work): ExportStep {
    if w == NoWork then Take else if w.done < |w.item.Records()| then Chunk(true) else Respond
  }

  /** How much the export goroutine has left to do. */
  ghost function WorkLeft(w: Work): nat
    requires w.Valid()
  {
    if w.Work? then 1 + |w.Rest()| else 0
  }

  lemma NextExportEnabled(c: Config, s: State, t: CallerId)
    requires c.Valid() && Inv(c, s) && Served(s) && t in s.flushers && s.flushers[t].Awaiting?
    ensures ExportEnabled(s, NextExport(s.pipe.work))
    ensures var s' := ExportApply(c, s, NextExport(s.pipe.work));
      t in s'.flushers && (s'.flushers[t].Awaiting? || s'.flushers[t].Answered?)
  {
    assert IsUnderWay(s.pipe, Marker(t));
  }

  lemma NextExportProgress(c: Config, s: State)
    requires c.Valid() && Memory(c, s) && s.pipe.work.Valid() && ExportEnabled(s, NextExport(s.pipe.work))
    ensures var p' := ExportApply(c, s, NextExport(s.pipe.work)).pipe;
      && p'.work.Valid()
      && (|p'.input| < |s.pipe.input| || (p'.input == s.pipe.input && WorkLeft(p'.work) < WorkLeft(s.pipe.work)))
  {
    if NextExport(s.pipe.work).Chunk? {
      ChunkIsNext(c, s, true);
      RestAfterChunk(s.pipe, NextChunk(c, s), true);
    }
  }

  lemma {:induction false} AnswerPath(c: Config, s: State, t: CallerId) returns (path: seq<State>)
    requires c.Valid() && Inv(c, s) && Served(s) && t in s.flushers && s.flushers[t].Awaiting?
    ensures ByExporter(c, path) && path[0] == s
    ensures t in path[|path| - 1].flushers && path[|path| - 1].flushers[t].Answered?
    decreases |s.pipe.input|, WorkLeft(s.pipe.work)
  {
    NextExportEnabled(c, s, t);
    var e := NextExport(s.pipe.work);
    var s' := ExportApply(c, s, e);
    if s'.flushers[t].Answered? {
      path := [s'];
    } else {
      StepInv(c, s, Export(e));
      StepServed(c, s, Export(e));
      NextExportProgress(c, s);
      path := AnswerPath(c, s', t);
    }
    Prepend(c, s, e, path);
    path := [s] + path;
  }

  /** A ForceFlush call that waits for its answer can still get it: the export goroutine alone gets there. */
  lemma AwaitingCanBeAnswered(c: Config, trace: seq<State>, i: nat, t: CallerId)
    requires c.Valid() && IsRun(c, trace) && i < |trace|
    requires t in trace[i].flushers && trace[i].flushers[t].Awaiting?
    ensures exists path: seq<State> :: ByExporter(c, path) && path[0] == trace[i]
              && t in path[|path| - 1].flushers && path[|path| - 1].flushers[t].Answered?
  {
    RunInv(c, trace, i);
    RunServed(c, trace, i);
    var path := AnswerPath(c, trace[i], t);
  }

  // ----- what a nil result of ForceFlush says -----

  predicate ReturnedNil(pc: FlushPc) {
    (pc.Called? || pc.Abandoned?) && !pc.err
  }

  /** The call has emptied the queue and has not failed. */
  predicate HasEmptied(pc: FlushPc) {
    pc.GoalOf().Some? || ReturnedNil(pc)
  }

  lemma EmptyingStep(c: Config, s: State, step: Step, t: CallerId)
    requires Enabled(c, s, step) && t in After(c, s, step).flushers && HasEmptied(After(c, s, step).flushers[t])
    ensures || (t in s.flushers && HasEmptied(s.flushers[t]))
            || (step == Flush(t, Attempt) && Offer(c, s, c.queueCap) != Refused)
  {
    match step
    case Emit(u, e) =>
    case Poll(e) =>
    case Flush(u, e) =>
    case Shut(e) =>
    case Export(e) =>
  }

  lemma {:induction false} EmptiedBefore(c: Config, trace: seq<State>, i: nat, k: nat, t: CallerId) returns (j: nat)
    requires c.Valid() && IsRun(c, trace) && i <= k < |trace|
    requires t !in trace[i].flushers && t in trace[k].flushers && HasEmptied(trace[k].flushers[t])
    ensures i <= j < k && Empties(c, trace, j, t)
    decreases k
  {
    assert StepAt(c, trace, k);
    var step :| Enabled(c, trace[k - 1], step) && trace[k] == After(c, trace[k - 1], step);
    EmptyingStep(c, trace[k - 1], step, t);
    if step == Flush(t, Attempt) && Offer(c, trace[k - 1], c.queueCap) != Refused {
      j := k - 1;
    } else {
      j := EmptiedBefore(c, trace, i, k - 1, t);
    }
  }

  /** A call returns nil without calling the wrapped exporter only if that is stopped, and otherwise after emptying. */
  ghost predicate NilReasons(s: State, t: CallerId) {
    t in s.flushers ==>
      && (s.flushers[t] == Abandoned(false) ==> s.ctl.expStopped)
      && (s.flushers[t].Called? && !s.flushers[t].err ==> s.flushers[t].goal.Some?)
  }

  lemma StepReasons(c: Config, s: State, step: Step, t: CallerId)
    requires Enabled(c, s, step) && NilReasons(s, t)
    ensures NilReasons(After(c, s, step), t)
  {
    match step
    case Emit(u, e) =>
    case Poll(e) =>
    case Flush(u, e) =>
    case Shut(e) =>
    case Export(e) =>
  }

  lemma {:induction false} RunReasons(c: Config, trace: seq<State>, k: nat, t: CallerId)
    requires IsRun(c, trace) && k < |trace|
    ensures NilReasons(trace[k], t)
  {
    if k > 0 {
      RunReasons(c, trace, k - 1, t);
      assert StepAt(c, trace, k);
      var step :| Enabled(c, trace[k - 1], step) && trace[k] == After(c, trace[k - 1], step);
      StepReasons(c, trace[k - 1], step, t);
    }
  }

  /** What was in the pipeline has been passed to the wrapped Export, or was given up after a failed chunk. */
  ghost predicate Flushed(p: Pipe, p': Pipe) {
    && p.work.Valid()
    && (forall r :: InPipeline(p, r) ==> r in p'.Exported() || r in p'.discarded)
    && (!p'.failed ==> forall r :: InPipeline(p, r) ==> r in p'.Exported())
  }

  /**
   What a nil result says to the caller of a ForceFlush that saw the processor running; on a stopped processor it
   returns nil at once and does nothing.  The call has emptied the queue; it has then called the wrapped exporter, with
   everything that was in the pipeline flushed, or found the exporter stopped.
   */
  lemma NilMeansFlushedOrStopped(c: Config, trace: seq<State>, i: nat, k: nat, t: CallerId)
    requires c.Valid() && IsRun(c, trace) && i <= k < |trace|
    requires t !in trace[i].flushers && t in trace[k].flushers && ReturnedNil(trace[k].flushers[t])
    ensures exists j :: i <= j < k && Empties(c, trace, j, t)
              && if trace[k].flushers[t].Called? then Flushed(trace[j].pipe, trace[k].pipe) else trace[k].ctl.expStopped
  {
    RunReasons(c, trace, k, t);
    var j := EmptiedBefore(c, trace, i, k, t);
    if trace[k].flushers[t].Called? {
      FlushGuarantee(c, trace, j, k, t);
      assert Flushed(trace[j].pipe, trace[k].pipe);
    }
  }

  // ----- Shutdown -----

  lemma NoSendStep(c: Config, s: State, step: Step)
    requires ControlInv(c, s) && Enabled(c, s, step) && s.ctl.closed
    ensures |After(c, s, step).pipe.input| <= |s.pipe.input|
  {
    match step
    case Emit(t, e) =>
    case Poll(e) =>
    case Flush(t, e) =>
    case Shut(e) =>
    case Export(e) =>
  }

  /** Nothing is ever sent on the closed export channel. */
  lemma NoSendAfterClose(c: Config, trace: seq<State>, i: nat)
    requires c.Valid() && IsRun(c, trace) && i + 1 < |trace| && trace[i].ctl.closed
    ensures |trace[i + 1].pipe.input| <= |trace[i].pipe.input|
  {
    RunInv(c, trace, i);
    assert StepAt(c, trace, i + 1);
    var step :| Enabled(c, trace[i], step) && trace[i + 1] == After(c, trace[i], step);
    NoSendStep(c, trace[i], step);
  }

  // ----- what fails while Shutdown races with OnEmit and ForceFlush -----

  /** `trace` extended by one step. */
  lemma Extend(c: Config, trace: seq<State>, step: Step)
    requires IsRun(c, trace) && Enabled(c, trace[|trace| - 1], step)
    ensures IsRun(c, trace + [After(c, trace[|trace| - 1], step)])
  {
    var trace' := trace + [After(c, trace[|trace| - 1], step)];
    forall i | 0 < i < |trace'|
      ensures StepAt(c, trace', i)
    {
      if i < |trace| {
        assert StepAt(c, trace, i);
      }
    }
  }

  ghost predicate Reachable(c: Config, s: State) {
    exists trace :: IsRun(c, trace) && trace[|trace| - 1] == s
  }

  const SMALL: Config := Config(2, 2, 1)

  lemma Continue(c: Config, s: State, step: Step) returns (s': State)
    requires Reachable(c, s) && Enabled(c, s, step)
    ensures s' == After(c, s, step) && Reachable(c, s')
  {
    s' := After(c, s, step);
    var trace :| IsRun(c, trace) && trace[|trace| - 1] == s;
    Extend(c, trace, step);
    assert (trace + [s'])[|trace|] == s';
  }

  lemma Go(s: State, step: Step) returns (s': State)
    requires Reachable(SMALL, s) && Enabled(SMALL, s, step)
    ensures s' == After(SMALL, s, step) && Reachable(SMALL, s')
  {
    s' := Continue(SMALL, s, step);
  }

  /** A state with `n` queued records in which nothing else has happened. */
  lemma {:induction false} Queued(c: Config, n: nat) returns (s: State)
    requires c.Valid() && n < c.batchSize && n <= c.queueCap
    ensures Reachable(c, s) && |s.pipe.queue| == n && s.emitters == map[] && !s.ctl.stopped
  {
    if n == 0 {
      s := Init(c);
      assert IsRun(c, [s]) && [s][|[s]| - 1] == s;
    } else {
      s := Queued(c, n - 1);
      s := Continue(c, s, Emit(0, Check));
      s := Continue(c, s, Emit(0, EmitStep.Enqueue));
      assert s.emitters == map[];
    }
  }

  /** OnEmit calls trigger exports in some run if and only if the batch size does not exceed the queue size. */
  lemma TriggersIff(c: Config)
    requires c.Valid()
    ensures (exists s :: Reachable(c, s) && s.poller.trigger) <==> c.batchSize <= c.queueCap
  {
    if c.batchSize <= c.queueCap {
      var s := Queued(c, c.batchSize - 1);
      s := Continue(c, s, Emit(0, Check));
      s := Continue(c, s, Emit(0, EmitStep.Enqueue));
      s := Continue(c, s, Emit(0, SendTrigger));
    } else {
      forall s | Reachable(c, s)
        ensures !s.poller.trigger
      {
        var trace :| IsRun(c, trace) && trace[|trace| - 1] == s;
        OversizedBatchesNeverTrigger(c, trace, |trace| - 1);
      }
    }
  }

  /** Record 0 is queued; an OnEmit and a ForceFlush call have seen the processor running. */
  lemma TwoCallsUnderWay() returns (s: State)
    ensures Reachable(SMALL, s)
    ensures s.pipe == EMPTY_PIPE.(queue := [0], enqueued := 1)
    ensures s.arrays.next == 2 && 1 in s.arrays.mem && s.arrays.mem[1] == Array(FlushOwns(0), [0, 0])
    ensures s.emitters == map[1 := Checked] && s.flushers == map[0 := Trying(1)]
    ensures s.poller.pc == Waiting && s.ctl == Init(SMALL).ctl
  {
    s := Init(SMALL);
    assert IsRun(SMALL, [s]) && [s][|[s]| - 1] == s;
    s := Go(s, Emit(0, Check));
    s := Go(s, Emit(0, EmitStep.Enqueue));
    assert s.pipe.queue == [0] && s.emitters == map[];
    s := Go(s, Emit(1, Check));
    s := Go(s, Flush(0, Begin));
    assert s.arrays.mem[1].data == [0, 0];
  }

  /** Shutdown has taken record 0 from the queue meanwhile. */
  lemma ShutdownHoldsFirstRecord() returns (s: State)
    ensures Reachable(SMALL, s)
    ensures s.pipe == EMPTY_PIPE.(held := Some(Batch(2, [0], true)), enqueued := 1, flushed := true)
    ensures s.arrays.next == 3 && 1 in s.arrays.mem && s.arrays.mem[1] == Array(FlushOwns(0), [0, 0])
    ensures 2 in s.arrays.mem && s.arrays.mem[2] == Array(GivenAway, [0])
    ensures s.emitters == map[1 := Checked] && s.flushers == map[0 := Trying(1)]
    ensures s.ctl == Control(ExportLocking, true, true, false, false, false, Nobody)
  {
    s := TwoCallsUnderWay();
    s := Go(s, Shut(Swap));
    s := Go(s, Shut(CloseKill));
    s := Go(s, Poll(Kill));
    s := Go(s, Shut(SeePollDone));
    s := Go(s, Shut(FlushQueue));
  }

  /** The OnEmit call has enqueued a later record meanwhile. */
  lemma SecondRecordQueued() returns (s: State)
    ensures Reachable(SMALL, s)
    ensures s.pipe == Pipe([1], Some(Batch(2, [0], true)), [], NoWork, 2, [], [], [], false, true, false)
    ensures 1 in s.arrays.mem && s.arrays.mem[1] == Array(FlushOwns(0), [0, 0])
    ensures 2 in s.arrays.mem && s.arrays.mem[2] == Array(GivenAway, [0])
    ensures s.flushers == map[0 := Trying(1)]
    ensures s.ctl == Control(ExportLocking, true, true, false, false, false, Nobody)
  {
    s := ShutdownHoldsFirstRecord();
    s := Go(s, Emit(1, EmitStep.Enqueue));
  }

  /** The ForceFlush call has got that record accepted meanwhile. */
  lemma SecondRecordOvertakes() returns (s: State)
    ensures Reachable(SMALL, s)
    ensures s.pipe == Pipe([], Some(Batch(2, [0], true)), [Batch(1, [1], false)], NoWork, 2, [], [], [],
                           false, true, true)
    ensures 1 in s.arrays.mem && s.arrays.mem[1] == Array(GivenAway, [1, 0])
    ensures 2 in s.arrays.mem && s.arrays.mem[2] == Array(GivenAway, [0])
    ensures s.ctl == Control(ExportLocking, true, true, false, false, false, Nobody)
  {
    s := SecondRecordQueued();
    assert [1][..1] == [1];
    s := Go(s, Flush(0, Attempt));
    assert s.arrays.mem[1].data == [1, 0] && s.pipe.input == [Batch(1, [1], false)];
  }

  lemma SecondRecordGoesFirst() returns (s: State)
    ensures Reachable(SMALL, s)
    ensures s.pipe == Pipe([], Some(Batch(2, [0], true)), [], NoWork, 2, [[1]], [], [], false, true, true)
    ensures 2 in s.arrays.mem && s.arrays.mem[2] == Array(GivenAway, [0])
    ensures s.ctl == Control(ExportLocking, true, true, false, false, false, Nobody)
  {
    s := SecondRecordOvertakes();
    s := Go(s, Export(Take));
    assert NextChunk(SMALL, s) == [1];
    s := Go(s, Export(Chunk(true)));
    assert s.pipe.calls == [[1]];
    s := Go(s, Export(Respond));
  }

  /** Once Shutdown has flushed the queue the emission order can be lost: here record 1 is exported before record 0. */
  lemma RacingShutdownBreaksOrder()
    ensures exists s :: Reachable(SMALL, s) && s.pipe.Exported() == [1, 0]
  {
    var s := SecondRecordGoesFirst();
    s := Go(s, Shut(LockExport));
    s := Go(s, Shut(SendExport));
    s := Go(s, Export(Take));
    assert s.pipe.work == Work(Batch(2, [0], true), 0) && s.pipe.calls == [[1]];
    assert NextChunk(SMALL, s) == [0];
    s := Go(s, Export(Chunk(true)));
    assert s.pipe.calls == [[1], [0]];
    CallAppend([[1]], [0]);
  }

  /**
   A processor that was shut down before its queue was flushed, by a Shutdown that waited for the poll goroutine in
   vain.
   */
  lemma StoppedUnflushed() returns (s: State)
    ensures Reachable(SMALL, s)
    ensures s == Init(SMALL).(pipe := EMPTY_PIPE.(queue := [0], enqueued := 1),
                              ctl := Control(Stopping, true, true, false, false, false, Nobody))
  {
    s := Init(SMALL);
    assert IsRun(SMALL, [s]) && [s][|[s]| - 1] == s;
    s := Go(s, Emit(0, Check));
    s := Go(s, Emit(0, EmitStep.Enqueue));
    assert s.pipe.queue == [0] && s.emitters == map[];
    s := Go(s, Shut(Swap));
    s := Go(s, Shut(CloseKill));
    s := Go(s, Shut(TimeOutPoll));
  }

  /**
   A Shutdown whose context ends while it waits for the poll goroutine does not flush: it can return after seeing the
   export goroutine end, with no call under way and a record that was queued before still in the queue.
   */
  lemma TimedOutShutdownLeavesRecords()
    ensures exists s :: Reachable(SMALL, s) && s.ctl.shut == Finished(true) && !s.pipe.flushed
              && s.emitters == map[] && s.flushers == map[] && s.pipe.queue == [0] && s.pipe.Exported() == []
  {
    var s := StoppedUnflushed();
    s := Go(s, Shut(StopExporter));
    s := Go(s, Shut(CloseInput));
    s := Go(s, Export(Exit));
    s := Go(s, Shut(SeeExportDone));
  }

  /** The exporter is stopped while the ForceFlush call is under way. */
  lemma StoppedDuringFlush() returns (s: State)
    ensures Reachable(SMALL, s)
    ensures s.pipe == EMPTY_PIPE.(queue := [0], enqueued := 1) && s.ctl.expStopped && s.ctl.inputMu == Nobody
    ensures 1 in s.arrays.mem && s.flushers == map[0 := Trying(1)]
  {
    s := TwoCallsUnderWay();
    s := Go(s, Shut(Swap));
    s := Go(s, Shut(CloseKill));
    s := Go(s, Shut(TimeOutPoll));
    s := Go(s, Shut(StopExporter));
  }

  /** A ForceFlush call that empties the queue after the exporter was stopped returns nil; the record is given up. */
  lemma NilSwallowsRecord()
    ensures exists s :: Reachable(SMALL, s) && s.flushers == map[0 := Abandoned(false)] && !s.pipe.failed
              && s.pipe.discarded == [0] && s.pipe.queue == [] && s.pipe.Exported() == []
  {
    var s := StoppedDuringFlush();
    assert [0][..1] == [0];
    s := Go(s, Flush(0, Attempt));
    assert s.pipe.queue == [] && s.pipe.discarded == [0];
    s := Go(s, Flush(0, Lock));
  }
}

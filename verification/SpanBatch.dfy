/**
 The span batch processor of sdk/trace/batch_span_processor.go as a machine of atomic steps.

 The threads are: any number of OnEnd callers, any number of ForceFlush calls, the Shutdown call and the worker
 goroutine, which processes the queue until the processor is stopped and then drains it.  exportSpans holds batchMutex
 from the test of the batch's length to the truncation of the batch, so it is one step.  The timer, cancelled contexts
 and failing exports are choices of the environment.
 */
module SpanBatch {
  import opened Prelude

  type Span = nat
  type CallerId = nat

  const TWO_TO_32: nat := 0x1_0000_0000

  /** The capacity of the queue channel, the batch size from which on a batch is exported, and whether OnEnd blocks. */
  datatype Config = Config(queueCap: nat, maxBatch: nat, blocking: bool)

  /** What travels through the queue channel: a span, or the marker of a ForceFlush call. */
  datatype Item = Ended(span: Span) | Marker(call: CallerId)

  datatype Data = Data(
    queue: seq<Item>,
    hand: seq<Span>,        // the span the worker received and has not appended yet, if any
    batch: seq<Span>,
    calls: seq<seq<Span>>,  // the arguments of ExportSpans, in order
    accepted: seq<Span>,    // every span sent on the channel, in order
    attempts: nat,          // sampled spans offered to the channel
    lost: nat,              // sampled spans refused by a full channel
    dropped: nat)           // the processor's 32-bit counter of them
  {
    function Exported(): seq<Span> {
      Flatten(calls)
    }
  }

  datatype WorkerPc = Selecting | Appending | Exporting | FinalExport | Done

  datatype Worker = Worker(draining: bool, pc: WorkerPc)

  /** A ForceFlush call.  A goal is the number of spans accepted before its marker; None when no marker was sent. */
  datatype FlushPc =
    | Enqueueing
    | Waiting(mark: nat)
    | ToExport(goal: Option<nat>)              // its marker was seen, or its context ended while enqueueing
    | HasExported(goal: Option<nat>, err: bool)
    | Returned(goal: Option<nat>, err: bool)   // the result of its own export
    | Stopped                                  // returned nil because the processor was stopped
    | Cancelled(exporting: bool)               // returned an error; its export may still run

  datatype ShutPc = Running | StopSet | StopClosed | ExporterShutDown

  datatype State = State(
    data: Data,
    worker: Worker,
    enders: map<CallerId, Span>,               // OnEnd calls that saw the processor running
    flushers: map<CallerId, FlushPc>,
    seen: set<CallerId>,                       // the markers the worker has closed
    shut: ShutPc)

  const EMPTY_DATA: Data := Data([], [], [], [], [], 0, 0, 0)

  function Init(): State {
    State(EMPTY_DATA, Worker(false, Selecting), map[], map[], {}, Running)
  }

  /** The spans of a queue, in order. */
  function Spans(queue: seq<Item>): seq<Span> {
    if queue == [] then []
    else (if queue[0].Ended? then [queue[0].span] else []) + Spans(queue[1..])
  }

  // ----- what the steps do to the spans -----

  /** A span is sent: blocking callers only do so when there is room, others drop the span otherwise. */
  function Offer(c: Config, d: Data, span: Span): Data {
    if |d.queue| < c.queueCap then
      d.(queue := d.queue + [Ended(span)], accepted := d.accepted + [span], attempts := d.attempts + 1)
    else
      d.(attempts := d.attempts + 1, lost := d.lost + 1, dropped := (d.dropped + 1) % TWO_TO_32)
  }

  function ExportSpans(d: Data): Data {
    if d.batch != [] then d.(calls := d.calls + [d.batch], batch := []) else d
  }

  function Receive(d: Data): Data
    requires d.queue != []
  {
    d.(queue := d.queue[1..], hand := if d.queue[0].Ended? then [d.queue[0].span] else d.hand)
  }

  function Append(d: Data): Data {
    d.(batch := d.batch + d.hand, hand := [])
  }

  // ----- steps -----

  datatype EndStep = Begin(span: Span) | Send
  datatype FlushStep =
    | Start | SendMarker | CancelEnqueue | SeeMarker | SeeStop | CancelWait
    | RunExport(err: bool) | Return | CancelExport | LateExport(err: bool)
  datatype WorkerStep = Stop | Fire | Get | Put | Export(err: bool) | Default
  datatype ShutStep = SetStopped | CloseStop | ShutExporter

  datatype Step =
    | End(caller: CallerId, e: EndStep)
    | Flush(call: CallerId, f: FlushStep)
    | Work(w: WorkerStep)
    | Shut(s: ShutStep)

  predicate StopIsClosed(s: State) {
    s.shut == StopClosed || s.shut == ExporterShutDown
  }

  predicate EndEnabled(c: Config, s: State, t: CallerId, e: EndStep) {
    match e
    case Begin(span) => t !in s.enders && s.shut == Running
    case Send => t in s.enders && (c.blocking ==> |s.data.queue| < c.queueCap)
  }

  function EndApply(c: Config, s: State, t: CallerId, e: EndStep): State
    requires EndEnabled(c, s, t, e)
  {
    match e
    case Begin(span) => s.(enders := s.enders[t := span])
    case Send => s.(enders := s.enders - {t}, data := Offer(c, s.data, s.enders[t]))
  }

  predicate FlushEnabled(c: Config, s: State, t: CallerId, e: FlushStep) {
    if e == Start then t !in s.flushers && s.shut == Running
    else
      t in s.flushers &&
      var pc := s.flushers[t];
      match e
      case SendMarker => pc.Enqueueing? && |s.data.queue| < c.queueCap
      case CancelEnqueue => pc.Enqueueing?
      case SeeMarker => pc.Waiting? && t in s.seen
      case SeeStop => pc.Waiting? && StopIsClosed(s)
      case CancelWait => pc.Waiting?
      case RunExport(err) => pc.ToExport?
      case Return => pc.HasExported?
      case CancelExport => pc.ToExport? || pc.HasExported?
      case LateExport(err) => pc.Cancelled? && pc.exporting
      case Start => false
  }

  /** The state of a ForceFlush call after one of its steps. */
  function FlushNext(d: Data, pc: FlushPc, e: FlushStep): FlushPc {
    match e
    case Start => Enqueueing
    case SendMarker => Waiting(|d.accepted|)
    case CancelEnqueue => ToExport(None)
    case SeeMarker => if pc.Waiting? then ToExport(Some(pc.mark)) else pc
    case SeeStop => Stopped
    case CancelWait => Cancelled(false)
    case RunExport(err) => if pc.ToExport? then HasExported(pc.goal, err && d.batch != []) else pc
    case Return => if pc.HasExported? then Returned(pc.goal, pc.err) else pc
    case CancelExport => Cancelled(pc.ToExport?)
    case LateExport(err) => Cancelled(false)
  }

  function FlushData(d: Data, t: CallerId, e: FlushStep): Data {
    match e
    case SendMarker => d.(queue := d.queue + [Marker(t)])
    case RunExport(err) => ExportSpans(d)
    case LateExport(err) => ExportSpans(d)
    case _ => d
  }

  function FlushApply(c: Config, s: State, t: CallerId, e: FlushStep): State
    requires FlushEnabled(c, s, t, e)
  {
    var pc := if e == Start then Enqueueing else s.flushers[t];
    s.(flushers := s.flushers[t := FlushNext(s.data, pc, e)], data := FlushData(s.data, t, e))
  }

  predicate WorkEnabled(s: State, e: WorkerStep) {
    var w := s.worker;
    match e
    case Stop => !w.draining && w.pc == Selecting && StopIsClosed(s)
    case Fire => !w.draining && w.pc == Selecting
    case Get => w.pc == Selecting && s.data.queue != []
    case Put => w.pc == Appending
    case Export(err) => w.pc == Exporting || w.pc == FinalExport
    case Default => w.draining && w.pc == Selecting && s.data.queue == []
  }

  /** Whether the batch is exported after an append: drainQueue tests for equality, processQueue for at least. */
  predicate ShouldExport(c: Config, draining: bool, n: nat) {
    if draining then n == c.maxBatch else n >= c.maxBatch
  }

  function WorkApply(c: Config, s: State, e: WorkerStep): State
    requires WorkEnabled(s, e)
  {
    match e
    case Stop => s.(worker := Worker(true, Selecting))
    case Fire => s.(worker := s.worker.(pc := Exporting))
    case Get =>
      var item := s.data.queue[0];
      s.(data := Receive(s.data),
         worker := if item.Ended? then s.worker.(pc := Appending) else s.worker,
         // drainQueue ignores the markers
         seen := if item.Marker? && !s.worker.draining then s.seen + {item.call} else s.seen)
    case Put =>
      var d := Append(s.data);
      s.(data := d,
         worker := s.worker.(pc := if ShouldExport(c, s.worker.draining, |d.batch|) then Exporting else Selecting))
    case Export(err) =>
      s.(data := ExportSpans(s.data), worker := s.worker.(pc := if s.worker.pc == Exporting then Selecting else Done))
    case Default => s.(worker := s.worker.(pc := FinalExport))
  }

  predicate ShutEnabled(s: State, e: ShutStep) {
    match e
    case SetStopped => s.shut == Running
    case CloseStop => s.shut == StopSet
    case ShutExporter => s.shut == StopClosed && s.worker.pc == Done
  }

  function ShutApply(s: State, e: ShutStep): State {
    match e
    case SetStopped => s.(shut := StopSet)
    case CloseStop => s.(shut := StopClosed)
    case ShutExporter => s.(shut := ExporterShutDown)
  }

  predicate Enabled(c: Config, s: State, step: Step) {
    match step
    case End(t, e) => EndEnabled(c, s, t, e)
    case Flush(t, e) => FlushEnabled(c, s, t, e)
    case Work(e) => WorkEnabled(s, e)
    case Shut(e) => ShutEnabled(s, e)
  }

  function After(c: Config, s: State, step: Step): State
    requires Enabled(c, s, step)
  {
    match step
    case End(t, e) => EndApply(c, s, t, e)
    case Flush(t, e) => FlushApply(c, s, t, e)
    case Work(e) => WorkApply(c, s, e)
    case Shut(e) => ShutApply(s, e)
  }

  ghost predicate Follows(c: Config, s: State, s': State) {
    exists step :: Enabled(c, s, step) && s' == After(c, s, step)
  }

  /** `trace` is a run: it starts in the initial state and every state follows from the one before by a step. */
  ghost predicate IsRun(c: Config, trace: seq<State>) {
    && trace != []
    && trace[0] == Init()
    && forall i :: 0 < i < |trace| ==> StepAt(c, trace, i)
  }

  ghost predicate StepAt(c: Config, trace: seq<State>, i: nat)
    requires 0 < i < |trace|
  {
    Follows(c, trace[i - 1], trace[i])
  }
}

/** Invariants of the span processor and what it promises, for every run. */
module SpanBatchSafety {
  import opened Prelude
  import opened SpanBatch

  // ----- first in, first out -----

  /** exported ++ batch ++ span in hand ++ queued spans is the sequence of accepted spans, given by its cut points. */
  ghost predicate Fifo(d: Data) {
    IsCut(d.accepted, d.Exported(), d.batch, d.hand, Spans(d.queue))
  }

  predicate IsCut(all: seq<Span>, exported: seq<Span>, batch: seq<Span>, hand: seq<Span>, queued: seq<Span>) {
    var a := |exported|;
    var b := a + |batch|;
    var e := b + |hand|;
    && e <= |all|
    && exported == all[..a]
    && batch == all[a..b]
    && hand == all[b..e]
    && queued == all[e..]
  }

  lemma FifoConcat(d: Data)
    requires Fifo(d)
    ensures d.Exported() + d.batch + d.hand + Spans(d.queue) == d.accepted
  {
  }

  lemma {:induction false} SpansAppend(queue: seq<Item>, x: Item)
    ensures Spans(queue + [x]) == Spans(queue) + if x.Ended? then [x.span] else []
  {
    if queue == [] {
      assert queue + [x] == [x];
      assert Spans([x]) == (if x.Ended? then [x.span] else []) + Spans([]);
    } else {
      assert (queue + [x])[0] == queue[0] && (queue + [x])[1..] == queue[1..] + [x];
      SpansAppend(queue[1..], x);
    }
  }

  lemma LongerCut(all: seq<Span>, exported: seq<Span>, batch: seq<Span>, hand: seq<Span>, queued: seq<Span>, x: Span)
    requires IsCut(all, exported, batch, hand, queued)
    ensures IsCut(all + [x], exported, batch, hand, queued + [x])
  {
  }

  lemma OfferFifo(c: Config, d: Data, span: Span)
    requires Fifo(d)
    ensures Fifo(Offer(c, d, span))
  {
    SpansAppend(d.queue, Ended(span));
    LongerCut(d.accepted, d.Exported(), d.batch, d.hand, Spans(d.queue), span);
  }

  lemma MarkerFifo(d: Data, t: CallerId)
    requires Fifo(d)
    ensures Fifo(d.(queue := d.queue + [Marker(t)]))
  {
    SpansAppend(d.queue, Marker(t));
    assert Spans(d.queue) + [] == Spans(d.queue);
  }

  lemma ExportFlatten(d: Data)
    ensures ExportSpans(d).Exported() == d.Exported() + d.batch
  {
    FlattenAppend(d.calls, [d.batch]);
    assert Flatten([d.batch]) == d.batch + Flatten([]);
  }

  lemma ExportFifo(d: Data)
    requires Fifo(d)
    ensures Fifo(ExportSpans(d))
  {
    ExportFlatten(d);
  }

  lemma ReceiveFifo(d: Data)
    requires Fifo(d) && d.queue != [] && d.hand == []
    ensures Fifo(Receive(d))
  {
    var e := |d.Exported()| + |d.batch|;
    assert Spans(d.queue) == (if d.queue[0].Ended? then [d.queue[0].span] else []) + Spans(d.queue[1..]);
    if d.queue[0].Ended? {
      assert d.accepted[e..][0] == d.queue[0].span && d.accepted[e..][1..] == Spans(d.queue[1..]);
    }
  }

  lemma AppendFifo(d: Data)
    requires Fifo(d)
    ensures Fifo(Append(d))
  {
  }

  // ----- sizes and counters -----

  ghost predicate Counts(c: Config, d: Data) {
    && d.attempts == |d.accepted| + d.lost
    && d.dropped == d.lost % TWO_TO_32
    && (c.blocking ==> d.lost == 0)
    && |d.queue| <= c.queueCap
    && (forall i :: 0 <= i < |d.calls| ==> d.calls[i] != [])
  }

  /** The worker appends exactly when it holds a span, which is one span then, and leaves no batch behind. */
  ghost predicate Phases(s: State) {
    && (s.worker.pc == Appending <==> s.data.hand != [])
    && |s.data.hand| <= 1
    && (s.worker.pc == Done ==> s.data.batch == [])
    && (s.shut == ExporterShutDown ==> s.worker.pc == Done)
  }

  /** The batch never exceeds its maximal size, and leaves room for one more span while the worker receives. */
  ghost predicate Bounded(c: Config, s: State) {
    && |s.data.batch| <= c.maxBatch
    && (s.worker.pc == Selecting || s.worker.pc == Appending ==> |s.data.batch| < c.maxBatch)
    && (forall i :: 0 <= i < |s.data.calls| ==> |s.data.calls[i]| <= c.maxBatch)
  }

  // ----- ForceFlush calls -----

  /** Number of spans in front of the first marker of `t`. */
  function InFront(queue: seq<Item>, t: CallerId): nat {
    if queue == [] || queue[0] == Marker(t) then 0
    else (if queue[0].Ended? then 1 else 0) + InFront(queue[1..], t)
  }

  lemma {:induction false} InFrontAppend(queue: seq<Item>, x: Item, t: CallerId)
    requires Marker(t) in queue
    ensures InFront(queue + [x], t) == InFront(queue, t)
  {
    assert (queue + [x])[0] == queue[0] && (queue + [x])[1..] == queue[1..] + [x];
    if queue[0] != Marker(t) {
      InFrontAppend(queue[1..], x, t);
    }
  }

  lemma {:induction false} InFrontAll(queue: seq<Item>, t: CallerId)
    requires Marker(t) !in queue
    ensures InFront(queue + [Marker(t)], t) == |Spans(queue)|
  {
    if queue == [] {
      assert queue + [Marker(t)] == [Marker(t)];
    } else {
      assert (queue + [Marker(t)])[0] == queue[0] && (queue + [Marker(t)])[1..] == queue[1..] + [Marker(t)];
      assert queue[0] in queue;
      InFrontAll(queue[1..], t);
    }
  }

  /** Spans that left the queue. */
  ghost function Gone(d: Data): nat {
    |d.Exported()| + |d.batch| + |d.hand|
  }

  ghost predicate CallHolds(d: Data, seen: set<CallerId>, t: CallerId, pc: FlushPc) {
    match pc
    case Waiting(mark) =>
      && mark <= |d.accepted|
      && (Marker(t) in d.queue ==> mark <= Gone(d) + InFront(d.queue, t))
      && (t in seen ==> mark <= |d.Exported()| + |d.batch|)
    case ToExport(goal) => goal.Some? ==> goal.value <= |d.Exported()| + |d.batch|
    case HasExported(goal, err) => goal.Some? ==> goal.value <= |d.Exported()|
    case Returned(goal, err) => goal.Some? ==> goal.value <= |d.Exported()|
    case _ => true
  }

  ghost predicate Calls(s: State) {
    && (forall i :: 0 <= i < |s.data.queue| ==> Known(s.flushers, s.data.queue[i]))
    && (forall t :: t in s.seen ==> t in s.flushers && !s.flushers[t].Enqueueing?)
    && (forall t :: t in s.flushers ==> CallHolds(s.data, s.seen, t, s.flushers[t]))
  }

  ghost predicate Known(flushers: map<CallerId, FlushPc>, item: Item) {
    item.Marker? ==> item.call in flushers && !flushers[item.call].Enqueueing?
  }

  lemma OfferCall(c: Config, d: Data, span: Span, seen: set<CallerId>, t: CallerId, pc: FlushPc)
    requires CallHolds(d, seen, t, pc)
    ensures CallHolds(Offer(c, d, span), seen, t, pc)
  {
    if Marker(t) in d.queue {
      InFrontAppend(d.queue, Ended(span), t);
    }
  }

  lemma MarkerCall(d: Data, u: CallerId, seen: set<CallerId>, t: CallerId, pc: FlushPc)
    requires CallHolds(d, seen, t, pc) && u != t
    ensures CallHolds(d.(queue := d.queue + [Marker(u)]), seen, t, pc)
  {
    if Marker(t) in d.queue {
      InFrontAppend(d.queue, Marker(u), t);
    }
  }

  lemma ExportCall(d: Data, seen: set<CallerId>, t: CallerId, pc: FlushPc)
    requires CallHolds(d, seen, t, pc)
    ensures CallHolds(ExportSpans(d), seen, t, pc)
  {
    ExportFlatten(d);
  }

  lemma ReceiveCall(d: Data, seen: set<CallerId>, t: CallerId, pc: FlushPc, draining: bool)
    requires d.queue != [] && d.hand == [] && CallHolds(d, seen, t, pc)
    ensures var x := d.queue[0];
            CallHolds(Receive(d), if x.Marker? && !draining then seen + {x.call} else seen, t, pc)
  {
    if pc.Waiting? && Marker(t) in d.queue[1..] {
      assert Marker(t) in d.queue;
      assert d.queue[0] != Marker(t) ==>
          InFront(d.queue, t) == (if d.queue[0].Ended? then 1 else 0) + InFront(d.queue[1..], t);
    }
  }

  // ----- every step keeps the invariant -----

  ghost predicate Inv(c: Config, s: State) {
    Fifo(s.data) && Counts(c, s.data) && Phases(s) && Calls(s)
  }

  lemma EndInv(c: Config, s: State, t: CallerId, e: EndStep)
    requires Inv(c, s) && EndEnabled(c, s, t, e)
    ensures Inv(c, EndApply(c, s, t, e))
  {
    if e.Send? {
      OfferFifo(c, s.data, s.enders[t]);
      OfferCounts(c, s.data, s.enders[t]);
      OfferCalls(c, s, s.enders[t]);
    }
  }

  lemma OfferCounts(c: Config, d: Data, span: Span)
    requires Counts(c, d) && (c.blocking ==> |d.queue| < c.queueCap)
    ensures Counts(c, Offer(c, d, span))
  {
  }

  lemma OfferCalls(c: Config, s: State, span: Span)
    requires Calls(s)
    ensures Calls(s.(data := Offer(c, s.data, span)))
  {
    forall u | u in s.flushers
      ensures CallHolds(Offer(c, s.data, span), s.seen, u, s.flushers[u])
    {
      OfferCall(c, s.data, span, s.seen, u, s.flushers[u]);
    }
  }

  lemma ExportCounts(c: Config, d: Data)
    requires Counts(c, d)
    ensures Counts(c, ExportSpans(d))
  {
  }

  lemma KeepCalls(s: State)
    requires Calls(s)
    ensures forall u :: u in s.flushers ==> CallHolds(ExportSpans(s.data), s.seen, u, s.flushers[u])
  {
    forall u | u in s.flushers
      ensures CallHolds(ExportSpans(s.data), s.seen, u, s.flushers[u])
    {
      ExportCall(s.data, s.seen, u, s.flushers[u]);
    }
  }

  lemma SendMarkerInv(c: Config, s: State, t: CallerId)
    requires Inv(c, s) && FlushEnabled(c, s, t, FlushStep.SendMarker)
    ensures Inv(c, FlushApply(c, s, t, FlushStep.SendMarker))
  {
    var d' := s.data.(queue := s.data.queue + [Marker(t)]);
    MarkerFifo(s.data, t);
    assert Marker(t) !in s.data.queue;
    InFrontAll(s.data.queue, t);
    forall u | u in s.flushers && u != t
      ensures CallHolds(d', s.seen, u, s.flushers[u])
    {
      MarkerCall(s.data, t, s.seen, u, s.flushers[u]);
    }
    assert CallHolds(d', s.seen, t, Waiting(|s.data.accepted|));
  }

  lemma FlushExportInv(c: Config, s: State, t: CallerId, e: FlushStep)
    requires Inv(c, s) && FlushEnabled(c, s, t, e) && (e.RunExport? || e.LateExport?)
    ensures Inv(c, FlushApply(c, s, t, e))
  {
    assert FlushData(s.data, t, e) == ExportSpans(s.data);
    ExportFifo(s.data);
    ExportCounts(c, s.data);
    FlushExportCalls(c, s, t, e);
  }

  lemma FlushExportCalls(c: Config, s: State, t: CallerId, e: FlushStep)
    requires Calls(s) && FlushEnabled(c, s, t, e) && (e.RunExport? || e.LateExport?)
    ensures Calls(FlushApply(c, s, t, e))
  {
    KeepCalls(s);
    OwnExport(s.data, s.seen, t, s.flushers[t], e);
  }

  /** After its own export the call has what it relies on. */
  lemma OwnExport(d: Data, seen: set<CallerId>, t: CallerId, pc: FlushPc, e: FlushStep)
    requires CallHolds(d, seen, t, pc) && (e.RunExport? ==> pc.ToExport?) && (e.RunExport? || e.LateExport?)
    ensures CallHolds(ExportSpans(d), seen, t, FlushNext(d, pc, e))
  {
    ExportFlatten(d);
  }

  lemma FlushInv(c: Config, s: State, t: CallerId, e: FlushStep)
    requires Inv(c, s) && FlushEnabled(c, s, t, e)
    requires !e.SendMarker? && !e.RunExport? && !e.LateExport?
    ensures Inv(c, FlushApply(c, s, t, e))
  {
  }

  lemma GetInv(c: Config, s: State)
    requires Inv(c, s) && WorkEnabled(s, Get)
    ensures Inv(c, WorkApply(c, s, Get))
  {
    ReceiveFifo(s.data);
    forall u | u in s.flushers
      ensures CallHolds(WorkApply(c, s, Get).data, WorkApply(c, s, Get).seen, u, s.flushers[u])
    {
      ReceiveCall(s.data, s.seen, u, s.flushers[u], s.worker.draining);
    }
    assert Known(s.flushers, s.data.queue[0]);
  }

  lemma PutInv(c: Config, s: State)
    requires Inv(c, s) && WorkEnabled(s, Put)
    ensures Inv(c, WorkApply(c, s, Put))
  {
    AppendFifo(s.data);
    assert forall u :: u in s.flushers ==> CallHolds(s.data, s.seen, u, s.flushers[u]);
    forall u | u in s.flushers
      ensures CallHolds(Append(s.data), s.seen, u, s.flushers[u])
    {
    }
  }

  lemma WorkInv(c: Config, s: State, e: WorkerStep)
    requires Inv(c, s) && WorkEnabled(s, e) && !e.Get? && !e.Put?
    ensures Inv(c, WorkApply(c, s, e))
  {
    if e.Export? {
      ExportFifo(s.data);
      ExportCounts(c, s.data);
      KeepCalls(s);
    }
  }

  lemma StepInv(c: Config, s: State, step: Step)
    requires Inv(c, s) && Enabled(c, s, step)
    ensures Inv(c, After(c, s, step))
  {
    match step
    case End(t, e) => EndInv(c, s, t, e);
    case Flush(t, e) =>
      if e.SendMarker? { SendMarkerInv(c, s, t); }
      else if e.RunExport? || e.LateExport? { FlushExportInv(c, s, t, e); }
      else { FlushInv(c, s, t, e); }
    case Work(e) =>
      if e.Get? { GetInv(c, s); } else if e.Put? { PutInv(c, s); } else { WorkInv(c, s, e); }
    case Shut(e) =>
  }

  /** Every state of every run satisfies the invariant. */
  lemma {:induction false} RunInv(c: Config, trace: seq<State>, i: nat)
    requires IsRun(c, trace) && i < |trace|
    ensures Inv(c, trace[i])
  {
    if i > 0 {
      RunInv(c, trace, i - 1);
      assert StepAt(c, trace, i);
      var step :| Enabled(c, trace[i - 1], step) && trace[i] == After(c, trace[i - 1], step);
      StepInv(c, trace[i - 1], step);
    }
  }

  // ----- the bound on batches -----

  lemma StepBounded(c: Config, s: State, step: Step)
    requires c.maxBatch >= 1 && Phases(s) && Bounded(c, s) && Enabled(c, s, step)
    ensures Bounded(c, After(c, s, step))
  {
    match step
    case End(t, e) =>
    case Flush(t, e) =>
    case Work(e) =>
    case Shut(e) =>
  }

  lemma {:induction false} RunBounded(c: Config, trace: seq<State>, i: nat)
    requires c.maxBatch >= 1 && IsRun(c, trace) && i < |trace|
    ensures Bounded(c, trace[i])
  {
    if i > 0 {
      RunBounded(c, trace, i - 1);
      RunInv(c, trace, i - 1);
      assert StepAt(c, trace, i);
      var step :| Enabled(c, trace[i - 1], step) && trace[i] == After(c, trace[i - 1], step);
      StepBounded(c, trace[i - 1], step);
    }
  }
}

/** What the span processor promises, for every run and every interleaving. */
module SpanBatchPromises {
  import opened Prelude
  import opened SpanBatch
  import opened SpanBatchSafety

  /**
   Spans stay in order and none is lost or duplicated: what was exported, the batch, the span in the worker's hand and
   the queued spans are, one after the other, exactly the accepted spans.
   */
  lemma FirstInFirstOut(c: Config, trace: seq<State>, i: nat)
    requires IsRun(c, trace) && i < |trace|
    ensures var d := trace[i].data; d.Exported() + d.batch + d.hand + Spans(d.queue) == d.accepted
  {
    RunInv(c, trace, i);
    FifoConcat(trace[i].data);
  }

  /** Every export has between one span and the maximal batch size, also while the queue is drained. */
  lemma ExportsAreBounded(c: Config, trace: seq<State>, i: nat)
    requires c.maxBatch >= 1 && IsRun(c, trace) && i < |trace|
    ensures forall j :: 0 <= j < |trace[i].data.calls| ==> 1 <= |trace[i].data.calls[j]| <= c.maxBatch
  {
    RunInv(c, trace, i);
    RunBounded(c, trace, i);
  }

  /** Every sampled span offered was accepted or counted as dropped; the counter has 32 bits.  Blocking drops none. */
  lemma EveryAttemptIsCounted(c: Config, trace: seq<State>, i: nat)
    requires IsRun(c, trace) && i < |trace|
    ensures var d := trace[i].data;
            && d.attempts == |d.accepted| + d.lost
            && d.dropped == d.lost % TWO_TO_32
            && (c.blocking ==> d.attempts == |d.accepted|)
  {
    RunInv(c, trace, i);
  }

  lemma {:induction false} AcceptedGrows(c: Config, trace: seq<State>, i: nat, k: nat)
    requires IsRun(c, trace) && i <= k < |trace|
    ensures trace[i].data.accepted <= trace[k].data.accepted
    decreases k
  {
    if i < k {
      AcceptedGrows(c, trace, i, k - 1);
      assert StepAt(c, trace, k);
      var step :| Enabled(c, trace[k - 1], step) && trace[k] == After(c, trace[k - 1], step);
    }
  }

  /** The number of spans in front of its marker that a ForceFlush call relies on, once the marker is sent. */
  function MarkOf(pc: FlushPc): Option<nat> {
    match pc
    case Waiting(mark) => Some(mark)
    case ToExport(goal) => goal
    case HasExported(goal, _) => goal
    case Returned(goal, _) => goal
    case _ => None
  }

  predicate GaveUp(pc: FlushPc) {
    pc.Stopped? || pc.Cancelled?
  }

  lemma {:induction false} MarkIsKept(c: Config, trace: seq<State>, i: nat, k: nat, t: CallerId)
    requires IsRun(c, trace) && i <= k < |trace|
    requires t in trace[i].flushers && MarkOf(trace[i].flushers[t]).Some?
    ensures t in trace[k].flushers
    ensures GaveUp(trace[k].flushers[t]) || MarkOf(trace[k].flushers[t]) == MarkOf(trace[i].flushers[t])
    decreases k
  {
    if i < k {
      MarkIsKept(c, trace, i, k - 1, t);
      assert StepAt(c, trace, k);
      StepKeepsMark(c, trace[k - 1], trace[k], t);
    }
  }

  lemma StepKeepsMark(c: Config, s: State, s': State, t: CallerId)
    requires Follows(c, s, s')
    requires t in s.flushers && (GaveUp(s.flushers[t]) || MarkOf(s.flushers[t]).Some?)
    ensures t in s'.flushers
    ensures GaveUp(s'.flushers[t]) || (!GaveUp(s.flushers[t]) && MarkOf(s'.flushers[t]) == MarkOf(s.flushers[t]))
  {
    var step :| Enabled(c, s, step) && s' == After(c, s, step);
    match step
    case End(u, e) =>
    case Flush(u, e) =>
    case Work(e) =>
    case Shut(e) =>
  }

  /**
   The flush guarantee.  A ForceFlush call sends its marker in step j and returns the result of its own export in state
   k, having seen the marker: every span accepted before the marker has been handed to ExportSpans, in order.
   */
  lemma FlushGuarantee(c: Config, trace: seq<State>, j: nat, k: nat, t: CallerId, err: bool)
    requires IsRun(c, trace) && j < k < |trace|
    requires FlushEnabled(c, trace[j], t, FlushStep.SendMarker)
    requires trace[j + 1] == FlushApply(c, trace[j], t, FlushStep.SendMarker)
    requires t in trace[k].flushers && trace[k].flushers[t].Returned? && trace[k].flushers[t].err == err
    ensures trace[j].data.accepted <= trace[k].data.Exported()
  {
    RunInv(c, trace, k);
    MarkIsKept(c, trace, j + 1, k, t);
    AcceptedGrows(c, trace, j, k);
    assert CallHolds(trace[k].data, trace[k].seen, t, trace[k].flushers[t]);
  }

  // ----- how ForceFlush calls end -----

  /**
   At any time, all spans accepted up to an earlier state have been exported if and only if no more spans are still on
   their way than were accepted since.
   */
  lemma ExportedIff(c: Config, trace: seq<State>, i: nat, k: nat)
    requires IsRun(c, trace) && i <= k < |trace|
    ensures var d := trace[k].data;
            (trace[i].data.accepted <= d.Exported())
            <==> (|d.batch| + |d.hand| + |Spans(d.queue)| <= |d.accepted| - |trace[i].data.accepted|)
  {
    RunInv(c, trace, k);
    AcceptedGrows(c, trace, i, k);
  }

  /** Step m is the export of a ForceFlush call that sent no marker because its context ended. */
  ghost predicate ExportsUnmarked(c: Config, trace: seq<State>, m: nat, t: CallerId)
    requires m + 1 < |trace|
  {
    && t in trace[m].flushers && trace[m].flushers[t] == ToExport(None)
    && exists err :: trace[m + 1] == FlushApply(c, trace[m], t, RunExport(err))
  }

  /** What is known of a ForceFlush call that had not started in state i. */
  ghost predicate Told(c: Config, trace: seq<State>, i: nat, k: nat, t: CallerId)
    requires i <= k < |trace|
  {
    t in trace[k].flushers ==>
      var pc := trace[k].flushers[t];
      && (MarkOf(pc).Some? ==> |trace[i].data.accepted| <= MarkOf(pc).value)
      && ((pc.HasExported? || pc.Returned?) && pc.goal == None ==> UnmarkedSince(c, trace, i, k, t))
      && (pc.Stopped? ==> StopIsClosed(trace[k]))
  }

  ghost predicate UnmarkedSince(c: Config, trace: seq<State>, i: nat, k: nat, t: CallerId)
    requires k < |trace|
  {
    exists m :: i <= m < k && ExportsUnmarked(c, trace, m, t)
  }

  /** What one step can do to a call. */
  lemma StepTells(c: Config, s: State, step: Step, t: CallerId)
    requires Enabled(c, s, step) && t in After(c, s, step).flushers
    ensures var pc' := After(c, s, step).flushers[t];
            if t !in s.flushers then pc' == Enqueueing
            else
              var pc := s.flushers[t];
              && (MarkOf(pc').Some? ==> MarkOf(pc') == MarkOf(pc) || MarkOf(pc').value == |s.data.accepted|)
              && ((pc'.HasExported? || pc'.Returned?) && pc'.goal == None ==>
                    || ((pc.HasExported? || pc.Returned?) && pc.goal == None)
                    || (pc == ToExport(None) && exists err :: step == Flush(t, RunExport(err))))
              && (pc'.Stopped? ==> pc.Stopped? || StopIsClosed(s))
    ensures StopIsClosed(s) ==> StopIsClosed(After(c, s, step))
  {
    match step
    case End(u, e) =>
    case Flush(u, e) =>
    case Work(e) =>
    case Shut(e) =>
  }

  lemma NextTold(c: Config, trace: seq<State>, i: nat, k: nat, t: CallerId)
    requires IsRun(c, trace) && i <= k && k + 1 < |trace| && Told(c, trace, i, k, t)
    ensures Told(c, trace, i, k + 1, t)
  {
    AcceptedGrows(c, trace, i, k);
    assert StepAt(c, trace, k + 1);
    var step :| Enabled(c, trace[k], step) && trace[k + 1] == After(c, trace[k], step);
    if t in trace[k + 1].flushers {
      StepTells(c, trace[k], step, t);
      var pc' := trace[k + 1].flushers[t];
      if (pc'.HasExported? || pc'.Returned?) && pc'.goal == None {
        StillUnmarked(c, trace, i, k, t, step);
      }
    }
  }

  lemma StillUnmarked(c: Config, trace: seq<State>, i: nat, k: nat, t: CallerId, step: Step)
    requires i <= k && k + 1 < |trace| && Enabled(c, trace[k], step) && trace[k + 1] == After(c, trace[k], step)
    requires UnmarkedSince(c, trace, i, k, t)
          || (t in trace[k].flushers && trace[k].flushers[t] == ToExport(None)
              && exists err :: step == Flush(t, RunExport(err)))
    ensures UnmarkedSince(c, trace, i, k + 1, t)
  {
    if UnmarkedSince(c, trace, i, k, t) {
      var m :| i <= m < k && ExportsUnmarked(c, trace, m, t);
      assert i <= m < k + 1;
    } else {
      assert ExportsUnmarked(c, trace, k, t);
    }
  }

  lemma {:induction false} ToldInRun(c: Config, trace: seq<State>, i: nat, k: nat, t: CallerId)
    requires IsRun(c, trace) && i <= k < |trace| && t !in trace[i].flushers
    ensures Told(c, trace, i, k, t)
    decreases k
  {
    if i < k {
      ToldInRun(c, trace, i, k - 1, t);
      NextTold(c, trace, i, k - 1, t);
    }
  }

  /**
   What the return of a ForceFlush call, not started before state i, says of the spans accepted up to then.  Having seen
   its marker: they have all been exported.  Without a marker, because its context ended: in its own export they were if
   and only if the spans in the worker's hand and in the queue were no more than those accepted since.  After a stop it
   returns nil without an export: they were if and only if no more are left, in the batch too.
   */
  lemma ForceFlushOutcomes(c: Config, trace: seq<State>, i: nat, k: nat, t: CallerId)
    requires IsRun(c, trace) && i <= k < |trace|
    requires t !in trace[i].flushers && t in trace[k].flushers
    ensures var early, d := trace[i].data.accepted, trace[k].data;
            match trace[k].flushers[t]
            case Returned(Some(mark), err) => early <= d.Exported()
            case Returned(None, err) =>
              exists m :: i <= m < k && ExportsUnmarked(c, trace, m, t) && FlushedIff(trace, i, m)
            case Stopped =>
              && StopIsClosed(trace[k])
              && (early <= d.Exported() <==> |d.batch| + |d.hand| + |Spans(d.queue)| <= |d.accepted| - |early|)
            case _ => true
  {
    ToldInRun(c, trace, i, k, t);
    RunInv(c, trace, k);
    AcceptedGrows(c, trace, i, k);
    ExportedIff(c, trace, i, k);
    assert CallHolds(trace[k].data, trace[k].seen, t, trace[k].flushers[t]);
    if trace[k].flushers[t].Returned? && trace[k].flushers[t].goal == None {
      var m :| i <= m < k && ExportsUnmarked(c, trace, m, t);
      UnmarkedFlush(c, trace, i, m, t);
    }
  }

  /** Whether the export in step m flushed what had been accepted by state i. */
  ghost predicate FlushedIff(trace: seq<State>, i: nat, m: nat)
    requires i <= m && m + 1 < |trace|
  {
    var d := trace[m].data;
    (trace[i].data.accepted <= trace[m + 1].data.Exported())
    <==> (|d.hand| + |Spans(d.queue)| <= |d.accepted| - |trace[i].data.accepted|)
  }

  lemma UnmarkedFlush(c: Config, trace: seq<State>, i: nat, m: nat, t: CallerId)
    requires IsRun(c, trace) && i <= m && m + 1 < |trace| && ExportsUnmarked(c, trace, m, t)
    ensures FlushedIff(trace, i, m)
  {
    ExportedIff(c, trace, i, m + 1);
    var err :| trace[m + 1] == FlushApply(c, trace[m], t, RunExport(err));
  }

  // ----- calls whose context lives while the processor runs -----

  /** Step m is the end of the context of a ForceFlush call being noticed. */
  ghost predicate ContextEnds(c: Config, trace: seq<State>, m: nat, t: CallerId)
    requires m + 1 < |trace|
  {
    || EndsBy(c, trace[m], trace[m + 1], t, CancelEnqueue)
    || EndsBy(c, trace[m], trace[m + 1], t, CancelWait)
    || EndsBy(c, trace[m], trace[m + 1], t, CancelExport)
  }

  ghost predicate EndsBy(c: Config, s: State, s': State, t: CallerId, e: FlushStep) {
    FlushEnabled(c, s, t, e) && s' == FlushApply(c, s, t, e)
  }

  /** The call has seen its marker, or is on its way to. */
  predicate OnCourse(pc: FlushPc) {
    match pc
    case Enqueueing => true
    case Waiting(_) => true
    case ToExport(goal) => goal.Some?
    case HasExported(goal, _) => goal.Some?
    case Returned(goal, _) => goal.Some?
    case Stopped => false
    case Cancelled(_) => false
  }

  lemma StaysOnCourse(c: Config, s: State, step: Step, t: CallerId)
    requires Enabled(c, s, step) && (t in s.flushers ==> OnCourse(s.flushers[t])) && !StopIsClosed(s)
    requires step != Flush(t, CancelEnqueue) && step != Flush(t, CancelWait) && step != Flush(t, CancelExport)
    ensures t in After(c, s, step).flushers ==> OnCourse(After(c, s, step).flushers[t])
  {
    match step
    case End(u, e) =>
    case Flush(u, e) =>
    case Work(e) =>
    case Shut(e) =>
  }

  lemma {:induction false} UndisturbedCall(c: Config, trace: seq<State>, i: nat, k: nat, t: CallerId)
    requires IsRun(c, trace) && i <= k < |trace| && t !in trace[i].flushers && !StopIsClosed(trace[k])
    requires forall m :: i <= m < k ==> !ContextEnds(c, trace, m, t)
    ensures t in trace[k].flushers ==> OnCourse(trace[k].flushers[t])
    decreases k
  {
    if i < k {
      assert StepAt(c, trace, k);
      var step :| Enabled(c, trace[k - 1], step) && trace[k] == After(c, trace[k - 1], step);
      StaysClosed(c, trace[k - 1], step);
      UndisturbedCall(c, trace, i, k - 1, t);
      assert !ContextEnds(c, trace, k - 1, t);
      StaysOnCourse(c, trace[k - 1], step, t);
    }
  }

  lemma StaysClosed(c: Config, s: State, step: Step)
    requires Enabled(c, s, step)
    ensures StopIsClosed(s) ==> StopIsClosed(After(c, s, step))
  {
  }

  predicate HasReturned(pc: FlushPc) {
    pc.Returned? || pc.Stopped? || pc.Cancelled?
  }

  /**
   What a caller can rely on: a ForceFlush call whose context lives, while the processor is not shut down, returns the
   result of its own export after every span accepted before the call has been handed to ExportSpans.
   */
  lemma UndisturbedFlush(c: Config, trace: seq<State>, i: nat, k: nat, t: CallerId)
    requires IsRun(c, trace) && i <= k < |trace| && t !in trace[i].flushers
    requires t in trace[k].flushers && HasReturned(trace[k].flushers[t])
    requires !StopIsClosed(trace[k]) && forall m :: i <= m < k ==> !ContextEnds(c, trace, m, t)
    ensures trace[k].flushers[t].Returned? && trace[k].flushers[t].goal.Some?
    ensures trace[i].data.accepted <= trace[k].data.Exported()
  {
    UndisturbedCall(c, trace, i, k, t);
    ForceFlushOutcomes(c, trace, i, k, t);
  }

  // ----- waiting calls -----

  /** The marker of a waiting call is in the queue or has been seen, unless the processor is stopped. */
  ghost predicate MarkersUnderWay(s: State) {
    && (s.worker.draining || s.worker.pc == FinalExport || s.worker.pc == Done ==> StopIsClosed(s))
    && forall t :: t in s.flushers && s.flushers[t].Waiting? ==> MarkerUnderWay(s, t)
  }

  ghost predicate MarkerUnderWay(s: State, t: CallerId) {
    Marker(t) in s.data.queue || t in s.seen || StopIsClosed(s)
  }

  lemma StaysUnderWay(c: Config, s: State, step: Step, t: CallerId)
    requires MarkersUnderWay(s) && Enabled(c, s, step) && MarkerUnderWay(s, t)
    ensures MarkerUnderWay(After(c, s, step), t)
  {
    match step
    case End(u, e) =>
    case Flush(u, e) =>
    case Work(e) =>
    case Shut(e) =>
  }

  lemma StillWaiting(c: Config, s: State, step: Step, t: CallerId)
    requires Enabled(c, s, step) && step != Flush(t, FlushStep.SendMarker)
    requires t in After(c, s, step).flushers && After(c, s, step).flushers[t].Waiting?
    ensures t in s.flushers && s.flushers[t].Waiting?
  {
    match step
    case End(u, e) =>
    case Flush(u, e) =>
    case Work(e) =>
    case Shut(e) =>
  }

  lemma DrainsWhenStopped(c: Config, s: State, step: Step)
    requires MarkersUnderWay(s) && Enabled(c, s, step)
    ensures var s' := After(c, s, step);
      s'.worker.draining || s'.worker.pc == FinalExport || s'.worker.pc == Done ==> StopIsClosed(s')
  {
    match step
    case End(u, e) =>
    case Flush(u, e) =>
    case Work(e) =>
    case Shut(e) =>
  }

  lemma StepMarkers(c: Config, s: State, step: Step)
    requires MarkersUnderWay(s) && Enabled(c, s, step)
    ensures MarkersUnderWay(After(c, s, step))
  {
    var s' := After(c, s, step);
    DrainsWhenStopped(c, s, step);
    forall t | t in s'.flushers && s'.flushers[t].Waiting?
      ensures MarkerUnderWay(s', t)
    {
      if step != Flush(t, FlushStep.SendMarker) {
        StillWaiting(c, s, step, t);
        StaysUnderWay(c, s, step, t);
      }
    }
  }

  lemma {:induction false} RunMarkers(c: Config, trace: seq<State>, k: nat)
    requires IsRun(c, trace) && k < |trace|
    ensures MarkersUnderWay(trace[k])
  {
    if k > 0 {
      RunMarkers(c, trace, k - 1);
      assert StepAt(c, trace, k);
      var step :| Enabled(c, trace[k - 1], step) && trace[k] == After(c, trace[k - 1], step);
      StepMarkers(c, trace[k - 1], step);
    }
  }

  predicate StillProcesses(w: Worker) {
    !w.draining && w.pc != FinalExport && w.pc != Done
  }

  /**
   A ForceFlush call that waits for its marker never waits in vain: it can return at once, because the marker was seen
   or the processor is stopped, or the marker is in the queue of a worker that still processes it.
   */
  lemma WaitingIsServed(c: Config, trace: seq<State>, k: nat, t: CallerId)
    requires IsRun(c, trace) && k < |trace| && t in trace[k].flushers && trace[k].flushers[t].Waiting?
    ensures || FlushEnabled(c, trace[k], t, SeeMarker)
            || FlushEnabled(c, trace[k], t, SeeStop)
            || (Marker(t) in trace[k].data.queue && StillProcesses(trace[k].worker))
  {
    RunMarkers(c, trace, k);
  }

  // ----- blocked OnEnd calls -----

  /** Consecutive states of the machine. */
  ghost predicate IsPath(c: Config, path: seq<State>) {
    path != [] && forall i :: 0 < i < |path| ==> StepAt(c, path, i)
  }

  lemma Prepend(c: Config, s: State, step: Step, path: seq<State>)
    requires Enabled(c, s, step) && IsPath(c, path) && path[0] == After(c, s, step)
    ensures IsPath(c, [s] + path)
  {
    var longer := [s] + path;
    forall i | 0 < i < |longer|
      ensures StepAt(c, longer, i)
    {
      if i == 1 {
        assert Follows(c, s, path[0]);
      } else {
        assert StepAt(c, path, i - 1);
      }
    }
  }

  /** Whatever happens, the OnEnd call does not get its span into the queue. */
  ghost predicate BlockedForEver(c: Config, s: State, t: CallerId) {
    forall path: seq<State> :: IsPath(c, path) && path[0] == s ==>
      t in path[|path| - 1].enders && !EndEnabled(c, path[|path| - 1], t, Send)
  }

  /** A blocking processor with a full queue from which the worker takes nothing any more. */
  predicate NobodyTakes(c: Config, s: State) {
    && c.blocking && |s.data.queue| >= c.queueCap
    && (s.worker.pc == FinalExport || s.worker.pc == Done || c.queueCap == 0)
  }

  lemma StaysBlocked(c: Config, s: State, step: Step, t: CallerId)
    requires NobodyTakes(c, s) && t in s.enders && Enabled(c, s, step) && (c.queueCap == 0 ==> s.data.queue == [])
    ensures NobodyTakes(c, After(c, s, step)) && t in After(c, s, step).enders
    ensures c.queueCap == 0 ==> After(c, s, step).data.queue == []
  {
    match step
    case End(u, e) =>
    case Flush(u, e) =>
    case Work(e) =>
    case Shut(e) =>
  }

  lemma {:induction false} PathStaysBlocked(c: Config, path: seq<State>, i: nat, t: CallerId)
    requires IsPath(c, path) && i < |path| && NobodyTakes(c, path[0]) && t in path[0].enders
    requires c.queueCap == 0 ==> path[0].data.queue == []
    ensures NobodyTakes(c, path[i]) && t in path[i].enders && (c.queueCap == 0 ==> path[i].data.queue == [])
  {
    if i > 0 {
      PathStaysBlocked(c, path, i - 1, t);
      assert StepAt(c, path, i);
      var step :| Enabled(c, path[i - 1], step) && path[i] == After(c, path[i - 1], step);
      StaysBlocked(c, path[i - 1], step, t);
    }
  }

  /** The next step of a worker on its way to taking something from the queue. */
  function NextWork(s: State): WorkerStep {
    match s.worker.pc
    case Appending => Put
    case Exporting => Export(false)
    case _ => Get
  }

  /** How many steps the worker is away from that. */
  function StepsToGet(w: Worker): nat {
    match w.pc
    case Appending => 2
    case Exporting => 1
    case _ => 0
  }

  /** A worker that still takes spans makes room. */
  lemma {:induction false} RoomComes(c: Config, s: State, t: CallerId) returns (path: seq<State>)
    requires t in s.enders && !NobodyTakes(c, s) && |s.data.queue| <= c.queueCap
    ensures IsPath(c, path) && path[0] == s && EndEnabled(c, path[|path| - 1], t, Send)
    decreases |s.data.queue|, StepsToGet(s.worker)
  {
    if EndEnabled(c, s, t, Send) {
      path := [s];
    } else {
      var step := Work(NextWork(s));
      path := RoomComes(c, After(c, s, step), t);
      Prepend(c, s, step, path);
      path := [s] + path;
    }
  }

  /**
   An OnEnd call that saw the processor running stays blocked for ever if and only if it blocks at all, the queue is
   full, and the worker has found the queue empty before, while it drained, and takes nothing from it any more.
   */
  lemma BlockedForEverIff(c: Config, trace: seq<State>, k: nat, t: CallerId)
    requires IsRun(c, trace) && k < |trace| && t in trace[k].enders
    ensures BlockedForEver(c, trace[k], t) <==> NobodyTakes(c, trace[k])
  {
    RunInv(c, trace, k);
    var s := trace[k];
    if NobodyTakes(c, s) {
      forall path: seq<State> | IsPath(c, path) && path[0] == s
        ensures t in path[|path| - 1].enders && !EndEnabled(c, path[|path| - 1], t, Send)
      {
        PathStaysBlocked(c, path, |path| - 1, t);
      }
    } else {
      var path := RoomComes(c, s, t);
    }
  }

  // ----- draining -----

  /** The worker has found the queue empty; all that was accepted by then is exported or in the last batch. */
  ghost predicate Drained(s: State, all: seq<Span>) {
    && (s.worker.pc == FinalExport || s.worker.pc == Done)
    && s.data.hand == []
    && s.data.Exported() + s.data.batch == all
  }

  lemma StepKeepsDrained(c: Config, s: State, step: Step, all: seq<Span>)
    requires Enabled(c, s, step) && Drained(s, all)
    ensures Drained(After(c, s, step), all)
  {
    match step
    case End(u, e) =>
    case Flush(u, e) => FlushKeepsDrained(c, s, u, e, all);
    case Work(e) => ExportFlatten(s.data);
    case Shut(e) =>
  }

  lemma FlushKeepsDrained(c: Config, s: State, t: CallerId, e: FlushStep, all: seq<Span>)
    requires FlushEnabled(c, s, t, e) && Drained(s, all)
    ensures Drained(FlushApply(c, s, t, e), all)
  {
    ExportFlatten(s.data);
    assert FlushData(s.data, t, e).hand == s.data.hand;
  }

  lemma {:induction false} DrainedIsKept(c: Config, trace: seq<State>, i: nat, k: nat, all: seq<Span>)
    requires IsRun(c, trace) && i <= k < |trace| && Drained(trace[i], all)
    ensures Drained(trace[k], all)
    decreases k
  {
    if i < k {
      DrainedIsKept(c, trace, i, k - 1, all);
      assert StepAt(c, trace, k);
      var step :| Enabled(c, trace[k - 1], step) && trace[k] == After(c, trace[k - 1], step);
      StepKeepsDrained(c, trace[k - 1], step, all);
    }
  }

  /** Step j is the worker finding the queue empty while it drains. */
  ghost predicate FindsEmpty(c: Config, trace: seq<State>, j: nat)
    requires j + 1 < |trace|
  {
    WorkEnabled(trace[j], Default) && trace[j + 1] == WorkApply(c, trace[j], Default)
  }

  /** A worker that is about to make its final export, or has ended, has found the queue empty. */
  lemma {:induction false} HasFoundEmpty(c: Config, trace: seq<State>, k: nat) returns (j: nat)
    requires IsRun(c, trace) && k < |trace| && (trace[k].worker.pc == FinalExport || trace[k].worker.pc == Done)
    ensures j < k && FindsEmpty(c, trace, j)
    decreases k
  {
    assert StepAt(c, trace, k);
    var step :| Enabled(c, trace[k - 1], step) && trace[k] == After(c, trace[k - 1], step);
    if step == Work(Default) {
      j := k - 1;
    } else {
      OnlyDefaultEnds(c, trace[k - 1], step);
      j := HasFoundEmpty(c, trace, k - 1);
    }
  }

  lemma OnlyDefaultEnds(c: Config, s: State, step: Step)
    requires Enabled(c, s, step) && step != Work(Default)
    requires After(c, s, step).worker.pc == FinalExport || After(c, s, step).worker.pc == Done
    ensures s.worker.pc == FinalExport || s.worker.pc == Done
  {
    match step
    case End(t, e) =>
    case Flush(t, e) =>
    case Work(e) =>
    case Shut(e) =>
  }

  /** What was accepted up to state j, and no more, has been exported; the later spans are in the queue. */
  ghost predicate DeliveredSince(trace: seq<State>, j: nat, k: nat)
    requires j <= k < |trace|
  {
    var d := trace[k].data;
    && d.Exported() == trace[j].data.accepted
    && d.batch == [] && d.hand == []
    && d.accepted == trace[j].data.accepted + Spans(d.queue)
  }

  lemma DrainedFrom(c: Config, trace: seq<State>, j: nat, k: nat)
    requires IsRun(c, trace) && j < k < |trace| && FindsEmpty(c, trace, j) && trace[k].worker.pc == Done
    ensures DeliveredSince(trace, j, k)
  {
    RunInv(c, trace, j);
    RunInv(c, trace, k);
    FifoConcat(trace[j].data);
    FifoConcat(trace[k].data);
    assert Spans(trace[j].data.queue) == [] && trace[j].data.hand == [];
    DrainedIsKept(c, trace, j + 1, k, trace[j].data.accepted);
  }

  /**
   When the worker has ended it has found the queue empty in some step, and exactly the spans accepted before that have
   been handed to ExportSpans, for good; the later ones stay in the queue.
   */
  lemma ShutdownDrains(c: Config, trace: seq<State>, k: nat)
    requires IsRun(c, trace) && k < |trace| && trace[k].worker.pc == Done
    ensures exists j :: 0 <= j < k && FindsEmpty(c, trace, j)
    ensures forall j :: 0 <= j < k && FindsEmpty(c, trace, j) ==> DeliveredSince(trace, j, k)
  {
    var j := HasFoundEmpty(c, trace, k);
    forall j | 0 <= j < k && FindsEmpty(c, trace, j)
      ensures DeliveredSince(trace, j, k)
    {
      DrainedFrom(c, trace, j, k);
    }
  }

  /** Once Shutdown has shut the exporter down, no ForceFlush call still under way can make it export again. */
  lemma NoExportAfterShutdown(c: Config, trace: seq<State>, i: nat)
    requires IsRun(c, trace) && i + 1 < |trace| && trace[i].shut == ExporterShutDown
    ensures trace[i + 1].data.calls == trace[i].data.calls
  {
    RunInv(c, trace, i);
    assert StepAt(c, trace, i + 1);
    var step :| Enabled(c, trace[i], step) && trace[i + 1] == After(c, trace[i], step);
  }

  // ----- what a nil result of ForceFlush does not promise -----

  ghost predicate Reachable(c: Config, s: State) {
    exists trace :: IsRun(c, trace) && trace[|trace| - 1] == s
  }

  lemma Go(c: Config, s: State, step: Step) returns (s': State)
    requires Reachable(c, s) && Enabled(c, s, step)
    ensures s' == After(c, s, step) && Reachable(c, s')
  {
    s' := After(c, s, step);
    var trace :| IsRun(c, trace) && trace[|trace| - 1] == s;
    var trace' := trace + [s'];
    forall i | 0 < i < |trace'|
      ensures StepAt(c, trace', i)
    {
      assert i < |trace| ==> StepAt(c, trace, i);
    }
    assert trace'[|trace'| - 1] == s';
  }

  /** One span has been accepted and is queued. */
  lemma OneQueued(c: Config) returns (s: State)
    requires c.queueCap >= 1
    ensures Reachable(c, s)
    ensures s == Init().(data := EMPTY_DATA.(queue := [Ended(7)], accepted := [7], attempts := 1))
  {
    s := Init();
    assert IsRun(c, [s]) && [s][|[s]| - 1] == s;
    s := Go(c, s, End(0, Begin(7)));
    s := Go(c, s, End(0, Send));
    assert s.enders == map[];
  }

  /** The bound on exports is kept in all runs if and only if the maximal batch size is not 0. */
  lemma ExportsBoundedIff(c: Config)
    requires c.queueCap >= 1
    ensures (forall s :: Reachable(c, s) ==> CallsBounded(c, s)) <==> c.maxBatch >= 1
  {
    if c.maxBatch == 0 {
      var s := OneQueued(c);
      s := Go(c, s, Work(Get));
      s := Go(c, s, Work(Put));
      assert s.data.batch == [7];
      s := Go(c, s, Work(Export(false)));
      assert s.data.calls == [[7]] && |s.data.calls[0]| > c.maxBatch;
    } else {
      forall s | Reachable(c, s)
        ensures CallsBounded(c, s)
      {
        var trace :| IsRun(c, trace) && trace[|trace| - 1] == s;
        ExportsAreBounded(c, trace, |trace| - 1);
      }
    }
  }

  ghost predicate CallsBounded(c: Config, s: State) {
    forall j :: 0 <= j < |s.data.calls| ==> 1 <= |s.data.calls[j]| <= c.maxBatch
  }

  /**
   A ForceFlush call whose context ends while the queue is full sends no marker, exports the (empty) batch and can
   return nil although a span accepted before the call is still queued and the processor was never stopped.
   */
  lemma NilWithoutMarkerFlushesNothing()
    ensures exists s :: Reachable(Config(1, 1, false), s) && s.shut == Running
              && s.flushers == map[0 := Returned(None, false)]
              && s.data.accepted == [7] && s.data.Exported() == []
  {
    var c := Config(1, 1, false);
    var s := OneQueued(c);
    s := Go(c, s, Flush(0, Start));
    s := Go(c, s, Flush(0, CancelEnqueue));
    s := Go(c, s, Flush(0, RunExport(false)));
    s := Go(c, s, Flush(0, Return));
  }

  /**
   A ForceFlush call that sees the processor stopped returns nil although a span accepted before it is still queued.
   */
  lemma StoppedFlushesNothing()
    ensures exists s :: Reachable(Config(2, 1, false), s) && s.shut == StopClosed && s.flushers == map[0 := Stopped]
              && s.data.accepted == [7] && s.data.Exported() == []
  {
    var c := Config(2, 1, false);
    var s := OneQueued(c);
    s := Go(c, s, Flush(0, Start));
    s := Go(c, s, Flush(0, FlushStep.SendMarker));
    s := Go(c, s, Shut(SetStopped));
    s := Go(c, s, Shut(CloseStop));
    s := Go(c, s, Flush(0, SeeStop));
  }

  const BLOCKING: Config := Config(1, 1, true)

  /** Two OnEnd calls have seen a blocking processor running, which was stopped then and has drained its queue. */
  lemma DrainedWithTwoCalls() returns (s: State)
    ensures Reachable(BLOCKING, s) && s.enders == map[0 := 7, 1 := 8] && s.worker.pc == Done && s.data.queue == []
  {
    s := Init();
    assert IsRun(BLOCKING, [s]) && [s][|[s]| - 1] == s;
    s := Go(BLOCKING, s, End(0, Begin(7)));
    s := Go(BLOCKING, s, End(1, Begin(8)));
    s := Go(BLOCKING, s, Shut(SetStopped));
    s := Go(BLOCKING, s, Shut(CloseStop));
    s := Go(BLOCKING, s, Work(Stop));
    s := Go(BLOCKING, s, Work(Default));
    s := Go(BLOCKING, s, Work(Export(false)));
  }

  /** The span of one of them fills the queue then, where it stays, and the other call is blocked for ever. */
  lemma LateOnEndBlocks()
    ensures exists s :: Reachable(BLOCKING, s) && s.worker.pc == Done && s.enders == map[1 := 8]
              && s.data.queue == [Ended(7)] && BlockedForEver(BLOCKING, s, 1)
  {
    var s := DrainedWithTwoCalls();
    s := Go(BLOCKING, s, End(0, Send));
    assert s.enders == map[1 := 8];
    ReachedBlocks(BLOCKING, s, 1);
  }

  lemma ReachedBlocks(c: Config, s: State, t: CallerId)
    requires Reachable(c, s) && t in s.enders && NobodyTakes(c, s)
    ensures BlockedForEver(c, s, t)
  {
    var trace :| IsRun(c, trace) && trace[|trace| - 1] == s;
    BlockedForEverIff(c, trace, |trace| - 1, t);
  }
}

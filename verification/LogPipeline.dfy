/**
 The log export pipeline of sdk/log/batch.go and sdk/log/exporter.go as a machine of atomic steps.

 The threads are: any number of OnEmit callers, the poll goroutine, any number of ForceFlush calls, one effective
 Shutdown call and the export goroutine.  A step is what a lock or a channel operation makes atomic.  TryDequeue runs
 EnqueueExport while it holds the queue lock, so that pair is one step; Shutdown's Flush and its Export are two.
 Ticks, cancelled contexts and failing exports are choices of the environment.

 A record is named by its place in the order of the Enqueue calls; the machine never looks inside a record.
 */
module LogPipeline {
  import opened Prelude
  import opened QueueSpec

  type RecordId = nat
  type CallerId = nat
  type BufferId = nat

  /** `batchSize` is also the size of the export chunks; `inputCap` is the capacity of the export channel. */
  datatype Config = Config(queueCap: nat, batchSize: nat, inputCap: nat) {
    predicate Valid() {
      queueCap >= 1 && batchSize >= 1 && inputCap >= 1
    }
  }

  // ----- where the records are -----

  /**
   What travels through the export channel: a batch, held in array `buf` and equal to `records` when it was
   accepted, or the empty request of a ForceFlush call.  `reply` says that Shutdown waits for the result.
   */
  datatype Item =
    | Batch(buf: BufferId, records: seq<RecordId>, reply: bool)
    | Marker(call: CallerId)
  {
    function Records(): seq<RecordId> {
      if Batch? then records else []
    }
  }

  /** The request the export goroutine is handling, and how many of its records it is through with. */
  datatype Work = NoWork | Work(item: Item, done: nat) {
    predicate Valid() {
      Work? ==> done <= |item.Records()|
    }

    function Rest(): seq<RecordId>
      requires Valid()
    {
      if Work? then item.Records()[done..] else []
    }
  }

  datatype Pipe = Pipe(
    queue: seq<RecordId>,         // the ring, oldest first
    held: Option<Item>,           // what Shutdown flushed and has not sent yet
    input: seq<Item>,             // the export channel
    work: Work,
    // history
    enqueued: nat,                // number of records enqueued so far
    calls: seq<seq<RecordId>>,    // the arguments of the wrapped exporter's Export, in order
    overwritten: seq<RecordId>,   // records the ring dropped on overflow
    discarded: seq<RecordId>,     // records given up by a stop, a cancellation or a failed chunk
    failed: bool,                 // some chunk's export returned an error
    flushed: bool,                // Shutdown has flushed the queue
    overtaken: bool)              // a batch was sent while Shutdown held what it had flushed
  {
    function HeldRecords(): seq<RecordId> {
      if held.Some? then held.value.Records() else []
    }

    function Exported(): seq<RecordId> {
      Flatten(calls)
    }
  }

  /** The records of a list of requests, in order. */
  function InputRecords(input: seq<Item>): seq<RecordId> {
    if input == [] then [] else input[0].Records() + InputRecords(input[1..])
  }

  const EMPTY_PIPE: Pipe := Pipe([], None, [], NoWork, 0, [], [], [], false, false, false)

  // ----- what the steps do to the records -----

  function PutRecord(c: Config, p: Pipe): Pipe {
    p.(queue := Enqueued(p.queue, c.queueCap, p.enqueued),
       enqueued := p.enqueued + 1,
       overwritten := if |p.queue| >= c.queueCap && |p.queue| > 0 then p.overwritten + [p.queue[0]] else p.overwritten)
  }

  /** The outcome of EnqueueExport. */
  datatype Verdict = Sent | Swallowed | Refused

  function EnqueueExport(c: Config, p: Pipe, records: seq<RecordId>, stopped: bool): Verdict {
    if |records| == 0 || stopped then Swallowed
    else if |p.input| < c.inputCap then Sent
    else Refused
  }

  /** TryDequeue into array `buf` of length `room` with the given outcome of EnqueueExport. */
  function TakeBatch(p: Pipe, buf: BufferId, room: nat, verdict: Verdict): Pipe {
    var batch := QueueSpec.Batch(p.queue, room);
    var rest := Dequeued(p.queue, room, verdict != Refused);
    match verdict
    case Sent =>
      p.(queue := rest, input := p.input + [Batch(buf, batch, false)], overtaken := p.overtaken || p.held.Some?)
    case Swallowed => p.(queue := rest, discarded := p.discarded + batch)
    case Refused => p.(queue := rest)
  }

  function FlushAll(p: Pipe, buf: BufferId): Pipe {
    p.(queue := [], flushed := true, held := if p.queue == [] then None else Some(Batch(buf, p.queue, true)))
  }

  function SendHeld(p: Pipe): Pipe {
    if p.held.Some? then p.(held := None, input := p.input + [p.held.value]) else p
  }

  function DropHeld(p: Pipe): Pipe {
    p.(held := None, discarded := p.discarded + p.HeldRecords())
  }

  function SendMarker(p: Pipe, call: CallerId): Pipe {
    p.(input := p.input + [Marker(call)])
  }

  function Receive(p: Pipe): Pipe
    requires p.input != []
  {
    p.(input := p.input[1..], work := Work(p.input[0], 0))
  }

  /** Hands `chunk` to the wrapped exporter; after an error the rest of the batch is given up. */
  function ExportChunk(p: Pipe, chunk: seq<RecordId>, ok: bool): Pipe
    requires p.work.Work? && p.work.Valid() && |chunk| <= |p.work.Rest()|
  {
    if ok then
      p.(calls := p.calls + [chunk], work := p.work.(done := p.work.done + |chunk|))
    else
      p.(calls := p.calls + [chunk], work := p.work.(done := |p.work.item.Records()|),
         discarded := p.discarded + p.work.Rest()[|chunk|..], failed := true)
  }

  // ----- threads -----

  /** An OnEmit call after it saw that the processor runs, or between its Enqueue and its send to pollTrigger. */
  datatype EmitPc = Checked | Triggering

  datatype PollPc = Waiting | Woken | Retriggering | Dead

  /**
   What a ForceFlush call has to see exported: the records that were queued, buffered, in hand or exported when it
   emptied the queue.  `stopped` says that the exporter was stopped then, which swallows what was queued.
   */
  datatype Goal = Goal(due: set<RecordId>, stopped: bool)

  /** A ForceFlush call.  `goal` is None when the call gave up flushing the queue, which is an error. */
  datatype FlushPc =
    | Trying(buf: BufferId)
    | Tried(buf: BufferId)             // the last attempt was refused
    | Locking(goal: Option<Goal>)      // about to enqueue the empty request
    | Sending(goal: Option<Goal>)      // holds inputMu
    | Awaiting(goal: Option<Goal>)
    | Answered(goal: Option<Goal>)     // about to call the wrapped exporter's ForceFlush
    | Called(goal: Option<Goal>, err: bool)
    | Abandoned(err: bool)             // returned without calling it; nil when the exporter was stopped
  {
    function GoalOf(): Option<Goal> {
      if Trying? || Tried? || Abandoned? then None else goal
    }
  }

  datatype ShutPc =
    | NotStarted
    | Swapped          // stopped is set
    | Killed           // pollKill is closed
    | Flushing         // the poll goroutine is gone
    | ExportLocking
    | ExportSending    // holds inputMu
    | ExportAwaiting
    | ExportAnswered
    | Stopping         // about to call bufferExporter.Shutdown
    | Closing          // exporter stopped, waits for inputMu
    | Draining         // channel closed, holds inputMu, waits for the export goroutine
    | Finished(clean: bool)

  /** Who holds inputMu across steps. */
  datatype Holder = Nobody | Flusher(call: CallerId) | Shutter

  /** Who may write an array: the poll goroutine, a ForceFlush call, or nobody once a batch in it was accepted. */
  datatype Owner = PollOwns | FlushOwns(call: CallerId) | GivenAway

  datatype Array = Array(owner: Owner, data: seq<RecordId>)

  datatype Arrays = Arrays(
    mem: map<BufferId, Array>,  // the arrays batches are copied into
    next: BufferId)             // a name not in use yet

  /** The poll goroutine: where it is, the array it copies into, and whether a token is in pollTrigger. */
  datatype Poller = Poller(pc: PollPc, buf: BufferId, trigger: bool)

  datatype Control = Control(
    shut: ShutPc,
    stopped: bool,     // BatchProcessor.stopped
    killed: bool,      // pollKill is closed
    expStopped: bool,  // bufferExporter.stopped
    closed: bool,      // the export channel is closed
    exportDone: bool,  // the export goroutine is gone
    inputMu: Holder)

  datatype State = State(
    pipe: Pipe,
    arrays: Arrays,
    emitters: map<CallerId, EmitPc>,
    poller: Poller,
    flushers: map<CallerId, FlushPc>,
    ctl: Control)

  const ZERO_RECORD: RecordId := 0

  function Init(c: Config): State {
    State(EMPTY_PIPE, Arrays(map[0 := Array(PollOwns, seq(c.batchSize, _ => ZERO_RECORD))], 1), map[],
          Poller(Waiting, 0, false), map[],
          Control(NotStarted, false, false, false, false, false, Nobody))
  }

  /** Array contents after copying `records` over the front of `contents`. */
  function CopyInto(contents: seq<RecordId>, records: seq<RecordId>): seq<RecordId> {
    if |records| <= |contents| then records + contents[|records|..] else records
  }

  // ----- steps -----

  datatype EmitStep = Check | Enqueue | SendTrigger
  datatype PollStep = Tick | TakeTrigger | Kill | Dequeue | Retrigger
  datatype FlushStep = Begin | Attempt | Retry | GiveUp | Lock | Send | CancelSend | CancelWait
                     | CallFlush(err: bool)
  datatype ShutStep =
    | Swap | CloseKill | SeePollDone | TimeOutPoll | FlushQueue | LockExport | SendExport | CancelExport
    | SeeAnswer | TimeOutAnswer | StopExporter | CloseInput | SeeExportDone | TimeOutExport
  datatype ExportStep = Take | Chunk(ok: bool) | Respond | Exit

  datatype Step =
    | Emit(caller: CallerId, e: EmitStep)
    | Poll(p: PollStep)
    | Flush(call: CallerId, f: FlushStep)
    | Shut(s: ShutStep)
    | Export(x: ExportStep)

  /** EnqueueExport can run: an empty batch returns at once, any other needs inputMu. */
  predicate CanOffer(s: State, room: nat) {
    QueueSpec.Batch(s.pipe.queue, room) == [] || s.ctl.inputMu == Nobody
  }

  predicate EmitEnabled(s: State, t: CallerId, e: EmitStep) {
    match e
    case Check => t !in s.emitters && !s.ctl.stopped
    case Enqueue => t in s.emitters && s.emitters[t] == Checked
    case SendTrigger => t in s.emitters && s.emitters[t] == Triggering
  }

  function EmitApply(c: Config, s: State, t: CallerId, e: EmitStep): State {
    match e
    case Check => s.(emitters := s.emitters[t := Checked])
    case Enqueue =>
      var p := PutRecord(c, s.pipe);
      s.(pipe := p,
         emitters := if |p.queue| >= c.batchSize then s.emitters[t := Triggering] else s.emitters - {t})
    case SendTrigger => s.(poller := s.poller.(trigger := true), emitters := s.emitters - {t})
  }

  predicate PollEnabled(c: Config, s: State, e: PollStep) {
    match e
    case Tick => s.poller.pc == Waiting
    case TakeTrigger => s.poller.pc == Waiting && s.poller.trigger
    case Kill => s.poller.pc == Waiting && s.ctl.killed
    case Dequeue => s.poller.pc == Woken && s.poller.buf in s.arrays.mem && CanOffer(s, c.batchSize)
    case Retrigger => s.poller.pc == Retriggering
  }

  /** The outcome of offering the records at the front of the queue to EnqueueExport. */
  function Offer(c: Config, s: State, room: nat): Verdict {
    EnqueueExport(c, s.pipe, QueueSpec.Batch(s.pipe.queue, room), s.ctl.expStopped)
  }

  /** The array `buf` after the records at the front of the queue were copied into it. */
  function Fill(s: State, buf: BufferId, room: nat): seq<RecordId>
    requires buf in s.arrays.mem
  {
    CopyInto(s.arrays.mem[buf].data, QueueSpec.Batch(s.pipe.queue, room))
  }

  /** When its batch is accepted the poll goroutine gives the array away and goes on with a clone. */
  function PollArrays(a: Arrays, buf: BufferId, filled: seq<RecordId>, accepted: bool): Arrays {
    if accepted then
      Arrays(a.mem[buf := Array(GivenAway, filled)][a.next := Array(PollOwns, filled)], a.next + 1)
    else
      a.(mem := a.mem[buf := Array(PollOwns, filled)])
  }

  function PollApply(c: Config, s: State, e: PollStep): State
    requires PollEnabled(c, s, e)
  {
    match e
    case Tick => s.(poller := s.poller.(pc := Woken))
    case TakeTrigger => s.(poller := s.poller.(pc := Woken, trigger := false))
    case Kill => s.(poller := s.poller.(pc := Dead))
    case Dequeue =>
      var buf := s.poller.buf;
      var verdict := Offer(c, s, c.batchSize);
      var p := TakeBatch(s.pipe, buf, c.batchSize, verdict);
      s.(pipe := p,
         arrays := PollArrays(s.arrays, buf, Fill(s, buf, c.batchSize), verdict != Refused),
         poller := Poller(if |p.queue| >= c.batchSize then Retriggering else Waiting,
                          if verdict != Refused then s.arrays.next else buf,
                          s.poller.trigger))
    case Retrigger => s.(poller := s.poller.(pc := Waiting, trigger := true))
  }

  predicate FlushEnabled(c: Config, s: State, t: CallerId, e: FlushStep) {
    if e == Begin then t !in s.flushers && !s.ctl.stopped
    else
      t in s.flushers &&
      var pc := s.flushers[t];
      match e
      case Attempt => pc.Trying? && pc.buf in s.arrays.mem && CanOffer(s, c.queueCap)
      case Retry => pc.Tried?
      case GiveUp => pc.Tried?
      case Lock => pc.Locking? && s.ctl.inputMu == Nobody
      case Send => pc.Sending? && |s.pipe.input| < c.inputCap
      case CancelSend => pc.Sending?
      case CancelWait => pc.Awaiting? || pc.Answered?
      case CallFlush(err) => pc.Answered?
      case Begin => false
  }

  /** What a flush that dequeues now is answerable for; what Shutdown has taken from the queue is Shutdown's. */
  function NewGoal(s: State): Goal {
    var p := s.pipe;
    var due := set r | 0 <= r < p.enqueued && r !in p.overwritten && r !in p.discarded && r !in p.HeldRecords();
    Goal(due, s.ctl.expStopped)
  }

  function FlushApply(c: Config, s: State, t: CallerId, e: FlushStep): State
    requires FlushEnabled(c, s, t, e)
  {
    match e
    case Begin =>
      var a := s.arrays;
      s.(flushers := s.flushers[t := Trying(a.next)],
         arrays := Arrays(a.mem[a.next := Array(FlushOwns(t), seq(c.queueCap, _ => ZERO_RECORD))], a.next + 1))
    case Attempt =>
      var buf := s.flushers[t].buf;
      var verdict := Offer(c, s, c.queueCap);
      var owner := if verdict == Refused then FlushOwns(t) else GivenAway;
      s.(pipe := TakeBatch(s.pipe, buf, c.queueCap, verdict),
         arrays := s.arrays.(mem := s.arrays.mem[buf := Array(owner, Fill(s, buf, c.queueCap))]),
         flushers := s.flushers[t := if verdict == Refused then Tried(buf) else Locking(Some(NewGoal(s)))])
    case Retry => s.(flushers := s.flushers[t := Trying(s.flushers[t].buf)])
    case GiveUp => s.(flushers := s.flushers[t := Locking(None)])
    case Lock =>
      if s.ctl.expStopped then s.(flushers := s.flushers[t := Abandoned(s.flushers[t].goal == None)])
      else s.(flushers := s.flushers[t := Sending(s.flushers[t].goal)], ctl := s.ctl.(inputMu := Flusher(t)))
    case Send =>
      s.(flushers := s.flushers[t := Awaiting(s.flushers[t].goal)], ctl := s.ctl.(inputMu := Nobody),
         pipe := SendMarker(s.pipe, t))
    case CancelSend => s.(flushers := s.flushers[t := Abandoned(true)], ctl := s.ctl.(inputMu := Nobody))
    case CancelWait => s.(flushers := s.flushers[t := Abandoned(true)])
    case CallFlush(err) =>
      var goal := s.flushers[t].goal;
      s.(flushers := s.flushers[t := Called(goal, err || goal == None)])
  }

  predicate ShutEnabled(c: Config, s: State, e: ShutStep) {
    var k := s.ctl;
    match e
    case Swap => k.shut == NotStarted
    case CloseKill => k.shut == Swapped
    case SeePollDone => k.shut == Killed && s.poller.pc == Dead
    case TimeOutPoll => k.shut == Killed
    case FlushQueue => k.shut == Flushing
    case LockExport => k.shut == ExportLocking && k.inputMu == Nobody
    case SendExport => k.shut == ExportSending && |s.pipe.input| < c.inputCap
    case CancelExport => k.shut == ExportSending
    case SeeAnswer => k.shut == ExportAnswered
    case TimeOutAnswer => k.shut == ExportAwaiting || k.shut == ExportAnswered
    case StopExporter => k.shut == Stopping
    case CloseInput => k.shut == Closing && k.inputMu == Nobody
    case SeeExportDone => k.shut == Draining && k.exportDone
    case TimeOutExport => k.shut == Draining
  }

  function ShutControl(s: State, e: ShutStep): Control {
    var k := s.ctl;
    match e
    case Swap => k.(stopped := true, shut := Swapped)
    case CloseKill => k.(killed := true, shut := Killed)
    case SeePollDone => k.(shut := Flushing)
    case TimeOutPoll => k.(shut := Stopping)
    case FlushQueue => k.(shut := if s.pipe.queue == [] then Stopping else ExportLocking)
    case LockExport => if k.expStopped then k.(shut := Stopping) else k.(inputMu := Shutter, shut := ExportSending)
    case SendExport => k.(inputMu := Nobody, shut := ExportAwaiting)
    case CancelExport => k.(inputMu := Nobody, shut := Stopping)
    case SeeAnswer => k.(shut := Stopping)
    case TimeOutAnswer => k.(shut := Stopping)
    case StopExporter => k.(expStopped := true, shut := Closing)
    case CloseInput => k.(closed := true, inputMu := Shutter, shut := Draining)
    case SeeExportDone => k.(inputMu := Nobody, shut := Finished(true))
    case TimeOutExport => k.(inputMu := Nobody, shut := Finished(false))
  }

  function ShutPipe(s: State, e: ShutStep): Pipe {
    match e
    case FlushQueue => FlushAll(s.pipe, s.arrays.next)
    case LockExport => if s.ctl.expStopped then DropHeld(s.pipe) else s.pipe
    case SendExport => SendHeld(s.pipe)
    case CancelExport => DropHeld(s.pipe)
    case _ => s.pipe
  }

  function ShutApply(s: State, e: ShutStep): State {
    var a := s.arrays;
    State(ShutPipe(s, e),
          if e == FlushQueue then Arrays(a.mem[a.next := Array(GivenAway, s.pipe.queue)], a.next + 1) else a,
          s.emitters, s.poller, s.flushers, ShutControl(s, e))
  }

  /** The slice of the batch in hand that the next chunk covers, read from memory. */
  function NextChunk(c: Config, s: State): seq<RecordId>
    requires s.pipe.work.Work? && s.pipe.work.item.Batch? && s.pipe.work.Valid()
  {
    var lo := s.pipe.work.done;
    var hi := Min(lo + c.batchSize, |s.pipe.work.item.records|);
    var buf := s.pipe.work.item.buf;
    if buf in s.arrays.mem && hi <= |s.arrays.mem[buf].data| then s.arrays.mem[buf].data[lo..hi] else []
  }

  predicate ExportEnabled(s: State, e: ExportStep) {
    var w := s.pipe.work;
    match e
    case Take => w == NoWork && s.pipe.input != []
    case Chunk(ok) => w.Work? && w.Valid() && w.item.Batch? && w.done < |w.item.records|
    case Respond => w.Work? && w.done == |w.item.Records()|
    case Exit => w == NoWork && s.pipe.input == [] && s.ctl.closed && !s.ctl.exportDone
  }

  /** The caller waiting for the answer to `item`, if it still waits, gets it. */
  function Answer(flushers: map<CallerId, FlushPc>, item: Item): map<CallerId, FlushPc> {
    if item.Marker? && item.call in flushers && flushers[item.call].Awaiting? then
      flushers[item.call := Answered(flushers[item.call].goal)]
    else flushers
  }

  function AnswerShutdown(k: Control, item: Item): Control {
    if item.Batch? && item.reply && k.shut == ExportAwaiting then k.(shut := ExportAnswered) else k
  }

  function ExportApply(c: Config, s: State, e: ExportStep): State
    requires ExportEnabled(s, e)
  {
    match e
    case Take => s.(pipe := Receive(s.pipe))
    case Chunk(ok) => s.(pipe := ExportChunk(s.pipe, NextChunk(c, s), ok))
    case Respond =>
      var item := s.pipe.work.item;
      s.(pipe := s.pipe.(work := NoWork), flushers := Answer(s.flushers, item), ctl := AnswerShutdown(s.ctl, item))
    case Exit => s.(ctl := s.ctl.(exportDone := true))
  }

  predicate Enabled(c: Config, s: State, step: Step) {
    match step
    case Emit(t, e) => EmitEnabled(s, t, e)
    case Poll(e) => PollEnabled(c, s, e)
    case Flush(t, e) => FlushEnabled(c, s, t, e)
    case Shut(e) => ShutEnabled(c, s, e)
    case Export(e) => ExportEnabled(s, e)
  }

  function After(c: Config, s: State, step: Step): State
    requires Enabled(c, s, step)
  {
    match step
    case Emit(t, e) => EmitApply(c, s, t, e)
    case Poll(e) => PollApply(c, s, e)
    case Flush(t, e) => FlushApply(c, s, t, e)
    case Shut(e) => ShutApply(s, e)
    case Export(e) => ExportApply(c, s, e)
  }

  /** `trace` is a run: it starts in the initial state and every state follows from the one before by a step. */
  ghost predicate IsRun(c: Config, trace: seq<State>) {
    && trace != []
    && trace[0] == Init(c)
    && forall i :: 0 < i < |trace| ==> StepAt(c, trace, i)
  }

  ghost predicate StepAt(c: Config, trace: seq<State>, i: nat)
    requires 0 < i < |trace|
  {
    Follows(c, trace[i - 1], trace[i])
  }

  ghost predicate Follows(c: Config, s: State, s': State) {
    exists step :: Enabled(c, s, step) && s' == After(c, s, step)
  }
}

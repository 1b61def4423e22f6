/**
 What the record-moving operations of the log pipeline keep: no record is lost or duplicated, and (until a batch
 overtakes the records Shutdown holds) the records stay in emission order on their way to the exporter.
 */
module LogPipelineRecords {
  import opened Prelude
  import opened LogPipeline

  // ----- conservation -----

  /** How often `r` occurs in `s`. */
  ghost function Num(s: seq<RecordId>, r: RecordId): nat {
    multiset(s)[r]
  }

  lemma NumConcat(s: seq<RecordId>, t: seq<RecordId>, r: RecordId)
    ensures Num(s + t, r) == Num(s, r) + Num(t, r)
  {
  }

  lemma NumSplit(s: seq<RecordId>, n: nat, r: RecordId)
    requires n <= |s|
    ensures Num(s, r) == Num(s[..n], r) + Num(s[n..], r)
  {
    assert s == s[..n] + s[n..];
  }

  /** How often record `r` occurs anywhere in the pipeline. */
  ghost function Copies(p: Pipe, r: RecordId): nat
    requires p.work.Valid()
  {
    Num(p.Exported(), r) + Num(p.work.Rest(), r) + Num(InputRecords(p.input), r) + Num(p.HeldRecords(), r)
    + Num(p.queue, r) + Num(p.overwritten, r) + Num(p.discarded, r)
  }

  /** Each record enqueued so far is in exactly one place, and nothing else is anywhere. */
  ghost predicate Conserved(p: Pipe) {
    && p.work.Valid()
    && forall r: RecordId :: Copies(p, r) == if r < p.enqueued then 1 else 0
  }

  lemma {:induction false} InputAppend(input: seq<Item>, x: Item)
    ensures InputRecords(input + [x]) == InputRecords(input) + x.Records()
  {
    if input == [] {
      assert input + [x] == [x];
      assert InputRecords([x]) == x.Records() + InputRecords([]);
    } else {
      assert (input + [x])[0] == input[0] && (input + [x])[1..] == input[1..] + [x];
      InputAppend(input[1..], x);
      assert input[0].Records() + (InputRecords(input[1..]) + x.Records())
          == (input[0].Records() + InputRecords(input[1..])) + x.Records();
    }
  }

  lemma CallAppend(calls: seq<seq<RecordId>>, chunk: seq<RecordId>)
    ensures Flatten(calls + [chunk]) == Flatten(calls) + chunk
  {
    FlattenAppend(calls, [chunk]);
    assert Flatten([chunk]) == chunk + Flatten([]);
    assert chunk + [] == chunk;
  }

  lemma PutCopies(c: Config, p: Pipe, r: RecordId)
    requires c.Valid() && p.work.Valid() && |p.queue| <= c.queueCap
    ensures Copies(PutRecord(c, p), r) == Copies(p, r) + if r == p.enqueued then 1 else 0
  {
    var id := p.enqueued;
    var p' := PutRecord(c, p);
    NumConcat(p.queue, [id], r);
    if |p.queue| == c.queueCap {
      NumSplit(p.queue + [id], 1, r);
      assert (p.queue + [id])[..1] == [p.queue[0]];
      NumConcat(p.overwritten, [p.queue[0]], r);
    }
  }

  lemma TakeCopies(p: Pipe, buf: BufferId, room: nat, verdict: Verdict, r: RecordId)
    requires p.work.Valid()
    ensures Copies(TakeBatch(p, buf, room, verdict), r) == Copies(p, r)
  {
    var n := Min(room, |p.queue|);
    match verdict
    case Sent =>
      var item := Batch(buf, p.queue[..n], false);
      NumSplit(p.queue, n, r);
      InputAppend(p.input, item);
      NumConcat(InputRecords(p.input), item.Records(), r);
    case Swallowed =>
      NumSplit(p.queue, n, r);
      NumConcat(p.discarded, p.queue[..n], r);
    case Refused =>
  }

  lemma SendHeldCopies(p: Pipe, r: RecordId)
    requires p.work.Valid()
    ensures Copies(SendHeld(p), r) == Copies(p, r)
  {
    if p.held.Some? {
      InputAppend(p.input, p.held.value);
      NumConcat(InputRecords(p.input), p.HeldRecords(), r);
    }
  }

  lemma DropHeldCopies(p: Pipe, r: RecordId)
    requires p.work.Valid()
    ensures Copies(DropHeld(p), r) == Copies(p, r)
  {
    NumConcat(p.discarded, p.HeldRecords(), r);
  }

  lemma FlushAllCopies(p: Pipe, buf: BufferId, r: RecordId)
    requires p.work.Valid() && p.held == None
    ensures Copies(FlushAll(p, buf), r) == Copies(p, r)
  {
  }

  lemma MarkerCopies(p: Pipe, call: CallerId, r: RecordId)
    requires p.work.Valid()
    ensures Copies(SendMarker(p, call), r) == Copies(p, r)
  {
    InputAppend(p.input, Marker(call));
    NumConcat(InputRecords(p.input), [], r);
  }

  lemma ReceiveCopies(p: Pipe, r: RecordId)
    requires p.input != [] && p.work == NoWork
    ensures Copies(Receive(p), r) == Copies(p, r)
  {
    NumConcat(p.input[0].Records(), InputRecords(p.input[1..]), r);
    assert p.input[0].Records()[0..] == p.input[0].Records();
  }

  /** The remainder of the work after a chunk. */
  lemma RestAfterChunk(p: Pipe, chunk: seq<RecordId>, ok: bool)
    requires p.work.Work? && p.work.Valid() && chunk <= p.work.Rest()
    ensures ExportChunk(p, chunk, ok).work.Valid()
    ensures ExportChunk(p, chunk, ok).work.Rest() == if ok then p.work.Rest()[|chunk|..] else []
  {
  }

  lemma ChunkCopies(p: Pipe, chunk: seq<RecordId>, ok: bool, r: RecordId)
    requires p.work.Work? && p.work.Valid() && chunk <= p.work.Rest()
    ensures ExportChunk(p, chunk, ok).work.Valid()
    ensures Copies(ExportChunk(p, chunk, ok), r) == Copies(p, r)
  {
    ChunkNums(p, chunk, ok, r);
  }

  /** A chunk moves to the exporter; after a failure what is left of the batch is discarded. */
  lemma ChunkNums(p: Pipe, chunk: seq<RecordId>, ok: bool, r: RecordId)
    requires p.work.Work? && p.work.Valid() && chunk <= p.work.Rest()
    ensures var p' := ExportChunk(p, chunk, ok);
      && p'.work.Valid()
      && Num(p'.Exported(), r) == Num(p.Exported(), r) + Num(chunk, r)
      && Num(p'.work.Rest(), r) + Num(p'.discarded, r) == Num(p.work.Rest(), r) - Num(chunk, r) + Num(p.discarded, r)
  {
    var rest := p.work.Rest();
    RestAfterChunk(p, chunk, ok);
    CallAppend(p.calls, chunk);
    NumConcat(p.Exported(), chunk, r);
    assert rest[..|chunk|] == chunk;
    NumSplit(rest, |chunk|, r);
    if !ok {
      NumConcat(p.discarded, rest[|chunk|..], r);
    }
  }

  // ----- order -----

  /** `s` is strictly increasing and lies in lo .. hi-1. */
  ghost predicate Within(s: seq<RecordId>, lo: nat, hi: nat) {
    && (forall i, j :: 0 <= i < j < |s| ==> s[i] < s[j])
    && (forall i :: 0 <= i < |s| ==> lo <= s[i] < hi)
  }

  lemma WithinConcat(s: seq<RecordId>, t: seq<RecordId>, lo: nat, mid: nat, hi: nat)
    requires lo <= mid <= hi && Within(s, lo, mid) && Within(t, mid, hi)
    ensures Within(s + t, lo, hi)
  {
  }

  /** The first number that may follow the first `n` elements of `s`. */
  ghost function Cut(s: seq<RecordId>, n: nat, hi: nat): nat {
    if n < |s| then s[n] else hi
  }

  lemma WithinSplit(s: seq<RecordId>, n: nat, lo: nat, hi: nat)
    requires n <= |s| && lo <= hi && Within(s, lo, hi)
    ensures lo <= Cut(s, n, hi) <= hi
    ensures Within(s[..n], lo, Cut(s, n, hi)) && Within(s[n..], Cut(s, n, hi), hi)
  {
  }

  /**
   The exported records come before a, the ones in hand before b, the buffered ones before c, the ones Shutdown holds
   before d, then the queue.
   */
  ghost predicate OrderedAt(p: Pipe, a: nat, b: nat, c: nat, d: nat) {
    && p.work.Valid()
    && a <= b <= c <= d <= p.enqueued
    && Within(p.Exported(), 0, a)
    && Within(p.work.Rest(), a, b)
    && Within(InputRecords(p.input), b, c)
    && Within(p.HeldRecords(), c, d)
    && Within(p.queue, d, p.enqueued)
  }

  ghost predicate Ordered(p: Pipe) {
    exists a, b, c, d :: OrderedAt(p, a, b, c, d)
  }

  /** The records on their way through the pipeline, the ones that are furthest first. */
  function Line(p: Pipe): seq<RecordId>
    requires p.work.Valid()
  {
    p.Exported() + p.work.Rest() + InputRecords(p.input) + p.HeldRecords() + p.queue
  }

  lemma OrderedLine(p: Pipe)
    requires Ordered(p)
    ensures Within(Line(p), 0, p.enqueued)
  {
    var a, b, c, d :| OrderedAt(p, a, b, c, d);
    var s := p.Exported() + p.work.Rest();
    var t := s + InputRecords(p.input);
    WithinConcat(p.Exported(), p.work.Rest(), 0, a, b);
    WithinConcat(s, InputRecords(p.input), 0, b, c);
    WithinConcat(t, p.HeldRecords(), 0, c, d);
    WithinConcat(t + p.HeldRecords(), p.queue, 0, d, p.enqueued);
  }

  lemma PutKeepsOrder(cfg: Config, p: Pipe)
    requires cfg.Valid() && Ordered(p) && |p.queue| <= cfg.queueCap
    ensures Ordered(PutRecord(cfg, p))
  {
    var a, b, c, d :| OrderedAt(p, a, b, c, d);
    var id := p.enqueued;
    WithinConcat(p.queue, [id], d, id, id + 1);
    if |p.queue| == cfg.queueCap {
      WithinSplit(p.queue + [id], 1, d, id + 1);
    }
    assert OrderedAt(PutRecord(cfg, p), a, b, c, d);
  }

  lemma TakeKeepsOrder(p: Pipe, buf: BufferId, room: nat, verdict: Verdict)
    requires Ordered(p) && (verdict == Sent ==> p.held == None)
    ensures Ordered(TakeBatch(p, buf, room, verdict))
  {
    var a, b, c, d :| OrderedAt(p, a, b, c, d);
    var p' := TakeBatch(p, buf, room, verdict);
    var n := Min(room, |p.queue|);
    var e := Cut(p.queue, n, p.enqueued);
    WithinSplit(p.queue, n, d, p.enqueued);
    if verdict == Sent {
      InputAppend(p.input, Batch(buf, p.queue[..n], false));
      WithinConcat(InputRecords(p.input), p.queue[..n], b, d, e);
      assert OrderedAt(p', a, b, e, e);
    } else {
      assert OrderedAt(p', a, b, c, d);
    }
  }

  lemma FlushAllKeepsOrder(p: Pipe, buf: BufferId)
    requires Ordered(p) && p.held == None
    ensures Ordered(FlushAll(p, buf))
  {
    var a, b, c, d :| OrderedAt(p, a, b, c, d);
    assert OrderedAt(FlushAll(p, buf), a, b, c, p.enqueued);
  }

  lemma HeldKeepsOrder(p: Pipe)
    requires Ordered(p)
    ensures Ordered(SendHeld(p)) && Ordered(DropHeld(p))
  {
    SendHeldKeepsOrder(p);
    DropHeldKeepsOrder(p);
  }

  lemma DropHeldKeepsOrder(p: Pipe)
    requires Ordered(p)
    ensures Ordered(DropHeld(p))
  {
    var a, b, c, d :| OrderedAt(p, a, b, c, d);
    assert OrderedAt(DropHeld(p), a, b, c, d);
  }

  lemma SendHeldKeepsOrder(p: Pipe)
    requires Ordered(p)
    ensures Ordered(SendHeld(p))
  {
    var a, b, c, d :| OrderedAt(p, a, b, c, d);
    if p.held.Some? {
      InputAppend(p.input, p.held.value);
      WithinConcat(InputRecords(p.input), p.HeldRecords(), b, c, d);
      assert OrderedAt(SendHeld(p), a, b, d, d);
    }
  }

  lemma MarkerKeepsOrder(p: Pipe, call: CallerId)
    requires Ordered(p)
    ensures Ordered(SendMarker(p, call))
  {
    var a, b, c, d :| OrderedAt(p, a, b, c, d);
    InputAppend(p.input, Marker(call));
    assert InputRecords(p.input) + [] == InputRecords(p.input);
    assert OrderedAt(SendMarker(p, call), a, b, c, d);
  }

  lemma FirstRequest(input: seq<Item>)
    requires input != []
    ensures var first := input[0].Records();
      |first| <= |InputRecords(input)|
      && InputRecords(input)[..|first|] == first && InputRecords(input)[|first|..] == InputRecords(input[1..])
  {
  }

  lemma ReceiveKeepsOrder(p: Pipe)
    requires Ordered(p) && p.input != [] && p.work == NoWork
    ensures Ordered(Receive(p))
  {
    var a, b, c, d :| OrderedAt(p, a, b, c, d);
    var e := ReceiveOrderedAt(p, a, b, c, d);
  }

  lemma ReceiveOrderedAt(p: Pipe, a: nat, b: nat, c: nat, d: nat) returns (e: nat)
    requires OrderedAt(p, a, b, c, d) && p.input != [] && p.work == NoWork
    ensures OrderedAt(Receive(p), a, e, c, d)
  {
    var all, n := InputRecords(p.input), |p.input[0].Records()|;
    FirstRequest(p.input);
    WithinSplit(all, n, b, c);
    e := Cut(all, n, c);
    assert Receive(p).work.Rest() == p.input[0].Records();
  }

  lemma ChunkKeepsOrder(p: Pipe, chunk: seq<RecordId>, ok: bool)
    requires Ordered(p) && p.work.Work? && chunk <= p.work.Rest()
    ensures Ordered(ExportChunk(p, chunk, ok))
  {
    var a, b, c, d :| OrderedAt(p, a, b, c, d);
    var rest := p.work.Rest();
    var p' := ExportChunk(p, chunk, ok);
    RestAfterChunk(p, chunk, ok);
    CallAppend(p.calls, chunk);
    WithinSplit(rest, |chunk|, a, b);
    assert rest[..|chunk|] == chunk;
    WithinConcat(p.Exported(), chunk, 0, a, Cut(rest, |chunk|, b));
    assert OrderedAt(p', Cut(rest, |chunk|, b), b, c, d);
  }

  // ----- what is behind the empty request of a ForceFlush call -----

  ghost predicate Apart(s: seq<RecordId>, due: set<RecordId>) {
    forall r :: r in s ==> r !in due
  }

  /** The records in the channel behind the request of `call`; none when it is not there. */
  function Behind(input: seq<Item>, call: CallerId): seq<RecordId> {
    if input == [] then []
    else if input[0] == Marker(call) then InputRecords(input[1..])
    else Behind(input[1..], call)
  }

  lemma {:induction false} BehindAppend(input: seq<Item>, x: Item, call: CallerId)
    ensures Behind(input + [x], call) == Behind(input, call) + if Marker(call) in input then x.Records() else []
  {
    if input == [] {
      assert input + [x] == [x];
    } else {
      assert (input + [x])[0] == input[0] && (input + [x])[1..] == input[1..] + [x];
      if input[0] == Marker(call) {
        InputAppend(input[1..], x);
      } else {
        BehindAppend(input[1..], x, call);
      }
    }
  }

  lemma {:induction false} BehindAbsent(input: seq<Item>, call: CallerId)
    requires Marker(call) !in input
    ensures Behind(input, call) == []
  {
    if input != [] {
      assert input[0] in input;
      BehindAbsent(input[1..], call);
    }
  }

  lemma {:induction false} BehindPart(input: seq<Item>, call: CallerId, r: RecordId)
    requires r in Behind(input, call)
    ensures r in InputRecords(input)
  {
    if input[0] != Marker(call) {
      BehindPart(input[1..], call, r);
    }
  }

  /** Step from p to p' only takes records out of the queue, towards the channel, or adds new ones. */
  ghost predicate QueueMoves(p: Pipe, p': Pipe) {
    && p'.work == p.work && p'.held == p.held && p'.failed == p.failed
    && p.enqueued <= p'.enqueued
    && (forall r :: r in p'.queue ==> r in p.queue || r >= p.enqueued)
    && (forall r :: r in p'.overwritten ==> r in p.overwritten || r in p.queue)
    && (forall r :: r in p'.discarded ==> r in p.discarded || r in p.queue)
    && (p'.input == p.input || exists x: Item :: x.Batch? && p'.input == p.input + [x] && FromQueue(p, x))
  }

  ghost predicate FromQueue(p: Pipe, x: Item) {
    forall r :: r in x.Records() ==> r in p.queue
  }

  lemma PutMoves(c: Config, p: Pipe)
    requires c.Valid() && |p.queue| <= c.queueCap
    ensures QueueMoves(p, PutRecord(c, p))
  {
    var all := p.queue + [p.enqueued];
    assert forall r :: r in PutRecord(c, p).queue ==> r in all;
  }

  lemma TakeMoves(p: Pipe, buf: BufferId, room: nat, verdict: Verdict)
    ensures QueueMoves(p, TakeBatch(p, buf, room, verdict))
  {
    var x := Batch(buf, p.queue[..Min(room, |p.queue|)], false);
    assert FromQueue(p, x);
    assert verdict == Sent ==> TakeBatch(p, buf, room, verdict).input == p.input + [x];
  }

  // ----- what a ForceFlush call may rely on -----

  /**
   Nothing the flush is answerable for is in the queue or held by Shutdown any more, none of it was overwritten, and
   only a failed chunk, or an exporter stopped from the beginning, discards any of it.
   */
  ghost predicate GoalHolds(p: Pipe, g: Goal) {
    && Apart(p.queue, g.due) && Apart(p.HeldRecords(), g.due) && Apart(p.overwritten, g.due)
    && (p.failed || g.stopped || Apart(p.discarded, g.due))
    && forall r :: r in g.due ==> r < p.enqueued
  }

  /** Nothing the flush is answerable for is in the pipeline any more. */
  ghost predicate Through(p: Pipe, due: set<RecordId>)
    requires p.work.Valid()
  {
    Apart(p.work.Rest(), due) && Apart(InputRecords(p.input), due)
  }

  /** While the call waits, everything it is answerable for is in front of its request. */
  ghost predicate InFront(p: Pipe, t: CallerId, due: set<RecordId>) {
    && Apart(Behind(p.input, t), due)
    && (p.work.Work? && p.work.item == Marker(t) ==> Apart(InputRecords(p.input), due))
  }

  ghost predicate CallHolds(p: Pipe, t: CallerId, pc: FlushPc) {
    pc.GoalOf().Some? ==>
      && p.work.Valid()
      && GoalHolds(p, pc.GoalOf().value)
      && (pc.Awaiting? ==> InFront(p, t, pc.GoalOf().value.due))
      && (pc.Answered? || pc.Called? ==> Through(p, pc.GoalOf().value.due))
  }

  lemma MovesKeepCall(p: Pipe, p': Pipe, t: CallerId, pc: FlushPc)
    requires QueueMoves(p, p') && CallHolds(p, t, pc)
    ensures CallHolds(p', t, pc)
  {
    if pc.GoalOf().Some? && p'.input != p.input {
      var x: Item :| x.Batch? && p'.input == p.input + [x] && FromQueue(p, x);
      InputAppend(p.input, x);
      BehindAppend(p.input, x, t);
    }
  }

  lemma FlushAllKeepsCall(p: Pipe, buf: BufferId, t: CallerId, pc: FlushPc)
    requires p.held == None && CallHolds(p, t, pc)
    ensures CallHolds(FlushAll(p, buf), t, pc)
  {
  }

  lemma HeldKeepsCall(p: Pipe, t: CallerId, pc: FlushPc)
    requires CallHolds(p, t, pc)
    ensures CallHolds(SendHeld(p), t, pc) && CallHolds(DropHeld(p), t, pc)
  {
    if p.held.Some? {
      InputAppend(p.input, p.held.value);
      BehindAppend(p.input, p.held.value, t);
    }
  }

  lemma MarkerKeepsCall(p: Pipe, call: CallerId, t: CallerId, pc: FlushPc)
    requires CallHolds(p, t, pc)
    ensures CallHolds(SendMarker(p, call), t, pc)
  {
    InputAppend(p.input, Marker(call));
    BehindAppend(p.input, Marker(call), t);
  }

  lemma ReceiveKeepsCall(p: Pipe, t: CallerId, pc: FlushPc)
    requires p.input != [] && p.work == NoWork && CallHolds(p, t, pc)
    ensures CallHolds(Receive(p), t, pc)
  {
    var first := p.input[0].Records();
    assert Receive(p).work.Rest() == first;
    assert forall r :: r in first ==> r in InputRecords(p.input);
    assert forall r :: r in InputRecords(p.input[1..]) ==> r in InputRecords(p.input);
    forall r | r in Behind(p.input[1..], t)
      ensures p.input[0] == Marker(t) ==> r in Behind(p.input, t)
    {
      BehindPart(p.input[1..], t, r);
    }
  }

  lemma ChunkKeepsCall(p: Pipe, chunk: seq<RecordId>, ok: bool, t: CallerId, pc: FlushPc)
    requires p.work.Work? && p.work.Valid() && chunk <= p.work.Rest() && CallHolds(p, t, pc)
    ensures CallHolds(ExportChunk(p, chunk, ok), t, pc)
  {
    RestAfterChunk(p, chunk, ok);
    var rest := p.work.Rest();
    assert forall r :: r in rest[|chunk|..] ==> r in rest;
  }
}

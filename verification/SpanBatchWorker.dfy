/**
 The fields of batchSpanProcessor and the methods that update them, run without interference.  Each atomic section is
 proved to do to the fields what the step of the same name does to the machine's data; the drain loop is proved to
 hand over everything that is left, in order.
 */
module SpanBatchWorker {
  import opened Prelude
  import opened SpanBatch

  class Processor {
    const queueCap: nat
    const maxBatch: nat
    var queue: seq<Item>
    var batch: seq<Span>
    var calls: seq<seq<Span>>  // the arguments of the exporter's ExportSpans
    var dropped: nat

    constructor (queueCap: nat, maxBatch: nat)
      ensures Valid() && this.queueCap == queueCap && this.maxBatch == maxBatch
      ensures queue == [] && batch == [] && calls == [] && dropped == 0
    {
      this.queueCap, this.maxBatch := queueCap, maxBatch;
      queue, batch, calls, dropped := [], [], [], 0;
    }

    ghost predicate Valid()
      reads this
    {
      && (forall i :: 0 <= i < |calls| ==> calls[i] != [])
      && (maxBatch >= 1 ==> |batch| < maxBatch && forall i :: 0 <= i < |calls| ==> |calls[i]| <= maxBatch)
      && dropped < TWO_TO_32
    }

    /** Data of the machine that these fields stand for. */
    ghost predicate Shows(d: Data)
      reads this
    {
      d.queue == queue && d.hand == [] && d.batch == batch && d.calls == calls && d.dropped == dropped
    }

    /** enqueueDrop: the result tells whether the span was queued. */
    method EnqueueDrop(span: Span, sampled: bool) returns (ok: bool)
      modifies this`queue, this`dropped
      ensures ok == (sampled && |old(queue)| < queueCap)
      ensures queue == if ok then old(queue) + [Ended(span)] else old(queue)
      ensures dropped == if sampled && !ok then (old(dropped) + 1) % TWO_TO_32 else old(dropped)
      ensures sampled ==> forall c: Config, d ::
                c.queueCap == queueCap && old(Shows(d)) ==> Shows(Offer(c, d, span))
    {
      if !sampled {
        return false;
      }
      if |queue| < queueCap {
        queue := queue + [Ended(span)];
        return true;
      }
      dropped := (dropped + 1) % TWO_TO_32;
      return false;
    }

    /** exportSpans; the batch is reused even when the export fails. */
    method ExportSpans(fails: bool) returns (err: bool)
      modifies this`batch, this`calls
      ensures calls == if old(batch) != [] then old(calls) + [old(batch)] else old(calls)
      ensures batch == [] && err == (fails && old(batch) != [])
      ensures forall d :: old(Shows(d)) ==> Shows(SpanBatch.ExportSpans(d))
    {
      err := false;
      if |batch| > 0 {
        calls := calls + [batch];
        batch := [];
        err := fails;
      }
    }

    /** One round of the loop of drainQueue. */
    method DrainOne(fails: nat -> bool)
      requires Valid() && queue != []
      modifies this`queue, this`batch, this`calls
      ensures Valid() && queue == old(queue)[1..] && old(calls) <= calls
      ensures Flatten(calls) + (batch + Spans(queue)) == old(Flatten(calls) + (batch + Spans(queue)))
    {
      var item := queue[0];
      if item.Ended? {
        Moved(batch, queue);
      }
      queue := queue[1..];
      if item.Ended? {
        batch := batch + [item.span];
        var shouldExport := |batch| == maxBatch;
        if shouldExport {
          Handed(calls, batch, Spans(queue));
          var err := ExportSpans(fails(|calls|));
        }
      }
    }

    /** drainQueue: takes what is queued, ignoring markers, and exports it in batches, the last one when it is empty. */
    method DrainQueue(fails: nat -> bool)
      requires Valid()
      modifies this`queue, this`batch, this`calls
      ensures Valid() && queue == [] && batch == []
      ensures Flatten(calls) == Flatten(old(calls)) + (old(batch) + Spans(old(queue)))
      ensures old(calls) <= calls
    {
      ghost var all := Flatten(calls) + (batch + Spans(queue));
      while queue != []
        invariant Valid() && old(calls) <= calls
        invariant Flatten(calls) + (batch + Spans(queue)) == all
        decreases |queue|
      {
        DrainOne(fails);
      }
      Handed(calls, batch, []);
      assert batch + Spans(queue) == batch;
      var err := ExportSpans(fails(|calls|));
    }
  }

  lemma Moved(batch: seq<Span>, queue: seq<Item>)
    requires queue != [] && queue[0].Ended?
    ensures batch + Spans(queue) == (batch + [queue[0].span]) + Spans(queue[1..])
  {
    assert Spans(queue) == [queue[0].span] + Spans(queue[1..]);
  }

  lemma Handed(calls: seq<seq<Span>>, batch: seq<Span>, rest: seq<Span>)
    ensures Flatten(calls + [batch]) + ([] + rest) == Flatten(calls) + (batch + rest)
    ensures Flatten(calls + [batch]) == Flatten(calls) + batch
  {
    FlattenAppend(calls, [batch]);
    assert Flatten([batch]) == batch + Flatten([]);
    assert [] + rest == rest;
    assert (Flatten(calls) + batch) + rest == Flatten(calls) + (batch + rest);
  }
}

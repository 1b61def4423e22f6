/** The parts of sdk/log/batch.go and sdk/log/exporter.go that work on arrays: chunked export and one poll. */
module ChunkExport {
  import opened Prelude
  import opened RingQueue

  /** The wrapped exporter: it remembers its calls, and `fails(k)` says whether its k-th call returns an error. */
  class Exporter {
    var calls: seq<seq<Record>>
    const fails: nat -> bool

    constructor (fails: nat -> bool)
      ensures calls == [] && this.fails == fails
    {
      calls, this.fails := [], fails;
    }

    method Export(records: seq<Record>) returns (err: bool)
      modifies this`calls
      ensures calls == old(calls) + [records] && err == fails(|old(calls)|)
    {
      err := fails(|calls|);
      calls := calls + [records];
    }
  }

  /** All calls of the exporter after a chunked export of `records` that started with the calls `made`. */
  function Chunked(made: seq<seq<Record>>, records: seq<Record>, size: nat, fails: nat -> bool): seq<seq<Record>>
    requires size >= 1
    decreases |records|
  {
    if records == [] then made
    else
      var n := Min(size, |records|);
      var made' := made + [records[..n]];
      if fails(|made|) then made' else Chunked(made', records[n..], size, fails)
  }

  /** The calls are consecutive parts `parts` of the records, from the front, all of `size` but the last. */
  ghost predicate Parts(parts: seq<seq<Record>>, size: nat) {
    && (forall i :: 0 <= i < |parts| ==> 1 <= |parts[i]| <= size)
    && (forall i :: 0 <= i < |parts| - 1 ==> |parts[i]| == size)
  }

  /**
   The new calls hand over consecutive parts of the records, from the front; only the last one may be shorter than
   `size`.  No call follows a failed one, and without a failure the parts cover all records.
   */
  lemma {:induction false} ChunksCover(made: seq<seq<Record>>, records: seq<Record>, size: nat, fails: nat -> bool)
    requires size >= 1
    ensures var calls := Chunked(made, records, size, fails);
      && made <= calls
      && Parts(calls[|made|..], size)
      && Flatten(calls[|made|..]) <= records
      && (forall k :: |made| <= k < |calls| - 1 ==> !fails(k))
      && (records != [] ==> calls != made)
      && (calls == made || !fails(|calls| - 1) ==> Flatten(calls[|made|..]) == records)
    decreases |records|
  {
    if records != [] {
      var n := Min(size, |records|);
      var calls := Chunked(made, records, size, fails);
      var made' := made + [records[..n]];
      assert records == records[..n] + records[n..];
      if fails(|made|) {
        assert calls[|made|..] == [records[..n]];
        assert Flatten([records[..n]]) == records[..n] + Flatten([]);
      } else {
        ChunksCover(made', records[n..], size, fails);
        var rest := calls[|made'|..];
        assert calls[|made|..] == [records[..n]] + rest;
        PartsCons(records[..n], rest, size);
      }
    }
  }

  lemma PartsCons(part: seq<Record>, rest: seq<seq<Record>>, size: nat)
    requires 1 <= |part| <= size && Parts(rest, size) && (|part| == size || rest == [])
    ensures Parts([part] + rest, size)
    ensures Flatten([part] + rest) == part + Flatten(rest)
  {
    assert ([part] + rest)[1..] == rest;
  }

  lemma ChunkStep(made: seq<seq<Record>>, all: seq<Record>, i: nat, j: nat, size: nat, fails: nat -> bool)
    requires size >= 1 && i < |all| && j == Min(i + size, |all|)
    ensures var made' := made + [all[i..j]];
      Chunked(made, all[i..], size, fails) == if fails(|made|) then made' else Chunked(made', all[j..], size, fails)
  {
    assert all[i..][..j - i] == all[i..j] && all[i..][j - i..] == all[j..];
  }

  /** chunkExporter.Export; `size` is positive by construction. */
  method ExportChunked(exporter: Exporter, records: array<Record>, size: nat) returns (err: bool)
    requires size >= 1
    modifies exporter`calls
    ensures exporter.calls == Chunked(old(exporter.calls), records[..], size, exporter.fails)
    ensures err == (|exporter.calls| > |old(exporter.calls)| && exporter.fails(|exporter.calls| - 1))
  {
    var n := records.Length;
    ghost var all, made := records[..], exporter.calls;
    var i, j := 0, Min(size, n);
    assert all[0..] == all;
    while i < n
      invariant 0 <= i && j == Min(i + size, n)
      invariant Chunked(made, all, size, exporter.fails)
             == Chunked(exporter.calls, all[Min(i, n)..], size, exporter.fails)
      invariant |exporter.calls| >= |made|
      invariant exporter.calls == made || (|exporter.calls| > |made| && !exporter.fails(|exporter.calls| - 1))
      decreases n - i
    {
      ChunkStep(exporter.calls, all, i, j, size, exporter.fails);
      assert records[i..j] == all[i..j];
      err := exporter.Export(records[i..j]);
      if err {
        return true;
      }
      i, j := i + size, Min(j + size, n);
    }
    err := false;
  }
}

/** One round of the poll goroutine on the heap: the queue, the export channel and the array in between. */
module LogPoll {
  import opened Prelude
  import opened QueueSpec
  import opened RingQueue

  /** A slice in the export channel: the first `n` places of an array. */
  datatype Payload = Payload(buf: array<Record>, n: nat)

  class BufferExporter {
    var input: seq<Payload>
    const cap: nat
    var stopped: bool

    constructor (cap: nat)
      ensures input == [] && this.cap == cap && !stopped
    {
      input, this.cap, stopped := [], cap, false;
    }

    /** What EnqueueExport would answer now for a batch of `n` records. */
    predicate Accepts(n: nat)
      reads this
    {
      n == 0 || stopped || |input| < cap
    }

    method EnqueueExport(a: array<Record>, n: nat) returns (ok: bool)
      requires n <= a.Length
      modifies this`input
      ensures ok == old(Accepts(n))
      ensures input == if n > 0 && !stopped && |old(input)| < cap then old(input) + [Payload(a, n)] else old(input)
    {
      if n == 0 {
        return true;
      }
      if stopped {
        return true;
      }
      if |input| < cap {
        input := input + [Payload(a, n)];
        return true;
      }
      return false;
    }
  }

  /**
   TryDequeue with EnqueueExport as its `write` function.  An accepted batch leaves the queue in `buf`, and the caller
   goes on with a fresh copy of the array; `again` asks for another trigger.
   */
  method Poll(q: Queue, e: BufferExporter, buf: array<Record>, batchSize: nat)
    returns (buf': array<Record>, again: bool)
    requires q.Valid() && buf.Length == batchSize
    modifies q`read, q`start, q`len, buf, e`input
    ensures q.Valid()
    ensures var batch := Batch(old(q.Contents()), batchSize);
            var ok := old(e.Accepts(|batch|));
            && q.Contents() == Dequeued(old(q.Contents()), batchSize, ok)
            && (ok ==> fresh(buf') && buf'[..] == buf[..])
            && (!ok ==> buf' == buf && e.input == old(e.input))
            && (ok && batch != [] && !e.stopped ==> e.input == old(e.input) + [Payload(buf, |batch|)])
            && (ok && (batch == [] || e.stopped) ==> e.input == old(e.input))
            && buf[..|batch|] == batch
    ensures again == (|q.Contents()| >= batchSize)
  {
    var n := Min(batchSize, q.len);
    var accepts := e.Accepts(n);
    var left := q.TryDequeue(buf, _ => accepts);
    var ok := e.EnqueueExport(buf, n);
    buf' := buf;
    if ok {
      buf' := new Record[batchSize](i requires 0 <= i < batchSize reads buf => buf[i]);
    }
    again := left >= batchSize;
  }
}

/** How NewBatchProcessor resolves its sizes (newBatchConfig in sdk/log/batch.go, setting.go). */
module BatchConfig {
  import opened Prelude

  const DFLT_MAX_QUEUE_SIZE: int := 2048
  const DFLT_MAX_BATCH_SIZE: int := 512

  datatype Setting = Setting(value: int, isSet: bool)

  function ClearLessThanOne(s: Setting): Setting {
    if s.value < 1 then Setting(0, false) else s
  }

  /** `env` is the integer in the environment variable, if there is one. */
  function GetEnv(s: Setting, env: Option<int>): Setting {
    if s.isSet then s else if env.Some? then Setting(env.value, true) else s
  }

  function ClampMax(s: Setting, n: int): Setting {
    if s.value > n then s.(value := n) else s
  }

  function Fallback(s: Setting, v: int): Setting {
    if !s.isSet then Setting(v, true) else s
  }

  function SettingOf(o: Option<int>): Setting {
    if o.Some? then Setting(o.value, true) else Setting(0, false)
  }

  /** The queue size for an option and an environment variable. */
  function QueueSize(opt: Option<int>, env: Option<int>): int {
    var s := ClearLessThanOne(SettingOf(opt));
    var s := ClearLessThanOne(GetEnv(s, env));
    Fallback(s, DFLT_MAX_QUEUE_SIZE).value
  }

  /** The export batch size; the clamp to the queue size comes before the fallback. */
  function BatchSize(opt: Option<int>, env: Option<int>, queueSize: int): int {
    var s := ClearLessThanOne(SettingOf(opt));
    var s := ClearLessThanOne(GetEnv(s, env));
    Fallback(ClampMax(s, queueSize), DFLT_MAX_BATCH_SIZE).value
  }

  /** Somebody asked for a batch size: by an option, or by an environment variable that no option overrides. */
  predicate Requested(opt: Option<int>, env: Option<int>) {
    (opt.Some? && opt.value >= 1) || (env.Some? && env.value >= 1)
  }

  /** Both sizes are positive, which the queue and the chunked exporter rely on. */
  lemma SizesArePositive(qOpt: Option<int>, qEnv: Option<int>, bOpt: Option<int>, bEnv: Option<int>)
    ensures QueueSize(qOpt, qEnv) >= 1
    ensures BatchSize(bOpt, bEnv, QueueSize(qOpt, qEnv)) >= 1
  {
  }

  /** A batch fits into the queue unless the batch size was left to its default and the queue is smaller than that. */
  lemma BatchFitsQueueIff(qOpt: Option<int>, qEnv: Option<int>, bOpt: Option<int>, bEnv: Option<int>)
    ensures var queueSize := QueueSize(qOpt, qEnv);
            BatchSize(bOpt, bEnv, queueSize) <= queueSize <==>
            Requested(bOpt, bEnv) || queueSize >= DFLT_MAX_BATCH_SIZE
  {
  }

  /** A processor that only sets a queue size of 10 gets batches of 512: a batch never fills up. */
  lemma DefaultBatchCanExceedQueue()
    ensures QueueSize(Some(10), None) == 10
    ensures BatchSize(None, None, QueueSize(Some(10), None)) == 512
  {
  }
}

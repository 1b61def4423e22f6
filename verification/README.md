# A verified model of OpenTelemetry Go's pipelines, attribute storage and wire formats

This Dafny 4.11 project models the parts of OpenTelemetry Go that carry telemetry from the application to an exporter or
to another process, and proves what they promise:

- **the log export pipeline** (`sdk/log/batch.go`, `ring.go`, `exporter.go`): the record queue on a circular list of heap
  nodes, and the batch processor as a machine whose atomic steps are what its locks and channels make atomic, run by any
  number of `OnEmit` and `ForceFlush` callers, the poll goroutine, `Shutdown` and the export goroutine;
- **the span batch processor** (`sdk/trace/batch_span_processor.go`): a second machine, with in-band flush markers and a
  worker that first processes and then drains;
- **attribute storage** (`attribute/set.go`, `iterator.go`, `sdk/resource/resource.go`, `sdk/log/record.go`,
  `sdk/trace/span.go`): in-place algorithms on arrays, refined to lists whose meaning is the last value given for a key;
- **wire formats and trace-wide consistency** (`baggage/baggage.go`, `trace/tracestate.go`,
  `propagation/trace_context.go`, `sdk/trace/tracer.go`, `sampling.go`, `attribute/encoder.go`).

The two machines are a `State` datatype, a `Step` datatype, `Enabled` and `After`; `IsRun(c, trace)` says that `trace` is
a run, and every promise is a lemma about every state of every run, that is, about every interleaving.  What the source
updates in place is a class or an array here, and its methods are proved against functions on values; lemmas about those
functions say what they mean.

| file | contents |
|---|---|
| `Prelude.dfy` | options, results, flattening |
| `RingQueue.dfy` | the circular list and the queue on it |
| `LogPipeline.dfy`, `LogPipelineRecords.dfy`, `LogPipelineSafety.dfy`, `LogPipelineRuns.dfy`, `LogPipelinePromises.dfy`, `LogPipelineDelivery.dfy` | the log pipeline: machine, where records are, invariants, induction over runs, promises, what is delivered |
| `LogBatch.dfy` | chunked export, one poll on the heap queue, the sizes in the configuration |
| `SpanBatch.dfy`, `SpanBatchWorker.dfy` | the span processor: machine, invariants, promises; its methods on its fields |
| `Attributes.dfy`, `AttributeSet.dfy`, `ResourceMerge.dfy`, `OrderedAttributes.dfy` | attributes and their meaning, sets, iterators and merging, lists in the order of first use |
| `LogRecord.dfy`, `SpanAttributes.dfy` | the attribute storage of log records and of spans |
| `Text.dfy`, `BaggageText.dfy`, `Baggage.dfy`, `BaggageGrammar.dfy` | byte strings and UTF-8, baggage texts, baggage, the grammar of headers and list-members |
| `TraceState.dfy`, `TraceContext.dfy`, `Sampling.dfy` | trace states, headers, samplers and traces |
| `AttributeEncoder.dfy` | the default encoding of sets, of code points and of bytes |

Where the code and its comments or documentation differ, the model follows the code:

- The batch size of logs is clamped to the queue size before it falls back to its default, so a default batch can be
  larger than the queue; `BatchConfig.BatchFitsQueueIff` says when, and `OversizedBatchesNeverTrigger` and `TriggersIff` what
  follows.
- The comment on `back` in `sdk/log/record.go:67-69` has its implication the wrong way round: a non-empty back implies a
  full front, and the converse fails for exactly the records of five attributes (`ConverseFailsIff`,
  `FullFrontEmptyBack`).
- A span `ForceFlush` whose context ends before its marker is sent can return nil without having flushed what is queued
  (`NilWithoutMarkerFlushesNothing`), and one that sees the processor stopped as well (`StoppedFlushesNothing`);
  `ForceFlushOutcomes` says exactly when what was accepted before has been exported.  While its context lives and the
  processor is not stopped, a call returns with its marker seen and everything exported (`UndisturbedFlush`).
- `WithMaxExportBatchSize(0)` is accepted, and then exports have spans nevertheless; the bound holds if and only if it is
  not 0 (`ExportsBoundedIff`).
- A log `ForceFlush` can return nil although the records it took from the queue were given up, because the exporter was
  stopped meanwhile (`NilSwallowsRecord`); otherwise nil means that all was flushed (`NilMeansFlushedOrStopped`).  Given
  up are exactly the records that were taken after the stop (`StoppedNilExports`).
- An `OnEnd` of a blocking span processor that saw it running can be blocked for ever, because its worker has drained the
  queue already and the queue has filled up again (`LateOnEndBlocks`); `BlockedForEverIff` gives the exact condition.
- `Shutdown` of the log processor takes the queue and exports it in two steps; a later batch that a `ForceFlush` gets
  accepted in between is exported first (`RacingShutdownBreaksOrder`), and nothing else breaks the order
  (`EmissionOrderIff`).
- A `Shutdown` of the log processor that gives up waiting for the poll goroutine does not flush the queue
  (`TimedOutShutdownLeavesRecords`).  After any `Shutdown` that saw the export goroutine end, a record that was in the
  pipeline when the exporter was stopped has been exported if and only if it was not in the queue then
  (`ShutdownDelivers`, for runs without a failed chunk), and one that was is never exported (`QueuedIsNeverExported`).
- Trace state keys with characters above ASCII are accepted if the lowest byte of each is a letter or a digit
  (`AcceptedNonAscii`, `NonAsciiKeyAccepted`).
- A version 0 traceparent header with a delimiter at its end is accepted (`TrailingDelimiterAccepted`), and an empty
  trace state does not replace a tracestate header the carrier already has (`StaleStateArrives`); the context arrives
  as it was in all other cases and only in those (`TraceContext.RoundTripIff`).
- An empty property among others is parsed but not printed: the header "k=1;;p" stands for a baggage that is printed as
  "k=1;p" (`EmptyPropertyHeader`), and within the limits such properties are all that a parsed baggage can lose
  (`ParsedSurvivesIff`).
- `New` does not enforce the limit on the size of a member that `Parse` does (`NewIsParsedBack`,
  `NewAcceptsWhatParseRejects`).
- The default encoding of attribute sets, which is said to be unique, is so for valid UTF-8 only: bytes that are no
  characters are written alike (`EncodedBytes.EncodingsEqualIff`, `InvalidBytesCollide`).
- Schema URLs do not merge associatively (`SchemaMergeAssociativeIff`).

## Model

| member | source | states |
|---|---|---|
| QueueSpec.ApplyConsistent | sdk/log/batch.go:263-350 | every queue operation keeps: the contents are the last records enqueued, enqueued = removed + overwritten + held, and the drop counter is exact modulo 2^64 |
| QueueSpec.RunKeepsLatest | sdk/log/batch.go:263-350 | the same over every run of queue operations |
| QueueSpec.RunFromEmpty | sdk/log/batch.go:271-350 | in particular over every run from a new queue |
| RingQueue.NextPrevInverse | sdk/log/ring.go:29-42 | on a ring, next and prev undo each other at every node |
| RingQueue.NewRing | sdk/log/ring.go:45-60 | n fresh nodes that form one cycle; nil for n <= 0 |
| RingQueue.Len | sdk/log/ring.go:62-71 | the walk ends and counts exactly the nodes of the cycle; a node not linked yet becomes a ring of one |
| RingQueue.Ring.Next | sdk/log/ring.go:22-34 | a linked node is left as it is, an unlinked one is made a ring of one |
| RingQueue.Ring.Prev | sdk/log/ring.go:22-42 | likewise for the other direction |
| RingQueue.Queue.constructor | sdk/log/batch.go:271-279 | an empty queue on a fresh ring of the given size |
| RingQueue.Queue.Dropped | sdk/log/batch.go:282-285 | returns the count of overwritten records and resets it, nothing else |
| RingQueue.Queue.Enqueue | sdk/log/batch.go:291-309 | the contents become the last `cap` of the old ones and the new record; the count goes up exactly on overflow |
| RingQueue.Queue.TryDequeue | sdk/log/batch.go:316-334 | the oldest records are copied in order to the front of the buffer; they leave the queue if and only if the callback accepts them, otherwise nothing changes |
| RingQueue.Queue.Flush | sdk/log/batch.go:338-350 | all records, oldest first, in a fresh array; the queue is empty then |
| LogPipelineRuns.StepInv | sdk/log/batch.go:136-257 | every step of every thread keeps the whole invariant: conservation, order, memory, locks, wake-ups, flush goals |
| LogPipelineRuns.RunInv | sdk/log/batch.go:136-257 | the invariant holds in every state of every run |
| LogPipelinePromises.NothingLostNothingTwice | sdk/log/batch.go:136-257 | every record enqueued is in exactly one place (queued, held by Shutdown, in the channel, in hand, exported, overwritten, discarded); none is exported twice |
| LogPipelinePromises.ChunksAreBounded | sdk/log/exporter.go:91-99 | every call of the wrapped exporter gets 1 to batch-size records |
| LogPipelinePromises.AcceptedArraysAreFrozen | sdk/log/exporter.go:231-250 | an array whose batch was accepted is never written again, in any continuation of the run |
| LogPipelinePromises.BufferedBatchesAreIntact | sdk/log/batch.go:157-166 | every batch in the channel still equals the front of its array |
| LogPipelinePromises.EmissionOrder | sdk/log/exporter.go:130-148 | exported, in-hand, buffered, held and queued records, flattened, are strictly increasing in emission order, through Shutdown as well, until a batch is accepted while Shutdown holds what it flushed |
| LogPipelinePromises.AcceptedBehindHeld | sdk/log/batch.go:219-221 | accepting a non-empty batch while Shutdown holds records does break that order |
| LogPipelinePromises.EmissionOrderIff | sdk/log/batch.go:205-257 | all states of a run so far are in order if and only if no batch was accepted while Shutdown held its flush |
| LogPipelinePromises.OrderWithoutForceFlush | sdk/log/batch.go:205-222 | a run without ForceFlush calls is in order to its end, its Shutdown included |
| LogPipelinePromises.NoLostWakeUp | sdk/log/batch.go:146-195 | while the poll goroutine lives, a full batch in the queue implies a pending trigger, an OnEmit about to send one, or a poll round under way, also after a refused batch |
| LogPipelinePromises.OversizedBatchesNeverTrigger | sdk/log/batch.go:187-195 | with a batch size above the queue size no trigger is ever sent in any run |
| LogPipelinePromises.TriggersIff | sdk/log/batch.go:187-195 | there are runs in which a trigger is sent if and only if the batch size does not exceed the queue size |
| LogPipelinePromises.GoalIsKept | sdk/log/batch.go:232-257 | a ForceFlush call keeps what it is answerable for until it returns |
| LogPipelinePromises.FlushGuarantee | sdk/log/batch.go:232-257 | when ForceFlush calls the wrapped ForceFlush, or has called it, whatever Shutdown did meanwhile, everything queued, buffered or in hand at its successful dequeue was passed to the wrapped Export, or given up after a failed chunk |
| LogPipelinePromises.RunServed | sdk/log/exporter.go:212-226 | while a ForceFlush call or Shutdown waits for its answer, its request is in the channel or in the export goroutine's hand |
| LogPipelinePromises.NobodyAwaitsAfterExit | sdk/log/exporter.go:130-139 | when the export goroutine has ended nobody waits for an answer of it |
| LogPipelinePromises.AwaitingCanBeAnswered | sdk/log/exporter.go:280-298 | from every reachable state in which a ForceFlush call waits, steps of the export goroutine alone lead to its answer |
| LogPipelinePromises.NilMeansFlushedOrStopped | sdk/log/exporter.go:280-298 | a nil result means that the call emptied the queue and then either called the wrapped ForceFlush, with that guarantee, or found the exporter stopped |
| LogPipelinePromises.NilSwallowsRecord | sdk/log/exporter.go:285-288 | a reachable state in which ForceFlush returned nil because the exporter was stopped and the record it took was given up without a failed export |
| LogPipelineDelivery.StoppedNilExports | sdk/log/exporter.go:231-250 | when ForceFlush returned nil because of the stop and a Shutdown has seen the export goroutine end without a failed chunk: of the records in the pipeline when the call emptied the queue, exactly those are not exported that it took from the queue after the stop |
| LogPipelinePromises.NoSendAfterClose | sdk/log/exporter.go:306-321 | after Shutdown closed the channel nothing is sent on it |
| LogPipelineDelivery.RunDelivers | sdk/log/exporter.go:231-321 | what was handed to the exporter is passed on in order and, until a chunk fails, never given up; once the exporter is stopped nothing more is handed to it |
| LogPipelineDelivery.ShutdownDelivers | sdk/log/batch.go:205-222 | when a Shutdown has seen the export goroutine end and no chunk failed, what was exported is exactly, and in order, what had been handed to the exporter when it was stopped; a record in the pipeline at that time was exported if and only if it was not in the queue |
| LogPipelineDelivery.QueuedIsNeverExported | sdk/log/exporter.go:231-250 | a record in the queue when the exporter is stopped is not exported in any continuation of the run |
| LogPipelineDelivery.ShutdownDrains | sdk/log/batch.go:205-222 | after a clean Shutdown that flushed the queue, every record enqueued before the flush is exported, was overwritten by then, or discarded, and only later ones can be left in the queue; without a failed chunk everything handed to the exporter by then was exported, and of the records not discarded by then only queued ones could be |
| LogPipelineDelivery.FlushedInSomeStep | sdk/log/batch.go:219-221 | whether there was such a flush can be told from the state |
| LogPipelinePromises.TimedOutShutdownLeavesRecords | sdk/log/batch.go:210-217 | a reachable state after a Shutdown that gave up waiting for the poll goroutine: returned, no call under way, a record queued before it still queued, so that ShutdownDelivers and QueuedIsNeverExported tell its fate |
| LogPipelinePromises.RacingShutdownBreaksOrder | sdk/log/batch.go:219-221 | a reachable state in which record 1 was exported before record 0: the order does fail after Shutdown's flush |
| ChunkExport.ChunksCover | sdk/log/exporter.go:91-99 | the chunks are consecutive parts from the front, all full but the last; nothing follows a failed one; without failure they are the whole batch |
| ChunkExport.ExportChunked | sdk/log/exporter.go:91-99 | the index loop makes exactly those calls and returns the last call's error |
| LogPoll.BufferExporter.EnqueueExport | sdk/log/exporter.go:231-250 | accepts empty batches and everything once stopped without sending; otherwise sends if and only if there is room |
| LogPoll.Poll | sdk/log/batch.go:157-173 | an accepted batch leaves the queue in the old array and the caller goes on with a fresh copy; a refused one changes neither queue nor channel; re-triggers exactly while a full batch is left |
| BatchConfig.SizesArePositive | sdk/log/batch.go:359-391 | whatever options and environment say, queue and batch size are at least 1 |
| BatchConfig.BatchFitsQueueIff | sdk/log/batch.go:383-389 | a batch fits the queue if and only if a batch size was requested or the queue holds the default batch |
| BatchConfig.DefaultBatchCanExceedQueue | sdk/log/batch.go:383-389 | a queue of 10 gets batches of 512 |
| SpanBatchSafety.StepInv | sdk/trace/batch_span_processor.go:263-396 | every step keeps order, counts, bounds and flush marks |
| SpanBatchSafety.RunInv | sdk/trace/batch_span_processor.go:263-396 | they hold in every state of every run |
| SpanBatchPromises.FirstInFirstOut | sdk/trace/batch_span_processor.go:263-396 | exported, batch, in-hand and queued spans are, in this order, exactly the accepted ones |
| SpanBatchPromises.ExportsAreBounded | sdk/trace/batch_span_processor.go:263-360 | every export has 1 to MaxExportBatchSize spans, also while draining, if that is not 0 |
| SpanBatchPromises.ExportsBoundedIff | sdk/trace/batch_span_processor.go:229-233 | that bound holds in all runs if and only if MaxExportBatchSize is not 0 |
| SpanBatchPromises.EveryAttemptIsCounted | sdk/trace/batch_span_processor.go:362-396 | sampled attempts = accepted + dropped, the counter being exact modulo 2^32; blocking drops none |
| SpanBatchPromises.AcceptedGrows | sdk/trace/batch_span_processor.go:371-396 | the accepted spans only ever get longer at the end |
| SpanBatchPromises.MarkIsKept | sdk/trace/batch_span_processor.go:178-217 | a ForceFlush call keeps its mark until it returns or gives up |
| SpanBatchPromises.FlushGuarantee | sdk/trace/batch_span_processor.go:178-217 | a ForceFlush that saw its marker and finished its export returns only after every span accepted before the marker was handed to ExportSpans |
| SpanBatchPromises.ShutdownDrains | sdk/trace/batch_span_processor.go:143-167 | a worker that has ended has found the queue empty in some step, and exactly the spans accepted before that have been handed to ExportSpans, for good; exactly the later ones are left in the queue |
| SpanBatchPromises.NoExportAfterShutdown | sdk/trace/batch_span_processor.go:143-217 | after the exporter was shut down no flush still under way exports again |
| SpanBatchPromises.ExportedIff | sdk/trace/batch_span_processor.go:263-396 | at any time all spans accepted up to an earlier state are exported if and only if no more are on their way than were accepted since |
| SpanBatchPromises.ForceFlushOutcomes | sdk/trace/batch_span_processor.go:178-217 | what each way to return says of the spans accepted before the call: with its marker seen, all exported; without one, exported if and only if hand and queue held no more than was accepted since; stopped, if and only if nothing more is left |
| SpanBatchPromises.UndisturbedFlush | sdk/trace/batch_span_processor.go:178-217 | a call whose context lives, while the processor is not stopped, returns the result of its own export with its marker seen and every span accepted before the call handed to ExportSpans |
| SpanBatchPromises.WaitingIsServed | sdk/trace/batch_span_processor.go:190-203 | a call that waits for its marker can return, because the marker was seen or the processor stopped, or its marker is queued for a worker that still processes the queue |
| SpanBatchPromises.NilWithoutMarkerFlushesNothing | sdk/trace/batch_span_processor.go:205-217 | a reachable state in which ForceFlush returned nil without a marker, the processor runs, and a span accepted before is still queued |
| SpanBatchPromises.StoppedFlushesNothing | sdk/trace/batch_span_processor.go:192-196 | a reachable state in which ForceFlush returned nil because of a stop and a span accepted before is still queued |
| SpanBatchPromises.BlockedForEverIff | sdk/trace/batch_span_processor.go:362-382 | an OnEnd under way never gets its span into the queue, in no continuation of the run, if and only if it blocks, the queue is full and the worker takes nothing any more |
| SpanBatchPromises.LateOnEndBlocks | sdk/trace/batch_span_processor.go:331-382 | a reachable state in which an OnEnd that saw the processor running is blocked for ever |
| SpanBatchWorker.Processor.EnqueueDrop | sdk/trace/batch_span_processor.go:384-396 | queues a sampled span if there is room, counts it otherwise; the fields change as the machine's data do |
| SpanBatchWorker.Processor.ExportSpans | sdk/trace/batch_span_processor.go:263-290 | hands over a non-empty batch once and truncates it even after an error; as the machine's step does |
| SpanBatchWorker.Processor.DrainQueue | sdk/trace/batch_span_processor.go:331-360 | everything in the batch and the queue is exported in order, in batches within the limit |
| Attributes.SortedIsCanonical | attribute/set.go:204-252 | a sorted list with unique keys is determined by the last value of every key |
| Attributes.KeptMeaning | attribute/set.go:289-330 | filtering a sorted list filters its meaning |
| AttributeSet.StableSortIsStable | attribute/set.go:210-214 | the sort the model uses returns the sorted permutation that keeps the order of equal keys |
| AttributeSet.DedupToBack | attribute/set.go:216-232 | the backward swapping loop leaves the last attribute of every key, in order, at the back and the overwritten ones before them |
| AttributeSet.FilteredToFront | attribute/set.go:275-287 | the rotate-and-partition keeps the order of what is kept and permutes what is rejected to the front |
| AttributeSet.NewSetWithFiltered | attribute/set.go:204-252 | the set is that of the input; the slice is only permuted, ends with the set, shows the excluded attributes, and keeps its meaning |
| AttributeSet.ElementsMeaning | attribute/set.go:204-252 | a set is sorted with unique keys and gives each key its last value in the input, unless the filter rejects that |
| AttributeSet.SetsAreCanonical | attribute/set.go:151-161 | inputs with the same last value for every key make equal sets |
| AttributeSet.EqualSetsSameMeaning | attribute/set.go:151-161 | and, without a filter, only those do |
| AttributeSet.NewSetTwice | attribute/set.go:204-252 | constructing a set again from the slice as the first call left it gives the same set, and only permutes the slice again |
| AttributeSet.Value | attribute/set.go:103-121 | binary search returns the value of the key if and only if the set has it |
| AttributeSet.ValueOfNewSet | attribute/set.go:103-121 | on a constructed set that is the last value in the input list, unless filtered out |
| AttributeSet.FilterSet | attribute/set.go:289-330 | reverse scan, overlapping shift and partition keep exactly what the order-preserving filter keeps; the rest is returned |
| AttributeSet.FilterFront | attribute/set.go:310-328 | the shift and partition of the part before the last rejected attribute |
| AttributeSet.FilterIsConstruction | attribute/set.go:289-330 | filtering a set equals constructing it with the filter |
| AttributeIterator.Iterator.ToSlice | attribute/iterator.go:72-83 | all attributes of the set, wherever the iterator was |
| AttributeIterator.OneIterator.Advance | attribute/iterator.go:95-107 | moves to the rest behind the current attribute; done exactly when nothing is left |
| AttributeIterator.MergeIterator.Next | attribute/iterator.go:110-138 | returns the merged list one by one, and false exactly at its end |
| AttributeIterator.MergedSorted | attribute/iterator.go:87-138 | merging sorted lists with unique keys gives strictly increasing keys |
| AttributeIterator.MergedMeaning | attribute/iterator.go:87-138 | on common keys the first list wins |
| ResourceMerge.NewWithAttributes | sdk/resource/resource.go:62-86 | the resource holds the valid attributes, last value per key |
| ResourceMerge.ConstructorsBuildValid | sdk/resource/resource.go:62-86 | constructed resources are sorted, unique and hold valid attributes only |
| ResourceMerge.Merge | sdk/resource/resource.go:174-209 | with a missing resource the other one; otherwise the merged attributes and the schema URL with its conflict |
| ResourceMerge.MergedValue | sdk/resource/resource.go:174-209 | every key has b's value if b has the key, else a's |
| ResourceMerge.MergeIsAppend | sdk/resource/resource.go:186-191 | merging equals constructing a set from a's attributes followed by b's |
| ResourceMerge.MergeIsAssociative | sdk/resource/resource.go:174-209 | merging the attributes of constructed resources is associative |
| ResourceMerge.SchemaMergeAssociativeIff | sdk/resource/resource.go:193-208 | schema URLs merge associatively if and only if one is empty or the outer two agree |
| OrderedAttributes.DedupedMeaning | sdk/log/record.go:312-328 | de-duplication keeps the order of first use and the value given last |
| OrderedAttributes.DedupInPlace | sdk/trace/span.go:590-606 | the loop over a list that shares its array with the result de-duplicates it and indexes every key |
| OrderedAttributes.CappedIsPrefix | sdk/trace/span.go:277-313 | a capped list is the front part of the uncapped one: kept keys get every update, refused keys stay out |
| OrderedAttributes.CappedKeys | sdk/log/record.go:229-242 | the kept keys are the ones first used earliest |
| LogRecordSpec.AddSplit | sdk/log/record.go:172-242 | adding xs ++ ys shows the same attributes and dropped count as adding xs, then ys, for every limit and record |
| LogRecordSpec.RecordHolds | sdk/log/record.go:172-242 | which keys a record keeps, with which values, and that length plus dropped is what was supplied |
| LogRecordSpec.RunIsOneAddition | sdk/log/record.go:172-301 | any run of additions and settings shows what one addition of everything since the last reset shows |
| LogRecordSpec.RunKeeps | sdk/log/record.go:172-301 | over every run: unique keys, at most limit attributes, length plus dropped = supplied since the last reset |
| LogRecord.Record.AddAttributes | sdk/log/record.go:172-242 | on front array, back list and signed index: the same as adding the attributes one after the other |
| LogRecord.Record.Merge | sdk/log/record.go:183-227 | updates of existing keys go to front or back, the rest is de-duplicated in the argument's array; every other attribute counts as dropped |
| LogRecord.Record.SetAttributes | sdk/log/record.go:280-301 | the same as adding to an empty record |
| LogRecord.Record.AttrIndex | sdk/log/record.go:248-259 | the signed index finds every key at its place in front or back |
| LogRecord.Record.AddAttrs | sdk/log/record.go:264-277 | appends in order to the walk, filling the front before the back |
| LogRecord.Record.WalkAttributes | sdk/log/record.go:157-168 | the callback is called with the attributes of front and then back, in order, up to and including the first it answers with false |
| LogRecord.Record.Clone | sdk/log/record.go:389-393 | an equal record that shares no array |
| LogRecord.CopyOneByOne | sdk/log/logger.go:80-83 | adding a record's attributes one at a time equals setting them all at once |
| LogRecord.ConverseFailsIff | sdk/log/record.go:66-70 | what the comment on the back states, that it is not empty when the front is full, fails exactly for records of five attributes |
| LogRecord.FullFrontEmptyBack | sdk/log/record.go:66-70 | setting five attributes gives such a record |
| SpanAttributesSpec.LazySetIsEager | sdk/trace/span.go:212-246 | storing unchecked, or de-duplicating near the cap, is observed as updating an ordered map; stored length stays within the limit |
| SpanAttributesSpec.RunIsEager | sdk/trace/span.go:569-606 | so does every run of sets, reads and the end; an ended span ignores sets |
| SpanAttributesSpec.DroppedIsLost | sdk/trace/span.go:259-313 | the dropped count is the number of attributes that are invalid or whose key is not kept |
| SpanAttributesSpec.RunShows | sdk/trace/span.go:212-313 | what a span shows after any run, in terms of the attributes set before its end only |
| SpanAttributes.RecordingSpan.SetAttributes | sdk/trace/span.go:212-246 | on a growing array: stores exactly what the lazy form says |
| SpanAttributes.RecordingSpan.AddOverCapAttrs | sdk/trace/span.go:277-313 | from the de-duplicated attributes on, the same as the ordered map |
| SpanAttributes.RecordingSpan.Attributes | sdk/trace/span.go:569-606 | returns the de-duplicated attributes and stores them |
| SpanAttributes.RecordingSpan.Snapshot | sdk/trace/span.go:741-745 | exporters get the de-duplicated attributes and the dropped count |
| Text.CutAt | trace/tracestate.go:140 | cutting finds the first separator |
| Text.SplitJoin | baggage/baggage.go:483 | splitting undoes joining when no part contains the separator |
| Utf8.AsciiRunes | trace/tracestate.go:63 | ranging over an ASCII string visits its bytes |
| BaggageText.ValidateIsAll | baggage/baggage.go:830-858 | validating characters is validating bytes: tokens and value characters are ASCII |
| BaggageText.ValueEscape | baggage/baggage.go:969-1008 | fills a buffer of exactly the counted size with the escaped value |
| BaggageText.UnescapeEscaped | baggage/baggage.go:347-350 | percent-decoding undoes escaping for every byte string |
| BaggageText.EscapedIsLegal | baggage/baggage.go:1012-1018 | escaped values contain legal value characters only |
| BaggageText.EncodeCharacter | baggage/baggage.go:374 | encoding a decoded character gives back its bytes |
| BaggageText.ReplaceInvalidUTF8Sequences | baggage/baggage.go:358-379 | replaces every byte that is no character, and nothing else |
| BaggageText.ReplacedIsValid | baggage/baggage.go:358-379 | the result is always valid UTF-8 |
| BaggageText.ReplacedIffValid | baggage/baggage.go:359-361 | a string is left as it is if and only if it is valid UTF-8 |
| BaggageProperty.ParsePropertyInternal | baggage/baggage.go:632-710 | the index loops parse a property text as the functional form does |
| BaggageProperty.ParsedPropertyIs | baggage/baggage.go:632-710 | a text is accepted as a property if and only if it has a layout the grammar allows, and then it means that |
| BaggageProperty.PropertyRoundTrip | baggage/baggage.go:166-176 | a printed property with a token key is parsed back, without delimiters in its text |
| Baggage.ParseMember | baggage/baggage.go:311-355 | the loop and the tests compute the functional form, with the errors in the source's order |
| BaggageGrammar.TrimSpaceOf | baggage/baggage.go:336-341 | trimming removes white space, ASCII or not, from both sides of visible text |
| BaggageGrammar.ParsedMemberIs | baggage/baggage.go:311-355 | a list-member is accepted if and only if it is laid out as the grammar allows: token key and decodable value among white space, well-formed or empty properties, 4096 bytes at most; and then it means that |
| Baggage.Parse | baggage/baggage.go:473-503 | the loop and the limits compute the functional form, whose meaning ParsedIs gives |
| BaggageGrammar.ParsedIs | baggage/baggage.go:473-503 | a header is accepted if and only if it is empty, or has at most 8192 bytes and consists of well-formed list-members with at most 180 different keys; the baggage holds for every key what the last member with it says, and nothing else |
| Baggage.ParsedIsProper | baggage/baggage.go:473-503 | whatever the header: token keys, valid UTF-8 values, at most 180 members |
| Baggage.MemberRoundTrip | baggage/baggage.go:411-422 | a printed member is parsed to its normal form unless it is over 4096 bytes |
| Baggage.String | baggage/baggage.go:613-629 | what is printed is the text for some order of the map, each key visited once |
| Baggage.PrintedIsParsed | baggage/baggage.go:473-503 | for every baggage and every map order: parsing what is printed gives the normal form, or the error for the first limit exceeded |
| Baggage.RoundTripIff | baggage/baggage.go:473-503 | within the limits a baggage survives the round trip if and only if its keys are tokens, its values valid UTF-8 and its property lists survive |
| Baggage.SurvivesIff | baggage/baggage.go:235-246 | which property lists survive: every key a token, every value valid UTF-8, none there that is not shown; or just the zero property |
| Baggage.ParsedSurvivesIff | baggage/baggage.go:117-120 | within the limits a parsed baggage survives the round trip if and only if none of its members has an empty property among others |
| Baggage.NormalSurvives | baggage/baggage.go:613-629 | one round trip is enough: its result survives the next |
| BaggageGrammar.EmptyPropertyHeader | baggage/baggage.go:117-120 | "k=1;;p" is accepted with an empty property before p; in whatever order the baggage is printed as "k=1;p", which is parsed to another baggage |
| Baggage.LengthOfAnyOrder | baggage/baggage.go:458-461 | the printed length does not depend on the map order |
| Baggage.New | baggage/baggage.go:434-466 | last of equal keys wins; accepts if and only if all members have data and the number and length limits hold, in whatever order the map is printed |
| Baggage.NewIsParsedBack | baggage/baggage.go:434-466 | what New accepts is parsed back in normal form unless a member is over the parser's own limit |
| Baggage.NewAcceptsWhatParseRejects | baggage/baggage.go:311-314 | New accepts a baggage of one member of 5002 bytes, and Parse rejects what it prints |
| TraceState.CheckKeyIsGrammar | trace/tracestate.go:121-127 | the keys of the W3C grammar are exactly the accepted ones that are ASCII |
| TraceState.AcceptedNonAscii | trace/tracestate.go:61-74 | every other accepted key has a character above ASCII whose lowest byte is a letter or digit |
| TraceState.NonAsciiKeyAccepted | trace/tracestate.go:63-66 | there is one: "a" followed by U+0161 |
| TraceState.ParseTraceState | trace/tracestate.go:180-214 | the loop with its set of found keys parses as the functional form does |
| TraceState.ParseIs | trace/tracestate.go:180-214 | a header is accepted as a list if and only if its non-empty parts are these members, with distinct keys, at most 32 |
| TraceState.String | trace/tracestate.go:224-249 | the members joined by commas, written into exactly the space reserved |
| TraceState.RoundTrip | trace/tracestate.go:180-249 | parsing what a valid trace state prints gives it back, also with accepted non-ASCII keys |
| TraceState.ParsedIsValid | trace/tracestate.go:180-214 | whatever is parsed is valid |
| TraceState.EncodingInjective | trace/tracestate.go:224-249 | valid trace states that print alike are equal |
| TraceStateUpdates.Insert | trace/tracestate.go:275-300 | the copies put the member first and keep the order of the others, 32 in all; an error returns the original |
| TraceStateUpdates.InsertLaws | trace/tracestate.go:275-300 | the result is valid; only a 33rd key loses a member, and that is the right-most |
| TraceStateUpdates.Delete | trace/tracestate.go:304-315 | removes the member with the key from a copy, keeping the order |
| TraceStateUpdates.DeleteLaws | trace/tracestate.go:304-315 | stays valid; the key has no value then, all others keep theirs |
| TraceStateUpdates.Get | trace/tracestate.go:253-261 | the value of the first member with the key, or the empty string |
| TraceStateUpdates.GotIs | trace/tracestate.go:253-261 | which is the value of every member of a list with distinct keys |
| TraceStateUpdates.RunIsValid | trace/tracestate.go:180-315 | every run of parse, insert and delete stays valid and survives printing and parsing |
| TraceContext.DecodeEncode | propagation/trace_context.go:62 | hexadecimal decoding undoes encoding |
| TraceContext.EncodeDecode | propagation/trace_context.go:140-151 | without upper-case digits encoding undoes decoding |
| TraceContext.ExtractPart | propagation/trace_context.go:140-151 | fills the buffer with the decoded part and returns the rest of the header |
| TraceContext.ReadParentIs | propagation/trace_context.go:80-111 | a traceparent header is read if and only if it has the stated form, as what it was formed from |
| TraceContext.TrailingDelimiterAccepted | propagation/trace_context.go:107-111 | every version 0 header with one delimiter at its end is accepted, too |
| TraceContext.Inject | propagation/trace_context.go:39-65 | writes both headers of a valid context, and neither of an invalid one |
| TraceContext.Extract | propagation/trace_context.go:80-127 | reads the context, with an unreadable tracestate as an empty one |
| TraceContext.RoundTrip | propagation/trace_context.go:39-127 | injecting into any carrier and extracting gives the context with the sampled bit only, and what happens to an empty trace state |
| TraceContext.StaleStateArrives | propagation/trace_context.go:45-47 | a context without trace state, injected into a carrier with any valid tracestate header, arrives with that header's trace state |
| TraceContext.RoundTripIff | propagation/trace_context.go:39-127 | exactly when it is the same context |
| TraceContext.ExtractedIsStable | propagation/trace_context.go:72-127 | what was extracted is valid and passes through further hops unchanged |
| Sampling.RatioIsMonotone | sdk/trace/sampling.go:71-110 | the decision depends on the trace ID only; what is sampled at a ratio is sampled at every higher one; nothing at zero |
| Sampling.FlagsFollow | sdk/trace/tracer.go:97-106 | the sampled bit is the sampler's decision, all other flags are the parent's |
| Sampling.DefaultFollowsParent | sdk/trace/sampling.go:171-184 | with the default options and any root sampler the decision and trace state are a valid parent's |
| Traces.TraceIsConsistent | sdk/trace/tracer.go:65-112 | any mix of local starts, with samplers that follow the parent, and hops keeps trace ID, sampled bit and trace state |
| Traces.DefaultTraceIsConsistent | sdk/trace/sampling.go:159-184 | in particular with parent-based samplers in their default configuration, whatever their root samplers |
| Traces.TraceFollowsRoot | sdk/trace/tracer.go:65-112 | a new root gets a generated trace ID, and its sampler, asked once, decides for every span ever reached from it |
| AttributeEncoder.CopyAndEscape | attribute/encoder.go:121-129 | appends the escaped string |
| AttributeEncoder.Encode | attribute/encoder.go:91-113 | writes the attributes the iterator still has, with a comma before all but the very first |
| AttributeEncoder.FieldEscaped | attribute/encoder.go:121-129 | reading up to the next unescaped delimiter undoes the escaping |
| AttributeEncoder.DecodeEncoded | attribute/encoder.go:91-129 | an explicit decoder undoes the encoding of string-valued sets |
| AttributeEncoder.EncodingIsInjective | attribute/encoder.go:91-129 | string-valued sets have equal encodings if and only if they are equal, strings being code points |
| AttributeEncoder.EncodingsEqualIff | attribute/encoder.go:91-129 | with other values whose texts need no escaping, encodings are equal if and only if the sets are after replacing every value by the string of its text |
| AttributeEncoder.NumberAndStringCollide | attribute/encoder.go:105-109 | so the number 1 and the string "1" encode alike |
| EncodedBytes.CopyAndEscape | attribute/encoder.go:121-129 | on bytes: the characters read are written, with escapes, what is no character as the replacement character |
| EncodedBytes.Encode | attribute/encoder.go:91-113 | the loop over the attributes writes their encoding on bytes |
| EncodedBytes.EncodingsEqualIff | attribute/encoder.go:91-129 | sets of byte strings have equal encodings if and only if the characters read from their keys and values are equal |
| EncodedBytes.ValidEncodingsEqualIff | attribute/encoder.go:119-120 | so with valid UTF-8 the encoding is unique |
| EncodedBytes.InvalidBytesCollide | attribute/encoder.go:121-129 | and the bytes 0xFE and 0xFF, under any key, are written alike |

## Left out

- Time: tickers, timeouts, deadlines and cancellation are choices of the environment in the two machines; the timeout of an export and context values are not modelled.
- Logging, error handlers and environment variables, except the two sizes the log processor reads from the environment.
- The call of `queue.Dropped` in a poll round is not a step of the log machine; class Queue covers it.
- The contents of log records: the pipeline names them by their place in the order of emission; cloning is in LogRecord.
- `OnEnd` with an unsampled span or without an exporter, and `OnStart`, which do nothing; blocking enqueues that give up because their context ends, since `OnEnd` passes one that does not.
- A span queue of size 0 (`WithMaxQueueSize(0)`), which makes the queue an unbuffered channel: the machine has buffered ones only, and drops every span when the size is 0.
- Fairness: the machines are proved safe, not that every thread makes progress.
- SpanBatchWorker.Processor.DrainQueue: runs without interference, because the steps of the machine cover what other threads do in between.
- Limits on the length of attribute values: both storages are modelled with that limit off. The overwrite paths store values without truncating them (sdk/trace/span.go:297-301, sdk/log/record.go:211-219), and truncation takes a genuine U+FFFD for invalid text.
- Log attribute values that are maps or slices, whose duplicates are counted when they are stored.
- SpanAttributes.RecordingSpan.Attributes: the source returns its slice without a copy, so a later update of a key shows in it; the model returns values.
- SpanAttributes.RecordingSpan.SetAttributes: the source releases the lock between its test for a recording span and the update; the model makes them one step.
- Reflection and `unsafe` storage behind sets (`computeDistinct`), and the difference between nil and empty sets, trace states and property lists; sets are compared by their attributes.
- Attribute keys are compared as sequences of code points, which for valid UTF-8 is the order of their bytes.
- The order of keys in an in-place sort: `SortInPlace` writes the stable arrangement directly instead of modelling the library's algorithm.
- ResourceMerge.MergeIsAssociative: attributes only, because schema URLs do not merge associatively.
- `Baggage.SetMember`, `DeleteMember`, `Member` and `Members`, and the constructors of members and properties: single map operations and tests.
- The carriers of headers are maps; keys that differ only in case, which HTTP carriers identify, are not.
- Floating point: `TraceIDRatioBased` is modelled over the reals, without rounding.
- Identifier generation is a parameter; that it returns no zero identifier is a condition of the lemmas on traces.
- Links, events, status and names of spans, `WithNewRoot` in the lemmas on traces, and span limits other than that on attributes.
- JSON, global delegation, metric pipelines, bridges, exporters, detectors and semantic conventions.

/** Samplers (sdk/trace/sampling.go) and the contexts of new spans (sdk/trace/tracer.go). */
module Sampling {
  import opened Text
  import opened SpanContexts
  import TS = TraceState

  datatype Decision = Drop | RecordOnly | RecordAndSample

  datatype SamplingResult = SamplingResult(decision: Decision, tracestate: TS.TraceState)

  /** Samplers; `Custom` is any other implementation, as a function of the parent and the trace ID. */
  datatype Sampler =
    | AlwaysOn
    | AlwaysOff
    | TraceIDRatio(upperBound: nat)
    | ParentBased(root: Sampler, config: SamplerConfig)
    | Custom(decide: (SpanContext, TraceID) -> SamplingResult)

  datatype SamplerConfig = SamplerConfig(remoteParentSampled: Sampler, remoteParentNotSampled: Sampler,
                                         localParentSampled: Sampler, localParentNotSampled: Sampler)

  const DEFAULT_CONFIG := SamplerConfig(AlwaysOn, AlwaysOff, AlwaysOn, AlwaysOff)

  // ----- options -----

  datatype ParentOption =
    | RemoteParentSampled(s: Sampler)
    | RemoteParentNotSampled(s: Sampler)
    | LocalParentSampled(s: Sampler)
    | LocalParentNotSampled(s: Sampler)

  function Apply(o: ParentOption, c: SamplerConfig): SamplerConfig {
    match o
    case RemoteParentSampled(s) => c.(remoteParentSampled := s)
    case RemoteParentNotSampled(s) => c.(remoteParentNotSampled := s)
    case LocalParentSampled(s) => c.(localParentSampled := s)
    case LocalParentNotSampled(s) => c.(localParentNotSampled := s)
  }

  /** configureSamplersForParentBased: the options are applied in order to the default. */
  function Configured(samplers: seq<ParentOption>): SamplerConfig {
    if samplers == [] then DEFAULT_CONFIG
    else Apply(samplers[|samplers| - 1], Configured(samplers[..|samplers| - 1]))
  }

  // ----- decisions -----

  /** The number written by some bytes, the most significant first. */
  function BigEndian(b: Bytes): nat {
    if b == [] then 0 else 256 * BigEndian(b[..|b| - 1]) + b[|b| - 1] as int
  }

  /** The 63 bits of a trace ID the ratio is compared with. */
  function RatioBits(id: TraceID): nat {
    BigEndian(id[8..16]) / 2
  }

  function ShouldSample(s: Sampler, parent: SpanContext, id: TraceID): SamplingResult {
    match s
    case AlwaysOn => SamplingResult(RecordAndSample, parent.traceState)
    case AlwaysOff => SamplingResult(Drop, parent.traceState)
    case TraceIDRatio(bound) =>
      SamplingResult(if RatioBits(id) < bound then RecordAndSample else Drop, parent.traceState)
    case ParentBased(root, config) =>
      if parent.IsValid() then
        if parent.remote then
          if parent.IsSampled() then ShouldSample(config.remoteParentSampled, parent, id)
          else ShouldSample(config.remoteParentNotSampled, parent, id)
        else if parent.IsSampled() then ShouldSample(config.localParentSampled, parent, id)
        else ShouldSample(config.localParentNotSampled, parent, id)
      else ShouldSample(root, parent, id)
    case Custom(decide) => decide(parent, id)
  }

  function TraceIDRatioBased(fraction: real): Sampler {
    if fraction >= 1.0 then AlwaysOn
    else if fraction <= 0.0 then TraceIDRatio(0)
    else
      Scaled(fraction);
      TraceIDRatio((fraction * 9223372036854775808.0).Floor)
  }

  lemma Scaled(fraction: real)
    requires fraction > 0.0
    ensures (fraction * 9223372036854775808.0).Floor >= 0
  {
  }

  predicate Samples(s: Sampler, parent: SpanContext, id: TraceID) {
    ShouldSample(s, parent, id).decision == RecordAndSample
  }

  lemma ScaledMonotone(f: real, g: real)
    requires 0.0 < f <= g
    ensures (f * 9223372036854775808.0).Floor <= (g * 9223372036854775808.0).Floor
  {
  }

  /**
   The decision of the ratio sampler depends on the trace ID only, and what is sampled at a ratio is sampled at every
   higher one.
   */
  lemma RatioIsMonotone(f: real, g: real, parent: SpanContext, other: SpanContext, id: TraceID)
    requires f <= g
    ensures Samples(TraceIDRatioBased(f), parent, id) <==> Samples(TraceIDRatioBased(f), other, id)
    ensures Samples(TraceIDRatioBased(f), parent, id) ==> Samples(TraceIDRatioBased(g), parent, id)
    ensures f <= 0.0 ==> !Samples(TraceIDRatioBased(f), parent, id)
  {
    if 0.0 < f && g < 1.0 {
      ScaledMonotone(f, g);
    }
  }

  // ----- new spans -----

  /** What the ID generator returns when it is asked. */
  datatype NewIDs = NewIDs(traceID: TraceID, spanID: SpanID)

  const NO_PARENT: SpanContext := SpanContext(EIGHT_NILS + EIGHT_NILS, EIGHT_NILS, 0, [], false)

  /** The context of a new span with the given parent context, unless it is told to be a new root. */
  function NewSpan(ctx: SpanContext, newRoot: bool, ids: NewIDs, s: Sampler): SpanContext {
    var psc := if newRoot then NO_PARENT else ctx;
    var tid := if IsValidID(psc.traceID) then psc.traceID else ids.traceID;
    var result := ShouldSample(s, psc, tid);
    SpanContext(tid, ids.spanID, WithSampled(psc.flags, result.decision == RecordAndSample), result.tracestate, false)
  }

  /** Only the sampled bit depends on the decision; the other flags are the parent's. */
  lemma FlagsFollow(ctx: SpanContext, newRoot: bool, ids: NewIDs, s: Sampler)
    ensures var sc := NewSpan(ctx, newRoot, ids, s);
      var psc := if newRoot then NO_PARENT else ctx;
      && (sc.IsSampled() <==> Samples(s, psc, sc.traceID))
      && sc.flags / 2 == psc.flags / 2
  {
    FlagBits(if newRoot then NO_PARENT.flags else ctx.flags);
  }

  lemma FlagBits(flags: TraceFlags)
    ensures forall sampled :: WithSampled(flags, sampled) / 2 == flags / 2
    ensures forall sampled :: WithSampled(flags, sampled) % 2 == if sampled then 1 else 0
  {
  }

  /** Samplers that decide as the parent did, whenever there is a valid one. */
  ghost predicate FollowsParent(s: Sampler) {
    forall parent: SpanContext, id: TraceID :: parent.IsValid() ==> FollowsAt(s, parent, id)
  }

  predicate FollowsAt(s: Sampler, parent: SpanContext, id: TraceID) {
    && (Samples(s, parent, id) <==> parent.IsSampled())
    && ShouldSample(s, parent, id).tracestate == parent.traceState
  }

  /** Parent-based samplers with the default configuration do, whatever their root sampler is. */
  lemma DefaultFollowsParent(root: Sampler)
    ensures FollowsParent(ParentBased(root, Configured([])))
  {
    forall parent: SpanContext, id: TraceID | parent.IsValid()
      ensures FollowsAt(ParentBased(root, Configured([])), parent, id)
    {
      assert Samples(AlwaysOn, parent, id) && !Samples(AlwaysOff, parent, id);
      assert Configured([]) == DEFAULT_CONFIG;
    }
  }
}

/**
 Traces: the spans that are reached from a root by starting children and by sending the context to other processes.
 */
module Traces {
  import opened SpanContexts
  import opened Sampling
  import TS = TraceState
  import TC = TraceContext

  /** A child is started by a tracer with some sampler, or the context travels in a fresh carrier. */
  datatype Step = StartStep(ids: NewIDs, sampler: Sampler) | HopStep

  /** The generator never returns zero identifiers. */
  ghost predicate Allowed(step: Step) {
    step.StartStep? ==> IsValidID(step.ids.spanID) && FollowsParent(step.sampler)
  }

  /** An invalid extracted context is not used. */
  function After(sc: SpanContext, step: Step): SpanContext {
    match step
    case StartStep(ids, sampler) => NewSpan(sc, false, ids, sampler)
    case HopStep =>
      var carrier := if sc.IsValid() then TC.Injected(sc, map[]) else map[];
      var r := TC.Extracted(carrier);
      if r.Some? then r.value else NO_PARENT
  }

  function Reached(root: SpanContext, steps: seq<Step>): SpanContext {
    if steps == [] then root else After(Reached(root, steps[..|steps| - 1]), steps[|steps| - 1])
  }

  /** What the spans of a trace have in common. */
  ghost predicate SameTrace(root: SpanContext, sc: SpanContext) {
    && sc.IsValid()
    && sc.traceID == root.traceID
    && (sc.IsSampled() <==> root.IsSampled())
    && sc.traceState == root.traceState
  }

  lemma StartKeepsTrace(root: SpanContext, sc: SpanContext, ids: NewIDs, sampler: Sampler)
    requires SameTrace(root, sc) && Allowed(StartStep(ids, sampler))
    ensures SameTrace(root, NewSpan(sc, false, ids, sampler))
  {
    assert FollowsAt(sampler, sc, sc.traceID);
    FlagsFollow(sc, false, ids, sampler);
  }

  lemma HopKeepsTrace(root: SpanContext, sc: SpanContext)
    requires TS.Valid(root.traceState) && SameTrace(root, sc)
    ensures SameTrace(root, After(sc, HopStep))
  {
    TC.FreshRoundTrip(sc);
    ArrivedKeepsTrace(root, sc);
    assert After(sc, HopStep) == TC.Arrived(sc);
  }

  lemma ArrivedKeepsTrace(root: SpanContext, sc: SpanContext)
    requires SameTrace(root, sc)
    ensures SameTrace(root, TC.Arrived(sc))
  {
  }

  /**
   Every span reached from a root by any mix of local starts, with samplers that follow the parent, and of hops between
   processes has the root's trace ID, sampled bit and trace state.
   */
  lemma {:induction false} TraceIsConsistent(root: SpanContext, steps: seq<Step>)
    requires root.IsValid() && TS.Valid(root.traceState)
    requires forall i :: 0 <= i < |steps| ==> Allowed(steps[i])
    ensures SameTrace(root, Reached(root, steps))
  {
    if steps != [] {
      TraceIsConsistent(root, steps[..|steps| - 1]);
      var sc := Reached(root, steps[..|steps| - 1]);
      match steps[|steps| - 1]
      case StartStep(ids, sampler) => StartKeepsTrace(root, sc, ids, sampler);
      case HopStep => HopKeepsTrace(root, sc);
    }
  }

  /** With parent-based samplers in their default configuration, whatever their root samplers are. */
  lemma DefaultTraceIsConsistent(root: SpanContext, steps: seq<Step>)
    requires root.IsValid() && TS.Valid(root.traceState)
    requires forall i :: 0 <= i < |steps| && steps[i].StartStep? ==>
               && IsValidID(steps[i].ids.spanID)
               && steps[i].sampler.ParentBased? && steps[i].sampler.config == DEFAULT_CONFIG
    ensures SameTrace(root, Reached(root, steps))
  {
    forall i | 0 <= i < |steps|
      ensures Allowed(steps[i])
    {
      if steps[i].StartStep? {
        DefaultFollowsParent(steps[i].sampler.root);
        assert steps[i].sampler == ParentBased(steps[i].sampler.root, Configured([]));
      }
    }
    TraceIsConsistent(root, steps);
  }

  /**
   A new root starts a trace whose ID is a generated one, and its sampler, asked once, decides for all spans ever
   reached from it.
   */
  lemma TraceFollowsRoot(ctx: SpanContext, ids: NewIDs, sampler: Sampler, steps: seq<Step>)
    requires IsValidID(ids.traceID) && IsValidID(ids.spanID)
    requires TS.Valid(ShouldSample(sampler, NO_PARENT, ids.traceID).tracestate)
    requires forall i :: 0 <= i < |steps| && steps[i].StartStep? ==>
               && IsValidID(steps[i].ids.spanID)
               && steps[i].sampler.ParentBased? && steps[i].sampler.config == DEFAULT_CONFIG
    ensures var sc := Reached(NewSpan(ctx, true, ids, ParentBased(sampler, DEFAULT_CONFIG)), steps);
      && sc.IsValid()
      && sc.traceID == ids.traceID
      && (sc.IsSampled() <==> Samples(sampler, NO_PARENT, ids.traceID))
      && sc.traceState == ShouldSample(sampler, NO_PARENT, ids.traceID).tracestate
  {
    var s := ParentBased(sampler, DEFAULT_CONFIG);
    var root := NewSpan(ctx, true, ids, s);
    assert !NO_PARENT.IsValid();
    assert ShouldSample(s, NO_PARENT, ids.traceID) == ShouldSample(sampler, NO_PARENT, ids.traceID);
    FlagsFollow(ctx, true, ids, s);
    DefaultTraceIsConsistent(root, steps);
  }
}

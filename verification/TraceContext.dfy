/** Span contexts and their propagation in headers (trace/trace.go, propagation/trace_context.go). */
module SpanContexts {
  import opened Text
  import TS = TraceState

  const NIL: Byte := '\0'

  const EIGHT_NILS: Bytes := [NIL, NIL, NIL, NIL, NIL, NIL, NIL, NIL]

  type TraceID = id: Bytes | |id| == 16 witness EIGHT_NILS + EIGHT_NILS
  type SpanID = id: Bytes | |id| == 8 witness EIGHT_NILS
  type TraceFlags = flags: nat | flags < 256

  /** An identifier that does not consist of zeros only. */
  predicate IsValidID(id: Bytes) {
    exists i :: 0 <= i < |id| && id[i] != NIL
  }

  datatype SpanContext = SpanContext(traceID: TraceID, spanID: SpanID, flags: TraceFlags, traceState: TS.TraceState,
                                     remote: bool) {
    predicate IsValid() {
      IsValidID(traceID) && IsValidID(spanID)
    }

    /** flags & FlagsSampled. */
    predicate IsSampled() {
      flags % 2 == 1
    }
  }

  /** flags | FlagsSampled, or flags &^ FlagsSampled. */
  function WithSampled(flags: TraceFlags, sampled: bool): TraceFlags {
    flags - flags % 2 + if sampled then 1 else 0
  }
}

module TraceContext {
  import opened Prelude
  import opened Text
  import opened SpanContexts
  import TS = TraceState

  const MAX_VERSION := 254
  const TRACEPARENT: Bytes := "traceparent"
  const TRACESTATE: Bytes := "tracestate"

  /** A carrier is a map of headers; a missing header reads as the empty string. */
  type Carrier = map<Bytes, Bytes>

  function Get(carrier: Carrier, key: Bytes): Bytes {
    if key in carrier then carrier[key] else []
  }

  // ----- hexadecimal encoding (encoding/hex) -----

  function HexEncode(src: Bytes): (r: Bytes)
    ensures |r| == 2 * |src|
  {
    if src == [] then []
    else [LowerDigit(src[0] as int / 16), LowerDigit(src[0] as int % 16)] + HexEncode(src[1..])
  }

  /** Decoding accepts digits of both cases and fails for other bytes and for odd lengths. */
  function HexDecode(src: Bytes): (r: Option<Bytes>)
    ensures r.Some? ==> |src| == 2 * |r.value|
  {
    if src == [] then Some([])
    else if |src| == 1 || !IsHex(src[0]) || !IsHex(src[1]) || HexDecode(src[2..]).None? then None
    else Some([(16 * FromHex(src[0]) + FromHex(src[1])) as char] + HexDecode(src[2..]).value)
  }

  predicate UpperHex(v: Bytes) {
    exists i :: 0 <= i < |v| && IsUpperHex(v[i])
  }

  lemma DigitsOf(c: Byte)
    ensures var hi, lo := LowerDigit(c as int / 16), LowerDigit(c as int % 16);
      && IsHex(hi) && IsHex(lo) && !IsUpperHex(hi) && !IsUpperHex(lo) && hi != '-' && lo != '-'
      && (16 * FromHex(hi) + FromHex(lo)) as char == c
  {
  }

  lemma DigitsFrom(hi: Byte, lo: Byte)
    requires IsHex(hi) && IsHex(lo) && !IsUpperHex(hi) && !IsUpperHex(lo)
    ensures var c := 16 * FromHex(hi) + FromHex(lo); LowerDigit(c / 16) == hi && LowerDigit(c % 16) == lo
  {
  }

  lemma {:induction false} DecodeEncode(src: Bytes)
    ensures HexDecode(HexEncode(src)) == Some(src)
  {
    if src != [] {
      DigitsOf(src[0]);
      DecodeEncode(src[1..]);
      assert HexEncode(src)[2..] == HexEncode(src[1..]);
      assert src == [src[0]] + src[1..];
    }
  }

  lemma {:induction false} EncodedIsLower(src: Bytes)
    ensures !UpperHex(HexEncode(src)) && '-' !in HexEncode(src)
  {
    if src != [] {
      DigitsOf(src[0]);
      EncodedIsLower(src[1..]);
      var r, rest := HexEncode(src), HexEncode(src[1..]);
      forall i | 0 <= i < |r|
        ensures !IsUpperHex(r[i]) && r[i] != '-'
      {
        assert i >= 2 ==> r[i] == rest[i - 2];
      }
    }
  }

  /** Without upper-case digits, encoding undoes decoding. */
  lemma {:induction false} EncodeDecode(src: Bytes)
    requires !UpperHex(src) && HexDecode(src).Some?
    ensures HexEncode(HexDecode(src).value) == src
  {
    if src != [] {
      assert !IsUpperHex(src[0]) && !IsUpperHex(src[1]);
      assert forall i :: 0 <= i < |src[2..]| ==> src[2..][i] == src[2 + i];
      DigitsFrom(src[0], src[1]);
      EncodeDecode(src[2..]);
      assert src == [src[0], src[1]] + src[2..];
      var d := HexDecode(src).value;
      assert d[1..] == HexDecode(src[2..]).value;
    }
  }

  // ----- parts of a traceparent header -----

  /** The bytes of the first part of `h`, which has to have `n` digits, and what is left behind its delimiter. */
  function Part(h: Bytes, n: nat): (Option<Bytes>, Bytes) {
    var (part, left, _) := Cut(h, '-');
    (if |part| != n || UpperHex(part) then None else HexDecode(part), left)
  }

  /** What decoding a string gives when decoding its first digits gave `front` and decoding the others gives `r`. */
  function Joined(front: Bytes, r: Option<Bytes>): Option<Bytes> {
    if r.None? then None else Some(front + r.value)
  }

  lemma DecodeStep(part: Bytes, i: nat)
    requires 2 * i + 1 < |part|
    ensures HexDecode(part[2 * i..])
         == if !IsHex(part[2 * i]) || !IsHex(part[2 * i + 1]) then None
            else
              Joined([(16 * FromHex(part[2 * i]) + FromHex(part[2 * i + 1])) as char], HexDecode(part[2 * (i + 1)..]))
  {
    var rest := part[2 * i..];
    assert rest[0] == part[2 * i] && rest[1] == part[2 * i + 1] && rest[2..] == part[2 * (i + 1)..];
  }

  lemma JoinedTwice(front: Bytes, c: Byte, r: Option<Bytes>)
    ensures Joined(front, Joined([c], r)) == Joined(front + [c], r)
  {
    if r.Some? {
      assert front + ([c] + r.value) == (front + [c]) + r.value;
    }
  }

  /** hex.Decode. */
  method DecodeInto(dst: array<Byte>, part: Bytes) returns (ok: bool)
    requires |part| == 2 * dst.Length
    modifies dst
    ensures ok == HexDecode(part).Some?
    ensures ok ==> dst[..] == HexDecode(part).value
  {
    var i := 0;
    assert part[0..] == part;
    assert HexDecode(part).Some? ==> [] + HexDecode(part).value == HexDecode(part).value;
    while i < dst.Length
      invariant i <= dst.Length
      invariant HexDecode(part) == Joined(dst[..i], HexDecode(part[2 * i..]))
    {
      DecodeStep(part, i);
      if !IsHex(part[2 * i]) || !IsHex(part[2 * i + 1]) {
        return false;
      }
      var c: Byte := (16 * FromHex(part[2 * i]) + FromHex(part[2 * i + 1])) as char;
      JoinedTwice(dst[..i], c, HexDecode(part[2 * (i + 1)..]));
      ghost var front := dst[..i];
      dst[i] := c;
      assert dst[..i + 1] == front + [c];
      i := i + 1;
    }
    assert part[2 * i..] == [];
    assert dst[..i] + [] == dst[..];
    return true;
  }

  /** extractPart: fills `dst` and returns what is left of the header. */
  method ExtractPart(dst: array<Byte>, h: Bytes, n: nat) returns (ok: bool, left: Bytes)
    requires n == 2 * dst.Length
    modifies dst
    ensures left == Part(h, n).1 && ok == Part(h, n).0.Some?
    ensures ok ==> dst[..] == Part(h, n).0.value
  {
    var (part, rest, _) := Cut(h, '-');
    left := rest;
    if |part| != n || UpperHex(part) {
      return false, left;
    }
    ok := DecodeInto(dst, part);
  }

  /** `tail` is nothing, or a delimiter and what is left. */
  predicate TailOf(tail: Bytes, left: Bytes) {
    if tail == [] then left == [] else tail == ['-'] + left
  }

  lemma PartRead(h: Bytes, n: nat)
    requires Part(h, n).0.Some?
    ensures var (d, left) := Part(h, n);
      |HexEncode(d.value)| == n <= |h| && h[..n] == HexEncode(d.value) && TailOf(h[n..], left)
  {
    var (part, rest, found) := Cut(h, '-');
    CutIs(h, '-');
    EncodeDecode(part);
    CutParts(h, part, rest, found);
  }

  lemma CutParts(h: Bytes, part: Bytes, rest: Bytes, found: bool)
    requires h == (if found then part + ['-'] + rest else part) && (!found ==> rest == [])
    ensures |part| <= |h| && h[..|part|] == part && TailOf(h[|part|..], rest)
  {
  }

  lemma PartOf(d: Bytes, n: nat, tail: Bytes, left: Bytes)
    requires n == 2 * |d| && TailOf(tail, left)
    ensures Part(HexEncode(d) + tail, n) == (Some(d), left)
  {
    DecodeEncode(d);
    EncodedIsLower(d);
    if tail == [] {
      assert HexEncode(d) + tail == HexEncode(d);
      CutNone(HexEncode(d), '-');
    } else {
      assert HexEncode(d) + tail == HexEncode(d) + ['-'] + left;
      CutAt(HexEncode(d), '-', left);
    }
  }

  // ----- the traceparent header -----

  datatype Parent = Parent(version: Byte, traceID: TraceID, spanID: SpanID, flags: Byte)

  /** What extract reads from a traceparent header, if it accepts it. */
  function ReadParent(h: Bytes): Option<Parent> {
    var (ver, h1) := Part(h, 2);
    if h == [] || ver.None? || ver.value[0] as int > MAX_VERSION then None
    else
      var (tid, h2) := Part(h1, 32);
      if tid.None? then None
      else
        var (sid, h3) := Part(h2, 16);
        if sid.None? then None
        else
          var (opts, h4) := Part(h3, 2);
          if opts.None? then None
          else if ver.value[0] == NIL && (h4 != [] || opts.value[0] as int > 2) then None
          else if !IsValidID(tid.value) || !IsValidID(sid.value) then None
          else Some(Parent(ver.value[0], tid.value, sid.value, opts.value[0]))
  }

  /** A header of version, identifiers and flags, followed by `tail`. */
  function ParentHeader(p: Parent, tail: Bytes): Bytes {
    HexEncode([p.version]) + (['-'] + (HexEncode(p.traceID) + (['-'] + (HexEncode(p.spanID)
      + (['-'] + (HexEncode([p.flags]) + tail))))))
  }

  const HEADER_LENGTH := 55

  /**
   The headers that are accepted: lower-case digits; a version other than 255; identifiers that are not zero; and for
   version 0 no flags above 2 and nothing more than, possibly, one delimiter at the end.
   */
  predicate IsParent(h: Bytes, p: Parent) {
    && |h| >= HEADER_LENGTH
    && h == ParentHeader(p, h[HEADER_LENGTH..])
    && (h[HEADER_LENGTH..] == [] || h[HEADER_LENGTH] == '-')
    && p.version as int <= MAX_VERSION && IsValidID(p.traceID) && IsValidID(p.spanID)
    && (p.version == NIL ==> p.flags as int <= 2 && |h| <= HEADER_LENGTH + 1)
  }

  lemma Single(d: Bytes)
    requires |d| == 1
    ensures d == [d[0]]
  {
  }

  lemma ReadImpliesForm(h: Bytes)
    requires ReadParent(h).Some?
    ensures IsParent(h, ReadParent(h).value)
  {
    var p := ReadParent(h).value;
    var h1, h2, h3 := Part(h, 2).1, Part(Part(h, 2).1, 32).1, Part(Part(Part(h, 2).1, 32).1, 16).1;
    PartRead(h, 2);
    PartRead(h1, 32);
    PartRead(h2, 16);
    PartRead(h3, 2);
    Single(Part(h, 2).0.value);
    Single(Part(h3, 2).0.value);
    Assemble(h, h1, h2, h3, HexEncode([p.version]), HexEncode(p.traceID), HexEncode(p.spanID), HexEncode([p.flags]));
  }

  lemma Assemble(h: Bytes, h1: Bytes, h2: Bytes, h3: Bytes, v: Bytes, t: Bytes, s: Bytes, f: Bytes)
    requires |v| == 2 <= |h| && h[..2] == v && h[2..] == ['-'] + h1
    requires |t| == 32 <= |h1| && h1[..32] == t && h1[32..] == ['-'] + h2
    requires |s| == 16 <= |h2| && h2[..16] == s && h2[16..] == ['-'] + h3
    requires |f| == 2 <= |h3| && h3[..2] == f
    ensures |h| == HEADER_LENGTH + |h3| - 2 && h[HEADER_LENGTH..] == h3[2..]
    ensures h == v + (['-'] + (t + (['-'] + (s + (['-'] + (f + h3[2..]))))))
  {
    assert h3 == f + h3[2..];
    assert h2 == s + (['-'] + h3);
    assert h1 == t + (['-'] + h2);
    assert h == v + (['-'] + h1);
    Drop(v + ['-'], h1, 3, 32 + 1 + 16 + 1 + 2);
    Drop(t + ['-'], h2, 33, 16 + 1 + 2);
    Drop(s + ['-'], h3, 17, 2);
    assert h == (v + ['-']) + h1 && h1 == (t + ['-']) + h2 && h2 == (s + ['-']) + h3;
  }

  lemma Drop(a: Bytes, b: Bytes, n: nat, m: nat)
    requires |a| == n && m <= |b|
    ensures (a + b)[n + m..] == b[m..]
  {
  }

  lemma FormImpliesRead(h: Bytes, p: Parent)
    requires IsParent(h, p)
    ensures ReadParent(h) == Some(p)
  {
    var tail := h[HEADER_LENGTH..];
    var left := if tail == [] then [] else tail[1..];
    assert TailOf(tail, left);
    var h3 := HexEncode([p.flags]) + tail;
    var h2 := HexEncode(p.spanID) + (['-'] + h3);
    var h1 := HexEncode(p.traceID) + (['-'] + h2);
    PartThen([p.version], 2, h1);
    PartThen(p.traceID, 32, h2);
    PartThen(p.spanID, 16, h3);
    PartOf([p.flags], 2, tail, left);
    PartsRead(h, h1, h2, h3, left, p);
  }

  lemma PartThen(d: Bytes, n: nat, left: Bytes)
    requires n == 2 * |d|
    ensures Part(HexEncode(d) + (['-'] + left), n) == (Some(d), left)
  {
    assert TailOf(['-'] + left, left);
    PartOf(d, n, ['-'] + left, left);
  }

  lemma PartsRead(h: Bytes, h1: Bytes, h2: Bytes, h3: Bytes, left: Bytes, p: Parent)
    requires h != [] && Part(h, 2) == (Some([p.version]), h1) && Part(h1, 32) == (Some(p.traceID), h2)
    requires Part(h2, 16) == (Some(p.spanID), h3) && Part(h3, 2) == (Some([p.flags]), left)
    requires p.version as int <= MAX_VERSION && IsValidID(p.traceID) && IsValidID(p.spanID)
    requires p.version == NIL ==> p.flags as int <= 2 && left == []
    ensures ReadParent(h) == Some(p)
  {
  }

  /** A traceparent header is read exactly if it has that form, as what it was formed from. */
  lemma ReadParentIs(h: Bytes, p: Parent)
    ensures ReadParent(h) == Some(p) <==> IsParent(h, p)
  {
    if ReadParent(h).Some? {
      ReadImpliesForm(h);
    }
    if IsParent(h, p) {
      FormImpliesRead(h, p);
    }
  }

  // ----- Inject and extract -----

  function Masked(flags: TraceFlags): Byte {
    (flags % 2) as char
  }

  function ParentOf(sc: SpanContext): Parent {
    Parent(NIL, sc.traceID, sc.spanID, Masked(sc.flags))
  }

  /** Inject; invalid contexts leave the carrier as it is, and empty trace states its tracestate header. */
  method Inject(sc: SpanContext, given: Carrier) returns (carrier: Carrier)
    ensures !sc.IsValid() ==> carrier == given
    ensures sc.IsValid() ==> carrier == Injected(sc, given)
  {
    carrier := given;
    if !sc.IsValid() {
      return;
    }
    var ts := TS.String(sc.traceState);
    if ts != [] {
      carrier := carrier[TRACESTATE := ts];
    }
    var sb: Bytes := ['0', '0'];
    var sources := [sc.traceID, sc.spanID, [Masked(sc.flags)]];
    for i := 0 to |sources|
      invariant sb == Written(sources[..i])
    {
      sb := sb + ['-'];
      sb := sb + HexEncode(sources[i]);
      assert sources[..i + 1][..i] == sources[..i];
      assert sb == Written(sources[..i]) + (['-'] + HexEncode(sources[i]));
    }
    assert sources[..3] == sources && sources[..3][..2] == sources[..2] && sources[..2][..1] == sources[..1];
    WrittenIsHeader(sc);
    carrier := carrier[TRACEPARENT := sb];
  }

  /** What the builder holds after writing some of the parts. */
  function Written(sources: seq<Bytes>): Bytes {
    if sources == [] then ['0', '0']
    else Written(sources[..|sources| - 1]) + (['-'] + HexEncode(sources[|sources| - 1]))
  }

  lemma WrittenIsHeader(sc: SpanContext)
    ensures Written([sc.traceID, sc.spanID, [Masked(sc.flags)]]) == ParentHeader(ParentOf(sc), [])
  {
    var t, s, f := HexEncode(sc.traceID), HexEncode(sc.spanID), HexEncode([Masked(sc.flags)]);
    var sources: seq<Bytes> := [sc.traceID, sc.spanID, [Masked(sc.flags)]];
    assert sources[..2] == [sc.traceID, sc.spanID] && sources[..2][..1] == [sc.traceID];
    assert sources[..2][..1][..0] == [];
    assert HexEncode([NIL]) == ['0', '0'];
    assert Written(sources[..2][..1]) == ['0', '0'] + (['-'] + t);
    assert Written(sources[..2]) == ['0', '0'] + (['-'] + t) + (['-'] + s);
    assert Written(sources) == ['0', '0'] + (['-'] + t) + (['-'] + s) + (['-'] + f);
    assert f + [] == f;
  }

  /** The headers after an injection. */
  function Injected(sc: SpanContext, carrier: Carrier): Carrier {
    var ts := TS.Encoded(sc.traceState);
    var c := if ts != [] then carrier[TRACESTATE := ts] else carrier;
    c[TRACEPARENT := ParentHeader(ParentOf(sc), [])]
  }

  /** A trace state that cannot be parsed does not affect the rest. */
  function StateOf(header: Bytes): TS.TraceState {
    var ts := TS.ParsedFrom(header, []);
    if ts.Ok? then ts.value else []
  }

  /** extract; None stands for the invalid span context. */
  function Extracted(carrier: Carrier): Option<SpanContext> {
    var p := ReadParent(Get(carrier, TRACEPARENT));
    if p.None? then None
    else
      var state := StateOf(Get(carrier, TRACESTATE));
      Some(SpanContext(p.value.traceID, p.value.spanID, p.value.flags as int % 2, state, true))
  }

  /** The part of extract that reads the traceparent header. */
  method ReadHeader(header: Bytes) returns (r: Option<Parent>)
    ensures r == ReadParent(header)
  {
    var h := header;
    if h == [] {
      return None;
    }
    var ver, tid, sid, opts := new Byte[1], new Byte[16], new Byte[8], new Byte[1];
    var ok;
    ok, h := ExtractPart(ver, h, 2);
    if !ok {
      return None;
    }
    var version := ver[0] as int;
    if version > MAX_VERSION {
      return None;
    }
    ok, h := ExtractPart(tid, h, 32);
    if !ok {
      return None;
    }
    ok, h := ExtractPart(sid, h, 16);
    if !ok {
      return None;
    }
    ok, h := ExtractPart(opts, h, 2);
    if !ok {
      return None;
    }
    if version == 0 && (h != [] || opts[0] as int > 2) {
      return None;
    }
    if !IsValidID(tid[..]) || !IsValidID(sid[..]) {
      return None;
    }
    return Some(Parent(ver[0], tid[..], sid[..], opts[0]));
  }

  /** extract; the validity of the identifiers does not depend on the trace state, so it has been looked at before. */
  method Extract(carrier: Carrier) returns (r: Option<SpanContext>)
    ensures r == Extracted(carrier)
  {
    var p := ReadHeader(Get(carrier, TRACEPARENT));
    if p.None? {
      return None;
    }
    var ts := TS.ParseTraceState(Get(carrier, TRACESTATE));
    var state := if ts.Ok? then ts.value else [];
    return Some(SpanContext(p.value.traceID, p.value.spanID, p.value.flags as int % 2, state, true));
  }

  /** What arrives: everything but the flags above the sampled bit; it is remote then. */
  function Arrived(sc: SpanContext): SpanContext {
    sc.(flags := sc.flags % 2, remote := true)
  }

  lemma HeaderNames()
    ensures TRACEPARENT != TRACESTATE
  {
    assert TRACEPARENT[5] != TRACESTATE[5];
  }

  /**
   Injecting and extracting over any carrier gives back the context, with only the sampled bit of the flags; an empty
   trace state does not replace the one the carrier may hold already.
   */
  lemma RoundTrip(sc: SpanContext, carrier: Carrier)
    requires sc.IsValid() && TS.Valid(sc.traceState)
    ensures Extracted(Injected(sc, carrier))
         == Some(if sc.traceState == [] then Arrived(sc).(traceState := StateOf(Get(carrier, TRACESTATE)))
                 else Arrived(sc))
  {
    InjectedHeaders(sc, carrier);
    InjectedParent(sc, []);
    EncodedState(sc.traceState);
  }

  lemma EncodedState(ts: TS.TraceState)
    requires TS.Valid(ts)
    ensures StateOf(TS.Encoded(ts)) == ts
  {
    TS.RoundTrip(ts);
  }

  lemma InjectedHeaders(sc: SpanContext, carrier: Carrier)
    ensures Get(Injected(sc, carrier), TRACEPARENT) == ParentHeader(ParentOf(sc), [])
    ensures Get(Injected(sc, carrier), TRACESTATE)
         == if sc.traceState == [] then Get(carrier, TRACESTATE) else TS.Encoded(sc.traceState)
  {
    HeaderNames();
    if sc.traceState != [] {
      TS.EncodedLength(sc.traceState);
    }
  }

  lemma InjectedParent(sc: SpanContext, tail: Bytes)
    requires sc.IsValid() && (tail == [] || tail == ['-'])
    ensures ReadParent(ParentHeader(ParentOf(sc), tail)) == Some(ParentOf(sc))
  {
    HeaderTail(ParentOf(sc), tail);
    ReadParentIs(ParentHeader(ParentOf(sc), tail), ParentOf(sc));
  }

  lemma HeaderTail(p: Parent, tail: Bytes)
    ensures var h := ParentHeader(p, tail); |h| == HEADER_LENGTH + |tail| && h[HEADER_LENGTH..] == tail
  {
    var f := HexEncode([p.flags]) + tail;
    var s := HexEncode(p.spanID) + (['-'] + f);
    var t := HexEncode(p.traceID) + (['-'] + s);
    var h := ParentHeader(p, tail);
    Assemble(h, t, s, f, HexEncode([p.version]), HexEncode(p.traceID), HexEncode(p.spanID), HexEncode([p.flags]));
  }

  lemma FreshRoundTrip(sc: SpanContext)
    requires sc.IsValid() && TS.Valid(sc.traceState)
    ensures Extracted(Injected(sc, map[])) == Some(Arrived(sc))
  {
    RoundTrip(sc, map[]);
    assert StateOf([]) == [];
  }

  /**
   It is the context exactly if the trace state is not empty or the carrier holds none that parses to something else.
   */
  lemma RoundTripIff(sc: SpanContext, carrier: Carrier)
    requires sc.IsValid() && TS.Valid(sc.traceState)
    ensures Extracted(Injected(sc, carrier)) == Some(Arrived(sc))
       <==> sc.traceState != [] || StateOf(Get(carrier, TRACESTATE)) == []
  {
    RoundTrip(sc, carrier);
  }

  /** Whatever trace state a carrier holds already is taken for that of a context that has none. */
  lemma StaleStateArrives(sc: SpanContext, ts: TS.TraceState)
    requires sc.IsValid() && sc.traceState == [] && TS.Valid(ts) && ts != []
    ensures var arrived := Extracted(Injected(sc, map[TRACESTATE := TS.Encoded(ts)]));
      arrived == Some(Arrived(sc).(traceState := ts)) && arrived != Some(Arrived(sc))
  {
    RoundTrip(sc, map[TRACESTATE := TS.Encoded(ts)]);
    EncodedState(ts);
  }

  /** What has been extracted is valid and is carried on unchanged: injected and extracted again it is the same. */
  lemma ExtractedIsStable(carrier: Carrier)
    ensures Extracted(carrier).Some? ==>
              var sc := Extracted(carrier).value;
              && sc.IsValid() && TS.Valid(sc.traceState)
              && Extracted(Injected(sc, map[])) == Some(sc)
  {
    if Extracted(carrier).Some? {
      var sc := Extracted(carrier).value;
      TS.ParsedIsValid(Get(carrier, TRACESTATE));
      FreshRoundTrip(sc);
      ArrivedBefore(sc);
    }
  }

  lemma ArrivedBefore(sc: SpanContext)
    requires sc.flags < 2 && sc.remote
    ensures Arrived(sc) == sc
  {
  }

  /** A version 0 header with a delimiter at its end is accepted, though the format has none there. */
  lemma TrailingDelimiterAccepted(sc: SpanContext)
    requires sc.IsValid()
    ensures ReadParent(ParentHeader(ParentOf(sc), ['-'])) == Some(ParentOf(sc))
  {
    InjectedParent(sc, ['-']);
  }
}

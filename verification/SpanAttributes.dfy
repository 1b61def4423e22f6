/**
 The attribute storage of spans (sdk/trace/span.go), with the limit on value lengths switched off.  Spans store
 attributes unchecked and de-duplicate them when they are read or the cap comes into sight.
 */
module SpanAttributesSpec {
  import opened Prelude
  import opened Attributes
  import opened OrderedAttributes

  datatype Span = Span(attrs: seq<KeyValue>, dropped: nat)

  const EMPTY: Span := Span([], 0)
  const VALID: KeyValue -> bool := (kv: KeyValue) => kv.Valid()

  /** A negative count limit is no limit. */
  function CapOf(limit: int): Option<nat> {
    if limit >= 0 then Some(limit) else None
  }

  // ----- the reference: an ordered map that is kept up to date -----

  /** Invalid attributes are dropped, known keys updated, new ones appended below the cap and dropped at it. */
  function EagerOne(v: Span, a: KeyValue, cap: Option<nat>): Span {
    if !a.Valid() then Span(v.attrs, v.dropped + 1)
    else if HasKey(v.attrs, a.key) then Span(Put(v.attrs, a), v.dropped)
    else if Full(v.attrs, cap) then Span(v.attrs, v.dropped + 1)
    else Span(v.attrs + [a], v.dropped)
  }

  function EagerAll(v: Span, xs: seq<KeyValue>, cap: Option<nat>): Span {
    if xs == [] then v else EagerOne(EagerAll(v, xs[..|xs| - 1], cap), xs[|xs| - 1], cap)
  }

  // ----- what is stored -----

  /** What SetAttributes stores. */
  function LazySet(l: Span, xs: seq<KeyValue>, limit: int): Span {
    if limit == 0 then Span(l.attrs, l.dropped + |xs|)
    else if limit > 0 && |l.attrs| + |xs| > limit then EagerAll(Span(Deduped(l.attrs), l.dropped), xs, CapOf(limit))
    else Stored(l, xs)
  }

  /** All valid attributes stored, without a look at their keys. */
  function Stored(l: Span, xs: seq<KeyValue>): Span {
    Span(l.attrs + Kept(xs, VALID), l.dropped + |Kept(xs, Not(VALID))|)
  }

  /** What is observed: the stored attributes without duplicates, and the count of dropped ones. */
  function Observed(l: Span): Span {
    Span(Deduped(l.attrs), l.dropped)
  }

  /** What is stored never exceeds the limit. */
  predicate Within(l: Span, limit: int) {
    limit >= 0 ==> |l.attrs| <= limit
  }

  lemma {:induction false} AllRefused(v: Span, xs: seq<KeyValue>)
    requires v.attrs == []
    ensures EagerAll(v, xs, Some(0)) == Span([], v.dropped + |xs|)
  {
    if xs != [] {
      AllRefused(v, xs[..|xs| - 1]);
    }
  }

  lemma KeptLast(xs: seq<KeyValue>, keep: KeyValue -> bool)
    requires xs != []
    ensures var front, x := xs[..|xs| - 1], xs[|xs| - 1];
      Kept(xs, keep) == if keep(x) then Kept(front, keep) + [x] else Kept(front, keep)
  {
    assert xs == xs[..|xs| - 1] + [xs[|xs| - 1]];
    KeptSnoc(xs[..|xs| - 1], xs[|xs| - 1], keep);
  }

  lemma KeptSnoc(s: seq<KeyValue>, x: KeyValue, keep: KeyValue -> bool)
    ensures Kept(s + [x], keep) == if keep(x) then Kept(s, keep) + [x] else Kept(s, keep)
  {
    KeptConcat(s, [x], keep);
    assert [x][1..] == [];
    assert Kept(s, keep) + [] == Kept(s, keep);
  }

  lemma StoredNext(l: Span, xs: seq<KeyValue>, i: nat)
    requires i < |xs|
    ensures var before := Stored(l, xs[..i]);
      Stored(l, xs[..i + 1]) == if xs[i].Valid() then Span(before.attrs + [xs[i]], before.dropped)
                                else Span(before.attrs, before.dropped + 1)
  {
    assert xs[..i + 1] == xs[..i] + [xs[i]];
    KeptSnoc(xs[..i], xs[i], VALID);
    KeptSnoc(xs[..i], xs[i], Not(VALID));
    assert l.attrs + (Kept(xs[..i], VALID) + [xs[i]]) == (l.attrs + Kept(xs[..i], VALID)) + [xs[i]];
  }

  lemma CappedSnoc(s: seq<KeyValue>, ys: seq<KeyValue>, x: KeyValue, cap: Option<nat>)
    ensures CappedAll(s, ys + [x], cap) == CappedPut(CappedAll(s, ys, cap), x, cap)
  {
    assert (ys + [x])[..|ys|] == ys;
  }

  lemma DedupedSnoc(s: seq<KeyValue>, x: KeyValue)
    ensures Deduped(s + [x]) == Put(Deduped(s), x)
  {
    assert (s + [x])[..|s|] == s;
  }

  lemma EagerOneIs(v: Span, a: KeyValue, cap: Option<nat>)
    requires UniqueKeys(v.attrs)
    ensures EagerOne(v, a, cap).attrs == if a.Valid() then CappedPut(v.attrs, a, cap) else v.attrs
    ensures UniqueKeys(EagerOne(v, a, cap).attrs)
  {
    PutIs(v.attrs, a);
  }

  lemma {:induction false} EagerIsCapped(v: Span, xs: seq<KeyValue>, cap: Option<nat>)
    requires UniqueKeys(v.attrs)
    ensures EagerAll(v, xs, cap).attrs == CappedAll(v.attrs, Kept(xs, VALID), cap)
    ensures UniqueKeys(EagerAll(v, xs, cap).attrs)
  {
    if xs != [] {
      var front, x := xs[..|xs| - 1], xs[|xs| - 1];
      EagerIsCapped(v, front, cap);
      EagerOneIs(EagerAll(v, front, cap), x, cap);
      KeptLast(xs, VALID);
      CappedSnoc(v.attrs, Kept(front, VALID), x, cap);
    }
  }

  /** While there is room for everything, storing without looking is the same as updating the map. */
  lemma {:induction false} RoomForAll(l: Span, xs: seq<KeyValue>, cap: Option<nat>)
    requires cap.Some? ==> |l.attrs| + |xs| <= cap.value
    ensures EagerAll(Observed(l), xs, cap) == Observed(Stored(l, xs))
    ensures |Stored(l, xs).attrs| <= |l.attrs| + |xs|
  {
    if xs != [] {
      var front, x := xs[..|xs| - 1], xs[|xs| - 1];
      RoomForAll(l, front, cap);
      KeptLast(xs, VALID);
      KeptLast(xs, Not(VALID));
      DedupedUnique(Stored(l, front).attrs);
      assert Stored(l, xs).attrs == if x.Valid() then Stored(l, front).attrs + [x] else Stored(l, front).attrs;
      DedupedSnoc(Stored(l, front).attrs, x);
      StoreOne(Observed(Stored(l, front)), x, cap);
    } else {
      assert l.attrs + [] == l.attrs;
    }
  }

  lemma StoreOne(v: Span, x: KeyValue, cap: Option<nat>)
    requires UniqueKeys(v.attrs) && !Full(v.attrs, cap)
    ensures EagerOne(v, x, cap)
         == if x.Valid() then Span(Put(v.attrs, x), v.dropped) else Span(v.attrs, v.dropped + 1)
  {
    PutIs(v.attrs, x);
  }

  lemma {:induction false} EagerLength(v: Span, xs: seq<KeyValue>, limit: nat)
    requires |v.attrs| <= limit && UniqueKeys(v.attrs)
    ensures |EagerAll(v, xs, Some(limit)).attrs| <= limit
  {
    EagerIsCapped(v, xs, Some(limit));
    CappedIsPrefix(v.attrs, Kept(xs, VALID), Some(limit));
  }

  /** SetAttributes is observed as the update of the ordered map, and what it stores keeps within the limit. */
  lemma LazySetIsEager(l: Span, xs: seq<KeyValue>, limit: int)
    requires Within(l, limit)
    ensures Observed(LazySet(l, xs, limit)) == EagerAll(Observed(l), xs, CapOf(limit))
    ensures Within(LazySet(l, xs, limit), limit)
  {
    DedupedUnique(l.attrs);
    if limit == 0 {
      AllRefused(Observed(l), xs);
    } else if limit > 0 && |l.attrs| + |xs| > limit {
      EagerIsCapped(Observed(l), xs, CapOf(limit));
      DedupedIdempotent(EagerAll(Observed(l), xs, CapOf(limit)).attrs);
      EagerLength(Observed(l), xs, limit);
    } else {
      RoomForAll(l, xs, CapOf(limit));
    }
  }

  lemma ReadKeepsObserved(l: Span, limit: int)
    requires Within(l, limit)
    ensures Observed(Observed(l)) == Observed(l) && Within(Observed(l), limit)
  {
    DedupedUnique(l.attrs);
    DedupedIdempotent(Deduped(l.attrs));
  }

  // ----- runs -----

  datatype Op = SetOp(attrs: seq<KeyValue>) | ReadOp | EndOp

  datatype Recording = Recording(span: Span, ended: bool)

  const STARTED: Recording := Recording(EMPTY, false)

  function LazyStep(r: Recording, op: Op, limit: int): Recording {
    match op
    case SetOp(xs) => if r.ended then r else Recording(LazySet(r.span, xs, limit), false)
    case ReadOp => Recording(Observed(r.span), r.ended)
    case EndOp => Recording(r.span, true)
  }

  function EagerStep(r: Recording, op: Op, limit: int): Recording {
    match op
    case SetOp(xs) => if r.ended then r else Recording(EagerAll(r.span, xs, CapOf(limit)), false)
    case ReadOp => r
    case EndOp => Recording(r.span, true)
  }

  function LazyRun(ops: seq<Op>, limit: int): Recording {
    if ops == [] then STARTED else LazyStep(LazyRun(ops[..|ops| - 1], limit), ops[|ops| - 1], limit)
  }

  function EagerRun(ops: seq<Op>, limit: int): Recording {
    if ops == [] then STARTED else EagerStep(EagerRun(ops[..|ops| - 1], limit), ops[|ops| - 1], limit)
  }

  /**
   However sets, reads and the end are interleaved, the span is observed as the ordered map (so every read returns the
   map's attributes), and stores no more attributes than the limit allows.
   */
  lemma {:induction false} RunIsEager(ops: seq<Op>, limit: int)
    ensures Observed(LazyRun(ops, limit).span) == EagerRun(ops, limit).span
    ensures LazyRun(ops, limit).ended == EagerRun(ops, limit).ended
    ensures Within(LazyRun(ops, limit).span, limit)
  {
    if ops != [] {
      RunIsEager(ops[..|ops| - 1], limit);
      var l := LazyRun(ops[..|ops| - 1], limit).span;
      match ops[|ops| - 1]
      case SetOp(xs) => LazySetIsEager(l, xs, limit);
      case ReadOp => ReadKeepsObserved(l, limit);
      case EndOp =>
    }
  }

  /** The attributes that were set before the span ended. */
  function Given(ops: seq<Op>, limit: int): seq<KeyValue> {
    if ops == [] then []
    else
      var before, op := Given(ops[..|ops| - 1], limit), ops[|ops| - 1];
      if op.SetOp? && !EagerRun(ops[..|ops| - 1], limit).ended then before + op.attrs else before
  }

  lemma {:induction false} EagerConcat(v: Span, xs: seq<KeyValue>, ys: seq<KeyValue>, cap: Option<nat>)
    ensures EagerAll(v, xs + ys, cap) == EagerAll(EagerAll(v, xs, cap), ys, cap)
  {
    if ys == [] {
      assert xs + ys == xs;
    } else {
      assert (xs + ys)[..|xs + ys| - 1] == xs + ys[..|ys| - 1];
      EagerConcat(v, xs, ys[..|ys| - 1], cap);
    }
  }

  lemma {:induction false} RunIsOneSet(ops: seq<Op>, limit: int)
    ensures EagerRun(ops, limit).span == EagerAll(EMPTY, Given(ops, limit), CapOf(limit))
  {
    if ops != [] {
      var op := ops[|ops| - 1];
      RunIsOneSet(ops[..|ops| - 1], limit);
      if op.SetOp? {
        EagerConcat(EMPTY, Given(ops[..|ops| - 1], limit), op.attrs, CapOf(limit));
      }
    }
  }

  /** How many attributes are invalid or have a key that is not among the kept ones. */
  function Lost(xs: seq<KeyValue>, kept: seq<KeyValue>): nat {
    if xs == [] then 0
    else
      var x := xs[|xs| - 1];
      Lost(xs[..|xs| - 1], kept) + if x.Valid() && HasKey(kept, x.key) then 0 else 1
  }

  lemma {:induction false} LostSame(xs: seq<KeyValue>, a: seq<KeyValue>, b: seq<KeyValue>)
    requires forall x :: x in xs && x.Valid() ==> (HasKey(a, x.key) <==> HasKey(b, x.key))
    ensures Lost(xs, a) == Lost(xs, b)
  {
    if xs != [] {
      LostSame(xs[..|xs| - 1], a, b);
    }
  }

  /** A list that is not full has the keys of all valid attributes it was given. */
  lemma AllTaken(xs: seq<KeyValue>, cap: Option<nat>, x: KeyValue)
    requires x in xs && x.Valid() && !Full(EagerAll(EMPTY, xs, cap).attrs, cap)
    ensures HasKey(EagerAll(EMPTY, xs, cap).attrs, x.key)
  {
    var ys := Kept(xs, VALID);
    EagerIsCapped(EMPTY, xs, cap);
    CappedIsPrefix([], ys, cap);
    assert CappedAll([], ys, cap) == CappedAll([], ys, None);
    DedupedAppend([], ys);
    assert [] + ys == ys;
    KeptIn(xs, VALID, x);
    HasItsKey(ys, x);
    DedupedMeaning(ys, x.key);
    LastValueIs(ys, x.key);
    LastValueIs(Deduped(ys), x.key);
  }

  lemma HasItsKey(s: seq<KeyValue>, x: KeyValue)
    requires x in s
    ensures HasKey(s, x.key)
  {
  }

  lemma SameKeysOf(a: seq<KeyValue>, b: seq<KeyValue>, k: Key)
    requires KeysOf(a) == KeysOf(b)
    ensures HasKey(a, k) <==> HasKey(b, k)
  {
    KeyOfKeys(a, k);
    KeyOfKeys(b, k);
  }

  lemma HasKeySnoc(s: seq<KeyValue>, a: KeyValue, k: Key)
    ensures HasKey(s + [a], k) <==> HasKey(s, k) || a.key == k
  {
    if HasKey(s, k) {
      var i :| 0 <= i < |s| && s[i].key == k;
      assert (s + [a])[i].key == k;
    }
    assert (s + [a])[|s|] == a;
  }

  /** The count of dropped attributes is of those that are invalid or whose key is not kept; updates do not count. */
  lemma {:induction false} DroppedIsLost(xs: seq<KeyValue>, cap: Option<nat>)
    ensures EagerAll(EMPTY, xs, cap).dropped == Lost(xs, EagerAll(EMPTY, xs, cap).attrs)
  {
    if xs != [] {
      var front, x := xs[..|xs| - 1], xs[|xs| - 1];
      var v, w := EagerAll(EMPTY, front, cap), EagerAll(EMPTY, xs, cap);
      DroppedIsLost(front, cap);
      EagerIsCapped(EMPTY, front, cap);
      PutIs(v.attrs, x);
      forall y | y in front && y.Valid()
        ensures HasKey(v.attrs, y.key) <==> HasKey(w.attrs, y.key)
      {
        if x.Valid() && HasKey(v.attrs, x.key) {
          SameKeysOf(v.attrs, w.attrs, y.key);
        } else if x.Valid() && !Full(v.attrs, cap) {
          HasKeySnoc(v.attrs, x, y.key);
          AllTaken(front, cap, y);
        }
      }
      LostSame(front, v.attrs, w.attrs);
      if x.Valid() {
        if HasKey(v.attrs, x.key) {
          SameKeysOf(v.attrs, w.attrs, x.key);
        } else if !Full(v.attrs, cap) {
          HasKeySnoc(v.attrs, x, x.key);
        }
      }
    }
  }

  /**
   What a span shows after any run: of the keys of the valid attributes set before its end, in the order of their first
   use, as many as the limit allows, each with the value set last; the dropped attributes are the others.
   */
  lemma RunShows(ops: seq<Op>, limit: int)
    ensures var xs, v := Given(ops, limit), Observed(LazyRun(ops, limit).span);
      var ys := Kept(xs, VALID);
      && UniqueKeys(v.attrs)
      && KeysOf(v.attrs) == FirstKeys(ys)[..Cut(0, |FirstKeys(ys)|, CapOf(limit))]
      && (forall kv :: kv in v.attrs ==> LastValue(ys, kv.key) == Some(kv.value))
      && v.dropped == Lost(xs, v.attrs)
  {
    var xs := Given(ops, limit);
    var ys := Kept(xs, VALID);
    RunIsEager(ops, limit);
    RunIsOneSet(ops, limit);
    EagerIsCapped(EMPTY, xs, CapOf(limit));
    CappedKeys([], ys, CapOf(limit));
    DroppedIsLost(xs, CapOf(limit));
    assert [] + ys == ys;
    forall kv | kv in CappedAll([], ys, CapOf(limit))
      ensures LastValue(ys, kv.key) == Some(kv.value)
    {
      CappedValue([], ys, CapOf(limit), kv);
    }
  }
}

module SpanAttributes {
  import opened Prelude
  import opened Attributes
  import opened OrderedAttributes
  import opened SpanAttributesSpec

  class RecordingSpan {
    const limit: int
    /** The attributes are the first `len` elements of an array, as in a slice. */
    var store: array<KeyValue>
    var len: nat
    var droppedAttributes: nat
    var ended: bool

    ghost predicate Shape()
      reads this
    {
      len <= store.Length
    }

    ghost function Stored(): Span
      requires Shape()
      reads this, store
    {
      Span(store[..len], droppedAttributes)
    }

    ghost predicate Valid()
      reads this, store
    {
      Shape() && Within(Stored(), limit)
    }

    ghost function State(): Recording
      requires Shape()
      reads this, store
    {
      Recording(Stored(), ended)
    }

    constructor (limit: int)
      ensures Valid() && State() == STARTED && fresh(store) && this.limit == limit
    {
      this.limit := limit;
      store := new KeyValue[0];
      len, droppedAttributes, ended := 0, 0, false;
    }

    /** slices.Grow: makes room for `n` more attributes, in a new array if the old one is too short. */
    method Grow(n: nat)
      requires Shape()
      modifies `store
      ensures Shape() && Stored() == old(Stored()) && len + n <= store.Length
      ensures store == old(store) || fresh(store)
    {
      if store.Length < len + n {
        var filler := KeyValue("", Invalid);
        var longer := new KeyValue[len + n](_ => filler);
        forall i | 0 <= i < len {
          longer[i] := store[i];
        }
        assert longer[..len] == store[..len];
        store := longer;
      }
    }

    method Append(a: KeyValue)
      requires Shape() && len < store.Length
      modifies `len, store
      ensures Shape() && Stored() == Span(old(Stored()).attrs + [a], droppedAttributes)
    {
      store[len] := a;
      len := len + 1;
    }

    method SetAttributes(attributes: seq<KeyValue>)
      requires Valid()
      modifies this, store
      ensures Valid() && State() == LazyStep(old(State()), SetOp(attributes), limit)
      ensures store == old(store) || fresh(store)
    {
      if ended {
        return;
      }
      LazySetIsEager(Stored(), attributes, limit);
      if limit == 0 {
        droppedAttributes := droppedAttributes + |attributes|;
        return;
      }
      if limit > 0 && len + |attributes| > limit {
        AddOverCapAttrs(attributes);
        return;
      }
      ghost var l := Stored();
      Grow(len + |attributes|);
      var i := 0;
      while i < |attributes|
        invariant i <= |attributes| && Shape() && len + (|attributes| - i) <= store.Length
        invariant store == old(store) || fresh(store)
        invariant Stored() == SpanAttributesSpec.Stored(l, attributes[..i])
        invariant !ended
      {
        var a := attributes[i];
        StoredNext(l, attributes, i);
        if !a.Valid() {
          droppedAttributes := droppedAttributes + 1;
        } else {
          Append(a);
        }
        i := i + 1;
      }
      assert attributes[..|attributes|] == attributes;
    }

    /** Adds attributes one by one to the de-duplicated ones, dropping new keys at the limit. */
    method AddOverCapAttrs(attrs: seq<KeyValue>)
      requires Valid() && limit > 0
      modifies `store, `len, `droppedAttributes, store
      ensures Shape() && Stored() == EagerAll(Observed(old(Stored())), attrs, CapOf(limit))
      ensures store == old(store) || fresh(store)
    {
      var index := DedupeAttrsFromRecord();
      var sum := |attrs| + len;
      Grow(Min(sum, limit));
      ghost var v := Stored();
      DedupedUnique(old(Stored()).attrs);
      var i := 0;
      while i < |attrs|
        invariant i <= |attrs| && Shape()
        invariant len + Min(|attrs| - i, limit - len) <= store.Length
        invariant store == old(store) || fresh(store)
        invariant Stored() == EagerAll(v, attrs[..i], CapOf(limit))
        invariant Indexes(index, Stored().attrs)
      {
        assert attrs[..i + 1][..i] == attrs[..i];
        index := AddOne(attrs[i], index);
        i := i + 1;
      }
      assert attrs[..|attrs|] == attrs;
    }

    /** One round of that loop. */
    method AddOne(a: KeyValue, index: map<Key, nat>) returns (index': map<Key, nat>)
      requires Shape() && Indexes(index, Stored().attrs)
      requires limit > 0 && (len < limit ==> len < store.Length)
      modifies `len, `droppedAttributes, store
      ensures Shape() && Stored() == EagerOne(old(Stored()), a, CapOf(limit))
      ensures old(len) <= len <= old(len) + 1 && Indexes(index', Stored().attrs)
    {
      index' := index;
      ghost var s := Stored().attrs;
      if !a.Valid() {
        droppedAttributes := droppedAttributes + 1;
        return;
      }
      IndexFinds(index, s, a.key);
      if a.key in index {
        IndexReplace(index, s, a);
        store[index[a.key]] := a;
        assert Stored().attrs == s[index[a.key] := a];
        return;
      }
      if len >= limit {
        droppedAttributes := droppedAttributes + 1;
      } else {
        IndexExtend(index, s, a);
        Append(a);
        index' := index[a.key := len - 1];
      }
    }

    method DedupeAttrsFromRecord() returns (record: map<Key, nat>)
      requires Valid()
      modifies `len, store
      ensures Valid() && Stored() == Observed(old(Stored())) && Indexes(record, Stored().attrs)
    {
      var m;
      m, record := DedupInPlace(store, len);
      len := m;
    }

    method Attributes() returns (attrs: seq<KeyValue>)
      requires Valid()
      modifies `len, store
      ensures Valid() && State() == LazyStep(old(State()), ReadOp, limit)
      ensures attrs == Observed(old(Stored())).attrs
    {
      var record := DedupeAttrsFromRecord();
      attrs := store[..len];
    }

    method End()
      requires Valid()
      modifies `ended
      ensures Valid() && State() == LazyStep(old(State()), EndOp, limit)
    {
      ended := true;
    }

    /** The attribute part of snapshot, which is what exporters see. */
    method Snapshot() returns (attrs: seq<KeyValue>, dropped: nat)
      requires Valid()
      modifies `len, store
      ensures Valid() && State() == LazyStep(old(State()), ReadOp, limit)
      ensures Span(attrs, dropped) == Observed(old(Stored()))
    {
      attrs := [];
      if len > 0 {
        attrs := Attributes();
      }
      dropped := droppedAttributes;
      assert len == 0 ==> store[..len] == [];
    }
  }
}

/** The attribute storage of log records (sdk/log/record.go), with the limit on value lengths switched off. */
module LogRecordSpec {
  import opened Prelude
  import opened Attributes
  import opened OrderedAttributes

  /** What a record shows: its attributes in the order they are walked, and the count of dropped ones. */
  datatype View = View(attrs: seq<KeyValue>, dropped: int)

  /** Zero and negative count limits are no limit. */
  function CapOf(attributeCountLimit: int): Option<nat> {
    if attributeCountLimit > 0 then Some(attributeCountLimit) else None
  }

  /** One attribute is added: it replaces the one with its key, is refused by a full record, or comes last. */
  function AddOne(v: View, kv: KeyValue, cap: Option<nat>): View {
    if HasKey(v.attrs, kv.key) then View(Put(v.attrs, kv), v.dropped + 1)
    else if Full(v.attrs, cap) then View(v.attrs, v.dropped + 1)
    else View(v.attrs + [kv], v.dropped)
  }

  function AddAll(v: View, xs: seq<KeyValue>, cap: Option<nat>): View {
    if xs == [] then v else AddOne(AddAll(v, xs[..|xs| - 1], cap), xs[|xs| - 1], cap)
  }

  const EMPTY: View := View([], 0)

  /** Adding to a record without attributes starts the count of dropped attributes again. */
  function Base(v: View): View {
    if v.attrs == [] then EMPTY else v
  }

  function Added(v: View, xs: seq<KeyValue>, cap: Option<nat>): View {
    AddAll(Base(v), xs, cap)
  }

  lemma {:induction false} AddAllIs(v: View, xs: seq<KeyValue>, cap: Option<nat>)
    requires UniqueKeys(v.attrs)
    ensures AddAll(v, xs, cap).attrs == CappedAll(v.attrs, xs, cap)
    ensures |AddAll(v, xs, cap).attrs| + AddAll(v, xs, cap).dropped == |v.attrs| + v.dropped + |xs|
  {
    if xs != [] {
      var front := xs[..|xs| - 1];
      AddAllIs(v, front, cap);
      CappedIsPrefix(v.attrs, front, cap);
      PutIs(CappedAll(v.attrs, front, cap), xs[|xs| - 1]);
      KeysOfAt(CappedAll(v.attrs, front, cap));
      KeysOfAt(CappedAll(v.attrs, xs, cap));
    }
  }

  lemma {:induction false} AddAllConcat(v: View, xs: seq<KeyValue>, ys: seq<KeyValue>, cap: Option<nat>)
    ensures AddAll(v, xs + ys, cap) == AddAll(AddAll(v, xs, cap), ys, cap)
  {
    if ys == [] {
      assert xs + ys == xs;
    } else {
      assert (xs + ys)[..|xs + ys| - 1] == xs + ys[..|ys| - 1];
      AddAllConcat(v, xs, ys[..|ys| - 1], cap);
    }
  }

  /** Adding lists of attributes together or one list after the other shows the same, for every limit and record. */
  lemma AddSplit(v: View, xs: seq<KeyValue>, ys: seq<KeyValue>, cap: Option<nat>)
    requires UniqueKeys(v.attrs) && (cap.Some? ==> cap.value > 0)
    ensures Added(v, xs + ys, cap) == Added(Added(v, xs, cap), ys, cap)
  {
    AddAllConcat(Base(v), xs, ys, cap);
    if xs != [] {
      AddAllIs(Base(v), xs, cap);
      CappedIsPrefix(Base(v).attrs, xs, cap);
      assert Added(v, xs, cap).attrs != [];
    }
  }

  /**
   What a record holds after an addition: of the keys of its attributes and the added ones, in the order of their first
   use, as many as the limit allows (but all that were there), each with the value given last; what was supplied is
   held or counted as dropped.
   */
  lemma RecordHolds(v: View, xs: seq<KeyValue>, limit: int)
    requires UniqueKeys(v.attrs)
    ensures var keys, w := FirstKeys(v.attrs + xs), Added(v, xs, CapOf(limit));
      && UniqueKeys(w.attrs)
      && |v.attrs| <= |keys| && KeysOf(w.attrs) == keys[..Cut(|v.attrs|, |keys|, CapOf(limit))]
      && (forall kv :: kv in w.attrs ==> LastValue(v.attrs + xs, kv.key) == Some(kv.value))
      && |w.attrs| + w.dropped == |xs| + if v.attrs == [] then 0 else |v.attrs| + v.dropped
  {
    AddAllIs(Base(v), xs, CapOf(limit));
    CappedIsPrefix(v.attrs, xs, CapOf(limit));
    CappedKeys(v.attrs, xs, CapOf(limit));
    forall kv | kv in CappedAll(v.attrs, xs, CapOf(limit))
      ensures LastValue(v.attrs + xs, kv.key) == Some(kv.value)
    {
      CappedValue(v.attrs, xs, CapOf(limit), kv);
    }
  }

  // ----- runs -----

  datatype Op = AddOp(attrs: seq<KeyValue>) | SetOp(attrs: seq<KeyValue>)

  function After(v: View, op: Op, cap: Option<nat>): View {
    if op.AddOp? then Added(v, op.attrs, cap) else AddAll(EMPTY, op.attrs, cap)
  }

  function Run(v: View, ops: seq<Op>, cap: Option<nat>): View {
    if ops == [] then v else After(Run(v, ops[..|ops| - 1], cap), ops[|ops| - 1], cap)
  }

  /** The attributes supplied since the record was last set, or added to when it had none. */
  function Supplied(v: View, ops: seq<Op>, cap: Option<nat>): seq<KeyValue> {
    if ops == [] then []
    else
      var op, before := ops[|ops| - 1], ops[..|ops| - 1];
      if op.SetOp? || Run(v, before, cap).attrs == [] then op.attrs
      else Supplied(v, before, cap) + op.attrs
  }

  /**
   However attributes are added and set, the record is that of everything supplied since it was last empty, at once.
   */
  lemma {:induction false} RunIsOneAddition(ops: seq<Op>, cap: Option<nat>)
    requires cap.Some? ==> cap.value > 0
    ensures Run(EMPTY, ops, cap) == AddAll(EMPTY, Supplied(EMPTY, ops, cap), cap)
  {
    if ops != [] {
      var op, before := ops[|ops| - 1], ops[..|ops| - 1];
      RunIsOneAddition(before, cap);
      AddAllConcat(EMPTY, Supplied(EMPTY, before, cap), op.attrs, cap);
    }
  }

  /**
   Over every run keys stay unique, the limit is kept, and length plus dropped is the number of attributes supplied.
   */
  lemma RunKeeps(ops: seq<Op>, limit: int)
    ensures var v := Run(EMPTY, ops, CapOf(limit));
      && UniqueKeys(v.attrs)
      && (limit > 0 ==> |v.attrs| <= limit)
      && |v.attrs| + v.dropped == |Supplied(EMPTY, ops, CapOf(limit))|
  {
    var xs := Supplied(EMPTY, ops, CapOf(limit));
    RunIsOneAddition(ops, CapOf(limit));
    AddAllIs(EMPTY, xs, CapOf(limit));
    CappedIsPrefix([], xs, CapOf(limit));
  }
}

module LogRecord {
  import opened Prelude
  import opened Attributes
  import opened OrderedAttributes
  import opened LogRecordSpec

  const INLINE_COUNT := 5

  /** head: the first `n` of `m` attributes, all of them if there is no limit; and how many are cut off. */
  function Head(m: nat, n: int): (int, int) {
    if n > 0 && m > n then (n, m - n) else (m, 0)
  }

  /** The place in the walk that a signed index stands for: negative ones are places in front. */
  function Place(idx: int, nFront: nat): int {
    if idx < 0 then -(idx + 1) else nFront + idx
  }

  ghost predicate PlacedAt(idx: int, nFront: nat, s: seq<KeyValue>, k: Key) {
    && (idx < 0 ==> -(idx + 1) < nFront)
    && Place(idx, nFront) < |s| && s[Place(idx, nFront)].key == k
  }

  /** `index` finds every key of the walk `s`, the first `nFront` attributes of which are in front. */
  ghost predicate SignedIndex(index: map<Key, int>, nFront: nat, s: seq<KeyValue>) {
    && nFront <= |s|
    && (forall k :: k in index ==> PlacedAt(index[k], nFront, s, k))
    && (forall i :: 0 <= i < |s| ==> s[i].key in index)
  }

  lemma SignedFinds(index: map<Key, int>, nFront: nat, s: seq<KeyValue>, k: Key)
    requires SignedIndex(index, nFront, s)
    ensures k in index <==> HasKey(s, k)
  {
    if k in index {
      assert PlacedAt(index[k], nFront, s, k);
    }
  }

  lemma SignedReplace(index: map<Key, int>, nFront: nat, s: seq<KeyValue>, kv: KeyValue)
    requires SignedIndex(index, nFront, s) && UniqueKeys(s) && kv.key in index
    ensures PlacedAt(index[kv.key], nFront, s, kv.key)
    ensures Put(s, kv) == s[Place(index[kv.key], nFront) := kv]
    ensures SignedIndex(index, nFront, Put(s, kv))
  {
    assert PlacedAt(index[kv.key], nFront, s, kv.key);
    PutAt(s, Place(index[kv.key], nFront), kv);
    forall k | k in index
      ensures PlacedAt(index[k], nFront, Put(s, kv), k)
    {
      assert PlacedAt(index[k], nFront, s, k);
    }
  }

  /** An attribute that belongs to the record already, `s`, or to the ones to add, `t`, or is new. */
  lemma {:induction false} PutConcat(s: seq<KeyValue>, t: seq<KeyValue>, kv: KeyValue)
    ensures HasKey(s, kv.key) ==> Put(s + t, kv) == Put(s, kv) + t && |Put(s, kv)| == |s|
    ensures !HasKey(s, kv.key) ==> Put(s + t, kv) == s + Put(t, kv)
  {
    if s == [] {
      assert s + t == t && s + Put(t, kv) == Put(t, kv);
    } else {
      var head, rest := s[0], s[1..];
      KeyInRest(s, kv.key);
      PutConcat(rest, t, kv);
      assert (s + t)[0] == head && (s + t)[1..] == rest + t;
      if head.key == kv.key {
        ConsConcat(kv, rest, t);
      } else {
        ConsConcat(head, Put(rest, kv), t);
        ConsConcat(head, rest, Put(t, kv));
        assert s == [head] + rest;
      }
    }
  }

  lemma ConsConcat(x: KeyValue, s: seq<KeyValue>, t: seq<KeyValue>)
    ensures [x] + (s + t) == ([x] + s) + t
  {
  }

  lemma KeyInRest(s: seq<KeyValue>, k: Key)
    requires s != []
    ensures HasKey(s, k) <==> s[0].key == k || HasKey(s[1..], k)
  {
    if HasKey(s, k) && s[0].key != k {
      var i :| 0 <= i < |s| && s[i].key == k;
      assert s[1..][i - 1].key == k;
    }
    if HasKey(s[1..], k) {
      var i :| 0 <= i < |s[1..]| && s[1..][i].key == k;
      assert s[1 + i].key == k;
    }
  }

  lemma UniqueParts(s: seq<KeyValue>, t: seq<KeyValue>, k: Key)
    requires UniqueKeys(s + t)
    ensures UniqueKeys(s) && UniqueKeys(t)
    ensures HasKey(t, k) ==> !HasKey(s, k)
  {
    assert forall i :: 0 <= i < |s| ==> (s + t)[i] == s[i];
    assert forall i :: 0 <= i < |t| ==> (s + t)[|s| + i] == t[i];
  }

  class Record {
    const front: array<KeyValue>
    var nFront: nat
    var back: seq<KeyValue>
    var dropped: int
    const attributeCountLimit: int

    /** A non-empty back implies a full front. */
    ghost predicate Shape()
      reads this
    {
      front.Length == INLINE_COUNT && nFront <= INLINE_COUNT && (back != [] ==> nFront == INLINE_COUNT)
    }

    ghost function Walked(): seq<KeyValue>
      requires Shape()
      reads this, front
    {
      front[..nFront] + back
    }

    ghost predicate Valid()
      reads this, front
    {
      Shape() && UniqueKeys(Walked())
    }

    ghost function Shown(): View
      requires Shape()
      reads this, front
    {
      View(Walked(), dropped)
    }

    constructor (attributeCountLimit: int)
      ensures Valid() && Shown() == EMPTY && fresh(front)
      ensures this.attributeCountLimit == attributeCountLimit
    {
      this.attributeCountLimit := attributeCountLimit;
      front := new KeyValue[INLINE_COUNT](_ => KeyValue("", Invalid));
      nFront, back, dropped := 0, [], 0;
    }

    function AttributesLen(): (n: nat)
      requires Shape()
      reads this, front
      ensures n == |Walked()|
    {
      nFront + |back|
    }

    /**
     WalkAttributes: the attributes the callback is called with, in order.  Its answer may depend on what happened
     before, so it is given by the number of the call; the first call that is answered with false is the last one.
     */
    method WalkAttributes(answers: nat -> bool) returns (walked: seq<KeyValue>)
      requires Shape()
      ensures walked <= Walked()
      ensures forall i :: 0 <= i < |walked| - 1 ==> answers(i)
      ensures walked == Walked() || (walked != [] && !answers(|walked| - 1))
    {
      walked := [];
      for i := 0 to nFront
        invariant walked == front[..i]
        invariant forall j :: 0 <= j < i ==> answers(j)
      {
        walked := walked + [front[i]];
        if !answers(i) {
          return;
        }
      }
      for i := 0 to |back|
        invariant walked == front[..nFront] + back[..i]
        invariant forall j :: 0 <= j < nFront + i ==> answers(j)
      {
        walked := walked + [back[i]];
        if !answers(nFront + i) {
          return;
        }
      }
      assert back[..|back|] == back;
    }

    method AttrIndex() returns (index: map<Key, int>)
      requires Valid()
      ensures SignedIndex(index, nFront, Walked())
    {
      index := map[];
      ghost var w := Walked();
      for i := 0 to nFront
        invariant forall k :: k in index ==> PlacedAt(index[k], nFront, w, k)
        invariant forall j :: 0 <= j < i ==> w[j].key in index
      {
        assert PlacedAt(-i - 1, nFront, w, w[i].key);
        index := index[front[i].key := -i - 1];
      }
      for i := 0 to |back|
        invariant forall k :: k in index ==> PlacedAt(index[k], nFront, w, k)
        invariant forall j :: 0 <= j < nFront + i ==> w[j].key in index
      {
        assert PlacedAt(i, nFront, w, w[nFront + i].key);
        index := index[back[i].key := i];
      }
    }

    /** Stores `a` in place of the attribute at a signed index. */
    method Overwrite(idx: int, a: KeyValue)
      requires Shape() && (if idx < 0 then -(idx + 1) < nFront else idx < |back|)
      modifies `back, front
      ensures Shape() && Walked() == old(Walked())[Place(idx, nFront) := a]
    {
      if idx < 0 {
        front[-(idx + 1)] := a;
      } else {
        back := back[idx := a];
      }
    }

    /** The first `m` attributes of `attrs` go to the front while there is room, then to the back. */
    method AddAttrs(attrs: array<KeyValue>, m: nat)
      requires Shape() && m <= attrs.Length && attrs != front
      modifies `nFront, `back, front
      ensures Shape() && Walked() == old(Walked()) + attrs[..m]
    {
      var i := 0;
      ghost var w := Walked();
      while i < m && nFront < front.Length
        invariant Shape() && i <= m
        invariant i > 0 ==> back == []
        invariant nFront < front.Length ==> back == []
        invariant Walked() == w + attrs[..i]
      {
        AddToFront(attrs[i]);
        Regroup(w, attrs[..i], [attrs[i]]);
        assert attrs[..i + 1] == attrs[..i] + [attrs[i]];
        i := i + 1;
      }
      assert attrs[..m] == attrs[..i] + attrs[i..m];
      Regroup(front[..nFront], back, attrs[i..m]);
      Regroup(w, attrs[..i], attrs[i..m]);
      back := back + attrs[i..m];
    }

    method AddToFront(a: KeyValue)
      requires Shape() && nFront < front.Length
      modifies `nFront, front
      ensures Shape() && nFront == old(nFront) + 1 && Walked() == old(Walked()) + [a]
    {
      front[nFront] := a;
      nFront := nFront + 1;
      assert front[..nFront] == old(front[..nFront]) + [a];
      assert Walked() == front[..nFront];
    }

    /** What SetAttributes does, and AddAttributes on a record without attributes. */
    method Fill(attrs: array<KeyValue>)
      requires Shape() && Walked() == [] && attrs != front
      modifies `nFront, `back, `dropped, front, attrs
      ensures Valid() && Shown() == AddAll(EMPTY, old(attrs[..]), CapOf(attributeCountLimit))
    {
      ghost var given := attrs[..];
      assert attrs[..attrs.Length] == given;
      var m, index := DedupInPlace(attrs, attrs.Length);
      dropped := attrs.Length - m;
      ghost var unique := attrs[..m];
      AddToEmpty(given, unique, attributeCountLimit);
      var n, cut := Head(m, attributeCountLimit).0, Head(m, attributeCountLimit).1;
      dropped := dropped + cut;
      assert attrs[..n] == unique[..n];
      AddAttrs(attrs, n);
      assert [] + unique[..n] == unique[..n];
    }

    /** SetAttributes replaces everything the record held. */
    method SetAttributes(attrs: array<KeyValue>)
      requires Valid() && attrs != front
      modifies `nFront, `back, `dropped, front, attrs
      ensures Valid() && Shown() == AddAll(EMPTY, old(attrs[..]), CapOf(attributeCountLimit))
    {
      nFront := 0;
      back := [];
      Fill(attrs);
    }

    /** AddAttributes adds the attributes one after the other, the first to a new count if the record had none. */
    method AddAttributes(attrs: array<KeyValue>)
      requires Valid() && attrs != front
      modifies `nFront, `back, `dropped, front, attrs
      ensures Valid() && Shown() == Added(old(Shown()), old(attrs[..]), CapOf(attributeCountLimit))
    {
      var n := AttributesLen();
      if n == 0 {
        Fill(attrs);
      } else {
        AddToSome(attrs, n);
      }
    }

    /** AddAttributes on a record with `n` attributes. */
    method AddToSome(attrs: array<KeyValue>, n: nat)
      requires Valid() && attrs != front && n == |Walked()|
      modifies `nFront, `back, `dropped, front, attrs
      ensures Valid() && Shown() == AddAll(old(Shown()), old(attrs[..]), CapOf(attributeCountLimit))
    {
      ghost var v, given := Shown(), attrs[..];
      var m := Merge(attrs);
      ghost var s, unique := Walked(), attrs[..m];
      ghost var w := AddToRecord(v, given, s, unique, attributeCountLimit);
      if attributeCountLimit > 0 && n + m > attributeCountLimit {
        var last := Max(0, attributeCountLimit - n);
        dropped := dropped + (m - last);
        m := last;
      }
      assert attrs[..m] == unique[..m];
      AddAttrs(attrs, m);
      assert Shown() == w;
    }

    /**
     The loop of AddAttributes: attributes whose key the record has are stored in it; the `m` others, without
     duplicates, are left at the front of `attrs`.
     */
    method Merge(attrs: array<KeyValue>) returns (m: nat)
      requires Valid() && attrs != front
      modifies `back, `dropped, front, attrs
      ensures Shape() && m <= attrs.Length && |Walked()| == |old(Walked())|
      ensures Walked() + attrs[..m] == CappedAll(old(Walked()), old(attrs[..]), None)
      ensures dropped == old(dropped) + attrs.Length - m
    {
      var rIndex := AttrIndex();
      var uIndex: map<Key, nat> := map[];
      ghost var w, given := Walked(), attrs[..];
      ghost var unique: seq<KeyValue> := [];
      m := 0;
      var i := 0;
      while i < attrs.Length
        invariant m == |unique| <= i <= attrs.Length
        invariant Shape() && SignedIndex(rIndex, nFront, Walked()) && |Walked()| == |w|
        invariant attrs[..m] == unique && attrs[i..] == given[i..]
        invariant Indexes(uIndex, unique)
        invariant Combined(w, given, i, Walked(), unique)
        invariant dropped == old(dropped) + i - m
      {
        assert attrs[i..][0] == given[i];
        m, uIndex, unique := MergeOne(attrs, i, m, rIndex, uIndex, w, given, unique);
        i := i + 1;
      }
      assert given[..attrs.Length] == given;
    }

    /** The branch of that loop for keys the record has. */
    method Update(rIndex: map<Key, int>, a: KeyValue)
      requires Shape() && SignedIndex(rIndex, nFront, Walked()) && UniqueKeys(Walked()) && a.key in rIndex
      modifies `back, `dropped, front
      ensures Shape() && Walked() == Put(old(Walked()), a) && SignedIndex(rIndex, nFront, Walked())
      ensures dropped == old(dropped) + 1
    {
      SignedReplace(rIndex, nFront, Walked(), a);
      dropped := dropped + 1;
      Overwrite(rIndex[a.key], a);
    }

    /** One round of that loop. */
    method MergeOne(attrs: array<KeyValue>, i: nat, m: nat, rIndex: map<Key, int>, uIndex: map<Key, nat>,
                    ghost w: seq<KeyValue>, ghost given: seq<KeyValue>, ghost unique: seq<KeyValue>)
      returns (m': nat, uIndex': map<Key, nat>, ghost unique': seq<KeyValue>)
      requires Shape() && attrs != front
      requires m == |unique| <= i < attrs.Length == |given| && attrs[i] == given[i]
      requires attrs[..m] == unique && attrs[i..] == given[i..]
      requires SignedIndex(rIndex, nFront, Walked()) && Indexes(uIndex, unique)
      requires Combined(w, given, i, Walked(), unique)
      modifies `back, `dropped, front, attrs
      ensures Shape() && |Walked()| == |old(Walked())|
      ensures m' == |unique'| <= i + 1 && attrs[..m'] == unique' && attrs[i + 1..] == given[i + 1..]
      ensures SignedIndex(rIndex, nFront, Walked()) && Indexes(uIndex', unique')
      ensures Combined(w, given, i + 1, Walked(), unique')
      ensures dropped - old(dropped) == m + 1 - m'
    {
      var a := attrs[i];
      ghost var s := Walked();
      assert attrs[i + 1..] == attrs[i..][1..] == given[i..][1..] == given[i + 1..];
      m', uIndex', unique' := m, uIndex, unique;
      CombinedStep(w, given, i, s, unique);
      IndexFinds(uIndex, unique, a.key);
      SignedFinds(rIndex, nFront, s, a.key);
      if a.key in uIndex {
        dropped := dropped + 1;
        m', uIndex', unique' := Keep(attrs, i, m, uIndex, unique);
      } else if a.key in rIndex {
        Update(rIndex, a);
      } else {
        m', uIndex', unique' := Keep(attrs, i, m, uIndex, unique);
      }
    }

    /** A copy that shares nothing with the record. */
    method Clone() returns (res: Record)
      requires Valid()
      ensures fresh(res) && fresh(res.front) && res.Valid() && res.Shown() == Shown()
      ensures res.attributeCountLimit == attributeCountLimit
    {
      res := new Record(attributeCountLimit);
      for i := 0 to INLINE_COUNT
        invariant fresh(res) && fresh(res.front) && res.front.Length == INLINE_COUNT
        invariant res.back == [] && res.nFront == 0
        invariant res.attributeCountLimit == attributeCountLimit
        invariant forall j :: 0 <= j < i ==> res.front[j] == front[j]
      {
        res.front[i] := front[i];
      }
      res.nFront, res.back, res.dropped := nFront, back, dropped;
      assert res.front[..nFront] == front[..nFront];
    }
  }

  /**
   Part of the loop invariant of Merge: the record `s` and the attributes to add are those of the first `i` additions.
   */
  ghost predicate Combined(w: seq<KeyValue>, given: seq<KeyValue>, i: nat, s: seq<KeyValue>, unique: seq<KeyValue>) {
    && i <= |given|
    && UniqueKeys(s + unique)
    && s + unique == CappedAll(w, given[..i], None)
  }

  lemma CombinedStep(w: seq<KeyValue>, given: seq<KeyValue>, i: nat, s: seq<KeyValue>, unique: seq<KeyValue>)
    requires i < |given| && Combined(w, given, i, s, unique)
    ensures UniqueKeys(s) && UniqueKeys(unique)
    ensures HasKey(unique, given[i].key) ==> !HasKey(s, given[i].key)
    ensures HasKey(s, given[i].key) ==>
              Combined(w, given, i + 1, Put(s, given[i]), unique) && |Put(s, given[i])| == |s|
    ensures !HasKey(s, given[i].key) ==> Combined(w, given, i + 1, s, Put(unique, given[i]))
  {
    assert given[..i + 1][..i] == given[..i];
    PutIs(s + unique, given[i]);
    PutConcat(s, unique, given[i]);
    UniqueParts(s, unique, given[i].key);
  }

  /** Attribute number `i` replaces the one with its key among the first `m`, or is put behind them. */
  method Keep(attrs: array<KeyValue>, i: nat, m: nat, uIndex: map<Key, nat>, ghost unique: seq<KeyValue>)
    returns (m': nat, uIndex': map<Key, nat>, ghost unique': seq<KeyValue>)
    requires m == |unique| <= i < attrs.Length && attrs[..m] == unique
    requires Indexes(uIndex, unique) && UniqueKeys(unique)
    modifies attrs
    ensures unique' == Put(unique, old(attrs[i])) && m' == |unique'| <= i + 1 && attrs[..m'] == unique'
    ensures m' == if old(attrs[i]).key in uIndex then m else m + 1
    ensures Indexes(uIndex', unique') && attrs[i + 1..] == old(attrs[i + 1..])
  {
    var a := attrs[i];
    unique' := Put(unique, a);
    IndexFinds(uIndex, unique, a.key);
    if a.key in uIndex {
      IndexReplace(uIndex, unique, a);
      attrs[uIndex[a.key]] := a;
      m', uIndex' := m, uIndex;
    } else {
      IndexExtend(uIndex, unique, a);
      attrs[m] := a;
      m', uIndex' := m + 1, uIndex[a.key := m];
    }
  }

  /** Why de-duplicating and cutting is adding one after the other, to a record without attributes. */
  lemma AddToEmpty(given: seq<KeyValue>, unique: seq<KeyValue>, limit: int)
    requires unique == Deduped(given)
    ensures var (m, cut) := Head(|unique|, limit);
      && UniqueKeys(unique[..m])
      && AddAll(EMPTY, given, CapOf(limit)) == View(unique[..m], |given| - |unique| + cut)
  {
    AddAllIs(EMPTY, given, CapOf(limit));
    CappedIsPrefix([], given, CapOf(limit));
    DedupedAppend([], given);
    assert [] + given == given;
  }

  /** How many of `m` new attributes a record with `n` attributes takes. */
  function Room(n: nat, m: nat, limit: int): nat {
    if limit > 0 && n + m > limit then Max(0, limit - n) else m
  }

  lemma AddToRecord(v: View, given: seq<KeyValue>, s: seq<KeyValue>, unique: seq<KeyValue>, limit: int)
    returns (w: View)
    requires UniqueKeys(v.attrs) && |s| == |v.attrs| && s + unique == CappedAll(v.attrs, given, None)
    ensures var m := Room(|s|, |unique|, limit); w == View(s + unique[..m], v.dropped + |given| - m)
    ensures w == AddAll(v, given, CapOf(limit)) && UniqueKeys(w.attrs)
  {
    var m := Room(|s|, |unique|, limit);
    w := View(s + unique[..m], v.dropped + |given| - m);
    AddAllIs(v, given, CapOf(limit));
    CappedIsPrefix(v.attrs, given, CapOf(limit));
    CutIsRoom(s, unique, limit);
  }

  lemma CutIsRoom(s: seq<KeyValue>, t: seq<KeyValue>, limit: int)
    ensures (s + t)[..Cut(|s|, |s + t|, CapOf(limit))] == s + t[..Room(|s|, |t|, limit)]
  {
  }

  /** A logger copies the attributes of an API record one at a time; the result is that of setting all of them. */
  method CopyOneByOne(attrs: seq<KeyValue>, attributeCountLimit: int) returns (r: Record)
    ensures fresh(r) && r.Valid()
    ensures r.Shown() == AddAll(EMPTY, attrs, CapOf(attributeCountLimit))
  {
    r := new Record(attributeCountLimit);
    var cap := CapOf(attributeCountLimit);
    for i := 0 to |attrs|
      invariant fresh(r) && fresh(r.front) && r.Valid() && r.attributeCountLimit == attributeCountLimit
      invariant r.Shown() == Added(EMPTY, attrs[..i], cap)
    {
      var one := new KeyValue[1](_ => attrs[i]);
      assert one[..] == [attrs[i]];
      AddSplit(EMPTY, attrs[..i], [attrs[i]], cap);
      assert attrs[..i + 1] == attrs[..i] + [attrs[i]];
      r.AddAttributes(one);
    }
    assert attrs[..|attrs|] == attrs;
  }

  /**
   The converse of the shape's implication, that the back is not empty when the front is full, is no invariant: it fails
   exactly for records of five attributes.
   */
  lemma ConverseFailsIff(r: Record)
    requires r.Shape()
    ensures !(r.nFront == INLINE_COUNT ==> r.back != []) <==> |r.Walked()| == INLINE_COUNT
  {
  }

  const FIVE: seq<KeyValue> := [KeyValue("a", Opaque(1)), KeyValue("b", Opaque(2)), KeyValue("c", Opaque(3)),
                                KeyValue("d", Opaque(4)), KeyValue("e", Opaque(5))]

  /** Setting five attributes gives such a record, whatever the limit from five on. */
  method FullFrontEmptyBack(attributeCountLimit: int) returns (r: Record)
    requires attributeCountLimit <= 0 || attributeCountLimit >= INLINE_COUNT
    ensures fresh(r) && r.Valid() && r.nFront == INLINE_COUNT && r.back == [] && r.Walked() == FIVE
  {
    r := new Record(attributeCountLimit);
    var attrs := new KeyValue[INLINE_COUNT](i requires 0 <= i < INLINE_COUNT => FIVE[i]);
    assert attrs[..] == FIVE;
    FiveAreKept(attributeCountLimit);
    r.SetAttributes(attrs);
    ConverseFailsIff(r);
  }

  lemma FiveAreKept(limit: int)
    requires limit <= 0 || limit >= INLINE_COUNT
    ensures AddAll(EMPTY, FIVE, CapOf(limit)) == View(FIVE, 0)
  {
    assert UniqueKeys(FIVE);
    DedupedIdempotent(FIVE);
    AddToEmpty(FIVE, FIVE, limit);
    assert FIVE[..5] == FIVE;
  }
}

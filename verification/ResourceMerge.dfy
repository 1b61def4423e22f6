/** Attribute iterators (attribute/iterator.go) and the merging of resources (sdk/resource/resource.go). */
module AttributeIterator {
  import opened Prelude
  import opened Attributes

  const ZERO_ATTRIBUTE: KeyValue := KeyValue("", Invalid)

  class Iterator {
    const storage: seq<KeyValue>
    var idx: int

    constructor (storage: seq<KeyValue>)
      ensures this.storage == storage && idx == -1
    {
      this.storage, idx := storage, -1;
    }

    method Next() returns (more: bool)
      modifies this
      ensures idx == old(idx) + 1 && more == (idx < |storage|)
    {
      idx := idx + 1;
      more := idx < |storage|;
    }

    function Attribute(): KeyValue
      reads this
    {
      if 0 <= idx < |storage| then storage[idx] else ZERO_ATTRIBUTE
    }

    /** All attributes of the set; the iterator is first set back to the beginning. */
    method ToSlice() returns (s: seq<KeyValue>)
      modifies this
      ensures s == storage
    {
      if |storage| == 0 {
        return [];
      }
      idx := -1;
      s := [];
      var more := Next();
      while more
        invariant 0 <= idx <= |storage| && more == (idx < |storage|)
        invariant s == storage[..idx]
        decreases |storage| - idx
      {
        s := s + [Attribute()];
        more := Next();
      }
    }
  }

  class OneIterator {
    const iter: Iterator
    var done: bool
    var attr: KeyValue

    /** What is still to come: the current attribute and everything behind it. */
    ghost function Rest(): seq<KeyValue>
      reads this, iter
    {
      if 0 <= iter.idx < |iter.storage| then iter.storage[iter.idx..] else []
    }

    ghost predicate Valid()
      reads this, iter
    {
      && iter.idx >= 0
      && (done <==> Rest() == [])
      && (!done ==> attr == Rest()[0])
    }

    constructor (iter: Iterator)
      requires iter.idx == -1
      modifies iter
      ensures this.iter == iter && Valid() && Rest() == iter.storage
    {
      this.iter := iter;
      done, attr := false, ZERO_ATTRIBUTE;
      new;
      Advance();
    }

    method Advance()
      requires iter.idx >= -1
      modifies this, iter
      ensures Valid() && iter.idx == old(iter.idx) + 1
      ensures old(Rest()) != [] ==> Rest() == old(Rest())[1..]
    {
      var more := iter.Next();
      done := !more;
      if !done {
        attr := iter.Attribute();
      }
    }
  }

  /** Merging two sorted lists; of attributes with the same key the one of `s` is taken. */
  function Merged(s: seq<KeyValue>, t: seq<KeyValue>): seq<KeyValue>
    decreases |s| + |t|
  {
    if s == [] then t
    else if t == [] then s
    else if s[0].key == t[0].key then [s[0]] + Merged(s[1..], t[1..])
    else if Less(s[0].key, t[0].key) then [s[0]] + Merged(s[1..], t)
    else [t[0]] + Merged(s, t[1..])
  }

  class MergeIterator {
    const one: OneIterator
    const two: OneIterator
    var current: KeyValue

    ghost predicate Valid()
      reads this, one, two, one.iter, two.iter
    {
      && one != two && one.iter != two.iter
      && one.Valid() && two.Valid()
    }

    /** What the iterator is still going to return. */
    ghost function Rest(): seq<KeyValue>
      reads this, one, two, one.iter, two.iter
    {
      Merged(one.Rest(), two.Rest())
    }

    constructor (s1: seq<KeyValue>, s2: seq<KeyValue>)
      ensures Valid() && Rest() == Merged(s1, s2)
      ensures fresh(one) && fresh(two) && fresh(one.iter) && fresh(two.iter)
    {
      var i1 := new Iterator(s1);
      var i2 := new Iterator(s2);
      var o1 := new OneIterator(i1);
      var o2 := new OneIterator(i2);
      one, two, current := o1, o2, ZERO_ATTRIBUTE;
    }

    /** Moves to the next attribute of the merged list, if there is one. */
    method Next() returns (more: bool)
      requires Valid()
      modifies this, one, two, one.iter, two.iter
      ensures Valid()
      ensures more == (old(Rest()) != [])
      ensures more ==> current == old(Rest())[0] && Rest() == old(Rest())[1..]
    {
      if one.done && two.done {
        return false;
      }
      if one.done {
        current := two.attr;
        two.Advance();
        return true;
      }
      if two.done {
        current := one.attr;
        one.Advance();
        return true;
      }
      if one.attr.key == two.attr.key {
        current := one.attr;
        one.Advance();
        two.Advance();
        return true;
      }
      if Less(one.attr.key, two.attr.key) {
        current := one.attr;
        one.Advance();
        return true;
      }
      current := two.attr;
      two.Advance();
      return true;
    }
  }

  lemma {:induction false} MergedIn(s: seq<KeyValue>, t: seq<KeyValue>, kv: KeyValue)
    ensures kv in Merged(s, t) ==> kv in s || kv in t
    decreases |s| + |t|
  {
    if s != [] && t != [] {
      assert s == [s[0]] + s[1..] && t == [t[0]] + t[1..];
      if s[0].key == t[0].key { MergedIn(s[1..], t[1..], kv); }
      else if Less(s[0].key, t[0].key) { MergedIn(s[1..], t, kv); }
      else { MergedIn(s, t[1..], kv); }
    }
  }

  /** The merge of sorted lists with unique keys is sorted and has unique keys. */
  lemma {:induction false} MergedSorted(s: seq<KeyValue>, t: seq<KeyValue>)
    requires StrictlySorted(s) && StrictlySorted(t)
    ensures StrictlySorted(Merged(s, t))
    decreases |s| + |t|
  {
    if s != [] && t != [] {
      LessTotal(s[0].key, t[0].key);
      if s[0].key == t[0].key {
        MergedSorted(s[1..], t[1..]);
        HeadBefore(s[0], s[1..], t[1..]);
      } else if Less(s[0].key, t[0].key) {
        MergedSorted(s[1..], t);
        BehindHead(s[0], t);
        HeadBefore(s[0], s[1..], t);
      } else {
        MergedSorted(s, t[1..]);
        BehindHead(t[0], s);
        HeadBefore(t[0], s, t[1..]);
      }
    }
  }

  lemma BehindHead(x: KeyValue, t: seq<KeyValue>)
    requires StrictlySorted(t) && t != [] && Less(x.key, t[0].key)
    ensures forall i :: 0 <= i < |t| ==> Less(x.key, t[i].key)
  {
    forall i | 0 < i < |t|
      ensures Less(x.key, t[i].key)
    {
      LessTransitive(x.key, t[0].key, t[i].key);
    }
  }

  lemma HeadBefore(x: KeyValue, s: seq<KeyValue>, t: seq<KeyValue>)
    requires StrictlySorted(Merged(s, t))
    requires forall i :: 0 <= i < |s| ==> Less(x.key, s[i].key)
    requires forall i :: 0 <= i < |t| ==> Less(x.key, t[i].key)
    ensures StrictlySorted([x] + Merged(s, t))
  {
    var m := Merged(s, t);
    forall i | 0 <= i < |m|
      ensures Less(x.key, m[i].key)
    {
      MergedIn(s, t, m[i]);
    }
  }

  /** The merge means the second list overridden by the first. */
  lemma {:induction false} MergedMeaning(s: seq<KeyValue>, t: seq<KeyValue>, k: Key)
    requires StrictlySorted(s) && StrictlySorted(t)
    ensures LastValue(Merged(s, t), k) == if LastValue(s, k).Some? then LastValue(s, k) else LastValue(t, k)
    decreases |s| + |t|
  {
    if s != [] && t != [] {
      HeadValue(s, k);
      HeadValue(t, k);
      MergedSorted(s, t);
      HeadValue(Merged(s, t), k);
      LessTotal(s[0].key, t[0].key);
      if s[0].key == t[0].key {
        MergedMeaning(s[1..], t[1..], k);
      } else if Less(s[0].key, t[0].key) {
        MergedMeaning(s[1..], t, k);
        BehindHead(s[0], t);
        NoValue(s[0], t);
      } else {
        MergedMeaning(s, t[1..], k);
        BehindHead(t[0], s);
        NoValue(t[0], s);
      }
    }
  }

  lemma NoValue(x: KeyValue, t: seq<KeyValue>)
    requires forall i :: 0 <= i < |t| ==> Less(x.key, t[i].key)
    ensures LastValue(t, x.key) == None
  {
    LessIrreflexive(x.key);
    LastValueIs(t, x.key);
  }

  lemma HeadValue(s: seq<KeyValue>, k: Key)
    requires StrictlySorted(s) && s != []
    ensures LastValue(s, k) == if s[0].key == k then Some(s[0].value) else LastValue(s[1..], k)
  {
    SortedIsUnique(s);
    LastValueUnique(s, 0);
    assert s == [s[0]] + s[1..];
    LastValueConcat([s[0]], s[1..], k);
  }
}

module ResourceMerge {
  import opened Prelude
  import opened Attributes
  import opened AttributeSet
  import opened AttributeIterator

  datatype Resource = Resource(attrs: seq<KeyValue>, schemaURL: string)

  const VALID: Filter := (kv: KeyValue) => kv.Valid()

  /** The attributes NewSchemaless and NewWithAttributes give a resource. */
  function ResourceAttributes(attrs: seq<KeyValue>): seq<KeyValue> {
    Elements(attrs, Some(VALID))
  }

  /** Resources as the constructors build them. */
  ghost predicate Constructed(r: Resource) {
    StrictlySorted(r.attrs) && forall i :: 0 <= i < |r.attrs| ==> r.attrs[i].Valid()
  }

  method NewWithAttributes(schemaURL: string, attrs: array<KeyValue>) returns (r: Resource)
    modifies attrs
    ensures r == Resource(ResourceAttributes(old(attrs[..])), schemaURL)
  {
    var s, from, to := NewSetWithFiltered(attrs, Some(VALID));
    r := Resource(s, schemaURL);
  }

  lemma ConstructorsBuildValid(attrs: seq<KeyValue>, schemaURL: string)
    ensures Constructed(Resource(ResourceAttributes(attrs), schemaURL))
  {
    ElementsMeaning(attrs, Some(VALID), "");
    var r := ResourceAttributes(attrs);
    forall i | 0 <= i < |r|
      ensures r[i].Valid()
    {
      KeptIn(Uniq(StableSort(attrs)), VALID, r[i]);
    }
  }

  /** The schema URL of a merge, and whether the URLs are in conflict. */
  function MergedSchema(a: string, b: string): (string, bool) {
    if a == "" then (b, false)
    else if b == "" then (a, false)
    else if a == b then (a, false)
    else ("", true)
  }

  /** The attributes of a merge of two resources. */
  function MergedAttributes(a: seq<KeyValue>, b: seq<KeyValue>): seq<KeyValue> {
    ResourceAttributes(Merged(b, a))
  }

  /** The loop of Merge: the attributes the iterator returns, in order. */
  method Collect(mi: MergeIterator) returns (combine: seq<KeyValue>)
    requires mi.Valid()
    modifies mi, mi.one, mi.two, mi.one.iter, mi.two.iter
    ensures combine == old(mi.Rest())
  {
    combine := [];
    ghost var rest := mi.Rest();
    ghost var all := rest;
    assert combine + rest == all;
    var more := mi.Next();
    while more
      invariant mi.Valid() && all == combine + rest
      invariant more == (rest != [])
      invariant more ==> mi.current == rest[0] && mi.Rest() == rest[1..]
      decreases |rest|
    {
      MoveFirst(combine, rest);
      combine, rest := combine + [mi.current], rest[1..];
      more := mi.Next();
    }
    assert combine + [] == combine;
  }

  lemma MoveFirst(s: seq<KeyValue>, t: seq<KeyValue>)
    requires t != []
    ensures s + t == (s + [t[0]]) + t[1..]
  {
  }

  /** Merge; a missing resource leaves the other one unchanged. */
  method Merge(a: Option<Resource>, b: Option<Resource>) returns (r: Resource, conflict: bool)
    ensures a == None && b == None ==> r == Resource([], "") && !conflict
    ensures a == None && b.Some? ==> r == b.value && !conflict
    ensures a.Some? && b == None ==> r == a.value && !conflict
    ensures a.Some? && b.Some? ==>
              && r.attrs == MergedAttributes(a.value.attrs, b.value.attrs)
              && (r.schemaURL, conflict) == MergedSchema(a.value.schemaURL, b.value.schemaURL)
  {
    if a == None && b == None {
      return Resource([], ""), false;
    }
    if a == None {
      return b.value, false;
    }
    if b == None {
      return a.value, false;
    }
    var mi := new MergeIterator(b.value.attrs, a.value.attrs);
    var combine := Collect(mi);
    var attrs := new KeyValue[|combine|](i requires 0 <= i < |combine| => combine[i]);
    assert attrs[..] == combine;
    var url, c := MergedSchema(a.value.schemaURL, b.value.schemaURL).0,
                  MergedSchema(a.value.schemaURL, b.value.schemaURL).1;
    r := NewWithAttributes(url, attrs);
    conflict := c;
  }

  // ----- what merging means -----

  lemma MergeValue(a: seq<KeyValue>, b: seq<KeyValue>, k: Key)
    requires StrictlySorted(a) && StrictlySorted(b)
    ensures LastValue(Merged(b, a), k) == LastValue(a + b, k)
  {
    MergedMeaning(b, a, k);
    LastValueConcat(a, b, k);
  }

  /** Merging is constructing a resource from a's attributes followed by b's: on common keys b wins. */
  lemma MergeIsAppend(a: Resource, b: Resource)
    requires Constructed(a) && Constructed(b)
    ensures MergedAttributes(a.attrs, b.attrs) == ResourceAttributes(a.attrs + b.attrs)
  {
    forall k
      ensures LastValue(Merged(b.attrs, a.attrs), k) == LastValue(a.attrs + b.attrs, k)
    {
      MergeValue(a.attrs, b.attrs, k);
    }
    SetsAreCanonical(Merged(b.attrs, a.attrs), a.attrs + b.attrs, Some(VALID));
  }

  /** For constructed resources the filter of the constructor has nothing left to remove. */
  lemma MergedValue(a: Resource, b: Resource, k: Key)
    requires Constructed(a) && Constructed(b)
    ensures var m := MergedAttributes(a.attrs, b.attrs);
      && LastValue(m, k) == (if LastValue(b.attrs, k).Some? then LastValue(b.attrs, k) else LastValue(a.attrs, k))
      && Constructed(Resource(m, ""))
  {
    ConstructorsBuildValid(Merged(b.attrs, a.attrs), "");
    ElementsMeaning(Merged(b.attrs, a.attrs), Some(VALID), k);
    MergedMeaning(b.attrs, a.attrs, k);
    ValidValue(a.attrs, k);
    ValidValue(b.attrs, k);
  }

  lemma ValidValue(s: seq<KeyValue>, k: Key)
    requires forall i :: 0 <= i < |s| ==> s[i].Valid()
    ensures LastValue(s, k).Some? ==> KeyValue(k, LastValue(s, k).value).Valid()
  {
    LastValueIs(s, k);
  }

  /** Merging the attributes of constructed resources is associative. */
  lemma MergeIsAssociative(a: Resource, b: Resource, c: Resource)
    requires Constructed(a) && Constructed(b) && Constructed(c)
    ensures MergedAttributes(MergedAttributes(a.attrs, b.attrs), c.attrs)
         == MergedAttributes(a.attrs, MergedAttributes(b.attrs, c.attrs))
  {
    var ab, bc := Resource(MergedAttributes(a.attrs, b.attrs), ""), Resource(MergedAttributes(b.attrs, c.attrs), "");
    var l, r := MergedAttributes(ab.attrs, c.attrs), MergedAttributes(a.attrs, bc.attrs);
    forall k
      ensures LastValue(l, k) == LastValue(r, k)
      ensures StrictlySorted(l) && StrictlySorted(r)
    {
      MergedValue(a, b, k);
      MergedValue(b, c, k);
      MergedValue(ab, c, k);
      MergedValue(a, bc, k);
    }
    MergedValue(a, b, "");
    MergedValue(b, c, "");
    MergedValue(ab, c, "");
    MergedValue(a, bc, "");
    SortedIsCanonical(l, r);
  }

  /**
   Schema URLs merge associatively exactly when one of them is empty or the outer two agree: after a conflict the
   merged URL is empty and takes whatever is merged next.
   */
  lemma SchemaMergeAssociativeIff(a: string, b: string, c: string)
    ensures MergedSchema(MergedSchema(a, b).0, c).0 == MergedSchema(a, MergedSchema(b, c).0).0
       <==> a == "" || b == "" || c == "" || a == c
    ensures MergedSchema(MergedSchema("a", "b").0, "c").0 == "c"
    ensures MergedSchema("a", MergedSchema("b", "c").0).0 == "a"
  {
  }
}

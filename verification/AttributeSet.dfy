/**
 Attribute sets (attribute/set.go): construction by an in-place stable sort, de-duplication and partition of the
 argument slice, filtering, and look-up by binary search.  A set is the sequence of its attributes.
 */
module AttributeSet {
  import opened Prelude
  import opened Attributes

  type Filter = KeyValue -> bool

  // ----- stable sorting -----

  /** The attributes with key `k`, in order. */
  function ByKey(s: seq<KeyValue>, k: Key): seq<KeyValue> {
    if s == [] then []
    else if s[0].key == k then [s[0]] + ByKey(s[1..], k)
    else ByKey(s[1..], k)
  }

  ghost predicate Sorted(s: seq<KeyValue>) {
    forall i, j :: 0 <= i < j < |s| ==> !Less(s[j].key, s[i].key)
  }

  /** Inserts `x` before the first attribute whose key is not smaller. */
  function Insert(x: KeyValue, s: seq<KeyValue>): seq<KeyValue> {
    if s == [] || !Less(s[0].key, x.key) then [x] + s else [s[0]] + Insert(x, s[1..])
  }

  /** What a stable sort by key returns. */
  function StableSort(s: seq<KeyValue>): seq<KeyValue> {
    if s == [] then [] else Insert(s[0], StableSort(s[1..]))
  }

  lemma {:induction false} InsertSorted(x: KeyValue, s: seq<KeyValue>)
    requires Sorted(s)
    ensures Sorted(Insert(x, s))
    ensures multiset(Insert(x, s)) == multiset{x} + multiset(s)
  {
    if s == [] {
    } else if !Less(s[0].key, x.key) {
      forall j | 0 <= j < |s|
        ensures !Less(s[j].key, x.key)
      {
        if j > 0 && Less(s[j].key, x.key) {
          LessTotal(s[0].key, s[j].key);
          if Less(s[0].key, s[j].key) {
            LessTransitive(s[0].key, s[j].key, x.key);
          }
        }
      }
    } else {
      InsertSorted(x, s[1..]);
      var rest := Insert(x, s[1..]);
      LessAsymmetric(s[0].key, x.key);
      assert s == [s[0]] + s[1..];
      forall j | 0 <= j < |rest|
        ensures !Less(rest[j].key, s[0].key)
      {
        assert rest[j] in multiset(rest);
        if rest[j] != x {
          var i :| 0 <= i < |s[1..]| && s[1..][i] == rest[j];
          assert s[1 + i] == rest[j];
        }
      }
    }
  }

  /** Inserting in front of equal keys keeps the order of the attributes of every key. */
  lemma {:induction false} InsertByKey(x: KeyValue, s: seq<KeyValue>, k: Key)
    ensures ByKey(Insert(x, s), k) == ByKey([x] + s, k)
  {
    assert ([x] + s)[1..] == s;
    if s != [] && Less(s[0].key, x.key) {
      InsertByKey(x, s[1..], k);
      var rest := Insert(x, s[1..]);
      assert ([s[0]] + rest)[1..] == rest && ([x] + s[1..])[1..] == s[1..];
      LessIrreflexive(x.key);
    }
  }

  /** StableSort returns the one sorted arrangement that keeps the order of attributes with equal keys. */
  lemma {:induction false} StableSortIsStable(s: seq<KeyValue>, k: Key)
    ensures Sorted(StableSort(s))
    ensures multiset(StableSort(s)) == multiset(s)
    ensures ByKey(StableSort(s), k) == ByKey(s, k)
  {
    if s != [] {
      StableSortIsStable(s[1..], k);
      InsertSorted(s[0], StableSort(s[1..]));
      InsertByKey(s[0], StableSort(s[1..]), k);
      assert s == [s[0]] + s[1..];
      assert ([s[0]] + StableSort(s[1..]))[1..] == StableSort(s[1..]);
    }
  }

  lemma {:induction false} LastValueByKey(s: seq<KeyValue>, k: Key)
    ensures LastValue(s, k) == LastValue(ByKey(s, k), k)
  {
    if s != [] {
      LastValueByKey(s[1..], k);
      var t := ByKey(s[1..], k);
      assert s == [s[0]] + s[1..];
      LastValueConcat([s[0]], s[1..], k);
      LastValueConcat([s[0]], t, k);
    }
  }

  lemma SortKeepsMeaning(s: seq<KeyValue>)
    ensures SameMeaning(StableSort(s), s)
  {
    forall k
      ensures LastValue(StableSort(s), k) == LastValue(s, k)
    {
      StableSortIsStable(s, k);
      LastValueByKey(s, k);
      LastValueByKey(StableSort(s), k);
    }
  }

  // ----- de-duplication -----

  /** The last attribute of every run of equal keys. */
  function Uniq(s: seq<KeyValue>): seq<KeyValue> {
    if |s| <= 1 then s
    else if s[0].key == s[1].key then Uniq(s[1..])
    else [s[0]] + Uniq(s[1..])
  }

  /** All the others. */
  function Overwritten(s: seq<KeyValue>): seq<KeyValue> {
    if |s| <= 1 then []
    else if s[0].key == s[1].key then [s[0]] + Overwritten(s[1..])
    else Overwritten(s[1..])
  }

  lemma {:induction false} UniqAndOverwritten(s: seq<KeyValue>)
    ensures multiset(Uniq(s)) + multiset(Overwritten(s)) == multiset(s)
  {
    if |s| > 1 {
      UniqAndOverwritten(s[1..]);
      FirstAndRest(s);
      if s[0].key == s[1].key {
        assert Overwritten(s) == [s[0]] + Overwritten(s[1..]);
      } else {
        assert Uniq(s) == [s[0]] + Uniq(s[1..]);
      }
    }
  }

  lemma FirstAndRest(s: seq<KeyValue>)
    requires s != []
    ensures multiset(s) == multiset{s[0]} + multiset(s[1..])
  {
    assert s == [s[0]] + s[1..];
  }

  lemma {:induction false} UniqSorted(s: seq<KeyValue>)
    requires Sorted(s)
    ensures StrictlySorted(Uniq(s))
    ensures s != [] ==> Uniq(s) != [] && Uniq(s)[0].key == s[0].key
  {
    if |s| > 1 {
      UniqSorted(s[1..]);
      if s[0].key != s[1].key {
        var rest := Uniq(s[1..]);
        LessTotal(s[0].key, s[1].key);
        forall j | 0 <= j < |rest|
          ensures Less(s[0].key, rest[j].key)
        {
          if j > 0 {
            LessTransitive(s[0].key, rest[0].key, rest[j].key);
          }
        }
      }
    }
  }

  lemma {:induction false} UniqMeaning(s: seq<KeyValue>, k: Key)
    requires Sorted(s)
    ensures LastValue(Uniq(s), k) == LastValue(s, k)
  {
    if |s| > 1 {
      UniqMeaning(s[1..], k);
      UniqSorted(s[1..]);
      assert s == [s[0]] + s[1..];
      LastValueConcat([s[0]], s[1..], k);
      LastValueConcat([s[0]], Uniq(s[1..]), k);
      if s[0].key == s[1].key == k {
        LastValueIs(s[1..], k);
        assert s[1..][0].key == k;
      }
    }
  }

  // ----- what a set constructed from a list holds -----

  /** The attributes of the set made from `kvs`. */
  function Elements(kvs: seq<KeyValue>, filter: Option<Filter>): seq<KeyValue> {
    var unique := Uniq(StableSort(kvs));
    if filter.Some? then Kept(unique, filter.value) else unique
  }

  lemma UniqOfSort(kvs: seq<KeyValue>)
    ensures StrictlySorted(Uniq(StableSort(kvs)))
    ensures SameMeaning(Uniq(StableSort(kvs)), kvs)
  {
    StableSortIsStable(kvs, "");
    UniqSorted(StableSort(kvs));
    SortKeepsMeaning(kvs);
    forall k
      ensures LastValue(Uniq(StableSort(kvs)), k) == LastValue(kvs, k)
    {
      UniqMeaning(StableSort(kvs), k);
    }
  }

  /** A set is sorted, has unique keys, and gives every key its last value in the list unless that is filtered out. */
  lemma ElementsMeaning(kvs: seq<KeyValue>, filter: Option<Filter>, k: Key)
    ensures StrictlySorted(Elements(kvs, filter))
    ensures LastValue(Elements(kvs, filter), k)
         == if filter.Some? then Filtered(LastValue(kvs, k), k, filter.value) else LastValue(kvs, k)
  {
    UniqOfSort(kvs);
    if filter.Some? {
      KeptSorted(Uniq(StableSort(kvs)), filter.value);
      KeptMeaning(Uniq(StableSort(kvs)), filter.value, k);
    }
  }

  /** Sets are canonical: lists that agree on the last value of every key make equal sets. */
  lemma SetsAreCanonical(a: seq<KeyValue>, b: seq<KeyValue>, filter: Option<Filter>)
    requires SameMeaning(a, b)
    ensures Elements(a, filter) == Elements(b, filter)
  {
    forall k
      ensures LastValue(Elements(a, filter), k) == LastValue(Elements(b, filter), k)
    {
      ElementsMeaning(a, filter, k);
      ElementsMeaning(b, filter, k);
    }
    ElementsMeaning(a, filter, "");
    ElementsMeaning(b, filter, "");
    SortedIsCanonical(Elements(a, filter), Elements(b, filter));
  }

  /** Equal sets come only from lists that agree on every key (without a filter). */
  lemma EqualSetsSameMeaning(a: seq<KeyValue>, b: seq<KeyValue>)
    requires Elements(a, None) == Elements(b, None)
    ensures SameMeaning(a, b)
  {
    UniqOfSort(a);
    UniqOfSort(b);
  }

  // ----- the in-place algorithms -----

  /**
   The swap both loops below make: with `a` holding front, x, mid and back, the element x moves to the place before
   `back`, and the elements in between keep their places but one.
   */
  method MoveBehind(a: array<KeyValue>, i: nat, j: nat,
                    ghost front: seq<KeyValue>, ghost x: KeyValue, ghost mid: seq<KeyValue>, ghost back: seq<KeyValue>)
    returns (ghost mid': seq<KeyValue>)
    requires a[..] == front + [x] + mid + back
    requires i == |front| && j == |front| + |mid|
    modifies a
    ensures a[..] == front + mid' + ([x] + back)
    ensures |mid'| == |mid| && multiset(mid') == multiset(mid)
  {
    assert a[i] == x;
    if |mid| == 0 {
      mid' := [];
      assert front + [x] + mid + back == front + mid' + ([x] + back);
    } else {
      ghost var last, init := mid[|mid| - 1], mid[..|mid| - 1];
      assert mid == init + [last];
      assert a[j] == last;
      mid' := [last] + init;
      assert (front + [x] + mid + back)[i := last][j := x] == front + mid' + ([x] + back);
    }
    a[i], a[j] := a[j], a[i];
  }

  lemma TakeOne(s: seq<KeyValue>, i: nat, mid: seq<KeyValue>, back: seq<KeyValue>)
    requires i < |s|
    ensures s[..i + 1] + mid + back == s[..i] + [s[i]] + mid + back
    ensures s[..i + 1] + mid + back == s[..i] + ([s[i]] + mid) + back
    ensures s[i..] == [s[i]] + s[i + 1..]
  {
    assert s[..i + 1] == s[..i] + [s[i]];
  }

  lemma UniqStep(s: seq<KeyValue>, i: nat)
    requires i + 1 < |s|
    ensures Uniq(s[i..]) == if s[i].key == s[i + 1].key then Uniq(s[i + 1..]) else [s[i]] + Uniq(s[i + 1..])
    ensures Overwritten(s[i..])
         == if s[i].key == s[i + 1].key then [s[i]] + Overwritten(s[i + 1..]) else Overwritten(s[i + 1..])
  {
    assert s[i..][0] == s[i] && s[i..][1] == s[i + 1] && s[i..][1..] == s[i + 1..];
  }

  /**
   The de-duplication loop of NewSetWithFiltered on a sorted slice: from `position` on it holds the last attribute of
   every key, in order; the overwritten attributes `mid` come before.
   */
  method DedupToBack(kvs: array<KeyValue>) returns (position: nat, ghost mid: seq<KeyValue>)
    requires kvs.Length > 0
    modifies kvs
    ensures position == |mid| && kvs[..] == mid + Uniq(old(kvs[..]))
    ensures multiset(mid) == multiset(Overwritten(old(kvs[..])))
  {
    ghost var s := kvs[..];
    position := kvs.Length - 1;
    var offset := position - 1;
    mid := [];
    ghost var back := s[offset + 1..];
    assert s == s[..offset + 1] + mid + back;
    while offset >= 0
      invariant -1 <= offset < |s| - 1 == kvs.Length - 1
      invariant back == Uniq(s[offset + 1..])
      invariant back != [] && back[0].key == s[offset + 1].key
      invariant kvs[..] == s[..offset + 1] + mid + back
      invariant position == offset + 1 + |mid|
      invariant multiset(mid) == multiset(Overwritten(s[offset + 1..]))
    {
      position, mid, back := DedupOne(kvs, offset, position, s, mid, back);
      offset := offset - 1;
    }
    assert s[0..] == s;
    assert s[..0] + mid == mid;
  }

  /** One round of that loop. */
  method DedupOne(kvs: array<KeyValue>, offset: nat, position: nat,
                  ghost s: seq<KeyValue>, ghost mid: seq<KeyValue>, ghost back: seq<KeyValue>)
    returns (position': nat, ghost mid': seq<KeyValue>, ghost back': seq<KeyValue>)
    requires offset < |s| - 1 == kvs.Length - 1 && position == offset + 1 + |mid|
    requires back == Uniq(s[offset + 1..]) && back != [] && back[0].key == s[offset + 1].key
    requires kvs[..] == s[..offset + 1] + mid + back
    requires multiset(mid) == multiset(Overwritten(s[offset + 1..]))
    modifies kvs
    ensures back' == Uniq(s[offset..]) && back' != [] && back'[0].key == s[offset].key
    ensures kvs[..] == s[..offset] + mid' + back' && position' == offset + |mid'|
    ensures multiset(mid') == multiset(Overwritten(s[offset..]))
  {
    position', mid', back' := position, mid, back;
    TakeOne(s, offset, mid, back);
    UniqStep(s, offset);
    assert kvs[..][position] == back[0] && kvs[..][offset] == s[offset];
    if kvs[offset].key == kvs[position].key {
      mid' := [s[offset]] + mid;
    } else {
      position' := position - 1;
      mid' := MoveBehind(kvs, offset, position', s[..offset], s[offset], mid, back);
      back' := [s[offset]] + back;
    }
  }

  lemma KeptAt(s: seq<KeyValue>, i: nat, keep: Filter)
    requires i < |s|
    ensures Kept(s[i..], keep) == if keep(s[i]) then [s[i]] + Kept(s[i + 1..], keep) else Kept(s[i + 1..], keep)
  {
    assert s[i..][1..] == s[i + 1..];
  }

  /**
   filteredToFront on the part lo..hi of a slice: the attributes to keep are moved to its back, in order, the others to
   its front; the number of the latter is returned.
   */
  method FilteredToFront(a: array<KeyValue>, lo: nat, hi: nat, keep: Filter)
    returns (div: nat, ghost mid: seq<KeyValue>)
    requires lo <= hi <= a.Length
    modifies a
    ensures div == |mid| && a[..] == old(a[..lo]) + mid + (Kept(old(a[lo..hi]), keep) + old(a[hi..]))
    ensures multiset(mid) == multiset(Kept(old(a[lo..hi]), Not(keep)))
  {
    ghost var s, tail := a[..hi], a[hi..];
    assert a[..] == s + tail && s[lo..] == a[lo..hi] && s[..lo] == a[..lo];
    div, mid := FilterLoop(a, lo, hi, keep, s, tail);
  }

  /** The loop of filteredToFront. */
  method FilterLoop(a: array<KeyValue>, lo: nat, hi: nat, keep: Filter,
                    ghost s: seq<KeyValue>, ghost tail: seq<KeyValue>)
    returns (div: nat, ghost mid: seq<KeyValue>)
    requires lo <= hi == |s| && a[..] == s + tail
    modifies a
    ensures div == |mid| && a[..] == s[..lo] + mid + (Kept(s[lo..], keep) + tail)
    ensures multiset(mid) == multiset(Kept(s[lo..], Not(keep)))
  {
    var i, j := hi - 1, hi;
    mid := [];
    ghost var back: seq<KeyValue> := [];
    assert s[..i + 1] + mid + (back + tail) == s + tail;
    while i >= lo
      invariant lo - 1 <= i < |s| == hi
      invariant a[..] == s[..i + 1] + mid + (back + tail)
      invariant j == i + 1 + |mid|
      invariant back == Kept(s[i + 1..], keep)
      invariant multiset(mid) == multiset(Kept(s[i + 1..], Not(keep)))
      decreases i
    {
      KeptAt(s, i, keep);
      KeptAt(s, i, Not(keep));
      j, mid, back := FilterOne(a, i, j, keep, s, mid, back, tail);
      i := i - 1;
    }
    div := j - lo;
  }

  /** One round of that loop. */
  method FilterOne(a: array<KeyValue>, i: nat, j: nat, keep: Filter, ghost s: seq<KeyValue>, ghost mid: seq<KeyValue>,
                   ghost back: seq<KeyValue>, ghost tail: seq<KeyValue>)
    returns (j': nat, ghost mid': seq<KeyValue>, ghost back': seq<KeyValue>)
    requires i < |s| && j == i + 1 + |mid|
    requires a[..] == s[..i + 1] + mid + (back + tail)
    modifies a
    ensures j' == i + |mid'| && a[..] == s[..i] + mid' + (back' + tail)
    ensures keep(s[i]) ==> back' == [s[i]] + back && multiset(mid') == multiset(mid)
    ensures !keep(s[i]) ==> back' == back && mid' == [s[i]] + mid
  {
    TakeOne(s, i, mid, back + tail);
    assert a[..][i] == s[i];
    j', mid', back' := j, mid, back;
    if keep(a[i]) {
      j' := j - 1;
      mid' := MoveBehind(a, i, j', s[..i], s[i], mid, back + tail);
      Regroup([s[i]], back, tail);
      back' := [s[i]] + back;
    } else {
      mid' := [s[i]] + mid;
    }
  }

  /**
   NewSetWithFiltered.  The set is returned by value; the slice is only permuted, it ends with the set, and
   kvs[from..to] are the attributes the filter excluded.
   */
  method NewSetWithFiltered(kvs: array<KeyValue>, filter: Option<Filter>)
    returns (elements: seq<KeyValue>, from: nat, to: nat)
    modifies kvs
    ensures elements == Elements(old(kvs[..]), filter)
    ensures from <= to <= kvs.Length && kvs[to..] == elements
    ensures multiset(kvs[..]) == multiset(old(kvs[..]))
    ensures multiset(kvs[from..to]) == multiset(Excluded(old(kvs[..]), filter))
    ensures SameMeaning(kvs[..], old(kvs[..]))
  {
    ghost var given := kvs[..];
    if kvs.Length == 0 {
      assert given == [] && Excluded(given, filter) == [];
      return [], 0, 0;
    }
    ghost var dups, out;
    from, to, dups, out := ArrangeInPlace(kvs, filter);
    elements := kvs[to..];
    ghost var left := kvs[..];
    assert kvs[to..] == left[to..] && kvs[from..to] == left[from..to];
    ThreeParts(dups, out, Elements(given, filter));
    assert kvs[from..to] == out;
    Arranged(given, dups, out, filter);
  }

  lemma Arranged(given: seq<KeyValue>, dups: seq<KeyValue>, out: seq<KeyValue>, filter: Option<Filter>)
    requires multiset(dups) == multiset(Overwritten(StableSort(given)))
    requires multiset(out) == multiset(Excluded(given, filter))
    ensures multiset(dups + (out + Elements(given, filter))) == multiset(given)
    ensures SameMeaning(dups + (out + Elements(given, filter)), given)
  {
    ArrangedPermutation(given, dups, out, filter);
    ArrangedMeaning(given, dups, out, filter);
  }

  lemma ThreeParts(a: seq<KeyValue>, b: seq<KeyValue>, c: seq<KeyValue>)
    ensures (a + (b + c))[|a|..|a| + |b|] == b && (a + (b + c))[|a| + |b|..] == c
  {
  }

  /** Leaves the slice as the overwritten attributes, the excluded ones and the set. */
  method ArrangeInPlace(kvs: array<KeyValue>, filter: Option<Filter>)
    returns (from: nat, to: nat, ghost dups: seq<KeyValue>, ghost out: seq<KeyValue>)
    requires kvs.Length > 0
    modifies kvs
    ensures from == |dups| && to == from + |out|
    ensures kvs[..] == dups + (out + Elements(old(kvs[..]), filter))
    ensures multiset(dups) == multiset(Overwritten(StableSort(old(kvs[..]))))
    ensures multiset(out) == multiset(Excluded(old(kvs[..]), filter))
  {
    ghost var given := kvs[..];
    SortInPlace(kvs);
    ghost var unique := Uniq(kvs[..]);
    from, dups := DedupToBack(kvs);
    to, out := from, [];
    if filter.Some? {
      assert kvs[from..kvs.Length] == unique && kvs[..from] == dups && kvs[kvs.Length..] == [];
      var div;
      div, out := FilteredToFront(kvs, from, kvs.Length, filter.value);
      to := from + div;
      assert Kept(unique, filter.value) + [] == Kept(unique, filter.value);
    } else {
      assert dups + out == dups;
    }
    Regroup(dups, out, Elements(given, filter));
  }

  /** The attributes of the set made from `kvs` that the filter leaves out. */
  function Excluded(kvs: seq<KeyValue>, filter: Option<Filter>): seq<KeyValue> {
    if filter.Some? then Kept(Uniq(StableSort(kvs)), Not(filter.value)) else []
  }

  method SortInPlace(kvs: array<KeyValue>)
    modifies kvs
    ensures kvs[..] == StableSort(old(kvs[..]))
  {
    ghost var s := kvs[..];
    StableSortIsStable(s, "");
    SameLength(s, StableSort(s));
    var sorted := StableSort(kvs[..]);
    forall i | 0 <= i < kvs.Length {
      kvs[i] := sorted[i];
    }
  }

  lemma SameLength(s: seq<KeyValue>, t: seq<KeyValue>)
    requires multiset(s) == multiset(t)
    ensures |s| == |t|
  {
    assert |multiset(s)| == |s| && |multiset(t)| == |t|;
  }

  /**
   The slice as it is left, overwritten attributes, excluded ones, then the set, is a permutation of what was given.
   */
  lemma ArrangedPermutation(given: seq<KeyValue>, dups: seq<KeyValue>, out: seq<KeyValue>, filter: Option<Filter>)
    requires multiset(dups) == multiset(Overwritten(StableSort(given)))
    requires multiset(out) == multiset(Excluded(given, filter))
    ensures multiset(out + Elements(given, filter)) == multiset(Uniq(StableSort(given)))
    ensures multiset(dups + (out + Elements(given, filter))) == multiset(given)
  {
    var sorted, elements := StableSort(given), Elements(given, filter);
    StableSortIsStable(given, "");
    UniqAndOverwritten(sorted);
    if filter.Some? {
      KeptAndNot(Uniq(sorted), filter.value);
    }
    JoinParts(dups, out, elements, Overwritten(sorted), Excluded(given, filter), Uniq(sorted), sorted, given);
  }

  lemma JoinParts(dups: seq<KeyValue>, out: seq<KeyValue>, elements: seq<KeyValue>, overwritten: seq<KeyValue>,
                  excluded: seq<KeyValue>, unique: seq<KeyValue>, sorted: seq<KeyValue>, given: seq<KeyValue>)
    requires multiset(dups) == multiset(overwritten) && multiset(out) == multiset(excluded)
    requires multiset(elements) + multiset(excluded) == multiset(unique)
    requires multiset(unique) + multiset(overwritten) == multiset(sorted) == multiset(given)
    ensures multiset(out + elements) == multiset(unique)
    ensures multiset(dups + (out + elements)) == multiset(given)
  {
  }

  /** And it means the same: every overwritten attribute is in front of the last one with its key. */
  lemma ArrangedMeaning(given: seq<KeyValue>, dups: seq<KeyValue>, out: seq<KeyValue>, filter: Option<Filter>)
    requires multiset(out + Elements(given, filter)) == multiset(Uniq(StableSort(given)))
    requires multiset(dups + (out + Elements(given, filter))) == multiset(given)
    ensures SameMeaning(dups + (out + Elements(given, filter)), given)
  {
    var front := out + Elements(given, filter);
    UniqOfSort(given);
    forall k
      ensures LastValue(dups + front, k) == LastValue(given, k)
    {
      ValueBehind(dups, front, Uniq(StableSort(given)), given, k);
    }
  }

  lemma ValueBehind(dups: seq<KeyValue>, front: seq<KeyValue>, unique: seq<KeyValue>, given: seq<KeyValue>, k: Key)
    requires StrictlySorted(unique) && SameMeaning(unique, given)
    requires multiset(front) == multiset(unique) && multiset(dups + front) == multiset(given)
    ensures LastValue(dups + front, k) == LastValue(given, k)
  {
    PermutedMeaning(unique, front, k);
    LastValueConcat(dups, front, k);
    LastValueIs(given, k);
    LastValueIs(dups + front, k);
    if HasKey(dups + front, k) {
      PermutedKey(dups + front, given, k);
    }
  }

  lemma PermutedKey(s: seq<KeyValue>, t: seq<KeyValue>, k: Key)
    requires multiset(s) == multiset(t) && HasKey(s, k)
    ensures HasKey(t, k)
  {
    var i :| 0 <= i < |s| && s[i].key == k;
    assert s[i] in multiset(t);
    var j :| 0 <= j < |t| && t[j] == s[i];
  }

  lemma {:induction false} KeptAndNot(s: seq<KeyValue>, keep: Filter)
    ensures multiset(Kept(s, keep)) + multiset(Kept(s, Not(keep))) == multiset(s)
  {
    if s != [] {
      KeptAndNot(s[1..], keep);
      assert s == [s[0]] + s[1..];
    }
  }

  /** The order of attributes with different keys does not matter. */
  lemma PermutedMeaning(s: seq<KeyValue>, t: seq<KeyValue>, k: Key)
    requires StrictlySorted(s) && multiset(s) == multiset(t)
    ensures LastValue(t, k) == LastValue(s, k)
  {
    SortedIsUnique(s);
    LastValueIs(s, k);
    LastValueIs(t, k);
    if LastValue(t, k).Some? {
      var kv := KeyValue(k, LastValue(t, k).value);
      assert kv in multiset(s);
      var i :| 0 <= i < |s| && s[i] == kv;
      LastValueUnique(s, i);
    } else if HasKey(s, k) {
      PermutedKey(s, t, k);
    }
  }

  /** Constructing a set again from the slice as the first call left it gives the same set, and permutes it again. */
  method NewSetTwice(kvs: array<KeyValue>, filter: Option<Filter>) returns (first: seq<KeyValue>, second: seq<KeyValue>)
    modifies kvs
    ensures first == second == Elements(old(kvs[..]), filter)
    ensures multiset(kvs[..]) == multiset(old(kvs[..])) && SameMeaning(kvs[..], old(kvs[..]))
  {
    var from, to;
    first, from, to := NewSetWithFiltered(kvs, filter);
    SetsAreCanonical(kvs[..], old(kvs[..]), filter);
    second, from, to := NewSetWithFiltered(kvs, filter);
  }

  /** Set.Value: binary search for a key; on the set made from a list it finds the last value given and kept. */
  method Value(elements: seq<KeyValue>, k: Key) returns (v: Option<Value>)
    requires StrictlySorted(elements)
    ensures v == LastValue(elements, k)
  {
    var lo, hi := 0, |elements|;
    while lo < hi
      invariant 0 <= lo <= hi <= |elements|
      invariant forall i :: 0 <= i < lo ==> Less(elements[i].key, k)
      invariant forall i :: hi <= i < |elements| ==> !Less(elements[i].key, k)
    {
      var mid := (lo + hi) / 2;
      SearchStep(elements, k, mid);
      if Less(elements[mid].key, k) {
        lo := mid + 1;
      } else {
        hi := mid;
      }
    }
    SearchEnd(elements, k, lo);
    if lo >= |elements| {
      return None;
    }
    if k == elements[lo].key {
      return Some(elements[lo].value);
    }
    return None;
  }

  lemma SearchStep(s: seq<KeyValue>, k: Key, mid: nat)
    requires StrictlySorted(s) && mid < |s|
    ensures Less(s[mid].key, k) ==> forall i :: 0 <= i <= mid ==> Less(s[i].key, k)
    ensures !Less(s[mid].key, k) ==> forall i :: mid <= i < |s| ==> !Less(s[i].key, k)
  {
    forall i | 0 <= i < |s|
      ensures i < mid && Less(s[mid].key, k) ==> Less(s[i].key, k)
      ensures mid < i && Less(s[i].key, k) ==> Less(s[mid].key, k)
    {
      if i < mid && Less(s[mid].key, k) {
        LessTransitive(s[i].key, s[mid].key, k);
      }
      if mid < i && Less(s[i].key, k) {
        LessTransitive(s[mid].key, s[i].key, k);
      }
    }
  }

  lemma NotBehind(s: seq<KeyValue>, at: nat, i: nat)
    requires StrictlySorted(s) && at < |s| && i < |s| && !Less(s[at].key, s[i].key)
    ensures i <= at
  {
  }

  lemma SearchEnd(s: seq<KeyValue>, k: Key, at: nat)
    requires StrictlySorted(s) && at <= |s|
    requires forall i :: 0 <= i < at ==> Less(s[i].key, k)
    requires forall i :: at <= i < |s| ==> !Less(s[i].key, k)
    ensures LastValue(s, k) == if at < |s| && s[at].key == k then Some(s[at].value) else None
  {
    SortedIsUnique(s);
    LastValueIs(s, k);
    LessIrreflexive(k);
    if HasKey(s, k) {
      var i :| 0 <= i < |s| && s[i].key == k;
      LastValueUnique(s, i);
      assert i >= at;
      NotBehind(s, at, i);
    }
  }

  /** Looking a key up in a constructed set gives its last value in the list, unless the filter rejects it. */
  method ValueOfNewSet(kvs: array<KeyValue>, filter: Option<Filter>, k: Key) returns (v: Option<Value>)
    modifies kvs
    ensures v == if filter.Some? then Filtered(LastValue(old(kvs[..]), k), k, filter.value)
                 else LastValue(old(kvs[..]), k)
  {
    ElementsMeaning(kvs[..], filter, k);
    var elements, from, to := NewSetWithFiltered(kvs, filter);
    v := Value(elements, k);
  }

  /**
   Set.Filter.  The set itself is immutable; a copy is searched from the back for the last attribute to drop, which is
   moved to the front by an overlapping shift before the part before it is partitioned.
   */
  method FilterSet(l: seq<KeyValue>, re: Option<Filter>) returns (kept: seq<KeyValue>, removed: seq<KeyValue>)
    ensures re == None ==> kept == l && removed == []
    ensures re.Some? ==> kept == Kept(l, re.value)
    ensures re.Some? ==> multiset(removed) == multiset(Kept(l, Not(re.value)))
  {
    if re == None {
      return l, [];
    }
    var first := LastRejected(l, re.value);
    if first < 0 {
      assert l[0..] == l;
      return l, [];
    }
    SplitKept(l, first, re.value);
    var a := new KeyValue[|l|](i requires 0 <= i < |l| => l[i]);
    assert a[..] == l;
    if first == 0 {
      assert l[..0] == [];
      return a[1..], a[..1];
    }
    var div := FilterFront(a, first, re.value);
    kept := a[div..];
    removed := a[..div];
  }

  /** The place of the last attribute `keep` rejects, or -1. */
  method LastRejected(l: seq<KeyValue>, keep: Filter) returns (first: int)
    ensures -1 <= first < |l|
    ensures first >= 0 ==> !keep(l[first])
    ensures Kept(l[first + 1..], keep) == l[first + 1..] && Kept(l[first + 1..], Not(keep)) == []
  {
    first := |l| - 1;
    while first >= 0
      invariant -1 <= first < |l|
      invariant Kept(l[first + 1..], keep) == l[first + 1..] && Kept(l[first + 1..], Not(keep)) == []
    {
      if !keep(l[first]) {
        break;
      }
      assert l[first..] == [l[first]] + l[first + 1..];
      first := first - 1;
    }
  }

  /** Moves a[first] to the front and partitions the attributes that were before it. */
  method FilterFront(a: array<KeyValue>, first: nat, keep: Filter) returns (div: nat)
    requires 1 <= first < a.Length
    modifies a
    ensures div <= a.Length
    ensures a[div..] == Kept(old(a[..first]), keep) + old(a[first + 1..])
    ensures multiset(a[..div]) == multiset(Kept(old(a[..first]), Not(keep)) + [old(a[first])])
  {
    ghost var before, behind := a[..first], a[first + 1..];
    var kv := a[first];
    Shift(a, first);
    a[0] := kv;
    assert a[..1] == [kv] && a[1..first + 1] == before && a[first + 1..] == behind;
    ghost var mid;
    div, mid := FilteredToFront(a, 1, first + 1, keep);
    div := div + 1;
    assert a[div..] == Kept(before, keep) + behind;
    assert a[..div] == [kv] + mid;
  }

  /** copy(slice[1:first+1], slice[:first]): source and target overlap. */
  method Shift(a: array<KeyValue>, first: nat)
    requires 1 <= first < a.Length
    modifies a
    ensures a[1..first + 1] == old(a[..first]) && a[first + 1..] == old(a[first + 1..])
  {
    var i := first;
    while i > 0
      invariant 0 <= i <= first
      invariant forall k :: i < k <= first ==> a[k] == old(a[k - 1])
      invariant forall k :: 0 <= k <= i ==> a[k] == old(a[k])
      invariant forall k :: first < k < a.Length ==> a[k] == old(a[k])
    {
      a[i] := a[i - 1];
      i := i - 1;
    }
  }

  lemma KeptAround(front: seq<KeyValue>, kv: KeyValue, behind: seq<KeyValue>, keep: Filter)
    ensures Kept(front + ([kv] + behind), keep)
         == Kept(front, keep) + if keep(kv) then [kv] + Kept(behind, keep) else Kept(behind, keep)
  {
    KeptConcat(front, [kv] + behind, keep);
    assert ([kv] + behind)[1..] == behind;
  }

  lemma SplitKept(l: seq<KeyValue>, first: nat, keep: Filter)
    requires first < |l| && !keep(l[first])
    requires Kept(l[first + 1..], keep) == l[first + 1..] && Kept(l[first + 1..], Not(keep)) == []
    ensures Kept(l, keep) == Kept(l[..first], keep) + l[first + 1..]
    ensures Kept(l, Not(keep)) == Kept(l[..first], Not(keep)) + [l[first]]
  {
    assert l == l[..first] + ([l[first]] + l[first + 1..]);
    KeptAround(l[..first], l[first], l[first + 1..], keep);
    KeptAround(l[..first], l[first], l[first + 1..], Not(keep));
    assert [l[first]] + [] == [l[first]];
  }

  /** Filtering a set is the same as constructing it again with the filter. */
  lemma FilterIsConstruction(kvs: seq<KeyValue>, keep: Filter)
    ensures Kept(Elements(kvs, None), keep) == Elements(kvs, Some(keep))
    ensures Elements(Elements(kvs, None), Some(keep)) == Elements(kvs, Some(keep))
  {
    UniqOfSort(kvs);
    SetsAreCanonical(Elements(kvs, None), kvs, Some(keep));
  }
}

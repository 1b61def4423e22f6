/**
 Lists of attributes with unique keys in the order the keys were first given: the storage of log records and of spans.
 The SDK de-duplicates such lists in place and may cap their length.
 */
module OrderedAttributes {
  import opened Prelude
  import opened Attributes

  /** Gives `kv` the place of the first attribute with its key, or the end of the list. */
  function Put(s: seq<KeyValue>, kv: KeyValue): seq<KeyValue> {
    if s == [] then [kv]
    else if s[0].key == kv.key then [kv] + s[1..]
    else [s[0]] + Put(s[1..], kv)
  }

  function Deduped(s: seq<KeyValue>): seq<KeyValue> {
    if s == [] then [] else Put(Deduped(s[..|s| - 1]), s[|s| - 1])
  }

  /** The keys of a list in the order of their first use. */
  function FirstKeys(s: seq<KeyValue>): seq<Key> {
    if s == [] then []
    else
      var before, k := FirstKeys(s[..|s| - 1]), s[|s| - 1].key;
      if k in before then before else before + [k]
  }

  function KeysOf(s: seq<KeyValue>): seq<Key> {
    if s == [] then [] else KeysOf(s[..|s| - 1]) + [s[|s| - 1].key]
  }

  lemma {:induction false} KeysOfAt(s: seq<KeyValue>)
    ensures |KeysOf(s)| == |s| && forall i :: 0 <= i < |s| ==> KeysOf(s)[i] == s[i].key
  {
    if s != [] {
      KeysOfAt(s[..|s| - 1]);
    }
  }

  lemma {:induction false} PutAt(s: seq<KeyValue>, i: nat, kv: KeyValue)
    requires UniqueKeys(s) && i < |s| && s[i].key == kv.key
    ensures Put(s, kv) == s[i := kv]
  {
    if i > 0 {
      PutAt(s[1..], i - 1, kv);
    }
  }

  lemma {:induction false} PutNew(s: seq<KeyValue>, kv: KeyValue)
    requires !HasKey(s, kv.key)
    ensures Put(s, kv) == s + [kv]
  {
    if s != [] {
      assert s[0].key != kv.key;
      assert forall i :: 0 <= i < |s[1..]| ==> s[1..][i] == s[1 + i];
      PutNew(s[1..], kv);
    }
  }

  lemma PutIs(s: seq<KeyValue>, kv: KeyValue)
    requires UniqueKeys(s)
    ensures UniqueKeys(Put(s, kv))
    ensures if HasKey(s, kv.key) then KeysOf(Put(s, kv)) == KeysOf(s) else Put(s, kv) == s + [kv]
  {
    if HasKey(s, kv.key) {
      var i :| 0 <= i < |s| && s[i].key == kv.key;
      PutAt(s, i, kv);
      KeysOfAt(s);
      KeysOfAt(Put(s, kv));
    } else {
      PutNew(s, kv);
    }
  }

  lemma PutValue(s: seq<KeyValue>, kv: KeyValue, k: Key)
    requires UniqueKeys(s)
    ensures LastValue(Put(s, kv), k) == if k == kv.key then Some(kv.value) else LastValue(s, k)
  {
    PutIs(s, kv);
    LastValueIs(s, k);
    LastValueIs(Put(s, kv), k);
    if HasKey(s, kv.key) {
      var i :| 0 <= i < |s| && s[i].key == kv.key;
      PutAt(s, i, kv);
      LastValueUnique(Put(s, kv), i);
      if HasKey(s, k) {
        var j :| 0 <= j < |s| && s[j].key == k;
        LastValueUnique(s, j);
        LastValueUnique(Put(s, kv), j);
        assert HasKey(Put(s, kv), k);
      } else {
        assert forall j :: 0 <= j < |s| ==> Put(s, kv)[j].key == s[j].key;
      }
    } else {
      assert (s + [kv])[..|s|] == s;
    }
  }

  lemma {:induction false} DedupedUnique(s: seq<KeyValue>)
    ensures UniqueKeys(Deduped(s)) && |Deduped(s)| <= |s|
  {
    if s != [] {
      DedupedUnique(s[..|s| - 1]);
      PutIs(Deduped(s[..|s| - 1]), s[|s| - 1]);
      KeysOfAt(Deduped(s[..|s| - 1]));
      KeysOfAt(Deduped(s));
    }
  }

  /** De-duplicating keeps the order in which the keys were first given and the value given last. */
  lemma {:induction false} DedupedMeaning(s: seq<KeyValue>, k: Key)
    ensures KeysOf(Deduped(s)) == FirstKeys(s)
    ensures LastValue(Deduped(s), k) == LastValue(s, k)
  {
    if s != [] {
      var front, kv := s[..|s| - 1], s[|s| - 1];
      DedupedMeaning(front, k);
      DedupedUnique(front);
      PutIs(Deduped(front), kv);
      PutValue(Deduped(front), kv, k);
      KeysOfAt(Deduped(front));
      KeyOfKeys(Deduped(front), kv.key);
      assert (Deduped(front) + [kv])[..|Deduped(front)|] == Deduped(front);
    }
  }

  lemma KeyOfKeys(s: seq<KeyValue>, k: Key)
    ensures k in KeysOf(s) <==> HasKey(s, k)
  {
    KeysOfAt(s);
    if HasKey(s, k) {
      var i :| 0 <= i < |s| && s[i].key == k;
      assert KeysOf(s)[i] == k;
    }
  }

  lemma {:induction false} DedupedIdempotent(s: seq<KeyValue>)
    requires UniqueKeys(s)
    ensures Deduped(s) == s
  {
    if s != [] {
      var front, kv := s[..|s| - 1], s[|s| - 1];
      DedupedIdempotent(front);
      PutIs(front, kv);
      assert !HasKey(front, kv.key);
      assert s == front + [kv];
    }
  }

  // ----- lists of limited length -----

  predicate Full(s: seq<KeyValue>, cap: Option<nat>) {
    cap.Some? && |s| >= cap.value
  }

  /** Updates always happen; a new key is refused when the list is full. */
  function CappedPut(s: seq<KeyValue>, kv: KeyValue, cap: Option<nat>): seq<KeyValue> {
    if !HasKey(s, kv.key) && Full(s, cap) then s else Put(s, kv)
  }

  function CappedAll(s: seq<KeyValue>, xs: seq<KeyValue>, cap: Option<nat>): seq<KeyValue> {
    if xs == [] then s else CappedPut(CappedAll(s, xs[..|xs| - 1], cap), xs[|xs| - 1], cap)
  }

  /** How much of a list of `m` attributes is kept, the first `n` of which were there before. */
  function Cut(n: nat, m: nat, cap: Option<nat>): nat
    requires n <= m
  {
    if cap == None then m else Max(n, Min(m, cap.value))
  }

  lemma {:induction false} CappedSplit(s: seq<KeyValue>, xs: seq<KeyValue>, ys: seq<KeyValue>, cap: Option<nat>)
    ensures CappedAll(s, xs + ys, cap) == CappedAll(CappedAll(s, xs, cap), ys, cap)
  {
    if ys == [] {
      assert xs + ys == xs;
    } else {
      assert (xs + ys)[..|xs + ys| - 1] == xs + ys[..|ys| - 1];
      CappedSplit(s, xs, ys[..|ys| - 1], cap);
    }
  }

  lemma {:induction false} DedupedAppend(s: seq<KeyValue>, xs: seq<KeyValue>)
    ensures Deduped(s + xs) == CappedAll(Deduped(s), xs, None)
  {
    if xs == [] {
      assert s + xs == s;
    } else {
      assert (s + xs)[..|s + xs| - 1] == s + xs[..|xs| - 1];
      DedupedAppend(s, xs[..|xs| - 1]);
    }
  }

  /**
   A capped list is the front part of the list without a cap: refused keys stay refused, kept ones get every update.
   */
  lemma {:induction false} CappedIsPrefix(s: seq<KeyValue>, xs: seq<KeyValue>, cap: Option<nat>)
    requires UniqueKeys(s)
    ensures UniqueKeys(CappedAll(s, xs, cap))
    ensures |s| <= |CappedAll(s, xs, None)|
    ensures CappedAll(s, xs, cap) == CappedAll(s, xs, None)[..Cut(|s|, |CappedAll(s, xs, None)|, cap)]
  {
    if xs != [] {
      var front, x := xs[..|xs| - 1], xs[|xs| - 1];
      CappedIsPrefix(s, front, cap);
      CappedIsPrefix(s, front, None);
      PrefixStep(CappedAll(s, front, None), |s|, x, cap);
    }
  }

  lemma PrefixStep(all: seq<KeyValue>, n: nat, x: KeyValue, cap: Option<nat>)
    requires UniqueKeys(all) && n <= |all|
    ensures |all| <= |Put(all, x)| && UniqueKeys(CappedPut(all[..Cut(n, |all|, cap)], x, cap))
    ensures CappedPut(all[..Cut(n, |all|, cap)], x, cap) == Put(all, x)[..Cut(n, |Put(all, x)|, cap)]
  {
    PutIs(all[..Cut(n, |all|, cap)], x);
    if HasKey(all, x.key) {
      KnownPrefixStep(all, n, x, cap);
    } else {
      NewPrefixStep(all, n, x, cap);
    }
  }

  lemma KnownPrefixStep(all: seq<KeyValue>, n: nat, x: KeyValue, cap: Option<nat>)
    requires UniqueKeys(all) && n <= |all| && HasKey(all, x.key)
    ensures |Put(all, x)| == |all|
    ensures CappedPut(all[..Cut(n, |all|, cap)], x, cap) == Put(all, x)[..Cut(n, |all|, cap)]
  {
    var i :| 0 <= i < |all| && all[i].key == x.key;
    PutAt(all, i, x);
    PrefixUpdate(all, Cut(n, |all|, cap), i, x);
  }

  lemma NewPrefixStep(all: seq<KeyValue>, n: nat, x: KeyValue, cap: Option<nat>)
    requires n <= |all| && !HasKey(all, x.key)
    ensures |Put(all, x)| == |all| + 1
    ensures CappedPut(all[..Cut(n, |all|, cap)], x, cap) == Put(all, x)[..Cut(n, |all| + 1, cap)]
  {
    PutNew(all, x);
    PrefixNew(all, Cut(n, |all|, cap), x);
  }

  lemma PrefixUpdate(all: seq<KeyValue>, c: nat, i: nat, x: KeyValue)
    requires UniqueKeys(all) && c <= |all| && i < |all| && all[i].key == x.key
    ensures HasKey(all[..c], x.key) <==> i < c
    ensures all[i := x][..c] == if i < c then Put(all[..c], x) else all[..c]
  {
    if i < c {
      assert all[..c][i].key == x.key;
      PutAt(all[..c], i, x);
    }
  }

  lemma PrefixNew(all: seq<KeyValue>, c: nat, x: KeyValue)
    requires c <= |all| && !HasKey(all, x.key)
    ensures !HasKey(all[..c], x.key) && Put(all[..c], x) == all[..c] + [x]
    ensures (all + [x])[..c] == all[..c]
  {
    PutNew(all[..c], x);
  }

  /** Every kept attribute has the value given last for its key. */
  lemma CappedValue(s: seq<KeyValue>, xs: seq<KeyValue>, cap: Option<nat>, kv: KeyValue)
    requires UniqueKeys(s) && kv in CappedAll(s, xs, cap)
    ensures LastValue(s + xs, kv.key) == Some(kv.value)
  {
    CappedIsPrefix(s, xs, cap);
    DedupedIdempotent(s);
    DedupedAppend(s, xs);
    DedupedUnique(s + xs);
    DedupedMeaning(s + xs, kv.key);
    var i :| 0 <= i < |CappedAll(s, xs, cap)| && CappedAll(s, xs, cap)[i] == kv;
    LastValueUnique(Deduped(s + xs), i);
  }

  /** The kept keys are the ones first used earliest. */
  lemma CappedKeys(s: seq<KeyValue>, xs: seq<KeyValue>, cap: Option<nat>)
    requires UniqueKeys(s)
    ensures |s| <= |FirstKeys(s + xs)|
    ensures KeysOf(CappedAll(s, xs, cap)) == FirstKeys(s + xs)[..Cut(|s|, |FirstKeys(s + xs)|, cap)]
  {
    CappedIsPrefix(s, xs, cap);
    DedupedIdempotent(s);
    DedupedAppend(s, xs);
    DedupedMeaning(s + xs, "");
    KeysOfAt(Deduped(s + xs));
    KeysOfAt(CappedAll(s, xs, cap));
  }

  // ----- de-duplication in place -----

  /** Where the attributes of a list with unique keys are. */
  ghost predicate Indexes(index: map<Key, nat>, s: seq<KeyValue>) {
    && UniqueKeys(s)
    && (forall k :: k in index ==> At(index[k], s, k))
    && (forall i :: 0 <= i < |s| ==> s[i].key in index)
  }

  predicate At(i: nat, s: seq<KeyValue>, k: Key) {
    i < |s| && s[i].key == k
  }

  lemma IndexFinds(index: map<Key, nat>, s: seq<KeyValue>, k: Key)
    requires Indexes(index, s)
    ensures k in index <==> HasKey(s, k)
  {
    if k in index {
      assert At(index[k], s, k);
    }
  }

  /** An attribute put in the place of the one with its key. */
  lemma IndexReplace(index: map<Key, nat>, s: seq<KeyValue>, kv: KeyValue)
    requires Indexes(index, s) && kv.key in index
    ensures At(index[kv.key], s, kv.key)
    ensures Put(s, kv) == s[index[kv.key] := kv]
    ensures Indexes(index, Put(s, kv))
  {
    assert At(index[kv.key], s, kv.key);
    PutAt(s, index[kv.key], kv);
    forall k | k in index
      ensures At(index[k], Put(s, kv), k)
    {
      assert At(index[k], s, k);
    }
  }

  /** An attribute with a new key at the end. */
  lemma IndexExtend(index: map<Key, nat>, s: seq<KeyValue>, kv: KeyValue)
    requires Indexes(index, s) && kv.key !in index
    ensures Put(s, kv) == s + [kv]
    ensures Indexes(index[kv.key := |s|], Put(s, kv))
  {
    IndexFinds(index, s, kv.key);
    PutNew(s, kv);
    var index', s' := index[kv.key := |s|], s + [kv];
    forall k | k in index'
      ensures At(index'[k], s', k)
    {
      assert k != kv.key ==> At(index[k], s, k);
    }
  }

  /**
   The de-duplication loops of the SDK: the result shares the array with the list that is read, whose first `n`
   elements it is given.  `m` attributes remain; `index` says where.
   */
  method DedupInPlace(kvs: array<KeyValue>, n: nat) returns (m: nat, index: map<Key, nat>)
    requires n <= kvs.Length
    modifies kvs
    ensures m <= n && kvs[..m] == Deduped(old(kvs[..n]))
    ensures kvs[n..] == old(kvs[n..])
    ensures Indexes(index, kvs[..m])
  {
    ghost var given := kvs[..];
    ghost var unique: seq<KeyValue> := [];
    m, index := 0, map[];
    var i := 0;
    while i < n
      invariant m == |unique| <= i <= n
      invariant kvs[..m] == unique == Deduped(given[..i])
      invariant kvs[i..] == given[i..]
      invariant Indexes(index, unique)
    {
      DedupedStep(given, i);
      assert kvs[i..][0] == given[i];
      m, index := PutInPlace(kvs, m, i, index, unique);
      unique := Put(unique, given[i]);
      i := i + 1;
    }
    assert given[..n] == old(kvs[..n]);
  }

  /** One round of that loop. */
  method PutInPlace(kvs: array<KeyValue>, m: nat, i: nat, index: map<Key, nat>, ghost unique: seq<KeyValue>)
    returns (m': nat, index': map<Key, nat>)
    requires m <= i < kvs.Length && kvs[..m] == unique && Indexes(index, unique)
    modifies kvs
    ensures m' == |Put(unique, old(kvs[i]))| <= i + 1 && kvs[..m'] == Put(unique, old(kvs[i]))
    ensures kvs[i + 1..] == old(kvs[i..])[1..]
    ensures Indexes(index', Put(unique, old(kvs[i])))
  {
    var a := kvs[i];
    if a.key in index {
      IndexReplace(index, unique, a);
      kvs[index[a.key]] := a;
      m', index' := m, index;
    } else {
      IndexExtend(index, unique, a);
      kvs[m] := a;
      m', index' := m + 1, index[a.key := m];
    }
  }

  lemma DedupedStep(s: seq<KeyValue>, i: nat)
    requires i < |s|
    ensures Deduped(s[..i + 1]) == Put(Deduped(s[..i]), s[i])
  {
    assert s[..i + 1][..i] == s[..i];
  }
}

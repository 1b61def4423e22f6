/** Keys, values and attributes (package attribute), and what lists of attributes mean. */
module Attributes {
  import opened Prelude

  type Key = string

  /** Only strings and the invalid value matter to the operations modelled; other values are opaque. */
  datatype Value = Invalid | Text(text: string) | Opaque(id: int)

  datatype KeyValue = KeyValue(key: Key, value: Value) {
    predicate Valid() {
      key != "" && !value.Invalid?
    }
  }

  // ----- the order on keys -----

  /** Lexicographic order; on valid UTF-8 this is also the order of the encoded bytes. */
  predicate Less(a: Key, b: Key) {
    b != [] && (a == [] || a[0] < b[0] || (a[0] == b[0] && Less(a[1..], b[1..])))
  }

  lemma {:induction false} LessIrreflexive(a: Key)
    ensures !Less(a, a)
  {
    if a != [] {
      LessIrreflexive(a[1..]);
    }
  }

  lemma {:induction false} LessTransitive(a: Key, b: Key, c: Key)
    requires Less(a, b) && Less(b, c)
    ensures Less(a, c)
  {
    if a != [] && a[0] == b[0] == c[0] {
      LessTransitive(a[1..], b[1..], c[1..]);
    }
  }

  lemma {:induction false} LessTotal(a: Key, b: Key)
    ensures Less(a, b) || a == b || Less(b, a)
  {
    if a != [] && b != [] && a[0] == b[0] {
      LessTotal(a[1..], b[1..]);
      assert a == [a[0]] + a[1..] && b == [b[0]] + b[1..];
    }
  }

  lemma LessAsymmetric(a: Key, b: Key)
    requires Less(a, b)
    ensures !Less(b, a) && a != b
  {
    if Less(b, a) {
      LessTransitive(a, b, a);
    }
    LessIrreflexive(a);
  }

  // ----- the meaning of a list of attributes: the last value given for a key -----

  function LastValue(s: seq<KeyValue>, k: Key): Option<Value> {
    if s == [] then None
    else if s[|s| - 1].key == k then Some(s[|s| - 1].value)
    else LastValue(s[..|s| - 1], k)
  }

  predicate HasKey(s: seq<KeyValue>, k: Key) {
    exists i :: 0 <= i < |s| && s[i].key == k
  }

  lemma {:induction false} LastValueConcat(a: seq<KeyValue>, b: seq<KeyValue>, k: Key)
    ensures LastValue(a + b, k) == if LastValue(b, k).Some? then LastValue(b, k) else LastValue(a, k)
  {
    if b == [] {
      assert a + b == a;
    } else {
      assert (a + b)[|a + b| - 1] == b[|b| - 1];
      assert (a + b)[..|a + b| - 1] == a + b[..|b| - 1];
      LastValueConcat(a, b[..|b| - 1], k);
    }
  }

  lemma {:induction false} LastValueIs(s: seq<KeyValue>, k: Key)
    ensures LastValue(s, k).Some? <==> HasKey(s, k)
    ensures LastValue(s, k).Some? ==> KeyValue(k, LastValue(s, k).value) in s
  {
    if s != [] && s[|s| - 1].key != k {
      var front := s[..|s| - 1];
      LastValueIs(front, k);
      if HasKey(s, k) {
        var i :| 0 <= i < |s| && s[i].key == k;
        assert front[i].key == k;
      }
      if HasKey(front, k) {
        var i :| 0 <= i < |front| && front[i].key == k;
        assert s[i].key == k;
      }
    }
  }

  ghost predicate UniqueKeys(s: seq<KeyValue>) {
    forall i, j :: 0 <= i < j < |s| ==> s[i].key != s[j].key
  }

  /** With unique keys, having an attribute is the same as its value being the last one. */
  lemma {:induction false} LastValueUnique(s: seq<KeyValue>, i: nat)
    requires UniqueKeys(s) && i < |s|
    ensures LastValue(s, s[i].key) == Some(s[i].value)
  {
    if i < |s| - 1 {
      LastValueUnique(s[..|s| - 1], i);
    }
  }

  /** Lists mean the same when they agree on the last value of every key. */
  ghost predicate SameMeaning(a: seq<KeyValue>, b: seq<KeyValue>) {
    forall k :: LastValue(a, k) == LastValue(b, k)
  }

  /** The attributes `keep` accepts, in order. */
  function Kept(s: seq<KeyValue>, keep: KeyValue -> bool): (r: seq<KeyValue>) {
    if s == [] then []
    else if keep(s[0]) then [s[0]] + Kept(s[1..], keep)
    else Kept(s[1..], keep)
  }

  function Not(keep: KeyValue -> bool): KeyValue -> bool {
    kv => !keep(kv)
  }

  lemma {:induction false} KeptIn(s: seq<KeyValue>, keep: KeyValue -> bool, kv: KeyValue)
    ensures kv in Kept(s, keep) <==> kv in s && keep(kv)
  {
    if s != [] {
      KeptIn(s[1..], keep, kv);
      assert s == [s[0]] + s[1..];
    }
  }

  lemma {:induction false} KeptConcat(s: seq<KeyValue>, t: seq<KeyValue>, keep: KeyValue -> bool)
    ensures Kept(s + t, keep) == Kept(s, keep) + Kept(t, keep)
  {
    if s == [] {
      assert s + t == t;
    } else {
      assert (s + t)[0] == s[0] && (s + t)[1..] == s[1..] + t;
      KeptConcat(s[1..], t, keep);
    }
  }

  // ----- sorted lists with unique keys -----

  ghost predicate StrictlySorted(s: seq<KeyValue>) {
    forall i, j :: 0 <= i < j < |s| ==> Less(s[i].key, s[j].key)
  }

  lemma SortedIsUnique(s: seq<KeyValue>)
    requires StrictlySorted(s)
    ensures UniqueKeys(s)
  {
    forall i, j | 0 <= i < j < |s|
      ensures s[i].key != s[j].key
    {
      LessIrreflexive(s[i].key);
    }
  }

  lemma HeadIsLeast(s: seq<KeyValue>, t: seq<KeyValue>)
    requires StrictlySorted(s) && StrictlySorted(t) && SameMeaning(s, t) && s != [] && t != []
    ensures !Less(t[0].key, s[0].key)
  {
    SortedIsUnique(t);
    LastValueUnique(t, 0);
    LastValueIs(s, t[0].key);
    var i :| 0 <= i < |s| && s[i].key == t[0].key;
    if Less(t[0].key, s[0].key) {
      LessAsymmetric(t[0].key, s[0].key);
    }
  }

  lemma FirstHasValue(s: seq<KeyValue>)
    requires s != []
    ensures LastValue(s, s[0].key).Some?
  {
    LastValueIs(s, s[0].key);
  }

  /** A sorted list with unique keys is determined by its meaning. */
  lemma {:induction false} SortedIsCanonical(s: seq<KeyValue>, t: seq<KeyValue>)
    requires StrictlySorted(s) && StrictlySorted(t) && SameMeaning(s, t)
    ensures s == t
    decreases |s|
  {
    if s == [] || t == [] {
      if t != [] { FirstHasValue(t); }
      if s != [] { FirstHasValue(s); }
    } else {
      HeadIsLeast(s, t);
      HeadIsLeast(t, s);
      LessTotal(s[0].key, t[0].key);
      SortedIsUnique(s);
      SortedIsUnique(t);
      LastValueUnique(s, 0);
      LastValueUnique(t, 0);
      assert s[0] == t[0];
      assert s == [s[0]] + s[1..] && t == [t[0]] + t[1..];
      forall k
        ensures LastValue(s[1..], k) == LastValue(t[1..], k)
      {
        LastValueConcat([s[0]], s[1..], k);
        LastValueConcat([t[0]], t[1..], k);
        LastValueIs(s[1..], k);
        LastValueIs(t[1..], k);
      }
      SortedIsCanonical(s[1..], t[1..]);
    }
  }

  lemma {:induction false} KeptSorted(s: seq<KeyValue>, keep: KeyValue -> bool)
    requires StrictlySorted(s)
    ensures StrictlySorted(Kept(s, keep))
  {
    if s != [] {
      KeptSorted(s[1..], keep);
      var rest := Kept(s[1..], keep);
      forall i | 0 <= i < |rest|
        ensures Less(s[0].key, rest[i].key)
      {
        KeptIn(s[1..], keep, rest[i]);
        var j :| 0 <= j < |s[1..]| && s[1..][j] == rest[i];
        assert s[1 + j] == rest[i];
      }
    }
  }

  /** Filtering a list with unique keys filters its meaning. */
  lemma KeptMeaning(s: seq<KeyValue>, keep: KeyValue -> bool, k: Key)
    requires StrictlySorted(s)
    ensures LastValue(Kept(s, keep), k) == Filtered(LastValue(s, k), k, keep)
  {
    var t := Kept(s, keep);
    KeptSorted(s, keep);
    SortedIsUnique(s);
    SortedIsUnique(t);
    LastValueIs(s, k);
    LastValueIs(t, k);
    if LastValue(t, k).Some? {
      var kv := KeyValue(k, LastValue(t, k).value);
      KeptIn(s, keep, kv);
      var i :| 0 <= i < |s| && s[i] == kv;
      LastValueUnique(s, i);
    } else if LastValue(s, k).Some? {
      var kv := KeyValue(k, LastValue(s, k).value);
      KeptIn(s, keep, kv);
      assert kv in t ==> HasKey(t, k);
    }
  }

  /** The value of key `k`, if `keep` accepts it. */
  function Filtered(v: Option<Value>, k: Key, keep: KeyValue -> bool): Option<Value> {
    if v.Some? && keep(KeyValue(k, v.value)) then v else None
  }
}

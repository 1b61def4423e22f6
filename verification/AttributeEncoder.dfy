/**
 The default encoding of attribute sets (attribute/encoder.go).  Strings are sequences of code points here; module
 EncodedBytes has strings of bytes, which need not be valid UTF-8.
 */
module AttributeEncoder {
  import opened Prelude
  import opened Attributes
  import opened AttributeIterator

  const ESCAPE_CHAR := '\\'

  predicate IsSpecial(ch: char) {
    ch == '=' || ch == ',' || ch == ESCAPE_CHAR
  }

  function EscapedChar(ch: char): string {
    if IsSpecial(ch) then [ESCAPE_CHAR, ch] else [ch]
  }

  function Escaped(val: string): string {
    if val == [] then [] else EscapedChar(val[0]) + Escaped(val[1..])
  }

  /** How a value is written: strings escaped, others as their own text, which `emit` gives. */
  function ValueText(v: Value, emit: Value -> string): string {
    if v.Text? then Escaped(v.text) else emit(v)
  }

  function AttributeText(kv: KeyValue, emit: Value -> string): string {
    Escaped(kv.key) + (['='] + ValueText(kv.value, emit))
  }

  /** The attributes from place `i` on, all but the very first with a comma in front. */
  function Encoded(kvs: seq<KeyValue>, i: nat, emit: Value -> string): string
    decreases |kvs| - i
  {
    if i >= |kvs| then []
    else
      var text := AttributeText(kvs[i], emit) + Encoded(kvs, i + 1, emit);
      if i > 0 then [','] + text else text
  }

  method CopyAndEscape(buf: string, val: string) returns (buf': string)
    ensures buf' == buf + Escaped(val)
  {
    buf' := buf;
    var i := 0;
    assert val[0..] == val;
    while i < |val|
      invariant i <= |val|
      invariant buf + Escaped(val) == buf' + Escaped(val[i..])
    {
      var ch := val[i];
      assert val[i..][1..] == val[i + 1..];
      assert Escaped(val[i..]) == EscapedChar(ch) + Escaped(val[i + 1..]);
      Regroup(buf', EscapedChar(ch), Escaped(val[i + 1..]));
      if IsSpecial(ch) {
        buf' := buf' + [ESCAPE_CHAR];
      }
      ghost var before := buf';
      buf' := buf' + [ch];
      i := i + 1;
    }
    assert buf' + [] == buf';
  }

  /** Encode writes the attributes the iterator still has to return. */
  method Encode(iter: Iterator, emit: Value -> string) returns (buf: string)
    requires iter.idx >= -1
    modifies iter
    ensures buf == Encoded(iter.storage, old(iter.idx) + 1, emit)
  {
    buf := [];
    ghost var kvs := iter.storage;
    ghost var all := Encoded(kvs, iter.idx + 1, emit);
    assert buf + all == all;
    var more := iter.Next();
    while more
      invariant 0 <= iter.idx && more == (iter.idx < |kvs|)
      invariant all == buf + Encoded(kvs, iter.idx, emit)
      decreases |kvs| - iter.idx
    {
      EncodedStep(buf, kvs, iter.idx, emit);
      buf := EncodeOne(buf, iter.idx > 0, iter.Attribute(), emit);
      more := iter.Next();
    }
    assert buf + [] == buf;
  }

  /** One round of that loop. */
  method EncodeOne(given: string, comma: bool, keyValue: KeyValue, emit: Value -> string) returns (buf: string)
    ensures buf == (if comma then given + [','] else given) + AttributeText(keyValue, emit)
  {
    buf := given;
    if comma {
      buf := buf + [','];
    }
    ghost var front := buf;
    buf := CopyAndEscape(buf, keyValue.key);
    buf := buf + ['='];
    if keyValue.value.Text? {
      buf := CopyAndEscape(buf, keyValue.value.text);
    } else {
      buf := buf + emit(keyValue.value);
    }
    Regroup(front + Escaped(keyValue.key), ['='], ValueText(keyValue.value, emit));
    Regroup(front, Escaped(keyValue.key), ['='] + ValueText(keyValue.value, emit));
  }

  lemma EncodedStep(given: string, kvs: seq<KeyValue>, i: nat, emit: Value -> string)
    requires i < |kvs|
    ensures given + Encoded(kvs, i, emit)
         == ((if i > 0 then given + [','] else given) + AttributeText(kvs[i], emit)) + Encoded(kvs, i + 1, emit)
  {
    var text, rest := AttributeText(kvs[i], emit), Encoded(kvs, i + 1, emit);
    Regroup(given, [','], text + rest);
    Regroup(given + [','], text, rest);
    Regroup(given, text, rest);
  }

  // ----- the decoder -----

  /** The text up to a delimiter that is not escaped, and what is left from there on. */
  function Field(s: string): (string, string) {
    if s == [] || s[0] == '=' || s[0] == ',' then ([], s)
    else if s[0] == ESCAPE_CHAR && |s| > 1 then
      var (text, rest) := Field(s[2..]);
      ([s[1]] + text, rest)
    else
      var (text, rest) := Field(s[1..]);
      ([s[0]] + text, rest)
  }

  lemma FieldShrinks(s: string)
    ensures |Field(s).1| <= |s|
  {
  }

  /** Reads keys and values in turn. */
  function Decoded(s: string): seq<KeyValue>
    decreases |s|
  {
    if s == [] then []
    else
      var (key, rest) := Field(s);
      FieldShrinks(s);
      if rest == [] then [KeyValue(key, Text([]))]
      else
        var (value, tail) := Field(rest[1..]);
        FieldShrinks(rest[1..]);
        [KeyValue(key, Text(value))] + if tail == [] then [] else Decoded(tail[1..])
  }

  lemma {:induction false} FieldEscaped(text: string, tail: string)
    requires tail == [] || tail[0] == '=' || tail[0] == ','
    ensures Field(Escaped(text) + tail) == (text, tail)
  {
    if text == [] {
      assert Escaped(text) + tail == tail;
    } else {
      FieldEscaped(text[1..], tail);
      Regroup(EscapedChar(text[0]), Escaped(text[1..]), tail);
      FieldStep(text[0], Escaped(text[1..]) + tail);
      assert text == [text[0]] + text[1..];
    }
  }

  lemma FieldStep(ch: char, rest: string)
    ensures Field(EscapedChar(ch) + rest) == ([ch] + Field(rest).0, Field(rest).1)
  {
    var s := EscapedChar(ch) + rest;
    if IsSpecial(ch) {
      assert s[2..] == rest;
    } else {
      assert s[1..] == rest;
    }
  }

  predicate AllText(kvs: seq<KeyValue>) {
    forall i :: 0 <= i < |kvs| ==> kvs[i].value.Text?
  }

  /** Decoding undoes the encoding of string-valued attributes. */
  lemma {:induction false} DecodedFrom(kvs: seq<KeyValue>, i: nat, emit: Value -> string)
    requires AllText(kvs) && i < |kvs|
    ensures Decoded(AttributeText(kvs[i], emit) + Encoded(kvs, i + 1, emit)) == kvs[i..]
    decreases |kvs| - i
  {
    OneDecoded(kvs[i], emit, Encoded(kvs, i + 1, emit));
    FirstAndRest(kvs, i);
    if i + 1 < |kvs| {
      DecodedFrom(kvs, i + 1, emit);
      TailText(kvs, i + 1, emit);
    }
  }

  lemma TailText(kvs: seq<KeyValue>, i: nat, emit: Value -> string)
    requires 0 < i < |kvs|
    ensures var tail := Encoded(kvs, i, emit);
      tail != [] && tail[0] == ',' && tail[1..] == AttributeText(kvs[i], emit) + Encoded(kvs, i + 1, emit)
  {
  }

  lemma FirstAndRest(kvs: seq<KeyValue>, i: nat)
    requires i < |kvs|
    ensures kvs[i..] == [kvs[i]] + kvs[i + 1..] && (i + 1 == |kvs| ==> kvs[i..] == [kvs[i]])
  {
  }

  lemma OneDecoded(kv: KeyValue, emit: Value -> string, tail: string)
    requires kv.value.Text? && (tail == [] || tail[0] == ',')
    ensures var s := AttributeText(kv, emit) + tail;
      s != [] && Decoded(s) == [kv] + if tail == [] then [] else Decoded(tail[1..])
  {
    var value := Escaped(kv.value.text);
    var s := AttributeText(kv, emit) + tail;
    var rest := ['='] + (value + tail);
    assert s == Escaped(kv.key) + rest;
    FieldEscaped(kv.key, rest);
    assert rest[1..] == value + tail;
    FieldEscaped(kv.value.text, tail);
  }

  lemma DecodeEncoded(kvs: seq<KeyValue>, emit: Value -> string)
    requires AllText(kvs)
    ensures Decoded(Encoded(kvs, 0, emit)) == kvs
  {
    if kvs != [] {
      DecodedFrom(kvs, 0, emit);
    }
  }

  /** The encoding is unique: sets of string-valued attributes with the same encoding are equal. */
  lemma EncodingIsInjective(a: seq<KeyValue>, b: seq<KeyValue>, emit: Value -> string)
    requires AllText(a) && AllText(b)
    ensures Encoded(a, 0, emit) == Encoded(b, 0, emit) <==> a == b
  {
    DecodeEncoded(a, emit);
    DecodeEncoded(b, emit);
  }

  /** The attributes with every value replaced by the string of its text. */
  function AsText(kvs: seq<KeyValue>, emit: Value -> string): (r: seq<KeyValue>)
    ensures |r| == |kvs|
  {
    if kvs == [] then []
    else
      var kv := kvs[|kvs| - 1];
      AsText(kvs[..|kvs| - 1], emit) + [if kv.value.Text? then kv else KeyValue(kv.key, Text(emit(kv.value)))]
  }

  predicate Plain(text: string) {
    forall i :: 0 <= i < |text| ==> !IsSpecial(text[i])
  }

  /** The texts of the values that are no strings need no escaping; those of numbers and booleans do not. */
  predicate PlainTexts(kvs: seq<KeyValue>, emit: Value -> string) {
    forall i :: 0 <= i < |kvs| ==> kvs[i].value.Text? || Plain(emit(kvs[i].value))
  }

  lemma {:induction false} AsTextAt(kvs: seq<KeyValue>, emit: Value -> string, i: nat)
    requires i < |kvs|
    ensures AsText(kvs, emit)[i].key == kvs[i].key
    ensures AsText(kvs, emit)[i].value
         == if kvs[i].value.Text? then kvs[i].value else Text(emit(kvs[i].value))
  {
    if i < |kvs| - 1 {
      AsTextAt(kvs[..|kvs| - 1], emit, i);
    }
  }

  lemma {:induction false} EncodedAsText(kvs: seq<KeyValue>, i: nat, emit: Value -> string)
    requires PlainTexts(kvs, emit)
    ensures Encoded(kvs, i, emit) == Encoded(AsText(kvs, emit), i, emit)
    decreases |kvs| - i
  {
    if i < |kvs| {
      EncodedAsText(kvs, i + 1, emit);
      AsTextAt(kvs, emit, i);
      if !kvs[i].value.Text? {
        NothingEscaped(emit(kvs[i].value));
      }
      assert AttributeText(AsText(kvs, emit)[i], emit) == AttributeText(kvs[i], emit);
    }
  }

  /**
   With other values the encoding is not unique.  If their texts need no escaping, sets have equal encodings exactly if
   they are equal after every value is replaced by the string of its text.
   */
  lemma EncodingsEqualIff(a: seq<KeyValue>, b: seq<KeyValue>, emit: Value -> string)
    requires PlainTexts(a, emit) && PlainTexts(b, emit)
    ensures Encoded(a, 0, emit) == Encoded(b, 0, emit) <==> AsText(a, emit) == AsText(b, emit)
  {
    EncodedAsText(a, 0, emit);
    EncodedAsText(b, 0, emit);
    TextsOnly(a, emit);
    TextsOnly(b, emit);
    EncodingIsInjective(AsText(a, emit), AsText(b, emit), emit);
  }

  lemma TextsOnly(kvs: seq<KeyValue>, emit: Value -> string)
    ensures AllText(AsText(kvs, emit))
  {
    forall i | 0 <= i < |kvs|
      ensures AsText(kvs, emit)[i].value.Text?
    {
      AsTextAt(kvs, emit, i);
    }
  }

  /** So the integer 1 and the string "1" under one key cannot be told apart. */
  lemma NumberAndStringCollide(k: Key, one: Value, emit: Value -> string)
    requires !one.Text? && emit(one) == "1"
    ensures [KeyValue(k, one)] != [KeyValue(k, Text("1"))]
    ensures Encoded([KeyValue(k, one)], 0, emit) == Encoded([KeyValue(k, Text("1"))], 0, emit)
  {
    var a, b := [KeyValue(k, one)], [KeyValue(k, Text("1"))];
    AsTextAt(a, emit, 0);
    AsTextAt(b, emit, 0);
    assert AsText(a, emit) == AsText(b, emit);
    EncodingsEqualIff(a, b, emit);
    assert a[0] != b[0];
  }

  lemma {:induction false} NothingEscaped(t: string)
    requires Plain(t)
    ensures Escaped(t) == t
  {
    if t != [] {
      assert forall i :: 0 <= i < |t[1..]| ==> t[1..][i] == t[1 + i];
      NothingEscaped(t[1..]);
      assert t == [t[0]] + t[1..];
    }
  }
}

/** What the encoder writes for keys and values that are any strings of bytes: it ranges over their characters. */
module EncodedBytes {
  import opened Prelude
  import opened Text
  import opened Utf8
  import opened BaggageText
  import A = Attributes
  import E = AttributeEncoder

  /** Whether a character is one of the three that are escaped. */
  predicate IsSpecial(r: nat) {
    r == 0x3D || r == 0x2C || r == 0x5C
  }

  function WrittenRune(r: nat): Bytes {
    if IsSpecial(r) then [E.ESCAPE_CHAR] + EncodeRune(r) else EncodeRune(r)
  }

  function Written(runes: seq<nat>): Bytes {
    if runes == [] then [] else WrittenRune(runes[0]) + Written(runes[1..])
  }

  method CopyAndEscape(buf: Bytes, val: Bytes) returns (buf': Bytes)
    ensures buf' == buf + Written(Runes(val))
  {
    buf' := buf;
    var i := 0;
    assert val[0..] == val;
    while i < |val|
      invariant i <= |val|
      invariant Completed(buf', val[i..]) == Completed(buf, val)
      decreases |val| - i
    {
      ghost var rest := val[i..];
      var size;
      buf', size := WriteFirst(buf', val[i..]);
      assert rest[size..] == val[i + size..];
      i := i + size;
    }
    assert buf' + [] == buf';
  }

  /** What the buffer holds when the rest has been written, too. */
  function Completed(buf: Bytes, rest: Bytes): Bytes {
    buf + Written(Runes(rest))
  }

  /** One round of that loop: the first character of what is left is written. */
  method WriteFirst(given: Bytes, rest: Bytes) returns (buf: Bytes, size: nat)
    requires rest != []
    ensures 0 < size <= |rest|
    ensures Completed(buf, rest[size..]) == Completed(given, rest)
  {
    var ch;
    ch, size := DecodeRune(rest).0, DecodeRune(rest).1;
    WrittenStep(given, rest);
    buf := WriteEscaped(given, ch);
  }

  method WriteEscaped(given: Bytes, ch: nat) returns (buf: Bytes)
    ensures buf == given + WrittenRune(ch)
  {
    buf := given;
    if IsSpecial(ch) {
      buf := buf + [E.ESCAPE_CHAR];
    }
    buf := buf + EncodeRune(ch);
  }

  lemma WrittenStep(given: Bytes, rest: Bytes)
    requires rest != []
    ensures var (ch, size) := DecodeRune(rest);
      given + Written(Runes(rest)) == (given + WrittenRune(ch)) + Written(Runes(rest[size..]))
  {
    var (ch, size) := DecodeRune(rest);
    assert Runes(rest)[1..] == Runes(rest[size..]);
    Regroup(given, WrittenRune(ch), Written(Runes(rest[size..])));
  }

  // ----- which strings are written alike -----

  lemma {:induction false} EscapedConcat(a: string, b: string)
    ensures E.Escaped(a + b) == E.Escaped(a) + E.Escaped(b)
  {
    if a == [] {
      assert a + b == b;
    } else {
      assert (a + b)[1..] == a[1..] + b;
      EscapedConcat(a[1..], b);
      Regroup(E.EscapedChar(a[0]), E.Escaped(a[1..]), E.Escaped(b));
    }
  }

  lemma EscapedRune(r: nat)
    ensures E.Escaped(EncodeRune(r)) == WrittenRune(r)
  {
    if r < 0x80 {
      assert EncodeRune(r)[1..] == [];
    } else {
      E.NothingEscaped(EncodeRune(r));
    }
  }

  /** What is no character is replaced, everything else is written as it is, with the escapes. */
  lemma {:induction false} WrittenIsEscaped(val: Bytes)
    ensures Written(Runes(val)) == E.Escaped(Replaced(val))
    decreases |val|
  {
    if val != [] {
      var (r, n) := DecodeRune(val);
      FirstReplaced(val);
      WrittenIsEscaped(val[n..]);
      EscapedRune(r);
      EscapedConcat(EncodeRune(r), Replaced(val[n..]));
      assert Runes(val)[1..] == Runes(val[n..]);
    }
  }

  /** Replacing what is no character does not change the characters that are read. */
  lemma {:induction false} ReplacedRunes(val: Bytes)
    ensures Runes(Replaced(val)) == Runes(val)
    decreases |val|
  {
    if val != [] {
      var n := DecodeRune(val).1;
      ReplacedRunes(val[n..]);
      FirstOfReplaced(val);
    }
  }

  lemma FirstOfReplaced(val: Bytes)
    requires val != []
    ensures var (r, n) := DecodeRune(val);
      Replaced(val) != [] && DecodeRune(Replaced(val)).0 == r
      && Replaced(val)[DecodeRune(Replaced(val)).1..] == Replaced(val[n..])
  {
    if StartsCharacter(val) {
      CharacterStays(val, Replaced(val[LengthOf(val[0])..]));
    } else {
      ReplacementIsCharacter(Replaced(val[1..]));
    }
  }

  lemma EscapedInjective(a: string, b: string)
    requires E.Escaped(a) == E.Escaped(b)
    ensures a == b
  {
    E.FieldEscaped(a, []);
    E.FieldEscaped(b, []);
    assert E.Escaped(a) + [] == E.Escaped(a) && E.Escaped(b) + [] == E.Escaped(b);
  }

  /** Two strings are the same to the encoder exactly if they have the same characters. */
  lemma SameRunesIff(a: Bytes, b: Bytes)
    ensures Runes(a) == Runes(b) <==> Replaced(a) == Replaced(b)
  {
    if Runes(a) == Runes(b) {
      WrittenIsEscaped(a);
      WrittenIsEscaped(b);
      EscapedInjective(Replaced(a), Replaced(b));
    }
    ReplacedRunes(a);
    ReplacedRunes(b);
  }

  // ----- sets of string-valued attributes -----

  datatype Field = Field(key: Bytes, value: Bytes)

  function FieldText(f: Field): Bytes {
    Written(Runes(f.key)) + (['='] + Written(Runes(f.value)))
  }

  /** What is written from place `i` on, as AttributeEncoder.Encoded says for code points. */
  function Encoded(fs: seq<Field>, i: nat): Bytes
    decreases |fs| - i
  {
    if i >= |fs| then []
    else
      var text := FieldText(fs[i]) + Encoded(fs, i + 1);
      if i > 0 then [','] + text else text
  }

  /** Encode: the loop over the attributes. */
  method Encode(fs: seq<Field>) returns (buf: Bytes)
    ensures buf == Encoded(fs, 0)
  {
    buf := [];
    assert buf + Encoded(fs, 0) == Encoded(fs, 0);
    for i := 0 to |fs|
      invariant Encoded(fs, 0) == buf + Encoded(fs, i)
    {
      EncodedStep(buf, fs, i);
      if i > 0 {
        buf := buf + [','];
      }
      buf := WriteField(buf, fs[i]);
    }
    assert buf + [] == buf;
  }

  method WriteField(given: Bytes, f: Field) returns (buf: Bytes)
    ensures buf == given + FieldText(f)
  {
    buf := CopyAndEscape(given, f.key);
    buf := buf + ['='];
    buf := CopyAndEscape(buf, f.value);
    Regroup(given + Written(Runes(f.key)), ['='], Written(Runes(f.value)));
    Regroup(given, Written(Runes(f.key)), ['='] + Written(Runes(f.value)));
  }

  lemma EncodedStep(given: Bytes, fs: seq<Field>, i: nat)
    requires i < |fs|
    ensures given + Encoded(fs, i)
         == (if i > 0 then given + [','] else given) + FieldText(fs[i]) + Encoded(fs, i + 1)
  {
    var text, rest := FieldText(fs[i]), Encoded(fs, i + 1);
    Regroup(given, [','], text + rest);
    Regroup(given + [','], text, rest);
    Regroup(given, text, rest);
  }

  /** The attributes with everything that is no character replaced. */
  function Readable(fs: seq<Field>): (r: seq<A.KeyValue>)
    ensures |r| == |fs|
    ensures forall i :: 0 <= i < |r| ==> r[i] == A.KeyValue(Replaced(fs[i].key), A.Text(Replaced(fs[i].value)))
  {
    if fs == [] then []
    else [A.KeyValue(Replaced(fs[0].key), A.Text(Replaced(fs[0].value)))] + Readable(fs[1..])
  }

  lemma {:induction false} EncodedIs(fs: seq<Field>, i: nat, emit: A.Value -> string)
    ensures Encoded(fs, i) == E.Encoded(Readable(fs), i, emit)
    decreases |fs| - i
  {
    if i < |fs| {
      EncodedIs(fs, i + 1, emit);
      WrittenIsEscaped(fs[i].key);
      WrittenIsEscaped(fs[i].value);
      assert E.AttributeText(Readable(fs)[i], emit) == FieldText(fs[i]);
    }
  }

  ghost predicate SameRunes(a: seq<Field>, b: seq<Field>) {
    && |a| == |b|
    && forall i :: 0 <= i < |a| ==> Runes(a[i].key) == Runes(b[i].key) && Runes(a[i].value) == Runes(b[i].value)
  }

  /** The encodings are equal exactly if the characters of all keys and values are. */
  lemma EncodingsEqualIff(a: seq<Field>, b: seq<Field>)
    ensures Encoded(a, 0) == Encoded(b, 0) <==> SameRunes(a, b)
  {
    EncodedIs(a, 0, _ => "");
    EncodedIs(b, 0, _ => "");
    E.EncodingIsInjective(Readable(a), Readable(b), _ => "");
    ReadableIff(a, b);
  }

  lemma ReadableIff(a: seq<Field>, b: seq<Field>)
    ensures Readable(a) == Readable(b) <==> SameRunes(a, b)
  {
    if |a| == |b| {
      forall i | 0 <= i < |a|
        ensures Readable(a)[i] == Readable(b)[i]
           <==> Runes(a[i].key) == Runes(b[i].key) && Runes(a[i].value) == Runes(b[i].value)
      {
        SameRunesIff(a[i].key, b[i].key);
        SameRunesIff(a[i].value, b[i].value);
      }
    }
  }

  /** With valid UTF-8 the encoding is unique. */
  lemma ValidEncodingsEqualIff(a: seq<Field>, b: seq<Field>)
    requires forall f :: f in a + b ==> IsValid(f.key) && IsValid(f.value)
    ensures Encoded(a, 0) == Encoded(b, 0) <==> a == b
  {
    EncodingsEqualIff(a, b);
    if SameRunes(a, b) {
      forall i | 0 <= i < |a|
        ensures a[i] == b[i]
      {
        assert a[i] in a + b && b[i] in a + b;
        ValidSame(a[i].key, b[i].key);
        ValidSame(a[i].value, b[i].value);
      }
    }
  }

  lemma ValidSame(a: Bytes, b: Bytes)
    requires IsValid(a) && IsValid(b)
    ensures Runes(a) == Runes(b) <==> a == b
  {
    SameRunesIff(a, b);
    ReplacedIffValid(a);
    ReplacedIffValid(b);
  }

  /** Without it, it is not: the bytes 0xFE and 0xFF are no characters and are both written as the replacement. */
  lemma InvalidBytesCollide(key: Bytes)
    ensures var a, b := Field(key, ['\U{FE}']), Field(key, ['\U{FF}']);
      a != b && Encoded([a], 0) == Encoded([b], 0)
  {
    var a, b := Field(key, ['\U{FE}']), Field(key, ['\U{FF}']);
    assert a.value[0] != b.value[0];
    assert Runes(a.value) == [REPLACEMENT] == Runes(b.value);
    EncodingsEqualIff([a], [b]);
  }
}

/** Baggage (baggage/baggage.go; W3C Baggage, section "Definition"): properties, members, parsing and printing. */
module BaggageProperty {
  import opened Prelude
  import opened Text
  import opened Utf8
  import opened BaggageText

  datatype Property = Property(key: Bytes, value: Bytes, hasValue: bool)

  /** The zero value, which stands for an invalid property and for an empty one. */
  const ZERO: Property := Property([], [], false)

  // ----- printing -----

  function PropertyString(p: Property): Bytes {
    if !ValidateKey(p.key) then []
    else if p.hasValue then p.key + ['='] + Escaped(p.value)
    else p.key
  }

  // ----- parsing -----

  /** The number of leading bytes that are `ok`. */
  function Span(s: Bytes, ok: Byte -> bool): (n: nat)
    ensures n <= |s|
  {
    if s != [] && ok(s[0]) then 1 + Span(s[1..], ok) else 0
  }

  lemma {:induction false} SpanIs(s: Bytes, ok: Byte -> bool)
    ensures All(s[..Span(s, ok)], ok)
    ensures Span(s, ok) < |s| ==> !ok(s[Span(s, ok)])
  {
    if s != [] && ok(s[0]) {
      SpanIs(s[1..], ok);
      var n := Span(s, ok);
      assert forall i :: 0 < i < n ==> s[..n][i] == s[1..][..n - 1][i - 1];
    }
  }

  lemma {:induction false} SpanOf(front: Bytes, rest: Bytes, ok: Byte -> bool)
    requires All(front, ok) && (rest == [] || !ok(rest[0]))
    ensures Span(front + rest, ok) == |front|
    ensures (front + rest)[..|front|] == front && (front + rest)[|front|..] == rest
  {
    if front == [] {
      assert front + rest == rest;
    } else {
      assert (front + rest)[1..] == front[1..] + rest;
      SpanOf(front[1..], rest, ok);
    }
  }

  /** The string behind its leading blanks. */
  function SkipBlanks(s: Bytes): Bytes {
    s[Span(s, IsBlank)..]
  }

  /** What a property text stands for, or None if it is not well-formed. */
  function ParsedProperty(s: Bytes): Option<Property> {
    var s1 := SkipBlanks(s);
    var n := Span(s1, TokenChar);
    if n == 0 then None else ParsedRest(s1[..n], SkipBlanks(s1[n..]))
  }

  /** What is left behind a key and the blanks that follow it: nothing, or an equal sign and a value. */
  function ParsedRest(key: Bytes, s: Bytes): Option<Property> {
    if s == [] then Some(Property(key, [], false))
    else if s[0] != '=' || ParsedValue(s[1..]).None? then None
    else Some(Property(key, ParsedValue(s[1..]).value, true))
  }

  /** The value in a text behind an equal sign. */
  function ParsedValue(s: Bytes): Option<Bytes> {
    var s3 := SkipBlanks(s);
    var m := Span(s3, ValueChar);
    if SkipBlanks(s3[m..]) != [] || Unescaped(s3[..m]).None? then None
    else Some(Replaced(Unescaped(s3[..m]).value))
  }

  method SkipSpace(s: Bytes, offset: nat) returns (i: nat)
    requires offset <= |s|
    ensures offset <= i <= |s| && s[i..] == SkipBlanks(s[offset..])
  {
    i := offset;
    while i < |s|
      invariant offset <= i <= |s|
      invariant SkipBlanks(s[offset..]) == SkipBlanks(s[i..])
    {
      var c := s[i];
      if c != ' ' && c != '\t' {
        break;
      }
      assert s[i..][1..] == s[i + 1..];
      i := i + 1;
    }
  }

  /** The loops over the key and the value: characters that belong to neither end them. */
  method SkipKey(s: Bytes, start: nat) returns (end: nat)
    requires start <= |s|
    ensures start <= end <= |s| && end == start + Span(s[start..], TokenChar)
  {
    end := start;
    while end < |s|
      invariant start <= end <= |s|
      invariant start + Span(s[start..], TokenChar) == end + Span(s[end..], TokenChar)
    {
      FirstRune(s[end..]);
      if !KeyRune(DecodeRune(s[end..]).0) {
        break;
      }
      assert s[end..][1..] == s[end + 1..];
      end := end + 1;
    }
  }

  method SkipValue(s: Bytes, start: nat) returns (end: nat)
    requires start <= |s|
    ensures start <= end <= |s| && end == start + Span(s[start..], ValueChar)
  {
    end := start;
    while end < |s|
      invariant start <= end <= |s|
      invariant start + Span(s[start..], ValueChar) == end + Span(s[end..], ValueChar)
    {
      FirstRune(s[end..]);
      if !ValueRune(DecodeRune(s[end..]).0) {
        break;
      }
      assert s[end..][1..] == s[end + 1..];
      end := end + 1;
    }
  }

  lemma Slices(s: Bytes, i: nat, n: nat)
    requires i + n <= |s|
    ensures s[i..][..n] == s[i..i + n] && s[i..][n..] == s[i + n..]
  {
  }

  method ParsePropertyInternal(s: Bytes) returns (p: Option<Property>)
    ensures p == ParsedProperty(s)
  {
    var index := SkipSpace(s, 0);
    assert s[0..] == s;
    ghost var s1 := SkipBlanks(s);
    var keyStart := index;
    assert s[keyStart..] == s1;
    var keyEnd := SkipKey(s, keyStart);
    Slices(s, keyStart, keyEnd - keyStart);
    ghost var n := Span(s1, TokenChar);
    assert keyEnd - keyStart == n && s1[..n] == s[keyStart..keyEnd] && s1[n..] == s[keyEnd..];
    if keyStart == keyEnd {
      return None;
    }
    index := SkipSpace(s, keyEnd);
    p := ParseRest(s, index, s[keyStart..keyEnd]);
  }

  method ParseRest(s: Bytes, index: nat, key: Bytes) returns (p: Option<Property>)
    requires index <= |s|
    ensures p == ParsedRest(key, s[index..])
  {
    if index == |s| {
      return Some(Property(key, [], false));
    }
    FirstAndRest(s, index);
    if s[index] != '=' {
      return None;
    }
    var value := ParseValue(s, index + 1);
    if value.None? {
      return None;
    }
    return Some(Property(key, value.value, true));
  }

  lemma FirstAndRest(s: Bytes, i: nat)
    requires i < |s|
    ensures s[i..][0] == s[i] && s[i..][1..] == s[i + 1..]
  {
  }

  /** The second half of parsePropertyInternal. */
  method ParseValue(s: Bytes, start: nat) returns (value: Option<Bytes>)
    requires start <= |s|
    ensures value == ParsedValue(s[start..])
  {
    var index := SkipSpace(s, start);
    ghost var s3 := SkipBlanks(s[start..]);
    var valueStart := index;
    var valueEnd := SkipValue(s, valueStart);
    Slices(s, valueStart, valueEnd - valueStart);
    assert s3[..Span(s3, ValueChar)] == s[valueStart..valueEnd] && s3[Span(s3, ValueChar)..] == s[valueEnd..];
    index := SkipSpace(s, valueEnd);
    if index != |s| {
      return None;
    }
    var unescapeVal := Unescaped(s[valueStart..valueEnd]);
    if unescapeVal.None? {
      return None;
    }
    var replaced := ReplaceInvalidUTF8Sequences(unescapeVal.value);
    return Some(replaced);
  }

  // ----- the well-formed texts -----

  predicate Blanks(s: Bytes) {
    All(s, IsBlank)
  }

  /** The parts of a property text: a key, and possibly an equal sign and a value, among blanks. */
  datatype Layout = Layout(b1: Bytes, key: Bytes, b2: Bytes, hasValue: bool, b3: Bytes, raw: Bytes, b4: Bytes)

  function LaidOut(l: Layout): Bytes {
    l.b1 + (l.key + (l.b2 + ValuePart(l)))
  }

  /** What is behind the key and its blanks. */
  function ValuePart(l: Layout): Bytes {
    if l.hasValue then ['='] + (l.b3 + (l.raw + l.b4)) else []
  }

  /** The layouts the grammar allows: token keys, and values of legal characters whose percent signs can be decoded. */
  predicate WellFormed(l: Layout) {
    && Blanks(l.b1) && Blanks(l.b2) && Blanks(l.b3) && Blanks(l.b4)
    && l.key != [] && All(l.key, TokenChar)
    && All(l.raw, ValueChar) && Unescaped(l.raw).Some?
  }

  function Meaning(l: Layout): Property
    requires WellFormed(l)
  {
    if l.hasValue then Property(l.key, Replaced(Unescaped(l.raw).value), true) else Property(l.key, [], false)
  }

  lemma SkipBlanksOf(b: Bytes, rest: Bytes)
    requires Blanks(b) && (rest == [] || !IsBlank(rest[0]))
    ensures SkipBlanks(b + rest) == rest
  {
    SpanOf(b, rest, IsBlank);
  }

  /** Every well-formed text is parsed to what it means. */
  lemma WellFormedIsParsed(l: Layout)
    requires WellFormed(l)
    ensures ParsedProperty(LaidOut(l)) == Some(Meaning(l))
  {
    var tail := ValuePart(l);
    assert TokenChar(l.key[0]) && !IsBlank(l.key[0]);
    SkipBlanksOf(l.b1, l.key + (l.b2 + tail));
    SpanOf(l.key, l.b2 + tail, TokenChar);
    SkipBlanksOf(l.b2, tail);
    if l.hasValue {
      assert tail[1..] == l.b3 + (l.raw + l.b4);
      ValueParsed(l.b3, l.raw, l.b4);
    }
  }

  lemma ValueParsed(b3: Bytes, raw: Bytes, b4: Bytes)
    requires Blanks(b3) && Blanks(b4) && All(raw, ValueChar) && Unescaped(raw).Some?
    ensures ParsedValue(b3 + (raw + b4)) == Some(Replaced(Unescaped(raw).value))
  {
    if raw == [] {
      assert b3 + (raw + b4) == (b3 + b4) + [];
      SkipBlanksOf(b3 + b4, []);
    } else {
      assert ValueChar(raw[0]) && !IsBlank(raw[0]);
      SkipBlanksOf(b3, raw + b4);
      SpanOf(raw, b4, ValueChar);
      assert b4 + [] == b4;
      SkipBlanksOf(b4, []);
    }
  }

  /** The front of `s` that is skipped to leave `rest`. */
  function Before(s: Bytes, rest: Bytes): Bytes
    requires |rest| <= |s|
  {
    s[..|s| - |rest|]
  }

  /** The layout of a text that is parsed. */
  function LayoutOf(s: Bytes): Layout {
    var s1 := SkipBlanks(s);
    var n := Span(s1, TokenChar);
    var s2 := SkipBlanks(s1[n..]);
    if s2 == [] then Layout(Before(s, s1), s1[..n], Before(s1[n..], s2), false, [], [], [])
    else
      var (b3, raw, b4) := ValueLayout(s2[1..]);
      Layout(Before(s, s1), s1[..n], Before(s1[n..], s2), true, b3, raw, b4)
  }

  function ValueLayout(s: Bytes): (Bytes, Bytes, Bytes) {
    var s3 := SkipBlanks(s);
    var m := Span(s3, ValueChar);
    (Before(s, s3), s3[..m], s3[m..])
  }

  lemma SkippedFront(s: Bytes)
    ensures Blanks(Before(s, SkipBlanks(s))) && s == Before(s, SkipBlanks(s)) + SkipBlanks(s)
  {
    SpanIs(s, IsBlank);
  }

  lemma AllBlank(s: Bytes)
    requires SkipBlanks(s) == []
    ensures Blanks(s)
  {
    SpanIs(s, IsBlank);
    assert s[..|s|] == s;
  }

  lemma Glue(s: Bytes, a: Bytes, t: Bytes, b: Bytes, u: Bytes)
    requires s == a + t && t == b + u
    ensures s == a + (b + u)
  {
  }

  lemma Glue3(s: Bytes, a: Bytes, t: Bytes, b: Bytes, u: Bytes, c: Bytes, v: Bytes)
    requires s == a + t && t == b + u && u == c + v
    ensures s == a + (b + (c + v))
  {
  }

  lemma SplitAt(s: Bytes, n: nat)
    requires n <= |s|
    ensures s == s[..n] + s[n..]
  {
  }

  lemma ParsedValueLayout(s: Bytes)
    requires ParsedValue(s).Some?
    ensures var (b3, raw, b4) := ValueLayout(s);
      && Blanks(b3) && Blanks(b4) && All(raw, ValueChar) && Unescaped(raw).Some?
      && s == b3 + (raw + b4)
      && ParsedValue(s).value == Replaced(Unescaped(raw).value)
  {
    var s3 := SkipBlanks(s);
    var m := Span(s3, ValueChar);
    SkippedFront(s);
    SpanIs(s3, ValueChar);
    AllBlank(s3[m..]);
    SplitAt(s3, m);
    Glue(s, Before(s, s3), s3, s3[..m], s3[m..]);
  }

  lemma KeyLayout(s: Bytes)
    ensures var s1 := SkipBlanks(s); var n := Span(s1, TokenChar); var s2 := SkipBlanks(s1[n..]);
      && Blanks(Before(s, s1)) && Blanks(Before(s1[n..], s2)) && All(s1[..n], TokenChar)
      && s == Before(s, s1) + (s1[..n] + (Before(s1[n..], s2) + s2))
  {
    var s1 := SkipBlanks(s);
    var n := Span(s1, TokenChar);
    SkippedFront(s);
    SpanIs(s1, TokenChar);
    SkippedFront(s1[n..]);
    SplitAt(s1, n);
    var s2 := SkipBlanks(s1[n..]);
    Glue3(s, Before(s, s1), s1, s1[..n], s1[n..], Before(s1[n..], s2), s2);
  }

  lemma HeadTail(s: Bytes, c: Byte)
    requires s != [] && s[0] == c
    ensures s == [c] + s[1..]
  {
  }

  /** Only well-formed texts are parsed. */
  lemma ParsedIsWellFormed(s: Bytes)
    requires ParsedProperty(s).Some?
    ensures var l := LayoutOf(s);
      WellFormed(l) && LaidOut(l) == s && Meaning(l) == ParsedProperty(s).value
  {
    KeyLayout(s);
    var s1 := SkipBlanks(s);
    var s2 := SkipBlanks(s1[Span(s1, TokenChar)..]);
    if s2 != [] {
      ParsedValueLayout(s2[1..]);
      HeadTail(s2, '=');
    }
  }

  /** The property texts that are accepted are exactly those of the grammar, and they are parsed to what they mean. */
  lemma ParsedPropertyIs(s: Bytes, p: Property)
    ensures ParsedProperty(s) == Some(p) <==> exists l :: WellFormed(l) && LaidOut(l) == s && Meaning(l) == p
  {
    if ParsedProperty(s) == Some(p) {
      ParsedIsWellFormed(s);
    }
    if exists l :: WellFormed(l) && LaidOut(l) == s && Meaning(l) == p {
      var l :| WellFormed(l) && LaidOut(l) == s && Meaning(l) == p;
      WellFormedIsParsed(l);
    }
  }

  // ----- the round trip -----

  /** What a printed property is parsed to: invalid UTF-8 is replaced, a value that is not shown is lost. */
  function Normal(p: Property): Property {
    Property(p.key, if p.hasValue then Replaced(p.value) else [], p.hasValue)
  }

  lemma PropertyRoundTrip(p: Property)
    requires ValidateKey(p.key)
    ensures ParsedProperty(PropertyString(p)) == Some(Normal(p))
    ensures PropertyString(p) != [] && ';' !in PropertyString(p) && ',' !in PropertyString(p)
  {
    ValidateIsAll(p.key);
    EscapedIsLegal(p.value);
    UnescapeEscaped(p.value);
    var raw := if p.hasValue then Escaped(p.value) else [];
    BareLayout(p.key, p.hasValue, raw);
    WellFormedIsParsed(Layout([], p.key, [], p.hasValue, [], raw, []));
    NoDelimiters(p.key, raw);
  }

  lemma NoDelimiters(key: Bytes, raw: Bytes)
    requires All(key, TokenChar) && All(raw, ValueChar)
    ensures ';' !in key + ['='] + raw && ',' !in key + ['='] + raw
    ensures ';' !in key && ',' !in key
  {
    assert !TokenChar(';') && !TokenChar(',') && !ValueChar(';') && !ValueChar(',');
  }

  lemma BareLayout(key: Bytes, hasValue: bool, raw: Bytes)
    ensures LaidOut(Layout([], key, [], hasValue, [], raw, [])) == if hasValue then key + ['='] + raw else key
  {
    assert raw + [] == raw && [] + raw == raw && [] + (['='] + raw) == ['='] + raw;
    assert key + [] == key;
    assert key + (['='] + raw) == key + ['='] + raw;
  }
}

module Baggage {
  import opened Prelude
  import opened Text
  import opened Utf8
  import opened BaggageText
  import opened BaggageProperty

  const MAX_MEMBERS := 180
  const MAX_BYTES_PER_MEMBER := 4096
  const MAX_BYTES := 8192

  datatype Error = InvalidKey | InvalidValue | InvalidProperty | InvalidMember | TooManyMembers | MemberTooLarge
                 | BaggageTooLarge

  datatype Item = Item(value: Bytes, properties: seq<Property>)

  datatype Member = Member(key: Bytes, item: Item)

  /** The list-members by their keys. */
  type Baggage = map<Bytes, Item>

  // ----- trimming (strings.TrimSpace) -----

  predicate IsSpace(r: nat) {
    || 0x09 <= r <= 0x0D || r == 0x20 || r == 0x85 || r == 0xA0 || r == 0x1680 || 0x2000 <= r <= 0x200A
    || r == 0x2028 || r == 0x2029 || r == 0x202F || r == 0x205F || r == 0x3000
  }

  predicate EndsWithCharacter(s: Bytes, n: nat) {
    n <= |s| && StartsCharacter(s[|s| - n..]) && LengthOf(s[|s| - n]) == n
  }

  /** DecodeLastRuneInString. */
  function DecodeLastRune(s: Bytes): (r: (nat, nat))
    requires s != []
    ensures 0 < r.1 <= |s|
  {
    if EndsWithCharacter(s, 1) then (Character(s[|s| - 1..]), 1)
    else if EndsWithCharacter(s, 2) then (Character(s[|s| - 2..]), 2)
    else if EndsWithCharacter(s, 3) then (Character(s[|s| - 3..]), 3)
    else if EndsWithCharacter(s, 4) then (Character(s[|s| - 4..]), 4)
    else (REPLACEMENT, 1)
  }

  function TrimLeftSpace(s: Bytes): Bytes
    decreases |s|
  {
    if s != [] && IsSpace(DecodeRune(s).0) then TrimLeftSpace(s[DecodeRune(s).1..]) else s
  }

  function TrimRightSpace(s: Bytes): Bytes
    decreases |s|
  {
    if s != [] && IsSpace(DecodeLastRune(s).0) then TrimRightSpace(s[..|s| - DecodeLastRune(s).1]) else s
  }

  function TrimSpace(s: Bytes): Bytes {
    TrimRightSpace(TrimLeftSpace(s))
  }

  /** Visible ASCII characters are not trimmed. */
  lemma NothingToTrim(s: Bytes)
    requires forall i :: 0 <= i < |s| ==> 0x20 < Code(s[i]) < 0x80
    ensures TrimSpace(s) == s
  {
    if s != [] {
      assert s[|s| - 1..] == [s[|s| - 1]];
      assert EndsWithCharacter(s, 1);
    }
  }

  // ----- printing -----

  function PropertyStrings(ps: seq<Property>): seq<Bytes> {
    if ps == [] then []
    else
      var s := PropertyString(ps[0]);
      if s == [] then PropertyStrings(ps[1..]) else [s] + PropertyStrings(ps[1..])
  }

  /** A member without properties has no semicolon; one with properties always has. */
  function MemberString(key: Bytes, item: Item): Bytes {
    if !ValidateKey(key) then []
    else
      key + ['='] + Escaped(item.value)
        + if |item.properties| > 0 then [';'] + Join(PropertyStrings(item.properties), ';') else []
  }

  function MemberStrings(b: Baggage, order: seq<Bytes>): seq<Bytes>
    requires forall k :: k in order ==> k in b
  {
    if order == [] then []
    else
      var s := MemberString(order[0], b[order[0]]);
      if s == [] then MemberStrings(b, order[1..]) else [s] + MemberStrings(b, order[1..])
  }

  /** What String returns when the map is visited in the given order. */
  function Printed(b: Baggage, order: seq<Bytes>): Bytes
    requires forall k :: k in order ==> k in b
  {
    Join(MemberStrings(b, order), ',')
  }

  // ----- parsing -----

  /** An empty property text is accepted as the zero property. */
  function ParseProperty(s: Bytes): Result<Property, Error> {
    if s == [] then Ok(ZERO)
    else if ParsedProperty(s).None? then Err(InvalidProperty)
    else Ok(ParsedProperty(s).value)
  }

  function ParseProperties(parts: seq<Bytes>): Result<seq<Property>, Error> {
    if parts == [] then Ok([])
    else
      var p := ParseProperty(parts[0]);
      if p.Err? then Err(p.error)
      else
        var rest := ParseProperties(parts[1..]);
        if rest.Err? then rest else Ok([p.value] + rest.value)
  }

  function ParsedKeyValue(keyValue: Bytes, props: seq<Property>): Result<Member, Error> {
    var (k, v, found) := Cut(keyValue, '=');
    var key, rawVal := TrimSpace(k), TrimSpace(v);
    if !found then Err(InvalidMember)
    else if !ValidateKey(key) then Err(InvalidKey)
    else if !ValidateValue(rawVal) || Unescaped(rawVal).None? then Err(InvalidValue)
    else Ok(Member(key, Item(Replaced(Unescaped(rawVal).value), props)))
  }

  function ParsedMember(member: Bytes): Result<Member, Error> {
    if |member| > MAX_BYTES_PER_MEMBER then Err(MemberTooLarge)
    else
      var (keyValue, properties, found) := Cut(member, ';');
      var props := if found then ParseProperties(Split(properties, ';')) else Ok([]);
      if props.Err? then Err(props.error) else ParsedKeyValue(keyValue, props.value)
  }

  method ParsePropertyText(s: Bytes) returns (r: Result<Property, Error>)
    ensures r == ParseProperty(s)
  {
    if s == [] {
      return Ok(ZERO);
    }
    var p := ParsePropertyInternal(s);
    if p.None? {
      return Err(InvalidProperty);
    }
    return Ok(p.value);
  }

  /** The loop of parseMember over the properties. */
  method ParseMemberProperties(properties: Bytes) returns (r: Result<seq<Property>, Error>)
    ensures r == ParseProperties(Split(properties, ';'))
  {
    var props: seq<Property> := [];
    var parts := Split(properties, ';');
    PrefixedNothing(ParseProperties(parts));
    assert parts[0..] == parts;
    for i := 0 to |parts|
      invariant ParseProperties(parts) == Prefixed(props, ParseProperties(parts[i..]))
    {
      var p := ParsePropertyText(parts[i]);
      assert parts[i..][1..] == parts[i + 1..];
      if p.Err? {
        return Err(p.error);
      }
      PrefixedStep(props, p.value, ParseProperties(parts[i + 1..]));
      props := props + [p.value];
    }
    assert parts[|parts|..] == [];
    assert props + [] == props;
    return Ok(props);
  }

  method ParseMember(member: Bytes) returns (r: Result<Member, Error>)
    ensures r == ParsedMember(member)
  {
    if |member| > MAX_BYTES_PER_MEMBER {
      return Err(MemberTooLarge);
    }
    var props: seq<Property> := [];
    var (keyValue, properties, found) := Cut(member, ';');
    if found {
      var ps := ParseMemberProperties(properties);
      if ps.Err? {
        return Err(ps.error);
      }
      props := ps.value;
    }
    var (k, v, hasValue) := Cut(keyValue, '=');
    if !hasValue {
      return Err(InvalidMember);
    }
    var key := TrimSpace(k);
    if !ValidateKey(key) {
      return Err(InvalidKey);
    }
    var rawVal := TrimSpace(v);
    if !ValidateValue(rawVal) {
      return Err(InvalidValue);
    }
    var unescapeVal := Unescaped(rawVal);
    if unescapeVal.None? {
      return Err(InvalidValue);
    }
    var value := ReplaceInvalidUTF8Sequences(unescapeVal.value);
    return Ok(Member(key, Item(value, props)));
  }

  function Prefixed(front: seq<Property>, r: Result<seq<Property>, Error>): Result<seq<Property>, Error> {
    if r.Err? then r else Ok(front + r.value)
  }

  lemma PrefixedNothing(r: Result<seq<Property>, Error>)
    ensures Prefixed([], r) == r
  {
    if r.Ok? {
      assert [] + r.value == r.value;
    }
  }

  lemma PrefixedStep(front: seq<Property>, p: Property, r: Result<seq<Property>, Error>)
    ensures Prefixed(front, Prefixed([p], r)) == Prefixed(front + [p], r)
  {
    if r.Ok? {
      assert front + ([p] + r.value) == (front + [p]) + r.value;
    }
  }

  /** Of members with the same key the last one is kept. */
  function ParsedMembers(parts: seq<Bytes>, b: Baggage): Result<Baggage, Error> {
    if parts == [] then Ok(b)
    else
      var m := ParsedMember(parts[0]);
      if m.Err? then Err(m.error) else ParsedMembers(parts[1..], b[m.value.key := m.value.item])
  }

  function Parsed(bStr: Bytes): Result<Baggage, Error> {
    if bStr == [] then Ok(map[])
    else if |bStr| > MAX_BYTES then Err(BaggageTooLarge)
    else
      var r := ParsedMembers(Split(bStr, ','), map[]);
      if r.Ok? && |r.value| > MAX_MEMBERS then Err(TooManyMembers) else r
  }

  method Parse(bStr: Bytes) returns (r: Result<Baggage, Error>)
    ensures r == Parsed(bStr)
  {
    if bStr == [] {
      return Ok(map[]);
    }
    if |bStr| > MAX_BYTES {
      return Err(BaggageTooLarge);
    }
    var b: Baggage := map[];
    var parts := Split(bStr, ',');
    for i := 0 to |parts|
      invariant ParsedMembers(parts, map[]) == ParsedMembers(parts[i..], b)
    {
      var m := ParseMember(parts[i]);
      assert parts[i..][1..] == parts[i + 1..];
      if m.Err? {
        return Err(m.error);
      }
      b := b[m.value.key := m.value.item];
    }
    if |b| > MAX_MEMBERS {
      return Err(TooManyMembers);
    }
    return Ok(b);
  }

  // ----- what parsing gives -----

  /** A token as the key, valid UTF-8 as the value, and no value that is not shown. */
  predicate Printable(p: Property) {
    ValidateKey(p.key) && IsValid(p.value) && (p.hasValue || p.value == [])
  }

  predicate ProperProperty(p: Property) {
    p == ZERO || Printable(p)
  }

  /** Token keys and valid UTF-8. */
  ghost predicate Proper(b: Baggage) {
    forall k :: k in b ==>
      ValidateKey(k) && IsValid(b[k].value) && forall p :: p in b[k].properties ==> ProperProperty(p)
  }

  lemma {:induction false} ParsedPropertiesProper(parts: seq<Bytes>, p: Property)
    requires ParseProperties(parts).Ok? && p in ParseProperties(parts).value
    ensures ProperProperty(p)
  {
    var first := ParseProperty(parts[0]).value;
    var rest := ParseProperties(parts[1..]).value;
    assert ParseProperties(parts).value == [first] + rest;
    if p == first {
      if parts[0] != [] {
        ParsedIsWellFormed(parts[0]);
        ValidateIsAll(p.key);
        ReplacedIsValid(Unescaped(LayoutOf(parts[0]).raw).value);
      }
    } else {
      ParsedPropertiesProper(parts[1..], p);
    }
  }

  lemma ParsedMemberProper(s: Bytes, b: Baggage)
    requires ParsedMember(s).Ok? && Proper(b)
    ensures Proper(b[ParsedMember(s).value.key := ParsedMember(s).value.item])
  {
    var m := ParsedMember(s).value;
    var (keyValue, properties, found) := Cut(s, ';');
    var (k, v, _) := Cut(keyValue, '=');
    ReplacedIsValid(Unescaped(TrimSpace(v)).value);
    forall p | p in m.item.properties
      ensures ProperProperty(p)
    {
      ParsedPropertiesProper(Split(properties, ';'), p);
    }
  }

  lemma {:induction false} ParsedMembersProper(parts: seq<Bytes>, b: Baggage)
    requires ParsedMembers(parts, b).Ok? && Proper(b)
    ensures Proper(ParsedMembers(parts, b).value)
  {
    if parts != [] {
      ParsedMemberProper(parts[0], b);
      var m := ParsedMember(parts[0]).value;
      ParsedMembersProper(parts[1..], b[m.key := m.item]);
    }
  }

  /** Whatever the header, parsed baggage has token keys, valid UTF-8 values and at most 180 members. */
  lemma ParsedIsProper(s: Bytes)
    requires Parsed(s).Ok?
    ensures Proper(Parsed(s).value) && |Parsed(s).value| <= MAX_MEMBERS
  {
    if s != [] {
      ParsedMembersProper(Split(s, ','), map[]);
    }
  }

  // ----- what printing and parsing gives -----

  function PrintedProperties(ps: seq<Property>): seq<Property> {
    if ps == [] then []
    else if ValidateKey(ps[0].key) then [Normal(ps[0])] + PrintedProperties(ps[1..])
    else PrintedProperties(ps[1..])
  }

  /** Properties whose key is no token are lost; if that leaves none, the empty text is parsed as a zero property. */
  function NormalProperties(ps: seq<Property>): seq<Property> {
    if ps == [] then [] else if PrintedProperties(ps) == [] then [ZERO] else PrintedProperties(ps)
  }

  function NormalItem(item: Item): Item {
    Item(Replaced(item.value), NormalProperties(item.properties))
  }

  /** What a printed baggage is parsed to: members whose key is no token are lost. */
  function NormalBaggage(b: Baggage): Baggage {
    map k | k in b && ValidateKey(k) :: NormalItem(b[k])
  }

  lemma {:induction false} PropertiesRoundTrip(ps: seq<Property>)
    ensures ParseProperties(PropertyStrings(ps)) == Ok(PrintedProperties(ps))
    ensures PropertyStrings(ps) == [] <==> PrintedProperties(ps) == []
    ensures FreeOf(PropertyStrings(ps), ';') && FreeOf(PropertyStrings(ps), ',')
  {
    if ps != [] {
      PropertiesRoundTrip(ps[1..]);
      if ValidateKey(ps[0].key) {
        PropertyRoundTrip(ps[0]);
        OneMorePart(PropertyString(ps[0]), PropertyStrings(ps[1..]));
      }
    }
  }

  lemma OneMorePart(s: Bytes, rest: seq<Bytes>)
    requires ParseProperty(s).Ok? && ParseProperties(rest).Ok? && FreeOf(rest, ';') && FreeOf(rest, ',')
    requires ';' !in s && ',' !in s
    ensures ParseProperties([s] + rest) == Ok([ParseProperty(s).value] + ParseProperties(rest).value)
    ensures FreeOf([s] + rest, ';') && FreeOf([s] + rest, ',')
  {
    assert ([s] + rest)[1..] == rest;
  }

  lemma {:induction false} JoinFree(parts: seq<Bytes>, sep: Byte, c: Byte)
    requires FreeOf(parts, c) && sep != c
    ensures c !in Join(parts, sep)
  {
    if |parts| > 1 {
      JoinFree(parts[1..], sep, c);
    }
  }

  lemma PropertyListRoundTrip(ps: seq<Property>)
    requires ps != []
    ensures ParseProperties(Split(Join(PropertyStrings(ps), ';'), ';')) == Ok(NormalProperties(ps))
  {
    PropertiesRoundTrip(ps);
    if PropertyStrings(ps) == [] {
      var parts := Split([], ';');
      assert |parts| == 1 && parts[0] == [] && parts[1..] == [];
      assert ParseProperty(parts[0]) == Ok(ZERO) && ParseProperties(parts[1..]) == Ok([]);
      assert [ZERO] + ParseProperties(parts[1..]).value == [ZERO];
    } else {
      SplitJoin(PropertyStrings(ps), ';');
    }
  }

  lemma KeyValueRoundTrip(key: Bytes, value: Bytes, props: seq<Property>)
    requires ValidateKey(key)
    ensures ParsedKeyValue(key + ['='] + Escaped(value), props) == Ok(Member(key, Item(Replaced(value), props)))
    ensures ';' !in key + ['='] + Escaped(value) && ',' !in key + ['='] + Escaped(value)
  {
    ValidateIsAll(key);
    EscapedIsLegal(value);
    ValidateIsAll(Escaped(value));
    UnescapeEscaped(value);
    NotInToken(key);
    CutAt(key, '=', Escaped(value));
    VisibleText(key, Escaped(value));
    NoDelimiters(key, Escaped(value));
  }

  lemma NotInToken(key: Bytes)
    requires All(key, TokenChar)
    ensures '=' !in key
  {
    assert !TokenChar('=');
  }

  lemma VisibleText(key: Bytes, raw: Bytes)
    requires All(key, TokenChar) && All(raw, ValueChar)
    ensures TrimSpace(key) == key && TrimSpace(raw) == raw
  {
    NothingToTrim(key);
    NothingToTrim(raw);
  }

  /** A printed member is parsed to the normal one, unless it is too large. */
  lemma MemberRoundTrip(key: Bytes, item: Item)
    requires ValidateKey(key)
    ensures var s := MemberString(key, item);
      && ParsedMember(s)
           == (if |s| > MAX_BYTES_PER_MEMBER then Err(MemberTooLarge) else Ok(Member(key, NormalItem(item))))
      && s != [] && ',' !in s
  {
    if item.properties == [] {
      BareMemberRoundTrip(key, item);
    } else {
      FullMemberRoundTrip(key, item);
    }
  }

  lemma BareMemberRoundTrip(key: Bytes, item: Item)
    requires ValidateKey(key) && item.properties == []
    ensures var s := MemberString(key, item);
      && ParsedMember(s)
           == (if |s| > MAX_BYTES_PER_MEMBER then Err(MemberTooLarge) else Ok(Member(key, NormalItem(item))))
      && s != [] && ',' !in s
  {
    var keyValue := key + ['='] + Escaped(item.value);
    KeyValueRoundTrip(key, item.value, []);
    assert MemberString(key, item) == keyValue;
    CutNone(keyValue, ';');
  }

  lemma FullMemberRoundTrip(key: Bytes, item: Item)
    requires ValidateKey(key) && item.properties != []
    ensures var s := MemberString(key, item);
      && ParsedMember(s)
           == (if |s| > MAX_BYTES_PER_MEMBER then Err(MemberTooLarge) else Ok(Member(key, NormalItem(item))))
      && s != [] && ',' !in s
  {
    FullTextIs(key, item);
    FullTextParsed(key, item);
    FullTextFree(key, item);
  }

  /** What is printed for a member with properties. */
  function FullText(key: Bytes, item: Item): Bytes {
    key + ['='] + Escaped(item.value) + [';'] + Join(PropertyStrings(item.properties), ';')
  }

  lemma FullTextIs(key: Bytes, item: Item)
    requires ValidateKey(key) && item.properties != []
    ensures MemberString(key, item) == FullText(key, item) && FullText(key, item) != []
  {
    Regroup(key + ['='] + Escaped(item.value), [';'], Join(PropertyStrings(item.properties), ';'));
  }

  lemma FullTextParsed(key: Bytes, item: Item)
    requires ValidateKey(key) && item.properties != []
    ensures var s := FullText(key, item);
      ParsedMember(s)
        == if |s| > MAX_BYTES_PER_MEMBER then Err(MemberTooLarge) else Ok(Member(key, NormalItem(item)))
  {
    KeyValueRoundTrip(key, item.value, NormalProperties(item.properties));
    PropertyListRoundTrip(item.properties);
    ParsedWith(key + ['='] + Escaped(item.value), Join(PropertyStrings(item.properties), ';'),
               NormalProperties(item.properties));
  }

  lemma FullTextFree(key: Bytes, item: Item)
    requires ValidateKey(key)
    ensures ',' !in FullText(key, item)
  {
    KeyValueRoundTrip(key, item.value, []);
    PropertiesRoundTrip(item.properties);
    JoinFree(PropertyStrings(item.properties), ';', ',');
  }

  /** How the text behind the first semicolon of a member is parsed. */
  lemma ParsedWith(keyValue: Bytes, list: Bytes, props: seq<Property>)
    requires ';' !in keyValue && ParseProperties(Split(list, ';')) == Ok(props)
    ensures var s := keyValue + [';'] + list;
      ParsedMember(s) == if |s| > MAX_BYTES_PER_MEMBER then Err(MemberTooLarge) else ParsedKeyValue(keyValue, props)
  {
    CutAt(keyValue, ';', list);
  }

  /** The order in which a map is visited is any arrangement of its keys. */
  ghost predicate Enumerates(order: seq<Bytes>, b: Baggage) {
    && (forall k :: k in order <==> k in b)
    && (forall i, j :: 0 <= i < j < |order| ==> order[i] != order[j])
  }

  predicate Oversized(b: Baggage, k: Bytes) {
    k in b && |MemberString(k, b[k])| > MAX_BYTES_PER_MEMBER
  }

  predicate AnyOversized(b: Baggage, order: seq<Bytes>) {
    order != [] && (Oversized(b, order[0]) || AnyOversized(b, order[1..]))
  }

  lemma {:induction false} AnyOversizedIs(b: Baggage, order: seq<Bytes>)
    ensures AnyOversized(b, order) <==> exists k :: k in order && Oversized(b, k)
  {
    if order != [] {
      AnyOversizedIs(b, order[1..]);
      FirstOrLater(order);
      if k :| k in order[1..] && Oversized(b, k) {
        assert k in order;
      }
    }
  }

  lemma FirstOrLater(order: seq<Bytes>)
    requires order != []
    ensures forall k :: k in order <==> k == order[0] || k in order[1..]
  {
    assert order == [order[0]] + order[1..];
  }

  /** What a list of members adds to a baggage. */
  function Stored(b: Baggage, order: seq<Bytes>, acc: Baggage): Baggage
    requires forall k :: k in order ==> k in b
  {
    if order == [] then acc
    else Stored(b, order[1..], if ValidateKey(order[0]) then acc[order[0] := NormalItem(b[order[0]])] else acc)
  }

  lemma {:induction false} StoredAt(b: Baggage, order: seq<Bytes>, acc: Baggage, k: Bytes)
    requires forall k :: k in order ==> k in b
    ensures k in Stored(b, order, acc) <==> k in acc || (k in order && ValidateKey(k))
    ensures k in Stored(b, order, acc) ==>
              Stored(b, order, acc)[k] == if k in order && ValidateKey(k) then NormalItem(b[k]) else acc[k]
  {
    if order != [] {
      assert order == [order[0]] + order[1..];
      StoredAt(b, order[1..], if ValidateKey(order[0]) then acc[order[0] := NormalItem(b[order[0]])] else acc, k);
    }
  }

  lemma StoredIsNormal(b: Baggage, order: seq<Bytes>)
    requires Enumerates(order, b)
    ensures Stored(b, order, map[]) == NormalBaggage(b)
  {
    var s, n := Stored(b, order, map[]), NormalBaggage(b);
    forall k
      ensures k in s <==> k in n
      ensures k in s ==> s[k] == n[k]
    {
      StoredAt(b, order, map[], k);
    }
    assert s.Keys == n.Keys;
  }

  lemma {:induction false} MembersRoundTrip(b: Baggage, order: seq<Bytes>, acc: Baggage)
    requires forall k :: k in order ==> k in b
    ensures ParsedMembers(MemberStrings(b, order), acc)
         == if AnyOversized(b, order) then Err(MemberTooLarge) else Ok(Stored(b, order, acc))
    ensures FreeOf(MemberStrings(b, order), ',')
    ensures forall i :: 0 <= i < |MemberStrings(b, order)| ==> MemberStrings(b, order)[i] != []
  {
    if order != [] {
      var k, rest := order[0], order[1..];
      assert order == [k] + rest;
      var strs := MemberStrings(b, rest);
      if ValidateKey(k) {
        var s := MemberString(k, b[k]);
        MemberRoundTrip(k, b[k]);
        MembersRoundTrip(b, rest, acc[k := NormalItem(b[k])]);
        assert MemberStrings(b, order) == [s] + strs && ([s] + strs)[1..] == strs;
      } else {
        MembersRoundTrip(b, rest, acc);
        assert MemberStrings(b, order) == strs;
      }
    }
  }

  /**
   Parsing what any baggage prints, in any order of the map: the normal form of the baggage, or the error for the first
   limit that is exceeded.
   */
  lemma PrintedIsParsed(b: Baggage, order: seq<Bytes>)
    requires Enumerates(order, b)
    ensures Parsed(Printed(b, order))
         == if |Printed(b, order)| > MAX_BYTES then Err(BaggageTooLarge)
            else if exists k :: Oversized(b, k) then Err(MemberTooLarge)
            else if |NormalBaggage(b)| > MAX_MEMBERS then Err(TooManyMembers)
            else Ok(NormalBaggage(b))
  {
    MembersRoundTrip(b, order, map[]);
    StoredIsNormal(b, order);
    AnyOversizedIs(b, order);
    assert (exists k :: k in order && Oversized(b, k)) <==> exists k :: Oversized(b, k);
    JoinedIsParsed(MemberStrings(b, order));
  }

  /** Within its length a header is split into the parts it was joined from. */
  lemma JoinedIsParsed(parts: seq<Bytes>)
    requires FreeOf(parts, ',') && forall i :: 0 <= i < |parts| ==> parts[i] != []
    ensures var s := Join(parts, ','); var r := ParsedMembers(parts, map[]);
      Parsed(s) == if |s| > MAX_BYTES then Err(BaggageTooLarge)
                   else if r.Ok? && |r.value| > MAX_MEMBERS then Err(TooManyMembers) else r
  {
    if parts != [] {
      SplitJoin(parts, ',');
      assert parts[0] != [];
    }
  }

  /** The property lists that survive: printable properties only, or just the zero property. */
  predicate Survives(ps: seq<Property>) {
    ps == [ZERO] || forall i :: 0 <= i < |ps| ==> Printable(ps[i])
  }

  lemma PrintableIff(p: Property)
    ensures ValidateKey(p.key) && Normal(p) == p <==> Printable(p)
  {
    ReplacedIffValid(p.value);
  }

  predicate SurvivingItem(item: Item) {
    IsValid(item.value) && Survives(item.properties)
  }

  lemma {:induction false} PrintedPropertiesIs(ps: seq<Property>)
    ensures |PrintedProperties(ps)| <= |ps|
    ensures PrintedProperties(ps) == ps <==> forall i :: 0 <= i < |ps| ==> Printable(ps[i])
  {
    if ps != [] {
      PrintedPropertiesIs(ps[1..]);
      PrintableIff(ps[0]);
      assert ps == [ps[0]] + ps[1..];
      if ValidateKey(ps[0].key) {
        assert PrintedProperties(ps)[1..] == PrintedProperties(ps[1..]);
        assert PrintedProperties(ps) == ps <==> Normal(ps[0]) == ps[0] && PrintedProperties(ps[1..]) == ps[1..];
      }
    }
  }

  lemma SurvivesIff(ps: seq<Property>)
    ensures NormalProperties(ps) == ps <==> Survives(ps)
  {
    PrintedPropertiesIs(ps);
    assert !ValidateKey([]);
    if ps == [ZERO] {
      assert PrintedProperties(ps[1..]) == [];
    }
  }

  /**
   The round trip: within the limits, a baggage is parsed from what it prints exactly if all member keys are tokens, all
   values valid UTF-8, and all property lists survive.
   */
  lemma RoundTripIff(b: Baggage, order: seq<Bytes>)
    requires Enumerates(order, b)
    requires |Printed(b, order)| <= MAX_BYTES && |b| <= MAX_MEMBERS && forall k :: !Oversized(b, k)
    ensures Parsed(Printed(b, order)) == Ok(b) <==> forall k :: k in b ==> ValidateKey(k) && SurvivingItem(b[k])
  {
    PrintedIsParsed(b, order);
    NormalIsSmaller(b);
    NormalIff(b);
  }

  /** A parsed baggage survives, within the limits, exactly if no empty property stands among others. */
  lemma ParsedSurvivesIff(s: Bytes, order: seq<Bytes>)
    requires Parsed(s).Ok? && Enumerates(order, Parsed(s).value)
    requires |Printed(Parsed(s).value, order)| <= MAX_BYTES && forall k :: !Oversized(Parsed(s).value, k)
    ensures var b := Parsed(s).value;
      (Parsed(Printed(b, order)) == Ok(b) <==> forall k :: k in b ==> NoneEmptyAmongOthers(b[k].properties))
  {
    var b := Parsed(s).value;
    ParsedIsProper(s);
    RoundTripIff(b, order);
    forall k | k in b
      ensures SurvivingItem(b[k]) <==> NoneEmptyAmongOthers(b[k].properties)
    {
      ProperSurvivesIff(b[k].properties);
    }
  }

  predicate NoneEmptyAmongOthers(ps: seq<Property>) {
    ps == [ZERO] || ZERO !in ps
  }

  lemma ProperSurvivesIff(ps: seq<Property>)
    requires forall p :: p in ps ==> ProperProperty(p)
    ensures Survives(ps) <==> NoneEmptyAmongOthers(ps)
  {
    assert !ValidateKey([]);
    assert forall i :: 0 <= i < |ps| ==> ps[i] in ps;
  }

  lemma NormalIff(b: Baggage)
    ensures NormalBaggage(b) == b <==> forall k :: k in b ==> ValidateKey(k) && SurvivingItem(b[k])
  {
    var n := NormalBaggage(b);
    forall k | k in b && ValidateKey(k)
      ensures n[k] == b[k] <==> SurvivingItem(b[k])
    {
      ReplacedIffValid(b[k].value);
      SurvivesIff(b[k].properties);
    }
    if forall k :: k in b ==> ValidateKey(k) && SurvivingItem(b[k]) {
      assert n.Keys == b.Keys;
    }
    if n == b {
      assert forall k :: k in b ==> k in n;
    }
  }

  lemma NormalIsSmaller(b: Baggage)
    ensures |NormalBaggage(b)| <= |b|
  {
    var n := NormalBaggage(b);
    Smaller(n.Keys, b.Keys);
    assert |n| == |n.Keys| && |b| == |b.Keys|;
  }

  lemma {:induction false} Smaller(s: set<Bytes>, t: set<Bytes>)
    requires s <= t
    ensures |s| <= |t|
  {
    if s != {} {
      var x :| x in s;
      Smaller(s - {x}, t - {x});
    }
  }

  /** Printing and parsing once is enough: the normal form survives. */
  lemma NormalSurvives(b: Baggage, k: Bytes)
    requires k in NormalBaggage(b)
    ensures ValidateKey(k) && SurvivingItem(NormalBaggage(b)[k])
  {
    ReplacedIsValid(b[k].value);
    NormalListSurvives(b[k].properties);
  }

  lemma {:induction false} NormalListSurvives(ps: seq<Property>)
    ensures forall i :: 0 <= i < |PrintedProperties(ps)| ==> Printable(PrintedProperties(ps)[i])
    ensures Survives(NormalProperties(ps))
  {
    if ps != [] {
      NormalListSurvives(ps[1..]);
      ReplacedIsValid(ps[0].value);
    }
  }

  /** An empty property among others is not printed. */
  lemma EmptyPropertyIsLost()
    ensures !Survives([ZERO, Property(['p'], [], false)])
    ensures NormalProperties([ZERO, Property(['p'], [], false)]) == [Property(['p'], [], false)]
  {
    var p := Property(['p'], [], false);
    assert !ValidateKey([]);
    ValidateIsAll(['p']);
    assert [ZERO, p][0] == ZERO && [ZERO, p][1..] == [p] && [p][1..] == [];
    assert PrintedProperties([p]) == [p];
  }

  // ----- constructing baggage -----

  /** Printing visits the members in an order of the map's own. */
  method String(b: Baggage) returns (s: Bytes)
    ensures exists order :: Enumerates(order, b) && s == Printed(b, order)
  {
    var members: seq<Bytes> := [];
    var keys := b.Keys;
    ghost var order: seq<Bytes> := [];
    while keys != {}
      invariant keys <= b.Keys && forall k :: k in order <==> k in b && k !in keys
      invariant forall i, j :: 0 <= i < j < |order| ==> order[i] != order[j]
      invariant members == MemberStrings(b, order)
      decreases |keys|
    {
      var k :| k in keys;
      var m := MemberString(k, b[k]);
      MemberStringsSnoc(b, order, k);
      if m != [] {
        members := members + [m];
      }
      order := order + [k];
      keys := keys - {k};
    }
    s := Join(members, ',');
    assert Enumerates(order, b);
  }

  lemma {:induction false} MemberStringsSnoc(b: Baggage, order: seq<Bytes>, k: Bytes)
    requires k in b && forall k :: k in order ==> k in b
    ensures MemberStrings(b, order + [k])
         == if MemberString(k, b[k]) == [] then MemberStrings(b, order)
            else MemberStrings(b, order) + [MemberString(k, b[k])]
  {
    if order == [] {
      assert order + [k] == [k];
      assert [k][1..] == [];
    } else {
      assert (order + [k])[1..] == order[1..] + [k];
      MemberStringsSnoc(b, order[1..], k);
    }
  }

  /** The bytes the members of some keys take up, with a comma behind every one. */
  ghost function Size(b: Baggage, keys: set<Bytes>): nat
    requires keys <= b.Keys
  {
    if keys == {} then 0
    else
      var k :| k in keys;
      SizeOf(b, k) + Size(b, keys - {k})
  }

  function SizeOf(b: Baggage, k: Bytes): nat
    requires k in b
  {
    if MemberString(k, b[k]) == [] then 0 else |MemberString(k, b[k])| + 1
  }

  lemma {:induction false} SizeWithout(b: Baggage, keys: set<Bytes>, x: Bytes)
    requires keys <= b.Keys && x in keys
    ensures Size(b, keys) == SizeOf(b, x) + Size(b, keys - {x})
  {
    var k :| k in keys && Size(b, keys) == SizeOf(b, k) + Size(b, keys - {k});
    if k != x {
      SizeWithout(b, keys - {k}, x);
      SizeWithout(b, keys - {x}, k);
      assert keys - {k} - {x} == keys - {x} - {k};
    }
  }

  lemma {:induction false} SizeOfOrder(b: Baggage, order: seq<Bytes>, keys: set<Bytes>)
    requires keys <= b.Keys && forall k :: k in order <==> k in keys
    requires forall i, j :: 0 <= i < j < |order| ==> order[i] != order[j]
    ensures var strs := MemberStrings(b, order); |Join(strs, ',')| + (if strs == [] then 0 else 1) == Size(b, keys)
  {
    if order == [] {
      assert keys == {};
    } else {
      var k, rest := order[0], order[1..];
      assert order == [k] + rest;
      assert k in keys;
      SizeWithout(b, keys, k);
      SizeOfOrder(b, rest, keys - {k});
      JoinedLength(MemberString(k, b[k]), MemberStrings(b, rest));
    }
  }

  lemma JoinedLength(s: Bytes, rest: seq<Bytes>)
    ensures |Join([s] + rest, ',')| == |s| + if rest == [] then 0 else 1 + |Join(rest, ',')|
  {
    assert ([s] + rest)[1..] == rest;
  }

  /** The length of what is printed does not depend on the order. */
  lemma LengthOfAnyOrder(b: Baggage, order: seq<Bytes>, other: seq<Bytes>)
    requires Enumerates(order, b) && Enumerates(other, b)
    ensures |Printed(b, order)| == |Printed(b, other)|
  {
    SizeOfOrder(b, order, b.Keys);
    SizeOfOrder(b, other, b.Keys);
  }

  /** What New collects of members; None are members without data. */
  function Collected(members: seq<Option<Member>>): Result<Baggage, Error> {
    if members == [] then Ok(map[])
    else
      var front, last := Collected(members[..|members| - 1]), members[|members| - 1];
      if front.Err? then front
      else if last.None? then Err(InvalidMember)
      else Ok(front.value[last.value.key := last.value.item])
  }

  lemma {:induction false} CollectedError(members: seq<Option<Member>>, i: nat)
    requires i <= |members| && Collected(members[..i]).Err?
    ensures Collected(members) == Collected(members[..i])
  {
    if i == |members| {
      assert members[..i] == members;
    } else {
      assert members[..|members| - 1][..i] == members[..i];
      CollectedError(members[..|members| - 1], i);
    }
  }

  lemma HasItsFirst(order: seq<Bytes>)
    ensures order != [] ==> order[0] in order
  {
  }

  /** New: of members with the same key the last one is kept; the limits on their number and on the length are kept. */
  method New(members: seq<Option<Member>>) returns (r: Result<Baggage, Error>)
    ensures Collected(members).Err? ==> r == Collected(members)
    ensures r.Ok? ==> r == Collected(members) && |r.value| <= MAX_MEMBERS
    ensures r.Ok? ==> forall order :: Enumerates(order, r.value) ==> |Printed(r.value, order)| <= MAX_BYTES
    ensures Collected(members).Ok? && r.Err? ==>
              var b := Collected(members).value;
              if |b| > MAX_MEMBERS then r == Err(TooManyMembers)
              else r == Err(BaggageTooLarge) && forall order :: Enumerates(order, b) ==> |Printed(b, order)| > MAX_BYTES
  {
    if |members| == 0 {
      forall order | Enumerates(order, map[])
        ensures Printed(map[], order) == []
      {
        HasItsFirst(order);
      }
      return Ok(map[]);
    }
    var b: Baggage := map[];
    for i := 0 to |members|
      invariant Collected(members[..i]) == Ok(b)
    {
      assert members[..i + 1][..i] == members[..i];
      if members[i].None? {
        CollectedError(members, i + 1);
        return Err(InvalidMember);
      }
      b := b[members[i].value.key := members[i].value.item];
    }
    assert members[..|members|] == members;
    if |b| > MAX_MEMBERS {
      return Err(TooManyMembers);
    }
    var s := String(b);
    ghost var order :| Enumerates(order, b) && s == Printed(b, order);
    forall other | Enumerates(other, b)
      ensures |Printed(b, other)| == |s|
    {
      LengthOfAnyOrder(b, other, order);
    }
    if |s| > MAX_BYTES {
      return Err(BaggageTooLarge);
    }
    return Ok(b);
  }

  /**
   What New accepts, which are the baggages within its two limits, is parsed back in its normal form, unless a member is
   larger than Parse allows: New does not look at the size of members.
   */
  lemma NewIsParsedBack(b: Baggage, order: seq<Bytes>)
    requires Enumerates(order, b)
    requires |b| <= MAX_MEMBERS && |Printed(b, order)| <= MAX_BYTES
    ensures Parsed(Printed(b, order))
         == if exists k :: Oversized(b, k) then Err(MemberTooLarge) else Ok(NormalBaggage(b))
  {
    NormalIsSmaller(b);
    PrintedIsParsed(b, order);
  }

  const LONG_VALUE: Bytes := seq(5000, _ => 'x')

  const LONG_MEMBER: Member := Member(['a'], Item(LONG_VALUE, []))

  lemma {:induction false} XsNeedNoEscape(s: Bytes)
    requires forall i :: 0 <= i < |s| ==> s[i] == 'x'
    ensures HexCount(s) == 0
  {
    if s != [] {
      XsNeedNoEscape(s[..|s| - 1]);
    }
  }

  lemma LongMemberPrinted(order: seq<Bytes>)
    requires Enumerates(order, map[LONG_MEMBER.key := LONG_MEMBER.item])
    ensures var b: Baggage := map[LONG_MEMBER.key := LONG_MEMBER.item];
      |Printed(b, order)| == 5002 && Oversized(b, ['a'])
  {
    var b: Baggage := map[LONG_MEMBER.key := LONG_MEMBER.item];
    XsNeedNoEscape(LONG_VALUE);
    EscapedLength(LONG_VALUE);
    ValidateIsAll(['a']);
    assert |MemberString(['a'], b[['a']])| == 5002;
    assert |[['a']][1..]| == 0 && MemberStrings(b, [['a']]) == [MemberString(['a'], b[['a']])];
    LengthOfAnyOrder(b, order, [['a']]);
  }

  /** New accepts a baggage of one member of 5002 bytes; Parse rejects what it prints. */
  method NewAcceptsWhatParseRejects() returns (made: Result<Baggage, Error>, read: Result<Baggage, Error>)
    ensures made == Ok(map[LONG_MEMBER.key := LONG_MEMBER.item]) && read == Err(MemberTooLarge)
  {
    var members := [Some(LONG_MEMBER)];
    assert members[..0] == [];
    assert Collected(members) == Ok(map[LONG_MEMBER.key := LONG_MEMBER.item]);
    ghost var b: Baggage := map[LONG_MEMBER.key := LONG_MEMBER.item];
    made := New(members);
    assert Enumerates([['a']], b);
    LongMemberPrinted([['a']]);
    var s := String(made.value);
    ghost var order :| Enumerates(order, b) && s == Printed(b, order);
    LongMemberPrinted(order);
    PrintedIsParsed(b, order);
    read := Parse(s);
  }
}

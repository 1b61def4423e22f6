/**
 The headers and list-members that are allowed (W3C Baggage, section "Definition"), and that exactly those are parsed.
 */
module BaggageGrammar {
  import opened Prelude
  import opened Text
  import opened Utf8
  import opened BaggageText
  import opened BaggageProperty
  import opened Baggage

  // ----- white space around keys and values -----

  /** A sequence of white space characters, not only ASCII ones. */
  predicate Spaces(s: Bytes)
    decreases |s|
  {
    s == [] || (StartsCharacter(s) && IsSpace(Character(s)) && Spaces(s[LengthOf(s[0])..]))
  }

  predicate Visible(c: Byte) {
    '!' <= c <= '~'
  }

  lemma StartsPrefix(s: Bytes, t: Bytes)
    requires StartsCharacter(s)
    ensures StartsCharacter(s + t) && Character(s + t) == Character(s)
    ensures (s + t)[LengthOf(s[0])..] == s[LengthOf(s[0])..] + t
  {
  }

  lemma {:induction false} SpacesAppend(s: Bytes, t: Bytes)
    requires Spaces(s) && Spaces(t)
    ensures Spaces(s + t)
    decreases |s|
  {
    if s == [] {
      assert s + t == t;
    } else {
      StartsPrefix(s, t);
      SpacesAppend(s[LengthOf(s[0])..], t);
    }
  }

  /** The bytes of white space characters are no visible ASCII characters. */
  lemma {:induction false} SpacesFree(s: Bytes, c: Byte)
    requires Spaces(s) && Visible(c)
    ensures c !in s
    decreases |s|
  {
    if s != [] {
      var n := LengthOf(s[0]);
      SpacesFree(s[n..], c);
      assert s == s[..n] + s[n..];
      SpaceBytes(s, c);
    }
  }

  lemma SpaceBytes(s: Bytes, c: Byte)
    requires StartsCharacter(s) && IsSpace(Character(s)) && Visible(c)
    ensures c !in s[..LengthOf(s[0])]
  {
    forall i | 0 <= i < LengthOf(s[0])
      ensures s[i] != c
    {
      assert LengthOf(s[0]) > 1 ==> Code(s[i]) >= 0x80;
    }
  }

  lemma {:induction false} TrimLeftOf(a: Bytes, rest: Bytes)
    requires Spaces(a) && (rest == [] || Visible(rest[0]))
    ensures TrimLeftSpace(a + rest) == rest
    decreases |a|
  {
    if a == [] {
      assert a + rest == rest;
    } else {
      StartsPrefix(a, rest);
      TrimLeftOf(a[LengthOf(a[0])..], rest);
    }
  }

  lemma {:induction false} TrimLeftSplit(s: Bytes) returns (a: Bytes)
    ensures s == a + TrimLeftSpace(s) && Spaces(a)
    decreases |s|
  {
    if s == [] || !IsSpace(DecodeRune(s).0) {
      a := [];
    } else {
      var n := LengthOf(s[0]);
      var first, rest := s[..n], s[n..];
      var c := TrimLeftSplit(rest);
      FirstSpace(s);
      SpacesAppend(first, c);
      a := first + c;
      SplitAt(s, n);
      Regroup(first, c, TrimLeftSpace(s));
    }
  }

  lemma FirstSpace(s: Bytes)
    requires s != [] && IsSpace(DecodeRune(s).0)
    ensures StartsCharacter(s) && DecodeRune(s).1 == LengthOf(s[0]) && Spaces(s[..LengthOf(s[0])])
  {
    StartsFront(s, LengthOf(s[0]));
    SpaceIsSpaces(s[..LengthOf(s[0])]);
  }

  lemma StartsFront(s: Bytes, k: nat)
    requires StartsCharacter(s) && LengthOf(s[0]) <= k <= |s|
    ensures StartsCharacter(s[..k]) && Character(s[..k]) == Character(s)
  {
  }

  predicate SpaceCharacter(w: Bytes) {
    StartsCharacter(w) && |w| == LengthOf(w[0]) && IsSpace(Character(w))
  }

  lemma SpaceIsSpaces(w: Bytes)
    requires SpaceCharacter(w)
    ensures Spaces(w)
  {
    assert w[LengthOf(w[0])..] == [];
  }

  /** Whether a string ends with a character depends on its last bytes only. */
  lemma EndsSame(t: Bytes, w: Bytes, m: nat)
    requires 1 <= m <= |w|
    ensures EndsWithCharacter(t + w, m) <==> EndsWithCharacter(w, m)
    ensures (t + w)[|t + w| - m..] == w[|w| - m..]
  {
    assert (t + w)[|t + w| - m..] == w[|w| - m..];
  }

  /** A string that ends with a character of n bytes does not end with a shorter one. */
  lemma InsideCharacter(w: Bytes, m: nat)
    requires StartsCharacter(w) && |w| == LengthOf(w[0]) && 1 <= m < |w|
    ensures !EndsWithCharacter(w, m)
  {
    assert w[|w| - m..][0] == w[|w| - m];
    assert IsContinuation(w[|w| - m]);
  }

  lemma NoShorterEnd(t: Bytes, w: Bytes, m: nat)
    requires StartsCharacter(w) && |w| == LengthOf(w[0]) && 1 <= m < |w|
    ensures !EndsWithCharacter(t + w, m)
  {
    EndsSame(t, w, m);
    InsideCharacter(w, m);
  }

  lemma LastIs(t: Bytes, w: Bytes)
    requires StartsCharacter(w) && |w| == LengthOf(w[0])
    ensures DecodeLastRune(t + w) == (Character(w), |w|)
  {
    EndsSame(t, w, |w|);
    assert w[|w| - |w|..] == w;
    if |w| > 1 { NoShorterEnd(t, w, 1); }
    if |w| > 2 { NoShorterEnd(t, w, 2); }
    if |w| > 3 { NoShorterEnd(t, w, 3); }
  }

  lemma TrimLast(t: Bytes, w: Bytes)
    requires SpaceCharacter(w)
    ensures TrimRightSpace(t + w) == TrimRightSpace(t)
  {
    LastIs(t, w);
    assert (t + w)[..|t + w| - |w|] == t;
  }

  lemma LastVisible(t: Bytes)
    requires t != [] && Visible(t[|t| - 1])
    ensures TrimRightSpace(t) == t
  {
    assert t[|t| - 1..] == [t[|t| - 1]];
    assert EndsWithCharacter(t, 1);
  }

  lemma LastFound(s: Bytes)
    requires s != [] && IsSpace(DecodeLastRune(s).0)
    ensures var n := DecodeLastRune(s).1; EndsWithCharacter(s, n) && SpaceCharacter(s[|s| - n..])
  {
  }

  /** What is trimmed first is a white space character. */
  lemma TrimmedCharacter(s: Bytes) returns (front: Bytes, w: Bytes)
    requires TrimRightSpace(s) != s
    ensures s == front + w && SpaceCharacter(w) && TrimRightSpace(s) == TrimRightSpace(front)
  {
    var n := DecodeLastRune(s).1;
    front, w := s[..|s| - n], s[|s| - n..];
    LastFound(s);
    SplitAt(s, |s| - n);
  }

  lemma {:induction false} LastSpace(s: Bytes) returns (front: Bytes, w: Bytes)
    requires s != [] && Spaces(s)
    ensures s == front + w && Spaces(front) && SpaceCharacter(w)
    decreases |s|
  {
    var n := LengthOf(s[0]);
    var first, rest := s[..n], s[n..];
    assert s == first + rest;
    StartsFront(s, n);
    if rest == [] {
      front, w := [], s;
    } else {
      front, w := LastSpace(rest);
      SpaceIsSpaces(first);
      SpacesAppend(first, front);
      assert s == (first + front) + w;
      front := first + front;
    }
  }

  lemma {:induction false} TrimRightOf(t: Bytes, b: Bytes)
    requires Spaces(b) && (t == [] || Visible(t[|t| - 1]))
    ensures TrimRightSpace(t + b) == t
    decreases |b|
  {
    if b == [] {
      assert t + b == t;
      if t != [] {
        LastVisible(t);
      }
    } else {
      var front, w := LastSpace(b);
      TrimRightOf(t, front);
      TrimLast(t + front, w);
      Regroup(t, front, w);
    }
  }

  lemma {:induction false} TrimRightSplit(s: Bytes) returns (b: Bytes)
    ensures s == TrimRightSpace(s) + b && Spaces(b)
    decreases |s|
  {
    if TrimRightSpace(s) == s {
      b := [];
    } else {
      var front, w := TrimmedCharacter(s);
      var c := TrimRightSplit(front);
      SpaceIsSpaces(w);
      SpacesAppend(c, w);
      b := c + w;
      Regroup(TrimRightSpace(s), c, w);
    }
  }

  predicate AllVisible(t: Bytes) {
    forall i :: 0 <= i < |t| ==> Visible(t[i])
  }

  lemma TrimSpaceOf(a: Bytes, t: Bytes, b: Bytes)
    requires Spaces(a) && Spaces(b) && AllVisible(t)
    ensures TrimSpace(a + (t + b)) == t
  {
    if t == [] {
      assert t + b == b && (a + b) + [] == a + b;
      SpacesAppend(a, b);
      TrimLeftOf(a + b, []);
    } else {
      TrimLeftOf(a, t + b);
      TrimRightOf(t, b);
    }
  }

  /** A string is what TrimSpace leaves of it, among white space. */
  lemma TrimSpaceSplit(s: Bytes) returns (a: Bytes, b: Bytes)
    ensures Spaces(a) && Spaces(b) && s == a + (TrimSpace(s) + b)
  {
    var u := TrimLeftSpace(s);
    a := TrimLeftSplit(s);
    b := TrimRightSplit(u);
    Glue(s, a, u, TrimSpace(s), b);
  }

  // ----- list-members -----

  datatype PropertyText = NoText | Laid(layout: Layout)

  /** The parts of a list-member; `props` are the property texts behind its first semicolon, if there is one. */
  datatype MemberLayout = MemberLayout(s1: Bytes, key: Bytes, s2: Bytes, s3: Bytes, raw: Bytes, s4: Bytes,
                                       props: Option<seq<PropertyText>>)

  function PropertyBytes(t: PropertyText): Bytes {
    if t.NoText? then [] else LaidOut(t.layout)
  }

  function AllBytes(ts: seq<PropertyText>): (r: seq<Bytes>)
    ensures |r| == |ts|
  {
    if ts == [] then [] else [PropertyBytes(ts[0])] + AllBytes(ts[1..])
  }

  predicate WellFormedText(t: PropertyText) {
    t.Laid? ==> WellFormed(t.layout)
  }

  predicate WellFormedTexts(ts: seq<PropertyText>) {
    ts == [] || (WellFormedText(ts[0]) && WellFormedTexts(ts[1..]))
  }

  function Meanings(ts: seq<PropertyText>): seq<Property>
    requires WellFormedTexts(ts)
  {
    if ts == [] then []
    else [if ts[0].NoText? then ZERO else Meaning(ts[0].layout)] + Meanings(ts[1..])
  }

  function KeyText(l: MemberLayout): Bytes {
    l.s1 + (l.key + l.s2)
  }

  function ValueText(l: MemberLayout): Bytes {
    l.s3 + (l.raw + l.s4)
  }

  function KeyValueText(l: MemberLayout): Bytes {
    KeyText(l) + ['='] + ValueText(l)
  }

  function MemberText(l: MemberLayout): Bytes {
    var keyValue := KeyValueText(l);
    if l.props.None? then keyValue else keyValue + [';'] + Join(AllBytes(l.props.value), ';')
  }

  /**
   The list-members that are allowed: a token as the key and legal characters whose percent signs can be decoded as the
   value, both among white space, and properties that are well-formed or empty; 4096 bytes at most.
   */
  predicate WellFormedMember(l: MemberLayout) {
    && Spaces(l.s1) && Spaces(l.s2) && Spaces(l.s3) && Spaces(l.s4)
    && l.key != [] && All(l.key, TokenChar)
    && All(l.raw, ValueChar) && Unescaped(l.raw).Some?
    && (l.props.Some? ==> l.props.value != [] && WellFormedTexts(l.props.value))
    && |MemberText(l)| <= MAX_BYTES_PER_MEMBER
  }

  function MemberMeaning(l: MemberLayout): Member
    requires WellFormedMember(l)
  {
    Member(l.key, Item(Replaced(Unescaped(l.raw).value), if l.props.None? then [] else Meanings(l.props.value)))
  }

  lemma NoDelimiter(l: Layout, c: Byte)
    requires WellFormed(l) && (c == ';' || c == ',')
    ensures LaidOut(l) != [] && c !in LaidOut(l)
  {
    assert !IsBlank(c) && !TokenChar(c) && !ValueChar(c);
  }

  lemma {:induction false} TextsParsed(ts: seq<PropertyText>)
    requires WellFormedTexts(ts)
    ensures ParseProperties(AllBytes(ts)) == Ok(Meanings(ts)) && FreeOf(AllBytes(ts), ';')
  {
    if ts != [] {
      TextsParsed(ts[1..]);
      var text, rest := PropertyBytes(ts[0]), AllBytes(ts[1..]);
      if ts[0].Laid? {
        NoDelimiter(ts[0].layout, ';');
        WellFormedIsParsed(ts[0].layout);
      }
      assert AllBytes(ts)[0] == text && AllBytes(ts)[1..] == rest;
    }
  }

  lemma Delimited(a: Bytes, t: Bytes, b: Bytes, c: Byte)
    requires Spaces(a) && Spaces(b) && Visible(c) && c !in t
    ensures c !in a + (t + b)
  {
    SpacesFree(a, c);
    SpacesFree(b, c);
  }

  lemma KeyAndValueParsed(l: MemberLayout, props: seq<Property>)
    requires WellFormedMember(l)
    ensures var keyValue := KeyValueText(l);
      && ';' !in keyValue
      && ParsedKeyValue(keyValue, props) == Ok(Member(l.key, Item(Replaced(Unescaped(l.raw).value), props)))
  {
    assert !TokenChar('=') && !TokenChar(';') && !ValueChar(';');
    Delimited(l.s1, l.key, l.s2, '=');
    Delimited(l.s1, l.key, l.s2, ';');
    Delimited(l.s3, l.raw, l.s4, ';');
    CutAt(KeyText(l), '=', ValueText(l));
    TrimSpaceOf(l.s1, l.key, l.s2);
    TrimSpaceOf(l.s3, l.raw, l.s4);
    ValidateIsAll(l.key);
    ValidateIsAll(l.raw);
  }

  /** Every well-formed list-member is parsed to what it means. */
  lemma WellFormedMemberIsParsed(l: MemberLayout)
    requires WellFormedMember(l)
    ensures ParsedMember(MemberText(l)) == Ok(MemberMeaning(l))
  {
    if l.props.None? {
      KeyAndValueParsed(l, []);
      ParsedAlone(KeyValueText(l));
    } else {
      WithProperties(l);
    }
  }

  lemma WithProperties(l: MemberLayout)
    requires WellFormedMember(l) && l.props.Some?
    ensures ParsedMember(MemberText(l)) == Ok(MemberMeaning(l))
  {
    TextsParsed(l.props.value);
    KeyAndValueParsed(l, Meanings(l.props.value));
    ParsedInParts(KeyValueText(l), AllBytes(l.props.value));
  }

  lemma ParsedAlone(keyValue: Bytes)
    requires ';' !in keyValue && |keyValue| <= MAX_BYTES_PER_MEMBER
    ensures ParsedMember(keyValue) == ParsedKeyValue(keyValue, [])
  {
    CutNone(keyValue, ';');
  }

  lemma ParsedInParts(keyValue: Bytes, parts: seq<Bytes>)
    requires ';' !in keyValue && parts != [] && FreeOf(parts, ';') && ParseProperties(parts).Ok?
    requires |keyValue + [';'] + Join(parts, ';')| <= MAX_BYTES_PER_MEMBER
    ensures ParsedMember(keyValue + [';'] + Join(parts, ';')) == ParsedKeyValue(keyValue, ParseProperties(parts).value)
  {
    CutAt(keyValue, ';', Join(parts, ';'));
    SplitJoin(parts, ';');
  }

  function TextsOf(parts: seq<Bytes>): seq<PropertyText> {
    if parts == [] then []
    else [if parts[0] == [] then NoText else Laid(LayoutOf(parts[0]))] + TextsOf(parts[1..])
  }

  lemma {:induction false} ParsedTexts(parts: seq<Bytes>)
    requires ParseProperties(parts).Ok?
    ensures var ts := TextsOf(parts);
      WellFormedTexts(ts) && AllBytes(ts) == parts && Meanings(ts) == ParseProperties(parts).value
  {
    if parts != [] {
      ParsedTexts(parts[1..]);
      if parts[0] != [] {
        ParsedIsWellFormed(parts[0]);
      }
      var ts := TextsOf(parts);
      assert ts[1..] == TextsOf(parts[1..]);
      assert parts == [parts[0]] + parts[1..];
    }
  }

  lemma ParsedKeyValueLayout(keyValue: Bytes, ps: seq<Property>) returns (l: MemberLayout)
    requires ParsedKeyValue(keyValue, ps).Ok?
    ensures l.props == None && keyValue == KeyValueText(l)
    ensures Spaces(l.s1) && Spaces(l.s2) && Spaces(l.s3) && Spaces(l.s4)
    ensures l.key != [] && All(l.key, TokenChar) && All(l.raw, ValueChar) && Unescaped(l.raw).Some?
    ensures ParsedKeyValue(keyValue, ps).value == Member(l.key, Item(Replaced(Unescaped(l.raw).value), ps))
  {
    var (k, v, found) := Cut(keyValue, '=');
    CutIs(keyValue, '=');
    var s1, s2 := TrimSpaceSplit(k);
    var s3, s4 := TrimSpaceSplit(v);
    l := MemberLayout(s1, TrimSpace(k), s2, s3, TrimSpace(v), s4, None);
    ValidateIsAll(l.key);
    ValidateIsAll(l.raw);
  }

  /** Only well-formed list-members are parsed. */
  lemma ParsedMemberLayout(s: Bytes) returns (l: MemberLayout)
    requires ParsedMember(s).Ok?
    ensures WellFormedMember(l) && MemberText(l) == s && MemberMeaning(l) == ParsedMember(s).value
  {
    var (keyValue, properties, found) := Cut(s, ';');
    CutIs(s, ';');
    if found {
      var parts := Split(properties, ';');
      ParsedTexts(parts);
      JoinSplit(properties, ';');
      l := ParsedKeyValueLayout(keyValue, ParseProperties(parts).value);
      l := l.(props := Some(TextsOf(parts)));
    } else {
      l := ParsedKeyValueLayout(keyValue, []);
    }
  }

  /** The list-members that are accepted are exactly the well-formed ones, and they are parsed to what they mean. */
  lemma ParsedMemberIs(s: Bytes, m: Member)
    ensures ParsedMember(s) == Ok(m)
       <==> exists l :: WellFormedMember(l) && MemberText(l) == s && MemberMeaning(l) == m
  {
    if ParsedMember(s) == Ok(m) {
      var l := ParsedMemberLayout(s);
    }
    if exists l :: WellFormedMember(l) && MemberText(l) == s && MemberMeaning(l) == m {
      var l :| WellFormedMember(l) && MemberText(l) == s && MemberMeaning(l) == m;
      WellFormedMemberIsParsed(l);
    }
  }

  // ----- headers -----

  function MemberTexts(ls: seq<MemberLayout>): (r: seq<Bytes>)
    ensures |r| == |ls|
  {
    if ls == [] then [] else [MemberText(ls[0])] + MemberTexts(ls[1..])
  }

  predicate WellFormedMembers(ls: seq<MemberLayout>) {
    ls == [] || (WellFormedMember(ls[0]) && WellFormedMembers(ls[1..]))
  }

  /** What the last list-member with the key says. */
  function LastItem(ls: seq<MemberLayout>, k: Bytes): Option<Item>
    requires WellFormedMembers(ls)
  {
    if ls == [] then None
    else if LastItem(ls[1..], k).Some? then LastItem(ls[1..], k)
    else if ls[0].key == k then Some(MemberMeaning(ls[0]).item)
    else None
  }

  /** The header consists of these list-members, with commas in between. */
  predicate IsHeader(s: Bytes, ls: seq<MemberLayout>) {
    ls != [] && WellFormedMembers(ls) && s == Join(MemberTexts(ls), ',')
  }

  /** What `b` has for a key after the list-members have been added to `acc`. */
  predicate HasLast(b: Baggage, ls: seq<MemberLayout>, acc: Baggage, k: Bytes)
    requires WellFormedMembers(ls)
  {
    if LastItem(ls, k).Some? then k in b && b[k] == LastItem(ls, k).value
    else if k in acc then k in b && b[k] == acc[k]
    else k !in b
  }

  /** For every key the baggage holds what the last list-member with it says, and nothing else. */
  ghost predicate HoldsLast(b: Baggage, ls: seq<MemberLayout>) {
    WellFormedMembers(ls) && forall k :: HasLast(b, ls, map[], k)
  }

  lemma MemberFree(l: MemberLayout)
    requires WellFormedMember(l)
    ensures ',' !in MemberText(l)
  {
    assert !TokenChar(',') && !ValueChar(',');
    Delimited(l.s1, l.key, l.s2, ',');
    Delimited(l.s3, l.raw, l.s4, ',');
    if l.props.Some? {
      TextsFree(l.props.value);
      JoinFree(AllBytes(l.props.value), ';', ',');
    }
  }

  lemma {:induction false} TextsFree(ts: seq<PropertyText>)
    requires WellFormedTexts(ts)
    ensures FreeOf(AllBytes(ts), ',')
  {
    if ts != [] {
      TextsFree(ts[1..]);
      if ts[0].Laid? {
        NoDelimiter(ts[0].layout, ',');
      }
    }
  }

  lemma {:induction false} MembersFree(ls: seq<MemberLayout>)
    requires WellFormedMembers(ls)
    ensures FreeOf(MemberTexts(ls), ',')
  {
    if ls != [] {
      MembersFree(ls[1..]);
      MemberFree(ls[0]);
    }
  }

  lemma {:induction false} MembersParsed(ls: seq<MemberLayout>, acc: Baggage)
    requires WellFormedMembers(ls)
    ensures ParsedMembers(MemberTexts(ls), acc).Ok?
    ensures forall k :: HasLast(ParsedMembers(MemberTexts(ls), acc).value, ls, acc, k)
  {
    if ls != [] {
      var m := MemberMeaning(ls[0]);
      WellFormedMemberIsParsed(ls[0]);
      MembersParsed(ls[1..], acc[m.key := m.item]);
      FirstText(ls);
      var b := ParsedMembers(MemberTexts(ls), acc).value;
      forall k
        ensures HasLast(b, ls, acc, k)
      {
        assert HasLast(b, ls[1..], acc[m.key := m.item], k);
        LastBeforeMore(b, ls, acc, k);
      }
    }
  }

  lemma LastBeforeMore(b: Baggage, ls: seq<MemberLayout>, acc: Baggage, k: Bytes)
    requires ls != [] && WellFormedMembers(ls)
    requires HasLast(b, ls[1..], acc[ls[0].key := MemberMeaning(ls[0]).item], k)
    ensures HasLast(b, ls, acc, k)
  {
  }

  lemma FirstText(ls: seq<MemberLayout>)
    requires ls != []
    ensures MemberTexts(ls)[0] == MemberText(ls[0]) && MemberTexts(ls)[1..] == MemberTexts(ls[1..])
  {
  }

  lemma {:induction false} ParsedMembersLayouts(parts: seq<Bytes>, acc: Baggage) returns (ls: seq<MemberLayout>)
    requires ParsedMembers(parts, acc).Ok?
    ensures WellFormedMembers(ls) && MemberTexts(ls) == parts
  {
    if parts == [] {
      ls := [];
    } else {
      var m := ParsedMember(parts[0]).value;
      var first := ParsedMemberLayout(parts[0]);
      var rest := ParsedMembersLayouts(parts[1..], acc[m.key := m.item]);
      ls := [first] + rest;
      assert ls[0] == first && ls[1..] == rest;
      FirstText(ls);
      assert parts == [parts[0]] + parts[1..];
    }
  }

  lemma HeaderParsed(s: Bytes, ls: seq<MemberLayout>)
    requires IsHeader(s, ls)
    ensures var r := ParsedMembers(Split(s, ','), map[]); r.Ok? && forall k :: HasLast(r.value, ls, map[], k)
  {
    MembersFree(ls);
    SplitJoin(MemberTexts(ls), ',');
    MembersParsed(ls, map[]);
  }

  lemma SameLast(b: Baggage, other: Baggage, ls: seq<MemberLayout>)
    requires WellFormedMembers(ls)
    requires forall k :: HasLast(b, ls, map[], k)
    requires forall k :: HasLast(other, ls, map[], k)
    ensures b == other
  {
    forall k
      ensures (k in b <==> k in other) && (k in b ==> b[k] == other[k])
    {
      assert HasLast(b, ls, map[], k) && HasLast(other, ls, map[], k);
    }
    assert b.Keys == other.Keys;
  }

  /**
   The headers that are accepted: the empty one, and those of at most 8192 bytes that consist of well-formed list-
   members with at most 180 different keys; the baggage then holds for every key what the last list-member with it
   says.
   */
  lemma ParsedIs(s: Bytes, b: Baggage)
    ensures Parsed(s) == Ok(b)
       <==> if s == [] then b == map[]
            else |s| <= MAX_BYTES && |b| <= MAX_MEMBERS && exists ls :: IsHeader(s, ls) && HoldsLast(b, ls)
  {
    if s != [] && Parsed(s) == Ok(b) {
      var ls := ParsedMembersLayouts(Split(s, ','), map[]);
      JoinSplit(s, ',');
      HeaderParsed(s, ls);
      assert IsHeader(s, ls) && HoldsLast(b, ls);
    }
    if exists ls :: IsHeader(s, ls) && HoldsLast(b, ls) {
      var ls :| IsHeader(s, ls) && HoldsLast(b, ls);
      HeaderParsed(s, ls);
      SameLast(b, ParsedMembers(Split(s, ','), map[]).value, ls);
    }
  }

  // ----- an empty property among others -----

  const EMPTY_AMONG_OTHERS: Bytes := "k=1;;p"

  const P: Property := Property(['p'], [], false)

  const P_TEXT: PropertyText := Laid(Layout([], ['p'], [], false, [], [], []))

  const EMPTY_LAYOUT: MemberLayout := MemberLayout([], ['k'], [], [], ['1'], [], Some([NoText, P_TEXT]))

  function OneMember(properties: seq<Property>): Baggage {
    map[['k'] := Item(['1'], properties)]
  }

  lemma LayoutOfP()
    ensures WellFormed(P_TEXT.layout) && LaidOut(P_TEXT.layout) == ['p'] && Meaning(P_TEXT.layout) == P
  {
    BareLayout(['p'], false, []);
  }

  lemma TextsOfP()
    ensures WellFormedTexts([NoText, P_TEXT]) && Meanings([NoText, P_TEXT]) == [ZERO, P]
  {
    LayoutOfP();
    assert [NoText, P_TEXT][1..] == [P_TEXT] && [P_TEXT][1..] == [];
    assert Meanings([P_TEXT]) == [P];
  }

  lemma EmptyLayoutText()
    ensures AllBytes([NoText, P_TEXT]) == [[], ['p']] && MemberText(EMPTY_LAYOUT) == EMPTY_AMONG_OTHERS
  {
    LayoutOfP();
    assert [NoText, P_TEXT][1..] == [P_TEXT] && [P_TEXT][1..] == [];
    var parts: seq<Bytes> := [[], ['p']];
    assert parts[1..] == [['p']];
  }

  /** The text of the value needs no escaping. */
  lemma PlainOne()
    ensures Escaped(['1']) == ['1'] && Unescaped(['1']) == Some(['1']) && Replaced(['1']) == ['1']
    ensures All(['1'], ValueChar)
  {
    NothingToEscape(['1']);
    UnescapeEscaped(['1']);
    EscapedIsLegal(['1']);
    AsciiRunes(['1']);
    ReplacedIffValid(['1']);
  }

  lemma EmptyLayoutMeaning()
    ensures WellFormedMember(EMPTY_LAYOUT)
    ensures MemberMeaning(EMPTY_LAYOUT) == Member(['k'], Item(['1'], [ZERO, P]))
  {
    TextsOfP();
    EmptyLayoutText();
    PlainOne();
  }

  lemma EmptyPropertyParsed()
    ensures Parsed(EMPTY_AMONG_OTHERS) == Ok(OneMember([ZERO, P]))
  {
    EmptyLayoutText();
    EmptyLayoutMeaning();
    WellFormedMemberIsParsed(EMPTY_LAYOUT);
    CutNone(EMPTY_AMONG_OTHERS, ',');
    var parts: seq<Bytes> := [EMPTY_AMONG_OTHERS];
    assert parts[1..] == [];
  }

  lemma OneMemberText()
    ensures MemberString(['k'], Item(['1'], [ZERO, P])) == "k=1;p"
  {
    OneMemberIs(['k'], Item(['1'], [ZERO, P]));
  }

  lemma OneMemberIs(key: Bytes, item: Item)
    requires key == ['k'] && item == Item(['1'], [ZERO, P])
    ensures MemberString(key, item) == "k=1;p"
  {
    assert ValidateKey(key) by { ValidateIsAll(key); }
    assert Escaped(item.value) == ['1'] by { PlainOne(); }
    assert PropertyStrings(item.properties) == [['p']] by { PropertyTexts(); }
    OneKeyText(key, item, ['1'], ['p']);
    Spelled();
  }

  lemma OneKeyText(key: Bytes, item: Item, escaped: Bytes, text: Bytes)
    requires ValidateKey(key) && Escaped(item.value) == escaped
    requires item.properties != [] && PropertyStrings(item.properties) == [text]
    ensures MemberString(key, item) == key + ['='] + escaped + ([';'] + text)
  {
  }

  lemma Spelled()
    ensures ['k'] + ['='] + ['1'] + ([';'] + ['p']) == "k=1;p"
  {
  }

  lemma PropertyTexts()
    ensures PropertyStrings([ZERO, P]) == [['p']]
  {
    ValidateIsAll(['p']);
    assert PropertyString(ZERO) == [] && PropertyString(P) == ['p'];
    OneText(P);
    assert [ZERO, P][1..] == [P];
  }

  lemma OneText(p: Property)
    requires PropertyString(p) != []
    ensures PropertyStrings([p]) == [PropertyString(p)]
  {
    assert [p][1..] == [];
  }

  lemma OnlyOrder(order: seq<Bytes>, properties: seq<Property>)
    requires Enumerates(order, OneMember(properties))
    ensures order == [['k']]
  {
    assert ['k'] in order;
    assert order[0] in order && order[|order| - 1] in order;
    assert order[|order| - 1] == order[0];
  }

  lemma EmptyPropertyPrinted(order: seq<Bytes>)
    requires Enumerates(order, OneMember([ZERO, P]))
    ensures Printed(OneMember([ZERO, P]), order) == "k=1;p"
  {
    OnlyOrder(order, [ZERO, P]);
    OneMemberText();
    assert order[1..] == [] && MemberStrings(OneMember([ZERO, P]), order[1..]) == [];
  }

  lemma EmptyPropertyNormal()
    ensures NormalBaggage(OneMember([ZERO, P])) == OneMember([P])
  {
    ValidateIsAll(['k']);
    EmptyItemNormal();
  }

  lemma EmptyItemNormal()
    ensures NormalItem(Item(['1'], [ZERO, P])) == Item(['1'], [P])
  {
    PlainOne();
    EmptyPropertyIsLost();
  }

  /** The header "k=1;;p" is accepted, but the baggage it stands for is printed as "k=1;p", which stands for another. */
  lemma EmptyPropertyHeader(order: seq<Bytes>)
    requires Enumerates(order, OneMember([ZERO, P]))
    ensures Parsed(EMPTY_AMONG_OTHERS) == Ok(OneMember([ZERO, P]))
    ensures Printed(OneMember([ZERO, P]), order) == "k=1;p"
    ensures Parsed("k=1;p") == Ok(OneMember([P])) && OneMember([P]) != OneMember([ZERO, P])
  {
    EmptyPropertyParsed();
    EmptyPropertyPrinted(order);
    EmptyPropertyNormal();
    OneMemberText();
    PrintedIsParsed(OneMember([ZERO, P]), order);
    Differ();
  }

  lemma Differ()
    ensures OneMember([P]) != OneMember([ZERO, P])
  {
    assert OneMember([P])[['k']].properties != OneMember([ZERO, P])[['k']].properties;
  }
}

/**
 The W3C trace state (trace/tracestate.go; W3C Trace Context, section 3.3): validation, parsing, printing, updates.
 */
module TraceState {
  import opened Prelude
  import opened Text
  import opened Utf8

  const MAX_MEMBERS := 32

  datatype Error = InvalidKey | InvalidValue | InvalidMember | TooManyMembers | DuplicateMember

  datatype Member = Member(key: Bytes, value: Bytes)

  /** The members in order. */
  type TraceState = seq<Member>

  // ----- validation -----

  predicate CheckValueChar(v: Byte) {
    ' ' <= v <= '~' && v != ',' && v != '='
  }

  predicate CheckValueLast(v: Byte) {
    '!' <= v <= '~' && v != ',' && v != '='
  }

  predicate CheckValue(val: Bytes) {
    && 0 < |val| <= 256
    && (forall i :: 0 <= i < |val| - 1 ==> CheckValueChar(val[i]))
    && CheckValueLast(val[|val| - 1])
  }

  predicate IsAlphaNum(c: Byte) {
    'a' <= c <= 'z' || '0' <= c <= '9'
  }

  /** The letter and digit test looks at the lowest byte of a character only. */
  predicate KeyRune(v: nat) {
    || IsAlphaNum((v % 256) as char)
    || v == '_' as int || v == '-' as int || v == '*' as int || v == '/' as int
  }

  predicate CheckKeyRemain(key: Bytes) {
    forall v :: v in Runes(key) ==> KeyRune(v)
  }

  predicate CheckKeyPart(key: Bytes, n: nat) {
    key != [] && |key| - 1 <= n && 'a' <= key[0] <= 'z' && CheckKeyRemain(key[1..])
  }

  predicate CheckKeyTenant(key: Bytes, n: nat) {
    key != [] && IsAlphaNum(key[0]) && |key| - 1 <= n && CheckKeyRemain(key[1..])
  }

  predicate CheckKey(key: Bytes) {
    var (tenant, system, ok) := Cut(key, '@');
    if !ok then CheckKeyPart(key, 255) else CheckKeyTenant(tenant, 240) && CheckKeyPart(system, 13)
  }

  // ----- the grammar of keys -----

  predicate KeyChar(c: Byte) {
    IsAlphaNum(c) || c == '_' || c == '-' || c == '*' || c == '/'
  }

  predicate KeyChars(s: Bytes) {
    forall i :: 0 <= i < |s| ==> KeyChar(s[i])
  }

  predicate SimpleKey(key: Bytes) {
    1 <= |key| <= 256 && 'a' <= key[0] <= 'z' && KeyChars(key)
  }

  predicate TenantId(s: Bytes) {
    1 <= |s| <= 241 && IsAlphaNum(s[0]) && KeyChars(s)
  }

  predicate SystemId(s: Bytes) {
    1 <= |s| <= 14 && 'a' <= s[0] <= 'z' && KeyChars(s)
  }

  predicate MultiTenantKey(key: Bytes) {
    exists i :: 0 <= i < |key| && key[i] == '@' && TenantId(key[..i]) && SystemId(key[i + 1..])
  }

  /** W3C Trace Context, section 3.3.1.3.1. */
  predicate W3CKey(key: Bytes) {
    SimpleKey(key) || MultiTenantKey(key)
  }

  lemma RemainIsKeyChars(s: Bytes)
    ensures KeyChars(s) <==> CheckKeyRemain(s) && IsAscii(s)
  {
    if IsAscii(s) {
      AsciiRunes(s);
      forall i | 0 <= i < |s|
        ensures KeyRune(Runes(s)[i]) <==> KeyChar(s[i])
        ensures Runes(s)[i] in Runes(s)
      {
        assert Code(s[i]) % 256 == Code(s[i]);
      }
    } else {
      var i :| 0 <= i < |s| && Code(s[i]) >= 0x80;
      assert !KeyChar(s[i]);
    }
  }

  lemma PartIsKeyChars(s: Bytes)
    requires s != [] && IsAlphaNum(s[0])
    ensures KeyChars(s) <==> CheckKeyRemain(s[1..]) && IsAscii(s)
  {
    RemainIsKeyChars(s[1..]);
    assert s == [s[0]] + s[1..];
    assert IsAscii(s) <==> IsAscii(s[1..]) by {
      assert forall i :: 0 < i < |s| ==> s[i] == s[1..][i - 1];
    }
    assert KeyChars(s) <==> KeyChars(s[1..]) by {
      assert forall i :: 0 < i < |s| ==> s[i] == s[1..][i - 1];
    }
  }

  /** The keys the specification allows are the accepted ones that are ASCII. */
  lemma CheckKeyIsGrammar(key: Bytes)
    ensures W3CKey(key) <==> CheckKey(key) && IsAscii(key)
  {
    var (tenant, system, ok) := Cut(key, '@');
    CutIs(key, '@');
    if !ok {
      if key != [] && IsAlphaNum(key[0]) {
        PartIsKeyChars(key);
      }
      assert !MultiTenantKey(key);
    } else {
      assert key[|tenant|] == '@' && key[..|tenant|] == tenant && key[|tenant| + 1..] == system;
      assert !KeyChar('@');
      assert !SimpleKey(key);
      if tenant != [] && IsAlphaNum(tenant[0]) {
        PartIsKeyChars(tenant);
      }
      if system != [] && IsAlphaNum(system[0]) {
        PartIsKeyChars(system);
      }
      AsciiParts(tenant, system);
      TenantBeforeAt(key, tenant, system);
    }
  }

  lemma AsciiParts(tenant: Bytes, system: Bytes)
    ensures IsAscii(tenant + ['@'] + system) <==> IsAscii(tenant) && IsAscii(system)
  {
    var s := tenant + ['@'] + system;
    assert forall i :: 0 <= i < |tenant| ==> s[i] == tenant[i];
    assert forall i :: 0 <= i < |system| ==> s[|tenant| + 1 + i] == system[i];
  }

  lemma AtOnlyOnce(key: Bytes, tenant: Bytes, system: Bytes, i: nat)
    requires key == tenant + ['@'] + system && '@' !in tenant && i < |key| && key[i] == '@'
    ensures KeyChars(key[..i]) ==> i == |tenant|
  {
    if i > |tenant| {
      assert key[..i][|tenant|] == '@';
    }
  }

  lemma TenantBeforeAt(key: Bytes, tenant: Bytes, system: Bytes)
    requires key == tenant + ['@'] + system && '@' !in tenant
    ensures MultiTenantKey(key) <==> TenantId(tenant) && SystemId(system)
  {
    assert key[|tenant|] == '@' && key[..|tenant|] == tenant && key[|tenant| + 1..] == system;
    if MultiTenantKey(key) {
      var i :| 0 <= i < |key| && key[i] == '@' && TenantId(key[..i]) && SystemId(key[i + 1..]);
      AtOnlyOnce(key, tenant, system, i);
    }
  }

  /** Some character is above ASCII but has a letter or digit as its lowest byte. */
  predicate Narrowed(s: Bytes) {
    exists v :: v in Runes(s) && v >= 0x80 && IsAlphaNum((v % 256) as char)
  }

  /** The other accepted keys have such a character. */
  lemma AcceptedNonAscii(key: Bytes)
    requires CheckKey(key) && !IsAscii(key)
    ensures Narrowed(key)
  {
    var (tenant, system, ok) := Cut(key, '@');
    CutIs(key, '@');
    if !ok {
      NarrowedTail(key);
    } else {
      AsciiParts(tenant, system);
      RunesOfParts(tenant, system);
      if !IsAscii(system) {
        NarrowedTail(system);
        MoreRunes(system, key);
      } else {
        NarrowedTail(tenant);
        MoreRunes(tenant, key);
      }
    }
  }

  lemma RunesOfParts(tenant: Bytes, system: Bytes)
    ensures forall v :: v in Runes(tenant) || v in Runes(system) ==> v in Runes(tenant + ['@'] + system)
  {
    assert tenant + ['@'] + system == tenant + (['@'] + system);
    RunesBefore(tenant, '@', system);
    assert (['@'] + system)[1..] == system;
    assert Runes(['@'] + system) == ['@' as int] + Runes(system);
  }

  lemma MoreRunes(s: Bytes, t: Bytes)
    requires Narrowed(s) && forall v :: v in Runes(s) ==> v in Runes(t)
    ensures Narrowed(t)
  {
  }

  lemma NarrowedTail(s: Bytes)
    requires !IsAscii(s) && Code(s[0]) < 0x80 && CheckKeyRemain(s[1..])
    ensures Narrowed(s)
  {
    var i :| 0 <= i < |s| && Code(s[i]) >= 0x80;
    assert s[1..][i - 1] == s[i];
    assert Runes(s) == [Code(s[0])] + Runes(s[1..]);
    if forall v :: v in Runes(s[1..]) ==> v < 0x80 {
      RunesAscii(s[1..]);
    } else {
      var v :| v in Runes(s[1..]) && v >= 0x80;
      assert KeyRune(v);
      MoreRunes(s[1..], s);
    }
  }

  /** An ASCII byte ends the character before it. */
  lemma DecodeBefore(s: Bytes, c: Byte, t: Bytes)
    requires s != [] && Code(c) < 0x80
    ensures DecodeRune(s + ([c] + t)) == DecodeRune(s)
  {
    var all := s + ([c] + t);
    assert all[|s|] == c && !IsContinuation(all[|s|]);
    assert forall i :: 0 <= i < |s| ==> all[i] == s[i];
    if LengthOf(s[0]) <= |s| {
      assert StartsCharacter(all) <==> StartsCharacter(s);
    } else {
      assert !StartsCharacter(all);
    }
  }

  lemma {:induction false} RunesBefore(s: Bytes, c: Byte, t: Bytes)
    requires Code(c) < 0x80
    ensures Runes(s + ([c] + t)) == Runes(s) + Runes([c] + t)
    decreases |s|
  {
    var tail := [c] + t;
    if s == [] {
      assert s + tail == tail;
    } else {
      var (rune, n) := DecodeRune(s);
      RunesBefore(s[n..], c, t);
      FirstRune(s, tail, c, t);
      Regroup([rune], Runes(s[n..]), Runes(tail));
    }
  }

  lemma FirstRune(s: Bytes, tail: Bytes, c: Byte, t: Bytes)
    requires s != [] && Code(c) < 0x80 && tail == [c] + t
    ensures Runes(s) == [DecodeRune(s).0] + Runes(s[DecodeRune(s).1..])
    ensures Runes(s + tail) == [DecodeRune(s).0] + Runes(s[DecodeRune(s).1..] + tail)
  {
    DecodeBefore(s, c, t);
    assert (s + tail)[DecodeRune(s).1..] == s[DecodeRune(s).1..] + tail;
  }

  /** The key "a" followed by U+0161 is accepted, though it is not ASCII: 0x61 is a letter. */
  lemma NonAsciiKeyAccepted()
    ensures var key: Bytes := ['a', '\U{C5}', '\U{A1}']; CheckKey(key) && !W3CKey(key)
  {
    var key: Bytes := ['a', '\U{C5}', '\U{A1}'];
    CutNone(key, '@');
    assert key[1..] == ['\U{C5}', '\U{A1}'];
    assert StartsCharacter(key[1..]) && Character(key[1..]) == 0x161;
    assert Runes(key[1..]) == [0x161] + Runes(key[1..][2..]);
    assert Runes(key[1..][2..]) == [];
    assert !KeyChar(key[1]);
    CheckKeyIsGrammar(key);
    assert Code(key[1]) >= 0x80;
  }

  // ----- members and trace states -----

  function NewMember(key: Bytes, value: Bytes): Result<Member, Error> {
    if !CheckKey(key) then Err(InvalidKey)
    else if !CheckValue(value) then Err(InvalidValue)
    else Ok(Member(key, value))
  }

  function ParseMember(m: Bytes): Result<Member, Error> {
    var (key, val, ok) := Cut(m, '=');
    if !ok then Err(InvalidMember)
    else if NewMember(TrimLeft(key), TrimRight(val)).Err? then Err(InvalidMember)
    else NewMember(TrimLeft(key), TrimRight(val))
  }

  function MemberString(m: Member): Bytes {
    m.key + ['='] + m.value
  }

  predicate ValidMember(m: Member) {
    CheckKey(m.key) && CheckValue(m.value)
  }

  ghost predicate DistinctKeys(ts: TraceState) {
    forall i, j :: 0 <= i < j < |ts| ==> ts[i].key != ts[j].key
  }

  /** What a trace state conforms to. */
  ghost predicate Valid(ts: TraceState) {
    && (forall i :: 0 <= i < |ts| ==> ValidMember(ts[i]))
    && DistinctKeys(ts)
    && |ts| <= MAX_MEMBERS
  }

  predicate HasMember(ts: TraceState, key: Bytes) {
    exists i :: 0 <= i < |ts| && ts[i].key == key
  }

  // ----- parsing -----

  /** What parsing the rest `ts` of a header leads to when `members` have been found before. */
  function ParsedFrom(ts: Bytes, members: TraceState): Result<TraceState, Error>
    decreases |ts|
  {
    if ts == [] then Ok(members)
    else
      var (memberStr, rest, _) := Cut(ts, ',');
      if memberStr == [] then ParsedFrom(rest, members)
      else
        var m := ParseMember(memberStr);
        if m.Err? then Err(m.error)
        else if HasMember(members, m.value.key) then Err(DuplicateMember)
        else if |members| + 1 > MAX_MEMBERS then Err(TooManyMembers)
        else ParsedFrom(rest, members + [m.value])
  }

  method ParseTraceState(ts: Bytes) returns (r: Result<TraceState, Error>)
    ensures r == ParsedFrom(ts, [])
  {
    if ts == [] {
      return Ok([]);
    }
    var rest := ts;
    var members: TraceState := [];
    var found: set<Bytes> := {};
    while rest != []
      invariant ParsedFrom(ts, []) == ParsedFrom(rest, members)
      invariant |members| <= MAX_MEMBERS
      invariant forall k :: k in found <==> HasMember(members, k)
      decreases |rest|
    {
      var (memberStr, behind, _) := Cut(rest, ',');
      if |memberStr| == 0 {
        rest := behind;
        continue;
      }
      var m := ParseMember(memberStr);
      if m.Err? {
        return Err(m.error);
      }
      if m.value.key in found {
        return Err(DuplicateMember);
      }
      HasMemberSnoc(members, m.value);
      found := found + {m.value.key};
      members := members + [m.value];
      if |members| > MAX_MEMBERS {
        return Err(TooManyMembers);
      }
      rest := behind;
    }
    return Ok(members);
  }

  lemma HasMemberSnoc(ts: TraceState, m: Member)
    ensures forall k :: HasMember(ts + [m], k) <==> HasMember(ts, k) || k == m.key
  {
    forall k
      ensures HasMember(ts + [m], k) <==> HasMember(ts, k) || k == m.key
    {
      assert (ts + [m])[|ts|] == m;
      if HasMember(ts, k) {
        var i :| 0 <= i < |ts| && ts[i].key == k;
        assert (ts + [m])[i] == ts[i];
      }
    }
  }

  function NonEmpty(parts: seq<Bytes>): seq<Bytes> {
    if parts == [] then []
    else if parts[0] == [] then NonEmpty(parts[1..])
    else [parts[0]] + NonEmpty(parts[1..])
  }

  ghost predicate MembersOf(parts: seq<Bytes>, ts: TraceState) {
    |parts| == |ts| && forall i :: 0 <= i < |ts| ==> ParseMember(parts[i]) == Ok(ts[i])
  }

  /** A header is accepted when all its non-empty parts are members with distinct keys, 32 at most. */
  lemma ParseIs(s: Bytes, ts: TraceState)
    ensures ParsedFrom(s, []) == Ok(ts)
       <==> MembersOf(NonEmpty(Split(s, ',')), ts) && DistinctKeys(ts) && |ts| <= MAX_MEMBERS
  {
    ParseFromIs(s, [], ts);
    assert [] + ts == ts;
  }

  ghost predicate Accepted(parts: seq<Bytes>, before: TraceState, ts: TraceState) {
    MembersOf(parts, ts) && DistinctKeys(before + ts) && |before + ts| <= MAX_MEMBERS
  }

  lemma {:induction false} ParseFromIs(s: Bytes, before: TraceState, ts: TraceState)
    requires DistinctKeys(before) && |before| <= MAX_MEMBERS
    ensures ParsedFrom(s, before) == Ok(before + ts) <==> Accepted(NonEmpty(Split(s, ',')), before, ts)
    ensures ParsedFrom(s, before).Ok? ==> before <= ParsedFrom(s, before).value
    decreases |s|
  {
    var parts := NonEmpty(Split(s, ','));
    if s == [] {
      assert Split(s, ',') == [[]] && |Split(s, ',')[1..]| == 0;
      assert before + ts == before <==> ts == [] by {
        assert |before + ts| == |before| + |ts|;
      }
    } else {
      var (memberStr, rest, found) := Cut(s, ',');
      SplitStep(s);
      if memberStr == [] {
        ParseFromIs(rest, before, ts);
      } else {
        var m := ParseMember(memberStr);
        if m.Err? {
          FirstMember(parts, ts);
        } else if HasMember(before, m.value.key) {
          TakenKey(before, ts, m.value);
          FirstMember(parts, ts);
        } else if |before| + 1 > MAX_MEMBERS {
        } else {
          FreeKey(before, m.value);
          if ts != [] && ts[0] == m.value {
            ParseFromIs(rest, before + [m.value], ts[1..]);
            assert before + ts == (before + [m.value]) + ts[1..];
            MembersStep(parts, ts);
          } else {
            ParseFromIs(rest, before + [m.value], ts);
            FirstMember(parts, ts);
            NotPrefix(before, m.value, ts);
          }
        }
      }
    }
  }

  lemma FirstMember(parts: seq<Bytes>, ts: TraceState)
    requires parts != []
    ensures MembersOf(parts, ts) ==> ts != [] && ParseMember(parts[0]) == Ok(ts[0])
  {
  }

  lemma NotPrefix(before: TraceState, m: Member, ts: TraceState)
    ensures before + [m] <= before + ts ==> ts != [] && ts[0] == m
  {
    var l, r := before + [m], before + ts;
    assert l[|before|] == m;
    assert l <= r ==> r[|before|] == m;
  }

  lemma TakenKey(before: TraceState, ts: TraceState, m: Member)
    requires HasMember(before, m.key)
    ensures ts != [] && ts[0] == m ==> !DistinctKeys(before + ts)
  {
    var i :| 0 <= i < |before| && before[i].key == m.key;
    if ts != [] && ts[0] == m {
      assert (before + ts)[i].key == (before + ts)[|before|].key;
    }
  }

  lemma FreeKey(before: TraceState, m: Member)
    requires DistinctKeys(before) && !HasMember(before, m.key)
    ensures DistinctKeys(before + [m])
  {
  }

  lemma MembersStep(parts: seq<Bytes>, ts: TraceState)
    requires ts != [] && parts != [] && ParseMember(parts[0]) == Ok(ts[0])
    ensures MembersOf(parts, ts) <==> MembersOf(parts[1..], ts[1..])
  {
    if MembersOf(parts[1..], ts[1..]) {
      forall i | 0 <= i < |ts|
        ensures ParseMember(parts[i]) == Ok(ts[i])
      {
        assert i > 0 ==> parts[i] == parts[1..][i - 1] && ts[i] == ts[1..][i - 1];
      }
    }
  }

  lemma SplitStep(s: Bytes)
    requires s != []
    ensures var (memberStr, rest, found) := Cut(s, ',');
      NonEmpty(Split(s, ',')) == (if memberStr == [] then [] else [memberStr]) + NonEmpty(Split(rest, ','))
  {
    var (memberStr, rest, found) := Cut(s, ',');
    CutIs(s, ',');
    if found {
      assert Split(s, ',')[1..] == Split(rest, ',');
    } else {
      assert Split(rest, ',') == [[]];
      assert |Split(rest, ',')[1..]| == 0;
      assert NonEmpty(Split(rest, ',')) == [];
    }
  }

  // ----- printing -----

  function MemberStrings(ts: TraceState): (strs: seq<Bytes>)
    ensures |strs| == |ts| && forall i :: 0 <= i < |ts| ==> strs[i] == MemberString(ts[i])
  {
    seq(|ts|, i requires 0 <= i < |ts| => MemberString(ts[i]))
  }

  function Encoded(ts: TraceState): Bytes {
    Join(MemberStrings(ts), ',')
  }

  /** String; the size the builder is grown to beforehand is exactly the size that is written. */
  method String(ts: TraceState) returns (sb: Bytes)
    ensures sb == Encoded(ts)
  {
    if |ts| == 0 {
      return [];
    }
    var n := |ts| + (|ts| - 1);
    for i := 0 to |ts|
      invariant n == |ts| + (|ts| - 1) + Letters(ts[..i])
    {
      n := n + |ts[i].key| + |ts[i].value|;
      assert ts[..i + 1][..i] == ts[..i];
    }
    assert ts[..|ts|] == ts;
    sb := WriteMember([], ts[0]);
    assert MemberStrings(ts[..1]) == [MemberString(ts[0])];
    for i := 1 to |ts|
      invariant sb == Encoded(ts[..i])
    {
      JoinSnoc(MemberStrings(ts[..i]), MemberString(ts[i]));
      assert MemberStrings(ts[..i + 1]) == MemberStrings(ts[..i]) + [MemberString(ts[i])];
      sb := WriteMember(sb + [','], ts[i]);
    }
    EncodedLength(ts);
    assert |sb| == n;
  }

  method WriteMember(given: Bytes, m: Member) returns (sb: Bytes)
    ensures sb == given + MemberString(m)
  {
    sb := given + m.key;
    sb := sb + ['='];
    sb := sb + m.value;
  }

  /** The bytes of all keys and values. */
  function Letters(ts: TraceState): nat {
    if ts == [] then 0 else Letters(ts[..|ts| - 1]) + |ts[|ts| - 1].key| + |ts[|ts| - 1].value|
  }

  lemma {:induction false} EncodedLength(ts: TraceState)
    requires ts != []
    ensures |Encoded(ts)| == |ts| + (|ts| - 1) + Letters(ts)
  {
    var front, m := ts[..|ts| - 1], ts[|ts| - 1];
    if front == [] {
      assert ts == [m];
    } else {
      EncodedLength(front);
      JoinSnoc(MemberStrings(front), MemberString(m));
      assert MemberStrings(ts) == MemberStrings(front) + [MemberString(m)];
    }
  }

  lemma {:induction false} JoinSnoc(parts: seq<Bytes>, s: Bytes)
    requires parts != []
    ensures Join(parts + [s], ',') == Join(parts, ',') + [','] + s
  {
    if |parts| > 1 {
      JoinSnoc(parts[1..], s);
      assert (parts + [s])[1..] == parts[1..] + [s];
    } else {
      assert (parts + [s])[1..] == [s];
    }
  }

  // ----- the round trip -----

  /** A byte below 0x80 is a character of its own. */
  lemma {:induction false} AsciiByteIsRune(s: Bytes, i: nat)
    requires i < |s| && Code(s[i]) < 0x80
    ensures Code(s[i]) in Runes(s)
    decreases |s|
  {
    var (rune, n) := DecodeRune(s);
    assert Runes(s) == [rune] + Runes(s[n..]);
    if i < n {
      assert i == 0 && rune == Code(s[0]);
    } else {
      assert s[n..][i - n] == s[i];
      AsciiByteIsRune(s[n..], i - n);
    }
  }

  lemma RemainFree(s: Bytes, c: Byte)
    requires CheckKeyRemain(s) && Code(c) < 0x80 && !KeyChar(c)
    ensures c !in s
  {
    if c in s {
      var i :| 0 <= i < |s| && s[i] == c;
      AsciiByteIsRune(s, i);
    }
  }

  /** Accepted keys, even if not ASCII, contain no blank and no delimiter. */
  lemma KeyFree(key: Bytes, c: Byte)
    requires CheckKey(key) && c in ['=', ',', ' ', '\t']
    ensures key != [] && c !in key
  {
    var (tenant, system, ok) := Cut(key, '@');
    CutIs(key, '@');
    if !ok {
      RemainFree(key[1..], c);
      assert key == [key[0]] + key[1..];
    } else {
      RemainFree(tenant[1..], c);
      RemainFree(system[1..], c);
      assert tenant == [tenant[0]] + tenant[1..] && system == [system[0]] + system[1..];
    }
  }

  lemma ValueFree(val: Bytes)
    requires CheckValue(val)
    ensures '=' !in val && ',' !in val && !IsBlank(val[|val| - 1])
  {
  }

  lemma MemberRoundTrip(m: Member)
    requires ValidMember(m)
    ensures ParseMember(MemberString(m)) == Ok(m)
    ensures ',' !in MemberString(m) && MemberString(m) != []
  {
    KeyFree(m.key, '=');
    KeyFree(m.key, ',');
    KeyFree(m.key, ' ');
    KeyFree(m.key, '\t');
    ValueFree(m.value);
    CutAt(m.key, '=', m.value);
    assert m.key[0] in m.key;
    assert TrimLeft(m.key) == m.key && TrimRight(m.value) == m.value;
  }

  lemma {:induction false} AllNonEmpty(parts: seq<Bytes>)
    requires forall i :: 0 <= i < |parts| ==> parts[i] != []
    ensures NonEmpty(parts) == parts
  {
    if parts != [] {
      AllNonEmpty(parts[1..]);
      assert parts == [parts[0]] + parts[1..];
    }
  }

  /** Parsing what a valid trace state prints gives it back. */
  lemma RoundTrip(ts: TraceState)
    requires Valid(ts)
    ensures ParsedFrom(Encoded(ts), []) == Ok(ts)
  {
    var strs := MemberStrings(ts);
    forall i | 0 <= i < |ts|
      ensures ParseMember(strs[i]) == Ok(ts[i]) && ',' !in strs[i] && strs[i] != []
    {
      MemberRoundTrip(ts[i]);
    }
    if ts != [] {
      SplitJoin(strs, ',');
      AllNonEmpty(strs);
    }
    ParseIs(Encoded(ts), ts);
  }

  /** Whatever is parsed is valid, and prints to a header that is parsed to the same trace state. */
  lemma ParsedIsValid(s: Bytes)
    ensures ParsedFrom(s, []).Ok? ==> Valid(ParsedFrom(s, []).value)
  {
    if ParsedFrom(s, []).Ok? {
      var ts := ParsedFrom(s, []).value;
      ParseIs(s, ts);
      var parts := NonEmpty(Split(s, ','));
      forall i | 0 <= i < |ts|
        ensures ValidMember(ts[i])
      {
        assert ParseMember(parts[i]) == Ok(ts[i]);
      }
    }
  }

  /** Different valid trace states are printed differently. */
  lemma EncodingInjective(a: TraceState, b: TraceState)
    requires Valid(a) && Valid(b) && Encoded(a) == Encoded(b)
    ensures a == b
  {
    RoundTrip(a);
    RoundTrip(b);
  }
}

/** Updates of trace states, which copy the list, and what any sequence of operations keeps. */
module TraceStateUpdates {
  import opened Prelude
  import opened Text
  import opened TraceState

  /** The members with other keys, in order. */
  function Without(ts: TraceState, key: Bytes): TraceState {
    if ts == [] then []
    else if ts[0].key == key then Without(ts[1..], key)
    else [ts[0]] + Without(ts[1..], key)
  }

  function Take(ts: TraceState, n: nat): TraceState {
    if |ts| <= n then ts else ts[..n]
  }

  /** The member comes first, the others keep their order, and of more than 32 the right-most is dropped. */
  function Inserted(ts: TraceState, key: Bytes, value: Bytes): Result<TraceState, Error> {
    var m := NewMember(key, value);
    if m.Err? then Err(m.error) else Ok([m.value] + Take(Without(ts, key), MAX_MEMBERS - 1))
  }

  lemma {:induction false} WithoutAt(ts: TraceState, i: nat)
    requires DistinctKeys(ts) && i < |ts|
    ensures Without(ts, ts[i].key) == ts[..i] + ts[i + 1..]
  {
    if i == 0 {
      WithoutNone(ts[1..], ts[0].key);
      assert ts[..0] + ts[1..] == ts[1..];
    } else {
      WithoutAt(ts[1..], i - 1);
      assert ts[1..][..i - 1] == ts[1..i] && ts[1..][i..] == ts[i + 1..];
      assert [ts[0]] + (ts[1..i] + ts[i + 1..]) == ts[..i] + ts[i + 1..];
    }
  }

  lemma {:induction false} WithoutNone(ts: TraceState, key: Bytes)
    requires forall i :: 0 <= i < |ts| ==> ts[i].key != key
    ensures Without(ts, key) == ts
  {
    if ts != [] {
      WithoutNone(ts[1..], key);
      assert ts == [ts[0]] + ts[1..];
    }
  }

  lemma {:induction false} WithoutIs(ts: TraceState, key: Bytes)
    requires DistinctKeys(ts)
    ensures DistinctKeys(Without(ts, key)) && |Without(ts, key)| <= |ts|
    ensures forall m :: m in Without(ts, key) <==> m in ts && m.key != key
  {
    if ts != [] {
      WithoutIs(ts[1..], key);
      assert ts == [ts[0]] + ts[1..];
    }
  }

  /** The built-in copy: as many elements as fit. */
  method CopyTo(dst: array<Member>, at: nat, src: TraceState)
    requires at <= dst.Length
    modifies dst
    ensures forall j :: 0 <= j < dst.Length ==> dst[j] == if at <= j < at + |src| then src[j - at] else old(dst[j])
  {
    var k := Min(dst.Length - at, |src|);
    forall i | 0 <= i < k {
      dst[at + i] := src[i];
    }
  }

  /** Insert; an invalid key or value leaves the trace state as it was. */
  method Insert(ts: TraceState, key: Bytes, value: Bytes) returns (cTS: TraceState, err: Option<Error>)
    requires DistinctKeys(ts) && |ts| <= MAX_MEMBERS
    ensures var r := Inserted(ts, key, value);
      if r.Ok? then cTS == r.value && err == None else cTS == ts && err == Some(r.error)
  {
    var m := NewMember(key, value);
    if m.Err? {
      return ts, Some(m.error);
    }
    var found := LastMember(ts, key);
    cTS := Place(ts, m.value, found);
    if found < |ts| {
      WithoutAt(ts, found);
    } else {
      WithoutNone(ts, key);
    }
    err := None;
  }

  /** The loop of Insert: the place of the last member with the key. */
  method LastMember(ts: TraceState, key: Bytes) returns (found: nat)
    ensures found <= |ts|
    ensures found < |ts| ==> ts[found].key == key
    ensures found == |ts| ==> forall j :: 0 <= j < |ts| ==> ts[j].key != key
  {
    found := |ts|;
    for i := 0 to |ts|
      invariant found == |ts| || (found < i && ts[found].key == key)
      invariant forall j :: 0 <= j < i && ts[j].key == key ==> found < |ts|
    {
      if ts[i].key == key {
        found := i;
      }
    }
  }

  /** The copies of Insert: `m` in front of the members other than the one at `found`. */
  method Place(ts: TraceState, m: Member, found: nat) returns (cTS: TraceState)
    requires found <= |ts| <= MAX_MEMBERS
    ensures found < |ts| ==> cTS == [m] + (ts[..found] + ts[found + 1..])
    ensures found == |ts| ==> cTS == [m] + Take(ts, MAX_MEMBERS - 1)
  {
    var n := |ts|;
    var size := if found == n && n < MAX_MEMBERS then n + 1 else n;
    var list := new Member[size](_ => Member([], []));
    list[0] := m;
    CopyTo(list, 1, ts[..found]);
    if found < n {
      CopyTo(list, 1 + found, ts[found + 1..]);
    }
    cTS := list[..];
  }

  /** Delete shifts the members of a copy over the one with the key. */
  method Delete(ts: TraceState, key: Bytes) returns (r: TraceState)
    requires DistinctKeys(ts)
    ensures r == Without(ts, key)
  {
    var members := new Member[|ts|](i requires 0 <= i < |ts| => ts[i]);
    assert members[..] == ts;
    for i := 0 to |ts|
      invariant members[..] == ts
      invariant forall j :: 0 <= j < i ==> ts[j].key != key
    {
      if ts[i].key == key {
        var rest := members[i + 1..];
        CopyTo(members, i, rest);
        WithoutAt(ts, i);
        assert members[..|ts| - 1] == ts[..i] + ts[i + 1..];
        return members[..|ts| - 1];
      }
    }
    WithoutNone(ts, key);
    return members[..];
  }

  /** The value of the first member with a key; the empty string if there is none. */
  function Got(ts: TraceState, key: Bytes): Bytes {
    if ts == [] then [] else if ts[0].key == key then ts[0].value else Got(ts[1..], key)
  }

  method Get(ts: TraceState, key: Bytes) returns (v: Bytes)
    ensures v == Got(ts, key)
  {
    for i := 0 to |ts|
      invariant Got(ts, key) == Got(ts[i..], key)
    {
      if ts[i].key == key {
        return ts[i].value;
      }
      assert ts[i..][1..] == ts[i + 1..];
    }
    return [];
  }

  lemma {:induction false} GotIs(ts: TraceState, m: Member)
    requires DistinctKeys(ts) && m in ts
    ensures Got(ts, m.key) == m.value
  {
    if ts[0] != m {
      assert ts == [ts[0]] + ts[1..];
      GotIs(ts[1..], m);
    }
  }

  lemma {:induction false} GotNothing(ts: TraceState, key: Bytes)
    requires !HasMember(ts, key)
    ensures Got(ts, key) == []
  {
    if ts != [] {
      assert ts[0].key != key;
      assert forall i :: 0 <= i < |ts[1..]| ==> ts[1..][i] == ts[1 + i];
      GotNothing(ts[1..], key);
    }
  }

  /** Inserting keeps a trace state valid; only if a 33rd key is inserted into a full one is a member lost, the last. */
  lemma InsertLaws(ts: TraceState, key: Bytes, value: Bytes)
    requires Valid(ts) && Inserted(ts, key, value).Ok?
    ensures var r := Inserted(ts, key, value).value;
      && Valid(r) && r[0] == Member(key, value) && Got(r, key) == value
      && (forall m :: m in ts && m.key != key && m !in r ==>
            |ts| == MAX_MEMBERS && !HasMember(ts, key) && m == ts[|ts| - 1])
  {
    var r := Inserted(ts, key, value).value;
    var others := Without(ts, key);
    WithoutIs(ts, key);
    var kept := Take(others, MAX_MEMBERS - 1);
    OthersValid(ts, key, others);
    PutFirst(r[0], kept);
    assert r == [r[0]] + kept;
    forall m | m in ts && m.key != key && m !in r
      ensures |ts| == MAX_MEMBERS && !HasMember(ts, key) && m == ts[|ts| - 1]
    {
      assert m in others && m !in kept;
      LastLost(ts, key, m);
    }
  }

  lemma OthersValid(ts: TraceState, key: Bytes, others: TraceState)
    requires Valid(ts) && DistinctKeys(others) && forall m :: m in others ==> m in ts && m.key != key
    ensures forall i :: 0 <= i < |others| ==> ValidMember(others[i]) && others[i].key != key
  {
    forall i | 0 <= i < |others|
      ensures ValidMember(others[i]) && others[i].key != key
    {
      assert others[i] in ts;
    }
  }

  lemma PutFirst(m: Member, kept: TraceState)
    requires ValidMember(m) && DistinctKeys(kept) && |kept| < MAX_MEMBERS
    requires forall i :: 0 <= i < |kept| ==> ValidMember(kept[i]) && kept[i].key != m.key
    ensures Valid([m] + kept)
  {
  }

  lemma LastLost(ts: TraceState, key: Bytes, m: Member)
    requires DistinctKeys(ts) && |ts| <= MAX_MEMBERS
    requires m in Without(ts, key) && m !in Take(Without(ts, key), MAX_MEMBERS - 1)
    ensures |ts| == MAX_MEMBERS && !HasMember(ts, key) && m == ts[|ts| - 1]
  {
    if HasMember(ts, key) {
      var i :| 0 <= i < |ts| && ts[i].key == key;
      WithoutAt(ts, i);
    } else {
      WithoutNone(ts, key);
      NotTaken(ts, m);
    }
  }

  lemma NotTaken(ts: TraceState, m: Member)
    requires |ts| <= MAX_MEMBERS && m in ts && m !in Take(ts, MAX_MEMBERS - 1)
    ensures |ts| == MAX_MEMBERS && m == ts[|ts| - 1]
  {
    assert |ts| == MAX_MEMBERS;
    assert ts == ts[..|ts| - 1] + [ts[|ts| - 1]];
  }

  lemma DeleteLaws(ts: TraceState, key: Bytes, k: Bytes)
    requires Valid(ts)
    ensures Valid(Without(ts, key))
    ensures Got(Without(ts, key), k) == if k == key then [] else Got(ts, k)
  {
    var r := Without(ts, key);
    WithoutIs(ts, key);
    forall i | 0 <= i < |r|
      ensures ValidMember(r[i])
    {
      assert r[i] in ts;
    }
    if k == key {
      forall i | 0 <= i < |r|
        ensures r[i].key != key
      {
        assert r[i] in r;
      }
      GotNothing(r, key);
    } else if HasMember(ts, k) {
      var i :| 0 <= i < |ts| && ts[i].key == k;
      GotIs(ts, ts[i]);
      GotIs(r, ts[i]);
    } else {
      GotNothing(ts, k);
      forall i | 0 <= i < |r|
        ensures r[i].key != k
      {
        assert r[i] in ts;
      }
      GotNothing(r, k);
    }
  }

  // ----- runs -----

  datatype Op = ParseOp(header: Bytes) | InsertOp(key: Bytes, value: Bytes) | DeleteOp(key: Bytes)

  function After(ts: TraceState, op: Op): TraceState {
    match op
    case ParseOp(s) => if ParsedFrom(s, []).Ok? then ParsedFrom(s, []).value else []
    case InsertOp(k, v) => if Inserted(ts, k, v).Ok? then Inserted(ts, k, v).value else ts
    case DeleteOp(k) => Without(ts, k)
  }

  function Run(ops: seq<Op>): TraceState {
    if ops == [] then [] else After(Run(ops[..|ops| - 1]), ops[|ops| - 1])
  }

  /** Every trace state that operations lead to is valid and survives printing and parsing. */
  lemma {:induction false} RunIsValid(ops: seq<Op>)
    ensures Valid(Run(ops))
    ensures ParsedFrom(Encoded(Run(ops)), []) == Ok(Run(ops))
  {
    if ops != [] {
      var ts := Run(ops[..|ops| - 1]);
      RunIsValid(ops[..|ops| - 1]);
      match ops[|ops| - 1]
      case ParseOp(s) => ParsedIsValid(s);
      case InsertOp(k, v) => if Inserted(ts, k, v).Ok? { InsertLaws(ts, k, v); }
      case DeleteOp(k) => DeleteLaws(ts, k, k);
    }
    RoundTrip(Run(ops));
  }
}

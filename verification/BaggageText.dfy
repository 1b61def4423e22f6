/**
 The texts of baggage headers (baggage/baggage.go): the characters allowed in keys and values, percent-encoding of
 values (RFC 3986, section 2.1) and the replacement of bytes that are no UTF-8.
 */
module BaggageText {
  import opened Prelude
  import opened Text
  import opened Utf8

  // ----- character tables -----

  /** The characters of a token (RFC 7230, section 3.2.6). */
  predicate TokenChar(c: Byte) {
    || '0' <= c <= '9' || 'A' <= c <= 'Z' || '^' <= c <= 'z'
    || '#' <= c <= '\'' || c == '!' || c == '*' || c == '+' || c == '-' || c == '.' || c == '|' || c == '~'
  }

  /** The characters of a value: no controls, blanks, quotes, commas, semicolons and backslashes. */
  predicate ValueChar(c: Byte) {
    c == '!' || '#' <= c <= '+' || '-' <= c <= ':' || '<' <= c <= '[' || ']' <= c <= '~'
  }

  /** validateKeyChar, on characters. */
  predicate KeyRune(r: nat) {
    r < 0x80 && TokenChar(r as char)
  }

  predicate ValueRune(r: nat) {
    r < 0x80 && ValueChar(r as char)
  }

  predicate ValidateKey(s: Bytes) {
    s != [] && forall r :: r in Runes(s) ==> KeyRune(r)
  }

  predicate ValidateValue(s: Bytes) {
    forall r :: r in Runes(s) ==> ValueRune(r)
  }

  predicate All(s: Bytes, ok: Byte -> bool) {
    forall i :: 0 <= i < |s| ==> ok(s[i])
  }

  /** Looking at the characters of a string is looking at its bytes. */
  lemma ValidateIsAll(s: Bytes)
    ensures ValidateKey(s) <==> s != [] && All(s, TokenChar)
    ensures ValidateValue(s) <==> All(s, ValueChar)
  {
    if (forall r :: r in Runes(s) ==> KeyRune(r)) || ValidateValue(s) {
      RunesAscii(s);
      AsciiRunes(s);
    }
    if All(s, TokenChar) || All(s, ValueChar) {
      assert IsAscii(s);
      AsciiRunes(s);
    }
    if IsAscii(s) {
      AsciiRunes(s);
      assert forall i :: 0 <= i < |s| ==> Runes(s)[i] as char == s[i] && Runes(s)[i] in Runes(s);
    }
  }

  lemma FirstRune(s: Bytes)
    requires s != []
    ensures KeyRune(DecodeRune(s).0) <==> TokenChar(s[0])
    ensures ValueRune(DecodeRune(s).0) <==> ValueChar(s[0])
  {
    if DecodeRune(s).0 < 0x80 {
      SmallIsOneByte(s);
    }
  }

  // ----- percent-encoding -----

  predicate ShouldEscape(c: Byte) {
    c == '%' || !ValueChar(c)
  }

  function EscapedByte(c: Byte): Bytes {
    if ShouldEscape(c) then ['%', UpperDigit(c as int / 16), UpperDigit(c as int % 16)] else [c]
  }

  function Escaped(s: Bytes): Bytes {
    if s == [] then [] else Escaped(s[..|s| - 1]) + EscapedByte(s[|s| - 1])
  }

  function HexCount(s: Bytes): nat {
    if s == [] then 0 else HexCount(s[..|s| - 1]) + if ShouldEscape(s[|s| - 1]) then 1 else 0
  }

  lemma {:induction false} EscapedLength(s: Bytes)
    ensures |Escaped(s)| == |s| + 2 * HexCount(s)
  {
    if s != [] {
      EscapedLength(s[..|s| - 1]);
    }
  }

  lemma {:induction false} NothingToEscape(s: Bytes)
    requires HexCount(s) == 0
    ensures Escaped(s) == s
  {
    if s != [] {
      NothingToEscape(s[..|s| - 1]);
    }
  }

  lemma EscapedNext(s: Bytes, i: nat)
    requires i < |s|
    ensures Escaped(s[..i + 1]) == Escaped(s[..i]) + EscapedByte(s[i])
    ensures HexCount(s[..i + 1]) == HexCount(s[..i]) + if ShouldEscape(s[i]) then 1 else 0
  {
    assert s[..i + 1][..i] == s[..i];
  }

  lemma {:induction false} CountGrows(s: Bytes, i: nat)
    requires i <= |s|
    ensures HexCount(s[..i]) <= HexCount(s)
  {
    if i < |s| {
      CountGrows(s[..|s| - 1], i);
      assert s[..|s| - 1][..i] == s[..i];
    } else {
      assert s[..i] == s;
    }
  }

  /** valueEscape counts the bytes to escape, then fills a buffer of exactly the required size. */
  method ValueEscape(s: Bytes) returns (r: Bytes)
    ensures r == Escaped(s)
  {
    var hexCount := 0;
    for i := 0 to |s|
      invariant hexCount == HexCount(s[..i])
    {
      EscapedNext(s, i);
      if ShouldEscape(s[i]) {
        hexCount := hexCount + 1;
      }
    }
    assert s[..|s|] == s;
    if hexCount == 0 {
      NothingToEscape(s);
      return s;
    }
    var required := |s| + 2 * hexCount;
    var t := new Byte[required](_ => '\0');
    var j := 0;
    for i := 0 to |s|
      invariant j == i + 2 * HexCount(s[..i]) <= t.Length
      invariant t[..j] == Escaped(s[..i])
    {
      EscapedNext(s, i);
      CountGrows(s, i + 1);
      j := PutEscaped(t, j, s[i]);
    }
    assert j == t.Length;
    r := t[..];
    assert r == t[..j];
  }

  /** One round of the second loop. */
  method PutEscaped(t: array<Byte>, j: nat, c: Byte) returns (j': nat)
    requires j + |EscapedByte(c)| <= t.Length
    modifies t
    ensures j' == j + |EscapedByte(c)| && t[..j'] == old(t[..j]) + EscapedByte(c)
  {
    if ShouldEscape(c) {
      t[j] := '%';
      t[j + 1] := UpperDigit(c as int / 16);
      t[j + 2] := UpperDigit(c as int % 16);
      j' := j + 3;
    } else {
      t[j] := c;
      j' := j + 1;
    }
  }

  /** url.PathUnescape: every percent sign has to be followed by two hexadecimal digits. */
  function Unescaped(s: Bytes): Option<Bytes> {
    if s == [] then Some([])
    else if s[0] == '%' then
      if |s| < 3 || !IsHex(s[1]) || !IsHex(s[2]) || Unescaped(s[3..]).None? then None
      else Some([(16 * FromHex(s[1]) + FromHex(s[2])) as char] + Unescaped(s[3..]).value)
    else if Unescaped(s[1..]).None? then None
    else Some([s[0]] + Unescaped(s[1..]).value)
  }

  lemma DigitsOf(c: Byte)
    ensures var hi, lo := UpperDigit(c as int / 16), UpperDigit(c as int % 16);
      && IsHex(hi) && IsHex(lo) && (16 * FromHex(hi) + FromHex(lo)) as char == c
      && ValueChar(hi) && ValueChar(lo)
  {
  }

  lemma UnescapeOne(c: Byte, t: Bytes)
    requires Unescaped(t).Some?
    ensures Unescaped(EscapedByte(c) + t) == Some([c] + Unescaped(t).value)
  {
    DigitsOf(c);
    if ShouldEscape(c) {
      assert (EscapedByte(c) + t)[3..] == t;
    } else {
      assert (EscapedByte(c) + t)[1..] == t;
    }
  }

  lemma {:induction false} UnescapeOnto(s: Bytes, t: Bytes)
    requires Unescaped(t).Some?
    ensures Unescaped(Escaped(s) + t) == Some(s + Unescaped(t).value)
  {
    if s == [] {
      assert Escaped(s) + t == t && s + Unescaped(t).value == Unescaped(t).value;
    } else {
      var front, c := s[..|s| - 1], s[|s| - 1];
      UnescapeOne(c, t);
      UnescapeOnto(front, EscapedByte(c) + t);
      Regroup(Escaped(front), EscapedByte(c), t);
      Regroup(front, [c], Unescaped(t).value);
      assert s == front + [c];
    }
  }

  /** Percent-decoding undoes the escaping of any byte string. */
  lemma UnescapeEscaped(s: Bytes)
    ensures Unescaped(Escaped(s)) == Some(s)
  {
    UnescapeOnto(s, []);
    assert Escaped(s) + [] == Escaped(s) && s + [] == s;
  }

  /** What is escaped consists of characters that are legal in values. */
  lemma {:induction false} EscapedIsLegal(s: Bytes)
    ensures All(Escaped(s), ValueChar)
  {
    if s != [] {
      EscapedIsLegal(s[..|s| - 1]);
      DigitsOf(s[|s| - 1]);
    }
  }

  // ----- bytes that are no UTF-8 -----

  const REPLACEMENT_BYTES: Bytes := ['\U{EF}', '\U{BF}', '\U{BD}']

  /** utf8.AppendRune: what is no character is encoded as the replacement character. */
  function EncodeRune(r: nat): Bytes {
    if r < 0x80 then [r as char]
    else if r < 0x800 then [(0xC0 + r / 0x40) as char, (0x80 + r % 0x40) as char]
    else if 0xD800 <= r < 0xE000 || r > 0x10FFFF then REPLACEMENT_BYTES
    else if r < 0x10000 then [(0xE0 + r / 0x1000) as char, (0x80 + r / 0x40 % 0x40) as char, (0x80 + r % 0x40) as char]
    else
      [(0xF0 + r / 0x40000) as char, (0x80 + r / 0x1000 % 0x40) as char, (0x80 + r / 0x40 % 0x40) as char,
       (0x80 + r % 0x40) as char]
  }

  /** Encoding the character a string starts with gives its bytes. */
  lemma EncodeCharacter(s: Bytes)
    requires StartsCharacter(s)
    ensures EncodeRune(Character(s)) == s[..LengthOf(s[0])]
  {
    match LengthOf(s[0])
    case 1 =>
    case 2 => EncodeTwo(s);
    case 3 => EncodeThree(s);
    case _ => EncodeFour(s);
  }

  lemma EncodeTwo(s: Bytes)
    requires StartsCharacter(s) && LengthOf(s[0]) == 2
    ensures EncodeRune(Character(s)) == s[..2]
  {
    TwoBytes(Code(s[0]), Code(s[1]));
  }

  lemma EncodeThree(s: Bytes)
    requires StartsCharacter(s) && LengthOf(s[0]) == 3
    ensures EncodeRune(Character(s)) == s[..3]
  {
    ThreeBytes(Code(s[0]), Code(s[1]), Code(s[2]));
  }

  lemma EncodeFour(s: Bytes)
    requires StartsCharacter(s) && LengthOf(s[0]) == 4
    ensures EncodeRune(Character(s)) == s[..4]
  {
    FourBytes(Code(s[0]), Code(s[1]), Code(s[2]), Code(s[3]));
  }

  lemma TwoBytes(a: nat, b: nat)
    requires 0xC2 <= a <= 0xDF && 0x80 <= b <= 0xBF
    ensures var r := (a - 0xC0) * 0x40 + (b - 0x80);
      0x80 <= r < 0x800 && r / 0x40 == a - 0xC0 && r % 0x40 == b - 0x80
  {
  }

  lemma ThreeBytes(a: nat, b: nat, c: nat)
    requires 0xE0 <= a <= 0xEF && 0x80 <= b <= 0xBF && 0x80 <= c <= 0xBF
    requires (a == 0xE0 ==> b >= 0xA0) && (a == 0xED ==> b <= 0x9F)
    ensures var r := (a - 0xE0) * 0x1000 + (b - 0x80) * 0x40 + (c - 0x80);
      && 0x800 <= r < 0x10000 && !(0xD800 <= r < 0xE000)
      && r / 0x1000 == a - 0xE0 && r / 0x40 % 0x40 == b - 0x80 && r % 0x40 == c - 0x80
  {
    var r := (a - 0xE0) * 0x1000 + (b - 0x80) * 0x40 + (c - 0x80);
    assert r / 0x40 == (a - 0xE0) * 0x40 + (b - 0x80);
  }

  lemma FourBytes(a: nat, b: nat, c: nat, d: nat)
    requires 0xF0 <= a <= 0xF4 && 0x80 <= b <= 0xBF && 0x80 <= c <= 0xBF && 0x80 <= d <= 0xBF
    requires (a == 0xF0 ==> b >= 0x90) && (a == 0xF4 ==> b <= 0x8F)
    ensures var r := (a - 0xF0) * 0x40000 + (b - 0x80) * 0x1000 + (c - 0x80) * 0x40 + (d - 0x80);
      && 0x10000 <= r <= 0x10FFFF
      && r / 0x40000 == a - 0xF0 && r / 0x1000 % 0x40 == b - 0x80 && r / 0x40 % 0x40 == c - 0x80 && r % 0x40 == d - 0x80
  {
    var r := (a - 0xF0) * 0x40000 + (b - 0x80) * 0x1000 + (c - 0x80) * 0x40 + (d - 0x80);
    assert r / 0x1000 == (a - 0xF0) * 0x40 + (b - 0x80);
    assert r / 0x40 == (a - 0xF0) * 0x1000 + (b - 0x80) * 0x40 + (c - 0x80);
  }

  /** Every byte that is no character is replaced, everything else stays. */
  function Replaced(s: Bytes): Bytes {
    if s == [] then []
    else if StartsCharacter(s) then s[..LengthOf(s[0])] + Replaced(s[LengthOf(s[0])..])
    else REPLACEMENT_BYTES + Replaced(s[1..])
  }

  method ReplaceInvalidUTF8Sequences(unescapeVal: Bytes) returns (b: Bytes)
    ensures b == Replaced(unescapeVal)
  {
    ReplacedIffValid(unescapeVal);
    if IsValid(unescapeVal) {
      return unescapeVal;
    }
    b := [];
    var i := 0;
    while i < |unescapeVal|
      invariant 0 <= i <= |unescapeVal|
      invariant Replaced(unescapeVal) == b + Replaced(unescapeVal[i..])
      decreases |unescapeVal| - i
    {
      var (r, size) := DecodeRune(unescapeVal[i..]);
      ghost var rest := unescapeVal[i..];
      assert rest[size..] == unescapeVal[i + size..];
      ReplaceStep(b, rest);
      if r == REPLACEMENT && size == 1 {
        b := b + REPLACEMENT_BYTES;
      } else {
        b := b + EncodeRune(r);
      }
      i := i + size;
    }
  }

  /** What is no character reads as the replacement character, so it is replaced by encoding what was read. */
  lemma FirstReplaced(s: Bytes)
    requires s != []
    ensures var (r, size) := DecodeRune(s); Replaced(s) == EncodeRune(r) + Replaced(s[size..])
  {
    if StartsCharacter(s) {
      EncodeCharacter(s);
    }
  }

  lemma ReplaceStep(b: Bytes, rest: Bytes)
    requires rest != []
    ensures var (r, size) := DecodeRune(rest);
      b + Replaced(rest)
        == (b + if r == REPLACEMENT && size == 1 then REPLACEMENT_BYTES else EncodeRune(r)) + Replaced(rest[size..])
  {
    var (r, size) := DecodeRune(rest);
    FirstReplaced(rest);
    Regroup(b, EncodeRune(r), Replaced(rest[size..]));
  }

  lemma ReplacementIsCharacter(t: Bytes)
    ensures StartsCharacter(REPLACEMENT_BYTES + t) && LengthOf((REPLACEMENT_BYTES + t)[0]) == 3
  {
  }

  lemma CharacterStays(s: Bytes, t: Bytes)
    requires StartsCharacter(s)
    ensures var n := LengthOf(s[0]); StartsCharacter(s[..n] + t) && (s[..n] + t)[n..] == t
  {
  }

  /** The result is always valid UTF-8. */
  lemma {:induction false} ReplacedIsValid(s: Bytes)
    ensures IsValid(Replaced(s))
  {
    if s != [] {
      if StartsCharacter(s) {
        var n := LengthOf(s[0]);
        ReplacedIsValid(s[n..]);
        CharacterStays(s, Replaced(s[n..]));
      } else {
        ReplacedIsValid(s[1..]);
        ReplacementIsCharacter(Replaced(s[1..]));
        assert (REPLACEMENT_BYTES + Replaced(s[1..]))[3..] == Replaced(s[1..]);
      }
    }
  }

  lemma {:induction false} ValidStays(s: Bytes)
    requires IsValid(s)
    ensures Replaced(s) == s
  {
    if s != [] {
      ValidStays(s[LengthOf(s[0])..]);
    }
  }

  /** Exactly valid UTF-8 is left as it is. */
  lemma ReplacedIffValid(s: Bytes)
    ensures Replaced(s) == s <==> IsValid(s)
  {
    ReplacedIsValid(s);
    if IsValid(s) {
      ValidStays(s);
    }
  }
}

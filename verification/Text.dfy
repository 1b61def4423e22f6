/** Byte strings and the operations of the standard library on them that parsers and printers use. */
module Text {
  /** A byte, written as the character with that code. */
  type Byte = c: char | c as int < 256 witness ' '

  type Bytes = seq<Byte>

  /** The part of `s` before the first `sep`, the part behind it, and whether there is one (strings.Cut). */
  function Cut(s: Bytes, sep: Byte): (r: (Bytes, Bytes, bool))
    ensures |r.0| + |r.1| <= |s|
    ensures s != [] ==> |r.1| < |s|
  {
    if s == [] then ([], [], false)
    else if s[0] == sep then ([], s[1..], true)
    else
      var (before, behind, found) := Cut(s[1..], sep);
      ([s[0]] + before, behind, found)
  }

  lemma {:induction false} CutIs(s: Bytes, sep: Byte)
    ensures var (before, behind, found) := Cut(s, sep);
      && sep !in before
      && (found <==> sep in s)
      && s == (if found then before + [sep] + behind else before)
      && (!found ==> behind == [])
  {
    if s != [] && s[0] != sep {
      CutIs(s[1..], sep);
      assert s == [s[0]] + s[1..];
    }
  }

  lemma {:induction false} CutAt(before: Bytes, sep: Byte, behind: Bytes)
    requires sep !in before
    ensures Cut(before + [sep] + behind, sep) == (before, behind, true)
  {
    var s := before + [sep] + behind;
    if before == [] {
      assert s[1..] == behind;
    } else {
      assert s[1..] == before[1..] + [sep] + behind;
      CutAt(before[1..], sep, behind);
      assert before == [s[0]] + before[1..];
    }
  }

  lemma {:induction false} CutNone(s: Bytes, sep: Byte)
    requires sep !in s
    ensures Cut(s, sep) == (s, [], false)
  {
    if s != [] {
      CutNone(s[1..], sep);
      assert s == [s[0]] + s[1..];
    }
  }

  /** The parts of `s` between the separators (strings.Split). */
  function Split(s: Bytes, sep: Byte): (parts: seq<Bytes>)
    ensures parts != []
    decreases |s|
  {
    var (before, behind, found) := Cut(s, sep);
    if found && s != [] then [before] + Split(behind, sep) else [s]
  }

  /** strings.Join. */
  function Join(parts: seq<Bytes>, sep: Byte): Bytes {
    if parts == [] then []
    else if |parts| == 1 then parts[0]
    else parts[0] + [sep] + Join(parts[1..], sep)
  }

  ghost predicate FreeOf(parts: seq<Bytes>, sep: Byte) {
    forall i :: 0 <= i < |parts| ==> sep !in parts[i]
  }

  /** Splitting undoes joining when no part contains the separator. */
  lemma {:induction false} SplitJoin(parts: seq<Bytes>, sep: Byte)
    requires parts != [] && FreeOf(parts, sep)
    ensures Split(Join(parts, sep), sep) == parts
  {
    if |parts| == 1 {
      CutNone(parts[0], sep);
    } else {
      CutAt(parts[0], sep, Join(parts[1..], sep));
      SplitJoin(parts[1..], sep);
      assert parts == [parts[0]] + parts[1..];
    }
  }

  lemma {:induction false} JoinSplit(s: Bytes, sep: Byte)
    ensures Join(Split(s, sep), sep) == s && FreeOf(Split(s, sep), sep)
    decreases |s|
  {
    CutIs(s, sep);
    var (before, behind, found) := Cut(s, sep);
    if found {
      JoinSplit(behind, sep);
      assert ([before] + Split(behind, sep))[1..] == Split(behind, sep);
    }
  }

  predicate IsBlank(c: Byte) {
    c == ' ' || c == '\t'
  }

  /** strings.TrimLeft(s, " \t"). */
  function TrimLeft(s: Bytes): Bytes {
    if s != [] && IsBlank(s[0]) then TrimLeft(s[1..]) else s
  }

  /** strings.TrimRight(s, " \t"). */
  function TrimRight(s: Bytes): Bytes {
    if s != [] && IsBlank(s[|s| - 1]) then TrimRight(s[..|s| - 1]) else s
  }

  // ----- hexadecimal digits -----

  function LowerDigit(n: nat): Byte
    requires n < 16
  {
    if n < 10 then ('0' as int + n) as char else ('a' as int + (n - 10)) as char
  }

  function UpperDigit(n: nat): Byte
    requires n < 16
  {
    if n < 10 then ('0' as int + n) as char else ('A' as int + (n - 10)) as char
  }

  predicate IsUpperHex(c: Byte) {
    'A' <= c <= 'F'
  }

  predicate IsHex(c: Byte) {
    '0' <= c <= '9' || 'a' <= c <= 'f' || IsUpperHex(c)
  }

  function FromHex(c: Byte): (n: nat)
    requires IsHex(c)
    ensures n < 16
  {
    if '0' <= c <= '9' then c as int - '0' as int
    else if 'a' <= c <= 'f' then c as int - 'a' as int + 10
    else c as int - 'A' as int + 10
  }
}

/** UTF-8 (package unicode/utf8): bytes that are no character decode to the replacement character, one at a time. */
module Utf8 {
  import opened Text

  const REPLACEMENT: nat := 0xFFFD

  function Code(c: Byte): (n: nat)
    ensures n < 256
  {
    c as int
  }

  predicate IsContinuation(c: Byte) {
    0x80 <= Code(c) <= 0xBF
  }

  /** The second byte a first byte asks for: no overlong forms, no surrogates, nothing above U+10FFFF. */
  predicate SecondByte(first: Byte, second: Byte) {
    && IsContinuation(second)
    && (Code(first) == 0xE0 ==> Code(second) >= 0xA0)
    && (Code(first) == 0xED ==> Code(second) <= 0x9F)
    && (Code(first) == 0xF0 ==> Code(second) >= 0x90)
    && (Code(first) == 0xF4 ==> Code(second) <= 0x8F)
  }

  /** The length of the character a byte starts; 0 if it starts none. */
  function LengthOf(first: Byte): nat {
    var n := Code(first);
    if n < 0x80 then 1
    else if 0xC2 <= n <= 0xDF then 2
    else if 0xE0 <= n <= 0xEF then 3
    else if 0xF0 <= n <= 0xF4 then 4
    else 0
  }

  /** Whether `s` starts with a character, and not with a byte that is none. */
  predicate StartsCharacter(s: Bytes) {
    && s != []
    && 0 < LengthOf(s[0]) <= |s|
    && (LengthOf(s[0]) >= 2 ==> SecondByte(s[0], s[1]))
    && (LengthOf(s[0]) >= 3 ==> IsContinuation(s[2]))
    && (LengthOf(s[0]) >= 4 ==> IsContinuation(s[3]))
  }

  function Character(s: Bytes): nat
    requires StartsCharacter(s)
  {
    match LengthOf(s[0])
    case 1 => Code(s[0])
    case 2 => (Code(s[0]) - 0xC0) * 0x40 + (Code(s[1]) - 0x80)
    case 3 => (Code(s[0]) - 0xE0) * 0x1000 + (Code(s[1]) - 0x80) * 0x40 + (Code(s[2]) - 0x80)
    case _ => (Code(s[0]) - 0xF0) * 0x40000 + (Code(s[1]) - 0x80) * 0x1000 + (Code(s[2]) - 0x80) * 0x40
              + (Code(s[3]) - 0x80)
  }

  /** DecodeRuneInString: the first character of `s` and its length. */
  function DecodeRune(s: Bytes): (r: (nat, nat))
    requires s != []
    ensures 0 < r.1 <= |s|
  {
    if StartsCharacter(s) then (Character(s), LengthOf(s[0])) else (REPLACEMENT, 1)
  }

  /** The characters a range over a string visits. */
  function Runes(s: Bytes): seq<nat> {
    if s == [] then [] else [DecodeRune(s).0] + Runes(s[DecodeRune(s).1..])
  }

  /** ValidString. */
  predicate IsValid(s: Bytes) {
    s == [] || (StartsCharacter(s) && IsValid(s[LengthOf(s[0])..]))
  }

  predicate IsAscii(s: Bytes) {
    forall i :: 0 <= i < |s| ==> Code(s[i]) < 0x80
  }

  /** The characters of an ASCII string are its bytes. */
  lemma {:induction false} AsciiRunes(s: Bytes)
    requires IsAscii(s)
    ensures |Runes(s)| == |s| && (forall i :: 0 <= i < |s| ==> Runes(s)[i] == Code(s[i]))
    ensures IsValid(s)
  {
    if s != [] {
      AsciiRunes(s[1..]);
    }
  }

  /** A string all of whose characters are ASCII has only ASCII bytes. */
  lemma {:induction false} RunesAscii(s: Bytes)
    requires forall r :: r in Runes(s) ==> r < 0x80
    ensures IsAscii(s)
  {
    if s != [] {
      var rest := Runes(s[DecodeRune(s).1..]);
      assert Runes(s) == [DecodeRune(s).0] + rest;
      assert DecodeRune(s).0 in Runes(s) && forall r :: r in rest ==> r in Runes(s);
      SmallIsOneByte(s);
      RunesAscii(s[1..]);
    }
  }

  lemma SmallIsOneByte(s: Bytes)
    requires s != [] && DecodeRune(s).0 < 0x80
    ensures Code(s[0]) < 0x80 && DecodeRune(s) == (Code(s[0]), 1)
  {
  }
}

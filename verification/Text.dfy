/**
  Text as Unicode scalar values, with the widths they take in UTF-8 (section 3 of RFC 3629) and
  UTF-16 (section 2.1 of RFC 2781).
 */
module Text {

  function Utf8Len(c: char): nat {
    if c < '\U{80}' then 1 else if c < '\U{800}' then 2 else if c < '\U{10000}' then 3 else 4
  }

  function Utf16Len(c: char): nat {
    if c < '\U{10000}' then 1 else 2
  }

  /** The Unicode White_Space property. */
  predicate IsWhitespace(c: char) {
    || '\U{9}' <= c <= '\U{D}' || c == ' ' || c == '\U{85}' || c == '\U{A0}' || c == '\U{1680}'
    || '\U{2000}' <= c <= '\U{200A}' || c == '\U{2028}' || c == '\U{2029}' || c == '\U{202F}'
    || c == '\U{205F}' || c == '\U{3000}'
  }

  /** A character takes the fewest bytes whose free bits hold its code point: 7, 11, 16 or 21 of them. */
  lemma Utf8LenIsLeast(c: char)
    ensures 1 <= Utf8Len(c) <= 4
    ensures var capacity := [0, 0x80, 0x800, 0x1_0000, 0x20_0000];
            capacity[Utf8Len(c) - 1] <= c as int < capacity[Utf8Len(c)]
  {
  }

  /** A character outside the basic plane takes a surrogate pair. */
  lemma Utf16LenIs(c: char)
    ensures Utf16Len(c) == if c as int <= 0xFFFF then 1 else 2
  {
  }

  /** The code points of the White_Space property, one by one (PropList of Unicode 15). */
  const WHITE_SPACE: seq<int> := [
    0x09, 0x0A, 0x0B, 0x0C, 0x0D, 0x20, 0x85, 0xA0, 0x1680, 0x2000, 0x2001, 0x2002, 0x2003, 0x2004, 0x2005,
    0x2006, 0x2007, 0x2008, 0x2009, 0x200A, 0x2028, 0x2029, 0x202F, 0x205F, 0x3000]

  lemma WhitespaceIs(c: char)
    ensures IsWhitespace(c) <==> c as int in WHITE_SPACE
  {
  }

  /** Bytes of a text in UTF-8. */
  function Bytes(s: string): nat {
    if s == [] then 0 else Bytes(s[..|s| - 1]) + Utf8Len(s[|s| - 1])
  }

  /** Code units of a text in UTF-16. */
  function Units(s: string): nat {
    if s == [] then 0 else Units(s[..|s| - 1]) + Utf16Len(s[|s| - 1])
  }

  lemma BytesStep(s: string, i: nat)
    requires i < |s|
    ensures Bytes(s[..i + 1]) == Bytes(s[..i]) + Utf8Len(s[i])
    ensures Units(s[..i + 1]) == Units(s[..i]) + Utf16Len(s[i])
  {
    assert s[..i + 1][..i] == s[..i];
  }

  lemma {:induction false} WidthsConcat(a: string, b: string)
    ensures Bytes(a + b) == Bytes(a) + Bytes(b)
    ensures Units(a + b) == Units(a) + Units(b)
    decreases |b|
  {
    if b == [] {
      assert a + b == a;
    } else {
      WidthsConcat(a, b[..|b| - 1]);
      assert (a + b)[..|a + b| - 1] == a + b[..|b| - 1];
    }
  }

  /** No more than three bytes stand for one code unit, and at least one byte. */
  lemma {:induction false} BytesPerUnit(s: string)
    ensures |s| <= Units(s) <= Bytes(s) <= 3 * Units(s)
  {
    if s != [] { BytesPerUnit(s[..|s| - 1]); }
  }

  /** Offsets of character boundaries, and the widths between them. */
  lemma WidthsBetween(s: string, i: nat, j: nat)
    requires i <= j <= |s|
    ensures Bytes(s[..j]) == Bytes(s[..i]) + Bytes(s[i..j])
    ensures Units(s[..j]) == Units(s[..i]) + Units(s[i..j])
  {
    assert s[..j] == s[..i] + s[i..j];
    WidthsConcat(s[..i], s[i..j]);
  }

  /** Boundary offsets rise strictly in every unit. */
  lemma WidthsRise(s: string, i: nat, j: nat)
    requires i <= j <= |s|
    ensures Bytes(s[..i]) + (j - i) <= Bytes(s[..j])
    ensures Units(s[..i]) + (j - i) <= Units(s[..j])
  {
    WidthsBetween(s, i, j);
    BytesPerUnit(s[i..j]);
  }
}

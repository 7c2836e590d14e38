/**
  Text as UTF-16 code units, and JSON string literals over it: what `JSON.stringify` prints and
  `JSON.parse` reads back (section 7 of RFC 8259).
 */
module JsonText {
  import opened Common

  type CodeUnit = n: int | 0 <= n < 0x10000

  type Text = seq<CodeUnit>

  const QUOTE: CodeUnit := 0x22
  const BACKSLASH: CodeUnit := 0x5C
  const SLASH: CodeUnit := 0x2F
  const LOWER_U: CodeUnit := 0x75

  function UnitOf(c: char): CodeUnit {
    if c < '\U{80}' then c as int else 0
  }

  /** The units of an ASCII literal. */
  function Ascii(s: string): Text {
    seq(|s|, i requires 0 <= i < |s| => UnitOf(s[i]))
  }

  predicate IsHighSurrogate(u: CodeUnit) { 0xD800 <= u <= 0xDBFF }

  predicate IsLowSurrogate(u: CodeUnit) { 0xDC00 <= u <= 0xDFFF }

  // ---------- reading ----------

  function HexValue(u: CodeUnit): Option<nat> {
    if 0x30 <= u <= 0x39 then Some(u - 0x30)
    else if 0x61 <= u <= 0x66 then Some(u - 0x61 + 10)
    else if 0x41 <= u <= 0x46 then Some(u - 0x41 + 10)
    else None
  }

  function FourHex(digits: Text): Option<CodeUnit>
    requires |digits| == 4
  {
    match (HexValue(digits[0]), HexValue(digits[1]), HexValue(digits[2]), HexValue(digits[3]))
    case (Some(a), Some(b), Some(c), Some(d)) =>
      if a < 16 && b < 16 && c < 16 && d < 16 then Some(a * 0x1000 + b * 0x100 + c * 0x10 + d) else None
    case _ => None
  }

  /** The unit a one-letter escape stands for. */
  function Unescaped(u: CodeUnit): Option<CodeUnit> {
    if u == QUOTE || u == BACKSLASH || u == SLASH then Some(u)
    else if u == 0x62 then Some(0x08)
    else if u == 0x66 then Some(0x0C)
    else if u == 0x6E then Some(0x0A)
    else if u == 0x72 then Some(0x0D)
    else if u == 0x74 then Some(0x09)
    else None
  }

  function Prepend(u: CodeUnit, rest: Option<Text>): Option<Text> {
    match rest
    case Some(value) => Some([u] + value)
    case None => None
  }

  /** The value between the quotes of a literal, if the literal is well formed. */
  function Unquote(body: Text): Option<Text> {
    if body == [] then Some([])
    else if body[0] == BACKSLASH then
      if |body| < 2 then None
      else if body[1] == LOWER_U then
        if |body| < 6 then None
        else
          match FourHex(body[2..6])
          case None => None
          case Some(u) => Prepend(u, Unquote(body[6..]))
      else
        match Unescaped(body[1])
        case None => None
        case Some(u) => Prepend(u, Unquote(body[2..]))
    else if body[0] < 0x20 || body[0] == QUOTE then None
    else Prepend(body[0], Unquote(body[1..]))
  }

  /** `JSON.parse` of text that starts and ends with a quote. */
  function ParseLiteral(raw: Text): Option<Text>
    requires |raw| >= 2
  {
    Unquote(raw[1..|raw| - 1])
  }

  // ---------- writing ----------

  function HexDigit(n: nat): CodeUnit
    requires n < 16
  {
    if n < 10 then 0x30 + n else 0x61 + n - 10
  }

  function UnicodeEscape(u: CodeUnit): Text {
    [BACKSLASH, LOWER_U, HexDigit(u / 0x1000), HexDigit(u / 0x100 % 16), HexDigit(u / 0x10 % 16), HexDigit(u % 16)]
  }

  function Escaped(u: CodeUnit): Text {
    if u == 0x08 then [BACKSLASH, 0x62]
    else if u == 0x09 then [BACKSLASH, 0x74]
    else if u == 0x0A then [BACKSLASH, 0x6E]
    else if u == 0x0C then [BACKSLASH, 0x66]
    else if u == 0x0D then [BACKSLASH, 0x72]
    else if u == QUOTE || u == BACKSLASH then [BACKSLASH, u]
    else if u < 0x20 || IsHighSurrogate(u) || IsLowSurrogate(u) then UnicodeEscape(u)
    else [u]
  }

  /** Surrogate pairs are copied, lone surrogates and control characters escaped. */
  function Quoted(value: Text): Text {
    if value == [] then []
    else if |value| >= 2 && IsHighSurrogate(value[0]) && IsLowSurrogate(value[1]) then
      value[..2] + Quoted(value[2..])
    else Escaped(value[0]) + Quoted(value[1..])
  }

  function Stringify(value: Text): Text {
    [QUOTE] + Quoted(value) + [QUOTE]
  }

  // ---------- round trip ----------

  lemma FourDigits(u: CodeUnit)
    ensures u == u / 0x1000 * 0x1000 + u / 0x100 % 16 * 0x100 + u / 0x10 % 16 * 0x10 + u % 16
  {
    assert u == u / 0x10 * 0x10 + u % 16;
    assert u / 0x10 == u / 0x100 * 0x10 + u / 0x10 % 16;
    assert u / 0x100 == u / 0x1000 * 0x10 + u / 0x100 % 16;
  }

  lemma HexRoundTrip(u: CodeUnit)
    ensures FourHex(UnicodeEscape(u)[2..6]) == Some(u)
  {
    var a, b, c, d := u / 0x1000, u / 0x100 % 16, u / 0x10 % 16, u % 16;
    FourDigits(u);
    assert UnicodeEscape(u)[2..6] == [HexDigit(a), HexDigit(b), HexDigit(c), HexDigit(d)];
  }

  lemma EscapedReadsBack(u: CodeUnit, rest: Text)
    ensures Unquote(Escaped(u) + rest) == Prepend(u, Unquote(rest))
  {
    hide FourHex, HexDigit;
    var body := Escaped(u) + rest;
    if Escaped(u) == [u] {
      assert body[1..] == rest;
    } else if |Escaped(u)| == 2 {
      assert body[2..] == rest;
    } else {
      HexRoundTrip(u);
      assert body[2..6] == UnicodeEscape(u)[2..6];
      assert body[6..] == rest;
    }
  }

  lemma {:induction false} QuotedReadsBack(value: Text)
    ensures Unquote(Quoted(value)) == Some(value)
    decreases |value|
  {
    if value == [] {
    } else if |value| >= 2 && IsHighSurrogate(value[0]) && IsLowSurrogate(value[1]) {
      QuotedReadsBack(value[2..]);
      var body := Quoted(value);
      assert body[1..] == [value[1]] + Quoted(value[2..]);
      assert body[1..][1..] == Quoted(value[2..]);
      assert value == [value[0]] + ([value[1]] + value[2..]);
    } else {
      QuotedReadsBack(value[1..]);
      EscapedReadsBack(value[0], Quoted(value[1..]));
      assert value == [value[0]] + value[1..];
    }
  }

  /** What `JSON.stringify` prints, `JSON.parse` reads back, whatever the units. */
  lemma StringifyRoundTrip(value: Text)
    ensures ParseLiteral(Stringify(value)) == Some(value)
  {
    QuotedReadsBack(value);
    assert Stringify(value)[1..|Stringify(value)| - 1] == Quoted(value);
  }

  // ---------- finding the closing quote ----------

  /** The position after the closing quote when scanning from `i` inside a literal; a failure
      holds the position where the text ran out. */
  function ScanString(src: Text, i: nat): (r: Result<nat, nat>)
    ensures r.Ok? ==> i < r.value <= |src| && src[r.value - 1] == QUOTE
    decreases |src| - i
  {
    if i >= |src| then Err(i)
    else if src[i] == BACKSLASH then ScanString(src, i + 2)
    else if src[i] == QUOTE then Ok(i + 1)
    else ScanString(src, i + 1)
  }

  /** `part` stands in `src` at position `i`. */
  ghost predicate Holds(src: Text, i: nat, part: Text) {
    i + |part| <= |src| && src[i..i + |part|] == part
  }

  lemma HoldsParts(src: Text, i: nat, a: Text, b: Text)
    requires Holds(src, i, a + b)
    ensures Holds(src, i, a) && Holds(src, i + |a|, b)
  {
    assert src[i..i + |a|] == src[i..i + |a + b|][..|a|];
    assert src[i + |a|..i + |a| + |b|] == src[i..i + |a + b|][|a|..];
  }

  /** An escape starts with a backslash, and only its second unit may be a quote or a backslash again. */
  lemma EscapedUnits(u: CodeUnit)
    ensures var e := Escaped(u);
            && (|e| == 1 ==> e[0] != QUOTE && e[0] != BACKSLASH)
            && (|e| != 1 ==> e[0] == BACKSLASH && (|e| == 2 || |e| == 6))
            && (forall k :: 2 <= k < |e| ==> e[k] != QUOTE && e[k] != BACKSLASH)
  {
  }

  lemma ScanPassesEscaped(src: Text, i: nat, u: CodeUnit)
    requires Holds(src, i, Escaped(u))
    ensures ScanString(src, i) == ScanString(src, i + |Escaped(u)|)
  {
    hide Escaped;
    EscapedUnits(u);
    var e := Escaped(u);
    forall k | 0 <= k < |e|
      ensures src[i + k] == e[k]
    {
      assert src[i..i + |e|][k] == src[i + k];
    }
    if |e| == 6 {
      assert src[i + 2] == e[2] && src[i + 3] == e[3] && src[i + 4] == e[4] && src[i + 5] == e[5];
      assert ScanString(src, i) == ScanString(src, i + 2) == ScanString(src, i + 3);
      assert ScanString(src, i + 3) == ScanString(src, i + 4) == ScanString(src, i + 5) == ScanString(src, i + 6);
    } else {
      assert src[i] == e[0];
    }
  }

  /** The first stretch `Quoted` prints, and the value it has still to print after it. */
  function FirstQuoted(value: Text): (Text, Text)
    requires value != []
  {
    if |value| >= 2 && IsHighSurrogate(value[0]) && IsLowSurrogate(value[1]) then ([value[0], value[1]], value[2..])
    else (Escaped(value[0]), value[1..])
  }

  lemma QuotedSplits(value: Text)
    requires value != []
    ensures Quoted(value) == FirstQuoted(value).0 + Quoted(FirstQuoted(value).1)
  {
  }

  lemma ScanPassesFirst(src: Text, i: nat, value: Text)
    requires value != [] && Holds(src, i, FirstQuoted(value).0)
    ensures ScanString(src, i) == ScanString(src, i + |FirstQuoted(value).0|)
  {
    if |value| >= 2 && IsHighSurrogate(value[0]) && IsLowSurrogate(value[1]) {
    } else {
      ScanPassesEscaped(src, i, value[0]);
    }
  }

  /** The scan of a printed literal stops at its own closing quote. */
  lemma {:induction false} ScanFindsEnd(src: Text, i: nat, value: Text)
    requires Holds(src, i, Quoted(value) + [QUOTE])
    ensures ScanString(src, i) == Ok(i + |Quoted(value)| + 1)
    decreases |value|
  {
    hide Escaped, IsHighSurrogate, IsLowSurrogate;
    if value == [] {
    } else {
      var (first, rest) := FirstQuoted(value);
      QuotedSplits(value);
      assert Quoted(value) + [QUOTE] == first + (Quoted(rest) + [QUOTE]);
      HoldsParts(src, i, first, Quoted(rest) + [QUOTE]);
      ScanPassesFirst(src, i, value);
      ScanFindsEnd(src, i + |first|, rest);
    }
  }
}

/**
  A lockfile whose version string is written with an escape: synchronising it up and down again does
  not restore it.
 */
module LockfileEscapes {
  import opened Common
  import opened JsonText
  import opened LockfileSyntax
  import opened LockfileEdit
  import opened LockfileNodes
  import opened LockfileSplices
  import opened LockfileSync

  /** Neither whitespace nor the start of a comment stands at `i`. */
  predicate Solid(src: Text, i: nat) {
    i < |src| && !IsSpace(src[i]) && src[i] != SLASH
  }

  lemma NothingSkipped(src: Text, i: nat)
    requires Solid(src, i)
    ensures SkipTrivia(src, i) == Ok(i)
  {
  }

  /** A key as it is usually written: printed, with a colon right behind it. */
  function PrintedKey(key: Text): Text {
    Stringify(key) + [COLON]
  }

  lemma KeyRead(src: Text, i: nat, key: Text)
    requires Holds(src, i, PrintedKey(key))
    ensures i + |PrintedKey(key)| <= |src|
    ensures ParseKey(src, i) == Ok(Parsed(key, i + |PrintedKey(key)|))
  {
    hide SkipTrivia, ScanString, ParseLiteral, Quoted;
    var end := i + |Stringify(key)|;
    HoldsParts(src, i, Stringify(key), [COLON]);
    assert src[i] == src[i..end][0] && src[end] == src[end..end + 1][0];
    NothingSkipped(src, i);
    NothingSkipped(src, end);
    PrintedRead(src, i, key);
  }

  lemma PrintedRead(src: Text, i: nat, value: Text)
    requires Holds(src, i, Stringify(value))
    ensures src[i] == QUOTE && ScanString(src, i + 1) == Ok(i + |Stringify(value)|)
    ensures ParseLiteral(src[i..i + |Stringify(value)|]) == Some(value)
  {
    hide ParseLiteral, ScanString, Quoted;
    assert Stringify(value) == [QUOTE] + (Quoted(value) + [QUOTE]);
    HoldsParts(src, i, [QUOTE], Quoted(value) + [QUOTE]);
    assert src[i] == src[i..i + 1][0];
    ScanFindsEnd(src, i + 1, value);
    StringifyRoundTrip(value);
  }

  /** An object with one member and nothing between its parts. */
  lemma OneMemberRead(src: Text, i: nat, key: Text, value: Syntax, after: nat)
    requires At(src, i, LEFT_BRACE) && Holds(src, i + 1, PrintedKey(key))
    requires i + 1 + |PrintedKey(key)| <= |src|
    requires ParseValue(src, i + 1 + |PrintedKey(key)|) == Ok(Parsed(value, after)) && At(src, after, RIGHT_BRACE)
    ensures ParseValue(src, i) == Ok(Parsed(Obj(Member(key, value, NoMember)), after + 1))
  {
    hide SkipTrivia, ParseKey, PrintedKey;
    var first := i + 1;
    KeyRead(src, first, key);
    KeyStartsWithQuote(src, first, key);
    NothingSkipped(src, i);
    NothingSkipped(src, first);
    NothingSkipped(src, after);
    MembersRead(src, first, key, value, after);
  }

  lemma KeyStartsWithQuote(src: Text, i: nat, key: Text)
    requires Holds(src, i, PrintedKey(key))
    ensures i < |src| && src[i] == QUOTE
  {
  }

  lemma MembersRead(src: Text, i: nat, key: Text, value: Syntax, after: nat)
    requires i <= |src| && !At(src, i, RIGHT_BRACE) && i + |PrintedKey(key)| <= |src|
    requires ParseKey(src, i) == Ok(Parsed(key, i + |PrintedKey(key)|))
    requires ParseValue(src, i + |PrintedKey(key)|) == Ok(Parsed(value, after)) && At(src, after, RIGHT_BRACE)
    requires SkipTrivia(src, after) == Ok(after)
    ensures ParseMembers(src, i) == Ok(Parsed(Member(key, value, NoMember), after))
  {
    hide SkipTrivia, ParseKey, PrintedKey, ParseValue;
  }

  // ---------- the example ----------

  /** The literal `"\u0031"`. */
  function EscapedOne(): Text {
    [QUOTE, BACKSLASH, LOWER_U, 0x30, 0x30, 0x33, 0x31, QUOTE]
  }

  const ONE: Text := [0x31]
  const TWO: Text := [0x32]

  lemma EscapedOneReads(src: Text, i: nat)
    requires Holds(src, i, EscapedOne())
    ensures ParseValue(src, i) == Ok(Parsed(Str(Literal(i, i + 8, ONE)), i + 8))
  {
    hide SkipTrivia;
    var raw := EscapedOne();
    assert src[i] == src[i..i + 8][0];
    NothingSkipped(src, i);
    EscapeScanned(src, i);
    assert raw[1..|raw| - 1] == [BACKSLASH, LOWER_U, 0x30, 0x30, 0x33, 0x31];
    EscapeUnquoted([BACKSLASH, LOWER_U, 0x30, 0x30, 0x33, 0x31]);
  }

  lemma EscapeScanned(src: Text, i: nat)
    requires Holds(src, i, EscapedOne())
    ensures ScanString(src, i + 1) == Ok(i + 8)
  {
    var raw := src[i..i + 8];
    assert raw[1] == src[i + 1] && raw[3] == src[i + 3] && raw[4] == src[i + 4];
    assert raw[5] == src[i + 5] && raw[6] == src[i + 6] && raw[7] == src[i + 7];
    assert ScanString(src, i + 1) == ScanString(src, i + 3) == ScanString(src, i + 4) == ScanString(src, i + 5);
    assert ScanString(src, i + 5) == ScanString(src, i + 6) == ScanString(src, i + 7);
  }

  lemma EscapeUnquoted(body: Text)
    requires body == [BACKSLASH, LOWER_U, 0x30, 0x30, 0x33, 0x31]
    ensures Unquote(body) == Some(ONE)
  {
    assert body[2..6] == [0x30, 0x30, 0x33, 0x31];
    var digits := body[2..6];
    assert digits[0] == 0x30 && digits[1] == 0x30 && digits[2] == 0x33 && digits[3] == 0x31;
    assert FourHex(digits) == Some(0x31);
    assert Unquote([]) == Some([]) && body[6..] == [];
    assert Unquote(body) == Prepend(0x31, Some([]));
    assert [0x31] + [] == ONE;
  }

  /** `{"workspaces":{"":{"version":"\u0031"}}}` */
  function EscapedLockfile(): Text {
    [LEFT_BRACE] + PrintedKey(WorkspacesKey())
    + ([LEFT_BRACE] + PrintedKey([])
       + ([LEFT_BRACE] + PrintedKey(VersionKey()) + EscapedOne() + [RIGHT_BRACE]) + [RIGHT_BRACE]) + [RIGHT_BRACE]
  }

  /** A text that holds an object of one member holds its parts. */
  lemma ObjectParts(src: Text, i: nat, key: Text, value: Text)
    requires Holds(src, i, [LEFT_BRACE] + PrintedKey(key) + value + [RIGHT_BRACE])
    ensures var v := i + 1 + |PrintedKey(key)|;
            && At(src, i, LEFT_BRACE) && Holds(src, i + 1, PrintedKey(key)) && v <= |src|
            && Holds(src, v, value) && At(src, v + |value|, RIGHT_BRACE)
  {
    hide PrintedKey;
    var k := PrintedKey(key);
    HoldsParts(src, i, [LEFT_BRACE] + k + value, [RIGHT_BRACE]);
    HoldsParts(src, i, [LEFT_BRACE] + k, value);
    HoldsParts(src, i, [LEFT_BRACE], k);
    assert src[i] == src[i..i + 1][0];
    var end := i + |[LEFT_BRACE] + k + value|;
    assert src[end] == src[end..end + 1][0];
  }

  /** It parses, and its version reads as 1. */
  lemma EscapedLockfileParses() returns (t: Syntax)
    ensures Lockfile(EscapedLockfile(), t)
    ensures exists l :: VersionIn(t, []) == Some(l) && l.value == ONE && l.end == l.start + 8
  {
    hide PrintedKey, EscapedOne, ParseValue, SkipTrivia;
    var src := EscapedLockfile();
    var inner := [LEFT_BRACE] + PrintedKey(VersionKey()) + EscapedOne() + [RIGHT_BRACE];
    var middle := [LEFT_BRACE] + PrintedKey([]) + inner + [RIGHT_BRACE];
    assert src == [LEFT_BRACE] + PrintedKey(WorkspacesKey()) + middle + [RIGHT_BRACE];
    assert src[0..0 + |src|] == src;
    var a := 1 + |PrintedKey(WorkspacesKey())|;
    var b := a + 1 + |PrintedKey([])|;
    var c := b + 1 + |PrintedKey(VersionKey())|;
    ObjectParts(src, 0, WorkspacesKey(), middle);
    ObjectParts(src, a, [], inner);
    ObjectParts(src, b, VersionKey(), EscapedOne());
    EscapedOneReads(src, c);
    EscapedOneLength();
    var entry := Obj(Member(VersionKey(), Str(Literal(c, c + 8, ONE)), NoMember));
    var list := Obj(Member([], entry, NoMember));
    t := Obj(Member(WorkspacesKey(), list, NoMember));
    OneMemberRead(src, b, VersionKey(), Str(Literal(c, c + 8, ONE)), c + 8);
    OneMemberRead(src, a, [], entry, c + 9);
    OneMemberRead(src, 0, WorkspacesKey(), list, c + 10);
    NothingBehind(src);
    OneMemberFound(WorkspacesKey(), list);
    OneMemberFound([], entry);
    OneMemberFound(VersionKey(), Str(Literal(c, c + 8, ONE)));
  }

  lemma OneMemberFound(key: Text, value: Syntax)
    ensures LastValue(Member(key, value, NoMember), key) == Some(value)
  {
  }

  lemma EscapedOneLength()
    ensures |EscapedOne()| == 8
  {
  }

  lemma NothingBehind(src: Text)
    ensures SkipTrivia(src, |src|) == Ok(|src|)
  {
  }

  lemma OneWorkspaceRestores(t: Syntax, up: (Text, Text), down: (Text, Text))
    requires up.0 == down.0 && Restored(t, down)
    ensures Restores(t, [up], [down])
  {
    hide Restored;
    assert [up][0].0 == [down][0].0 == up.0;
  }

  /** Going up to version 2 and back down to version 1 leaves the escape unrestored. */
  lemma EscapeNotRestored()
    ensures exists t: Syntax ::
      && Lockfile(EscapedLockfile(), t) && Distinct([([], TWO)]) && Restores(t, [([], TWO)], [([], ONE)])
      && Lockfile(SyncedText(EscapedLockfile(), t, [([], TWO)]), SyncedTree(t, [([], TWO)])) && Distinct([([], ONE)])
      && SyncedText(SyncedText(EscapedLockfile(), t, [([], TWO)]), SyncedTree(t, [([], TWO)]), [([], ONE)])
         != EscapedLockfile()
  {
    hide EscapedLockfile, Lockfile, VersionIn, SyncedText, SyncedTree;
    var t := EscapedLockfileParses();
    var up: Versions, down: Versions := [([], TWO)], [([], ONE)];
    OneWorkspaceRestores(t, up[0], down[0]);
    UpThenDownRestores(EscapedLockfile(), t, up, down);
    assert !PrintedVersion(EscapedLockfile(), VersionIn(t, up[0].0), up[0].1) by {
      PrintedOneLength();
    }
  }

  lemma PrintedOneLength()
    ensures |Stringify(ONE)| == 3 && ONE != TWO
  {
  }
}

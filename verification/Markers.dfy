/**
  Balanced markers around text: the one-pass scan with a stack, the recursive reading it agrees
  with, and the binary search over its result. Positions count characters.
 */
module Markers {
  import opened Common
  import opened Text
  import opened SpanIndexes

  datatype MarkerKind = Opaque | Template

  /** Opening and closing delimiter pairs of a kind. */
  function Delimiters(kind: MarkerKind): (ds: seq<(string, string)>)
    ensures |ds| > 0
    ensures forall d :: 0 <= d < |ds| ==> |ds[d].0| > 0 && |ds[d].1| > 0
  {
    match kind
    case Opaque => [("\U{27E6}", "\U{27E7}")]
    case Template => [("<<", ">>"), ("{{", "}}"), ("[[", "]]")]
  }

  /** Characters no marker of the kind may contain. */
  predicate ClosesAll(kind: MarkerKind, c: char) {
    match kind
    case Opaque => IsWhitespace(c)
    case Template => c == '\n' || c == '\r' || c == '\U{2028}' || c == '\U{2029}'
  }

  predicate StartsWith(text: string, i: nat, part: string) {
    i + |part| <= |text| && text[i..i + |part|] == part
  }

  /** The first delimiter pair from number `d` on whose opener stands at `i`. */
  function OpenerFrom(text: string, kind: MarkerKind, i: nat, d: nat): (r: Option<nat>)
    requires d <= |Delimiters(kind)|
    ensures r.Some? ==> d <= r.value < |Delimiters(kind)| && StartsWith(text, i, Delimiters(kind)[r.value].0)
    ensures r.None? ==> forall e :: d <= e < |Delimiters(kind)| ==> !StartsWith(text, i, Delimiters(kind)[e].0)
    decreases |Delimiters(kind)| - d
  {
    if d == |Delimiters(kind)| then None
    else if StartsWith(text, i, Delimiters(kind)[d].0) then Some(d)
    else OpenerFrom(text, kind, i, d + 1)
  }

  function Opener(text: string, kind: MarkerKind, i: nat): Option<nat> {
    OpenerFrom(text, kind, i, 0)
  }

  // ---------- the recursive reading ----------

  /** From inside a marker of pair `d`, the position of the closer that matches it, if it is
      reached before a breaking character or the end of the text. */
  function Close(text: string, kind: MarkerKind, i: nat, d: nat): (r: Option<nat>)
    requires d < |Delimiters(kind)|
    ensures r.Some? ==> i <= r.value && StartsWith(text, r.value, Delimiters(kind)[d].1)
    decreases |text| - i
  {
    if i >= |text| || ClosesAll(kind, text[i]) then None
    else if StartsWith(text, i, Delimiters(kind)[d].1) then Some(i)
    else
      match Opener(text, kind, i)
      case None => Close(text, kind, i + 1, d)
      case Some(e) =>
        match Close(text, kind, i + |Delimiters(kind)[e].0|, e)
        case None => None
        case Some(m) => Close(text, kind, m + |Delimiters(kind)[e].1|, d)
  }

  function NextBreak(text: string, kind: MarkerKind, i: nat): (b: nat)
    requires i <= |text|
    ensures i <= b <= |text|
    ensures forall k :: i <= k < b ==> !ClosesAll(kind, text[k])
    ensures b < |text| ==> ClosesAll(kind, text[b])
    decreases |text| - i
  {
    if i == |text| || ClosesAll(kind, text[i]) then i else NextBreak(text, kind, i + 1)
  }

  /** The outermost balanced markers from `i` on: opener and closer positions. */
  function Outermost(text: string, kind: MarkerKind, i: nat): seq<Span>
    requires i <= |text|
    decreases |text| - i
  {
    if i == |text| then []
    else
      match Opener(text, kind, i)
      case None => Outermost(text, kind, i + 1)
      case Some(d) =>
        var inside := i + |Delimiters(kind)[d].0|;
        match Close(text, kind, inside, d)
        case Some(m) => [Span(i, m)] + Outermost(text, kind, m + |Delimiters(kind)[d].1|)
        case None => Outermost(text, kind, NextBreak(text, kind, inside))
  }

  // ---------- the scan with a stack ----------

  /** Innermost last: pair number and opener position. */
  type Stack = seq<(nat, nat)>

  ghost predicate StackOk(kind: MarkerKind, open: Stack) {
    forall k :: 0 <= k < |open| ==> open[k].0 < |Delimiters(kind)|
  }

  /** What the scan still has to report from position `i` with these markers open. */
  ghost function Remaining(text: string, kind: MarkerKind, i: nat, open: Stack): seq<Span>
    requires i <= |text| && StackOk(kind, open)
    decreases |open|
  {
    if open == [] then Outermost(text, kind, i)
    else
      var (d, start) := open[|open| - 1];
      match Close(text, kind, i, d)
      case None => Outermost(text, kind, NextBreak(text, kind, i))
      case Some(m) =>
        var after := m + |Delimiters(kind)[d].1|;
        if |open| == 1 then [Span(start, m)] + Outermost(text, kind, after)
        else Remaining(text, kind, after, open[..|open| - 1])
  }

  /** Delimiters hold no breaking character. */
  lemma DelimitersDoNotBreak(text: string, kind: MarkerKind, i: nat, d: nat)
    requires d < |Delimiters(kind)| && StartsWith(text, i, Delimiters(kind)[d].0)
    ensures forall k :: i <= k < i + |Delimiters(kind)[d].0| ==> !ClosesAll(kind, text[k])
    ensures NextBreak(text, kind, i) == NextBreak(text, kind, i + |Delimiters(kind)[d].0|)
  {
    var opener := Delimiters(kind)[d].0;
    forall k | i <= k < i + |opener| ensures !ClosesAll(kind, text[k]) {
      assert text[k] == text[i..i + |opener|][k - i];
    }
    if |opener| == 2 { assert NextBreak(text, kind, i + 1) == NextBreak(text, kind, i + 2); }
  }

  lemma CloseSteps(text: string, kind: MarkerKind, i: nat, d: nat)
    requires d < |Delimiters(kind)| && Close(text, kind, i, d).Some?
    ensures i < |text| && !ClosesAll(kind, text[i])
    ensures StartsWith(text, i, Delimiters(kind)[d].1) ==> Close(text, kind, i, d) == Some(i)
    ensures !StartsWith(text, i, Delimiters(kind)[d].1) ==>
      match Opener(text, kind, i)
      case None => Close(text, kind, i, d) == Close(text, kind, i + 1, d)
      case Some(e) =>
        && Close(text, kind, i + |Delimiters(kind)[e].0|, e).Some?
        && Close(text, kind, i, d)
           == Close(text, kind, Close(text, kind, i + |Delimiters(kind)[e].0|, e).value + |Delimiters(kind)[e].1|, d)
  {
    hide StartsWith, Delimiters, ClosesAll, OpenerFrom, Opener;
  }

  /** A closed marker holds no break, so the next one is the same from inside it as from behind it. */
  lemma {:induction false} ClosedStretch(text: string, kind: MarkerKind, i: nat, d: nat)
    requires d < |Delimiters(kind)| && Close(text, kind, i, d).Some?
    ensures i <= Close(text, kind, i, d).value + |Delimiters(kind)[d].1| <= |text|
    ensures NextBreak(text, kind, i) == NextBreak(text, kind, Close(text, kind, i, d).value + |Delimiters(kind)[d].1|)
    decreases |text| - i
  {
    hide StartsWith, Delimiters, ClosesAll, OpenerFrom, Opener, NextBreak, Close;
    CloseSteps(text, kind, i, d);
    if StartsWith(text, i, Delimiters(kind)[d].1) {
      CloserDoesNotBreak(text, kind, i, d);
    } else {
      match Opener(text, kind, i)
      case None =>
        ClosedStretch(text, kind, i + 1, d);
      case Some(e) =>
        OpenerFits(text, kind, i, e);
        DelimitersDoNotBreak(text, kind, i, e);
        DelimiterSize(kind, e);
        ClosedStretch(text, kind, i + |Delimiters(kind)[e].0|, e);
        ClosedStretch(text, kind, Close(text, kind, i + |Delimiters(kind)[e].0|, e).value + |Delimiters(kind)[e].1|, d);
    }
  }

  /** What remains once the innermost marker, of pair `d` opened at `start`, is settled. */
  ghost function Settled(text: string, kind: MarkerKind, close: Option<nat>, i: nat, d: nat, start: nat,
      open: Stack): seq<Span>
    requires i <= |text| && StackOk(kind, open) && d < |Delimiters(kind)|
    requires close.Some? ==> close.value + |Delimiters(kind)[d].1| <= |text|
  {
    match close
    case None => Outermost(text, kind, NextBreak(text, kind, i))
    case Some(m) =>
      var after := m + |Delimiters(kind)[d].1|;
      if open == [] then [Span(start, m)] + Outermost(text, kind, after) else Remaining(text, kind, after, open)
  }

  lemma PushedRemaining(text: string, kind: MarkerKind, i: nat, open: Stack, d: nat, start: nat)
    requires i <= |text| && StackOk(kind, open) && d < |Delimiters(kind)|
    ensures StackOk(kind, open + [(d, start)])
    ensures Close(text, kind, i, d).Some? ==> Close(text, kind, i, d).value + |Delimiters(kind)[d].1| <= |text|
    ensures Remaining(text, kind, i, open + [(d, start)])
         == Settled(text, kind, Close(text, kind, i, d), i, d, start, open)
  {
    hide Delimiters, ClosesAll, OpenerFrom, Opener, Outermost, NextBreak, Close;
    var pushed := open + [(d, start)];
    assert pushed[..|pushed| - 1] == open && pushed[|pushed| - 1] == (d, start);
  }

  /** Opening a marker keeps what remains to report. */
  lemma OpenKeepsRemaining(text: string, kind: MarkerKind, i: nat, open: Stack, d: nat)
    requires i < |text| && StackOk(kind, open) && Opener(text, kind, i) == Some(d)
    requires open != [] ==> !ClosesAll(kind, text[i]) && !StartsWith(text, i, Delimiters(kind)[open[|open| - 1].0].1)
    ensures d < |Delimiters(kind)| && StackOk(kind, open + [(d, i)]) && i + |Delimiters(kind)[d].0| <= |text|
    ensures Remaining(text, kind, i + |Delimiters(kind)[d].0|, open + [(d, i)]) == Remaining(text, kind, i, open)
  {
    hide StartsWith, Delimiters, OpenerFrom, ClosesAll, NextBreak, Close, Outermost, Opener, Remaining, Settled;
    OpenerFits(text, kind, i, d);
    PushedRemaining(text, kind, i + |Delimiters(kind)[d].0|, open, d, i);
    if open == [] {
      OpenFirst(text, kind, i, d);
    } else {
      assert open == open[..|open| - 1] + [open[|open| - 1]];
      OpenAbove(text, kind, i, open[..|open| - 1], open[|open| - 1].0, open[|open| - 1].1, d);
    }
  }

  lemma OpenFirst(text: string, kind: MarkerKind, i: nat, d: nat)
    requires i < |text| && Opener(text, kind, i) == Some(d)
    ensures d < |Delimiters(kind)| && i + |Delimiters(kind)[d].0| <= |text|
    ensures Close(text, kind, i + |Delimiters(kind)[d].0|, d).Some? ==>
      Close(text, kind, i + |Delimiters(kind)[d].0|, d).value + |Delimiters(kind)[d].1| <= |text|
    ensures Settled(text, kind, Close(text, kind, i + |Delimiters(kind)[d].0|, d), i + |Delimiters(kind)[d].0|, d, i,
      [])
         == Remaining(text, kind, i, [])
  {
    hide StartsWith, Delimiters, OpenerFrom, ClosesAll, NextBreak, Close, Outermost, Opener;
    OpenerFits(text, kind, i, d);
    OutermostOpens(text, kind, i, d);
    var closer := Close(text, kind, i + |Delimiters(kind)[d].0|, d);
    if closer.Some? { CloserFits(text, kind, closer.value, d); }
  }

  lemma OpenAbove(text: string, kind: MarkerKind, i: nat, below: Stack, e: nat, start: nat, d: nat)
    requires i < |text| && StackOk(kind, below) && e < |Delimiters(kind)| && Opener(text, kind, i) == Some(d)
    requires !ClosesAll(kind, text[i]) && !StartsWith(text, i, Delimiters(kind)[e].1)
    ensures d < |Delimiters(kind)| && i + |Delimiters(kind)[d].0| <= |text|
    ensures StackOk(kind, below + [(e, start)])
    ensures Close(text, kind, i + |Delimiters(kind)[d].0|, d).Some? ==>
      Close(text, kind, i + |Delimiters(kind)[d].0|, d).value + |Delimiters(kind)[d].1| <= |text|
    ensures Settled(text, kind, Close(text, kind, i + |Delimiters(kind)[d].0|, d), i + |Delimiters(kind)[d].0|, d, i,
      below + [(e, start)])
         == Remaining(text, kind, i, below + [(e, start)])
  {
    hide StartsWith, Delimiters, OpenerFrom, ClosesAll, NextBreak, Close, Outermost, Opener, Remaining;
    OpenerFits(text, kind, i, d);
    DelimitersDoNotBreak(text, kind, i, d);
    CloseOpens(text, kind, i, e, d);
    PushedRemaining(text, kind, i, below, e, start);
    var inside := i + |Delimiters(kind)[d].0|;
    match Close(text, kind, inside, d)
    case None =>
    case Some(m) =>
      ClosedStretch(text, kind, inside, d);
      PushedRemaining(text, kind, m + |Delimiters(kind)[d].1|, below, e, start);
  }

  lemma OutermostOpens(text: string, kind: MarkerKind, i: nat, d: nat)
    requires i < |text| && Opener(text, kind, i) == Some(d)
    ensures d < |Delimiters(kind)| && i + |Delimiters(kind)[d].0| <= |text|
    ensures Outermost(text, kind, i)
         == match Close(text, kind, i + |Delimiters(kind)[d].0|, d)
            case Some(m) =>
              (CloserFits(text, kind, m, d);
               [Span(i, m)] + Outermost(text, kind, m + |Delimiters(kind)[d].1|))
            case None => Outermost(text, kind, NextBreak(text, kind, i + |Delimiters(kind)[d].0|))
  {
    hide Delimiters, Close, NextBreak, StartsWith, Opener;
    OpenerFits(text, kind, i, d);
  }

  lemma CloseOpens(text: string, kind: MarkerKind, i: nat, d: nat, e: nat)
    requires i < |text| && d < |Delimiters(kind)| && e < |Delimiters(kind)| && Opener(text, kind, i) == Some(e)
    requires !ClosesAll(kind, text[i]) && !StartsWith(text, i, Delimiters(kind)[d].1)
    ensures Close(text, kind, i, d)
         == match Close(text, kind, i + |Delimiters(kind)[e].0|, e)
            case None => None
            case Some(m) => Close(text, kind, m + |Delimiters(kind)[e].1|, d)
  {
    hide Delimiters, StartsWith, Opener, OpenerFrom, ClosesAll, Close;
    match Close(text, kind, i + |Delimiters(kind)[e].0|, e)
    case None => CloseOpensOpen(text, kind, i, d, e);
    case Some(m) => CloseOpensClosed(text, kind, i, d, e, m, Close(text, kind, m + |Delimiters(kind)[e].1|, d));
  }

  lemma CloseOpensOpen(text: string, kind: MarkerKind, i: nat, d: nat, e: nat)
    requires i < |text| && d < |Delimiters(kind)| && e < |Delimiters(kind)| && Opener(text, kind, i) == Some(e)
    requires !ClosesAll(kind, text[i]) && !StartsWith(text, i, Delimiters(kind)[d].1)
    requires Close(text, kind, i + |Delimiters(kind)[e].0|, e) == None
    ensures Close(text, kind, i, d) == None
  {
    hide Delimiters, StartsWith, Opener, OpenerFrom, ClosesAll;
  }

  lemma {:induction false} CloseOpensClosed(text: string, kind: MarkerKind, i: nat, d: nat, e: nat, m: nat,
                                            r: Option<nat>)
    requires i < |text| && d < |Delimiters(kind)| && e < |Delimiters(kind)| && Opener(text, kind, i) == Some(e)
    requires !ClosesAll(kind, text[i]) && !StartsWith(text, i, Delimiters(kind)[d].1)
    requires Close(text, kind, i + |Delimiters(kind)[e].0|, e) == Some(m)
    requires Close(text, kind, m + |Delimiters(kind)[e].1|, d) == r
    ensures Close(text, kind, i, d) == r
  {
    hide Delimiters, StartsWith, Opener, OpenerFrom, ClosesAll;
  }

  /** So does closing the innermost marker, but for the one reported. */
  lemma CloseKeepsRemaining(text: string, kind: MarkerKind, i: nat, open: Stack)
    requires i < |text| && StackOk(kind, open) && open != [] && !ClosesAll(kind, text[i])
    requires StartsWith(text, i, Delimiters(kind)[open[|open| - 1].0].1)
    ensures i + |Delimiters(kind)[open[|open| - 1].0].1| <= |text|
    ensures Remaining(text, kind, i, open)
         == (if |open| == 1 then [Span(open[0].1, i)] else [])
            + Remaining(text, kind, i + |Delimiters(kind)[open[|open| - 1].0].1|, open[..|open| - 1])
  {
    hide StartsWith, Delimiters, OpenerFrom, ClosesAll;
    CloserFits(text, kind, i, open[|open| - 1].0);
  }

  /** A break drops every open marker. */
  lemma BreakKeepsRemaining(text: string, kind: MarkerKind, i: nat, open: Stack)
    requires i < |text| && StackOk(kind, open) && ClosesAll(kind, text[i])
    ensures Remaining(text, kind, i, open) == Remaining(text, kind, i, [])
  {
    hide StartsWith, Delimiters, OpenerFrom, ClosesAll;
  }

  /** Any other character is passed over. */
  lemma PassKeepsRemaining(text: string, kind: MarkerKind, i: nat, open: Stack)
    requires i < |text| && StackOk(kind, open) && Opener(text, kind, i) == None
    requires open != [] ==> !ClosesAll(kind, text[i]) && !StartsWith(text, i, Delimiters(kind)[open[|open| - 1].0].1)
    ensures Remaining(text, kind, i, open) == Remaining(text, kind, i + 1, open)
  {
    hide StartsWith, Delimiters, OpenerFrom, ClosesAll;
  }

  method MarkerSpans(text: string, kind: MarkerKind, work: nat) returns (spans: seq<Span>, work': nat)
    ensures spans == Outermost(text, kind, 0)
    ensures work <= work' <= work + 2 * |text|
    ensures (exists i :: 0 <= i < |text| && Opener(text, kind, i).Some?) ==> |text| <= 2 * (work' - work)
  {
    hide StartsWith, Delimiters, Remaining, Outermost, ClosesAll, Opener;
    spans, work' := [], work;
    if !exists i | 0 <= i < |text| :: Opener(text, kind, i).Some? {
      NoOpenerNoMarker(text, kind, 0);
      return;
    }
    var open: Stack := [];
    var index: nat := 0;
    NothingOpenYet(text, kind, 0);
    while index < |text|
      invariant index <= |text| && StackOk(kind, open)
      invariant spans + Remaining(text, kind, index, open) == Outermost(text, kind, 0)
      invariant work <= work' && work' + |open| <= work + 2 * index && index <= 2 * (work' - work)
      decreases |text| - index
    {
      work' := work' + 1;
      if ClosesAll(kind, text[index]) {
        BreakKeepsRemaining(text, kind, index, open);
        work' := work' + |open|;
        open := [];
      }
      if open != [] && StartsWith(text, index, Delimiters(kind)[open[|open| - 1].0].1) {
        CloseKeepsRemaining(text, kind, index, open);
        DelimiterSize(kind, open[|open| - 1].0);
        var (d, start) := open[|open| - 1];
        open := open[..|open| - 1];
        if open == [] {
          spans := spans + [Span(start, index)];
        }
        index := index + |Delimiters(kind)[d].1|;
        continue;
      }
      var opener := Opener(text, kind, index);
      if opener.Some? {
        OpenKeepsRemaining(text, kind, index, open, opener.value);
        DelimiterSize(kind, opener.value);
        open := open + [(opener.value, index)];
        index := index + |Delimiters(kind)[opener.value].0|;
        continue;
      }
      PassKeepsRemaining(text, kind, index, open);
      index := index + 1;
    }
    NothingRemains(text, kind, open);
  }

  lemma DelimiterSize(kind: MarkerKind, d: nat)
    requires d < |Delimiters(kind)|
    ensures 1 <= |Delimiters(kind)[d].0| <= 2 && 1 <= |Delimiters(kind)[d].1| <= 2
  {
  }

  lemma NothingOpenYet(text: string, kind: MarkerKind, i: nat)
    requires i <= |text|
    ensures Remaining(text, kind, i, []) == Outermost(text, kind, i)
  {
  }

  lemma CloserFits(text: string, kind: MarkerKind, i: nat, d: nat)
    requires d < |Delimiters(kind)| && StartsWith(text, i, Delimiters(kind)[d].1)
    ensures i + |Delimiters(kind)[d].1| <= |text|
  {
  }

  lemma NothingRemains(text: string, kind: MarkerKind, open: Stack)
    requires StackOk(kind, open)
    ensures Remaining(text, kind, |text|, open) == []
  {
  }

  lemma {:induction false} NoOpenerNoMarker(text: string, kind: MarkerKind, i: nat)
    requires i <= |text| && forall k :: 0 <= k < |text| ==> Opener(text, kind, k).None?
    ensures Outermost(text, kind, i) == []
    decreases |text| - i
  {
    if i < |text| { NoOpenerNoMarker(text, kind, i + 1); }
  }

  // ---------- sorted, disjoint, balanced ----------

  /** Content `text[i..j]` of a marker of pair `d`: nothing breaks, the pair's own closer does not
      stand in it, and every opener is closed there by its own closer around balanced content. */
  ghost predicate Balanced(text: string, kind: MarkerKind, d: nat, i: nat, j: nat)
    requires d < |Delimiters(kind)| && j <= |text|
    decreases j - i
  {
    || i == j
    || (i < j && !ClosesAll(kind, text[i]) && !StartsWith(text, i, Delimiters(kind)[d].1) &&
         match Opener(text, kind, i)
         case None => Balanced(text, kind, d, i + 1, j)
         case Some(e) =>
           exists m: nat :: Closes(text, kind, i, e, m, j)
             && Balanced(text, kind, e, i + |Delimiters(kind)[e].0|, m)
             && Balanced(text, kind, d, m + |Delimiters(kind)[e].1|, j))
  }

  ghost predicate Closes(text: string, kind: MarkerKind, i: nat, e: nat, m: nat, j: nat) {
    && e < |Delimiters(kind)| && i + |Delimiters(kind)[e].0| <= m
    && m + |Delimiters(kind)[e].1| <= j && StartsWith(text, m, Delimiters(kind)[e].1)
  }

  lemma {:induction false} CloseIsBalanced(text: string, kind: MarkerKind, i: nat, d: nat)
    requires d < |Delimiters(kind)| && Close(text, kind, i, d).Some?
    ensures Close(text, kind, i, d).value <= |text|
    ensures Balanced(text, kind, d, i, Close(text, kind, i, d).value)
    decreases |text| - i
  {
    hide StartsWith, Delimiters, OpenerFrom;
    var j := Close(text, kind, i, d).value;
    CloserFits(text, kind, j, d);
    if !StartsWith(text, i, Delimiters(kind)[d].1) {
      match Opener(text, kind, i)
      case None => CloseIsBalanced(text, kind, i + 1, d);
      case Some(e) =>
        var m := Close(text, kind, i + |Delimiters(kind)[e].0|, e).value;
        CloseIsBalanced(text, kind, i + |Delimiters(kind)[e].0|, e);
        CloserFits(text, kind, m, e);
        CloseIsBalanced(text, kind, m + |Delimiters(kind)[e].1|, d);
        assert Closes(text, kind, i, e, m, j);
    }
  }

  /** An opener and its closer of the same pair, with balanced content between. */
  ghost predicate IsMarker(text: string, kind: MarkerKind, s: Span) {
    exists d :: 0 <= d < |Delimiters(kind)|
      && Opener(text, kind, s.start) == Some(d)
      && s.start + |Delimiters(kind)[d].0| <= s.end
      && StartsWith(text, s.end, Delimiters(kind)[d].1)
      && s.end <= |text| && Balanced(text, kind, d, s.start + |Delimiters(kind)[d].0|, s.end)
  }

  ghost predicate SortedDisjoint(spans: seq<Span>) {
    && (forall k :: 0 <= k < |spans| ==> spans[k].start < spans[k].end)
    && (forall j, k :: 0 <= j < k < |spans| ==> spans[j].end < spans[k].start)
  }

  /** The markers are sorted and disjoint, each an opener and its closer around balanced content. */
  lemma {:induction false} OutermostAreMarkers(text: string, kind: MarkerKind, i: nat)
    requires i <= |text|
    ensures SortedDisjoint(Outermost(text, kind, i))
    ensures AreMarkers(text, kind, i, Outermost(text, kind, i))
    decreases |text| - i
  {
    hide StartsWith, Delimiters, Opener, OpenerFrom, ClosesAll, Balanced, IsMarker, Close, NextBreak, SortedDisjoint,
      AreMarkers;
    if i < |text| {
      match Opener(text, kind, i)
      case None =>
        OutermostAreMarkers(text, kind, i + 1);
        LaterMarkers(text, kind, i + 1, i);
      case Some(d) =>
        OpenerFits(text, kind, i, d);
        DelimiterSize(kind, d);
        var inside := i + |Delimiters(kind)[d].0|;
        match Close(text, kind, inside, d)
        case None =>
          OutermostAreMarkers(text, kind, NextBreak(text, kind, inside));
          LaterMarkers(text, kind, NextBreak(text, kind, inside), i);
        case Some(m) =>
          CloserFits(text, kind, m, d);
          CloseIsBalanced(text, kind, inside, d);
          var after := m + |Delimiters(kind)[d].1|;
          OutermostAreMarkers(text, kind, after);
          MarkerMade(text, kind, i, d, m);
          MarkerBefore(text, kind, Span(i, m), after, Outermost(text, kind, after));
    } else {
      NoneSorted(text, kind, i);
    }
  }

  ghost predicate AreMarkers(text: string, kind: MarkerKind, from: nat, spans: seq<Span>) {
    forall s :: s in spans ==> from <= s.start && IsMarker(text, kind, s)
  }

  lemma LaterMarkers(text: string, kind: MarkerKind, j: nat, i: nat)
    requires i <= j <= |text| && AreMarkers(text, kind, j, Outermost(text, kind, j))
    ensures AreMarkers(text, kind, i, Outermost(text, kind, j))
  {
    hide IsMarker, Outermost;
  }

  lemma NoneSorted(text: string, kind: MarkerKind, i: nat)
    ensures SortedDisjoint([]) && AreMarkers(text, kind, i, [])
  {
  }

  lemma MarkerBefore(text: string, kind: MarkerKind, s: Span, after: nat, rest: seq<Span>)
    requires s.start < s.end < after && IsMarker(text, kind, s) && SortedDisjoint(rest)
      && AreMarkers(text, kind, after, rest)
    ensures SortedDisjoint([s] + rest) && AreMarkers(text, kind, s.start, [s] + rest)
  {
    hide IsMarker;
    assert forall k :: 0 <= k < |rest| ==> rest[k] in rest;
  }

  lemma OpenerFits(text: string, kind: MarkerKind, i: nat, d: nat)
    requires Opener(text, kind, i) == Some(d)
    ensures d < |Delimiters(kind)| && i + |Delimiters(kind)[d].0| <= |text|
    ensures StartsWith(text, i, Delimiters(kind)[d].0)
  {
  }

  lemma MarkerMade(text: string, kind: MarkerKind, i: nat, d: nat, m: nat)
    requires d < |Delimiters(kind)| && Opener(text, kind, i) == Some(d) && i + |Delimiters(kind)[d].0| <= m <= |text|
    requires StartsWith(text, m, Delimiters(kind)[d].1) && Balanced(text, kind, d, i + |Delimiters(kind)[d].0|, m)
    ensures IsMarker(text, kind, Span(i, m)) && i < m
  {
  }

  lemma CloserDoesNotBreak(text: string, kind: MarkerKind, i: nat, d: nat)
    requires d < |Delimiters(kind)| && StartsWith(text, i, Delimiters(kind)[d].1)
    ensures i + |Delimiters(kind)[d].1| <= |text|
    ensures forall k :: i <= k < i + |Delimiters(kind)[d].1| ==> !ClosesAll(kind, text[k])
  {
    var closer := Delimiters(kind)[d].1;
    forall k | i <= k < i + |closer| ensures !ClosesAll(kind, text[k]) {
      assert text[k] == text[i..i + |closer|][k - i];
    }
  }

  /** Balanced content holds no breaking character. */
  lemma {:induction false} BalancedDoesNotBreak(text: string, kind: MarkerKind, d: nat, i: nat, j: nat, k: nat)
    requires d < |Delimiters(kind)| && i <= k < j <= |text| && Balanced(text, kind, d, i, j)
    ensures !ClosesAll(kind, text[k])
    decreases j - i
  {
    hide StartsWith, Delimiters, ClosesAll, Opener;
    if k != i {
      match Opener(text, kind, i)
      case None => BalancedDoesNotBreak(text, kind, d, i + 1, j, k);
      case Some(e) =>
        OpenerFits(text, kind, i, e);
        DelimitersDoNotBreak(text, kind, i, e);
        var m: nat :| Closes(text, kind, i, e, m, j)
          && Balanced(text, kind, e, i + |Delimiters(kind)[e].0|, m)
          && Balanced(text, kind, d, m + |Delimiters(kind)[e].1|, j);
        CloserDoesNotBreak(text, kind, m, e);
        DelimiterSize(kind, e);
        if i + |Delimiters(kind)[e].0| <= k < m {
          BalancedDoesNotBreak(text, kind, e, i + |Delimiters(kind)[e].0|, m, k);
        } else if m + |Delimiters(kind)[e].1| <= k {
          BalancedDoesNotBreak(text, kind, d, m + |Delimiters(kind)[e].1|, j, k);
        }
    }
  }

  // ---------- opaque markers are the excursions of the nesting depth ----------

  const OPEN := '\U{27E6}'
  const CLOSE := '\U{27E7}'

  /** Nesting depth before character `k`, never below zero, reset by whitespace. */
  function Depth(text: string, k: nat): nat
    requires k <= |text|
  {
    if k == 0 || IsWhitespace(text[k - 1]) then 0
    else if text[k - 1] == OPEN then Depth(text, k - 1) + 1
    else if text[k - 1] == CLOSE then Max(Depth(text, k - 1) - 1, 0)
    else Depth(text, k - 1)
  }

  /** The depth leaves zero at `start` and first returns to it with the closer at `end`. */
  ghost predicate Excursion(text: string, start: nat, end: nat) {
    && start < end < |text|
    && text[start] == OPEN && Depth(text, start) == 0
    && text[end] == CLOSE && Depth(text, end + 1) == 0
    && forall k :: start < k <= end ==> Depth(text, k) > 0
  }

  lemma OpaqueDelimiter(text: string, i: nat)
    requires i < |text|
    ensures Opener(text, Opaque, i) == (if text[i] == OPEN then Some(0) else None)
    ensures StartsWith(text, i, Delimiters(Opaque)[0].1) <==> text[i] == CLOSE
    ensures |Delimiters(Opaque)| == 1 && |Delimiters(Opaque)[0].0| == |Delimiters(Opaque)[0].1| == 1
  {
    assert text[i..i + 1] == [text[i]];
    if text[i] != OPEN { assert OpenerFrom(text, Opaque, i, 1) == None; }
  }

  /** The reading inside an opaque marker, and the depth, one character at a time. */
  lemma OpaqueClose(text: string, i: nat)
    requires i <= |text|
    ensures |Delimiters(Opaque)| == 1
    ensures var inner := Close(text, Opaque, i, 0);
            if i == |text| || IsWhitespace(text[i]) then inner == None && NextBreak(text, Opaque, i) == i
            else if text[i] == CLOSE then inner == Some(i)
            else if text[i] != OPEN then inner == Close(text, Opaque, i + 1, 0)
            else inner == match Close(text, Opaque, i + 1, 0)
                          case None => None
                          case Some(m) => Close(text, Opaque, m + 1, 0)
    ensures i < |text| && !IsWhitespace(text[i]) ==> NextBreak(text, Opaque, i) == NextBreak(text, Opaque, i + 1)
  {
    hide StartsWith, Opener, IsWhitespace;
    if i < |text| { OpaqueDelimiter(text, i); }
  }

  lemma OpaqueStretch(text: string, i: nat)
    requires |Delimiters(Opaque)| == 1 && Close(text, Opaque, i, 0).Some?
    ensures i <= Close(text, Opaque, i, 0).value < |text|
    ensures NextBreak(text, Opaque, i) == NextBreak(text, Opaque, Close(text, Opaque, i, 0).value + 1)
  {
    ClosedStretch(text, Opaque, i, 0);
  }

  lemma DepthStep(text: string, i: nat)
    requires i < |text|
    ensures Depth(text, i + 1)
         == if IsWhitespace(text[i]) then 0
            else if text[i] == OPEN then Depth(text, i) + 1
            else if text[i] == CLOSE then Max(Depth(text, i) - 1, 0)
            else Depth(text, i)
  {
  }

  /** Inside an opaque marker at depth `n`: the matching closer is where the depth first drops below
      `n`; without one, the depth stays at `n` or above until whitespace or the end. */
  lemma {:induction false} CloseIsDrop(text: string, i: nat, n: nat)
    requires i <= |text| && n > 0 && Depth(text, i) == n && |Delimiters(Opaque)| == 1
    ensures match Close(text, Opaque, i, 0)
            case Some(m) =>
              && i <= m < |text| && text[m] == CLOSE && Depth(text, m + 1) == n - 1
              && forall k :: i <= k <= m ==> Depth(text, k) >= n
            case None => forall k :: i <= k <= NextBreak(text, Opaque, i) ==> Depth(text, k) >= n
    decreases |text| - i
  {
    hide Delimiters, IsWhitespace, NextBreak, Close, Depth;
    OpaqueClose(text, i);
    if i < |text| && !IsWhitespace(text[i]) {
      DepthStep(text, i);
      if text[i] == OPEN {
        CloseIsDrop(text, i + 1, n + 1);
        if Close(text, Opaque, i + 1, 0).Some? {
          OpaqueStretch(text, i + 1);
          CloseIsDrop(text, Close(text, Opaque, i + 1, 0).value + 1, n);
        }
      } else if text[i] != CLOSE {
        CloseIsDrop(text, i + 1, n);
      }
    }
  }

  lemma BracketsAreNotSpace()
    ensures !IsWhitespace(OPEN) && !IsWhitespace(CLOSE)
  {
  }

  lemma {:induction false} OutermostAreExcursions(text: string, i: nat, s: Span)
    requires i <= |text| && Depth(text, i) == 0
    ensures s in Outermost(text, Opaque, i) <==> i <= s.start && Excursion(text, s.start, s.end)
    decreases |text| - i
  {
    hide StartsWith, Delimiters, Opener, OpenerFrom, Close, NextBreak, Outermost, Excursion, IsWhitespace, Depth;
    OpaquePasses(text, i);
    if i == |text| {
      NoneStartsHere(text, i, s);
    } else {
      OpaqueDelimiter(text, i);
      if text[i] != OPEN {
        DepthStays(text, i);
        NoneStartsHere(text, i, s);
        OutermostAreExcursions(text, i + 1, s);
      } else {
        DepthStep(text, i);
        BracketsAreNotSpace();
        OutermostOpens(text, Opaque, i, 0);
        CloseIsDrop(text, i + 1, 1);
        match Close(text, Opaque, i + 1, 0)
        case Some(m) =>
          OutermostAreExcursions(text, m + 1, s);
          ExcursionMade(text, i, m);
          ExcursionUnique(text, i, m, s);
        case None =>
          var b := NextBreak(text, Opaque, i + 1);
          NoExcursion(text, i, b, s);
          OpaquePasses(text, b);
          if b == |text| {
            NoneStartsHere(text, b, s);
          } else {
            BreakResets(text, b);
            OutermostAreExcursions(text, b + 1, s);
          }
      }
    }
  }

  lemma OpaquePasses(text: string, i: nat)
    requires i <= |text|
    ensures i == |text| ==> Outermost(text, Opaque, i) == []
    ensures i < |text| && text[i] != OPEN ==> Outermost(text, Opaque, i) == Outermost(text, Opaque, i + 1)
  {
    if i < |text| { OpaqueDelimiter(text, i); }
  }

  lemma ExcursionMade(text: string, i: nat, m: nat)
    requires i < m < |text| && text[i] == OPEN && Depth(text, i) == 0 && text[m] == CLOSE && Depth(text, m + 1) == 0
    requires forall k :: i + 1 <= k <= m ==> Depth(text, k) >= 1
    ensures Excursion(text, i, m)
  {
  }

  lemma DepthStays(text: string, i: nat)
    requires i < |text| && Depth(text, i) == 0 && text[i] != OPEN
    ensures Depth(text, i + 1) == 0
  {
  }

  lemma NoneStartsHere(text: string, i: nat, s: Span)
    requires i <= |text| && (i < |text| ==> text[i] != OPEN)
    ensures i <= s.start && Excursion(text, s.start, s.end) ==> i + 1 <= s.start
    ensures i == |text| && i <= s.start ==> !Excursion(text, s.start, s.end)
  {
  }

  /** After a break nothing is open, and the break itself opens nothing. */
  lemma BreakResets(text: string, b: nat)
    requires b < |text| && ClosesAll(Opaque, text[b])
    ensures Depth(text, b + 1) == 0
    ensures Outermost(text, Opaque, b) == Outermost(text, Opaque, b + 1)
  {
    OpaqueDelimiter(text, b);
  }

  /** Excursions from `i` on are the one that starts at `i` and those after its end. */
  lemma ExcursionUnique(text: string, i: nat, m: nat, s: Span)
    requires Excursion(text, i, m)
    ensures i <= s.start && Excursion(text, s.start, s.end) <==>
      s == Span(i, m) || (m + 1 <= s.start && Excursion(text, s.start, s.end))
  {
    if i <= s.start && Excursion(text, s.start, s.end) {
      assert Depth(text, m + 1) == 0 && Depth(text, s.end + 1) == 0;
    }
  }

  lemma NoExcursion(text: string, i: nat, b: nat, s: Span)
    requires i < b <= |text| && text[i] == OPEN
    requires b < |text| ==> IsWhitespace(text[b])
    requires forall k :: i < k <= b ==> Depth(text, k) > 0
    ensures i <= s.start && Excursion(text, s.start, s.end) ==> b + 1 <= s.start
  {
    if b < |text| {
      assert Depth(text, b + 1) == 0 && text[b] != CLOSE;
    }
  }

  /** The opaque markers are exactly the excursions of the depth from zero back to zero. */
  lemma OpaqueMarkersAreExcursions(text: string, s: Span)
    ensures s in Outermost(text, Opaque, 0) <==> Excursion(text, s.start, s.end)
  {
    OutermostAreExcursions(text, 0, s);
  }

  // ---------- both kinds, and the lookup ----------

  datatype MarkerSets = MarkerSets(opaqueSpans: seq<Span>, templateSpans: seq<Span>)

  method FindMarkers(text: string) returns (found: MarkerSets, work: nat)
    ensures found == MarkerSets(Outermost(text, Opaque, 0), Outermost(text, Template, 0))
    ensures work <= 4 * |text|
  {
    var opaqueSpans, w := MarkerSpans(text, Opaque, 0);
    var templateSpans;
    templateSpans, work := MarkerSpans(text, Template, w);
    found := MarkerSets(opaqueSpans, templateSpans);
  }

  /** Looks only at the last span that opens before `start`. */
  function Encloses(spans: seq<Span>, start: nat, end: nat): bool {
    var openedBefore := PartitionPoint(spans, (s: Span) => s.start < start);
    openedBefore > 0 && spans[openedBefore - 1].end >= end
  }

  lemma OneBefore(spans: seq<Span>, i: nat, n: nat, start: nat)
    requires SortedDisjoint(spans) && i < n <= |spans| && spans[n - 1].start < start
    ensures i == n - 1 || spans[i].end < start
  {
  }

  /** The binary search answers the same as a scan of every span. */
  lemma EnclosesIsScan(spans: seq<Span>, start: nat, end: nat)
    requires SortedDisjoint(spans) && start <= end
    ensures Encloses(spans, start, end) <==> exists s :: s in spans && s.start < start && end <= s.end
  {
    hide PartitionPoint;
    var n := PartitionPoint(spans, (s: Span) => s.start < start);
    if exists s :: s in spans && s.start < start && end <= s.end {
      var s :| s in spans && s.start < start && end <= s.end;
      var i :| 0 <= i < |spans| && spans[i] == s;
      assert n < |spans| ==> forall j :: n <= j < |spans| ==> spans[n].start <= spans[j].start;
      assert i < n;
      OneBefore(spans, i, n, start);
    }
    if Encloses(spans, start, end) {
      assert spans[n - 1] in spans;
    }
  }

  /** The strongest kind of marker around `start..end`. */
  function MarkerKindAt(found: MarkerSets, start: nat, end: nat): Option<MarkerKind> {
    if Encloses(found.opaqueSpans, start, end) then Some(Opaque)
    else if Encloses(found.templateSpans, start, end) then Some(Template)
    else None
  }

  ghost predicate InsideMarker(text: string, kind: MarkerKind, start: nat, end: nat) {
    exists s :: s in Outermost(text, kind, 0) && s.start < start && end <= s.end
  }

  /** A span inside an opaque marker is opaque whatever template surrounds it. */
  lemma OpaqueWins(text: string, start: nat, end: nat)
    requires start <= end
    ensures MarkerKindAt(MarkerSets(Outermost(text, Opaque, 0), Outermost(text, Template, 0)), start, end)
         == if InsideMarker(text, Opaque, start, end) then Some(Opaque)
            else if InsideMarker(text, Template, start, end) then Some(Template) else None
  {
    hide Encloses, Outermost, IsMarker;
    OutermostAreMarkers(text, Opaque, 0);
    OutermostAreMarkers(text, Template, 0);
    EnclosesIsScan(Outermost(text, Opaque, 0), start, end);
    EnclosesIsScan(Outermost(text, Template, 0), start, end);
  }
}

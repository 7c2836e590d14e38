/**
  Which balanced pairs the marker scan reports, said without the scan: those that overlap no
  marker begun earlier and have no opener left unclosed before them on the same stretch of text.
 */
module ReportedMarkers {
  import opened Common
  import opened Text
  import opened SpanIndexes
  import opened Markers

  // ---------- the matching closer, without recursion on the reading ----------

  lemma {:induction false} BalancedCloses(text: string, kind: MarkerKind, i: nat, d: nat, m: nat)
    requires d < |Delimiters(kind)| && i <= m <= |text| && StartsWith(text, m, Delimiters(kind)[d].1)
    requires Balanced(text, kind, d, i, m)
    ensures Close(text, kind, i, d) == Some(m)
    decreases m - i
  {
    hide StartsWith, Delimiters, ClosesAll, OpenerFrom, Opener, Close;
    CloserDoesNotBreak(text, kind, m, d);
    DelimiterSize(kind, d);
    if i == m {
      ClosesHere(text, kind, i, d);
    } else {
      match Opener(text, kind, i)
      case None =>
        BalancedCloses(text, kind, i + 1, d, m);
        ClosePasses(text, kind, i, d);
      case Some(e) =>
        OpenerFits(text, kind, i, e);
        DelimiterSize(kind, e);
        var n: nat :| Closes(text, kind, i, e, n, m)
          && Balanced(text, kind, e, i + |Delimiters(kind)[e].0|, n)
          && Balanced(text, kind, d, n + |Delimiters(kind)[e].1|, m);
        BalancedCloses(text, kind, i + |Delimiters(kind)[e].0|, e, n);
        BalancedCloses(text, kind, n + |Delimiters(kind)[e].1|, d, m);
        CloseOpens(text, kind, i, d, e);
    }
  }

  lemma ClosesHere(text: string, kind: MarkerKind, i: nat, d: nat)
    requires d < |Delimiters(kind)| && i < |text| && !ClosesAll(kind, text[i])
    requires StartsWith(text, i, Delimiters(kind)[d].1)
    ensures Close(text, kind, i, d) == Some(i)
  {
    hide StartsWith, Delimiters, ClosesAll, Opener;
  }

  lemma ClosePasses(text: string, kind: MarkerKind, i: nat, d: nat)
    requires d < |Delimiters(kind)| && i < |text| && !ClosesAll(kind, text[i])
    requires !StartsWith(text, i, Delimiters(kind)[d].1) && Opener(text, kind, i) == None
    ensures Close(text, kind, i, d) == Close(text, kind, i + 1, d)
  {
    hide StartsWith, Delimiters, ClosesAll, Opener;
  }

  /** The reading finds exactly the closer behind balanced content. */
  lemma CloseIsExact(text: string, kind: MarkerKind, i: nat, d: nat, m: nat)
    requires d < |Delimiters(kind)|
    ensures Close(text, kind, i, d) == Some(m) <==>
      i <= m <= |text| && StartsWith(text, m, Delimiters(kind)[d].1) && Balanced(text, kind, d, i, m)
  {
    hide StartsWith, Delimiters, ClosesAll, Opener, Close, Balanced;
    if Close(text, kind, i, d) == Some(m) { CloseIsBalanced(text, kind, i, d); }
    if i <= m <= |text| && StartsWith(text, m, Delimiters(kind)[d].1) && Balanced(text, kind, d, i, m) {
      BalancedCloses(text, kind, i, d, m);
    }
  }

  /** A marker has one end: the closer found from its opener. */
  lemma MarkerCloses(text: string, kind: MarkerKind, s: Span)
    ensures IsMarker(text, kind, s) <==> ClosedAt(text, kind, s.start) == Some(s.end)
  {
    hide StartsWith, Delimiters, ClosesAll, Opener, Close, Balanced;
    match Opener(text, kind, s.start)
    case None =>
    case Some(d) =>
      OpenerFits(text, kind, s.start, d);
      CloseIsExact(text, kind, s.start + |Delimiters(kind)[d].0|, d, s.end);
  }

  /** The closer of the opener at `i`, if one stands there and is closed. */
  ghost function ClosedAt(text: string, kind: MarkerKind, i: nat): Option<nat> {
    match Opener(text, kind, i)
    case None => None
    case Some(d) => (OpenerFits(text, kind, i, d); Close(text, kind, i + |Delimiters(kind)[d].0|, d))
  }

  // ---------- openers that overlap ----------

  /** The character a template pair's opener doubles. */
  function OpenChar(d: nat): char { if d == 0 then '<' else if d == 1 then '{' else '[' }

  lemma TemplateDelimiters(text: string, i: nat)
    ensures |Delimiters(Template)| == 3
    ensures forall d :: 0 <= d < 3 ==> |Delimiters(Template)[d].0| == 2 && |Delimiters(Template)[d].1| == 2
    ensures forall d: nat :: Opener(text, Template, i) == Some(d) <==>
      d < 3 && i + 1 < |text| && text[i] == text[i + 1] == OpenChar(d)
    ensures forall d: nat :: d < 3 && StartsWith(text, i, Delimiters(Template)[d].1) ==>
      i + 1 < |text| && text[i] !in ['<', '{', '['] && text[i + 1] !in ['<', '{', '[']
  {
    if i + 1 < |text| { assert text[i..i + 2] == [text[i], text[i + 1]]; }
    assert OpenerFrom(text, Template, i, 1) == if StartsWith(text, i, "{{") then Some(1)
      else OpenerFrom(text, Template, i, 2);
    assert OpenerFrom(text, Template, i, 2) == if StartsWith(text, i, "[[") then Some(2) else None;
  }

  /** Where three of an opener's characters run on, reading from the second of them meets the same
      closer as reading from the first, or the closer before it. */
  lemma {:induction false} Misaligned(text: string, q: nat, d: nat)
    requires |Delimiters(Template)| == 3 && d < 3 && q < |text| && text[q] == OpenChar(d)
    requires Close(text, Template, q, d).Some?
    ensures var z := Close(text, Template, q + 1, d);
            z.Some? && (z == Close(text, Template, q, d)
              || Close(text, Template, z.value + 2, d) == Close(text, Template, q, d))
    decreases |text| - q
  {
    hide StartsWith, Delimiters, ClosesAll, OpenerFrom, Opener, Close;
    TemplateDelimiters(text, q);
    TemplateDelimiters(text, q + 1);
    CloseSteps(text, Template, q, d);
    if q + 1 < |text| && text[q + 1] == OpenChar(d) {
      var y := Close(text, Template, q + 2, d).value;
      CloseSteps(text, Template, q + 2, d);
      OpenCharDoesNotBreak(d);
      if text[q + 2] == OpenChar(d) {
        Misaligned(text, q + 2, d);
        CloseOpens(text, Template, q + 1, d, d);
      } else {
        ClosePasses(text, Template, q + 1, d);
      }
    }
  }

  lemma OpenCharDoesNotBreak(d: nat)
    ensures !ClosesAll(Template, OpenChar(d))
  {
  }

  /** An opener is closed before the marker it begins in is, whether it begins in the content or
      on the second character of the marker's own opener. */
  lemma {:induction false} InnerCloses(text: string, kind: MarkerKind, i: nat, a: nat)
    requires ClosedAt(text, kind, i).Some? && Opener(text, kind, i).value < |Delimiters(kind)|
    requires i <= a < ClosedAt(text, kind, i).value + |Delimiters(kind)[Opener(text, kind, i).value].1|
    requires Opener(text, kind, a).Some?
    ensures ClosedAt(text, kind, a).Some? && ClosedAt(text, kind, a).value <= ClosedAt(text, kind, i).value
    decreases |text| - i, 0
  {
    hide StartsWith, Delimiters, ClosesAll, OpenerFrom, Opener, Close;
    var d := Opener(text, kind, i).value;
    OpenerFits(text, kind, i, d);
    DelimiterSize(kind, d);
    if a != i {
      if i + |Delimiters(kind)[d].0| <= a {
        ContentCloses(text, kind, i + |Delimiters(kind)[d].0|, d, a);
      } else {
        SecondCharacterCloses(text, kind, i, a);
      }
    }
  }

  lemma SecondCharacterCloses(text: string, kind: MarkerKind, i: nat, a: nat)
    requires ClosedAt(text, kind, i).Some? && Opener(text, kind, i).value < |Delimiters(kind)|
    requires i < a < i + |Delimiters(kind)[Opener(text, kind, i).value].0| && Opener(text, kind, a).Some?
    ensures ClosedAt(text, kind, a).Some? && ClosedAt(text, kind, a).value <= ClosedAt(text, kind, i).value
  {
    hide StartsWith, ClosesAll, OpenerFrom, Opener, Close;
    if kind == Template {
      var d := Opener(text, kind, i).value;
      hide Delimiters;
      TemplateDelimiters(text, i);
      TemplateDelimiters(text, a);
      assert a == i + 1 && Opener(text, kind, a).value == d;
      Misaligned(text, i + 2, d);
    }
  }

  lemma NoOpenerInCloser(text: string, kind: MarkerKind, m: nat, d: nat, a: nat)
    requires d < |Delimiters(kind)| && StartsWith(text, m, Delimiters(kind)[d].1)
      && m <= a < m + |Delimiters(kind)[d].1|
    ensures Opener(text, kind, a) == None
  {
    hide StartsWith, OpenerFrom, Opener;
    match kind
    case Opaque =>
      CloserFits(text, kind, m, d);
      OpaqueDelimiter(text, m);
    case Template =>
      TemplateDelimiters(text, m);
      TemplateDelimiters(text, a);
  }

  lemma {:induction false} ContentCloses(text: string, kind: MarkerKind, i: nat, d: nat, a: nat)
    requires d < |Delimiters(kind)| && Close(text, kind, i, d).Some?
    requires i <= a < Close(text, kind, i, d).value + |Delimiters(kind)[d].1| && Opener(text, kind, a).Some?
    ensures ClosedAt(text, kind, a).Some? && ClosedAt(text, kind, a).value <= Close(text, kind, i, d).value
    decreases |text| - i, 1
  {
    hide StartsWith, Delimiters, ClosesAll, OpenerFrom, Opener, Close;
    var m := Close(text, kind, i, d).value;
    CloseSteps(text, kind, i, d);
    if StartsWith(text, i, Delimiters(kind)[d].1) {
      NoOpenerInCloser(text, kind, i, d, a);
    } else {
      match Opener(text, kind, i)
      case None => ContentCloses(text, kind, i + 1, d, a);
      case Some(e) =>
        OpenerFits(text, kind, i, e);
        DelimiterSize(kind, e);
        var n := ClosedAt(text, kind, i).value;
        if a < n + |Delimiters(kind)[e].1| {
          InnerCloses(text, kind, i, a);
        } else {
          ContentCloses(text, kind, n + |Delimiters(kind)[e].1|, d, a);
        }
    }
  }

  // ---------- which markers are reported ----------

  /** An opener before `start` has no closer, and nothing breaks between the two. */
  ghost predicate UnclosedBefore(text: string, kind: MarkerKind, from: nat, start: nat) {
    exists p: nat :: from <= p < start && UnclosedAt(text, kind, p) && NoBreak(text, kind, p, start)
  }

  ghost predicate UnclosedAt(text: string, kind: MarkerKind, p: nat) {
    Opener(text, kind, p).Some? && ClosedAt(text, kind, p).None?
  }

  ghost predicate NoBreak(text: string, kind: MarkerKind, i: nat, j: nat) {
    j <= |text| && forall k :: i <= k < j ==> !Breaks(kind, text[k])
  }

  /** Whitespace ends every opaque marker, the end of a line every template. */
  ghost predicate Breaks(kind: MarkerKind, c: char) {
    match kind
    case Opaque => c as int in WHITE_SPACE
    case Template => c in {'\n', '\r', '\U{2028}', '\U{2029}'}
  }

  lemma BreaksClose(text: string, kind: MarkerKind, i: nat, j: nat)
    requires j <= |text|
    ensures NoBreak(text, kind, i, j) <==> forall k :: i <= k < j ==> !ClosesAll(kind, text[k])
  {
    hide IsWhitespace;
    forall k | i <= k < j ensures Breaks(kind, text[k]) <==> ClosesAll(kind, text[k]) { WhitespaceIs(text[k]); }
  }

  /** The span begins inside an earlier marker. */
  ghost predicate BeginsInside(text: string, kind: MarkerKind, s: Span) {
    exists r :: IsMarker(text, kind, r) && r.start < s.start < r.end
  }

  ghost predicate ReportedAround(text: string, kind: MarkerKind, i: nat, s: Span)
    requires i <= |text|
  {
    exists r :: r in Outermost(text, kind, i) && r.start < s.start && s.end <= r.end
  }

  /** Reading from `i`, a closed opener is reported, inside a reported marker, or behind an unclosed one. */
  lemma {:induction false} ClosedIsReported(text: string, kind: MarkerKind, i: nat, s: Span)
    requires i <= |text| && i <= s.start && ClosedAt(text, kind, s.start) == Some(s.end)
    ensures s in Outermost(text, kind, i) || ReportedAround(text, kind, i, s) || UnclosedBefore(text, kind, i, s.start)
    decreases |text| - i
  {
    hide StartsWith, Delimiters, ClosesAll, OpenerFrom, Opener, Close, Outermost, NextBreak, UnclosedBefore,
      ReportedAround;
    OpenerStandsHere(text, kind, s.start);
    match Opener(text, kind, i)
    case None =>
      OutermostPasses(text, kind, i);
      ClosedIsReported(text, kind, i + 1, s);
      FromLater(text, kind, i, i + 1, s);
    case Some(d) =>
      OutermostOpens(text, kind, i, d);
      DelimiterSize(kind, d);
      var inside := i + |Delimiters(kind)[d].0|;
      match ClosedAt(text, kind, i)
      case Some(m) =>
        CloserFits(text, kind, m, d);
        var after := m + |Delimiters(kind)[d].1|;
        if i < s.start {
          if s.start < after {
            InnerCloses(text, kind, i, s.start);
            ReportedHere(text, kind, i, s, Span(i, m));
          } else {
            ClosedIsReported(text, kind, after, s);
            FromLater(text, kind, i, after, s);
          }
        }
      case None =>
        var b := NextBreak(text, kind, inside);
        if s.start < b {
          UnclosedHere(text, kind, i, d, s.start);
        } else {
          ClosedIsReported(text, kind, b, s);
          FromLater(text, kind, i, b, s);
        }
    }

  lemma OpenerStandsHere(text: string, kind: MarkerKind, i: nat)
    requires Opener(text, kind, i).Some?
    ensures i < |text| && !ClosesAll(kind, text[i])
  {
    hide StartsWith, Delimiters, ClosesAll, OpenerFrom, Opener;
    var d := Opener(text, kind, i).value;
    OpenerFits(text, kind, i, d);
    DelimiterSize(kind, d);
    DelimitersDoNotBreak(text, kind, i, d);
  }

  lemma OutermostPasses(text: string, kind: MarkerKind, i: nat)
    requires i < |text| && Opener(text, kind, i) == None
    ensures Outermost(text, kind, i) == Outermost(text, kind, i + 1)
  {
    hide Opener;
  }

  lemma UnclosedHere(text: string, kind: MarkerKind, i: nat, d: nat, start: nat)
    requires i <= |text| && Opener(text, kind, i) == Some(d) && ClosedAt(text, kind, i) == None && i < start
    requires d < |Delimiters(kind)| && i + |Delimiters(kind)[d].0| <= |text|
    requires start < NextBreak(text, kind, i + |Delimiters(kind)[d].0|)
    ensures UnclosedBefore(text, kind, i, start)
  {
    hide StartsWith, Delimiters, ClosesAll, OpenerFrom, Opener, Close, ClosedAt;
    OpenerFits(text, kind, i, d);
    DelimitersDoNotBreak(text, kind, i, d);
    BreaksClose(text, kind, i, start);
    assert UnclosedAt(text, kind, i) && NoBreak(text, kind, i, start);
  }

  lemma ReportedHere(text: string, kind: MarkerKind, i: nat, s: Span, r: Span)
    requires i <= |text| && r in Outermost(text, kind, i) && r.start < s.start && s.end <= r.end
    ensures ReportedAround(text, kind, i, s)
  {
    hide Outermost;
  }

  lemma FromLater(text: string, kind: MarkerKind, i: nat, j: nat, s: Span)
    requires i <= j <= |text|
    requires forall r :: r in Outermost(text, kind, j) ==> r in Outermost(text, kind, i)
    ensures ReportedAround(text, kind, j, s) ==> ReportedAround(text, kind, i, s)
    ensures UnclosedBefore(text, kind, j, s.start) ==> UnclosedBefore(text, kind, i, s.start)
  {
    hide Outermost, UnclosedAt, NoBreak;
  }

  /** Conversely, no opener stands unclosed before a reported marker on the same stretch. */
  lemma {:induction false} ReportedHasNoUnclosed(text: string, kind: MarkerKind, i: nat, s: Span, p: nat)
    requires i <= p < s.start && i <= |text| && s in Outermost(text, kind, i) && Opener(text, kind, s.start).Some?
    requires Opener(text, kind, p).Some? && NoBreak(text, kind, p, s.start)
    ensures ClosedAt(text, kind, p).Some?
    decreases |text| - i
  {
    hide StartsWith, Delimiters, ClosesAll, OpenerFrom, Opener, Close, Outermost, NextBreak;
    OpenerStandsHere(text, kind, p);
    OpenerStandsHere(text, kind, s.start);
    BreaksClose(text, kind, p, s.start);
    match Opener(text, kind, i)
    case None =>
      OutermostPasses(text, kind, i);
      ReportedHasNoUnclosed(text, kind, i + 1, s, p);
    case Some(d) =>
      OutermostOpens(text, kind, i, d);
      DelimiterSize(kind, d);
      match ClosedAt(text, kind, i)
      case Some(m) =>
        CloserFits(text, kind, m, d);
        var after := m + |Delimiters(kind)[d].1|;
        if p < after {
          InnerCloses(text, kind, i, p);
        } else {
          ReportedHasNoUnclosed(text, kind, after, s, p);
        }
      case None =>
        var b := NextBreak(text, kind, i + |Delimiters(kind)[d].0|);
        OutermostAreMarkers(text, kind, b);
        if b <= p { ReportedHasNoUnclosed(text, kind, b, s, p); }
    }

  lemma NotUnclosed(text: string, kind: MarkerKind, s: Span)
    requires s in Outermost(text, kind, 0) && IsMarker(text, kind, s)
    ensures !UnclosedBefore(text, kind, 0, s.start)
  {
    hide StartsWith, Delimiters, ClosesAll, Opener, Close, Balanced, Outermost, NoBreak;
    if UnclosedBefore(text, kind, 0, s.start) {
      var p: nat :| p < s.start && UnclosedAt(text, kind, p) && NoBreak(text, kind, p, s.start);
      ReportedHasNoUnclosed(text, kind, 0, s, p);
    }
  }

  lemma MarkerHoldsNoBreak(text: string, kind: MarkerKind, r: Span)
    requires IsMarker(text, kind, r)
    ensures r.start < r.end && NoBreak(text, kind, r.start, r.end)
  {
    hide StartsWith, Delimiters, ClosesAll, Opener, Close, Balanced;
    var d: nat :| d < |Delimiters(kind)| && Opener(text, kind, r.start) == Some(d)
      && r.start + |Delimiters(kind)[d].0| <= r.end <= |text|
      && Balanced(text, kind, d, r.start + |Delimiters(kind)[d].0|, r.end);
    OpenerFits(text, kind, r.start, d);
    DelimiterSize(kind, d);
    DelimitersDoNotBreak(text, kind, r.start, d);
    forall k | r.start + |Delimiters(kind)[d].0| <= k < r.end ensures !ClosesAll(kind, text[k]) {
      BalancedDoesNotBreak(text, kind, d, r.start + |Delimiters(kind)[d].0|, r.end, k);
    }
    BreaksClose(text, kind, r.start, r.end);
  }

  lemma DisjointStarts(spans: seq<Span>, r: Span, s: Span)
    requires SortedDisjoint(spans) && r in spans && s in spans
    ensures !(r.start < s.start <= r.end)
  {
    var j :| 0 <= j < |spans| && spans[j] == r;
    var k :| 0 <= k < |spans| && spans[k] == s;
    if j != k { assert spans[j].end < spans[k].start || spans[k].end < spans[j].start; }
  }

  /** A reported marker begins inside no other. */
  lemma NotInside(text: string, kind: MarkerKind, s: Span, r: Span)
    requires s in Outermost(text, kind, 0) && IsMarker(text, kind, s) && IsMarker(text, kind, r)
    ensures !(r.start < s.start < r.end)
  {
    hide StartsWith, Delimiters, ClosesAll, Opener, Close, Balanced, IsMarker, Outermost, SortedDisjoint;
    if r.start < s.start < r.end {
      MarkerCloses(text, kind, r);
      OutermostAreMarkers(text, kind, 0);
      NotUnclosed(text, kind, s);
      MarkerHoldsNoBreak(text, kind, r);
      ClosedIsReported(text, kind, 0, r);
      if r in Outermost(text, kind, 0) {
        DisjointStarts(Outermost(text, kind, 0), r, s);
      } else if ReportedAround(text, kind, 0, r) {
        var outer :| outer in Outermost(text, kind, 0) && outer.start < r.start && r.end <= outer.end;
        DisjointStarts(Outermost(text, kind, 0), outer, s);
      }
    }
  }

  /** Exactly the markers the scan reports: balanced pairs that begin inside no other marker and have
      no unclosed opener before them since the last break. */
  lemma ReportedExactly(text: string, kind: MarkerKind, s: Span)
    ensures s in Outermost(text, kind, 0) <==>
      IsMarker(text, kind, s) && !UnclosedBefore(text, kind, 0, s.start) && !BeginsInside(text, kind, s)
  {
    hide StartsWith, Delimiters, ClosesAll, Opener, Close, Balanced, IsMarker, Outermost, UnclosedBefore;
    MarkerCloses(text, kind, s);
    OutermostAreMarkers(text, kind, 0);
    if s in Outermost(text, kind, 0) {
      NotUnclosed(text, kind, s);
      forall r | IsMarker(text, kind, r) ensures !(r.start < s.start < r.end) { NotInside(text, kind, s, r); }
    } else if IsMarker(text, kind, s) {
      ClosedIsReported(text, kind, 0, s);
      if ReportedAround(text, kind, 0, s) {
        MarkerHoldsNoBreak(text, kind, s);
      }
    }
  }
}

/** Several edits spliced one after another, last span first. */
module LockfileSplices {
  import opened Common
  import opened JsonText
  import opened LockfileSyntax
  import opened LockfileEdit

  /** Edits of non-empty spans below `bound`, each wholly before the one spliced before it. */
  ghost predicate Stacked(edits: seq<Edit>, bound: nat) {
    && (forall k :: 0 <= k < |edits| ==> edits[k].start < edits[k].end <= bound)
    && (forall j, k :: 0 <= j < k < |edits| ==> edits[k].end <= edits[j].start)
  }

  lemma StackedRest(edits: seq<Edit>, bound: nat)
    requires edits != [] && Stacked(edits, bound)
    ensures Stacked(edits[1..], edits[0].start)
  {
  }

  /** The text after splicing the edits in turn. */
  function Splices(src: Text, edits: seq<Edit>): Text
    requires Stacked(edits, |src|)
    decreases |edits|
  {
    if edits == [] then src
    else
      StackedRest(edits, |src|);
      Splices(Splice(src, edits[0]), edits[1..])
  }

  /** Where a position of the source ends up. */
  function Place(edits: seq<Edit>, p: nat): nat {
    if edits == [] then p else Place(edits[1..], Moved(edits[0], p))
  }

  /** What becomes of a literal of the source. */
  function MoveAll(edits: seq<Edit>, l: Literal): Literal {
    if edits == [] then l else MoveAll(edits[1..], MoveLiteral(edits[0], l))
  }

  /** The replacement for the literal that starts at `start`, if it has one. */
  function Change(edits: seq<Edit>, start: nat): Option<Text> {
    if edits == [] then None
    else if edits[0].start == start then Some(edits[0].value)
    else Change(edits[1..], start)
  }

  ghost predicate Meets(edit: Edit, l: Literal) {
    l.start < l.end && ((l.start == edit.start && l.end == edit.end) || l.end <= edit.start || edit.end <= l.start)
  }

  lemma {:induction false} ChangeBelow(edits: seq<Edit>, bound: nat, start: nat)
    requires Stacked(edits, bound) && bound <= start
    ensures Change(edits, start) == None
  {
    if edits != [] {
      StackedRest(edits, bound);
      ChangeBelow(edits[1..], edits[0].start, start);
    }
  }

  /** A literal whose span is replaced takes the new value; any other keeps its own. */
  lemma {:induction false} MoveAllValue(edits: seq<Edit>, bound: nat, l: Literal)
    requires Stacked(edits, bound) && forall k :: 0 <= k < |edits| ==> Meets(edits[k], l)
    ensures MoveAll(edits, l).value == match Change(edits, l.start) case Some(value) => value case None => l.value
    decreases |edits|
  {
    if edits != [] {
      var first, rest := edits[0], edits[1..];
      StackedRest(edits, bound);
      forall k | 0 <= k < |rest| ensures Meets(rest[k], MoveLiteral(first, l)) {
        assert rest[k] == edits[k + 1];
        assert Meets(edits[k + 1], l) && Meets(edits[0], l);
      }
      assert Meets(edits[0], l);
      MoveAllValue(rest, first.start, MoveLiteral(first, l));
      if l.start >= first.start {
        ChangeBelow(rest, first.start, MoveLiteral(first, l).start);
        ChangeBelow(rest, first.start, l.start);
      }
    }
  }

  // ---------- what the text becomes ----------

  lemma SpliceLocal(a: Text, b: Text, edit: Edit)
    requires edit.start <= edit.end <= |a|
    ensures Splice(a + b, edit) == Splice(a, edit) + b && edit.start <= |Splice(a, edit)|
  {
  }

  /** Splices that stay within a prefix leave what follows it alone. */
  lemma {:induction false} SplicesLocal(a: Text, b: Text, edits: seq<Edit>)
    requires Stacked(edits, |a|)
    ensures Stacked(edits, |a + b|)
    ensures Splices(a + b, edits) == Splices(a, edits) + b
    decreases |edits|
  {
    hide Splice;
    if edits != [] {
      var e := edits[0];
      StackedRest(edits, |a|);
      SpliceLocal(a, b, e);
      SplicesLocal(Splice(a, e), b, edits[1..]);
    }
  }

  lemma {:induction false} PlaceAbove(edits: seq<Edit>, bound: nat, p: nat, d: nat)
    requires Stacked(edits, bound) && bound <= p
    ensures Place(edits, p + d) == Place(edits, p) + d
    decreases |edits|
  {
    if edits != [] {
      StackedRest(edits, bound);
      var m := Moved(edits[0], p);
      assert Moved(edits[0], p + d) == m + d && edits[0].start <= m;
      PlaceAbove(edits[1..], edits[0].start, m, d);
    }
  }

  lemma {:induction false} PlaceEnd(a: Text, edits: seq<Edit>)
    requires Stacked(edits, |a|)
    ensures Place(edits, |a|) == |Splices(a, edits)|
    decreases |edits|
  {
    if edits != [] {
      StackedRest(edits, |a|);
      assert |Splice(a, edits[0])| == Moved(edits[0], |a|);
      PlaceEnd(Splice(a, edits[0]), edits[1..]);
    }
  }

  /** Every character outside the replaced spans survives, and they keep their order. */
  lemma {:induction false} OutsideKept(src: Text, edits: seq<Edit>, p: nat)
    requires Stacked(edits, |src|) && p < |src|
    requires forall k :: 0 <= k < |edits| ==> p < edits[k].start || edits[k].end <= p
    ensures Place(edits, p) < |Splices(src, edits)| && Splices(src, edits)[Place(edits, p)] == src[p]
    ensures forall q :: p < q < |src| && (forall k :: 0 <= k < |edits| ==> q < edits[k].start || edits[k].end <= q) ==>
              Place(edits, p) < Place(edits, q)
    decreases |edits|
  {
    if edits != [] {
      var e, rest := edits[0], edits[1..];
      StackedRest(edits, |src|);
      var m := Moved(e, p);
      assert m < |Splice(src, e)| && Splice(src, e)[m] == src[p];
      assert forall k :: 0 <= k < |rest| ==> rest[k] == edits[k + 1];
      OutsideKept(Splice(src, e), rest, m);
      forall q | p < q < |src| && (forall k :: 0 <= k < |edits| ==> q < edits[k].start || edits[k].end <= q)
        ensures Place(edits, p) < Place(edits, q)
      {
        assert q < edits[0].start || edits[0].end <= q;
        assert m < Moved(e, q) < |Splice(src, e)|;
        assert forall k :: 0 <= k < |rest| ==> Moved(e, q) < rest[k].start || rest[k].end <= Moved(e, q);
      }
    }
  }

  // ---------- splicing back ----------

  /** The edit that puts back, in the edited text, the literal that `edit` replaced. */
  function Back(src: Text, edits: seq<Edit>, edit: Edit): Edit {
    var l := MoveAll(edits, Literal(edit.start, edit.end, []));
    Edit(l.start, l.end, OldValue(src, edit))
  }

  function OldValue(src: Text, edit: Edit): Text {
    if edit.start + 2 <= edit.end <= |src| && ParseLiteral(src[edit.start..edit.end]).Some?
    then ParseLiteral(src[edit.start..edit.end]).value
    else []
  }

  function BackAll(src: Text, edits: seq<Edit>, todo: seq<Edit>): (back: seq<Edit>)
    ensures |back| == |todo|
    ensures forall k :: 0 <= k < |todo| ==> back[k] == Back(src, edits, todo[k])
  {
    if todo == [] then [] else [Back(src, edits, todo[0])] + BackAll(src, edits, todo[1..])
  }

  /** The same spans, to be printed again with the values they had. */
  function Reprints(src: Text, edits: seq<Edit>): (again: seq<Edit>)
    ensures |again| == |edits|
    ensures forall k :: 0 <= k < |edits| ==> again[k] == Edit(edits[k].start, edits[k].end, OldValue(src, edits[k]))
  {
    if edits == [] then []
    else [Edit(edits[0].start, edits[0].end, OldValue(src, edits[0]))] + Reprints(src, edits[1..])
  }

  lemma {:induction false} MoveAllAbove(edits: seq<Edit>, bound: nat, l: Literal)
    requires Stacked(edits, bound) && bound <= l.start <= l.end
    ensures MoveAll(edits, l) == Literal(Place(edits, l.start), Place(edits, l.end), l.value)
    decreases |edits|
  {
    if edits != [] {
      StackedRest(edits, bound);
      MoveAllAbove(edits[1..], edits[0].start, MoveLiteral(edits[0], l));
    }
  }

  /** Later edits lie below the first one, so it does not move them, nor does what follows them matter. */
  lemma {:induction false} BackRest(src: Text, edits: seq<Edit>, bound: nat, todo: seq<Edit>)
    requires edits != [] && Stacked(edits, bound) && edits[0].start <= |src|
    requires forall k :: 0 <= k < |todo| ==> todo[k].start < todo[k].end <= edits[0].start
    ensures BackAll(src, edits, todo) == BackAll(src[..edits[0].start], edits[1..], todo)
    decreases |todo|
  {
    if todo != [] {
      var l := Literal(todo[0].start, todo[0].end, []);
      assert MoveLiteral(edits[0], l) == l;
      assert src[..edits[0].start][todo[0].start..todo[0].end] == src[todo[0].start..todo[0].end];
      BackRest(src, edits, bound, todo[1..]);
    }
  }

  lemma {:induction false} ReprintsRest(src: Text, edits: seq<Edit>, todo: seq<Edit>, bound: nat)
    requires bound <= |src| && forall k :: 0 <= k < |todo| ==> todo[k].end <= bound
    ensures Reprints(src, todo) == Reprints(src[..bound], todo)
    decreases |todo|
  {
    if todo != [] {
      assert todo[0].start <= todo[0].end ==>
        src[..bound][todo[0].start..todo[0].end] == src[todo[0].start..todo[0].end];
      ReprintsRest(src, edits, todo[1..], bound);
    }
  }

  /** The first edit as it stands in the edited text: right after the edited prefix. */
  lemma BackFirst(src: Text, edits: seq<Edit>)
    requires edits != [] && Stacked(edits, |src|)
    ensures var e := edits[0];
            var head := |Splices(src[..e.start], (StackedRest(edits, |src|); edits[1..]))|;
            Back(src, edits, e) == Edit(head, head + |Stringify(e.value)|, OldValue(src, e))
  {
    var e, rest := edits[0], edits[1..];
    var n := |Stringify(e.value)|;
    StackedRest(edits, |src|);
    MoveAllAbove(rest, e.start, Literal(e.start, e.start + n, e.value));
    PlaceAbove(rest, e.start, e.start, n);
    PlaceEnd(src[..e.start], rest);
  }

  lemma SpliceParts(a: Text, m: Text, z: Text, edit: Edit)
    requires edit.start == |a| && edit.end == |a| + |m|
    ensures Splice(a + (m + z), edit) == a + (Stringify(edit.value) + z)
  {
  }

  lemma SpliceGroups(src: Text, edit: Edit)
    requires edit.start <= edit.end <= |src|
    ensures Splice(src, edit) == src[..edit.start] + (Stringify(edit.value) + src[edit.end..])
  {
  }

  /** The text after all edits: the edited prefix, the first replacement, the untouched rest. */
  lemma SplicesParts(src: Text, edits: seq<Edit>, head: Text)
    requires edits != [] && Stacked(edits, |src|)
    requires Stacked(edits[1..], edits[0].start) && head == Splices(src[..edits[0].start], edits[1..])
    ensures Splices(src, edits) == head + (Stringify(edits[0].value) + src[edits[0].end..])
  {
    hide Stringify, Splice;
    var e := edits[0];
    var a, n, z := src[..e.start], Stringify(e.value), src[e.end..];
    SpliceGroups(src, e);
    SplicesLocal(a, n + z, edits[1..]);
  }

  /** Putting the first literal back leaves the prefix edited and prints its old value. */
  lemma FirstUndone(src: Text, edits: seq<Edit>, head: Text)
    requires edits != [] && Stacked(edits, |src|)
    requires Stacked(edits[1..], edits[0].start) && head == Splices(src[..edits[0].start], edits[1..])
    ensures var back := Back(src, edits, edits[0]);
            && back.start == |head| < back.end <= |Splices(src, edits)|
            && Splice(Splices(src, edits), back) == head + (Stringify(OldValue(src, edits[0])) + src[edits[0].end..])
  {
    hide Stringify, MoveAll, OldValue, Splice, Back, Splices;
    var e := edits[0];
    var n, z := Stringify(e.value), src[e.end..];
    SplicesParts(src, edits, head);
    BackFirst(src, edits);
    StringifyNonEmpty(e.value);
    SpliceParts(head, n, z, Back(src, edits, e));
  }

  lemma StringifyNonEmpty(value: Text)
    ensures |Stringify(value)| > 0
  {
  }

  lemma ReprintsStacked(src: Text, edits: seq<Edit>, bound: nat)
    requires Stacked(edits, bound)
    ensures Stacked(Reprints(src, edits), bound)
  {
  }

  /** Putting every replaced literal back prints each of them with its old value. */
  lemma {:induction false} SplicesUndone(src: Text, edits: seq<Edit>)
    requires Stacked(edits, |src|)
    ensures Stacked(BackAll(src, edits, edits), |Splices(src, edits)|) && Stacked(Reprints(src, edits), |src|)
    ensures Splices(Splices(src, edits), BackAll(src, edits, edits)) == Splices(src, Reprints(src, edits))
    decreases |edits|
  {
    hide Back, Splice, OldValue;
    ReprintsStacked(src, edits, |src|);
    if edits != [] {
      var e, rest := edits[0], edits[1..];
      var a, b := src[..e.start], Stringify(OldValue(src, e)) + src[e.end..];
      StackedRest(edits, |src|);
      var head := Splices(a, rest);
      FirstUndone(src, edits, head);
      BackRest(src, edits, |src|, rest);
      var back, others := BackAll(src, edits, edits), BackAll(a, rest, rest);
      assert back == [Back(src, edits, e)] + others;
      SplicesUndone(a, rest);
      SplicesLocal(head, b, others);
      assert back[1..] == others;
      ReprintsRest(src, edits, rest, e.start);
      var again := Reprints(src, edits);
      assert again[1..] == Reprints(a, rest);
      SplicesParts(src, again, Splices(a, Reprints(a, rest)));
    }
  }

  /** The span already reads as the edit would print it. */
  ghost predicate Printed(src: Text, edit: Edit) {
    edit.start <= edit.end <= |src| && src[edit.start..edit.end] == Stringify(edit.value)
  }

  lemma {:induction false} PrintedSplices(src: Text, edits: seq<Edit>)
    requires Stacked(edits, |src|) && forall k :: 0 <= k < |edits| ==> Printed(src, edits[k])
    ensures Splices(src, edits) == src
    decreases |edits|
  {
    if edits != [] {
      var rest := edits[1..];
      assert Printed(src, edits[0]);
      assert Splice(src, edits[0]) == src;
      StackedRest(edits, |src|);
      assert forall k :: 0 <= k < |rest| ==> rest[k] == edits[k + 1];
      PrintedSplices(src, rest);
    }
  }

  /** Splices that change neither the text nor any span they replace printed what was there. */
  lemma {:induction false} UnchangedIsPrinted(src: Text, edits: seq<Edit>)
    requires Stacked(edits, |src|) && Splices(src, edits) == src
    requires forall k :: 0 <= k < |edits| ==> Stays(edits, edits[k])
    ensures forall k :: 0 <= k < |edits| ==> Printed(src, edits[k])
    decreases |edits|
  {
    hide Splice, Stringify;
    if edits != [] {
      var e, rest := edits[0], edits[1..];
      var a := src[..e.start];
      StackedRest(edits, |src|);
      var head := Splices(a, rest);
      SplicesParts(src, edits, head);
      assert Stays(edits, e);
      FirstStays(src, edits);
      assert src == head + (Stringify(e.value) + src[e.end..]);
      assert head == a;
      assert src[e.start..e.end] == Stringify(e.value);
      forall k | 0 <= k < |rest| ensures Stays(rest, rest[k]) {
        assert rest[k] == edits[k + 1] && Stays(edits, edits[k + 1]);
      }
      UnchangedIsPrinted(a, rest);
      forall k | 1 <= k < |edits| ensures Printed(src, edits[k]) {
        assert edits[k] == rest[k - 1] && Printed(a, rest[k - 1]);
        assert a[edits[k].start..edits[k].end] == src[edits[k].start..edits[k].end];
      }
    }
  }

  /** The literal under the edit keeps its span. */
  ghost predicate Stays(edits: seq<Edit>, edit: Edit) {
    var l := MoveAll(edits, Literal(edit.start, edit.end, []));
    l.start == edit.start && l.end == edit.end
  }

  lemma FirstStays(src: Text, edits: seq<Edit>)
    requires edits != [] && Stacked(edits, |src|) && Stays(edits, edits[0])
    ensures var e := edits[0];
            && |Splices(src[..e.start], (StackedRest(edits, |src|); edits[1..]))| == e.start
            && |Stringify(e.value)| == e.end - e.start
  {
    hide Stringify, MoveAll;
    BackFirst(src, edits);
  }

  /** Where a literal goes does not depend on its value. */
  lemma {:induction false} MoveValueFree(edits: seq<Edit>, l: Literal, m: Literal)
    requires l.start == m.start && l.end == m.end
    ensures MoveAll(edits, l).start == MoveAll(edits, m).start && MoveAll(edits, l).end == MoveAll(edits, m).end
    decreases |edits|
  {
    if edits != [] { MoveValueFree(edits[1..], MoveLiteral(edits[0], l), MoveLiteral(edits[0], m)); }
  }
}

/**
  Synchronising the workspace versions of a lockfile: only the mismatched version strings change,
  the text still parses to the same tree, and the change can be undone byte for byte.
 */
module LockfileSync {
  import opened Common
  import opened Sorting
  import opened JsonText
  import opened LockfileSyntax
  import opened LockfileEdit
  import opened LockfileNodes
  import opened LockfileSplices
  import opened LockfileTrees
  import LockfileParser

  /** Workspace and version pairs in insertion order, each workspace once. */
  type Versions = seq<(Text, Text)>

  datatype Mismatch = Mismatch(workspace: Text, expected: Text, actual: Option<Text>)

  datatype SyncResult = SyncResult(text: Text, mismatches: seq<Mismatch>)

  function WorkspacesKey(): Text { Ascii("workspaces") }

  function VersionKey(): Text { Ascii("version") }

  /** The properties of the root's `workspaces` object. */
  function Workspaces(root: JsonNode): Result<map<Text, JsonNode>, Failure> {
    if !root.ObjectNode? then Err(Failure(0, RootNotObject))
    else if WorkspacesKey() !in root.properties || !root.properties[WorkspacesKey()].ObjectNode? then
      Err(Failure(0, WorkspacesNotObject))
    else Ok(root.properties[WorkspacesKey()].properties)
  }

  /** The keys are the units of "workspaces" and of "version". */
  lemma KeyUnits()
    ensures WorkspacesKey() == [0x77, 0x6F, 0x72, 0x6B, 0x73, 0x70, 0x61, 0x63, 0x65, 0x73]
    ensures VersionKey() == [0x76, 0x65, 0x72, 0x73, 0x69, 0x6F, 0x6E]
  {
  }

  /** The string literal that holds a workspace's version, if it has one. */
  function VersionOf(workspaces: map<Text, JsonNode>, workspace: Text): Option<Literal> {
    if workspace in workspaces && workspaces[workspace].ObjectNode?
       && VersionKey() in workspaces[workspace].properties
       && workspaces[workspace].properties[VersionKey()].StringNode?
    then Some(workspaces[workspace].properties[VersionKey()].literal)
    else None
  }

  function Actual(version: Option<Literal>): Option<Text> {
    match version
    case Some(l) => Some(l.value)
    case None => None
  }

  /** What one expected version calls for: nothing, a report, or a report and an edit. */
  function Mismatches(workspaces: map<Text, JsonNode>, expected: Versions): seq<Mismatch> {
    if expected == [] then []
    else
      var (workspace, wanted) := expected[|expected| - 1];
      var actual := Actual(VersionOf(workspaces, workspace));
      Mismatches(workspaces, expected[..|expected| - 1])
      + (if actual == Some(wanted) then [] else [Mismatch(workspace, wanted, actual)])
  }

  function Replacements(workspaces: map<Text, JsonNode>, expected: Versions): seq<Edit> {
    if expected == [] then []
    else
      var (workspace, wanted) := expected[|expected| - 1];
      var version := VersionOf(workspaces, workspace);
      Replacements(workspaces, expected[..|expected| - 1])
      + (if version.Some? && version.value.value != wanted
         then [Edit(version.value.start, version.value.end, wanted)] else [])
  }

  /** `sort((a, b) => b.start - a.start)` */
  function LastFirst(edits: seq<Edit>): seq<Edit> {
    Sort(StartsLater, edits)
  }

  predicate StartsLater(a: Edit, b: Edit) {
    a.start >= b.start
  }

  /** A report says what a listed workspace has, where that is not what is expected of it. */
  ghost predicate Reported(t: Syntax, version: (Text, Text), m: Mismatch) {
    var found := VersionIn(t, version.0);
    && m == Mismatch(version.0, version.1, if found.Some? then Some(found.value.value) else None)
    && m.actual != Some(version.1)
  }

  /** The reports are, in the order of the list, exactly those due. */
  lemma {:induction false} MismatchesMean(t: Syntax, expected: Versions, m: Mismatch)
    requires HasWorkspaces(t)
    ensures Workspaces(Lower(t)).Ok?
    ensures m in Mismatches(Workspaces(Lower(t)).value, expected) <==>
      exists v :: v in expected && Reported(t, v, m)
    ensures |Mismatches(Workspaces(Lower(t)).value, expected)| <= |expected|
    decreases |expected|
  {
    hide VersionIn, HasWorkspaces, Lower, VersionOf, Workspaces;
    LookupAgrees(t, []);
    if expected != [] {
      var early, last := expected[..|expected| - 1], expected[|expected| - 1];
      LookupAgrees(t, last.0);
      MismatchesMean(t, early, m);
      var before := Mismatches(Workspaces(Lower(t)).value, early);
      var now := Mismatches(Workspaces(Lower(t)).value, expected);
      assert m in now <==> m in before || Reported(t, last, m);
      assert forall v :: v in expected <==> v in early || v == last;
    }
  }

  // ---------- the literals of different workspaces do not meet ----------

  ghost predicate Distinct(expected: Versions) {
    forall j, k :: 0 <= j < k < |expected| ==> expected[j].0 != expected[k].0
  }

  /** The syntax tree behind the lookup. */
  ghost function VersionIn(t: Syntax, workspace: Text): Option<Literal> {
    match t
    case Obj(root) =>
      (match LastValue(root, WorkspacesKey())
       case Some(Obj(workspaces)) => VersionInWorkspaces(workspaces, workspace)
       case _ => None)
    case _ => None
  }

  ghost function VersionInWorkspaces(workspaces: Members, workspace: Text): Option<Literal> {
    match LastValue(workspaces, workspace)
    case Some(Obj(entry)) =>
      (match LastValue(entry, VersionKey())
       case Some(Str(literal)) => Some(literal)
       case _ => None)
    case _ => None
  }

  ghost predicate HasWorkspaces(t: Syntax) {
    t.Obj? && LastValue(t.members, WorkspacesKey()).Some? && LastValue(t.members, WorkspacesKey()).value.Obj?
  }

  lemma LookupAgrees(t: Syntax, workspace: Text)
    ensures Workspaces(Lower(t)).Ok? <==> HasWorkspaces(t)
    ensures HasWorkspaces(t) ==> VersionOf(Workspaces(Lower(t)).value, workspace) == VersionIn(t, workspace)
  {
    if t.Obj? {
      LowerLooksUp(t.members, WorkspacesKey());
      if HasWorkspaces(t) {
        var workspaces := LastValue(t.members, WorkspacesKey()).value.members;
        LowerLooksUp(workspaces, workspace);
        var entry := LastValue(workspaces, workspace);
        if entry.Some? && entry.value.Obj? { LowerLooksUp(entry.value.members, VersionKey()); }
      }
    }
  }

  lemma VersionIsLiteral(t: Syntax, workspace: Text)
    requires VersionIn(t, workspace).Some?
    ensures VersionIn(t, workspace).value in Literals(t)
  {
    var workspaces := LastValue(t.members, WorkspacesKey()).value.members;
    VersionLiteralIn(workspaces, workspace);
    LastValueLiterals(workspaces, workspace);
    LastValueLiterals(t.members, WorkspacesKey());
  }

  lemma VersionMapped(t: Syntax, g: Literal -> Literal, workspace: Text)
    ensures HasWorkspaces(MapLiterals(t, g)) <==> HasWorkspaces(t)
    ensures VersionIn(MapLiterals(t, g), workspace)
         == match VersionIn(t, workspace) case None => None case Some(l) => Some(g(l))
  {
    if t.Obj? {
      LastValueMapped(t.members, g, WorkspacesKey());
      if HasWorkspaces(t) {
        var workspaces := LastValue(t.members, WorkspacesKey()).value.members;
        LastValueMapped(workspaces, g, workspace);
        var entry := LastValue(workspaces, workspace);
        if entry.Some? && entry.value.Obj? { LastValueMapped(entry.value.members, g, VersionKey()); }
      }
    }
  }

  lemma {:induction false} SubInOrder(src: Text, ms: Members, lo: nat, hi: nat, key: Text)
    requires InOrder(src, MemberLiterals(ms), lo, hi) && LastValue(ms, key).Some?
    ensures InOrder(src, Literals(LastValue(ms, key).value), lo, hi)
  {
    match ms
    case NoMember =>
    case Member(_, value, rest) =>
      var all, head := MemberLiterals(ms), Literals(value);
      assert forall j :: 0 <= j < |head| ==> head[j] == all[j];
      assert forall j :: 0 <= j < |MemberLiterals(rest)| ==> MemberLiterals(rest)[j] == all[|head| + j];
      if LastValue(rest, key).Some? { SubInOrder(src, rest, lo, hi, key); }
  }

  lemma VersionsApart(src: Text, t: Syntax, lo: nat, hi: nat, w1: Text, w2: Text)
    requires InOrder(src, Literals(t), lo, hi) && w1 != w2
    requires VersionIn(t, w1).Some? && VersionIn(t, w2).Some?
    ensures Apart(VersionIn(t, w1).value, VersionIn(t, w2).value)
  {
    var workspaces := LastValue(t.members, WorkspacesKey()).value.members;
    SubInOrder(src, t.members, lo, hi, WorkspacesKey());
    VersionLiteralIn(workspaces, w1);
    VersionLiteralIn(workspaces, w2);
    DifferentKeysApart(src, workspaces, lo, hi, w1, w2, VersionIn(t, w1).value, VersionIn(t, w2).value);
  }

  lemma VersionLiteralIn(workspaces: Members, workspace: Text)
    requires VersionInWorkspaces(workspaces, workspace).Some?
    ensures VersionInWorkspaces(workspaces, workspace).value in Literals(LastValue(workspaces, workspace).value)
  {
    var entry := LastValue(workspaces, workspace).value.members;
    LastValueLiterals(entry, VersionKey());
    assert VersionInWorkspaces(workspaces, workspace).value in Literals(LastValue(entry, VersionKey()).value);
  }

  // ---------- the edits of a run ----------

  ghost predicate EditsApart(a: Edit, b: Edit) {
    a.end <= b.start || b.end <= a.start
  }

  ghost predicate Spread(edits: seq<Edit>, bound: nat) {
    && (forall k :: 0 <= k < |edits| ==> edits[k].start < edits[k].end <= bound)
    && (forall j, k :: 0 <= j < k < |edits| ==> EditsApart(edits[j], edits[k]))
  }

  lemma {:induction false} InsertStacks(x: Edit, edits: seq<Edit>, bound: nat)
    requires Stacked(edits, bound) && x.start < x.end <= bound
    requires forall k :: 0 <= k < |edits| ==> EditsApart(x, edits[k])
    ensures Stacked(Insert(StartsLater, x, edits), bound)
  {
    if edits == [] || StartsLater(x, edits[0]) {
      assert edits != [] ==> EditsApart(x, edits[0]);
    } else {
      var rest := edits[1..];
      assert forall k :: 0 <= k < |rest| ==> rest[k] == edits[k + 1];
      StackedRest(edits, bound);
      assert EditsApart(x, edits[0]);
      InsertStacks(x, rest, edits[0].start);
    }
  }

  /** Edits that do not meet, sorted by descending start, can be spliced in turn. */
  lemma {:induction false} SpreadStacks(edits: seq<Edit>, bound: nat)
    requires Spread(edits, bound)
    ensures Stacked(LastFirst(edits), bound)
    ensures forall e :: e in LastFirst(edits) <==> e in edits
    decreases |edits|
  {
    SortKeeps(StartsLater, edits);
    SameElements(Sort(StartsLater, edits), edits);
    if edits != [] {
      var rest := edits[1..];
      assert forall k :: 0 <= k < |rest| ==> rest[k] == edits[k + 1];
      SpreadStacks(rest, bound);
      var sorted := LastFirst(rest);
      forall k | 0 <= k < |sorted| ensures EditsApart(edits[0], sorted[k]) {
        assert sorted[k] in rest;
      }
      InsertStacks(edits[0], sorted, bound);
    }
  }

  /** The edits of a run, read off the syntax tree. */
  ghost function EditsOf(t: Syntax, expected: Versions): seq<Edit> {
    if expected == [] then []
    else
      var (workspace, wanted) := expected[|expected| - 1];
      var version := VersionIn(t, workspace);
      EditsOf(t, expected[..|expected| - 1])
      + (if version.Some? && version.value.value != wanted
         then [Edit(version.value.start, version.value.end, wanted)] else [])
  }

  lemma {:induction false} ReplacementsAreEdits(t: Syntax, expected: Versions)
    requires HasWorkspaces(t)
    ensures Workspaces(Lower(t)).Ok? && Replacements(Workspaces(Lower(t)).value, expected) == EditsOf(t, expected)
  {
    LookupAgrees(t, []);
    if expected != [] {
      LookupAgrees(t, expected[|expected| - 1].0);
      ReplacementsAreEdits(t, expected[..|expected| - 1]);
    }
  }

  /** `edit` changes the version of the `k`-th workspace. */
  ghost predicate Updates(t: Syntax, expected: Versions, k: nat, edit: Edit) {
    && k < |expected|
    && var version := VersionIn(t, expected[k].0);
    && version.Some? && version.value.value != expected[k].1
    && edit == Edit(version.value.start, version.value.end, expected[k].1)
  }

  lemma {:induction false} EditsUpdate(t: Syntax, expected: Versions, edit: Edit)
    ensures edit in EditsOf(t, expected) <==> exists k: nat :: Updates(t, expected, k, edit)
  {
    if expected != [] {
      var n := |expected| - 1;
      var before := expected[..n];
      EditsUpdate(t, before, edit);
      assert EditsOf(t, expected) == EditsOf(t, before)
        + (if VersionIn(t, expected[n].0).Some? && VersionIn(t, expected[n].0).value.value != expected[n].1
           then [Edit(VersionIn(t, expected[n].0).value.start, VersionIn(t, expected[n].0).value.end,
             expected[n].1)] else []);
      if edit in EditsOf(t, before) {
        var k: nat :| Updates(t, before, k, edit);
        assert Updates(t, expected, k, edit);
      } else if edit in EditsOf(t, expected) {
        assert Updates(t, expected, n, edit);
      }
      if exists k: nat :: Updates(t, expected, k, edit) {
        var k: nat :| Updates(t, expected, k, edit);
        if k < n { assert Updates(t, before, k, edit); }
      }
    }
  }

  /** A parsed lockfile with a `workspaces` object. */
  ghost predicate Lockfile(src: Text, t: Syntax) {
    ParseFile(src) == Ok(t) && HasWorkspaces(t)
  }

  lemma LockfileInOrder(src: Text, t: Syntax)
    requires Lockfile(src, t)
    ensures InOrder(src, Literals(t), 0, |src|)
  {
    hide SkipTrivia, ParseValue, Literals;
    ValueLiteralsInOrder(src, 0);
  }

  lemma UpdatesApart(src: Text, t: Syntax, expected: Versions, j: nat, k: nat, a: Edit, b: Edit)
    requires Lockfile(src, t) && Distinct(expected) && j < k
    requires Updates(t, expected, j, a) && Updates(t, expected, k, b)
    ensures EditsApart(a, b)
  {
    hide ParseFile, Literals, VersionIn, HasWorkspaces;
    LockfileInOrder(src, t);
    VersionsApart(src, t, 0, |src|, expected[j].0, expected[k].0);
  }

  lemma UpdateReplaces(src: Text, t: Syntax, expected: Versions, k: nat, edit: Edit)
    requires Lockfile(src, t) && Updates(t, expected, k, edit)
    ensures Replaces(edit, Literals(t)) && edit.start < edit.end <= |src|
  {
    hide ParseFile, Literals, VersionIn, HasWorkspaces;
    LockfileInOrder(src, t);
    VersionIsLiteral(t, expected[k].0);
    ReplacesWithin(src, edit, Literals(t), 0, |src|);
  }

  lemma {:induction false} EditsSpread(src: Text, t: Syntax, expected: Versions)
    requires Lockfile(src, t) && Distinct(expected)
    ensures Spread(EditsOf(t, expected), |src|)
    ensures forall e :: e in EditsOf(t, expected) ==> Replaces(e, Literals(t))
    decreases |expected|
  {
    hide Lockfile, Literals, VersionIn, Replaces;
    if expected != [] {
      var n := |expected| - 1;
      var before := expected[..n];
      EditsSpread(src, t, before);
      var edits := EditsOf(t, before);
      var version := VersionIn(t, expected[n].0);
      if version.Some? && version.value.value != expected[n].1 {
        var edit := Edit(version.value.start, version.value.end, expected[n].1);
        assert Updates(t, expected, n, edit);
        UpdateReplaces(src, t, expected, n, edit);
        forall j | 0 <= j < |edits| ensures EditsApart(edits[j], edit) {
          assert edits[j] in edits;
          EditsUpdate(t, before, edits[j]);
          var k: nat :| Updates(t, before, k, edits[j]);
          assert Updates(t, expected, k, edits[j]);
          UpdatesApart(src, t, expected, k, n, edits[j], edit);
        }
        assert EditsOf(t, expected) == edits + [edit];
      } else {
        assert EditsOf(t, expected) == edits;
      }
    }
  }

  // ---------- the synchronised text ----------

  /** The edits in splicing order. */
  ghost function Plan(t: Syntax, expected: Versions): seq<Edit> {
    LastFirst(EditsOf(t, expected))
  }

  ghost function SyncedText(src: Text, t: Syntax, expected: Versions): Text
    requires Lockfile(src, t) && Distinct(expected)
  {
    EditsSpread(src, t, expected);
    SpreadStacks(EditsOf(t, expected), |src|);
    Splices(src, Plan(t, expected))
  }

  lemma PlanFits(src: Text, t: Syntax, expected: Versions)
    requires Lockfile(src, t) && Distinct(expected)
    ensures Stacked(Plan(t, expected), |src|)
    ensures forall k :: 0 <= k < |Plan(t, expected)| ==> Replaces(Plan(t, expected)[k], Literals(t))
    ensures forall e :: e in Plan(t, expected) <==> e in EditsOf(t, expected)
  {
    hide ParseFile, Literals, HasWorkspaces, EditsOf;
    EditsSpread(src, t, expected);
    SpreadStacks(EditsOf(t, expected), |src|);
    assert forall k :: 0 <= k < |Plan(t, expected)| ==> Plan(t, expected)[k] in Plan(t, expected);
  }

  // ---------- the meaning is kept ----------

  /** The value a literal is to have: the expected version if it is some workspace's version. */
  ghost function Wanted(t: Syntax, expected: Versions, l: Literal): Text {
    if expected == [] then l.value
    else
      var (workspace, wanted) := expected[|expected| - 1];
      if VersionIn(t, workspace) == Some(l) then wanted else Wanted(t, expected[..|expected| - 1], l)
  }

  /** A syntax tree with the positions of its literals forgotten. */
  ghost function Meaning(t: Syntax): Syntax {
    MapLiterals(t, (l: Literal) => Literal(0, 0, l.value))
  }

  lemma {:induction false} WantedIsVersion(src: Text, t: Syntax, expected: Versions, k: nat, l: Literal)
    requires Lockfile(src, t) && Distinct(expected) && k < |expected|
    requires VersionIn(t, expected[k].0) == Some(l)
    ensures Wanted(t, expected, l) == expected[k].1
    decreases |expected|
  {
    var n := |expected| - 1;
    if k < n {
      LockfileInOrder(src, t);
      VersionIsLiteral(t, expected[k].0);
      if VersionIn(t, expected[n].0).Some? { VersionsApart(src, t, 0, |src|, expected[k].0, expected[n].0); }
      WantedIsVersion(src, t, expected[..n], k, l);
    }
  }

  lemma {:induction false} WantedUnlisted(t: Syntax, expected: Versions, l: Literal)
    requires forall k :: 0 <= k < |expected| ==> VersionIn(t, expected[k].0) != Some(l)
    ensures Wanted(t, expected, l) == l.value
  {
    if expected != [] { WantedUnlisted(t, expected[..|expected| - 1], l); }
  }

  lemma {:induction false} ChangeFound(edits: seq<Edit>, bound: nat, edit: Edit)
    requires Stacked(edits, bound) && edit in edits
    ensures Change(edits, edit.start) == Some(edit.value)
  {
    if edits[0] != edit {
      var k :| 1 <= k < |edits| && edits[k] == edit;
      assert edit in edits[1..];
      StackedRest(edits, bound);
      ChangeFound(edits[1..], edits[0].start, edit);
    }
  }

  lemma {:induction false} ChangeIsEdit(edits: seq<Edit>, start: nat) returns (edit: Edit)
    requires Change(edits, start).Some?
    ensures edit in edits && edit.start == start && edit.value == Change(edits, start).value
  {
    if edits[0].start == start { edit := edits[0]; } else { edit := ChangeIsEdit(edits[1..], start); }
  }

  lemma SameStart(src: Text, ls: seq<Literal>, a: Literal, b: Literal)
    requires InOrder(src, ls, 0, |src|) && a in ls && b in ls && a.start == b.start
    ensures a == b
  {
  }

  /** The plan changes a literal exactly when some expected version differs from it. */
  lemma ChangeIsWanted(src: Text, t: Syntax, expected: Versions, l: Literal)
    requires Lockfile(src, t) && Distinct(expected) && l in Literals(t)
    ensures (match Change(Plan(t, expected), l.start) case Some(value) => value case None => l.value)
         == Wanted(t, expected, l)
  {
    hide ParseFile, Literals, HasWorkspaces, Wanted, Plan, EditsOf, VersionIn, Change;
    PlanFits(src, t, expected);
    LockfileInOrder(src, t);
    if Change(Plan(t, expected), l.start).Some? {
      var edit := ChangeIsEdit(Plan(t, expected), l.start);
      EditsUpdate(t, expected, edit);
      var k: nat :| Updates(t, expected, k, edit);
      VersionIsLiteral(t, expected[k].0);
      SameStart(src, Literals(t), l, VersionIn(t, expected[k].0).value);
      WantedIsVersion(src, t, expected, k, l);
    } else if exists k :: 0 <= k < |expected| && VersionIn(t, expected[k].0) == Some(l) {
      var k: nat :| k < |expected| && VersionIn(t, expected[k].0) == Some(l);
      WantedIsVersion(src, t, expected, k, l);
      if l.value != expected[k].1 {
        var edit := Edit(l.start, l.end, expected[k].1);
        assert Updates(t, expected, k, edit);
        EditsUpdate(t, expected, edit);
        ChangeFound(Plan(t, expected), |src|, edit);
      }
    } else {
      WantedUnlisted(t, expected, l);
    }
  }

  lemma PlanMeets(src: Text, t: Syntax, expected: Versions, l: Literal)
    requires Lockfile(src, t) && Distinct(expected) && l in Literals(t)
    ensures forall k :: 0 <= k < |Plan(t, expected)| ==> Meets(Plan(t, expected)[k], l)
  {
    hide ParseFile, Literals, HasWorkspaces, Plan, EditsOf;
    PlanFits(src, t, expected);
    LockfileInOrder(src, t);
    var plan := Plan(t, expected);
    forall k | 0 <= k < |plan| ensures Meets(plan[k], l) {
      assert Replaces(plan[k], Literals(t));
    }
  }

  /** The tree of the synchronised text, positions included. */
  ghost function SyncedTree(t: Syntax, expected: Versions): Syntax {
    MapLiterals(t, (l: Literal) => MoveAll(Plan(t, expected), l))
  }

  lemma LiteralSynced(src: Text, t: Syntax, expected: Versions, l: Literal)
    requires Lockfile(src, t) && Distinct(expected) && l in Literals(t)
    ensures MoveAll(Plan(t, expected), l).value == Wanted(t, expected, l)
  {
    hide ParseFile, Literals, HasWorkspaces, Plan, Wanted, Change, MoveAll;
    PlanFits(src, t, expected);
    PlanMeets(src, t, expected, l);
    MoveAllValue(Plan(t, expected), |src|, l);
    ChangeIsWanted(src, t, expected, l);
  }

  /** The synchronised text parses to the same tree with exactly the listed versions changed. */
  lemma SyncKeepsMeaning(src: Text, t: Syntax, expected: Versions)
    requires Lockfile(src, t) && Distinct(expected)
    ensures Lockfile(SyncedText(src, t, expected), SyncedTree(t, expected))
    ensures Meaning(SyncedTree(t, expected)) == MapLiterals(t, (l: Literal) => Literal(0, 0, Wanted(t, expected, l)))
  {
    hide ParseFile, Literals, HasWorkspaces, Plan, Wanted, MoveAll, MapLiterals;
    var plan := Plan(t, expected);
    var g := (l: Literal) => MoveAll(plan, l);
    PlanFits(src, t, expected);
    FilesEdited(src, t, plan);
    VersionMapped(t, g, []);
    MapTwice(t, g, (l: Literal) => Literal(0, 0, l.value), (l: Literal) => Literal(0, 0, MoveAll(plan, l).value));
    forall l | l in Literals(t) ensures MoveAll(plan, l).value == Wanted(t, expected, l) {
      LiteralSynced(src, t, expected, l);
    }
    MapSame(t, (l: Literal) => Literal(0, 0, MoveAll(plan, l).value),
      (l: Literal) => Literal(0, 0, Wanted(t, expected, l)));
  }

  // ---------- running again ----------

  lemma VersionSynced(src: Text, t: Syntax, expected: Versions, workspace: Text)
    requires Lockfile(src, t) && Distinct(expected)
    ensures VersionIn(SyncedTree(t, expected), workspace)
         == match VersionIn(t, workspace) case None => None case Some(l) => Some(MoveAll(Plan(t, expected), l))
    ensures VersionIn(t, workspace).Some? ==>
      VersionIn(SyncedTree(t, expected), workspace).value.value == Wanted(t, expected, VersionIn(t, workspace).value)
  {
    hide ParseFile, Literals, HasWorkspaces, Plan, Wanted, MoveAll, MapLiterals, VersionIn;
    VersionMapped(t, (l: Literal) => MoveAll(Plan(t, expected), l), workspace);
    if VersionIn(t, workspace).Some? {
      VersionIsLiteral(t, workspace);
      LiteralSynced(src, t, expected, VersionIn(t, workspace).value);
    }
  }

  /** Every listed workspace with a version string now has the expected one. */
  lemma ListedVersionSynced(src: Text, t: Syntax, expected: Versions, k: nat)
    requires Lockfile(src, t) && Distinct(expected) && k < |expected|
    ensures Actual(VersionIn(SyncedTree(t, expected), expected[k].0))
         == if VersionIn(t, expected[k].0).Some? then Some(expected[k].1) else None
  {
    hide ParseFile, Literals, HasWorkspaces, Plan, Wanted, MoveAll, MapLiterals, VersionIn, SyncedTree;
    VersionSynced(src, t, expected, expected[k].0);
    if VersionIn(t, expected[k].0).Some? { WantedIsVersion(src, t, expected, k, VersionIn(t, expected[k].0).value); }
  }

  function Unwritable(mismatches: seq<Mismatch>): seq<Mismatch> {
    if mismatches == [] then []
    else
      var last := mismatches[|mismatches| - 1];
      Unwritable(mismatches[..|mismatches| - 1]) + (if last.actual == None then [last] else [])
  }

  /** A second run edits nothing and reports only the entries with no writable version. */
  lemma SecondRunStable(src: Text, t: Syntax, expected: Versions)
    requires Lockfile(src, t) && Distinct(expected)
    ensures var t' := SyncedTree(t, expected);
            && Lockfile(SyncedText(src, t, expected), t')
            && SyncedText(SyncedText(src, t, expected), t', expected) == SyncedText(src, t, expected)
            && Workspaces(Lower(t)).Ok? && Workspaces(Lower(t')).Ok?
            && Mismatches(Workspaces(Lower(t')).value, expected) ==
                 Unwritable(Mismatches(Workspaces(Lower(t)).value, expected))
  {
    hide ParseFile, Literals, HasWorkspaces, Wanted, MoveAll, MapLiterals, VersionIn, SyncedTree, Splices;
    var t' := SyncedTree(t, expected);
    SyncKeepsMeaning(src, t, expected);
    SecondReport(src, t, expected, |expected|);
    assert expected[..|expected|] == expected;
    assert Plan(t', expected) == [];
    NothingSpliced(SyncedText(src, t, expected));
  }

  lemma NothingSpliced(src: Text)
    ensures Splices(src, []) == src
  {
  }

  lemma {:induction false} SecondReport(src: Text, t: Syntax, expected: Versions, n: nat)
    requires Lockfile(src, t) && Distinct(expected) && n <= |expected|
    requires HasWorkspaces(SyncedTree(t, expected))
    ensures var t' := SyncedTree(t, expected);
            && Workspaces(Lower(t)).Ok? && Workspaces(Lower(t')).Ok?
            && EditsOf(t', expected[..n]) == []
            && Mismatches(Workspaces(Lower(t')).value, expected[..n])
               == Unwritable(Mismatches(Workspaces(Lower(t)).value, expected[..n]))
    decreases n
  {
    hide ParseFile, Literals, HasWorkspaces, Wanted, MoveAll, MapLiterals, VersionIn, SyncedTree, Lower, VersionOf,
      Workspaces, Distinct;
    var t' := SyncedTree(t, expected);
    LookupAgrees(t, []);
    LookupAgrees(t', []);
    if n > 0 {
      SecondReport(src, t, expected, n - 1);
      var now := expected[..n];
      var (workspace, wanted) := expected[n - 1];
      assert now[..n - 1] == expected[..n - 1] && now[n - 1] == (workspace, wanted);
      LookupAgrees(t, workspace);
      LookupAgrees(t', workspace);
      ListedVersionSynced(src, t, expected, n - 1);
      var old_, new_ := Workspaces(Lower(t)).value, Workspaces(Lower(t')).value;
      UnwritableOneMore(Mismatches(old_, expected[..n - 1]), workspace, wanted, Actual(VersionOf(old_, workspace)));
    }
  }

  lemma UnwritableOneMore(before: seq<Mismatch>, workspace: Text, wanted: Text, actual: Option<Text>)
    ensures var more := if actual == Some(wanted) then [] else [Mismatch(workspace, wanted, actual)];
            Unwritable(before + more) == Unwritable(before) + (if actual == None then more else [])
  {
    if actual == Some(wanted) {
      assert before + [] == before;
    } else {
      var all := before + [Mismatch(workspace, wanted, actual)];
      assert all[..|all| - 1] == before;
    }
  }

  // ---------- up and down again ----------

  ghost predicate Lists(versions: Versions, workspace: Text) {
    exists k :: 0 <= k < |versions| && versions[k].0 == workspace
  }

  /** The versions to go back to: of the same workspaces, in any order, those the lockfile had. */
  ghost predicate Restores(t: Syntax, expected: Versions, down: Versions) {
    && Distinct(down)
    && (forall workspace :: Lists(down, workspace) <==> Lists(expected, workspace))
    && forall k :: 0 <= k < |down| ==> Restored(t, down[k])
  }

  ghost predicate Restored(t: Syntax, version: (Text, Text)) {
    VersionIn(t, version.0).Some? ==> version.1 == VersionIn(t, version.0).value.value
  }

  /** The same with the workspaces listed in step. */
  ghost predicate RestoresInStep(t: Syntax, expected: Versions, down: Versions) {
    && |down| == |expected|
    && forall k :: 0 <= k < |expected| ==> down[k].0 == expected[k].0 && Restored(t, down[k])
  }

  ghost function Listed(versions: Versions, workspace: Text): (version: (Text, Text))
    requires Lists(versions, workspace)
    ensures version in versions && version.0 == workspace
  {
    var k :| 0 <= k < |versions| && versions[k].0 == workspace;
    versions[k]
  }

  /** The list to go back to can be brought into step. */
  lemma InStep(t: Syntax, expected: Versions, down: Versions) returns (again: Versions)
    requires Distinct(expected) && Restores(t, expected, down)
    ensures RestoresInStep(t, expected, again) && Distinct(again)
    ensures forall v :: v in again <==> v in down
  {
    hide VersionIn, Restored;
    forall k | 0 <= k < |expected| ensures Lists(down, expected[k].0) {
      assert Lists(expected, expected[k].0);
    }
    again := seq(|expected|, k requires 0 <= k < |expected| => Listed(down, expected[k].0));
    forall v | v in down ensures v in again {
      assert Lists(down, v.0);
      var k :| 0 <= k < |expected| && expected[k].0 == v.0;
      assert again[k] == v;
    }
  }

  /** A plan is settled by which edits it holds. */
  lemma {:induction false} StackedUnique(a: seq<Edit>, b: seq<Edit>, bound: nat)
    requires Stacked(a, bound) && Stacked(b, bound) && forall e :: e in a <==> e in b
    ensures a == b
    decreases |a|
  {
    if b != [] { assert b[0] in a; }
    if a != [] {
      assert a[0] in b;
      StackedRest(a, bound);
      StackedRest(b, bound);
      forall e ensures e in a[1..] <==> e in b[1..] {
        if e in a[1..] { assert e in b; }
        if e in b[1..] { assert e in a; }
      }
      StackedUnique(a[1..], b[1..], a[0].start);
    }
  }

  /** The text does not depend on the order in which the versions are listed. */
  lemma OrderIsFree(src: Text, t: Syntax, a: Versions, b: Versions)
    requires Lockfile(src, t) && Distinct(a) && Distinct(b) && forall v :: v in a <==> v in b
    ensures SyncedText(src, t, a) == SyncedText(src, t, b)
  {
    hide Lockfile, VersionIn, Splices;
    PlanFits(src, t, a);
    PlanFits(src, t, b);
    forall e ensures e in EditsOf(t, a) <==> e in EditsOf(t, b) {
      EditsUpdate(t, a, e);
      EditsUpdate(t, b, e);
      if j: nat :| Updates(t, a, j, e) {
        assert a[j] in b;
        var k: nat :| k < |b| && b[k] == a[j];
        assert Updates(t, b, k, e);
      }
      if j: nat :| Updates(t, b, j, e) {
        assert b[j] in a;
        var k: nat :| k < |a| && a[k] == b[j];
        assert Updates(t, a, k, e);
      }
    }
    StackedUnique(Plan(t, a), Plan(t, b), |src|);
  }

  /** Each version literal about to change is printed as `JSON.stringify` prints it. */
  ghost predicate PrintedCanonically(src: Text, t: Syntax, expected: Versions) {
    forall k :: 0 <= k < |expected| ==> PrintedVersion(src, VersionIn(t, expected[k].0), expected[k].1)
  }

  ghost predicate PrintedVersion(src: Text, version: Option<Literal>, wanted: Text) {
    version.Some? && version.value.value != wanted ==>
      Printed(src, Edit(version.value.start, version.value.end, version.value.value))
  }

  lemma {:induction false} DownEdits(src: Text, t: Syntax, expected: Versions, down: Versions, n: nat)
    requires Lockfile(src, t) && Distinct(expected) && n <= |expected|
    requires RestoresInStep(t, expected, down)
    ensures EditsOf(SyncedTree(t, expected), down[..n])
         == BackAll(src, Plan(t, expected), EditsOf(t, expected[..n]))
    decreases n
  {
    hide ParseFile, Literals, HasWorkspaces, Wanted, MapLiterals, VersionIn, SyncedTree, Plan, MoveAll, Lockfile,
      ParseLiteral;
    var plan := Plan(t, expected);
    if n > 0 {
      DownEdits(src, t, expected, down, n - 1);
      assert down[..n][..n - 1] == down[..n - 1] && expected[..n][..n - 1] == expected[..n - 1];
      var version := VersionIn(t, expected[n - 1].0);
      VersionSynced(src, t, expected, expected[n - 1].0);
      ListedVersionSynced(src, t, expected, n - 1);
      var before := EditsOf(t, expected[..n - 1]);
      if version.Some? && version.value.value != expected[n - 1].1 {
        var l := version.value;
        var edit := Edit(l.start, l.end, expected[n - 1].1);
        VersionReads(src, t, expected[n - 1].0);
        MoveValueFree(plan, l, Literal(l.start, l.end, []));
        assert Back(src, plan, edit) == Edit(MoveAll(plan, l).start, MoveAll(plan, l).end, l.value);
        BackOneMore(src, plan, before, edit);
      }
    }
  }

  lemma VersionReads(src: Text, t: Syntax, workspace: Text)
    requires Lockfile(src, t) && VersionIn(t, workspace).Some?
    ensures Reads(src, VersionIn(t, workspace).value)
  {
    hide ParseFile, Literals, HasWorkspaces, VersionIn, Reads;
    LockfileInOrder(src, t);
    VersionIsLiteral(t, workspace);
  }

  lemma {:induction false} BackOneMore(src: Text, edits: seq<Edit>, todo: seq<Edit>, edit: Edit)
    ensures BackAll(src, edits, todo + [edit]) == BackAll(src, edits, todo) + [Back(src, edits, edit)]
  {
    if todo != [] {
      BackOneMore(src, edits, todo[1..], edit);
      assert (todo + [edit])[1..] == todo[1..] + [edit];
    }
  }

  lemma {:induction false} InsertBack(src: Text, edits: seq<Edit>, x: Edit, todo: seq<Edit>)
    requires forall k :: 0 <= k < |todo| ==>
      (StartsLater(x, todo[k]) <==> StartsLater(Back(src, edits, x), Back(src, edits, todo[k])))
    ensures Insert(StartsLater, Back(src, edits, x), BackAll(src, edits, todo)) ==
      BackAll(src, edits, Insert(StartsLater, x, todo))
  {
    hide Back;
    if todo != [] && !StartsLater(x, todo[0]) {
      InsertBack(src, edits, x, todo[1..]);
    }
  }

  /** Going back keeps the splicing order. */
  lemma {:induction false} SortBack(src: Text, edits: seq<Edit>, todo: seq<Edit>)
    requires forall a, b :: a in todo && b in todo ==>
      (StartsLater(a, b) <==> StartsLater(Back(src, edits, a), Back(src, edits, b)))
    ensures LastFirst(BackAll(src, edits, todo)) == BackAll(src, edits, LastFirst(todo))
  {
    hide Back;
    if todo != [] {
      SortBack(src, edits, todo[1..]);
      var sorted := LastFirst(todo[1..]);
      SortKeeps(StartsLater, todo[1..]);
      SameElements(sorted, todo[1..]);
      assert forall k :: 0 <= k < |sorted| ==> sorted[k] in sorted;
      InsertBack(src, edits, todo[0], sorted);
      assert BackAll(src, edits, todo) == [Back(src, edits, todo[0])] + BackAll(src, edits, todo[1..]);
    }
  }

  lemma BackKeepsOrder(src: Text, edits: seq<Edit>, bound: nat, bound': nat, a: Edit, b: Edit)
    requires Stacked(edits, bound) && Stacked(BackAll(src, edits, edits), bound')
    requires a in edits && b in edits
    ensures StartsLater(a, b) <==> StartsLater(Back(src, edits, a), Back(src, edits, b))
  {
    var j :| 0 <= j < |edits| && edits[j] == a;
    var k :| 0 <= k < |edits| && edits[k] == b;
    var back := BackAll(src, edits, edits);
    assert back[j] == Back(src, edits, a) && back[k] == Back(src, edits, b);
  }

  /** Reprinting the plan's spans prints the versions as they were. */
  lemma PlanReprints(src: Text, t: Syntax, expected: Versions, j: nat, k: nat)
    requires Lockfile(src, t) && k < |Plan(t, expected)| && Updates(t, expected, j, Plan(t, expected)[k])
    ensures var l := VersionIn(t, expected[j].0).value;
            Reprints(src, Plan(t, expected))[k] == Edit(l.start, l.end, l.value)
  {
    hide ParseFile, Literals, HasWorkspaces, VersionIn, Plan, EditsOf;
    VersionReads(src, t, expected[j].0);
  }

  ghost predicate AllPrinted(src: Text, edits: seq<Edit>) {
    forall k :: 0 <= k < |edits| ==> Printed(src, edits[k])
  }

  lemma CanonicalPrints(src: Text, t: Syntax, expected: Versions)
    requires Lockfile(src, t) && Distinct(expected)
    ensures PrintedCanonically(src, t, expected) <==> AllPrinted(src, Reprints(src, Plan(t, expected)))
  {
    hide ParseFile, Literals, HasWorkspaces, VersionIn, Plan, EditsOf, Printed, Lockfile;
    PlanFits(src, t, expected);
    var plan := Plan(t, expected);
    var again := Reprints(src, plan);
    if PrintedCanonically(src, t, expected) {
      forall k | 0 <= k < |again| ensures Printed(src, again[k]) {
        assert plan[k] in plan;
        EditsUpdate(t, expected, plan[k]);
        var j: nat :| Updates(t, expected, j, plan[k]);
        PlanReprints(src, t, expected, j, k);
        assert PrintedVersion(src, VersionIn(t, expected[j].0), expected[j].1);
      }
    }
    if AllPrinted(src, again) {
      forall j | 0 <= j < |expected| ensures PrintedVersion(src, VersionIn(t, expected[j].0), expected[j].1) {
        var version := VersionIn(t, expected[j].0);
        if version.Some? && version.value.value != expected[j].1 {
          var edit := Edit(version.value.start, version.value.end, expected[j].1);
          assert Updates(t, expected, j, edit);
          EditsUpdate(t, expected, edit);
          assert edit in plan;
          var k :| 0 <= k < |plan| && plan[k] == edit;
          PlanReprints(src, t, expected, j, k);
          assert Printed(src, again[k]);
        }
      }
    }
  }

  lemma ReprintsReplace(src: Text, t: Syntax, expected: Versions)
    requires Lockfile(src, t) && Distinct(expected)
    ensures var again := Reprints(src, Plan(t, expected));
            Stacked(again, |src|) && forall k :: 0 <= k < |again| ==> Replaces(again[k], Literals(t))
  {
    hide ParseFile, Literals, HasWorkspaces, VersionIn, Plan, EditsOf, Replaces;
    PlanFits(src, t, expected);
    var plan := Plan(t, expected);
    ReprintsStacked(src, plan, |src|);
    forall k | 0 <= k < |plan| ensures Replaces(Reprints(src, plan)[k], Literals(t)) {
      assert Replaces(plan[k], Literals(t));
      SameSpanReplaces(t, plan[k], Reprints(src, plan)[k]);
    }
  }

  lemma SameSpanReplaces(t: Syntax, a: Edit, b: Edit)
    requires Replaces(a, Literals(t)) && a.start == b.start && a.end == b.end
    ensures Replaces(b, Literals(t))
  {
  }

  /** When reprinting restores the text, every span stayed where it was. */
  lemma RestoredStays(src: Text, t: Syntax, edits: seq<Edit>)
    requires ParseFile(src) == Ok(t) && Stacked(edits, |src|) && Splices(src, edits) == src
    requires forall k :: 0 <= k < |edits| ==> Replaces(edits[k], Literals(t))
    ensures forall k :: 0 <= k < |edits| ==> Stays(edits, edits[k])
  {
    hide ParseFile, Literals, MapLiterals, Splices, MoveAll;
    FilesEdited(src, t, edits);
    forall k | 0 <= k < |edits| ensures Stays(edits, edits[k]) {
      assert Replaces(edits[k], Literals(t));
      var l :| l in Literals(t) && l.start == edits[k].start && l.end == edits[k].end;
      MapFixes(t, (l: Literal) => MoveAll(edits, l), l);
      MoveValueFree(edits, l, Literal(l.start, l.end, []));
    }
  }

  lemma DownInStep(src: Text, t: Syntax, expected: Versions, down: Versions)
    requires Lockfile(src, t) && Distinct(expected) && RestoresInStep(t, expected, down)
    ensures Lockfile(SyncedText(src, t, expected), SyncedTree(t, expected)) && Distinct(down)
    ensures Stacked(Reprints(src, Plan(t, expected)), |src|)
    ensures SyncedText(SyncedText(src, t, expected), SyncedTree(t, expected), down)
         == Splices(src, Reprints(src, Plan(t, expected)))
  {
    hide Lockfile, VersionIn, SyncedTree, EditsOf, Splices, Back, MapLiterals, OldValue;
    SyncKeepsMeaning(src, t, expected);
    PlanFits(src, t, expected);
    var plan := Plan(t, expected);
    SplicesUndone(src, plan);
    DownEdits(src, t, expected, down, |expected|);
    assert down[..|expected|] == down && expected[..|expected|] == expected;
    var edits := EditsOf(t, expected);
    forall a, b | a in edits && b in edits
      ensures StartsLater(a, b) <==> StartsLater(Back(src, plan, a), Back(src, plan, b))
    {
      BackKeepsOrder(src, plan, |src|, |Splices(src, plan)|, a, b);
    }
    SortBack(src, plan, edits);
  }

  lemma DownText(src: Text, t: Syntax, expected: Versions, down: Versions)
    requires Lockfile(src, t) && Distinct(expected) && Restores(t, expected, down)
    ensures Lockfile(SyncedText(src, t, expected), SyncedTree(t, expected))
    ensures Stacked(Reprints(src, Plan(t, expected)), |src|)
    ensures SyncedText(SyncedText(src, t, expected), SyncedTree(t, expected), down)
         == Splices(src, Reprints(src, Plan(t, expected)))
  {
    hide Lockfile, SyncedText, SyncedTree, Plan, Splices, Reprints, Distinct, RestoresInStep;
    var again := InStep(t, expected, down);
    DownInStep(src, t, expected, again);
    OrderIsFree(SyncedText(src, t, expected), SyncedTree(t, expected), down, again);
  }

  /** A version-up run followed by a version-down run, whatever the order of its list, restores the
      original text exactly when the version literals the first run changed were printed as
      `JSON.stringify` prints them. */
  lemma UpThenDownRestores(src: Text, t: Syntax, expected: Versions, down: Versions)
    requires Lockfile(src, t) && Distinct(expected) && Restores(t, expected, down)
    ensures Lockfile(SyncedText(src, t, expected), SyncedTree(t, expected))
    ensures SyncedText(SyncedText(src, t, expected), SyncedTree(t, expected), down) == src
       <==> PrintedCanonically(src, t, expected)
  {
    hide Literals, VersionIn, SyncedTree, SyncedText, Plan, Splices, HasWorkspaces, ParseFile, Printed;
    var again := Reprints(src, Plan(t, expected));
    DownText(src, t, expected, down);
    CanonicalPrints(src, t, expected);
    ReprintsReplace(src, t, expected);
    if PrintedCanonically(src, t, expected) {
      PrintedSplices(src, again);
    }
    if Splices(src, again) == src {
      RestoredStays(src, t, again);
      UnchangedIsPrinted(src, again);
    }
  }

  // ---------- the whole run ----------

  /** What a run answers: the first failure, or the synchronised text with the reports. */
  ghost function SyncOutcome(source: Text, expected: Versions): Result<SyncResult, Failure>
    requires Distinct(expected)
  {
    match ParseFile(source)
    case Err(failure) => Err(failure)
    case Ok(t) =>
      LookupAgrees(t, []);
      if HasWorkspaces(t) then
        Ok(SyncResult(SyncedText(source, t, expected), Mismatches(Workspaces(Lower(t)).value, expected)))
      else Err(Workspaces(Lower(t)).error)
  }

  /** `syncWorkspaceVersions`: parse, compare, then splice the replacements last span first. */
  method SyncWorkspaceVersions(source: Text, expectedVersions: Versions) returns (r: Result<SyncResult, Failure>)
    requires Distinct(expectedVersions)
    ensures r == SyncOutcome(source, expectedVersions)
  {
    hide SkipTrivia, ParseValue, Lower, EditsOf, VersionIn;
    var parser := new LockfileParser.Parser(source);
    var root := parser.ParseValueHere();
    if root.Err? { return Err(root.error); }
    var failed := parser.SkipTriviaHere();
    if failed.Some? { return Err(failed.value); }
    if parser.cursor != |source| { return Err(Failure(parser.cursor, UnexpectedContent)); }
    ghost var t := ParseFile(source).value;
    LookupAgrees(t, []);
    var workspaces := Workspaces(root.value);
    if workspaces.Err? { return Err(workspaces.error); }

    var mismatches: seq<Mismatch> := [];
    var replacements: seq<Edit> := [];
    for k := 0 to |expectedVersions|
      invariant mismatches == Mismatches(workspaces.value, expectedVersions[..k])
      invariant replacements == Replacements(workspaces.value, expectedVersions[..k])
    {
      assert expectedVersions[..k + 1][..k] == expectedVersions[..k];
      var (workspace, expected) := expectedVersions[k];
      var version := VersionOf(workspaces.value, workspace);
      var actual := Actual(version);
      if actual == Some(expected) { continue; }
      mismatches := mismatches + [Mismatch(workspace, expected, actual)];
      if version.Some? {
        replacements := replacements + [Edit(version.value.start, version.value.end, expected)];
      }
    }
    assert expectedVersions[..|expectedVersions|] == expectedVersions;
    ReplacementsAreEdits(t, expectedVersions);
    PlanFits(source, t, expectedVersions);
    var text := SpliceAll(source, LastFirst(replacements));
    return Ok(SyncResult(text, mismatches));
  }

  method SpliceAll(source: Text, edits: seq<Edit>) returns (text: Text)
    requires Stacked(edits, |source|)
    ensures text == Splices(source, edits)
  {
    text := source;
    for k := 0 to |edits|
      invariant Stacked(edits[k..], |text|)
      invariant Splices(text, edits[k..]) == Splices(source, edits)
    {
      assert edits[k..][1..] == edits[k + 1..] && edits[k..][0] == edits[k];
      StackedRest(edits[k..], |text|);
      text := text[..edits[k].start] + Stringify(edits[k].value) + text[edits[k].end..];
    }
  }
}

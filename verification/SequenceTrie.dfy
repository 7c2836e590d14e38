/** The trie itself: interned words and separator keys, nodes linked by word ids, and the walk. */
module SequenceTrie {
  import opened Common
  import opened GapRules
  import opened WordTrie

  /** Word id to child, and (separator key id, word id) to the longest separator accepted there. */
  datatype TrieNode = TrieNode(terminals: seq<Terminal>, children: map<nat, nat>, separators: map<(nat, nat), nat>)

  /** `m` numbers the names in the order they were first seen. */
  ghost predicate Interned(m: map<string, nat>, names: seq<string>) {
    && |m| == |names|
    && (forall i :: 0 <= i < |names| ==> names[i] in m && m[names[i]] == i)
    && (forall w :: w in m ==> m[w] < |names| && names[m[w]] == w)
  }

  ghost function IdsOf(spellings: map<string, seq<nat>>, form: string): seq<nat> {
    if form in spellings then spellings[form] else []
  }

  ghost predicate Lists(spellings: map<string, seq<nat>>, form: string, id: nat) {
    id in IdsOf(spellings, form)
  }

  ghost predicate Once(ids: seq<nat>) {
    forall i, j :: 0 <= i < j < |ids| ==> ids[i] != ids[j]
  }

  /** Each folded spelling lists the ids of the words it spells, each of them once. */
  ghost predicate SpellingsOk(spellings: map<string, seq<nat>>, names: seq<string>, spells: set<(string, string)>) {
    && (forall form: string, id: nat :: Lists(spellings, form, id) <==> id < |names| && (form, names[id]) in spells)
    && (forall s :: s in spells ==> s.1 in names)
    && (forall form: string :: Once(IdsOf(spellings, form)))
  }

  /** Node `at[p]` is the node of path `p`. */
  ghost predicate Located(nodes: seq<TrieNode>, paths: seq<Path>, at: map<Path, nat>, known: set<Path>) {
    && |nodes| == |paths| > 0 && paths[0] == [] && at.Keys == known
    && (forall n :: 0 <= n < |paths| ==> paths[n] in at && at[paths[n]] == n)
    && (forall p :: p in at ==> at[p] < |paths| && paths[at[p]] == p)
  }

  ghost predicate ChildOk(paths: seq<Path>, at: map<Path, nat>, names: seq<string>, n: nat, id: nat, child: nat) {
    && n < |paths| && id < |names|
    && paths[n] + [names[id]] in at && at[paths[n] + [names[id]]] == child
  }

  /** Every longer path hangs on its parent under its last word. */
  ghost predicate Hangs(nodes: seq<TrieNode>, at: map<Path, nat>, words: map<string, nat>, p: Path) {
    p != [] ==>
      && p[..|p| - 1] in at && at[p[..|p| - 1]] < |nodes| && p[|p| - 1] in words
      && words[p[|p| - 1]] in nodes[at[p[..|p| - 1]]].children
  }

  ghost predicate ChildrenOk(nodes: seq<TrieNode>, paths: seq<Path>, at: map<Path, nat>, words: map<string, nat>,
                             names: seq<string>) {
    && (forall n, id :: 0 <= n < |nodes| && id in nodes[n].children ==>
         ChildOk(paths, at, names, n, id, nodes[n].children[id]))
    && (forall p :: p in at ==> Hangs(nodes, at, words, p))
  }

  ghost predicate SeparatorOk(paths: seq<Path>, names: seq<string>, keyNames: seq<string>,
                              allowed: map<(Path, string), nat>,
                              n: nat, s: (nat, nat), longest: nat) {
    && n < |paths| && s.0 < |keyNames| && s.1 < |names|
    && (paths[n] + [names[s.1]], keyNames[s.0]) in allowed
    && allowed[(paths[n] + [names[s.1]], keyNames[s.0])] == longest
  }

  /** Every allowed separator is recorded on the parent of its path. */
  ghost predicate Recorded(nodes: seq<TrieNode>, at: map<Path, nat>, words: map<string, nat>,
                           gapKeys: map<string, nat>, a: (Path, string)) {
    && a.0 != [] && a.0 in at && a.0[..|a.0| - 1] in at && at[a.0[..|a.0| - 1]] < |nodes|
    && a.0[|a.0| - 1] in words && a.1 in gapKeys
    && (gapKeys[a.1], words[a.0[|a.0| - 1]]) in nodes[at[a.0[..|a.0| - 1]]].separators
  }

  ghost predicate SeparatorsOk(nodes: seq<TrieNode>, paths: seq<Path>, at: map<Path, nat>, words: map<string, nat>,
                               names: seq<string>,
                               gapKeys: map<string, nat>, keyNames: seq<string>, allowed: map<(Path, string), nat>) {
    && (forall n, s :: 0 <= n < |nodes| && s in nodes[n].separators ==>
          SeparatorOk(paths, names, keyNames, allowed, n, s, nodes[n].separators[s]))
    && (forall a :: a in allowed ==> Recorded(nodes, at, words, gapKeys, a))
  }

  ghost predicate TerminalsOk(nodes: seq<TrieNode>, paths: seq<Path>, f: Facts) {
    && |nodes| == |paths|
    && (forall n :: 0 <= n < |nodes| ==> nodes[n].terminals == TerminalsAt(f, paths[n]))
    && (forall p :: p in f.ends ==> p in f.paths)
  }

  // ---------- numbering one more name ----------

  ghost predicate Grows(m: map<string, nat>, names: seq<string>, m': map<string, nat>, names': seq<string>) {
    names <= names' && forall w :: w in m ==> w in m' && m'[w] == m[w]
  }

  function Numbered(m: map<string, nat>, s: string): map<string, nat> {
    if s in m then m else m[s := |m|]
  }

  ghost function Named(m: map<string, nat>, names: seq<string>, s: string): seq<string> {
    if s in m then names else names + [s]
  }

  lemma InternGrows(m: map<string, nat>, names: seq<string>, s: string)
    requires Interned(m, names)
    ensures Interned(Numbered(m, s), Named(m, names, s)) && Grows(m, names, Numbered(m, s), Named(m, names, s))
    ensures s in Numbered(m, s)
  {
  }

  lemma ChildrenGrow(nodes: seq<TrieNode>, paths: seq<Path>, at: map<Path, nat>, words: map<string, nat>,
                     names: seq<string>,
                     words': map<string, nat>, names': seq<string>)
    requires ChildrenOk(nodes, paths, at, words, names) && Grows(words, names, words', names')
    ensures ChildrenOk(nodes, paths, at, words', names')
  {
  }

  lemma SeparatorsGrow(nodes: seq<TrieNode>, paths: seq<Path>, at: map<Path, nat>, words: map<string, nat>,
                       names: seq<string>,
                       gapKeys: map<string, nat>, keyNames: seq<string>, allowed: map<(Path, string), nat>,
                       words': map<string, nat>, names': seq<string>, gapKeys': map<string, nat>,
                       keyNames': seq<string>)
    requires SeparatorsOk(nodes, paths, at, words, names, gapKeys, keyNames, allowed)
    requires Grows(words, names, words', names') && Grows(gapKeys, keyNames, gapKeys', keyNames')
    ensures SeparatorsOk(nodes, paths, at, words', names', gapKeys', keyNames', allowed)
  {
    forall n, s | 0 <= n < |nodes| && s in nodes[n].separators
      ensures SeparatorOk(paths, names', keyNames', allowed, n, s, nodes[n].separators[s])
    {
      assert SeparatorOk(paths, names, keyNames, allowed, n, s, nodes[n].separators[s]);
    }
    forall a | a in allowed ensures Recorded(nodes, at, words', gapKeys', a) {
      assert Recorded(nodes, at, words, gapKeys, a);
    }
  }

  lemma SpellingsGrow(spellings: map<string, seq<nat>>, words: map<string, nat>, names: seq<string>,
                      spells: set<(string, string)>, s: string)
    requires SpellingsOk(spellings, names, spells) && Interned(words, names)
    ensures SpellingsOk(spellings, Named(words, names, s), spells)
  {
  }

  // ---------- listing the forms of a word ----------

  function ListForm(spellings: map<string, seq<nat>>, form: string, id: nat): map<string, seq<nat>> {
    var ids := if form in spellings then spellings[form] else [];
    spellings[form := if id in ids then ids else ids + [id]]
  }

  lemma ListFormLists(spellings: map<string, seq<nat>>, form: string, id: nat, form': string, id': nat)
    ensures Lists(ListForm(spellings, form, id), form', id') <==>
      Lists(spellings, form', id') || (form' == form && id' == id)
  {
  }

  lemma ListFormOnce(spellings: map<string, seq<nat>>, form: string, id: nat, form': string)
    requires Once(IdsOf(spellings, form'))
    ensures Once(IdsOf(ListForm(spellings, form, id), form'))
  {
  }

  lemma SpellOneMore(spellings: map<string, seq<nat>>, names: seq<string>, spells: set<(string, string)>,
                     form: string, id: nat)
    requires SpellingsOk(spellings, names, spells) && id < |names|
    requires forall i, j :: 0 <= i < j < |names| ==> names[i] != names[j]
    ensures SpellingsOk(ListForm(spellings, form, id), names, spells + {(form, names[id])})
  {
    forall f: string, i: nat
      ensures Lists(ListForm(spellings, form, id), f, i) <==>
        i < |names| && (f, names[i]) in spells + {(form, names[id])}
    {
      ListFormLists(spellings, form, id, f, i);
    }
    forall f: string ensures Once(IdsOf(ListForm(spellings, form, id), f)) {
      ListFormOnce(spellings, form, id, f);
    }
  }

  // ---------- one more child, separator or terminal ----------

  const EmptyNode := TrieNode([], map[], map[])

  lemma LocateOneMore(nodes: seq<TrieNode>, paths: seq<Path>, at: map<Path, nat>, known: set<Path>,
                      nodes': seq<TrieNode>, p: Path)
    requires Located(nodes, paths, at, known) && p !in at && |nodes'| == |nodes| + 1
    ensures Located(nodes', paths + [p], at[p := |nodes|], known + {p})
  {
  }

  function WithChild(nodes: seq<TrieNode>, node: nat, id: nat, child: nat): seq<TrieNode>
    requires node < |nodes|
  {
    nodes[node := nodes[node].(children := nodes[node].children[id := child])] + [EmptyNode]
  }

  /** Known paths keep their nodes. */
  ghost predicate Extends(paths: seq<Path>, at: map<Path, nat>, paths': seq<Path>, at': map<Path, nat>) {
    paths <= paths' && forall p :: p in at ==> p in at' && at'[p] == at[p]
  }

  ghost predicate KeepsChildren(nodes: seq<TrieNode>, nodes': seq<TrieNode>) {
    |nodes| <= |nodes'| && forall n :: 0 <= n < |nodes| ==> nodes[n].children.Keys <= nodes'[n].children.Keys
  }

  ghost predicate KeepsSeparators(nodes: seq<TrieNode>, nodes': seq<TrieNode>) {
    |nodes| <= |nodes'| && forall n :: 0 <= n < |nodes| ==> nodes[n].separators.Keys <= nodes'[n].separators.Keys
  }

  lemma HangsStill(nodes: seq<TrieNode>, at: map<Path, nat>, paths: seq<Path>, nodes': seq<TrieNode>,
                   at': map<Path, nat>,
                   paths': seq<Path>, words: map<string, nat>, p: Path)
    requires Hangs(nodes, at, words, p) && Extends(paths, at, paths', at') && KeepsChildren(nodes, nodes')
    ensures Hangs(nodes', at', words, p)
  {
  }

  lemma RecordedStill(nodes: seq<TrieNode>, at: map<Path, nat>, paths: seq<Path>, nodes': seq<TrieNode>,
                      at': map<Path, nat>,
                      paths': seq<Path>, words: map<string, nat>, gapKeys: map<string, nat>, a: (Path, string))
    requires Recorded(nodes, at, words, gapKeys, a) && Extends(paths, at, paths', at') && KeepsSeparators(nodes, nodes')
    ensures Recorded(nodes', at', words, gapKeys, a)
  {
  }

  lemma ChildOkStill(paths: seq<Path>, at: map<Path, nat>, paths': seq<Path>, at': map<Path, nat>, names: seq<string>,
                     n: nat, id: nat, child: nat)
    requires ChildOk(paths, at, names, n, id, child) && Extends(paths, at, paths', at')
    ensures ChildOk(paths', at', names, n, id, child)
  {
  }

  lemma ExtendOne(paths: seq<Path>, at: map<Path, nat>, p: Path)
    requires p !in at
    ensures Extends(paths, at, paths + [p], at[p := |paths|])
  {
  }

  lemma WithChildKeeps(nodes: seq<TrieNode>, node: nat, id: nat, child: nat)
    requires node < |nodes|
    ensures KeepsChildren(nodes, WithChild(nodes, node, id, child))
  {
  }

  lemma NewChildOk(nodes: seq<TrieNode>, paths: seq<Path>, at: map<Path, nat>, words: map<string, nat>,
                   names: seq<string>, node: nat, id: nat)
    requires |nodes| == |paths| && Interned(words, names)
    requires node < |nodes| && id < |names| && paths[node] in at && at[paths[node]] == node
      && paths[node] + [names[id]] !in at
    ensures var p := paths[node] + [names[id]];
            && ChildOk(paths + [p], at[p := |nodes|], names, node, id, |nodes|)
            && Hangs(WithChild(nodes, node, id, |nodes|), at[p := |nodes|], words, p)
  {
  }

  lemma ChildrenOneMore(nodes: seq<TrieNode>, paths: seq<Path>, at: map<Path, nat>, words: map<string, nat>,
                        names: seq<string>,
                        node: nat, id: nat)
    requires |nodes| == |paths| && ChildrenOk(nodes, paths, at, words, names) && Interned(words, names)
    requires node < |nodes| && id < |names| && paths[node] in at && at[paths[node]] == node
      && paths[node] + [names[id]] !in at
    ensures var p := paths[node] + [names[id]];
            ChildrenOk(WithChild(nodes, node, id, |nodes|), paths + [p], at[p := |nodes|], words, names)
  {
    hide Hangs, ChildOk, Extends, KeepsChildren, Interned;
    var p := paths[node] + [names[id]];
    var nodes', paths', at' := WithChild(nodes, node, id, |nodes|), paths + [p], at[p := |nodes|];
    ExtendOne(paths, at, p);
    WithChildKeeps(nodes, node, id, |nodes|);
    NewChildOk(nodes, paths, at, words, names, node, id);
    forall n, i | 0 <= n < |nodes'| && i in nodes'[n].children
      ensures ChildOk(paths', at', names, n, i, nodes'[n].children[i])
    {
      if n == node && i == id {
      } else {
        assert n < |nodes| && i in nodes[n].children && nodes'[n].children[i] == nodes[n].children[i];
        ChildOkStill(paths, at, paths', at', names, n, i, nodes[n].children[i]);
      }
    }
    forall q | q in at' ensures Hangs(nodes', at', words, q) {
      if q != p { HangsStill(nodes, at, paths, nodes', at', paths', words, q); }
    }
  }

  lemma SeparatorOkStill(paths: seq<Path>, paths': seq<Path>, names: seq<string>, keyNames: seq<string>,
                         allowed: map<(Path, string), nat>,
                         n: nat, s: (nat, nat), longest: nat)
    requires SeparatorOk(paths, names, keyNames, allowed, n, s, longest) && paths <= paths'
    ensures SeparatorOk(paths', names, keyNames, allowed, n, s, longest)
  {
  }

  lemma SeparatorsKept(nodes: seq<TrieNode>, paths: seq<Path>, at: map<Path, nat>, words: map<string, nat>,
                       names: seq<string>,
                       gapKeys: map<string, nat>, keyNames: seq<string>, allowed: map<(Path, string), nat>,
                       nodes': seq<TrieNode>, p: Path)
    requires SeparatorsOk(nodes, paths, at, words, names, gapKeys, keyNames, allowed)
    requires |nodes| == |paths| && |nodes'| == |nodes| + 1 && nodes'[|nodes|] == EmptyNode && p !in at
    requires forall n :: 0 <= n < |nodes| ==> nodes'[n].separators == nodes[n].separators
    ensures SeparatorsOk(nodes', paths + [p], at[p := |nodes|], words, names, gapKeys, keyNames, allowed)
  {
    hide SeparatorOk, Recorded, Extends;
    ExtendOne(paths, at, p);
    forall n, s | 0 <= n < |nodes'| && s in nodes'[n].separators
      ensures SeparatorOk(paths + [p], names, keyNames, allowed, n, s, nodes'[n].separators[s])
    {
      SeparatorOkStill(paths, paths + [p], names, keyNames, allowed, n, s, nodes[n].separators[s]);
    }
    forall a | a in allowed ensures Recorded(nodes', at[p := |nodes|], words, gapKeys, a) {
      RecordedStill(nodes, at, paths, nodes', at[p := |nodes|], paths + [p], words, gapKeys, a);
    }
  }

  function Raised(separators: map<(nat, nat), nat>, s: (nat, nat), maxChars: nat): map<(nat, nat), nat> {
    separators[s := Max(if s in separators then separators[s] else 0, maxChars)]
  }

  function WithSeparator(nodes: seq<TrieNode>, node: nat, s: (nat, nat), maxChars: nat): seq<TrieNode>
    requires node < |nodes|
  {
    nodes[node := nodes[node].(separators := Raised(nodes[node].separators, s, maxChars))]
  }

  /** The slot just written: what it held before, and what it stands for. */
  lemma RaisedSlot(nodes: seq<TrieNode>, paths: seq<Path>, at: map<Path, nat>, words: map<string, nat>,
                   names: seq<string>,
                   gapKeys: map<string, nat>, keyNames: seq<string>, allowed: map<(Path, string), nat>,
                   node: nat, s: (nat, nat), maxChars: nat)
    requires SeparatorsOk(nodes, paths, at, words, names, gapKeys, keyNames, allowed)
    requires Interned(words, names) && Interned(gapKeys, keyNames) && |nodes| == |paths|
    requires node < |nodes| && s.0 < |keyNames| && s.1 < |names| && paths[node] + [names[s.1]] in at
    requires paths[node] in at && at[paths[node]] == node
    ensures var key := (paths[node] + [names[s.1]], keyNames[s.0]);
            var allowed' := Raise(allowed, key, maxChars);
            var nodes' := WithSeparator(nodes, node, s, maxChars);
            && SeparatorOk(paths, names, keyNames, allowed', node, s, nodes'[node].separators[s])
            && Recorded(nodes', at, words, gapKeys, key)
  {
  }

  lemma OtherSlot(paths: seq<Path>, at: map<Path, nat>, words: map<string, nat>, names: seq<string>,
                  gapKeys: map<string, nat>, keyNames: seq<string>, allowed: map<(Path, string), nat>,
                  n: nat, r: (nat, nat), longest: nat, node: nat, s: (nat, nat), maxChars: nat)
    requires SeparatorOk(paths, names, keyNames, allowed, n, r, longest)
    requires Interned(words, names) && Interned(gapKeys, keyNames)
    requires n < |paths| && node < |paths| && s.0 < |keyNames| && s.1 < |names| && !(n == node && r == s)
    requires paths[n] in at && paths[node] in at && at[paths[n]] == n && at[paths[node]] == node
    ensures SeparatorOk(paths, names, keyNames, Raise(allowed, (paths[node] + [names[s.1]], keyNames[s.0]), maxChars),
      n, r, longest)
  {
    KeysDiffer(paths, at, names, keyNames, words, gapKeys, n, r, node, s);
  }

  lemma WithSeparatorKeeps(nodes: seq<TrieNode>, node: nat, s: (nat, nat), maxChars: nat)
    requires node < |nodes|
    ensures KeepsSeparators(nodes, WithSeparator(nodes, node, s, maxChars))
  {
  }

  lemma SeparatorRaised(nodes: seq<TrieNode>, paths: seq<Path>, at: map<Path, nat>, known: set<Path>,
                        words: map<string, nat>,
                        names: seq<string>, gapKeys: map<string, nat>, keyNames: seq<string>,
                        allowed: map<(Path, string), nat>,
                        node: nat, s: (nat, nat), maxChars: nat)
    requires SeparatorsOk(nodes, paths, at, words, names, gapKeys, keyNames, allowed)
    requires Interned(words, names) && Interned(gapKeys, keyNames) && Located(nodes, paths, at, known)
    requires node < |nodes| && s.0 < |keyNames| && s.1 < |names| && paths[node] + [names[s.1]] in at
    ensures SeparatorsOk(WithSeparator(nodes, node, s, maxChars), paths, at, words, names, gapKeys, keyNames,
                         Raise(allowed, (paths[node] + [names[s.1]], keyNames[s.0]), maxChars))
  {
    hide SeparatorOk, Recorded, Interned, Extends, KeepsSeparators;
    var key := (paths[node] + [names[s.1]], keyNames[s.0]);
    var nodes', allowed' := WithSeparator(nodes, node, s, maxChars), Raise(allowed, key, maxChars);
    RaisedSlot(nodes, paths, at, words, names, gapKeys, keyNames, allowed, node, s, maxChars);
    WithSeparatorKeeps(nodes, node, s, maxChars);
    ExtendSelf(paths, at);
    forall n, r | 0 <= n < |nodes'| && r in nodes'[n].separators
      ensures SeparatorOk(paths, names, keyNames, allowed', n, r, nodes'[n].separators[r])
    {
      if n == node && r == s {
      } else {
        assert r in nodes[n].separators && nodes'[n].separators[r] == nodes[n].separators[r];
        OtherSlot(paths, at, words, names, gapKeys, keyNames, allowed, n, r, nodes[n].separators[r], node, s, maxChars);
      }
    }
    forall a | a in allowed' ensures Recorded(nodes', at, words, gapKeys, a) {
      if a != key { RecordedStill(nodes, at, paths, nodes', at, paths, words, gapKeys, a); }
    }
  }

  lemma ExtendSelf(paths: seq<Path>, at: map<Path, nat>)
    ensures Extends(paths, at, paths, at)
  {
  }

  /** Different separator slots stand for different separators. */
  lemma KeysDiffer(paths: seq<Path>, at: map<Path, nat>, names: seq<string>, keyNames: seq<string>,
                   words: map<string, nat>,
                   gapKeys: map<string, nat>, n: nat, r: (nat, nat), m: nat, s: (nat, nat))
    requires Interned(words, names) && Interned(gapKeys, keyNames)
    requires n < |paths| && m < |paths| && r.0 < |keyNames| && s.0 < |keyNames| && r.1 < |names| && s.1 < |names|
    requires paths[n] in at && paths[m] in at && at[paths[n]] == n && at[paths[m]] == m && !(n == m && r == s)
    ensures (paths[n] + [names[r.1]], keyNames[r.0]) != (paths[m] + [names[s.1]], keyNames[s.0])
  {
    var p, q := paths[n] + [names[r.1]], paths[m] + [names[s.1]];
    if p == q {
      assert paths[n] == p[..|p| - 1] == paths[m];
      assert names[r.1] == p[|p| - 1] == names[s.1];
    }
  }

  // ---------- how far and how often a walk steps ----------

  /** The words a folded spelling may be read as. */
  ghost function Readings(f: Facts, form: string): set<string> {
    set s | s in f.spells && s.0 == form :: s.1
  }

  /** No path is longer than `depth`, and no spelling has more than `width` readings. */
  ghost predicate Bounded(f: Facts, width: nat, depth: nat) {
    && depth > 0
    && (forall p :: p in f.paths ==> |p| <= depth)
    && (forall form: string :: |Readings(f, form)| <= width)
  }

  /** Steps below a node from which paths go on for at most `depth` words: a token has at most two
      spellings, and a spelling at most `width` readings. */
  function Fan(width: nat, depth: nat): nat
    decreases depth, 0
  {
    if depth == 0 then 0 else 2 * Branch(width, depth - 1)
  }

  /** Steps for one spelling of a token, with what follows its readings. */
  function Branch(width: nat, depth: nat): nat
    decreases depth, 1
  {
    width * (1 + Fan(width, depth))
  }

  /** With one reading to a spelling, a walk of one word more takes twice the steps and two. */
  lemma FanOfOne(depth: nat)
    ensures Fan(1, 0) == 0 && Fan(1, depth + 1) == 2 * Fan(1, depth) + 2
  {
  }

  lemma TwoSpellings(lang: Language, text: string, token: Token)
    ensures |Spellings(lang, text, token)| <= 2
  {
  }

  lemma FewSteps(k: nat, width: nat, each: nat)
    requires k <= width
    ensures k * each <= width * each
    ensures (k + 1) * each == k * each + each
  {
  }

  lemma TokenSteps(k: nat, width: nat, depth: nat)
    requires depth > 0
    ensures k * Fan(width, depth) + 2 * Branch(width, depth - 1) == (k + 1) * Fan(width, depth)
  {
  }

  /** The facts of entries are bounded by their longest entry. */
  lemma EntriesBound(lang: Language, entries: seq<Entry>, width: nat, depth: nat)
    requires depth > 0 && forall e :: e in entries ==> |e.words| <= depth
    requires forall form: string :: |Readings(AllFacts(lang, entries), form)| <= width
    ensures Bounded(AllFacts(lang, entries), width, depth)
  {
    hide AllFacts, Readings;
    forall p | p in AllFacts(lang, entries).paths ensures |p| <= depth { PathIsPrefix(lang, entries, p); }
  }

  /** Where words have no declined forms, a spelling has one reading at most. */
  lemma OneReading(lang: Language, entries: seq<Entry>, form: string)
    requires forall e, k :: e in entries && 0 <= k < |e.words| ==> lang.declined(e.words[k]) == {}
    ensures |Readings(AllFacts(lang, entries), form)| <= 1
  {
    hide AllFacts;
    var readings := Readings(AllFacts(lang, entries), form);
    forall word | word in readings ensures word == form {
      AllFactsMean(lang, entries, form, word, [], [], 0, Terminal([], EdgePunctuation([], []), None));
    }
    if readings != {} { assert readings == {form}; }
  }

  lemma SomeSlot(separators: map<(nat, nat), nat>) returns (s: (nat, nat))
    requires separators != map[]
    ensures s in separators
  {
    s :| s in separators;
  }

  lemma SlotPath(nodes: seq<TrieNode>, paths: seq<Path>, at: map<Path, nat>, words: map<string, nat>,
                 names: seq<string>, gapKeys: map<string, nat>, keyNames: seq<string>,
                 allowed: map<(Path, string), nat>, node: nat, s: (nat, nat))
    requires SeparatorsOk(nodes, paths, at, words, names, gapKeys, keyNames, allowed)
    requires node < |nodes| && s in nodes[node].separators
    ensures node < |paths| && s.1 < |names| && paths[node] + [names[s.1]] in at
  {
    assert SeparatorOk(paths, names, keyNames, allowed, node, s, nodes[node].separators[s]) by { hide SeparatorOk; }
    assert Recorded(nodes, at, words, gapKeys, (paths[node] + [names[s.1]], keyNames[s.0])) by { hide Recorded; }
  }

  class SequenceTrie {
    const lang: Language
    var spellings: map<string, seq<nat>>
    var words: map<string, nat>
    var gapKeys: map<string, nat>
    var nodes: seq<TrieNode>
    ghost var names: seq<string>
    ghost var keyNames: seq<string>
    ghost var paths: seq<Path>
    ghost var at: map<Path, nat>
    ghost var facts: Facts

    /** The trie holds the facts, no more and no less. */
    ghost predicate Valid()
      reads this
    {
      && Interned(words, names) && Interned(gapKeys, keyNames)
      && SpellingsOk(spellings, names, facts.spells)
      && Located(nodes, paths, at, facts.paths)
      && ChildrenOk(nodes, paths, at, words, names)
      && SeparatorsOk(nodes, paths, at, words, names, gapKeys, keyNames, facts.allowed)
      && TerminalsOk(nodes, paths, facts)
    }

    constructor (lang: Language)
      ensures Valid() && this.lang == lang && facts == NoFacts
    {
      this.lang := lang;
      spellings, words, gapKeys := map[], map[], map[];
      nodes := [TrieNode([], map[], map[])];
      names, keyNames, paths, at, facts := [], [], [[]], map[[] := 0], NoFacts;
      new;
      assert forall form: string, id: nat :: !Lists(spellings, form, id);
    }

    method InternGapKey(key: string) returns (id: nat)
      requires Valid()
      modifies this`gapKeys, this`keyNames
      ensures Valid()
      ensures key in gapKeys && gapKeys[key] == id
      ensures Grows(old(gapKeys), old(keyNames), gapKeys, keyNames)
    {
      hide Interned, Grows, SpellingsOk, Located, ChildrenOk, SeparatorsOk, TerminalsOk;
      InternGrows(gapKeys, keyNames, key);
      WordsStay();
      SeparatorsGrow(nodes, paths, at, words, names, gapKeys, keyNames, facts.allowed,
                     words, names, Numbered(gapKeys, key), Named(gapKeys, keyNames, key));
      keyNames := Named(gapKeys, keyNames, key);
      var next := |gapKeys|;
      if key !in gapKeys {
        gapKeys := gapKeys[key := next];
      }
      id := gapKeys[key];
    }

    lemma WordsStay()
      ensures Grows(words, names, words, names) && Grows(gapKeys, keyNames, gapKeys, keyNames)
    {
    }

    method InternWord(word: string) returns (id: nat)
      requires Valid()
      modifies this`words, this`names, this`spellings, this`facts
      ensures Valid()
      ensures facts == SpellWord(lang, old(facts), word)
      ensures lang.fold(word) in words && words[lang.fold(word)] == id
      ensures Grows(old(words), old(names), words, names)
    {
      hide Grows, SpellingsOk, Located, ChildrenOk, SeparatorsOk, TerminalsOk, WordForms;
      var folded := lang.fold(word);
      InternGrows(words, names, folded);
      WordsStay();
      SpellingsGrow(spellings, words, names, facts.spells, folded);
      ChildrenGrow(nodes, paths, at, words, names, Numbered(words, folded), Named(words, names, folded));
      SeparatorsGrow(nodes, paths, at, words, names, gapKeys, keyNames, facts.allowed,
                     Numbered(words, folded), Named(words, names, folded), gapKeys, keyNames);
      names := Named(words, names, folded);
      var next := |words|;
      if folded !in words {
        words := words[folded := next];
      }
      id := words[folded];
      ListForms(word, id);
      SpellKeepsTerminals(lang, nodes, paths, old(facts), word);
    }

    lemma WordNamed(word: string)
      requires Valid() && word in words
      ensures words[word] < |names| && names[words[word]] == word
    {
    }

    /** The child of `node` under word `id`, made if it is missing. */
    method AddChild(node: nat, id: nat) returns (child: nat)
      requires Valid() && node < |nodes| && id < |names|
      modifies this`nodes, this`paths, this`at, this`facts
      ensures Valid() && child < |nodes|
      ensures old(paths) <= paths && paths[child] == old(paths)[node] + [names[id]]
      ensures facts == old(facts).(paths := old(facts).paths + {old(paths)[node] + [names[id]]})
    {
      hide SpellingsOk, SeparatorsOk, ChildrenOk, TerminalsOk, Interned;
      var next := |nodes|;
      ghost var p := paths[node] + [names[id]];
      ChildIffKnown(node, id);
      if id in nodes[node].children {
        child := nodes[node].children[id];
        assert facts.paths + {p} == facts.paths;
      } else {
        child := next;
        ghost var nodes' := WithChild(nodes, node, id, next);
        ChildrenOneMore(nodes, paths, at, words, names, node, id);
        LocateOneMore(nodes, paths, at, facts.paths, nodes', p);
        SeparatorsKept(nodes, paths, at, words, names, gapKeys, keyNames, facts.allowed, nodes', p);
        TerminalsOneMore(nodes, paths, facts, nodes', p);
        nodes := nodes[node := nodes[node].(children := nodes[node].children[id := child])] + [EmptyNode];
        paths, at, facts := paths + [p], at[p := next], facts.(paths := facts.paths + {p});
      }
    }

    lemma ChildIffKnown(node: nat, id: nat)
      requires Valid() && node < |nodes| && id < |names|
      ensures id in nodes[node].children <==> paths[node] + [names[id]] in at
      ensures id in nodes[node].children ==>
        nodes[node].children[id] < |nodes| && paths[nodes[node].children[id]] == paths[node] + [names[id]]
    {
      hide SpellingsOk, SeparatorsOk, TerminalsOk;
      var p := paths[node] + [names[id]];
      if id in nodes[node].children { assert ChildOk(paths, at, names, node, id, nodes[node].children[id]); }
      if p in at {
        assert Hangs(nodes, at, words, p);
        assert p[..|p| - 1] == paths[node] && p[|p| - 1] == names[id];
      }
    }

    /** Records that a separator of this key and at most `maxChars` may stand before the child. */
    method AddSeparator(node: nat, key: nat, id: nat, maxChars: nat)
      requires Valid() && node < |nodes| && key < |keyNames| && id < |names| && paths[node] + [names[id]] in at
      modifies this`nodes, this`facts
      ensures Valid() && |nodes| == old(|nodes|)
      ensures facts == old(facts).(allowed :=
        Raise(old(facts).allowed, (paths[node] + [names[id]], keyNames[key]), maxChars))
    {
      hide SpellingsOk, SeparatorsOk, ChildrenOk, TerminalsOk, Interned;
      ghost var f := facts.(allowed := Raise(facts.allowed, (paths[node] + [names[id]], keyNames[key]), maxChars));
      ghost var nodes' := WithSeparator(nodes, node, (key, id), maxChars);
      SeparatorRaised(nodes, paths, at, facts.paths, words, names, gapKeys, keyNames, facts.allowed, node, (key, id),
        maxChars);
      ChildrenSame(nodes, nodes', paths, at, words, names);
      TerminalsSame(nodes, nodes', paths, facts, f);
      var longest := if (key, id) in nodes[node].separators then nodes[node].separators[(key, id)] else 0;
      nodes := nodes[node := nodes[node].(separators := nodes[node].separators[(key, id) := Max(longest, maxChars)])];
      facts := f;
    }

    method InternGapKeys(keys: seq<string>) returns (ids: seq<nat>)
      requires Valid()
      modifies this`gapKeys, this`keyNames
      ensures Valid()
      ensures |ids| == |keys| && forall i :: 0 <= i < |ids| ==> ids[i] < |keyNames| && keyNames[ids[i]] == keys[i]
    {
      hide SpellingsOk, Located, ChildrenOk, SeparatorsOk, TerminalsOk;
      ids := [];
      for k := 0 to |keys|
        invariant Valid() && |ids| == k
        invariant forall i :: 0 <= i < k ==> ids[i] < |keyNames| && keyNames[ids[i]] == keys[i]
      {
        ghost var before := keyNames;
        var id := InternGapKey(keys[k]);
        assert before <= keyNames;
        ids := ids + [id];
      }
    }

    method AddSeparators(node: nat, keys: seq<nat>, id: nat, maxChars: nat, ghost names': seq<string>)
      requires Valid() && node < |nodes| && id < |names| && paths[node] + [names[id]] in at
      requires |keys| == |names'|
      requires forall i :: 0 <= i < |keys| ==> keys[i] < |keyNames| && keyNames[keys[i]] == names'[i]
      modifies this`nodes, this`facts
      ensures Valid() && |nodes| == old(|nodes|)
      ensures facts == old(facts).(allowed := RaiseAll(old(facts).allowed, paths[node] + [names[id]], names', maxChars))
    {
      hide Interned, SpellingsOk, Located, ChildrenOk, SeparatorsOk, TerminalsOk, Raise;
      PathKnown(node);
      ghost var p := paths[node] + [names[id]];
      for k := 0 to |keys|
        invariant Valid() && |nodes| == old(|nodes|)
        invariant facts == old(facts).(allowed := RaiseAll(old(facts).allowed, p, names'[..k], maxChars))
      {
        AddSeparator(node, keys[k], id, maxChars);
        assert names'[..k + 1][..k] == names'[..k];
      }
      assert names'[..|keys|] == names';
    }

    /** One word of an entry: the word and its separators interned, the child made, the separators recorded. */
    method InsertWord(node: nat, word: string, gap: Option<GapRule>) returns (child: nat)
      requires Valid() && node < |nodes|
      modifies this
      ensures Valid() && child < |nodes| && paths[child] == old(paths)[node] + [lang.fold(word)]
      ensures facts == StepFacts(lang, old(facts), old(paths)[node], word, gap)
    {
      hide Interned, Grows, SpellingsOk, Located, ChildrenOk, SeparatorsOk, TerminalsOk, Keys, RaiseAll, WordForms;
      PathKnown(node);
      var id := InternWord(word);
      WordNamed(lang.fold(word));
      var keys: seq<nat> := [];
      if gap.Some? {
        keys := InternGapKeys(Keys(gap.value));
      }
      child := AddChild(node, id);
      PathKnown(child);
      if gap.Some? {
        AddSeparators(node, keys, id, gap.value.maxChars, Keys(gap.value));
      }
    }

    lemma PathKnown(node: nat)
      requires Valid() && node < |nodes|
      ensures paths[node] in at && paths[node] in facts.paths && |paths| == |nodes|
    {
    }

    lemma RootPath()
      requires Valid()
      ensures |nodes| > 0 && |paths| == |nodes| && paths[0] == []
    {
    }

    method Insert(entryWords: seq<string>, gaps: seq<GapRule>, labelText: string, edges: EdgePunctuation)
      requires Valid()
      modifies this
      ensures Valid()
      ensures facts == EntryFacts(lang, old(facts), Entry(entryWords, gaps, labelText, edges))
    {
      hide Interned, SpellingsOk, Located, ChildrenOk, SeparatorsOk, TerminalsOk, StepFacts;
      ghost var e := Entry(entryWords, gaps, labelText, edges);
      RootPath();
      var node: nat := 0;
      for position := 0 to |entryWords|
        invariant Valid() && node < |nodes| && |paths| == |nodes|
        invariant paths[node] == Folded(lang, entryWords[..position])
        invariant facts == WordFacts(lang, old(facts), e, position)
      {
        var gap := if position > 0 && position - 1 < |gaps| then Some(gaps[position - 1]) else None;
        node := InsertWord(node, entryWords[position], gap);
        PathKnown(node);
      }
      assert entryWords[..|entryWords|] == entryWords;
      PathKnown(node);
      AddTerminalAt(node, Terminal(labelText, edges, lang.spelling(entryWords)));
    }

    method AddTerminalAt(node: nat, terminal: Terminal)
      requires Valid() && node < |nodes| && |paths| == |nodes|
      modifies this`nodes, this`facts
      ensures Valid()
      ensures facts == old(facts).(ends :=
        old(facts).ends[paths[node] := AddTerminal(TerminalsAt(old(facts), paths[node]), terminal)])
    {
      hide Interned, SpellingsOk, ChildrenOk, SeparatorsOk;
      ghost var nodes0 := nodes;
      assert nodes[node].terminals == TerminalsAt(facts, paths[node]);
      facts := facts.(ends := facts.ends[paths[node] := AddTerminal(TerminalsAt(facts, paths[node]), terminal)]);
      if terminal !in nodes[node].terminals {
        nodes := nodes[node := nodes[node].(terminals := nodes[node].terminals + [terminal])];
      }
      ChildrenSame(nodes0, nodes, paths, at, words, names);
      SeparatorsSame(nodes0, nodes, paths, at, words, names, gapKeys, keyNames, facts.allowed);
    }

    /** Lists `id` under every form that `word` may be spelled in, where it is not listed yet. */
    method ListForms(word: string, id: nat)
      requires Interned(words, names) && SpellingsOk(spellings, names, facts.spells)
      requires id < |names| && names[id] == lang.fold(word)
      modifies this`spellings, this`facts
      ensures facts == SpellWord(lang, old(facts), word)
      ensures SpellingsOk(spellings, names, facts.spells)
    {
      hide SpellingsOk, WordForms;
      assert forall i, j :: 0 <= i < j < |names| ==> names[i] != names[j];
      ghost var spells := facts.spells;
      var forms := WordForms(lang, word);
      var todo := forms;
      while todo != {}
        invariant todo <= forms && facts == old(facts)
        invariant SpellingsOk(spellings, names, spells)
        invariant spells == facts.spells + set form | form in forms - todo :: (form, names[id])
        decreases |todo|
      {
        var form :| form in todo;
        SpellOneMore(spellings, names, spells, form, id);
        spells := spells + {(form, names[id])};
        todo := todo - {form};
        spellings := ListForm(spellings, form, id);
      }
      assert forms - todo == forms;
      facts := SpellWord(lang, facts, word);
    }

    function WordIds(form: string): seq<nat>
      reads this
    {
      if form in spellings then spellings[form] else []
    }

    /** The ids listed for a spelling are the words it spells. */
    lemma WordIdsSpell(form: string)
      requires Valid()
      ensures forall k :: 0 <= k < |WordIds(form)| ==>
        WordIds(form)[k] < |names| && (form, names[WordIds(form)[k]]) in facts.spells
      ensures forall word :: (form, word) in facts.spells ==>
        exists k :: 0 <= k < |WordIds(form)| && WordIds(form)[k] < |names| && names[WordIds(form)[k]] == word
    {
      hide Located, ChildrenOk, SeparatorsOk, TerminalsOk;
      forall k | 0 <= k < |WordIds(form)|
        ensures WordIds(form)[k] < |names| && (form, names[WordIds(form)[k]]) in facts.spells
      {
        assert Lists(spellings, form, WordIds(form)[k]);
      }
      forall word | (form, word) in facts.spells
        ensures exists k :: 0 <= k < |WordIds(form)| && WordIds(form)[k] < |names| && names[WordIds(form)[k]] == word
      {
        assert (form, word).1 in names;
        var id :| 0 <= id < |names| && names[id] == word;
        assert Lists(spellings, form, id);
        var k :| 0 <= k < |WordIds(form)| && WordIds(form)[k] == id;
      }
    }

    /** A separator slot says whether the facts allow the separator there. */
    lemma SlotAllows(node: nat, key: string, id: nat, chars: nat)
      requires Valid() && node < |nodes| && id < |names|
      ensures |paths| == |nodes|
      ensures (key in gapKeys && (gapKeys[key], id) in nodes[node].separators
        && chars <= nodes[node].separators[(gapKeys[key], id)])
         <==> Accepts(facts, paths[node] + [names[id]], key, chars)
      ensures Accepts(facts, paths[node] + [names[id]], key, chars) ==>
        id in nodes[node].children && nodes[node].separators != map[]
    {
      hide SpellingsOk, TerminalsOk, ChildrenOk;
      var p := paths[node] + [names[id]];
      assert p[..|p| - 1] == paths[node] && p[|p| - 1] == names[id];
      if (p, key) in facts.allowed {
        assert Recorded(nodes, at, words, gapKeys, (p, key));
      }
      if key in gapKeys && (gapKeys[key], id) in nodes[node].separators {
        assert SeparatorOk(paths, names, keyNames, facts.allowed, node, (gapKeys[key], id),
          nodes[node].separators[(gapKeys[key], id)]);
      }
      ChildIffKnown(node, id);
    }

    /** Behind a node with separators a known path goes on. */
    lemma PathGoesOn(node: nat) returns (word: string)
      requires Valid() && node < |nodes| && nodes[node].separators != map[]
      ensures |paths| == |nodes| && paths[node] + [word] in facts.paths
    {
      hide Interned, SpellingsOk, ChildrenOk, SeparatorsOk, TerminalsOk;
      var s := SomeSlot(nodes[node].separators);
      SlotPath(nodes, paths, at, words, names, gapKeys, keyNames, facts.allowed, node, s);
      word := names[s.1];
    }

    /** No node lies deeper than the longest path, and one with separators not even that deep. */
    lemma NodeDepth(node: nat, width: nat, depth: nat)
      requires Valid() && node < |nodes| && |paths| == |nodes| && Bounded(facts, width, depth)
      ensures |paths[node]| <= depth
      ensures nodes[node].separators != map[] ==> |paths[node]| < depth
    {
      hide Interned, SpellingsOk, Located, ChildrenOk, SeparatorsOk, TerminalsOk, Readings;
      PathKnown(node);
      if nodes[node].separators != map[] {
        var word := PathGoesOn(node);
        assert |paths[node] + [word]| <= depth;
      }
    }

    /** A spelling lists no more words than it has readings. */
    lemma FewIds(form: string, width: nat, depth: nat)
      requires Valid() && Bounded(facts, width, depth)
      ensures |WordIds(form)| <= width
    {
      hide Located, ChildrenOk, SeparatorsOk, TerminalsOk;
      var ids := WordIds(form);
      WordIdsSpell(form);
      assert Once(IdsOf(spellings, form));
      DistinctNames(ids, Readings(facts, form));
    }

    lemma {:induction false} DistinctNames(ids: seq<nat>, all: set<string>)
      requires Interned(words, names) && Once(ids)
      requires forall k :: 0 <= k < |ids| ==> ids[k] < |names| && names[ids[k]] in all
      ensures |ids| <= |all|
      decreases |ids|
    {
      if ids != [] {
        var last := |ids| - 1;
        forall k | 0 <= k < last ensures names[ids[k]] != names[ids[last]] {
          assert ids[k] != ids[last];
        }
        DistinctNames(ids[..last], all - {names[ids[last]]});
      }
    }

    /** The hits of the entries ending at `node`. */
    method ReportTerminals(doc: Document, node: nat, start: nat, end: nat, hits: seq<Hit>) returns (hits': seq<Hit>)
      requires Valid() && node < |nodes| && |paths| == |nodes|
      ensures forall h :: h in hits' <==> h in hits || Ends(lang, facts, doc, paths[node], start, end, h)
    {
      hide Interned, SpellingsOk, Located, ChildrenOk, SeparatorsOk, HitOf;
      var terminals := nodes[node].terminals;
      assert terminals == TerminalsAt(facts, paths[node]);
      hits' := hits;
      for k := 0 to |terminals|
        invariant forall h :: h in hits' <==>
          h in hits || exists i :: 0 <= i < k && HitOf(lang.marks, doc.text, terminals[i], start, end) == Some(h)
      {
        var hit := HitOf(lang.marks, doc.text, terminals[k], start, end);
        if hit.Some? { hits' := hits' + [hit.value]; }
      }
    }

    /** Some word the spelled token may be read as leads on to the hit. */
    ghost predicate Via(doc: Document, path: Path, start: nat, end: nat, next: nat, s: Token, h: Hit)
      requires next < |doc.tokens|
      reads this
    {
      exists word :: Follows(lang, facts, doc, path, end, s, word)
                  && Reaches(lang, facts, doc, path + [word], start, s.end, next + 1, h)
    }

    ghost predicate ViaWord(doc: Document, path: Path, start: nat, end: nat, next: nat, s: Token, word: string, h: Hit)
      requires next < |doc.tokens|
      reads this
    {
      && Follows(lang, facts, doc, path, end, s, word)
      && Reaches(lang, facts, doc, path + [word], start, s.end, next + 1, h)
    }

    /** Adds to `hits` all that is reached from the path of `node`, and nothing else. The steps are
        bounded by the words that may still follow, however many entries there are. */
    method Walk(doc: Document, start: nat, node: nat, end: nat, next: nat, hits: seq<Hit>, steps: nat,
                ghost width: nat, ghost depth: nat)
      returns (hits': seq<Hit>, steps': nat)
      requires Valid() && node < |nodes| && |paths| == |nodes|
      ensures forall h :: h in hits' <==> h in hits || Reaches(lang, facts, doc, paths[node], start, end, next, h)
      ensures steps <= steps'
      ensures Bounded(facts, width, depth) ==> steps' <= steps + Fan(width, SatSub(depth, |paths[node]|))
      decreases |doc.tokens| - next, 1
    {
      hide Interned, SpellingsOk, Located, ChildrenOk, SeparatorsOk, TerminalsOk, Ends, Follows, Spellings, Bounded,
        Branch;
      hits' := ReportTerminals(doc, node, start, end, hits);
      steps' := steps;
      if next >= |doc.tokens| { return; }
      ghost var reported := hits';
      ghost var p := paths[node];
      var spelled := Spellings(lang, doc.text, doc.tokens[next]);
      if nodes[node].separators == map[] {
        forall s, word ensures !Follows(lang, facts, doc, p, end, s, word) { NoSeparators(doc, node, end, s, word); }
        return;
      }
      TwoSpellings(lang, doc.text, doc.tokens[next]);
      if Bounded(facts, width, depth) { NodeDepth(node, width, depth); }
      for k := 0 to |spelled|
        invariant forall h :: h in hits' <==>
          h in reported || exists i :: 0 <= i < k && Via(doc, p, start, end, next, spelled[i], h)
        invariant steps <= steps'
        invariant Bounded(facts, width, depth) ==> steps' <= steps + k * Branch(width, depth - |p| - 1)
      {
        hits', steps' := WalkToken(doc, start, node, end, next, spelled[k], hits', steps', width, depth);
      }
      forall h
        ensures h in hits' <==> h in hits || Reaches(lang, facts, doc, p, start, end, next, h)
      {
        ReachesVia(doc, p, start, end, next, h);
      }
    }

    lemma ReachesVia(doc: Document, path: Path, start: nat, end: nat, next: nat, h: Hit)
      requires next < |doc.tokens|
      ensures var spelled := Spellings(lang, doc.text, doc.tokens[next]);
              Reaches(lang, facts, doc, path, start, end, next, h) <==>
                Ends(lang, facts, doc, path, start, end, h)
                || exists i :: 0 <= i < |spelled| && Via(doc, path, start, end, next, spelled[i], h)
    {
    }

    lemma NoSeparators(doc: Document, node: nat, end: nat, s: Token, word: string)
      requires Valid() && node < |nodes| && |paths| == |nodes| && nodes[node].separators == map[]
      ensures !Follows(lang, facts, doc, paths[node], end, s, word)
    {
      hide Interned, Located, ChildrenOk, SeparatorsOk, TerminalsOk, FormOf, SeparatorAt;
      var form := FormOf(lang, doc, s);
      if (form, word) in facts.spells {
        assert (form, word).1 in names;
        var id :| 0 <= id < |names| && names[id] == word;
        var separator := SeparatorAt(lang, doc, end, s.start);
        if separator.Some? { SlotAllows(node, separator.value.0, id, separator.value.1); }
      }
    }

    /** Follows one spelling of the next token, at a step for each of its readings. */
    method WalkToken(doc: Document, start: nat, node: nat, end: nat, next: nat, s: Token, hits: seq<Hit>, steps: nat,
                     ghost width: nat, ghost depth: nat)
      returns (hits': seq<Hit>, steps': nat)
      requires Valid() && node < |nodes| && |paths| == |nodes| && next < |doc.tokens|
      ensures forall h :: h in hits' <==> h in hits || Via(doc, paths[node], start, end, next, s, h)
      ensures steps <= steps'
      ensures var separator := SeparatorAt(lang, doc, end, s.start);
              separator.Some? && separator.value.0 in gapKeys ==> steps + |WordIds(FormOf(lang, doc, s))| <= steps'
      ensures Bounded(facts, width, depth) ==>
        steps' <= steps + Branch(width, SatSub(depth, |paths[node]| + 1))
      decreases |doc.tokens| - next, 0
    {
      hide Interned, SpellingsOk, Located, ChildrenOk, SeparatorsOk, TerminalsOk, Reaches, FormOf, SeparatorAt,
        Bounded, Fan;
      hits', steps' := hits, steps;
      ghost var p := paths[node];
      var separator := SeparatorAt(lang, doc, end, s.start);
      if separator.None? { return; }
      var (key, chars) := separator.value;
      var form := FormOf(lang, doc, s);
      var ids := WordIds(form);
      WordIdsSpell(form);
      if key !in gapKeys {
        forall word ensures !Follows(lang, facts, doc, p, end, s, word) {
          if (form, word) in facts.spells {
            var k :| 0 <= k < |ids| && ids[k] < |names| && names[ids[k]] == word;
            SlotAllows(node, key, ids[k], chars);
          }
        }
        return;
      }
      ghost var each := 1 + Fan(width, SatSub(depth, |p| + 1));
      if Bounded(facts, width, depth) { FewIds(form, width, depth); }
      for k := 0 to |ids|
        invariant forall h :: h in hits' <==>
          h in hits || exists i :: 0 <= i < k && ViaWord(doc, p, start, end, next, s, names[ids[i]], h)
        invariant steps + k <= steps'
        invariant Bounded(facts, width, depth) ==> steps' <= steps + k * each
      {
        var id := ids[k];
        steps' := steps' + 1;
        FewSteps(k, k, each);
        SlotAllows(node, key, id, chars);
        ChildIffKnown(node, id);
        var slot := (gapKeys[key], id);
        var allowed := slot in nodes[node].separators && chars <= nodes[node].separators[slot];
        assert allowed <==> Follows(lang, facts, doc, p, end, s, names[id]);
        if allowed && id in nodes[node].children {
          hits', steps' := Walk(doc, start, nodes[node].children[id], s.end, next + 1, hits', steps', width, depth);
        }
      }
      if Bounded(facts, width, depth) { FewSteps(|ids|, width, each); }
      forall h ensures Via(doc, p, start, end, next, s, h) <==>
        exists i :: 0 <= i < |ids| && ViaWord(doc, p, start, end, next, s, names[ids[i]], h)
      {
        if Via(doc, p, start, end, next, s, h) {
          var word :| Follows(lang, facts, doc, p, end, s, word)
            && Reaches(lang, facts, doc, p + [word], start, s.end, next + 1, h);
          var i :| 0 <= i < |ids| && ids[i] < |names| && names[ids[i]] == word;
          assert ViaWord(doc, p, start, end, next, s, names[ids[i]], h);
        }
      }
    }

    /** The hit is found from this spelling of token `i`. */
    ghost predicate OpensAt(doc: Document, i: nat, s: Token, h: Hit)
      reads this
    {
      exists word :: Opens(lang, facts, doc, i, s, word, h)
    }

    /** How many readings the spellings of some tokens have. */
    ghost function ReadingsTried(doc: Document, spelled: seq<Token>): (r: nat)
      reads this
      ensures spelled == [] ==> r == 0
    {
      if spelled == [] then 0
      else
        var last := |spelled| - 1;
        ReadingsTried(doc, spelled[..last]) + |WordIds(FormOf(lang, doc, spelled[last]))|
    }

    /** How many readings a walk may start from at the tokens before `n`. */
    ghost function Starts(doc: Document, n: nat): (r: nat)
      requires n <= |doc.tokens|
      reads this
      ensures n == 0 ==> r == 0
    {
      if n == 0 then 0 else Starts(doc, n - 1) + ReadingsTried(doc, Spellings(lang, doc.text, doc.tokens[n - 1]))
    }

    lemma {:induction false} NoStarts(doc: Document, n: nat)
      requires spellings == map[] && n <= |doc.tokens|
      ensures Starts(doc, n) == 0
    {
      hide Spellings, ReadingsTried;
      if n > 0 {
        NoStarts(doc, n - 1);
        NoReadings(doc, Spellings(lang, doc.text, doc.tokens[n - 1]));
      }
    }

    lemma {:induction false} NoReadings(doc: Document, spelled: seq<Token>)
      requires spellings == map[]
      ensures ReadingsTried(doc, spelled) == 0
    {
      hide FormOf;
      if spelled != [] { NoReadings(doc, spelled[..|spelled| - 1]); }
    }

    /** All hits of a document. Every reading of a token is a step; the steps are linear in the tokens,
        by a factor that the number of entries has no part in. */
    method Hits(doc: Document, steps: nat, ghost width: nat, ghost depth: nat) returns (hits: seq<Hit>, steps': nat)
      requires Valid()
      ensures forall h :: h in hits <==> Found(lang, facts, doc, h)
      ensures steps + Starts(doc, |doc.tokens|) <= steps'
      ensures Bounded(facts, width, depth) ==> steps' <= steps + |doc.tokens| * Fan(width, depth)
    {
      hide Interned, SpellingsOk, Located, ChildrenOk, SeparatorsOk, TerminalsOk, Opens, Spellings, Fan, Branch;
      hide ReadingsTried, FormOf, Starts;
      hits, steps' := [], steps;
      RootPath();
      if spellings == map[] {
        forall i, s, word, h | 0 <= i < |doc.tokens| ensures !Opens(lang, facts, doc, i, s, word, h) {
          NothingOpens(doc, i, s, word, h);
        }
        NoStarts(doc, |doc.tokens|);
        return;
      }
      for i := 0 to |doc.tokens|
        invariant forall h :: h in hits <==>
          exists j, s :: 0 <= j < i && s in Spellings(lang, doc.text, doc.tokens[j]) && OpensAt(doc, j, s, h)
        invariant steps + Starts(doc, i) <= steps'
        invariant Bounded(facts, width, depth) ==> steps' <= steps + i * Fan(width, depth)
      {
        ghost var before, stepsBefore := hits, steps';
        TwoSpellings(lang, doc.text, doc.tokens[i]);
        var spelled := Spellings(lang, doc.text, doc.tokens[i]);
        for k := 0 to |spelled|
          invariant forall h :: h in hits <==> h in before || exists l :: 0 <= l < k && OpensAt(doc, i, spelled[l], h)
          invariant stepsBefore + ReadingsTried(doc, spelled[..k]) <= steps'
          invariant Bounded(facts, width, depth) ==> steps' <= stepsBefore + k * Branch(width, depth - 1)
        {
          OneReadingMore(doc, spelled, k);
          hits, steps' := OpenToken(doc, i, spelled[k], hits, steps', width, depth);
        }
        assert spelled[..|spelled|] == spelled;
        OneStartMore(doc, i);
        if depth > 0 { TokenSteps(i, width, depth); }
        forall h
          ensures h in hits <==> exists j, s ::
            0 <= j < i + 1 && s in Spellings(lang, doc.text, doc.tokens[j]) && OpensAt(doc, j, s, h)
        {
          OneTokenMore(doc, i, before, hits, spelled, h);
        }
      }
    }

    lemma OneStartMore(doc: Document, i: nat)
      requires i < |doc.tokens|
      ensures Starts(doc, i + 1) == Starts(doc, i) + ReadingsTried(doc, Spellings(lang, doc.text, doc.tokens[i]))
    {
    }

    lemma OneReadingMore(doc: Document, spelled: seq<Token>, k: nat)
      requires k < |spelled|
      ensures ReadingsTried(doc, spelled[..k + 1])
           == ReadingsTried(doc, spelled[..k]) + |WordIds(FormOf(lang, doc, spelled[k]))|
    {
      assert spelled[..k + 1][..k] == spelled[..k];
    }

    lemma NothingOpens(doc: Document, i: nat, s: Token, word: string, h: Hit)
      requires Valid() && spellings == map[]
      ensures !Opens(lang, facts, doc, i, s, word, h)
    {
    }

    lemma OneTokenMore(doc: Document, i: nat, before: seq<Hit>, hits: seq<Hit>, spelled: seq<Token>, h: Hit)
      requires i < |doc.tokens| && spelled == Spellings(lang, doc.text, doc.tokens[i])
      requires h in before <==> exists j, s ::
        0 <= j < i && s in Spellings(lang, doc.text, doc.tokens[j]) && OpensAt(doc, j, s, h)
      requires h in hits <==> h in before || exists l :: 0 <= l < |spelled| && OpensAt(doc, i, spelled[l], h)
      ensures h in hits <==> exists j, s ::
        0 <= j < i + 1 && s in Spellings(lang, doc.text, doc.tokens[j]) && OpensAt(doc, j, s, h)
    {
    }

    /** Starts a walk at one spelling of a token, at a step for each of its readings. */
    method OpenToken(doc: Document, i: nat, s: Token, hits: seq<Hit>, steps: nat, ghost width: nat, ghost depth: nat)
      returns (hits': seq<Hit>, steps': nat)
      requires Valid() && i < |doc.tokens|
      ensures forall h :: h in hits' <==> h in hits || OpensAt(doc, i, s, h)
      ensures steps + |WordIds(FormOf(lang, doc, s))| <= steps'
      ensures Bounded(facts, width, depth) ==> steps' <= steps + Branch(width, SatSub(depth, 1))
    {
      hide Interned, SpellingsOk, Located, ChildrenOk, SeparatorsOk, TerminalsOk, Reaches, FormOf, Bounded, Fan;
      RootPath();
      hits', steps' := hits, steps;
      var form := FormOf(lang, doc, s);
      var ids := WordIds(form);
      WordIdsSpell(form);
      ghost var each := 1 + Fan(width, SatSub(depth, 1));
      if Bounded(facts, width, depth) { FewIds(form, width, depth); }
      for k := 0 to |ids|
        invariant forall h :: h in hits' <==>
          h in hits || exists j :: 0 <= j < k && Opens(lang, facts, doc, i, s, names[ids[j]], h)
        invariant steps + k <= steps'
        invariant Bounded(facts, width, depth) ==> steps' <= steps + k * each
      {
        var id := ids[k];
        steps' := steps' + 1;
        FewSteps(k, k, each);
        ChildIffKnown(0, id);
        RootChild(id);
        if id in nodes[0].children {
          hits', steps' := Walk(doc, s.start, nodes[0].children[id], s.end, i + 1, hits', steps', width, depth);
        }
      }
      if Bounded(facts, width, depth) { FewSteps(|ids|, width, each); }
      forall h
        ensures OpensAt(doc, i, s, h) <==> exists j :: 0 <= j < |ids| && Opens(lang, facts, doc, i, s, names[ids[j]], h)
      {
        if OpensAt(doc, i, s, h) {
          var word :| Opens(lang, facts, doc, i, s, word, h);
          var j :| 0 <= j < |ids| && ids[j] < |names| && names[ids[j]] == word;
        }
      }
    }

    lemma RootChild(id: nat)
      requires Valid() && id < |names|
      ensures |paths| == |nodes| > 0 && paths[0] + [names[id]] == [names[id]]
      ensures [names[id]] in at <==> [names[id]] in facts.paths
    {
    }
  }

  lemma ChildrenSame(nodes: seq<TrieNode>, nodes': seq<TrieNode>, paths: seq<Path>, at: map<Path, nat>,
                     words: map<string, nat>,
                     names: seq<string>)
    requires ChildrenOk(nodes, paths, at, words, names) && |nodes'| == |nodes|
    requires forall n :: 0 <= n < |nodes| ==> nodes'[n].children == nodes[n].children
    ensures ChildrenOk(nodes', paths, at, words, names)
  {
  }

  lemma SeparatorsSame(nodes: seq<TrieNode>, nodes': seq<TrieNode>, paths: seq<Path>, at: map<Path, nat>,
                       words: map<string, nat>,
                       names: seq<string>, gapKeys: map<string, nat>, keyNames: seq<string>,
                       allowed: map<(Path, string), nat>)
    requires SeparatorsOk(nodes, paths, at, words, names, gapKeys, keyNames, allowed) && |nodes'| == |nodes|
    requires forall n :: 0 <= n < |nodes| ==> nodes'[n].separators == nodes[n].separators
    ensures SeparatorsOk(nodes', paths, at, words, names, gapKeys, keyNames, allowed)
  {
    hide SeparatorOk;
    forall a | a in allowed ensures Recorded(nodes', at, words, gapKeys, a) {
      assert Recorded(nodes, at, words, gapKeys, a);
    }
  }

  lemma TerminalsSame(nodes: seq<TrieNode>, nodes': seq<TrieNode>, paths: seq<Path>, f: Facts, g: Facts)
    requires TerminalsOk(nodes, paths, f) && |nodes'| == |nodes| && f.ends == g.ends && f.paths == g.paths
    requires forall n :: 0 <= n < |nodes| ==> nodes'[n].terminals == nodes[n].terminals
    ensures TerminalsOk(nodes', paths, g)
  {
  }

  lemma TerminalsOneMore(nodes: seq<TrieNode>, paths: seq<Path>, f: Facts, nodes': seq<TrieNode>, p: Path)
    requires TerminalsOk(nodes, paths, f) && p !in f.paths
    requires |nodes'| == |nodes| + 1 && nodes'[|nodes|] == EmptyNode
    requires forall n :: 0 <= n < |nodes| ==> nodes'[n].terminals == nodes[n].terminals
    ensures TerminalsOk(nodes', paths + [p], f.(paths := f.paths + {p}))
  {
  }

  lemma SpellKeepsTerminals(lang: Language, nodes: seq<TrieNode>, paths: seq<Path>, f: Facts, word: string)
    requires TerminalsOk(nodes, paths, f)
    ensures TerminalsOk(nodes, paths, SpellWord(lang, f, word))
  {
  }

  /** Indexes every entry in turn; the hits of the trie are those of the whole list. */
  method IndexEntries(lang: Language, entries: seq<Entry>) returns (trie: SequenceTrie)
    ensures trie.Valid() && trie.lang == lang && trie.facts == AllFacts(lang, entries)
  {
    hide EntryFacts, Interned, SpellingsOk, Located, ChildrenOk, SeparatorsOk, TerminalsOk;
    trie := new SequenceTrie(lang);
    for k := 0 to |entries|
      invariant fresh(trie) && trie.Valid() && trie.lang == lang && trie.facts == AllFacts(lang, entries[..k])
    {
      var e := entries[k];
      trie.Insert(e.words, e.gaps, e.labelText, e.edges);
      assert entries[..k + 1][..k] == entries[..k];
    }
    assert entries[..|entries|] == entries;
  }
}

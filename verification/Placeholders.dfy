/**
  Allocating placeholders: entities share one exactly when their identities agree, and none that is
  handed out is one the text already contains.
 */
module Placeholders {
  import opened Common
  import opened Sorting
  import opened PlaceholderText

  /** `source` is the text a coreference alias stands for. */
  datatype Entity = Entity(labelText: string, text: string, source: Option<string>, start: nat)

  /** What the map of placeholders looks entities up by. */
  datatype Key = Key(labelText: string, text: string, source: Option<string>)

  function KeyOf(e: Entity): Key {
    Key(e.labelText, e.text, e.source)
  }

  datatype Identity = Identity(labelKey: string, text: string)

  /** Upper-casing of characters and the normalisation of texts by label. */
  datatype Rules = Rules(upper: char -> string, normalizeText: (string, string) -> string)

  function IdentityOf(rules: Rules, key: Key): Identity {
    var text := match key.source case None => key.text case Some(source) => source;
    Identity(LabelKey(rules.upper, key.labelText), rules.normalizeText(key.labelText, text))
  }

  datatype Entry = Entry(key: Key, placeholder: string)

  class PlaceholderMap {
    var entries: seq<Entry>

    constructor ()
      ensures entries == []
    {
      entries := [];
    }

    /** The placeholder of the first entry made for such an entity. */
    method GetEntity(e: Entity) returns (r: Option<string>)
      ensures r.None? <==> forall i :: 0 <= i < |entries| ==> entries[i].key != KeyOf(e)
      ensures r.Some? ==> exists i :: 0 <= i < |entries| && entries[i] == Entry(KeyOf(e), r.value)
                            && forall j :: 0 <= j < i ==> entries[j].key != KeyOf(e)
    {
      for i := 0 to |entries|
        invariant forall j :: 0 <= j < i ==> entries[j].key != KeyOf(e)
      {
        if entries[i].key == KeyOf(e) { return Some(entries[i].placeholder); }
      }
      r := None;
    }

    method PushEntity(e: Entity, placeholder: string)
      modifies this
      ensures entries == old(entries) + [Entry(KeyOf(e), placeholder)]
    {
      entries := entries + [Entry(KeyOf(e), placeholder)];
    }
  }

  // ---------- the next free number ----------

  function Count(counters: map<string, nat>, key: string): nat {
    if key in counters then counters[key] else 0
  }

  /** The counter of the key can still reach a number that is not reserved. */
  ghost predicate NumberLeft(key: string, count: nat, reserved: set<string>) {
    exists n: nat :: count < n <= U32_MAX && Printed(key, n) !in reserved
  }

  /** Counts on from the last number of the label key, past every reserved placeholder. */
  method NextPlaceholder(key: string, counters: map<string, nat>, reserved: set<string>)
    returns (placeholder: string, counters': map<string, nat>)
    requires NumberLeft(key, Count(counters, key), reserved)
    ensures Count(counters, key) < Count(counters', key) <= U32_MAX
    ensures counters' == counters[key := Count(counters', key)]
    ensures placeholder == Printed(key, Count(counters', key)) && placeholder !in reserved
    ensures forall n :: Count(counters, key) < n < Count(counters', key) ==> Printed(key, n) in reserved
  {
    hide Printed;
    var count := Count(counters, key);
    ghost var left: nat :| count < left <= U32_MAX && Printed(key, left) !in reserved;
    while true
      invariant Count(counters, key) <= count < left
      invariant forall n :: Count(counters, key) < n <= count ==> Printed(key, n) in reserved
      decreases left - count
    {
      count := SatAdd(count, 1);
      placeholder := Printed(key, count);
      if placeholder in reserved {
        continue;
      }
      counters' := counters[key := count];
      return;
    }
  }

  // ---------- what an allocation is ----------

  ghost predicate Mentions(rules: Rules, entries: seq<Entry>, id: Identity) {
    exists i :: 0 <= i < |entries| && IdentityOf(rules, entries[i].key) == id
  }

  /** Every entry carries the placeholder of its identity: label key and number. */
  ghost predicate Numbered(rules: Rules, entries: seq<Entry>, numbers: map<Identity, nat>) {
    && (forall i :: 0 <= i < |entries| ==>
          var id := IdentityOf(rules, entries[i].key);
          id in numbers && entries[i].placeholder == Printed(id.labelKey, numbers[id]))
    && (forall id :: id in numbers ==> Mentions(rules, entries, id))
  }

  /** One number per identity and label key, none of them reserved. */
  ghost predicate Unshared(numbers: map<Identity, nat>, reserved: set<string>) {
    && (forall a, b :: a in numbers && b in numbers && a.labelKey == b.labelKey && numbers[a] == numbers[b] ==> a == b)
    && (forall a :: a in numbers ==> numbers[a] >= 1 && Printed(a.labelKey, numbers[a]) !in reserved)
  }

  /** A number below one that was handed out was handed out too, unless it is reserved. */
  ghost predicate Gapless(numbers: map<Identity, nat>, reserved: set<string>) {
    forall a, n: nat :: a in numbers && 1 <= n <= numbers[a] ==>
      Printed(a.labelKey, n) in reserved || HasNumber(numbers, a.labelKey, n)
  }

  ghost predicate HasNumber(numbers: map<Identity, nat>, key: string, n: nat) {
    exists b :: b in numbers && b.labelKey == key && numbers[b] == n
  }

  /** Numbers of a label key rise in the order in which identities first appear. */
  ghost predicate InOrder(rules: Rules, entries: seq<Entry>, numbers: map<Identity, nat>) {
    forall i, j :: 0 <= i < j < |entries| ==>
      var a, b := IdentityOf(rules, entries[i].key), IdentityOf(rules, entries[j].key);
      a in numbers && b in numbers && a.labelKey == b.labelKey && !Mentions(rules, entries[..i + 1], b) ==>
        numbers[a] < numbers[b]
  }

  ghost predicate DistinctKeys(entries: seq<Entry>) {
    forall i, j :: 0 <= i < j < |entries| ==> entries[i].key != entries[j].key
  }

  ghost predicate HasEntity(entities: seq<Entity>, key: Key) {
    exists i :: 0 <= i < |entities| && KeyOf(entities[i]) == key
  }

  ghost predicate HasEntry(entries: seq<Entry>, key: Key) {
    exists i :: 0 <= i < |entries| && entries[i].key == key
  }

  ghost predicate Covers(entities: seq<Entity>, entries: seq<Entry>) {
    forall key :: HasEntity(entities, key) <==> HasEntry(entries, key)
  }

  /** Entries stand in the order in which their entities first start. */
  ghost predicate StartsInOrder(entities: seq<Entity>, entries: seq<Entry>) {
    forall i, j :: 0 <= i < j < |entries| ==> StartsBefore(entities, entries[i].key, entries[j].key)
  }

  ghost predicate StartsBefore(entities: seq<Entity>, first: Key, second: Key) {
    forall b :: b in entities && KeyOf(b) == second ==>
      exists a :: a in entities && KeyOf(a) == first && a.start <= b.start
  }

  ghost predicate Allocates(rules: Rules, entities: seq<Entity>, reserved: set<string>, entries: seq<Entry>,
                            numbers: map<Identity, nat>) {
    && DistinctKeys(entries) && Covers(entities, entries) && StartsInOrder(entities, entries)
    && Numbered(rules, entries, numbers) && Unshared(numbers, reserved)
    && Gapless(numbers, reserved) && InOrder(rules, entries, numbers)
  }

  // ---------- how many placeholders there can be ----------

  /** The different identities of a label key. */
  ghost function IdentitiesOf(rules: Rules, entities: seq<Entity>, key: string): set<Identity> {
    set e | e in entities && IdentityOf(rules, KeyOf(e)).labelKey == key :: IdentityOf(rules, KeyOf(e))
  }

  /** The numbers a 32-bit counter can hand out for a label key without meeting the text. */
  ghost function FreeNumbers(text: string, key: string): set<nat> {
    set n: nat | 1 <= n <= U32_MAX && !IsReserved(text, Printed(key, n))
  }

  /** Every identity can have a number of its own. */
  ghost predicate EnoughNumbers(rules: Rules, entities: seq<Entity>, text: string) {
    forall key :: |IdentitiesOf(rules, entities, key)| <= |FreeNumbers(text, key)|
  }

  lemma SubsetSize<T>(a: set<T>, b: set<T>)
    requires a <= b
    ensures |a| <= |b|
  {
    assert b == a + (b - a);
  }

  lemma {:induction false} FewValues(held: set<Identity>, numbers: map<Identity, nat>)
    requires held <= numbers.Keys
    ensures |set a | a in held :: numbers[a]| <= |held|
    ensures (forall a, b :: a in held && b in held && numbers[a] == numbers[b] ==> a == b) ==>
      |set a | a in held :: numbers[a]| == |held|
    decreases |held|
  {
    if held != {} {
      var one :| one in held;
      var rest := held - {one};
      FewValues(rest, numbers);
      assert (set a | a in held :: numbers[a]) == (set a | a in rest :: numbers[a]) + {numbers[one]};
    }
  }

  lemma NumberedAreKnown(rules: Rules, entities: seq<Entity>, seen: seq<Entity>, entries: seq<Entry>,
                         numbers: map<Identity, nat>)
    requires Numbered(rules, entries, numbers) && Covers(seen, entries) && forall e :: e in seen ==> e in entities
    ensures forall id :: id in numbers ==> id in IdentitiesOf(rules, entities, id.labelKey)
  {
    hide IdentityOf, Printed;
    forall id | id in numbers ensures id in IdentitiesOf(rules, entities, id.labelKey) {
      assert Mentions(rules, entries, id);
      var i :| 0 <= i < |entries| && IdentityOf(rules, entries[i].key) == id;
      assert HasEntry(entries, entries[i].key);
      assert HasEntity(seen, entries[i].key);
      var j :| 0 <= j < |seen| && KeyOf(seen[j]) == entries[i].key;
      assert seen[j] in entities;
    }
  }

  lemma IdentityIsKnown(rules: Rules, entities: seq<Entity>, e: Entity)
    requires e in entities
    ensures var id := IdentityOf(rules, KeyOf(e)); id in IdentitiesOf(rules, entities, id.labelKey)
  {
  }

  /** As long as identities are left to number, so are numbers. */
  lemma NumberRemains(rules: Rules, entities: seq<Entity>, text: string, reserved: set<string>,
                      numbers: map<Identity, nat>, counters: map<string, nat>, id: Identity)
    requires EnoughNumbers(rules, entities, text) && forall p :: p in reserved <==> IsReserved(text, p)
    requires Counted(numbers, counters, reserved) && id !in numbers
    requires id in IdentitiesOf(rules, entities, id.labelKey)
    requires forall a :: a in numbers ==> a in IdentitiesOf(rules, entities, a.labelKey)
    ensures NumberLeft(id.labelKey, Count(counters, id.labelKey), reserved)
  {
    hide IdentitiesOf, IsReserved, Printed;
    var key := id.labelKey;
    var held := set a | a in numbers && a.labelKey == key;
    var values := set a | a in held :: numbers[a];
    if !NumberLeft(key, Count(counters, key), reserved) {
      forall n | n in FreeNumbers(text, key) ensures n in values {
        assert n <= Count(counters, key);
        var b :| b in numbers && b.labelKey == key && numbers[b] == n;
        assert b in held;
      }
      SubsetSize(FreeNumbers(text, key), values);
      FewValues(held, numbers);
      SubsetSize(held + {id}, IdentitiesOf(rules, entities, key));
    }
  }

  /** No allocation within 32 bits does with fewer numbers. */
  lemma AllocationNeedsNumbers(rules: Rules, entities: seq<Entity>, text: string, reserved: set<string>,
                               entries: seq<Entry>, numbers: map<Identity, nat>)
    requires forall p :: p in reserved <==> IsReserved(text, p)
    requires Allocates(rules, entities, reserved, entries, numbers)
    requires forall id :: id in numbers ==> numbers[id] <= U32_MAX
    ensures EnoughNumbers(rules, entities, text)
  {
    hide IdentityOf, IsReserved, Printed, StartsInOrder, Gapless, InOrder, DistinctKeys, Mentions, HasEntry;
    forall key ensures |IdentitiesOf(rules, entities, key)| <= |FreeNumbers(text, key)| {
      var ids := IdentitiesOf(rules, entities, key);
      forall id | id in ids ensures id in numbers && id.labelKey == key {
        var e :| e in entities && IdentityOf(rules, KeyOf(e)).labelKey == key && IdentityOf(rules, KeyOf(e)) == id;
        EntityIsNumbered(rules, entities, entries, numbers, e);
      }
      FewValues(ids, numbers);
      SubsetSize(set a | a in ids :: numbers[a], FreeNumbers(text, key));
    }
  }

  lemma EntityIsNumbered(rules: Rules, entities: seq<Entity>, entries: seq<Entry>, numbers: map<Identity, nat>,
                         e: Entity)
    requires e in entities && Covers(entities, entries) && Numbered(rules, entries, numbers)
    ensures IdentityOf(rules, KeyOf(e)) in numbers
  {
    hide IdentityOf, KeyOf, Printed, Mentions;
    var j :| 0 <= j < |entities| && entities[j] == e;
    assert HasEntity(entities, KeyOf(e));
    assert HasEntry(entries, KeyOf(e));
  }

  lemma {:induction false} FewIdentities(rules: Rules, entities: seq<Entity>, key: string)
    ensures |IdentitiesOf(rules, entities, key)| <= |entities|
  {
    hide IdentityOf, KeyOf;
    if entities != [] {
      var before, e := entities[..|entities| - 1], entities[|entities| - 1];
      FewIdentities(rules, before, key);
      assert forall x :: x in entities <==> x in before || x == e;
      SubsetSize(IdentitiesOf(rules, entities, key),
                 IdentitiesOf(rules, before, key) + {IdentityOf(rules, KeyOf(e))});
    }
  }

  ghost function NumbersUpTo(n: nat): (numbers: set<nat>)
    ensures |numbers| == n && forall m: nat :: m in numbers <==> 1 <= m <= n
  {
    if n == 0 then {} else NumbersUpTo(n - 1) + {n}
  }

  /** Distinct numbers print as distinct placeholders. */
  lemma {:induction false} AsManyPrints(key: string, numbers: set<nat>, all: set<string>)
    requires forall n :: n in numbers ==> Printed(key, n) in all
    ensures |numbers| <= |all|
    decreases |numbers|
  {
    hide Printed;
    if numbers != {} {
      var one :| one in numbers;
      forall n | n in numbers - {one} ensures Printed(key, n) in all - {Printed(key, one)} {
        if Printed(key, n) == Printed(key, one) { PrintedInjective(key, n, key, one); }
      }
      AsManyPrints(key, numbers - {one}, all - {Printed(key, one)});
    }
  }

  /** Numbers that are not free are reserved. */
  lemma FreeOrReserved(text: string, key: string, reserved: set<string>)
    requires forall p :: p in reserved <==> IsReserved(text, p)
    ensures U32_MAX <= |FreeNumbers(text, key)| + |reserved|
  {
    hide NumbersUpTo, IsReserved, Printed;
    var numbers, free := NumbersUpTo(U32_MAX), FreeNumbers(text, key);
    AsManyPrints(key, numbers - free, reserved);
    assert numbers == free + (numbers - free);
  }

  /** Entities and reserved placeholders that together are no more than the counter has numbers are
      always few enough. */
  lemma SizesSuffice(rules: Rules, entities: seq<Entity>, text: string, reserved: set<string>)
    requires (forall p :: p in reserved <==> IsReserved(text, p)) && |entities| + |reserved| <= U32_MAX
    ensures EnoughNumbers(rules, entities, text)
  {
    hide IdentitiesOf, FreeNumbers, IsReserved;
    forall key ensures |IdentitiesOf(rules, entities, key)| <= |FreeNumbers(text, key)| {
      FewIdentities(rules, entities, key);
      FreeOrReserved(text, key, reserved);
    }
  }

  // ---------- the loop ----------

  /** The counters against the numbers handed out so far. */
  ghost predicate Counted(numbers: map<Identity, nat>, counters: map<string, nat>, reserved: set<string>) {
    && (forall a :: a in numbers ==> numbers[a] <= Count(counters, a.labelKey) <= U32_MAX)
    && (forall key, n: nat :: 1 <= n <= Count(counters, key) ==>
         Printed(key, n) in reserved || HasNumber(numbers, key, n))
  }

  ghost predicate Assigned(ids: map<Identity, string>, numbers: map<Identity, nat>) {
    ids.Keys == numbers.Keys && forall a :: a in numbers ==> ids[a] == Printed(a.labelKey, numbers[a])
  }

  method BuildPlaceholderMap(rules: Rules, entities: seq<Entity>, reservedText: string)
    returns (placeholders: PlaceholderMap, ghost reserved: set<string>, ghost numbers: map<Identity, nat>)
    requires EnoughNumbers(rules, entities, reservedText)
    ensures fresh(placeholders)
    ensures forall p :: p in reserved <==> IsReserved(reservedText, p)
    ensures Allocates(rules, entities, reserved, placeholders.entries, numbers)
    ensures forall id :: id in numbers ==> numbers[id] <= U32_MAX
  {
    hide EnoughNumbers, IdentitiesOf, DistinctKeys, Covers, FirstSeen, StartsInOrder, HasEntry, Numbered, Unshared,
      Gapless, InOrder, Counted, Assigned, Printed, IsReserved, IdentityOf, Sort;
    var counters: map<string, nat> := map[];
    var normalizedToPlaceholder: map<Identity, string> := map[];
    numbers := map[];
    var reservedPlaceholders := CollectReservedPlaceholders(reservedText);
    reserved := reservedPlaceholders;
    placeholders := new PlaceholderMap();
    var byStart := (a: Entity, b: Entity) => a.start <= b.start;
    var sorted := Sort(byStart, entities);
    SortKeeps(byStart, entities);
    SameElements(sorted, entities);
    NothingAllocated(rules, reserved);
    for i := 0 to |sorted|
      invariant fresh(placeholders)
      invariant DistinctKeys(placeholders.entries) && Covers(sorted[..i], placeholders.entries)
      invariant FirstSeen(sorted[..i], placeholders.entries)
      invariant Numbered(rules, placeholders.entries, numbers) && Unshared(numbers, reserved)
      invariant InOrder(rules, placeholders.entries, numbers)
      invariant Assigned(normalizedToPlaceholder, numbers)
      invariant Counted(numbers, counters, reserved)
    {
      var entity := sorted[i];
      assert sorted[..i + 1] == sorted[..i] + [entity];
      var known := placeholders.GetEntity(entity);
      if known.Some? {
        CoversKnown(sorted[..i], placeholders.entries, entity);
        FirstSeenStep(sorted[..i], placeholders.entries, entity, placeholders.entries);
        continue;
      }
      NoEntry(placeholders.entries, KeyOf(entity));
      var id := IdentityOf(rules, KeyOf(entity));
      var existing := if id in normalizedToPlaceholder then Some(normalizedToPlaceholder[id]) else None;
      if existing.Some? {
        OldIdentity(rules, placeholders.entries, numbers, normalizedToPlaceholder, KeyOf(entity));
        CoversNew(sorted[..i], placeholders.entries, entity, existing.value);
        FirstSeenStep(sorted[..i], placeholders.entries, entity, placeholders.entries +
          [Entry(KeyOf(entity), existing.value)]);
        placeholders.PushEntity(entity, existing.value);
        continue;
      }
      IdentityIsKnown(rules, entities, entity);
      NumberedAreKnown(rules, entities, sorted[..i], placeholders.entries, numbers);
      IdentityIsNew(normalizedToPlaceholder, numbers, id);
      NumberRemains(rules, entities, reservedText, reserved, numbers, counters, id);
      var placeholder, counters' := NextPlaceholder(id.labelKey, counters, reservedPlaceholders);
      NewCount(numbers, counters, reserved, id, Count(counters', id.labelKey), normalizedToPlaceholder);
      NewIdentity(rules, placeholders.entries, numbers, reserved, KeyOf(entity), Count(counters', id.labelKey),
        counters);
      CoversNew(sorted[..i], placeholders.entries, entity, placeholder);
      FirstSeenStep(sorted[..i], placeholders.entries, entity, placeholders.entries +
        [Entry(KeyOf(entity), placeholder)]);
      counters := counters';
      numbers := numbers[id := Count(counters', id.labelKey)];
      placeholders.PushEntity(entity, placeholder);
      normalizedToPlaceholder := normalizedToPlaceholder[id := placeholder];
    }
    assert sorted[..|sorted|] == sorted;
    CountedIsGapless(numbers, counters, reserved);
    SortSorts(byStart, entities);
    SeenInOrder(sorted, entities, placeholders.entries);
    CoversSame(sorted, entities, placeholders.entries);
  }

  /** When the first entity of an entry comes by, every earlier entry has had its own. */
  ghost predicate FirstSeen(sorted: seq<Entity>, entries: seq<Entry>) {
    forall i, j, m :: 0 <= i < j < |entries| && 0 <= m < |sorted| && KeyOf(sorted[m]) == entries[j].key ==>
      HasEntity(sorted[..m + 1], entries[i].key)
  }

  lemma FirstSeenStep(before: seq<Entity>, entries: seq<Entry>, e: Entity, entries': seq<Entry>)
    requires FirstSeen(before, entries) && Covers(before, entries) && Covers(before + [e], entries')
    requires entries' == entries || exists p ::
      entries' == entries + [Entry(KeyOf(e), p)] && !HasEntry(entries, KeyOf(e))
    ensures FirstSeen(before + [e], entries')
  {
    hide KeyOf, HasEntity, HasEntry;
    var after := before + [e];
    forall i, j, m | 0 <= i < j < |entries'| && 0 <= m < |after| && KeyOf(after[m]) == entries'[j].key
      ensures HasEntity(after[..m + 1], entries'[i].key)
    {
      SomeEntry(entries', i);
      if m == |before| {
        assert after[..m + 1] == after;
      } else {
        assert after[..m + 1] == before[..m + 1];
        SomeEntity(before, m);
      }
    }
  }

  lemma NoEntry(entries: seq<Entry>, key: Key)
    requires forall i :: 0 <= i < |entries| ==> entries[i].key != key
    ensures !HasEntry(entries, key)
  {
  }

  lemma SomeEntry(entries: seq<Entry>, i: nat)
    requires i < |entries|
    ensures HasEntry(entries, entries[i].key)
  {
  }

  lemma SomeEntity(entities: seq<Entity>, i: nat)
    requires i < |entities|
    ensures HasEntity(entities, KeyOf(entities[i]))
  {
  }

  lemma SeenInOrder(sorted: seq<Entity>, entities: seq<Entity>, entries: seq<Entry>)
    requires FirstSeen(sorted, entries) && forall e :: e in sorted <==> e in entities
    requires forall i, j :: 0 <= i < j < |sorted| ==> sorted[i].start <= sorted[j].start
    ensures StartsInOrder(entities, entries)
  {
    hide KeyOf, HasEntity;
    forall i, j, b | 0 <= i < j < |entries| && b in entities && KeyOf(b) == entries[j].key
      ensures exists a :: a in entities && KeyOf(a) == entries[i].key && a.start <= b.start
    {
      var m :| 0 <= m < |sorted| && sorted[m] == b;
      var a := EarlierEntity(sorted, m, entries[i].key);
      assert a in entities;
    }
  }

  lemma EarlierEntity(sorted: seq<Entity>, m: nat, key: Key) returns (a: Entity)
    requires m < |sorted| && HasEntity(sorted[..m + 1], key)
    requires forall i, j :: 0 <= i < j < |sorted| ==> sorted[i].start <= sorted[j].start
    ensures a in sorted && KeyOf(a) == key && a.start <= sorted[m].start
  {
    hide KeyOf;
    var f :| 0 <= f < |sorted[..m + 1]| && KeyOf(sorted[..m + 1][f]) == key;
    assert sorted[..m + 1][f] == sorted[f];
    a := sorted[f];
  }

  lemma NothingAllocated(rules: Rules, reserved: set<string>)
    ensures DistinctKeys([]) && Covers([], []) && FirstSeen([], []) && Numbered(rules, [], map[])
      && Unshared(map[], reserved)
    ensures InOrder(rules, [], map[]) && Assigned(map[], map[]) && Counted(map[], map[], reserved)
  {
  }

  lemma HasEntityMore(entities: seq<Entity>, e: Entity, key: Key)
    ensures HasEntity(entities + [e], key) <==> HasEntity(entities, key) || KeyOf(e) == key
  {
    hide KeyOf;
    var longer := entities + [e];
    if HasEntity(entities, key) {
      var i :| 0 <= i < |entities| && KeyOf(entities[i]) == key;
      assert longer[i] == entities[i];
    }
    if KeyOf(e) == key { assert longer[|entities|] == e; }
  }

  lemma HasEntryMore(entries: seq<Entry>, entry: Entry, key: Key)
    ensures HasEntry(entries + [entry], key) <==> HasEntry(entries, key) || entry.key == key
  {
    var longer := entries + [entry];
    if HasEntry(entries, key) {
      var i :| 0 <= i < |entries| && entries[i].key == key;
      assert longer[i] == entries[i];
    }
    if entry.key == key { assert longer[|entries|] == entry; }
  }

  lemma CoversKnown(entities: seq<Entity>, entries: seq<Entry>, e: Entity)
    requires Covers(entities, entries) && exists i :: 0 <= i < |entries| && entries[i].key == KeyOf(e)
    ensures Covers(entities + [e], entries)
  {
    assert HasEntry(entries, KeyOf(e));
    hide HasEntity, HasEntry, KeyOf;
    forall key ensures HasEntity(entities + [e], key) <==> HasEntry(entries, key) { HasEntityMore(entities, e, key); }
  }

  lemma CoversNew(entities: seq<Entity>, entries: seq<Entry>, e: Entity, p: string)
    requires Covers(entities, entries) && DistinctKeys(entries)
    requires forall i :: 0 <= i < |entries| ==> entries[i].key != KeyOf(e)
    ensures Covers(entities + [e], entries + [Entry(KeyOf(e), p)]) && DistinctKeys(entries + [Entry(KeyOf(e), p)])
  {
    hide HasEntity, HasEntry, KeyOf;
    forall key ensures HasEntity(entities + [e], key) <==> HasEntry(entries + [Entry(KeyOf(e), p)], key) {
      HasEntityMore(entities, e, key);
      HasEntryMore(entries, Entry(KeyOf(e), p), key);
    }
  }

  lemma CoversSame(sorted: seq<Entity>, entities: seq<Entity>, entries: seq<Entry>)
    requires Covers(sorted, entries) && forall e :: e in sorted <==> e in entities
    ensures Covers(entities, entries)
  {
    hide HasEntry, KeyOf;
    forall key ensures HasEntity(sorted, key) <==> HasEntity(entities, key) {
      if HasEntity(sorted, key) {
        var i :| 0 <= i < |sorted| && KeyOf(sorted[i]) == key;
        assert sorted[i] in entities;
      }
      if HasEntity(entities, key) {
        var i :| 0 <= i < |entities| && KeyOf(entities[i]) == key;
        assert entities[i] in sorted;
      }
    }
  }

  lemma MentionsMore(rules: Rules, entries: seq<Entry>, entry: Entry, id: Identity)
    ensures Mentions(rules, entries + [entry], id) <==>
      Mentions(rules, entries, id) || IdentityOf(rules, entry.key) == id
  {
    hide IdentityOf;
    var longer := entries + [entry];
    if Mentions(rules, entries, id) {
      var i :| 0 <= i < |entries| && IdentityOf(rules, entries[i].key) == id;
      assert longer[i] == entries[i];
    }
    if IdentityOf(rules, entry.key) == id { assert longer[|entries|] == entry; }
  }

  /** An entity whose identity already has a number joins its entries. */
  lemma OldIdentity(rules: Rules, entries: seq<Entry>, numbers: map<Identity, nat>,
                     ids: map<Identity, string>, key: Key)
    requires Numbered(rules, entries, numbers) && InOrder(rules, entries, numbers) && Assigned(ids, numbers)
    requires IdentityOf(rules, key) in ids
    ensures var longer := entries + [Entry(key, ids[IdentityOf(rules, key)])];
            Numbered(rules, longer, numbers) && InOrder(rules, longer, numbers)
  {
    hide IdentityOf, Printed, Mentions;
    var id := IdentityOf(rules, key);
    var entry := Entry(key, ids[id]);
    var longer := entries + [entry];
    forall x ensures Mentions(rules, longer, x) <==> Mentions(rules, entries, x) || id == x {
      MentionsMore(rules, entries, entry, x);
    }
    OrderGrows(rules, entries, numbers, numbers, entry);
  }

  /** A further entry keeps the order when its number is the largest of its label key, or when its
      identity is mentioned before. */
  lemma OrderGrows(rules: Rules, entries: seq<Entry>, numbers: map<Identity, nat>,
                    numbers': map<Identity, nat>, entry: Entry)
    requires Numbered(rules, entries, numbers) && InOrder(rules, entries, numbers)
    requires forall a :: a in numbers ==> a in numbers' && numbers'[a] == numbers[a]
    requires var id := IdentityOf(rules, entry.key);
             id in numbers' && (id in numbers || forall a :: a in numbers && a.labelKey == id.labelKey ==>
               numbers[a] < numbers'[id])
    ensures InOrder(rules, entries + [entry], numbers')
  {
    hide IdentityOf, Printed, Mentions;
    var longer := entries + [entry];
    var id := IdentityOf(rules, entry.key);
    forall i, j | 0 <= i < j < |longer|
      ensures var a, b := IdentityOf(rules, longer[i].key), IdentityOf(rules, longer[j].key);
              a in numbers' && b in numbers' && a.labelKey == b.labelKey && !Mentions(rules, longer[..i + 1], b) ==>
                numbers'[a] < numbers'[b]
    {
      assert longer[..i + 1] == entries[..i + 1];
      if j == |entries| && id in numbers { LaterMention(rules, entries, numbers, id, i); }
    }
  }

  /** An identity first mentioned behind entry `i` has a larger number than that entry's. */
  lemma LaterMention(rules: Rules, entries: seq<Entry>, numbers: map<Identity, nat>, id: Identity,
                      i: nat)
    requires Numbered(rules, entries, numbers) && InOrder(rules, entries, numbers) && id in numbers && i < |entries|
    requires IdentityOf(rules, entries[i].key) in numbers
    ensures Mentions(rules, entries[..i + 1], id)
         || IdentityOf(rules, entries[i].key).labelKey != id.labelKey
         || numbers[IdentityOf(rules, entries[i].key)] < numbers[id]
  {
    hide IdentityOf, Printed;
    assert Mentions(rules, entries, id);
    var k :| 0 <= k < |entries| && IdentityOf(rules, entries[k].key) == id;
    if k <= i { assert entries[..i + 1][k] == entries[k]; }
  }

  lemma IdentityIsNew(ids: map<Identity, string>, numbers: map<Identity, nat>, id: Identity)
    requires Assigned(ids, numbers)
    ensures id in ids <==> id in numbers
  {
  }

  lemma NewIdentity(rules: Rules, entries: seq<Entry>, numbers: map<Identity, nat>,
                     reserved: set<string>, key: Key, n: nat, counters: map<string, nat>)
    requires Numbered(rules, entries, numbers) && InOrder(rules, entries, numbers) && Unshared(numbers, reserved)
    requires IdentityOf(rules, key) !in numbers
    requires forall a :: a in numbers ==> numbers[a] <= Count(counters, a.labelKey)
    requires var k := IdentityOf(rules, key).labelKey; n > Count(counters, k) && Printed(k, n) !in reserved
    ensures var id := IdentityOf(rules, key);
            var longer := entries + [Entry(key, Printed(id.labelKey, n))];
            Numbered(rules, longer, numbers[id := n]) && InOrder(rules, longer, numbers[id := n])
              && Unshared(numbers[id := n], reserved)
  {
    hide IdentityOf, Printed, Mentions;
    var id := IdentityOf(rules, key);
    var entry := Entry(key, Printed(id.labelKey, n));
    forall x ensures Mentions(rules, entries + [entry], x) <==> Mentions(rules, entries, x) || id == x {
      MentionsMore(rules, entries, entry, x);
    }
    OrderGrows(rules, entries, numbers, numbers[id := n], entry);
  }

  lemma NewCount(numbers: map<Identity, nat>, counters: map<string, nat>, reserved: set<string>,
                  id: Identity, n: nat, ids: map<Identity, string>)
    requires Counted(numbers, counters, reserved) && Assigned(ids, numbers) && id !in numbers
    requires Count(counters, id.labelKey) < n <= U32_MAX
    requires forall m :: Count(counters, id.labelKey) < m < n ==> Printed(id.labelKey, m) in reserved
    ensures Counted(numbers[id := n], counters[id.labelKey := n], reserved)
    ensures Assigned(ids[id := Printed(id.labelKey, n)], numbers[id := n])
    ensures forall a :: a in numbers ==> numbers[a] <= Count(counters, a.labelKey)
  {
    hide Printed;
    var numbers' := numbers[id := n];
    forall key, m: nat | 1 <= m <= Count(counters[id.labelKey := n], key)
      ensures Printed(key, m) in reserved || HasNumber(numbers', key, m)
    {
      if key == id.labelKey && m == n {
        assert id in numbers';
      } else if m <= Count(counters, key) && Printed(key, m) !in reserved {
        var b :| b in numbers && b.labelKey == key && numbers[b] == m;
        assert b in numbers';
      }
    }
  }

  lemma CountedIsGapless(numbers: map<Identity, nat>, counters: map<string, nat>,
                          reserved: set<string>)
    requires Counted(numbers, counters, reserved)
    ensures Gapless(numbers, reserved) && forall id :: id in numbers ==> numbers[id] <= U32_MAX
  {
  }

  // ---------- what an allocation guarantees ----------

  /** Two entries share a placeholder exactly when label key and normalised text agree. */
  lemma SharedIffSameIdentity(rules: Rules, entities: seq<Entity>, reserved: set<string>,
                               entries: seq<Entry>,
                               numbers: map<Identity, nat>, i: nat, j: nat)
    requires Allocates(rules, entities, reserved, entries, numbers) && i < |entries| && j < |entries|
    ensures entries[i].placeholder == entries[j].placeholder
       <==> IdentityOf(rules, entries[i].key) == IdentityOf(rules, entries[j].key)
  {
    hide IdentityOf, Printed, Covers, StartsInOrder, Gapless, InOrder, DistinctKeys, Mentions;
    var a, b := IdentityOf(rules, entries[i].key), IdentityOf(rules, entries[j].key);
    if entries[i].placeholder == entries[j].placeholder {
      PrintedInjective(a.labelKey, numbers[a], b.labelKey, numbers[b]);
    }
  }

  /** In terms of the entities: those without a source share a placeholder exactly when their labels
      have one key and their texts one normal form, and an alias goes with its source. */
  lemma SharedMeans(rules: Rules, entities: seq<Entity>, reserved: set<string>, entries: seq<Entry>,
                    numbers: map<Identity, nat>, i: nat, j: nat)
    requires Allocates(rules, entities, reserved, entries, numbers) && i < |entries| && j < |entries|
    ensures var (a, b) := (entries[i].key, entries[j].key);
            var (s, t) := (if a.source.Some? then a.source.value else a.text,
                           if b.source.Some? then b.source.value else b.text);
            entries[i].placeholder == entries[j].placeholder <==>
              && LabelKey(rules.upper, a.labelText) == LabelKey(rules.upper, b.labelText)
              && rules.normalizeText(a.labelText, s) == rules.normalizeText(b.labelText, t)
  {
    hide LabelKey, Allocates;
    SharedIffSameIdentity(rules, entities, reserved, entries, numbers, i, j);
  }

  /** No placeholder whose label key is plain and not empty occurs in the text it was made for. */
  lemma PlainKeysAreFresh(rules: Rules, entities: seq<Entity>, text: string, reserved: set<string>,
                           entries: seq<Entry>,
                           numbers: map<Identity, nat>, i: nat)
    requires Allocates(rules, entities, reserved, entries, numbers) && i < |entries|
    requires forall p :: p in reserved <==> IsReserved(text, p)
    requires IdentityOf(rules, entries[i].key).labelKey != "" && Plain(IdentityOf(rules, entries[i].key).labelKey)
    ensures !Occurs(text, entries[i].placeholder)
  {
    hide IdentityOf, Printed, Covers, StartsInOrder, Gapless, InOrder, DistinctKeys, Mentions, IsReserved, Occurs,
      Plain;
    var id := IdentityOf(rules, entries[i].key);
    PrintedIsReserved(text, id.labelKey, numbers[id]);
  }

  /** With any other label key there is a text from which the placeholder handed out is not fresh. */
  lemma OtherKeysAreNot(rules: Rules, e: Entity, reserved: set<string>, entries: seq<Entry>,
                         numbers: map<Identity, nat>)
    requires var key := LabelKey(rules.upper, e.labelText);
             && (key == "" || !Plain(key))
             && (forall p :: p in reserved <==> IsReserved(Printed(key, 1), p))
    requires Allocates(rules, [e], reserved, entries, numbers)
    ensures var text := Printed(LabelKey(rules.upper, e.labelText), 1);
            entries == [Entry(KeyOf(e), text)] && Occurs(text, entries[0].placeholder)
  {
    hide Printed, InOrder, StartsInOrder, Plain, IsReserved, Occurs, LabelKey;
    var key := LabelKey(rules.upper, e.labelText);
    UnrecognisedStandsFree(key, 1);
    OneEntry(e, entries);
    var id := IdentityOf(rules, KeyOf(e));
    assert Printed(id.labelKey, 1) in reserved || HasNumber(numbers, id.labelKey, 1);
  }

  lemma OneEntry(e: Entity, entries: seq<Entry>)
    requires DistinctKeys(entries) && Covers([e], entries)
    ensures |entries| == 1 && entries[0].key == KeyOf(e)
  {
    hide KeyOf;
    assert KeyOf([e][0]) == KeyOf(e);
    assert HasEntity([e], KeyOf(e));
    var i :| 0 <= i < |entries| && entries[i].key == KeyOf(e);
    forall j | 0 <= j < |entries| ensures entries[j].key == KeyOf(e) {
      assert HasEntry(entries, entries[j].key);
      assert HasEntity([e], entries[j].key);
    }
    var n := Min(1, |entries| - 1);
    assert entries[0].key == entries[n].key;
  }

  /** Label keys are plain exactly when upper-casing the label yields no brackets, and empty only for
      labels that upper-case to nothing. */
  lemma LabelKeyIsPlain(upper: char -> string, labelText: string)
    ensures var upperText := Uppercase(upper, labelText);
            && (Plain(LabelKey(upper, labelText)) <==> '[' !in upperText && ']' !in upperText)
            && (LabelKey(upper, labelText) == "" <==> upperText == "")
  {
    var upperText := Uppercase(upper, labelText);
    var key := Collapsed(upperText);
    assert forall k :: 0 <= k < |key| ==> key[k] in key;
    if '[' in key || ']' in key { assert !Plain(key); }
  }

}

/**
  Clustering sorted address seeds, and the evidence that the clusters of one run share. Which gaps
  separate two seeds is a parameter.
 */
module SeedClusters {
  import opened Common

  datatype SeedType = StreetWord | PostalCode | City | State | AddressTrigger

  datatype Seed = Seed(start: nat, end: nat, kind: SeedType, text: string)

  datatype Separation = NoSeparation | EntityBarrier | TextBarrier | DistanceGap

  datatype LeftGrowth = AddressContext | SeedBounded

  datatype SeedCluster = SeedCluster(seeds: seq<Seed>, start: nat, end: nat, run: nat, leftGrowth: LeftGrowth)

  /** What the text between a cluster and the next seed does: `near` is the distance test, `between`
      the reading of the gap, asked only when the seed is near. */
  function SeparationOf(near: (nat, nat) -> bool, between: (SeedCluster, Seed) -> Separation, cluster: SeedCluster,
                        seed: Seed): Separation {
    if near(cluster.end, seed.start) then between(cluster, seed) else DistanceGap
  }

  predicate EndsRun(s: Separation) {
    s == TextBarrier || s == DistanceGap
  }

  function MaxEnd(seeds: seq<Seed>): (end: nat)
    requires seeds != []
    ensures forall s :: s in seeds ==> s.end <= end
    ensures exists s :: s in seeds && s.end == end
  {
    if |seeds| == 1 then seeds[0].end
    else
      assert seeds == seeds[..|seeds| - 1] + [seeds[|seeds| - 1]];
      Max(MaxEnd(seeds[..|seeds| - 1]), seeds[|seeds| - 1].end)
  }

  /** A cluster cut back to its first `n` seeds, as it stood when seed `n` was looked at. */
  function FirstSeeds(c: SeedCluster, n: nat): SeedCluster
    requires 0 < n <= |c.seeds|
  {
    c.(seeds := c.seeds[..n], end := MaxEnd(c.seeds[..n]))
  }

  /** Not empty, bounded by its first start and its largest end, and grown seed by seed without a
      separation. */
  ghost predicate IsCluster(near: (nat, nat) -> bool, between: (SeedCluster, Seed) -> Separation, c: SeedCluster) {
    && c.seeds != [] && c.start == c.seeds[0].start && c.end == MaxEnd(c.seeds)
    && forall n :: 0 < n < |c.seeds| ==> SeparationOf(near, between, FirstSeeds(c, n), c.seeds[n]) == NoSeparation
  }

  /** What the separation between neighbours means for run and left growth. */
  ghost predicate Follows(near: (nat, nat) -> bool, between: (SeedCluster, Seed) -> Separation, c: SeedCluster,
                          next: SeedCluster) {
    && next.seeds != []
    && var s := SeparationOf(near, between, c, next.seeds[0]);
       && s != NoSeparation
       && next.run == c.run + (if EndsRun(s) then 1 else 0)
       && next.leftGrowth == if EndsRun(s) then SeedBounded else AddressContext
  }

  ghost predicate Clustered(near: (nat, nat) -> bool, between: (SeedCluster, Seed) -> Separation,
      clusters: seq<SeedCluster>) {
    && (forall k :: 0 <= k < |clusters| ==> IsCluster(near, between, clusters[k]))
    && (clusters != [] ==> clusters[0].run == 0 && clusters[0].leftGrowth == AddressContext)
    && (forall k :: 0 <= k < |clusters| - 1 ==> Follows(near, between, clusters[k], clusters[k + 1]))
  }

  /** Neighbouring clusters share a run exactly when only an entity stands between them, and otherwise
      the next one starts a run of its own and may not grow to the left. */
  lemma RunsMeetAtEntities(near: (nat, nat) -> bool, between: (SeedCluster, Seed) -> Separation,
                           clusters: seq<SeedCluster>, k: nat)
    requires Clustered(near, between, clusters) && k + 1 < |clusters|
    ensures var (c, next) := (clusters[k], clusters[k + 1]);
            && next.seeds != []
            && (next.run == c.run <==> near(c.end, next.seeds[0].start) && between(c, next.seeds[0]) == EntityBarrier)
            && (next.run == c.run + 1 <==>
                 !near(c.end, next.seeds[0].start) || between(c, next.seeds[0]) in {TextBarrier, DistanceGap})
            && (next.leftGrowth == SeedBounded <==> next.run == c.run + 1)
  {
    assert Follows(near, between, clusters[k], clusters[k + 1]);
  }

  function AllSeeds(clusters: seq<SeedCluster>): seq<Seed> {
    if clusters == [] then [] else AllSeeds(clusters[..|clusters| - 1]) + clusters[|clusters| - 1].seeds
  }

  lemma AllSeedsMore(clusters: seq<SeedCluster>, c: SeedCluster)
    ensures AllSeeds(clusters + [c]) == AllSeeds(clusters) + c.seeds
  {
  }

  /** The clusters are the seeds in order, cut exactly at the separations. */
  method ClusterSeeds(seeds: seq<Seed>, near: (nat, nat) -> bool, between: (SeedCluster, Seed) -> Separation)
    returns (clusters: seq<SeedCluster>)
    ensures AllSeeds(clusters) == seeds
    ensures Clustered(near, between, clusters)
  {
    hide AllSeeds, Clustered, IsCluster, MaxEnd, SeparationOf;
    clusters := [];
    NoClusters();
    if seeds == [] { return; }
    var run: nat := 0;
    var current := SeedCluster([seeds[0]], seeds[0].start, seeds[0].end, run, AddressContext);
    FirstCluster(near, between, current);
    for i := 1 to |seeds|
      invariant current.seeds != [] && run == current.run
      invariant Clustered(near, between, clusters + [current])
      invariant AllSeeds(clusters) + current.seeds == seeds[..i]
    {
      var seed := seeds[i];
      var separation := SeparationOf(near, between, current, seed);
      assert seeds[..i + 1] == seeds[..i] + [seed];
      if separation == NoSeparation {
        SeedJoins(near, between, clusters, current, seed);
        current := current.(seeds := current.seeds + [seed], end := Max(current.end, seed.end));
        continue;
      }
      if EndsRun(separation) { run := run + 1; }
      var growth := if EndsRun(separation) then SeedBounded else AddressContext;
      var next := SeedCluster([seed], seed.start, seed.end, run, growth);
      ClusterFollows(near, between, clusters, current, next);
      AllSeedsMore(clusters, current);
      clusters := clusters + [current];
      current := next;
    }
    AllSeedsMore(clusters, current);
    clusters := clusters + [current];
    assert seeds[..|seeds|] == seeds;
  }

  lemma NoClusters()
    ensures AllSeeds([]) == []
    ensures forall near, between :: Clustered(near, between, [])
  {
  }

  lemma FirstCluster(near: (nat, nat) -> bool, between: (SeedCluster, Seed) -> Separation,
                      c: SeedCluster)
    requires |c.seeds| == 1 && c.start == c.seeds[0].start && c.end == c.seeds[0].end && c.run == 0
      && c.leftGrowth == AddressContext
    ensures Clustered(near, between, [] + [c])
  {
  }

  lemma JoinedIsCluster(near: (nat, nat) -> bool, between: (SeedCluster, Seed) -> Separation,
                         c: SeedCluster, seed: Seed)
    requires IsCluster(near, between, c) && SeparationOf(near, between, c, seed) == NoSeparation
    ensures IsCluster(near, between, c.(seeds := c.seeds + [seed], end := Max(c.end, seed.end)))
  {
    hide MaxEnd, SeparationOf;
    var joined := c.(seeds := c.seeds + [seed], end := Max(c.end, seed.end));
    forall n | 0 < n < |joined.seeds|
      ensures SeparationOf(near, between, FirstSeeds(joined, n), joined.seeds[n]) == NoSeparation
    {
      assert joined.seeds[..n] == c.seeds[..n];
      if n < |c.seeds| {
        assert FirstSeeds(joined, n) == FirstSeeds(c, n);
      } else {
        assert c.seeds[..n] == c.seeds;
        assert FirstSeeds(joined, n) == c;
      }
    }
  }

  lemma SeedJoins(near: (nat, nat) -> bool, between: (SeedCluster, Seed) -> Separation,
      clusters: seq<SeedCluster>, c: SeedCluster, seed: Seed)
    requires Clustered(near, between, clusters + [c]) && SeparationOf(near, between, c, seed) == NoSeparation
    ensures Clustered(near, between, clusters + [c.(seeds := c.seeds + [seed], end := Max(c.end, seed.end))])
  {
    hide IsCluster, SeparationOf;
    var joined := c.(seeds := c.seeds + [seed], end := Max(c.end, seed.end));
    var before, after := clusters + [c], clusters + [joined];
    assert before[|clusters|] == c && after[|clusters|] == joined;
    JoinedIsCluster(near, between, c, seed);
    forall k | 0 <= k < |after|
      ensures IsCluster(near, between, after[k])
    {
      assert k < |clusters| ==> after[k] == before[k];
    }
    forall k | 0 <= k < |after| - 1 ensures Follows(near, between, after[k], after[k + 1]) {
      assert Follows(near, between, before[k], before[k + 1]);
    }
  }

  lemma ClusterFollows(near: (nat, nat) -> bool, between: (SeedCluster, Seed) -> Separation,
      clusters: seq<SeedCluster>, c: SeedCluster, next: SeedCluster)
    requires Clustered(near, between, clusters + [c]) && |next.seeds| == 1 && Follows(near, between, c, next)
    requires next.start == next.seeds[0].start && next.end == next.seeds[0].end
    ensures Clustered(near, between, clusters + [c] + [next])
  {
  }

  // ---------- what follows from the cut ----------

  /** Run numbers start at zero and never rise by more than one. */
  lemma {:induction false} RunsRiseByOne(near: (nat, nat) -> bool, between: (SeedCluster, Seed) -> Separation,
      clusters: seq<SeedCluster>, j: nat, k: nat)
    requires Clustered(near, between, clusters) && j <= k < |clusters|
    ensures clusters[j].run <= clusters[k].run <= clusters[j].run + (k - j)
    decreases k - j
  {
    hide IsCluster, SeparationOf;
    if j < k {
      RunsRiseByOne(near, between, clusters, j, k - 1);
      assert Follows(near, between, clusters[k - 1], clusters[k - 1 + 1]);
    }
  }

  /** Every run number up to the last is the run of some cluster. */
  lemma {:induction false} NoRunSkipped(near: (nat, nat) -> bool, between: (SeedCluster, Seed) -> Separation,
      clusters: seq<SeedCluster>, k: nat, run: nat)
    requires Clustered(near, between, clusters) && k < |clusters| && run <= clusters[k].run
    ensures exists j :: 0 <= j <= k && clusters[j].run == run
  {
    hide IsCluster, SeparationOf;
    if run < clusters[k].run {
      assert Follows(near, between, clusters[k - 1], clusters[k - 1 + 1]);
      NoRunSkipped(near, between, clusters, k - 1, run);
    }
  }

  /** On sorted seeds a cluster's bounds are the hull of its seeds. */
  lemma BoundsAreHull(near: (nat, nat) -> bool, between: (SeedCluster, Seed) -> Separation,
                       c: SeedCluster)
    requires IsCluster(near, between, c)
    requires forall i, j :: 0 <= i < j < |c.seeds| ==> c.seeds[i].start <= c.seeds[j].start
    ensures forall s :: s in c.seeds ==> c.start <= s.start && s.end <= c.end
    ensures (exists s :: s in c.seeds && s.start == c.start) && exists s :: s in c.seeds && s.end == c.end
  {
    hide SeparationOf;
    assert c.seeds[0] in c.seeds;
  }

  // ---------- evidence ----------

  /** One bit per kind of seed. */
  type AddressEvidence = bv8

  function Bit(kind: SeedType): AddressEvidence {
    match kind
    case StreetWord => 1
    case PostalCode => 2
    case City => 4
    case State => 8
    case AddressTrigger => 16
  }

  function Collect(seeds: seq<Seed>): AddressEvidence {
    if seeds == [] then 0 else Collect(seeds[..|seeds| - 1]) | Bit(seeds[|seeds| - 1].kind)
  }

  function Merge(a: AddressEvidence, b: AddressEvidence): AddressEvidence { a | b }

  predicate Contains(e: AddressEvidence, kind: SeedType) { e & Bit(kind) != 0 }

  function CountOnes(e: AddressEvidence): nat {
    One(e, 1) + One(e, 2) + One(e, 4) + One(e, 8) + One(e, 16) + One(e, 32) + One(e, 64) + One(e, 128)
  }

  function One(e: AddressEvidence, bit: AddressEvidence): nat {
    if e & bit != 0 then 1 else 0
  }

  predicate IsSufficient(e: AddressEvidence) { CountOnes(e) >= 2 }

  predicate OnlyKinds(e: AddressEvidence) { e & 0xE0 == 0 }

  lemma MergeContains(a: AddressEvidence, b: AddressEvidence, kind: SeedType)
    ensures Contains(Merge(a, b), kind) <==> Contains(a, kind) || Contains(b, kind)
    ensures OnlyKinds(a) && OnlyKinds(b) ==> OnlyKinds(Merge(a, b))
    ensures !Contains(0, kind)
  {
  }

  lemma BitContains(kind: SeedType, other: SeedType)
    ensures Contains(Bit(kind), other) <==> kind == other
    ensures OnlyKinds(Bit(kind)) && OnlyKinds(0)
  {
  }

  ghost predicate HasKind(seeds: seq<Seed>, kind: SeedType) {
    exists i :: 0 <= i < |seeds| && seeds[i].kind == kind
  }

  lemma HasKindMore(seeds: seq<Seed>, seed: Seed, kind: SeedType)
    ensures HasKind(seeds + [seed], kind) <==> HasKind(seeds, kind) || seed.kind == kind
  {
    var longer := seeds + [seed];
    if HasKind(seeds, kind) {
      var i :| 0 <= i < |seeds| && seeds[i].kind == kind;
      assert longer[i].kind == kind;
    }
    if seed.kind == kind { assert longer[|seeds|].kind == kind; }
  }

  /** The collected bits are the kinds that occur. */
  lemma {:induction false} CollectIsKinds(seeds: seq<Seed>, kind: SeedType)
    ensures Contains(Collect(seeds), kind) <==> HasKind(seeds, kind)
    ensures OnlyKinds(Collect(seeds))
  {
    hide Contains, OnlyKinds, HasKind, Bit;
    BitContains(kind, kind);
    if seeds == [] {
      MergeContains(0, 0, kind);
      NoKind(kind);
    } else {
      var n := |seeds| - 1;
      CollectIsKinds(seeds[..n], kind);
      MergeContains(Collect(seeds[..n]), Bit(seeds[n].kind), kind);
      BitContains(seeds[n].kind, kind);
      HasKindMore(seeds[..n], seeds[n], kind);
      assert seeds == seeds[..n] + [seeds[n]];
    }
  }

  lemma NoKind(kind: SeedType)
    ensures !HasKind([], kind)
  {
  }

  /** Enough evidence is two different kinds. */
  lemma SufficientIsTwoKinds(e: AddressEvidence)
    requires OnlyKinds(e)
    ensures IsSufficient(e) <==> exists a, b :: a != b && Contains(e, a) && Contains(e, b)
  {
    hide IsSufficient, Contains;
    if IsSufficient(e) {
      var a, b := TwoKinds(e);
      assert Contains(e, a) && Contains(e, b);
    }
    if exists a, b :: a != b && Contains(e, a) && Contains(e, b) {
      var a, b :| a != b && Contains(e, a) && Contains(e, b);
      TwoBits(e, a, b);
    }
  }

  lemma TwoBits(e: AddressEvidence, a: SeedType, b: SeedType)
    requires a != b && Contains(e, a) && Contains(e, b)
    ensures IsSufficient(e)
  {
  }

  lemma TwoKinds(e: AddressEvidence) returns (a: SeedType, b: SeedType)
    requires OnlyKinds(e) && IsSufficient(e)
    ensures a != b && Contains(e, a) && Contains(e, b)
  {
    a := if Contains(e, StreetWord) then StreetWord else if Contains(e, PostalCode) then PostalCode
         else if Contains(e, City) then City else State;
    b := if Contains(e, AddressTrigger) then AddressTrigger else if Contains(e, State) then State
         else if Contains(e, City) then City else PostalCode;
  }

  // ---------- evidence of a run ----------

  /** Some cluster of the run holds a seed of the kind. */
  ghost predicate RunHasKind(clusters: seq<SeedCluster>, run: nat, kind: SeedType) {
    exists k :: 0 <= k < |clusters| && clusters[k].run == run && HasKind(clusters[k].seeds, kind)
  }

  /** Evidence per run: exactly the kinds of all its clusters, however far apart they stand. */
  ghost predicate EvidenceOf(runs: seq<AddressEvidence>, clusters: seq<SeedCluster>) {
    && (forall k :: 0 <= k < |clusters| ==> clusters[k].run < |runs|)
    && (forall r :: 0 <= r < |runs| ==> RunEvidenceOf(runs[r], clusters, r))
  }

  ghost predicate RunEvidenceOf(e: AddressEvidence, clusters: seq<SeedCluster>, run: nat) {
    OnlyKinds(e) && forall kind :: Contains(e, kind) <==> RunHasKind(clusters, run, kind)
  }

  method RunEvidence(clusters: seq<SeedCluster>) returns (runs: seq<AddressEvidence>)
    ensures EvidenceOf(runs, clusters)
  {
    hide Collect, RunEvidenceOf;
    runs := [];
    for k := 0 to |clusters|
      invariant EvidenceOf(runs, clusters[..k])
    {
      var c := clusters[k];
      assert clusters[..k + 1] == clusters[..k] + [c];
      if |runs| <= c.run {
        EmptyRuns(runs, clusters[..k], c.run);
        runs := runs + seq(c.run + 1 - |runs|, i => 0 as AddressEvidence);
      }
      RunGrows(runs, clusters[..k], c);
      runs := runs[c.run := Merge(runs[c.run], Collect(c.seeds))];
    }
    assert clusters[..|clusters|] == clusters;
  }

  lemma EmptyRuns(runs: seq<AddressEvidence>, clusters: seq<SeedCluster>, run: nat)
    requires EvidenceOf(runs, clusters) && |runs| <= run
    ensures EvidenceOf(runs + seq(run + 1 - |runs|, i => 0 as AddressEvidence), clusters)
  {
  }

  lemma RunGrows(runs: seq<AddressEvidence>, clusters: seq<SeedCluster>, c: SeedCluster)
    requires EvidenceOf(runs, clusters) && c.run < |runs|
    ensures EvidenceOf(runs[c.run := Merge(runs[c.run], Collect(c.seeds))], clusters + [c])
  {
    hide Contains, Merge, Collect, OnlyKinds, HasKind, RunHasKind;
    var runs' := runs[c.run := Merge(runs[c.run], Collect(c.seeds))];
    forall r | 0 <= r < |runs| ensures RunEvidenceOf(runs'[r], clusters + [c], r) {
      assert RunEvidenceOf(runs[r], clusters, r);
      CollectIsKinds(c.seeds, City);
      MergeContains(runs[c.run], Collect(c.seeds), City);
      forall kind ensures Contains(runs'[r], kind) <==> RunHasKind(clusters + [c], r, kind) {
        RunHasKindMore(clusters, c, r, kind);
        CollectIsKinds(c.seeds, kind);
        MergeContains(runs[c.run], Collect(c.seeds), kind);
      }
    }
  }

  lemma RunHasKindMore(clusters: seq<SeedCluster>, c: SeedCluster, run: nat, kind: SeedType)
    ensures RunHasKind(clusters + [c], run, kind) <==>
      RunHasKind(clusters, run, kind) || (c.run == run && HasKind(c.seeds, kind))
  {
    hide HasKind;
    var longer := clusters + [c];
    if RunHasKind(clusters, run, kind) {
      var k :| 0 <= k < |clusters| && clusters[k].run == run && HasKind(clusters[k].seeds, kind);
      assert longer[k] == clusters[k];
    }
    if c.run == run && HasKind(c.seeds, kind) { assert longer[|clusters|] == c; }
  }

  // ---------- which evidence a cluster is judged by ----------

  datatype Grounds = OwnEvidence | EvidenceOfRun | StandaloneStreet

  /** A cluster stands on its own evidence, else on its run's, else it is judged as a bare street. */
  function GroundsFor(c: SeedCluster, runs: seq<AddressEvidence>): Grounds {
    if IsSufficient(Collect(c.seeds)) then OwnEvidence
    else if c.run < |runs| && IsSufficient(runs[c.run]) then EvidenceOfRun
    else StandaloneStreet
  }

  ghost predicate TwoKindsIn(clusters: seq<SeedCluster>, run: nat) {
    exists a, b :: a != b && RunHasKind(clusters, run, a) && RunHasKind(clusters, run, b)
  }

  /** A cluster is accepted on evidence exactly when its run holds two kinds; a weak fragment is
      rescued exactly then. */
  lemma RescuedIffRunHasTwoKinds(clusters: seq<SeedCluster>, runs: seq<AddressEvidence>, k: nat)
    requires EvidenceOf(runs, clusters) && k < |clusters|
    ensures GroundsFor(clusters[k], runs) != StandaloneStreet <==> TwoKindsIn(clusters, clusters[k].run)
    ensures GroundsFor(clusters[k], runs) == OwnEvidence
       <==> exists a, b :: a != b && HasKind(clusters[k].seeds, a) && HasKind(clusters[k].seeds, b)
  {
    hide Contains, Collect, OnlyKinds, HasKind, IsSufficient;
    var c := clusters[k];
    assert RunEvidenceOf(runs[c.run], clusters, c.run);
    SufficientIsTwoKinds(runs[c.run]);
    CollectIsKinds(c.seeds, City);
    SufficientIsTwoKinds(Collect(c.seeds));
    forall kind ensures Contains(Collect(c.seeds), kind) <==> HasKind(c.seeds, kind) { CollectIsKinds(c.seeds, kind); }
    forall kind | HasKind(c.seeds, kind) ensures RunHasKind(clusters, c.run, kind) {}
  }
}

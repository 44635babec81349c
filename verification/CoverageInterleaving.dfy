/** Tapes that run the same threads interleaved differently give the same blocks and the same edges. */
module CoverageInterleaving {
  import opened Sequences
  import opened CoverageBlocks
  import opened CoverageGraph
  import opened CoverageLaws
  import opened Folds

  // The same run of a thread, numbered differently

  predicate Alike(a: seq<Event>, b: seq<Event>) {
    |a| == |b| && forall i | 0 <= i < |a| :: a[i].(seqNo := 0) == b[i].(seqNo := 0)
  }

  predicate AllAlike(a: seq<Block>, b: seq<Block>) {
    |a| == |b| && forall i | 0 <= i < |a| :: Alike(a[i], b[i])
  }

  lemma {:induction false} PartitionAlike(a: seq<Event>, b: seq<Event>)
    requires Alike(a, b)
    ensures AllAlike(Partition(a), Partition(b))
  {
    if a != [] {
      var a', b' := a[..|a| - 1], b[..|b| - 1];
      PartitionAlike(a', b');
      assert Partition(a) == Extend(Partition(a'), Last(a)) && Partition(b) == Extend(Partition(b'), Last(b));
      hide Partition;
      ExtendAlike(Partition(a'), Partition(b'), Last(a), Last(b));
    }
  }

  lemma ExtendAlike(a: seq<Block>, b: seq<Block>, x: Event, y: Event)
    requires AllAlike(a, b) && x.(seqNo := 0) == y.(seqNo := 0)
    requires forall i | 0 <= i < |a| :: a[i] != [] && b[i] != []
    ensures AllAlike(Extend(a, x), Extend(b, y))
  {
    if a != [] {
      assert Alike(Last(a), Last(b));
      assert Last(Last(a)).(seqNo := 0) == Last(Last(b)).(seqNo := 0);
    }
  }

  lemma MaterialAlike(a: Block, b: Block)
    requires Alike(a, b)
    ensures Material(a) == Material(b)
  {
  }

  lemma SightAlike(fp: Fingerprint, a: Block, b: Block, thread: nat)
    requires Alike(a, b) && a != [] && b != []
    ensures KeyOf(fp, a) == KeyOf(fp, b)
    ensures SightOf(fp, Instance(thread, a)) == SightOf(fp, Instance(thread, b))
  {
    MaterialAlike(a, b);
    assert Last(a).(seqNo := 0) == Last(b).(seqNo := 0);
  }

  ghost predicate SameThreads(events1: seq<Event>, events2: seq<Event>) {
    forall t :: Alike(Projection(events1, t), Projection(events2, t))
  }

  ghost predicate SameBlocks(instances1: seq<Instance>, instances2: seq<Instance>) {
    forall t :: AllAlike(BlocksOf(instances1, t), BlocksOf(instances2, t))
  }

  lemma ThreadsGiveBlocks(events1: seq<Event>, events2: seq<Event>, instances1: seq<Instance>, instances2: seq<Instance>)
    requires SameThreads(events1, events2) && Segmented(instances1, events1) && Segmented(instances2, events2)
    ensures SameBlocks(instances1, instances2)
  {
    forall t ensures AllAlike(BlocksOf(instances1, t), BlocksOf(instances2, t)) {
      PartitionAlike(Projection(events1, t), Projection(events2, t));
    }
  }

  // The blocks

  function BlockSights(fp: Fingerprint, blocks: seq<Block>, thread: nat): seq<Sight>
    requires forall i | 0 <= i < |blocks| :: blocks[i] != []
  {
    seq(|blocks|, i requires 0 <= i < |blocks| => SightOf(fp, Instance(thread, blocks[i])))
  }

  /** A sight is as frequent among all as among those of its thread. */
  lemma {:induction false} SightsByThread(fp: Fingerprint, instances: seq<Instance>, s: Sight)
    requires Whole(instances) && forall i | 0 <= i < |BlocksOf(instances, s.thread)| :: BlocksOf(instances, s.thread)[i] != []
    ensures multiset(Sights(fp, instances))[s] == multiset(BlockSights(fp, BlocksOf(instances, s.thread), s.thread))[s]
  {
    if instances != [] {
      var init, x := instances[..|instances| - 1], Last(instances);
      BlocksOfWhole(init, s.thread);
      SightsByThread(fp, init, s);
      assert instances == init + [x];
      BlocksOfAppend(init, x, s.thread);
      SightsAppend(fp, init, x);
      assert x.thread != s.thread ==> SightOf(fp, x) != s;
      hide SightOf, BlocksOf, Sights;
      if x.thread == s.thread {
        assert BlockSights(fp, BlocksOf(init, s.thread) + [x.events], s.thread)
            == BlockSights(fp, BlocksOf(init, s.thread), s.thread) + [SightOf(fp, x)];
      }
    }
  }

  lemma BlockSightsAlike(fp: Fingerprint, a: seq<Block>, b: seq<Block>, thread: nat)
    requires AllAlike(a, b) && (forall i | 0 <= i < |a| :: a[i] != []) && (forall i | 0 <= i < |b| :: b[i] != [])
    ensures BlockSights(fp, a, thread) == BlockSights(fp, b, thread)
  {
    forall i | 0 <= i < |a| ensures SightOf(fp, Instance(thread, a[i])) == SightOf(fp, Instance(thread, b[i])) {
      SightAlike(fp, a[i], b[i], thread);
    }
  }

  lemma SameSights(fp: Fingerprint, instances1: seq<Instance>, instances2: seq<Instance>)
    requires SameBlocks(instances1, instances2) && Whole(instances1) && Whole(instances2)
    ensures multiset(Sights(fp, instances1)) == multiset(Sights(fp, instances2))
  {
    forall s ensures multiset(Sights(fp, instances1))[s] == multiset(Sights(fp, instances2))[s] {
      BlocksOfWhole(instances1, s.thread);
      BlocksOfWhole(instances2, s.thread);
      SightsByThread(fp, instances1, s);
      SightsByThread(fp, instances2, s);
      BlockSightsAlike(fp, BlocksOf(instances1, s.thread), BlocksOf(instances2, s.thread), s.thread);
    }
  }

  lemma StatsCommute()
    ensures Commutes(AddStats)
  {
    forall groups, a, b ensures AddStats(AddStats(groups, a), b) == AddStats(AddStats(groups, b), a) {
      var ab, ba := AddStats(AddStats(groups, a), b), AddStats(AddStats(groups, b), a);
      assert ab.Keys == ba.Keys;
      assert ab[a.key].threads == ba[a.key].threads && ab[b.key].threads == ba[b.key].threads;
    }
  }

  lemma SameVersions(sights1: seq<Sight>, sights2: seq<Sight>)
    requires multiset(sights1) == multiset(sights2)
    ensures forall rva :: VersionsAt(sights1, rva) == VersionsAt(sights2, rva)
  {
    forall s ensures s in sights1 <==> s in sights2 {
      assert s in sights1 <==> s in multiset(sights1);
      assert s in sights2 <==> s in multiset(sights2);
    }
  }

  // The edges

  datatype EdgeStats = EdgeStats(hits: nat, targets: set<int>)

  /** What an edge says apart from its `indirect` flag. */
  function WithoutFlags(edges: map<EdgeKey, Edge>): map<EdgeKey, EdgeStats> {
    map k | k in edges :: EdgeStats(edges[k].hits, edges[k].targets)
  }

  function AddEdgeStats(edges: map<EdgeKey, EdgeStats>, x: Crossing): map<EdgeKey, EdgeStats> {
    var was := if x.key in edges then edges[x.key] else EdgeStats(0, {});
    edges[x.key := EdgeStats(was.hits + 1, was.targets + (if x.target != 0 then {x.target} else {}))]
  }

  lemma {:induction false} FlagsAside(crossings: seq<Crossing>)
    ensures WithoutFlags(Fold(AddEdge, map[], crossings)) == Fold(AddEdgeStats, map[], crossings)
  {
    if crossings != [] {
      FlagsAside(crossings[..|crossings| - 1]);
    }
  }

  lemma EdgeStatsCommute()
    ensures Commutes(AddEdgeStats)
  {
    forall edges, a, b ensures AddEdgeStats(AddEdgeStats(edges, a), b) == AddEdgeStats(AddEdgeStats(edges, b), a) {
      var ab, ba := AddEdgeStats(AddEdgeStats(edges, a), b), AddEdgeStats(AddEdgeStats(edges, b), a);
      assert ab.Keys == ba.Keys;
      assert ab[a.key].targets == ba[a.key].targets && ab[b.key].targets == ba[b.key].targets;
    }
  }

  lemma CrossingsAlike(fp: Fingerprint, sights1: seq<Sight>, sights2: seq<Sight>, a: seq<Block>, b: seq<Block>)
    requires AllAlike(a, b) && (forall i | 0 <= i < |a| :: a[i] != []) && (forall i | 0 <= i < |b| :: b[i] != [])
    requires forall rva :: VersionsAt(sights1, rva) == VersionsAt(sights2, rva)
    ensures CrossingsOf(fp, sights1, a) == CrossingsOf(fp, sights2, b)
  {
    hide VersionsAt, LabelOf, KeyOf;
    if a != [] {
      forall i | 0 <= i < |a| - 1
        ensures CrossingOf(fp, sights1, a[i], a[i + 1]) == CrossingOf(fp, sights2, b[i], b[i + 1]) {
        SightAlike(fp, a[i], b[i], 0);
        SightAlike(fp, a[i + 1], b[i + 1], 0);
        EndsAlike(a[i], b[i]);
        EndsAlike(a[i + 1], b[i + 1]);
      }
    }
  }

  lemma EndsAlike(a: Block, b: Block)
    requires Alike(a, b) && a != [] && b != []
    ensures a[0].(seqNo := 0) == b[0].(seqNo := 0) && Last(a).(seqNo := 0) == Last(b).(seqNo := 0)
  {
  }

  ghost predicate Unsorted(instances: seq<Instance>)
    requires Whole(instances)
  {
    forall t :: SortedBlocks(instances, t) == BlocksOf(instances, t)
  }

  lemma {:induction false} SameCrossings(fp: Fingerprint, instances1: seq<Instance>, instances2: seq<Instance>, order: seq<nat>)
    requires SameBlocks(instances1, instances2) && Whole(instances1) && Whole(instances2)
    requires Unsorted(instances1) && Unsorted(instances2)
    ensures AllCrossings(fp, Sights(fp, instances1), instances1, order)
         == AllCrossings(fp, Sights(fp, instances2), instances2, order)
  {
    if order != [] {
      SameCrossings(fp, instances1, instances2, order[..|order| - 1]);
      SameSights(fp, instances1, instances2);
      hide Sights, SortedBlocks, CrossingsOf;
      SameVersions(Sights(fp, instances1), Sights(fp, instances2));
      var t := Last(order);
      BlocksOfWhole(instances1, t);
      BlocksOfWhole(instances2, t);
      CrossingsAlike(fp, Sights(fp, instances1), Sights(fp, instances2), BlocksOf(instances1, t), BlocksOf(instances2, t));
    }
  }

  /** Adds the transitions of one thread to a bag. */
  ghost function Bag(fp: Fingerprint, sights: seq<Sight>, instances: seq<Instance>): (multiset<Crossing>, nat) -> multiset<Crossing>
    requires Whole(instances)
  {
    (bag: multiset<Crossing>, t: nat) => bag + multiset(CrossingsOf(fp, sights, SortedBlocks(instances, t)))
  }

  lemma {:induction false} CrossingsAreABag(fp: Fingerprint, sights: seq<Sight>, instances: seq<Instance>, order: seq<nat>)
    requires Whole(instances)
    ensures multiset(AllCrossings(fp, sights, instances, order)) == Fold(Bag(fp, sights, instances), multiset{}, order)
  {
    if order != [] {
      CrossingsAreABag(fp, sights, instances, order[..|order| - 1]);
      hide CrossingsOf, SortedBlocks;
    }
  }

  lemma SameOrderUpToPermutation(order1: seq<nat>, order2: seq<nat>)
    requires Distinct(order1) && Distinct(order2) && forall t :: t in order1 <==> t in order2
    ensures multiset(order1) == multiset(order2)
  {
    forall t: nat ensures multiset(order1)[t] == multiset(order2)[t] {
      DistinctOnce(order1, t);
      DistinctOnce(order2, t);
    }
  }

  lemma {:induction false} DistinctOnce(order: seq<nat>, t: nat)
    requires Distinct(order)
    ensures multiset(order)[t] == if t in order then 1 else 0
  {
    if order != [] {
      var init := order[..|order| - 1];
      DistinctOnce(init, t);
      assert order == init + [Last(order)];
    }
  }

  lemma OrderOfThreads(fp: Fingerprint, sights: seq<Sight>, instances: seq<Instance>, order1: seq<nat>, order2: seq<nat>)
    requires Whole(instances) && Distinct(order1) && Distinct(order2) && forall t :: t in order1 <==> t in order2
    ensures multiset(AllCrossings(fp, sights, instances, order1)) == multiset(AllCrossings(fp, sights, instances, order2))
  {
    hide AllCrossings, CrossingsOf, SortedBlocks, Fold;
    SameOrderUpToPermutation(order1, order2);
    CrossingsAreABag(fp, sights, instances, order1);
    CrossingsAreABag(fp, sights, instances, order2);
    var add := Bag(fp, sights, instances);
    forall bag, t, u ensures add(add(bag, t), u) == add(add(bag, u), t) {
      assert add(add(bag, t), u) == bag + (add(multiset{}, t) + add(multiset{}, u));
    }
    FoldIgnoresOrder(add, multiset{}, order1, order2);
  }

  lemma NeedsNoSort(instances: seq<Instance>, events: seq<Event>)
    requires Segmented(instances, events) && Whole(instances) && SortedBy(events, (e: Event) => e.seqNo)
    ensures Unsorted(instances)
  {
    hide SortedBlocks, Segmented;
    forall t ensures SortedBlocks(instances, t) == BlocksOf(instances, t) {
      ResortChangesNothing(instances, events, t);
    }
  }

  lemma SameThreadsHaveBlocks(instances1: seq<Instance>, instances2: seq<Instance>)
    requires SameBlocks(instances1, instances2)
    ensures forall t :: BlocksOf(instances1, t) != [] <==> BlocksOf(instances2, t) != []
  {
    hide BlocksOf;
    forall t ensures BlocksOf(instances1, t) != [] <==> BlocksOf(instances2, t) != [] {
      assert AllAlike(BlocksOf(instances1, t), BlocksOf(instances2, t));
    }
  }

  lemma SameTransitions(fp: Fingerprint, events1: seq<Event>, instances1: seq<Instance>, order1: seq<nat>, report1: Report,
                        events2: seq<Event>, instances2: seq<Instance>, order2: seq<nat>, report2: Report)
    requires Describes(fp, events1, instances1, order1, report1) && Describes(fp, events2, instances2, order2, report2)
    requires SortedBy(events1, (e: Event) => e.seqNo) && SortedBy(events2, (e: Event) => e.seqNo)
    requires SameThreads(events1, events2)
    ensures SameBlocks(instances1, instances2)
    ensures AllCrossings(fp, Sights(fp, instances1), instances1, order1)
         == AllCrossings(fp, Sights(fp, instances2), instances2, order1)
    ensures multiset(AllCrossings(fp, Sights(fp, instances1), instances1, order1))
         == multiset(AllCrossings(fp, Sights(fp, instances2), instances2, order2))
  {
    hide *;
    Described(fp, events1, instances1, order1, report1);
    Described(fp, events2, instances2, order2, report2);
    ThreadsGiveBlocks(events1, events2, instances1, instances2);
    NeedsNoSort(instances1, events1);
    NeedsNoSort(instances2, events2);
    SameCrossings(fp, instances1, instances2, order1);
    SameThreadsHaveBlocks(instances1, instances2);
    OrderOfThreads(fp, Sights(fp, instances2), instances2, order1, order2);
  }

  /** Main result: whatever the interleaving, the groups differ at most in their sequence numbers, and the edges at
      most in their `indirect` flag, and not even in that if the threads come in the same order. */
  lemma InterleavingDoesNotShow(fp: Fingerprint, events1: seq<Event>, instances1: seq<Instance>, order1: seq<nat>, report1: Report,
                                events2: seq<Event>, instances2: seq<Instance>, order2: seq<nat>, report2: Report)
    requires Describes(fp, events1, instances1, order1, report1) && Describes(fp, events2, instances2, order2, report2)
    requires SortedBy(events1, (e: Event) => e.seqNo) && SortedBy(events2, (e: Event) => e.seqNo)
    requires SameThreads(events1, events2)
    ensures report1.groups.Keys == report2.groups.Keys
    ensures forall k | k in report1.groups ::
              report1.groups[k].name == report2.groups[k].name && report1.groups[k].stats == report2.groups[k].stats
    ensures WithoutFlags(report1.edges) == WithoutFlags(report2.edges)
    ensures order1 == order2 ==> report1.edges == report2.edges
  {
    hide *;
    Described(fp, events1, instances1, order1, report1);
    Described(fp, events2, instances2, order2, report2);
    SameTransitions(fp, events1, instances1, order1, report1, events2, instances2, order2, report2);
    var crossings1 := AllCrossings(fp, Sights(fp, instances1), instances1, order1);
    var crossings2 := AllCrossings(fp, Sights(fp, instances2), instances2, order2);
    FlagsAside(crossings1);
    FlagsAside(crossings2);
    EdgeStatsCommute();
    FoldIgnoresOrder(AddEdgeStats, map[], crossings1, crossings2);
    SameSights(fp, instances1, instances2);
    SameVersions(Sights(fp, instances1), Sights(fp, instances2));
    StatsCommute();
    FoldIgnoresOrder(AddStats, map[], Sights(fp, instances1), Sights(fp, instances2));
    SameStatsSameGroups(report1.groups, report2.groups);
    SameNames(fp, instances1, instances2, report1.groups, report2.groups);
  }

  lemma SameNames(fp: Fingerprint, instances1: seq<Instance>, instances2: seq<Instance>,
                  groups1: map<BlockKey, Group>, groups2: map<BlockKey, Group>)
    requires Whole(instances1) && Whole(instances2) && groups1.Keys == groups2.Keys
    requires GroupsFit(fp, Sights(fp, instances1), instances1, groups1)
    requires GroupsFit(fp, Sights(fp, instances2), instances2, groups2)
    requires forall rva :: VersionsAt(Sights(fp, instances1), rva) == VersionsAt(Sights(fp, instances2), rva)
    ensures forall k | k in groups1 :: groups1[k].name == groups2[k].name
  {
    hide Sights, VersionsAt, LabelOf, Fold, StatsOf, AllSpan;
    forall k | k in groups1 ensures groups1[k].name == groups2[k].name {
      assert Labelled(Sights(fp, instances1), k, groups1[k].name) && Labelled(Sights(fp, instances2), k, groups2[k].name);
    }
  }

  lemma SameStatsSameGroups(groups1: map<BlockKey, Group>, groups2: map<BlockKey, Group>)
    requires StatsOf(groups1) == StatsOf(groups2)
    ensures groups1.Keys == groups2.Keys && forall k | k in groups1 :: groups1[k].stats == groups2[k].stats
  {
    assert StatsOf(groups1).Keys == groups1.Keys && StatsOf(groups2).Keys == groups2.Keys;
    forall k | k in groups1 ensures groups1[k].stats == groups2[k].stats {
      assert StatsOf(groups1)[k] == StatsOf(groups2)[k];
    }
  }

  // Keys and versions

  /** Two blocks get the same stable key exactly when they start at one address and the digests of their code agree
      in the 16 digits that the key keeps. */
  lemma StableKeysTellApart(sights: seq<Sight>, x: Sight, y: Sight)
    requires x in sights && y in sights
    ensures LabelOf(VersionsAt(sights, x.key.rva), x.key).stableKey == LabelOf(VersionsAt(sights, y.key.rva), y.key).stableKey
            <==> x.key.rva == y.key.rva && x.key.digest / PREFIX_UNIT == y.key.digest / PREFIX_UNIT
  {
    var versions := VersionsAt(sights, x.key.rva);
    assert x.key.digest in versions;
    if x.key.rva == y.key.rva && |versions| == 1 {
      assert y.key.digest in versions;
      assert |versions - {x.key.digest}| == 0;
      assert versions - {x.key.digest} == {};
    }
  }

  /** Code versions at an address are numbered from 1 without gaps, one number for each digest. */
  lemma VersionsAreNumbered(versions: set<nat>, a: BlockKey, b: BlockKey)
    requires a.rva == b.rva && a.digest in versions && b.digest in versions
    ensures 1 <= LabelOf(versions, a).version <= LabelOf(versions, a).versionCount
    ensures LabelOf(versions, a).version == LabelOf(versions, b).version <==> a.digest == b.digest
    ensures LabelOf(versions, a).version < LabelOf(versions, b).version <==> a.digest < b.digest
  {
    BelowGrows(versions, a.digest, b.digest);
    BelowGrows(versions, b.digest, a.digest);
    var below := set v | v in versions && v < a.digest;
    assert below < versions by {
      assert a.digest !in below;
    }
    SmallerSet(below, versions);
  }

  lemma BelowGrows(versions: set<nat>, a: nat, b: nat)
    requires a in versions
    ensures a < b ==> |set v | v in versions && v < a| < |set v | v in versions && v < b|
  {
    if a < b {
      var lower, upper := (set v | v in versions && v < a), (set v | v in versions && v < b);
      assert lower < upper by {
        assert a in upper && a !in lower;
      }
      SmallerSet(lower, upper);
    }
  }

  lemma SmallerSet(a: set<nat>, b: set<nat>)
    requires a < b
    ensures |a| < |b|
  {
    assert b == a + (b - a) && b - a != {};
  }
}

/** What the counted blocks and edges say about the tape: nothing is lost, nothing is counted twice, and the
    interleaving of the threads does not show. */
module CoverageLaws {
  import opened Sequences
  import opened CoverageBlocks
  import opened CoverageGraph
  import opened Folds

  ghost predicate Segmented(instances: seq<Instance>, events: seq<Event>) {
    forall t :: BlocksOf(instances, t) == Partition(Projection(events, t))
  }

  /** `order` lists the threads that have blocks, each once. */
  ghost predicate Enumerates(instances: seq<Instance>, order: seq<nat>) {
    Distinct(order) && forall t :: t in order <==> BlocksOf(instances, t) != []
  }

  datatype Report = Report(groups: map<BlockKey, Group>, edges: map<EdgeKey, Edge>)

  /** The report is what counting the blocks of `instances` and the transitions of the threads gives. */
  ghost predicate Describes(fp: Fingerprint, events: seq<Event>, instances: seq<Instance>, order: seq<nat>, report: Report) {
    && Segmented(instances, events) && Whole(instances) && Enumerates(instances, order)
    && GroupsFit(fp, Sights(fp, instances), instances, report.groups)
    && report.edges == Fold(AddEdge, map[], AllCrossings(fp, Sights(fp, instances), instances, order))
  }

  method Reconstruct(fp: Fingerprint, raws: seq<Raw>, base: int, size: int)
    returns (events: seq<Event>, report: Report, ghost instances: seq<Instance>, ghost order: seq<nat>)
    ensures events == StableSort(Carried(raws, base, size, |raws|), (e: Event) => e.seqNo)
    ensures instances == Executed(events) && order == FirstMet(instances)
    ensures Describes(fp, events, instances, order, report)
  {
    hide Executed, FirstMet, BlocksOf, Partition, Projection, Whole, GroupsFit, Sights, AllCrossings, Fold, VersionsAt, StableSort, Carried;
    events := NormalizeEvents(raws, base, size);
    var executed := Segment(events);
    instances := executed;
    SegmentedIsWhole(instances, events);
    var versions := CollectVersions(fp, executed);
    var groups := BuildGroups(fp, executed, versions);
    var threads, byThread := GatherThreads(executed);
    order := threads;
    var edges := BuildEdges(fp, executed, versions, threads, byThread);
    report := Report(groups, edges);
  }

  lemma SegmentedIsWhole(instances: seq<Instance>, events: seq<Event>)
    requires Segmented(instances, events)
    ensures Whole(instances)
  {
    forall i | 0 <= i < |instances| ensures instances[i].events != [] {
      InstanceIsBlock(instances, i);
      var t := instances[i].thread;
      assert BlocksOf(instances, t) == Partition(Projection(events, t));
    }
  }

  lemma {:induction false} InstanceIsBlock(instances: seq<Instance>, i: nat)
    requires i < |instances|
    ensures instances[i].events in BlocksOf(instances, instances[i].thread)
  {
    if i < |instances| - 1 {
      InstanceIsBlock(instances[..|instances| - 1], i);
    }
  }

  // The sort by first event

  lemma {:induction false} ProjectionSorted(events: seq<Event>, t: nat)
    requires SortedBy(events, (e: Event) => e.seqNo)
    ensures SortedBy(Projection(events, t), (e: Event) => e.seqNo)
    ensures forall e | e in Projection(events, t) :: e in events
  {
    if events != [] {
      var init, last := events[..|events| - 1], Last(events);
      ProjectionSorted(init, t);
      hide Projection;
      assert events == init + [last];
      ProjectionAppend(init, last, t);
      forall e | e in init ensures e.seqNo <= last.seqNo {
        var i :| 0 <= i < |init| && init[i] == e;
        assert events[i] == e;
      }
    }
  }

  /** The blocks of an ordered run start in order, and no later than the run ends. */
  lemma {:induction false} StartsSorted(events: seq<Event>)
    requires SortedBy(events, (e: Event) => e.seqNo)
    ensures SortedBy(Partition(events), FirstSeq)
    ensures forall i | 0 <= i < |Partition(events)| :: FirstSeq(Partition(events)[i]) <= Last(events).seqNo
  {
    if events != [] {
      var init, last := events[..|events| - 1], Last(events);
      StartsSorted(init);
      assert Partition(events) == Extend(Partition(init), last);
      assert init != [] ==> Last(init).seqNo <= last.seqNo;
      hide Partition;
      NothingToPartition(init);
      ExtendedStarts(Partition(init), last);
    }
  }

  lemma ExtendedStarts(blocks: seq<Block>, e: Event)
    requires SortedBy(blocks, FirstSeq)
    requires forall i | 0 <= i < |blocks| :: blocks[i] != [] && FirstSeq(blocks[i]) <= e.seqNo
    ensures SortedBy(Extend(blocks, e), FirstSeq)
    ensures forall i | 0 <= i < |Extend(blocks, e)| :: FirstSeq(Extend(blocks, e)[i]) <= e.seqNo
  {
    hide Continues;
    if blocks != [] {
      assert FirstSeq(Last(blocks) + [e]) == FirstSeq(Last(blocks));
    }
  }

  /** The stable sort of a thread's blocks by their first event changes nothing. */
  lemma ResortChangesNothing(instances: seq<Instance>, events: seq<Event>, t: nat)
    requires Segmented(instances, events) && Whole(instances) && SortedBy(events, (e: Event) => e.seqNo)
    ensures SortedBlocks(instances, t) == BlocksOf(instances, t)
  {
    ProjectionSorted(events, t);
    StartsSorted(Projection(events, t));
    StableSortOfSorted(BlocksOf(instances, t), FirstSeq);
  }

  // Conservation

  function SumBy(order: seq<nat>, f: nat -> nat): nat {
    if order == [] then 0 else SumBy(order[..|order| - 1], f) + f(Last(order))
  }

  lemma {:induction false} SumBySame(order: seq<nat>, f: nat -> nat, g: nat -> nat)
    requires forall t | t in order :: f(t) == g(t)
    ensures SumBy(order, f) == SumBy(order, g)
  {
    if order != [] {
      SumBySame(order[..|order| - 1], f, g);
    }
  }

  lemma {:induction false} SumByBump(order: seq<nat>, f: nat -> nat, g: nat -> nat, t: nat, d: nat)
    requires Distinct(order) && t in order && g(t) == f(t) + d
    requires forall u | u in order && u != t :: g(u) == f(u)
    ensures SumBy(order, g) == SumBy(order, f) + d
  {
    var init := order[..|order| - 1];
    if Last(order) == t {
      SumBySame(init, f, g);
    } else {
      SumByBump(init, f, g, t, d);
    }
  }

  function CountEvents(instances: seq<Instance>): nat {
    if instances == [] then 0 else CountEvents(instances[..|instances| - 1]) + |Last(instances).events|
  }

  function BlockCount(instances: seq<Instance>): nat -> nat { t => |BlocksOf(instances, t)| }

  function BlockEvents(instances: seq<Instance>): nat -> nat { t => |Flatten(BlocksOf(instances, t))| }

  function ThreadEvents(events: seq<Event>): nat -> nat { t => |Projection(events, t)| }

  lemma {:induction false} InstancesAddUp(instances: seq<Instance>, order: seq<nat>)
    requires Distinct(order) && forall i | 0 <= i < |instances| :: instances[i].thread in order
    ensures SumBy(order, BlockCount(instances)) == |instances|
    ensures SumBy(order, BlockEvents(instances)) == CountEvents(instances)
  {
    if instances == [] {
      NothingAddsUp(order);
    } else {
      var init, x := instances[..|instances| - 1], Last(instances);
      InstancesAddUp(init, order);
      assert instances == init + [x];
      forall u ensures BlocksOf(instances, u)
                    == if x.thread == u then BlocksOf(init, u) + [x.events] else BlocksOf(init, u) {
        BlocksOfAppend(init, x, u);
      }
      FlattenAppend(BlocksOf(init, x.thread), x.events);
      hide BlocksOf, Flatten;
      SumByBump(order, BlockCount(init), BlockCount(instances), x.thread, 1);
      SumByBump(order, BlockEvents(init), BlockEvents(instances), x.thread, |x.events|);
    }
  }

  lemma {:induction false} NothingAddsUp(order: seq<nat>)
    ensures SumBy(order, BlockCount([])) == 0 && SumBy(order, BlockEvents([])) == 0 && SumBy(order, ThreadEvents([])) == 0
  {
    if order != [] {
      NothingAddsUp(order[..|order| - 1]);
    }
  }

  lemma FlattenAppend(blocks: seq<Block>, b: Block)
    ensures Flatten(blocks + [b]) == Flatten(blocks) + b
  {
    assert (blocks + [b])[..|blocks|] == blocks;
  }

  lemma {:induction false} EventsAddUp(events: seq<Event>, order: seq<nat>)
    requires Distinct(order) && forall i | 0 <= i < |events| :: events[i].thread in order
    ensures SumBy(order, ThreadEvents(events)) == |events|
  {
    if events == [] {
      NothingAddsUp(order);
    } else {
      var init, e := events[..|events| - 1], Last(events);
      EventsAddUp(init, order);
      SumByBump(order, ThreadEvents(init), ThreadEvents(events), e.thread, 1);
    }
  }

  function Hits(groups: map<BlockKey, Stats>): map<BlockKey, nat> {
    map k | k in groups :: groups[k].hits
  }

  function InstructionHits(groups: map<BlockKey, Stats>): map<BlockKey, nat> {
    map k | k in groups :: groups[k].instructionHits
  }

  function EdgeHits(edges: map<EdgeKey, Edge>): map<EdgeKey, nat> {
    map k | k in edges :: edges[k].hits
  }

  lemma {:induction false} GroupTotals(fp: Fingerprint, instances: seq<Instance>)
    requires Whole(instances)
    ensures var groups := Fold(AddStats, map[], Sights(fp, instances));
            Total(Hits(groups)) == |instances| && Total(InstructionHits(groups)) == CountEvents(instances)
  {
    if instances != [] {
      var init, x := instances[..|instances| - 1], Last(instances);
      GroupTotals(fp, init);
      var s := SightOf(fp, x);
      assert Sights(fp, instances) == Sights(fp, init) + [s];
      FoldAppend(AddStats, map[], Sights(fp, init), s);
      TotalsStep(Fold(AddStats, map[], Sights(fp, init)), s);
    }
  }

  lemma TotalsStep(groups: map<BlockKey, Stats>, s: Sight)
    ensures Total(Hits(AddStats(groups, s))) == Total(Hits(groups)) + 1
    ensures Total(InstructionHits(AddStats(groups, s))) == Total(InstructionHits(groups)) + s.count
  {
    var after := AddStats(groups, s);
    assert Hits(after) == Hits(groups)[s.key := after[s.key].hits];
    assert InstructionHits(after) == InstructionHits(groups)[s.key := after[s.key].instructionHits];
    TotalUpdate(Hits(groups), s.key, after[s.key].hits);
    TotalUpdate(InstructionHits(groups), s.key, after[s.key].instructionHits);
  }

  lemma {:induction false} EdgeTotals(crossings: seq<Crossing>)
    ensures Total(EdgeHits(Fold(AddEdge, map[], crossings))) == |crossings|
  {
    if crossings != [] {
      var init, x := crossings[..|crossings| - 1], Last(crossings);
      EdgeTotals(init);
      var before := Fold(AddEdge, map[], init);
      var after := AddEdge(before, x);
      assert EdgeHits(after) == EdgeHits(before)[x.key := after[x.key].hits];
      TotalUpdate(EdgeHits(before), x.key, after[x.key].hits);
    }
  }

  lemma {:induction false} CrossingsAddUp(fp: Fingerprint, sights: seq<Sight>, instances: seq<Instance>, order: seq<nat>)
    requires Whole(instances) && forall t | t in order :: BlocksOf(instances, t) != []
    ensures |AllCrossings(fp, sights, instances, order)| == SumBy(order, BlockCount(instances)) - |order|
  {
    if order != [] {
      CrossingsAddUp(fp, sights, instances, order[..|order| - 1]);
      hide SortedBlocks, CrossingsOf;
    }
  }

  /** What a description consists of. */
  lemma Described(fp: Fingerprint, events: seq<Event>, instances: seq<Instance>, order: seq<nat>, report: Report)
    requires Describes(fp, events, instances, order, report)
    ensures Segmented(instances, events) && Whole(instances) && Enumerates(instances, order) && Distinct(order)
    ensures forall t :: t in order <==> BlocksOf(instances, t) != []
    ensures GroupsFit(fp, Sights(fp, instances), instances, report.groups)
    ensures StatsOf(report.groups) == Fold(AddStats, map[], Sights(fp, instances))
    ensures report.edges == Fold(AddEdge, map[], AllCrossings(fp, Sights(fp, instances), instances, order))
  {
    hide BlocksOf, Sights, AllCrossings, Fold, StatsOf, AllSpan;
  }

  /** A block ends in plain fall-through only where the tape declares the start of another: every other end is a
      transfer of control, an exception or a gap. */
  lemma FallthroughIsDeclared(instances: seq<Instance>, events: seq<Event>, t: nat, i: nat)
    requires Segmented(instances, events) && i + 1 < |BlocksOf(instances, t)|
    ensures BlocksOf(instances, t)[i] != [] && BlocksOf(instances, t)[i + 1] != []
    ensures var (terminal, first) := (Last(BlocksOf(instances, t)[i]), BlocksOf(instances, t)[i + 1][0]);
            KindOf(terminal, first) == Fallthrough ==> first.blockStart
  {
    var blocks := BlocksOf(instances, t);
    assert blocks == Partition(Projection(events, t));
    PartitionIsMaximal(Projection(events, t));
    hide Partition, Projection, BlocksOf;
    assert Straight(blocks[i]) && Straight(blocks[i + 1]);
    assert !Continues(Last(blocks[i]), blocks[i + 1][0]);
  }

  function ThreadSet(events: seq<Event>): set<nat> {
    set e | e in events :: e.thread
  }

  /** Main result: every normalised event is counted once, and every executed block but the last of each thread
      is left by one transition. */
  lemma NothingIsLost(fp: Fingerprint, events: seq<Event>, instances: seq<Instance>, order: seq<nat>, report: Report)
    requires Describes(fp, events, instances, order, report)
    ensures Total(InstructionHits(StatsOf(report.groups))) == |events|
    ensures Total(Hits(StatsOf(report.groups))) == |instances|
    ensures Total(EdgeHits(report.edges)) == |instances| - |ThreadSet(events)|
  {
    hide *;
    Described(fp, events, instances, order, report);
    GroupTotals(fp, instances);
    ThreadsAreListed(events, instances, order);
    EventsAddUp(events, order);
    InstancesAddUp(instances, order);
    forall t | t in order ensures BlockEvents(instances)(t) == ThreadEvents(events)(t) {
      ThreadKeepsEvents(events, instances, t);
    }
    SumBySame(order, BlockEvents(instances), ThreadEvents(events));
    CrossingsAddUp(fp, Sights(fp, instances), instances, order);
    EdgeTotals(AllCrossings(fp, Sights(fp, instances), instances, order));
  }

  lemma ThreadKeepsEvents(events: seq<Event>, instances: seq<Instance>, t: nat)
    requires Segmented(instances, events)
    ensures BlockEvents(instances)(t) == ThreadEvents(events)(t)
  {
    PartitionIsMaximal(Projection(events, t));
    assert BlocksOf(instances, t) == Partition(Projection(events, t));
  }

  lemma ThreadsAreListed(events: seq<Event>, instances: seq<Instance>, order: seq<nat>)
    requires Segmented(instances, events) && Enumerates(instances, order)
    ensures forall i | 0 <= i < |events| :: events[i].thread in order
    ensures forall i | 0 <= i < |instances| :: instances[i].thread in order
    ensures |ThreadSet(events)| == |order|
  {
    hide Partition;
    forall i | 0 <= i < |instances| ensures instances[i].thread in order {
      InstanceIsBlock(instances, i);
    }
    forall i | 0 <= i < |events| ensures events[i].thread in order {
      ProjectionHas(events, i);
      PartitionIsMaximal(Projection(events, events[i].thread));
    }
    forall t | t in order ensures t in ThreadSet(events) {
      ProjectionOnlyOf(events, t);
      NothingToPartition(Projection(events, t));
      assert Projection(events, t)[0] in events;
    }
    assert forall t :: t in ThreadSet(events) <==> t in order;
    DistinctCount(order, ThreadSet(events));
  }

  lemma NothingToPartition(events: seq<Event>)
    ensures events == [] ==> Partition(events) == []
  {
  }

  lemma {:induction false} ProjectionHas(events: seq<Event>, i: nat)
    requires i < |events|
    ensures Projection(events, events[i].thread) != []
  {
    if i < |events| - 1 {
      ProjectionHas(events[..|events| - 1], i);
    }
  }

  lemma {:induction false} ProjectionOnlyOf(events: seq<Event>, t: nat)
    ensures forall e | e in Projection(events, t) :: e in events && e.thread == t
  {
    if events != [] {
      ProjectionOnlyOf(events[..|events| - 1], t);
    }
  }

  lemma {:induction false} DistinctCount(order: seq<nat>, s: set<nat>)
    requires Distinct(order) && forall t :: t in s <==> t in order
    ensures |s| == |order|
  {
    if order == [] {
      assert s == {};
    } else {
      var last := Last(order);
      DistinctCount(order[..|order| - 1], s - {last});
    }
  }
}

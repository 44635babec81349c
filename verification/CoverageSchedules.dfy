/** Which orders of threads the interleavings of one tape can produce, and so what the flags of its edges depend on. */
module CoverageSchedules {
  import opened Options
  import opened CoverageBlocks
  import opened CoverageGraph
  import opened CoverageLaws
  import opened CoverageInterleaving
  import opened CoverageFlags
  import opened Sequences

  // Running the threads one after another

  function Numbered(events: seq<Event>, from: nat): (r: seq<Event>)
    ensures |r| == |events|
  {
    seq(|events|, i requires 0 <= i < |events| => events[i].(seqNo := from + i))
  }

  /** The tape on which the listed threads run one after another, numbered afresh. */
  function Serial(events: seq<Event>, order: seq<nat>): seq<Event> {
    if order == [] then []
    else
      var before := Serial(events, order[..|order| - 1]);
      before + Numbered(Projection(events, Last(order)), |before|)
  }

  lemma {:induction false} SerialIsSorted(events: seq<Event>, order: seq<nat>)
    ensures forall i | 0 <= i < |Serial(events, order)| :: Serial(events, order)[i].seqNo == i
    ensures SortedBy(Serial(events, order), (e: Event) => e.seqNo)
  {
    if order != [] {
      SerialIsSorted(events, order[..|order| - 1]);
    }
  }

  lemma {:induction false} ProjectionConcat(a: seq<Event>, b: seq<Event>, t: nat)
    ensures Projection(a + b, t) == Projection(a, t) + Projection(b, t)
  {
    hide *;
    if b == [] {
      NothingProjected(b, t);
      assert a + b == a;
    } else {
      var init, e := b[..|b| - 1], b[|b| - 1];
      ProjectionConcat(a, init, t);
      ProjectionAppend(a + init, e, t);
      ProjectionAppend(init, e, t);
      SplitLast(b);
      Regroup(a, init, [e]);
      Regroup(Projection(a, t), Projection(init, t), [e]);
    }
  }

  lemma NothingProjected(events: seq<Event>, t: nat)
    requires events == []
    ensures Projection(events, t) == []
  {
  }

  ghost predicate RunBy(run: seq<Event>, t: nat) {
    forall i | 0 <= i < |run| :: run[i].thread == t
  }

  lemma {:induction false} ProjectionOfRun(run: seq<Event>, t: nat, u: nat)
    requires RunBy(run, t)
    ensures Projection(run, u) == if u == t then run else []
  {
    if run != [] {
      var init, e := run[..|run| - 1], Last(run);
      ProjectionOfRun(init, t, u);
      ProjectionAppend(init, e, u);
      assert run == init + [e];
      hide Projection;
    }
  }

  lemma NumberedRun(events: seq<Event>, t: nat, from: nat)
    ensures RunBy(Numbered(Projection(events, t), from), t)
    ensures Alike(Projection(events, t), Numbered(Projection(events, t), from))
  {
    ProjectionOnlyOf(events, t);
    hide Projection;
    var run := Projection(events, t);
    forall i | 0 <= i < |run| ensures run[i].thread == t {
      assert run[i] in run;
    }
  }

  /** Run one after another, the threads do what they did. */
  lemma {:induction false} SerialThreads(events: seq<Event>, order: seq<nat>, t: nat)
    requires Distinct(order)
    ensures Alike(if t in order then Projection(events, t) else [], Projection(Serial(events, order), t))
  {
    hide *;
    if order == [] {
      NobodyRuns(events, order, t);
    } else {
      var init, last := order[..|order| - 1], order[|order| - 1];
      var before := Serial(events, init);
      var run := Numbered(Projection(events, last), |before|);
      NotTwice(order);
      SerialThreads(events, init, t);
      SerialStep(events, order);
      NumberedRun(events, last, |before|);
      ProjectionOfRun(run, last, t);
      ProjectionConcat(before, run, t);
      if t == last {
        AlikeNothing(Projection(before, t));
        assert Projection(before, t) + run == run;
      } else {
        assert Projection(before, t) + [] == Projection(before, t);
      }
    }
  }

  lemma NobodyRuns(events: seq<Event>, order: seq<nat>, t: nat)
    requires order == []
    ensures Alike([], Projection(Serial(events, order), t))
  {
  }

  lemma SerialStep(events: seq<Event>, order: seq<nat>)
    requires order != []
    ensures var before := Serial(events, order[..|order| - 1]);
            Serial(events, order) == before + Numbered(Projection(events, order[|order| - 1]), |before|)
  {
    hide Projection, Numbered;
  }

  lemma AlikeNothing(events: seq<Event>)
    requires Alike([], events)
    ensures events == []
  {
  }

  lemma NotTwice(order: seq<nat>)
    requires Distinct(order) && order != []
    ensures var init, last := order[..|order| - 1], order[|order| - 1];
            Distinct(init) && last !in init && forall t :: t in order <==> t in init || t == last
  {
    SplitLast(order);
  }

  // The order in which blocks are then closed

  function Tagged(t: nat, blocks: seq<Block>): (r: seq<Instance>)
    ensures |r| == |blocks|
  {
    seq(|blocks|, i requires 0 <= i < |blocks| => Instance(t, blocks[i]))
  }

  /** A thread that runs for the first time closes all its blocks but the last. */
  lemma {:induction false} SegmentRun(before: seq<Event>, run: seq<Event>, t: nat)
    requires run != [] && RunBy(run, t) && t !in Segmentation(before).current
    ensures Partition(run) != []
    ensures var p, blocks := Segmentation(before), Partition(run);
            Segmentation(before + run) ==
            Progress(p.closed + Tagged(t, blocks[..|blocks| - 1]), p.current[t := Last(blocks)])
    decreases |run|
  {
    var init, e := LastOfRun(before, run, t);
    hide *;
    if init == [] {
      RunStart(Segmentation(before), e, t);
      assert before + init == before;
    } else {
      SegmentRun(before, init, t);
      RunStep(Segmentation(before), Partition(init), e, t);
    }
  }

  lemma LastOfRun(before: seq<Event>, run: seq<Event>, t: nat) returns (init: seq<Event>, e: Event)
    requires run != [] && RunBy(run, t)
    ensures |init| < |run| && RunBy(init, t) && e.thread == t && (init == [] ==> Partition(init) == [])
    ensures Segmentation(before + run) == After(Segmentation(before + init), e)
    ensures Partition(run) == Extend(Partition(init), e)
  {
    init, e := run[..|run| - 1], Last(run);
    SplitLast(run);
    Regroup(before, init, [e]);
    AppendLast(before + init, e);
    hide After, Extend;
  }

  lemma RunStart(p: Progress, e: Event, t: nat)
    requires e.thread == t && t !in p.current
    ensures Extend([], e) == [[e]]
    ensures After(p, e) == Progress(p.closed + Tagged(t, [[e]][..0]), p.current[t := Last([[e]])])
  {
    hide Continues;
    assert Tagged(t, [[e]][..0]) == [];
  }

  lemma RunStep(p: Progress, blocks: seq<Block>, e: Event, t: nat)
    requires blocks != [] && e.thread == t && forall i | 0 <= i < |blocks| :: blocks[i] != []
    ensures var q := Progress(p.closed + Tagged(t, blocks[..|blocks| - 1]), p.current[t := Last(blocks)]);
            var after := Extend(blocks, e);
            after != [] && After(q, e) ==
            Progress(p.closed + Tagged(t, after[..|after| - 1]), p.current[t := Last(after)])
  {
    hide Continues;
    var last, after := Last(blocks), Extend(blocks, e);
    if Continues(Last(last), e) {
      assert after[..|after| - 1] == blocks[..|blocks| - 1];
    } else {
      assert after[..|after| - 1] == blocks;
      assert Tagged(t, blocks) == Tagged(t, blocks[..|blocks| - 1]) + [Instance(t, last)];
    }
  }

  lemma {:induction false} FirstMetRun(xs: seq<Instance>, t: nat, blocks: seq<Block>)
    ensures FirstMet(xs + Tagged(t, blocks)) ==
            if blocks == [] || t in FirstMet(xs) then FirstMet(xs) else FirstMet(xs) + [t]
  {
    var all := xs + Tagged(t, blocks);
    if blocks == [] {
      assert all == xs;
    } else {
      var init := blocks[..|blocks| - 1];
      FirstMetRun(xs, t, init);
      assert all[..|all| - 1] == xs + Tagged(t, init) && Last(all).thread == t;
    }
  }

  lemma {:induction false} FirstMetMore(xs: seq<Instance>, ys: seq<Instance>) returns (more: seq<nat>)
    ensures FirstMet(xs + ys) == FirstMet(xs) + more && forall t | t in more :: t !in FirstMet(xs)
  {
    more := [];
    if ys == [] {
      assert xs + ys == xs;
    } else {
      var init, y := ys[..|ys| - 1], Last(ys);
      more := FirstMetMore(xs, init);
      assert (xs + ys)[..|xs + ys| - 1] == xs + init && Last(xs + ys) == y;
      if y.thread !in FirstMet(xs + init) {
        assert FirstMet(xs) + more + [y.thread] == FirstMet(xs) + (more + [y.thread]);
        more := more + [y.thread];
      }
    }
  }

  /** Every listed thread that has more than one block, hence transitions. */
  function Moving(events: seq<Event>, order: seq<nat>): seq<nat> {
    if order == [] then []
    else
      var t := Last(order);
      Moving(events, order[..|order| - 1]) + (if |Partition(Projection(events, t))| > 1 then [t] else [])
  }

  lemma {:induction false} MovingAre(events: seq<Event>, order: seq<nat>)
    ensures forall t :: t in Moving(events, order) <==> t in order && |Partition(Projection(events, t))| > 1
  {
    if order != [] {
      MovingAre(events, order[..|order| - 1]);
      assert order == order[..|order| - 1] + [Last(order)];
      hide Partition, Projection;
    }
  }

  lemma AlikeSizes(a: seq<Event>, b: seq<Event>)
    requires Alike(a, b) && AllAlike(Partition(a), Partition(b))
    ensures |a| == |b| && |Partition(a)| == |Partition(b)|
  {
    hide Partition;
  }

  /** Run one after another, the threads that have transitions close their first blocks in that order. */
  lemma {:induction false} SerialCloses(events: seq<Event>, order: seq<nat>)
    requires Distinct(order) && forall t | t in order :: Projection(events, t) != []
    ensures FirstMet(Segmentation(Serial(events, order)).closed) == Moving(events, order)
    ensures forall t :: t in Segmentation(Serial(events, order)).current <==> t in order
  {
    if order != [] {
      var init, t := order[..|order| - 1], Last(order);
      var before := Serial(events, init);
      var run := Numbered(Projection(events, t), |before|);
      assert Moving(events, order) == Moving(events, init) + (if |Partition(Projection(events, t))| > 1 then [t] else []);
      hide *;
      NotTwice(order);
      SerialCloses(events, init);
      SerialStep(events, order);
      MovingAre(events, init);
      NumberedRun(events, t, |before|);
      PartitionAlike(Projection(events, t), run);
      AlikeSizes(Projection(events, t), run);
      SegmentRun(before, run, t);
      FirstMetRun(Segmentation(before).closed, t, Partition(run)[..|Partition(run)| - 1]);
    }
  }

  // Threads without transitions do not matter

  lemma {:induction false} OnlyMovingCross(fp: Fingerprint, sights: seq<Sight>, instances: seq<Instance>,
                                           events: seq<Event>, order: seq<nat>)
    requires Whole(instances) && forall t :: |BlocksOf(instances, t)| == |Partition(Projection(events, t))|
    ensures AllCrossings(fp, sights, instances, Moving(events, order)) == AllCrossings(fp, sights, instances, order)
  {
    if order != [] {
      var init, t := order[..|order| - 1], Last(order);
      var moving := Moving(events, init);
      assert Moving(events, order) == if |Partition(Projection(events, t))| > 1 then moving + [t] else moving + [];
      assert moving + [] == moving;
      hide *;
      OnlyMovingCross(fp, sights, instances, events, init);
      AppendLast(moving, t);
      CrossingsStep(fp, sights, instances, moving + [t]);
      CrossingsStep(fp, sights, instances, order);
      if |BlocksOf(instances, t)| <= 1 {
        SingleDoesNotCross(fp, sights, instances, t);
        assert AllCrossings(fp, sights, instances, init) + [] == AllCrossings(fp, sights, instances, init);
      }
    }
  }

  lemma CrossingsStep(fp: Fingerprint, sights: seq<Sight>, instances: seq<Instance>, order: seq<nat>)
    requires Whole(instances) && order != []
    ensures AllCrossings(fp, sights, instances, order) ==
            AllCrossings(fp, sights, instances, order[..|order| - 1])
            + CrossingsOf(fp, sights, SortedBlocks(instances, order[|order| - 1]))
  {
    hide CrossingsOf, SortedBlocks;
  }

  lemma SingleDoesNotCross(fp: Fingerprint, sights: seq<Sight>, instances: seq<Instance>, t: nat)
    requires Whole(instances) && |BlocksOf(instances, t)| <= 1
    ensures CrossingsOf(fp, sights, SortedBlocks(instances, t)) == []
  {
    hide SortedBlocks, BlocksOf;
  }

  lemma {:induction false} RestDoesNotCross(fp: Fingerprint, sights: seq<Sight>, instances: seq<Instance>,
                                            order: seq<nat>, more: seq<nat>)
    requires Whole(instances) && forall t | t in more :: |BlocksOf(instances, t)| <= 1
    ensures AllCrossings(fp, sights, instances, order + more) == AllCrossings(fp, sights, instances, order)
  {
    if more == [] {
      assert order + more == order;
    } else {
      var init, t := more[..|more| - 1], Last(more);
      RestDoesNotCross(fp, sights, instances, order, init);
      assert (order + more)[..|order + more| - 1] == order + init && (order + more)[|order + more| - 1] == t;
      SingleDoesNotCross(fp, sights, instances, t);
      CrossingsStep(fp, sights, instances, order + more);
      hide *;
      assert AllCrossings(fp, sights, instances, order + init) + [] == AllCrossings(fp, sights, instances, order + init);
    }
  }

  // Every order is reached

  lemma ExecutedIsSegmented(events: seq<Event>)
    ensures Segmented(Executed(events), events) && Whole(Executed(events))
  {
    hide Executed, BlocksOf, Partition, Projection, Whole;
    forall t ensures BlocksOf(Executed(events), t) == Partition(Projection(events, t)) {
      ExecutedBlocks(events, t);
    }
    SegmentedIsWhole(Executed(events), events);
  }

  lemma {:induction false} FirstMetEnumerates(instances: seq<Instance>)
    ensures Enumerates(instances, FirstMet(instances))
  {
    if instances != [] {
      var init, x := instances[..|instances| - 1], Last(instances);
      FirstMetEnumerates(init);
      assert instances == init + [x];
      forall t ensures BlocksOf(instances, t) != [] <==> BlocksOf(init, t) != [] || t == x.thread {
        BlocksOfAppend(init, x, t);
      }
      hide BlocksOf;
    }
  }

  /** The transitions of a tape in the order in which they become edges. */
  function TapeCrossings(fp: Fingerprint, events: seq<Event>): seq<Crossing> {
    ExecutedIsSegmented(events);
    AllCrossings(fp, Sights(fp, Executed(events)), Executed(events), FirstMet(Executed(events)))
  }

  /** The transitions of the tape's threads, the threads in another order. */
  function CrossingsAlong(fp: Fingerprint, events: seq<Event>, order: seq<nat>): seq<Crossing> {
    ExecutedIsSegmented(events);
    AllCrossings(fp, Sights(fp, Executed(events)), Executed(events), order)
  }

  lemma SerialIsAnInterleaving(events: seq<Event>, order: seq<nat>)
    requires Distinct(order) && forall t :: t in order <==> Projection(events, t) != []
    ensures SortedBy(Serial(events, order), (e: Event) => e.seqNo) && SameThreads(events, Serial(events, order))
  {
    SerialIsSorted(events, order);
    hide Serial, Projection, SortedBy;
    forall t ensures Alike(Projection(events, t), Projection(Serial(events, order), t)) {
      SerialThreads(events, order, t);
    }
  }

  /** Interleavings of the same threads have the same transitions along the same order. */
  lemma SameAlong(fp: Fingerprint, events1: seq<Event>, events2: seq<Event>, order: seq<nat>)
    requires SortedBy(events1, (e: Event) => e.seqNo) && SortedBy(events2, (e: Event) => e.seqNo)
    requires SameThreads(events1, events2)
    ensures SameBlocks(Executed(events1), Executed(events2))
    ensures CrossingsAlong(fp, events1, order) == CrossingsAlong(fp, events2, order)
  {
    hide Executed, Sights, AllCrossings, Segmented, Whole, SortedBy, SameThreads, SameBlocks;
    ExecutedIsSegmented(events1);
    ExecutedIsSegmented(events2);
    ThreadsGiveBlocks(events1, events2, Executed(events1), Executed(events2));
    NeedsNoSort(Executed(events1), events1);
    NeedsNoSort(Executed(events2), events2);
    SameCrossings(fp, Executed(events1), Executed(events2), order);
  }

  lemma BlockCounts(events1: seq<Event>, events2: seq<Event>, t: nat)
    requires SameBlocks(Executed(events1), Executed(events2))
    ensures |BlocksOf(Executed(events2), t)| == |Partition(Projection(events1, t))|
  {
    ExecutedBlocks(events1, t);
    hide Executed, BlocksOf, Partition, Projection;
    assert AllAlike(BlocksOf(Executed(events1), t), BlocksOf(Executed(events2), t));
  }

  /** Running the threads one after another in some order makes edges in that order: every order is reached. */
  lemma EveryOrderIsReached(fp: Fingerprint, events: seq<Event>, order: seq<nat>)
    requires SortedBy(events, (e: Event) => e.seqNo)
    requires Distinct(order) && forall t :: t in order <==> Projection(events, t) != []
    ensures SortedBy(Serial(events, order), (e: Event) => e.seqNo) && SameThreads(events, Serial(events, order))
    ensures TapeCrossings(fp, Serial(events, order)) == CrossingsAlong(fp, events, order)
  {
    var tape := Serial(events, order);
    var instances, closed := Executed(tape), Segmentation(tape).closed;
    var more := FirstMetMore(closed, Leftover(Segmentation(tape).current, Segmentation(tape).current.Keys));
    assert FirstMet(instances) == FirstMet(closed) + more;
    hide Serial, Executed, Segmentation, FirstMet, Leftover, SortedBy, Projection, Partition, AllCrossings, Sights, Whole,
         Segmented, SameThreads, SameBlocks, BlocksOf, Moving;
    SerialIsAnInterleaving(events, order);
    SerialCloses(events, order);
    MovingAre(events, order);
    SameAlong(fp, events, tape, order);
    ExecutedIsSegmented(tape);
    forall t ensures |BlocksOf(instances, t)| == |Partition(Projection(events, t))| {
      BlockCounts(events, tape, t);
    }
    forall t | t in more ensures |BlocksOf(instances, t)| <= 1 {
      NothingToPartition(Projection(events, t));
    }
    OnlyMovingCross(fp, Sights(fp, instances), instances, events, order);
    RestDoesNotCross(fp, Sights(fp, instances), instances, Moving(events, order), more);
  }

  // What a flag depends on

  /** The flag that the first transition of a thread over the edge has. */
  function ThreadFlag(fp: Fingerprint, events: seq<Event>, t: nat, key: EdgeKey): Option<bool> {
    ExecutedIsSegmented(events);
    FlagIn(fp, Sights(fp, Executed(events)), Executed(events), t, key)
  }

  function TapeFlag(fp: Fingerprint, events: seq<Event>, key: EdgeKey): Option<bool> {
    FlagOf(TapeCrossings(fp, events), key)
  }

  ghost predicate FlagIgnoresInterleaving(fp: Fingerprint, events: seq<Event>, key: EdgeKey) {
    forall tape | SortedBy(tape, (e: Event) => e.seqNo) && SameThreads(events, tape) ::
      TapeFlag(fp, tape, key) == TapeFlag(fp, events, key)
  }

  /** All threads that have the edge agree on its flag, each by its own first transition over it. */
  ghost predicate ThreadsAgreeOn(fp: Fingerprint, events: seq<Event>, key: EdgeKey) {
    forall t, u | ThreadFlag(fp, events, t, key).Some? && ThreadFlag(fp, events, u, key).Some? ::
      ThreadFlag(fp, events, t, key) == ThreadFlag(fp, events, u, key)
  }

  /** Main result: the flag of an edge is the same on every tape on which the same threads do the same, however they
      are interleaved, exactly when the threads agree on it. */
  lemma FlagIgnoresInterleavingExactlyWhen(fp: Fingerprint, events: seq<Event>, key: EdgeKey)
    requires SortedBy(events, (e: Event) => e.seqNo)
    ensures FlagIgnoresInterleaving(fp, events, key) <==> ThreadsAgreeOn(fp, events, key)
  {
    hide *;
    ExecutedIsSegmented(events);
    var instances := Executed(events);
    var sights, order := Sights(fp, instances), FirstMet(instances);
    ListedThreadsAgree(fp, events, key);
    FlagIsSettledExactlyWhen(fp, sights, instances, order, key);
    if ThreadsAgree(fp, sights, instances, order, key) {
      SettledOnTapes(fp, events, key);
    } else {
      var other: seq<nat> :| multiset(other) == multiset(order)
                             && FlagAlong(fp, sights, instances, other, key) != FlagAlong(fp, sights, instances, order, key);
      UnsettledOnTapes(fp, events, key, other);
    }
  }

  /** Threads that have no block have no say. */
  lemma ListedThreadsAgree(fp: Fingerprint, events: seq<Event>, key: EdgeKey)
    requires Whole(Executed(events))
    ensures var instances := Executed(events);
            ThreadsAgreeOn(fp, events, key) <==> ThreadsAgree(fp, Sights(fp, instances), instances, FirstMet(instances), key)
  {
    var instances := Executed(events);
    FirstMetEnumerates(instances);
    hide FlagIn, Executed, Sights, FirstMet, BlocksOf, Whole;
    var sights, order := Sights(fp, instances), FirstMet(instances);
    forall t ensures ThreadFlag(fp, events, t, key) == FlagIn(fp, sights, instances, t, key)
                  && (FlagIn(fp, sights, instances, t, key).Some? ==> t in order) {
      NoBlocksNoFlag(fp, sights, instances, t, key);
    }
    if ThreadsAgree(fp, sights, instances, order, key) {
      forall t, u | ThreadFlag(fp, events, t, key).Some? && ThreadFlag(fp, events, u, key).Some?
        ensures ThreadFlag(fp, events, t, key) == ThreadFlag(fp, events, u, key)
      {
        assert t in order && u in order;
        assert FlagIn(fp, sights, instances, t, key) == FlagIn(fp, sights, instances, u, key);
      }
    }
    if ThreadsAgreeOn(fp, events, key) {
      forall t, u | t in order && u in order
                    && FlagIn(fp, sights, instances, t, key).Some? && FlagIn(fp, sights, instances, u, key).Some?
        ensures FlagIn(fp, sights, instances, t, key) == FlagIn(fp, sights, instances, u, key)
      {
        assert ThreadFlag(fp, events, t, key) == ThreadFlag(fp, events, u, key);
      }
    }
  }

  lemma SettledOnTapes(fp: Fingerprint, events: seq<Event>, key: EdgeKey)
    requires SortedBy(events, (e: Event) => e.seqNo) && Whole(Executed(events))
    requires var instances := Executed(events);
             forall other: seq<nat> | multiset(other) == multiset(FirstMet(instances)) ::
               FlagAlong(fp, Sights(fp, instances), instances, other, key)
               == FlagAlong(fp, Sights(fp, instances), instances, FirstMet(instances), key)
    ensures FlagIgnoresInterleaving(fp, events, key)
  {
    hide FlagOf, Executed, Sights, FirstMet, Whole, AllCrossings, SortedBy, SameThreads;
    forall tape | SortedBy(tape, (e: Event) => e.seqNo) && SameThreads(events, tape)
      ensures TapeFlag(fp, tape, key) == TapeFlag(fp, events, key)
    {
      TapeIsReordered(fp, events, tape);
      var instances, other := Executed(events), FirstMet(Executed(tape));
      assert FlagAlong(fp, Sights(fp, instances), instances, other, key) == TapeFlag(fp, tape, key);
    }
  }

  lemma UnsettledOnTapes(fp: Fingerprint, events: seq<Event>, key: EdgeKey, other: seq<nat>)
    requires SortedBy(events, (e: Event) => e.seqNo) && Whole(Executed(events))
    requires multiset(other) == multiset(FirstMet(Executed(events)))
    requires var instances := Executed(events);
             FlagAlong(fp, Sights(fp, instances), instances, other, key)
             != FlagAlong(fp, Sights(fp, instances), instances, FirstMet(instances), key)
    ensures !FlagIgnoresInterleaving(fp, events, key)
  {
    hide FlagOf, Executed, Sights, FirstMet, Whole, AllCrossings, SortedBy, SameThreads, Serial, Projection, Enumerates;
    FirstMetEnumerates(Executed(events));
    ThreadsOfTape(events, FirstMet(Executed(events)));
    Permuted(FirstMet(Executed(events)), other);
    EveryOrderIsReached(fp, events, other);
    assert TapeFlag(fp, Serial(events, other), key) != TapeFlag(fp, events, key);
  }

  lemma ThreadsOfTape(events: seq<Event>, order: seq<nat>)
    requires Enumerates(Executed(events), order)
    ensures Distinct(order) && forall t :: t in order <==> Projection(events, t) != []
  {
    hide Executed, BlocksOf, Projection, Partition;
    forall t ensures t in order <==> Projection(events, t) != [] {
      ExecutedBlocks(events, t);
      NothingToPartition(Projection(events, t));
      PartitionIsMaximal(Projection(events, t));
    }
  }

  lemma NoBlocksNoFlag(fp: Fingerprint, sights: seq<Sight>, instances: seq<Instance>, t: nat, key: EdgeKey)
    requires Whole(instances)
    ensures FlagIn(fp, sights, instances, t, key).Some? ==> BlocksOf(instances, t) != []
  {
    if BlocksOf(instances, t) == [] {
      SingleDoesNotCross(fp, sights, instances, t);
    }
  }

  /** Another interleaving makes the same transitions in another order of the threads. */
  lemma TapeIsReordered(fp: Fingerprint, events: seq<Event>, tape: seq<Event>)
    requires SortedBy(events, (e: Event) => e.seqNo) && SortedBy(tape, (e: Event) => e.seqNo)
    requires SameThreads(events, tape)
    ensures multiset(FirstMet(Executed(tape))) == multiset(FirstMet(Executed(events)))
    ensures TapeCrossings(fp, tape) == CrossingsAlong(fp, events, FirstMet(Executed(tape)))
  {
    hide Executed, FirstMet, SameThreads, SortedBy, AllCrossings, Sights, BlocksOf, SameBlocks, Whole;
    SameAlong(fp, events, tape, FirstMet(Executed(tape)));
    FirstMetEnumerates(Executed(events));
    FirstMetEnumerates(Executed(tape));
    SameThreadsHaveBlocks(Executed(events), Executed(tape));
    SameOrderUpToPermutation(FirstMet(Executed(tape)), FirstMet(Executed(events)));
  }

  lemma Permuted(order: seq<nat>, other: seq<nat>)
    requires multiset(other) == multiset(order) && Distinct(order)
    ensures Distinct(other) && forall t :: t in other <==> t in order
  {
    SameMembers(order, other);
    forall i, j | 0 <= i < j < |other| ensures other[i] != other[j] {
      if other[i] == other[j] {
        DistinctOnce(order, other[i]);
        OccursTwice(other, i, j);
        assert false;
      }
    }
  }
}

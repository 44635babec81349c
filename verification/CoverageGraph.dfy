/** From the blocks of all threads to counted blocks and counted edges. */
module CoverageGraph {
  import opened Sequences
  import opened CoverageBlocks
  import opened Folds

  type Piece = (int, nat, string)

  /** The digest of a block's code, as a number of 64 hexadecimal digits. */
  type Fingerprint = seq<Piece> -> nat

  /** What is left of a digest after its first 16 digits are read. */
  const PREFIX_UNIT := 0x1_0000_0000_0000_0000_0000_0000_0000_0000_0000_0000_0000_0000

  datatype BlockKey = BlockKey(rva: int, digest: nat)

  datatype StableKey = Base(rva: int) | Versioned(rva: int, prefix: nat)

  datatype EdgeKind =
    | ExceptionEdge | ReturnEdge | CallEdge | IndirectCall | Taken | IndirectTaken | NotTaken
    | BranchObserved | IndirectObserved | Fallthrough | Discontinuity

  /** What grouping reads of an executed block, apart from its sequence numbers. */
  datatype Sight = Sight(key: BlockKey, thread: nat, count: nat, endRva: int)

  datatype Stats = Stats(hits: nat, instructionHits: nat, instructionCount: nat, threads: set<nat>, endRva: int)

  datatype Label = Label(stableKey: StableKey, version: nat, versionCount: nat)

  datatype Group = Group(name: Label, stats: Stats, firstSeq: int, lastSeq: int)

  datatype EdgeKey = EdgeKey(source: StableKey, destination: StableKey, kind: EdgeKind)

  datatype Crossing = Crossing(key: EdgeKey, target: int, indirect: bool)

  datatype Edge = Edge(hits: nat, targets: set<int>, indirect: bool)

  // What one executed block and one transition contribute

  function Material(block: Block): seq<Piece> {
    seq(|block|, i requires 0 <= i < |block| => (block[i].rva, block[i].size, block[i].material))
  }

  function KeyOf(fp: Fingerprint, block: Block): (key: BlockKey)
    requires block != []
    ensures key.rva == block[0].rva
  {
    BlockKey(block[0].rva, fp(Material(block)))
  }

  predicate Whole(instances: seq<Instance>) {
    forall i | 0 <= i < |instances| :: instances[i].events != []
  }

  function SightOf(fp: Fingerprint, x: Instance): Sight
    requires x.events != []
  {
    Sight(KeyOf(fp, x.events), x.thread, |x.events|, Last(x.events).rva)
  }

  function Sights(fp: Fingerprint, instances: seq<Instance>): seq<Sight>
    requires Whole(instances)
  {
    seq(|instances|, i requires 0 <= i < |instances| => SightOf(fp, instances[i]))
  }

  /** The different codes seen at an address. */
  function VersionsAt(sights: seq<Sight>, rva: int): set<nat> {
    set x | x in sights && x.key.rva == rva :: x.key.digest
  }

  function LabelOf(versions: set<nat>, key: BlockKey): Label {
    Label(if |versions| == 1 then Base(key.rva) else Versioned(key.rva, key.digest / PREFIX_UNIT),
          |set v | v in versions && v < key.digest| + 1, |versions|)
  }

  function Max(a: int, b: int): int {
    if a < b then b else a
  }

  function AddStats(groups: map<BlockKey, Stats>, x: Sight): map<BlockKey, Stats> {
    var was := if x.key in groups then groups[x.key] else Stats(0, 0, 0, {}, x.endRva);
    groups[x.key := Stats(was.hits + 1, was.instructionHits + x.count, Max(was.instructionCount, x.count),
                          was.threads + {x.thread}, Max(was.endRva, x.endRva))]
  }

  function KindOf(terminal: Event, first: Event): EdgeKind {
    var fallthrough := terminal.ip + terminal.size;
    if first.exceptional || terminal.exceptional then ExceptionEdge
    else if terminal.isReturn then ReturnEdge
    else if terminal.call then (if terminal.indirect then IndirectCall else CallEdge)
    else if terminal.branch then
      (if terminal.target != 0 && first.ip == terminal.target then
         (if terminal.indirect then IndirectTaken else Taken)
       else if terminal.size != 0 && first.ip == fallthrough then NotTaken
       else if terminal.indirect then IndirectObserved else BranchObserved)
    else if terminal.size != 0 && first.ip == fallthrough then Fallthrough
    else Discontinuity
  }

  function StableKeyOf(fp: Fingerprint, sights: seq<Sight>, block: Block): StableKey
    requires block != []
  {
    LabelOf(VersionsAt(sights, block[0].rva), KeyOf(fp, block)).stableKey
  }

  function CrossingOf(fp: Fingerprint, sights: seq<Sight>, source: Block, destination: Block): Crossing
    requires source != [] && destination != []
  {
    var terminal := Last(source);
    Crossing(EdgeKey(StableKeyOf(fp, sights, source), StableKeyOf(fp, sights, destination),
                     KindOf(terminal, destination[0])),
             terminal.target, terminal.indirect)
  }

  /** The transitions of one thread. */
  function CrossingsOf(fp: Fingerprint, sights: seq<Sight>, blocks: seq<Block>): (r: seq<Crossing>)
    requires forall i | 0 <= i < |blocks| :: blocks[i] != []
    ensures |r| == if blocks == [] then 0 else |blocks| - 1
  {
    if blocks == [] then []
    else seq(|blocks| - 1, i requires 0 <= i < |blocks| - 1 => CrossingOf(fp, sights, blocks[i], blocks[i + 1]))
  }

  function FirstSeq(block: Block): int {
    if block == [] then 0 else block[0].seqNo
  }

  /** The transitions of the listed threads. */
  function AllCrossings(fp: Fingerprint, sights: seq<Sight>, instances: seq<Instance>, order: seq<nat>): seq<Crossing>
    requires Whole(instances)
  {
    if order == [] then []
    else
      AllCrossings(fp, sights, instances, order[..|order| - 1])
      + CrossingsOf(fp, sights, SortedBlocks(instances, Last(order)))
  }

  /** The blocks of a thread in the order of their first events. */
  function SortedBlocks(instances: seq<Instance>, thread: nat): (r: seq<Block>)
    requires Whole(instances)
    ensures |r| == |BlocksOf(instances, thread)| && forall i | 0 <= i < |r| :: r[i] != []
  {
    var blocks := BlocksOf(instances, thread);
    BlocksOfWhole(instances, thread);
    StableSortSorts(blocks, FirstSeq);
    var r := StableSort(blocks, FirstSeq);
    SameElements(blocks, r);
    r
  }

  lemma {:induction false} BlocksOfWhole(instances: seq<Instance>, thread: nat)
    requires Whole(instances)
    ensures forall i | 0 <= i < |BlocksOf(instances, thread)| :: BlocksOf(instances, thread)[i] != []
  {
    if instances != [] {
      BlocksOfWhole(instances[..|instances| - 1], thread);
    }
  }

  lemma SameElements(xs: seq<Block>, ys: seq<Block>)
    requires multiset(xs) == multiset(ys) && forall i | 0 <= i < |xs| :: xs[i] != []
    ensures |xs| == |ys| && forall i | 0 <= i < |ys| :: ys[i] != []
  {
    assert |multiset(xs)| == |xs| && |multiset(ys)| == |ys|;
    forall i | 0 <= i < |ys| ensures ys[i] != [] {
      assert ys[i] in multiset(xs);
    }
  }

  /** The edge's flag is that of the first transition that has its key. */
  function AddEdge(edges: map<EdgeKey, Edge>, x: Crossing): map<EdgeKey, Edge> {
    var was := if x.key in edges then edges[x.key] else Edge(0, {}, x.indirect);
    edges[x.key := was.(hits := was.hits + 1,
                        targets := was.targets + (if x.target != 0 then {x.target} else {}))]
  }

  // The loops

  function StatsOf(groups: map<BlockKey, Group>): map<BlockKey, Stats> {
    map k | k in groups :: groups[k].stats
  }

  /** The first and last sequence numbers of what is in the group. */
  ghost predicate Spans(fp: Fingerprint, instances: seq<Instance>, key: BlockKey, firstSeq: int, lastSeq: int)
    requires Whole(instances)
  {
    && (forall i | 0 <= i < |instances| && KeyOf(fp, instances[i].events) == key ::
          firstSeq <= instances[i].events[0].seqNo && Last(instances[i].events).seqNo <= lastSeq)
    && (exists i :: 0 <= i < |instances| && KeyOf(fp, instances[i].events) == key
                    && instances[i].events[0].seqNo == firstSeq)
    && (exists i :: 0 <= i < |instances| && KeyOf(fp, instances[i].events) == key
                    && Last(instances[i].events).seqNo == lastSeq)
  }

  ghost predicate Labelled(sights: seq<Sight>, key: BlockKey, name: Label) {
    name == LabelOf(VersionsAt(sights, key.rva), key)
  }

  method CollectVersions(fp: Fingerprint, instances: seq<Instance>) returns (versions: map<int, set<nat>>)
    requires Whole(instances)
    ensures forall rva | rva in versions :: versions[rva] == VersionsAt(Sights(fp, instances), rva)
    ensures forall i | 0 <= i < |instances| :: instances[i].events[0].rva in versions
  {
    versions := map[];
    ghost var sights := Sights(fp, instances);
    assert forall rva :: VersionsAt(sights[..0], rva) == {};
    for i := 0 to |instances|
      invariant forall rva | rva in versions :: versions[rva] == VersionsAt(sights[..i], rva)
      invariant forall rva :: rva !in versions ==> VersionsAt(sights[..i], rva) == {}
      invariant forall j | 0 <= j < i :: instances[j].events[0].rva in versions
    {
      hide VersionsAt;
      var key := KeyOf(fp, instances[i].events);
      var before := if key.rva in versions then versions[key.rva] else {};
      ghost var seen, after := sights[..i], sights[..i + 1];
      assert after == seen + [sights[i]];
      forall rva ensures VersionsAt(after, rva) ==
                         VersionsAt(seen, rva) + (if rva == key.rva then {key.digest} else {}) {
        VersionsAppend(seen, sights[i], rva);
      }
      hide KeyOf, SightOf, Sights;
      versions := versions[key.rva := before + {key.digest}];
    }
    assert sights[..|instances|] == sights;
  }

  lemma VersionsAppend(sights: seq<Sight>, x: Sight, rva: int)
    ensures VersionsAt(sights + [x], rva) ==
            VersionsAt(sights, rva) + (if rva == x.key.rva then {x.key.digest} else {})
  {
    if rva == x.key.rva {
      assert x in sights + [x];
    }
  }

  lemma SpansOther(fp: Fingerprint, instances: seq<Instance>, x: Instance, key: BlockKey, firstSeq: int, lastSeq: int)
    requires Whole(instances) && x.events != [] && Spans(fp, instances, key, firstSeq, lastSeq)
    requires KeyOf(fp, x.events) != key
    ensures Spans(fp, instances + [x], key, firstSeq, lastSeq)
  {
    var after := instances + [x];
    var i :| 0 <= i < |instances| && KeyOf(fp, instances[i].events) == key && instances[i].events[0].seqNo == firstSeq;
    var j :| 0 <= j < |instances| && KeyOf(fp, instances[j].events) == key && Last(instances[j].events).seqNo == lastSeq;
    assert after[i] == instances[i] && after[j] == instances[j];
  }

  lemma SpansOwn(fp: Fingerprint, instances: seq<Instance>, x: Instance, key: BlockKey, firstSeq: int, lastSeq: int)
    requires Whole(instances) && x.events != [] && KeyOf(fp, x.events) == key
    requires
      || Spans(fp, instances, key, firstSeq, lastSeq)
      || (firstSeq == x.events[0].seqNo && lastSeq == Last(x.events).seqNo
          && forall i | 0 <= i < |instances| :: KeyOf(fp, instances[i].events) != key)
    ensures Spans(fp, instances + [x], key,
                  if x.events[0].seqNo < firstSeq then x.events[0].seqNo else firstSeq,
                  Max(lastSeq, Last(x.events).seqNo))
  {
    var after := instances + [x];
    assert after[|instances|] == x;
    if Spans(fp, instances, key, firstSeq, lastSeq) {
      var i :| 0 <= i < |instances| && KeyOf(fp, instances[i].events) == key && instances[i].events[0].seqNo == firstSeq;
      var j :| 0 <= j < |instances| && KeyOf(fp, instances[j].events) == key && Last(instances[j].events).seqNo == lastSeq;
      assert after[i] == instances[i] && after[j] == instances[j];
    }
  }

  ghost predicate AllSpan(fp: Fingerprint, instances: seq<Instance>, groups: map<BlockKey, Group>)
    requires Whole(instances)
  {
    && (forall i | 0 <= i < |instances| :: KeyOf(fp, instances[i].events) in groups)
    && (forall k | k in groups :: Spans(fp, instances, k, groups[k].firstSeq, groups[k].lastSeq))
  }

  /** The groups that `instances` make up, when `sights` are all that there are. */
  ghost predicate GroupsFit(fp: Fingerprint, sights: seq<Sight>, instances: seq<Instance>, groups: map<BlockKey, Group>)
    requires Whole(instances)
  {
    && StatsOf(groups) == Fold(AddStats, map[], Sights(fp, instances))
    && AllSpan(fp, instances, groups)
    && (forall k | k in groups :: Labelled(sights, k, groups[k].name))
  }

  /** One more execution of a block that was seen before or not. */
  function Joined(was: Group, x: Instance): (g: Group)
    requires x.events != []
    ensures g.name == was.name
  {
    var count := |x.events|;
    var first, last := x.events[0].seqNo, Last(x.events).seqNo;
    Group(was.name,
          Stats(was.stats.hits + 1, was.stats.instructionHits + count, Max(was.stats.instructionCount, count),
                was.stats.threads + {x.thread}, Max(was.stats.endRva, Last(x.events).rva)),
          if first < was.firstSeq then first else was.firstSeq, Max(was.lastSeq, last))
  }

  function Fresh(name: Label, x: Instance): (g: Group)
    requires x.events != []
    ensures g.name == name
  {
    Group(name, Stats(0, 0, 0, {}, Last(x.events).rva), x.events[0].seqNo, Last(x.events).seqNo)
  }

  lemma StatsStep(fp: Fingerprint, groups: map<BlockKey, Group>, x: Instance, was: Group)
    requires x.events != []
    requires var key := KeyOf(fp, x.events); if key in groups then was == groups[key] else was == Fresh(was.name, x)
    ensures StatsOf(groups[KeyOf(fp, x.events) := Joined(was, x)]) == AddStats(StatsOf(groups), SightOf(fp, x))
  {
  }

  lemma SpansStep(fp: Fingerprint, instances: seq<Instance>, groups: map<BlockKey, Group>, x: Instance, was: Group)
    requires Whole(instances) && x.events != [] && AllSpan(fp, instances, groups)
    requires var key := KeyOf(fp, x.events); if key in groups then was == groups[key] else was == Fresh(was.name, x)
    ensures AllSpan(fp, instances + [x], groups[KeyOf(fp, x.events) := Joined(was, x)])
  {
    var key, after := KeyOf(fp, x.events), instances + [x];
    var groups' := groups[key := Joined(was, x)];
    hide KeyOf, Spans;
    forall k | k in groups' ensures Spans(fp, after, k, groups'[k].firstSeq, groups'[k].lastSeq) {
      if k == key {
        SpansOwn(fp, instances, x, key, was.firstSeq, was.lastSeq);
      } else {
        SpansOther(fp, instances, x, k, groups[k].firstSeq, groups[k].lastSeq);
      }
    }
  }

  lemma SightsAppend(fp: Fingerprint, instances: seq<Instance>, x: Instance)
    requires Whole(instances) && x.events != []
    ensures Whole(instances + [x]) && Sights(fp, instances + [x]) == Sights(fp, instances) + [SightOf(fp, x)]
  {
  }

  lemma GroupsStep(fp: Fingerprint, sights: seq<Sight>, instances: seq<Instance>, groups: map<BlockKey, Group>,
                   x: Instance, was: Group)
    requires Whole(instances) && x.events != [] && Whole(instances + [x]) && GroupsFit(fp, sights, instances, groups)
    requires Labelled(sights, KeyOf(fp, x.events), was.name)
    requires var key := KeyOf(fp, x.events); if key in groups then was == groups[key] else was == Fresh(was.name, x)
    ensures GroupsFit(fp, sights, instances + [x], groups[KeyOf(fp, x.events) := Joined(was, x)])
  {
    assert StatsOf(groups) == Fold(AddStats, map[], Sights(fp, instances)) && AllSpan(fp, instances, groups);
    assert forall k | k in groups :: Labelled(sights, k, groups[k].name);
    hide *;
    StatsStep(fp, groups, x, was);
    SpansStep(fp, instances, groups, x, was);
    SightsAppend(fp, instances, x);
    FoldAppend(AddStats, map[], Sights(fp, instances), SightOf(fp, x));
    FitWhen(fp, sights, instances + [x], groups[KeyOf(fp, x.events) := Joined(was, x)]);
  }

  lemma WholeAppend(instances: seq<Instance>, x: Instance)
    requires Whole(instances) && x.events != []
    ensures Whole(instances + [x])
  {
  }

  lemma WholePrefix(instances: seq<Instance>, i: nat)
    requires Whole(instances) && i < |instances|
    ensures instances[i].events != [] && Whole(instances[..i]) && Whole(instances[..i + 1])
  {
  }

  lemma FitStart(fp: Fingerprint, sights: seq<Sight>, instances: seq<Instance>)
    requires instances == []
    ensures Whole(instances) && GroupsFit(fp, sights, instances, map[])
  {
  }

  lemma FitWhen(fp: Fingerprint, sights: seq<Sight>, instances: seq<Instance>, groups: map<BlockKey, Group>)
    requires Whole(instances) && StatsOf(groups) == Fold(AddStats, map[], Sights(fp, instances))
    requires AllSpan(fp, instances, groups) && forall k | k in groups :: Labelled(sights, k, groups[k].name)
    ensures GroupsFit(fp, sights, instances, groups)
  {
  }

  lemma NameFits(fp: Fingerprint, sights: seq<Sight>, instances: seq<Instance>, groups: map<BlockKey, Group>,
                 key: BlockKey, versions: set<nat>, name: Label)
    requires Whole(instances) && GroupsFit(fp, sights, instances, groups) && versions == VersionsAt(sights, key.rva)
    requires name == if key in groups then groups[key].name else LabelOf(versions, key)
    ensures Labelled(sights, key, name)
  {
    hide Fold, Sights, Spans;
  }

  method AddInstance(fp: Fingerprint, ghost sights: seq<Sight>, ghost before: seq<Instance>, x: Instance,
                     versions: set<nat>, groups0: map<BlockKey, Group>) returns (groups: map<BlockKey, Group>)
    requires Whole(before) && x.events != [] && GroupsFit(fp, sights, before, groups0)
    requires versions == VersionsAt(sights, x.events[0].rva)
    ensures Whole(before + [x]) && GroupsFit(fp, sights, before + [x], groups)
  {
    hide *;
    var key := KeyOf(fp, x.events);
    var was := if key in groups0 then groups0[key] else Fresh(LabelOf(versions, key), x);
    NameFits(fp, sights, before, groups0, key, versions, was.name);
    WholeAppend(before, x);
    SightsAppend(fp, before, x);
    GroupsStep(fp, sights, before, groups0, x, was);
    groups := groups0[key := Joined(was, x)];
  }

  method BuildGroups(fp: Fingerprint, instances: seq<Instance>, versions: map<int, set<nat>>)
    returns (groups: map<BlockKey, Group>)
    requires Whole(instances)
    requires forall rva | rva in versions :: versions[rva] == VersionsAt(Sights(fp, instances), rva)
    requires forall i | 0 <= i < |instances| :: instances[i].events[0].rva in versions
    ensures GroupsFit(fp, Sights(fp, instances), instances, groups)
  {
    hide *;
    groups := map[];
    ghost var sights := Sights(fp, instances);
    FitStart(fp, sights, instances[..0]);
    for i := 0 to |instances|
      invariant Whole(instances[..i]) && GroupsFit(fp, sights, instances[..i], groups)
    {
      WholePrefix(instances, i);
      assert instances[..i + 1] == instances[..i] + [instances[i]];
      groups := AddInstance(fp, sights, instances[..i], instances[i], versions[instances[i].events[0].rva], groups);
    }
    assert instances[..|instances|] == instances;
  }

  /** The threads in the order in which they are first met, and the blocks of each. */
  ghost predicate Gathered(instances: seq<Instance>, order: seq<nat>, byThread: map<nat, seq<Block>>) {
    && Distinct(order)
    && (forall t :: t in order <==> t in byThread)
    && (forall t :: BlocksOf(instances, t) == Row(byThread, t))
  }

  function Row(byThread: map<nat, seq<Block>>, t: nat): seq<Block> {
    if t in byThread then byThread[t] else []
  }

  /** The threads in the order of their first closed blocks. */
  function FirstMet(instances: seq<Instance>): seq<nat> {
    if instances == [] then []
    else
      var before, thread := FirstMet(instances[..|instances| - 1]), Last(instances).thread;
      if thread in before then before else before + [thread]
  }

  lemma FirstMetStep(instances: seq<Instance>, i: nat)
    requires i < |instances|
    ensures var before, thread := FirstMet(instances[..i]), instances[i].thread;
            FirstMet(instances[..i + 1]) == if thread in before then before else before + [thread]
  {
    assert instances[..i + 1][..i] == instances[..i];
  }

  method GatherThreads(instances: seq<Instance>) returns (order: seq<nat>, byThread: map<nat, seq<Block>>)
    ensures order == FirstMet(instances)
    ensures Gathered(instances, order, byThread)
    ensures forall t | t in byThread :: byThread[t] != []
  {
    order, byThread := [], map[];
    hide *;
    GatherStart(instances[..0]);
    for i := 0 to |instances|
      invariant order == FirstMet(instances[..i]) && Gathered(instances[..i], order, byThread)
      invariant forall t | t in byThread :: byThread[t] != []
    {
      KnownThreads(instances[..i], order, byThread);
      var x := instances[i];
      FirstMetStep(instances, i);
      assert instances[..i + 1] == instances[..i] + [x];
      GatherStep(instances[..i], order, byThread, x);
      if x.thread in byThread {
        byThread := byThread[x.thread := byThread[x.thread] + [x.events]];
      } else {
        byThread := byThread[x.thread := [x.events]];
        order := order + [x.thread];
      }
    }
    assert instances[..|instances|] == instances;
  }

  lemma GatherStart(instances: seq<Instance>)
    requires instances == []
    ensures FirstMet(instances) == [] && Gathered(instances, [], map[])
  {
  }

  lemma KnownThreads(instances: seq<Instance>, order: seq<nat>, byThread: map<nat, seq<Block>>)
    requires Gathered(instances, order, byThread)
    ensures forall t :: t in order <==> t in byThread
  {
    hide BlocksOf;
  }

  lemma GatherStep(instances: seq<Instance>, order: seq<nat>, byThread: map<nat, seq<Block>>, x: Instance)
    requires Gathered(instances, order, byThread)
    ensures if x.thread in byThread
            then Gathered(instances + [x], order, byThread[x.thread := byThread[x.thread] + [x.events]])
            else Gathered(instances + [x], order + [x.thread], byThread[x.thread := [x.events]])
  {
    hide BlocksOf, Distinct;
    var order' := if x.thread in byThread then order else order + [x.thread];
    var byThread' := byThread[x.thread := Row(byThread, x.thread) + [x.events]];
    if x.thread !in byThread {
      NewThread(order, x.thread);
      assert Row(byThread, x.thread) + [x.events] == [x.events];
    }
    forall t: nat ensures BlocksOf(instances + [x], t) == Row(byThread', t) {
      BlocksOfAppend(instances, x, t);
    }
    assert Gathered(instances + [x], order', byThread');
  }

  lemma NewThread(order: seq<nat>, thread: nat)
    requires Distinct(order) && thread !in order
    ensures Distinct(order + [thread]) && forall t :: t in order + [thread] <==> t in order || t == thread
  {
    AppendLast(order, thread);
  }

  /** Consecutive blocks of one thread. */
  method AddTransitions(fp: Fingerprint, ghost sights: seq<Sight>, versions: map<int, set<nat>>, blocks: seq<Block>,
                        edges0: map<EdgeKey, Edge>) returns (edges: map<EdgeKey, Edge>)
    requires forall i | 0 <= i < |blocks| :: blocks[i] != [] && blocks[i][0].rva in versions
    requires forall rva | rva in versions :: versions[rva] == VersionsAt(sights, rva)
    ensures edges == Fold(AddEdge, edges0, CrossingsOf(fp, sights, blocks))
  {
    hide *;
    edges := edges0;
    ghost var crossings := CrossingsOf(fp, sights, blocks);
    FoldNothing(AddEdge, edges0, crossings[..0]);
    if blocks == [] {
      assert crossings == crossings[..0];
      return;
    }
    for j := 1 to |blocks|
      invariant edges == Fold(AddEdge, edges0, crossings[..j - 1])
    {
      var source, destination := blocks[j - 1], blocks[j];
      var terminal := Last(source);
      var key := EdgeKey(LabelOf(versions[source[0].rva], KeyOf(fp, source)).stableKey,
                         LabelOf(versions[destination[0].rva], KeyOf(fp, destination)).stableKey,
                         KindOf(terminal, destination[0]));
      var was := if key in edges then edges[key] else Edge(0, {}, terminal.indirect);
      CrossingsStep(fp, sights, blocks, j, edges0);
      edges := edges[key := Edge(was.hits + 1,
                                 was.targets + (if terminal.target != 0 then {terminal.target} else {}),
                                 was.indirect)];
    }
    assert crossings[..|blocks| - 1] == crossings;
  }

  lemma CrossingsStep(fp: Fingerprint, sights: seq<Sight>, blocks: seq<Block>, j: nat, edges0: map<EdgeKey, Edge>)
    requires 1 <= j < |blocks| && forall i | 0 <= i < |blocks| :: blocks[i] != []
    ensures var crossings, source, destination := CrossingsOf(fp, sights, blocks), blocks[j - 1], blocks[j];
            var edges, terminal := Fold(AddEdge, edges0, crossings[..j - 1]), Last(source);
            var key := EdgeKey(LabelOf(VersionsAt(sights, source[0].rva), KeyOf(fp, source)).stableKey,
                               LabelOf(VersionsAt(sights, destination[0].rva), KeyOf(fp, destination)).stableKey,
                               KindOf(terminal, destination[0]));
            var was := if key in edges then edges[key] else Edge(0, {}, terminal.indirect);
            Fold(AddEdge, edges0, crossings[..j]) ==
            edges[key := Edge(was.hits + 1,
                              was.targets + (if terminal.target != 0 then {terminal.target} else {}),
                              was.indirect)]
  {
    hide LabelOf, VersionsAt, KindOf, KeyOf, Fold;
    var crossings := CrossingsOf(fp, sights, blocks);
    var x := CrossingOf(fp, sights, blocks[j - 1], blocks[j]);
    assert crossings[..j] == crossings[..j - 1] + [x];
    FoldAppend(AddEdge, edges0, crossings[..j - 1], x);
  }

  method BuildEdges(fp: Fingerprint, ghost instances: seq<Instance>, versions: map<int, set<nat>>,
                    order: seq<nat>, byThread: map<nat, seq<Block>>) returns (edges: map<EdgeKey, Edge>)
    requires Whole(instances) && Gathered(instances, order, byThread)
    requires forall rva | rva in versions :: versions[rva] == VersionsAt(Sights(fp, instances), rva)
    requires forall i | 0 <= i < |instances| :: instances[i].events[0].rva in versions
    ensures edges == Fold(AddEdge, map[], AllCrossings(fp, Sights(fp, instances), instances, order))
  {
    edges := map[];
    ghost var sights := Sights(fp, instances);
    assert Fold(AddEdge, map[], AllCrossings(fp, sights, instances, order[..0])) == map[];
    hide AllCrossings, Fold, VersionsAt, Sights, SortedBlocks, StableSort, CrossingsOf;
    for i := 0 to |order|
      invariant edges == Fold(AddEdge, map[], AllCrossings(fp, sights, instances, order[..i]))
    {
      var blocks := StableSort(byThread[order[i]], FirstSeq);
      SortedBlocksAre(instances, order[i]);
      AddressesKnown(instances, order[i], versions.Keys);
      edges := AddTransitions(fp, sights, versions, blocks, edges);
      AllCrossingsStep(fp, sights, instances, order, i);
      FoldConcat(AddEdge, map[], AllCrossings(fp, sights, instances, order[..i]), CrossingsOf(fp, sights, blocks));
    }
    assert order[..|order|] == order;
  }

  lemma SortedBlocksAre(instances: seq<Instance>, thread: nat)
    requires Whole(instances)
    ensures SortedBlocks(instances, thread) == StableSort(BlocksOf(instances, thread), FirstSeq)
  {
  }

  lemma AllCrossingsStep(fp: Fingerprint, sights: seq<Sight>, instances: seq<Instance>, order: seq<nat>, i: nat)
    requires Whole(instances) && i < |order|
    ensures AllCrossings(fp, sights, instances, order[..i + 1])
         == AllCrossings(fp, sights, instances, order[..i]) + CrossingsOf(fp, sights, SortedBlocks(instances, order[i]))
  {
    assert order[..i + 1][..i] == order[..i];
  }

  /** What holds of the first address of every instance holds of every block of a thread, sorted. */
  lemma AddressesKnown(instances: seq<Instance>, thread: nat, known: set<int>)
    requires Whole(instances)
    requires forall i | 0 <= i < |instances| :: instances[i].events[0].rva in known
    ensures forall i | 0 <= i < |SortedBlocks(instances, thread)| :: SortedBlocks(instances, thread)[i][0].rva in known
  {
    var blocks := BlocksOf(instances, thread);
    var sorted: seq<Block> := SortedBlocks(instances, thread);
    StableSortSorts(blocks, FirstSeq);
    BlocksComeFrom(instances, thread);
    forall i | 0 <= i < |sorted| ensures sorted[i][0].rva in known {
      assert sorted[i] in multiset(blocks);
      assert sorted[i] in blocks;
    }
  }

  lemma {:induction false} BlocksComeFrom(instances: seq<Instance>, thread: nat)
    ensures forall b | b in BlocksOf(instances, thread) :: Instance(thread, b) in instances
  {
    if instances != [] {
      BlocksComeFrom(instances[..|instances| - 1], thread);
    }
  }
}

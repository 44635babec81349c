/** From a tape of traced instructions to the straight-line blocks of each thread. */
module CoverageBlocks {
  import opened Options
  import opened Sequences

  /** One record of the tape, with its loosely typed fields already read. */
  datatype Raw = Raw(
    threadId: int, ip: int, rva: Option<int>, instructionSize: int, seqNo: Option<int>,
    branch: bool, call: bool, isReturn: bool, indirect: bool, branchTarget: int,
    exceptional: bool, blockStart: bool, material: string)

  datatype Event = Event(
    seqNo: int, thread: nat, ip: int, rva: int, size: nat, material: string,
    branch: bool, call: bool, isReturn: bool, indirect: bool, exceptional: bool,
    target: int, blockStart: bool)

  // Normalisation

  function ThreadOf(raw: Raw): nat {
    if raw.threadId < 0 then 0 else raw.threadId
  }

  predicate InModule(raw: Raw, base: int, size: int) {
    raw.ip > 0 && (base != 0 && size != 0 ==> base <= raw.ip < base + size)
  }

  /** Record `j` announces an exception that no instruction of its thread up to `i` has taken over. */
  predicate Announces(raws: seq<Raw>, base: int, size: int, j: nat, i: nat)
    requires i <= |raws|
  {
    j < i && raws[j].exceptional &&
    forall k | j <= k < i :: ThreadOf(raws[k]) == ThreadOf(raws[j]) ==> !InModule(raws[k], base, size)
  }

  /** An announced exception of the thread waits for an instruction. */
  ghost predicate Pending(raws: seq<Raw>, base: int, size: int, thread: nat, i: nat)
    requires i <= |raws|
  {
    exists j: nat :: j < i && ThreadOf(raws[j]) == thread && Announces(raws, base, size, j, i)
  }

  /** The instruction of record `i` is the first of its thread, in the module, since an exception
      was announced, by an earlier record of the thread or by its own. */
  ghost predicate TakesException(raws: seq<Raw>, base: int, size: int, i: nat)
    requires i < |raws|
  {
    raws[i].exceptional || Pending(raws, base, size, ThreadOf(raws[i]), i)
  }

  function RvaOf(raw: Raw, base: int): int {
    var rva := if raw.rva.Some? then raw.rva.value else -1;
    if rva < 0 || (rva == 0 && base != 0 && raw.ip != base)
    then (if base != 0 && raw.ip >= base then raw.ip - base else raw.ip)
    else rva
  }

  function Normal(raw: Raw, ordinal: nat, base: int, exceptional: bool): Event {
    Event(if raw.seqNo.Some? then raw.seqNo.value else ordinal + 1, ThreadOf(raw), raw.ip, RvaOf(raw, base),
          if raw.instructionSize < 0 then 0 else raw.instructionSize, raw.material,
          raw.branch || raw.call || raw.isReturn, raw.call, raw.isReturn, raw.indirect, exceptional,
          raw.branchTarget, raw.blockStart)
  }

  /** The tape with what lies outside the module left out and exceptions carried over. */
  ghost function Carried(raws: seq<Raw>, base: int, size: int, n: nat): seq<Event>
    requires n <= |raws|
  {
    if n == 0 then []
    else
      Carried(raws, base, size, n - 1)
      + (if InModule(raws[n - 1], base, size)
         then [Normal(raws[n - 1], n - 1, base, TakesException(raws, base, size, n - 1))] else [])
  }

  method NormalizeEvents(raws: seq<Raw>, base: int, size: int) returns (events: seq<Event>)
    ensures events == StableSort(Carried(raws, base, size, |raws|), (e: Event) => e.seqNo)
  {
    events := [];
    var pending: set<nat> := {};
    for ordinal := 0 to |raws|
      invariant events == Carried(raws, base, size, ordinal)
      invariant forall t: nat :: t in pending <==> Pending(raws, base, size, t, ordinal)
    {
      var raw := raws[ordinal];
      var thread := ThreadOf(raw);
      if raw.exceptional {
        pending := pending + {thread};
      }
      forall t: nat {
        PendingStep(raws, base, size, t, ordinal);
      }
      if !InModule(raw, base, size) {
        continue;
      }
      var carried := thread in pending;
      pending := pending - {thread};
      assert carried <==> TakesException(raws, base, size, ordinal);
      events := events + [Normal(raw, ordinal, base, carried)];
    }
    events := StableSort(events, (e: Event) => e.seqNo);
  }

  /** How one record changes what waits. */
  lemma PendingStep(raws: seq<Raw>, base: int, size: int, thread: nat, i: nat)
    requires i < |raws|
    ensures Pending(raws, base, size, thread, i + 1) <==>
              if thread == ThreadOf(raws[i])
              then !InModule(raws[i], base, size) && (raws[i].exceptional || Pending(raws, base, size, thread, i))
              else Pending(raws, base, size, thread, i)
  {
    if Pending(raws, base, size, thread, i + 1) {
      var j: nat :| j < i + 1 && ThreadOf(raws[j]) == thread && Announces(raws, base, size, j, i + 1);
      if j < i {
        assert Announces(raws, base, size, j, i);
      }
    }
    if Pending(raws, base, size, thread, i) {
      var j: nat :| j < i && ThreadOf(raws[j]) == thread && Announces(raws, base, size, j, i);
      if thread != ThreadOf(raws[i]) || !InModule(raws[i], base, size) {
        assert Announces(raws, base, size, j, i + 1);
      }
    }
    if thread == ThreadOf(raws[i]) && raws[i].exceptional && !InModule(raws[i], base, size) {
      assert Announces(raws, base, size, i, i + 1);
    }
  }

  // Stable sorting

  predicate SortedBy<T(!new)>(xs: seq<T>, key: T -> int) {
    forall i, j | 0 <= i < j < |xs| :: key(xs[i]) <= key(xs[j])
  }

  /** `x` goes behind everything that is not greater. */
  function InsertLast<T>(xs: seq<T>, x: T, key: T -> int): seq<T> {
    if xs == [] || key(xs[|xs| - 1]) <= key(x) then xs + [x]
    else InsertLast(xs[..|xs| - 1], x, key) + [xs[|xs| - 1]]
  }

  function StableSort<T>(xs: seq<T>, key: T -> int): seq<T> {
    if xs == [] then [] else InsertLast(StableSort(xs[..|xs| - 1], key), xs[|xs| - 1], key)
  }

  lemma {:induction false} InsertLastAdds<T(!new)>(xs: seq<T>, x: T, key: T -> int)
    ensures multiset(InsertLast(xs, x, key)) == multiset(xs) + multiset{x}
  {
    if xs != [] && key(xs[|xs| - 1]) > key(x) {
      InsertLastAdds(xs[..|xs| - 1], x, key);
      assert xs == xs[..|xs| - 1] + [xs[|xs| - 1]];
    }
  }

  lemma {:induction false} InsertLastSorts<T(!new)>(xs: seq<T>, x: T, key: T -> int)
    requires SortedBy(xs, key)
    ensures SortedBy(InsertLast(xs, x, key), key)
  {
    if xs != [] && key(xs[|xs| - 1]) > key(x) {
      var init, last := xs[..|xs| - 1], xs[|xs| - 1];
      InsertLastSorts(init, x, key);
      var rest := InsertLast(init, x, key);
      forall i | 0 <= i < |rest| ensures key(rest[i]) <= key(last) {
        InsertLastAdds(init, x, key);
        assert rest[i] in multiset(rest);
        assert rest[i] == x || rest[i] in init;
      }
    }
  }

  lemma {:induction false} StableSortSorts<T(!new)>(xs: seq<T>, key: T -> int)
    ensures SortedBy(StableSort(xs, key), key)
    ensures multiset(StableSort(xs, key)) == multiset(xs)
  {
    if xs != [] {
      StableSortSorts(xs[..|xs| - 1], key);
      InsertLastSorts(StableSort(xs[..|xs| - 1], key), xs[|xs| - 1], key);
      InsertLastAdds(StableSort(xs[..|xs| - 1], key), xs[|xs| - 1], key);
      hide InsertLast;
      assert xs == xs[..|xs| - 1] + [xs[|xs| - 1]];
    }
  }

  /** Sorting what is in order changes nothing. */
  lemma {:induction false} StableSortOfSorted<T(!new)>(xs: seq<T>, key: T -> int)
    requires SortedBy(xs, key)
    ensures StableSort(xs, key) == xs
  {
    if xs != [] {
      StableSortOfSorted(xs[..|xs| - 1], key);
      assert xs == xs[..|xs| - 1] + [xs[|xs| - 1]];
    }
  }

  // Blocks

  /** `next` runs straight on from `previous`. */
  predicate Continues(previous: Event, next: Event) {
    && !previous.branch && !previous.call && !previous.isReturn && !previous.exceptional
    && previous.size != 0 && next.ip == previous.ip + previous.size
    && !next.blockStart
  }

  type Block = seq<Event>

  function Last<T>(xs: seq<T>): T
    requires xs != []
  {
    xs[|xs| - 1]
  }

  /** One more event, put where the rule says. */
  function Extend(blocks: seq<Block>, e: Event): (r: seq<Block>)
    requires forall i | 0 <= i < |blocks| :: blocks[i] != []
    ensures forall i | 0 <= i < |r| :: r[i] != []
  {
    if blocks != [] && Continues(Last(Last(blocks)), e)
    then blocks[..|blocks| - 1] + [Last(blocks) + [e]]
    else blocks + [[e]]
  }

  /** The blocks of one thread: an event extends the last block if it runs on from it. */
  function Partition(events: seq<Event>): (blocks: seq<Block>)
    ensures forall i | 0 <= i < |blocks| :: blocks[i] != []
  {
    if events == [] then []
    else Extend(Partition(events[..|events| - 1]), Last(events))
  }

  function Flatten(blocks: seq<Block>): seq<Event> {
    if blocks == [] then [] else Flatten(blocks[..|blocks| - 1]) + Last(blocks)
  }

  ghost predicate Straight(block: Block) {
    block != [] && forall i | 0 <= i < |block| - 1 :: Continues(block[i], block[i + 1])
  }

  /** Every block is straight and no two neighbours could be one. */
  ghost predicate MaximalBlocks(blocks: seq<Block>) {
    && (forall i | 0 <= i < |blocks| :: Straight(blocks[i]))
    && (forall i | 0 <= i < |blocks| - 1 :: !Continues(Last(blocks[i]), blocks[i + 1][0]))
  }

  lemma ExtendKeepsEvents(blocks: seq<Block>, e: Event)
    requires forall i | 0 <= i < |blocks| :: blocks[i] != []
    ensures Flatten(Extend(blocks, e)) == Flatten(blocks) + [e]
  {
    var after := Extend(blocks, e);
    if blocks != [] && Continues(Last(Last(blocks)), e) {
      assert after[..|after| - 1] == blocks[..|blocks| - 1];
      assert Flatten(blocks[..|blocks| - 1]) + (Last(blocks) + [e]) == Flatten(blocks[..|blocks| - 1]) + Last(blocks) + [e];
    } else {
      assert after[..|after| - 1] == blocks;
    }
  }

  lemma ExtendKeepsMaximal(blocks: seq<Block>, e: Event)
    requires MaximalBlocks(blocks)
    ensures MaximalBlocks(Extend(blocks, e))
  {
    var after := Extend(blocks, e);
    if blocks != [] && Continues(Last(Last(blocks)), e) {
      assert Straight(Last(blocks));
      assert Straight(Last(blocks) + [e]);
    } else {
      assert Straight([e]);
    }
  }

  /** Main result, first half: the blocks are the events again, cut into maximal straight runs. */
  lemma {:induction false} PartitionIsMaximal(events: seq<Event>)
    ensures Flatten(Partition(events)) == events && MaximalBlocks(Partition(events))
  {
    if events != [] {
      var init := events[..|events| - 1];
      PartitionIsMaximal(init);
      assert Partition(events) == Extend(Partition(init), Last(events));
      hide Partition, Flatten, MaximalBlocks, Extend, Continues;
      ExtendKeepsEvents(Partition(init), Last(events));
      ExtendKeepsMaximal(Partition(init), Last(events));
      assert events == init + [Last(events)];
    }
  }

  /** Main result, second half: there is no other way to cut them so. */
  lemma {:induction false} MaximalBlocksAreUnique(blocks: seq<Block>)
    requires MaximalBlocks(blocks)
    ensures Partition(Flatten(blocks)) == blocks
    decreases |Flatten(blocks)|
  {
    if blocks != [] {
      var blocks', e := WithoutLast(blocks);
      var events := Flatten(blocks);
      hide Flatten, Extend, MaximalBlocks;
      MaximalBlocksAreUnique(blocks');
      assert (Flatten(blocks') + [e])[..|events| - 1] == Flatten(blocks');
      assert Partition(events) == Extend(Partition(Flatten(blocks')), e);
    }
  }

  /** Maximal blocks without their last event, and how to get them back. */
  lemma WithoutLast(blocks: seq<Block>) returns (blocks': seq<Block>, e: Event)
    requires MaximalBlocks(blocks) && blocks != []
    ensures MaximalBlocks(blocks') && Flatten(blocks) == Flatten(blocks') + [e]
    ensures (forall i | 0 <= i < |blocks'| :: blocks'[i] != []) && Extend(blocks', e) == blocks
  {
    var init, last := blocks[..|blocks| - 1], Last(blocks);
    assert Straight(last);
    e := Last(last);
    if |last| == 1 {
      blocks' := init;
      LastBlockIsNew(blocks, e);
    } else {
      blocks' := init + [last[..|last| - 1]];
      LastBlockGrew(blocks, blocks', e);
    }
    hide *;
    ExtendKeepsEvents(blocks', e);
  }

  lemma LastBlockIsNew(blocks: seq<Block>, e: Event)
    requires MaximalBlocks(blocks) && blocks != [] && |Last(blocks)| == 1 && e == Last(Last(blocks))
    ensures var blocks' := blocks[..|blocks| - 1];
            MaximalBlocks(blocks') && (forall i | 0 <= i < |blocks'| :: blocks'[i] != []) && Extend(blocks', e) == blocks
  {
    hide Continues;
    SplitLast(blocks);
    SplitLast(Last(blocks));
    var blocks' := blocks[..|blocks| - 1];
    assert forall i | 0 <= i < |blocks'| :: Straight(blocks'[i]);
  }

  lemma LastBlockGrew(blocks: seq<Block>, blocks': seq<Block>, e: Event)
    requires MaximalBlocks(blocks) && blocks != [] && |Last(blocks)| > 1 && e == Last(Last(blocks))
    requires blocks' == blocks[..|blocks| - 1] + [Last(blocks)[..|Last(blocks)| - 1]]
    ensures MaximalBlocks(blocks') && (forall i | 0 <= i < |blocks'| :: blocks'[i] != []) && Extend(blocks', e) == blocks
  {
    hide Continues;
    var init, last := blocks[..|blocks| - 1], Last(blocks);
    var shorter := last[..|last| - 1];
    SplitLast(blocks);
    SplitLast(last);
    AppendLast(init, shorter);
    assert Straight(last) && Continues(last[|last| - 2], last[|last| - 1]);
    assert Straight(shorter) && Continues(Last(shorter), e);
    assert forall i | 0 <= i < |init| :: Straight(init[i]);
  }

  // The tape of all threads

  function Projection(events: seq<Event>, thread: nat): seq<Event> {
    if events == [] then []
    else Projection(events[..|events| - 1], thread) + (if Last(events).thread == thread then [Last(events)] else [])
  }

  datatype Instance = Instance(thread: nat, events: Block)

  function BlocksOf(instances: seq<Instance>, thread: nat): seq<Block> {
    if instances == [] then []
    else BlocksOf(instances[..|instances| - 1], thread)
         + (if Last(instances).thread == thread then [Last(instances).events] else [])
  }

  lemma BlocksOfAppend(instances: seq<Instance>, x: Instance, t: nat)
    ensures BlocksOf(instances + [x], t) == if x.thread == t then BlocksOf(instances, t) + [x.events] else BlocksOf(instances, t)
  {
    assert (instances + [x])[..|instances|] == instances;
  }

  lemma ProjectionAppend(events: seq<Event>, e: Event, t: nat)
    ensures Projection(events + [e], t) == if e.thread == t then Projection(events, t) + [e] else Projection(events, t)
  {
    assert (events + [e])[..|events|] == events;
  }

  /** The block that a thread is in the middle of. */
  function Current(state: map<nat, Block>, thread: nat): seq<Block> {
    if thread in state && state[thread] != [] then [state[thread]] else []
  }

  function MinOf(s: set<nat>): (m: nat)
    requires s != {}
    ensures m in s && forall x | x in s :: m <= x
  {
    var y :| y in s;
    MinExists(s, y);
    var m :| m in s && forall x | x in s :: m <= x;
    m
  }

  lemma {:induction false} MinExists(s: set<nat>, y: nat)
    requires y in s
    ensures exists m :: m in s && forall x | x in s :: m <= x
  {
    if x :| x in s && x < y {
      MinExists(s, x);
    } else {
      assert forall x | x in s :: y <= x;
    }
  }

  /** A thread that has no current block has none at all. */
  ghost predicate Consistent(instances: seq<Instance>, state: map<nat, Block>, events: seq<Event>, thread: nat) {
    && BlocksOf(instances, thread) + Current(state, thread) == Partition(Projection(events, thread))
    && (if thread in state then state[thread] != [] else BlocksOf(instances, thread) == [])
  }

  /** The block that `e` closes, if it closes one. */
  function Closed(state: map<nat, Block>, e: Event): seq<Instance> {
    var current := Current(state, e.thread);
    if current != [] && !Continues(Last(current[0]), e) then [Instance(e.thread, current[0])] else []
  }

  /** The block that `e` is then the last event of. */
  function Grown(state: map<nat, Block>, e: Event): Block {
    var current := Current(state, e.thread);
    if current != [] && Continues(Last(current[0]), e) then current[0] + [e] else [e]
  }

  /** The blocks closed so far, in the order in which they were closed, and the current block of each thread. */
  datatype Progress = Progress(closed: seq<Instance>, current: map<nat, Block>)

  function After(p: Progress, e: Event): Progress {
    Progress(p.closed + Closed(p.current, e), p.current[e.thread := Grown(p.current, e)])
  }

  function Segmentation(events: seq<Event>): Progress {
    if events == [] then Progress([], map[]) else After(Segmentation(events[..|events| - 1]), Last(events))
  }

  /** The current blocks of the threads in `todo`, by thread number. */
  function Leftover(current: map<nat, Block>, todo: set<nat>): seq<Instance>
    requires todo <= current.Keys
    decreases |todo|
  {
    if todo == {} then []
    else
      var thread := MinOf(todo);
      (if current[thread] != [] then [Instance(thread, current[thread])] else []) + Leftover(current, todo - {thread})
  }

  /** All blocks in the order in which they are closed, those that the end of the tape closes last. */
  function Executed(events: seq<Event>): seq<Instance> {
    var p := Segmentation(events);
    p.closed + Leftover(p.current, p.current.Keys)
  }

  /** The loop over the tape: an event closes a block of its own thread and no other. */
  method Segment(events: seq<Event>) returns (instances: seq<Instance>)
    ensures instances == Executed(events)
    ensures forall t :: BlocksOf(instances, t) == Partition(Projection(events, t))
  {
    instances := [];
    var state: map<nat, Block> := map[];
    for k := 0 to |events|
      invariant Progress(instances, state) == Segmentation(events[..k])
    {
      var e := events[k];
      ghost var before := Progress(instances, state);
      CurrentIsNotEmpty(events[..k], e.thread);
      SegmentationStep(events, k);
      hide Segmentation, Continues;
      var current := if e.thread in state then state[e.thread] else [];
      var startNew := current == [] || !Continues(Last(current), e);
      if startNew {
        if current != [] {
          instances := instances + [Instance(e.thread, current)];
        }
        state := state[e.thread := [e]];
      } else {
        state := state[e.thread := current + [e]];
      }
      assert Progress(instances, state) == After(before, e);
    }
    assert events[..|events|] == events;
    forall t: nat ensures BlocksOf(Executed(events), t) == Partition(Projection(events, t)) {
      ExecutedBlocks(events, t);
    }
    instances := FinishAll(instances, state);
  }

  lemma SegmentationStep(events: seq<Event>, k: nat)
    requires k < |events|
    ensures Segmentation(events[..k + 1]) == After(Segmentation(events[..k]), events[k])
  {
    assert events[..k + 1][..k] == events[..k];
    hide After;
  }

  /** Closed and current blocks of a thread are the partition of what it has executed. */
  lemma {:induction false} SegmentationPartitions(events: seq<Event>, thread: nat)
    ensures Consistent(Segmentation(events).closed, Segmentation(events).current, events, thread)
  {
    if events == [] {
      ConsistentStart(events, thread);
    } else {
      var init, e := LastStep(events);
      hide *;
      SegmentationPartitions(init, thread);
      ConsistentStep(Segmentation(init).closed, Segmentation(init).current, init, thread, e);
    }
  }

  lemma LastStep(events: seq<Event>) returns (init: seq<Event>, e: Event)
    requires events != []
    ensures events == init + [e] && |init| < |events|
    ensures var p := Segmentation(init);
            Segmentation(events) ==
            Progress(p.closed + Closed(p.current, e), p.current[e.thread := Grown(p.current, e)])
  {
    init, e := events[..|events| - 1], Last(events);
    hide Closed, Grown;
  }

  /** Main result: for every thread the executed blocks are the partition of its own events. */
  lemma ExecutedBlocks(events: seq<Event>, thread: nat)
    ensures BlocksOf(Executed(events), thread) == Partition(Projection(events, thread))
  {
    var p := Segmentation(events);
    SegmentationPartitions(events, thread);
    hide Segmentation, Partition, Projection, BlocksOf, Leftover;
    LeftoverBlocks(p.closed, p.current, p.current.Keys, thread);
  }

  lemma ConsistentStart(events: seq<Event>, thread: nat)
    requires events == []
    ensures Consistent([], map[], events, thread)
  {
  }

  lemma CurrentIsNotEmpty(events: seq<Event>, thread: nat)
    ensures thread in Segmentation(events).current ==> Segmentation(events).current[thread] != []
  {
    SegmentationPartitions(events, thread);
    hide Segmentation, BlocksOf, Partition, Projection;
  }

  lemma ConsistentStep(instances: seq<Instance>, state: map<nat, Block>, events: seq<Event>, thread: nat, e: Event)
    requires Consistent(instances, state, events, thread)
    ensures Consistent(instances + Closed(state, e), state[e.thread := Grown(state, e)], events + [e], thread)
  {
    hide Partition, Projection, BlocksOf;
    ProjectionAppend(events, e, thread);
    if Closed(state, e) == [] {
      assert instances + Closed(state, e) == instances;
    } else {
      assert instances + Closed(state, e) == instances + [Closed(state, e)[0]];
      BlocksOfAppend(instances, Closed(state, e)[0], thread);
    }
    if thread == e.thread {
      PartitionStep(BlocksOf(instances, thread), Current(state, thread), Projection(events, thread), e);
    } else {
      assert Current(state[e.thread := Grown(state, e)], thread) == Current(state, thread);
    }
  }

  lemma PartitionStep(done: seq<Block>, current: seq<Block>, events: seq<Event>, e: Event)
    requires done + current == Partition(events) && |current| <= 1 && (current == [] ==> done == [])
    requires current != [] ==> current[0] != []
    ensures Partition(events + [e]) ==
            if current == [] then [[e]]
            else if Continues(Last(current[0]), e) then done + [current[0] + [e]]
            else done + current + [[e]]
  {
    assert (events + [e])[..|events|] == events;
    assert Partition(events + [e]) == Extend(Partition(events), e);
    hide Partition, Continues;
    if current != [] {
      assert done + current == done + [current[0]];
      assert (done + current)[..|done|] == done;
    }
  }

  /** Closing what is left closes the current block of each thread. */
  lemma {:induction false} LeftoverBlocks(closed: seq<Instance>, current: map<nat, Block>, todo: set<nat>, thread: nat)
    requires todo <= current.Keys
    ensures BlocksOf(closed + Leftover(current, todo), thread)
         == BlocksOf(closed, thread) + (if thread in todo then Current(current, thread) else [])
    decreases |todo|
  {
    if todo == {} {
      assert closed + Leftover(current, todo) == closed;
    } else {
      var next, first := LeftoverStep(current, todo);
      hide *;
      LeftoverBlocks(closed + first, current, todo - {next}, thread);
      Regroup(closed, first, Leftover(current, todo - {next}));
      BlocksOfOne(closed, current, next, first, thread);
      Regroup(BlocksOf(closed, thread), if next == thread then Current(current, thread) else [],
              if thread in todo - {next} then Current(current, thread) else []);
    }
  }

  lemma LeftoverStep(current: map<nat, Block>, todo: set<nat>) returns (next: nat, first: seq<Instance>)
    requires {} < todo <= current.Keys
    ensures next in todo && Leftover(current, todo) == first + Leftover(current, todo - {next})
    ensures first == if current[next] != [] then [Instance(next, current[next])] else []
  {
    next := MinOf(todo);
    first := if current[next] != [] then [Instance(next, current[next])] else [];
    hide MinOf;
  }

  /** Closing the current block of `next`. */
  lemma BlocksOfOne(closed: seq<Instance>, current: map<nat, Block>, next: nat, first: seq<Instance>, thread: nat)
    requires next in current && first == if current[next] != [] then [Instance(next, current[next])] else []
    ensures BlocksOf(closed + first, thread)
         == BlocksOf(closed, thread) + (if next == thread then Current(current, thread) else [])
  {
    hide BlocksOf;
    if first != [] {
      BlocksOfAppend(closed, Instance(next, current[next]), thread);
    } else {
      assert closed + first == closed;
    }
  }

  /** The loop that closes the last block of every thread, in the order of the threads. */
  method FinishAll(instances0: seq<Instance>, state: map<nat, Block>) returns (instances: seq<Instance>)
    ensures instances == instances0 + Leftover(state, state.Keys)
  {
    instances := instances0;
    var todo := state.Keys;
    while todo != {}
      invariant todo <= state.Keys && instances + Leftover(state, todo) == instances0 + Leftover(state, state.Keys)
      decreases |todo|
    {
      var thread := MinOf(todo);
      ghost var first := if state[thread] != [] then [Instance(thread, state[thread])] else [];
      assert Leftover(state, todo) == first + Leftover(state, todo - {thread});
      hide Leftover, MinOf;
      Regroup(instances, first, Leftover(state, todo - {thread}));
      if state[thread] != [] {
        instances := instances + [Instance(thread, state[thread])];
      } else {
        assert instances + first == instances;
      }
      todo := todo - {thread};
    }
  }
}

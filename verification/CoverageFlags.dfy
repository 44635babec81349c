/** The `indirect` flag of an edge: which interleavings of the same threads can change it. */
module CoverageFlags {
  import opened Options
  import opened CoverageBlocks
  import opened CoverageGraph
  import opened Folds
  import opened Sequences

  function FlagOf(crossings: seq<Crossing>, key: EdgeKey): Option<bool> {
    var edges := Fold(AddEdge, map[], crossings);
    if key in edges then Some(edges[key].indirect) else None
  }

  function OrElse(first: Option<bool>, second: Option<bool>): Option<bool> {
    if first.Some? then first else second
  }

  lemma FlagStep(crossings: seq<Crossing>, x: Crossing, key: EdgeKey)
    ensures FlagOf(crossings + [x], key) == OrElse(FlagOf(crossings, key), if x.key == key then Some(x.indirect) else None)
  {
    FoldAppend(AddEdge, map[], crossings, x);
    hide Fold;
  }

  /** Transitions that come later cannot change a flag. */
  lemma {:induction false} FlagOfConcat(xs: seq<Crossing>, ys: seq<Crossing>, key: EdgeKey)
    ensures FlagOf(xs + ys, key) == OrElse(FlagOf(xs, key), FlagOf(ys, key))
  {
    if ys == [] {
      assert xs + ys == xs;
    } else {
      var init, y := ys[..|ys| - 1], Last(ys);
      FlagOfConcat(xs, init, key);
      FlagStep(xs + init, y, key);
      FlagStep(init, y, key);
      assert xs + ys == xs + init + [y] && ys == init + [y];
      hide FlagOf;
    }
  }

  /** The flag is that of the first transition with the key. */
  lemma {:induction false} FlagIsFirst(crossings: seq<Crossing>, key: EdgeKey) returns (first: int)
    ensures if FlagOf(crossings, key).Some?
            then 0 <= first < |crossings| && crossings[first].key == key
                 && FlagOf(crossings, key) == Some(crossings[first].indirect)
                 && forall j | 0 <= j < first :: crossings[j].key != key
            else forall i | 0 <= i < |crossings| :: crossings[i].key != key
  {
    first := -1;
    if crossings != [] {
      var init, x := crossings[..|crossings| - 1], Last(crossings);
      first := FlagIsFirst(init, key);
      FlagStep(init, x, key);
      assert crossings == init + [x];
      if FlagOf(init, key).None? {
        first := |init|;
      } else {
        assert crossings[first] == init[first];
      }
    }
  }

  // One thread after another

  /** The flag that the transitions of one thread alone would give. */
  function FlagIn(fp: Fingerprint, sights: seq<Sight>, instances: seq<Instance>, t: nat, key: EdgeKey): Option<bool>
    requires Whole(instances)
  {
    FlagOf(CrossingsOf(fp, sights, SortedBlocks(instances, t)), key)
  }

  function FlagAlong(fp: Fingerprint, sights: seq<Sight>, instances: seq<Instance>, order: seq<nat>, key: EdgeKey): Option<bool>
    requires Whole(instances)
  {
    FlagOf(AllCrossings(fp, sights, instances, order), key)
  }

  lemma FlagAlongStep(fp: Fingerprint, sights: seq<Sight>, instances: seq<Instance>, order: seq<nat>, key: EdgeKey)
    requires Whole(instances) && order != []
    ensures FlagAlong(fp, sights, instances, order, key) ==
            OrElse(FlagAlong(fp, sights, instances, order[..|order| - 1], key),
                   FlagIn(fp, sights, instances, Last(order), key))
  {
    FlagOfConcat(AllCrossings(fp, sights, instances, order[..|order| - 1]),
                 CrossingsOf(fp, sights, SortedBlocks(instances, Last(order))), key);
    hide FlagOf, CrossingsOf, SortedBlocks;
  }

  lemma {:induction false} FlagFromSomeThread(fp: Fingerprint, sights: seq<Sight>, instances: seq<Instance>,
                                              order: seq<nat>, key: EdgeKey)
    requires Whole(instances)
    ensures if FlagAlong(fp, sights, instances, order, key).Some?
            then exists t :: t in order && FlagIn(fp, sights, instances, t, key) == FlagAlong(fp, sights, instances, order, key)
            else forall t | t in order :: FlagIn(fp, sights, instances, t, key).None?
  {
    hide *;
    if order == [] {
      NoThreads(fp, sights, instances, order, key);
    } else {
      var init, last := order[..|order| - 1], order[|order| - 1];
      FlagFromSomeThread(fp, sights, instances, init, key);
      FlagAlongLast(fp, sights, instances, order, key);
      assert order == init + [last];
      assert last in order;
    }
  }

  lemma NoThreads(fp: Fingerprint, sights: seq<Sight>, instances: seq<Instance>, order: seq<nat>, key: EdgeKey)
    requires Whole(instances) && order == []
    ensures FlagAlong(fp, sights, instances, order, key).None?
  {
  }

  lemma FlagAlongLast(fp: Fingerprint, sights: seq<Sight>, instances: seq<Instance>, order: seq<nat>, key: EdgeKey)
    requires Whole(instances) && order != []
    ensures var before := FlagAlong(fp, sights, instances, order[..|order| - 1], key);
            FlagAlong(fp, sights, instances, order, key) ==
            if before.Some? then before else FlagIn(fp, sights, instances, order[|order| - 1], key)
  {
    FlagAlongStep(fp, sights, instances, order, key);
    hide FlagAlong, FlagIn;
  }

  lemma {:induction false} FirstThreadDecides(fp: Fingerprint, sights: seq<Sight>, instances: seq<Instance>,
                                              order: seq<nat>, key: EdgeKey)
    requires Whole(instances) && order != [] && FlagIn(fp, sights, instances, order[0], key).Some?
    ensures FlagAlong(fp, sights, instances, order, key) == FlagIn(fp, sights, instances, order[0], key)
  {
    hide *;
    FlagAlongLast(fp, sights, instances, order, key);
    if |order| == 1 {
      NoThreads(fp, sights, instances, order[..0], key);
    } else {
      FirstThreadDecides(fp, sights, instances, order[..|order| - 1], key);
    }
  }

  ghost predicate ThreadsAgree(fp: Fingerprint, sights: seq<Sight>, instances: seq<Instance>, order: seq<nat>, key: EdgeKey)
    requires Whole(instances)
  {
    forall t, u | t in order && u in order
                  && FlagIn(fp, sights, instances, t, key).Some? && FlagIn(fp, sights, instances, u, key).Some? ::
      FlagIn(fp, sights, instances, t, key) == FlagIn(fp, sights, instances, u, key)
  }

  /** The flag is the same in whatever order the threads come exactly when all threads that have the edge would give
      it the same flag, each with its first transition over it. */
  lemma FlagIsSettledExactlyWhen(fp: Fingerprint, sights: seq<Sight>, instances: seq<Instance>, order: seq<nat>, key: EdgeKey)
    requires Whole(instances)
    ensures (forall other: seq<nat> | multiset(other) == multiset(order) ::
               FlagAlong(fp, sights, instances, other, key) == FlagAlong(fp, sights, instances, order, key))
            <==> ThreadsAgree(fp, sights, instances, order, key)
  {
    hide FlagAlong, FlagIn;
    if ThreadsAgree(fp, sights, instances, order, key) {
      forall other: seq<nat> | multiset(other) == multiset(order)
        ensures FlagAlong(fp, sights, instances, other, key) == FlagAlong(fp, sights, instances, order, key)
      {
        SameMembers(order, other);
        FlagFromSomeThread(fp, sights, instances, order, key);
        FlagFromSomeThread(fp, sights, instances, other, key);
      }
    } else {
      var t, u :| t in order && u in order
                  && FlagIn(fp, sights, instances, t, key).Some? && FlagIn(fp, sights, instances, u, key).Some?
                  && FlagIn(fp, sights, instances, t, key) != FlagIn(fp, sights, instances, u, key);
      var tFirst := PutFirst(order, t);
      var uFirst := PutFirst(order, u);
      FirstThreadDecides(fp, sights, instances, tFirst, key);
      FirstThreadDecides(fp, sights, instances, uFirst, key);
    }
  }

  lemma PutFirst(order: seq<nat>, t: nat) returns (r: seq<nat>)
    requires t in order
    ensures multiset(r) == multiset(order) && r != [] && r[0] == t
  {
    var i :| 0 <= i < |order| && order[i] == t;
    WithoutAt(order, i);
    r := [t] + (order[..i] + order[i + 1..]);
  }
}

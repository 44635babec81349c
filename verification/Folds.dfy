/** Loops that accumulate, and when the order of what they read does not matter. */
module Folds {

  function Fold<S, X>(step: (S, X) -> S, start: S, xs: seq<X>): S {
    if xs == [] then start else step(Fold(step, start, xs[..|xs| - 1]), xs[|xs| - 1])
  }

  ghost predicate Commutes<S(!new), X(!new)>(step: (S, X) -> S) {
    forall s, a, b :: step(step(s, a), b) == step(step(s, b), a)
  }

  lemma FoldNothing<S, X>(step: (S, X) -> S, start: S, xs: seq<X>)
    requires xs == []
    ensures Fold(step, start, xs) == start
  {
  }

  lemma FoldAppend<S, X>(step: (S, X) -> S, start: S, xs: seq<X>, x: X)
    ensures Fold(step, start, xs + [x]) == step(Fold(step, start, xs), x)
  {
    assert (xs + [x])[..|xs|] == xs;
  }

  /** Any element can be taken last. */
  lemma {:induction false} FoldTakesLast<S(!new), X(!new)>(step: (S, X) -> S, start: S, xs: seq<X>, i: nat)
    requires Commutes(step) && i < |xs|
    ensures Fold(step, start, xs) == step(Fold(step, start, xs[..i] + xs[i + 1..]), xs[i])
  {
    var init, last := xs[..|xs| - 1], xs[|xs| - 1];
    assert xs == init + [last];
    if i == |xs| - 1 {
      assert xs[..i] + xs[i + 1..] == init;
    } else {
      FoldTakesLast(step, start, init, i);
      var without := init[..i] + init[i + 1..];
      assert xs[..i] + xs[i + 1..] == without + [last];
      FoldAppend(step, start, without, last);
    }
  }

  lemma {:induction false} FoldConcat<S, X>(step: (S, X) -> S, start: S, xs: seq<X>, ys: seq<X>)
    ensures Fold(step, start, xs + ys) == Fold(step, Fold(step, start, xs), ys)
  {
    if ys == [] {
      assert xs + ys == xs;
    } else {
      var init, last := ys[..|ys| - 1], ys[|ys| - 1];
      FoldConcat(step, start, xs, init);
      assert xs + ys == (xs + init) + [last];
      FoldAppend(step, start, xs + init, last);
    }
  }

  lemma WithoutAt<X>(xs: seq<X>, i: nat)
    requires i < |xs|
    ensures multiset(xs) == multiset(xs[..i] + xs[i + 1..]) + multiset{xs[i]}
  {
    assert xs == xs[..i] + ([xs[i]] + xs[i + 1..]);
  }

  /** A loop whose steps commute gives the same result for the same elements in any order. */
  lemma {:induction false} FoldIgnoresOrder<S(!new), X(!new)>(step: (S, X) -> S, start: S, xs: seq<X>, ys: seq<X>)
    requires Commutes(step) && multiset(xs) == multiset(ys)
    ensures Fold(step, start, xs) == Fold(step, start, ys)
    decreases |ys|
  {
    if ys == [] {
      assert |multiset(xs)| == 0;
    } else {
      var init, last := ys[..|ys| - 1], ys[|ys| - 1];
      assert ys == init + [last];
      assert last in multiset(xs);
      var i :| 0 <= i < |xs| && xs[i] == last;
      var without := xs[..i] + xs[i + 1..];
      WithoutAt(xs, i);
      assert multiset(without) == multiset(xs) - multiset{last};
      assert multiset(init) == multiset(ys) - multiset{last};
      FoldIgnoresOrder(step, start, without, init);
      FoldTakesLast(step, start, xs, i);
    }
  }

  // Sums over the values of a map

  ghost function Total<K>(m: map<K, nat>): nat
    decreases |m|
  {
    if m == map[] then 0
    else
      var k :| k in m;
      m[k] + Total(m - {k})
  }

  /** The sum does not depend on the key that is taken first. */
  lemma {:induction false} TotalWithout<K>(m: map<K, nat>, k: K)
    requires k in m
    ensures Total(m) == m[k] + Total(m - {k})
    decreases |m|
  {
    var first :| first in m && Total(m) == m[first] + Total(m - {first});
    if first != k {
      TotalWithout(m - {first}, k);
      TotalWithout(m - {k}, first);
      assert m - {first} - {k} == m - {k} - {first};
    }
  }

  lemma TotalUpdate<K>(m: map<K, nat>, k: K, v: nat)
    ensures Total(m[k := v]) == Total(m) - (if k in m then m[k] else 0) + v
  {
    TotalWithout(m[k := v], k);
    if k in m {
      TotalWithout(m, k);
      assert m[k := v] - {k} == m - {k};
    } else {
      assert m[k := v] - {k} == m;
    }
  }
}

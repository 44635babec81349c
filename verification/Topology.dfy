/** Ordering fixtures so that what a fixture depends on comes before it. */
module Topology {
  import opened Options
  import opened Sequences

  datatype Fixture = Fixture(id: string, dependencies: seq<string>)

  type Graph = map<string, seq<string>>

  datatype Error = Cycle(id: string) | Unknown(id: string, dependency: string)

  datatype Result = Ok(ordered: seq<string>) | Err(error: Error)

  /** The dependencies of each id; of two fixtures with one id the later counts. */
  function ById(fixtures: seq<Fixture>): Graph {
    if fixtures == [] then map[]
    else
      var last := fixtures[|fixtures| - 1];
      ById(fixtures[..|fixtures| - 1])[last.id := last.dependencies]
  }

  // What the order is for

  predicate Edge(g: Graph, x: string, y: string) {
    x in g && y in g[x]
  }

  /** Each element depends on the next. */
  predicate Chain(g: Graph, path: seq<string>) {
    forall k | 0 <= k < |path| - 1 :: Edge(g, path[k], path[k + 1])
  }

  predicate IsCycle(g: Graph, cycle: seq<string>) {
    |cycle| > 1 && cycle[0] == cycle[|cycle| - 1] && Chain(g, cycle)
  }

  ghost predicate Acyclic(g: Graph) {
    forall cycle :: !IsCycle(g, cycle)
  }

  ghost predicate Closed(g: Graph) {
    forall x, y :: Edge(g, x, y) ==> y in g
  }

  predicate DependenciesAmong(g: Graph, x: string, earlier: seq<string>) {
    x in g && forall d | d in g[x] :: d in earlier
  }

  /** Whatever an element depends on comes before it. */
  predicate DependenciesFirst(g: Graph, ordered: seq<string>) {
    forall i | 0 <= i < |ordered| :: DependenciesAmong(g, ordered[i], ordered[..i])
  }

  // What the search keeps

  /** The ids marked 1 are those on the path, the ids marked 2 are those in the list. */
  ghost predicate Consistent(g: Graph, state: map<string, int>, ordered: seq<string>, path: seq<string>) {
    && (forall x | x in state :: x in g && (state[x] == 1 || state[x] == 2))
    && (forall x :: x in path <==> x in state && state[x] == 1)
    && (forall x :: x in ordered <==> x in state && state[x] == 2)
    && Chain(g, path) && Distinct(ordered) && DependenciesFirst(g, ordered)
  }

  lemma Enter(g: Graph, state: map<string, int>, ordered: seq<string>, path: seq<string>, id: string)
    requires Consistent(g, state, ordered, path) && id in g && id !in state
    requires path != [] ==> Edge(g, path[|path| - 1], id)
    ensures Consistent(g, state[id := 1], ordered, path + [id])
  {
    hide DependenciesFirst, Distinct, Edge;
    var path' := path + [id];
    forall k | 0 <= k < |path'| - 1 ensures Edge(g, path'[k], path'[k + 1]) {
      if k < |path| - 1 {
        assert Edge(g, path[k], path[k + 1]);
      }
    }
    assert forall x :: x in path' <==> x in path || x == id;
  }

  lemma Leave(g: Graph, state: map<string, int>, ordered: seq<string>, path: seq<string>, id: string)
    requires Consistent(g, state, ordered, path + [id]) && DependenciesAmong(g, id, ordered) && id !in path
    ensures Consistent(g, state[id := 2], ordered + [id], path)
  {
    hide Edge, DependenciesAmong;
    var path', ordered' := path + [id], ordered + [id];
    assert path'[|path|] == id;
    assert forall x :: x in path' <==> x in path || x == id;
    assert forall x :: x in ordered' <==> x in ordered || x == id;
    forall k | 0 <= k < |path| - 1 ensures Edge(g, path[k], path[k + 1]) {
      assert Edge(g, path'[k], path'[k + 1]);
    }
    forall i | 0 <= i < |ordered'| ensures DependenciesAmong(g, ordered'[i], ordered'[..i]) {
      if i < |ordered| {
        assert ordered'[..i] == ordered[..i];
      } else {
        assert ordered'[..i] == ordered;
      }
    }
  }

  /** A path that comes back to one of its elements closes a cycle. */
  lemma BackEdge(g: Graph, path: seq<string>, id: string) returns (cycle: seq<string>)
    requires Chain(g, path) && id in path && Edge(g, path[|path| - 1], id)
    ensures IsCycle(g, cycle) && cycle[0] == id
  {
    var k :| 0 <= k < |path| && path[k] == id;
    cycle := path[k..] + [id];
    hide Edge;
    forall i | 0 <= i < |cycle| - 1 ensures Edge(g, cycle[i], cycle[i + 1]) {
      if i < |cycle| - 2 {
        assert Edge(g, path[k + i], path[k + i + 1]);
      }
    }
  }

  lemma OnPath(g: Graph, state: map<string, int>, ordered: seq<string>, path: seq<string>, id: string)
    requires Consistent(g, state, ordered, path) && id in state && state[id] == 1
    ensures id in path && Chain(g, path)
  {
    hide DependenciesFirst, Distinct, Chain;
  }

  lemma Listed(g: Graph, state: map<string, int>, ordered: seq<string>, path: seq<string>, id: string)
    requires Consistent(g, state, ordered, path) && id in state && state[id] == 2
    ensures id in ordered
  {
    hide DependenciesFirst, Distinct, Chain;
  }

  lemma Unmarked(g: Graph, state: map<string, int>, ordered: seq<string>, path: seq<string>, id: string)
    requires Consistent(g, state, ordered, path) && (id in state ==> state[id] != 1 && state[id] != 2)
    ensures id !in state && id !in path
  {
    hide DependenciesFirst, Distinct, Chain;
  }

  /** An error names what is wrong with the graph. */
  ghost predicate Justified(g: Graph, error: Error) {
    match error
    case Cycle(id) => exists cycle :: IsCycle(g, cycle) && cycle[0] == id
    case Unknown(id, dependency) => Edge(g, id, dependency) && dependency !in g
  }

  class Search {
    const byId: Graph
    var state: map<string, int>
    var ordered: seq<string>

    constructor (g: Graph)
      ensures byId == g && state == map[] && ordered == []
    {
      byId, state, ordered := g, map[], [];
    }

    method Visit(id: string, ghost path: seq<string>) returns (error: Option<Error>)
      requires Consistent(byId, state, ordered, path) && id in byId
      requires path != [] ==> Edge(byId, path[|path| - 1], id)
      modifies this
      ensures error.Some? ==> Justified(byId, error.value)
      ensures error.None? ==> Consistent(byId, state, ordered, path) && id in ordered
                              && old(state).Keys <= state.Keys && old(ordered) <= ordered
      decreases byId.Keys - state.Keys
    {
      hide Consistent;
      var marker := if id in state then state[id] else 0;
      if marker == 1 {
        OnPath(byId, state, ordered, path, id);
        ghost var cycle := BackEdge(byId, path, id);
        return Some(Cycle(id));
      }
      if marker == 2 {
        Listed(byId, state, ordered, path, id);
        return None;
      }
      Unmarked(byId, state, ordered, path, id);
      Enter(byId, state, ordered, path, id);
      ghost var keys := byId.Keys - state.Keys;
      state := state[id := 1];
      var dependencies := byId[id];
      for i := 0 to |dependencies|
        invariant Consistent(byId, state, ordered, path + [id])
        invariant id in state && old(state).Keys <= state.Keys && old(ordered) <= ordered
        invariant forall j | 0 <= j < i :: dependencies[j] in ordered
      {
        var dependency := dependencies[i];
        if dependency !in byId {
          assert Edge(byId, id, dependency);
          return Some(Unknown(id, dependency));
        }
        assert id in keys && id !in byId.Keys - state.Keys;
        ghost var seen := ordered;
        error := Visit(dependency, path + [id]);
        if error.Some? {
          return;
        }
        assert forall j | 0 <= j < i :: dependencies[j] in seen;
      }
      Leave(byId, state, ordered, path, id);
      state := state[id := 2];
      ordered := ordered + [id];
      return None;
    }
  }

  // The whole order

  method TopologicalIds(fixtures: seq<Fixture>) returns (r: Result)
    ensures r.Ok? <==> Closed(ById(fixtures)) && Acyclic(ById(fixtures))
    ensures r.Ok? ==> Distinct(r.ordered) && DependenciesFirst(ById(fixtures), r.ordered)
                      && forall x :: x in r.ordered <==> x in ById(fixtures)
    ensures r.Err? ==> Justified(ById(fixtures), r.error)
  {
    var byId := IndexById(fixtures);
    var search := new Search(byId);
    for i := 0 to |fixtures|
      invariant search.byId == byId && Consistent(byId, search.state, search.ordered, [])
      invariant forall j | 0 <= j < i :: fixtures[j].id in search.ordered
    {
      hide Consistent;
      IdsAreKeys(fixtures, i);
      ghost var seen := search.ordered;
      var error := search.Visit(fixtures[i].id, []);
      if error.Some? {
        JustifiedMeansBad(byId, error.value);
        return Err(error.value);
      }
      assert forall j | 0 <= j < i :: fixtures[j].id in seen;
    }
    forall x ensures x in search.ordered <==> x in byId {
      KeysAreIds(fixtures, x);
    }
    OrderedMeansGood(byId, search.ordered);
    return Ok(search.ordered);
  }

  method IndexById(fixtures: seq<Fixture>) returns (byId: Graph)
    ensures byId == ById(fixtures)
  {
    byId := map[];
    for i := 0 to |fixtures|
      invariant byId == ById(fixtures[..i])
    {
      assert fixtures[..i + 1][..i] == fixtures[..i];
      byId := byId[fixtures[i].id := fixtures[i].dependencies];
    }
    assert fixtures[..|fixtures|] == fixtures;
  }

  lemma {:induction false} IdsAreKeys(fixtures: seq<Fixture>, i: nat)
    requires i < |fixtures|
    ensures fixtures[i].id in ById(fixtures)
  {
    if i < |fixtures| - 1 {
      IdsAreKeys(fixtures[..|fixtures| - 1], i);
    }
  }

  lemma {:induction false} KeysAreIds(fixtures: seq<Fixture>, x: string)
    ensures x in ById(fixtures) ==> exists i :: 0 <= i < |fixtures| && fixtures[i].id == x
  {
    if fixtures != [] {
      KeysAreIds(fixtures[..|fixtures| - 1], x);
    }
  }

  lemma JustifiedMeansBad(g: Graph, error: Error)
    requires Justified(g, error)
    ensures !(Closed(g) && Acyclic(g))
  {
  }

  /** Main result: a list of everything with dependencies first exists only for a closed graph without cycles. */
  lemma OrderedMeansGood(g: Graph, ordered: seq<string>)
    requires DependenciesFirst(g, ordered) && Distinct(ordered) && forall x :: x in ordered <==> x in g
    ensures Closed(g) && Acyclic(g)
  {
    forall x, y | Edge(g, x, y) ensures y in g {
      var i :| 0 <= i < |ordered| && ordered[i] == x;
      assert DependenciesAmong(g, ordered[i], ordered[..i]);
      assert y in ordered[..i];
    }
    forall cycle | IsCycle(g, cycle) ensures false {
      assert Edge(g, cycle[0], cycle[1]);
      var first :| 0 <= first < |ordered| && ordered[first] == cycle[0];
      var last := Descend(g, ordered, cycle, |cycle| - 1, first);
      assert false;
    }
  }

  /** Along a chain the places in the list go down. */
  lemma {:induction false} Descend(g: Graph, ordered: seq<string>, path: seq<string>, k: nat, first: nat) returns (place: nat)
    requires DependenciesFirst(g, ordered) && Chain(g, path) && k < |path| && first < |ordered| && ordered[first] == path[0]
    ensures place < |ordered| && ordered[place] == path[k] && place <= first - k
    decreases k
  {
    if k == 0 {
      place := first;
    } else {
      var before := Descend(g, ordered, path, k - 1, first);
      assert Edge(g, path[k - 1], path[k - 1 + 1]);
      assert DependenciesAmong(g, ordered[before], ordered[..before]);
      assert path[k] in ordered[..before];
      place :| 0 <= place < before && ordered[..before][place] == path[k];
    }
  }
}

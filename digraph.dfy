/**
 * The hypernym digraph: a fixed number of vertices with one adjacency list
 * each, and the rooted-DAG shape the ontology demands of it.
 */
module Digraphs {

  /** Adjacency lists: `g[v]` holds the heads of the edges leaving `v`. */
  type Adjacency = seq<seq<int>>

  /** The digraph the ontology builds; `AddEdge` appends to one list. */
  class Digraph {
    var adj: Adjacency

    constructor (v: nat)
      ensures |adj| == v
      ensures forall u :: 0 <= u < v ==> adj[u] == []
    {
      adj := seq(v, _ => []);
    }

    function V(): nat
      reads this
    {
      |adj|
    }

    function Outdegree(v: int): nat
      reads this
      requires 0 <= v < |adj|
    {
      |adj[v]|
    }

    method AddEdge(v: int, w: int)
      requires 0 <= v < |adj| && 0 <= w < |adj|
      modifies this
      ensures adj == old(adj)[v := old(adj)[v] + [w]]
    {
      adj := adj[v := adj[v] + [w]];
    }
  }

  /** Every edge of `g` ends at a vertex of `g`. */
  predicate Closed(g: Adjacency) {
    forall v, w :: 0 <= v < |g| && w in g[v] ==> 0 <= w < |g|
  }

  /** `p` is a walk along the edges of `g` (one vertex at least). */
  ghost predicate IsWalk(g: Adjacency, p: seq<int>) {
    |p| >= 1 &&
    (forall i :: 0 <= i < |p| ==> 0 <= p[i] < |g|) &&
    (forall i :: 0 <= i < |p| - 1 ==> p[i + 1] in g[p[i]])
  }

  /** A directed cycle: a walk of at least one edge that returns to its start. */
  ghost predicate IsCycle(g: Adjacency, p: seq<int>) {
    IsWalk(g, p) && |p| >= 2 && p[0] == p[|p| - 1]
  }

  ghost predicate HasCycle(g: Adjacency) {
    exists p :: IsCycle(g, p)
  }

  /** A cycle detector agrees with `HasCycle` on every digraph. */
  ghost predicate DecidesCycles(detector: Adjacency -> bool) {
    forall g :: detector(g) == HasCycle(g)
  }

  /** The vertices below `n` with outdegree 0. */
  function RootsBelow(g: Adjacency, n: nat): set<int>
    requires n <= |g|
  {
    set v | 0 <= v < n && g[v] == []
  }

  /** The vertices with outdegree 0. */
  function Roots(g: Adjacency): set<int> {
    RootsBelow(g, |g|)
  }

  /** The shape the ontology accepts: no directed cycle and exactly one vertex of outdegree 0. */
  ghost predicate IsRootedDag(g: Adjacency) {
    !HasCycle(g) && |Roots(g)| == 1
  }

  /** An edge from a vertex to itself is a directed cycle. */
  lemma {:induction false} SelfLoopIsCycle(g: Adjacency, v: int)
    requires 0 <= v < |g| && v in g[v]
    ensures HasCycle(g)
  {
    assert IsCycle(g, [v, v]);
  }

  /** Along a walk on which every edge lowers `rank`, the rank drops by one per edge at least. */
  lemma {:induction false} WalkDescends(g: Adjacency, rank: int -> int, p: seq<int>)
    requires forall v, w :: 0 <= v < |g| && w in g[v] ==> rank(w) < rank(v)
    requires IsWalk(g, p)
    ensures rank(p[|p| - 1]) <= rank(p[0]) - (|p| - 1)
    decreases |p|
  {
    if |p| > 1 {
      var init := p[..|p| - 1];
      assert IsWalk(g, init);
      WalkDescends(g, rank, init);
      assert p[|p| - 1] in g[p[|p| - 2]];
    }
  }

  /** A digraph with a ranking that every edge lowers has no directed cycle. */
  lemma {:induction false} RankedIsAcyclic(g: Adjacency, rank: int -> int)
    requires forall v, w :: 0 <= v < |g| && w in g[v] ==> rank(w) < rank(v)
    ensures !HasCycle(g)
  {
    if HasCycle(g) {
      var p :| IsCycle(g, p);
      WalkDescends(g, rank, p);
    }
  }

  /** "Exactly one vertex has outdegree 0", spelled out. */
  lemma {:induction false} SingleRoot(g: Adjacency)
    ensures |Roots(g)| == 1 <==>
      exists r :: 0 <= r < |g| && g[r] == [] && forall v :: 0 <= v < |g| && g[v] == [] ==> v == r
  {
    if |Roots(g)| == 1 {
      var r :| r in Roots(g);
      forall v | 0 <= v < |g| && g[v] == []
        ensures v == r
      {
        assert |Roots(g) - {r}| == 0;
        assert v in Roots(g);
      }
    }
    if exists r :: 0 <= r < |g| && g[r] == [] && forall v :: 0 <= v < |g| && g[v] == [] ==> v == r {
      var r :| 0 <= r < |g| && g[r] == [] && forall v :: 0 <= v < |g| && g[v] == [] ==> v == r;
      assert Roots(g) == {r};
    }
  }
}

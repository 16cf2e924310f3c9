/**
 * How the hypernym records become edges. A record is the list of integer
 * fields of one line: the child synset first, then its hypernyms.
 */
module Hypernyms {
  import opened Digraphs

  /** Every field of every record that adds edges names one of the `n` vertices. */
  predicate EdgesInRange(n: nat, hyps: seq<seq<int>>) {
    forall r :: r in hyps && |r| >= 2 ==> forall f :: f in r ==> 0 <= f < n
  }

  /** The effect of one record: none if it has fewer than two fields, otherwise
      the edges `r[0] -> r[i]` for `i` in `1..|r|-1`, appended in that order. */
  function AddRecord(g: Adjacency, r: seq<int>): Adjacency
    requires |r| >= 2 ==> 0 <= r[0] < |g|
  {
    if |r| < 2 then g else g[r[0] := g[r[0]] + r[1..]]
  }

  /** The digraph on `n` vertices after all records are read in order. */
  function HypernymGraph(n: nat, hyps: seq<seq<int>>): (g: Adjacency)
    requires EdgesInRange(n, hyps)
    ensures |g| == n && Closed(g)
    decreases |hyps|
  {
    if hyps == [] then seq(n, _ => [])
    else
      var prev := HypernymGraph(n, hyps[..|hyps| - 1]);
      var r := hyps[|hyps| - 1];
      assert |r| >= 2 ==> r[0] in r && forall f :: f in r[1..] ==> f in r;
      AddRecord(prev, r)
  }

  /** The hypernyms recorded for `u`: the tails of the records whose child is `u`
      and that have two fields or more, in the order the records come. */
  function ParentsOf(hyps: seq<seq<int>>, u: int): seq<int>
    decreases |hyps|
  {
    if hyps == [] then []
    else
      var r := hyps[|hyps| - 1];
      ParentsOf(hyps[..|hyps| - 1], u) + (if |r| >= 2 && r[0] == u then r[1..] else [])
  }

  /** The adjacency list of `u` is exactly the hypernyms recorded for `u`. */
  lemma {:induction false} HypernymGraphParents(n: nat, hyps: seq<seq<int>>, u: int)
    requires EdgesInRange(n, hyps) && 0 <= u < n
    ensures HypernymGraph(n, hyps)[u] == ParentsOf(hyps, u)
    decreases |hyps|
  {
    if hyps != [] {
      HypernymGraphParents(n, hyps[..|hyps| - 1], u);
    }
  }

  /** `u -> w` is an edge exactly when some record with two fields or more has
      child `u` and lists `w` among its hypernyms. */
  lemma {:induction false} ParentsOfMembers(hyps: seq<seq<int>>, u: int, w: int)
    ensures w in ParentsOf(hyps, u) <==>
      exists r :: r in hyps && |r| >= 2 && r[0] == u && w in r[1..]
    decreases |hyps|
  {
    if hyps != [] {
      var init, r := hyps[..|hyps| - 1], hyps[|hyps| - 1];
      ParentsOfMembers(init, u, w);
      assert hyps == init + [r];
      if w in ParentsOf(hyps, u) && w !in ParentsOf(init, u) {
        assert r in hyps;
      }
    }
  }

  /** A vertex has outdegree 0 exactly when no record with two fields or more names it as child. */
  lemma {:induction false} RootCandidate(n: nat, hyps: seq<seq<int>>, u: int)
    requires EdgesInRange(n, hyps) && 0 <= u < n
    ensures HypernymGraph(n, hyps)[u] == [] <==> forall r :: r in hyps && |r| >= 2 ==> r[0] != u
  {
    HypernymGraphParents(n, hyps, u);
    var g := HypernymGraph(n, hyps);
    if g[u] != [] {
      ParentsOfMembers(hyps, u, g[u][0]);
    } else {
      forall r | r in hyps && |r| >= 2
        ensures r[0] != u
      {
        assert r[1] in r[1..];
        ParentsOfMembers(hyps, u, r[1]);
      }
    }
  }

  /** A record that lists its own child among its hypernyms makes the digraph cyclic. */
  lemma {:induction false} SelfHypernymRejected(n: nat, hyps: seq<seq<int>>, r: seq<int>)
    requires EdgesInRange(n, hyps)
    requires r in hyps && |r| >= 2 && r[0] in r[1..]
    ensures !IsRootedDag(HypernymGraph(n, hyps))
  {
    var u := r[0];
    assert u in r;
    ParentsOfMembers(hyps, u, u);
    HypernymGraphParents(n, hyps, u);
    SelfLoopIsCycle(HypernymGraph(n, hyps), u);
  }

  /** Three synsets whose records make 1 and 2 hyponyms of 0 form a rooted DAG. */
  lemma {:induction false} ExampleIsRootedDag()
    ensures IsRootedDag(HypernymGraph(3, [[1, 0], [2, 0]]))
  {
    var hyps: seq<seq<int>> := [[1, 0], [2, 0]];
    assert hyps[..1] == [[1, 0]] && hyps[..1][..0] == [];
    var empty: seq<seq<int>> := [[], [], []];
    assert HypernymGraph(3, []) == empty;
    assert [1, 0][1..] == [0] && [2, 0][1..] == [0];
    var first: seq<seq<int>> := [[], [0], []];
    assert empty[1] + [0] == [0] && first[2] + [0] == [0];
    assert AddRecord(empty, [1, 0]) == empty[1 := [0]] == first;
    assert HypernymGraph(3, hyps[..1]) == AddRecord(HypernymGraph(3, []), [1, 0]);
    assert hyps[..|hyps| - 1] == hyps[..1] && hyps[|hyps| - 1] == [2, 0];
    var g := HypernymGraph(3, hyps);
    assert g == AddRecord(first, [2, 0]) == first[2 := [0]];
    assert g == [[], [0], [0]];
    RankedIsAcyclic(g, v => v);
    assert Roots(g) == {0};
  }
}

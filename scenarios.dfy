/** Three small graphs worked through the model: a chain, a single
    self-loop, and a triangle with one hub. Each lemma pins down what the
    operations compute on that graph. */
module Scenarios {
  import opened GraphStore
  import opened SetSums
  import opened PathFinder
  import opened DegreeStats
  import opened Clustering
  import opened Centrality

  /** Edges 0 -> 1 -> 2 -> 3 -> 4. Node 4 is a destination only. */
  function ChainEdges(): seq<Edge>
  {
    [Edge(0, 1), Edge(1, 2), Edge(2, 3), Edge(3, 4)]
  }

  function Chain(): Graph
  {
    map[0 := {1}, 1 := {2}, 2 := {3}, 3 := {4}]
  }

  /** Building from the chain's edges gives exactly the chain: four keys,
      with node 4 left out. */
  lemma ChainBuilt(g: Graph)
    requires forall u :: u in g <==> exists v :: Edge(u, v) in ChainEdges()
    requires forall u, v :: u in g && v in g[u] <==> Edge(u, v) in ChainEdges()
    ensures g == Chain()
  {
    var c := Chain();
    forall u | u in c
      ensures u in g
    {
      assert Edge(u, u + 1) in ChainEdges();
    }
    forall u | u in g
      ensures u in c && g[u] == c[u]
    {
      var v :| Edge(u, v) in ChainEdges();
      forall w | w in g[u]
        ensures w == u + 1
      {
        assert Edge(u, w) in ChainEdges();
      }
      assert Edge(u, u + 1) in ChainEdges();
    }
    assert g.Keys == c.Keys;
  }

  /** Node k of any walk from 0 in the chain is k itself, and the walk
      has at most five nodes. */
  lemma {:induction false} ChainWalkAt(p: seq<NodeId>, k: nat)
    requires WalkFrom(Chain(), p, 0) && k < |p|
    ensures k <= 4 && p[k] == k
    decreases k
  {
    if k > 0 {
      ChainWalkAt(p, k - 1);
      assert p[k] in Successors(Chain(), p[k - 1]);
      if k - 1 == 4 {
        assert false;
      }
    }
  }

  /** The only walk from 0 to 4 is 0, 1, 2, 3, 4; so it is the path the
      search returns. */
  lemma ChainOnlyWalk(p: seq<NodeId>)
    requires WalkFrom(Chain(), p, 0) && Last(p) == 4
    ensures p == [0, 1, 2, 3, 4]
  {
    ChainWalkAt(p, |p| - 1);
    forall k | 0 <= k < |p|
      ensures p[k] == k
    {
      ChainWalkAt(p, k);
    }
  }

  /** Any result meeting the search's contract on the chain is Some([0, 1, 2, 3, 4]). */
  lemma ChainShortestPath(r: Option<seq<NodeId>>)
    requires r.None? <==> !Reachable(Chain(), 0, 4)
    requires r.Some? ==> WalkFrom(Chain(), r.value, 0) && Last(r.value) == 4
    ensures r == Some([0, 1, 2, 3, 4])
  {
    var p: seq<NodeId> := [0, 1, 2, 3, 4];
    assert WalkFrom(Chain(), p, 0) && Last(p) == 4;
    ChainOnlyWalk(r.value);
  }

  /** Every key of the chain has one successor: mean 1, variance 0, no hub. */
  lemma ChainStatistics()
    ensures MeanDegree(Chain()) == 1.0
    ensures DegreeVariance(Chain()) == 0.0
    ensures GlobalCoefficient(Chain()) == 0.0
  {
    var g := Chain();
    assert |g| == 4 by { assert g.Keys == {0, 1, 2, 3}; }
    MeanOfUniform(g, 1);
    VarianceZeroIffUniform(g);
    assert Hubs(g) == {};
  }

  /** The single self-loop 5 -> 5: one key, mean 1, variance 0. */
  lemma SelfLoopStatistics()
    ensures MeanDegree(map[5 := {5}]) == 1.0
    ensures DegreeVariance(map[5 := {5}]) == 0.0
  {
    var g: Graph := map[5 := {5}];
    MeanOfUniform(g, 1);
    VarianceZeroIffUniform(g);
  }

  /** Any result meeting the out-degree centrality's contract on the single
      self-loop 5 -> 5 gives node 5 the score 1.0 and no other node a score. */
  lemma SelfLoopOutCentrality(c: map<NodeId, real>)
    requires c.Keys == (map[5 := {5}]).Keys
    requires forall n :: n in c ==> c[n] == |(map[5 := {5}])[n]| as real / |map[5 := {5}]| as real
    ensures c == map[5 := 1.0]
  {
    assert c.Keys == {5};
    assert c[5] == 1.0;
  }

  /** Edges 0 -> 1, 0 -> 2, 1 -> 2. */
  function Triangle(): Graph
  {
    map[0 := {1, 2}, 1 := {2}]
  }

  /** Among the successors {1, 2} of node 0, only the ordered pair (1, 2)
      is linked. */
  lemma TriangleLinkedPairs()
    ensures LinkedPairs(Triangle(), {1, 2}) == 1.0
  {
    var g: Graph, S: set<NodeId> := Triangle(), {1, 2};
    var f := LinkedCountOf(g, S);
    assert Linked(g, 1, S) == {2};
    assert Linked(g, 2, S) == {};
    var T: set<NodeId> := {2};
    SumRemove(S, f, 1);
    assert S - {1} == T;
    SumRemove(T, f, 2);
    assert T - {2} == {};
  }

  /** Node 0 is the only hub, with local coefficient 1 / (2 * 1); so the
      global coefficient is 0.5. */
  lemma TriangleCoefficient()
    ensures GlobalCoefficient(Triangle()) == 0.5
  {
    var g := Triangle();
    assert Hubs(g) == {0};
    TriangleLinkedPairs();
    assert LocalCoefficient(g, 0) == 0.5;
    var H: set<NodeId> := {0};
    SumRemove(H, LocalOf(g), 0);
    assert H - {0} == {};
  }
}

/** In-degree and out-degree centrality. Both are computed only for the key
    nodes of the graph and are normalised by the number of keys. Scores are
    `real` quotients of integer counts. */
module Centrality {
  import opened GraphStore
  import opened SetSums

  /** The key nodes whose successor set contains n. */
  function Predecessors(g: Graph, n: NodeId): set<NodeId>
  {
    set m | m in g && n in g[m]
  }

  function ValueOf(c: map<NodeId, real>): NodeId -> real
  {
    (n: NodeId) => if n in c then c[n] else 0.0
  }

  /** A node has at most as many predecessors as the graph has keys, so its
      in-degree centrality lies in [0, 1]. */
  lemma InCentralityInUnit(g: Graph, n: NodeId)
    requires |g| > 0
    ensures 0.0 <= |Predecessors(g, n)| as real / |g| as real <= 1.0
  {
    var p := Predecessors(g, n);
    assert g.Keys == p + (g.Keys - p);
    assert |g.Keys| == |g|;
    var a, b := |p| as real, |g| as real;
    assert a <= b;
    assert a / b <= b / b;
  }

  /** Counts the values of the graph that contain n, one key at a time. */
  method CountPredecessors(g: Graph, n: NodeId) returns (k: nat)
    ensures k == |Predecessors(g, n)|
  {
    k := 0;
    var rest := g.Keys;
    while rest != {}
      invariant rest <= g.Keys
      invariant k == |set m | m in g.Keys - rest && n in g[m]|
      decreases rest
    {
      var m :| m in rest;
      ghost var before := set m' | m' in g.Keys - rest && n in g[m'];
      rest := rest - {m};
      if n in g[m] {
        assert (set m' | m' in g.Keys - rest && n in g[m']) == before + {m};
        k := k + 1;
      } else {
        assert (set m' | m' in g.Keys - rest && n in g[m']) == before;
      }
    }
    assert (set m | m in g.Keys - rest && n in g[m]) == Predecessors(g, n);
  }

  /** Divides every score by d, keeping the key set. An empty map is left
      as it is whatever d is, so d may be zero only then. */
  method DivideAll(c: map<NodeId, real>, d: real) returns (r: map<NodeId, real>)
    requires |c| > 0 ==> d != 0.0
    ensures r.Keys == c.Keys
    ensures forall n :: n in r ==> r[n] == c[n] / d
  {
    r := c;
    var rest := c.Keys;
    while rest != {}
      invariant rest <= c.Keys
      invariant r.Keys == c.Keys
      invariant forall n :: n in r ==> r[n] == if n in rest then c[n] else c[n] / d
      decreases rest
    {
      var n :| n in rest;
      r := r[n := r[n] / d];
      rest := rest - {n};
    }
  }

  /** For every key n: the number of keys whose successor set contains n,
      over the number of keys. Nodes that are only destinations get no
      entry, and an empty graph gives an empty map. Each score lies in [0, 1]. */
  method InDegreeCentrality(g: Graph) returns (c: map<NodeId, real>)
    ensures c.Keys == g.Keys
    ensures forall n :: n in c ==> c[n] == |Predecessors(g, n)| as real / |g| as real
    ensures forall n :: n in c ==> 0.0 <= c[n] <= 1.0
  {
    var counts: map<NodeId, real> := map[];
    var rest := g.Keys;
    while rest != {}
      invariant rest <= g.Keys
      invariant counts.Keys == g.Keys - rest
      invariant forall n :: n in counts ==> counts[n] == |Predecessors(g, n)| as real
      decreases rest
    {
      var n :| n in rest;
      var inDegree := CountPredecessors(g, n);
      counts := counts[n := inDegree as real];
      rest := rest - {n};
    }
    assert |counts| == |g| by { assert counts.Keys == g.Keys; }
    c := DivideAll(counts, |g| as real);
    forall n | n in c
      ensures 0.0 <= c[n] <= 1.0
    {
      assert |g| > 0 by { assert n in g.Keys; }
      InCentralityInUnit(g, n);
    }
  }

  /** For every key n: the size of its successor set over the number of keys. */
  method OutDegreeCentrality(g: Graph) returns (c: map<NodeId, real>)
    ensures c.Keys == g.Keys
    ensures forall n :: n in c ==> c[n] == |g[n]| as real / |g| as real
  {
    var counts: map<NodeId, real> := map[];
    var rest := g.Keys;
    while rest != {}
      invariant rest <= g.Keys
      invariant counts.Keys == g.Keys - rest
      invariant forall n :: n in counts ==> counts[n] == |g[n]| as real
      decreases rest
    {
      var n :| n in rest;
      counts := counts[n := |g[n]| as real];
      rest := rest - {n};
    }
    assert |counts| == |g| by { assert counts.Keys == g.Keys; }
    c := DivideAll(counts, |g| as real);
  }

  /** The out-degree scores add up to the number of edges over the number of keys. */
  lemma OutCentralitySum(g: Graph, c: map<NodeId, real>)
    requires |g| > 0
    requires c.Keys == g.Keys
    requires forall n :: n in c ==> c[n] == |g[n]| as real / |g| as real
    ensures Sum(c.Keys, ValueOf(c)) == TotalEdges(g) / |g| as real
  {
    SumScaled(g.Keys, ValueOf(c), OutDegreeOf(g), |g| as real);
  }
}

/** The global clustering coefficient: the average, over the keys with at
    least two successors, of the fraction of ordered pairs (a, b) of distinct
    successors such that a is a key and b is a successor of a. */
module Clustering {
  import opened GraphStore
  import opened SetSums
  import opened Arith

  /** The b in D, other than a, with an edge a -> b: the ordered pairs (a, b)
      counted for a among the candidates D. */
  function Linked(g: Graph, a: NodeId, D: set<NodeId>): set<NodeId>
  {
    set b | b in D && b != a && a in g && b in g[a]
  }

  function LinkedCountOf(g: Graph, S: set<NodeId>): NodeId -> real
  {
    (a: NodeId) => |Linked(g, a, S)| as real
  }

  /** The number of ordered pairs (a, b) of distinct members of S with an
      edge a -> b, counted row by row. */
  ghost function LinkedPairs(g: Graph, S: set<NodeId>): real
  {
    Sum(S, LinkedCountOf(g, S))
  }

  /** Keys with at least two successors: the only ones given a local coefficient. */
  function Hubs(g: Graph): set<NodeId>
  {
    set n | n in g && |g[n]| >= 2
  }

  /** Linked ordered pairs among n's successors over the d * (d - 1) ordered
      pairs of distinct successors. */
  ghost function LocalCoefficient(g: Graph, n: NodeId): real
    requires n in Hubs(g)
  {
    PairFraction(LinkedPairs(g, g[n]), |g[n]|)
  }

  /** A count of linked ordered pairs over the d * (d - 1) ordered pairs of
      distinct members of a d-element set. */
  function PairFraction(linked: real, d: nat): real
    requires d >= 2
  {
    OrderedPairsPositive(d);
    linked / (d * (d - 1)) as real
  }

  ghost function LocalOf(g: Graph): NodeId -> real
  {
    (n: NodeId) => if n in Hubs(g) then LocalCoefficient(g, n) else 0.0
  }

  /** The mean local coefficient over the hubs, or 0 when there are none. */
  ghost function GlobalCoefficient(g: Graph): real
  {
    var hubs := Hubs(g);
    if |hubs| > 0 then Sum(hubs, LocalOf(g)) / |hubs| as real else 0.0
  }

  /** A member a of S is linked to at most the |S| - 1 other members. */
  lemma LinkedAtMostOthers(g: Graph, a: NodeId, S: set<NodeId>)
    requires a in S
    ensures |Linked(g, a, S)| <= |S| - 1
  {
    var others := S - {a};
    var l := Linked(g, a, S);
    assert others == l + (others - l);
  }

  /** Every member of S is linked to between 0 and |S| - 1 members of S. */
  lemma LinkedCountsBounded(g: Graph, S: set<NodeId>)
    ensures forall a :: a in S ==> 0.0 <= LinkedCountOf(g, S)(a) <= (|S| - 1) as real
  {
    forall a | a in S
      ensures LinkedCountOf(g, S)(a) <= (|S| - 1) as real
    {
      LinkedAtMostOthers(g, a, S);
    }
  }

  /** At most d * (d - 1) ordered pairs of distinct members of a d-element set are linked. */
  lemma LinkedPairsBound(g: Graph, S: set<NodeId>)
    ensures 0.0 <= LinkedPairs(g, S) <= (|S| * (|S| - 1)) as real
  {
    LinkedCountsBounded(g, S);
    SumAtMostPairs(S, LinkedCountOf(g, S));
  }

  /** Each local coefficient lies in [0, 1]. */
  lemma LocalCoefficientInUnit(g: Graph, n: NodeId)
    requires n in Hubs(g)
    ensures 0.0 <= LocalCoefficient(g, n) <= 1.0
  {
    var d := |g[n]|;
    LinkedPairsBound(g, g[n]);
    OrderedPairsPositive(d);
    QuotientInUnit(LinkedPairs(g, g[n]), (d * (d - 1)) as real);
  }

  lemma LocalsInUnit(g: Graph)
    ensures forall n :: n in Hubs(g) ==> 0.0 <= LocalOf(g)(n) <= 1.0
  {
    forall n | n in Hubs(g)
      ensures 0.0 <= LocalOf(g)(n) <= 1.0
    {
      LocalCoefficientInUnit(g, n);
    }
  }

  /** The global coefficient lies in [0, 1]. */
  lemma GlobalCoefficientInUnit(g: Graph)
    ensures 0.0 <= GlobalCoefficient(g) <= 1.0
  {
    if Hubs(g) != {} {
      LocalsInUnit(g);
      MeanInUnit(Hubs(g), LocalOf(g));
    }
  }

  /** One pass of the inner loop: counts the members b of S, other than a,
      with an edge a -> b (none when a is not a key). */
  method CountLinkedFrom(g: Graph, a: NodeId, S: set<NodeId>) returns (k: nat)
    ensures k == |Linked(g, a, S)|
  {
    k := 0;
    var inner := S;
    while inner != {}
      invariant inner <= S
      invariant k == |Linked(g, a, S - inner)|
      decreases inner
    {
      var b :| b in inner;
      ghost var done := Linked(g, a, S - inner);
      inner := inner - {b};
      if a != b && a in g && b in g[a] {
        k := k + 1;
        assert Linked(g, a, S - inner) == done + {b};
      } else {
        assert Linked(g, a, S - inner) == done;
      }
    }
    assert S - inner == S;
  }

  /** Counts the linked ordered pairs among S by two nested passes over S. */
  method CountLinkedPairs(g: Graph, S: set<NodeId>) returns (triangles: nat)
    ensures triangles as real == LinkedPairs(g, S)
  {
    triangles := 0;
    var outer := S;
    while outer != {}
      invariant outer <= S
      invariant triangles as real == Sum(S - outer, LinkedCountOf(g, S))
      decreases outer
    {
      var a :| a in outer;
      var k := CountLinkedFrom(g, a, S);
      SumStep(S, outer, LinkedCountOf(g, S), a);
      triangles := triangles + k;
      outer := outer - {a};
    }
    assert S - outer == S;
  }

  /** The loop state after the keys outside `rest` have been visited: `count`
      hubs seen so far and `total` the sum of their local coefficients. */
  ghost predicate Tallied(g: Graph, rest: set<NodeId>, total: real, count: nat)
  {
    rest <= g.Keys && count == |VisitedHubs(g, rest)| && total == Sum(VisitedHubs(g, rest), LocalOf(g))
  }

  /** The hubs among the keys outside `rest`: those already visited. */
  function VisitedHubs(g: Graph, rest: set<NodeId>): set<NodeId>
  {
    set n | n in g.Keys - rest && |g[n]| >= 2
  }

  /** The local coefficient of one key with at least two successors: its
      linked ordered pairs over the ordered pairs of distinct successors. */
  method LocalClustering(g: Graph, node: NodeId) returns (local: real)
    requires node in Hubs(g)
    ensures local == LocalCoefficient(g, node)
    ensures 0.0 <= local <= 1.0
  {
    var neighbors := g[node];
    var numNeighbors := |neighbors|;
    var triangles := CountLinkedPairs(g, neighbors);
    local := PairFraction(triangles as real, numNeighbors);
    LocalCoefficientInUnit(g, node);
  }

  /** Before any key is visited, nothing is tallied. */
  lemma TallyStart(g: Graph)
    ensures Tallied(g, g.Keys, 0.0, 0)
  {
    assert VisitedHubs(g, g.Keys) == {};
  }

  /** Visiting a hub adds one to the count and its local coefficient, computed
      from its number of linked pairs, to the total. */
  lemma TallyHub(g: Graph, rest: set<NodeId>, total: real, count: nat, node: NodeId, local: real)
    requires Tallied(g, rest, total, count) && node in rest && node in Hubs(g)
    requires local == LocalCoefficient(g, node)
    ensures Tallied(g, rest - {node}, total + local, count + 1)
  {
    VisitHub(g, rest, node);
    SumGrow(VisitedHubs(g, rest), VisitedHubs(g, rest - {node}), LocalOf(g), node);
  }

  /** Visiting a hub adds exactly that hub to the visited ones. */
  lemma VisitHub(g: Graph, rest: set<NodeId>, node: NodeId)
    requires rest <= g.Keys && node in rest && |g[node]| >= 2
    ensures node !in VisitedHubs(g, rest)
    ensures VisitedHubs(g, rest - {node}) == VisitedHubs(g, rest) + {node}
  {
  }

  /** Visiting a key with fewer than two successors changes nothing. */
  lemma TallySkip(g: Graph, rest: set<NodeId>, total: real, count: nat, node: NodeId)
    requires Tallied(g, rest, total, count) && node in rest && |g[node]| < 2
    ensures Tallied(g, rest - {node}, total, count)
  {
    assert VisitedHubs(g, rest - {node}) == VisitedHubs(g, rest);
  }

  /** Once every key is visited, the average of the tallied coefficients (0
      when no hub was seen) is the global coefficient. */
  lemma TallyDone(g: Graph, total: real, count: nat, c: real)
    requires Tallied(g, {}, total, count)
    requires c == if count > 0 then total / count as real else 0.0
    ensures c == GlobalCoefficient(g)
    ensures 0.0 <= c <= 1.0
    ensures Hubs(g) == {} ==> c == 0.0
  {
    assert VisitedHubs(g, {}) == Hubs(g);
    GlobalCoefficientInUnit(g);
  }

  /** Averages the local coefficients of the keys with at least two
      successors; 0 when there is no such key. */
  method GlobalClusteringCoefficient(g: Graph) returns (c: real)
    ensures c == GlobalCoefficient(g)
    ensures 0.0 <= c <= 1.0
    ensures Hubs(g) == {} ==> c == 0.0
  {
    var totalCoefficient := 0.0;
    var nodesWithNeighbors: nat := 0;
    var rest := g.Keys;
    TallyStart(g);
    while rest != {}
      invariant Tallied(g, rest, totalCoefficient, nodesWithNeighbors)
      decreases rest
    {
      var node :| node in rest;
      var numNeighbors := |g[node]|;
      if numNeighbors >= 2 {
        var localCoefficient := LocalClustering(g, node);
        TallyHub(g, rest, totalCoefficient, nodesWithNeighbors, node, localCoefficient);
        totalCoefficient := totalCoefficient + localCoefficient;
        nodesWithNeighbors := nodesWithNeighbors + 1;
      } else {
        TallySkip(g, rest, totalCoefficient, nodesWithNeighbors, node);
      }
      rest := rest - {node};
    }
    if nodesWithNeighbors > 0 {
      c := totalCoefficient / nodesWithNeighbors as real;
    } else {
      c := 0.0;
    }
    TallyDone(g, totalCoefficient, nodesWithNeighbors, c);
  }
}

/** The graph store: a directed graph kept as a map from each node to the set
    of its successors, built once from a sequence of edges.

    A node becomes a key only when it is the source of some edge; a node that
    is only ever a destination is referenced as a successor but is not a key,
    and so does not take part in any statistic computed over the keys. */
module GraphStore {
  import opened SetSums

  /** Node identifiers are the source's `usize`; the model does not bound them. */
  type NodeId = nat

  type Graph = map<NodeId, set<NodeId>>

  /** One parsed line of the edge list: a directed edge from `from` to `to`. */
  datatype Edge = Edge(from: NodeId, to: NodeId)

  /** The successors of u; a node that is not a key has none. */
  function Successors(g: Graph, u: NodeId): set<NodeId>
  {
    if u in g then g[u] else {}
  }

  function OutDegreeOf(g: Graph): NodeId -> real
  {
    (u: NodeId) => |Successors(g, u)| as real
  }

  /** The number of edges: the sum of the successor-set sizes over the keys. */
  ghost function TotalEdges(g: Graph): real
  {
    Sum(g.Keys, OutDegreeOf(g))
  }

  /** Streams the edges into an initially empty graph: for each edge (u, v),
      u gets an entry (empty if new) and v is added to u's successor set.
      Afterwards a node is a key exactly when it is the source of an edge,
      and its successors are exactly the destinations of its edges, so a
      repeated edge counts once and a self-loop is kept. */
  method Build(edges: seq<Edge>) returns (g: Graph)
    ensures forall u :: u in g <==> exists v :: Edge(u, v) in edges
    ensures forall u, v :: u in g && v in g[u] <==> Edge(u, v) in edges
  {
    g := map[];
    for i := 0 to |edges|
      invariant forall u :: u in g <==> exists v :: Edge(u, v) in edges[..i]
      invariant forall u, v :: u in g && v in g[u] <==> Edge(u, v) in edges[..i]
    {
      var u, v := edges[i].from, edges[i].to;
      assert edges[..i + 1] == edges[..i] + [Edge(u, v)];
      if u !in g {
        g := g[u := {}];
      }
      g := g[u := g[u] + {v}];
    }
    assert edges[..|edges|] == edges;
  }

  /** f never gives two node ids the same new id. */
  ghost predicate Injective(f: NodeId -> NodeId)
  {
    forall x, y :: f(x) == f(y) ==> x == y
  }

  /** The same graph with every node id u renamed to f(u). */
  ghost function Relabel(g: Graph, f: NodeId -> NodeId): Graph
    requires Injective(f)
  {
    map u | u in g :: f(u) := Image(g[u], f)
  }

  /** The renamed graph's keys are the renamed keys. */
  lemma RelabelKeys(g: Graph, f: NodeId -> NodeId)
    requires Injective(f)
    ensures Relabel(g, f).Keys == Image(g.Keys, f)
  {
  }

  /** Renaming keeps the number of keys, and each renamed key keeps its out-degree. */
  lemma RelabelShape(g: Graph, f: NodeId -> NodeId)
    requires Injective(f)
    ensures |Relabel(g, f)| == |g|
    ensures forall u :: u in g ==> OutDegreeOf(Relabel(g, f))(f(u)) == OutDegreeOf(g)(u)
  {
    var r := Relabel(g, f);
    RelabelKeys(g, f);
    ImageSize(g.Keys, f);
    forall u | u in g
      ensures OutDegreeOf(r)(f(u)) == OutDegreeOf(g)(u)
    {
      assert Successors(r, f(u)) == Image(g[u], f);
      ImageSize(g[u], f);
    }
  }

  /** A per-key quantity that renaming leaves alone has the same sum over
      the renamed keys. */
  lemma RelabelledSum(g: Graph, f: NodeId -> NodeId, hr: NodeId -> real, hg: NodeId -> real)
    requires Injective(f)
    requires forall u :: u in g ==> hr(f(u)) == hg(u)
    ensures Sum(Relabel(g, f).Keys, hr) == Sum(g.Keys, hg)
  {
    RelabelKeys(g, f);
    SumImage(g.Keys, f, hr);
    SumCongruent(g.Keys, Compose(hr, f), hg);
  }
}

/** Unweighted shortest paths by breadth-first search over whole paths.

    The frontier is a FIFO queue of paths that start at `start`. A path is
    dequeued; if it ends at `end` it is the answer; if its last node has
    been visited it is discarded; otherwise its last node is marked visited
    and the path is extended by every successor of that node. Successor sets
    are unordered, so among several shortest paths the one returned is not
    determined; what is proved is that it is a walk, that no walk is
    shorter, and that there is none exactly when `end` is unreachable. */
module PathFinder {
  import opened GraphStore

  datatype Option<T> = None | Some(value: T)

  function Last(p: seq<NodeId>): NodeId
    requires |p| > 0
  {
    p[|p| - 1]
  }

  /** p is a non-empty directed walk: each node is followed by one of its successors. */
  ghost predicate IsWalk(g: Graph, p: seq<NodeId>)
  {
    |p| > 0 && forall k :: 0 <= k < |p| - 1 ==> p[k + 1] in Successors(g, p[k])
  }

  ghost predicate WalkFrom(g: Graph, p: seq<NodeId>, s: NodeId)
  {
    IsWalk(g, p) && p[0] == s
  }

  ghost predicate Reachable(g: Graph, s: NodeId, t: NodeId)
  {
    exists p :: WalkFrom(g, p, s) && Last(p) == t
  }

  /** Every node a walk from s can end at: s, the keys, and their successors. */
  ghost function Universe(g: Graph, s: NodeId): set<NodeId>
  {
    {s} + g.Keys + (set u, w | u in g && w in g[u] :: w)
  }

  /** All nodes of p except the last one are in V. */
  ghost predicate InteriorIn(p: seq<NodeId>, V: set<NodeId>)
  {
    forall k :: 0 <= k < |p| - 1 ==> p[k] in V
  }

  /** Some path in q ends at w. */
  ghost predicate InQueue(q: seq<seq<NodeId>>, w: NodeId)
  {
    exists j :: 0 <= j < |q| && |q[j]| > 0 && Last(q[j]) == w
  }

  /** Some path in q ends at w and has at most n nodes. */
  ghost predicate QueuedWithin(q: seq<seq<NodeId>>, w: NodeId, n: nat)
  {
    exists j :: 0 <= j < |q| && |q[j]| > 0 && Last(q[j]) == w && |q[j]| <= n
  }

  /** The state of the search between two dequeues, with V the visited set
      and q the queue:
      - every queued path is a walk from s;
      - queued paths are in non-decreasing length, none more than one node
        longer than the front;
      - e has not been visited (the search stops when it reaches e);
      - every successor of a visited node is visited or ends a queued path;
      - a walk from s whose nodes before the last are all visited, and whose
        last node is not, is matched by a queued path to the same node that
        is no longer. */
  ghost predicate BfsInv(g: Graph, s: NodeId, e: NodeId, V: set<NodeId>, q: seq<seq<NodeId>>)
  {
    && (forall j :: 0 <= j < |q| ==> WalkFrom(g, q[j], s))
    && (forall i, j :: 0 <= i <= j < |q| ==> |q[i]| <= |q[j]|)
    && (forall j :: 0 <= j < |q| ==> |q[j]| <= |q[0]| + 1)
    && e !in V
    && (forall u, w :: u in V && w in Successors(g, u) ==> w in V || InQueue(q, w))
    && (forall p :: WalkFrom(g, p, s) && InteriorIn(p, V) && Last(p) !in V ==> QueuedWithin(q, Last(p), |p|))
  }

  /** q2 is base followed by one path x + [w] per w in S (and nothing else). */
  ghost predicate Expands(q2: seq<seq<NodeId>>, base: seq<seq<NodeId>>, x: seq<NodeId>, S: set<NodeId>)
  {
    && |base| <= |q2| && q2[..|base|] == base
    && (forall k :: |base| <= k < |q2| ==> |q2[k]| == |x| + 1 && q2[k][..|x|] == x && q2[k][|x|] in S)
    && (forall w :: w in S ==> exists k :: |base| <= k < |q2| && |q2[k]| == |x| + 1 && q2[k][|x|] == w)
  }

  /** Appending the extension by one more successor w keeps the queue an expansion. */
  lemma ExpandsStep(q: seq<seq<NodeId>>, base: seq<seq<NodeId>>, x: seq<NodeId>, D: set<NodeId>, w: NodeId)
    requires Expands(q, base, x, D)
    ensures Expands(q + [x + [w]], base, x, D + {w})
  {
    var q2 := q + [x + [w]];
    assert q2[..|base|] == q[..|base|];
    forall v | v in D + {w}
      ensures exists k :: |base| <= k < |q2| && |q2[k]| == |x| + 1 && q2[k][|x|] == v
    {
      if v == w {
        assert q2[|q|][|x|] == w;
      } else {
        var k :| |base| <= k < |q| && |q[k]| == |x| + 1 && q[k][|x|] == v;
        assert q2[k] == q[k];
      }
    }
    forall k | |base| <= k < |q2|
      ensures |q2[k]| == |x| + 1 && q2[k][..|x|] == x && q2[k][|x|] in D + {w}
    {
      if k < |q| {
        assert q2[k] == q[k];
      }
    }
  }

  lemma PrefixWalk(g: Graph, p: seq<NodeId>, s: NodeId, n: nat)
    requires WalkFrom(g, p, s) && 0 < n <= |p|
    ensures WalkFrom(g, p[..n], s) && Last(p[..n]) == p[n - 1]
  {
    var pre := p[..n];
    forall k | 0 <= k < |pre| - 1
      ensures pre[k + 1] in Successors(g, pre[k])
    {
      assert pre[k] == p[k] && pre[k + 1] == p[k + 1];
    }
  }

  lemma ExtendWalk(g: Graph, x: seq<NodeId>, s: NodeId, w: NodeId)
    requires WalkFrom(g, x, s) && w in Successors(g, Last(x))
    ensures WalkFrom(g, x + [w], s) && Last(x + [w]) == w
  {
    var y := x + [w];
    forall k | 0 <= k < |y| - 1
      ensures y[k + 1] in Successors(g, y[k])
    {
      if k < |x| - 1 {
        assert y[k] == x[k] && y[k + 1] == x[k + 1];
      }
    }
  }

  lemma LastInUniverse(g: Graph, p: seq<NodeId>, s: NodeId)
    requires WalkFrom(g, p, s)
    ensures Last(p) in Universe(g, s)
  {
    if |p| > 1 {
      var u, w := p[|p| - 2], p[|p| - 1];
      assert w in Successors(g, u);
      assert u in g && w in g[u];
    }
  }

  /** The first node of p outside V, given that p[i] is outside V. */
  lemma FirstOutside(p: seq<NodeId>, V: set<NodeId>, i: nat) returns (k: nat)
    requires i < |p| && p[i] !in V
    ensures k <= i && p[k] !in V
    ensures forall k' :: 0 <= k' < k ==> p[k'] in V
  {
    k := 0;
    while p[k] in V
      invariant k <= i
      invariant forall k' :: 0 <= k' < k ==> p[k'] in V
      decreases i - k
    {
      k := k + 1;
    }
  }

  /** Any walk from s to a node outside V passes a node that a queued path
      reaches with no more nodes than the walk has. */
  lemma QueuedBeforeOutside(g: Graph, s: NodeId, e: NodeId, V: set<NodeId>, q: seq<seq<NodeId>>, p: seq<NodeId>)
    returns (j: nat)
    requires BfsInv(g, s, e, V, q)
    requires WalkFrom(g, p, s) && Last(p) !in V
    ensures j < |q| && |q[j]| <= |p|
  {
    var k := FirstOutside(p, V, |p| - 1);
    var pre := p[..k + 1];
    PrefixWalk(g, p, s, k + 1);
    assert InteriorIn(pre, V) by {
      forall k' | 0 <= k' < |pre| - 1
        ensures pre[k'] in V
      {
        assert pre[k'] == p[k'];
      }
    }
    assert QueuedWithin(q, Last(pre), |pre|);
    j :| 0 <= j < |q| && |q[j]| > 0 && Last(q[j]) == Last(pre) && |q[j]| <= |pre|;
  }

  /** A front path that ends at e is no longer than any walk from s to e. */
  lemma FrontIsShortest(g: Graph, s: NodeId, e: NodeId, V: set<NodeId>, q: seq<seq<NodeId>>)
    requires BfsInv(g, s, e, V, q) && |q| > 0
    ensures forall p :: WalkFrom(g, p, s) && Last(p) == e ==> |q[0]| <= |p|
  {
    forall p | WalkFrom(g, p, s) && Last(p) == e
      ensures |q[0]| <= |p|
    {
      var j := QueuedBeforeOutside(g, s, e, V, q, p);
    }
  }

  /** With the queue empty, no walk from s reaches e. */
  lemma ExhaustedUnreachable(g: Graph, s: NodeId, e: NodeId, V: set<NodeId>)
    requires BfsInv(g, s, e, V, [])
    ensures !Reachable(g, s, e)
  {
    forall p | WalkFrom(g, p, s) && Last(p) == e
      ensures false
    {
      var j := QueuedBeforeOutside(g, s, e, V, [], p);
    }
  }

  lemma InitialInv(g: Graph, s: NodeId, e: NodeId)
    ensures BfsInv(g, s, e, {}, [[s]])
  {
    var q := [[s]];
    assert WalkFrom(g, [s], s);
    forall p | WalkFrom(g, p, s) && InteriorIn(p, {}) && Last(p) !in {}
      ensures QueuedWithin(q, Last(p), |p|)
    {
      assert Last(q[0]) == Last(p);
    }
  }

  /** Dropping a front path whose last node is already visited keeps the invariant. */
  lemma StaleStep(g: Graph, s: NodeId, e: NodeId, V: set<NodeId>, q: seq<seq<NodeId>>)
    requires BfsInv(g, s, e, V, q) && |q| > 0 && Last(q[0]) in V
    ensures BfsInv(g, s, e, V, q[1..])
  {
    var q' := q[1..];
    forall j | 0 <= j < |q'|
      ensures |q'[j]| <= |q'[0]| + 1
    {
      assert |q[0]| <= |q[1]|;
      assert q'[j] == q[j + 1];
    }
    forall u, w | u in V && w in Successors(g, u)
      ensures w in V || InQueue(q', w)
    {
      if w !in V {
        var j :| 0 <= j < |q| && |q[j]| > 0 && Last(q[j]) == w;
        assert j != 0;
        assert q'[j - 1] == q[j];
      }
    }
    forall p | WalkFrom(g, p, s) && InteriorIn(p, V) && Last(p) !in V
      ensures QueuedWithin(q', Last(p), |p|)
    {
      var j :| 0 <= j < |q| && |q[j]| > 0 && Last(q[j]) == Last(p) && |q[j]| <= |p|;
      assert j != 0;
      assert q'[j - 1] == q[j];
    }
  }

  /** After visiting the front path's last node and queueing its extensions,
      the queued paths are walks from s, in order and within one node of the front. */
  lemma VisitKeepsWalksAndOrder(g: Graph, s: NodeId, e: NodeId, V: set<NodeId>, q: seq<seq<NodeId>>, q2: seq<seq<NodeId>>)
    requires BfsInv(g, s, e, V, q) && |q| > 0
    requires Expands(q2, q[1..], q[0], Successors(g, Last(q[0])))
    ensures forall j :: 0 <= j < |q2| ==> WalkFrom(g, q2[j], s)
    ensures forall i, j :: 0 <= i <= j < |q2| ==> |q2[i]| <= |q2[j]|
    ensures forall j :: 0 <= j < |q2| ==> |q2[j]| <= |q2[0]| + 1
  {
    var x, b := q[0], |q| - 1;
    forall j | 0 <= j < |q2|
      ensures WalkFrom(g, q2[j], s) && |q2[j]| <= |x| + 1
      ensures j < b ==> q2[j] == q[j + 1]
      ensures j >= b ==> |q2[j]| == |x| + 1
    {
      QueuedAfterVisit(g, s, e, V, q, q2, j);
    }
    if b > 0 {
      assert |x| <= |q[1]| && q2[0] == q[1];
    }
  }

  /** Entry j of the new queue is either a path kept from behind the front
      or the front extended by one successor. */
  lemma QueuedAfterVisit(g: Graph, s: NodeId, e: NodeId, V: set<NodeId>, q: seq<seq<NodeId>>, q2: seq<seq<NodeId>>, j: nat)
    requires BfsInv(g, s, e, V, q) && |q| > 0
    requires Expands(q2, q[1..], q[0], Successors(g, Last(q[0])))
    requires j < |q2|
    ensures WalkFrom(g, q2[j], s) && |q2[j]| <= |q[0]| + 1
    ensures j < |q| - 1 ==> q2[j] == q[j + 1]
    ensures j >= |q| - 1 ==> |q2[j]| == |q[0]| + 1
  {
    var x, b := q[0], |q| - 1;
    if j < b {
      assert q2[j] == q2[..b][j];
    } else {
      assert q2[j] == x + [q2[j][|x|]];
      ExtendWalk(g, x, s, q2[j][|x|]);
    }
  }

  /** After visiting node = Last(q[0]), every successor of a visited node is
      visited or ends a queued path. */
  lemma VisitKeepsClosure(g: Graph, s: NodeId, e: NodeId, V: set<NodeId>, q: seq<seq<NodeId>>, q2: seq<seq<NodeId>>)
    requires BfsInv(g, s, e, V, q) && |q| > 0
    requires Expands(q2, q[1..], q[0], Successors(g, Last(q[0])))
    ensures forall u, w :: u in V + {Last(q[0])} && w in Successors(g, u) ==> w in V + {Last(q[0])} || InQueue(q2, w)
  {
    var x, node, b := q[0], Last(q[0]), |q| - 1;
    var V2 := V + {node};
    forall u, w | u in V2 && w in Successors(g, u) && w !in V2
      ensures InQueue(q2, w)
    {
      if u == node {
        var k :| b <= k < |q2| && |q2[k]| == |x| + 1 && q2[k][|x|] == w;
        assert Last(q2[k]) == w;
      } else {
        var j :| 0 <= j < |q| && |q[j]| > 0 && Last(q[j]) == w;
        assert j != 0;
        assert q2[j - 1] == q2[..b][j - 1] == q[j];
      }
    }
  }

  /** The paths kept from the old queue keep their relative order. */
  lemma KeptPath(q: seq<seq<NodeId>>, q2: seq<seq<NodeId>>, x: seq<NodeId>, S: set<NodeId>, j: nat)
    requires 1 <= j < |q| && Expands(q2, q[1..], x, S)
    ensures q2[j - 1] == q[j]
  {
    assert q2[j - 1] == q2[..|q| - 1][j - 1];
  }

  /** The front path has at most i + 1 nodes when node i of a walk from s is unvisited. */
  lemma FrontBeforeOutside(g: Graph, s: NodeId, e: NodeId, V: set<NodeId>, q: seq<seq<NodeId>>, p: seq<NodeId>, i: nat)
    requires BfsInv(g, s, e, V, q) && |q| > 0
    requires WalkFrom(g, p, s) && i < |p| && p[i] !in V
    ensures |q[0]| <= i + 1
  {
    PrefixWalk(g, p, s, i + 1);
    var j := QueuedBeforeOutside(g, s, e, V, q, p[..i + 1]);
  }

  /** Frontier case where all of p before its last node was already visited. */
  lemma FrontierOldInterior(g: Graph, s: NodeId, e: NodeId, V: set<NodeId>, q: seq<seq<NodeId>>, q2: seq<seq<NodeId>>, p: seq<NodeId>)
    requires BfsInv(g, s, e, V, q) && |q| > 0
    requires Expands(q2, q[1..], q[0], Successors(g, Last(q[0])))
    requires WalkFrom(g, p, s) && InteriorIn(p, V) && Last(p) !in V + {Last(q[0])}
    ensures QueuedWithin(q2, Last(p), |p|)
  {
    var j :| 0 <= j < |q| && |q[j]| > 0 && Last(q[j]) == Last(p) && |q[j]| <= |p|;
    assert j != 0;
    KeptPath(q, q2, q[0], Successors(g, Last(q[0])), j);
  }

  /** Frontier case where the node just visited occurs in p before its last node. */
  lemma FrontierThroughNode(g: Graph, s: NodeId, e: NodeId, V: set<NodeId>, q: seq<seq<NodeId>>, q2: seq<seq<NodeId>>, p: seq<NodeId>)
    requires BfsInv(g, s, e, V, q) && |q| > 0 && Last(q[0]) !in V
    requires Expands(q2, q[1..], q[0], Successors(g, Last(q[0])))
    requires WalkFrom(g, p, s) && InteriorIn(p, V + {Last(q[0])}) && Last(p) !in V + {Last(q[0])}
    requires !InteriorIn(p, V)
    ensures QueuedWithin(q2, Last(p), |p|)
  {
    var m := |p| - 1;
    var i :| 0 <= i < m && p[i] !in V;
    FrontBeforeOutside(g, s, e, V, q, p, i);
    assert p[m] in Successors(g, p[m - 1]);
    if p[m - 1] == Last(q[0]) {
      FrontierFromNode(q, q2, Successors(g, Last(q[0])), p[m], |p|);
    } else {
      FrontierFromVisited(g, s, e, V, q, q2, p[m], |p|);
    }
  }

  /** The last step of the walk leaves the newly visited node: its extension
      to the walk's last node is enqueued, and is no longer than the walk. */
  lemma FrontierFromNode(q: seq<seq<NodeId>>, q2: seq<seq<NodeId>>, S: set<NodeId>, w: NodeId, n: nat)
    requires |q| > 0 && Expands(q2, q[1..], q[0], S)
    requires w in S && |q[0]| + 1 <= n
    ensures QueuedWithin(q2, w, n)
  {
    var x := q[0];
    var k :| |q| - 1 <= k < |q2| && |q2[k]| == |x| + 1 && q2[k][|x|] == w;
    assert Last(q2[k]) == w;
  }

  /** The last step of the walk leaves an already visited node: a path to
      the walk's last node was already queued behind the front, and stays
      queued. */
  lemma FrontierFromVisited(g: Graph, s: NodeId, e: NodeId, V: set<NodeId>, q: seq<seq<NodeId>>, q2: seq<seq<NodeId>>, w: NodeId, n: nat)
    requires BfsInv(g, s, e, V, q) && |q| > 0
    requires Expands(q2, q[1..], q[0], Successors(g, Last(q[0])))
    requires w !in V && w != Last(q[0]) && InQueue(q, w) && |q[0]| + 2 <= n
    ensures QueuedWithin(q2, w, n)
  {
    var j :| 0 <= j < |q| && |q[j]| > 0 && Last(q[j]) == w;
    KeptPath(q, q2, q[0], Successors(g, Last(q[0])), j);
  }

  /** After visiting node = Last(q[0]), the frontier property holds for the
      larger visited set and the new queue. */
  lemma VisitKeepsFrontier(g: Graph, s: NodeId, e: NodeId, V: set<NodeId>, q: seq<seq<NodeId>>, q2: seq<seq<NodeId>>)
    requires BfsInv(g, s, e, V, q) && |q| > 0 && Last(q[0]) !in V
    requires Expands(q2, q[1..], q[0], Successors(g, Last(q[0])))
    ensures forall p :: WalkFrom(g, p, s) && InteriorIn(p, V + {Last(q[0])}) && Last(p) !in V + {Last(q[0])} ==>
      QueuedWithin(q2, Last(p), |p|)
  {
    forall p | WalkFrom(g, p, s) && InteriorIn(p, V + {Last(q[0])}) && Last(p) !in V + {Last(q[0])}
      ensures QueuedWithin(q2, Last(p), |p|)
    {
      if InteriorIn(p, V) {
        FrontierOldInterior(g, s, e, V, q, q2, p);
      } else {
        FrontierThroughNode(g, s, e, V, q, q2, p);
      }
    }
  }

  lemma VisitStep(g: Graph, s: NodeId, e: NodeId, V: set<NodeId>, q: seq<seq<NodeId>>, q2: seq<seq<NodeId>>)
    requires BfsInv(g, s, e, V, q) && |q| > 0
    requires Last(q[0]) !in V && Last(q[0]) != e
    requires Expands(q2, q[1..], q[0], Successors(g, Last(q[0])))
    ensures BfsInv(g, s, e, V + {Last(q[0])}, q2)
  {
    VisitKeepsWalksAndOrder(g, s, e, V, q, q2);
    VisitKeepsClosure(g, s, e, V, q, q2);
    VisitKeepsFrontier(g, s, e, V, q, q2);
  }

  /** A start that is not a key reaches only itself. */
  lemma NoSuccessorsNoPath(g: Graph, start: NodeId, end: NodeId)
    requires start != end && start !in g
    ensures !Reachable(g, start, end)
  {
    forall p | WalkFrom(g, p, start)
      ensures Last(p) == start
    {
      assert |p| == 1 || p[1] in Successors(g, p[0]);
    }
  }

  /** Pushes path + [w] onto the back of the queue for each w in neighbors,
      in an unspecified order. */
  method EnqueueExtensions(queue: seq<seq<NodeId>>, path: seq<NodeId>, neighbors: set<NodeId>)
    returns (q2: seq<seq<NodeId>>)
    ensures Expands(q2, queue, path, neighbors)
    ensures |q2| == |queue| + |neighbors|
  {
    q2 := queue;
    var rest := neighbors;
    while rest != {}
      invariant rest <= neighbors
      invariant Expands(q2, queue, path, neighbors - rest)
      invariant |q2| == |queue| + |neighbors - rest|
      decreases rest
    {
      var neighbor :| neighbor in rest;
      ExpandsStep(q2, queue, path, neighbors - rest, neighbor);
      assert neighbors - (rest - {neighbor}) == (neighbors - rest) + {neighbor};
      q2 := q2 + [path + [neighbor]];
      rest := rest - {neighbor};
    }
    assert neighbors - rest == neighbors;
  }

  /** Breadth-first search from start to end over whole paths. */
  method BfsShortestPath(g: Graph, start: NodeId, end: NodeId) returns (r: Option<seq<NodeId>>)
    ensures start == end ==> r == Some([start])
    ensures start != end && start !in g ==> r == None
    ensures r.Some? ==> WalkFrom(g, r.value, start) && Last(r.value) == end
    ensures r.Some? ==> forall p :: WalkFrom(g, p, start) && Last(p) == end ==> |r.value| <= |p|
    ensures r.None? <==> !Reachable(g, start, end)
  {
    if start != end && start !in g {
      NoSuccessorsNoPath(g, start, end);
    }
    var visited: set<NodeId> := {};
    var queue: seq<seq<NodeId>> := [[start]];
    ghost var universe := Universe(g, start);
    InitialInv(g, start, end);
    while queue != []
      invariant BfsInv(g, start, end, visited, queue)
      invariant visited <= universe
      invariant start == end ==> visited == {} && queue == [[start]]
      decreases universe - visited, |queue|
    {
      ghost var q0 := queue;
      var path := queue[0];
      queue := queue[1..];
      var node := Last(path);

      if node == end {
        FrontIsShortest(g, start, end, visited, q0);
        return Some(path);
      }

      if node in visited {
        StaleStep(g, start, end, visited, q0);
        continue;
      }

      ghost var v0 := visited;
      visited := visited + {node};
      queue := EnqueueExtensions(queue, path, Successors(g, node));
      VisitStep(g, start, end, v0, q0, queue);
      LastInUniverse(g, path, start);
    }
    ExhaustedUnreachable(g, start, end, visited);
    return None;
  }
}

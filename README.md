# Graph analytics over a directed edge list

This project models the graph-analysis core of a small Rust program. The
program loads a directed graph from an edge list into a map from each node
to its set of successors. It then computes six things:

- in-degree centrality and out-degree centrality;
- breadth-first shortest paths;
- the mean and the population variance of the out-degree;
- a global clustering coefficient.

A node is a key of the map only when it is the source of at least one edge.
Every statistic ranges over the keys alone, so a node that is only ever a
destination is a successor but is never counted.

The modules follow the functions of `graph.rs`:

| file | module | models |
|---|---|---|
| `graph_store.dfy` | `GraphStore` | the graph type, successors, edge count, and building the graph edge by edge |
| `centrality.dfy` | `Centrality` | in- and out-degree centrality |
| `path_finder.dfy` | `PathFinder` | breadth-first search over whole paths, with its loop invariant |
| `degree_stats.dfy` | `DegreeStats` | mean degree and degree variance |
| `clustering.dfy` | `Clustering` | local and global clustering coefficients |
| `set_sums.dfy` | `SetSums` | sums of a real-valued function over a finite set, in no fixed order |
| `arith.dfy` | `Arith` | small facts about real arithmetic used by the bounds |
| `scenarios.dfy` | `Scenarios` | a chain, a self-loop and a triangle, worked through the model |

Floating-point values are modelled as `real` and `usize` as `nat`.

Operations that loop in the source are methods with loop invariants.
Building the graph, counting predecessors, dividing by the node count, the
BFS loop and the two clustering loops are all methods. Each one is proved
against a specification function or predicate. The mean and the variance
are sums over the keys in the source, with no visible loop state, so they
are modelled as functions.

Both centralities return an empty map on an empty graph. The source's
division then never runs, so neither needs a precondition.

Hash-set iteration order is arbitrary in the source. It is modelled by
picking any remaining element (`:|`). Every result is proved for every
choice.

## Model

| member | source | states |
|---|---|---|
| GraphStore.Build | graph.rs:22 | After all edges are inserted, a node is a key iff it is the source of some edge, and v is a successor of u iff (u, v) is an edge. Duplicate edges collapse and self-loops are kept. |
| Centrality.CountPredecessors | graph.rs:33 | The count is the number of keys whose successor set contains the node. |
| Centrality.DivideAll | graph.rs:37-38 | Keeps the key set and divides every value by the divisor. |
| Centrality.InDegreeCentrality | graph.rs:29-41 | The result has exactly the graph's keys. Each value is the node's number of predecessors among the keys over the number of keys, and lies in [0, 1]. An empty graph gives an empty map. |
| Centrality.InCentralityInUnit | graph.rs:33-38 | A node has at most N predecessors among N keys, so its in-degree centrality is in [0, 1]. |
| Centrality.OutDegreeCentrality | graph.rs:43-55 | The result has exactly the graph's keys. Each value is the node's out-degree over the number of keys. |
| Centrality.OutCentralitySum | graph.rs:46-52 | The out-degree centralities sum to the number of edges over the number of keys. |
| PathFinder.EnqueueExtensions | graph.rs:75-81 | Keeps the old queue as a prefix. Appends exactly one path `path + [w]` for each successor w, so the queue grows by the number of successors. |
| PathFinder.BfsShortestPath | graph.rs:57-85 | If start equals end, the result is `Some([start])`. If start is not a key (and differs from end), the result is None. A returned path is a walk from start to end, and no walk from start to end is shorter. None is returned exactly when end is unreachable from start. |
| PathFinder.InitialInv | graph.rs:58-60 | The queue holding only `[start]`, with nothing visited, satisfies the search invariant. |
| PathFinder.StaleStep | graph.rs:69-71 | Dropping a queued path whose last node is already visited keeps the invariant. |
| PathFinder.VisitStep | graph.rs:73-81 | Marking the front path's last node visited and appending its extensions keeps the invariant. Queued paths stay walks from start, stay ordered by length, and stay within one of the front's length. Every successor of a visited node is visited or queued. Every walk whose interior is visited still has a queued path to its last node that is no longer than it. |
| PathFinder.FrontIsShortest | graph.rs:62-67 | Under the invariant, the front path is no longer than any walk from start to end. |
| PathFinder.ExhaustedUnreachable | graph.rs:62-84 | Under the invariant, an empty queue means end is unreachable from start. |
| PathFinder.NoSuccessorsNoPath | graph.rs:75 | A start that is not a key and differs from end reaches nothing but itself. |
| PathFinder.LastInUniverse | graph.rs:73 | Every node a walk from start ends at is start, a key, or a successor. This bounds the visited set and makes the loop terminate. |
| DegreeStats.MeanDegree | graph.rs:88-93 | The mean is the total number of edges over the number of keys, and is non-negative. |
| DegreeStats.DegreeVariance | graph.rs:95-101 | The population variance (divided by N, not N - 1) of the out-degrees is non-negative. |
| DegreeStats.MeanOfUniform | graph.rs:88-93 | When every key has out-degree d, the mean is d. |
| DegreeStats.VarianceZeroIffUniform | graph.rs:95-101 | The variance is zero iff all keys have the same out-degree. |
| GraphStore.RelabelShape | graph.rs:89-90 | Renaming the node ids through a one-to-one f keeps the number of keys, and every renamed key keeps its out-degree. |
| GraphStore.RelabelledSum | graph.rs:90 | After such a renaming, summing a per-key quantity that the renaming leaves alone gives the same total over the renamed keys. |
| DegreeStats.MeanRelabelled | graph.rs:88-93 | Renaming the node ids through a one-to-one f leaves the mean degree unchanged. |
| DegreeStats.VarianceRelabelled | graph.rs:95-101 | Renaming the node ids through a one-to-one f leaves the degree variance unchanged. |
| Clustering.LinkedAtMostOthers | graph.rs:114-122 | A member of S is linked to at most the other members of S. |
| Clustering.LinkedPairsBound | graph.rs:111-123 | The linked ordered pairs in a d-element set number between 0 and d(d - 1). |
| Clustering.LocalCoefficientInUnit | graph.rs:125 | Each local coefficient is in [0, 1]. |
| Clustering.GlobalCoefficientInUnit | graph.rs:131-135 | The global coefficient is in [0, 1]. |
| Clustering.CountLinkedFrom | graph.rs:114-122 | The inner loop counts the members b of S, other than a, for which a is a key with edge a -> b. |
| Clustering.CountLinkedPairs | graph.rs:111-123 | The two nested loops count exactly the linked ordered pairs of distinct members of S. |
| Clustering.LocalClustering | graph.rs:111-125 | For a key with at least two successors, returns its linked pairs over d(d - 1). The result is the local coefficient and is in [0, 1]. |
| Clustering.TallyStart | graph.rs:104-105 | Before any key is visited, the total is 0 and no hub has been counted. |
| Clustering.TallyHub | graph.rs:126-127 | Visiting a key with at least two successors adds its local coefficient to the total and one to the count. |
| Clustering.TallySkip | graph.rs:110 | Visiting a key with fewer than two successors leaves the total and the count unchanged. |
| Clustering.TallyDone | graph.rs:131-135 | After all keys are visited, total over count (or 0 when the count is 0) is the global coefficient and is in [0, 1]. |
| Clustering.GlobalClusteringCoefficient | graph.rs:103-136 | Returns the mean local coefficient over the keys with at least two successors. The result is in [0, 1], and 0 when there is no such key. |
| Scenarios.ChainBuilt | graph.rs:22 | Building from the edges 0->1, 1->2, 2->3, 3->4 gives exactly the map with keys 0..3. |
| Scenarios.ChainWalkAt | graph.rs:57-85 | In the chain, node k of a walk from 0 is k, and a walk has at most five nodes. |
| Scenarios.ChainOnlyWalk | graph.rs:57-85 | The only walk in the chain from 0 to 4 is [0, 1, 2, 3, 4]. |
| Scenarios.ChainShortestPath | graph.rs:57-85 | Any result meeting the search's contract on the chain from 0 to 4 is `Some([0, 1, 2, 3, 4])`. |
| Scenarios.ChainStatistics | graph.rs:88-136 | The chain has mean 1.0, variance 0.0 and global coefficient 0.0. |
| Scenarios.SelfLoopStatistics | graph.rs:88-101 | The single self-loop 5->5 has mean 1.0 and variance 0.0. |
| Scenarios.SelfLoopOutCentrality | graph.rs:43-55 | On the single self-loop 5->5, any result meeting the out-degree centrality's contract is exactly {5: 1.0}. |
| Scenarios.TriangleLinkedPairs | graph.rs:111-123 | Among node 0's successors {1, 2} in the triangle 0->1, 0->2, 1->2, exactly one ordered pair is linked. |
| Scenarios.TriangleCoefficient | graph.rs:103-136 | The triangle's global coefficient is 0.5: node 0 is the only hub, with local coefficient 1 / 2. |

## Left out

- Loading the graph from a file and parsing it (graph.rs:6-21) are left out: file I/O, line splitting, integer parsing and its error path. Lines without exactly two tokens are skipped there. The model starts from an already parsed sequence of edges, and `GraphStore.Build` models the insertion at line 22.
- `main.rs`, which prints results, is not part of this model.
- `test.rs` is not part of this model. It calls functions the library does not define (`Graph::new`, `add_edge`, `shortest_path`, a one-argument clustering coefficient). It also expects mean degree 2.0 for a four-edge chain, while the code computes 4 edges / 4 keys = 1.0. The model follows the code (`Scenarios.ChainStatistics`).
- `usize` overflow of node ids and counts is not modelled; integers are unbounded.
- `f64` rounding, and the dependence of a floating-point sum on summation order, are not modelled; values are exact reals.
- DegreeStats.MeanDegree: requires a non-empty graph. On an empty graph the source divides 0 by 0 and returns NaN, which has no `real` counterpart.
- DegreeStats.DegreeVariance: requires a non-empty graph, for the same NaN reason.
- DegreeStats.MeanDegree and DegreeStats.DegreeVariance are specification functions, not executable folds. The source computes them with iterator sums and no loop state, and `SetSums.Sum` gives the same value in every order.
- PathFinder.BfsShortestPath: when there are several shortest paths, it does not pin down which one is returned. That choice depends on hash-set iteration order. The contract proves that the result is one of the shortest walks.

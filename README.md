# Graph: adjacency lists and all-pairs Dijkstra, modelled in Dafny

The `Graph` class stores a directed graph with non-negative integer weights.
Vertices are numbered 1..size, with at most 100 of them in arrays of
`MAX_VERTICES = 101` slots, and slot 0 unused. Each vertex owns a singly linked
list of `(adjVertex, weight)` edge nodes. `findShortestPath` resets the
cells 1..size × 1..size of the table `T` and runs Dijkstra's algorithm from every vertex that has
outgoing edges. Each run fills the row `T[source][*]` with `{visited, dist, path}`.
Dijkstra uses a min-priority queue with lazy deletion: entries made stale by a
later, lower distance stay in the queue and are skipped when popped.
`printPath` follows the `path` links back to the source.

The model is organised by the program's structure:

- `types.dfy`, module `GraphTypes` (from `Graph.h`):
  - the edge node, the table cell and the queue entry;
  - the distance domain `Dist = Fin(n) | Inf`, where `Inf` stands for the `INT_MAX` sentinel;
  - the queue order `CompareAdjacentVertex`.
- `edgelists.dfy`, module `EdgeLists`. These are the list operations, on lists held as sequences, head first:
  - the traversal in `findEdge`;
  - the overwrite-or-prepend in `insertEdge`;
  - the unlinking in `removeEdge`;
  - `copyGraphHelper`.
- `paths.dfy`, module `Paths`. This is what the algorithm is proved against:
  - the well-formedness of the store;
  - paths and their weights;
  - what it means for a row to hold shortest distances with consistent predecessors.
- `frontier.dfy`, module `Frontier`: `top()`/`pop()` of the priority queue. The queue is a sequence, and the entry taken is one that no other entry outranks under `CompareAdjacentVertex`.
- `dijkstra.dfy`, module `ShortestPaths`: `dijkstrasAlgo`, as a method with its loops. The invariants record:
  - recorded path witnesses;
  - settled distances;
  - relaxed edges;
  - predecessor links;
  - the round in which each vertex was visited.

  Its postcondition: every distance in the row is the minimum path weight. Every reached vertex other than the source has a predecessor that closes its distance. The visit rounds decrease along those links.
- `pathwalk.dfy`, module `PathWalk`: the recursion of `printPath`. It is proved to emit a shortest path, less its destination, on a row Dijkstra produced.
- `graph.dfy`, module `GraphStore`: the class `Graph`. Its fields are `size`, the array of edge lists and the table `T`. Its methods are the constructors, `findEdge`, `insertEdge`, `removeEdge`, `buildGraph`, `resetTable`, `findShortestPath` and `printPath`.

## Model

| member | source | states |
|---|---|---|
| GraphTypes.Add | Graph.cpp:459-461 | With non-negative weights, extending a distance by an edge never brings it nearer, and a zero-weight edge leaves it as it was |
| GraphTypes.AddMonotone | Graph.cpp:459-463 | Extending two distances by the same edge weight keeps their order, strict or not, and two extensions in a row are one extension by the summed weight |
| GraphTypes.InfinityIsTop | Graph.h:65-69 | The default distance is above every finite distance and above every finite sum |
| GraphTypes.CompareIsStrictWeakOrder | Graph.h:79-84 | The queue comparator `Compare` (CompareAdjacentVertex: the left entry is strictly farther) is irreflexive and transitive, and two entries are incomparable exactly when their distances are equal |
| EdgeLists.Find | Graph.cpp:309-320 | The traversal stops at the first node for the destination; none exactly when no node of the list names it |
| EdgeLists.FindUnique | Graph.cpp:271-282 | In a list with one node per destination, the node found for a destination is that node |
| EdgeLists.InsertInto | Graph.cpp:271-282 | Afterwards the edge to dest has the new weight and every other lookup is unchanged. A new destination is prepended. An existing one keeps length and all other nodes in place. One node per destination is preserved |
| EdgeLists.InsertTwice | Graph.cpp:271-282 | Inserting the same pair twice leaves a single node carrying the second weight |
| EdgeLists.Without | Graph.cpp:336-366 | An absent edge leaves the list unchanged. Otherwise exactly the first node for dest is removed, the others keep their order, other lookups are unchanged, and dest is no longer found |
| EdgeLists.WithoutLookup | Graph.cpp:353-362 | Unlinking one node does not change what is found for any other destination |
| EdgeLists.CopyList | Graph.cpp:109-122 | The node-by-node copy equals the original list |
| Paths.ExtendPath | Graph.cpp:459-463 | Extending a path by the edge x -> w gives a path whose weight grows by that edge's weight |
| Paths.PrefixWeight | Graph.cpp:459-461 | A prefix of a path is a path and weighs no more than the whole, since weights are non-negative |
| Paths.ShortestDistUnique | Graph.cpp:409-418 | The shortest distance of a vertex from a source is unique |
| Paths.ShortestRowsAgree | Graph.cpp:379-389 | Two shortest-path rows from one source agree on every distance, so recomputing the table from unchanged lists gives the same distances |
| Paths.InfiniteMeansUnreachable | Graph.cpp:409-418 | A vertex left at infinity has no path from the source |
| Frontier.PopMin | Graph.cpp:448-449 | The entry taken was queued, no queued entry outranks it under `Compare`, so none is strictly nearer, and the rest is the queue minus exactly that entry |
| ShortestPaths.PopFresh | Graph.cpp:447-450 | Pops skip stale entries. Either the queue runs dry and every vertex is visited, or an unvisited vertex comes out at a distance no larger than any other unvisited vertex |
| ShortestPaths.VisitIsFinal | Graph.cpp:450-452 | When the nearest unvisited vertex is visited, no path to it is lighter than its distance |
| ShortestPaths.CrossingBound | Graph.cpp:455-463 | Where a path first leaves the visited vertices, the vertex it enters is already no farther than the path's weight |
| ShortestPaths.CrossingStep | Graph.cpp:459-463 | One edge past a prefix whose end is no farther than the prefix weighs, a vertex no farther than that end plus the edge is no farther than the whole path weighs |
| ShortestPaths.AllFinal | Graph.cpp:446-447 | With at most one vertex unvisited, every distance in the row is at most the weight of every path to its vertex |
| ShortestPaths.OneLeft | Graph.cpp:446-447 | After size − 1 visits at most one vertex is unvisited |
| ShortestPaths.VisitStep | Graph.cpp:450-452 | Marking the nearest unvisited vertex visited in round i keeps every part of the run's invariant |
| ShortestPaths.RelaxStep | Graph.cpp:459-468 | Lowering an unvisited target's distance through the visited vertex keeps the invariant and every edge already relaxed |
| ShortestPaths.QueueAfterRelax | Graph.cpp:465-468 | Queueing the lowered distance keeps every unvisited vertex queued at its current distance and no queued entry below it |
| ShortestPaths.RelaxEdge | Graph.cpp:458-470 | Relaxing one edge only ever lowers a distance, and only that of the edge's unvisited target. The target then gets the new distance with the visited vertex as predecessor. The invariant and the queue's soundness and completeness are kept |
| ShortestPaths.RelaxEdges | Graph.cpp:455-471 | After the walk over the visited vertex's list every edge out of every visited vertex is relaxed, and the visited set is unchanged |
| ShortestPaths.Round | Graph.cpp:447-472 | One round keeps the invariant and adds one vertex to the visited set, or finds every vertex already visited |
| ShortestPaths.Dijkstra | Graph.cpp:422-474 | The row holds the source at 0 with no predecessor. Every distance is the minimum path weight from the source (infinity exactly when unreachable). An unreachable vertex has predecessor 0. Every other reached vertex has an edge from its predecessor that closes its distance. Visit rounds decrease along predecessor links. Cells outside 1..size are untouched |
| PathWalk.PathChain | Graph.cpp:487-505 | An invalid endpoint, or the source as destination, emits nothing |
| PathWalk.ChainShape | Graph.cpp:496-503 | Whatever the table holds, an emitted chain starts at the source unless the walk met an invalid predecessor, and every later vertex is valid |
| PathWalk.ChainExtend | Graph.cpp:501-502 | One step back along a predecessor link emits that predecessor after the chain to it, and extends the path by the edge to the destination |
| PathWalk.ChainIsPath | Graph.cpp:496-503 | On a row Dijkstra produced, the walk to a reachable vertex ends, and the chain followed by the destination is a path from the source whose weight is the recorded distance |
| PathWalk.ChainIsShortestPath | Graph.cpp:487-505 | On such a row, the emitted chain followed by the destination is a shortest path from the source |
| PathWalk.ChainUnreachable | Graph.cpp:496-503 | For an unreachable destination the walk emits only the predecessor 0, and no path exists |
| GraphStore.AddEdge | Graph.cpp:258-282 | The lists stay well formed. An invalid endpoint or a negative weight changes nothing. Otherwise the edge has the new weight, the source's other lookups are unchanged and no other list changes |
| GraphStore.Built | Graph.cpp:214-222 | Inserting the edge lines in order keeps the lists well formed |
| GraphStore.BuiltEdgeOrigin | Graph.cpp:214-222 | Every edge of the built graph was there before or comes from an input line |
| GraphStore.Graph.constructor | Graph.cpp:52-53 | A fresh graph has size 0, every edge list empty and every table cell unvisited, at infinity, with predecessor 0 |
| GraphStore.Graph.Copy | Graph.cpp:64-97 | The copy has the same size, equal edge lists and an equal table, in new arrays |
| GraphStore.Graph.ValidVertexIndexes | Graph.cpp:234-239 | `IsValidVertex` (isValidVertex) accepts 1..size. On a valid graph such a vertex is never slot 0, indexes the list array and the table, and has a table cell for every vertex; an invalid slot holds an empty list |
| GraphStore.Graph.FindEdge | Graph.cpp:300-321 | An edge is returned exactly when both endpoints are valid and the edge exists, and it carries dest and the stored weight |
| GraphStore.Graph.InsertEdge | Graph.cpp:258-285 | The status names the first failing check (source, destination, weight). The lists become AddEdge of the old lists, so a refused call changes nothing |
| GraphStore.Graph.RemoveEdge | Graph.cpp:336-366 | The result is true exactly when both endpoints are valid and the edge exists. Then only the source's list loses that one node, with the rest in order. Otherwise nothing changes |
| GraphStore.Graph.BuildGraph | Graph.cpp:196-223 | From any valid graph, including one with more vertices, the graph gets n vertices and exactly the lists built by inserting the edge lines up to the first line with source 0 |
| GraphStore.Graph.ResetTable | Graph.cpp:399-407 | Every cell for s, d in 1..size is unvisited, at infinity, with predecessor 0; every other cell is unchanged |
| GraphStore.Graph.FindShortestPath | Graph.cpp:379-389 | Every source with edges gets a Dijkstra row (shortest distances, consistent and ranked predecessors). Every source without edges keeps its reset row. Cells outside 1..size are untouched |
| GraphStore.Graph.PrintPath | Graph.cpp:487-505 | An invalid endpoint, the source itself or a source without edges emits nothing |
| GraphStore.Graph.PrintedPathIsShortest | Graph.cpp:487-505 | After findShortestPath, the emitted chain plus the destination is a shortest path; an unreachable destination emits 0 and has no path |

## Left out

- Vertex labels (`Vertex.h`, the `data` pointer of each vertex node) and their copying in `copyGraph`: a string with stream operators and no logic.
- Console output and stream input:
  - `displayAll`, `display`, `printDestinations` and every diagnostic message are left out.
  - A refused call returns a status or `false`, or emits nothing.
  - `buildGraph` receives the vertex count and the edge lines already read. Its early return on an empty stream and end-of-file effects inside the edge section are not modelled.
- Manual memory management (destructor, `deleteList`, `deleteListHelper`, `operator=`): edge lists are sequences, so there is nothing to free. A copy and an assignment give the same state as `Graph.Copy`.
- The `std::priority_queue` heap: the queue is a sequence with minimum extraction, and ties between equal distances may be broken any way.
- 32-bit arithmetic: distances are unbounded naturals and `INT_MAX` is the separate value `Inf`, so the overflow of `INT_MAX + weight` cannot arise.
- The table `T` is an array of rows, each row a sequence of 101 cells. `dijkstrasAlgo` computes the row of its source as a value starting from the reset row, and `findShortestPath` stores it back. The cells written are the same as in place.
- ShortestPaths.Dijkstra: the source runs exactly size − 1 iterations, each doing one pop. A stale pop therefore uses up an iteration, and a reachable vertex can be left at infinity (edges 1→2 (1), 1→3 (5), 2→3 (1), 3→4 (10), 4→5 (1) leave vertex 5 at infinity from 1). The model keeps popping within an iteration until an unvisited vertex comes out or the queue is empty. That is the behaviour the documented postcondition needs, and the one proved.
- ShortestPaths.Dijkstra: rounds that pop an unreachable vertex relax its edges with infinity plus weight. In the source that overflows; here it stays infinity and changes nothing.
- GraphStore.Graph.RemoveEdge: the source mishandles three cases, and the model follows the documented contract instead (the first node for dest is unlinked and nothing else changes):
  - On an empty list it reads the head's `adjVertex` through a null pointer.
  - When the head is the match (Graph.cpp:347-351), it links the head past the second node and then deletes the head. The second node is lost and `edgeHead` is left dangling; a single-node list dereferences a null `nextEdge`.
  - When a later node is the match (Graph.cpp:355-358), it unlinks the matching node, which is never freed, and then deletes the node that now follows, leaving a dangling link in the list.
- GraphStore.Graph.FindShortestPath: predecessors are not shown to be the same on a second run, only distances (`Paths.ShortestRowsAgree`). Among equally short paths, the predecessor depends on the order of equal-distance pops.
- GraphStore.Graph.BuildGraph: requires a vertex count of at most 100, which the source never checks (a larger count writes past the arrays).
- GraphStore.Graph.BuildGraph: empties every list, where the source empties only the lists of vertices 1..n. The stale lists above n that the source keeps are never read, because every list access is guarded by `isValidVertex` or runs over 1..size, so the difference cannot be observed.
- PathWalk.PathChain: the recursion carries a depth bound (`fuel`, 101 in `printPath`). On a row Dijkstra produced the walk always ends within it (`PathWalk.ChainIsPath`). On arbitrary table contents with a cycle of predecessor links the source would not terminate, and the model returns None.

/** The data model of the graph: edge records, table entries, queue entries,
    the distance domain with its infinity sentinel and the queue ordering. */
module GraphTypes {

  /** Capacity of the vertex array and of each dimension of the table.
      Vertex ids run over 1..size, so index 0 is never a vertex and size <= 100. */
  const MaxVertices: nat := 101

  /** A shortest-known distance. `Inf` plays the role of the INT_MAX sentinel:
      it is above every finite distance and adding a weight to it leaves it at Inf. */
  datatype Dist = Fin(n: nat) | Inf

  predicate Le(a: Dist, b: Dist) {
    b.Inf? || (a.Fin? && a.n <= b.n)
  }

  predicate Less(a: Dist, b: Dist) {
    a.Fin? && (b.Inf? || a.n < b.n)
  }

  /** Extending a distance by an edge weight. Since weights are non-negative
      the extension is never nearer than the distance it extends, and a zero
      weight leaves it where it was. */
  function Add(a: Dist, w: nat): (r: Dist)
    ensures Le(a, r)
    ensures w == 0 ==> r == a
  {
    if a.Inf? then Inf else Fin(a.n + w)
  }

  /** One node of a vertex's adjacency list, without its link. */
  datatype Edge = Edge(adjVertex: nat, weight: nat)

  /** One cell T[source][dest] of the shortest-path table. `path` is the
      predecessor of dest on the best known path; 0 means none. */
  datatype Entry = Entry(visited: bool, dist: Dist, path: nat)

  /** The value every cell holds before Dijkstra runs: unvisited, at infinity, no predecessor. */
  const FreshEntry: Entry := Entry(false, Inf, 0)

  /** A priority-queue entry: a vertex and the distance it was queued with. */
  datatype AdjacentVertex = AdjacentVertex(vertexIndex: int, dist: Dist)

  /** A default-constructed queue entry: no vertex, distance at infinity. */
  const FreshAdjacentVertex: AdjacentVertex := AdjacentVertex(-1, Inf)

  /** CompareAdjacentVertex: true when `a` ranks below `b`, that is when `a` is
      strictly farther. Used as the heap order this makes the top a nearest entry. */
  predicate Compare(a: AdjacentVertex, b: AdjacentVertex) {
    Less(b.dist, a.dist)
  }

  /** Infinity is the top of the distance order and no sum reaches it. */
  lemma InfinityIsTop(d: Dist, w: nat)
    ensures Le(d, Inf)
    ensures d.Fin? ==> Less(Add(d, w), Inf)
    ensures !Less(Inf, d)
  {
  }

  /** Extending by the same weight keeps the distance order, and extending
      twice is extending once by the sum of the weights. */
  lemma AddMonotone(a: Dist, b: Dist, w: nat, x: nat)
    ensures Le(a, b) ==> Le(Add(a, w), Add(b, w))
    ensures Less(a, b) ==> Less(Add(a, w), Add(b, w))
    ensures Add(Add(a, w), x) == Add(a, w + x)
  {
  }

  /** `Compare` is a strict weak order (irreflexive, transitive, and its
      incomparability is equality of distances), as a priority queue needs. */
  lemma CompareIsStrictWeakOrder(a: AdjacentVertex, b: AdjacentVertex, c: AdjacentVertex)
    ensures !Compare(a, a)
    ensures Compare(a, b) && Compare(b, c) ==> Compare(a, c)
    ensures !Compare(a, b) && !Compare(b, a) <==> a.dist == b.dist
  {
  }
}

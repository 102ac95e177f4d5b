/** The Graph class: one adjacency list per vertex 1..size and the table T
    holding, for every source with outgoing edges, Dijkstra's row of
    shortest distances and predecessors. */
module GraphStore {
  import opened GraphTypes
  import opened EdgeLists
  import opened Paths
  import opened ShortestPaths
  import opened PathWalk

  /** What insertEdge did: stored the edge, or which of its checks refused it. */
  datatype Status = Inserted | InvalidSource | InvalidDest | NegativeWeight

  /** One line of the edge section of a graph description: source, destination, weight. */
  datatype EdgeLine = EdgeLine(src: int, dest: int, weight: int)

  /** Every list empty, as in a graph no edge was inserted into. */
  const NoEdges: seq<seq<Edge>> := seq(MaxVertices, _ => [])

  /** A table row as resetTable leaves it. */
  const FreshRow: seq<Entry> := seq(MaxVertices, _ => FreshEntry)

  /** The adjacency lists after insertEdge(source, dest, weight). */
  function AddEdge(adj: seq<seq<Edge>>, size: nat, source: int, dest: int, weight: int): (r: seq<seq<Edge>>)
    requires WellFormed(adj, size)
    ensures WellFormed(r, size)
    ensures !(1 <= source <= size && 1 <= dest <= size && weight >= 0) ==> r == adj
    ensures 1 <= source <= size && 1 <= dest <= size && weight >= 0 ==>
      && Lookup(r[source], dest) == Some(weight)
      && (forall d :: d != dest ==> Lookup(r[source], d) == Lookup(adj[source], d))
      && (forall u :: 0 <= u < MaxVertices && u != source ==> r[u] == adj[u])
  {
    if 1 <= source <= size && 1 <= dest <= size && weight >= 0 then
      var r := adj[source := InsertInto(adj[source], dest, weight)];
      assert forall k :: 0 <= k < |r[source]| ==> r[source][k] == Edge(dest, weight) || r[source][k] in adj[source];
      r
    else adj
  }

  /** The adjacency lists after inserting the edge lines in order, stopping
      at the first line whose source is 0. */
  function Built(adj: seq<seq<Edge>>, size: nat, lines: seq<EdgeLine>): (r: seq<seq<Edge>>)
    requires WellFormed(adj, size)
    ensures WellFormed(r, size)
    decreases |lines|
  {
    if lines == [] || lines[0].src == 0 then adj
    else Built(AddEdge(adj, size, lines[0].src, lines[0].dest, lines[0].weight), size, lines[1..])
  }

  /** Every edge of a built graph was already there or comes from an input line. */
  lemma {:induction false} BuiltEdgeOrigin(adj: seq<seq<Edge>>, size: nat, lines: seq<EdgeLine>, u: nat, k: nat)
    requires WellFormed(adj, size) && u < MaxVertices && k < |Built(adj, size, lines)[u]|
    ensures var e := Built(adj, size, lines)[u][k];
      e in adj[u] || exists j :: 0 <= j < |lines| && lines[j] == EdgeLine(u, e.adjVertex, e.weight)
    decreases |lines|
  {
    if lines != [] && lines[0].src != 0 {
      var l := lines[0];
      var adj' := AddEdge(adj, size, l.src, l.dest, l.weight);
      var e := Built(adj, size, lines)[u][k];
      BuiltEdgeOrigin(adj', size, lines[1..], u, k);
      if e in adj'[u] {
        if u == l.src && 1 <= l.src <= size && 1 <= l.dest <= size && l.weight >= 0 {
          var m :| 0 <= m < |adj'[u]| && adj'[u][m] == e;
          assert adj'[u] == InsertInto(adj[u], l.dest, l.weight);
          if e !in adj[u] {
            assert e == Edge(l.dest, l.weight);
            assert lines[0] == EdgeLine(u, e.adjVertex, e.weight);
          }
        }
      } else {
        var j :| 0 <= j < |lines[1..]| && lines[1..][j] == EdgeLine(u, e.adjVertex, e.weight);
        assert lines[j + 1] == EdgeLine(u, e.adjVertex, e.weight);
      }
    }
  }

  /** A row Dijkstra produced: shortest distances, and visit ranks that
      decrease along the predecessor links. */
  ghost predicate DijkstraRow(adj: seq<seq<Edge>>, size: nat, s: nat, row: seq<Entry>) {
    ShortestRow(adj, size, s, row) && exists rank :: Ranked(size, s, row, rank)
  }

  class Graph {
    /** The number of vertices; they are numbered 1..size. */
    var size: nat
    /** vertices[v]: the edge list of vertex v, head first. */
    var vertices: array<seq<Edge>>
    /** T[s][d]: visited flag, distance and predecessor of d on paths from s. */
    var T: array<seq<Entry>>

    ghost predicate Valid()
      reads this, vertices, T
    {
      && vertices.Length == MaxVertices && T.Length == MaxVertices
      && WellFormed(vertices[..], size)
      && forall s :: 0 <= s < MaxVertices ==> |T[s]| == MaxVertices
    }

    /** A fresh graph: no vertices, no edges, every table cell at its default. */
    constructor()
      ensures Valid() && size == 0
      ensures vertices[..] == NoEdges
      ensures T[..] == seq(MaxVertices, _ => FreshRow)
      ensures fresh(vertices) && fresh(T)
    {
      size := 0;
      vertices := new seq<Edge>[MaxVertices](_ => []);
      T := new seq<Entry>[MaxVertices](_ => FreshRow);
      new;
      assert vertices[..] == NoEdges;
    }

    /** The copy constructor (copyGraph): a node-by-node copy of each list of
        vertices 1..size, the same size and a cell-by-cell copy of the table. */
    constructor Copy(other: Graph)
      requires other.Valid()
      ensures Valid() && size == other.size
      ensures vertices[..] == other.vertices[..]
      ensures T[..] == other.T[..]
      ensures fresh(vertices) && fresh(T)
    {
      var lists := new seq<Edge>[MaxVertices](_ => []);
      var i := 1;
      while i <= other.size
        invariant 1 <= i <= other.size + 1
        invariant forall u :: 0 <= u < MaxVertices ==> lists[u] == if 1 <= u < i then other.vertices[u] else []
      {
        lists[i] := CopyList(other.vertices[i]);
        i := i + 1;
      }
      assert lists[..] == other.vertices[..];
      var table := new seq<Entry>[MaxVertices](_ => FreshRow);
      var r := 0;
      while r < MaxVertices
        invariant 0 <= r <= MaxVertices
        invariant forall a :: 0 <= a < r ==> table[a] == other.T[a]
        invariant forall a :: r <= a < MaxVertices ==> |table[a]| == MaxVertices
        invariant lists[..] == other.vertices[..]
      {
        ghost var before := table[..];
        var c := 0;
        while c < MaxVertices
          invariant 0 <= c <= MaxVertices
          invariant |table[r]| == MaxVertices
          invariant table[r][..c] == other.T[r][..c]
          invariant forall a :: 0 <= a < MaxVertices && a != r ==> table[a] == before[a]
          invariant lists[..] == other.vertices[..]
        {
          table[r] := table[r][c := other.T[r][c]];
          c := c + 1;
        }
        assert table[r] == table[r][..MaxVertices];
        r := r + 1;
      }
      assert table[..] == other.T[..];
      vertices := lists;
      size := other.size;
      T := table;
    }

    /** isValidVertex: vertex ids run over 1..size. */
    predicate IsValidVertex(v: int)
      reads this
    {
      1 <= v <= size
    }

    /** On a valid graph a valid vertex is never the unused slot 0, indexes
        both the list array and the table, and its table row has a cell for
        every vertex; an invalid one has an empty list or none at all. */
    lemma ValidVertexIndexes(v: int)
      requires Valid()
      ensures IsValidVertex(v) ==> 0 < v < vertices.Length && v < T.Length && |T[v]| == MaxVertices
      ensures !IsValidVertex(v) && 0 <= v < vertices.Length ==> vertices[v] == []
    {
    }

    /** findEdge: the first node of source's list whose adjacent vertex is
        dest; none when an endpoint is invalid or there is no such node. */
    function FindEdge(source: int, dest: int): (r: Option<Edge>)
      reads this, vertices, T
      requires Valid()
      ensures r.Some? <==> IsValidVertex(source) && IsValidVertex(dest) && HasEdge(vertices[..], source, dest)
      ensures r.Some? ==> r.value.adjVertex == dest && Lookup(vertices[source], dest) == Some(r.value.weight)
    {
      if !IsValidVertex(source) || !IsValidVertex(dest) then None
      else match Find(vertices[source], dest)
        case None => None
        case Some(k) => Some(vertices[source][k])
    }

    /** insertEdge: refuse an invalid endpoint or a negative weight and change
        nothing; otherwise overwrite the weight of the existing edge or
        prepend a new one. */
    method InsertEdge(source: int, dest: int, weight: int) returns (status: Status)
      requires Valid()
      modifies vertices
      ensures Valid()
      ensures status == InvalidSource <==> !IsValidVertex(source)
      ensures status == InvalidDest <==> IsValidVertex(source) && !IsValidVertex(dest)
      ensures status == NegativeWeight <==> IsValidVertex(source) && IsValidVertex(dest) && weight < 0
      ensures vertices[..] == AddEdge(old(vertices[..]), size, source, dest, weight)
    {
      if !IsValidVertex(source) {
        return InvalidSource;
      }
      if !IsValidVertex(dest) {
        return InvalidDest;
      }
      if weight < 0 {
        return NegativeWeight;
      }
      status := Inserted;
      var es := vertices[source];
      match Find(es, dest)
      case Some(k) =>
        vertices[source] := es[k := Edge(dest, weight)];
      case None =>
        vertices[source] := [Edge(dest, weight)] + es;
    }

    /** removeEdge: refuse an invalid endpoint or an absent edge and change
        nothing; otherwise unlink the first node for dest from source's list,
        keeping the others in order. */
    method RemoveEdge(source: int, dest: int) returns (removed: bool)
      requires Valid()
      modifies vertices
      ensures Valid()
      ensures removed <==> IsValidVertex(source) && IsValidVertex(dest) && HasEdge(old(vertices[..]), source, dest)
      ensures removed ==> vertices[..] == old(vertices[..])[source := Without(old(vertices[source]), dest)]
      ensures !removed ==> vertices[..] == old(vertices[..])
    {
      if !IsValidVertex(source) || !IsValidVertex(dest) {
        return false;
      }
      var es := vertices[source];
      var k := 0;
      while k < |es| && es[k].adjVertex != dest
        invariant 0 <= k <= |es|
        invariant forall j :: 0 <= j < k ==> es[j].adjVertex != dest
      {
        k := k + 1;
      }
      if k == |es| {
        return false;
      }
      vertices[source] := es[..k] + es[k + 1..];
      removed := true;
      ghost var r := Without(es, dest);
      assert vertices[source] == r;
      assert forall j :: 0 <= j < |r| ==> r[j] in es;
    }

    /** buildGraph, from the already-read vertex count `n` and edge lines:
        empty the lists, then insertEdge every line up to the first one whose
        source is 0. The source empties only the lists of vertices 1..n; the
        lists above n are emptied here as well, which nothing can observe,
        since every access to a list is guarded by 1..size. */
    method BuildGraph(n: nat, lines: seq<EdgeLine>)
      requires Valid() && n < MaxVertices
      modifies this, vertices
      ensures Valid() && size == n
      ensures vertices[..] == Built(NoEdges, n, lines)
      ensures vertices == old(vertices) && T == old(T)
    {
      size := n;
      var v := 1;
      while v < MaxVertices
        invariant 1 <= v <= MaxVertices
        invariant vertices.Length == MaxVertices && T.Length == MaxVertices
        invariant forall u :: 1 <= u < v ==> vertices[u] == []
        invariant vertices[0] == []
        invariant vertices == old(vertices) && T == old(T) && size == n
      {
        vertices[v] := [];
        v := v + 1;
      }
      assert vertices[..] == NoEdges;
      var j := 0;
      while j < |lines| && lines[j].src != 0
        invariant 0 <= j <= |lines|
        invariant Valid() && size == n
        invariant Built(vertices[..], n, lines[j..]) == Built(NoEdges, n, lines)
        invariant vertices == old(vertices) && T == old(T)
      {
        var l := lines[j];
        assert lines[j..][1..] == lines[j + 1..];
        var _ := InsertEdge(l.src, l.dest, l.weight);
        j := j + 1;
      }
    }

    /** resetTable: every cell T[s][d] with s, d in 1..size goes back to
        unvisited, at infinity, with no predecessor. */
    method ResetTable()
      requires Valid()
      modifies T
      ensures Valid()
      ensures forall s, d :: 1 <= s <= size && 1 <= d <= size ==> T[s][d] == FreshEntry
      ensures forall s, d :: 0 <= s < MaxVertices && 0 <= d < MaxVertices && !(1 <= s <= size && 1 <= d <= size) ==>
        T[s][d] == old(T[s][d])
    {
      var s := 1;
      while s <= size
        invariant 1 <= s <= size + 1
        invariant Valid()
        invariant forall a, d :: 1 <= a < s && 1 <= d <= size ==> T[a][d] == FreshEntry
        invariant forall a, d :: 0 <= a < MaxVertices && 0 <= d < MaxVertices && !(1 <= a < s && 1 <= d <= size) ==>
          T[a][d] == old(T[a][d])
      {
        var d := 1;
        while d <= size
          invariant 1 <= d <= size + 1
          invariant Valid()
          invariant forall e :: 1 <= e < d ==> T[s][e] == FreshEntry
          invariant forall e :: 0 <= e < MaxVertices && !(1 <= e < d) ==> T[s][e] == old(T[s][e])
          invariant forall a, e :: 1 <= a < s && 1 <= e <= size ==> T[a][e] == FreshEntry
          invariant forall a, e :: 0 <= a < MaxVertices && a != s && 0 <= e < MaxVertices && !(1 <= a < s && 1 <= e <= size) ==>
            T[a][e] == old(T[a][e])
        {
          T[s] := T[s][d := FreshEntry];
          d := d + 1;
        }
        s := s + 1;
      }
    }

    /** findShortestPath: reset the table, then run Dijkstra from every vertex
        whose edge list is not empty. */
    method FindShortestPath()
      requires Valid()
      modifies T
      ensures Valid()
      ensures forall s :: 1 <= s <= size && vertices[s] != [] ==> DijkstraRow(vertices[..], size, s, T[s])
      ensures forall s, d :: 1 <= s <= size && vertices[s] == [] && 1 <= d <= size ==> T[s][d] == FreshEntry
      ensures forall s, d :: 0 <= s < MaxVertices && 0 <= d < MaxVertices && !(1 <= s <= size && 1 <= d <= size) ==>
        T[s][d] == old(T[s][d])
    {
      ResetTable();
      var i := 1;
      while i <= size
        invariant 1 <= i <= size + 1
        invariant Valid()
        invariant forall s :: 1 <= s < i && vertices[s] != [] ==> DijkstraRow(vertices[..], size, s, T[s])
        invariant forall s, d :: 1 <= s <= size && (i <= s || vertices[s] == []) && 1 <= d <= size ==> T[s][d] == FreshEntry
        invariant forall s, d :: 0 <= s < MaxVertices && 0 <= d < MaxVertices && !(1 <= s <= size && 1 <= d <= size) ==>
          T[s][d] == old(T[s][d])
      {
        if vertices[i] != [] {
          var row;
          ghost var rank;
          row, rank := Dijkstra(vertices[..], size, i, T[i]);
          T[i] := row;
        }
        i := i + 1;
      }
    }

    /** printPath(s, d): the predecessor chain from s up to, not including, d;
        nothing for an invalid endpoint or a source without edges. */
    function PrintPath(s: int, d: int): (r: Option<seq<int>>)
      reads this, vertices, T
      requires Valid()
      ensures !IsValidVertex(s) || !IsValidVertex(d) || d == s || vertices[s] == [] ==> r == Some([])
    {
      if !IsValidVertex(s) || !IsValidVertex(d) || vertices[s] == [] then Some([])
      else PathChain(size, T[s], s, d, MaxVertices)
    }

    /** After findShortestPath, printPath from a source with edges emits a
        shortest path to a reachable destination (less the destination) and
        the invalid predecessor 0 for an unreachable one. */
    lemma PrintedPathIsShortest(s: int, d: int)
      requires Valid() && IsValidVertex(s) && IsValidVertex(d) && s != d && vertices[s] != []
      requires DijkstraRow(vertices[..], size, s, T[s])
      ensures T[s][d].dist.Fin? ==>
        && PrintPath(s, d).Some?
        && IsPath(vertices[..], PrintPath(s, d).value + [d], s, d)
        && forall q :: IsPath(vertices[..], q, s, d) ==> Weight(vertices[..], PrintPath(s, d).value + [d]) <= Weight(vertices[..], q)
      ensures T[s][d].dist.Inf? ==>
        PrintPath(s, d) == Some([0]) && forall q :: !IsPath(vertices[..], q, s, d)
    {
      var rank :| Ranked(size, s, T[s], rank);
      if T[s][d].dist.Fin? {
        ChainIsShortestPath(vertices[..], size, s, T[s], rank, d);
      } else {
        ChainUnreachable(vertices[..], size, s, T[s], d, MaxVertices);
      }
    }
  }
}

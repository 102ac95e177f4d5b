/** printPath: the walk back along the predecessor links of one table row,
    emitted in source-to-destination order and without the destination. */
module PathWalk {
  import opened GraphTypes
  import opened EdgeLists
  import opened Paths

  /** The vertices printPath(s, d) emits, reading predecessors from `row`
      (T[s][*]) over 1..size. An invalid endpoint only prints a diagnostic
      and reaching the source ends the walk; otherwise the walk goes on to
      the predecessor p of d and then emits p itself. `fuel` bounds the
      depth of the recursion; None means it ran out. */
  function PathChain(size: nat, row: seq<Entry>, s: int, d: int, fuel: nat): (r: Option<seq<int>>)
    requires |row| == MaxVertices && size < MaxVertices
    ensures !(1 <= s <= size) || !(1 <= d <= size) || d == s ==> r == Some([])
    decreases fuel
  {
    if !(1 <= s <= size) || !(1 <= d <= size) then Some([])
    else if d == s then Some([])
    else if fuel == 0 then None
    else
      var p := row[d].path;
      match PathChain(size, row, s, p, fuel - 1)
      case None => None
      case Some(c) => Some(c + [p])
  }

  /** Whatever the table holds, an emitted chain starts at the source unless
      the walk met an invalid predecessor, and every later vertex is valid. */
  lemma {:induction false} ChainShape(size: nat, row: seq<Entry>, s: int, d: int, fuel: nat)
    requires |row| == MaxVertices && size < MaxVertices
    ensures var r := PathChain(size, row, s, d, fuel);
      && (r.Some? && |r.value| > 0 ==> r.value[0] == s || !(1 <= r.value[0] <= size))
      && (r.Some? ==> forall k :: 1 <= k < |r.value| ==> 1 <= r.value[k] <= size)
    decreases fuel
  {
    if 1 <= s <= size && 1 <= d <= size && d != s && fuel > 0 {
      var p := row[d].path;
      ChainShape(size, row, s, p, fuel - 1);
      var r' := PathChain(size, row, s, p, fuel - 1);
      if r'.Some? {
        var c := r'.value + [p];
        assert PathChain(size, row, s, d, fuel) == Some(c);
        if |r'.value| == 0 {
          assert p == s || !(1 <= p <= size);
        } else {
          assert 1 <= p <= size;
          forall k | 1 <= k < |c| ensures 1 <= c[k] <= size {
            if k < |r'.value| { assert c[k] == r'.value[k]; }
          }
        }
      }
    }
  }

  /** A reached `w` other than the source has a predecessor closing its
      distance, visited in an earlier round. */
  ghost predicate LinkAt(adj: seq<seq<Edge>>, size: nat, s: nat, row: seq<Entry>, rank: seq<nat>, w: int)
    requires |row| == MaxVertices && |rank| == MaxVertices && size < MaxVertices
  {
    1 <= w <= size && w != s && row[w].dist.Fin? ==>
      PredecessorOk(adj, size, row, w) && rank[row[w].path] < rank[w]
  }

  /** The chain `c` followed by `d` is a path from `s` of weight `n`. */
  ghost predicate ChainOk(adj: seq<seq<Edge>>, s: int, d: int, c: seq<int>, n: nat) {
    |c| >= 1 && IsPath(adj, c + [d], s, d) && Weight(adj, c + [d]) == n
  }

  /** On a row Dijkstra produced, the walk to a reachable destination ends,
      and the emitted chain followed by the destination is a path from the
      source whose weight is the recorded distance. */
  lemma {:induction false} ChainIsPath(adj: seq<seq<Edge>>, size: nat, s: nat, row: seq<Entry>,
                                       rank: seq<nat>, d: nat, fuel: nat)
    requires |row| == MaxVertices && |rank| == MaxVertices && 1 <= s <= size < MaxVertices
    requires row[s].dist == Fin(0)
    requires forall w :: LinkAt(adj, size, s, row, rank, w)
    requires 1 <= d <= size && d != s && row[d].dist.Fin? && fuel > rank[d]
    ensures PathChain(size, row, s, d, fuel).Some?
    ensures ChainOk(adj, s, d, PathChain(size, row, s, d, fuel).value, row[d].dist.n)
    decreases fuel
  {
    var p := row[d].path;
    assert LinkAt(adj, size, s, row, rank, d);
    if p == s {
      ChainFromSource(adj, size, s, row, d, fuel);
    } else {
      ChainIsPath(adj, size, s, row, rank, p, fuel - 1);
      ChainExtend(adj, size, s, row, d, fuel);
    }
  }

  /** The walk to a vertex whose predecessor is the source emits the source. */
  lemma ChainFromSource(adj: seq<seq<Edge>>, size: nat, s: nat, row: seq<Entry>, d: nat, fuel: nat)
    requires |row| == MaxVertices && 1 <= s <= size < MaxVertices && row[s].dist == Fin(0)
    requires 1 <= d <= size && d != s && fuel > 0 && row[d].path == s
    requires PredecessorOk(adj, size, row, d)
    ensures PathChain(size, row, s, d, fuel) == Some([s])
    ensures ChainOk(adj, s, d, [s], row[d].dist.n)
  {
    assert PathChain(size, row, s, s, fuel - 1) == Some([]);
    assert [] + [s] == [s];
    assert IsPath(adj, [s], s, s) && Weight(adj, [s]) == 0;
    ExtendPath(adj, [s], s, s, d);
  }

  /** One step back along a predecessor link extends the emitted chain by
      that predecessor, and the path by one edge. */
  lemma ChainExtend(adj: seq<seq<Edge>>, size: nat, s: nat, row: seq<Entry>, d: nat, fuel: nat)
    requires |row| == MaxVertices && 1 <= s <= size < MaxVertices
    requires 1 <= d <= size && d != s && fuel > 0 && row[d].path != s
    requires PredecessorOk(adj, size, row, d)
    requires PathChain(size, row, s, row[d].path, fuel - 1).Some? && row[row[d].path].dist.Fin?
    requires ChainOk(adj, s, row[d].path, PathChain(size, row, s, row[d].path, fuel - 1).value, row[row[d].path].dist.n)
    ensures PathChain(size, row, s, d, fuel) == Some(PathChain(size, row, s, row[d].path, fuel - 1).value + [row[d].path])
    ensures ChainOk(adj, s, d, PathChain(size, row, s, d, fuel).value, row[d].dist.n)
  {
    var p := row[d].path;
    var c := PathChain(size, row, s, p, fuel - 1).value + [p];
    ExtendPath(adj, c, s, p, d);
  }

  /** The chain printPath emits for a reachable destination, followed by the
      destination, is a shortest path from the source. */
  lemma ChainIsShortestPath(adj: seq<seq<Edge>>, size: nat, s: nat, row: seq<Entry>,
                            rank: seq<nat>, d: nat)
    requires ShortestRow(adj, size, s, row) && Ranked(size, s, row, rank)
    requires 1 <= d <= size && d != s && row[d].dist.Fin?
    ensures PathChain(size, row, s, d, MaxVertices).Some?
    ensures var c := PathChain(size, row, s, d, MaxVertices).value;
      IsPath(adj, c + [d], s, d) &&
      forall q :: IsPath(adj, q, s, d) ==> Weight(adj, c + [d]) <= Weight(adj, q)
  {
    forall w ensures LinkAt(adj, size, s, row, rank, w) {}
    ChainIsPath(adj, size, s, row, rank, d, MaxVertices);
    assert IsShortestDist(adj, s, d, row[d].dist);
  }

  /** printPath as written on an unreachable destination: the predecessor 0
      is not a valid vertex, so the walk prints the diagnostic and then 0. */
  lemma ChainUnreachable(adj: seq<seq<Edge>>, size: nat, s: nat, row: seq<Entry>, d: nat, fuel: nat)
    requires ShortestRow(adj, size, s, row)
    requires 1 <= d <= size && d != s && row[d].dist == Inf && fuel >= 1
    ensures PathChain(size, row, s, d, fuel) == Some([0])
    ensures forall p :: !IsPath(adj, p, s, d)
  {
    assert row[d].path == 0;
    assert PathChain(size, row, s, 0, fuel - 1) == Some([]);
    assert PathChain(size, row, s, d, fuel) == Some([] + [0]);
    assert [] + [0] == [0];
  }
}

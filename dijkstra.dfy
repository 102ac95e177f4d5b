/** dijkstrasAlgo: single-source shortest paths over the adjacency lists with a
    lazily-pruned min-priority queue, filling one row T[source][*] of the table. */
module ShortestPaths {
  import opened GraphTypes
  import opened EdgeLists
  import opened Paths
  import opened Frontier

  /** Every queued entry names a vertex and is never below that vertex's
      current distance (stale entries are above it). */
  ghost predicate QueueSound(size: nat, row: seq<Entry>, pq: seq<AdjacentVertex>) {
    && |row| == MaxVertices && size < MaxVertices
    && forall e :: e in pq ==> 1 <= e.vertexIndex <= size && Le(row[e.vertexIndex].dist, e.dist)
  }

  /** Every unvisited vertex other than `except` is queued at its current distance. */
  ghost predicate QueueComplete(size: nat, row: seq<Entry>, pq: seq<AdjacentVertex>, except: int)
    requires |row| == MaxVertices && size < MaxVertices
  {
    forall v :: 1 <= v <= size && v != except && !row[v].visited ==> AdjacentVertex(v, row[v].dist) in pq
  }

  /** The edge `e` leaving a vertex at distance `du` has been relaxed. */
  predicate EdgeRelaxed(row: seq<Entry>, e: Edge, du: Dist)
    requires e.adjVertex < |row|
  {
    row[e.adjVertex].visited || Le(row[e.adjVertex].dist, Add(du, e.weight))
  }

  /** A finite distance of `v` is the weight of the path recorded for it. */
  ghost predicate ReachedAt(adj: seq<seq<Edge>>, size: nat, s: nat, row: seq<Entry>, trail: seq<seq<int>>, v: int)
    requires |row| == MaxVertices && |trail| == MaxVertices && size < MaxVertices
  {
    1 <= v <= size && row[v].dist.Fin? ==>
      IsPath(adj, trail[v], s, v) && Weight(adj, trail[v]) == row[v].dist.n
  }

  /** Every finite distance is the weight of a recorded path reaching the vertex. */
  ghost predicate Reached(adj: seq<seq<Edge>>, size: nat, s: nat, row: seq<Entry>, trail: seq<seq<int>>)
    requires |row| == MaxVertices && |trail| == MaxVertices && size < MaxVertices
  {
    forall v :: ReachedAt(adj, size, s, row, trail, v)
  }

  /** If `u` is visited, the path `p` to it is no lighter than its distance. */
  ghost predicate SettledAt(adj: seq<seq<Edge>>, size: nat, s: nat, row: seq<Entry>, u: int, p: seq<int>)
    requires |row| == MaxVertices && size < MaxVertices
  {
    1 <= u <= size && row[u].visited && IsPath(adj, p, s, u) ==> Le(row[u].dist, Fin(Weight(adj, p)))
  }

  /** A visited vertex's distance is final: no path to it is lighter. */
  ghost predicate Settled(adj: seq<seq<Edge>>, size: nat, s: nat, row: seq<Entry>)
    requires |row| == MaxVertices && size < MaxVertices
  {
    forall u, p :: SettledAt(adj, size, s, row, u, p)
  }

  /** If `u` is visited and not `cur`, its `k`-th edge has been relaxed. */
  ghost predicate ClosedAt(adj: seq<seq<Edge>>, size: nat, row: seq<Entry>, cur: int, u: int, k: int)
    requires WellFormed(adj, size) && |row| == MaxVertices
  {
    1 <= u <= size && u != cur && row[u].visited && 0 <= k < |adj[u]| ==>
      EdgeRelaxed(row, adj[u][k], row[u].dist)
  }

  /** Every edge out of a visited vertex other than `cur` has been relaxed. */
  ghost predicate Closed(adj: seq<seq<Edge>>, size: nat, row: seq<Entry>, cur: int)
    requires WellFormed(adj, size) && |row| == MaxVertices
  {
    forall u, k :: ClosedAt(adj, size, row, cur, u, k)
  }

  /** `w`, when not the source, has no predecessor if it is at infinity and
      otherwise a predecessor visited in an earlier round that closes its distance. */
  ghost predicate PredAt(adj: seq<seq<Edge>>, size: nat, s: nat, row: seq<Entry>, rank: seq<nat>, w: int)
    requires |row| == MaxVertices && |rank| == MaxVertices && size < MaxVertices
  {
    1 <= w <= size && w != s ==>
      if row[w].dist.Inf? then row[w].path == 0
      else PredecessorOk(adj, size, row, w) && row[row[w].path].visited && rank[row[w].path] < rank[w]
  }

  /** Predecessor links of every vertex. */
  ghost predicate Preds(adj: seq<seq<Edge>>, size: nat, s: nat, row: seq<Entry>, rank: seq<nat>)
    requires |row| == MaxVertices && |rank| == MaxVertices && size < MaxVertices
  {
    forall w :: PredAt(adj, size, s, row, rank, w)
  }

  /** A visited `v` carries the number of the round that visited it, below
      `i`; an unvisited one carries size. */
  ghost predicate RankAt(size: nat, row: seq<Entry>, rank: seq<nat>, i: nat, v: int)
    requires |row| == MaxVertices && |rank| == MaxVertices && size < MaxVertices
  {
    1 <= v <= size ==>
      (row[v].visited ==> rank[v] + 1 < i) && (!row[v].visited ==> rank[v] == size)
  }

  /** Visit ranks of every vertex. */
  ghost predicate Ranks(size: nat, row: seq<Entry>, rank: seq<nat>, i: nat)
    requires |row| == MaxVertices && |rank| == MaxVertices && size < MaxVertices
  {
    forall v :: RankAt(size, row, rank, i, v)
  }

  /** The state of one run of the algorithm between steps. `cur` is the vertex
      whose edges are being relaxed (0 when none); `i` bounds the visit ranks. */
  ghost predicate Inv(adj: seq<seq<Edge>>, size: nat, s: nat, row: seq<Entry>,
                      trail: seq<seq<int>>, rank: seq<nat>, i: nat, cur: int)
  {
    && WellFormed(adj, size)
    && 1 <= s <= size
    && |row| == MaxVertices && |trail| == MaxVertices && |rank| == MaxVertices
    && row[s].dist == Fin(0) && row[s].path == 0
    && Reached(adj, size, s, row, trail)
    && Settled(adj, size, s, row)
    && Closed(adj, size, row, cur)
    && Preds(adj, size, s, row, rank)
    && Ranks(size, row, rank, i)
  }

  /** The vertices visited so far. */
  ghost function VisitedSet(size: nat, row: seq<Entry>): set<int>
    requires |row| == MaxVertices && size < MaxVertices
  {
    set v | 1 <= v <= size && row[v].visited
  }

  lemma PathAllInRange(adj: seq<seq<Edge>>, size: nat, p: seq<int>, s: int, t: int)
    requires WellFormed(adj, size) && IsPath(adj, p, s, t) && 1 <= s <= size
    ensures forall i :: 0 <= i < |p| ==> 1 <= p[i] <= size
  {
    forall i | 0 <= i < |p| ensures 1 <= p[i] <= size {
      PathInRange(adj, size, p, s, t, i);
    }
  }

  /** The first vertex of a path that is not yet visited. */
  lemma FirstUnvisited(row: seq<Entry>, p: seq<int>) returns (k: nat)
    requires |p| > 0
    requires forall j :: 0 <= j < |p| ==> 0 <= p[j] < |row|
    requires !row[p[|p| - 1]].visited
    ensures k < |p| && !row[p[k]].visited
    ensures forall j :: 0 <= j < k ==> row[p[j]].visited
  {
    k := 0;
    while row[p[k]].visited
      invariant k < |p|
      invariant forall j :: 0 <= j < k ==> row[p[j]].visited
      decreases |p| - k
    {
      k := k + 1;
    }
  }

  /** Where a path first leaves the visited set, the vertex it enters is already
      at a distance no larger than the path's weight. */
  lemma CrossingBound(adj: seq<seq<Edge>>, size: nat, s: nat, row: seq<Entry>,
                      trail: seq<seq<int>>, rank: seq<nat>, i: nat, p: seq<int>, t: int, k: nat)
    requires Inv(adj, size, s, row, trail, rank, i, 0)
    requires IsPath(adj, p, s, t) && k < |p|
    requires forall j :: 0 <= j < |p| ==> 1 <= p[j] <= size
    requires !row[p[k]].visited && forall j :: 0 <= j < k ==> row[p[j]].visited
    ensures Le(row[p[k]].dist, Fin(Weight(adj, p)))
  {
    if k > 0 {
      var u := p[k - 1];
      PrefixPath(adj, p, s, t, k);
      assert SettledAt(adj, size, s, row, u, p[..k]);
      assert HasEdge(adj, u, p[k]);
      assert ClosedAt(adj, size, row, 0, u, Find(adj[u], p[k]).value);
      CrossingStep(adj, p, s, t, k, row[u].dist, row[p[k]].dist);
    }
  }

  /** The distance bound one edge past a settled prefix: if the prefix's end
      is no farther than the prefix weighs, and the next vertex no farther than
      that end plus the edge, then the next vertex is no farther than the path. */
  lemma CrossingStep(adj: seq<seq<Edge>>, p: seq<int>, s: int, t: int, k: nat, du: Dist, dk: Dist)
    requires IsPath(adj, p, s, t) && 0 < k < |p|
    requires IsPath(adj, p[..k], s, p[k - 1]) && HasEdge(adj, p[k - 1], p[k])
    requires Le(du, Fin(Weight(adj, p[..k])))
    requires Le(dk, Add(du, Wt(adj, p[k - 1], p[k])))
    ensures Le(dk, Fin(Weight(adj, p)))
  {
    var q := p[..k];
    AddMonotone(du, Fin(Weight(adj, q)), Wt(adj, p[k - 1], p[k]), 0);
    ExtendPath(adj, q, s, p[k - 1], p[k]);
    assert q + [p[k]] == p[..k + 1];
    PrefixWeight(adj, p, k + 1);
  }

  /** Visiting the nearest unvisited vertex: its distance is final. */
  lemma VisitIsFinal(adj: seq<seq<Edge>>, size: nat, s: nat, row: seq<Entry>,
                     trail: seq<seq<int>>, rank: seq<nat>, i: nat, x: nat)
    requires Inv(adj, size, s, row, trail, rank, i, 0)
    requires 1 <= x <= size && !row[x].visited
    requires forall y :: 1 <= y <= size && !row[y].visited ==> Le(row[x].dist, row[y].dist)
    ensures forall p :: IsPath(adj, p, s, x) ==> Le(row[x].dist, Fin(Weight(adj, p)))
  {
    forall p | IsPath(adj, p, s, x) ensures Le(row[x].dist, Fin(Weight(adj, p))) {
      PathAllInRange(adj, size, p, s, x);
      var k := FirstUnvisited(row, p);
      CrossingBound(adj, size, s, row, trail, rank, i, p, x, k);
    }
  }

  /** When at most one vertex is unvisited, every distance is final. */
  lemma AllFinal(adj: seq<seq<Edge>>, size: nat, s: nat, row: seq<Entry>,
                 trail: seq<seq<int>>, rank: seq<nat>, i: nat)
    requires Inv(adj, size, s, row, trail, rank, i, 0)
    requires forall v, y :: 1 <= v <= size && 1 <= y <= size && !row[v].visited && !row[y].visited ==> v == y
    ensures forall w, p :: 1 <= w <= size && IsPath(adj, p, s, w) ==> Le(row[w].dist, Fin(Weight(adj, p)))
  {
    forall w, p | 1 <= w <= size && IsPath(adj, p, s, w) ensures Le(row[w].dist, Fin(Weight(adj, p))) {
      if !row[w].visited {
        PathAllInRange(adj, size, p, s, w);
        var k := FirstUnvisited(row, p);
        CrossingBound(adj, size, s, row, trail, rank, i, p, w, k);
      } else {
        assert SettledAt(adj, size, s, row, w, p);
      }
    }
  }

  /** The vertex ids 1..n. */
  ghost function Range(n: nat): (r: set<int>)
    ensures forall v :: v in r <==> 1 <= v <= n
    ensures |r| == n
  {
    if n == 0 then {} else Range(n - 1) + {n}
  }

  lemma SubsetSize(a: set<int>, b: set<int>)
    requires a <= b
    ensures |a| <= |b|
  {
    assert b == a + (b - a);
    assert a * (b - a) == {};
  }

  /** After size - 1 visits, at most one vertex is left unvisited. */
  lemma OneLeft(size: nat, row: seq<Entry>)
    requires |row| == MaxVertices && size < MaxVertices
    requires |VisitedSet(size, row)| + 1 >= size
    ensures forall v, y :: 1 <= v <= size && 1 <= y <= size && !row[v].visited && !row[y].visited ==> v == y
  {
    var vis := VisitedSet(size, row);
    forall v, y | 1 <= v <= size && 1 <= y <= size && !row[v].visited && !row[y].visited
      ensures v == y
    {
      var r := Range(size);
      var gone := {v, y};
      SubsetSize(vis, r - gone);
      assert r == (r - gone) + gone;
      assert (r - gone) * gone == {};
    }
  }

  /** When every vertex is visited, all size of them are counted. */
  lemma AllVisited(size: nat, row: seq<Entry>)
    requires |row| == MaxVertices && size < MaxVertices
    requires forall v :: 1 <= v <= size ==> row[v].visited
    ensures |VisitedSet(size, row)| == size
  {
    assert VisitedSet(size, row) == Range(size);
  }

  /** The state before the first round: only the source is reached, at 0. */
  lemma InitInv(adj: seq<seq<Edge>>, size: nat, s: nat, row: seq<Entry>)
    requires WellFormed(adj, size) && 1 <= s <= size && |row| == MaxVertices
    requires row[s] == Entry(false, Fin(0), 0)
    requires forall w :: 1 <= w <= size && w != s ==> row[w] == FreshEntry
    ensures Inv(adj, size, s, row, seq(MaxVertices, v => [v]), seq(MaxVertices, v => size), 1, 0)
    ensures |VisitedSet(size, row)| == 0
  {
    var trail: seq<seq<int>> := seq(MaxVertices, v => [v]);
    var rank: seq<nat> := seq(MaxVertices, v => size);
    forall v ensures ReachedAt(adj, size, s, row, trail, v) {
      if 1 <= v <= size && row[v].dist.Fin? {
        assert v == s && trail[v] == [s];
      }
    }
    assert VisitedSet(size, row) == {};
  }

  /** Marking the nearest unvisited vertex `x` visited in round `i` keeps the
      invariant, with `x` now the vertex whose edges are in progress. */
  lemma VisitStep(adj: seq<seq<Edge>>, size: nat, s: nat, row: seq<Entry>,
                  trail: seq<seq<int>>, rank: seq<nat>, i: nat, x: nat)
    requires Inv(adj, size, s, row, trail, rank, i, 0)
    requires 1 <= i && 1 <= x <= size && !row[x].visited
    requires forall y :: 1 <= y <= size && !row[y].visited ==> Le(row[x].dist, row[y].dist)
    ensures Inv(adj, size, s, row[x := row[x].(visited := true)], trail, rank[x := i - 1], i + 1, x)
  {
    VisitIsFinal(adj, size, s, row, trail, rank, i, x);
    var row' := row[x := row[x].(visited := true)];
    var rank' := rank[x := i - 1];
    forall v ensures ReachedAt(adj, size, s, row', trail, v) {
      assert ReachedAt(adj, size, s, row, trail, v);
    }
    forall u, p ensures SettledAt(adj, size, s, row', u, p) {
      assert SettledAt(adj, size, s, row, u, p);
    }
    forall u, k ensures ClosedAt(adj, size, row', x, u, k) {
      assert ClosedAt(adj, size, row, 0, u, k);
    }
    forall w ensures PredAt(adj, size, s, row', rank', w) {
      assert PredAt(adj, size, s, row, rank, w);
      if 1 <= w <= size && w != s && row[w].dist.Fin? {
        assert RankAt(size, row, rank, i, row[w].path);
      }
    }
    var next := i + 1;
    forall v ensures RankAt(size, row', rank', next, v) {
      assert RankAt(size, row, rank, i, v);
    }
  }

  /** Marking `x` visited adds it to the visited set and keeps the queue
      sound and complete once `x` itself has been taken off it. */
  lemma VisitQueue(size: nat, row: seq<Entry>, pq: seq<AdjacentVertex>, x: nat)
    requires QueueSound(size, row, pq) && QueueComplete(size, row, pq, x)
    requires 1 <= x <= size && !row[x].visited
    ensures var row' := row[x := row[x].(visited := true)];
      && QueueSound(size, row', pq) && QueueComplete(size, row', pq, 0)
      && VisitedSet(size, row') == VisitedSet(size, row) + {x}
      && x !in VisitedSet(size, row)
  {
  }

  /** A later round number keeps the invariant. */
  lemma InvLater(adj: seq<seq<Edge>>, size: nat, s: nat, row: seq<Entry>,
                 trail: seq<seq<int>>, rank: seq<nat>, i: nat)
    requires Inv(adj, size, s, row, trail, rank, i, 0)
    ensures Inv(adj, size, s, row, trail, rank, i + 1, 0)
  {
    var next := i + 1;
    forall v ensures RankAt(size, row, rank, next, v) {
      assert RankAt(size, row, rank, i, v);
    }
  }

  /** The relaxation under study: the edge adj[x][j] lowers the distance of
      its unvisited target below its current value. */
  ghost predicate Relaxable(adj: seq<seq<Edge>>, size: nat, row: seq<Entry>, x: nat, j: nat)
  {
    && WellFormed(adj, size) && |row| == MaxVertices
    && 1 <= x <= size && row[x].visited && j < |adj[x]|
    && !row[adj[x][j].adjVertex].visited
    && Less(Add(row[x].dist, adj[x][j].weight), row[adj[x][j].adjVertex].dist)
  }

  /** The row after that relaxation: the target gets the lower distance and `x` as predecessor. */
  function Relaxed(adj: seq<seq<Edge>>, size: nat, row: seq<Entry>, x: nat, j: nat): seq<Entry>
    requires WellFormed(adj, size) && |row| == MaxVertices && 1 <= x <= size && j < |adj[x]|
  {
    row[adj[x][j].adjVertex := Entry(false, Add(row[x].dist, adj[x][j].weight), x)]
  }

  lemma RelaxReached(adj: seq<seq<Edge>>, size: nat, s: nat, row: seq<Entry>, trail: seq<seq<int>>, x: nat, j: nat)
    requires Relaxable(adj, size, row, x, j) && |trail| == MaxVertices
    requires Reached(adj, size, s, row, trail)
    ensures var w := adj[x][j].adjVertex;
      Reached(adj, size, s, Relaxed(adj, size, row, x, j), trail[w := trail[x] + [w]])
  {
    var w := adj[x][j].adjVertex;
    var row' := Relaxed(adj, size, row, x, j);
    var trail' := trail[w := trail[x] + [w]];
    FindUnique(adj[x], j);
    assert ReachedAt(adj, size, s, row, trail, x);
    ExtendPath(adj, trail[x], s, x, w);
    forall v ensures ReachedAt(adj, size, s, row', trail', v) {
      if v != w && 0 <= v < MaxVertices {
        assert ReachedAt(adj, size, s, row, trail, v);
        assert row'[v] == row[v] && trail'[v] == trail[v];
      }
    }
  }

  lemma RelaxSettled(adj: seq<seq<Edge>>, size: nat, s: nat, row: seq<Entry>, x: nat, j: nat)
    requires Relaxable(adj, size, row, x, j)
    requires Settled(adj, size, s, row)
    ensures Settled(adj, size, s, Relaxed(adj, size, row, x, j))
  {
    var row' := Relaxed(adj, size, row, x, j);
    forall u, p ensures SettledAt(adj, size, s, row', u, p) {
      assert SettledAt(adj, size, s, row, u, p);
      if u != adj[x][j].adjVertex && 0 <= u < MaxVertices {
        assert row'[u] == row[u];
      }
    }
  }

  lemma RelaxClosed(adj: seq<seq<Edge>>, size: nat, row: seq<Entry>, x: nat, j: nat)
    requires Relaxable(adj, size, row, x, j)
    requires Closed(adj, size, row, x)
    ensures var row' := Relaxed(adj, size, row, x, j);
      && Closed(adj, size, row', x)
      && EdgeRelaxed(row', adj[x][j], row[x].dist)
      && (forall e: Edge :: e.adjVertex < |row| && EdgeRelaxed(row, e, row[x].dist) ==> EdgeRelaxed(row', e, row[x].dist))
  {
    var row' := Relaxed(adj, size, row, x, j);
    forall u, k ensures ClosedAt(adj, size, row', x, u, k) {
      assert ClosedAt(adj, size, row, x, u, k);
      if u != adj[x][j].adjVertex && 0 <= u < MaxVertices {
        assert row'[u] == row[u];
      }
    }
  }

  lemma RelaxPreds(adj: seq<seq<Edge>>, size: nat, s: nat, row: seq<Entry>, rank: seq<nat>, i: nat, x: nat, j: nat)
    requires Relaxable(adj, size, row, x, j) && |rank| == MaxVertices && i <= size + 1
    requires 1 <= s <= size && row[s].dist == Fin(0)
    requires Preds(adj, size, s, row, rank) && Ranks(size, row, rank, i)
    ensures Preds(adj, size, s, Relaxed(adj, size, row, x, j), rank)
    ensures Ranks(size, Relaxed(adj, size, row, x, j), rank, i)
  {
    var w := adj[x][j].adjVertex;
    var row' := Relaxed(adj, size, row, x, j);
    FindUnique(adj[x], j);
    assert RankAt(size, row, rank, i, x);
    assert RankAt(size, row, rank, i, w);
    forall v ensures PredAt(adj, size, s, row', rank, v) {
      if v != w && 0 <= v < MaxVertices {
        assert PredAt(adj, size, s, row, rank, v);
        assert row'[v] == row[v];
        if 1 <= v <= size && v != s && row[v].dist.Fin? {
          assert row'[row[v].path] == row[row[v].path];
        }
      }
    }
    forall v ensures RankAt(size, row', rank, i, v) {
      assert RankAt(size, row, rank, i, v);
    }
  }

  /** Lowering the distance of the unvisited target of the edge adj[x][j]
      keeps the invariant and every edge already relaxed. */
  lemma RelaxStep(adj: seq<seq<Edge>>, size: nat, s: nat, row: seq<Entry>,
                  trail: seq<seq<int>>, rank: seq<nat>, i: nat, x: nat, j: nat)
    requires Inv(adj, size, s, row, trail, rank, i, x) && i <= size + 1
    requires Relaxable(adj, size, row, x, j)
    ensures var w := adj[x][j].adjVertex;
      var row' := Relaxed(adj, size, row, x, j);
      && Inv(adj, size, s, row', trail[w := trail[x] + [w]], rank, i, x)
      && EdgeRelaxed(row', adj[x][j], row[x].dist)
      && (forall e: Edge :: e.adjVertex < |row| && EdgeRelaxed(row, e, row[x].dist) ==> EdgeRelaxed(row', e, row[x].dist))
      && VisitedSet(size, row') == VisitedSet(size, row)
  {
    RelaxReached(adj, size, s, row, trail, x, j);
    RelaxSettled(adj, size, s, row, x, j);
    RelaxClosed(adj, size, row, x, j);
    RelaxPreds(adj, size, s, row, rank, i, x, j);
    var row' := Relaxed(adj, size, row, x, j);
    assert row'[s] == row[s];
    assert VisitedSet(size, row') == VisitedSet(size, row) by {
      forall v | 1 <= v <= size ensures row'[v].visited == row[v].visited {}
    }
  }

  /** Lowering a distance and queueing the new value keeps the queue sound
      (older entries for `w` become stale, never too low) and complete. */
  lemma QueueAfterRelax(size: nat, row: seq<Entry>, pq: seq<AdjacentVertex>, w: nat, nd: Dist, x: nat)
    requires QueueSound(size, row, pq) && QueueComplete(size, row, pq, 0)
    requires 1 <= w <= size && !row[w].visited && Less(nd, row[w].dist)
    ensures var row' := row[w := Entry(false, nd, x)];
      var pq' := pq + [AdjacentVertex(w, nd)];
      QueueSound(size, row', pq') && QueueComplete(size, row', pq', 0)
  {
    var row' := row[w := Entry(false, nd, x)];
    var pq' := pq + [AdjacentVertex(w, nd)];
    forall e | e in pq' ensures 1 <= e.vertexIndex <= size && Le(row'[e.vertexIndex].dist, e.dist) {
      if e in pq {
        assert Le(row[e.vertexIndex].dist, e.dist);
      }
    }
    forall v | 1 <= v <= size && !row'[v].visited ensures AdjacentVertex(v, row'[v].dist) in pq' {
      if v != w {
        assert AdjacentVertex(v, row[v].dist) in pq;
      }
    }
  }

  /** The pops of one round: take nearest entries off the queue, skipping
      stale ones (their vertex is already visited), until an entry names an
      unvisited vertex or the queue is empty. */
  method PopFresh(size: nat, row: seq<Entry>, pq: seq<AdjacentVertex>)
    returns (found: bool, x: nat, rest: seq<AdjacentVertex>)
    requires QueueSound(size, row, pq) && QueueComplete(size, row, pq, 0)
    ensures QueueSound(size, row, rest)
    ensures !found ==> |rest| == 0 && forall v :: 1 <= v <= size ==> row[v].visited
    ensures found ==> 1 <= x <= size && !row[x].visited && QueueComplete(size, row, rest, x)
    ensures found ==> forall y :: 1 <= y <= size && !row[y].visited ==> Le(row[x].dist, row[y].dist)
  {
    found, x, rest := false, 0, pq;
    while !found && |rest| > 0
      invariant QueueSound(size, row, rest)
      invariant !found ==> QueueComplete(size, row, rest, 0)
      invariant found ==> 1 <= x <= size && !row[x].visited && QueueComplete(size, row, rest, x)
      invariant found ==> forall y :: 1 <= y <= size && !row[y].visited ==> Le(row[x].dist, row[y].dist)
      decreases |rest|
    {
      var top;
      top, rest := PopMin(rest);
      if !row[top.vertexIndex].visited {
        found := true;
        x := top.vertexIndex;
        forall y | 1 <= y <= size && !row[y].visited ensures Le(row[x].dist, row[y].dist) {
          assert !Compare(top, AdjacentVertex(y, row[y].dist));
        }
      }
    }
  }

  /** One step of the walk over the edge list of the vertex `x` just visited:
      relax the edge adj[x][j] if its target is unvisited and gets closer
      through `x`, recording `x` as predecessor and queueing the new distance. */
  method RelaxEdge(adj: seq<seq<Edge>>, size: nat, source: nat, row: seq<Entry>, pq: seq<AdjacentVertex>,
                   x: nat, j: nat, ghost trail: seq<seq<int>>, ghost rank: seq<nat>, ghost i: nat)
    returns (row': seq<Entry>, pq': seq<AdjacentVertex>, ghost trail': seq<seq<int>>)
    requires Inv(adj, size, source, row, trail, rank, i, x) && i <= size + 1
    requires 1 <= x <= size && row[x].visited && j < |adj[x]|
    requires QueueSound(size, row, pq) && QueueComplete(size, row, pq, 0)
    ensures Inv(adj, size, source, row', trail', rank, i, x)
    ensures row'[x] == row[x]
    ensures EdgeRelaxed(row', adj[x][j], row[x].dist)
    ensures forall e: Edge :: e.adjVertex < |row| && EdgeRelaxed(row, e, row[x].dist) ==> EdgeRelaxed(row', e, row[x].dist)
    ensures QueueSound(size, row', pq') && QueueComplete(size, row', pq', 0)
    ensures VisitedSet(size, row') == VisitedSet(size, row)
    ensures forall v :: 0 <= v < MaxVertices && !(1 <= v <= size) ==> row'[v] == row[v]
    ensures forall v :: 0 <= v < MaxVertices ==> Le(row'[v].dist, row[v].dist)
    ensures forall v :: 0 <= v < MaxVertices && row'[v] != row[v] ==>
      && v == adj[x][j].adjVertex && !row[v].visited
      && row'[v] == Entry(false, Add(row[x].dist, adj[x][j].weight), x)
  {
    var w := adj[x][j].adjVertex;
    var nd := Add(row[x].dist, adj[x][j].weight);
    if !row[w].visited && Less(nd, row[w].dist) {
      RelaxStep(adj, size, source, row, trail, rank, i, x, j);
      QueueAfterRelax(size, row, pq, w, nd, x);
      trail' := trail[w := trail[x] + [w]];
      row' := Relaxed(adj, size, row, x, j);
      pq' := pq + [AdjacentVertex(w, nd)];
    } else {
      row', pq', trail' := row, pq, trail;
    }
  }

  /** The walk over the edge list of the vertex `x` just visited. */
  method RelaxEdges(adj: seq<seq<Edge>>, size: nat, source: nat, row: seq<Entry>, pq: seq<AdjacentVertex>,
                    x: nat, ghost trail: seq<seq<int>>, ghost rank: seq<nat>, ghost i: nat)
    returns (row': seq<Entry>, pq': seq<AdjacentVertex>, ghost trail': seq<seq<int>>)
    requires Inv(adj, size, source, row, trail, rank, i, x) && i <= size + 1
    requires 1 <= x <= size && row[x].visited
    requires QueueSound(size, row, pq) && QueueComplete(size, row, pq, 0)
    ensures Inv(adj, size, source, row', trail', rank, i, 0)
    ensures QueueSound(size, row', pq') && QueueComplete(size, row', pq', 0)
    ensures VisitedSet(size, row') == VisitedSet(size, row)
    ensures forall v :: 0 <= v < MaxVertices && !(1 <= v <= size) ==> row'[v] == row[v]
  {
    row', pq', trail' := row, pq, trail;
    var j := 0;
    while j < |adj[x]|
      invariant 0 <= j <= |adj[x]|
      invariant Inv(adj, size, source, row', trail', rank, i, x)
      invariant row'[x] == row[x]
      invariant forall k :: 0 <= k < j ==> EdgeRelaxed(row', adj[x][k], row[x].dist)
      invariant QueueSound(size, row', pq') && QueueComplete(size, row', pq', 0)
      invariant VisitedSet(size, row') == VisitedSet(size, row)
      invariant forall v :: 0 <= v < MaxVertices && !(1 <= v <= size) ==> row'[v] == row[v]
    {
      row', pq', trail' := RelaxEdge(adj, size, source, row', pq', x, j, trail', rank, i);
      j := j + 1;
    }
    forall u, k ensures ClosedAt(adj, size, row', 0, u, k) {
      assert ClosedAt(adj, size, row', x, u, k);
    }
  }

  /** One round of the outer loop of dijkstrasAlgo: pop to the nearest
      unvisited vertex, mark it visited and relax its edges; when the queue
      runs dry every vertex is already visited and nothing changes. */
  method Round(adj: seq<seq<Edge>>, size: nat, source: nat, row: seq<Entry>, pq: seq<AdjacentVertex>,
               ghost trail: seq<seq<int>>, ghost rank: seq<nat>, ghost i: nat)
    returns (row': seq<Entry>, pq': seq<AdjacentVertex>, ghost trail': seq<seq<int>>, ghost rank': seq<nat>)
    requires Inv(adj, size, source, row, trail, rank, i, 0) && 1 <= i <= size
    requires QueueSound(size, row, pq) && QueueComplete(size, row, pq, 0)
    requires |VisitedSet(size, row)| == i - 1 || forall v :: 1 <= v <= size ==> row[v].visited
    ensures Inv(adj, size, source, row', trail', rank', i + 1, 0)
    ensures QueueSound(size, row', pq') && QueueComplete(size, row', pq', 0)
    ensures |VisitedSet(size, row')| == i || forall v :: 1 <= v <= size ==> row'[v].visited
    ensures forall v :: 0 <= v < MaxVertices && !(1 <= v <= size) ==> row'[v] == row[v]
  {
    var found, x;
    found, x, pq' := PopFresh(size, row, pq);
    if found {
      VisitStep(adj, size, source, row, trail, rank, i, x);
      VisitQueue(size, row, pq', x);
      var row1 := row[x := row[x].(visited := true)];
      rank' := rank[x := i - 1];
      row', pq', trail' := RelaxEdges(adj, size, source, row1, pq', x, trail, rank', i + 1);
    } else {
      InvLater(adj, size, source, row, trail, rank, i);
      row', trail', rank' := row, trail, rank;
    }
  }

  /** When every distance is final the row is a shortest-path row and the
      visit ranks order the predecessor links. */
  lemma Finish(adj: seq<seq<Edge>>, size: nat, s: nat, row: seq<Entry>,
               trail: seq<seq<int>>, rank: seq<nat>, i: nat)
    requires Inv(adj, size, s, row, trail, rank, i, 0) && i <= size + 1
    requires forall w, p :: 1 <= w <= size && IsPath(adj, p, s, w) ==> Le(row[w].dist, Fin(Weight(adj, p)))
    ensures ShortestRow(adj, size, s, row)
    ensures Ranked(size, s, row, rank)
  {
    forall w | 1 <= w <= size ensures IsShortestDist(adj, s, w, row[w].dist) {
      assert ReachedAt(adj, size, s, row, trail, w);
    }
    forall w | 1 <= w <= size ensures rank[w] <= size {
      assert RankAt(size, row, rank, i, w);
    }
    forall w | 1 <= w <= size && w != s
      ensures row[w].dist == Inf ==> row[w].path == 0
      ensures row[w].dist.Fin? ==> PredecessorOk(adj, size, row, w) && 1 <= row[w].path <= size && rank[row[w].path] < rank[w]
    {
      assert PredAt(adj, size, s, row, rank, w);
    }
  }

  /** dijkstrasAlgo(source): `row0` is T[source][*] as the table reset left it.
      Each of the size - 1 rounds pops entries until one names an unvisited
      vertex (stale entries are skipped without using up the round) or the
      queue runs dry, marks it visited and relaxes its outgoing edges. */
  method Dijkstra(adj: seq<seq<Edge>>, size: nat, source: nat, row0: seq<Entry>)
    returns (row: seq<Entry>, ghost rank: seq<nat>)
    requires WellFormed(adj, size)
    requires 1 <= source <= size
    requires |row0| == MaxVertices
    requires forall w :: 1 <= w <= size ==> row0[w] == FreshEntry
    ensures ShortestRow(adj, size, source, row)
    ensures Ranked(size, source, row, rank)
    ensures forall w :: 0 <= w < MaxVertices && !(1 <= w <= size) ==> row[w] == row0[w]
  {
    row := row0[source := row0[source].(dist := Fin(0))];
    var pq := [AdjacentVertex(source, Fin(0))];
    var d := 1;
    while d <= size
      invariant 1 <= d <= size + 1
      invariant QueueSound(size, row, pq)
      invariant AdjacentVertex(source, Fin(0)) in pq
      invariant forall v :: 1 <= v < d && v != source ==> AdjacentVertex(v, Inf) in pq
    {
      if d != source {
        pq := pq + [FreshAdjacentVertex.(vertexIndex := d)];
      }
      d := d + 1;
    }
    InitInv(adj, size, source, row);
    ghost var trail: seq<seq<int>> := seq(MaxVertices, v => [v]);
    rank := seq(MaxVertices, v => size);
    assert QueueComplete(size, row, pq, 0);
    var i := 1;
    while i < size
      invariant 1 <= i <= size
      invariant Inv(adj, size, source, row, trail, rank, i, 0)
      invariant QueueSound(size, row, pq) && QueueComplete(size, row, pq, 0)
      invariant |VisitedSet(size, row)| == i - 1 || forall v :: 1 <= v <= size ==> row[v].visited
      invariant forall w :: 0 <= w < MaxVertices && !(1 <= w <= size) ==> row[w] == row0[w]
    {
      row, pq, trail, rank := Round(adj, size, source, row, pq, trail, rank, i);
      i := i + 1;
    }
    if |VisitedSet(size, row)| != i - 1 {
      AllVisited(size, row);
    }
    OneLeft(size, row);
    AllFinal(adj, size, source, row, trail, rank, i);
    Finish(adj, size, source, row, trail, rank, i);
  }
}

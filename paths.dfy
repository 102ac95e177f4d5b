/** Paths through the adjacency lists, their weights, and what it means for a
    table row to hold the shortest distances from one source. */
module Paths {
  import opened GraphTypes
  import opened EdgeLists

  /** The invariant the graph store keeps: one list per array slot, empty for
      slot 0 and for slots above `size`, each list naming only vertices 1..size
      and at most once each. */
  predicate WellFormed(adj: seq<seq<Edge>>, size: nat) {
    && |adj| == MaxVertices
    && size < MaxVertices
    && adj[0] == []
    && (forall u :: size < u < MaxVertices ==> adj[u] == [])
    && (forall u :: 0 <= u < MaxVertices ==> UniqueDests(adj[u]))
    && (forall u, k :: 0 <= u < MaxVertices && 0 <= k < |adj[u]| ==> 1 <= adj[u][k].adjVertex <= size)
  }

  /** There is an edge u -> v. */
  predicate HasEdge(adj: seq<seq<Edge>>, u: int, v: int) {
    0 <= u < |adj| && Find(adj[u], v).Some?
  }

  /** The weight of the edge u -> v. */
  function Wt(adj: seq<seq<Edge>>, u: int, v: int): nat
    requires HasEdge(adj, u, v)
  {
    adj[u][Find(adj[u], v).value].weight
  }

  /** Consecutive vertices of `p` are joined by edges. */
  ghost predicate Linked(adj: seq<seq<Edge>>, p: seq<int>) {
    forall i :: 0 <= i < |p| - 1 ==> HasEdge(adj, p[i], p[i + 1])
  }

  /** `p` is a path from `s` to `t` (a single vertex is the empty path). */
  ghost predicate IsPath(adj: seq<seq<Edge>>, p: seq<int>, s: int, t: int) {
    |p| >= 1 && p[0] == s && p[|p| - 1] == t && Linked(adj, p)
  }

  /** Total edge weight of a path. */
  ghost function Weight(adj: seq<seq<Edge>>, p: seq<int>): nat
    requires Linked(adj, p)
    decreases |p|
  {
    if |p| <= 1 then 0
    else
      assert Linked(adj, p[..|p| - 1]);
      Weight(adj, p[..|p| - 1]) + Wt(adj, p[|p| - 2], p[|p| - 1])
  }

  /** `d` is the minimum total edge weight over paths from `s` to `w`
      (infinity exactly when there is no such path). */
  ghost predicate IsShortestDist(adj: seq<seq<Edge>>, s: int, w: int, d: Dist) {
    && (d.Fin? ==> exists p :: IsPath(adj, p, s, w) && Weight(adj, p) == d.n)
    && (forall p :: IsPath(adj, p, s, w) ==> Le(d, Fin(Weight(adj, p))))
  }

  /** The predecessor recorded for `w` is the last hop of a shortest path:
      an edge path -> w whose weight closes the gap between the two distances. */
  ghost predicate PredecessorOk(adj: seq<seq<Edge>>, size: nat, row: seq<Entry>, w: nat)
    requires |row| == MaxVertices && size < MaxVertices && w < MaxVertices
  {
    var v := row[w].path;
    && 1 <= v <= size
    && HasEdge(adj, v, w)
    && row[w].dist == Add(row[v].dist, Wt(adj, v, w))
  }

  /** Row T[s][*] as Dijkstra leaves it: every distance is the shortest one,
      the source is at 0 with no predecessor, an unreachable vertex has no
      predecessor, and every other reached vertex has a consistent predecessor. */
  ghost predicate ShortestRow(adj: seq<seq<Edge>>, size: nat, s: nat, row: seq<Entry>) {
    && |row| == MaxVertices
    && 1 <= s <= size < MaxVertices
    && row[s].dist == Fin(0) && row[s].path == 0
    && (forall w :: 1 <= w <= size ==> IsShortestDist(adj, s, w, row[w].dist))
    && (forall w :: 1 <= w <= size && row[w].dist == Inf ==> row[w].path == 0)
    && (forall w :: 1 <= w <= size && w != s && row[w].dist.Fin? ==> PredecessorOk(adj, size, row, w))
  }

  /** Visit ranks strictly decrease along predecessor links and stay within size. */
  ghost predicate Ranked(size: nat, s: nat, row: seq<Entry>, rank: seq<nat>) {
    && |row| == MaxVertices && |rank| == MaxVertices && size < MaxVertices
    && (forall w :: 1 <= w <= size ==> rank[w] <= size)
    && (forall w :: 1 <= w <= size && w != s && row[w].dist.Fin? ==>
          1 <= row[w].path <= size && rank[row[w].path] < rank[w])
  }

  /** A path stays inside 1..size after its first vertex. */
  lemma PathInRange(adj: seq<seq<Edge>>, size: nat, p: seq<int>, s: int, t: int, i: nat)
    requires WellFormed(adj, size) && IsPath(adj, p, s, t) && 1 <= s <= size
    requires i < |p|
    ensures 1 <= p[i] <= size
  {
    if i > 0 {
      assert HasEdge(adj, p[i - 1], p[i]);
      var k := Find(adj[p[i - 1]], p[i]).value;
      assert adj[p[i - 1]][k].adjVertex == p[i];
    }
  }

  /** Extending a path by one edge adds that edge's weight. */
  lemma ExtendPath(adj: seq<seq<Edge>>, p: seq<int>, s: int, x: int, w: int)
    requires IsPath(adj, p, s, x) && HasEdge(adj, x, w)
    ensures IsPath(adj, p + [w], s, w)
    ensures Weight(adj, p + [w]) == Weight(adj, p) + Wt(adj, x, w)
  {
    var q := p + [w];
    assert q[..|q| - 1] == p;
    assert Linked(adj, q) by {
      forall i | 0 <= i < |q| - 1 ensures HasEdge(adj, q[i], q[i + 1]) {
        if i < |p| - 1 {
          assert q[i] == p[i] && q[i + 1] == p[i + 1];
        }
      }
    }
  }

  /** A prefix of a path is a path to the vertex where it stops. */
  lemma PrefixPath(adj: seq<seq<Edge>>, p: seq<int>, s: int, t: int, k: nat)
    requires IsPath(adj, p, s, t) && 0 < k <= |p|
    ensures IsPath(adj, p[..k], s, p[k - 1])
  {
    var q := p[..k];
    assert Linked(adj, q) by {
      forall i | 0 <= i < |q| - 1 ensures HasEdge(adj, q[i], q[i + 1]) {
        assert q[i] == p[i] && q[i + 1] == p[i + 1];
      }
    }
  }

  /** Weights are non-negative, so a prefix never weighs more than the whole path. */
  lemma {:induction false} PrefixWeight(adj: seq<seq<Edge>>, p: seq<int>, k: nat)
    requires Linked(adj, p) && 0 < k <= |p|
    ensures Linked(adj, p[..k])
    ensures Weight(adj, p[..k]) <= Weight(adj, p)
  {
    assert Linked(adj, p[..k]) by {
      forall i | 0 <= i < k - 1 ensures HasEdge(adj, p[..k][i], p[..k][i + 1]) {
        assert p[..k][i] == p[i] && p[..k][i + 1] == p[i + 1];
      }
    }
    if k < |p| {
      var q := p[..|p| - 1];
      assert Linked(adj, q) by {
        forall i | 0 <= i < |q| - 1 ensures HasEdge(adj, q[i], q[i + 1]) {
          assert q[i] == p[i] && q[i + 1] == p[i + 1];
        }
      }
      PrefixWeight(adj, q, k);
      assert q[..k] == p[..k];
      assert Weight(adj, p) == Weight(adj, q) + Wt(adj, p[|p| - 2], p[|p| - 1]);
    } else {
      assert p[..k] == p;
    }
  }

  /** The shortest distance is unique: two rows that both hold shortest
      distances from `s` agree on every distance. */
  lemma ShortestDistUnique(adj: seq<seq<Edge>>, s: int, w: int, d1: Dist, d2: Dist)
    requires IsShortestDist(adj, s, w, d1) && IsShortestDist(adj, s, w, d2)
    ensures d1 == d2
  {
    if d1.Fin? {
      var p1 :| IsPath(adj, p1, s, w) && Weight(adj, p1) == d1.n;
      assert Le(d2, Fin(Weight(adj, p1)));
    }
    if d2.Fin? {
      var p2 :| IsPath(adj, p2, s, w) && Weight(adj, p2) == d2.n;
      assert Le(d1, Fin(Weight(adj, p2)));
    }
  }

  /** Two shortest-path rows from the same source agree on every distance, so
      recomputing the table from unchanged lists reproduces its distances. */
  lemma ShortestRowsAgree(adj: seq<seq<Edge>>, size: nat, s: nat, row1: seq<Entry>, row2: seq<Entry>)
    requires ShortestRow(adj, size, s, row1) && ShortestRow(adj, size, s, row2)
    ensures forall w :: 1 <= w <= size ==> row1[w].dist == row2[w].dist
  {
    forall w | 1 <= w <= size ensures row1[w].dist == row2[w].dist {
      ShortestDistUnique(adj, s, w, row1[w].dist, row2[w].dist);
    }
  }

  /** A vertex left at infinity is unreachable: no path leads to it. */
  lemma InfiniteMeansUnreachable(adj: seq<seq<Edge>>, s: int, w: int, p: seq<int>)
    requires IsShortestDist(adj, s, w, Inf)
    ensures !IsPath(adj, p, s, w)
  {
  }
}

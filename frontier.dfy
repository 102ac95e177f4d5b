/** The min-priority queue of Dijkstra's algorithm, kept abstract: a bag of
    entries (stale ones included) from which a nearest entry is taken. */
module Frontier {
  import opened GraphTypes

  /** top() followed by pop(): removes an entry that no other entry outranks
      under `Compare`, that is one of minimum distance. */
  method PopMin(pq: seq<AdjacentVertex>) returns (top: AdjacentVertex, rest: seq<AdjacentVertex>)
    requires |pq| > 0
    ensures top in pq
    ensures forall a :: a in pq ==> !Compare(top, a)
    ensures multiset(rest) + multiset{top} == multiset(pq)
    ensures |rest| == |pq| - 1
    ensures forall a :: a in rest ==> a in pq
    ensures forall a :: a in pq && a != top ==> a in rest
  {
    var k := 0;
    var i := 1;
    while i < |pq|
      invariant 0 <= k < i <= |pq|
      invariant forall j :: 0 <= j < i ==> Le(pq[k].dist, pq[j].dist)
    {
      if Less(pq[i].dist, pq[k].dist) {
        k := i;
      }
      i := i + 1;
    }
    top := pq[k];
    rest := pq[..k] + pq[k + 1..];
    assert pq == pq[..k] + [top] + pq[k + 1..];
    forall a | a in pq && a != top ensures a in rest {
      var j :| 0 <= j < |pq| && pq[j] == a;
      if j < k { assert rest[j] == a; } else { assert rest[j - 1] == a; }
    }
  }
}

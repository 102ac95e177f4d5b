/** A vertex's adjacency list, head first, and the list operations the graph
    store is built from: lookup, overwrite-or-prepend, unlinking and copying. */
module EdgeLists {
  import opened GraphTypes

  datatype Option<T> = None | Some(value: T)

  /** Every destination occurs at most once in the list. */
  predicate UniqueDests(es: seq<Edge>) {
    forall i, j :: 0 <= i < j < |es| ==> es[i].adjVertex != es[j].adjVertex
  }

  /** Position of the first node whose adjacent vertex is `dest`: the node the
      traversal in findEdge stops at, or None when it runs off the end. */
  function Find(es: seq<Edge>, dest: int): (r: Option<nat>)
    ensures r.Some? ==> r.value < |es| && es[r.value].adjVertex == dest
    ensures r.Some? ==> forall j :: 0 <= j < r.value ==> es[j].adjVertex != dest
    ensures r.None? <==> forall j :: 0 <= j < |es| ==> es[j].adjVertex != dest
  {
    if es == [] then None
    else if es[0].adjVertex == dest then Some(0)
    else match Find(es[1..], dest)
      case None => None
      case Some(i) => Some(i + 1)
  }

  /** The weight of the edge to `dest`, as findEdge would report it. */
  function Lookup(es: seq<Edge>, dest: int): Option<nat> {
    match Find(es, dest)
    case None => None
    case Some(i) => Some(es[i].weight)
  }

  /** With unique destinations, the node found for `es[k].adjVertex` is `es[k]` itself. */
  lemma FindUnique(es: seq<Edge>, k: nat)
    requires UniqueDests(es) && k < |es|
    ensures Find(es, es[k].adjVertex) == Some(k)
  {
  }

  /** Find only looks at the destinations, not at the weights. */
  lemma {:induction false} FindSameDests(es: seq<Edge>, fs: seq<Edge>, dest: int)
    requires |es| == |fs|
    requires forall j :: 0 <= j < |es| ==> es[j].adjVertex == fs[j].adjVertex
    ensures Find(es, dest) == Find(fs, dest)
  {
    if es != [] && es[0].adjVertex != dest {
      FindSameDests(es[1..], fs[1..], dest);
    }
  }

  /** Prepending a node for another destination shifts the found position by one. */
  lemma FindPrepend(e: Edge, es: seq<Edge>, dest: int)
    requires e.adjVertex != dest
    ensures Find([e] + es, dest) == match Find(es, dest) case None => None case Some(i) => Some(i + 1)
  {
    assert ([e] + es)[1..] == es;
  }

  /** insertEdge on a validated pair: overwrite the weight of the existing node
      for `dest`, or prepend a new node when there is none. */
  function InsertInto(es: seq<Edge>, dest: nat, w: nat): (r: seq<Edge>)
    ensures Lookup(r, dest) == Some(w)
    ensures forall d :: d != dest ==> Lookup(r, d) == Lookup(es, d)
    ensures Find(es, dest).None? ==> r == [Edge(dest, w)] + es
    ensures Find(es, dest).Some? ==>
      |r| == |es| &&
      forall j :: 0 <= j < |es| && j != Find(es, dest).value ==> r[j] == es[j]
    ensures UniqueDests(es) ==> UniqueDests(r)
    ensures forall k :: 0 <= k < |r| ==> r[k] == Edge(dest, w) || r[k] in es
  {
    match Find(es, dest)
    case Some(i) =>
      var r := es[i := Edge(dest, w)];
      assert Lookup(r, dest) == Some(w) by { FindSameDests(r, es, dest); }
      assert forall d :: d != dest ==> Lookup(r, d) == Lookup(es, d) by {
        forall d | d != dest ensures Lookup(r, d) == Lookup(es, d) {
          FindSameDests(r, es, d);
        }
      }
      r
    case None =>
      var r := [Edge(dest, w)] + es;
      assert forall d :: d != dest ==> Lookup(r, d) == Lookup(es, d) by {
        forall d | d != dest ensures Lookup(r, d) == Lookup(es, d) {
          FindPrepend(Edge(dest, w), es, d);
        }
      }
      r
  }

  /** Inserting the same pair twice leaves one node for it, carrying the second weight. */
  lemma InsertTwice(es: seq<Edge>, dest: nat, w1: nat, w2: nat)
    requires UniqueDests(es)
    ensures var r := InsertInto(InsertInto(es, dest, w1), dest, w2);
      Lookup(r, dest) == Some(w2) &&
      |r| == |es| + (if Find(es, dest).None? then 1 else 0) &&
      UniqueDests(r)
  {
    var r1 := InsertInto(es, dest, w1);
    assert Find(r1, dest).Some?;
  }

  /** removeEdge on a validated pair: unlink the first node for `dest`, keeping
      the other nodes in order, or leave the list alone when there is none. */
  function Without(es: seq<Edge>, dest: int): (r: seq<Edge>)
    ensures Find(es, dest).None? ==> r == es
    ensures Find(es, dest).Some? ==>
      |r| == |es| - 1 &&
      r == es[..Find(es, dest).value] + es[Find(es, dest).value + 1..]
    ensures forall d :: d != dest ==> Lookup(r, d) == Lookup(es, d)
    ensures UniqueDests(es) ==> Lookup(r, dest).None? && UniqueDests(r)
    ensures forall k :: 0 <= k < |r| ==> r[k] in es
  {
    match Find(es, dest)
    case None => es
    case Some(i) =>
      var r := es[..i] + es[i + 1..];
      assert forall d :: d != dest ==> Lookup(r, d) == Lookup(es, d) by {
        forall d | d != dest ensures Lookup(r, d) == Lookup(es, d) {
          WithoutLookup(es, i, d);
        }
      }
      r
  }

  /** Past a head for another destination, the lookup is the lookup in the tail. */
  lemma LookupTail(es: seq<Edge>, d: int)
    requires es != [] && es[0].adjVertex != d
    ensures Lookup(es, d) == Lookup(es[1..], d)
  {
    match Find(es[1..], d)
    case None =>
    case Some(k) => assert es[1..][k] == es[k + 1];
  }

  /** Unlinking the first node for one destination does not move the first node for another. */
  lemma {:induction false} WithoutLookup(es: seq<Edge>, i: nat, d: int)
    requires i < |es|
    requires forall j :: 0 <= j < i ==> es[j].adjVertex != es[i].adjVertex
    requires d != es[i].adjVertex
    ensures Lookup(es[..i] + es[i + 1..], d) == Lookup(es, d)
  {
    var r := es[..i] + es[i + 1..];
    if i == 0 {
      assert r == es[1..];
      LookupTail(es, d);
    } else if es[0].adjVertex == d {
      assert r[0] == es[0];
      assert Find(r, d) == Some(0) && Find(es, d) == Some(0);
    } else {
      assert r[0] == es[0];
      assert r[1..] == es[1..][..i - 1] + es[1..][i..];
      WithoutLookup(es[1..], i - 1, d);
      LookupTail(r, d);
      LookupTail(es, d);
    }
  }

  /** copyGraphHelper: a node-by-node copy of a list. */
  function CopyList(es: seq<Edge>): (r: seq<Edge>)
    ensures r == es
  {
    if es == [] then []
    else [Edge(es[0].adjVertex, es[0].weight)] + CopyList(es[1..])
  }
}

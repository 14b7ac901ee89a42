/** A vertex of the adjacency-list graph: its id and the ids at the other
    end of its edges. An edge carries nothing but that id, so it is a `nat`. */
module Vertices {

  /** `list` keeps every recorded edge end in insertion order; duplicates
      (parallel edges, repeated self-loop entries) stay distinct. */
  datatype Vertex = Vertex(id: nat, list: seq<nat>)

  /** Number of occurrences of `x` in `s`. */
  function Mult(s: seq<nat>, x: nat): nat
  {
    multiset(s)[x]
  }

  /** The degree of a vertex: one per recorded entry, with multiplicity. */
  function Deg(v: Vertex): (d: nat)
    ensures d == |multiset(v.list)|
    ensures d == 0 <==> v.list == []
  {
    |v.list|
  }

  /** Linear search for `a` among the neighbours of `v`. */
  method Find(v: Vertex, a: int) returns (found: bool)
    ensures found <==> a in v.list
  {
    var i := 0;
    while i < |v.list|
      invariant 0 <= i <= |v.list|
      invariant forall j :: 0 <= j < i ==> v.list[j] != a
    {
      if v.list[i] == a {
        return true;
      }
      i := i + 1;
    }
    return false;
  }

  /** `s` with every occurrence of `a` dropped, the rest kept in order. */
  function Without(s: seq<nat>, a: nat): (r: seq<nat>)
    ensures multiset(r) == multiset(s)[a := 0]
    ensures a !in r
  {
    if s == [] then []
    else
      assert s == [s[0]] + s[1..];
      if s[0] == a then Without(s[1..], a) else [s[0]] + Without(s[1..], a)
  }

  /** Removing an id that is not there leaves the list as it was. */
  lemma {:induction false} WithoutAbsent(s: seq<nat>, a: nat)
    requires a !in s
    ensures Without(s, a) == s
  {
    if s != [] {
      WithoutAbsent(s[1..], a);
    }
  }

  /** The neighbour list of `v` without any edge to `a`; the vertex keeps its id. */
  function RemoveEdge(v: Vertex, a: nat): (r: Vertex)
    ensures r.id == v.id
    ensures forall x :: x != a ==> Mult(r.list, x) == Mult(v.list, x)
    ensures Mult(r.list, a) == 0
    ensures |r.list| == |v.list| - Mult(v.list, a)
  {
    Vertex(v.id, Without(v.list, a))
  }

  /** Removing the same neighbour twice is the same as removing it once. */
  lemma RemoveEdgeIdempotent(v: Vertex, a: nat)
    ensures RemoveEdge(RemoveEdge(v, a), a) == RemoveEdge(v, a)
  {
    WithoutAbsent(Without(v.list, a), a);
  }
}

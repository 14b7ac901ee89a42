/** The two graph operations whose code does not do what their documentation
    says, modelled as written, each beside the input that shows the gap. The
    corrected behaviour is Graphs.Graph.Degree and Graphs.Graph.DeleteVertex. */
module AsWritten {
  import opened Vertices
  import opened Adjacency

  datatype Option<T> = None | Some(value: T)

  /** `degree` as written: the guard rejects only ids strictly above the
      vertex count, so the id equal to it reads past the end of the vector
      (None stands for that out-of-bounds read). `vs` is a well-formed vertex
      vector, so the graph's counter equals |vs|. */
  function DegreeAsWritten(vs: seq<Vertex>, v: nat): (r: Option<nat>)
    ensures r == None <==> v == |vs|
    ensures r.Some? ==> r.value == (if v < |vs| then Deg(vs[v]) else 0)
  {
    if v > |vs| then Some(0)
    else if v < |vs| then Some(Deg(vs[v]))
    else None
  }

  /** Whatever the graph, asking for the degree of the id one past the last
      vertex reads outside the vector instead of answering 0. */
  lemma DegreeReadsPastEnd(vs: seq<Vertex>)
    ensures DegreeAsWritten(vs, |vs|) == None
    ensures DegreeAsWritten(vs, |vs| + 1) == Some(0)
  {
  }

  /** `deleteVertex` as written: the loop runs from the list's beginning up to
      its beginning, so it visits no neighbour, and the vertex's own list is
      never cleared. */
  function DeleteVertexAsWritten(vs: seq<Vertex>, id: nat): (ws: seq<Vertex>)
    requires WellFormed(vs) && id < |vs|
    ensures ws == vs
  {
    RemoveFrom(vs, id, vs[id].list[..0])
  }

  /** A single edge 0-1: deleting vertex 0 as written leaves the edge at both
      ends, where the documented deletion leaves no entry of 0 anywhere. */
  lemma DeleteVertexKeepsEdge()
    ensures var vs := [Vertex(0, [1]), Vertex(1, [0])];
      && WellFormed(vs) && Symmetric(vs)
      && 0 in DeleteVertexAsWritten(vs, 0)[1].list
      && Deg(DeleteVertexAsWritten(vs, 0)[0]) == 1
  {
    var vs := [Vertex(0, [1]), Vertex(1, [0])];
    assert Mult(vs[0].list, 1) == 1 && Mult(vs[1].list, 0) == 1;
    assert Mult(vs[0].list, 0) == 0 && Mult(vs[1].list, 1) == 0;
  }
}

# Adjacency-list graph

A model of `graph.cpp`, a small undirected multigraph stored as adjacency
lists. A `vertex` holds its id and the list of ids at the other end of its
edges. The `graph` holds a vector of vertices indexed by id and the counter
`next`, which is the id the next added vertex gets. An `edge` carries only its
destination id, so the model represents it as a `nat`.

The model has four modules:

- `Vertices` (`vertex.dfy`) — a vertex is a value inside the graph's vector, so
  it is a datatype. The module holds its degree, the linear search `find` and
  the intended `removeEdge`.
- `Adjacency` (`adjacency.dfy`) — the specification functions over the vertex
  vector and the lemmas about them:
  - `WellFormed`: vertex i sits at index i and every neighbour id is in range.
  - `Symmetric`: vertex i lists j exactly as often as j lists i.
  - `Link`: records one edge at both ends.
  - `DegreeSum`, `MaxDegree` and `SelfLoopCount`: the loops of `E`,
    `maximumDegree` and `selfLoops`, written as folds.
  - The handshake lemma: the degree sum equals twice the number of edges
    between distinct vertices plus the number of self-loop entries.
- `Graphs` (`graph.dfy`) — `graph` is a class whose vector is updated in place.
  `Graph` keeps the vector as a `seq<Vertex>` field that its methods reassign.
  Its invariant `Valid` says that `next` counts the vertices and that the
  vector is well formed and symmetric. Every operation keeps this invariant.
  Each loop is proved against the specification function it computes. The
  module ends with the scenario that `main` builds before it reads input.
- `AsWritten` (`findings.dfy`) — `degree` and `deleteVertex` as the code
  writes them, each with the input that shows where it departs from its
  documentation (see Findings).

Symmetry is counted with multiplicity. Parallel edges (from `addEdges` or
`addNode`) and self-loops stay distinct entries. A self-loop made by
`insertEgde` adds one entry to the vertex's own list. A self-loop made by
`addEdges` or `addNode` adds two entries there, because both `push_back`
calls hit the same list.

## Model

| member | source | states |
|---|---|---|
| Vertices.Deg | graph.cpp:81-83 | the degree is the number of entries in the list, counted with multiplicity, and it is 0 exactly when the list is empty |
| Vertices.Find | graph.cpp:69-76 | the linear search returns true if and only if `a` occurs in the vertex's list |
| Vertices.Without | graph.cpp:85-88 | the list without `a` keeps every other entry with its count, and `a` no longer occurs |
| Vertices.RemoveEdge | graph.cpp:85-88 | removing edge `a` keeps the id, drops every entry of `a`, keeps every other neighbour's count, and shortens the list by the count of `a` |
| Vertices.WithoutAbsent | graph.cpp:85-88 | removing an id that is not listed leaves the list unchanged |
| Vertices.RemoveEdgeIdempotent | graph.cpp:85-88 | removing the same edge twice equals removing it once |
| Adjacency.Repeat | graph.cpp:117-120 | the entries a vertex gains from a loop of pushes: n entries, all equal to `x` |
| Adjacency.RepeatMult | graph.cpp:117-120 | `Repeat(x, n)` holds `x` exactly n times and nothing else |
| Adjacency.Doubled | graph.cpp:117-120 | the list a vertex gets when it is linked to every entry of `s`: its length is \|s\| plus the number of times its own id occurs, and it names only entries of `s` |
| Adjacency.DoubledMult | graph.cpp:148-153 | the vertex's own id occurs twice per occurrence in `s`, and every other id occurs as often as in `s` |
| Adjacency.DegreeSum | graph.cpp:201-208 | the running sum of `E`'s loop over the first n vertices is at least the degree of each of them (its exact value in terms of edges is `Handshake`) |
| Adjacency.MaxDegree | graph.cpp:227-234 | the running maximum of `maximumDegree`'s loop over the first n vertices bounds the degree of each of them |
| Adjacency.SelfLoopCount | graph.cpp:248-258 | the number of self-looping vertices among the first n is at most n |
| Adjacency.MaxDegreeIsMaximum | graph.cpp:226-235 | the maximum degree is 0 for no vertices and otherwise equals the degree of some vertex |
| Adjacency.DegreeSumUpdate | graph.cpp:200-209 | replacing one vertex changes the degree sum by the difference of the two degrees |
| Adjacency.SelfLoopCountUpdate | graph.cpp:248-258 | replacing one vertex changes the self-loop count exactly by whether the old and the new vertex list their own id |
| Adjacency.PushBackMult | graph.cpp:118-119 | `PushBack`, the model of each `list.push_back` in the graph, raises the count of the pushed id by one and leaves every other count unchanged |
| Adjacency.Link | graph.cpp:175-176 | recording edge a-b keeps the number of vertices, appends b to a's list and a to b's list, and appends a twice to its own list when a == b |
| Adjacency.LinkAt | graph.cpp:175-176 | after `Link(vs, a, b)` every vertex keeps its id, and vertex k's list grows by b if k is a and by a if k is b, and by nothing otherwise |
| Adjacency.LinkMult | graph.cpp:175-176 | linking a and b adds one entry of b to a's list and one entry of a to b's list, and nothing else |
| Adjacency.LinkOrder | graph.cpp:118-119 | the two pushes of one edge commute: linking a to b equals linking b to a |
| Adjacency.AppendVertexKeepsShape | graph.cpp:116 | appending a fresh vertex with the next id and no edges keeps the vector well formed and symmetric, and keeps the degree sum |
| Adjacency.LinkAllStep | graph.cpp:149-152 | one more pass of the loop links one more id of `s` |
| Adjacency.LinkAllKeepsShape | graph.cpp:148-153 | linking `id` to every id of `s` keeps the vector well formed and symmetric and adds 2·\|s\| to the degree sum |
| Adjacency.LinkAll | graph.cpp:149-152 | the vector after the push loop of `addNode`/`addEdges` has as many vertices as before (each vertex's new contents are stated by `LinkAllShares`) |
| Adjacency.LinkAllShares | graph.cpp:148-153 | after linking `id` to the ids of `s`, every vertex keeps its id, vertex `id` gains exactly `Doubled(s, id)`, and every other vertex k gains exactly one entry of `id` per occurrence of k in `s` |
| Adjacency.LinkKeepsShape | graph.cpp:174-177 | recording an edge at both ends keeps the vector well formed and symmetric and adds 2 to the degree sum |
| Adjacency.SelfLoopKeepsShape | graph.cpp:171-172 | one self-loop entry keeps the vector well formed and symmetric and adds 1 to the degree sum |
| Adjacency.RemoveFrom | graph.cpp:267-273 | a loop calling removeEdge(id) on each vertex of `ks` keeps the number of vertices and every vertex's id (the lists it leaves are stated by `RemoveFromSpec`) |
| Adjacency.RemoveFromSpec | graph.cpp:267-273 | a loop that calls removeEdge(id) on each vertex of `ks` leaves each named vertex without edges to `id`, however often it is named, and leaves every other vertex untouched |
| Adjacency.NotNeighbourBack | graph.cpp:259-274 | in a symmetric graph, a vertex that `id` does not list does not list `id` either |
| Adjacency.IsolateKeepsShape | graph.cpp:259-274 | emptying the list of `id` and removing `id` from every other list keeps the vector well formed and symmetric |
| Adjacency.Handshake | graph.cpp:200-209 | the degree sum is twice the number of edges between distinct vertices plus the number of self-loop entries |
| Graphs.Graph.Empty | graph.cpp:108-110 | the default graph has no vertices and `next` is 0 |
| Graphs.Graph.WithVertices | graph.cpp:135-141 | the graph of k vertices has ids 0 to k-1, no edges, and `next` equal to k |
| Graphs.Graph.AddNode | graph.cpp:115-122 | adding a node appends vertex `next` with list `Doubled(edges, next)`, gives every older vertex k one entry of the new id per occurrence of k in `edges`, raises `next` by one, adds 2·\|edges\| to the degree sum, and keeps the invariant |
| Graphs.Graph.AddEdges | graph.cpp:148-153 | vertex `id` gains `Doubled(edges, id)`, every other vertex k gains one entry of `id` per occurrence of k, no deduplication happens, the degree sum rises by 2·\|edges\|, and the invariant holds |
| Graphs.Graph.InsertEdge | graph.cpp:160-178 | an out-of-range first or second vertex changes nothing; a self-loop appends one entry of its own id; otherwise the edge is recorded at both ends exactly when `first` does not already list `second`; the degree sum and the self-loop count change accordingly |
| Graphs.Graph.V | graph.cpp:192-194 | the number of vertices is the length of the vector |
| Graphs.Graph.E | graph.cpp:200-209 | the edge count is half the degree sum, which equals the number of edges between distinct vertices plus half the self-loop entries |
| Graphs.Graph.Degree | graph.cpp:215-221 | an id in range gets the length of its list, an id out of range gets 0, and no degree exceeds the maximum degree |
| Graphs.Graph.MaximumDegree | graph.cpp:226-235 | the result equals the maximum fold, bounds every degree, is 0 for an empty graph, and equals the degree of some vertex otherwise |
| Graphs.Graph.SelfLoops | graph.cpp:248-258 | the result counts the vertices that list their own id, and it is at most the number of vertices |
| Graphs.Graph.DeleteVertex | graph.cpp:259-274 | vertex `id` keeps its slot with an empty list, every other vertex drops all its entries of `id`, no list names `id` afterwards, and the invariant holds |
| Graphs.NewVertexLinked | graph.cpp:115-122 | the vector that addNode leaves behind is well formed and symmetric, has the new vertex with `Doubled(edges, n)`, and gives each older vertex its share |
| Graphs.DriverScenario | graph.cpp:279-303 | on the graph `main` builds before reading any input (4 vertices, then vertex 0 linked to 3 and 1), the degrees are 2, 1, 0, 1, there are 2 edges, the maximum degree is 2, and there are no self-loops |
| Graphs.DriverGraphFacts | graph.cpp:279-290 | that graph has maximum degree 2 and no self-loops |
| Graphs.InsertTwiceScenario | graph.cpp:160-178 | inserting edge 0-1 twice links it once and then reports it as present, which leaves one edge |
| Graphs.AddTwiceScenario | graph.cpp:148-153 | adding edge 0-1 twice through addEdges leaves two parallel edges |
| AsWritten.DegreeAsWritten | graph.cpp:215-221 | the guard as written answers in range and out of range exactly as the corrected `degree` does, except at the id equal to the vertex count, where it reads outside the vector |
| AsWritten.DegreeReadsPastEnd | graph.cpp:216 | for every graph, the id equal to the vertex count passes the guard, while the id one above it gets 0 |
| AsWritten.DeleteVertexAsWritten | graph.cpp:266-274 | the loop as written visits no neighbour, so deleting a vertex leaves the vector unchanged |
| AsWritten.DeleteVertexKeepsEdge | graph.cpp:266-274 | on the symmetric graph with the single edge 0-1, deleting vertex 0 as written keeps degree 1 on vertex 0, and vertex 1 still lists 0 |

## Left out

- Stream output (`operator<<` for edge, vertex and graph) and stream input (`operator>>`, which reads a pair and calls `insertEgde`) are I/O. The input side is modelled through `InsertEdge`.
- `main`'s reading loop and its printing are I/O. `main` prints its queries only after three `insertEgde` calls with pairs read from standard input. `Graphs.DriverScenario` asks the same queries of the graph `main` builds before that input, so its values are not what `main` prints.
- `averageDegree` uses floating-point division and is not modelled.
- Graphs.Graph.InsertEdge: the diagnostics written to standard output become the `InsertOutcome` value; the message text is not modelled.
- Graphs.Graph.Degree: the "Out of bounds" diagnostic is not modelled; only the returned 0 is.
- `int` width: ids, degrees and counters are unbounded, so overflow of `int` and the `size_t`/`int` comparisons are not modelled.
- Negative ids: ids are `nat`. In the source a negative id indexes outside the vector.
- Graphs.Graph.AddNode: requires every id in `edges` to be at most `next`. Graphs.Graph.AddEdges: requires `id` (when `edges` is non-empty) and every id in `edges` to be below `next`. The source does not check these ids and indexes out of bounds on anything else.
- Graphs.Graph.DeleteVertex: requires `id < next`, because the source indexes `vertexes[id]` without checking.
- The `edge` class reduces to its destination id. Its constructor and `getDestinationVertex` are the identity. Its destructor is declared but never defined, which is a link-time matter outside the model.
- `std::list` is modelled as a sequence. Iterator validity is not modelled.

## Findings

| source | as written | input that shows it | evidently intended | confidence | as-written member | corrected member |
|---|---|---|---|---|---|---|
| graph.cpp:216 | `degree` rejects only `V > next`, so `V == next` passes the guard and reads `vertexes[next]`, one past the end | any graph, `V` equal to the number of vertices | an id that is not a vertex reports degree 0 (`V >= next`) | high; not executed | AsWritten.DegreeReadsPastEnd | Graphs.Graph.Degree |
| graph.cpp:267-268 | the loop in `deleteVertex` stops when the iterator equals `begin()`, so it never runs; the vertex's own list is never cleared either; `removeEdge` calls `remove_if()` with no predicate, which does not compile | edge 0-1, delete vertex 0: both entries stay | every edge at the deleted vertex is removed at both ends and the vertex is left with no edges, as the documentation at graph.cpp:259-265 says | high; not executed | AsWritten.DeleteVertexKeepsEdge | Graphs.Graph.DeleteVertex |

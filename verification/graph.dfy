/** The adjacency-list graph: a vector of vertices indexed by id, and the
    counter `next`, the id the next vertex will get. */
module Graphs {
  import opened Vertices
  import opened Adjacency

  /** What an attempt to insert a single edge did; the first two are the
      out-of-range diagnostics, which change nothing. */
  datatype InsertOutcome = InvalidFirst | InvalidSecond | SelfLoopAdded | Linked | AlreadyLinked

  class Graph {
    var vertexes: seq<Vertex>
    var next: nat

    /** One vertex per id below `next`, each at its own index, neighbour ids
        inside the graph, and every edge recorded at both ends. */
    ghost predicate Valid()
      reads this
    {
      |vertexes| == next && WellFormed(vertexes) && Symmetric(vertexes)
    }

    /** The empty graph. */
    constructor Empty()
      ensures Valid() && next == 0 && vertexes == []
    {
      vertexes := [];
      next := 0;
    }

    /** A graph of k vertices, ids 0 to k - 1, and no edges. */
    constructor WithVertices(k: nat)
      ensures Valid() && next == k
      ensures |vertexes| == k && forall i :: 0 <= i < k ==> vertexes[i] == Vertex(i, [])
    {
      next := 0;
      vertexes := [];
      new;
      var i := 0;
      while i < k
        invariant 0 <= i <= k && |vertexes| == i && next == 0
        invariant forall j :: 0 <= j < i ==> vertexes[j] == Vertex(j, [])
      {
        vertexes := vertexes + [Vertex(i, [])];
        i := i + 1;
      }
      next := k;
    }

    /** Adds vertex `next` linked to every id in `edges`, in order and without
        deduplication. An id equal to the new vertex's own id is in range
        once the vertex is appended, and records two entries on its list. */
    method AddNode(edges: seq<nat>)
      requires Valid()
      requires Below(edges, next + 1)
      modifies this
      ensures Valid()
      ensures next == old(next) + 1
      ensures vertexes[old(next)] == Vertex(old(next), Doubled(edges, old(next)))
      ensures forall k :: 0 <= k < old(next) ==>
        vertexes[k].list == old(vertexes[k].list) + Repeat(old(next), Mult(edges, k))
      ensures DegreeSum(vertexes, next) == old(DegreeSum(vertexes, next)) + 2 * |edges|
    {
      var n := next;
      vertexes := vertexes + [Vertex(n, [])];
      ghost var base := vertexes;
      var i := 0;
      while i < |edges|
        invariant 0 <= i <= |edges| && next == n && |base| == n + 1
        invariant Below(edges[..i], |base|)
        invariant vertexes == LinkAll(base, n, edges[..i])
      {
        var e := edges[i];
        NewVertexStep(base, n, edges, i, vertexes);
        vertexes := vertexes[e := PushBack(vertexes[e], n)];
        vertexes := vertexes[n := PushBack(vertexes[n], e)];
        i := i + 1;
      }
      assert edges[..|edges|] == edges;
      assert vertexes == LinkAll(old(vertexes) + [Vertex(|old(vertexes)|, [])], |old(vertexes)|, edges);
      NewVertexLinked(old(vertexes), edges);
      next := next + 1;
    }

    /** Links vertex `id` to every id in `edges`, in order and without
        deduplication: `id`'s list receives `edges`, each `edges[i]` receives
        `id` once per occurrence, and an occurrence of `id` itself records
        two entries on its own list. */
    method AddEdges(id: nat, edges: seq<nat>)
      requires Valid()
      requires edges != [] ==> id < next
      requires Below(edges, next)
      modifies this
      ensures Valid() && next == old(next)
      ensures forall k :: 0 <= k < next ==>
        vertexes[k].list == old(vertexes[k].list) +
          (if k == id then Doubled(edges, id) else Repeat(id, Mult(edges, k)))
      ensures DegreeSum(vertexes, next) == old(DegreeSum(vertexes, next)) + 2 * |edges|
    {
      var i := 0;
      while i < |edges|
        invariant 0 <= i <= |edges| && next == old(next)
        invariant Below(edges[..i], |old(vertexes)|)
        invariant vertexes == LinkAll(old(vertexes), id, edges[..i])
      {
        var e := edges[i];
        LinkAllStep(old(vertexes), id, edges, i);
        vertexes := vertexes[id := PushBack(vertexes[id], e)];
        vertexes := vertexes[e := PushBack(vertexes[e], id)];
        i := i + 1;
      }
      assert edges[..|edges|] == edges;
      LinkAllKeepsShape(old(vertexes), id, edges);
      LinkAllShares(old(vertexes), id, edges);
    }

    /** Inserts one edge between `first` and `second`. An out-of-range end
        changes nothing; a self-loop appends one entry to that vertex's own
        list; otherwise the edge is recorded at both ends unless `first`
        already lists `second`. */
    method InsertEdge(first: nat, second: nat) returns (outcome: InsertOutcome)
      requires Valid()
      modifies this
      ensures Valid() && next == old(next)
      ensures first >= next ==> outcome == InvalidFirst
      ensures first < next && second >= next ==> outcome == InvalidSecond
      ensures first < next && first == second ==> outcome == SelfLoopAdded
      ensures first < next && second < next && first != second ==>
        outcome == if second in old(vertexes[first].list) then AlreadyLinked else Linked
      ensures outcome in {InvalidFirst, InvalidSecond, AlreadyLinked} ==> vertexes == old(vertexes)
      ensures outcome == SelfLoopAdded ==>
        vertexes == old(vertexes)[first := PushBack(old(vertexes[first]), first)]
      ensures outcome == Linked ==> vertexes == Link(old(vertexes), first, second)
      ensures DegreeSum(vertexes, next) == old(DegreeSum(vertexes, next)) +
        (if outcome == SelfLoopAdded then 1 else if outcome == Linked then 2 else 0)
      ensures SelfLoopCount(vertexes, next) == old(SelfLoopCount(vertexes, next)) +
        (if outcome == SelfLoopAdded && first !in old(vertexes[first].list) then 1 else 0)
    {
      if first >= next {
        return InvalidFirst;
      } else if second >= next {
        return InvalidSecond;
      }
      if first == second {
        SelfLoopKeepsShape(vertexes, first);
        SelfLoopCountUpdate(vertexes, first, PushBack(vertexes[first], first), next);
        vertexes := vertexes[first := PushBack(vertexes[first], first)];
        outcome := SelfLoopAdded;
      } else {
        var present := Find(vertexes[first], second);
        if !present {
          var vs0 := vertexes;
          var vs1 := vs0[first := PushBack(vs0[first], second)];
          LinkKeepsShape(vs0, first, second);
          SelfLoopCountUpdate(vs0, first, PushBack(vs0[first], second), next);
          SelfLoopCountUpdate(vs1, second, PushBack(vs1[second], first), next);
          vertexes := vertexes[first := PushBack(vertexes[first], second)];
          vertexes := vertexes[second := PushBack(vertexes[second], first)];
          outcome := Linked;
        } else {
          outcome := AlreadyLinked;
        }
      }
    }

    /** Number of vertices. */
    function V(): (n: nat)
      reads this
      requires Valid()
      ensures n == |vertexes|
    {
      next
    }

    /** Number of edges: half the degree sum, rounded down. Each edge between
        distinct vertices counts once; self-loop entries count half each. */
    method E() returns (edges: nat)
      requires Valid()
      ensures edges == DegreeSum(vertexes, |vertexes|) / 2
      ensures edges == Links(vertexes) + LoopEntries(vertexes) / 2
    {
      var sum := 0;
      var k := 0;
      while k < |vertexes|
        invariant 0 <= k <= |vertexes|
        invariant sum == DegreeSum(vertexes, k)
      {
        sum := sum + Deg(vertexes[k]);
        k := k + 1;
      }
      Handshake(vertexes);
      edges := sum / 2;
    }

    /** Degree of vertex v; an id outside the graph reports degree 0. */
    function Degree(v: nat): (d: nat)
      reads this
      requires Valid()
      ensures v < next ==> d == |vertexes[v].list|
      ensures v >= next ==> d == 0
      ensures d <= MaxDegree(vertexes, next)
    {
      MaxDegreeIsMaximum(vertexes, next);
      if v >= next then 0 else Deg(vertexes[v])
    }

    /** The largest degree, or 0 for a graph without vertices. */
    method MaximumDegree() returns (max: nat)
      ensures max == MaxDegree(vertexes, |vertexes|)
      ensures forall k :: 0 <= k < |vertexes| ==> Deg(vertexes[k]) <= max
      ensures vertexes == [] ==> max == 0
      ensures vertexes != [] ==> exists k :: 0 <= k < |vertexes| && max == Deg(vertexes[k])
    {
      max := 0;
      var k := 0;
      while k < |vertexes|
        invariant 0 <= k <= |vertexes|
        invariant max == MaxDegree(vertexes, k)
      {
        if Deg(vertexes[k]) > max {
          max := Deg(vertexes[k]);
        }
        k := k + 1;
      }
      MaxDegreeIsMaximum(vertexes, |vertexes|);
    }

    /** Number of vertices that list their own id at least once. */
    method SelfLoops() returns (loops: nat)
      ensures loops == SelfLoopCount(vertexes, |vertexes|)
      ensures loops <= |vertexes|
    {
      loops := 0;
      var k := 0;
      while k < |vertexes|
        invariant 0 <= k <= |vertexes|
        invariant loops == SelfLoopCount(vertexes, k)
      {
        var found := Find(vertexes[k], vertexes[k].id);
        if found {
          loops := loops + 1;
        }
        k := k + 1;
      }
    }

    /** Deletes vertex `id` by removing its edges: its own list is emptied and
        every other vertex drops every entry naming `id`. The vertex slot and
        all ids stay. */
    method DeleteVertex(id: nat)
      requires Valid() && id < next
      modifies this
      ensures Valid() && next == old(next)
      ensures vertexes[id] == Vertex(id, [])
      ensures forall k :: 0 <= k < next && k != id ==> vertexes[k] == RemoveEdge(old(vertexes[k]), id)
      ensures forall k :: 0 <= k < next ==> id !in vertexes[k].list
    {
      var neighbours := vertexes[id].list;
      assert Below(neighbours, next) by {
        forall j | 0 <= j < |neighbours|
          ensures neighbours[j] < next
        {
          assert neighbours[j] in vertexes[id].list;
        }
      }
      var i := 0;
      while i < |neighbours|
        invariant 0 <= i <= |neighbours|
        invariant |vertexes| == next && next == old(next)
        invariant Below(neighbours[..i], next)
        invariant vertexes == RemoveFrom(old(vertexes), id, neighbours[..i])
      {
        var k := neighbours[i];
        PrefixStep(neighbours, i);
        vertexes := vertexes[k := RemoveEdge(vertexes[k], id)];
        i := i + 1;
      }
      assert neighbours[..|neighbours|] == neighbours;
      RemoveFromSpec(old(vertexes), id, neighbours);
      forall k | 0 <= k < next && k != id && k !in neighbours
        ensures vertexes[k] == RemoveEdge(old(vertexes[k]), id)
      {
        NotNeighbourBack(old(vertexes), id, k);
        WithoutAbsent(old(vertexes[k]).list, id);
      }
      vertexes := vertexes[id := Vertex(id, [])];
      IsolateKeepsShape(old(vertexes), vertexes, id);
    }
  }

  /** One pass of AddNode's loop: pushing the new id `n` onto vertex e's list
      and then e onto n's list links one more id of `edges`. */
  lemma NewVertexStep(base: seq<Vertex>, n: nat, edges: seq<nat>, i: nat, vs: seq<Vertex>)
    requires i < |edges| && n < |base| && Below(edges, |base|)
    requires Below(edges[..i], |base|) && vs == LinkAll(base, n, edges[..i])
    ensures edges[i] < |vs| && Below(edges[..i + 1], |base|)
    ensures var vs1 := vs[edges[i] := PushBack(vs[edges[i]], n)];
      vs1[n := PushBack(vs1[n], edges[i])] == LinkAll(base, n, edges[..i + 1])
  {
    LinkAllStep(base, n, edges, i);
    LinkOrder(vs, edges[i], n);
  }

  /** The vertex vector after AddNode: the new vertex lists `edges` (its own id
      doubled), every older vertex k gains one entry of the new id per
      occurrence of k in `edges`, and the graph stays well formed and symmetric. */
  lemma NewVertexLinked(vs: seq<Vertex>, edges: seq<nat>)
    requires WellFormed(vs) && Symmetric(vs)
    requires Below(edges, |vs| + 1)
    ensures WellFormed(vs + [Vertex(|vs|, [])]) && Symmetric(vs + [Vertex(|vs|, [])])
    ensures var ws := LinkAll(vs + [Vertex(|vs|, [])], |vs|, edges);
      && |ws| == |vs| + 1
      && WellFormed(ws) && Symmetric(ws)
      && ws[|vs|] == Vertex(|vs|, Doubled(edges, |vs|))
      && (forall k :: 0 <= k < |vs| ==> ws[k].list == vs[k].list + Repeat(|vs|, Mult(edges, k)))
      && DegreeSum(ws, |vs| + 1) == DegreeSum(vs, |vs|) + 2 * |edges|
  {
    var base := vs + [Vertex(|vs|, [])];
    AppendVertexKeepsShape(vs);
    LinkAllKeepsShape(base, |vs|, edges);
    LinkAllShares(base, |vs|, edges);
  }

  /** The driver's scenario: four vertices, then vertex 0 linked to 3 and 1. */
  method DriverScenario() returns (d0: nat, d1: nat, d2: nat, d3: nat, e: nat, max: nat, loops: nat)
    ensures d0 == 2 && d1 == 1 && d2 == 0 && d3 == 1
    ensures e == 2 && max == 2 && loops == 0
  {
    var g := new Graph.WithVertices(4);
    assert g.vertexes == [Vertex(0, []), Vertex(1, []), Vertex(2, []), Vertex(3, [])];
    EmptyDegreeSum(g.vertexes, 4);
    g.AddEdges(0, [3, 1]);
    DriverLists();
    assert g.vertexes[0] == Vertex(0, [3, 1]) && g.vertexes[1] == Vertex(1, [0]);
    assert g.vertexes[2] == Vertex(2, []) && g.vertexes[3] == Vertex(3, [0]);
    DriverGraphFacts(g.vertexes);
    d0, d1, d2, d3 := g.Degree(0), g.Degree(1), g.Degree(2), g.Degree(3);
    e := g.E();
    max := g.MaximumDegree();
    loops := g.SelfLoops();
  }

  lemma {:induction false} EmptyDegreeSum(vs: seq<Vertex>, n: nat)
    requires n <= |vs| && forall i :: 0 <= i < n ==> vs[i].list == []
    ensures DegreeSum(vs, n) == 0
  {
    if n > 0 {
      EmptyDegreeSum(vs, n - 1);
    }
  }

  /** The graph the driver builds before reading any input. */
  function DriverGraph(): seq<Vertex>
  {
    [Vertex(0, [3, 1]), Vertex(1, [0]), Vertex(2, []), Vertex(3, [0])]
  }

  lemma DriverLists()
    ensures Doubled([3, 1], 0) == [3, 1]
    ensures Repeat(0, Mult([3, 1], 1)) == [0] && Repeat(0, Mult([3, 1], 2)) == []
    ensures Repeat(0, Mult([3, 1], 3)) == [0]
  {
    assert [3, 1][..1] == [3];
    assert Mult([3, 1], 1) == 1 && Mult([3, 1], 2) == 0 && Mult([3, 1], 3) == 1;
  }

  lemma DriverGraphFacts(vs: seq<Vertex>)
    requires |vs| == 4 && vs[0] == Vertex(0, [3, 1]) && vs[1] == Vertex(1, [0])
    requires vs[2] == Vertex(2, []) && vs[3] == Vertex(3, [0])
    ensures MaxDegree(vs, 4) == 2
    ensures SelfLoopCount(vs, 4) == 0
  {
    assert vs == DriverGraph();
  }

  /** Inserting the same edge twice records it once. */
  method InsertTwiceScenario() returns (first: InsertOutcome, second: InsertOutcome, edges: nat)
    ensures first == Linked && second == AlreadyLinked && edges == 1
  {
    var g := new Graph.WithVertices(2);
    EmptyDegreeSum(g.vertexes, 2);
    assert g.vertexes[0].list == [];
    first := g.InsertEdge(0, 1);
    assert g.vertexes[0].list == [1];
    second := g.InsertEdge(0, 1);
    edges := g.E();
  }

  /** Adding the same edge twice through AddEdges records two parallel edges. */
  method AddTwiceScenario() returns (edges: nat)
    ensures edges == 2
  {
    var g := new Graph.WithVertices(2);
    EmptyDegreeSum(g.vertexes, 2);
    g.AddEdges(0, [1]);
    g.AddEdges(0, [1]);
    edges := g.E();
  }
}

/** Whole-graph facts about a vertex vector: the shape every graph keeps,
    the folds its queries compute, and what appending to a neighbour list
    does to them. */
module Adjacency {
  import opened Vertices

  /** Vertex i sits at index i, and every recorded neighbour is a vertex of the graph. */
  ghost predicate WellFormed(vs: seq<Vertex>)
  {
    forall i :: 0 <= i < |vs| ==>
      vs[i].id == i && forall x :: x in vs[i].list ==> x < |vs|
  }

  /** Every edge is recorded at both ends: i lists j as often as j lists i. */
  ghost predicate Symmetric(vs: seq<Vertex>)
  {
    forall i, j :: 0 <= i < |vs| && 0 <= j < |vs| ==>
      Mult(vs[i].list, j) == Mult(vs[j].list, i)
  }

  /** Vertex `v` with `x` appended to its neighbour list. */
  function PushBack(v: Vertex, x: nat): Vertex
  {
    v.(list := v.list + [x])
  }

  /** One edge entry at each end: `b` appended to `a`'s list, then `a` to `b`'s. */
  function Link(vs: seq<Vertex>, a: nat, b: nat): (r: seq<Vertex>)
    requires a < |vs| && b < |vs|
    ensures |r| == |vs|
    ensures a != b ==> r[a].list == vs[a].list + [b] && r[b].list == vs[b].list + [a]
    ensures a == b ==> r[a].list == vs[a].list + [a, a]
  {
    var vs1 := vs[a := PushBack(vs[a], b)];
    vs1[b := PushBack(vs1[b], a)]
  }

  /** `n` copies of `x`. */
  function Repeat(x: nat, n: nat): (r: seq<nat>)
    ensures |r| == n
    ensures forall y :: y in r ==> y == x
  {
    if n == 0 then [] else Repeat(x, n - 1) + [x]
  }

  /** `n` copies of `x` hold x n times and nothing else. */
  lemma {:induction false} RepeatMult(x: nat, n: nat, y: nat)
    ensures Mult(Repeat(x, n), y) == if y == x then n else 0
  {
    if n > 0 {
      RepeatMult(x, n - 1, y);
      assert multiset(Repeat(x, n)) == multiset(Repeat(x, n - 1)) + multiset{x};
    }
  }

  /** `s` with every occurrence of `x` written twice: what a vertex's own list
      receives when its own id is among the ids it is linked to. */
  function Doubled(s: seq<nat>, x: nat): (r: seq<nat>)
    ensures |r| == |s| + Mult(s, x)
    ensures forall y :: y in r ==> y in s
  {
    if s == [] then []
    else
      var init, last := s[..|s| - 1], s[|s| - 1];
      assert s == init + [last];
      assert multiset(s) == multiset(init) + multiset{last};
      assert forall y :: y in init ==> y in s;
      Doubled(init, x) + (if last == x then [x, x] else [last])
  }

  /** Doubling x keeps every other id's count and doubles x's. */
  lemma {:induction false} DoubledMult(s: seq<nat>, x: nat, y: nat)
    ensures Mult(Doubled(s, x), y) == if y == x then 2 * Mult(s, x) else Mult(s, y)
  {
    if s != [] {
      var init, last := s[..|s| - 1], s[|s| - 1];
      assert s == init + [last];
      DoubledMult(init, x, y);
      var tail := if last == x then [x, x] else [last];
      assert multiset(Doubled(s, x)) == multiset(Doubled(init, x)) + multiset(tail);
      assert multiset(s) == multiset(init) + multiset{last};
    }
  }

  /** Sum of the degrees of the first n vertices. */
  function DegreeSum(vs: seq<Vertex>, n: nat): (s: nat)
    requires n <= |vs|
    ensures forall k :: 0 <= k < n ==> Deg(vs[k]) <= s
  {
    if n == 0 then 0 else DegreeSum(vs, n - 1) + Deg(vs[n - 1])
  }

  /** Largest degree among the first n vertices, starting from 0. */
  function MaxDegree(vs: seq<Vertex>, n: nat): (m: nat)
    requires n <= |vs|
    ensures forall k :: 0 <= k < n ==> Deg(vs[k]) <= m
  {
    if n == 0 then 0
    else if Deg(vs[n - 1]) > MaxDegree(vs, n - 1) then Deg(vs[n - 1])
    else MaxDegree(vs, n - 1)
  }

  /** Number of the first n vertices that list their own id. */
  function SelfLoopCount(vs: seq<Vertex>, n: nat): (c: nat)
    requires n <= |vs|
    ensures c <= n
  {
    if n == 0 then 0
    else SelfLoopCount(vs, n - 1) + (if vs[n - 1].id in vs[n - 1].list then 1 else 0)
  }

  /** Entries of `s` that are ids below m. */
  function CountBelow(s: seq<nat>, m: nat): nat
  {
    if m == 0 then 0 else CountBelow(s, m - 1) + Mult(s, m - 1)
  }

  /** Entries, among the first m vertices, that name vertex j. */
  function ColumnSum(vs: seq<Vertex>, j: nat, m: nat): nat
    requires m <= |vs|
  {
    if m == 0 then 0 else ColumnSum(vs, j, m - 1) + Mult(vs[m - 1].list, j)
  }

  /** Entries of the first a vertices that name an id below b. */
  function BlockSum(vs: seq<Vertex>, a: nat, b: nat): nat
    requires a <= |vs|
  {
    if a == 0 then 0 else BlockSum(vs, a - 1, b) + CountBelow(vs[a - 1].list, b)
  }

  /** Edges between two distinct vertices among the first m, each counted at
      its higher end only. */
  function LinksBelow(vs: seq<Vertex>, m: nat): nat
    requires m <= |vs|
  {
    if m == 0 then 0 else LinksBelow(vs, m - 1) + CountBelow(vs[m - 1].list, m - 1)
  }

  /** Self-loop entries among the first m vertices. */
  function LoopEntriesBelow(vs: seq<Vertex>, m: nat): nat
    requires m <= |vs|
  {
    if m == 0 then 0 else LoopEntriesBelow(vs, m - 1) + Mult(vs[m - 1].list, m - 1)
  }

  /** Number of edges between distinct vertices. */
  function Links(vs: seq<Vertex>): nat
  {
    LinksBelow(vs, |vs|)
  }

  /** Number of self-loop entries, one per list entry of a vertex's own id. */
  function LoopEntries(vs: seq<Vertex>): nat
  {
    LoopEntriesBelow(vs, |vs|)
  }

  // ---------------------------------------------------------------------
  // The maximum degree

  /** The running maximum is one of the degrees it has seen, or 0 when it
      has seen none. */
  lemma {:induction false} MaxDegreeIsMaximum(vs: seq<Vertex>, n: nat)
    requires n <= |vs|
    ensures n == 0 ==> MaxDegree(vs, n) == 0
    ensures n > 0 ==> exists k :: 0 <= k < n && MaxDegree(vs, n) == Deg(vs[k])
  {
    if n > 0 {
      MaxDegreeIsMaximum(vs, n - 1);
      if Deg(vs[n - 1]) > MaxDegree(vs, n - 1) || n == 1 {
        assert MaxDegree(vs, n) == Deg(vs[n - 1]);
      } else {
        var k :| 0 <= k < n - 1 && MaxDegree(vs, n - 1) == Deg(vs[k]);
        assert MaxDegree(vs, n) == Deg(vs[k]);
      }
    }
  }

  // ---------------------------------------------------------------------
  // Replacing one vertex

  /** Replacing vertex k changes the degree sum by the change in k's degree. */
  lemma {:induction false} DegreeSumUpdate(vs: seq<Vertex>, k: nat, v: Vertex, n: nat)
    requires k < |vs| && n <= |vs|
    ensures DegreeSum(vs[k := v], n) ==
      DegreeSum(vs, n) + (if k < n then Deg(v) - Deg(vs[k]) else 0)
  {
    if n > 0 {
      DegreeSumUpdate(vs, k, v, n - 1);
    }
  }

  /** Replacing vertex k (keeping its id) changes the self-loop count only by
      whether k lists itself before and after. */
  lemma {:induction false} SelfLoopCountUpdate(vs: seq<Vertex>, k: nat, v: Vertex, n: nat)
    requires k < |vs| && n <= |vs| && v.id == vs[k].id
    ensures SelfLoopCount(vs[k := v], n) ==
      SelfLoopCount(vs, n)
      + (if k < n && v.id in v.list then 1 else 0)
      - (if k < n && vs[k].id in vs[k].list then 1 else 0)
  {
    if n > 0 {
      SelfLoopCountUpdate(vs, k, v, n - 1);
    }
  }

  /** Appending x to a list adds one occurrence of x and no other. */
  lemma PushBackMult(v: Vertex, x: nat, y: nat)
    ensures Mult(PushBack(v, x).list, y) == Mult(v.list, y) + (if x == y then 1 else 0)
  {
    assert multiset(v.list + [x]) == multiset(v.list) + multiset{x};
  }

  /** Appending a vertex leaves the degree sum of the earlier ones alone. */
  lemma {:induction false} DegreeSumAppend(vs: seq<Vertex>, v: Vertex, n: nat)
    requires n <= |vs|
    ensures DegreeSum(vs + [v], n) == DegreeSum(vs, n)
  {
    if n > 0 {
      DegreeSumAppend(vs, v, n - 1);
    }
  }

  /** A new vertex with the next id and no edges keeps the graph well formed
      and symmetric, and adds nothing to the degree sum. */
  lemma AppendVertexKeepsShape(vs: seq<Vertex>)
    requires WellFormed(vs) && Symmetric(vs)
    ensures WellFormed(vs + [Vertex(|vs|, [])]) && Symmetric(vs + [Vertex(|vs|, [])])
    ensures DegreeSum(vs + [Vertex(|vs|, [])], |vs| + 1) == DegreeSum(vs, |vs|)
  {
    var ws := vs + [Vertex(|vs|, [])];
    DegreeSumAppend(vs, Vertex(|vs|, []), |vs|);
    forall i | 0 <= i < |ws|
      ensures ws[i].id == i && forall x :: x in ws[i].list ==> x < |ws|
    {
      if i < |vs| {
        assert ws[i] == vs[i];
      }
    }
    forall i, j | 0 <= i < |ws| && 0 <= j < |ws|
      ensures Mult(ws[i].list, j) == Mult(ws[j].list, i)
    {
      if i < |vs| && j < |vs| {
        assert ws[i] == vs[i] && ws[j] == vs[j];
        assert Mult(vs[i].list, j) == Mult(vs[j].list, i);
      } else if i < |vs| {
        assert ws[i] == vs[i];
        assert j !in vs[i].list;
      } else if j < |vs| {
        assert ws[j] == vs[j];
        assert i !in vs[j].list;
      }
    }
  }

  /** How Link changes the number of times vertex i lists j. */
  lemma LinkMult(vs: seq<Vertex>, a: nat, b: nat, i: nat, j: nat)
    requires a < |vs| && b < |vs| && i < |vs|
    ensures Mult(Link(vs, a, b)[i].list, j) ==
      Mult(vs[i].list, j) + (if i == a && j == b then 1 else 0) + (if i == b && j == a then 1 else 0)
  {
    var vs1 := vs[a := PushBack(vs[a], b)];
    PushBackMult(vs[a], b, j);
    PushBackMult(vs1[b], a, j);
  }

  /** What linking vertex `id` to each id of `s` in turn appends to vertex k's
      list: `s` itself for k == id (with its own id doubled), otherwise one
      `id` per occurrence of k in `s`. */
  function Added(s: seq<nat>, id: nat, k: nat): seq<nat>
  {
    if k == id then Doubled(s, id) else Repeat(id, Mult(s, k))
  }

  /** `vs` is `base` after linking vertex `id` to each id of `s` in turn. */
  ghost predicate LinkedFrom(base: seq<Vertex>, vs: seq<Vertex>, id: nat, s: seq<nat>)
  {
    |vs| == |base| &&
    forall k :: 0 <= k < |base| ==>
      vs[k].id == base[k].id && vs[k].list == base[k].list + Added(s, id, k)
  }

  /** Vertex k after Link: its list grows by the entries pushed onto it. */
  lemma LinkAt(vs: seq<Vertex>, a: nat, b: nat, k: nat)
    requires a < |vs| && b < |vs| && k < |vs|
    ensures Link(vs, a, b)[k].id == vs[k].id
    ensures Link(vs, a, b)[k].list ==
      vs[k].list + (if k == a then [b] else []) + (if k == b then [a] else [])
  {
  }

  /** The two pushes of Link touch different lists or push the same id, so
      their order does not matter. */
  lemma LinkOrder(vs: seq<Vertex>, a: nat, b: nat)
    requires a < |vs| && b < |vs|
    ensures Link(vs, a, b) == Link(vs, b, a)
  {
  }

  /** Linking one more id extends LinkedFrom by that id. */
  lemma LinkedFromStep(base: seq<Vertex>, vs: seq<Vertex>, id: nat, s: seq<nat>, e: nat)
    requires LinkedFrom(base, vs, id, s) && id < |vs| && e < |vs|
    ensures LinkedFrom(base, Link(vs, id, e), id, s + [e])
  {
    forall k | 0 <= k < |base|
      ensures Link(vs, id, e)[k].id == base[k].id
      ensures Link(vs, id, e)[k].list == base[k].list + Added(s + [e], id, k)
    {
      LinkedFromStepAt(base[k], vs, id, s, e, k);
    }
  }

  /** LinkedFromStep for the single vertex k. */
  lemma LinkedFromStepAt(b: Vertex, vs: seq<Vertex>, id: nat, s: seq<nat>, e: nat, k: nat)
    requires id < |vs| && e < |vs| && k < |vs|
    requires vs[k].id == b.id && vs[k].list == b.list + Added(s, id, k)
    ensures Link(vs, id, e)[k].id == b.id
    ensures Link(vs, id, e)[k].list == b.list + Added(s + [e], id, k)
  {
    var x := if k == id then [e] else [];
    var y := if k == e then [id] else [];
    LinkAt(vs, id, e, k);
    AddedStep(s, id, e, k);
    Associative(vs[k].list, x, y);
    Associative(b.list, Added(s, id, k), x + y);
  }

  /** Regrouping a concatenation, stated apart so that the step above does
      not have to find it among the facts about Link. */
  lemma Associative(a: seq<nat>, b: seq<nat>, c: seq<nat>)
    ensures (a + b) + c == a + (b + c)
  {
  }

  /** Extending a prefix by one element, stated apart so that the loop in
      DeleteVertex does not have to find it among the facts about its state. */
  lemma PrefixStep(s: seq<nat>, i: nat)
    requires i < |s|
    ensures s[..i + 1] == s[..i] + [s[i]]
  {
  }

  /** One more linked id appends to vertex k exactly what Link pushes onto it. */
  lemma AddedStep(s: seq<nat>, id: nat, e: nat, k: nat)
    ensures Added(s + [e], id, k) ==
      Added(s, id, k) + ((if k == id then [e] else []) + (if k == e then [id] else []))
  {
    var t := s + [e];
    if k == id {
      assert t[..|t| - 1] == s;
      assert Doubled(t, id) == Doubled(s, id) + (if e == id then [id, id] else [e]);
    } else {
      assert multiset(t) == multiset(s) + multiset{e};
      if k == e {
        assert Mult(t, k) == Mult(s, k) + 1;
      } else {
        assert Mult(t, k) == Mult(s, k);
      }
    }
  }

  /** Every entry of `s` is an id below m. */
  predicate Below(s: seq<nat>, m: nat)
  {
    forall j :: 0 <= j < |s| ==> s[j] < m
  }

  /** `base` after linking vertex `id` to each id of `s` in turn. */
  function LinkAll(base: seq<Vertex>, id: nat, s: seq<nat>): (vs: seq<Vertex>)
    requires |s| > 0 ==> id < |base|
    requires Below(s, |base|)
    ensures |vs| == |base|
  {
    if s == [] then base
    else
      assert Below(s[..|s| - 1], |base|);
      Link(LinkAll(base, id, s[..|s| - 1]), id, s[|s| - 1])
  }

  /** Linking the prefix one element longer links one more id. */
  lemma LinkAllStep(base: seq<Vertex>, id: nat, s: seq<nat>, i: nat)
    requires i < |s| && id < |base|
    requires Below(s, |base|)
    ensures Below(s[..i], |base|) && Below(s[..i + 1], |base|)
    ensures s[i] < |base|
    ensures LinkAll(base, id, s[..i + 1]) == Link(LinkAll(base, id, s[..i]), id, s[i])
  {
    assert s[..i + 1][..i] == s[..i];
  }

  /** Linking keeps the graph well formed and symmetric and adds two to the
      degree sum per linked id. */
  lemma {:induction false} LinkAllKeepsShape(base: seq<Vertex>, id: nat, s: seq<nat>)
    requires WellFormed(base) && Symmetric(base)
    requires |s| > 0 ==> id < |base|
    requires Below(s, |base|)
    ensures WellFormed(LinkAll(base, id, s)) && Symmetric(LinkAll(base, id, s))
    ensures DegreeSum(LinkAll(base, id, s), |base|) == DegreeSum(base, |base|) + 2 * |s|
  {
    if s != [] {
      var init := s[..|s| - 1];
      assert Below(init, |base|);
      LinkAllKeepsShape(base, id, init);
      LinkKeepsShape(LinkAll(base, id, init), id, s[|s| - 1]);
    }
  }

  /** Linking hands each vertex its share of `s`. */
  lemma {:induction false} LinkAllShares(base: seq<Vertex>, id: nat, s: seq<nat>)
    requires |s| > 0 ==> id < |base|
    requires Below(s, |base|)
    ensures LinkedFrom(base, LinkAll(base, id, s), id, s)
  {
    if s == [] {
      forall k | 0 <= k < |base|
        ensures base[k].list == base[k].list + Added(s, id, k)
      {
        assert Added(s, id, k) == [];
      }
    } else {
      var init := s[..|s| - 1];
      assert Below(init, |base|);
      assert s == init + [s[|s| - 1]];
      LinkAllShares(base, id, init);
      LinkedFromStep(base, LinkAll(base, id, init), id, init, s[|s| - 1]);
    }
  }

  /** Appending one edge entry at each end keeps the graph well formed and
      symmetric and adds two to the degree sum; with a == b it records two
      entries of a on a's own list. */
  lemma LinkKeepsShape(vs: seq<Vertex>, a: nat, b: nat)
    requires WellFormed(vs) && Symmetric(vs)
    requires a < |vs| && b < |vs|
    ensures |Link(vs, a, b)| == |vs|
    ensures WellFormed(Link(vs, a, b)) && Symmetric(Link(vs, a, b))
    ensures DegreeSum(Link(vs, a, b), |vs|) == DegreeSum(vs, |vs|) + 2
  {
    var vs1 := vs[a := PushBack(vs[a], b)];
    DegreeSumUpdate(vs, a, PushBack(vs[a], b), |vs|);
    DegreeSumUpdate(vs1, b, PushBack(vs1[b], a), |vs|);
    LinkKeepsSymmetric(vs, a, b);
    LinkKeepsWellFormed(vs, a, b);
  }

  lemma LinkKeepsSymmetric(vs: seq<Vertex>, a: nat, b: nat)
    requires Symmetric(vs) && a < |vs| && b < |vs|
    ensures Symmetric(Link(vs, a, b))
  {
    var vs2 := Link(vs, a, b);
    forall i, j | 0 <= i < |vs| && 0 <= j < |vs|
      ensures Mult(vs2[i].list, j) == Mult(vs2[j].list, i)
    {
      LinkMult(vs, a, b, i, j);
      LinkMult(vs, a, b, j, i);
      assert Mult(vs[i].list, j) == Mult(vs[j].list, i);
    }
  }

  lemma LinkKeepsWellFormed(vs: seq<Vertex>, a: nat, b: nat)
    requires WellFormed(vs) && a < |vs| && b < |vs|
    ensures WellFormed(Link(vs, a, b))
  {
    var vs2 := Link(vs, a, b);
    forall i | 0 <= i < |vs|
      ensures vs2[i].id == i && forall x :: x in vs2[i].list ==> x < |vs|
    {
      assert vs2[i].id == vs[i].id;
      forall x | x in vs2[i].list
        ensures x < |vs|
      {
        LinkMult(vs, a, b, i, x);
        assert x in vs[i].list || x == a || x == b;
      }
    }
  }

  /** Appending a vertex's own id to its own list keeps the graph well formed
      and symmetric, and adds one to the degree sum. */
  lemma SelfLoopKeepsShape(vs: seq<Vertex>, a: nat)
    requires WellFormed(vs) && Symmetric(vs) && a < |vs|
    ensures WellFormed(vs[a := PushBack(vs[a], a)])
    ensures Symmetric(vs[a := PushBack(vs[a], a)])
    ensures DegreeSum(vs[a := PushBack(vs[a], a)], |vs|) == DegreeSum(vs, |vs|) + 1
  {
    DegreeSumUpdate(vs, a, PushBack(vs[a], a), |vs|);
    var vs1 := vs[a := PushBack(vs[a], a)];
    forall i, j | 0 <= i < |vs| && 0 <= j < |vs|
      ensures Mult(vs1[i].list, j) == Mult(vs1[j].list, i)
    {
      PushBackMult(vs[a], a, j);
      PushBackMult(vs[a], a, i);
      assert Mult(vs[i].list, j) == Mult(vs[j].list, i);
    }
  }

  /** `vs` after removing `id` from the list of every vertex named in `ks`,
      in order: the effect of a loop over `ks` calling removeEdge(id). */
  function RemoveFrom(vs: seq<Vertex>, id: nat, ks: seq<nat>): (ws: seq<Vertex>)
    requires Below(ks, |vs|)
    ensures |ws| == |vs|
    ensures forall k :: 0 <= k < |vs| ==> ws[k].id == vs[k].id
  {
    if ks == [] then vs
    else
      assert Below(ks[..|ks| - 1], |vs|);
      var ws := RemoveFrom(vs, id, ks[..|ks| - 1]);
      ws[ks[|ks| - 1] := RemoveEdge(ws[ks[|ks| - 1]], id)]
  }

  /** Each vertex named in `ks` loses its edges to `id`, however often it is
      named; every other vertex is untouched. */
  lemma {:induction false} RemoveFromSpec(vs: seq<Vertex>, id: nat, ks: seq<nat>)
    requires Below(ks, |vs|)
    ensures forall k :: 0 <= k < |vs| ==>
      RemoveFrom(vs, id, ks)[k] == if k in ks then RemoveEdge(vs[k], id) else vs[k]
  {
    if ks != [] {
      var init, last := ks[..|ks| - 1], ks[|ks| - 1];
      assert Below(init, |vs|);
      assert ks == init + [last];
      RemoveFromSpec(vs, id, init);
      if last in init {
        RemoveEdgeIdempotent(vs[last], id);
      }
    }
  }

  /** In a symmetric graph, a vertex that id does not list does not list id. */
  lemma NotNeighbourBack(vs: seq<Vertex>, id: nat, k: nat)
    requires Symmetric(vs) && id < |vs| && k < |vs| && k !in vs[id].list
    ensures id !in vs[k].list
  {
    assert Mult(vs[id].list, k) == Mult(vs[k].list, id);
  }

  /** Emptying id's list and dropping id from every other list keeps the graph
      well formed and symmetric. */
  lemma IsolateKeepsShape(vs: seq<Vertex>, ws: seq<Vertex>, id: nat)
    requires WellFormed(vs) && Symmetric(vs) && id < |vs| && |ws| == |vs|
    requires ws[id] == Vertex(id, [])
    requires forall k :: 0 <= k < |vs| && k != id ==> ws[k] == RemoveEdge(vs[k], id)
    ensures WellFormed(ws) && Symmetric(ws)
  {
    forall i, j | 0 <= i < |vs| && 0 <= j < |vs|
      ensures Mult(ws[i].list, j) == Mult(ws[j].list, i)
    {
      assert Mult(vs[i].list, j) == Mult(vs[j].list, i);
    }
    forall i | 0 <= i < |vs|
      ensures ws[i].id == i && forall x :: x in ws[i].list ==> x < |vs|
    {
      forall x | x in ws[i].list
        ensures x < |vs|
      {
        assert Mult(ws[i].list, x) > 0;
        assert x in vs[i].list;
      }
    }
  }

  // ---------------------------------------------------------------------
  // The handshake: the degree sum counts every link twice and every loop once

  /** A list whose entries all lie below m has exactly CountBelow(s, m) entries. */
  lemma {:induction false} CountBelowAll(s: seq<nat>, m: nat)
    requires forall x :: x in s ==> x < m
    ensures CountBelow(s, m) == |s|
  {
    if s == [] {
      CountBelowEmpty(m);
    } else {
      var init, last := s[..|s| - 1], s[|s| - 1];
      assert s == init + [last];
      assert forall x :: x in init ==> x in s;
      assert last in s;
      CountBelowAll(init, m);
      CountBelowAppend(init, last, m);
    }
  }

  lemma {:induction false} CountBelowEmpty(m: nat)
    ensures CountBelow([], m) == 0
  {
    if m > 0 {
      CountBelowEmpty(m - 1);
    }
  }

  lemma {:induction false} CountBelowAppend(s: seq<nat>, x: nat, m: nat)
    ensures CountBelow(s + [x], m) == CountBelow(s, m) + (if x < m then 1 else 0)
  {
    if m > 0 {
      CountBelowAppend(s, x, m - 1);
    }
  }

  /** Widening the block by one column adds that column's sum. */
  lemma {:induction false} BlockSumWiden(vs: seq<Vertex>, a: nat, b: nat)
    requires a <= |vs|
    ensures BlockSum(vs, a, b + 1) == BlockSum(vs, a, b) + ColumnSum(vs, b, a)
  {
    if a > 0 {
      BlockSumWiden(vs, a - 1, b);
    }
  }

  /** In a symmetric graph a column sum equals the matching row count. */
  lemma {:induction false} ColumnIsRow(vs: seq<Vertex>, j: nat, m: nat)
    requires Symmetric(vs) && j < |vs| && m <= |vs|
    ensures ColumnSum(vs, j, m) == CountBelow(vs[j].list, m)
  {
    if m > 0 {
      ColumnIsRow(vs, j, m - 1);
      assert Mult(vs[m - 1].list, j) == Mult(vs[j].list, m - 1);
    }
  }

  /** The square block of the first m vertices: two entries per link, one per loop. */
  lemma {:induction false} SquareBlock(vs: seq<Vertex>, m: nat)
    requires Symmetric(vs) && m <= |vs|
    ensures BlockSum(vs, m, m) == 2 * LinksBelow(vs, m) + LoopEntriesBelow(vs, m)
  {
    if m > 0 {
      SquareBlock(vs, m - 1);
      BlockSumWiden(vs, m - 1, m - 1);
      ColumnIsRow(vs, m - 1, m - 1);
    }
  }

  /** When all ids lie below |vs|, the degree sum of a prefix is its block sum. */
  lemma {:induction false} DegreeSumIsBlock(vs: seq<Vertex>, a: nat)
    requires WellFormed(vs) && a <= |vs|
    ensures DegreeSum(vs, a) == BlockSum(vs, a, |vs|)
  {
    if a > 0 {
      DegreeSumIsBlock(vs, a - 1);
      CountBelowAll(vs[a - 1].list, |vs|);
    }
  }

  /** Handshake: in a well-formed symmetric graph, the degree sum is twice the
      number of links plus the number of self-loop entries. */
  lemma Handshake(vs: seq<Vertex>)
    requires WellFormed(vs) && Symmetric(vs)
    ensures DegreeSum(vs, |vs|) == 2 * Links(vs) + LoopEntries(vs)
  {
    DegreeSumIsBlock(vs, |vs|);
    SquareBlock(vs, |vs|);
  }
}

/** What the edge-type filter keeps: a filtered query is the unfiltered one on the edges of that type. */
module EdgeTypes {
  import opened Options
  import opened Cte
  import opened Graphs
  import opened PathQuery
  import opened Pathfinding
  import opened Cycles
  import opened Traversal
  import opened VectorSearch

  /** All nodes, and the edges of one type. */
  function OnlyType(g: Graph, ty: string): Graph {
    Graph(g.nodes, map i | i in g.edges && g.edges[i].edgeType == ty :: g.edges[i])
  }

  ghost predicate SameSteps(w: View, s: View) {
    w.ids == s.ids && forall u, v :: w.Adjacent(u, v) <==> s.Adjacent(u, v)
  }

  lemma FilteredSteps(g: Graph, ids: set<Id>, direction: Direction, ty: string)
    ensures SameSteps(View(ids, g.edges, direction, Some(ty)), View(ids, OnlyType(g, ty).edges, direction, None))
  {
    var w, s := View(ids, g.edges, direction, Some(ty)), View(ids, OnlyType(g, ty).edges, direction, None);
    forall u, v ensures w.Adjacent(u, v) <==> s.Adjacent(u, v) {
      if i :| i in w.edges && w.edges[i].edgeType == ty && Follows(direction, w.edges[i], u, v) {
        assert i in s.edges && s.edges[i] == w.edges[i];
      }
    }
  }

  lemma SameWalks(w: View, s: View)
    requires SameSteps(w, s)
    ensures forall p :: w.IsWalk(p) <==> s.IsWalk(p)
    ensures forall p :: ClosedWalk(w, p) <==> ClosedWalk(s, p)
    ensures forall p :: IsCycle(w, p) <==> IsCycle(s, p)
    ensures forall u, v, k: nat :: w.Reaches(u, v, k) <==> s.Reaches(u, v, k)
    ensures forall u, v, k: nat :: w.Distance(u, v, k) <==> s.Distance(u, v, k)
  {
    forall p ensures w.IsWalk(p) <==> s.IsWalk(p) {
    }
    forall u, v, k: nat ensures w.Reaches(u, v, k) <==> s.Reaches(u, v, k) {
      if p :| w.WalkFromTo(p, u, v) && |p| == k + 1 {
        assert s.WalkFromTo(p, u, v);
      }
      if p :| s.WalkFromTo(p, u, v) && |p| == k + 1 {
        assert w.WalkFromTo(p, u, v);
      }
    }
  }

  /** Walks, distances and cycles under a filter are those of the graph of that type. */
  lemma FilteredGraph(g: Graph, direction: Direction, ty: string)
    ensures var w, s := Whole(g, direction, Some(ty)), Whole(OnlyType(g, ty), direction, None);
      && (forall p :: w.IsWalk(p) <==> s.IsWalk(p))
      && (forall u, v, k: nat :: w.Reaches(u, v, k) <==> s.Reaches(u, v, k))
      && (forall u, v, k: nat :: w.Distance(u, v, k) <==> s.Distance(u, v, k))
      && (forall c :: IsCycle(w, c) <==> IsCycle(s, c))
  {
    FilteredSteps(g, g.nodes.Keys, direction, ty);
    SameWalks(Whole(g, direction, Some(ty)), Whole(OnlyType(g, ty), direction, None));
  }

  /** `shortest_path` and `all_paths` choose from the same rows. */
  lemma FilteredPaths(g: Graph, from: Id, to: Id, maxHops: int, ty: string)
    ensures RowsAt(PathsTable(g, from, maxHops, Some(ty)), to)
         == RowsAt(PathsTable(OnlyType(g, ty), from, maxHops, None), to)
  {
    var h := OnlyType(g, ty);
    FilteredGraph(g, Outgoing, ty);
    forall r
      ensures r in RowsAt(PathsTable(g, from, maxHops, Some(ty)), to)
        <==> r in RowsAt(PathsTable(h, from, maxHops, None), to)
    {
      PathsTableRows(g, from, to, maxHops, Some(ty), r);
      PathsTableRows(h, from, to, maxHops, None, r);
      SameRow(g, h, r.pathIds);
    }
  }

  lemma SameRow(g: Graph, h: Graph, p: seq<Id>)
    requires g.nodes == h.nodes
    ensures Names(NameIn(g), p) == Names(NameIn(h), p)
  {
    forall i | 0 <= i < |p| ensures Names(NameIn(g), p)[i] == Names(NameIn(h), p)[i] {
    }
  }

  /** `find_cycles` reports the same rows. */
  lemma FilteredCycles(g: Graph, maxDepth: int, ty: string)
    ensures ClosedRows(WalkTable(g, maxDepth, Some(ty))) == ClosedRows(WalkTable(OnlyType(g, ty), maxDepth, None))
  {
    var h := OnlyType(g, ty);
    var w, s := Whole(g, Outgoing, Some(ty)), Whole(h, Outgoing, None);
    FilteredSteps(g, g.nodes.Keys, Outgoing, ty);
    SameWalks(w, s);
    forall r
      ensures r in ClosedRows(WalkTable(g, maxDepth, Some(ty))) <==> r in ClosedRows(WalkTable(h, maxDepth, None))
    {
      ClosedRowsAreCycles(g, maxDepth, Some(ty), r);
      ClosedRowsAreCycles(h, maxDepth, None, r);
      SameRow(g, h, r.pathIds);
    }
  }

  lemma FilteredHit(g: Graph, x: Id, direction: Direction, maxDepth: int, ty: string, h: Hit)
    ensures IsHit(g, x, direction, maxDepth, Some(ty), h) <==> IsHit(OnlyType(g, ty), x, direction, maxDepth, None, h)
  {
    FilteredGraph(g, direction, ty);
  }

  /** `neighbors` finds the same hits. */
  lemma FilteredNeighbors(g: Graph, x: Id, direction: Direction, maxDepth: int, ty: string)
    ensures NeighborHits(g, x, direction, maxDepth, Some(ty))
         == NeighborHits(OnlyType(g, ty), x, direction, maxDepth, None)
  {
    forall h
      ensures h in NeighborHits(g, x, direction, maxDepth, Some(ty))
        <==> h in NeighborHits(OnlyType(g, ty), x, direction, maxDepth, None)
    {
      NeighborsAreHits(g, x, direction, maxDepth, Some(ty), h);
      NeighborsAreHits(OnlyType(g, ty), x, direction, maxDepth, None, h);
      FilteredHit(g, x, direction, maxDepth, ty, h);
    }
  }

  /** So do `descendants` and `ancestors`. */
  lemma FilteredTraversals(g: Graph, x: Id, maxDepth: int, ty: string)
    ensures DescendantHits(g, x, maxDepth, Some(ty)) == DescendantHits(OnlyType(g, ty), x, maxDepth, None)
    ensures AncestorHits(g, x, maxDepth, Some(ty)) == AncestorHits(OnlyType(g, ty), x, maxDepth, None)
  {
    NeighborsAgree(g, x, maxDepth, Some(ty));
    NeighborsAgree(OnlyType(g, ty), x, maxDepth, None);
    FilteredNeighbors(g, x, Outgoing, maxDepth, ty);
    FilteredNeighbors(g, x, Incoming, maxDepth, ty);
  }

  /** A closed walk along edges of the type visits only their endpoints. */
  lemma ClosedWalkOfType(g: Graph, ty: string, p: seq<Id>)
    ensures ClosedWalk(Mentioned(g, Some(ty)), p) <==> ClosedWalk(Mentioned(OnlyType(g, ty), None), p)
  {
    var h := OnlyType(g, ty);
    var w, s := Mentioned(g, Some(ty)), Mentioned(h, None);
    FilteredSteps(g, g.AllIds(), Outgoing, ty);
    FilteredSteps(g, h.AllIds(), Outgoing, ty);
    if ClosedWalk(w, p) {
      forall k | 0 <= k < |p| - 1 ensures p[k] in s.ids && s.Adjacent(p[k], p[k + 1]) {
        assert w.Adjacent(p[k], p[k + 1]);
        assert View(g.AllIds(), h.edges, Outgoing, None).Adjacent(p[k], p[k + 1]);
        var i :| i in h.edges && OfType(h.edges[i], None) && Follows(Outgoing, h.edges[i], p[k], p[k + 1]);
      }
      assert p[|p| - 1] == p[0];
    }
    if ClosedWalk(s, p) {
      assert forall i :: i in h.edges ==> i in g.edges && h.edges[i] == g.edges[i];
      assert h.AllIds() <= g.AllIds();
      forall k | 0 <= k < |p| - 1 ensures w.Adjacent(p[k], p[k + 1]) {
        assert s.Adjacent(p[k], p[k + 1]);
        assert View(g.AllIds(), h.edges, Outgoing, None).Adjacent(p[k], p[k + 1]);
      }
    }
  }

  /** `has_cycle` gives the same answer. */
  lemma FilteredHasCycle(g: Graph, maxDepth: int, ty: string)
    ensures HasCycle(g, maxDepth, Some(ty)) <==> HasCycle(OnlyType(g, ty), maxDepth, None)
  {
    HasCycleIffClosedWalk(g, maxDepth, Some(ty));
    HasCycleIffClosedWalk(OnlyType(g, ty), maxDepth, None);
    forall p ensures ClosedWalk(Mentioned(g, Some(ty)), p) <==> ClosedWalk(Mentioned(OnlyType(g, ty), None), p) {
      ClosedWalkOfType(g, ty, p);
    }
  }

  lemma EffectiveOfType(g: Graph, hasBidirectional: bool, ty: string)
    ensures Effective(OnlyType(g, ty), hasBidirectional).edges == OnlyType(Effective(g, hasBidirectional), ty).edges
  {
  }

  /** A walk from a stored node along edges of the type visits only ids that these edges mention. */
  lemma SearchWalkOfType(g: Graph, direction: Direction, hasBidirectional: bool, ty: string, p: seq<Id>)
    requires p != [] && p[0] in g.nodes
    ensures Unjoined(g, direction, hasBidirectional, Some(ty)).IsWalk(p)
       <==> Unjoined(OnlyType(g, ty), direction, hasBidirectional, None).IsWalk(p)
  {
    var h := OnlyType(g, ty);
    var e := Effective(g, hasBidirectional);
    var w, s := Unjoined(g, direction, hasBidirectional, Some(ty)), Unjoined(h, direction, hasBidirectional, None);
    EffectiveOfType(g, hasBidirectional, ty);
    FilteredSteps(e, g.AllIds(), direction, ty);
    FilteredSteps(e, h.AllIds(), direction, ty);
    forall u, v ensures w.Adjacent(u, v) <==> s.Adjacent(u, v) {
      assert View(g.AllIds(), s.edges, direction, None).Adjacent(u, v) <==> w.Adjacent(u, v);
    }
    if w.IsWalk(p) {
      forall k | 0 <= k < |p| ensures p[k] in s.ids {
        if k > 0 {
          assert s.Adjacent(p[k - 1], p[k]);
          var i :| i in s.edges && OfType(s.edges[i], None) && Follows(direction, s.edges[i], p[k - 1], p[k]);
          assert i in h.edges && h.edges[i].source == s.edges[i].source && h.edges[i].target == s.edges[i].target;
        }
      }
    }
    if s.IsWalk(p) {
      assert forall i :: i in h.edges ==> i in g.edges && h.edges[i] == g.edges[i];
      assert h.AllIds() <= g.AllIds();
    }
  }

  lemma SearchDistanceOfType(g: Graph, direction: Direction, hasBidirectional: bool, ty: string, u: Id, v: Id, k: nat)
    requires u in g.nodes
    ensures Unjoined(g, direction, hasBidirectional, Some(ty)).Distance(u, v, k)
       <==> Unjoined(OnlyType(g, ty), direction, hasBidirectional, None).Distance(u, v, k)
  {
    var w := Unjoined(g, direction, hasBidirectional, Some(ty));
    var s := Unjoined(OnlyType(g, ty), direction, hasBidirectional, None);
    forall j: nat ensures w.Reaches(u, v, j) <==> s.Reaches(u, v, j) {
      if p :| w.WalkFromTo(p, u, v) && |p| == j + 1 {
        SearchWalkOfType(g, direction, hasBidirectional, ty, p);
        assert s.WalkFromTo(p, u, v);
      }
      if p :| s.WalkFromTo(p, u, v) && |p| == j + 1 {
        SearchWalkOfType(g, direction, hasBidirectional, ty, p);
        assert w.WalkFromTo(p, u, v);
      }
    }
  }

  lemma FilteredFound(g: Graph, seed: Id, direction: Direction, hasBidirectional: bool, maxHops: int, ty: string,
                      kept: set<Id>, f: Found)
    ensures f in Search(g, seed, direction, hasBidirectional, maxHops, Some(ty), kept)
       <==> f in Search(OnlyType(g, ty), seed, direction, hasBidirectional, maxHops, None, kept)
  {
    SearchFindsDistances(g, seed, direction, hasBidirectional, maxHops, Some(ty), kept, f);
    SearchFindsDistances(OnlyType(g, ty), seed, direction, hasBidirectional, maxHops, None, kept, f);
    if seed in g.nodes && f.hops >= 0 {
      SearchDistanceOfType(g, direction, hasBidirectional, ty, seed, f.id, f.hops);
    }
  }

  lemma SameFound(a: set<Found>, b: set<Found>)
    requires forall f :: f in a <==> f in b
    ensures a == b
  {
  }

  /** The graph vector search finds the same nodes at the same hop counts. */
  lemma FilteredSearch(g: Graph, seed: Id, direction: Direction, hasBidirectional: bool, maxHops: int, ty: string,
                       kept: set<Id>)
    ensures Search(g, seed, direction, hasBidirectional, maxHops, Some(ty), kept)
         == Search(OnlyType(g, ty), seed, direction, hasBidirectional, maxHops, None, kept)
  {
    var a := Search(g, seed, direction, hasBidirectional, maxHops, Some(ty), kept);
    var b := Search(OnlyType(g, ty), seed, direction, hasBidirectional, maxHops, None, kept);
    forall f ensures f in a <==> f in b {
      FilteredFound(g, seed, direction, hasBidirectional, maxHops, ty, kept, f);
    }
    SameFound(a, b);
  }
}

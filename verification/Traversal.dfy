/** `GraphTraversal`: descendants, ancestors, neighbors and `has_cycle`. */
module Traversal {
  import opened Options
  import opened Cte
  import opened Graphs
  import opened PathQuery
  import opened TwoKeys
  import opened Pathfinding
  import opened Cycles

  /** One returned row: node columns plus `path_depth` (`hops` for neighbors). */
  datatype Hit = Hit(id: Id, name: string, depth: int, hops: int)

  // ---------- the join conditions, one per query ----------

  /** `descendants`: the node join alone would also match the current node itself. */
  function DescendantJoin(start: Id, edgeType: Option<string>): Join {
    (e: Edge, cur: Id, n: Id) =>
      && (e.source == cur || (e.bidirectional && e.target == cur))
      && (n == e.target || (e.bidirectional && n == e.source))
      && OfType(e, edgeType) && n != start
  }

  /** `ancestors`: the same with source and target exchanged. */
  function AncestorJoin(start: Id, edgeType: Option<string>): Join {
    (e: Edge, cur: Id, n: Id) =>
      && (e.target == cur || (e.bidirectional && e.source == cur))
      && (n == e.source || (e.bidirectional && n == e.target))
      && OfType(e, edgeType) && n != start
  }

  /** `neighbors`, by direction. */
  function NeighborJoin(direction: Direction, start: Id, edgeType: Option<string>): Join {
    match direction
    case Outgoing =>
      (e: Edge, cur: Id, n: Id) =>
        && (e.source == cur || (e.bidirectional && e.target == cur))
        && ((e.source == cur && n == e.target) || (e.bidirectional && e.target == cur && n == e.source))
        && OfType(e, edgeType) && n != start
    case Incoming =>
      (e: Edge, cur: Id, n: Id) =>
        && (e.target == cur || (e.bidirectional && e.source == cur))
        && ((e.target == cur && n == e.source) || (e.bidirectional && e.source == cur && n == e.target))
        && OfType(e, edgeType) && n != start
    case Both =>
      (e: Edge, cur: Id, n: Id) =>
        && (e.source == cur || e.target == cur)
        && ((e.source == cur && n == e.target) || (e.target == cur && n == e.source))
        && OfType(e, edgeType) && n != start
  }

  // ---------- grouping ----------

  /** The recursive table of a traversal query. */
  function TraversalTable(g: Graph, start: Id, join: Join, maxDepth: int): set<PathRow> {
    PathRows(if start in g.nodes then {start} else {}, g.edges, g.nodes.Keys, join, NameIn(g), maxDepth)
  }

  /**
   `SELECT id, MIN(...) WHERE id != start GROUP BY id`: one row per id with the least hop
   count of its group. Name and depth are columns of the node row, equal in a group.
   */
  function Grouped(g: Graph, start: Id, rows: set<PathRow>): set<Hit> {
    set r | r in rows && r.id != start && r.id in g.nodes
      && (forall q :: q in rows ==> q.id == r.id ==> r.hops <= q.hops)
      :: Hit(r.id, g.nodes[r.id].name, g.nodes[r.id].depth, r.hops)
  }

  function DescendantHits(g: Graph, start: Id, maxDepth: int, edgeType: Option<string>): set<Hit> {
    Grouped(g, start, TraversalTable(g, start, DescendantJoin(start, edgeType), maxDepth))
  }

  function AncestorHits(g: Graph, start: Id, maxDepth: int, edgeType: Option<string>): set<Hit> {
    Grouped(g, start, TraversalTable(g, start, AncestorJoin(start, edgeType), maxDepth))
  }

  function NeighborHits(g: Graph, start: Id, direction: Direction, maxDepth: int, edgeType: Option<string>): set<Hit> {
    Grouped(g, start, TraversalTable(g, start, NeighborJoin(direction, start, edgeType), maxDepth))
  }

  /** A node at distance 1..maxDepth from `start`, shown with its stored columns. */
  ghost predicate IsHit(g: Graph, start: Id, direction: Direction, maxDepth: int, edgeType: Option<string>, h: Hit) {
    && start in g.nodes && h.id in g.nodes
    && h.name == g.nodes[h.id].name && h.depth == g.nodes[h.id].depth
    && 1 <= h.hops <= maxDepth
    && Whole(g, direction, edgeType).Distance(start, h.id, h.hops)
  }

  /** Grouping the recursive table gives exactly the nodes at distance 1..maxDepth. */
  lemma GroupedAreHits(g: Graph, direction: Direction, start: Id, join: Join, maxDepth: int, edgeType: Option<string>,
                       h: Hit)
    requires JoinFollows(join, Whole(g, direction, edgeType), start)
    ensures h in Grouped(g, start, TraversalTable(g, start, join, maxDepth)) <==>
      IsHit(g, start, direction, maxDepth, edgeType, h)
  {
    var w := Whole(g, direction, edgeType);
    var rows := TraversalTable(g, start, join, maxDepth);
    if start in g.nodes {
      if h in Grouped(g, start, rows) {
        var r :| r in rows && r.id != start && r.id in g.nodes
          && (forall q :: q in rows ==> q.id == r.id ==> r.hops <= q.hops)
          && h == Hit(r.id, g.nodes[r.id].name, g.nodes[r.id].depth, r.hops);
        RowIsWalk(w, start, join, NameIn(g), maxDepth, r);
        MinHopsIsDistance(w, start, join, NameIn(g), maxDepth, r);
      }
      if IsHit(g, start, direction, maxDepth, edgeType, h) {
        var d, r := RowExistsForWalk(w, start, join, NameIn(g), maxDepth, h.id, h.hops);
        MinHopsIsDistance(w, start, join, NameIn(g), maxDepth, r);
        RowIsWalk(w, start, join, NameIn(g), maxDepth, r);
        assert d == h.hops;
      }
    }
  }

  lemma JoinsFollow(g: Graph, direction: Direction, start: Id, edgeType: Option<string>)
    ensures JoinFollows(DescendantJoin(start, edgeType), Whole(g, Outgoing, edgeType), start)
    ensures JoinFollows(AncestorJoin(start, edgeType), Whole(g, Incoming, edgeType), start)
    ensures JoinFollows(NeighborJoin(direction, start, edgeType), Whole(g, direction, edgeType), start)
  {
    match direction case Outgoing => case Incoming => case Both =>
  }

  // ---------- the queries ----------

  /** The place of a name in the database's collation. */
  type Collation = string -> int

  /** Exactly the nodes at distance 1..maxDepth along the edges, nearest first, then by name. */
  ghost predicate IsHitList(
      g: Graph, start: Id, direction: Direction, maxDepth: int, edgeType: Option<string>,
      collate: Collation, hits: seq<Hit>)
  {
    && (forall i :: 0 <= i < |hits| ==> IsHit(g, start, direction, maxDepth, edgeType, hits[i]))
    && (forall i, j :: 0 <= i < j < |hits| ==> hits[i].id != hits[j].id && hits[i].hops <= hits[j].hops)
    && (forall i, j :: 0 <= i < j < |hits| && hits[i].hops == hits[j].hops ==>
      collate(hits[i].name) <= collate(hits[j].name))
    && (forall h :: IsHit(g, start, direction, maxDepth, edgeType, h) ==> h in hits)
  }

  /** `ORDER BY MIN(hops), MIN(name)`. */
  method Listed(g: Graph, start: Id, ghost direction: Direction, maxDepth: int, ghost edgeType: Option<string>,
                collate: Collation, rows: set<Hit>)
    returns (hits: seq<Hit>)
    requires forall h :: h in rows <==> IsHit(g, start, direction, maxDepth, edgeType, h)
    ensures IsHitList(g, start, direction, maxDepth, edgeType, collate, hits)
  {
    var first, second := (h: Hit) => h.hops, (h: Hit) => collate(h.name);
    hits := OrderByTwo(rows, first, second, None);
    UnlimitedByTwo(rows, first, second, hits);
    forall i, j | 0 <= i < j < |hits|
      ensures hits[i].id != hits[j].id && hits[i].hops <= hits[j].hops
      ensures hits[i].hops == hits[j].hops ==> collate(hits[i].name) <= collate(hits[j].name)
    {
      assert NotAfter(first, second, hits[i], hits[j]);
      assert hits[i] in rows && hits[j] in rows && hits[i] != hits[j];
    }
  }

  method Descendants(g: Graph, nodeId: Id, maxDepth: int, edgeType: Option<string>, collate: Collation)
    returns (hits: seq<Hit>)
    ensures IsHitList(g, nodeId, Outgoing, maxDepth, edgeType, collate, hits)
  {
    var rows := DescendantHits(g, nodeId, maxDepth, edgeType);
    forall h ensures h in rows <==> IsHit(g, nodeId, Outgoing, maxDepth, edgeType, h) {
      DescendantsAreHits(g, nodeId, maxDepth, edgeType, h);
    }
    hits := Listed(g, nodeId, Outgoing, maxDepth, edgeType, collate, rows);
  }

  method Ancestors(g: Graph, nodeId: Id, maxDepth: int, edgeType: Option<string>, collate: Collation)
    returns (hits: seq<Hit>)
    ensures IsHitList(g, nodeId, Incoming, maxDepth, edgeType, collate, hits)
  {
    var rows := AncestorHits(g, nodeId, maxDepth, edgeType);
    forall h ensures h in rows <==> IsHit(g, nodeId, Incoming, maxDepth, edgeType, h) {
      AncestorsAreHits(g, nodeId, maxDepth, edgeType, h);
    }
    hits := Listed(g, nodeId, Incoming, maxDepth, edgeType, collate, rows);
  }

  datatype TraversalError = UnsupportedDirection(text: string)

  /** An error for any other text than the three directions; otherwise the list for that direction. */
  method Neighbors(g: Graph, nodeId: Id, direction: string, maxDepth: int, edgeType: Option<string>, collate: Collation)
    returns (r: Result<seq<Hit>, TraversalError>)
    ensures r.Err? <==> direction != "outgoing" && direction != "incoming" && direction != "both"
    ensures r.Err? ==> r.error == UnsupportedDirection(direction)
    ensures direction == "outgoing" ==> r.Ok? && IsHitList(g, nodeId, Outgoing, maxDepth, edgeType, collate, r.value)
    ensures direction == "incoming" ==> r.Ok? && IsHitList(g, nodeId, Incoming, maxDepth, edgeType, collate, r.value)
    ensures direction == "both" ==> r.Ok? && IsHitList(g, nodeId, Both, maxDepth, edgeType, collate, r.value)
  {
    assert "outgoing"[0] != "incoming"[0] && |"both"| == 4;
    if direction != "outgoing" && direction != "incoming" && direction != "both" {
      return Err(UnsupportedDirection(direction));
    }
    var d := if direction == "outgoing" then Outgoing else if direction == "incoming" then Incoming else Both;
    var rows := NeighborHits(g, nodeId, d, maxDepth, edgeType);
    forall h ensures h in rows <==> IsHit(g, nodeId, d, maxDepth, edgeType, h) {
      NeighborsAreHits(g, nodeId, d, maxDepth, edgeType, h);
    }
    var hits := Listed(g, nodeId, d, maxDepth, edgeType, collate, rows);
    r := Ok(hits);
  }

  lemma DescendantsAreHits(g: Graph, x: Id, maxDepth: int, edgeType: Option<string>, h: Hit)
    ensures h in DescendantHits(g, x, maxDepth, edgeType) <==> IsHit(g, x, Outgoing, maxDepth, edgeType, h)
  {
    JoinsFollow(g, Outgoing, x, edgeType);
    GroupedAreHits(g, Outgoing, x, DescendantJoin(x, edgeType), maxDepth, edgeType, h);
  }

  lemma AncestorsAreHits(g: Graph, x: Id, maxDepth: int, edgeType: Option<string>, h: Hit)
    ensures h in AncestorHits(g, x, maxDepth, edgeType) <==> IsHit(g, x, Incoming, maxDepth, edgeType, h)
  {
    JoinsFollow(g, Incoming, x, edgeType);
    GroupedAreHits(g, Incoming, x, AncestorJoin(x, edgeType), maxDepth, edgeType, h);
  }

  lemma NeighborsAreHits(g: Graph, x: Id, direction: Direction, maxDepth: int, edgeType: Option<string>, h: Hit)
    ensures h in NeighborHits(g, x, direction, maxDepth, edgeType) <==> IsHit(g, x, direction, maxDepth, edgeType, h)
  {
    JoinsFollow(g, direction, x, edgeType);
    GroupedAreHits(g, direction, x, NeighborJoin(direction, x, edgeType), maxDepth, edgeType, h);
  }

  /** `y` is a descendant of `x` at depth `d` iff `x` is an ancestor of `y` at depth `d`. */
  lemma DescendantsDualToAncestors(g: Graph, x: Id, y: Id, d: int, maxDepth: int, edgeType: Option<string>)
    requires x in g.nodes && y in g.nodes
    ensures Hit(y, g.nodes[y].name, g.nodes[y].depth, d) in DescendantHits(g, x, maxDepth, edgeType)
       <==> Hit(x, g.nodes[x].name, g.nodes[x].depth, d) in AncestorHits(g, y, maxDepth, edgeType)
  {
    DescendantsAreHits(g, x, maxDepth, edgeType, Hit(y, g.nodes[y].name, g.nodes[y].depth, d));
    AncestorsAreHits(g, y, maxDepth, edgeType, Hit(x, g.nodes[x].name, g.nodes[x].depth, d));
    if d >= 0 {
      DistanceFlip(Whole(g, Outgoing, edgeType), x, y, d);
      assert FlipView(Whole(g, Outgoing, edgeType)) == Whole(g, Incoming, edgeType);
    }
  }

  /** The three queries agree where they overlap. */
  lemma NeighborsAgree(g: Graph, x: Id, maxDepth: int, edgeType: Option<string>)
    ensures NeighborHits(g, x, Outgoing, maxDepth, edgeType) == DescendantHits(g, x, maxDepth, edgeType)
    ensures NeighborHits(g, x, Incoming, maxDepth, edgeType) == AncestorHits(g, x, maxDepth, edgeType)
  {
    forall h
      ensures h in NeighborHits(g, x, Outgoing, maxDepth, edgeType) <==> h in DescendantHits(g, x, maxDepth, edgeType)
      ensures h in NeighborHits(g, x, Incoming, maxDepth, edgeType) <==> h in AncestorHits(g, x, maxDepth, edgeType)
    {
      NeighborsAreHits(g, x, Outgoing, maxDepth, edgeType, h);
      NeighborsAreHits(g, x, Incoming, maxDepth, edgeType, h);
      DescendantsAreHits(g, x, maxDepth, edgeType, h);
      AncestorsAreHits(g, x, maxDepth, edgeType, h);
    }
  }

  // ---------- root first ----------

  ghost predicate FarthestFirst(hits: seq<Hit>) {
    forall i, j :: 0 <= i < j < |hits| ==> hits[j].hops <= hits[i].hops
  }

  ghost predicate OneDistance(g: Graph, start: Id, direction: Direction, maxDepth: int, edgeType: Option<string>) {
    forall h, h' | IsHit(g, start, direction, maxDepth, edgeType, h)
      && IsHit(g, start, direction, maxDepth, edgeType, h')
      :: h.hops == h'.hops
  }

  /** A nearest-first list of ancestors has the root end first iff all ancestors are equally far. */
  lemma AncestorsRootFirstIff(g: Graph, x: Id, maxDepth: int, edgeType: Option<string>, collate: Collation,
                              hits: seq<Hit>)
    requires IsHitList(g, x, Incoming, maxDepth, edgeType, collate, hits)
    ensures FarthestFirst(hits) <==> OneDistance(g, x, Incoming, maxDepth, edgeType)
  {
    if FarthestFirst(hits) {
      forall h, h' | IsHit(g, x, Incoming, maxDepth, edgeType, h) && IsHit(g, x, Incoming, maxDepth, edgeType, h')
        ensures h.hops == h'.hops
      {
        var i :| 0 <= i < |hits| && hits[i] == h;
        var j :| 0 <= j < |hits| && hits[j] == h';
      }
    }
  }

  /** Three nodes in a row, named alike. */
  function ChainOfThree(n: Node, t: string): Graph {
    Graph(map[1 := n, 2 := n, 3 := n], map[0 := Edge(1, 2, false, t), 1 := Edge(2, 3, false, t)])
  }

  lemma ChainDistances(n: Node, t: string)
    ensures Whole(ChainOfThree(n, t), Incoming, None).Distance(3, 2, 1)
    ensures Whole(ChainOfThree(n, t), Incoming, None).Distance(3, 1, 2)
  {
    var g := ChainOfThree(n, t);
    var w := Whole(g, Incoming, None);
    assert w.Adjacent(3, 2) by { assert 1 in g.edges && Follows(Incoming, g.edges[1], 3, 2); }
    assert w.Adjacent(2, 1) by { assert 0 in g.edges && Follows(Incoming, g.edges[0], 2, 1); }
    assert w.WalkFromTo([3, 2], 3, 2) && w.WalkFromTo([3, 2, 1], 3, 1);
    forall p, v | w.WalkFromTo(p, 3, v) && v != 3 ensures |p| >= 2 && (v == 1 ==> |p| >= 3) {
      if |p| == 2 {
        assert w.Adjacent(p[0], p[1]);
      }
    }
  }

  /** The ancestors of the last one: the nearest comes first, the root last. */
  lemma RootComesLast(n: Node, t: string, collate: Collation, hits: seq<Hit>)
    requires IsHitList(ChainOfThree(n, t), 3, Incoming, 2, None, collate, hits)
    ensures !FarthestFirst(hits)
  {
    ChainDistances(n, t);
    assert IsHit(ChainOfThree(n, t), 3, Incoming, 2, None, Hit(2, n.name, n.depth, 1));
    assert IsHit(ChainOfThree(n, t), 3, Incoming, 2, None, Hit(1, n.name, n.depth, 2));
    AncestorsRootFirstIff(ChainOfThree(n, t), 3, 2, None, collate, hits);
  }

  // ---------- has_cycle ----------

  datatype ReachRow = ReachRow(eid: EdgeId, fromId: Id, toId: Id, depth: int)

  /** The anchor: every edge of the type, from source to target only, at depth 1. */
  function ReachAnchor(g: Graph, edgeType: Option<string>): set<ReachRow> {
    set i | i in g.edges && OfType(g.edges[i], edgeType) :: ReachRow(i, g.edges[i].source, g.edges[i].target, 1)
  }

  function NextAfter(e: Edge, cur: Id): Id {
    if e.source == cur then e.target else e.source
  }

  /** The recursive term; no path is tracked, only the depth bounds it. */
  function ReachStep(g: Graph, maxDepth: int, edgeType: Option<string>): ReachRow -> set<ReachRow> {
    (r: ReachRow) =>
      set i | i in g.edges
          && (g.edges[i].source == r.toId || (g.edges[i].bidirectional && g.edges[i].target == r.toId))
          && r.depth < maxDepth && OfType(g.edges[i], edgeType)
        :: ReachRow(r.eid, r.fromId, NextAfter(g.edges[i], r.toId), r.depth + 1)
  }

  function ReachLeft(maxDepth: int): ReachRow -> nat {
    (r: ReachRow) => if r.depth < maxDepth then maxDepth - r.depth else 0
  }

  /** `has_cycle`. */
  function HasCycle(g: Graph, maxDepth: int, edgeType: Option<string>): bool {
    var anchor, step := ReachAnchor(g, edgeType), ReachStep(g, maxDepth, edgeType);
    assert Ranked(step, ReachLeft(maxDepth));
    assert RanksBelow(anchor, ReachLeft(maxDepth), Bound(maxDepth));
    exists r :: r in WithRecursive(anchor, step, ReachLeft(maxDepth), Bound(maxDepth)) && r.fromId == r.toId
  }

  /** The graph over every id an edge mentions, stored as a node or not. */
  function Mentioned(g: Graph, edgeType: Option<string>): View {
    View(g.AllIds(), g.edges, Outgoing, edgeType)
  }

  /** A walk whose first edge is taken from its source to its target. */
  ghost predicate StartsForward(g: Graph, edgeType: Option<string>, p: seq<Id>) {
    |p| >= 2 && exists i ::
      i in g.edges && OfType(g.edges[i], edgeType) && g.edges[i].source == p[0] && g.edges[i].target == p[1]
  }

  lemma {:induction false} ReachLevelSound(g: Graph, maxDepth: int, edgeType: Option<string>, k: nat, r: ReachRow)
    returns (p: seq<Id>)
    requires r in Level(ReachAnchor(g, edgeType), ReachStep(g, maxDepth, edgeType), k)
    ensures Mentioned(g, edgeType).WalkFromTo(p, r.fromId, r.toId) && |p| == k + 2
    ensures r.depth == k + 1 && (k == 0 || k + 1 <= maxDepth)
    decreases k
  {
    var w := Mentioned(g, edgeType);
    if k == 0 {
      p := [r.fromId, r.toId];
      assert w.Adjacent(r.fromId, r.toId);
    } else {
      var q :| q in Level(ReachAnchor(g, edgeType), ReachStep(g, maxDepth, edgeType), k - 1)
        && r in ReachStep(g, maxDepth, edgeType)(q);
      p := ReachLevelSound(g, maxDepth, edgeType, k - 1, q);
      assert w.Adjacent(q.toId, r.toId);
      WalkExtend(w, p, r.toId);
      p := p + [r.toId];
    }
  }

  lemma {:induction false} ReachLevelComplete(g: Graph, maxDepth: int, edgeType: Option<string>, p: seq<Id>)
    returns (r: ReachRow)
    requires Mentioned(g, edgeType).IsWalk(p) && StartsForward(g, edgeType, p)
    requires |p| == 2 || |p| - 1 <= maxDepth
    ensures r in Level(ReachAnchor(g, edgeType), ReachStep(g, maxDepth, edgeType), |p| - 2)
    ensures r.fromId == p[0] && r.toId == p[|p| - 1] && r.depth == |p| - 1
    decreases |p|
  {
    var w := Mentioned(g, edgeType);
    if |p| == 2 {
      var i :| i in g.edges && OfType(g.edges[i], edgeType) && g.edges[i].source == p[0] && g.edges[i].target == p[1];
      r := ReachRow(i, p[0], p[1], 1);
    } else {
      var n := |p| - 1;
      WalkPrefix(w, p, n);
      assert p[..n][0] == p[0] && p[..n][1] == p[1];
      var q := ReachLevelComplete(g, maxDepth, edgeType, p[..n]);
      assert w.Adjacent(p[n - 1], p[n]);
      var i :| i in g.edges && OfType(g.edges[i], edgeType) && Follows(Outgoing, g.edges[i], p[n - 1], p[n]);
      r := ReachRow(q.eid, q.fromId, NextAfter(g.edges[i], q.toId), q.depth + 1);
      assert r in ReachStep(g, maxDepth, edgeType)(q);
    }
  }

  /** A closed walk of 1..maxDepth edges over the ids mentioned by the edges. */
  ghost predicate ClosedWalkWithin(w: View, maxDepth: int) {
    exists p :: ClosedWalk(w, p) && |p| - 1 <= maxDepth
  }

  /**
   If a closed walk exists then one exists that is no longer and begins along an edge from
   source to target: a first step against a bidirectional edge can be replaced by going
   along that edge and back.
   */
  lemma ForwardClosedWalk(g: Graph, edgeType: Option<string>, p: seq<Id>) returns (q: seq<Id>)
    requires ClosedWalk(Mentioned(g, edgeType), p)
    ensures ClosedWalk(Mentioned(g, edgeType), q) && StartsForward(g, edgeType, q) && |q| <= |p|
  {
    var w := Mentioned(g, edgeType);
    assert w.Adjacent(p[0], p[1]);
    var i :| i in g.edges && OfType(g.edges[i], edgeType) && Follows(Outgoing, g.edges[i], p[0], p[1]);
    var e := g.edges[i];
    if e.source == p[0] && e.target == p[1] {
      q := p;
    } else {
      q := [e.source, e.target, e.source];
      assert w.Adjacent(e.source, e.target) && w.Adjacent(e.target, e.source);
      if |p| == 2 {
        q := p;
      }
    }
  }

  /**
   Although the search starts only along edge direction and tracks no path, it answers
   true iff a closed walk of at most `maxDepth` edges exists among the ids the edges
   mention. Below depth 1 it still looks at single edges.
   */
  lemma HasCycleIffClosedWalk(g: Graph, maxDepth: int, edgeType: Option<string>)
    ensures HasCycle(g, maxDepth, edgeType) <==>
      ClosedWalkWithin(Mentioned(g, edgeType), if maxDepth < 1 then 1 else maxDepth)
  {
    var w := Mentioned(g, edgeType);
    var anchor, step := ReachAnchor(g, edgeType), ReachStep(g, maxDepth, edgeType);
    var rows := WithRecursive(anchor, step, ReachLeft(maxDepth), Bound(maxDepth));
    if HasCycle(g, maxDepth, edgeType) {
      var r :| r in rows && r.fromId == r.toId;
      WithRecursiveIsAllLevels(anchor, step, ReachLeft(maxDepth), Bound(maxDepth), r);
      var k: nat :| r in Level(anchor, step, k);
      var p := ReachLevelSound(g, maxDepth, edgeType, k, r);
      assert ClosedWalk(w, p);
    }
    if ClosedWalkWithin(w, if maxDepth < 1 then 1 else maxDepth) {
      var p :| ClosedWalk(w, p) && |p| - 1 <= if maxDepth < 1 then 1 else maxDepth;
      var q := ForwardClosedWalk(g, edgeType, p);
      var r := ReachLevelComplete(g, maxDepth, edgeType, q);
      WithRecursiveIsAllLevels(anchor, step, ReachLeft(maxDepth), Bound(maxDepth), r);
      assert r in rows;
    }
  }

  /** `find_cycles` reports something iff a closed walk exists among stored nodes. */
  lemma FindCyclesIffClosedWalk(g: Graph, maxDepth: int, edgeType: Option<string>)
    ensures ClosedRows(WalkTable(g, maxDepth, edgeType)) != {} <==>
      ClosedWalkWithin(Whole(g, Outgoing, edgeType), maxDepth)
  {
    var w := Whole(g, Outgoing, edgeType);
    if ClosedRows(WalkTable(g, maxDepth, edgeType)) != {} {
      var r :| r in ClosedRows(WalkTable(g, maxDepth, edgeType));
      ClosedRowsAreCycles(g, maxDepth, edgeType, r);
      assert ClosedWalk(w, r.pathIds);
    }
    if ClosedWalkWithin(w, maxDepth) {
      var p :| ClosedWalk(w, p) && |p| - 1 <= maxDepth;
      var c := ClosedWalkHasCycle(w, p);
      var r := RowOfCycle(g, maxDepth, edgeType, c);
    }
  }

  /** Closed walks stay among the ids that edges mention, so extra node rows do not matter. */
  lemma ClosedWalkInEdges(g: Graph, other: Graph, edgeType: Option<string>, p: seq<Id>)
    requires g.edges == other.edges && ClosedWalk(Mentioned(g, edgeType), p)
    ensures ClosedWalk(Mentioned(other, edgeType), p)
  {
    forall k | 0 <= k < |p| - 1
      ensures Mentioned(other, edgeType).Adjacent(p[k], p[k + 1]) && p[k] in other.AllIds()
    {
      assert Mentioned(g, edgeType).Adjacent(p[k], p[k + 1]);
      var i :| i in g.edges && OfType(g.edges[i], edgeType) && Follows(Outgoing, g.edges[i], p[k], p[k + 1]);
      assert p[k] == other.edges[i].source || p[k] == other.edges[i].target;
    }
    assert p[|p| - 1] == p[0];
  }

  /**
   `has_cycle` never reads the node table: from depth 1 on it is true iff `find_cycles`
   would report something once every missing edge endpoint is stored as a node.
   */
  lemma HasCycleIsFindCyclesOnceStored(g: Graph, stored: Graph, maxDepth: int, edgeType: Option<string>)
    requires maxDepth >= 1 && stored.Closed() && stored.edges == g.edges
    ensures HasCycle(g, maxDepth, edgeType) <==> ClosedRows(WalkTable(stored, maxDepth, edgeType)) != {}
  {
    HasCycleIffClosedWalk(g, maxDepth, edgeType);
    FindCyclesIffClosedWalk(stored, maxDepth, edgeType);
    assert stored.AllIds() == stored.nodes.Keys;
    assert Mentioned(stored, edgeType) == Whole(stored, Outgoing, edgeType);
    if p :| ClosedWalk(Mentioned(g, edgeType), p) && |p| - 1 <= maxDepth {
      ClosedWalkInEdges(g, stored, edgeType, p);
    }
    if p :| ClosedWalk(Mentioned(stored, edgeType), p) && |p| - 1 <= maxDepth {
      ClosedWalkInEdges(stored, g, edgeType, p);
    }
  }

  /**
   With every edge endpoint stored, `has_cycle` is true iff `find_cycles` at the same depth
   and edge type has something to report.
   */
  lemma HasCycleAgreesWithFindCycles(g: Graph, maxDepth: int, edgeType: Option<string>)
    requires g.Closed() && maxDepth >= 1
    ensures HasCycle(g, maxDepth, edgeType) <==> ClosedRows(WalkTable(g, maxDepth, edgeType)) != {}
  {
    HasCycleIsFindCyclesOnceStored(g, g, maxDepth, edgeType);
  }

  /** A closed walk of at most `maxDepth` edges that visits an id with no node row. */
  ghost predicate ThroughMissing(g: Graph, edgeType: Option<string>, maxDepth: int) {
    exists p, k :: ClosedWalk(Mentioned(g, edgeType), p) && |p| - 1 <= maxDepth && 0 <= k < |p| && p[k] !in g.nodes
  }

  /** A closed walk over stored nodes is one over the mentioned ids; the others visit a missing id. */
  lemma StoredOrThroughMissing(g: Graph, edgeType: Option<string>, maxDepth: int)
    ensures ClosedWalkWithin(Mentioned(g, edgeType), maxDepth) <==>
      ClosedWalkWithin(Whole(g, Outgoing, edgeType), maxDepth) || ThroughMissing(g, edgeType, maxDepth)
  {
    var w, s := Mentioned(g, edgeType), Whole(g, Outgoing, edgeType);
    if p :| ClosedWalk(w, p) && |p| - 1 <= maxDepth {
      if k :| 0 <= k < |p| && p[k] !in g.nodes {
        assert ThroughMissing(g, edgeType, maxDepth);
      } else {
        SameSteps(w, s, p);
      }
    }
    if p :| ClosedWalk(s, p) && |p| - 1 <= maxDepth {
      SameSteps(s, w, p);
    }
  }

  lemma SameSteps(w: View, s: View, p: seq<Id>)
    requires w.edges == s.edges && w.direction == s.direction && w.edgeType == s.edgeType
    requires ClosedWalk(w, p) && forall k :: 0 <= k < |p| ==> p[k] in s.ids
    ensures ClosedWalk(s, p)
  {
    forall k | 0 <= k < |p| - 1 ensures s.Adjacent(p[k], p[k + 1]) {
      assert w.Adjacent(p[k], p[k + 1]);
    }
  }

  /**
   From depth 1 on the two functions agree iff closed walks through missing nodes, if there
   are any within the bound, are accompanied by one over stored nodes.
   */
  lemma HasCycleAgreesIff(g: Graph, maxDepth: int, edgeType: Option<string>)
    requires maxDepth >= 1
    ensures (HasCycle(g, maxDepth, edgeType) <==> ClosedRows(WalkTable(g, maxDepth, edgeType)) != {})
       <==> (ThroughMissing(g, edgeType, maxDepth) ==> ClosedWalkWithin(Whole(g, Outgoing, edgeType), maxDepth))
  {
    HasCycleIffClosedWalk(g, maxDepth, edgeType);
    FindCyclesIffClosedWalk(g, maxDepth, edgeType);
    StoredOrThroughMissing(g, edgeType, maxDepth);
  }

  /** Below depth 1 `find_cycles` is empty while `has_cycle` still sees self-loops, and only those. */
  lemma BelowDepthOne(g: Graph, maxDepth: int, edgeType: Option<string>)
    requires maxDepth < 1
    ensures ClosedRows(WalkTable(g, maxDepth, edgeType)) == {}
    ensures HasCycle(g, maxDepth, edgeType) <==>
      exists i :: i in g.edges && OfType(g.edges[i], edgeType) && g.edges[i].source == g.edges[i].target
  {
    FindCyclesIffClosedWalk(g, maxDepth, edgeType);
    HasCycleIffClosedWalk(g, maxDepth, edgeType);
    var w := Mentioned(g, edgeType);
    if p :| ClosedWalk(w, p) && |p| - 1 <= 1 {
      assert w.Adjacent(p[0], p[1]);
    }
    if i :| i in g.edges && OfType(g.edges[i], edgeType) && g.edges[i].source == g.edges[i].target {
      var v := g.edges[i].source;
      assert w.Adjacent(v, v);
      assert ClosedWalk(w, [v, v]);
    }
  }

  /** A self-loop on an id with no node row: `has_cycle` sees it, `find_cycles` cannot. */
  lemma MissingEndpointDisagrees(name: string)
    ensures var g := Graph(map[], map[0 := Edge(7, 7, false, name)]);
      HasCycle(g, 1, None) && ClosedRows(WalkTable(g, 1, None)) == {}
  {
    var g := Graph(map[], map[0 := Edge(7, 7, false, name)]);
    FindCyclesIffClosedWalk(g, 1, None);
    HasCycleIffClosedWalk(g, 1, None);
    var w := Mentioned(g, None);
    assert w.Adjacent(7, 7) by { assert 0 in g.edges && Follows(Outgoing, g.edges[0], 7, 7); }
    assert ClosedWalk(w, [7, 7]);
  }
}

/**
 The graph part of `GraphVectorSearch.search`: which nodes come back and at how many hops.
 The vector predicates are the parameter `kept`, the stored nodes that pass them.
 */
module VectorSearch {
  import opened Options
  import opened Cte
  import opened Graphs
  import opened PathQuery
  import opened TwoKeys
  import opened Traversal

  /** An edge model without the `is_bidirectional` column has only one-way edges. */
  function Effective(g: Graph, hasBidirectional: bool): Graph {
    if hasBidirectional then g else Graph(g.nodes, map i | i in g.edges :: g.edges[i].(bidirectional := false))
  }

  /** `_recursion_sql`: the edge join together with the next-node expression. */
  function RecursionJoin(direction: Direction, hasBidirectional: bool, edgeType: Option<string>): Join {
    match direction
    case Outgoing =>
      if hasBidirectional then
        (e: Edge, b: Id, n: Id) =>
          && (e.source == b || (e.bidirectional && e.target == b))
          && n == (if e.source == b then e.target else e.source) && OfType(e, edgeType)
      else
        (e: Edge, b: Id, n: Id) => e.source == b && n == e.target && OfType(e, edgeType)
    case Incoming =>
      if hasBidirectional then
        (e: Edge, b: Id, n: Id) =>
          && (e.target == b || (e.bidirectional && e.source == b))
          && n == (if e.target == b then e.source else e.target) && OfType(e, edgeType)
      else
        (e: Edge, b: Id, n: Id) => e.target == b && n == e.source && OfType(e, edgeType)
    case Both =>
      (e: Edge, b: Id, n: Id) =>
        && (e.source == b || e.target == b)
        && n == (if e.source == b then e.target else e.source) && OfType(e, edgeType)
  }

  /** The `reach` table; the next id is read off the edge, never joined to the node table. */
  function ReachTable(g: Graph, seed: Id, direction: Direction, hasBidirectional: bool, maxHops: int,
                      edgeType: Option<string>): set<PathRow>
  {
    PathRows(if seed in g.nodes then {seed} else {}, g.edges, g.AllIds(),
        RecursionJoin(direction, hasBidirectional, edgeType), (_: Id) => "", maxHops)
  }

  datatype Found = Found(id: Id, hops: int)

  /** The final join with the node table, grouped by node with `MIN(hops)`. */
  function Search(g: Graph, seed: Id, direction: Direction, hasBidirectional: bool, maxHops: int,
                  edgeType: Option<string>, kept: set<Id>): set<Found>
  {
    var rows := ReachTable(g, seed, direction, hasBidirectional, maxHops, edgeType);
    set r | r in rows && r.id in g.nodes && r.id in kept
      && (forall q :: q in rows ==> q.id == r.id ==> r.hops <= q.hops)
      :: Found(r.id, r.hops)
  }

  /**
   `ORDER BY distance, pk LIMIT max_results`: `closeness` ranks the distances, best first,
   and the primary key decides between equal ones.
   */
  ghost predicate IsRanking(found: set<Found>, closeness: Id -> int, maxResults: nat, hits: seq<Found>) {
    && |hits| == (if maxResults < |found| then maxResults else |found|)
    && (forall i :: 0 <= i < |hits| ==> hits[i] in found)
    && (forall i, j :: 0 <= i < j < |hits| ==> Closer(closeness, hits[i].id, hits[j].id))
    && (forall i, f :: 0 <= i < |hits| && f in found && f !in hits ==> Closer(closeness, hits[i].id, f.id))
  }

  predicate Closer(closeness: Id -> int, a: Id, b: Id) {
    closeness(a) < closeness(b) || (closeness(a) == closeness(b) && a < b)
  }

  /** Which hits are returned, and in which order, leaves the database no choice. */
  lemma {:induction false} RankingUnique(found: set<Found>, closeness: Id -> int, maxResults: nat, a: seq<Found>,
                                         b: seq<Found>, k: nat)
    requires IsRanking(found, closeness, maxResults, a) && IsRanking(found, closeness, maxResults, b) && k <= |a|
    ensures |a| == |b| && a[..k] == b[..k]
    decreases k
  {
    if k > 0 {
      RankingUnique(found, closeness, maxResults, a, b, k - 1);
      NotEarlier(found, closeness, maxResults, a, b, k - 1);
      NotEarlier(found, closeness, maxResults, b, a, k - 1);
      assert a[..k] == a[..k - 1] + [a[k - 1]] && b[..k] == b[..k - 1] + [b[k - 1]];
    }
  }

  lemma NotEarlier(found: set<Found>, closeness: Id -> int, maxResults: nat, a: seq<Found>, b: seq<Found>, k: nat)
    requires IsRanking(found, closeness, maxResults, a) && IsRanking(found, closeness, maxResults, b)
    requires k < |a| && k < |b| && a[..k] == b[..k]
    ensures a[k] == b[k] || Closer(closeness, b[k].id, a[k].id)
  {
    forall m | 0 <= m < k ensures b[m] != a[k] {
      assert a[..k][m] == b[..k][m] && Closer(closeness, a[m].id, a[k].id);
    }
  }

  method BestHits(g: Graph, seed: Id, direction: Direction, hasBidirectional: bool, maxHops: int,
                  edgeType: Option<string>, kept: set<Id>, closeness: Id -> int, maxResults: nat)
    returns (hits: seq<Found>)
    ensures IsRanking(Search(g, seed, direction, hasBidirectional, maxHops, edgeType, kept), closeness, maxResults,
        hits)
  {
    var found := Search(g, seed, direction, hasBidirectional, maxHops, edgeType, kept);
    var first, second := (f: Found) => closeness(f.id), (f: Found) => f.id;
    hits := OrderByTwo(found, first, second, Some(maxResults));
    forall i, j | 0 <= i < j < |hits| ensures Closer(closeness, hits[i].id, hits[j].id) {
      assert NotAfter(first, second, hits[i], hits[j]) && hits[i] != hits[j];
    }
    forall i, f | 0 <= i < |hits| && f in found && f !in hits ensures Closer(closeness, hits[i].id, f.id) {
      assert NotAfter(first, second, hits[i], f) && hits[i] != f;
    }
  }

  /** The graph the recursion walks: all mentioned ids, whether or not a row exists. */
  function Unjoined(g: Graph, direction: Direction, hasBidirectional: bool, edgeType: Option<string>): View {
    View(g.AllIds(), Effective(g, hasBidirectional).edges, direction, edgeType)
  }

  function Joined(g: Graph, direction: Direction, hasBidirectional: bool, edgeType: Option<string>): View {
    Whole(Effective(g, hasBidirectional), direction, edgeType)
  }

  /** Without the column the join conditions do not read it. */
  lemma SameJoin(direction: Direction, edgeType: Option<string>, e: Edge, f: Edge, b: Id, n: Id)
    requires f == e.(bidirectional := false)
    ensures RecursionJoin(direction, false, edgeType)(e, b, n) == RecursionJoin(direction, false, edgeType)(f, b, n)
  {
    assert f.source == e.source && f.target == e.target && OfType(f, edgeType) == OfType(e, edgeType);
    match direction {
      case Outgoing => assert RecursionJoin(direction, false, edgeType)(e, b, n)
        == (e.source == b && n == e.target && OfType(e, edgeType));
      case Incoming => assert RecursionJoin(direction, false, edgeType)(e, b, n)
        == (e.target == b && n == e.source && OfType(e, edgeType));
      case Both =>
    }
  }

  /** Masking the unused column changes no row of the recursion. */
  lemma MaskedTable(g: Graph, seed: Id, direction: Direction, hasBidirectional: bool, maxHops: int,
                    edgeType: Option<string>)
    ensures ReachTable(g, seed, direction, hasBidirectional, maxHops, edgeType)
         == ReachTable(Effective(g, hasBidirectional), seed, direction, hasBidirectional, maxHops, edgeType)
    ensures Effective(g, hasBidirectional).AllIds() == g.AllIds()
  {
    var h := Effective(g, hasBidirectional);
    if !hasBidirectional {
      assert forall i :: i in g.edges ==>
        h.edges[i].source == g.edges[i].source && h.edges[i].target == g.edges[i].target;
      assert h.AllIds() == g.AllIds();
      var join := RecursionJoin(direction, hasBidirectional, edgeType);
      var name := (_: Id) => "";
      var starts := if seed in g.nodes then {seed} else {};
      var step, step' := PathStep(g.edges, g.AllIds(), join, name, maxHops),
          PathStep(h.edges, g.AllIds(), join, name, maxHops);
      forall q ensures step(q) == step'(q) {
        forall i, n | i in g.edges ensures join(g.edges[i], q.id, n) == join(h.edges[i], q.id, n) {
          SameJoin(direction, edgeType, g.edges[i], h.edges[i], q.id, n);
        }
      }
      SameStepsSameQuery(PathAnchor(starts, name), step, step', HopsLeft(maxHops), Bound(maxHops));
    }
  }

  lemma SameStepsSameQuery<R(!new)>(anchor: set<R>, step: R -> set<R>, step': R -> set<R>, rank: R -> nat, bound: nat)
    requires Ranked(step, rank) && Ranked(step', rank) && RanksBelow(anchor, rank, bound)
    requires forall q :: step(q) == step'(q)
    ensures WithRecursive(anchor, step, rank, bound) == WithRecursive(anchor, step', rank, bound)
  {
    SameStepsSameLoop(step, step', rank, anchor, anchor, bound);
  }

  lemma {:induction false} SameStepsSameLoop<R(!new)>(step: R -> set<R>, step': R -> set<R>, rank: R -> nat,
                                                      result: set<R>, working: set<R>, bound: nat)
    requires Ranked(step, rank) && Ranked(step', rank) && RanksBelow(working, rank, bound)
    requires forall q :: step(q) == step'(q)
    ensures Iterate(step, rank, result, working, bound) == Iterate(step', rank, result, working, bound)
    decreases bound
  {
    if working != {} {
      assert Round(step, working) == Round(step', working);
      assert bound > 0 by { var w :| w in working; }
      var added := Round(step, working) - result;
      SameStepsSameLoop(step, step', rank, result + added, added, bound - 1);
    }
  }

  lemma RecursionFollows(g: Graph, seed: Id, direction: Direction, hasBidirectional: bool, edgeType: Option<string>)
    ensures JoinFollows(RecursionJoin(direction, hasBidirectional, edgeType),
        Unjoined(g, direction, hasBidirectional, edgeType), seed)
  {
    match direction case Outgoing => case Incoming => case Both =>
  }

  /**
   The hits are the kept nodes within the hop bound, each at its distance from the seed in
   the graph of all mentioned ids; the seed itself is at 0.
   */
  lemma SearchFindsDistances(g: Graph, seed: Id, direction: Direction, hasBidirectional: bool, maxHops: int,
                             edgeType: Option<string>, kept: set<Id>, f: Found)
    ensures f in Search(g, seed, direction, hasBidirectional, maxHops, edgeType, kept)
       <==> && seed in g.nodes && f.id in g.nodes && f.id in kept && f.hops >= 0 && (f.hops == 0 || f.hops <= maxHops)
            && Unjoined(g, direction, hasBidirectional, edgeType).Distance(seed, f.id, f.hops)
  {
    MaskedTable(g, seed, direction, hasBidirectional, maxHops, edgeType);
    RecursionFollows(g, seed, direction, hasBidirectional, edgeType);
    var w := Unjoined(g, direction, hasBidirectional, edgeType);
    var join, name := RecursionJoin(direction, hasBidirectional, edgeType), (_: Id) => "";
    var rows := ReachTable(g, seed, direction, hasBidirectional, maxHops, edgeType);
    if seed in g.nodes {
      assert rows == PathRows({seed}, w.edges, w.ids, join, name, maxHops);
      if f in Search(g, seed, direction, hasBidirectional, maxHops, edgeType, kept) {
        var r :| r in rows && r.id in g.nodes && r.id in kept
          && (forall q :: q in rows ==> q.id == r.id ==> r.hops <= q.hops)
          && f == Found(r.id, r.hops);
        RowIsWalk(w, seed, join, name, maxHops, r);
        MinHopsIsDistance(w, seed, join, name, maxHops, r);
      }
      if f.id in g.nodes && f.id in kept && f.hops >= 0 && (f.hops == 0 || f.hops <= maxHops)
        && w.Distance(seed, f.id, f.hops) {
        ZeroHops(w, seed, f.id, f.hops);
        var d, r := RowExistsForWalk(w, seed, join, name, maxHops, f.id, f.hops);
        MinHopsIsDistance(w, seed, join, name, maxHops, r);
        assert d == f.hops;
      }
    } else {
      assert PathAnchor({}, name) == {};
    }
  }

  lemma ZeroHops(w: View, u: Id, v: Id, k: nat)
    requires w.Reaches(u, v, k)
    ensures k == 0 ==> u == v
  {
  }

  /** The hop counts agree: the same nodes as `neighbors`, plus the seed at 0. */
  ghost predicate AgreesWithNeighbors(g: Graph, seed: Id, direction: Direction, hasBidirectional: bool, maxHops: int,
                                      edgeType: Option<string>)
  {
    var neighbors := NeighborHits(Effective(g, hasBidirectional), seed, direction, maxHops, edgeType);
    forall f :: f in Search(g, seed, direction, hasBidirectional, maxHops, edgeType, g.nodes.Keys)
      <==> || (f == Found(seed, 0) && seed in g.nodes)
           || exists h :: h in neighbors && h.id == f.id && h.hops == f.hops
  }

  /**
   A walk between two stored nodes whose inner ids are all missing from the node table
   is never shorter than every walk between them over stored nodes.
   */
  ghost predicate NoShortcut(g: Graph, direction: Direction, hasBidirectional: bool, edgeType: Option<string>) {
    forall p :: Unjoined(g, direction, hasBidirectional, edgeType).IsWalk(p) && IsBypass(g, p) ==>
      ReachesWithin(Joined(g, direction, hasBidirectional, edgeType), p[0], p[|p| - 1], |p| - 1)
  }

  ghost predicate ReachesWithin(w: View, u: Id, v: Id, n: nat) {
    exists k: nat :: k <= n && w.Reaches(u, v, k)
  }

  ghost predicate IsBypass(g: Graph, p: seq<Id>) {
    && |p| > 0 && p[0] in g.nodes && p[|p| - 1] in g.nodes
    && forall i :: 0 < i < |p| - 1 ==> p[i] !in g.nodes
  }

  lemma JoinReaches(w: View, u: Id, v: Id, x: Id, j: nat, k: nat)
    requires w.Reaches(u, v, j) && w.Reaches(v, x, k)
    ensures w.Reaches(u, x, j + k)
  {
    var p :| w.WalkFromTo(p, u, v) && |p| == j + 1;
    var q :| w.WalkFromTo(q, v, x) && |q| == k + 1;
    if k == 0 {
    } else {
      WalkSuffix(w, q, 1);
      assert w.Adjacent(q[0], q[1]);
      WalkJoin(w, p, q[1..]);
      assert w.WalkFromTo(p + q[1..], u, x);
    }
  }

  lemma {:induction false} FirstStored(g: Graph, p: seq<Id>) returns (j: nat)
    requires |p| >= 2 && p[|p| - 1] in g.nodes
    ensures 1 <= j < |p| && p[j] in g.nodes && forall i :: 0 < i < j ==> p[i] !in g.nodes
  {
    j := 1;
    while p[j] !in g.nodes
      invariant 1 <= j < |p| && forall i :: 0 < i < j ==> p[i] !in g.nodes
      decreases |p| - j
    {
      j := j + 1;
    }
  }

  /** Without shortcuts every walk between stored nodes has a stored walk no longer than it. */
  lemma {:induction false} WalkOverStored(g: Graph, direction: Direction, hasBidirectional: bool,
                                          edgeType: Option<string>, p: seq<Id>)
    returns (k: nat)
    requires NoShortcut(g, direction, hasBidirectional, edgeType)
    requires Unjoined(g, direction, hasBidirectional, edgeType).IsWalk(p) && p[0] in g.nodes && p[|p| - 1] in g.nodes
    ensures k <= |p| - 1 && Joined(g, direction, hasBidirectional, edgeType).Reaches(p[0], p[|p| - 1], k)
    decreases |p|
  {
    var w, s := Unjoined(g, direction, hasBidirectional, edgeType), Joined(g, direction, hasBidirectional, edgeType);
    if |p| == 1 {
      k := 0;
      assert s.WalkFromTo(p, p[0], p[0]);
    } else {
      var j := FirstStored(g, p);
      WalkPrefix(w, p, j + 1);
      WalkSuffix(w, p, j);
      assert IsBypass(g, p[..j + 1]);
      assert ReachesWithin(s, p[..j + 1][0], p[..j + 1][j], j);
      var a: nat :| a <= j && s.Reaches(p[0], p[j], a);
      var b := WalkOverStored(g, direction, hasBidirectional, edgeType, p[j..]);
      JoinReaches(s, p[0], p[j], p[|p| - 1], a, b);
      k := a + b;
    }
  }

  /** Stored walks are walks of the wider graph. */
  lemma StoredReaches(g: Graph, direction: Direction, hasBidirectional: bool, edgeType: Option<string>, u: Id, v: Id,
                      k: nat)
    requires Joined(g, direction, hasBidirectional, edgeType).Reaches(u, v, k)
    ensures Unjoined(g, direction, hasBidirectional, edgeType).Reaches(u, v, k)
  {
    var w, s := Unjoined(g, direction, hasBidirectional, edgeType), Joined(g, direction, hasBidirectional, edgeType);
    var p :| s.WalkFromTo(p, u, v) && |p| == k + 1;
    forall i | 0 <= i < |p| - 1 ensures w.Adjacent(p[i], p[i + 1]) {
      assert s.Adjacent(p[i], p[i + 1]);
    }
    assert w.WalkFromTo(p, u, v);
  }

  lemma SameDistances(g: Graph, direction: Direction, hasBidirectional: bool, edgeType: Option<string>, u: Id, v: Id,
                      k: nat)
    requires NoShortcut(g, direction, hasBidirectional, edgeType) && u in g.nodes && v in g.nodes
    ensures Unjoined(g, direction, hasBidirectional, edgeType).Distance(u, v, k) <==>
      Joined(g, direction, hasBidirectional, edgeType).Distance(u, v, k)
  {
    var w, s := Unjoined(g, direction, hasBidirectional, edgeType), Joined(g, direction, hasBidirectional, edgeType);
    forall j: nat | s.Reaches(u, v, j) ensures w.Reaches(u, v, j) {
      StoredReaches(g, direction, hasBidirectional, edgeType, u, v, j);
    }
    forall j: nat | w.Reaches(u, v, j) ensures exists i: nat :: i <= j && s.Reaches(u, v, i) {
      var p :| w.WalkFromTo(p, u, v) && |p| == j + 1;
      var i := WalkOverStored(g, direction, hasBidirectional, edgeType, p);
    }
    if w.Distance(u, v, k) {
      var i: nat :| i <= k && s.Reaches(u, v, i);
      assert w.Reaches(u, v, i);
    }
    if s.Distance(u, v, k) {
      forall j: nat | w.Reaches(u, v, j) ensures k <= j {
        var i: nat :| i <= j && s.Reaches(u, v, i);
      }
    }
  }

  lemma NoShortcutAgrees(g: Graph, seed: Id, direction: Direction, hasBidirectional: bool, maxHops: int,
                         edgeType: Option<string>)
    requires NoShortcut(g, direction, hasBidirectional, edgeType)
    ensures AgreesWithNeighbors(g, seed, direction, hasBidirectional, maxHops, edgeType)
  {
    var e := Effective(g, hasBidirectional);
    forall f
      ensures f in Search(g, seed, direction, hasBidirectional, maxHops, edgeType, g.nodes.Keys)
        <==> || (f == Found(seed, 0) && seed in g.nodes)
             || exists h :: h in NeighborHits(e, seed, direction, maxHops, edgeType) && h.id == f.id && h.hops == f.hops
    {
      SearchFindsDistances(g, seed, direction, hasBidirectional, maxHops, edgeType, g.nodes.Keys, f);
      if seed in g.nodes && f.id in g.nodes && f.hops >= 0 {
        SameDistances(g, direction, hasBidirectional, edgeType, seed, f.id, f.hops);
        NeighborsAreHits(e, seed, direction, maxHops, edgeType,
            Hit(f.id, g.nodes[f.id].name, g.nodes[f.id].depth, f.hops));
        SelfAtZero(g, direction, hasBidirectional, edgeType, seed, f);
      }
      forall h | h in NeighborHits(e, seed, direction, maxHops, edgeType)
        ensures IsHit(e, seed, direction, maxHops, edgeType, h)
      {
        NeighborsAreHits(e, seed, direction, maxHops, edgeType, h);
      }
    }
  }

  lemma SelfAtZero(g: Graph, direction: Direction, hasBidirectional: bool, edgeType: Option<string>, seed: Id, f: Found)
    requires seed in g.nodes && f.hops >= 0
    ensures Joined(g, direction, hasBidirectional, edgeType).Distance(seed, seed, 0)
    ensures Joined(g, direction, hasBidirectional, edgeType).Distance(seed, f.id, f.hops) ==>
      (f.hops == 0 <==> f.id == seed)
  {
    var s := Joined(g, direction, hasBidirectional, edgeType);
    assert s.WalkFromTo([seed], seed, seed) && |[seed]| == 0 + 1;
    assert s.Reaches(seed, seed, 0);
    if f.hops == 0 && s.Distance(seed, f.id, f.hops) {
      ZeroHops(s, seed, f.id, f.hops);
    }
  }

  /**
   The hop counts agree with `neighbors` for every seed and every bound iff no walk through
   missing nodes is a shortcut.
   */
  lemma AgreementIffNoShortcut(g: Graph, direction: Direction, hasBidirectional: bool, edgeType: Option<string>)
    ensures (forall seed, maxHops :: AgreesWithNeighbors(g, seed, direction, hasBidirectional, maxHops, edgeType))
       <==> NoShortcut(g, direction, hasBidirectional, edgeType)
  {
    if NoShortcut(g, direction, hasBidirectional, edgeType) {
      forall seed, maxHops ensures AgreesWithNeighbors(g, seed, direction, hasBidirectional, maxHops, edgeType) {
        NoShortcutAgrees(g, seed, direction, hasBidirectional, maxHops, edgeType);
      }
    }
    if forall seed, maxHops :: AgreesWithNeighbors(g, seed, direction, hasBidirectional, maxHops, edgeType) {
      var w, s := Unjoined(g, direction, hasBidirectional, edgeType), Joined(g, direction, hasBidirectional, edgeType);
      forall p | w.IsWalk(p) && IsBypass(g, p)
        ensures ReachesWithin(s, p[0], p[|p| - 1], |p| - 1)
      {
        var u, v, n := p[0], p[|p| - 1], |p| - 1;
        assert w.WalkFromTo(p, u, v);
        assert w.Reaches(u, v, n);
        var d, q := DistanceExists(w, u, v, n);
        SearchFindsDistances(g, u, direction, hasBidirectional, n, edgeType, g.nodes.Keys, Found(v, d));
        assert AgreesWithNeighbors(g, u, direction, hasBidirectional, n, edgeType);
        if Found(v, d) == Found(u, 0) {
          SelfAtZero(g, direction, hasBidirectional, edgeType, u, Found(v, d));
          assert s.Reaches(u, v, 0);
        } else {
          var h :| h in NeighborHits(Effective(g, hasBidirectional), u, direction, n, edgeType) && h.id == v
            && h.hops == d;
          NeighborsAreHits(Effective(g, hasBidirectional), u, direction, n, edgeType, h);
          assert s.Reaches(u, v, d);
        }
      }
    }
  }

  /** In particular they agree when every edge endpoint has a node row. */
  lemma ClosedGraphAgrees(g: Graph, seed: Id, direction: Direction, hasBidirectional: bool, maxHops: int,
                          edgeType: Option<string>)
    requires g.Closed()
    ensures AgreesWithNeighbors(g, seed, direction, hasBidirectional, maxHops, edgeType)
  {
    var w, s := Unjoined(g, direction, hasBidirectional, edgeType), Joined(g, direction, hasBidirectional, edgeType);
    assert g.AllIds() == g.nodes.Keys;
    assert w == s;
    forall p | w.IsWalk(p) && IsBypass(g, p) ensures ReachesWithin(s, p[0], p[|p| - 1], |p| - 1) {
      assert s.WalkFromTo(p, p[0], p[|p| - 1]) && |p| == (|p| - 1) + 1;
      assert s.Reaches(p[0], p[|p| - 1], |p| - 1);
    }
    NoShortcutAgrees(g, seed, direction, hasBidirectional, maxHops, edgeType);
  }

  /** Nodes 1 and 3 are stored, node 2 between them is missing. */
  function Gap(n: Node, t: string): Graph {
    Graph(map[1 := n, 3 := n], map[0 := Edge(1, 2, false, t), 1 := Edge(2, 3, false, t)])
  }

  lemma GapIsCrossed(n: Node, t: string)
    ensures Unjoined(Gap(n, t), Outgoing, true, None).Reaches(1, 3, 2)
  {
    var g := Gap(n, t);
    var w := Unjoined(g, Outgoing, true, None);
    assert w.Adjacent(1, 2) by { assert 0 in g.edges && Follows(Outgoing, g.edges[0], 1, 2); }
    assert w.Adjacent(2, 3) by { assert 1 in g.edges && Follows(Outgoing, g.edges[1], 2, 3); }
    assert g.edges[0].target in g.AllIds();
    assert w.WalkFromTo([1, 2, 3], 1, 3);
  }

  lemma GapIsNotJoined(n: Node, t: string, k: nat)
    ensures !Whole(Gap(n, t), Outgoing, None).Reaches(1, 3, k)
  {
    var s := Whole(Gap(n, t), Outgoing, None);
    assert forall v :: v in s.ids ==> !s.Adjacent(1, v);
    assert forall r :: s.IsWalk(r) && |r| >= 2 ==> s.Adjacent(r[0], r[1]) && r[1] in s.ids;
  }

  /** Two stored nodes joined only through a missing one: found by the search, not a neighbor. */
  lemma MissingNodeDisagrees(n: Node, t: string)
    ensures !AgreesWithNeighbors(Gap(n, t), 1, Outgoing, true, 2, None)
  {
    var g := Gap(n, t);
    GapIsCrossed(n, t);
    var d, q := DistanceExists(Unjoined(g, Outgoing, true, None), 1, 3, 2);
    SearchFindsDistances(g, 1, Outgoing, true, 2, None, g.nodes.Keys, Found(3, d));
    forall h | h in NeighborHits(g, 1, Outgoing, 2, None) ensures h.id != 3 {
      NeighborsAreHits(g, 1, Outgoing, 2, None, h);
      GapIsNotJoined(n, t, h.hops);
    }
    assert Found(3, d) in Search(g, 1, Outgoing, true, 2, None, g.nodes.Keys);
  }
}

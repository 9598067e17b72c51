/**
 The recursion shared by the path-tracking queries: every row carries the array of ids it
 has visited, and a step may only visit an id that is not in that array. The queries
 differ in their join condition, which is a parameter here; each one is written out in
 the module of its query.
 */
module PathQuery {
  import opened Options
  import opened Cte
  import opened Graphs

  /**
   The columns of a row: current id, hop counter, `path_ids` and the parallel array of
   display names. Pathfinding keeps all names; the traversal queries keep the last one.
   */
  datatype PathRow = PathRow(id: Id, hops: int, pathIds: seq<Id>, names: seq<string>)

  /** An edge joined to the current id and the id of the next row. */
  type Join = (Edge, Id, Id) -> bool

  function Names(name: Id -> string, p: seq<Id>): seq<string> {
    seq(|p|, i requires 0 <= i < |p| => name(p[i]))
  }

  function StepRow(name: Id -> string, r: PathRow, n: Id): PathRow {
    PathRow(n, r.hops + 1, r.pathIds + [n], r.names + [name(n)])
  }

  /** The recursive term: edges joined to next ids, under the hop bound and the path guard. */
  function PathStep(edges: map<EdgeId, Edge>, ids: set<Id>, join: Join, name: Id -> string,
                    maxHops: int): PathRow -> set<PathRow>
  {
    (r: PathRow) =>
      set i, n | i in edges && n in ids && join(edges[i], r.id, n) && r.hops < maxHops && n !in r.pathIds
        :: StepRow(name, r, n)
  }

  /** The anchor row of an id, at zero hops. */
  function AnchorRow(name: Id -> string, n: Id): PathRow {
    PathRow(n, 0, [n], [name(n)])
  }

  function PathAnchor(starts: set<Id>, name: Id -> string): set<PathRow> {
    set n | n in starts :: AnchorRow(name, n)
  }

  function HopsLeft(maxHops: int): PathRow -> nat {
    (r: PathRow) => if r.hops < maxHops then maxHops - r.hops else 0
  }

  function Bound(maxHops: int): nat {
    if maxHops < 0 then 1 else maxHops + 1
  }

  /** `WITH RECURSIVE ... UNION` from the anchor ids `starts`. */
  function PathRows(starts: set<Id>, edges: map<EdgeId, Edge>, ids: set<Id>, join: Join, name: Id -> string,
                    maxHops: int): set<PathRow>
  {
    var anchor := PathAnchor(starts, name);
    var step := PathStep(edges, ids, join, name, maxHops);
    assert Ranked(step, HopsLeft(maxHops));
    assert RanksBelow(anchor, HopsLeft(maxHops), Bound(maxHops));
    WithRecursive(anchor, step, HopsLeft(maxHops), Bound(maxHops))
  }

  /** The only row that can carry the path `p`. */
  function RowOf(name: Id -> string, p: seq<Id>): PathRow
    requires p != []
  {
    PathRow(p[|p| - 1], |p| - 1, p, Names(name, p))
  }

  /**
   A join condition that follows the edges of `w`, except that it may stay in place or
   refuse to go back to `start`; the path guard makes both exceptions irrelevant.
   */
  ghost predicate JoinFollows(join: Join, w: View, start: Id) {
    forall i, u, n :: i in w.edges && u != n && n != start ==>
      (join(w.edges[i], u, n) <==> OfType(w.edges[i], w.edgeType) && Follows(w.direction, w.edges[i], u, n))
  }

  /** What the recursion must return: the simple walks from `start` within the hop bound. */
  ghost predicate IsPathFrom(w: View, starts: set<Id>, maxHops: int, p: seq<Id>) {
    w.IsSimple(p) && p[0] in starts && (|p| == 1 || |p| - 1 <= maxHops)
  }

  lemma NamesExtend(name: Id -> string, p: seq<Id>, n: Id)
    ensures Names(name, p + [n]) == Names(name, p) + [name(n)]
  {
  }

  /** The rows of the table after exactly `k` rounds. */
  ghost predicate PathShape(w: View, starts: set<Id>, name: Id -> string, maxHops: int, k: nat, r: PathRow) {
    |r.pathIds| == k + 1 && IsPathFrom(w, starts, maxHops, r.pathIds) && r == RowOf(name, r.pathIds)
  }

  lemma StepSound(w: View, start: Id, starts: set<Id>, join: Join, name: Id -> string, maxHops: int, k: nat,
                  q: PathRow, i: EdgeId, n: Id)
    requires JoinFollows(join, w, start) && starts <= {start}
    requires PathShape(w, starts, name, maxHops, k, q)
    requires i in w.edges && n in w.ids && join(w.edges[i], q.id, n) && q.hops < maxHops && n !in q.pathIds
    ensures PathShape(w, starts, name, maxHops, k + 1, StepRow(name, q, n))
  {
    var p := q.pathIds;
    assert n != start by { assert p[0] == start; }
    assert q.id == p[k] && q.id != n;
    assert w.Adjacent(q.id, n);
    WalkExtend(w, p, n);
    NamesExtend(name, p, n);
  }

  lemma {:induction false} LevelSound(w: View, start: Id, starts: set<Id>, join: Join, name: Id -> string,
                                      maxHops: int, k: nat, r: PathRow)
    requires JoinFollows(join, w, start) && starts <= w.ids && starts <= {start}
    requires r in Level(PathAnchor(starts, name), PathStep(w.edges, w.ids, join, name, maxHops), k)
    ensures PathShape(w, starts, name, maxHops, k, r)
    decreases k
  {
    if k == 0 {
      assert Names(name, r.pathIds) == [name(r.id)];
    } else {
      var step := PathStep(w.edges, w.ids, join, name, maxHops);
      var q :| q in Level(PathAnchor(starts, name), step, k - 1) && r in step(q);
      LevelSound(w, start, starts, join, name, maxHops, k - 1, q);
      var i, n :| i in w.edges && n in w.ids && join(w.edges[i], q.id, n) && q.hops < maxHops && n !in q.pathIds
        && r == StepRow(name, q, n);
      StepSound(w, start, starts, join, name, maxHops, k - 1, q, i, n);
    }
  }

  lemma {:induction false} LevelComplete(w: View, start: Id, starts: set<Id>, join: Join, name: Id -> string,
                                         maxHops: int, k: nat, r: PathRow)
    requires JoinFollows(join, w, start) && starts <= w.ids && starts <= {start}
    requires PathShape(w, starts, name, maxHops, k, r)
    ensures r in Level(PathAnchor(starts, name), PathStep(w.edges, w.ids, join, name, maxHops), k)
    decreases k
  {
    var p := r.pathIds;
    if k == 0 {
      assert p == [p[0]] && Names(name, p) == [name(p[0])];
      assert r == AnchorRow(name, p[0]);
    } else {
      var before, n := p[..k], p[k];
      assert p == before + [n];
      WalkPrefix(w, p, k);
      var q := RowOf(name, before);
      LevelComplete(w, start, starts, join, name, maxHops, k - 1, q);
      assert w.Adjacent(p[k - 1], p[k]);
      var i :| i in w.edges && OfType(w.edges[i], w.edgeType) && Follows(w.direction, w.edges[i], p[k - 1], n);
      assert n != start by { assert p[0] == start; }
      assert join(w.edges[i], q.id, n);
      NamesExtend(name, before, n);
      assert r == StepRow(name, q, n);
      assert r in PathStep(w.edges, w.ids, join, name, maxHops)(q);
    }
  }

  /**
   The query returns one row for each simple walk that starts at an anchor id and has at
   most `maxHops` edges (the walk of no edges is always there), and nothing else.
   */
  lemma PathRowsAreSimpleWalks(w: View, start: Id, starts: set<Id>, join: Join, name: Id -> string, maxHops: int,
                               r: PathRow)
    requires JoinFollows(join, w, start) && starts <= w.ids && starts <= {start}
    ensures r in PathRows(starts, w.edges, w.ids, join, name, maxHops)
       <==> IsPathFrom(w, starts, maxHops, r.pathIds) && r == RowOf(name, r.pathIds)
  {
    var step := PathStep(w.edges, w.ids, join, name, maxHops);
    WithRecursiveIsAllLevels(PathAnchor(starts, name), step, HopsLeft(maxHops), Bound(maxHops), r);
    if k: nat :| r in Level(PathAnchor(starts, name), step, k) {
      LevelSound(w, start, starts, join, name, maxHops, k, r);
    }
    if IsPathFrom(w, starts, maxHops, r.pathIds) && r == RowOf(name, r.pathIds) {
      LevelComplete(w, start, starts, join, name, maxHops, |r.pathIds| - 1, r);
    }
  }

  /**
   The path guard alone bounds the recursion: whatever the hop bound, no row is deeper
   than the number of ids that can be visited, so a larger bound adds nothing.
   */
  lemma GuardBoundsDepth(w: View, start: Id, starts: set<Id>, join: Join, name: Id -> string, maxHops: int, larger: int)
    requires JoinFollows(join, w, start) && starts <= w.ids && starts <= {start}
    requires |w.ids| - 1 <= maxHops <= larger
    ensures PathRows(starts, w.edges, w.ids, join, name, maxHops)
      == PathRows(starts, w.edges, w.ids, join, name, larger)
  {
    var a, b := PathRows(starts, w.edges, w.ids, join, name, maxHops),
        PathRows(starts, w.edges, w.ids, join, name, larger);
    forall r | r in a || r in b ensures r in a && r in b {
      PathRowsAreSimpleWalks(w, start, starts, join, name, maxHops, r);
      PathRowsAreSimpleWalks(w, start, starts, join, name, larger, r);
      DistinctBounded(r.pathIds, w.ids);
    }
    assert a == b;
  }

  /** Some row at `v` with `k` hops exists iff a simple walk of `k` edges leads there. */
  lemma RowExistsForWalk(w: View, start: Id, join: Join, name: Id -> string, maxHops: int, v: Id, k: nat)
    returns (d: nat, r: PathRow)
    requires JoinFollows(join, w, start) && start in w.ids
    requires w.Reaches(start, v, k) && (k <= maxHops || start == v)
    ensures w.Distance(start, v, d) && d <= k
    ensures r in PathRows({start}, w.edges, w.ids, join, name, maxHops) && r.id == v && r.hops == d
  {
    var p;
    d, p := DistanceExists(w, start, v, k);
    if start == v {
      assert w.WalkFromTo([v], v, v) && |[v]| == 0 + 1;
      assert w.Reaches(v, v, 0);
    }
    r := RowOf(name, p);
    PathRowsAreSimpleWalks(w, start, {start}, join, name, maxHops, r);
  }

  lemma RowIsWalk(w: View, start: Id, join: Join, name: Id -> string, maxHops: int, r: PathRow)
    requires JoinFollows(join, w, start) && start in w.ids
    requires r in PathRows({start}, w.edges, w.ids, join, name, maxHops)
    ensures 0 <= r.hops && w.WalkFromTo(r.pathIds, start, r.id) && |r.pathIds| == r.hops + 1
    ensures w.Reaches(start, r.id, r.hops) && (r.hops == 0 || r.hops <= maxHops)
    ensures r.hops == 0 <==> r.id == start
  {
    PathRowsAreSimpleWalks(w, start, {start}, join, name, maxHops, r);
    assert w.WalkFromTo(r.pathIds, start, r.id);
    if r.hops > 0 {
      assert r.pathIds[0] != r.pathIds[|r.pathIds| - 1];
    }
  }

  /**
   `MIN(hops)` over the rows of one id is the distance from the start, although the rows
   are only the revisit-free walks: `r` attains the minimum of its group iff its hop
   count is the distance.
   */
  lemma MinHopsIsDistance(w: View, start: Id, join: Join, name: Id -> string, maxHops: int, r: PathRow)
    requires JoinFollows(join, w, start) && start in w.ids
    requires r in PathRows({start}, w.edges, w.ids, join, name, maxHops)
    ensures (forall q :: q in PathRows({start}, w.edges, w.ids, join, name, maxHops) && q.id == r.id ==>
      r.hops <= q.hops)
       <==> r.hops >= 0 && w.Distance(start, r.id, r.hops)
  {
    var rows := PathRows({start}, w.edges, w.ids, join, name, maxHops);
    RowIsWalk(w, start, join, name, maxHops, r);
    if forall q :: q in rows && q.id == r.id ==> r.hops <= q.hops {
      var d, q := RowExistsForWalk(w, start, join, name, maxHops, r.id, r.hops);
      assert r.hops == d;
    }
    if w.Distance(start, r.id, r.hops) {
      forall q | q in rows && q.id == r.id ensures r.hops <= q.hops {
        RowIsWalk(w, start, join, name, maxHops, q);
      }
    }
  }
}

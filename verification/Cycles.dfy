/** `find_cycles`: each vertex-simple directed cycle once, from its least id. */
module Cycles {
  import opened Options
  import opened Cte
  import opened Graphs
  import opened PathQuery
  import opened Pathfinding

  datatype CycleRow = CycleRow(startId: Id, currId: Id, pathIds: seq<Id>, names: seq<string>, depth: int)

  // ---------- cycles of a graph ----------

  /** A cycle, written without its repeated first id; a self-loop is a cycle of one id. */
  ghost predicate IsCycle(w: View, c: seq<Id>) {
    w.IsSimple(c) && w.Adjacent(c[|c| - 1], c[0])
  }

  /** The first id is the least one. */
  ghost predicate StartsLeast(c: seq<Id>) {
    c != [] && forall i :: 1 <= i < |c| ==> c[0] < c[i]
  }

  function Rotate(c: seq<Id>, k: nat): seq<Id>
    requires k <= |c|
  {
    c[k..] + c[..k]
  }

  ghost predicate IsRotation(a: seq<Id>, b: seq<Id>) {
    exists k: nat :: k <= |a| && b == Rotate(a, k)
  }

  /** A closed walk of at least one edge from `u` back to itself. */
  ghost predicate ClosedWalk(w: View, p: seq<Id>) {
    |p| >= 2 && w.IsWalk(p) && p[|p| - 1] == p[0]
  }

  lemma RotateCycle(w: View, c: seq<Id>, k: nat)
    requires IsCycle(w, c) && k < |c|
    ensures IsCycle(w, Rotate(c, k))
  {
    var r := Rotate(c, k);
    WalkSuffix(w, c, k);
    if k > 0 {
      WalkPrefix(w, c, k);
      WalkJoin(w, c[k..], c[..k]);
      assert w.Adjacent(c[k - 1], c[k]);
    } else {
      assert r == c;
    }
  }

  /** Some rotation starts at the least id. */
  lemma LeastRotation(c: seq<Id>) returns (k: nat)
    requires c != [] && Distinct(c)
    ensures k < |c| && StartsLeast(Rotate(c, k))
  {
    var ids := set i | 0 <= i < |c| :: c[i];
    assert c[0] in ids;
    var key := (x: Id) => x;
    LeastExists(ids, key);
    var m :| m in ids && forall q :: q in ids ==> key(m) <= key(q);
    k :| k < |c| && c[k] == m;
    var r := Rotate(c, k);
    forall i | 1 <= i < |r| ensures r[0] < r[i] {
      var j := if i < |c| - k then i + k else i - (|c| - k);
      assert c[j] in ids && r[i] == c[j] && key(m) <= key(c[j]);
    }
  }

  lemma ProperRotationMoves(a: seq<Id>, k: nat)
    requires StartsLeast(a) && 0 < k < |a|
    ensures !StartsLeast(Rotate(a, k))
  {
    assert Rotate(a, k)[|a| - k] == a[0];
  }

  /** Two cycles that start at their least id are rotations of each other only if equal. */
  lemma LeastRotationUnique(a: seq<Id>, b: seq<Id>)
    requires StartsLeast(a) && StartsLeast(b) && IsRotation(a, b)
    ensures a == b
  {
    var k: nat :| k <= |a| && b == Rotate(a, k);
    if 0 < k < |a| {
      ProperRotationMoves(a, k);
    }
  }

  lemma RotateAt(a: seq<Id>, k: nat, t: nat)
    requires k <= |a| && t < |a|
    ensures Rotate(a, k)[t] == a[if t + k < |a| then t + k else t + k - |a|]
  {
  }

  lemma RotateTwice(a: seq<Id>, i: nat, j: nat)
    requires i <= |a| && j <= |a|
    ensures Rotate(Rotate(a, i), j) == if i + j <= |a| then Rotate(a, i + j) else Rotate(a, i + j - |a|)
  {
    var n := |a|;
    var b := Rotate(a, i);
    var k := if i + j <= n then i + j else i + j - n;
    forall t | 0 <= t < n ensures Rotate(b, j)[t] == Rotate(a, k)[t] {
      RotateAt(b, j, t);
      RotateAt(a, i, if t + j < n then t + j else t + j - n);
      RotateAt(a, k, t);
    }
  }

  /** Two ids that both rotate from the same cycle rotate into each other. */
  lemma RotationsOfOne(a: seq<Id>, b: seq<Id>, c: seq<Id>)
    requires IsRotation(a, b) && IsRotation(a, c)
    ensures IsRotation(b, c)
  {
    var i: nat :| i <= |a| && b == Rotate(a, i);
    var j: nat :| j <= |a| && c == Rotate(a, j);
    assert a == Rotate(b, |a| - i);
    RotateTwice(b, |a| - i, j);
  }

  /** A closed walk contains a vertex-simple cycle that is no longer. */
  lemma {:induction false} ClosedWalkHasCycle(w: View, p: seq<Id>) returns (c: seq<Id>)
    requires ClosedWalk(w, p)
    ensures IsCycle(w, c) && |c| <= |p| - 1
    decreases |p|
  {
    var open := p[..|p| - 1];
    WalkPrefix(w, p, |p| - 1);
    if Distinct(open) {
      assert w.Adjacent(p[|p| - 2], p[|p| - 1]);
      c := open;
    } else {
      var i, j :| 0 <= i < j < |open| && open[i] == open[j];
      WalkPrefix(w, p, j + 1);
      WalkSuffix(w, p[..j + 1], i);
      c := ClosedWalkHasCycle(w, p[..j + 1][i..]);
    }
  }

  // ---------- the walk table ----------

  function CycleAnchor(name: Id -> string, n: Id): CycleRow {
    CycleRow(n, n, [n], [name(n)], 0)
  }

  /** The recursive term: extend an unclosed walk to its start or to an unvisited larger id. */
  function CycleStep(g: Graph, maxDepth: int, edgeType: Option<string>): CycleRow -> set<CycleRow> {
    (w: CycleRow) =>
      set i, n | i in g.edges && n in g.nodes && EdgeAndNodeJoin(edgeType)(g.edges[i], w.currId, n)
          && w.depth < maxDepth
          && (w.depth == 0 || w.currId != w.startId)
          && (n == w.startId || (n !in w.pathIds && n > w.startId))
        :: CycleRow(w.startId, n, w.pathIds + [n], w.names + [NameIn(g)(n)], w.depth + 1)
  }

  function DepthLeft(maxDepth: int): CycleRow -> nat {
    (w: CycleRow) => if w.depth < maxDepth then maxDepth - w.depth else 0
  }

  function WalkAnchor(g: Graph): set<CycleRow> {
    set n | n in g.nodes :: CycleAnchor(NameIn(g), n)
  }

  function WalkTable(g: Graph, maxDepth: int, edgeType: Option<string>): set<CycleRow> {
    var anchor := WalkAnchor(g);
    var step := CycleStep(g, maxDepth, edgeType);
    assert Ranked(step, DepthLeft(maxDepth));
    assert RanksBelow(anchor, DepthLeft(maxDepth), Bound(maxDepth));
    WithRecursive(anchor, step, DepthLeft(maxDepth), Bound(maxDepth))
  }

  /** `WHERE depth > 0 AND curr_id = path_ids[1]` (arrays count from 1). */
  function ClosedRows(rows: set<CycleRow>): set<CycleRow> {
    set r | r in rows && r.depth > 0 && r.pathIds != [] && r.currId == r.pathIds[0]
  }

  function CycleRowOf(g: Graph, p: seq<Id>): CycleRow
    requires p != []
  {
    CycleRow(p[0], p[|p| - 1], p, Names(NameIn(g), p), |p| - 1)
  }

  /** A walk that has not closed: simple, every later id above the first. */
  ghost predicate Unclosed(w: View, p: seq<Id>) {
    w.IsSimple(p) && StartsLeast(p)
  }

  /** A walk that has just returned to its start. */
  ghost predicate JustClosed(w: View, p: seq<Id>) {
    ClosedWalk(w, p) && Unclosed(w, p[..|p| - 1])
  }

  /** The rows the walk table holds after exactly `k` rounds. */
  ghost predicate WalkShape(g: Graph, maxDepth: int, edgeType: Option<string>, k: nat, r: CycleRow) {
    && |r.pathIds| == k + 1 && (k == 0 || k <= maxDepth) && r == CycleRowOf(g, r.pathIds)
    && (Unclosed(Whole(g, Outgoing, edgeType), r.pathIds) || JustClosed(Whole(g, Outgoing, edgeType), r.pathIds))
  }

  lemma {:induction false} WalkLevelSound(g: Graph, maxDepth: int, edgeType: Option<string>, k: nat, r: CycleRow)
    requires r in Level(WalkAnchor(g), CycleStep(g, maxDepth, edgeType), k)
    ensures WalkShape(g, maxDepth, edgeType, k, r)
    decreases k
  {
    var p := r.pathIds;
    if k == 0 {
      assert Names(NameIn(g), p) == [NameIn(g)(p[0])];
    } else {
      var step := CycleStep(g, maxDepth, edgeType);
      var q :| q in Level(WalkAnchor(g), step, k - 1) && r in step(q);
      WalkLevelSound(g, maxDepth, edgeType, k - 1, q);
      StepStaysInShape(g, maxDepth, edgeType, q, r);
    }
  }

  lemma {:induction false} WalkLevelComplete(g: Graph, maxDepth: int, edgeType: Option<string>, k: nat, r: CycleRow)
    requires WalkShape(g, maxDepth, edgeType, k, r)
    ensures r in Level(WalkAnchor(g), CycleStep(g, maxDepth, edgeType), k)
    decreases k
  {
    var p := r.pathIds;
    if k == 0 {
      assert p == [p[0]] && Names(NameIn(g), p) == [NameIn(g)(p[0])];
      assert r == CycleAnchor(NameIn(g), p[0]);
    } else {
      var q := CycleRowOf(g, p[..k]);
      WalkLevelComplete(g, maxDepth, edgeType, k - 1, q);
      LastStep(g, maxDepth, edgeType, k, q, r);
    }
  }

  lemma LastStep(g: Graph, maxDepth: int, edgeType: Option<string>, k: nat, q: CycleRow, r: CycleRow)
    requires k > 0 && WalkShape(g, maxDepth, edgeType, k, r) && q == CycleRowOf(g, r.pathIds[..k])
    requires Unclosed(Whole(g, Outgoing, edgeType), r.pathIds[..k])
    ensures r in CycleStep(g, maxDepth, edgeType)(q)
  {
    var w := Whole(g, Outgoing, edgeType);
    var p := r.pathIds;
    assert w.Adjacent(p[k - 1], p[k]);
    var i :| i in g.edges && OfType(g.edges[i], edgeType) && Follows(Outgoing, g.edges[i], p[k - 1], p[k]);
    assert p == p[..k] + [p[k]];
    NamesExtend(NameIn(g), p[..k], p[k]);
    assert q.depth == 0 || q.currId != q.startId;
    assert p[k] in w.ids;
    assert p[k] == q.startId || (p[k] !in q.pathIds && p[k] > q.startId);
  }

  lemma StepStaysInShape(g: Graph, maxDepth: int, edgeType: Option<string>, q: CycleRow, r: CycleRow)
    requires r in CycleStep(g, maxDepth, edgeType)(q)
    requires q.pathIds != [] && q == CycleRowOf(g, q.pathIds)
    requires var w := Whole(g, Outgoing, edgeType); Unclosed(w, q.pathIds) || JustClosed(w, q.pathIds)
    ensures var w := Whole(g, Outgoing, edgeType); Unclosed(w, r.pathIds) || JustClosed(w, r.pathIds)
    ensures |r.pathIds| == |q.pathIds| + 1 && r.depth <= maxDepth && r == CycleRowOf(g, r.pathIds)
  {
    var w := Whole(g, Outgoing, edgeType);
    var p := q.pathIds;
    var i, n :| i in g.edges && n in g.nodes && EdgeAndNodeJoin(edgeType)(g.edges[i], q.currId, n)
      && (q.depth == 0 || q.currId != q.startId)
      && (n == q.startId || (n !in q.pathIds && n > q.startId))
      && r == CycleRow(q.startId, n, p + [n], q.names + [NameIn(g)(n)], q.depth + 1);
    assert w.Adjacent(q.currId, n);
    WalkExtend(w, p, n);
    NamesExtend(NameIn(g), p, n);
    assert (p + [n])[..|p|] == p;
    assert Unclosed(w, p);
  }

  /** The selected rows are exactly the cycles that start at their least id. */
  lemma ClosedRowsAreCycles(g: Graph, maxDepth: int, edgeType: Option<string>, r: CycleRow)
    ensures r in ClosedRows(WalkTable(g, maxDepth, edgeType))
       <==> && 2 <= |r.pathIds| <= maxDepth + 1 && r == CycleRowOf(g, r.pathIds)
            && JustClosed(Whole(g, Outgoing, edgeType), r.pathIds)
  {
    var step := CycleStep(g, maxDepth, edgeType);
    WithRecursiveIsAllLevels(WalkAnchor(g), step, DepthLeft(maxDepth), Bound(maxDepth), r);
    if r in ClosedRows(WalkTable(g, maxDepth, edgeType)) {
      var k: nat :| r in Level(WalkAnchor(g), step, k);
      WalkLevelSound(g, maxDepth, edgeType, k, r);
    }
    if 2 <= |r.pathIds| <= maxDepth + 1 && r == CycleRowOf(g, r.pathIds)
      && JustClosed(Whole(g, Outgoing, edgeType), r.pathIds) {
      WalkLevelComplete(g, maxDepth, edgeType, |r.pathIds| - 1, r);
    }
  }

  /** The row that reports the cycle `c`, for a cycle that need not start at its least id. */
  lemma RowOfCycle(g: Graph, maxDepth: int, edgeType: Option<string>, c: seq<Id>) returns (r: CycleRow)
    requires IsCycle(Whole(g, Outgoing, edgeType), c) && |c| <= maxDepth
    ensures r in ClosedRows(WalkTable(g, maxDepth, edgeType))
    ensures r.depth == |c| == |r.pathIds| - 1 && IsRotation(c, r.pathIds[..|c|])
  {
    var w := Whole(g, Outgoing, edgeType);
    var k := LeastRotation(c);
    var b := Rotate(c, k);
    RotateCycle(w, c, k);
    r := CycleRowOf(g, b + [b[0]]);
    ClosedRowsAreCycles(g, maxDepth, edgeType, r);
    assert r.pathIds[..|c|] == b;
  }

  /** Drops the repeated closing entry. */
  function StripClosing(r: CycleRow): seq<PathNode> {
    var n := if |r.pathIds| <= |r.names| then |r.pathIds| else |r.names|;
    if n == 0 then [] else seq(n - 1, i requires 0 <= i < n - 1 => PathNode(r.pathIds[i], r.names[i]))
  }

  lemma StripClosingIsCycle(g: Graph, maxDepth: int, edgeType: Option<string>, r: CycleRow)
    requires r in ClosedRows(WalkTable(g, maxDepth, edgeType))
    ensures var c := StripClosing(r);
      && Ids(c) == r.pathIds[..|r.pathIds| - 1] && |c| == r.depth && 1 <= |c| <= maxDepth && Labelled(g, c)
      && IsCycle(Whole(g, Outgoing, edgeType), Ids(c)) && StartsLeast(Ids(c))
  {
    var w := Whole(g, Outgoing, edgeType);
    ClosedRowsAreCycles(g, maxDepth, edgeType, r);
    var c := StripClosing(r);
    assert |r.names| == |r.pathIds|;
    assert Ids(c) == r.pathIds[..|r.pathIds| - 1];
    forall i | 0 <= i < |c| ensures c[i].id in g.nodes && c[i].name == g.nodes[c[i].id].name {
      assert c[i].id == r.pathIds[i] && r.pathIds[i] in w.ids;
    }
  }

  lemma SameCycleSameRow(g: Graph, maxDepth: int, edgeType: Option<string>, a: CycleRow, b: CycleRow)
    requires a in ClosedRows(WalkTable(g, maxDepth, edgeType)) && b in ClosedRows(WalkTable(g, maxDepth, edgeType))
    requires a.pathIds[..|a.pathIds| - 1] == b.pathIds[..|b.pathIds| - 1]
    ensures a == b
  {
    ClosedRowsAreCycles(g, maxDepth, edgeType, a);
    ClosedRowsAreCycles(g, maxDepth, edgeType, b);
    var c := a.pathIds[..|a.pathIds| - 1];
    assert a.pathIds == c + [c[0]] && b.pathIds == c + [c[0]];
  }

  /** A reported cycle: simple, within the bound, written from its least id, with its names. */
  ghost predicate IsReport(g: Graph, maxDepth: int, edgeType: Option<string>, c: seq<PathNode>) {
    && 1 <= |c| <= maxDepth && Labelled(g, c)
    && IsCycle(Whole(g, Outgoing, edgeType), Ids(c)) && StartsLeast(Ids(c))
  }

  ghost predicate IsAnswer(g: Graph, maxDepth: int, edgeType: Option<string>, limit: Option<nat>, rows: seq<CycleRow>) {
    FirstRows(ClosedRows(WalkTable(g, maxDepth, edgeType)), (r: CycleRow) => r.depth, limit, rows)
  }

  lemma NoTwoRotations(g: Graph, maxDepth: int, edgeType: Option<string>, limit: Option<nat>, rows: seq<CycleRow>,
                       i: nat, j: nat)
    requires IsAnswer(g, maxDepth, edgeType, limit, rows) && i < j < |rows|
    ensures |StripClosing(rows[i])| <= |StripClosing(rows[j])|
    ensures !IsRotation(Ids(StripClosing(rows[i])), Ids(StripClosing(rows[j])))
  {
    StripClosingIsCycle(g, maxDepth, edgeType, rows[i]);
    StripClosingIsCycle(g, maxDepth, edgeType, rows[j]);
    if IsRotation(Ids(StripClosing(rows[i])), Ids(StripClosing(rows[j]))) {
      LeastRotationUnique(Ids(StripClosing(rows[i])), Ids(StripClosing(rows[j])));
      SameCycleSameRow(g, maxDepth, edgeType, rows[i], rows[j]);
    }
  }

  lemma ReportedOrCut(g: Graph, maxDepth: int, edgeType: Option<string>, limit: Option<nat>, rows: seq<CycleRow>,
                      c: seq<Id>)
    requires IsAnswer(g, maxDepth, edgeType, limit, rows)
    requires IsCycle(Whole(g, Outgoing, edgeType), c) && |c| <= maxDepth
    ensures (exists i :: 0 <= i < |rows| && IsRotation(c, Ids(StripClosing(rows[i]))))
         || (limit == Some(|rows|) && forall i :: 0 <= i < |rows| ==> |StripClosing(rows[i])| <= |c|)
  {
    var all := ClosedRows(WalkTable(g, maxDepth, edgeType));
    var key := (r: CycleRow) => r.depth;
    var r := RowOfCycle(g, maxDepth, edgeType, c);
    if r in rows {
      StripClosingIsCycle(g, maxDepth, edgeType, r);
    } else {
      if limit.None? {
        UnlimitedReturnsAll(all, key, rows);
      } else {
        MissingMeansCut(all, key, limit.value, rows, r);
      }
      forall i | 0 <= i < |rows| ensures |StripClosing(rows[i])| <= |c| {
        StripClosingIsCycle(g, maxDepth, edgeType, rows[i]);
        assert key(rows[i]) <= key(r);
      }
    }
  }

  /**
   Sound: every result is a report. Unique: no two results are rotations of each other.
   Complete: every simple cycle within the bound is a rotation of some result, unless the
   limit cut it off, and then no result is longer than it.
   */
  method FindCycles(g: Graph, maxDepth: int, edgeType: Option<string>, maxCycles: Option<nat>)
    returns (cycles: seq<seq<PathNode>>)
    ensures maxCycles.Some? ==> |cycles| <= maxCycles.value
    ensures forall i :: 0 <= i < |cycles| ==> IsReport(g, maxDepth, edgeType, cycles[i])
    ensures forall i, j :: 0 <= i < j < |cycles| ==>
      |cycles[i]| <= |cycles[j]| && !IsRotation(Ids(cycles[i]), Ids(cycles[j]))
    ensures forall c :: IsCycle(Whole(g, Outgoing, edgeType), c) && |c| <= maxDepth ==>
      || (exists i :: 0 <= i < |cycles| && IsRotation(c, Ids(cycles[i])))
      || (maxCycles == Some(|cycles|) && forall i :: 0 <= i < |cycles| ==> |cycles[i]| <= |c|)
  {
    var rows := ClosedRows(WalkTable(g, maxDepth, edgeType));
    var results := OrderByLimit(rows, (r: CycleRow) => r.depth, maxCycles);
    cycles := seq(|results|, i requires 0 <= i < |results| => StripClosing(results[i]));

    forall i | 0 <= i < |cycles| ensures IsReport(g, maxDepth, edgeType, cycles[i]) {
      StripClosingIsCycle(g, maxDepth, edgeType, results[i]);
    }
    forall i, j | 0 <= i < j < |cycles|
      ensures |cycles[i]| <= |cycles[j]| && !IsRotation(Ids(cycles[i]), Ids(cycles[j]))
    {
      NoTwoRotations(g, maxDepth, edgeType, maxCycles, results, i, j);
    }
    forall c | IsCycle(Whole(g, Outgoing, edgeType), c) && |c| <= maxDepth
      ensures (exists i :: 0 <= i < |cycles| && IsRotation(c, Ids(cycles[i])))
           || (maxCycles == Some(|cycles|) && forall i :: 0 <= i < |cycles| ==> |cycles[i]| <= |c|)
    {
      ReportedOrCut(g, maxDepth, edgeType, maxCycles, results, c);
      if i :| 0 <= i < |results| && IsRotation(c, Ids(StripClosing(results[i]))) {
        assert IsRotation(c, Ids(cycles[i]));
      }
    }
  }

  /**
   With no limit each simple cycle within the bound is reported by exactly one entry of
   any list that `FindCycles` may return.
   */
  lemma ReportedExactlyOnce(g: Graph, maxDepth: int, edgeType: Option<string>, rows: seq<CycleRow>, c: seq<Id>)
    requires IsAnswer(g, maxDepth, edgeType, None, rows)
    requires IsCycle(Whole(g, Outgoing, edgeType), c) && |c| <= maxDepth
    ensures exists i :: (0 <= i < |rows| && IsRotation(c, Ids(StripClosing(rows[i])))
                     && forall j :: 0 <= j < |rows| && IsRotation(c, Ids(StripClosing(rows[j]))) ==> j == i)
  {
    ReportedOrCut(g, maxDepth, edgeType, None, rows, c);
    var i :| 0 <= i < |rows| && IsRotation(c, Ids(StripClosing(rows[i])));
    forall j | 0 <= j < |rows| && IsRotation(c, Ids(StripClosing(rows[j]))) ensures j == i {
      var a, b := Ids(StripClosing(rows[i])), Ids(StripClosing(rows[j]));
      RotationsOfOne(c, a, b);
      RotationsOfOne(c, b, a);
      if i < j {
        NoTwoRotations(g, maxDepth, edgeType, None, rows, i, j);
      } else if j < i {
        NoTwoRotations(g, maxDepth, edgeType, None, rows, j, i);
      }
    }
  }
}

/** `shortest_path` and `all_paths`. */
module Pathfinding {
  import opened Options
  import opened Cte
  import opened Graphs
  import opened PathQuery

  /** One entry of a returned path. */
  datatype PathNode = PathNode(id: Id, name: string)

  function Ids(path: seq<PathNode>): seq<Id> {
    seq(|path|, i requires 0 <= i < |path| => path[i].id)
  }

  /** Each entry shows the name stored for its id. */
  ghost predicate Labelled(g: Graph, path: seq<PathNode>) {
    forall i :: 0 <= i < |path| ==> path[i].id in g.nodes && path[i].name == g.nodes[path[i].id].name
  }

  /** The display name of a node row. */
  function NameIn(g: Graph): Id -> string {
    (n: Id) => if n in g.nodes then g.nodes[n].name else ""
  }

  /** The two join conditions of the shared walk, with its edge-type filter. */
  function EdgeAndNodeJoin(edgeType: Option<string>): Join {
    (e: Edge, cur: Id, n: Id) =>
      && (e.source == cur || (e.bidirectional && e.target == cur))
      && ((e.source == cur && n == e.target) || (e.bidirectional && e.target == cur && n == e.source))
      && OfType(e, edgeType)
  }

  /** The `paths` table of the shared walk, anchored at `from`. */
  function PathsTable(g: Graph, from: Id, maxHops: int, edgeType: Option<string>): set<PathRow> {
    PathRows(if from in g.nodes then {from} else {}, g.edges, g.nodes.Keys, EdgeAndNodeJoin(edgeType), NameIn(g),
        maxHops)
  }

  /** `WHERE id = to`. */
  function RowsAt(rows: set<PathRow>, to: Id): set<PathRow> {
    set r | r in rows && r.id == to
  }

  /** Zips the id and name arrays of a row. */
  function PathFromRow(r: PathRow): seq<PathNode> {
    var n := if |r.pathIds| <= |r.names| then |r.pathIds| else |r.names|;
    seq(n, i requires 0 <= i < n => PathNode(r.pathIds[i], r.names[i]))
  }

  /** The simple paths the two functions choose from. */
  ghost predicate IsCandidate(g: Graph, from: Id, to: Id, maxHops: int, edgeType: Option<string>, p: seq<Id>) {
    && Whole(g, Outgoing, edgeType).IsSimple(p) && Whole(g, Outgoing, edgeType).WalkFromTo(p, from, to)
    && (|p| == 1 || |p| - 1 <= maxHops)
  }

  lemma PathsTableRows(g: Graph, from: Id, to: Id, maxHops: int, edgeType: Option<string>, r: PathRow)
    ensures r in RowsAt(PathsTable(g, from, maxHops, edgeType), to)
       <==> IsCandidate(g, from, to, maxHops, edgeType, r.pathIds) && r == RowOf(NameIn(g), r.pathIds)
  {
    var w := Whole(g, Outgoing, edgeType);
    var starts := if from in g.nodes then {from} else {};
    PathRowsAreSimpleWalks(w, from, starts, EdgeAndNodeJoin(edgeType), NameIn(g), maxHops, r);
  }

  lemma RowPath(g: Graph, from: Id, to: Id, maxHops: int, edgeType: Option<string>, r: PathRow)
    requires r in RowsAt(PathsTable(g, from, maxHops, edgeType), to)
    ensures IsCandidate(g, from, to, maxHops, edgeType, r.pathIds) && |r.pathIds| == r.hops + 1
    ensures Ids(PathFromRow(r)) == r.pathIds && Labelled(g, PathFromRow(r))
  {
    PathsTableRows(g, from, to, maxHops, edgeType, r);
  }

  /**
   A path comes back iff some walk within the hop bound exists; it never revisits a node
   and no walk between the two nodes is shorter. The walk of no edges ignores the bound.
   */
  method ShortestPath(g: Graph, from: Id, to: Id, maxHops: int, edgeType: Option<string>)
    returns (path: Option<seq<PathNode>>)
    ensures path.Some? <==>
      exists k: nat :: Whole(g, Outgoing, edgeType).Reaches(from, to, k) && (k == 0 || k <= maxHops)
    ensures path.Some? ==>
      && |path.value| > 0 && Labelled(g, path.value)
      && IsCandidate(g, from, to, maxHops, edgeType, Ids(path.value))
      && Whole(g, Outgoing, edgeType).Distance(from, to, |path.value| - 1)
  {
    var rows := RowsAt(PathsTable(g, from, maxHops, edgeType), to);
    var results := OrderByLimit(rows, (r: PathRow) => r.hops, Some(1));
    path := if results == [] then None else Some(PathFromRow(results[0]));

    ghost var w := Whole(g, Outgoing, edgeType);
    if k: nat :| w.Reaches(from, to, k) && (k == 0 || k <= maxHops) {
      var d, p := DistanceExists(w, from, to, k);
      PathsTableRows(g, from, to, maxHops, edgeType, RowOf(NameIn(g), p));
      assert RowOf(NameIn(g), p) in rows;
    }
    if path.Some? {
      RowPath(g, from, to, maxHops, edgeType, results[0]);
      var ids := results[0].pathIds;
      assert w.WalkFromTo(ids, from, to) && |ids| == (|ids| - 1) + 1;
      assert w.Reaches(from, to, |ids| - 1);
      var d, p := DistanceExists(w, from, to, |ids| - 1);
      PathsTableRows(g, from, to, maxHops, edgeType, RowOf(NameIn(g), p));
      assert results[0].hops <= d by {
        var best := RowOf(NameIn(g), p);
        assert best in rows;
        assert best in results || best !in results;
      }
    }
  }

  /**
   The simple paths within the hop bound, shortest first, cut to `maxPaths`: what is left
   out is no shorter than what is returned, and nothing is left out below the limit.
   */
  method AllPaths(g: Graph, from: Id, to: Id, maxHops: int, maxPaths: nat, edgeType: Option<string>)
    returns (paths: seq<seq<PathNode>>)
    ensures |paths| <= maxPaths
    ensures forall i :: 0 <= i < |paths| ==>
      Labelled(g, paths[i]) && IsCandidate(g, from, to, maxHops, edgeType, Ids(paths[i]))
    ensures forall i, j :: 0 <= i < j < |paths| ==> Ids(paths[i]) != Ids(paths[j]) && |paths[i]| <= |paths[j]|
    ensures forall p :: IsCandidate(g, from, to, maxHops, edgeType, p) ==>
      || (exists i :: 0 <= i < |paths| && Ids(paths[i]) == p)
      || (|paths| == maxPaths && forall i :: 0 <= i < |paths| ==> |paths[i]| <= |p|)
  {
    var rows := RowsAt(PathsTable(g, from, maxHops, edgeType), to);
    var key := (r: PathRow) => r.hops;
    var results := OrderByLimit(rows, key, Some(maxPaths));
    paths := seq(|results|, i requires 0 <= i < |results| => PathFromRow(results[i]));

    forall i | 0 <= i < |results|
      ensures IsCandidate(g, from, to, maxHops, edgeType, results[i].pathIds) && Ids(paths[i]) == results[i].pathIds
      ensures Labelled(g, paths[i]) && |paths[i]| == results[i].hops + 1
      ensures results[i] == RowOf(NameIn(g), results[i].pathIds)
    {
      RowPath(g, from, to, maxHops, edgeType, results[i]);
      assert |Ids(paths[i])| == |paths[i]|;
      PathsTableRows(g, from, to, maxHops, edgeType, results[i]);
    }
    forall i, j | 0 <= i < j < |paths| ensures Ids(paths[i]) != Ids(paths[j]) && |paths[i]| <= |paths[j]| {
      assert results[i] != results[j] && key(results[i]) <= key(results[j]);
    }
    forall p | IsCandidate(g, from, to, maxHops, edgeType, p)
      ensures (exists i :: 0 <= i < |paths| && Ids(paths[i]) == p)
           || (|paths| == maxPaths && forall i :: 0 <= i < |paths| ==> |paths[i]| <= |p|)
    {
      var r := RowOf(NameIn(g), p);
      PathsTableRows(g, from, to, maxHops, edgeType, r);
      if r in results {
        var i :| 0 <= i < |results| && results[i] == r;
        assert Ids(paths[i]) == p;
      } else {
        MissingMeansCut(rows, key, maxPaths, results, r);
        forall i | 0 <= i < |paths| ensures |paths[i]| <= |p| {
          assert key(results[i]) <= key(r);
        }
      }
    }
  }

  lemma MissingMeansCut<R(!new)>(rows: set<R>, key: R -> int, limit: nat, out: seq<R>, r: R)
    requires FirstRows(rows, key, Some(limit), out)
    requires r in rows && r !in out
    ensures |out| == limit
  {
    if |out| != limit {
      assert FirstRows(rows, key, None, out);
      UnlimitedReturnsAll(rows, key, out);
    }
  }
}

/**
 The node and edge tables seen as a directed graph, and the plain graph notions the
 queries are measured against: walks, simple walks and distance.
 */
module Graphs {
  import opened Options
  import opened Cte

  // Primary keys; any totally ordered key type behaves the same.
  type Id = int
  type EdgeId = int

  datatype Node = Node(name: string, depth: int)
  datatype Edge = Edge(source: Id, target: Id, bidirectional: bool, edgeType: string)

  /** Both tables, keyed by primary key: parallel edges and self-loops are allowed. */
  datatype Graph = Graph(nodes: map<Id, Node>, edges: map<EdgeId, Edge>) {
    /** Every edge endpoint has a row in the node table. */
    ghost predicate Closed() {
      forall i :: i in edges ==> edges[i].source in nodes && edges[i].target in nodes
    }

    /** Ids of the node table together with every id an edge mentions. */
    function AllIds(): set<Id> {
      nodes.Keys + (set i | i in edges :: edges[i].source) + (set i | i in edges :: edges[i].target)
    }
  }

  datatype Direction = Outgoing | Incoming | Both

  function Flip(d: Direction): Direction {
    match d
    case Outgoing => Incoming
    case Incoming => Outgoing
    case Both => Both
  }

  predicate OfType(e: Edge, edgeType: Option<string>) {
    edgeType.None? || e.edgeType == edgeType.value
  }

  /** Edge `e` leads from `u` to `v`; a bidirectional edge may be used both ways. */
  predicate Follows(d: Direction, e: Edge, u: Id, v: Id) {
    match d
    case Outgoing => (e.source == u && e.target == v) || (e.bidirectional && e.target == u && e.source == v)
    case Incoming => (e.target == u && e.source == v) || (e.bidirectional && e.source == u && e.target == v)
    case Both => (e.source == u && e.target == v) || (e.target == u && e.source == v)
  }

  /** A directed graph: the ids that may be visited, and the edges that may be followed. */
  datatype View = View(ids: set<Id>, edges: map<EdgeId, Edge>, direction: Direction, edgeType: Option<string>) {
    ghost predicate Adjacent(u: Id, v: Id) {
      exists i :: i in edges && OfType(edges[i], edgeType) && Follows(direction, edges[i], u, v)
    }

    /** A non-empty list of visited ids; its length in edges is one less than its length. */
    ghost predicate IsWalk(p: seq<Id>) {
      && |p| > 0
      && (forall i :: 0 <= i < |p| ==> p[i] in ids)
      && (forall i :: 0 <= i < |p| - 1 ==> Adjacent(p[i], p[i + 1]))
    }

    ghost predicate IsSimple(p: seq<Id>) {
      IsWalk(p) && Distinct(p)
    }

    ghost predicate WalkFromTo(p: seq<Id>, u: Id, v: Id) {
      IsWalk(p) && p[0] == u && p[|p| - 1] == v
    }

    /** Some walk of exactly `k` edges leads from `u` to `v`. */
    ghost predicate Reaches(u: Id, v: Id, k: nat) {
      exists p :: WalkFromTo(p, u, v) && |p| == k + 1
    }

    /** `k` is the least number of edges of a walk from `u` to `v`. */
    ghost predicate Distance(u: Id, v: Id, k: nat) {
      Reaches(u, v, k) && forall j: nat :: Reaches(u, v, j) ==> k <= j
    }
  }

  function Whole(g: Graph, direction: Direction, edgeType: Option<string>): View {
    View(g.nodes.Keys, g.edges, direction, edgeType)
  }

  // ---------- walks ----------

  lemma WalkPrefix(w: View, p: seq<Id>, n: nat)
    requires w.IsWalk(p) && 0 < n <= |p|
    ensures w.IsWalk(p[..n])
  {
    forall i | 0 <= i < n - 1 ensures w.Adjacent(p[..n][i], p[..n][i + 1]) {
      assert w.Adjacent(p[i], p[i + 1]);
    }
  }

  lemma WalkSuffix(w: View, p: seq<Id>, n: nat)
    requires w.IsWalk(p) && n < |p|
    ensures w.IsWalk(p[n..])
  {
    forall i | 0 <= i < |p| - n - 1 ensures w.Adjacent(p[n..][i], p[n..][i + 1]) {
      assert w.Adjacent(p[n + i], p[n + i + 1]);
    }
  }

  /** Two walks join where the last id of the first leads to the first id of the second. */
  lemma WalkJoin(w: View, p: seq<Id>, q: seq<Id>)
    requires w.IsWalk(p) && w.IsWalk(q) && w.Adjacent(p[|p| - 1], q[0])
    ensures w.IsWalk(p + q)
  {
    var r := p + q;
    forall i | 0 <= i < |r| - 1 ensures w.Adjacent(r[i], r[i + 1]) {
      if i < |p| - 1 {
        assert w.Adjacent(p[i], p[i + 1]);
      } else if i >= |p| {
        assert w.Adjacent(q[i - |p|], q[i - |p| + 1]);
      }
    }
  }

  lemma WalkExtend(w: View, p: seq<Id>, v: Id)
    requires w.IsWalk(p) && v in w.ids && w.Adjacent(p[|p| - 1], v)
    ensures w.IsWalk(p + [v])
  {
    WalkJoin(w, p, [v]);
  }

  /** Every walk can be shortened to a simple walk between the same ends. */
  lemma {:induction false} Shorten(w: View, p: seq<Id>) returns (q: seq<Id>)
    requires w.IsWalk(p)
    ensures w.IsSimple(q) && q[0] == p[0] && q[|q| - 1] == p[|p| - 1]
    ensures |q| <= |p|
    decreases |p|
  {
    if Distinct(p) {
      q := p;
    } else {
      var i, j :| 0 <= i < j < |p| && p[i] == p[j];
      // Cut out the detour between the two visits of p[i].
      var rest := p[j + 1..];
      WalkPrefix(w, p, i + 1);
      var cut := p[..i + 1];
      if rest != [] {
        WalkSuffix(w, p, j + 1);
        assert w.Adjacent(p[j], p[j + 1]);
        WalkJoin(w, p[..i + 1], rest);
        cut := p[..i + 1] + rest;
      }
      q := Shorten(w, cut);
    }
  }

  function Reverse(p: seq<Id>): (r: seq<Id>)
    ensures |r| == |p|
    ensures forall i :: 0 <= i < |p| ==> r[i] == p[|p| - 1 - i]
  {
    if p == [] then [] else Reverse(p[1..]) + [p[0]]
  }

  function FlipView(w: View): View {
    w.(direction := Flip(w.direction))
  }

  /** Walks backwards are walks of the flipped view. */
  lemma WalkReverse(w: View, p: seq<Id>)
    requires w.IsWalk(p)
    ensures FlipView(w).IsWalk(Reverse(p))
  {
    var r := Reverse(p);
    forall i | 0 <= i < |r| - 1 ensures FlipView(w).Adjacent(r[i], r[i + 1]) {
      var k := |p| - 2 - i;
      assert w.Adjacent(p[k], p[k + 1]);
    }
  }

  lemma ReachesFlip(w: View, u: Id, v: Id, k: nat)
    ensures w.Reaches(u, v, k) <==> FlipView(w).Reaches(v, u, k)
  {
    if w.Reaches(u, v, k) {
      var p :| w.WalkFromTo(p, u, v) && |p| == k + 1;
      WalkReverse(w, p);
      assert FlipView(w).WalkFromTo(Reverse(p), v, u);
    }
    if FlipView(w).Reaches(v, u, k) {
      var p :| FlipView(w).WalkFromTo(p, v, u) && |p| == k + 1;
      WalkReverse(FlipView(w), p);
      assert FlipView(FlipView(w)) == w;
      assert w.WalkFromTo(Reverse(p), u, v);
    }
  }

  /** Distances against the edges are distances along the edges, read from the other end. */
  lemma DistanceFlip(w: View, u: Id, v: Id, k: nat)
    ensures w.Distance(u, v, k) <==> FlipView(w).Distance(v, u, k)
  {
    forall j: nat ensures w.Reaches(u, v, j) <==> FlipView(w).Reaches(v, u, j) {
      ReachesFlip(w, u, v, j);
    }
  }

  /** What is reachable has a distance, and the shortest walk is simple. */
  lemma {:induction false} DistanceExists(w: View, u: Id, v: Id, k: nat) returns (d: nat, p: seq<Id>)
    requires w.Reaches(u, v, k)
    ensures d <= k && w.Distance(u, v, d)
    ensures w.IsSimple(p) && w.WalkFromTo(p, u, v) && |p| == d + 1
    decreases k
  {
    if j: nat :| j < k && w.Reaches(u, v, j) {
      d, p := DistanceExists(w, u, v, j);
    } else {
      d := k;
      var q :| w.WalkFromTo(q, u, v) && |q| == k + 1;
      p := Shorten(w, q);
      assert w.WalkFromTo(p, u, v) && |p| == (|p| - 1) + 1;
      assert w.Reaches(u, v, |p| - 1);
    }
  }
}

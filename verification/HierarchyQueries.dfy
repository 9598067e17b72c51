/** The path-based queries of `BaseHierarchyModel`, measured against walking parent links. */
module HierarchyQueries {
  import opened Options
  import opened Cte
  import opened LTree
  import opened Hierarchy

  // ---------- order_by("path") ----------

  predicate TextBefore(s: string, t: string) {
    t != "" && (s == "" || s[0] < t[0] || (s[0] == t[0] && TextBefore(s[1..], t[1..])))
  }

  /** One text is before another iff it is a strict prefix, or smaller where they first differ. */
  lemma {:induction false} TextBeforeIff(s: string, t: string)
    ensures TextBefore(s, t) <==> s < t || exists k :: 0 <= k < |s| && k < |t| && s[..k] == t[..k] && s[k] < t[k]
    decreases |s|
  {
    if s != "" && t != "" {
      TextBeforeIff(s[1..], t[1..]);
      assert s == [s[0]] + s[1..] && t == [t[0]] + t[1..];
      if k :| 0 <= k < |s| && k < |t| && s[..k] == t[..k] && s[k] < t[k] && k > 0 {
        assert s[1..][..k - 1] == s[..k][1..] && t[1..][..k - 1] == t[..k][1..];
        assert s[0] == s[..k][0] == t[..k][0] == t[0];
        assert s[1..][k - 1] < t[1..][k - 1];
      }
      if s[0] == t[0] {
        if k :| 0 <= k < |s[1..]| && k < |t[1..]| && s[1..][..k] == t[1..][..k] && s[1..][k] < t[1..][k] {
          assert s[..k + 1] == [s[0]] + s[1..][..k] && t[..k + 1] == [t[0]] + t[1..][..k];
          assert s[k + 1] < t[k + 1];
        }
        assert s < t <==> s[1..] < t[1..];
      } else {
        assert s[..0] == t[..0];
      }
    }
  }

  /** The order of ltree values: label by label, a prefix first. */
  predicate PathBefore(a: seq<Label>, b: seq<Label>)
    decreases |b|
  {
    b != [] && (a == [] || (if a[0] == b[0] then PathBefore(a[1..], b[1..]) else TextBefore(a[0], b[0])))
  }

  lemma {:induction false} PrefixBefore(a: seq<Label>, b: seq<Label>)
    requires a < b
    ensures PathBefore(a, b)
    decreases |a|
  {
    if a != [] {
      assert a[1..] < b[1..];
      PrefixBefore(a[1..], b[1..]);
    }
  }

  /** `out` lists the rows in the order of their paths. */
  ghost predicate PathOrdered(t: Table, rows: set<Id>, out: seq<Id>) {
    && rows <= t.Keys
    && Distinct(out)
    && (forall i :: i in out <==> i in rows)
    && (forall i, j :: 0 <= i < j < |out| ==> !PathBefore(Labels(t[out[j]]), Labels(t[out[i]])))
  }

  // ---------- ancestors and descendants ----------

  function ScopeOf(self: Instance, namespace: Option<string>): string {
    if namespace.Some? then namespace.value else self.row.namespace
  }

  /** `path @> self.path`, scoped to a namespace. */
  function GetAncestors(t: Table, self: Instance, includeSelf: bool, namespace: Option<string>): set<Id> {
    if self.row.path == "" then {} else
      set i | i in t && Labels(t[i]) <= Split(self.row.path) && t[i].namespace == ScopeOf(self, namespace)
        && (includeSelf || i != self.pk)
  }

  /** `path <@ self.path`, scoped to a namespace. */
  function GetDescendants(t: Table, self: Instance, includeSelf: bool, namespace: Option<string>): set<Id> {
    if self.row.path == "" then {} else
      set i | i in t && Split(self.row.path) <= Labels(t[i]) && t[i].namespace == ScopeOf(self, namespace)
        && (includeSelf || i != self.pk)
  }

  lemma StoredPathNonEmpty(t: Table, x: Id)
    requires Consistent(t) && x in t
    ensures t[x].path != ""
  {
    assert RowOk(t, x);
    assert Split("") == [""];
  }

  /** The ancestors by path are the nodes met on the way up the parent links. */
  lemma AncestorsFollowLinks(t: Table, x: Id, includeSelf: bool, i: Id)
    requires Consistent(t) && UniquePaths(t) && x in t
    ensures i in GetAncestors(t, Of(t, x), includeSelf, None) <==> i in RootPath(t, x) && (includeSelf || i != x)
  {
    StoredPathNonEmpty(t, x);
    RootPathLabels(t, x);
    if i in t {
      PrefixIffOnRootPath(t, i, x);
    }
  }

  /** The descendants by path are the nodes whose way up passes through `x`. */
  lemma DescendantsFollowLinks(t: Table, x: Id, includeSelf: bool, i: Id)
    requires Consistent(t) && UniquePaths(t) && x in t
    ensures i in GetDescendants(t, Of(t, x), includeSelf, None) <==>
      i in t && x in RootPath(t, i) && (includeSelf || i != x)
  {
    StoredPathNonEmpty(t, x);
    if i in t {
      PrefixIffOnRootPath(t, x, i);
    }
  }

  // ---------- other namespaces ----------

  /** The rows of one namespace. */
  function RowsOf(t: Table, ns: string): Table {
    map i | i in t && t[i].namespace == ns :: t[i]
  }

  lemma LabelPrefixByText(p: string, q: string)
    ensures Split(p) <= Split(q) <==> p == q || p + "." <= q
  {
    StartsWithIsLabelPrefix(p, q);
    JoinSplit(p);
    JoinSplit(q);
  }

  /**
   In terms of the path texts, for any table and any instance: the rows of the given namespace,
   or else of the instance's own, whose path is the instance's or goes on to it after a dot.
   */
  lemma AncestorsByText(t: Table, self: Instance, includeSelf: bool, namespace: Option<string>, i: Id)
    ensures i in GetAncestors(t, self, includeSelf, namespace) <==>
      && self.row.path != "" && i in t && (includeSelf || i != self.pk)
      && (namespace == Some(t[i].namespace) || (namespace.None? && t[i].namespace == self.row.namespace))
      && (t[i].path == self.row.path || t[i].path + "." <= self.row.path)
  {
    if i in t {
      LabelPrefixByText(t[i].path, self.row.path);
    }
  }

  /** The same for the rows whose path is the instance's or continues it after a dot. */
  lemma DescendantsByText(t: Table, self: Instance, includeSelf: bool, namespace: Option<string>, i: Id)
    ensures i in GetDescendants(t, self, includeSelf, namespace) <==>
      && self.row.path != "" && i in t && (includeSelf || i != self.pk)
      && (namespace == Some(t[i].namespace) || (namespace.None? && t[i].namespace == self.row.namespace))
      && (t[i].path == self.row.path || self.row.path + "." <= t[i].path)
  {
    if i in t {
      LabelPrefixByText(self.row.path, t[i].path);
    }
  }

  /** A table is consistent iff its namespaces are, each by itself. */
  lemma ConsistentByNamespace(t: Table)
    ensures Consistent(t) <==> forall ns :: Consistent(RowsOf(t, ns))
  {
    forall i | i in t ensures RowOk(t, i) <==> RowOk(RowsOf(t, t[i].namespace), i) {
    }
    if Consistent(t) {
      forall ns, i ensures RowOk(RowsOf(t, ns), i) {
        assert RowOk(t, i);
      }
    }
    if forall ns :: Consistent(RowsOf(t, ns)) {
      forall i | i in t ensures RowOk(t, i) {
        assert Consistent(RowsOf(t, t[i].namespace));
      }
    }
  }

  /**
   Asked for a namespace, the ancestors are the parent chain of the row `y` that has the
   instance's path there, whatever the other namespaces hold and whether the instance is stored.
   */
  lemma AncestorsInNamespace(t: Table, self: Instance, includeSelf: bool, ns: string, y: Id, i: Id)
    requires Consistent(RowsOf(t, ns)) && UniquePaths(RowsOf(t, ns))
    requires y in RowsOf(t, ns) && t[y].path == self.row.path
    ensures i in GetAncestors(t, self, includeSelf, Some(ns)) <==>
      i in RootPath(RowsOf(t, ns), y) && (includeSelf || i != self.pk)
  {
    AncestorsFollowLinks(RowsOf(t, ns), y, true, i);
    AncestorsByText(RowsOf(t, ns), Of(RowsOf(t, ns), y), true, None, i);
    AncestorsByText(t, self, includeSelf, Some(ns), i);
  }

  /** The descendants are the rows of that namespace whose parent chain passes through `y`. */
  lemma DescendantsInNamespace(t: Table, self: Instance, includeSelf: bool, ns: string, y: Id, i: Id)
    requires Consistent(RowsOf(t, ns)) && UniquePaths(RowsOf(t, ns))
    requires y in RowsOf(t, ns) && t[y].path == self.row.path
    ensures i in GetDescendants(t, self, includeSelf, Some(ns)) <==>
      i in RowsOf(t, ns) && y in RootPath(RowsOf(t, ns), i) && (includeSelf || i != self.pk)
  {
    DescendantsFollowLinks(RowsOf(t, ns), y, true, i);
    DescendantsByText(RowsOf(t, ns), Of(RowsOf(t, ns), y), true, None, i);
    DescendantsByText(t, self, includeSelf, Some(ns), i);
  }

  /** For every node the ancestors by path, itself included, are its parent chain. */
  ghost predicate AncestorsAreChains(t: Table)
    requires Consistent(t)
  {
    forall x, i :: x in t ==> (i in GetAncestors(t, Of(t, x), true, None) <==> i in RootPath(t, x))
  }

  /** For every node the descendants by path, itself included, are the nodes whose chain meets it. */
  ghost predicate DescendantsAreChains(t: Table)
    requires Consistent(t)
  {
    forall x, i :: x in t ==> (i in GetDescendants(t, Of(t, x), true, None) <==> i in t && x in RootPath(t, i))
  }

  /** The path queries answer as the parent links iff no two rows of a namespace share a path. */
  lemma QueriesFollowLinksIffUnique(t: Table)
    requires Consistent(t)
    ensures AncestorsAreChains(t) <==> UniquePaths(t)
    ensures DescendantsAreChains(t) <==> UniquePaths(t)
  {
    if UniquePaths(t) {
      forall x, i | x in t
        ensures i in GetAncestors(t, Of(t, x), true, None) <==> i in RootPath(t, x)
        ensures i in GetDescendants(t, Of(t, x), true, None) <==> i in t && x in RootPath(t, i)
      {
        AncestorsFollowLinks(t, x, true, i);
        DescendantsFollowLinks(t, x, true, i);
      }
    } else {
      var i, j :| i in t && j in t && t[i].namespace == t[j].namespace && t[i].path == t[j].path && i != j;
      NamesakesAreNotAbove(t, i, j);
      StoredPathNonEmpty(t, i);
      StoredPathNonEmpty(t, j);
      assert j in GetAncestors(t, Of(t, i), true, None) && j !in RootPath(t, i);
      assert i in GetDescendants(t, Of(t, j), true, None) && j !in RootPath(t, i);
    }
  }

  lemma NamesakesAreNotAbove(t: Table, i: Id, j: Id)
    requires Consistent(t) && i in t && j in t && i != j && Labels(t[i]) == Labels(t[j])
    ensures j !in RootPath(t, i)
  {
    RootPathLabels(t, i);
    var p := RootPath(t, i);
    forall k | 0 <= k < |p| ensures p[k] != j {
      assert k < |p| - 1 ==> |Labels(t[p[k]])| < |Labels(t[j])|;
    }
  }

  lemma {:induction false} StrictlyIncreasingFills(s: seq<int>, k: nat)
    requires forall i, j :: 0 <= i < j < |s| ==> s[i] < s[j]
    requires forall i :: 0 <= i < |s| ==> 0 <= s[i] < |s|
    requires k < |s|
    ensures s[k] == k
  {
    AtLeastIndex(s, k);
    AtMostIndex(s, k);
  }

  lemma {:induction false} AtLeastIndex(s: seq<int>, k: nat)
    requires forall i, j :: 0 <= i < j < |s| ==> s[i] < s[j]
    requires forall i :: 0 <= i < |s| ==> 0 <= s[i]
    requires k < |s|
    ensures k <= s[k]
    decreases k
  {
    if k > 0 {
      AtLeastIndex(s, k - 1);
    }
  }

  lemma {:induction false} AtMostIndex(s: seq<int>, k: nat)
    requires forall i, j :: 0 <= i < j < |s| ==> s[i] < s[j]
    requires forall i :: 0 <= i < |s| ==> s[i] < |s|
    requires k < |s|
    ensures s[k] <= k
    decreases |s| - k
  {
    if k < |s| - 1 {
      AtMostIndex(s, k + 1);
    }
  }

  lemma SameMembersSameLength(a: seq<Id>, b: seq<Id>)
    requires Distinct(a) && Distinct(b) && forall i :: i in a <==> i in b
    ensures |a| == |b|
  {
    DistinctCount(a);
    DistinctCount(b);
    var sa, sb := set i | 0 <= i < |a| :: a[i], set i | 0 <= i < |b| :: b[i];
    forall x ensures x in sa <==> x in sb {
      assert x in sa <==> x in a;
      assert x in sb <==> x in b;
    }
    assert sa == sb;
  }

  lemma RootPathDistinct(t: Table, x: Id)
    requires Consistent(t) && x in t
    ensures Distinct(RootPath(t, x))
  {
    RootPathLabels(t, x);
  }

  /** A list of nodes of one root path in order of depth is the root path itself, or its start. */
  lemma DepthOrderIsRootPath(t: Table, x: Id, n: nat, out: seq<Id>)
    requires Consistent(t) && x in t && n <= |RootPath(t, x)|
    requires forall i :: i in out <==> i in RootPath(t, x)[..n]
    requires Distinct(out)
    requires forall i, j :: 0 <= i < j < |out| && out[i] in t && out[j] in t ==> t[out[i]].depth <= t[out[j]].depth
    ensures out == RootPath(t, x)[..n]
  {
    var p := RootPath(t, x)[..n];
    RootPathLabels(t, x);
    RootPathDistinct(t, x);
    SameMembersSameLength(out, p);
    forall i | 0 <= i < |out| ensures out[i] in t && 0 <= t[out[i]].depth < n && p[t[out[i]].depth] == out[i] {
      assert out[i] in p;
      var k :| 0 <= k < n && p[k] == out[i];
    }
    var depths := seq(|out|, i requires 0 <= i < |out| => if out[i] in t then t[out[i]].depth else 0);
    forall i, j | 0 <= i < j < |depths| ensures depths[i] < depths[j] {
      assert p[depths[i]] == out[i] && p[depths[j]] == out[j] && out[i] != out[j];
    }
    forall k | 0 <= k < n ensures out[k] == p[k] {
      StrictlyIncreasingFills(depths, k);
    }
  }

  /** Of two nodes on one root path the one that is not ordered before the other is as deep. */
  lemma PathOrderOnRootPath(t: Table, x: Id, a: Id, b: Id)
    requires Consistent(t) && x in t && a in RootPath(t, x) && b in RootPath(t, x)
    ensures a in t && b in t && (t[b].depth < t[a].depth ==> PathBefore(Labels(t[b]), Labels(t[a])))
  {
    RootPathLabels(t, x);
    var p := RootPath(t, x);
    var ka :| 0 <= ka < |p| && p[ka] == a;
    var kb :| 0 <= kb < |p| && p[kb] == b;
    if kb < ka {
      PrefixBefore(Labels(t[b]), Labels(t[a]));
    }
  }

  /** Ordered by path, the ancestors come root first, exactly as the parent links run. */
  lemma AncestorsRootFirst(t: Table, x: Id, includeSelf: bool, out: seq<Id>)
    requires Consistent(t) && UniquePaths(t) && x in t
    requires PathOrdered(t, GetAncestors(t, Of(t, x), includeSelf, None), out)
    ensures out == if includeSelf then RootPath(t, x) else RootPath(t, x)[..|RootPath(t, x)| - 1]
  {
    var p := RootPath(t, x);
    var n := if includeSelf then |p| else |p| - 1;
    RootPathLabels(t, x);
    RootPathDistinct(t, x);
    forall i ensures i in out <==> i in p[..n] {
      AncestorsFollowLinks(t, x, includeSelf, i);
      if i in p && i != x {
        var k :| 0 <= k < |p| && p[k] == i;
        assert p[..|p| - 1][k] == i;
      }
    }
    forall i, j | 0 <= i < j < |out| ensures out[i] in t && out[j] in t && t[out[i]].depth <= t[out[j]].depth {
      assert out[i] in p[..n] && out[j] in p[..n];
      PathOrderOnRootPath(t, x, out[i], out[j]);
    }
    DepthOrderIsRootPath(t, x, n, out);
    assert p[..|p|] == p;
  }

  /** Ordered by path, a node is listed before every node below it. */
  lemma DescendantsParentsFirst(t: Table, x: Id, includeSelf: bool, out: seq<Id>, i: nat, j: nat)
    requires Consistent(t) && UniquePaths(t) && x in t
    requires PathOrdered(t, GetDescendants(t, Of(t, x), includeSelf, None), out)
    requires i < |out| && j < |out| && out[i] != out[j] && out[j] in t && out[i] in RootPath(t, out[j])
    ensures i < j
  {
    var a, b := out[i], out[j];
    RootPathLabels(t, b);
    PrefixIffOnRootPath(t, a, b);
    if Labels(t[a]) == Labels(t[b]) {
      SameLabelsSamePath(t[a], t[b]);
    }
    PrefixBefore(Labels(t[a]), Labels(t[b]));
  }

  // ---------- shallowest first ----------

  lemma {:induction false} TextBeforeTotal(s: string, t: string)
    requires s != t
    ensures TextBefore(s, t) || TextBefore(t, s)
    decreases |s|
  {
    if s != "" && t != "" && s[0] == t[0] {
      assert s == [s[0]] + s[1..] && t == [t[0]] + t[1..];
      TextBeforeTotal(s[1..], t[1..]);
    }
  }

  lemma {:induction false} TextBeforeOneWay(s: string, t: string)
    requires TextBefore(s, t)
    ensures !TextBefore(t, s)
    decreases |s|
  {
    if s != "" && s[0] == t[0] {
      TextBeforeOneWay(s[1..], t[1..]);
    }
  }

  /** Two paths are ordered as the labels are at which they part. */
  lemma {:induction false} OrderAtParting(a: seq<Label>, b: seq<Label>, m: nat)
    requires m < |a| && m < |b| && a[..m] == b[..m] && a[m] != b[m]
    ensures PathBefore(a, b) <==> TextBefore(a[m], b[m])
    decreases m
  {
    if m > 0 {
      assert a[0] == a[..m][0] == b[..m][0] == b[0];
      assert a[1..][..m - 1] == a[..m][1..] && b[1..][..m - 1] == b[..m][1..];
      OrderAtParting(a[1..], b[1..], m - 1);
    }
  }

  lemma {:induction false} Parting(a: seq<Label>, b: seq<Label>) returns (m: nat)
    requires !(a <= b) && !(b <= a)
    ensures m < |a| && m < |b| && a[..m] == b[..m] && a[m] != b[m]
    decreases |a|
  {
    if a[0] != b[0] {
      m := 0;
    } else {
      assert a == [a[0]] + a[1..] && b == [b[0]] + b[1..];
      var k := Parting(a[1..], b[1..]);
      m := k + 1;
      assert a[..m] == [a[0]] + a[1..][..k] && b[..m] == [b[0]] + b[1..][..k];
    }
  }

  ghost predicate Siblings(t: Table, a: Id, b: Id) {
    a in t && b in t && a != b && t[a].parentId.Some? && t[a].parentId == t[b].parentId
  }

  ghost predicate HasChild(t: Table, a: Id) {
    exists c :: c in t && t[c].parentId == Some(a)
  }

  /** A node below `x` that has a child is ordered before one of its siblings. */
  ghost predicate BranchesEarly(t: Table, x: Id)
    requires Consistent(t)
  {
    exists a, b :: EarlyBranch(t, x, a, b)
  }

  ghost predicate EarlyBranch(t: Table, x: Id, a: Id, b: Id)
    requires Consistent(t)
  {
    Siblings(t, a, b) && Below(t, x, a) && HasChild(t, a) && PathBefore(Labels(t[a]), Labels(t[b]))
  }

  ghost predicate ShallowestFirst(t: Table, out: seq<Id>) {
    forall i, j :: 0 <= i < j < |out| && out[i] in t && out[j] in t ==> t[out[i]].depth <= t[out[j]].depth
  }

  /** Siblings part at their last label. */
  lemma SiblingsPart(t: Table, a: Id, b: Id)
    requires Consistent(t) && UniquePaths(t) && Siblings(t, a, b)
    ensures var m := |Labels(t[a])| - 1;
      |Labels(t[b])| == m + 1 && Labels(t[a])[..m] == Labels(t[b])[..m] && Labels(t[a])[m] != Labels(t[b])[m]
    ensures t[a].depth == t[b].depth
  {
    assert RowOk(t, a) && RowOk(t, b);
    if Labels(t[a]) == Labels(t[b]) {
      SameLabelsSamePath(t[a], t[b]);
    }
  }

  /** A child of a node is ordered against the node's siblings as the node itself is. */
  lemma ChildAgainstSibling(t: Table, a: Id, b: Id, c: Id)
    requires Consistent(t) && UniquePaths(t) && Siblings(t, a, b) && c in t && t[c].parentId == Some(a)
    ensures PathBefore(Labels(t[c]), Labels(t[b])) <==> PathBefore(Labels(t[a]), Labels(t[b]))
  {
    var m := |Labels(t[a])| - 1;
    SiblingsPart(t, a, b);
    assert RowOk(t, c);
    assert Labels(t[c])[..m] == Labels(t[a])[..m] && Labels(t[c])[m] == Labels(t[a])[m];
    OrderAtParting(Labels(t[a]), Labels(t[b]), m);
    OrderAtParting(Labels(t[c]), Labels(t[b]), m);
  }

  /** The node at position `m` of a root path: its labels, its parent, and what follows it. */
  lemma OnTheWay(t: Table, u: Id, m: nat)
    requires Consistent(t) && UniquePaths(t) && u in t && 0 < m < |RootPath(t, u)|
    ensures |Labels(t[u])| == |RootPath(t, u)|
    ensures var p := RootPath(t, u);
      p[m - 1] in t && p[m] in t && Labels(t[p[m]]) == Labels(t[u])[..m + 1] && t[p[m]].parentId == Some(p[m - 1])
  {
    RootPathLabels(t, u);
    var p := RootPath(t, u);
    assert RowOk(t, p[m]);
    var q := t[p[m]].parentId.value;
    assert Labels(t[q]) == Labels(t[p[m]])[..m] == Labels(t[u])[..m] == Labels(t[p[m - 1]]);
    SameLabelsSameNode(t, q, p[m - 1]);
  }

  lemma SameLabelsSameNode(t: Table, a: Id, b: Id)
    requires UniquePaths(t) && a in t && b in t && t[a].namespace == t[b].namespace && Labels(t[a]) == Labels(t[b])
    ensures a == b
  {
    SameLabelsSamePath(t[a], t[b]);
  }

  /** Two nodes below `x`, neither above the other, lie below or at siblings below `x`. */
  lemma PartAtSiblings(t: Table, x: Id, u: Id, v: Id) returns (m: nat)
    requires Consistent(t) && UniquePaths(t) && x in t && u in t && v in t
    requires x in RootPath(t, u) && x in RootPath(t, v) && u !in RootPath(t, v) && v !in RootPath(t, u)
    ensures 0 < m < |RootPath(t, u)| && m < |RootPath(t, v)|
    ensures Siblings(t, RootPath(t, u)[m], RootPath(t, v)[m]) && Below(t, x, RootPath(t, u)[m])
    ensures |Labels(t[u])| == |RootPath(t, u)| && |Labels(t[v])| == |RootPath(t, v)|
    ensures Labels(t[u])[..m] == Labels(t[v])[..m] && Labels(t[u])[m] != Labels(t[v])[m]
  {
    PrefixIffOnRootPath(t, x, u);
    PrefixIffOnRootPath(t, x, v);
    PrefixIffOnRootPath(t, u, v);
    PrefixIffOnRootPath(t, v, u);
    RootPathLabels(t, u);
    RootPathLabels(t, v);
    var lu, lv, lx := Labels(t[u]), Labels(t[v]), Labels(t[x]);
    m := Parting(lu, lv);
    forall k | 0 <= k < |lx| ensures lu[k] == lv[k] {
      assert lx[k] == lu[k] && lx[k] == lv[k];
    }
    assert m >= |lx|;
    OnTheWay(t, u, m);
    OnTheWay(t, v, m);
    var a, b := RootPath(t, u)[m], RootPath(t, v)[m];
    assert Labels(t[a])[m] == lu[m] && Labels(t[b])[m] == lv[m];
    var pa, pb := t[a].parentId.value, t[b].parentId.value;
    assert Labels(t[pa]) == lu[..m] && Labels(t[pb]) == lv[..m];
    SameLabelsSamePath(t[pa], t[pb]);
    assert lx <= Labels(t[a]) by {
      assert lu[..m + 1][..|lx|] == lx;
    }
    PrefixIffOnRootPath(t, x, a);
  }

  /** A listed node that is deeper than a later one shows an early branch. */
  lemma DeeperFirstBranches(t: Table, x: Id, u: Id, v: Id)
    requires Consistent(t) && UniquePaths(t) && x in t && u in t && v in t
    requires x in RootPath(t, u) && x in RootPath(t, v) && v !in RootPath(t, u)
    requires t[v].depth < t[u].depth && !PathBefore(Labels(t[v]), Labels(t[u]))
    ensures BranchesEarly(t, x)
  {
    RootPathLabels(t, u);
    RootPathLabels(t, v);
    NotAboveShallower(t, u, v);
    var m := PartAtSiblings(t, x, u, v);
    OrderOfBranches(t, u, v, m);
    assert RowOk(t, u) && RowOk(t, v);
    ChildOnTheWay(t, u, m);
    assert EarlyBranch(t, x, RootPath(t, u)[m], RootPath(t, v)[m]);
  }

  lemma ChildOnTheWay(t: Table, u: Id, m: nat)
    requires Consistent(t) && UniquePaths(t) && u in t && m + 1 < |RootPath(t, u)|
    ensures HasChild(t, RootPath(t, u)[m])
  {
    OnTheWay(t, u, m + 1);
    var a, c := RootPath(t, u)[m], RootPath(t, u)[m + 1];
    IsChild(t, a, c);
  }

  lemma IsChild(t: Table, a: Id, c: Id)
    requires c in t && t[c].parentId == Some(a)
    ensures HasChild(t, a)
  {
  }

  lemma NotAboveShallower(t: Table, u: Id, v: Id)
    requires Consistent(t) && u in t && v in t && t[v].depth < t[u].depth
    ensures u !in RootPath(t, v)
  {
    RootPathLabels(t, v);
    assert RowOk(t, v);
  }

  /** The branches in which two nodes lie are ordered as the nodes are. */
  lemma OrderOfBranches(t: Table, u: Id, v: Id, m: nat)
    requires Consistent(t) && UniquePaths(t) && u in t && v in t
    requires 0 < m < |RootPath(t, u)| && m < |RootPath(t, v)|
    requires |Labels(t[u])| == |RootPath(t, u)| && |Labels(t[v])| == |RootPath(t, v)|
    requires Labels(t[u])[..m] == Labels(t[v])[..m] && Labels(t[u])[m] != Labels(t[v])[m]
    requires !PathBefore(Labels(t[v]), Labels(t[u]))
    ensures RootPath(t, u)[m] in t && RootPath(t, v)[m] in t
    ensures PathBefore(Labels(t[RootPath(t, u)[m]]), Labels(t[RootPath(t, v)[m]]))
  {
    var lu, lv := Labels(t[u]), Labels(t[v]);
    OnTheWay(t, u, m);
    OnTheWay(t, v, m);
    OrderAtParting(lv, lu, m);
    TextBeforeTotal(lu[m], lv[m]);
    assert lu[..m + 1][..m] == lu[..m] && lv[..m + 1][..m] == lv[..m];
    OrderAtParting(lu[..m + 1], lv[..m + 1], m);
  }

  /** An early branch puts a deeper node before a shallower one. */
  lemma BranchIsListedFirst(t: Table, x: Id, includeSelf: bool, out: seq<Id>, a: Id, b: Id, c: Id)
    requires Consistent(t) && UniquePaths(t) && x in t
    requires PathOrdered(t, GetDescendants(t, Of(t, x), includeSelf, None), out)
    requires Siblings(t, a, b) && Below(t, x, a) && PathBefore(Labels(t[a]), Labels(t[b]))
    requires c in t && t[c].parentId == Some(a)
    ensures !ShallowestFirst(t, out)
  {
    ChildAgainstSibling(t, a, b, c);
    SiblingsPart(t, a, b);
    assert RowOk(t, a) && RowOk(t, b) && RowOk(t, c);
    assert RootPath(t, a)[..|RootPath(t, a)| - 1] == RootPath(t, b)[..|RootPath(t, b)| - 1];
    assert x in RootPath(t, a)[..|RootPath(t, a)| - 1];
    assert x in RootPath(t, b) && x in RootPath(t, c);
    RootPathDistinct(t, b);
    RootPathDistinct(t, c);
    DescendantsFollowLinks(t, x, includeSelf, b);
    DescendantsFollowLinks(t, x, includeSelf, c);
    var i :| 0 <= i < |out| && out[i] == c;
    var j :| 0 <= j < |out| && out[j] == b;
    assert i != j && !(j < i);
  }

  /**
   Ordered by path the descendants come shallowest first iff no node below `x` that has a
   child is ordered before one of its siblings.
   */
  lemma DescendantsShallowestFirstIff(t: Table, x: Id, includeSelf: bool, out: seq<Id>)
    requires Consistent(t) && UniquePaths(t) && x in t
    requires PathOrdered(t, GetDescendants(t, Of(t, x), includeSelf, None), out)
    ensures ShallowestFirst(t, out) <==> !BranchesEarly(t, x)
  {
    if BranchesEarly(t, x) {
      var a, b :| EarlyBranch(t, x, a, b);
      var c :| c in t && t[c].parentId == Some(a);
      BranchIsListedFirst(t, x, includeSelf, out, a, b, c);
    } else {
      forall i, j | 0 <= i < j < |out| && out[i] in t && out[j] in t ensures t[out[i]].depth <= t[out[j]].depth {
        LaterIsNoShallower(t, x, includeSelf, out, i, j);
      }
    }
  }

  lemma LaterIsNoShallower(t: Table, x: Id, includeSelf: bool, out: seq<Id>, i: nat, j: nat)
    requires Consistent(t) && UniquePaths(t) && x in t && !BranchesEarly(t, x)
    requires PathOrdered(t, GetDescendants(t, Of(t, x), includeSelf, None), out)
    requires i < j < |out| && out[i] in t && out[j] in t
    ensures t[out[i]].depth <= t[out[j]].depth
  {
    var u, v := out[i], out[j];
    assert u in out && v in out;
    DescendantsFollowLinks(t, x, includeSelf, u);
    DescendantsFollowLinks(t, x, includeSelf, v);
    if t[v].depth < t[u].depth {
      if v in RootPath(t, u) {
        DescendantsParentsFirst(t, x, includeSelf, out, j, i);
      } else {
        DeeperFirstBranches(t, x, u, v);
      }
    }
  }

  /** A root `a` with the children `b` and `d`, and `c` below `b`. */
  function FourNodes(ns: string): Table {
    map[1 := Row("a", "a", None, 0, ns), 2 := Row("a.b", "b", Some(1), 1, ns),
        3 := Row("a.b.c", "c", Some(2), 2, ns), 4 := Row("a.d", "d", Some(1), 1, ns)]
  }

  lemma FourNodesLabels(ns: string)
    ensures Labels(FourNodes(ns)[1]) == ["a"] && Labels(FourNodes(ns)[2]) == ["a", "b"]
    ensures Labels(FourNodes(ns)[3]) == ["a", "b", "c"] && Labels(FourNodes(ns)[4]) == ["a", "d"]
    ensures Consistent(FourNodes(ns)) && UniquePaths(FourNodes(ns))
  {
    SplitSingle("a");
    SplitSingle("b");
    SplitSingle("c");
    SplitSingle("d");
    SplitConcat("a", "b");
    SplitConcat("a", "d");
    SplitConcat("a.b", "c");
    assert "a" + "." + "b" == "a.b" && "a" + "." + "d" == "a.d" && "a.b" + "." + "c" == "a.b.c";
    FourNodesFit(ns);
  }

  lemma FourNodesFit(ns: string)
    requires Labels(FourNodes(ns)[1]) == ["a"] && Labels(FourNodes(ns)[2]) == ["a", "b"]
    requires Labels(FourNodes(ns)[3]) == ["a", "b", "c"] && Labels(FourNodes(ns)[4]) == ["a", "d"]
    ensures Consistent(FourNodes(ns)) && UniquePaths(FourNodes(ns))
  {
    var t := FourNodes(ns);
    assert ["a"] + ["b"] == ["a", "b"] && ["a"] + ["d"] == ["a", "d"] && ["a", "b"] + ["c"] == ["a", "b", "c"];
    forall i ensures RowOk(t, i) {
    }
    forall i, j | i in t && j in t && t[i].path == t[j].path ensures i == j {
      assert |Labels(t[i])| == |Labels(t[j])|;
      assert ["a", "b"][1] == "b" && ["a", "d"][1] == "d" && "b"[0] != "d"[0];
    }
  }

  lemma ListedInOrder(t: Table, rows: set<Id>, out: seq<Id>, a: Id, b: Id) returns (i: nat, j: nat)
    requires PathOrdered(t, rows, out) && a in rows && b in rows && a != b && PathBefore(Labels(t[a]), Labels(t[b]))
    ensures i < j < |out| && out[i] == a && out[j] == b
  {
    i :| 0 <= i < |out| && out[i] == a;
    j :| 0 <= j < |out| && out[j] == b;
  }

  /** Listed by path, the descendants of `a` are `a.b`, `a.b.c`, `a.d`: not shallowest first. */
  lemma DescendantsNotShallowestFirst(ns: string, out: seq<Id>)
    requires PathOrdered(FourNodes(ns), GetDescendants(FourNodes(ns), Of(FourNodes(ns), 1), false, None), out)
    ensures out == [2, 3, 4] && !ShallowestFirst(FourNodes(ns), out)
  {
    var t := FourNodes(ns);
    var rows := GetDescendants(t, Of(t, 1), false, None);
    FourNodesLabels(ns);
    assert rows == {2, 3, 4};
    PrefixBefore(["a", "b"], ["a", "b", "c"]);
    assert TextBefore("b", "d");
    OrderAtParting(["a", "b", "c"], ["a", "d"], 1);
    SameMembersSameLength(out, [2, 3, 4]);
    var i, j := ListedInOrder(t, rows, out, 2, 3);
    var k, l := ListedInOrder(t, rows, out, 3, 4);
    assert out[1] == 3 && out[2] == 4 && t[3].depth == 2 && t[4].depth == 1;
  }

  /** That listing is in path order. */
  lemma FourNodesListing(ns: string)
    ensures PathOrdered(FourNodes(ns), GetDescendants(FourNodes(ns), Of(FourNodes(ns), 1), false, None), [2, 3, 4])
  {
    var t := FourNodes(ns);
    FourNodesLabels(ns);
    assert GetDescendants(t, Of(t, 1), false, None) == {2, 3, 4};
    assert TextBefore("b", "d") && !TextBefore("d", "b");
    OrderAtParting(["a", "d"], ["a", "b", "c"], 1);
    OrderAtParting(["a", "d"], ["a", "b"], 1);
    assert !PathBefore(["a", "b", "c"], ["a", "b"]) by {
      assert ["a", "b", "c"][1..] == ["b", "c"] && ["b", "c"][1..] == ["c"];
      assert ["a", "b"][1..] == ["b"] && ["b"][1..] == [];
    }
  }

  // ---------- root and root path ----------

  datatype LookupError = MultipleRows

  /** A row of the namespace whose path is the text before the first dot. */
  predicate IsRootOf(t: Table, self: Instance, i: Id) {
    i in t && t[i].namespace == self.row.namespace && '.' !in t[i].path && t[i].path + "." <= self.row.path
  }

  lemma RootByText(t: Table, self: Instance, i: Id)
    requires '.' in self.row.path && i in t && t[i].namespace == self.row.namespace
    ensures IsRootOf(t, self, i) <==> t[i].path == Split(self.row.path)[0]
  {
    SplitDotFree(self.row.path);
    StartsWithIsLabelPrefix(t[i].path, self.row.path);
    JoinSplit(self.row.path);
    if '.' !in t[i].path {
      SplitSingle(t[i].path);
    }
    assert |Split(self.row.path)| > 1;
  }

  lemma MoreThanOneIff(rows: set<Id>)
    ensures |rows| > 1 <==> exists i, j :: i in rows && j in rows && i != j
  {
    if i, j :| i in rows && j in rows && i != j {
      assert |rows - {i}| == |rows| - 1 && j in rows - {i};
    }
    if |rows| > 1 {
      var key := (i: Id) => i;
      assert rows != {};
      LeastExists(rows, key);
      var i :| i in rows && forall q :: q in rows ==> key(i) <= key(q);
      assert |rows - {i}| == |rows| - 1 > 0;
      assert rows - {i} != {};
      LeastExists(rows - {i}, key);
    }
  }

  /** The node whose path is the first label; a node of one label is its own root. */
  method GetRoot(t: Table, self: Instance) returns (r: Result<Option<Instance>, LookupError>)
    ensures '.' in self.row.path ==>
      && (r == Err(MultipleRows) <==> exists i, j :: IsRootOf(t, self, i) && IsRootOf(t, self, j) && i != j)
      && (r == Ok(None) <==> forall i :: !IsRootOf(t, self, i))
      && (r.Ok? && r.value.Some? ==> Stored(t, r.value.value) && IsRootOf(t, self, r.value.value.pk))
    ensures self.row.path != "" && '.' !in self.row.path ==> r == Ok(Some(self))
    ensures Consistent(t) && UniquePaths(t) && Stored(t, self) ==>
      RootPath(t, self.pk)[0] in t && r == Ok(Some(Of(t, RootPath(t, self.pk)[0])))
    ensures self.row.path == "" ==> r == Ok(None)
  {
    if self.row.path == "" {
      if Consistent(t) && Stored(t, self) { StoredPathNonEmpty(t, self.pk); }
      return Ok(None);
    }
    if '.' !in self.row.path {
      SplitSingle(self.row.path);
      if Consistent(t) && Stored(t, self) { RootPathLabels(t, self.pk); }
      return Ok(Some(self));
    }
    var rootLabel := Split(self.row.path)[0];
    var rows := set i | i in t && t[i].path == rootLabel && t[i].namespace == self.row.namespace;
    if Consistent(t) && UniquePaths(t) && Stored(t, self) {
      RootIsOnlyMatch(t, self.pk, rows);
    }
    forall i ensures i in rows <==> IsRootOf(t, self, i) {
      if i in t && t[i].namespace == self.row.namespace { RootByText(t, self, i); }
    }
    MoreThanOneIff(rows);
    if |rows| > 1 {
      return Err(MultipleRows);
    }
    if rows == {} {
      return Ok(None);
    }
    var key := (i: Id) => i;
    LeastExists(rows, key);
    var i :| i in rows && forall q :: q in rows ==> key(i) <= key(q);
    return Ok(Some(Instance(i, t[i])));
  }

  lemma RootIsOnlyMatch(t: Table, x: Id, rows: set<Id>)
    requires Consistent(t) && UniquePaths(t) && x in t
    requires rows == set i | i in t && t[i].path == Split(t[x].path)[0] && t[i].namespace == t[x].namespace
    ensures RootPath(t, x)[0] in t && rows == {RootPath(t, x)[0]}
  {
    RootPathLabels(t, x);
    var root := RootPath(t, x)[0];
    SplitDotFree(t[x].path);
    SplitSingle(Split(t[x].path)[0]);
    JoinSplit(t[root].path);
    assert Labels(t[root]) == [Split(t[x].path)[0]];
    forall i | i in rows ensures i == root {
    }
  }

  /** `[".".join(components[: i + 1]) for i in range(len(components))]`. */
  function AncestorPaths(path: string): set<string> {
    var ls := Split(path);
    set k | 1 <= k <= |ls| :: Join(ls[..k])
  }

  lemma InAncestorPaths(r: Row, path: string)
    ensures r.path in AncestorPaths(path) <==> Labels(r) <= Split(path)
  {
    var ls := Split(path);
    SplitDotFree(path);
    JoinSplit(r.path);
    if r.path in AncestorPaths(path) {
      var k :| 1 <= k <= |ls| && r.path == Join(ls[..k]);
      SplitJoin(ls[..k]);
    }
    if Labels(r) <= ls {
      assert ls[..|Labels(r)|] == Labels(r);
    }
  }

  /** The depth by which a node is sorted: as stored, if the query returned it. */
  function DepthOf(t: Table, self: Instance, i: Id): int {
    if i in t && i in GetAncestors(t, self, true, None) then t[i].depth else self.row.depth
  }

  /** The ancestors by path and the node itself, each once, by depth. */
  ghost predicate IsPathToRoot(t: Table, self: Instance, nodes: seq<Id>) {
    && Distinct(nodes)
    && (forall i :: i in nodes <==> i == self.pk || i in GetAncestors(t, self, true, None))
    && forall i, j :: 0 <= i < j < |nodes| ==> DepthOf(t, self, nodes[i]) <= DepthOf(t, self, nodes[j])
  }

  lemma SortedRowsArePathToRoot(t: Table, self: Instance, rows: set<Id>, depthOf: Id -> int, nodes: seq<Id>)
    requires self.row.path != ""
    requires rows
      == set i | i in t && t[i].path in AncestorPaths(self.row.path) && t[i].namespace == self.row.namespace
    requires forall i :: depthOf(i) == if i in rows then t[i].depth else self.row.depth
    requires FirstRows(rows + {self.pk}, depthOf, None, nodes)
    ensures IsPathToRoot(t, self, nodes)
  {
    UnlimitedReturnsAll(rows + {self.pk}, depthOf, nodes);
    forall i ensures i in rows <==> i in GetAncestors(t, self, true, None) {
      if i in t { InAncestorPaths(t[i], self.row.path); }
    }
    forall i, j | 0 <= i < j < |nodes| ensures DepthOf(t, self, nodes[i]) <= DepthOf(t, self, nodes[j]) {
      assert depthOf(nodes[i]) <= depthOf(nodes[j]);
    }
  }

  lemma PathToRootFollowsLinks(t: Table, self: Instance, nodes: seq<Id>)
    requires Consistent(t) && UniquePaths(t) && Stored(t, self) && IsPathToRoot(t, self, nodes)
    ensures nodes == RootPath(t, self.pk)
  {
    var p := RootPath(t, self.pk);
    assert p[..|p|] == p;
    forall i ensures i in nodes <==> i in p[..|p|] {
      AncestorsFollowLinks(t, self.pk, true, i);
    }
    forall i, j | 0 <= i < j < |nodes| && nodes[i] in t && nodes[j] in t
      ensures t[nodes[i]].depth <= t[nodes[j]].depth
    {
      assert nodes[i] in nodes && nodes[j] in nodes;
      assert DepthOf(t, self, nodes[i]) <= DepthOf(t, self, nodes[j]);
    }
    DepthOrderIsRootPath(t, self.pk, |p|, nodes);
  }

  /**
   The ancestors by path and this node, which is added if it is not among the rows; for a
   stored node of a consistent table the nodes from the root down, as the parent links run.
   */
  method GetPathToRoot(t: Table, self: Instance) returns (nodes: seq<Id>)
    ensures IsPathToRoot(t, self, nodes)
    ensures Consistent(t) && UniquePaths(t) && Stored(t, self) ==> nodes == RootPath(t, self.pk)
  {
    if self.row.path == "" {
      nodes := [self.pk];
    } else {
      var paths := AncestorPaths(self.row.path);
      var rows := set i | i in t && t[i].path in paths && t[i].namespace == self.row.namespace;
      var depthOf := (i: Id) => if i in rows then t[i].depth else self.row.depth;
      nodes := OrderByLimit(rows + {self.pk}, depthOf, None);
      SortedRowsArePathToRoot(t, self, rows, depthOf, nodes);
    }
    if Consistent(t) && UniquePaths(t) && Stored(t, self) {
      PathToRootFollowsLinks(t, self, nodes);
    }
  }

  /**
   After any run of moves to free names from a consistent table, the path-based answers for
   every node are the answers of the parent links.
   */
  lemma QueriesFollowLinksAfterMoves(t: Table, moves: seq<(Id, Id)>, x: Id, i: Id)
    requires Consistent(t) && UniquePaths(t) && FreeMoves(t, moves) && x in t
    ensures var u := RunMoves(t, moves);
      && Consistent(u) && UniquePaths(u) && x in u
      && (i in GetAncestors(u, Of(u, x), false, None) <==> i in RootPath(u, x) && i != x)
      && (i in GetDescendants(u, Of(u, x), false, None) <==> i in u && x in RootPath(u, i) && i != x)
  {
    RunKeepsInvariant(t, moves);
    var u := RunMoves(t, moves);
    AncestorsFollowLinks(u, x, false, i);
    DescendantsFollowLinks(u, x, false, i);
  }

  // ---------- validate_hierarchy ----------

  datatype Finding = NoPath | PathMismatch | DepthMismatch | ParentMissing | ParentNotPrefix

  /** The parent is stored in the node's namespace. */
  predicate ParentInScope(t: Table, self: Instance)
    requires self.row.parentId.Some?
  {
    self.row.parentId.value in t && t[self.row.parentId.value].namespace == self.row.namespace
  }

  /** What the validation accepts. */
  ghost predicate Accepted(t: Table, self: Instance) {
    && self.row.path != "" && Labels(self.row)[|Labels(self.row)| - 1] == self.row.name
    && self.row.depth == |Labels(self.row)| - 1
    && (self.row.parentId.Some? ==>
          && ParentInScope(t, self)
          && (t[self.row.parentId.value].path == "" || Labels(t[self.row.parentId.value]) < Labels(self.row)))
  }

  method ValidateHierarchy(t: Table, self: Instance) returns (errors: seq<Finding>)
    ensures errors == [] <==> Accepted(t, self)
    ensures NoPath in errors <==> self.row.path == ""
    ensures self.row.path == "" ==> errors == [NoPath]
    ensures PathMismatch in errors <==>
      self.row.path != "" && Labels(self.row)[|Labels(self.row)| - 1] != self.row.name
    ensures DepthMismatch in errors <==> self.row.path != "" && self.row.depth != |Labels(self.row)| - 1
    ensures ParentMissing in errors <==> self.row.path != "" && self.row.parentId.Some? && !ParentInScope(t, self)
    ensures ParentNotPrefix in errors <==>
      && self.row.path != "" && self.row.parentId.Some? && ParentInScope(t, self)
      && t[self.row.parentId.value].path != "" && !(Labels(t[self.row.parentId.value]) < Labels(self.row))
    ensures Distinct(errors)
  {
    errors := [];
    if self.row.path == "" {
      return [NoPath];
    }
    var components := Split(self.row.path);
    if components[|components| - 1] != self.row.name {
      errors := errors + [PathMismatch];
    }
    if self.row.depth != |components| - 1 {
      errors := errors + [DepthMismatch];
    }
    if self.row.parentId.Some? {
      var p := self.row.parentId.value;
      if p !in t || t[p].namespace != self.row.namespace {
        errors := errors + [ParentMissing];
      } else {
        StartsWithIsLabelPrefix(t[p].path, self.row.path);
        if t[p].path != "" && !(t[p].path + "." <= self.row.path) {
          errors := errors + [ParentNotPrefix];
        }
      }
    }
  }

  /**
   The validation accepts every consistent row, and an accepted row is consistent iff no
   label is empty, a root has one label, and a child exactly one more than its parent.
   */
  lemma ValidationVersusConsistency(t: Table, i: Id)
    requires i in t
    ensures RowOk(t, i) <==>
      && Accepted(t, Of(t, i))
      && (forall k :: 0 <= k < |Labels(t[i])| ==> Labels(t[i])[k] != "")
      && (t[i].parentId.None? ==> t[i].depth == 0)
      && (t[i].parentId.Some? ==>
        t[t[i].parentId.value].path != "" && |Labels(t[i])| == |Labels(t[t[i].parentId.value])| + 1)
  {
    var ls := Labels(t[i]);
    assert Split("") == [""];
    if t[i].parentId.Some? && t[i].parentId.value in t {
      var ps := Labels(t[t[i].parentId.value]);
      if ps < ls && |ls| == |ps| + 1 {
        assert ls == ps + [ls[|ls| - 1]];
      }
      if ls == ps + [t[i].name] && t[t[i].parentId.value].path == "" {
        assert ls[0] == "";
      }
    }
  }
}

/** `BaseHierarchyModel`: subtree moves over materialised paths, and the path queries. */
module Hierarchy {
  import opened Options
  import opened Cte
  import opened LTree

  type Id = int

  datatype Row = Row(path: string, name: string, parentId: Option<Id>, depth: int, namespace: string)

  type Table = map<Id, Row>

  /** An in-memory model instance. */
  datatype Instance = Instance(pk: Id, row: Row)

  datatype MoveError = MissingPath | CrossNamespace | UnderItself | IntoDescendant | PathTooLong | DoesNotExist

  const MAX_PATH: nat := 1024

  function Labels(r: Row): seq<Label> {
    Split(r.path)
  }

  // ---------- move_to ----------

  function NewPath(self: Instance, parent: Instance): string {
    parent.row.path + "." + self.row.name
  }

  /** The guards, in the order the code checks them, and the length limit of the path field. */
  function Refusal(t: Table, self: Instance, parent: Instance): Option<MoveError> {
    if self.row.path == "" || parent.row.path == "" then Some(MissingPath)
    else if parent.row.namespace != self.row.namespace then Some(CrossNamespace)
    else if parent.pk == self.pk then Some(UnderItself)
    else if self.row.path + "." <= parent.row.path then Some(IntoDescendant)
    else if |NewPath(self, parent)| > MAX_PATH then Some(PathTooLong)
    else if self.pk !in t then Some(DoesNotExist)
    else None
  }

  /** `path <@ self.path AND namespace = self.namespace`. */
  predicate InSubtree(self: Instance, r: Row) {
    r.namespace == self.row.namespace && Labels(self.row) <= Labels(r)
  }

  /** The two updates, as seen by one row. */
  function MovedRow(self: Instance, parent: Instance, i: Id, r: Row): Row {
    if i == self.pk then
      r.(path := NewPath(self, parent), parentId := Some(parent.pk), depth := parent.row.depth + 1)
    else if InSubtree(self, r) then
      r.(path := PrefixReplace(r.path, self.row.path, NewPath(self, parent)),
          depth := r.depth + (parent.row.depth - self.row.depth + 1))
    else
      r
  }

  function Moved(t: Table, self: Instance, parent: Instance): Table {
    map i | i in t :: MovedRow(self, parent, i, t[i])
  }

  class HierarchyTable {
    var rows: Table

    constructor (rows: Table)
      ensures this.rows == rows
    {
      this.rows := rows;
    }
  }

  class HierarchyNode {
    const pk: Id
    var row: Row

    constructor (pk: Id, row: Row)
      ensures this.pk == pk && this.row == row
    {
      this.pk, this.row := pk, row;
    }

    /** One transaction: on an error nothing changes; on success this node is reloaded. */
    method MoveTo(table: HierarchyTable, newParent: HierarchyNode) returns (r: Result<(), MoveError>)
      modifies this, table
      ensures var self, parent := Instance(pk, old(row)), Instance(newParent.pk, old(newParent.row));
        var refused := Refusal(old(table.rows), self, parent);
        if refused.Some? then
          r == Err(refused.value) && table.rows == old(table.rows) && row == old(row)
        else
          r == Ok(()) && table.rows == Moved(old(table.rows), self, parent) && row == table.rows[pk]
      ensures newParent != this ==> newParent.row == old(newParent.row)
    {
      if row.path == "" || newParent.row.path == "" {
        return Err(MissingPath);
      }
      if newParent.row.namespace != row.namespace {
        return Err(CrossNamespace);
      }
      if newParent.pk == pk {
        return Err(UnderItself);
      }
      if row.path + "." <= newParent.row.path {
        return Err(IntoDescendant);
      }
      var newPath := newParent.row.path + "." + row.name;
      var depthDelta := newParent.row.depth - row.depth + 1;
      if |newPath| > MAX_PATH {
        return Err(PathTooLong);
      }
      var before := table.rows;
      if pk in table.rows {
        table.rows := table.rows[pk := table.rows[pk].(path := newPath, parentId := Some(newParent.pk),
            depth := newParent.row.depth + 1)];
      }
      var namespace, path, rows := row.namespace, row.path, table.rows;
      table.rows := map i | i in rows ::
        if i != pk && rows[i].namespace == namespace && Split(path) <= Split(rows[i].path)
        then rows[i].(path := PrefixReplace(rows[i].path, path, newPath), depth := rows[i].depth + depthDelta)
        else rows[i];
      if pk !in table.rows {
        table.rows := before;
        return Err(DoesNotExist);
      }
      row := table.rows[pk];
      r := Ok(());
      assert table.rows == Moved(old(table.rows), Instance(pk, old(row)), Instance(newParent.pk, old(newParent.row)));
    }
  }

  // ---------- the table invariant ----------

  /** Path, name, depth and parent link of one row fit together. */
  ghost predicate RowOk(t: Table, i: Id) {
    i in t ==>
      var r, ls := t[i], Labels(t[i]);
      && (forall k :: 0 <= k < |ls| ==> ls[k] != "")
      && ls[|ls| - 1] == r.name && r.depth == |ls| - 1
      && match r.parentId
         case None => |ls| == 1
         case Some(p) => p in t && t[p].namespace == r.namespace && ls == Labels(t[p]) + [r.name]
  }

  ghost predicate Consistent(t: Table) {
    forall i :: RowOk(t, i)
  }

  /** Paths are unique within a namespace. */
  ghost predicate UniquePaths(t: Table) {
    forall i, j :: i in t && j in t && t[i].namespace == t[j].namespace && t[i].path == t[j].path ==> i == j
  }

  /** The instance holds what is stored. */
  ghost predicate Stored(t: Table, x: Instance) {
    x.pk in t && t[x.pk] == x.row
  }

  ghost predicate Loaded(t: Table, self: Instance, parent: Instance) {
    Consistent(t) && Stored(t, self) && Stored(t, parent)
  }

  ghost predicate Ready(t: Table, self: Instance, parent: Instance) {
    Loaded(t, self, parent) && UniquePaths(t)
  }

  /** No other row of the namespace lies at the path of the instance. */
  ghost predicate Alone(t: Table, self: Instance) {
    forall i :: i in t && i != self.pk && t[i].namespace == self.row.namespace ==> Labels(t[i]) != Labels(self.row)
  }

  function Of(t: Table, i: Id): Instance
    requires i in t
  {
    Instance(i, t[i])
  }

  lemma SameLabelsSamePath(a: Row, b: Row)
    requires Labels(a) == Labels(b)
    ensures a.path == b.path
  {
    JoinSplit(a.path);
    JoinSplit(b.path);
  }

  /** The ids from the root down to `i`, following parent links. */
  function RootPath(t: Table, i: Id): (p: seq<Id>)
    requires Consistent(t) && i in t
    ensures |p| >= 1 && p[|p| - 1] == i
    decreases |Labels(t[i])|
  {
    assert RowOk(t, i);
    match t[i].parentId
    case None => [i]
    case Some(p) => RootPath(t, p) + [i]
  }

  /** The `k`-th id on the way down carries the first `k + 1` labels. */
  lemma {:induction false} RootPathLabels(t: Table, i: Id)
    requires Consistent(t) && i in t
    ensures |RootPath(t, i)| == |Labels(t[i])|
    ensures forall k :: 0 <= k < |RootPath(t, i)| ==>
      && RootPath(t, i)[k] in t
      && t[RootPath(t, i)[k]].namespace == t[i].namespace
      && Labels(t[RootPath(t, i)[k]]) == Labels(t[i])[..k + 1]
      && t[RootPath(t, i)[k]].depth == k
    decreases |Labels(t[i])|
  {
    assert RowOk(t, i);
    var ls := Labels(t[i]);
    assert ls[..|ls|] == ls;
    if t[i].parentId.Some? {
      var p := t[i].parentId.value;
      RootPathLabels(t, p);
      var up := RootPath(t, p);
      forall k | 0 <= k < |up|
        ensures up[k] in t && t[up[k]].namespace == t[i].namespace && Labels(t[up[k]]) == ls[..k + 1]
          && t[up[k]].depth == k
      {
        assert Labels(t[p])[..k + 1] == ls[..k + 1];
      }
    }
  }

  /** Label prefix within the namespace is the same as lying on the way to the root. */
  lemma PrefixIffOnRootPath(t: Table, a: Id, i: Id)
    requires Consistent(t) && UniquePaths(t) && a in t && i in t
    ensures t[a].namespace == t[i].namespace && Labels(t[a]) <= Labels(t[i]) <==> a in RootPath(t, i)
  {
    RootPathLabels(t, i);
    var p := RootPath(t, i);
    if t[a].namespace == t[i].namespace && Labels(t[a]) <= Labels(t[i]) {
      var b := p[|Labels(t[a])| - 1];
      SameLabelsSamePath(t[a], t[b]);
      assert a == b;
    }
  }

  // ---------- a move, label by label ----------

  /** Which error refuses a move, for any table and instances however stale; a path has 1024 characters at most. */
  lemma RefusalInLabels(t: Table, self: Instance, parent: Instance)
    ensures Refusal(t, self, parent) ==
      if self.row.path == "" || parent.row.path == "" then Some(MissingPath)
      else if self.row.namespace != parent.row.namespace then Some(CrossNamespace)
      else if self.pk == parent.pk then Some(UnderItself)
      else if Labels(self.row) < Labels(parent.row) then Some(IntoDescendant)
      else if |parent.row.path| + 1 + |self.row.name| > 1024 then Some(PathTooLong)
      else if self.pk !in t then Some(DoesNotExist)
      else None
  {
    StartsWithIsLabelPrefix(self.row.path, parent.row.path);
  }

  /**
   What an accepted move makes of each row, for any table and instances however stale: the
   moved row hangs below the target, the rows of its namespace that start with its labels get
   the new ones instead and move by as many levels, every other row stays.
   */
  lemma MovedInLabels(t: Table, self: Instance, parent: Instance, i: Id)
    requires i in t
    ensures Moved(t, self, parent).Keys == t.Keys
    ensures var r, m := t[i], Moved(t, self, parent)[i];
      if i == self.pk then
        m == Row(parent.row.path + "." + self.row.name, r.name, Some(parent.pk), parent.row.depth + 1, r.namespace)
      else if r.namespace == self.row.namespace && Labels(self.row) <= Labels(r) then
        && Labels(m) == Split(parent.row.path + "." + self.row.name) + Labels(r)[|Labels(self.row)|..]
        && m.depth - r.depth == parent.row.depth + 1 - self.row.depth
        && m.name == r.name && m.parentId == r.parentId && m.namespace == r.namespace
      else m == r
  {
    if i != self.pk && InSubtree(self, t[i]) {
      PrefixReplaceIsLabelReplace(t[i].path, self.row.path, NewPath(self, parent));
    }
  }

  predicate Touched(self: Instance, i: Id, r: Row) {
    i == self.pk || InSubtree(self, r)
  }

  /** In label terms every touched row swaps the leading labels of `self` for its new ones. */
  lemma MovedLabels(t: Table, self: Instance, parent: Instance, i: Id)
    requires Loaded(t, self, parent) && i in t && Touched(self, i, t[i])
    ensures Labels(Moved(t, self, parent)[i])
      == Labels(parent.row) + [self.row.name] + Labels(t[i])[|Labels(self.row)|..]
    ensures Moved(t, self, parent)[i].depth == t[i].depth + (parent.row.depth - self.row.depth + 1)
  {
    assert RowOk(t, self.pk);
    SplitDotFree(self.row.path);
    SplitSingle(self.row.name);
    SplitConcat(parent.row.path, self.row.name);
    if i != self.pk {
      PrefixReplaceIsLabelReplace(t[i].path, self.row.path, NewPath(self, parent));
    }
  }

  /** The target of an accepted move lies outside the moved subtree. */
  lemma TargetUntouched(t: Table, self: Instance, parent: Instance)
    requires Loaded(t, self, parent) && Alone(t, self) && Refusal(t, self, parent).None?
    ensures !Touched(self, parent.pk, t[parent.pk])
  {
    StartsWithIsLabelPrefix(self.row.path, parent.row.path);
  }

  /** Below `self`, being touched is inherited from the parent; everywhere else it is not. */
  lemma TouchedFromParent(t: Table, self: Instance, i: Id, p: Id)
    requires Consistent(t) && Alone(t, self) && Stored(t, self)
    requires i in t && i != self.pk && t[i].parentId == Some(p)
    ensures p in t && (Touched(self, i, t[i]) <==> Touched(self, p, t[p]))
  {
    assert RowOk(t, i);
    var s, ls := Labels(self.row), Labels(t[i]);
    if InSubtree(self, t[i]) {
      assert |s| != |ls|;
      assert s <= Labels(t[p]);
    }
    if Touched(self, p, t[p]) {
      assert s <= ls;
    }
  }

  lemma MovedSelfOk(t: Table, self: Instance, parent: Instance)
    requires Loaded(t, self, parent) && Alone(t, self) && Refusal(t, self, parent).None?
    ensures RowOk(Moved(t, self, parent), self.pk)
  {
    assert RowOk(t, self.pk) && RowOk(t, parent.pk);
    TargetUntouched(t, self, parent);
    MovedLabels(t, self, parent, self.pk);
    assert Labels(t[self.pk])[|Labels(self.row)|..] == [];
  }

  lemma MovedBelowOk(t: Table, self: Instance, parent: Instance, i: Id)
    requires Loaded(t, self, parent) && Alone(t, self) && Refusal(t, self, parent).None?
    requires i in t && i != self.pk && Touched(self, i, t[i])
    ensures RowOk(Moved(t, self, parent), i)
  {
    assert RowOk(t, i) && RowOk(t, self.pk) && RowOk(t, parent.pk);
    var n, head := |Labels(self.row)|, Labels(parent.row) + [self.row.name];
    MovedLabels(t, self, parent, i);
    if t[i].parentId.Some? {
      var p := t[i].parentId.value;
      TouchedFromParent(t, self, i, p);
      MovedLabels(t, self, parent, p);
      assert Labels(t[i])[n..] == Labels(t[p])[n..] + [t[i].name];
      assert head + (Labels(t[p])[n..] + [t[i].name]) == (head + Labels(t[p])[n..]) + [t[i].name];
    }
  }

  lemma UntouchedOk(t: Table, self: Instance, parent: Instance, i: Id)
    requires Loaded(t, self, parent) && Alone(t, self) && Refusal(t, self, parent).None?
    requires i in t && !Touched(self, i, t[i])
    ensures RowOk(Moved(t, self, parent), i)
  {
    assert RowOk(t, i);
    if t[i].parentId.Some? {
      TouchedFromParent(t, self, i, t[i].parentId.value);
    }
  }

  /** Where nothing else lies at the path of the moved node, the move keeps every row consistent. */
  lemma MoveAloneKeepsConsistent(t: Table, self: Instance, parent: Instance)
    requires Loaded(t, self, parent) && Alone(t, self) && Refusal(t, self, parent).None?
    ensures Consistent(Moved(t, self, parent))
  {
    forall i ensures RowOk(Moved(t, self, parent), i) {
      if i in t {
        if i == self.pk {
          MovedSelfOk(t, self, parent);
        } else if Touched(self, i, t[i]) {
          MovedBelowOk(t, self, parent, i);
        } else {
          UntouchedOk(t, self, parent, i);
        }
      }
    }
  }

  lemma UniqueMeansAlone(t: Table, self: Instance)
    requires UniquePaths(t) && Stored(t, self)
    ensures Alone(t, self)
  {
    forall i | i in t && t[i].namespace == self.row.namespace && Labels(t[i]) == Labels(self.row) ensures i == self.pk {
      SameLabelsSamePath(t[i], self.row);
    }
  }

  /** With unique paths every accepted move keeps every row consistent. */
  lemma MoveKeepsConsistent(t: Table, self: Instance, parent: Instance)
    requires Ready(t, self, parent) && Refusal(t, self, parent).None?
    ensures Consistent(Moved(t, self, parent))
  {
    UniqueMeansAlone(t, self);
    MoveAloneKeepsConsistent(t, self, parent);
  }

  // ---------- without unique paths ----------

  /** The new path is the old one. */
  ghost predicate InPlace(self: Instance, parent: Instance) {
    Labels(parent.row) + [self.row.name] == Labels(self.row)
  }

  lemma NewPathLabels(t: Table, self: Instance, parent: Instance)
    requires Loaded(t, self, parent)
    ensures Split(NewPath(self, parent)) == Labels(parent.row) + [self.row.name]
  {
    assert RowOk(t, self.pk);
    SplitDotFree(self.row.path);
    SplitSingle(self.row.name);
    SplitConcat(parent.row.path, self.row.name);
  }

  /** A move in place changes at most the parent link of the moved node. */
  lemma InPlaceRow(t: Table, self: Instance, parent: Instance, i: Id)
    requires Loaded(t, self, parent) && InPlace(self, parent) && i in t
    ensures Moved(t, self, parent)[i] == if i == self.pk then t[i].(parentId := Some(parent.pk)) else t[i]
  {
    assert RowOk(t, self.pk) && RowOk(t, parent.pk);
    NewPathLabels(t, self, parent);
    JoinSplit(NewPath(self, parent));
    JoinSplit(self.row.path);
    assert NewPath(self, parent) == self.row.path;
    if i != self.pk && InSubtree(self, t[i]) {
      BelowPrefix(self.row.path, t[i].path);
    }
  }

  lemma InPlaceKeepsConsistent(t: Table, self: Instance, parent: Instance)
    requires Loaded(t, self, parent) && InPlace(self, parent) && Refusal(t, self, parent).None?
    ensures Consistent(Moved(t, self, parent))
  {
    var t' := Moved(t, self, parent);
    forall i ensures RowOk(t', i) {
      if i in t {
        assert RowOk(t, i);
        InPlaceRow(t, self, parent, i);
        InPlaceRow(t, self, parent, parent.pk);
        if t[i].parentId.Some? {
          InPlaceRow(t, self, parent, t[i].parentId.value);
        }
      }
    }
  }

  /** Another row at the old path is dragged along and then contradicts its parent link. */
  lemma DuplicateBreaks(t: Table, self: Instance, parent: Instance, d: Id)
    requires Loaded(t, self, parent) && !InPlace(self, parent)
    requires d in t && d != self.pk && t[d].namespace == self.row.namespace && Labels(t[d]) == Labels(self.row)
    ensures !RowOk(Moved(t, self, parent), d)
  {
    var t' := Moved(t, self, parent);
    assert RowOk(t, d) && RowOk(t, self.pk) && RowOk(t, parent.pk);
    MovedLabels(t, self, parent, d);
    assert Labels(t[d])[|Labels(self.row)|..] == [];
    assert Labels(t'[d]) == Labels(parent.row) + [self.row.name];
    if t[d].parentId.Some? {
      var q := t[d].parentId.value;
      assert |Labels(t[q])| < |Labels(self.row)|;
      assert t'[q] == t[q];
      LastLabels(Labels(t[q]), t[d].name, Labels(parent.row), self.row.name);
    }
  }

  lemma LastLabels(a: seq<Label>, x: Label, b: seq<Label>, y: Label)
    ensures a + [x] == b + [y] ==> a == b && x == y
  {
    if a + [x] == b + [y] {
      assert (a + [x])[|a|] == x && (b + [y])[|b|] == y;
      assert a == (a + [x])[..|a|] && b == (b + [y])[..|b|];
    }
  }

  /**
   Whatever the paths of a consistent table, an accepted move keeps it consistent iff the
   path does not change or no other row of the namespace lies at the path that is moved.
   */
  lemma MoveKeepsConsistentIff(t: Table, self: Instance, parent: Instance)
    requires Loaded(t, self, parent) && Refusal(t, self, parent).None?
    ensures Consistent(Moved(t, self, parent)) <==> InPlace(self, parent) || Alone(t, self)
  {
    if InPlace(self, parent) {
      InPlaceKeepsConsistent(t, self, parent);
    } else if Alone(t, self) {
      MoveAloneKeepsConsistent(t, self, parent);
    } else {
      var d :| d in t && d != self.pk && t[d].namespace == self.row.namespace && Labels(t[d]) == Labels(self.row);
      DuplicateBreaks(t, self, parent, d);
    }
  }

  /** No other child of the target has the name of the moved node. */
  ghost predicate NameFree(t: Table, self: Instance, parent: Instance) {
    forall i :: i in t && i != self.pk && t[i].parentId == Some(parent.pk) ==> t[i].name != self.row.name
  }

  /** A row that already sits at the new path is a child of the target with that name. */
  lemma OccupantIsChild(t: Table, self: Instance, parent: Instance, i: Id)
    requires Ready(t, self, parent) && i in t && t[i].namespace == parent.row.namespace
    requires Labels(t[i]) == Labels(parent.row) + [self.row.name]
    ensures t[i].parentId == Some(parent.pk) && t[i].name == self.row.name
  {
    assert RowOk(t, i) && RowOk(t, parent.pk);
    var p := t[i].parentId.value;
    assert Labels(t[p]) == Labels(t[i])[..|Labels(t[i])| - 1] == Labels(parent.row);
    SameLabelsSamePath(t[p], parent.row);
  }

  lemma TouchedStayApart(t: Table, self: Instance, parent: Instance, i: Id, j: Id)
    requires Ready(t, self, parent) && i in t && j in t && t[i].namespace == t[j].namespace
    requires Touched(self, i, t[i]) && Touched(self, j, t[j])
    requires Labels(Moved(t, self, parent)[i]) == Labels(Moved(t, self, parent)[j])
    ensures i == j
  {
    MovedLabels(t, self, parent, i);
    MovedLabels(t, self, parent, j);
    var head, n := Labels(parent.row) + [self.row.name], |Labels(self.row)|;
    var a, b := Labels(t[i])[n..], Labels(t[j])[n..];
    assert (head + a)[|head|..] == a && (head + b)[|head|..] == b;
    assert Labels(t[i]) == Labels(self.row) + a && Labels(t[j]) == Labels(self.row) + b;
    SameLabelsSamePath(t[i], t[j]);
  }

  /** An untouched row below the new path means the new path was occupied. */
  lemma UntouchedBelowNewPath(t: Table, self: Instance, parent: Instance, j: Id)
    requires Ready(t, self, parent) && Refusal(t, self, parent).None? && NameFree(t, self, parent)
    requires j in t && t[j].namespace == self.row.namespace
    requires Labels(parent.row) + [self.row.name] <= Labels(t[j])
    ensures Touched(self, j, t[j])
  {
    var head := Labels(parent.row) + [self.row.name];
    RootPathLabels(t, j);
    var a := RootPath(t, j)[|head| - 1];
    assert Labels(t[a]) == head;
    OccupantIsChild(t, self, parent, a);
    assert a == self.pk;
  }

  /** After an accepted move paths are unique iff the target had no other child of that name. */
  lemma MoveKeepsUniqueIffNameFree(t: Table, self: Instance, parent: Instance)
    requires Ready(t, self, parent) && Refusal(t, self, parent).None?
    ensures UniquePaths(Moved(t, self, parent)) <==> NameFree(t, self, parent)
  {
    var t' := Moved(t, self, parent);
    var head := Labels(parent.row) + [self.row.name];
    if NameFree(t, self, parent) {
      forall i, j | i in t' && j in t' && t'[i].namespace == t'[j].namespace && t'[i].path == t'[j].path
        ensures i == j
      {
        var ti, tj := Touched(self, i, t[i]), Touched(self, j, t[j]);
        if ti && tj {
          TouchedStayApart(t, self, parent, i, j);
        } else if ti {
          MovedLabels(t, self, parent, i);
          UntouchedBelowNewPath(t, self, parent, j);
        } else if tj {
          MovedLabels(t, self, parent, j);
          UntouchedBelowNewPath(t, self, parent, i);
        }
      }
    }
    if UniquePaths(t') && !NameFree(t, self, parent) {
      var i :| i in t && i != self.pk && t[i].parentId == Some(parent.pk) && t[i].name == self.row.name;
      OccupantClashes(t, self, parent, i);
    }
  }

  lemma OccupantClashes(t: Table, self: Instance, parent: Instance, i: Id)
    requires Ready(t, self, parent) && Refusal(t, self, parent).None?
    requires i in t && i != self.pk && t[i].parentId == Some(parent.pk) && t[i].name == self.row.name
    ensures !UniquePaths(Moved(t, self, parent))
  {
    var t' := Moved(t, self, parent);
    assert RowOk(t, i);
    UniqueMeansAlone(t, self);
    TargetUntouched(t, self, parent);
    TouchedFromParent(t, self, i, parent.pk);
    MovedLabels(t, self, parent, self.pk);
    assert Labels(self.row)[|Labels(self.row)|..] == [];
    SameLabelsSamePath(t'[i], t'[self.pk]);
  }

  /**
   The move changes nothing but the subtree of `self` in its own namespace, found by
   parent links; of the rows in it only `self` gets another parent, and names stay.
   */
  lemma MoveFrame(t: Table, self: Instance, parent: Instance, i: Id)
    requires Ready(t, self, parent) && Refusal(t, self, parent).None? && i in t
    ensures Moved(t, self, parent).Keys == t.Keys
    ensures self.pk !in RootPath(t, i) ==> Moved(t, self, parent)[i] == t[i]
    ensures self.pk in RootPath(t, i) ==>
      Moved(t, self, parent)[i].path != t[i].path || self.row.parentId == Some(parent.pk)
    ensures Moved(t, self, parent)[i].name == t[i].name && Moved(t, self, parent)[i].namespace == t[i].namespace
    ensures i != self.pk ==> Moved(t, self, parent)[i].parentId == t[i].parentId
    ensures Moved(t, self, parent)[self.pk].parentId == Some(parent.pk)
  {
    PrefixIffOnRootPath(t, self.pk, i);
    assert Touched(self, i, t[i]) <==> self.pk in RootPath(t, i);
    if self.pk in RootPath(t, i) && Moved(t, self, parent)[i].path == t[i].path {
      assert RowOk(t, self.pk);
      MovedLabels(t, self, parent, i);
      var s, head := Labels(self.row), Labels(parent.row) + [self.row.name];
      var rest := Labels(t[i])[|s|..];
      assert s + rest == head + rest;
      assert |s| == |head|;
      assert s == (s + rest)[..|s|] == (head + rest)[..|s|] == head;
      OccupantIsChild(t, self, parent, self.pk);
    }
  }

  /** The descendants of `x` by parent links, `x` excluded. */
  ghost predicate Below(t: Table, x: Id, i: Id)
    requires Consistent(t) && i in t
  {
    i != x && x in RootPath(t, i)
  }

  /**
   For stored nodes of a consistent table a move is refused exactly when it crosses
   namespaces, targets the node itself or one of its descendants, or the new path is too
   long for the column.
   */
  lemma RefusedExactly(t: Table, self: Instance, parent: Instance)
    requires Ready(t, self, parent)
    ensures Refusal(t, self, parent) ==
      if parent.row.namespace != self.row.namespace then Some(CrossNamespace)
      else if parent.pk == self.pk then Some(UnderItself)
      else if Below(t, self.pk, parent.pk) then Some(IntoDescendant)
      else if |parent.row.path| + 1 + |self.row.name| > 1024 then Some(PathTooLong)
      else None
  {
    assert RowOk(t, self.pk) && RowOk(t, parent.pk);
    assert Split("") == [""];
    StartsWithIsLabelPrefix(self.row.path, parent.row.path);
    PrefixIffOnRootPath(t, self.pk, parent.pk);
    if Labels(self.row) == Labels(parent.row) {
      SameLabelsSamePath(self.row, parent.row);
    }
  }

  // ---------- runs of moves ----------

  /** One call of `move_to` on freshly loaded instances; a refused move changes nothing. */
  function Step(t: Table, x: Id, target: Id): Table {
    if x in t && target in t && Refusal(t, Of(t, x), Of(t, target)).None? then Moved(t, Of(t, x), Of(t, target)) else t
  }

  /** Each accepted move of the run goes to a parent where the name is free. */
  ghost predicate FreeMoves(t: Table, moves: seq<(Id, Id)>)
    decreases |moves|
  {
    moves == [] ||
      var (x, target) := moves[0];
      && (x in t && target in t && Refusal(t, Of(t, x), Of(t, target)).None? ==> NameFree(t, Of(t, x), Of(t, target)))
      && FreeMoves(Step(t, x, target), moves[1..])
  }

  function RunMoves(t: Table, moves: seq<(Id, Id)>): Table
    decreases |moves|
  {
    if moves == [] then t else RunMoves(Step(t, moves[0].0, moves[0].1), moves[1..])
  }

  lemma {:induction false} RunKeepsInvariant(t: Table, moves: seq<(Id, Id)>)
    requires Consistent(t) && UniquePaths(t) && FreeMoves(t, moves)
    ensures Consistent(RunMoves(t, moves)) && UniquePaths(RunMoves(t, moves)) && RunMoves(t, moves).Keys == t.Keys
    decreases |moves|
  {
    if moves != [] {
      var (x, target) := moves[0];
      if x in t && target in t && Refusal(t, Of(t, x), Of(t, target)).None? {
        MoveKeepsConsistent(t, Of(t, x), Of(t, target));
        MoveKeepsUniqueIffNameFree(t, Of(t, x), Of(t, target));
      }
      RunKeepsInvariant(Step(t, x, target), moves[1..]);
    }
  }

  /** An accepted move that leaves the path alone, or moves a node that is alone at its path. */
  ghost predicate SafeMove(t: Table, x: Id, target: Id) {
    x in t && target in t && Refusal(t, Of(t, x), Of(t, target)).None? ==>
      InPlace(Of(t, x), Of(t, target)) || Alone(t, Of(t, x))
  }

  ghost predicate SafeMoves(t: Table, moves: seq<(Id, Id)>)
    decreases |moves|
  {
    moves == [] ||
      (SafeMove(t, moves[0].0, moves[0].1) && SafeMoves(Step(t, moves[0].0, moves[0].1), moves[1..]))
  }

  ghost predicate ConsistentThroughout(t: Table, moves: seq<(Id, Id)>)
    decreases |moves|
  {
    Consistent(t) && (moves == [] || ConsistentThroughout(Step(t, moves[0].0, moves[0].1), moves[1..]))
  }

  /** A run keeps the table consistent after every move iff each of its moves is safe. */
  lemma {:induction false} ConsistentThroughoutIff(t: Table, moves: seq<(Id, Id)>)
    requires Consistent(t)
    ensures ConsistentThroughout(t, moves) <==> SafeMoves(t, moves)
    decreases |moves|
  {
    if moves != [] {
      var (x, target) := moves[0];
      if x in t && target in t && Refusal(t, Of(t, x), Of(t, target)).None? {
        MoveKeepsConsistentIff(t, Of(t, x), Of(t, target));
      }
      if Consistent(Step(t, x, target)) {
        ConsistentThroughoutIff(Step(t, x, target), moves[1..]);
      }
    }
  }

  /** A root `a` with the children `x` and `b`, and another `x` below `b`. */
  function TwoNamesakes(ns: string): Table {
    map[1 := Row("a", "a", None, 0, ns), 2 := Row("a.x", "x", Some(1), 1, ns),
        3 := Row("a.b", "b", Some(1), 1, ns), 4 := Row("a.b.x", "x", Some(3), 2, ns)]
  }

  lemma TwoNamesakesLabels(ns: string)
    ensures Labels(TwoNamesakes(ns)[1]) == ["a"] && Labels(TwoNamesakes(ns)[2]) == ["a", "x"]
    ensures Labels(TwoNamesakes(ns)[3]) == ["a", "b"] && Labels(TwoNamesakes(ns)[4]) == ["a", "b", "x"]
  {
    SplitSingle("a");
    SplitSingle("b");
    SplitSingle("x");
    SplitConcat("a", "x");
    SplitConcat("a", "b");
    SplitConcat("a.b", "x");
    assert "a" + "." + "x" == "a.x" && "a" + "." + "b" == "a.b" && "a.b" + "." + "x" == "a.b.x";
  }

  lemma TwoNamesakesApart(ns: string)
    ensures UniquePaths(TwoNamesakes(ns))
  {
    var t := TwoNamesakes(ns);
    forall i, j | i in t && j in t && t[i].path == t[j].path ensures i == j {
      assert |t[i].path| == |t[j].path|;
      assert "a.x"[2] != "a.b"[2];
    }
  }

  lemma TwoNamesakesFit(ns: string)
    ensures Consistent(TwoNamesakes(ns)) && UniquePaths(TwoNamesakes(ns))
  {
    var t := TwoNamesakes(ns);
    TwoNamesakesLabels(ns);
    TwoNamesakesApart(ns);
    assert ["a"] + ["x"] == ["a", "x"] && ["a"] + ["b"] == ["a", "b"] && ["a", "b"] + ["x"] == ["a", "b", "x"];
    forall i | i in t ensures RowOk(t, i) {
    }
  }

  /** The table after the lower `x` was moved beside its namesake. */
  function BothAtOnePath(ns: string): Table {
    TwoNamesakes(ns)[4 := Row("a.x", "x", Some(1), 1, ns)]
  }

  lemma FirstMove(ns: string)
    ensures Step(TwoNamesakes(ns), 4, 1) == BothAtOnePath(ns) && Consistent(BothAtOnePath(ns))
    ensures Labels(BothAtOnePath(ns)[4]) == ["a", "x"]
  {
    var t := TwoNamesakes(ns);
    TwoNamesakesFit(ns);
    TwoNamesakesLabels(ns);
    var self, parent := Of(t, 4), Of(t, 1);
    assert NewPath(self, parent) == "a.x";
    assert Refusal(t, self, parent).None?;
    assert Moved(t, self, parent) == BothAtOnePath(ns);
    MoveKeepsConsistent(t, self, parent);
  }

  /** The second of two accepted moves drags the namesake along and breaks its row. */
  lemma TwoMovesBreakConsistency(ns: string)
    ensures Consistent(TwoNamesakes(ns)) && UniquePaths(TwoNamesakes(ns))
    ensures !Consistent(RunMoves(TwoNamesakes(ns), [(4, 1), (2, 3)]))
  {
    var t := BothAtOnePath(ns);
    TwoNamesakesFit(ns);
    TwoNamesakesLabels(ns);
    FirstMove(ns);
    var self, parent := Of(t, 2), Of(t, 3);
    assert Refusal(t, self, parent).None?;
    assert Labels(parent.row) + ["x"] == ["a", "b", "x"];
    DuplicateBreaks(t, self, parent, 4);
    RunOfTwo(TwoNamesakes(ns), (4, 1), (2, 3));
  }

  lemma RunOfTwo(t: Table, a: (Id, Id), b: (Id, Id))
    ensures RunMoves(t, [a, b]) == Step(Step(t, a.0, a.1), b.0, b.1)
  {
    var moves := [a, b];
    assert moves[1..] == [b] && moves[1..][1..] == [];
    assert RunMoves(t, moves) == RunMoves(Step(t, a.0, a.1), moves[1..]);
    assert RunMoves(Step(Step(t, a.0, a.1), b.0, b.1), []) == Step(Step(t, a.0, a.1), b.0, b.1);
  }

  /** After a move to a free name exactly the same rows lie in the subtree of the moved node. */
  lemma SameSubtreeAfter(t: Table, self: Instance, parent: Instance, i: Id)
    requires Ready(t, self, parent) && Refusal(t, self, parent).None? && NameFree(t, self, parent) && i in t
    ensures var t' := Moved(t, self, parent);
      Labels(t'[self.pk]) == Labels(parent.row) + [self.row.name]
      && (Touched(Of(t', self.pk), i, t'[i]) <==> Touched(self, i, t[i]))
  {
    MovedLabels(t, self, parent, self.pk);
    assert Labels(self.row)[|Labels(self.row)|..] == [];
    if Touched(self, i, t[i]) {
      MovedLabels(t, self, parent, i);
    } else if Touched(Of(Moved(t, self, parent), self.pk), i, Moved(t, self, parent)[i]) {
      UntouchedBelowNewPath(t, self, parent, i);
    }
  }

  /** Under the old parent the node's path is its old path again. */
  lemma OldPathAgain(t: Table, x: Id, home: Id)
    requires Consistent(t) && x in t && t[x].parentId == Some(home)
    ensures home in t && NewPath(Of(t, x), Of(t, home)) == t[x].path && t[home].depth + 1 == t[x].depth
  {
    assert RowOk(t, x) && RowOk(t, home);
    SplitConcat(t[home].path, t[x].name);
    SplitDotFree(t[x].path);
    SplitSingle(t[x].name);
    JoinSplit(t[x].path);
    JoinSplit(NewPath(Of(t, x), Of(t, home)));
  }

  /** The second of two moves undoes the first in one row. */
  lemma RowRestored(t: Table, self: Instance, parent: Instance, back: Instance, i: Id)
    requires Ready(t, self, parent) && Refusal(t, self, parent).None? && NameFree(t, self, parent)
    requires self.row.parentId == Some(back.pk) && Stored(t, back) && !Touched(self, back.pk, back.row)
    requires i in t
    ensures var t' := Moved(t, self, parent); Moved(t', Of(t', self.pk), back)[i] == t[i]
  {
    var t' := Moved(t, self, parent);
    var self' := Of(t', self.pk);
    MoveKeepsConsistent(t, self, parent);
    MoveKeepsUniqueIffNameFree(t, self, parent);
    SameSubtreeAfter(t, self, parent, i);
    OldPathAgain(t, self.pk, back.pk);
    if Touched(self, i, t[i]) {
      MovedLabels(t, self, parent, i);
      MovedLabels(t', self', back, i);
      assert RowOk(t, self.pk);
      var s, head := Labels(self.row), Labels(parent.row) + [self.row.name];
      var rest := Labels(t[i])[|s|..];
      assert (head + rest)[|head|..] == rest;
      assert Labels(t[i]) == s + rest;
      SameLabelsSamePath(Moved(t', self', back)[i], t[i]);
    }
  }

  /** Moving a node away and then back under its old parent restores every row. */
  lemma MoveThereAndBack(t: Table, x: Id, target: Id, home: Id)
    requires Consistent(t) && UniquePaths(t) && x in t && target in t
    requires t[x].parentId == Some(home)
    requires Refusal(t, Of(t, x), Of(t, target)).None? && NameFree(t, Of(t, x), Of(t, target))
    requires |t[x].path| <= MAX_PATH
    ensures home in t && RunMoves(t, [(x, target), (x, home)]) == t
  {
    var self, parent := Of(t, x), Of(t, target);
    var t' := Moved(t, self, parent);
    MoveKeepsConsistent(t, self, parent);
    MoveKeepsUniqueIffNameFree(t, self, parent);
    HomeUntouched(t, self);
    OldPathAgain(t, x, home);
    SameSubtreeAfter(t, self, parent, home);
    assert RowOk(t, x);
    BackNotRefused(t', Of(t', x), Of(t', home));
    forall i | i in t ensures Moved(t', Of(t', x), Of(t', home))[i] == t[i] {
      RowRestored(t, self, parent, Of(t, home), i);
    }
    assert Moved(t', Of(t', x), Of(t', home)) == t;
    RunOfTwo(t, (x, target), (x, home));
  }

  lemma HomeUntouched(t: Table, self: Instance)
    requires Consistent(t) && UniquePaths(t) && Stored(t, self) && self.row.parentId.Some?
    ensures self.row.parentId.value in t && !Touched(self, self.row.parentId.value, t[self.row.parentId.value])
  {
    assert RowOk(t, self.pk);
  }

  lemma BackNotRefused(t: Table, self: Instance, back: Instance)
    requires Ready(t, self, back) && self.row.namespace == back.row.namespace
    requires !Touched(self, back.pk, back.row) && |NewPath(self, back)| <= MAX_PATH
    ensures Refusal(t, self, back).None?
  {
    assert RowOk(t, self.pk) && RowOk(t, back.pk);
    StartsWithIsLabelPrefix(self.row.path, back.row.path);
  }
}

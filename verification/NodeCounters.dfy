/** `BaseGraphNodeModel.save` and `delete`: the denormalised `child_count` of every node. */
module NodeCounters {
  import opened Options

  type Id = int

  /** The two columns the counter depends on; `rest` stands for all others. */
  datatype Row = Row(parentId: Option<Id>, childCount: int, rest: string)

  type Table = map<Id, Row>

  datatype Column = ParentId | ChildCount | OtherColumn

  datatype Instance = Instance(id: Id, row: Row, savedInDb: bool)

  datatype NodeError = DuplicateKey | NothingToUpdate | HasChildren

  function Children(t: Table, p: Id): set<Id> {
    set i | i in t && t[i].parentId == Some(p)
  }

  /** Every stored node counts exactly the rows that name it as their parent. */
  ghost predicate Counted(t: Table) {
    forall p :: p in t ==> t[p].childCount == |Children(t, p)|
  }

  // ---------- save ----------

  /** `filter(pk=parent).update(child_count=F("child_count") + delta)`. */
  function Bump(t: Table, parent: Option<Id>, delta: int): Table {
    if parent.Some? && parent.value in t then
      t[parent.value := t[parent.value].(childCount := t[parent.value].childCount + delta)]
    else t
  }

  /** The columns an UPDATE writes; the ORM reads an empty list like a missing one: all of them. */
  predicate Writes(fields: Option<seq<Column>>, c: Column) {
    fields.None? || fields.value == [] || c in fields.value
  }

  /** Whether an update moves the counters: not for an empty list, although that writes the parent. */
  predicate Counts(fields: Option<seq<Column>>) {
    fields.None? || ParentId in fields.value
  }

  /** The stored row after an UPDATE of the given columns. */
  function Written(stored: Row, mine: Row, fields: Option<seq<Column>>): Row {
    Row(if Writes(fields, ParentId) then mine.parentId else stored.parentId,
        if Writes(fields, ChildCount) then mine.childCount else stored.childCount,
        if Writes(fields, OtherColumn) then mine.rest else stored.rest)
  }

  predicate IsCreate(x: Instance, fields: Option<seq<Column>>, forceCreate: bool, forceUpdate: bool) {
    forceCreate || (!x.savedInDb && fields.None? && !forceUpdate)
  }

  /** An unsaved instance saved with an empty list: the ORM inserts it, `save` takes it for an update. */
  predicate IsSilentInsert(x: Instance, fields: Option<seq<Column>>, forceCreate: bool, forceUpdate: bool) {
    !forceCreate && !forceUpdate && !x.savedInDb && fields == Some([])
  }

  function Created(t: Table, x: Instance): Table {
    Bump(t[x.id := x.row], x.row.parentId, 1)
  }

  function PreviousParent(t: Table, id: Id): Option<Id> {
    if id in t then t[id].parentId else None
  }

  function Updated(t: Table, x: Instance, fields: Option<seq<Column>>): Table {
    var previous := PreviousParent(t, x.id);
    var t1 := if x.id in t then t[x.id := Written(t[x.id], x.row, fields)] else t;
    if Counts(fields) then Bump(Bump(t1, previous, -1), x.row.parentId, 1) else t1
  }

  /** The table after `save`; an INSERT of a stored key and a forced UPDATE of nothing fail. */
  function Saved(t: Table, x: Instance, fields: Option<seq<Column>>, forceCreate: bool,
                 forceUpdate: bool): Result<Table, NodeError>
  {
    if IsCreate(x, fields, forceCreate, forceUpdate) then
      if x.id in t then Err(DuplicateKey) else Ok(Created(t, x))
    else if IsSilentInsert(x, fields, forceCreate, forceUpdate) then
      if x.id in t then Err(DuplicateKey) else Ok(t[x.id := x.row])
    else if forceUpdate && x.id !in t then Err(NothingToUpdate)
    else Ok(Updated(t, x, fields))
  }

  // ---------- delete ----------

  function Deleted(t: Table, x: Instance, blockOrphans: bool): Result<Table, NodeError> {
    if blockOrphans && Children(t, x.id) != {} then Err(HasChildren)
    else Ok(Bump(t - {x.id}, x.row.parentId, -1))
  }

  class NodeTable {
    var rows: Table

    constructor (rows: Table)
      ensures this.rows == rows
    {
      this.rows := rows;
    }

    method AddToCount(parent: Id, delta: int)
      modifies this
      ensures rows == Bump(old(rows), Some(parent), delta)
    {
      if parent in rows {
        rows := rows[parent := rows[parent].(childCount := rows[parent].childCount + delta)];
      }
    }
  }

  class GraphNode {
    const id: Id
    const blockOrphans: bool
    var row: Row
    var savedInDb: bool

    constructor (id: Id, row: Row, savedInDb: bool, blockOrphans: bool)
      ensures this.id == id && this.row == row && this.savedInDb == savedInDb && this.blockOrphans == blockOrphans
    {
      this.id, this.row, this.savedInDb, this.blockOrphans := id, row, savedInDb, blockOrphans;
    }

    method Save(table: NodeTable, fields: Option<seq<Column>>, forceCreate: bool, forceUpdate: bool)
      returns (r: Result<(), NodeError>)
      modifies this, table
      ensures var saved := Saved(old(table.rows), Instance(id, old(row), old(savedInDb)), fields, forceCreate,
          forceUpdate);
        match saved
        case Ok(rows) => r == Ok(()) && table.rows == rows && savedInDb
        case Err(e) => r == Err(e) && table.rows == old(table.rows) && savedInDb == old(savedInDb)
      ensures row == old(row)
    {
      var isCreate := forceCreate || (!savedInDb && fields.None? && !forceUpdate);
      var oldParent: Option<Id> := None;
      if !isCreate && id in table.rows {
        oldParent := table.rows[id].parentId;
      }
      // The write itself.
      if isCreate || (!savedInDb && fields == Some([]) && !forceUpdate) {
        if id in table.rows {
          return Err(DuplicateKey);
        }
        table.rows := table.rows[id := row];
      } else {
        if forceUpdate && id !in table.rows {
          return Err(NothingToUpdate);
        }
        if id in table.rows {
          table.rows := table.rows[id := Written(table.rows[id], row, fields)];
        }
      }
      savedInDb := true;
      // The counters.
      if isCreate {
        if row.parentId.Some? {
          table.AddToCount(row.parentId.value, 1);
        }
      } else if fields.None? || ParentId in fields.value {
        if oldParent.Some? {
          table.AddToCount(oldParent.value, -1);
        }
        if row.parentId.Some? {
          table.AddToCount(row.parentId.value, 1);
        }
      }
      r := Ok(());
    }

    method Delete(table: NodeTable) returns (r: Result<(), NodeError>)
      modifies table
      ensures match Deleted(old(table.rows), Instance(id, row, savedInDb), blockOrphans)
        case Ok(rows) => r == Ok(()) && table.rows == rows
        case Err(e) => r == Err(e) && table.rows == old(table.rows)
    {
      if blockOrphans {
        var rows := table.rows;
        var remaining := |set i | i in rows && rows[i].parentId == Some(id)|;
        assert (set i | i in rows && rows[i].parentId == Some(id)) == Children(rows, id);
        if remaining != 0 {
          return Err(HasChildren);
        }
      }
      table.rows := table.rows - {id};
      if row.parentId.Some? {
        table.AddToCount(row.parentId.value, -1);
      }
      r := Ok(());
    }
  }

  // ---------- counting children ----------

  function One(b: bool): int {
    if b then 1 else 0
  }

  lemma WithoutOne(s: set<Id>, x: Id)
    ensures |s - {x}| == |s| - One(x in s)
  {
    if x in s {
      assert s == (s - {x}) + {x};
    } else {
      assert s == s - {x};
    }
  }

  lemma ChildrenAfterWrite(t: Table, id: Id, r: Row, p: Id)
    ensures |Children(t[id := r], p)|
      == |Children(t, p)| - One(PreviousParent(t, id) == Some(p)) + One(r.parentId == Some(p))
  {
    var a, b := Children(t, p), Children(t[id := r], p);
    assert a - {id} == b - {id};
    WithoutOne(a, id);
    WithoutOne(b, id);
  }

  lemma ChildrenAfterDelete(t: Table, id: Id, p: Id)
    ensures |Children(t - {id}, p)| == |Children(t, p)| - One(PreviousParent(t, id) == Some(p))
  {
    assert Children(t - {id}, p) == Children(t, p) - {id};
    WithoutOne(Children(t, p), id);
  }

  lemma BumpKeepsChildren(t: Table, parent: Option<Id>, delta: int, p: Id)
    ensures Children(Bump(t, parent, delta), p) == Children(t, p) && Bump(t, parent, delta).Keys == t.Keys
    ensures p in t ==>
      Bump(t, parent, delta)[p].childCount == t[p].childCount + (if parent == Some(p) then delta else 0)
  {
  }

  // ---------- what one call does to each row ----------

  /** A save fails on an insert of a stored key and on a forced update of a missing row, else never. */
  lemma SaveFailsIff(t: Table, x: Instance, fields: Option<seq<Column>>, forceCreate: bool, forceUpdate: bool)
    ensures var r := Saved(t, x, fields, forceCreate, forceUpdate);
      && (r == Err(DuplicateKey) <==>
        x.id in t && (forceCreate || (!x.savedInDb && !forceUpdate && (fields.None? || fields.value == []))))
      && (r == Err(NothingToUpdate) <==> x.id !in t && forceUpdate && !forceCreate)
      && r != Err(HasChildren)
  {
  }

  /**
   The row of the instance gets its columns if it is new, and else the named ones, all of them
   when none are named. No other row changes, but for counters.
   */
  lemma SaveStores(t: Table, x: Instance, fields: Option<seq<Column>>, forceCreate: bool, forceUpdate: bool, i: Id)
    requires Saved(t, x, fields, forceCreate, forceUpdate).Ok?
    ensures var u := Saved(t, x, fields, forceCreate, forceUpdate).value;
      var inserts := forceCreate || (!x.savedInDb && !forceUpdate && (fields.None? || fields.value == []));
      && (i in u <==> i in t || (i == x.id && inserts))
      && (i in u && i != x.id ==> u[i].parentId == t[i].parentId && u[i].rest == t[i].rest)
      && (i in u && i == x.id ==>
        && u[i].parentId == (if i !in t || fields.None? || fields.value == [] || ParentId in fields.value
                             then x.row.parentId else t[i].parentId)
        && u[i].rest == (if i !in t || fields.None? || fields.value == [] || OtherColumn in fields.value
                         then x.row.rest else t[i].rest))
  {
  }

  /**
   The counter of each row after a save: as written, or as stored; one less for the previous
   parent on an update that names no columns or the parent, one more for the new parent on
   such an update and on a create.
   */
  lemma SaveCounts(t: Table, x: Instance, fields: Option<seq<Column>>, forceCreate: bool, forceUpdate: bool, i: Id)
    requires Saved(t, x, fields, forceCreate, forceUpdate).Ok?
    requires i in Saved(t, x, fields, forceCreate, forceUpdate).value
    ensures var creates := forceCreate || (!x.savedInDb && fields.None? && !forceUpdate);
      var written := i == x.id && (i !in t || fields.None? || fields.value == [] || ChildCount in fields.value);
      var moves := fields.None? || ParentId in fields.value;
      Saved(t, x, fields, forceCreate, forceUpdate).value[i].childCount
        == (if written then x.row.childCount else t[i].childCount)
           - One(!creates && moves && x.id in t && t[x.id].parentId == Some(i))
           + One((creates || moves) && x.row.parentId == Some(i))
  {
  }

  /** A guarded delete is refused iff a child is left; else the row goes and its parent as loaded counts one less. */
  lemma DeleteStores(t: Table, x: Instance, blockOrphans: bool, i: Id)
    ensures Deleted(t, x, blockOrphans).Err? <==> blockOrphans && exists c :: c in t && t[c].parentId == Some(x.id)
    ensures Deleted(t, x, blockOrphans).Ok? ==>
      var u := Deleted(t, x, blockOrphans).value;
      && (i in u <==> i in t && i != x.id)
      && (i in u ==> u[i].parentId == t[i].parentId && u[i].rest == t[i].rest)
      && (i in u ==> u[i].childCount == t[i].childCount - One(x.row.parentId == Some(i)))
  {
    if c :| c in t && t[c].parentId == Some(x.id) {
      assert c in Children(t, x.id);
    }
    if forall c :: c in t ==> t[c].parentId != Some(x.id) {
      assert Children(t, x.id) == {};
    }
  }

  // ---------- when the counters stay right ----------

  /** A created node must bring along the count of rows that already name it as parent. */
  lemma CreateKeepsCounted(t: Table, x: Instance)
    requires Counted(t) && x.id !in t
    ensures Counted(Created(t, x)) <==> x.row.childCount == |Children(t, x.id)|
  {
    var t1 := t[x.id := x.row];
    forall p | p in t1
      ensures Created(t, x)[p].childCount == |Children(Created(t, x), p)| <==>
        (p == x.id ==> x.row.childCount == |Children(t, x.id)|)
    {
      ChildrenAfterWrite(t, x.id, x.row, p);
      BumpKeepsChildren(t1, x.row.parentId, 1, p);
    }
    BumpKeepsChildren(t1, x.row.parentId, 1, x.id);
    assert x.id in Created(t, x);
  }

  /**
   An update of a stored row that moves the counters, or leaves the parent alone, is safe iff
   it does not write a stale `child_count`.
   */
  lemma UpdateKeepsCounted(t: Table, x: Instance, fields: Option<seq<Column>>)
    requires Counted(t) && x.id in t && fields != Some([])
    ensures Counted(Updated(t, x, fields)) <==> (Writes(fields, ChildCount) ==> x.row.childCount == t[x.id].childCount)
  {
    var w := Written(t[x.id], x.row, fields);
    var t1 := t[x.id := w];
    var t2 := Bump(t1, t[x.id].parentId, -1);
    var u := Updated(t, x, fields);
    assert u.Keys == t.Keys;
    forall p | p in t
      ensures u[p].childCount == |Children(u, p)|
        <==> (p == x.id && Writes(fields, ChildCount) ==> x.row.childCount == t[x.id].childCount)
    {
      ChildrenAfterWrite(t, x.id, w, p);
      BumpKeepsChildren(t1, t[x.id].parentId, -1, p);
      BumpKeepsChildren(t2, x.row.parentId, 1, p);
    }
    assert u[x.id].childCount == |Children(u, x.id)|
      <==> (Writes(fields, ChildCount) ==> x.row.childCount == t[x.id].childCount);
  }

  /**
   With an empty list the whole row is written and no counter moves: safe iff the row stays
   under the same stored parent, and brings the count its own children call for, itself
   included.
   */
  lemma SilentUpdateKeepsCounted(t: Table, x: Instance)
    requires Counted(t) && x.id in t
    ensures Counted(Updated(t, x, Some([])))
       <==> && Remaining(t, x.id, t[x.id].parentId) == Remaining(t, x.id, x.row.parentId)
            && x.row.childCount
               == t[x.id].childCount - One(t[x.id].parentId == Some(x.id)) + One(x.row.parentId == Some(x.id))
  {
    var u := t[x.id := x.row];
    assert Written(t[x.id], x.row, Some([])) == x.row;
    assert Updated(t, x, Some([])) == u;
    var before, after := Remaining(t, x.id, t[x.id].parentId), Remaining(t, x.id, x.row.parentId);
    forall p | p in t
      ensures u[p].childCount == |Children(u, p)|
        <==> if p == x.id
             then x.row.childCount
               == t[x.id].childCount - One(t[x.id].parentId == Some(x.id)) + One(x.row.parentId == Some(x.id))
             else before == Some(p) <==> after == Some(p)
    {
      ChildrenAfterWrite(t, x.id, x.row, p);
    }
    assert u.Keys == t.Keys;
  }

  /** A silent insert is safe iff no stored parent gains a child and the row brings its own count. */
  lemma SilentInsertKeepsCounted(t: Table, x: Instance)
    requires Counted(t) && x.id !in t
    ensures Counted(t[x.id := x.row])
       <==> && Remaining(t, x.id, x.row.parentId) == None
            && x.row.childCount == |Children(t, x.id)| + One(x.row.parentId == Some(x.id))
  {
    var u := t[x.id := x.row];
    forall p | p in u
      ensures u[p].childCount == |Children(u, p)|
        <==> if p == x.id then x.row.childCount == |Children(t, x.id)| + One(x.row.parentId == Some(x.id))
             else x.row.parentId != Some(p)
    {
      ChildrenAfterWrite(t, x.id, x.row, p);
    }
    if Remaining(t, x.id, x.row.parentId).Some? {
      assert x.row.parentId.value in u;
    }
    assert x.id in u;
  }

  /** Updating a row that is gone is safe iff no stored parent gets counted up for it. */
  lemma UpdateOfMissingRow(t: Table, x: Instance, fields: Option<seq<Column>>)
    requires Counted(t) && x.id !in t
    ensures Counted(Updated(t, x, fields)) <==> !(Counts(fields) && x.row.parentId.Some? && x.row.parentId.value in t)
  {
    var u := Updated(t, x, fields);
    forall p | p in t ensures u[p].childCount == |Children(u, p)| <==> !(Counts(fields) && x.row.parentId == Some(p)) {
      BumpKeepsChildren(t, None, -1, p);
      BumpKeepsChildren(t, x.row.parentId, 1, p);
    }
    assert u.Keys == t.Keys;
    if Counts(fields) && x.row.parentId.Some? && x.row.parentId.value in t {
      var p := x.row.parentId.value;
      assert p in u && u[p].childCount != |Children(u, p)|;
    }
  }

  /** The parent among the rows that remain, if it is there. */
  function Remaining(t: Table, id: Id, parent: Option<Id>): Option<Id> {
    if parent.Some? && parent.value in t && parent.value != id then parent else None
  }

  /** A delete is safe iff the instance names the stored parent, as far as rows remain. */
  lemma DeleteKeepsCounted(t: Table, x: Instance)
    requires Counted(t)
    ensures Counted(Bump(t - {x.id}, x.row.parentId, -1))
       <==> Remaining(t, x.id, x.row.parentId) == Remaining(t, x.id, PreviousParent(t, x.id))
  {
    var t1 := t - {x.id};
    var u := Bump(t1, x.row.parentId, -1);
    forall p | p in t1
      ensures u[p].childCount == |Children(u, p)| <==>
        (x.row.parentId == Some(p) <==> PreviousParent(t, x.id) == Some(p))
    {
      ChildrenAfterDelete(t, x.id, p);
      BumpKeepsChildren(t1, x.row.parentId, -1, p);
    }
    var mine, stored := Remaining(t, x.id, x.row.parentId), Remaining(t, x.id, PreviousParent(t, x.id));
    if mine != stored {
      var p := if mine.Some? then mine.value else stored.value;
      assert p in u && u[p].childCount != |Children(u, p)|;
    }
    assert u.Keys == t1.Keys;
  }

  // ---------- runs ----------

  datatype Operation =
    | Save(x: Instance, fields: Option<seq<Column>>, forceCreate: bool, forceUpdate: bool)
    | Delete(x: Instance, blockOrphans: bool)

  function Apply(t: Table, op: Operation): Table {
    var r := match op
      case Save(x, fields, fc, fu) => Saved(t, x, fields, fc, fu)
      case Delete(x, block) => Deleted(t, x, block);
    if r.Ok? then r.value else t
  }

  /** What a caller must see to for the counters to survive one operation. */
  ghost predicate Careful(t: Table, op: Operation) {
    match op
    case Save(x, fields, fc, fu) =>
      if IsCreate(x, fields, fc, fu) then
        x.id in t || x.row.childCount == |Children(t, x.id)|
      else if IsSilentInsert(x, fields, fc, fu) then
        x.id in t
        || (Remaining(t, x.id, x.row.parentId) == None
            && x.row.childCount == |Children(t, x.id)| + One(x.row.parentId == Some(x.id)))
      else if x.id !in t then
        fu || !(Counts(fields) && x.row.parentId.Some? && x.row.parentId.value in t)
      else if fields == Some([]) then
        && Remaining(t, x.id, t[x.id].parentId) == Remaining(t, x.id, x.row.parentId)
        && x.row.childCount
           == t[x.id].childCount - One(t[x.id].parentId == Some(x.id)) + One(x.row.parentId == Some(x.id))
      else
        Writes(fields, ChildCount) ==> x.row.childCount == t[x.id].childCount
    case Delete(x, block) =>
      || (block && Children(t, x.id) != {})
      || Remaining(t, x.id, x.row.parentId) == Remaining(t, x.id, PreviousParent(t, x.id))
  }

  /** One operation keeps all counters right iff the caller was careful. */
  lemma OperationKeepsCountedIffCareful(t: Table, op: Operation)
    requires Counted(t)
    ensures Counted(Apply(t, op)) <==> Careful(t, op)
  {
    match op
    case Save(x, fields, fc, fu) =>
      if x.id !in t {
        if IsCreate(x, fields, fc, fu) {
          CreateKeepsCounted(t, x);
        } else if IsSilentInsert(x, fields, fc, fu) {
          SilentInsertKeepsCounted(t, x);
        } else {
          UpdateOfMissingRow(t, x, fields);
        }
      } else if fields == Some([]) {
        SilentUpdateKeepsCounted(t, x);
      } else {
        UpdateKeepsCounted(t, x, fields);
      }
    case Delete(x, block) =>
      DeleteKeepsCounted(t, x);
  }

  function Run(t: Table, ops: seq<Operation>): Table
    decreases |ops|
  {
    if ops == [] then t else Run(Apply(t, ops[0]), ops[1..])
  }

  ghost predicate AllCareful(t: Table, ops: seq<Operation>)
    decreases |ops|
  {
    ops == [] || (Careful(t, ops[0]) && AllCareful(Apply(t, ops[0]), ops[1..]))
  }

  /** Over every run of careful operations each node's counter is the number of its children. */
  lemma {:induction false} RunsKeepCounted(t: Table, ops: seq<Operation>)
    requires Counted(t) && AllCareful(t, ops)
    ensures Counted(Run(t, ops))
    decreases |ops|
  {
    if ops != [] {
      OperationKeepsCountedIffCareful(t, ops[0]);
      RunsKeepCounted(Apply(t, ops[0]), ops[1..]);
    }
  }

  /** The counters are right after every operation of the run. */
  ghost predicate CountedThroughout(t: Table, ops: seq<Operation>)
    decreases |ops|
  {
    Counted(t) && (ops == [] || CountedThroughout(Apply(t, ops[0]), ops[1..]))
  }

  /** They are right throughout a run iff every one of its operations was careful. */
  lemma {:induction false} CountedThroughoutIff(t: Table, ops: seq<Operation>)
    requires Counted(t)
    ensures CountedThroughout(t, ops) <==> AllCareful(t, ops)
    decreases |ops|
  {
    if ops != [] {
      OperationKeepsCountedIffCareful(t, ops[0]);
      if Careful(t, ops[0]) {
        CountedThroughoutIff(Apply(t, ops[0]), ops[1..]);
      }
    }
  }

  /** Deleting a node twice from instances loaded before takes its parent's count below zero. */
  lemma DoubleDeleteUndercounts(s: string)
    ensures var t := map[1 := Row(None, 1, s), 2 := Row(Some(1), 0, s)];
      var x := Instance(2, t[2], true);
      Counted(t) && Run(t, [Delete(x, false), Delete(x, false)]) == map[1 := Row(None, -1, s)]
  {
    var t := map[1 := Row(None, 1, s), 2 := Row(Some(1), 0, s)];
    var x := Instance(2, t[2], true);
    var op := Delete(x, false);
    assert Children(t, 1) == {2} && Children(t, 2) == {};
    var t1 := Apply(t, op);
    assert t1 == map[1 := Row(None, 0, s)];
    var t2 := Apply(t1, op);
    assert t2 == map[1 := Row(None, -1, s)];
    assert [op, op][1..] == [op] && [op][1..] == [];
    assert Run(t1, [op]) == Run(t2, []);
    assert Run(t, [op, op]) == t2;
  }

  /** An unsaved child saved with an empty list is inserted without being counted. */
  lemma EmptyFieldsUndercount(s: string)
    ensures var t := map[1 := Row(None, 0, s)];
      var x := Instance(2, Row(Some(1), 0, s), false);
      Counted(t) && Run(t, [Save(x, Some([]), false, false)]) == map[1 := Row(None, 0, s), 2 := x.row]
      && !Counted(Run(t, [Save(x, Some([]), false, false)]))
  {
    var t := map[1 := Row(None, 0, s)];
    var x := Instance(2, Row(Some(1), 0, s), false);
    var op := Save(x, Some([]), false, false);
    var u := Apply(t, op);
    assert u == map[1 := Row(None, 0, s), 2 := x.row];
    assert [op][1..] == [] && Run(t, [op]) == Run(u, []);
    assert Children(t, 1) == {} && Children(u, 1) == {2};
    assert 1 in u && u[1].childCount != |Children(u, 1)|;
  }
}

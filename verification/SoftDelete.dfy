/** `SoftDeleteQuerySet`: the mode condition kept at an index among the user's conditions. */
module SoftDelete {
  import opened Options

  type Id = int
  type Time = int

  datatype Row = Row(deletedAt: Option<Time>, data: int)
  type Table = map<Id, Row>

  /** `Q(deleted_at__isnull=...)`, or a condition of the user, plain or negated. */
  datatype Condition = IsNull(isnull: bool) | User(test: nat, negated: bool)

  /** What the user's conditions mean for a row; `None` is the unknown of SQL, as a comparison with NULL gives it. */
  type Meaning = (nat, Row) -> Option<bool>

  predicate Holds(c: Condition, r: Row, meaning: Meaning) {
    match c
    case IsNull(b) => r.deletedAt.None? == b
    case User(test, negated) => meaning(test, r) == Some(!negated)
  }

  /** The queryset fields; mode 0 is live-only, 1 with deleted rows, 2 only deleted rows. */
  datatype State = State(qObjects: seq<Condition>, index: Option<nat>, mode: nat)

  predicate Matches(s: State, r: Row, meaning: Meaning) {
    forall i :: 0 <= i < |s.qObjects| ==> Holds(s.qObjects[i], r, meaning)
  }

  function Initial(hasColumn: bool): State {
    if hasColumn then State([IsNull(true)], Some(0), 0) else State([], None, 0)
  }

  datatype Operation = Filter(test: nat) | Exclude(test: nat) | WithDeleted | OnlyDeleted

  predicate IndexFits(s: State) {
    s.index.Some? ==> s.index.value < |s.qObjects|
  }

  function Apply(s: State, op: Operation): State
    requires IndexFits(s)
  {
    match op
    case Filter(t) => s.(qObjects := s.qObjects + [User(t, false)])
    case Exclude(t) => s.(qObjects := s.qObjects + [User(t, true)])
    case WithDeleted =>
      if s.index.Some? then State(s.qObjects[..s.index.value] + s.qObjects[s.index.value + 1..], None, 1)
      else s.(mode := 1)
    case OnlyDeleted =>
      if s.index.Some? then State(s.qObjects[s.index.value := IsNull(false)], s.index, 2)
      else State(s.qObjects + [IsNull(false)], Some(|s.qObjects|), 2)
  }

  class SoftDeleteQuerySet {
    var qObjects: seq<Condition>
    var sdIndex: Option<nat>
    var sdMode: nat

    ghost function View(): State
      reads this
    {
      State(qObjects, sdIndex, sdMode)
    }

    constructor (hasColumn: bool)
      ensures View() == Initial(hasColumn)
    {
      qObjects, sdIndex, sdMode := [], None, 0;
      if hasColumn {
        qObjects := [IsNull(true)];
        sdIndex := Some(0);
      }
    }

    method Clone() returns (qs: SoftDeleteQuerySet)
      ensures fresh(qs) && qs.View() == View()
    {
      qs := new SoftDeleteQuerySet(false);
      qs.qObjects, qs.sdIndex, qs.sdMode := qObjects, sdIndex, sdMode;
    }

    /** `filter` and `exclude` append to a clone. */
    method Narrow(test: nat, negated: bool) returns (clone: SoftDeleteQuerySet)
      requires IndexFits(View())
      ensures fresh(clone) && clone.View() == Apply(View(), if negated then Exclude(test) else Filter(test))
    {
      clone := Clone();
      clone.qObjects := clone.qObjects + [User(test, negated)];
    }

    method SwitchToWithDeleted() returns (clone: SoftDeleteQuerySet)
      requires IndexFits(View())
      ensures fresh(clone) && clone.View() == Apply(View(), WithDeleted)
    {
      clone := Clone();
      if clone.sdIndex.Some? {
        clone.qObjects := clone.qObjects[..clone.sdIndex.value] + clone.qObjects[clone.sdIndex.value + 1..];
        clone.sdIndex := None;
      }
      clone.sdMode := 1;
    }

    method SwitchToOnlyDeleted() returns (clone: SoftDeleteQuerySet)
      requires IndexFits(View())
      ensures fresh(clone) && clone.View() == Apply(View(), OnlyDeleted)
    {
      clone := Clone();
      if clone.sdIndex.Some? {
        clone.qObjects := clone.qObjects[clone.sdIndex.value := IsNull(false)];
      } else {
        clone.qObjects := clone.qObjects + [IsNull(false)];
        clone.sdIndex := Some(|clone.qObjects| - 1);
      }
      clone.sdMode := 2;
    }
  }

  // ---------- chains of calls ----------

  /** The user's conditions of a chain, in the order they were given. */
  function UserConditions(ops: seq<Operation>): seq<Condition> {
    if ops == [] then []
    else
      UserConditions(ops[..|ops| - 1]) +
      match ops[|ops| - 1]
      case Filter(t) => [User(t, false)]
      case Exclude(t) => [User(t, true)]
      case _ => []
  }

  /** The mode chosen last. */
  function LastMode(ops: seq<Operation>): nat {
    if ops == [] then 0
    else
      match ops[|ops| - 1]
      case WithDeleted => 1
      case OnlyDeleted => 2
      case _ => LastMode(ops[..|ops| - 1])
  }

  /** The index is set iff a mode condition is present; it addresses that one and no other. */
  ghost predicate WellIndexed(s: State, hasColumn: bool, users: seq<Condition>, mode: nat) {
    && s.mode == mode
    && (s.index.Some? <==> mode == 2 || (mode == 0 && hasColumn))
    && match s.index
       case None => s.qObjects == users
       case Some(i) =>
         && i < |s.qObjects| && s.qObjects[i] == IsNull(mode == 0)
         && s.qObjects[..i] + s.qObjects[i + 1..] == users
  }

  function Chain(hasColumn: bool, ops: seq<Operation>): (s: State)
    ensures WellIndexed(s, hasColumn, UserConditions(ops), LastMode(ops))
  {
    if ops == [] then Initial(hasColumn)
    else
      var before := Chain(hasColumn, ops[..|ops| - 1]);
      var op := ops[|ops| - 1];
      var after := Apply(before, op);
      ApplyKeepsIndex(before, hasColumn, UserConditions(ops[..|ops| - 1]), LastMode(ops[..|ops| - 1]), op);
      after
  }

  lemma ApplyKeepsIndex(s: State, hasColumn: bool, users: seq<Condition>, mode: nat, op: Operation)
    requires WellIndexed(s, hasColumn, users, mode)
    ensures match op
      case Filter(t) => WellIndexed(Apply(s, op), hasColumn, users + [User(t, false)], mode)
      case Exclude(t) => WellIndexed(Apply(s, op), hasColumn, users + [User(t, true)], mode)
      case WithDeleted => WellIndexed(Apply(s, op), hasColumn, users, 1)
      case OnlyDeleted => WellIndexed(Apply(s, op), hasColumn, users, 2)
  {
    var q := Apply(s, op).qObjects;
    if s.index.Some? {
      var i := s.index.value;
      match op
      case WithDeleted =>
      case OnlyDeleted =>
        assert q[..i] == s.qObjects[..i] && q[i + 1..] == s.qObjects[i + 1..];
      case Filter(t) =>
        assert q[..i] == s.qObjects[..i] && q[i + 1..] == s.qObjects[i + 1..] + [User(t, false)];
      case Exclude(t) =>
        assert q[..i] == s.qObjects[..i] && q[i + 1..] == s.qObjects[i + 1..] + [User(t, true)];
    } else if op.OnlyDeleted? {
      assert q[..|s.qObjects|] == s.qObjects && q[|s.qObjects| + 1..] == [];
    }
  }

  /** The rows a mode lets through. */
  predicate Admits(mode: nat, r: Row) {
    (mode == 0 ==> r.deletedAt.None?) && (mode == 2 ==> r.deletedAt.Some?)
  }

  ghost predicate AllHold(users: seq<Condition>, r: Row, meaning: Meaning) {
    forall i :: 0 <= i < |users| ==> Holds(users[i], r, meaning)
  }

  /** All conditions hold iff the one at `i` holds and all the others do. */
  lemma MatchesByParts(s: State, i: nat, users: seq<Condition>, r: Row, meaning: Meaning)
    requires i < |s.qObjects| && users == s.qObjects[..i] + s.qObjects[i + 1..]
    ensures Matches(s, r, meaning) <==> Holds(s.qObjects[i], r, meaning) && AllHold(users, r, meaning)
  {
    if Matches(s, r, meaning) {
      forall k | 0 <= k < |users| ensures Holds(users[k], r, meaning) {
        assert users[k] == s.qObjects[if k < i then k else k + 1];
      }
    }
    if Holds(s.qObjects[i], r, meaning) && AllHold(users, r, meaning) {
      forall k | 0 <= k < |s.qObjects| ensures Holds(s.qObjects[k], r, meaning) {
        if k != i { assert s.qObjects[k] == users[if k < i then k else k - 1]; }
      }
    }
  }

  /** The row passes each filter, and each exclusion is known to fail on it. */
  ghost predicate Meets(ops: seq<Operation>, r: Row, meaning: Meaning) {
    forall k :: 0 <= k < |ops| ==>
      && (ops[k].Filter? ==> meaning(ops[k].test, r) == Some(true))
      && (ops[k].Exclude? ==> meaning(ops[k].test, r) == Some(false))
  }

  lemma {:induction false} UserConditionsMean(ops: seq<Operation>, r: Row, meaning: Meaning)
    ensures AllHold(UserConditions(ops), r, meaning) <==> Meets(ops, r, meaning)
    decreases |ops|
  {
    if ops != [] {
      var before, op := ops[..|ops| - 1], ops[|ops| - 1];
      UserConditionsMean(before, r, meaning);
      var first, users := UserConditions(before), UserConditions(ops);
      assert forall i :: 0 <= i < |first| ==> users[i] == first[i];
      assert forall k :: 0 <= k < |before| ==> before[k] == ops[k];
      if AllHold(users, r, meaning) {
        assert AllHold(first, r, meaning);
        assert |users| > |first| ==> Holds(users[|first|], r, meaning);
      }
    }
  }

  /** A chain matches the user's conditions intersected with the mode chosen last. */
  lemma ChainMatches(ops: seq<Operation>, r: Row, meaning: Meaning)
    ensures Matches(Chain(true, ops), r, meaning) <==>
      Meets(ops, r, meaning) && Admits(LastMode(ops), r)
  {
    var s := Chain(true, ops);
    LastModeRange(ops);
    UserConditionsMean(ops, r, meaning);
    if s.index.Some? {
      MatchesByParts(s, s.index.value, UserConditions(ops), r, meaning);
    }
  }

  lemma {:induction false} LastModeRange(ops: seq<Operation>)
    ensures LastMode(ops) <= 2
    decreases |ops|
  {
    if ops != [] {
      LastModeRange(ops[..|ops| - 1]);
    }
  }

  // ---------- effects on the table ----------

  function MatchedIds(t: Table, s: State, meaning: Meaning): set<Id> {
    set i | i in t && Matches(s, t[i], meaning)
  }

  /** `update(deleted_at=...)` on the matched rows. */
  function Stamped(t: Table, s: State, meaning: Meaning, at: Option<Time>): Table {
    map i | i in t :: if Matches(s, t[i], meaning) then t[i].(deletedAt := at) else t[i]
  }

  function Deleted(t: Table, s: State, meaning: Meaning, now: Time): Table {
    if s.mode == 0 then Stamped(t, s, meaning, Some(now)) else t - MatchedIds(t, s, meaning)
  }

  function Restored(t: Table, s: State, meaning: Meaning): Table
    requires IndexFits(s)
  {
    Stamped(t, Apply(s, OnlyDeleted), meaning, None)
  }

  function HardDeleted(t: Table, s: State, meaning: Meaning, now: Time): Table
    requires IndexFits(s)
  {
    Deleted(t, Apply(s, WithDeleted), meaning, now)
  }

  class RowTable {
    var rows: Table

    constructor (rows: Table)
      ensures this.rows == rows
    {
      this.rows := rows;
    }
  }

  /** `update(deleted_at=at)` of a queryset: the number of rows it matched. */
  method Update(qs: SoftDeleteQuerySet, table: RowTable, meaning: Meaning, at: Option<Time>) returns (count: nat)
    modifies table
    ensures table.rows == Stamped(old(table.rows), qs.View(), meaning, at)
    ensures count == |MatchedIds(old(table.rows), qs.View(), meaning)|
  {
    var s, rows := State(qs.qObjects, qs.sdIndex, qs.sdMode), table.rows;
    count := |MatchedIds(rows, s, meaning)|;
    table.rows := Stamped(rows, s, meaning, at);
  }

  /** `delete`: a stamp on a live-only queryset, a physical delete on the others. */
  method Delete(qs: SoftDeleteQuerySet, table: RowTable, meaning: Meaning, now: Time) returns (count: nat)
    modifies table
    ensures table.rows == Deleted(old(table.rows), qs.View(), meaning, now)
    ensures |table.rows| == |old(table.rows)| - (if qs.View().mode == 0 then 0 else count)
    ensures count == |MatchedIds(old(table.rows), qs.View(), meaning)|
  {
    if qs.sdMode == 0 {
      count := Update(qs, table, meaning, Some(now));
      assert table.rows.Keys == old(table.rows).Keys;
      assert |table.rows| == |table.rows.Keys| && |old(table.rows)| == |old(table.rows).Keys|;
    } else {
      var s, rows := State(qs.qObjects, qs.sdIndex, qs.sdMode), table.rows;
      var ids := MatchedIds(rows, s, meaning);
      count := |ids|;
      table.rows := rows - ids;
    }
  }

  method Restore(qs: SoftDeleteQuerySet, table: RowTable, meaning: Meaning) returns (count: nat)
    requires IndexFits(qs.View())
    modifies table
    ensures table.rows == Restored(old(table.rows), qs.View(), meaning)
    ensures count == |MatchedIds(old(table.rows), Apply(qs.View(), OnlyDeleted), meaning)|
  {
    var only := qs.SwitchToOnlyDeleted();
    count := Update(only, table, meaning, None);
  }

  method HardDelete(qs: SoftDeleteQuerySet, table: RowTable, meaning: Meaning, now: Time) returns (count: nat)
    requires IndexFits(qs.View())
    modifies table
    ensures table.rows == HardDeleted(old(table.rows), qs.View(), meaning, now)
    ensures |table.rows| == |old(table.rows)| - count
  {
    var all := qs.SwitchToWithDeleted();
    count := Delete(all, table, meaning, now);
  }

  /**
   On a live-only chain `delete` removes no row, stamps the live rows that meet the
   conditions and touches no other; on the other chains it removes what the chain matches.
   */
  lemma DeleteByMode(t: Table, ops: seq<Operation>, meaning: Meaning, now: Time, i: Id)
    requires i in t
    ensures var t' := Deleted(t, Chain(true, ops), meaning, now);
      var hit := Meets(ops, t[i], meaning) && Admits(LastMode(ops), t[i]);
      if LastMode(ops) == 0 then
        t'.Keys == t.Keys && t'[i] == (if hit then t[i].(deletedAt := Some(now)) else t[i])
          && (t[i].deletedAt.Some? ==> t'[i] == t[i])
      else
        (i in t' <==> !hit) && (i in t' ==> t'[i] == t[i]) && t'.Keys <= t.Keys
  {
    ChainMatches(ops, t[i], meaning);
  }

  /** The user's conditions read other columns than `deleted_at`. */
  ghost predicate IgnoresDeletedAt(meaning: Meaning) {
    forall test, data, at, at' :: meaning(test, Row(at, data)) == meaning(test, Row(at', data))
  }

  lemma OnlyDeletedMatches(ops: seq<Operation>, r: Row, meaning: Meaning)
    ensures Matches(Apply(Chain(true, ops), OnlyDeleted), r, meaning) <==>
      Meets(ops, r, meaning) && r.deletedAt.Some?
  {
    var more := ops + [OnlyDeleted];
    assert more[..|more| - 1] == ops;
    ChainMatches(more, r, meaning);
  }

  /**
   `restore` on any chain, whatever its mode: the soft-deleted rows under the conditions become
   live, and no other row is touched.
   */
  lemma RestoreRow(t: Table, ops: seq<Operation>, meaning: Meaning, i: Id)
    requires i in t
    ensures Restored(t, Chain(true, ops), meaning).Keys == t.Keys
    ensures Restored(t, Chain(true, ops), meaning)[i]
      == if Meets(ops, t[i], meaning) && t[i].deletedAt.Some? then Row(None, t[i].data) else t[i]
  {
    OnlyDeletedMatches(ops, t[i], meaning);
  }

  /** `hard_delete` on any chain: the rows under the conditions go, live or soft-deleted, and no other. */
  lemma HardDeleteRow(t: Table, ops: seq<Operation>, meaning: Meaning, now: Time, i: Id)
    requires i in t
    ensures i in HardDeleted(t, Chain(true, ops), meaning, now) <==> !Meets(ops, t[i], meaning)
    ensures HardDeleted(t, Chain(true, ops), meaning, now).Keys <= t.Keys
    ensures i in HardDeleted(t, Chain(true, ops), meaning, now) ==>
      HardDeleted(t, Chain(true, ops), meaning, now)[i] == t[i]
  {
    var more := ops + [WithDeleted];
    assert more[..|more| - 1] == ops;
    ChainMatches(more, t[i], meaning);
    MeetsMore(ops, WithDeleted, t[i], meaning);
  }

  /** A change of mode adds no condition. */
  lemma MeetsMore(ops: seq<Operation>, op: Operation, r: Row, meaning: Meaning)
    requires op.WithDeleted? || op.OnlyDeleted?
    ensures Meets(ops + [op], r, meaning) <==> Meets(ops, r, meaning)
  {
    assert forall k :: 0 <= k < |ops| ==> (ops + [op])[k] == ops[k];
  }

  /** A row that meets the user's conditions and is soft-deleted, or live. */
  ghost predicate MeetsDeleted(ops: seq<Operation>, r: Row, meaning: Meaning) {
    r.deletedAt.Some? && Meets(ops, r, meaning)
  }

  ghost predicate MeetsLive(ops: seq<Operation>, r: Row, meaning: Meaning) {
    r.deletedAt.None? && Meets(ops, r, meaning)
  }

  function DeletedThenRestored(t: Table, ops: seq<Operation>, meaning: Meaning, now: Time): Table {
    Restored(Deleted(t, Chain(true, ops), meaning, now), Chain(true, ops), meaning)
  }

  /** The row as `delete` stamps it. */
  function StampedAt(r: Row, now: Time): Row {
    r.(deletedAt := Some(now))
  }

  /**
   `delete` then `restore`: a live row under the conditions comes back iff it still meets
   them once stamped, and a row that met them soft-deleted is revived, however old its marker.
   */
  lemma DeleteRestoreRow(t: Table, ops: seq<Operation>, meaning: Meaning, now: Time, i: Id)
    requires LastMode(ops) == 0 && i in t
    ensures i in DeletedThenRestored(t, ops, meaning, now)
    ensures DeletedThenRestored(t, ops, meaning, now)[i] ==
      if MeetsLive(ops, t[i], meaning) && !Meets(ops, StampedAt(t[i], now), meaning)
      then StampedAt(t[i], now)
      else if Meets(ops, t[i], meaning) then t[i].(deletedAt := None)
      else t[i]
  {
    var d := Deleted(t, Chain(true, ops), meaning, now);
    DeleteByMode(t, ops, meaning, now, i);
    OnlyDeletedMatches(ops, d[i], meaning);
  }

  /** A row that `restore` leaves as it was before `delete`. */
  ghost predicate ComesBack(ops: seq<Operation>, r: Row, meaning: Meaning, now: Time) {
    Meets(ops, r, meaning) ==>
      r.deletedAt.None? && Meets(ops, StampedAt(r, now), meaning)
  }

  /**
   `restore` on the same chain undoes a live-only `delete` iff each row that meets the user's
   conditions is live and still meets them once it is stamped.
   */
  lemma RestoreUndoesDeleteIff(t: Table, ops: seq<Operation>, meaning: Meaning, now: Time)
    requires LastMode(ops) == 0
    ensures DeletedThenRestored(t, ops, meaning, now) == t <==>
      forall i :: i in t ==> ComesBack(ops, t[i], meaning, now)
  {
    SameTableIff(t, DeletedThenRestored(t, ops, meaning, now));
    forall i | i in t
      ensures DeletedThenRestored(t, ops, meaning, now)[i] == t[i] <==> ComesBack(ops, t[i], meaning, now)
    {
      RowComesBackIff(t, ops, meaning, now, i);
    }
  }

  lemma RowComesBackIff(t: Table, ops: seq<Operation>, meaning: Meaning, now: Time, i: Id)
    requires LastMode(ops) == 0 && i in t && i in DeletedThenRestored(t, ops, meaning, now)
    ensures DeletedThenRestored(t, ops, meaning, now)[i] == t[i] <==> ComesBack(ops, t[i], meaning, now)
  {
    DeleteRestoreRow(t, ops, meaning, now, i);
  }

  /** For conditions on other columns: iff no row that meets them had been soft-deleted before. */
  lemma RestoreUndoesPlainDeleteIff(t: Table, ops: seq<Operation>, meaning: Meaning, now: Time)
    requires LastMode(ops) == 0 && IgnoresDeletedAt(meaning)
    ensures DeletedThenRestored(t, ops, meaning, now) == t <==> forall i :: i in t ==> !MeetsDeleted(ops, t[i], meaning)
  {
    RestoreUndoesDeleteIff(t, ops, meaning, now);
    forall i | i in t ensures ComesBack(ops, t[i], meaning, now) <==> !MeetsDeleted(ops, t[i], meaning) {
      HoldsIgnoring(ops, t[i], now, meaning);
    }
  }

  lemma HoldsIgnoring(ops: seq<Operation>, r: Row, now: Time, meaning: Meaning)
    requires IgnoresDeletedAt(meaning)
    ensures Meets(ops, r, meaning) <==> Meets(ops, StampedAt(r, now), meaning)
  {
    forall test ensures meaning(test, r) == meaning(test, StampedAt(r, now)) {
      assert meaning(test, Row(r.deletedAt, r.data)) == meaning(test, Row(Some(now), r.data));
    }
  }

  /** `filter(deleted_at__isnull=True)`: what it deletes, the same queryset cannot restore. */
  lemma FilterOnMarkerIsNotRestored(data: int, now: Time)
    ensures var meaning := (_: nat, r: Row) => Some(r.deletedAt.None?);
      DeletedThenRestored(map[1 := Row(None, data)], [Filter(0)], meaning, now) == map[1 := Row(Some(now), data)]
  {
    var meaning := (_: nat, r: Row) => Some(r.deletedAt.None?);
    var t, ops := map[1 := Row(None, data)], [Filter(0)];
    assert ops[0] == Filter(0) && ops[..0] == [];
    assert LastMode(ops) == LastMode(ops[..0]) == 0;
    assert Meets(ops, t[1], meaning) && !Meets(ops, StampedAt(t[1], now), meaning);
    DeleteRestoreRow(t, ops, meaning, now, 1);
    assert DeletedThenRestored(t, ops, meaning, now).Keys == {1};
  }

  lemma SameTableIff(t: Table, u: Table)
    requires u.Keys == t.Keys
    ensures u == t <==> forall i :: i in t ==> u[i] == t[i]
  {
    if forall i :: i in t ==> u[i] == t[i] {
      assert forall i :: i in u <==> i in t.Keys;
      assert u == t;
    }
  }

  /**
   `hard_delete` drops the mode: on an only-deleted chain it purges what `delete` purges iff
   no live row meets the user's conditions.
   */
  lemma HardDeleteDropsMode(t: Table, ops: seq<Operation>, meaning: Meaning, now: Time)
    requires LastMode(ops) == 2
    ensures HardDeleted(t, Chain(true, ops), meaning, now) == Deleted(t, Chain(true, ops), meaning, now) <==>
      forall i :: i in t ==> !MeetsLive(ops, t[i], meaning)
  {
    var wide, narrow := HardDeleted(t, Chain(true, ops), meaning, now), Deleted(t, Chain(true, ops), meaning, now);
    forall i | i in t
      ensures i in narrow <==> !MeetsDeleted(ops, t[i], meaning)
      ensures i in wide <==> !MeetsDeleted(ops, t[i], meaning) && !MeetsLive(ops, t[i], meaning)
    {
      HardDeleteRow(t, ops, meaning, now, i);
      DeleteByMode(t, ops, meaning, now, i);
    }
    if wide == narrow {
      forall i | i in t ensures !MeetsLive(ops, t[i], meaning) {
      }
    }
    if forall i :: i in t ==> !MeetsLive(ops, t[i], meaning) {
      forall i ensures i in wide <==> i in narrow {
        assert i in t ==> !MeetsLive(ops, t[i], meaning);
      }
      assert wide == narrow;
    }
  }
}

/**
 Evaluation of `WITH RECURSIVE ... UNION` and of `ORDER BY ... LIMIT`, as PostgreSQL
 describes them (section 7.8.2, Recursive Queries): a result table, a working table,
 and a round that joins the working table, drops rows already in the result and makes
 the remaining rows the next working table.
 */
module Cte {
  import opened Options

  /** One round: the recursive term evaluated over the working table. */
  function Round<R>(step: R -> set<R>, working: set<R>): set<R> {
    set w, r | w in working && r in step(w) :: r
  }

  /** Every row produced from `w` ranks strictly below `w`. */
  ghost predicate Ranked<R(!new)>(step: R -> set<R>, rank: R -> nat) {
    forall w, r :: r in step(w) ==> rank(r) < rank(w)
  }

  ghost predicate RanksBelow<R(!new)>(rows: set<R>, rank: R -> nat, bound: nat) {
    forall w :: w in rows ==> rank(w) < bound
  }

  /** The working-table loop, from a given result and working table. */
  function Iterate<R(!new)>(step: R -> set<R>, ghost rank: R -> nat, result: set<R>, working: set<R>,
                            ghost bound: nat): set<R>
    requires Ranked(step, rank)
    requires RanksBelow(working, rank, bound)
    decreases bound
  {
    if working == {} then
      result
    else
      var added := Round(step, working) - result;
      assert bound > 0 by { var w :| w in working; }
      assert RanksBelow(added, rank, bound - 1);
      Iterate(step, rank, result + added, added, bound - 1)
  }

  /** `WITH RECURSIVE q AS (anchor UNION step)`. */
  function WithRecursive<R(!new)>(anchor: set<R>, step: R -> set<R>, ghost rank: R -> nat, ghost bound: nat): set<R>
    requires Ranked(step, rank)
    requires RanksBelow(anchor, rank, bound)
  {
    Iterate(step, rank, anchor, anchor, bound)
  }

  /** The rows reached after exactly `k` rounds when nothing is ever dropped. */
  function Level<R>(anchor: set<R>, step: R -> set<R>, k: nat): set<R> {
    if k == 0 then anchor else Round(step, Level(anchor, step, k - 1))
  }

  ghost predicate AtSomeLevel<R(!new)>(anchor: set<R>, step: R -> set<R>, r: R) {
    exists k: nat :: r in Level(anchor, step, k)
  }

  lemma {:induction false} IterateSound<R(!new)>(anchor: set<R>, step: R -> set<R>, rank: R -> nat, result: set<R>,
                                                 working: set<R>, bound: nat, r: R)
    requires Ranked(step, rank) && RanksBelow(working, rank, bound)
    requires forall q :: q in result + working ==> AtSomeLevel(anchor, step, q)
    requires r in Iterate(step, rank, result, working, bound)
    ensures AtSomeLevel(anchor, step, r)
    decreases bound
  {
    if working != {} {
      var added := Round(step, working) - result;
      assert bound > 0 by { var w :| w in working; }
      forall q | q in added ensures AtSomeLevel(anchor, step, q) {
        var w :| w in working && q in step(w);
        assert w in result + working;
        var k: nat :| w in Level(anchor, step, k);
        assert q in Level(anchor, step, k + 1);
      }
      IterateSound(anchor, step, rank, result + added, added, bound - 1, r);
    }
  }

  /** What the loop returns contains its input and is closed under the recursive term. */
  lemma {:induction false} IterateClosed<R(!new)>(step: R -> set<R>, rank: R -> nat, result: set<R>, working: set<R>,
                                                  bound: nat)
    requires Ranked(step, rank) && RanksBelow(working, rank, bound)
    requires working <= result
    requires Round(step, result - working) <= result
    ensures result <= Iterate(step, rank, result, working, bound)
    ensures Round(step, Iterate(step, rank, result, working, bound)) <= Iterate(step, rank, result, working, bound)
    decreases bound
  {
    if working == {} {
      assert result - working == result;
    } else {
      var added := Round(step, working) - result;
      assert bound > 0 by { var w :| w in working; }
      var result' := result + added;
      forall q | q in Round(step, result' - added) ensures q in result' {
        var w :| w in result' - added && q in step(w);
        if w in working {
          assert q in Round(step, working);
        } else {
          assert q in Round(step, result - working);
        }
      }
      IterateClosed(step, rank, result', added, bound - 1);
    }
  }

  /**
   Dropping rows that are already in the result loses nothing: the query returns exactly
   the rows derivable in some number of rounds.
   */
  lemma WithRecursiveIsAllLevels<R(!new)>(anchor: set<R>, step: R -> set<R>, rank: R -> nat, bound: nat, r: R)
    requires Ranked(step, rank) && RanksBelow(anchor, rank, bound)
    ensures r in WithRecursive(anchor, step, rank, bound) <==> AtSomeLevel(anchor, step, r)
  {
    var all := WithRecursive(anchor, step, rank, bound);
    forall q | q in anchor ensures AtSomeLevel(anchor, step, q) {
      assert q in Level(anchor, step, 0);
    }
    if r in all {
      IterateSound(anchor, step, rank, anchor, anchor, bound, r);
    }
    if AtSomeLevel(anchor, step, r) {
      assert anchor - anchor == {};
      IterateClosed(step, rank, anchor, anchor, bound);
      var k: nat :| r in Level(anchor, step, k);
      LevelInClosed(anchor, step, all, k);
    }
  }

  lemma {:induction false} LevelInClosed<R(!new)>(anchor: set<R>, step: R -> set<R>, all: set<R>, k: nat)
    requires anchor <= all && Round(step, all) <= all
    ensures Level(anchor, step, k) <= all
  {
    if k > 0 {
      LevelInClosed(anchor, step, all, k - 1);
      forall q | q in Level(anchor, step, k) ensures q in all {
        var w :| w in Level(anchor, step, k - 1) && q in step(w);
        assert q in Round(step, all);
      }
    }
  }

  // ---------- ORDER BY key LIMIT n ----------

  ghost predicate Distinct<T(!new)>(s: seq<T>) {
    forall i, j :: 0 <= i < j < |s| ==> s[i] != s[j]
  }

  /**
   `out` is one of the answers `ORDER BY key LIMIT limit` may give: the order among rows
   with equal keys is the database's choice.
   */
  ghost predicate FirstRows<R(!new)>(rows: set<R>, key: R -> int, limit: Option<nat>, out: seq<R>) {
    && Distinct(out)
    && (forall i :: 0 <= i < |out| ==> out[i] in rows)
    && (forall i, j :: 0 <= i < j < |out| ==> key(out[i]) <= key(out[j]))
    && |out| == (if limit.Some? && limit.value < |rows| then limit.value else |rows|)
    && (forall i, r :: 0 <= i < |out| && r in rows && r !in out ==> key(out[i]) <= key(r))
  }

  lemma {:induction false} LeastExists<R(!new)>(rows: set<R>, key: R -> int)
    requires rows != {}
    ensures exists r :: r in rows && forall q :: q in rows ==> key(r) <= key(q)
  {
    var x :| x in rows;
    if rows - {x} == {} {
      assert forall q :: q in rows ==> q == x || q in rows - {x};
      assert forall q :: q in rows ==> key(x) <= key(q);
    } else {
      LeastExists(rows - {x}, key);
      var m :| m in rows - {x} && forall q :: q in rows - {x} ==> key(m) <= key(q);
      var least := if key(x) <= key(m) then x else m;
      assert forall q :: q in rows ==> q == x || q in rows - {x};
      assert least in rows && forall q :: q in rows ==> key(least) <= key(q);
    }
  }

  /** The rows picked so far, least first; `rest` holds the others, none of them below a picked one. */
  ghost predicate Picked<R(!new)>(rows: set<R>, key: R -> int, rest: set<R>, out: seq<R>) {
    && rest <= rows && |out| + |rest| == |rows|
    && Distinct(out)
    && (forall i :: 0 <= i < |out| ==> out[i] in rows && out[i] !in rest)
    && (forall r :: r in rows ==> r in rest || r in out)
    && (forall i, j :: 0 <= i < j < |out| ==> key(out[i]) <= key(out[j]))
    && (forall i, r :: 0 <= i < |out| && r in rest ==> key(out[i]) <= key(r))
  }

  method OrderByLimit<R(!new,==)>(rows: set<R>, key: R -> int, limit: Option<nat>) returns (out: seq<R>)
    ensures FirstRows(rows, key, limit, out)
  {
    out := [];
    var rest := rows;
    while rest != {} && (limit.None? || |out| < limit.value)
      invariant Picked(rows, key, rest, out)
      invariant limit.Some? ==> |out| <= limit.value
      decreases rest
    {
      LeastExists(rest, key);
      var m :| m in rest && forall q :: q in rest ==> key(m) <= key(q);
      out := out + [m];
      rest := rest - {m};
    }
  }

  /** Without a limit every row is returned. */
  lemma UnlimitedReturnsAll<R(!new)>(rows: set<R>, key: R -> int, out: seq<R>)
    requires FirstRows(rows, key, None, out)
    ensures forall r :: r in rows <==> r in out
  {
    var got := set i | 0 <= i < |out| :: out[i];
    DistinctCount(out);
    assert got <= rows;
    assert |got| == |rows|;
    assert |rows - got| == 0;
    assert rows - got == {};
  }

  lemma {:induction false} DistinctCount<T(!new)>(s: seq<T>)
    requires Distinct(s)
    ensures |set i | 0 <= i < |s| :: s[i]| == |s|
  {
    var all := set i | 0 <= i < |s| :: s[i];
    if |s| == 0 {
      assert all == {};
    } else {
      var init := s[..|s| - 1];
      DistinctCount(init);
      var before := set i | 0 <= i < |init| :: init[i];
      assert all == before + {s[|s| - 1]} by {
        forall x | x in all ensures x in before + {s[|s| - 1]} {
          var i :| 0 <= i < |s| && s[i] == x;
          if i < |init| { assert init[i] == x; }
        }
      }
      assert s[|s| - 1] !in before;
    }
  }

  /** A sequence without repetition whose members come from `pool` is no longer than `pool`. */
  lemma DistinctBounded<T(!new)>(s: seq<T>, pool: set<T>)
    requires Distinct(s) && forall i :: 0 <= i < |s| ==> s[i] in pool
    ensures |s| <= |pool|
  {
    var got := set i | 0 <= i < |s| :: s[i];
    DistinctCount(s);
    assert got <= pool;
    assert |pool - got| == |pool| - |got|;
  }
}

/** `ORDER BY first, second LIMIT n`: rows by one key, and by another among equal ones. */
module TwoKeys {
  import opened Options
  import opened Cte

  predicate NotAfter<R>(first: R -> int, second: R -> int, a: R, b: R) {
    first(a) < first(b) || (first(a) == first(b) && second(a) <= second(b))
  }

  /** As `FirstRows`, for an order by two keys. */
  ghost predicate FirstRowsByTwo<R(!new)>(rows: set<R>, first: R -> int, second: R -> int, limit: Option<nat>,
                                          out: seq<R>)
  {
    && Distinct(out)
    && (forall i :: 0 <= i < |out| ==> out[i] in rows)
    && (forall i, j :: 0 <= i < j < |out| ==> NotAfter(first, second, out[i], out[j]))
    && |out| == (if limit.Some? && limit.value < |rows| then limit.value else |rows|)
    && (forall i, r :: 0 <= i < |out| && r in rows && r !in out ==> NotAfter(first, second, out[i], r))
  }

  predicate Before<R>(first: R -> int, second: R -> int, a: R, b: R) {
    !NotAfter(first, second, b, a)
  }

  /** How many rows come strictly before `r`. */
  function RankIn<R(==)>(rows: set<R>, first: R -> int, second: R -> int, r: R): nat {
    |set q | q in rows && Before(first, second, q, r)|
  }

  lemma RankOrders<R(!new)>(rows: set<R>, first: R -> int, second: R -> int, a: R, b: R)
    requires a in rows && b in rows
    ensures RankIn(rows, first, second, a) <= RankIn(rows, first, second, b) <==> NotAfter(first, second, a, b)
  {
    var before := set q | q in rows && Before(first, second, q, a);
    var before' := set q | q in rows && Before(first, second, q, b);
    if NotAfter(first, second, a, b) {
      assert before <= before';
      assert |before' - before| == |before'| - |before|;
    } else {
      assert before' <= before && b in before - before';
      assert |before - before'| == |before| - |before'|;
    }
  }

  method OrderByTwo<R(!new,==)>(rows: set<R>, first: R -> int, second: R -> int, limit: Option<nat>)
    returns (out: seq<R>)
    ensures FirstRowsByTwo(rows, first, second, limit, out)
  {
    var rank := (r: R) => RankIn(rows, first, second, r);
    out := OrderByLimit(rows, rank, limit);
    forall i, j | 0 <= i < j < |out| ensures NotAfter(first, second, out[i], out[j]) {
      assert rank(out[i]) <= rank(out[j]);
      RankOrders(rows, first, second, out[i], out[j]);
    }
    forall i, r | 0 <= i < |out| && r in rows && r !in out ensures NotAfter(first, second, out[i], r) {
      assert rank(out[i]) <= rank(r);
      RankOrders(rows, first, second, out[i], r);
    }
  }

  /** Without a limit every row is returned. */
  lemma UnlimitedByTwo<R(!new)>(rows: set<R>, first: R -> int, second: R -> int, out: seq<R>)
    requires FirstRowsByTwo(rows, first, second, None, out)
    ensures forall r :: r in rows <==> r in out
  {
    UnlimitedReturnsAll(rows, (_: R) => 0, out);
  }
}

/**
 What a run of the wrappers says of a call, read off its actions alone: with which key it was
 made, and how it ends by its own doing.
 */
module CallHistory {
  import opened Options
  import opened SingleFlight

  /** The key with which a call was made. */
  function CalledKey(run: seq<Action>, t: TaskId): Option<Key>
    decreases |run|
  {
    if run == [] then None
    else
      var a, before := run[|run| - 1], run[..|run| - 1];
      match a
      case Call(u, key) => if u == t then Some(key) else CalledKey(before, t)
      case CallNested(_, child, key) => if child == t then Some(key) else CalledKey(before, t)
      case _ => CalledKey(before, t)
  }

  /** What the function of a call returned last. */
  function FunctionValue(run: seq<Action>, t: TaskId): Option<Value>
    decreases |run|
  {
    if run == [] then None
    else
      var a, before := run[|run| - 1], run[..|run| - 1];
      if a.FunctionReturns? && a.task == t then a.result else FunctionValue(before, t)
  }

  /**
   How a call ends by its own actions: with the value read from the cache, with the error of
   the read, of the function or of the store, or with what the function returned; a value of
   the function only after it was stored.
   */
  function OwnEnd(run: seq<Action>, t: TaskId): Option<Outcome>
    decreases |run|
  {
    if run == [] then None
    else
      var a, before := run[|run| - 1], run[..|run| - 1];
      if a.task != t then OwnEnd(before, t)
      else
        match a
        case ReadHits(_, v) => Some(Returned(Some(v)))
        case ReadFails(_, e) => Some(Raised(e))
        case FunctionRaises(_, e) => Some(Raised(e))
        case StoreFails(_, e) => Some(Raised(e))
        case FunctionReturns(_, v) => if v.None? then Some(Returned(None)) else None
        case StoreEnds(_) => Some(Returned(FunctionValue(before, t)))
        case _ => None
  }

  /** Whether a call was cancelled while it waited. */
  ghost predicate WasCancelled(run: seq<Action>, t: TaskId) {
    CancelWaiter(t) in run
  }

  /** Task `t` of the state is as the run says. */
  ghost predicate AsTold(run: seq<Action>, s: State, t: TaskId) {
    && (t in s.tasks <==> CalledKey(run, t).Some?)
    && (t in s.cancelled <==> WasCancelled(run, t))
    && (t !in s.tasks ==> OwnEnd(run, t) == None)
    && (t in s.tasks ==>
          match s.tasks[t]
          case Finished(o, None) => OwnEnd(run, t) == Some(o)
          case Finished(_, Some(f)) =>
            OwnEnd(run, t) == None && f < |s.futures| && CalledKey(run, t) == Some(s.futures[f].key)
          case Storing(key, _, v) =>
            OwnEnd(run, t) == None && FunctionValue(run, t) == Some(v) && CalledKey(run, t) == Some(key)
          case other => OwnEnd(run, t) == None && CalledKey(run, t) == Some(other.key))
  }

  ghost predicate FutureAsTold(run: seq<Action>, s: State, i: FutureId) {
    i < |s.futures| ==> CalledKey(run, s.futures[i].owner) == Some(s.futures[i].key)
  }

  lemma {:induction false} LastStep(s: State, run: seq<Action>, s': State) returns (before: State)
    requires run != [] && Steps(s, run, s')
    ensures Steps(s, run[..|run| - 1], before)
    ensures Enabled(before, run[|run| - 1]) && s' == Next(before, run[|run| - 1])
    decreases |run|
  {
    if |run| == 1 {
      before := s;
      assert run[1..] == [];
    } else {
      before := LastStep(Next(s, run[0]), run[1..], s');
      assert run[..|run| - 1][1..] == run[1..][..|run| - 2];
    }
  }

  lemma {:induction false} RunTellsAll(run: seq<Action>, s: State)
    requires Steps(Initial(), run, s)
    ensures forall t :: AsTold(run, s, t)
    ensures forall i :: FutureAsTold(run, s, i)
    decreases |run|
  {
    if run != [] {
      var a, told := run[|run| - 1], run[..|run| - 1];
      var before := LastStep(Initial(), run, s);
      RunTellsAll(told, before);
      StepsKeepInv(Initial(), told, before);
      assert run == told + [a];
      forall t ensures AsTold(run, s, t) {
        StepTells(told, before, a, t);
      }
      forall i: nat ensures FutureAsTold(run, s, i) {
        FutureStepTells(told, before, a, i);
      }
    }
  }

  /** An action of another task, which is not the call of this one, tells nothing about it. */
  lemma OthersTellNothing(told: seq<Action>, s: State, a: Action, t: TaskId)
    requires Inv(s) && Enabled(s, a) && AsTold(told, s, t) && a.task != t && !(a.CallNested? && a.child == t)
    ensures AsTold(told + [a], Next(s, a), t)
  {
    var run := told + [a];
    assert run[|run| - 1] == a && run[..|run| - 1] == told;
    assert TaskOk(s, a.task) && TaskOk(s, t);
    assert WasCancelled(run, t) <==> WasCancelled(told, t);
    assert CalledKey(run, t) == CalledKey(told, t) && OwnEnd(run, t) == OwnEnd(told, t)
      && FunctionValue(run, t) == FunctionValue(told, t);
  }

  lemma StepTells(told: seq<Action>, s: State, a: Action, t: TaskId)
    requires Inv(s) && Enabled(s, a) && AsTold(told, s, t) && AsTold(told, s, a.task)
    ensures AsTold(told + [a], Next(s, a), t)
  {
    var run := told + [a];
    assert run[|run| - 1] == a && run[..|run| - 1] == told;
    if a.task != t && !(a.CallNested? && a.child == t) {
      OthersTellNothing(told, s, a, t);
    } else {
      assert TaskOk(s, t) && CancelOk(s, t);
      assert WasCancelled(run, t) <==> WasCancelled(told, t) || a == CancelWaiter(t);
    }
  }

  lemma FutureStepTells(told: seq<Action>, s: State, a: Action, i: FutureId)
    requires Inv(s) && Enabled(s, a) && AsTold(told, s, a.task) && FutureAsTold(told, s, i)
    requires forall t :: AsTold(told, s, t)
    ensures FutureAsTold(told + [a], Next(s, a), i)
  {
    var run := told + [a];
    assert run[|run| - 1] == a && run[..|run| - 1] == told;
    assert TaskOk(s, a.task) && FutureOk(s, i);
  }

  // ---------- what a caller gets ----------

  /** A call has ended without waiting for another one iff its own actions ended it, and then as they say. */
  lemma EndsAsItsActionsSay(run: seq<Action>, s: State, t: TaskId, o: Outcome)
    requires Steps(Initial(), run, s)
    ensures t in s.tasks && s.tasks[t] == Finished(o, None) <==> OwnEnd(run, t) == Some(o)
  {
    RunTellsAll(run, s);
    assert AsTold(run, s, t);
  }

  /**
   A call that waited, and whose future no cancelled call had waited for, ends as the actions
   of another call with the same key ended that one.
   */
  lemma WaiterGetsFunctionsOutcome(run: seq<Action>, s: State, t: TaskId, o: Outcome, f: FutureId)
    requires Steps(Initial(), run, s) && t in s.tasks && s.tasks[t] == Finished(o, Some(f))
    requires WaitersUncancelled(s, f)
    ensures f < |s.futures|
    ensures var owner := s.futures[f].owner;
      owner != t && OwnEnd(run, owner) == Some(o) && CalledKey(run, owner) == CalledKey(run, t) != None
  {
    RunTellsAll(run, s);
    WaiterGetsOwnersOutcome(s, t, o, f);
    ReachableInv(s);
    assert AsTold(run, s, t) && TaskOk(s, t) && FutureAsTold(run, s, f) && AsTold(run, s, s.futures[f].owner);
  }

  /** A waiting call that was cancelled ends with the cancellation. */
  lemma CancelledWaiterEndsCancelled(run: seq<Action>, s: State, t: TaskId)
    requires Steps(Initial(), run, s) && WasCancelled(run, t) && t in s.tasks && s.tasks[t].Finished?
    ensures s.tasks[t].outcome == Raised(CancelledError) && s.tasks[t].via.Some?
  {
    RunTellsAll(run, s);
    ReachableInv(s);
    assert AsTold(run, s, t) && CancelOk(s, t);
  }

  /** Who runs the function of a key was called with that key, and so was everyone who waits for it. */
  lemma KeysAreAsCalled(run: seq<Action>, s: State, t: TaskId)
    requires Steps(Initial(), run, s) && t in s.tasks && !s.tasks[t].Finished?
    ensures CalledKey(run, t) == Some(s.tasks[t].key)
  {
    RunTellsAll(run, s);
    assert AsTold(run, s, t);
  }

  // ---------- every end is possible ----------

  /** An unblocked owner whose function has not returned can still end in every way. */
  lemma OwnerCanEndAnyWay(s: State, t: TaskId, o: Outcome) returns (run: seq<Action>, s': State)
    requires Reachable(s) && t in s.tasks && s.tasks[t].Executing? && Blocker(s, t).None?
    ensures Steps(s, run, s') && IsInternalRun(run) && t in s'.tasks && s'.tasks[t] == Finished(o, None)
  {
    ReachableInv(s);
    assert TaskOk(s, t);
    match o
    case Raised(e) =>
      run, s' := [FunctionRaises(t, e)], Next(s, FunctionRaises(t, e));
    case Returned(None) =>
      run, s' := [FunctionReturns(t, None)], Next(s, FunctionReturns(t, None));
    case Returned(Some(v)) =>
      var mid := Next(s, FunctionReturns(t, Some(v)));
      run, s' := [FunctionReturns(t, Some(v)), StoreEnds(t)], Next(mid, StoreEnds(t));
      assert Steps(s', [], s') && run[1..] == [StoreEnds(t)] && run[1..][1..] == [];
      assert Steps(mid, run[1..], s');
  }

  /** A call that reads the cache can end with any value found there, or with any error. */
  lemma ReaderCanEnd(s: State, t: TaskId, o: Outcome) returns (s': State)
    requires t in s.tasks && s.tasks[t].Reading? && o != Returned(None)
    ensures exists a :: IsInternal(a) && Enabled(s, a) && s' == Next(s, a)
    ensures t in s'.tasks && s'.tasks[t] == Finished(o, None) && s'.claims == s.claims && s'.futures == s.futures
  {
    var a := match o case Raised(e) => ReadFails(t, e) case Returned(v) => ReadHits(t, v.value);
    assert IsInternal(a) && Enabled(s, a);
    s' := Next(s, a);
  }

  /** A call that stores its result can end with it, or with any error of the store. */
  lemma StorerCanEnd(s: State, t: TaskId, o: Outcome) returns (s': State)
    requires Reachable(s) && t in s.tasks && s.tasks[t].Storing?
    requires o.Raised? || o == Returned(Some(s.tasks[t].value))
    ensures exists a :: IsInternal(a) && Enabled(s, a) && s' == Next(s, a)
    ensures t in s'.tasks && s'.tasks[t] == Finished(o, None)
  {
    ReachableInv(s);
    assert TaskOk(s, t);
    var a := match o case Raised(e) => StoreFails(t, e) case Returned(_) => StoreEnds(t);
    assert IsInternal(a) && Enabled(s, a);
    s' := Next(s, a);
  }

  /** A waiting call can be cancelled at any time, and then ends cancelled without delay. */
  lemma WaiterCanBeCancelled(s: State, t: TaskId)
    requires Reachable(s) && t in s.tasks && s.tasks[t].Waiting?
    ensures Enabled(s, CancelWaiter(t)) && Enabled(Next(s, CancelWaiter(t)), Resume(t))
    ensures Next(Next(s, CancelWaiter(t)), Resume(t)).tasks[t]
         == Finished(Raised(CancelledError), Some(s.tasks[t].future))
  {
    ReachableInv(s);
    assert TaskOk(s, t);
  }

  /** New calls are always possible, nested ones wherever a function runs unblocked. */
  lemma CallsArePossible(s: State, t: TaskId, child: TaskId, key: Key)
    requires Reachable(s) && child !in s.tasks
    ensures Enabled(s, Call(child, key)) && Next(s, Call(child, key)).tasks[child] == Reading(key)
    ensures t in s.tasks && s.tasks[t].Executing? && Blocker(s, t).None? ==>
      Enabled(s, CallNested(t, child, key))
        && Next(s, CallNested(t, child, key)).tasks[child] == Reading(key)
        && Blocker(Next(s, CallNested(t, child, key)), t) == Some(child)
  {
    ReachableInv(s);
    assert TaskOk(s, t);
  }
}

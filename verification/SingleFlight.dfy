/**
 The single-flight protocol of the `cached` and `cached_method` wrappers: the map of
 claims, and the transition system of tasks that read the cache, claim, execute, settle
 and release. Tasks interleave only where the wrapper awaits.
 */
module SingleFlight {
  import Cte
  import opened Options

  type Key = string
  type Value = int

  datatype Error = CancelledError | OtherError(code: int)

  /** How a wrapper call ends; `Returned(None)` is the Python `None`, which is not stored. */
  datatype Outcome = Returned(value: Option<Value>) | Raised(error: Error)

  datatype FutureState = Pending | Settled(outcome: Outcome) | Cancelled

  predicate Done(f: FutureState) {
    !f.Pending?
  }

  /** `if not future.done(): future.set_result / set_exception`. */
  function Settle(f: FutureState, o: Outcome): FutureState {
    if Done(f) then f else Settled(o)
  }

  /** What awaiting a done future gives. */
  function Awaited(f: FutureState): Outcome
    requires Done(f)
  {
    match f
    case Settled(o) => o
    case Cancelled => Raised(CancelledError)
  }

  // ---------- the map of claims ----------

  function ClaimIn<F>(futures: map<Key, F>, key: Key, created: F): map<Key, F> {
    if key in futures then futures else futures[key := created]
  }

  function ReleaseIn<F(==)>(futures: map<Key, F>, key: Key, future: F): map<Key, F> {
    if key in futures && futures[key] == future then futures - {key} else futures
  }

  class FutureCell {
    var state: FutureState

    constructor ()
      ensures state == Pending
    {
      state := Pending;
    }

    /** Settling is guarded, so a second settlement, or one after a cancellation, is void. */
    method SettleOnce(o: Outcome)
      modifies this
      ensures state == Settle(old(state), o)
      ensures state == if old(state) == Pending then Settled(o) else old(state)
    {
      if !Done(state) {
        state := Settled(o);
      }
    }
  }

  class Flights {
    var futures: map<Key, FutureCell>

    constructor ()
      ensures futures == map[]
    {
      futures := map[];
    }

    /** The first caller for a key wins and owns a new pending future; later ones share it. */
    method Claim(key: Key) returns (claimed: bool, future: FutureCell)
      modifies this
      ensures claimed <==> key !in old(futures)
      ensures claimed ==> fresh(future) && future.state == Pending
      ensures key in futures && futures[key] == future
      ensures futures == ClaimIn(old(futures), key, future)
      ensures futures - {key} == old(futures) - {key}
      ensures !claimed ==> future == old(futures)[key] && futures == old(futures)
    {
      if key in futures {
        return false, futures[key];
      }
      future := new FutureCell();
      futures := futures[key := future];
      claimed := true;
    }

    /** Removes the claim only if it is still this future's. */
    method Release(key: Key, future: FutureCell)
      modifies this
      ensures futures == ReleaseIn(old(futures), key, future)
      ensures futures - {key} == old(futures) - {key}
      ensures key in futures <==> key in old(futures) && old(futures)[key] != future
      ensures key in futures ==> futures[key] == old(futures)[key]
    {
      if key in futures && futures[key] == future {
        futures := futures - {key};
      }
    }

    /** The owner's way out of the wrapper, on return and on error alike. */
    method Finish(key: Key, future: FutureCell, o: Outcome)
      modifies this, future
      ensures future.state == Settle(old(future.state), o)
      ensures futures == ReleaseIn(old(futures), key, future)
      ensures future.state == if old(future.state) == Pending then Settled(o) else old(future.state)
      ensures futures - {key} == old(futures) - {key}
      ensures key in futures <==> key in old(futures) && old(futures)[key] != future
    {
      future.SettleOnce(o);
      Release(key, future);
    }
  }

  // ---------- the protocol ----------

  type TaskId = nat
  type FutureId = nat

  /** Where a wrapper call is suspended. */
  datatype Task =
    | Reading(key: Key)                                 // awaits backend.get
    | Waiting(key: Key, future: FutureId)               // awaits the shared future
    // owner, runs the function, which may await a wrapper call of its own
    | Executing(key: Key, future: FutureId, awaits: Option<TaskId>)
    | Storing(key: Key, future: FutureId, value: Value) // owner, awaits backend.set
    | Finished(outcome: Outcome, via: Option<FutureId>) // via: the future it waited for

  /** A future with its key and the owner it was created for. */
  datatype Future = Future(key: Key, owner: TaskId, state: FutureState)

  /** `cancelled` remembers which waiting tasks were cancelled, and on which future. */
  datatype State = State(
    claims: map<Key, FutureId>,
    futures: seq<Future>,
    tasks: map<TaskId, Task>,
    cancelled: map<TaskId, FutureId>)

  function Initial(): State {
    State(map[], [], map[], map[])
  }

  datatype Action =
    | Call(task: TaskId, key: Key)
    | CallNested(task: TaskId, child: TaskId, key: Key) // the function of `task` awaits another call
    | ReadHits(task: TaskId, value: Value)
    | ReadMisses(task: TaskId)                   // no value, or a suppressed CacheError
    | ReadFails(task: TaskId, error: Error)      // any other error, cancellation included
    | FunctionReturns(task: TaskId, result: Option<Value>)
    | FunctionRaises(task: TaskId, error: Error)
    | StoreEnds(task: TaskId)                    // stored, or a suppressed CacheError
    | StoreFails(task: TaskId, error: Error)
    | Resume(task: TaskId)
    | CancelWaiter(task: TaskId)

  predicate IsOwner(t: Task) {
    t.Executing? || t.Storing?
  }

  /** The call that the function awaits, if any, has ended. */
  predicate NestedEnded(s: State, t: Task)
    requires t.Executing?
  {
    t.awaits.Some? ==> t.awaits.value in s.tasks && s.tasks[t.awaits.value].Finished?
  }

  predicate Enabled(s: State, a: Action) {
    if a.Call? then a.task !in s.tasks
    else
      && a.task in s.tasks
      && match a
         case ReadHits(_, _) => s.tasks[a.task].Reading?
         case ReadMisses(_) => s.tasks[a.task].Reading?
         case ReadFails(_, _) => s.tasks[a.task].Reading?
         case CallNested(_, child, _) =>
           s.tasks[a.task].Executing? && NestedEnded(s, s.tasks[a.task]) && child !in s.tasks
         case FunctionReturns(_, _) =>
           s.tasks[a.task].Executing? && NestedEnded(s, s.tasks[a.task]) && s.tasks[a.task].future < |s.futures|
         case FunctionRaises(_, _) =>
           s.tasks[a.task].Executing? && NestedEnded(s, s.tasks[a.task]) && s.tasks[a.task].future < |s.futures|
         case StoreEnds(_) => s.tasks[a.task].Storing? && s.tasks[a.task].future < |s.futures|
         case StoreFails(_, _) => s.tasks[a.task].Storing? && s.tasks[a.task].future < |s.futures|
         case Resume(_) =>
           s.tasks[a.task].Waiting? && s.tasks[a.task].future < |s.futures|
             && Done(s.futures[s.tasks[a.task].future].state)
         case CancelWaiter(_) => s.tasks[a.task].Waiting? && s.tasks[a.task].future < |s.futures|
  }

  function WithTask(s: State, t: TaskId, task: Task): State {
    s.(tasks := s.tasks[t := task])
  }

  function WithFuture(s: State, f: FutureId, st: FutureState): State
    requires f < |s.futures|
  {
    s.(futures := s.futures[f := s.futures[f].(state := st)])
  }

  /** Claiming after a miss: own a new future, or wait for the one in the map. */
  function Claimed(s: State, t: TaskId, key: Key): State {
    var created := |s.futures|;
    var claims := ClaimIn(s.claims, key, created);
    if key in s.claims then
      WithTask(s, t, Waiting(key, claims[key]))
    else
      WithTask(s, t, Executing(key, created, None)).(claims := claims, futures := s.futures + [Future(key, t, Pending)])
  }

  /** Settle the future unless it is done, release the claim, leave the wrapper. */
  function Exit(s: State, t: TaskId, key: Key, f: FutureId, o: Outcome): State
    requires f < |s.futures|
  {
    WithTask(WithFuture(s, f, Settle(s.futures[f].state, o)), t,
        Finished(o, None)).(claims := ReleaseIn(s.claims, key, f))
  }

  function Next(s: State, a: Action): State
    requires Enabled(s, a)
  {
    match a
    case Call(t, key) => WithTask(s, t, Reading(key))
    case CallNested(t, child, key) =>
      WithTask(WithTask(s, t, Executing(s.tasks[t].key, s.tasks[t].future, Some(child))), child, Reading(key))
    case ReadHits(t, v) => WithTask(s, t, Finished(Returned(Some(v)), None))
    case ReadMisses(t) => Claimed(s, t, s.tasks[t].key)
    case ReadFails(t, e) => WithTask(s, t, Finished(Raised(e), None))
    case FunctionReturns(t, v) =>
      if v.Some? then WithTask(s, t, Storing(s.tasks[t].key, s.tasks[t].future, v.value))
      else Exit(s, t, s.tasks[t].key, s.tasks[t].future, Returned(None))
    case FunctionRaises(t, e) => Exit(s, t, s.tasks[t].key, s.tasks[t].future, Raised(e))
    case StoreEnds(t) => Exit(s, t, s.tasks[t].key, s.tasks[t].future, Returned(Some(s.tasks[t].value)))
    case StoreFails(t, e) => Exit(s, t, s.tasks[t].key, s.tasks[t].future, Raised(e))
    case Resume(t) =>
      // A cancelled waiter receives its cancellation, whatever the future holds.
      var o := if t in s.cancelled then Raised(CancelledError) else Awaited(s.futures[s.tasks[t].future].state);
      WithTask(s, t, Finished(o, Some(s.tasks[t].future)))
    case CancelWaiter(t) =>
      // Cancelling a task cancels the future it awaits, unless that is already done.
      var f := s.tasks[t].future;
      var marked := s.(cancelled := s.cancelled[t := f]);
      if Done(s.futures[f].state) then marked else WithFuture(marked, f, Cancelled)
  }

  /** The enabled actions `run`, one after the other, lead from `s` to `s'`. */
  ghost predicate Steps(s: State, run: seq<Action>, s': State)
    decreases |run|
  {
    if run == [] then s == s' else Enabled(s, run[0]) && Steps(Next(s, run[0]), run[1..], s')
  }

  ghost predicate Reachable(s: State) {
    exists run :: Steps(Initial(), run, s)
  }

  // ---------- the invariant ----------

  ghost predicate TaskOk(s: State, t: TaskId) {
    t in s.tasks ==>
      match s.tasks[t]
      case Reading(_) => true
      case Waiting(k, f) => f < |s.futures| && s.futures[f].key == k && s.futures[f].owner != t
      case Finished(o, None) => true
      case Finished(o, Some(f)) =>
        && f < |s.futures| && Done(s.futures[f].state) && s.futures[f].owner != t
        && (t !in s.cancelled ==> o == Awaited(s.futures[f].state))
      case owner => // Executing or Storing
        && owner.future < |s.futures|
        && s.futures[owner.future].key == owner.key && s.futures[owner.future].owner == t
        && owner.key in s.claims && s.claims[owner.key] == owner.future
        && !s.futures[owner.future].state.Settled?
  }

  ghost predicate ClaimOk(s: State, k: Key) {
    k in s.claims ==>
      && s.claims[k] < |s.futures|
      && var f := s.futures[s.claims[k]];
         f.key == k && f.owner in s.tasks && IsOwner(s.tasks[f.owner]) && s.tasks[f.owner].future == s.claims[k]
  }

  ghost predicate FutureOk(s: State, i: FutureId) {
    i < |s.futures| ==>
      var f := s.futures[i];
      && f.owner in s.tasks
      && match f.state
         case Pending => IsOwner(s.tasks[f.owner]) && s.tasks[f.owner].future == i
         case Settled(o) => s.tasks[f.owner] == Finished(o, None)
         case Cancelled => exists t :: t in s.cancelled && s.cancelled[t] == i
  }

  ghost predicate CancelOk(s: State, t: TaskId) {
    t in s.cancelled ==>
      && s.cancelled[t] < |s.futures| && t in s.tasks
      && (s.tasks[t].Waiting? ==> s.tasks[t].future == s.cancelled[t])
      && (s.tasks[t].Waiting? || s.tasks[t] == Finished(Raised(CancelledError), Some(s.cancelled[t])))
      && Done(s.futures[s.cancelled[t]].state)
  }

  ghost predicate Inv(s: State) {
    && (forall t :: TaskOk(s, t))
    && (forall k :: ClaimOk(s, k))
    && (forall i :: FutureOk(s, i))
    && (forall t :: CancelOk(s, t))
  }

  lemma ClaimKeepsInv(s: State, t: TaskId)
    requires Inv(s) && Enabled(s, ReadMisses(t))
    ensures Inv(Next(s, ReadMisses(t)))
  {
    var s' := Next(s, ReadMisses(t));
    var k := s.tasks[t].key;
    assert TaskOk(s, t) && CancelOk(s, t) && ClaimOk(s, k);
    forall u ensures TaskOk(s', u) { assert TaskOk(s, u); }
    forall j ensures ClaimOk(s', j) { assert ClaimOk(s, j); }
    forall i: nat ensures FutureOk(s', i) { assert FutureOk(s, i); }
    forall u ensures CancelOk(s', u) { assert CancelOk(s, u); }
  }

  lemma ExitKeepsInv(s: State, t: TaskId, o: Outcome)
    requires Inv(s) && t in s.tasks && IsOwner(s.tasks[t]) && s.tasks[t].future < |s.futures|
    ensures Inv(Exit(s, t, s.tasks[t].key, s.tasks[t].future, o))
  {
    var f, k := s.tasks[t].future, s.tasks[t].key;
    var s' := Exit(s, t, k, f, o);
    assert TaskOk(s, t) && FutureOk(s, f) && ClaimOk(s, k) && CancelOk(s, t);
    forall u ensures TaskOk(s', u) { assert TaskOk(s, u); }
    forall j ensures ClaimOk(s', j) { assert ClaimOk(s, j); }
    forall i: nat ensures FutureOk(s', i) {
      assert FutureOk(s, i);
      if i < |s.futures| && s.futures[i].state.Cancelled? {
        var u :| u in s.cancelled && s.cancelled[u] == i;
        assert u in s'.cancelled && s'.cancelled[u] == i;
      }
    }
    forall u ensures CancelOk(s', u) { assert CancelOk(s, u); }
  }

  /** Moving one task that is no owner, or an owner to its next await, disturbs nobody else. */
  lemma MoveKeepsInv(s: State, t: TaskId, task: Task)
    requires Inv(s)
    requires t in s.tasks ==>
      !s.tasks[t].Finished?
        && (IsOwner(s.tasks[t]) ==> IsOwner(task) && task.key == s.tasks[t].key && task.future == s.tasks[t].future)
    requires TaskOk(WithTask(s, t, task), t) && CancelOk(WithTask(s, t, task), t)
    ensures Inv(WithTask(s, t, task))
  {
    var s' := WithTask(s, t, task);
    assert TaskOk(s, t);
    forall u ensures TaskOk(s', u) { assert TaskOk(s, u); }
    forall j ensures ClaimOk(s', j) { assert ClaimOk(s, j); }
    forall i: nat ensures FutureOk(s', i) {
      assert FutureOk(s, i);
      if i < |s.futures| && s.futures[i].state.Cancelled? {
        var u :| u in s.cancelled && s.cancelled[u] == i;
        assert u in s'.cancelled && s'.cancelled[u] == i;
      }
    }
    forall u ensures CancelOk(s', u) { assert CancelOk(s, u); }
  }

  lemma CancelKeepsInv(s: State, t: TaskId)
    requires Inv(s) && Enabled(s, CancelWaiter(t))
    ensures Inv(Next(s, CancelWaiter(t)))
  {
    var s' := Next(s, CancelWaiter(t));
    var f := s.tasks[t].future;
    assert TaskOk(s, t) && CancelOk(s, t) && FutureOk(s, f);
    forall u ensures TaskOk(s', u) {
      assert TaskOk(s, u);
    }
    forall j ensures ClaimOk(s', j) { assert ClaimOk(s, j); }
    forall i: nat ensures FutureOk(s', i) {
      assert FutureOk(s, i);
      assert t in s'.cancelled && s'.cancelled[t] == f;
      if i < |s.futures| && s.futures[i].state.Cancelled? {
        var u :| u in s.cancelled && s.cancelled[u] == i;
        assert u in s'.cancelled && s'.cancelled[u] == i;
      }
    }
    forall u ensures CancelOk(s', u) { assert CancelOk(s, u); }
  }

  lemma NextKeepsInv(s: State, a: Action)
    requires Inv(s) && Enabled(s, a)
    ensures Inv(Next(s, a))
  {
    var t := a.task;
    assert TaskOk(s, t) && CancelOk(s, t);
    match a
    case Call(_, key) => MoveKeepsInv(s, t, Reading(key));
    case CallNested(_, child, key) =>
      var mine := Executing(s.tasks[t].key, s.tasks[t].future, Some(child));
      MoveKeepsInv(s, t, mine);
      assert CancelOk(s, child);
      MoveKeepsInv(WithTask(s, t, mine), child, Reading(key));
    case ReadHits(_, v) => MoveKeepsInv(s, t, Finished(Returned(Some(v)), None));
    case ReadMisses(_) => ClaimKeepsInv(s, t);
    case ReadFails(_, e) => MoveKeepsInv(s, t, Finished(Raised(e), None));
    case FunctionReturns(_, v) =>
      if v.Some? {
        MoveKeepsInv(s, t, Storing(s.tasks[t].key, s.tasks[t].future, v.value));
      } else {
        ExitKeepsInv(s, t, Returned(None));
      }
    case FunctionRaises(_, e) => ExitKeepsInv(s, t, Raised(e));
    case StoreEnds(_) => ExitKeepsInv(s, t, Returned(Some(s.tasks[t].value)));
    case StoreFails(_, e) => ExitKeepsInv(s, t, Raised(e));
    case Resume(_) =>
      var o := if t in s.cancelled then Raised(CancelledError) else Awaited(s.futures[s.tasks[t].future].state);
      MoveKeepsInv(s, t, Finished(o, Some(s.tasks[t].future)));
    case CancelWaiter(_) => CancelKeepsInv(s, t);
  }

  lemma {:induction false} StepsKeepInv(s: State, run: seq<Action>, s': State)
    requires Inv(s) && Steps(s, run, s')
    ensures Inv(s')
    decreases |run|
  {
    if run != [] {
      NextKeepsInv(s, run[0]);
      StepsKeepInv(Next(s, run[0]), run[1..], s');
    }
  }

  lemma ReachableInv(s: State)
    requires Reachable(s)
    ensures Inv(s)
  {
    var run :| Steps(Initial(), run, s);
    StepsKeepInv(Initial(), run, s);
  }

  // ---------- what holds in every reachable interleaving ----------

  /** At most one task per key is past its claim and not yet out of the wrapper. */
  lemma OneOwnerPerKey(s: State, t: TaskId, u: TaskId)
    requires Reachable(s) && t in s.tasks && u in s.tasks
    requires IsOwner(s.tasks[t]) && IsOwner(s.tasks[u]) && s.tasks[t].key == s.tasks[u].key
    ensures t == u
  {
    ReachableInv(s);
    assert TaskOk(s, t) && TaskOk(s, u);
  }

  /** The map holds a key iff an owner of that key is running, and then it holds its future. */
  lemma ClaimIsRunningOwner(s: State, k: Key, f: FutureId)
    requires Reachable(s)
    ensures k in s.claims && s.claims[k] == f
       <==> exists t :: t in s.tasks && IsOwner(s.tasks[t]) && s.tasks[t].key == k && s.tasks[t].future == f
  {
    ReachableInv(s);
    if k in s.claims && s.claims[k] == f {
      assert ClaimOk(s, k);
      assert TaskOk(s, s.futures[f].owner);
    }
    if t :| t in s.tasks && IsOwner(s.tasks[t]) && s.tasks[t].key == k && s.tasks[t].future == f {
      assert TaskOk(s, t);
    }
  }

  /** A future is settled at most once: whatever runs afterwards, a done future stays as it is. */
  lemma {:induction false} SettledAtMostOnce(s: State, run: seq<Action>, s': State, f: FutureId)
    requires Steps(s, run, s') && f < |s.futures| && Done(s.futures[f].state)
    ensures f < |s'.futures| && s'.futures[f] == s.futures[f]
    decreases |run|
  {
    if run != [] {
      SettledAtMostOnce(Next(s, run[0]), run[1..], s', f);
    }
  }

  /** An unfinished wait is never stuck: its future is done, or its owner is still running. */
  lemma NoWaiterLeftBehind(s: State, t: TaskId)
    requires Reachable(s) && t in s.tasks && s.tasks[t].Waiting?
    ensures s.tasks[t].future < |s.futures|
    ensures var f := s.futures[s.tasks[t].future];
      f.key == s.tasks[t].key && f.owner in s.tasks
      && (Enabled(s, Resume(t)) || (IsOwner(s.tasks[f.owner]) && s.tasks[f.owner].future == s.tasks[t].future))
  {
    ReachableInv(s);
    assert TaskOk(s, t) && FutureOk(s, s.tasks[t].future);
  }

  /**
   Whichever way the owner leaves, every task waiting on its future can go on, and an
   uncancelled one then ends as the owner did, unless the future had been cancelled.
   */
  lemma OwnerExitWakesWaiters(s: State, a: Action, t: TaskId)
    requires Reachable(s) && Enabled(s, a) && a.task in s.tasks && IsOwner(s.tasks[a.task])
    requires Next(s, a).tasks[a.task].Finished?
    requires t in s.tasks && s.tasks[t].Waiting? && s.tasks[t].future == s.tasks[a.task].future
    ensures Enabled(Next(s, a), Resume(t))
    ensures var o := Next(s, a).tasks[a.task].outcome;
      t !in s.cancelled && s.futures[s.tasks[t].future].state.Pending? ==>
        Next(Next(s, a), Resume(t)).tasks[t] == Finished(o, Some(s.tasks[t].future))
  {
    ReachableInv(s);
    assert TaskOk(s, t) && TaskOk(s, a.task);
  }

  /** No waiter of future `f` has been cancelled. */
  ghost predicate WaitersUncancelled(s: State, f: FutureId) {
    forall t :: t in s.cancelled ==> s.cancelled[t] != f
  }

  /** Without waiter cancellation a waiter ends exactly as the owner of its future ended. */
  lemma WaiterGetsOwnersOutcome(s: State, t: TaskId, o: Outcome, f: FutureId)
    requires Reachable(s) && t in s.tasks && s.tasks[t] == Finished(o, Some(f))
    requires WaitersUncancelled(s, f)
    ensures f < |s.futures| && s.futures[f].owner in s.tasks && s.tasks[s.futures[f].owner] == Finished(o, None)
  {
    ReachableInv(s);
    assert TaskOk(s, t) && FutureOk(s, f) && CancelOk(s, t);
  }

  /**
   With cancellation allowed: an uncancelled waiter ends as the owner of its future iff the
   future was settled or the owner itself ends with a cancellation; otherwise the waiter ends
   with a cancellation that another waiter caused. A cancelled waiter ends cancelled.
   */
  lemma WaiterOutcomeInGeneral(s: State, t: TaskId, o: Outcome, f: FutureId)
    requires Reachable(s) && t in s.tasks && s.tasks[t] == Finished(o, Some(f))
    ensures f < |s.futures| && s.futures[f].owner in s.tasks
    ensures var owner := s.tasks[s.futures[f].owner]; t !in s.cancelled && owner.Finished? ==>
      (owner.outcome == o <==> s.futures[f].state.Settled? || owner.outcome == Raised(CancelledError))
    ensures t !in s.cancelled && s.futures[f].state.Settled? ==> s.tasks[s.futures[f].owner] == Finished(o, None)
    ensures t !in s.cancelled && !s.futures[f].state.Settled? ==>
      o == Raised(CancelledError) && !WaitersUncancelled(s, f)
    ensures t in s.cancelled ==> o == Raised(CancelledError)
  {
    ReachableInv(s);
    assert TaskOk(s, t) && FutureOk(s, f) && CancelOk(s, t);
  }

  // ---------- progress ----------

  ghost predicate AllFinished(s: State) {
    forall t :: t in s.tasks ==> s.tasks[t].Finished?
  }

  /** What a task still has to do at most, in steps of its own. */
  function Remaining(t: Task): nat {
    match t
    case Reading(_) => 3
    case Executing(_, _, _) => 2
    case Storing(_, _, _) => 1
    case Waiting(_, _) => 1
    case Finished(_, _) => 0
  }

  function WithAtLeast(s: State, k: nat): set<TaskId> {
    set t | t in s.tasks && Remaining(s.tasks[t]) >= k
  }

  /** The steps that all tasks together still have to do at most. */
  function Work(s: State): nat {
    |WithAtLeast(s, 1)| + |WithAtLeast(s, 2)| + |WithAtLeast(s, 3)|
  }

  /** Neither a new call, nested or not, nor a cancellation from outside. */
  predicate IsInternal(a: Action) {
    !a.Call? && !a.CallNested? && !a.CancelWaiter?
  }

  ghost predicate IsInternalRun(run: seq<Action>) {
    forall i :: 0 <= i < |run| ==> IsInternal(run[i])
  }

  lemma SmallerOrSame(a: set<TaskId>, b: set<TaskId>)
    requires a <= b
    ensures |a| <= |b| && (a != b ==> |a| < |b|)
  {
    assert |b - a| == |b| - |a|;
    if a != b {
      assert b - a != {};
    }
  }

  lemma StepReducesWork(s: State, a: Action)
    requires Enabled(s, a) && IsInternal(a)
    ensures Work(Next(s, a)) < Work(s)
  {
    var s' := Next(s, a);
    forall k: nat ensures WithAtLeast(s', k) <= WithAtLeast(s, k) {
      forall t | t in WithAtLeast(s', k) ensures t in WithAtLeast(s, k) {
      }
    }
    SmallerOrSame(WithAtLeast(s', 1), WithAtLeast(s, 1));
    SmallerOrSame(WithAtLeast(s', 2), WithAtLeast(s, 2));
    SmallerOrSame(WithAtLeast(s', 3), WithAtLeast(s, 3));
    var k := Remaining(s.tasks[a.task]);
    assert a.task in WithAtLeast(s, k) && a.task !in WithAtLeast(s', k);
  }

  /** Without new calls and cancellations no run is longer than the work there is. */
  lemma {:induction false} InternalRunsEnd(s: State, run: seq<Action>, s': State)
    requires Steps(s, run, s') && IsInternalRun(run)
    ensures |run| + Work(s') <= Work(s)
    decreases |run|
  {
    if run != [] {
      StepReducesWork(s, run[0]);
      InternalRunsEnd(Next(s, run[0]), run[1..], s');
    }
  }

  // ---------- who waits for whom ----------

  /** The task whose end `t` waits for: the owner of its future, or the call its function awaits. */
  function Blocker(s: State, t: TaskId): Option<TaskId> {
    if t !in s.tasks then None
    else
      match s.tasks[t]
      case Waiting(_, f) => if f < |s.futures| && !Done(s.futures[f].state) then Some(s.futures[f].owner) else None
      case Executing(_, _, Some(c)) => if c in s.tasks && s.tasks[c].Finished? then None else Some(c)
      case _ => None
  }

  /** The `n`-th task on the way along blockers. */
  function Follow(s: State, t: TaskId, n: nat): Option<TaskId> {
    if n == 0 then Some(t)
    else
      match Follow(s, t, n - 1)
      case None => None
      case Some(u) => Blocker(s, u)
  }

  ghost predicate OnCycle(s: State, t: TaskId) {
    exists n: nat :: n > 0 && Follow(s, t, n) == Some(t)
  }

  /** Some tasks wait for each other in a circle. */
  ghost predicate HasCycle(s: State) {
    exists t :: OnCycle(s, t)
  }

  ghost predicate AwaitOk(s: State, t: TaskId) {
    t in s.tasks && s.tasks[t].Executing? && s.tasks[t].awaits.Some? ==> s.tasks[t].awaits.value in s.tasks
  }

  lemma {:induction false} StepsKeepAwaits(s: State, run: seq<Action>, s': State)
    requires Steps(s, run, s') && forall t :: AwaitOk(s, t)
    ensures forall t :: AwaitOk(s', t)
    decreases |run|
  {
    if run != [] {
      var next := Next(s, run[0]);
      forall t ensures AwaitOk(next, t) {
        assert AwaitOk(s, t);
      }
      StepsKeepAwaits(next, run[1..], s');
    }
  }

  /** Who blocks a task is itself unfinished. */
  lemma BlockerUnfinished(s: State, t: TaskId)
    requires Reachable(s) && Blocker(s, t).Some?
    ensures t in s.tasks && !s.tasks[t].Finished?
    ensures Blocker(s, t).value in s.tasks && !s.tasks[Blocker(s, t).value].Finished?
  {
    ReachableInv(s);
    var run :| Steps(Initial(), run, s);
    StepsKeepAwaits(Initial(), run, s);
    assert AwaitOk(s, t) && TaskOk(s, t);
    if s.tasks[t].Waiting? {
      assert FutureOk(s, s.tasks[t].future);
    }
  }

  /** The step that ends an unblocked task, or the last step before its end. */
  function StepOf(s: State, t: TaskId): Action
    requires t in s.tasks && !s.tasks[t].Finished?
  {
    match s.tasks[t]
    case Reading(_) => ReadHits(t, 0)
    case Executing(_, _, _) => FunctionReturns(t, None)
    case Storing(_, _, _) => StoreEnds(t)
    case Waiting(_, _) => Resume(t)
  }

  /** An unfinished task can take a step iff nothing blocks it. */
  lemma CanStepIffUnblocked(s: State, t: TaskId)
    requires Reachable(s) && t in s.tasks && !s.tasks[t].Finished?
    ensures Blocker(s, t).None? <==> Enabled(s, StepOf(s, t))
    ensures Blocker(s, t).Some? ==> forall a :: IsInternal(a) && a.task == t ==> !Enabled(s, a)
  {
    ReachableInv(s);
    assert TaskOk(s, t);
  }

  ghost predicate Stuck(s: State) {
    forall a :: IsInternal(a) ==> !Enabled(s, a)
  }

  /** No task can take a step iff every unfinished one waits for another. */
  lemma StuckIffAllBlocked(s: State)
    requires Reachable(s)
    ensures Stuck(s) <==> forall t :: t in s.tasks && !s.tasks[t].Finished? ==> Blocker(s, t).Some?
  {
    forall t | t in s.tasks && !s.tasks[t].Finished?
      ensures Blocker(s, t).None? ==> !Stuck(s)
      ensures Blocker(s, t).Some? ==> forall a :: IsInternal(a) && a.task == t ==> !Enabled(s, a)
    {
      CanStepIffUnblocked(s, t);
      if Blocker(s, t).None? {
        assert IsInternal(StepOf(s, t)) && Enabled(s, StepOf(s, t));
      }
    }
    if forall t :: t in s.tasks && !s.tasks[t].Finished? ==> Blocker(s, t).Some? {
      forall a | IsInternal(a) ensures !Enabled(s, a) {
        if a.task in s.tasks && !s.tasks[a.task].Finished? {
          assert Blocker(s, a.task).Some?;
        }
      }
    }
  }

  lemma {:induction false} FollowOn(s: State, t: TaskId, u: TaskId, i: nat, k: nat)
    requires Follow(s, t, i) == Some(u)
    ensures Follow(s, t, i + k) == Follow(s, u, k)
    decreases k
  {
    if k > 0 {
      FollowOn(s, t, u, i, k - 1);
    }
  }

  /** The first `n` tasks on the way along blockers. */
  lemma {:induction false} BlockedChain(s: State, t: TaskId, n: nat) returns (chain: seq<TaskId>)
    requires Reachable(s) && t in s.tasks && !s.tasks[t].Finished?
    requires forall u :: u in s.tasks && !s.tasks[u].Finished? ==> Blocker(s, u).Some?
    ensures |chain| == n + 1 && forall i :: 0 <= i <= n ==>
      Follow(s, t, i) == Some(chain[i]) && chain[i] in s.tasks && !s.tasks[chain[i]].Finished?
    decreases n
  {
    if n == 0 {
      chain := [t];
    } else {
      var before := BlockedChain(s, t, n - 1);
      BlockerUnfinished(s, before[n - 1]);
      chain := before + [Blocker(s, before[n - 1]).value];
    }
  }

  /** Where every unfinished task waits for another, some wait in a circle. */
  lemma AllBlockedMeansCycle(s: State, t: TaskId)
    requires Reachable(s) && t in s.tasks && !s.tasks[t].Finished?
    requires forall u :: u in s.tasks && !s.tasks[u].Finished? ==> Blocker(s, u).Some?
    ensures HasCycle(s)
  {
    var chain := BlockedChain(s, t, |s.tasks.Keys|);
    if Cte.Distinct(chain) {
      Cte.DistinctBounded(chain, s.tasks.Keys);
    }
    var i, j :| 0 <= i < j < |chain| && chain[i] == chain[j];
    FollowOn(s, t, chain[i], i, j - i);
    assert OnCycle(s, chain[i]);
  }

  /** In a state where nothing can move, all tasks have finished iff none wait in a circle. */
  lemma StuckIffFinishedOrCycle(s: State)
    requires Reachable(s) && Stuck(s)
    ensures AllFinished(s) <==> !HasCycle(s)
  {
    StuckIffAllBlocked(s);
    if t :| t in s.tasks && !s.tasks[t].Finished? {
      AllBlockedMeansCycle(s, t);
    }
    if HasCycle(s) {
      CycleUnfinished(s);
    }
  }

  lemma CycleWay(s: State) returns (t: TaskId, n: nat)
    requires HasCycle(s)
    ensures n > 0 && Follow(s, t, n) == Some(t)
  {
    t :| OnCycle(s, t);
    n :| n > 0 && Follow(s, t, n) == Some(t);
  }

  lemma CycleUnfinished(s: State)
    requires Reachable(s) && HasCycle(s)
    ensures !AllFinished(s)
  {
    var t, n := CycleWay(s);
    FollowBlocked(s, t, n, 0);
    BlockerUnfinished(s, t);
  }

  /** Before the end of the way everyone is blocked. */
  lemma {:induction false} FollowBlocked(s: State, t: TaskId, n: nat, k: nat)
    requires Follow(s, t, n).Some? && k < n
    ensures Follow(s, t, k).Some? && Blocker(s, Follow(s, t, k).value).Some?
    ensures Follow(s, t, k + 1) == Blocker(s, Follow(s, t, k).value)
    decreases n
  {
    if k < n - 1 {
      FollowBlocked(s, t, n - 1, k);
    }
  }

  /** A step of `a.task` frees only those who wait for it. */
  lemma BlockerStays(s: State, a: Action, u: TaskId)
    requires Reachable(s) && Enabled(s, a) && IsInternal(a)
    requires Blocker(s, u).Some? && Blocker(s, u).value != a.task
    ensures Blocker(Next(s, a), u) == Blocker(s, u)
  {
    ReachableInv(s);
    BlockerUnfinished(s, u);
    CanStepIffUnblocked(s, u);
    assert u != a.task;
    assert TaskOk(s, a.task) && TaskOk(s, u);
  }

  /** Who waits in a circle keeps waiting, whatever the tasks do. */
  lemma CyclePersists(s: State, a: Action)
    requires Reachable(s) && Enabled(s, a) && IsInternal(a) && HasCycle(s)
    ensures HasCycle(Next(s, a))
  {
    var t, n := CycleWay(s);
    SameWay(s, a, t, n, n);
    assert OnCycle(Next(s, a), t);
  }

  lemma {:induction false} SameWay(s: State, a: Action, t: TaskId, n: nat, k: nat)
    requires Reachable(s) && Enabled(s, a) && IsInternal(a)
    requires n > 0 && Follow(s, t, n) == Some(t) && k <= n
    ensures Follow(Next(s, a), t, k) == Follow(s, t, k) && Follow(s, t, k).Some?
    decreases k
  {
    if k > 0 {
      SameWay(s, a, t, n, k - 1);
      FollowBlocked(s, t, n, k - 1);
      FollowBlocked(s, t, n, if k < n then k else 0);
      var u, w := Follow(s, t, k - 1).value, Follow(s, t, k).value;
      assert Blocker(s, u) == Some(w) && Blocker(s, w).Some?;
      BlockerUnfinished(s, w);
      CanStepIffUnblocked(s, w);
      assert w != a.task;
      BlockerStays(s, a, u);
    }
  }

  lemma {:induction false} RunKeepsCycle(s: State, run: seq<Action>, s': State)
    requires Reachable(s) && HasCycle(s) && Steps(s, run, s') && IsInternalRun(run)
    ensures Reachable(s') && HasCycle(s')
    decreases |run|
  {
    if run != [] {
      CyclePersists(s, run[0]);
      ReachThen(s, run[0]);
      RunKeepsCycle(Next(s, run[0]), run[1..], s');
    }
  }

  /** Ending a task adds no wait. */
  lemma EndingAddsNoCycle(s: State, t: TaskId)
    requires Reachable(s) && t in s.tasks && !s.tasks[t].Finished? && Enabled(s, StepOf(s, t))
    requires HasCycle(Next(s, StepOf(s, t)))
    ensures HasCycle(s)
  {
    var s' := Next(s, StepOf(s, t));
    ReachableInv(s);
    assert TaskOk(s, t);
    forall u ensures Blocker(s', u).Some? ==> Blocker(s, u) == Blocker(s', u) {
    }
    var v, n := CycleWay(s');
    FewerBlockers(s, s', v, n);
    assert OnCycle(s, v);
  }

  lemma {:induction false} FewerBlockers(s: State, s': State, v: TaskId, n: nat)
    requires forall u :: Blocker(s', u).Some? ==> Blocker(s, u) == Blocker(s', u)
    ensures Follow(s', v, n).Some? ==> Follow(s, v, n) == Follow(s', v, n)
    decreases n
  {
    if n > 0 {
      FewerBlockers(s, s', v, n - 1);
    }
  }

  lemma {:induction false} FinishAll(s: State) returns (run: seq<Action>, s': State)
    requires Reachable(s) && !HasCycle(s)
    ensures Steps(s, run, s') && IsInternalRun(run) && AllFinished(s')
    decreases Work(s)
  {
    if t :| t in s.tasks && !s.tasks[t].Finished? && Blocker(s, t).None? {
      CanStepIffUnblocked(s, t);
      var a := StepOf(s, t);
      if HasCycle(Next(s, a)) {
        EndingAddsNoCycle(s, t);
      }
      ReachThen(s, a);
      StepReducesWork(s, a);
      var rest;
      rest, s' := FinishAll(Next(s, a));
      run := [a] + rest;
      assert run[1..] == rest;
    } else {
      if t :| t in s.tasks && !s.tasks[t].Finished? {
        AllBlockedMeansCycle(s, t);
      }
      run, s' := [], s;
    }
  }

  ghost predicate CanAllFinish(s: State) {
    exists run, s' :: Steps(s, run, s') && IsInternalRun(run) && AllFinished(s')
  }

  /** From a reachable state some run finishes every task iff no tasks wait in a circle. */
  lemma CanAllFinishIffNoCycle(s: State)
    requires Reachable(s)
    ensures CanAllFinish(s) <==> !HasCycle(s)
  {
    if CanAllFinish(s) && HasCycle(s) {
      var run, s' :| Steps(s, run, s') && IsInternalRun(run) && AllFinished(s');
      RunKeepsCycle(s, run, s');
      CycleUnfinished(s');
    }
    if !HasCycle(s) {
      var run, s' := FinishAll(s);
    }
  }

  // ---------- when no circle can form ----------

  /** Every call that a function awaits has a key of lower rank than the function's own. */
  ghost predicate NestsDown(s: State, run: seq<Action>, rank: Key -> nat)
    decreases |run|
  {
    run == [] ||
      (Enabled(s, run[0])
       && (run[0].CallNested? ==> rank(run[0].key) < rank(s.tasks[run[0].task].key))
       && NestsDown(Next(s, run[0]), run[1..], rank))
  }

  ghost predicate LowerOk(s: State, rank: Key -> nat, t: TaskId) {
    t in s.tasks && s.tasks[t].Executing? && s.tasks[t].awaits.Some? ==>
      var c := s.tasks[t].awaits.value;
      c in s.tasks && (s.tasks[c].Finished? || rank(s.tasks[c].key) < rank(s.tasks[t].key))
  }

  lemma {:induction false} RunStaysLower(s: State, run: seq<Action>, s': State, rank: Key -> nat)
    requires Steps(s, run, s') && NestsDown(s, run, rank) && forall t :: LowerOk(s, rank, t)
    ensures forall t :: LowerOk(s', rank, t)
    decreases |run|
  {
    if run != [] {
      var next := Next(s, run[0]);
      forall t ensures LowerOk(next, rank, t) {
        assert LowerOk(s, rank, t);
      }
      RunStaysLower(next, run[1..], s', rank);
    }
  }

  /** Falls along blockers: a waiter has the key of the owner it waits for. */
  function Height(s: State, rank: Key -> nat, t: TaskId): nat
    requires t in s.tasks && !s.tasks[t].Finished?
  {
    2 * rank(s.tasks[t].key) + if s.tasks[t].Waiting? then 1 else 0
  }

  lemma BlockerIsLower(s: State, rank: Key -> nat, t: TaskId)
    requires Reachable(s) && LowerOk(s, rank, t) && Blocker(s, t).Some?
    ensures var u := Blocker(s, t).value;
      && t in s.tasks && !s.tasks[t].Finished? && u in s.tasks && !s.tasks[u].Finished?
      && Height(s, rank, u) < Height(s, rank, t)
  {
    BlockerUnfinished(s, t);
    ReachableInv(s);
    assert TaskOk(s, t);
    if s.tasks[t].Waiting? {
      assert FutureOk(s, s.tasks[t].future) && TaskOk(s, s.futures[s.tasks[t].future].owner);
    }
  }

  lemma {:induction false} WayIsLower(s: State, rank: Key -> nat, t: TaskId, n: nat)
    requires Reachable(s) && (forall u :: LowerOk(s, rank, u)) && n > 0 && Follow(s, t, n).Some?
    ensures var u := Follow(s, t, n).value;
      && t in s.tasks && !s.tasks[t].Finished? && u in s.tasks && !s.tasks[u].Finished?
      && Height(s, rank, u) < Height(s, rank, t)
    decreases n
  {
    FollowBlocked(s, t, n, n - 1);
    BlockerIsLower(s, rank, Follow(s, t, n - 1).value);
    if n > 1 {
      WayIsLower(s, rank, t, n - 1);
    }
  }

  /** Where nested calls go down in some order of the keys, no tasks ever wait in a circle. */
  lemma DescendingKeysNeverCycle(run: seq<Action>, s: State, rank: Key -> nat)
    requires Steps(Initial(), run, s) && NestsDown(Initial(), run, rank)
    ensures !HasCycle(s)
  {
    RunStaysLower(Initial(), run, s, rank);
    if HasCycle(s) {
      var t, n := CycleWay(s);
      WayIsLower(s, rank, t, n);
    }
  }

  lemma {:induction false} StepsThen(s: State, run: seq<Action>, s': State, a: Action)
    requires Steps(s, run, s') && Enabled(s', a)
    ensures Steps(s, run + [a], Next(s', a))
    decreases |run|
  {
    if run == [] {
      assert Steps(Next(s', a), [], Next(s', a));
      assert (run + [a])[1..] == [];
    } else {
      StepsThen(Next(s, run[0]), run[1..], s', a);
      assert (run + [a])[1..] == run[1..] + [a];
    }
  }

  lemma ReachThen(s: State, a: Action)
    requires Reachable(s) && Enabled(s, a)
    ensures Reachable(Next(s, a))
  {
    var run :| Steps(Initial(), run, s);
    StepsThen(Initial(), run, s, a);
  }

  /** Task 0 owns the claim of `k`, tasks 1 and 2 wait for it. */
  function TwoWaiters(k: Key): State {
    State(map[k := 0], [Future(k, 0, Pending)],
          map[0 := Executing(k, 0, None), 1 := Waiting(k, 0), 2 := Waiting(k, 0)], map[])
  }

  function ThreeReaders(k: Key): State {
    State(map[], [], map[0 := Reading(k), 1 := Reading(k), 2 := Reading(k)], map[])
  }

  lemma ThreeReadersReachable(k: Key)
    ensures Reachable(ThreeReaders(k))
  {
    var s := Initial();
    assert Steps(s, [], s);
    ReachThen(s, Call(0, k));
    s := Next(s, Call(0, k));
    ReachThen(s, Call(1, k));
    s := Next(s, Call(1, k));
    ReachThen(s, Call(2, k));
    assert Next(s, Call(2, k)) == ThreeReaders(k);
  }

  function OneOwner(k: Key): State {
    State(map[k := 0], [Future(k, 0, Pending)], map[0 := Executing(k, 0, None), 1 := Reading(k), 2 := Reading(k)],
        map[])
  }

  function OneWaiter(k: Key): State {
    State(map[k := 0], [Future(k, 0, Pending)], map[0 := Executing(k, 0, None), 1 := Waiting(k, 0), 2 := Reading(k)],
        map[])
  }

  lemma OneWaiterReachable(k: Key)
    ensures Reachable(OneWaiter(k))
  {
    ThreeReadersReachable(k);
    ReachThen(ThreeReaders(k), ReadMisses(0));
    assert Next(ThreeReaders(k), ReadMisses(0)) == OneOwner(k);
    ReachThen(OneOwner(k), ReadMisses(1));
    assert Next(OneOwner(k), ReadMisses(1)) == OneWaiter(k);
  }

  lemma TwoWaitersReachable(k: Key)
    ensures Reachable(TwoWaiters(k))
  {
    OneWaiterReachable(k);
    ReachThen(OneWaiter(k), ReadMisses(2));
    assert Next(OneWaiter(k), ReadMisses(2)) == TwoWaiters(k);
  }

  /**
   Cancelling one waiter reaches the others: here task 2, itself not cancelled, ends with
   the cancellation error although the owner of its future returned a value.
   */
  lemma CancellationSpreads(k: Key, v: Value) returns (s: State)
    ensures Reachable(s) && 2 !in s.cancelled && |s.futures| == 1 && s.futures[0].owner == 0
    ensures 0 in s.tasks && s.tasks[0] == Finished(Returned(Some(v)), None)
    ensures 2 in s.tasks && s.tasks[2] == Finished(Raised(CancelledError), Some(0))
  {
    TwoWaitersReachable(k);
    s := TwoWaiters(k);
    ReachThen(s, CancelWaiter(1));
    s := Next(s, CancelWaiter(1));
    assert s.futures == [Future(k, 0, Cancelled)] && s.cancelled == map[1 := 0];
    ReachThen(s, Resume(2));
    s := Next(s, Resume(2));
    ReachThen(s, FunctionReturns(0, Some(v)));
    s := Next(s, FunctionReturns(0, Some(v)));
    ReachThen(s, StoreEnds(0));
    s := Next(s, StoreEnds(0));
  }

  /** A function that awaits a call with its own key: the call waits for the function's future. */
  function SelfWait(k: Key): State {
    State(map[k := 0], [Future(k, 0, Pending)], map[0 := Executing(k, 0, Some(1)), 1 := Waiting(k, 0)], map[])
  }

  function SoleOwner(k: Key): State {
    State(map[k := 0], [Future(k, 0, Pending)], map[0 := Executing(k, 0, None)], map[])
  }

  function SelfCalling(k: Key): State {
    State(map[k := 0], [Future(k, 0, Pending)], map[0 := Executing(k, 0, Some(1)), 1 := Reading(k)], map[])
  }

  lemma SoleOwnerReachable(k: Key)
    ensures Reachable(SoleOwner(k))
  {
    assert Steps(Initial(), [], Initial());
    ReachThen(Initial(), Call(0, k));
    ReachThen(Next(Initial(), Call(0, k)), ReadMisses(0));
    assert Next(Next(Initial(), Call(0, k)), ReadMisses(0)) == SoleOwner(k);
  }

  lemma SelfWaitReachable(k: Key)
    ensures Reachable(SelfWait(k))
  {
    SoleOwnerReachable(k);
    ReachThen(SoleOwner(k), CallNested(0, 1, k));
    assert Next(SoleOwner(k), CallNested(0, 1, k)) == SelfCalling(k);
    ReachThen(SelfCalling(k), ReadMisses(1));
    assert Next(SelfCalling(k), ReadMisses(1)) == SelfWait(k);
  }

  /** Two calls that wait for each other: nothing can move, and no run finishes them. */
  lemma SelfWaitDeadlocks(k: Key)
    ensures Reachable(SelfWait(k)) && Stuck(SelfWait(k)) && HasCycle(SelfWait(k)) && !CanAllFinish(SelfWait(k))
  {
    var s := SelfWait(k);
    SelfWaitReachable(k);
    assert Blocker(s, 0) == Some(1) && Blocker(s, 1) == Some(0);
    assert Follow(s, 0, 0) == Some(0);
    assert Follow(s, 0, 1) == Some(1);
    assert Follow(s, 0, 2) == Blocker(s, Follow(s, 0, 1).value) == Some(0);
    assert OnCycle(s, 0);
    StuckIffAllBlocked(s);
    CanAllFinishIffNoCycle(s);
  }
}

/**
 The bounded pool of worker threads behind the Node executor.

 JavaScript runs one event handler at a time, so each handler is one step.  What the
 host may do (refuse to start a thread, refuse a message, interleave messages, errors,
 exits, aborts and deadlines in any order) is the choice of the next event and of its
 `Host` argument.  Tasks and slots are records named by the numbers they are given.
 */
module WorkerPool {
  import opened Options

  type Error = string

  datatype Result = Value(json: string) | Failure(error: Error)

  /** A worker thread: the task it runs, and the reason it is being terminated for, if it is. */
  datatype Slot = Slot(id: nat, task: Option<nat>, retiring: Option<Error>)

  /** The tasks for which starting a thread, or posting the job to it, will throw. */
  datatype Host = Host(spawnFails: set<nat>, postFails: set<nat>)

  const CLOSED: Error := "JSONata executor is closed"
  const SPAWN_FAILED: Error := "worker could not be started"
  const POST_FAILED: Error := "job could not be posted"

  /**
   `slots` is in creation order, as iteration over a JavaScript Set is.  `holder` is the slot
   field of each task, `settled` the outcome each promise received.  `dispatched` is history:
   the tasks handed to a worker, in order.
   */
  datatype State = State(
    workers: nat,
    maxPending: nat,
    slots: seq<Slot>,
    queue: seq<nat>,
    tasks: set<nat>,
    closed: bool,
    nextID: nat,
    nextSlot: nat,
    holder: map<nat, nat>,
    settled: map<nat, Result>,
    dispatched: seq<nat>)

  // ---------------------------------------------------------------------------
  // What each handler does, on values
  // ---------------------------------------------------------------------------

  function Without(q: seq<nat>, t: nat): seq<nat> {
    if q == [] then [] else if q[0] == t then q[1..] else [q[0]] + Without(q[1..], t)
  }

  lemma {:induction false} WithoutIsRemoval(q: seq<nat>, t: nat)
    requires Increasing(q)
    ensures Increasing(Without(q, t))
    ensures forall x :: x in Without(q, t) <==> x in q && x != t
    ensures t !in q ==> Without(q, t) == q
  {
    if q != [] {
      var rest := q[1..];
      assert q == [q[0]] + rest;
      assert q[0] !in rest;
      if q[0] != t {
        WithoutIsRemoval(rest, t);
        var w := Without(rest, t);
        forall k | 0 <= k < |w|
          ensures q[0] < w[k]
        {
          assert w[k] in w;
          assert w[k] in rest;
        }
      }
    }
  }

  function Settle(s: State, t: nat, r: Result): State {
    if t in s.settled then s
    else s.(settled := s.settled[t := r], tasks := s.tasks - {t}, queue := Without(s.queue, t))
  }

  /** The position of the first slot that satisfies the test, or the length when none does. */
  function FirstIdle(slots: seq<Slot>): (i: nat)
    ensures i <= |slots|
    ensures i < |slots| ==> slots[i].task.None? && slots[i].retiring.None?
    ensures forall j :: 0 <= j < i ==> slots[j].task.Some? || slots[j].retiring.Some?
  {
    if slots == [] then 0
    else if slots[0].task.None? && slots[0].retiring.None? then 0
    else 1 + FirstIdle(slots[1..])
  }

  function Find(slots: seq<Slot>, id: nat): (i: nat)
    ensures i <= |slots|
    ensures i < |slots| ==> slots[i].id == id
    ensures forall j :: 0 <= j < i ==> slots[j].id != id
  {
    if slots == [] then 0 else if slots[0].id == id then 0 else 1 + Find(slots[1..], id)
  }

  function Retire(s: State, i: nat, e: Error): State
    requires i < |s.slots|
  {
    if s.slots[i].retiring.Some? then s
    else s.(slots := s.slots[i := s.slots[i].(retiring := Some(e))])
  }

  function CreateSlot(s: State): State {
    s.(slots := s.slots + [Slot(s.nextSlot, None, None)], nextSlot := s.nextSlot + 1)
  }

  /** The head of the queue goes to slot `i`. */
  function Take(s: State, i: nat): State
    requires i < |s.slots| && s.queue != []
  {
    var t := s.queue[0];
    s.(queue := s.queue[1..], slots := s.slots[i := s.slots[i].(task := Some(t))],
       holder := s.holder[t := s.slots[i].id], dispatched := s.dispatched + [t])
  }

  function Dispatch(s: State, i: nat, host: Host): State
    requires i < |s.slots| && s.queue != []
  {
    if s.queue[0] in host.postFails then Retire(Take(s, i), i, POST_FAILED) else Take(s, i)
  }

  /** One round of the loop in `drain`; the same state again means that the loop stops. */
  function DrainStep(s: State, host: Host): State
    requires s.queue != []
  {
    var i := FirstIdle(s.slots);
    if i < |s.slots| then Dispatch(s, i, host)
    else if |s.slots| < s.workers then
      if s.queue[0] in host.spawnFails then Settle(s, s.queue[0], Failure(SPAWN_FAILED))
      else Dispatch(CreateSlot(s), |s.slots|, host)
    else s
  }

  predicate Increasing(q: seq<nat>) {
    forall i, j :: 0 <= i < j < |q| ==> q[i] < q[j]
  }

  lemma IncreasingAppend(q: seq<nat>, t: nat)
    requires Increasing(q) && forall x :: x in q ==> x < t
    ensures Increasing(q + [t])
  {
    forall i | 0 <= i < |q|
      ensures q[i] < t
    {
      assert q[i] in q;
    }
  }

  /** Without this the loop could settle the head of the queue for ever. */
  predicate QueuePending(s: State) {
    Increasing(s.queue) && forall t :: t in s.queue ==> t !in s.settled
  }

  function Drain(s: State, host: Host): State
    requires QueuePending(s)
    decreases |s.queue|
  {
    if s.closed || s.queue == [] then s
    else
      var s1 := DrainStep(s, host);
      if s1 == s then s else
        DrainStepShortens(s, host);
        Drain(s1, host)
  }

  lemma SettleHead(s: State, r: Result)
    requires QueuePending(s) && s.queue != []
    ensures var s1 := Settle(s, s.queue[0], r);
            s1.queue == s.queue[1..] && QueuePending(s1) && s1.closed == s.closed
  {
    assert s.queue[0] in s.queue;
    assert forall t :: t in s.queue[1..] ==> t in s.queue && t != s.queue[0];
  }

  lemma DispatchHead(s: State, i: nat, host: Host)
    requires QueuePending(s) && s.queue != [] && i < |s.slots|
    ensures var s1 := Dispatch(s, i, host);
            s1.queue == s.queue[1..] && QueuePending(s1) && s1.closed == s.closed
  {
    assert forall t :: t in s.queue[1..] ==> t in s.queue;
  }

  lemma DrainStepShortens(s: State, host: Host)
    requires QueuePending(s) && s.queue != []
    ensures DrainStep(s, host) == s || (DrainStep(s, host).queue == s.queue[1..] && QueuePending(DrainStep(s, host)))
    ensures DrainStep(s, host).closed == s.closed
    ensures DrainStep(s, host) == s <==> FirstIdle(s.slots) == |s.slots| && |s.slots| >= s.workers
  {
    var i := FirstIdle(s.slots);
    assert |s.queue[1..]| < |s.queue|;
    if i < |s.slots| {
      DispatchHead(s, i, host);
    } else if |s.slots| < s.workers {
      if s.queue[0] in host.spawnFails {
        SettleHead(s, Failure(SPAWN_FAILED));
      } else {
        DispatchHead(CreateSlot(s), i, host);
      }
    }
  }

  /** `cancel`, reached from an abort signal or from the deadline timer. */
  function Cancel(s: State, t: nat, e: Error, host: Host): State
    requires Inv(s)
  {
    if t in s.settled || t !in s.tasks then s
    else if t in s.holder then
      var i := Find(s.slots, s.holder[t]);
      if i < |s.slots| then Retire(s, i, e) else s
    else
      WithoutIsRemoval(s.queue, t);
      Drain(Settle(s, t, Failure(e)), host)
  }

  function Enqueue(s: State): State {
    s.(nextID := s.nextID + 1, tasks := s.tasks + {s.nextID + 1}, queue := s.queue + [s.nextID + 1])
  }

  lemma EnqueueIsPending(s: State)
    requires Inv(s)
    ensures QueuePending(Enqueue(s))
  {
    IncreasingAppend(s.queue, s.nextID + 1);
  }

  /** `evaluate`, past the checks that only reject. */
  function Accept(s: State, host: Host): State
    requires Inv(s)
  {
    EnqueueIsPending(s);
    Drain(Enqueue(s), host)
  }

  function Rejects(s: State, aborted: bool, oversized: bool): bool {
    s.closed || aborted || |s.tasks| >= s.maxPending || oversized
  }

  /** The message handler of one slot. */
  function Message(s: State, id: nat, t: nat, r: Result, host: Host): State
    requires Inv(s)
  {
    var i := Find(s.slots, id);
    if i == |s.slots| || s.slots[i].task != Some(t) || t in s.settled || s.slots[i].retiring.Some? then s
    else
      WithoutIsRemoval(s.queue, t);
      Drain(Settle(Release(s, i), t, r), host)
  }

  /** The rest of `retire`, once the thread is known to have exited. */
  function Terminated(s: State, id: nat, host: Host): State
    requires Inv(s)
  {
    var i := Find(s.slots, id);
    if i == |s.slots| || s.slots[i].retiring.None? then s
    else
      var slot := s.slots[i];
      VanishKeepsPending(s, i, slot.retiring.value);
      Drain(VanishAndSettle(s, i, slot.retiring.value), host)
  }

  function SettleAll(s: State, ts: seq<nat>, r: Result): State
    decreases |ts|
  {
    if ts == [] then s else SettleAll(Settle(s, ts[0], r), ts[1..], r)
  }

  function RetireAll(s: State, n: nat, e: Error): State
    requires n <= |s.slots|
    ensures |RetireAll(s, n, e).slots| == |s.slots|
  {
    if n == 0 then s else Retire(RetireAll(s, n - 1, e), n - 1, e)
  }

  function Close(s: State): State {
    var s1 := SettleAll(s.(closed := true), s.queue, Failure(CLOSED));
    RetireAll(s1, |s1.slots|, CLOSED)
  }

  /** Everything that can happen to the pool. */
  datatype Event =
    | Evaluate(aborted: bool, oversized: bool, host: Host)
    | WorkerMessage(slot: nat, task: nat, result: Result, host: Host)
    | WorkerFault(slot: nat, error: Error)      // the error and exit events
    | WorkerGone(slot: nat, host: Host)         // terminate() has settled
    | CancelTask(task: nat, error: Error, host: Host)
    | ClosePool

  function Step(s: State, ev: Event): State
    requires Inv(s)
  {
    match ev
    case Evaluate(aborted, oversized, host) => if Rejects(s, aborted, oversized) then s else Accept(s, host)
    case WorkerMessage(id, t, r, host) => Message(s, id, t, r, host)
    case WorkerFault(id, e) => var i := Find(s.slots, id); if i < |s.slots| then Retire(s, i, e) else s
    case WorkerGone(id, host) => Terminated(s, id, host)
    case CancelTask(t, e, host) => Cancel(s, t, e, host)
    case ClosePool => Close(s)
  }

  function Initial(workers: nat, maxPending: nat): State {
    State(workers, maxPending, [], [], {}, false, 0, 0, map[], map[], [])
  }

  // ---------------------------------------------------------------------------
  // The invariant
  // ---------------------------------------------------------------------------

  /** Task `t` is run by slot `i`, and each names the other. */
  ghost predicate HeldBy(s: State, t: nat, i: nat) {
    && i < |s.slots| && s.slots[i].task == Some(t)
    && t in s.holder && s.holder[t] == s.slots[i].id
  }

  ghost predicate Held(s: State, t: nat) {
    exists i :: HeldBy(s, t, i)
  }

  ghost predicate SlotsWellFormed(s: State) {
    && |s.slots| <= s.workers
    && (forall i, j :: 0 <= i < j < |s.slots| ==> s.slots[i].id < s.slots[j].id)
    && (forall i :: 0 <= i < |s.slots| ==> s.slots[i].id < s.nextSlot)
    && (forall i :: 0 <= i < |s.slots| && s.slots[i].task.Some? ==>
          HeldBy(s, s.slots[i].task.value, i) && s.slots[i].task.value in s.tasks && s.slots[i].task.value !in s.queue)
  }

  /** An accepted task is pending or settled; a pending task is queued or held, and never both. */
  ghost predicate TasksWellFormed(s: State) {
    && |s.tasks| <= s.maxPending
    && (forall t :: t in s.tasks || t in s.settled <==> 1 <= t <= s.nextID)
    && (forall t :: t in s.tasks ==> t !in s.settled)
    && (forall t :: t in s.holder ==> t <= s.nextID)
    && (forall t :: t in s.queue ==> t in s.tasks && t !in s.holder)
    && (forall t :: t in s.tasks && t !in s.queue ==> Held(s, t))
  }

  ghost predicate OrderWellFormed(s: State) {
    && Increasing(s.queue)
    && Increasing(s.dispatched)
    && (forall d, t :: d in s.dispatched && t in s.queue ==> d < t)
    && (forall d :: d in s.dispatched ==> d <= s.nextID)
  }

  ghost predicate Core(s: State) {
    SlotsWellFormed(s) && TasksWellFormed(s) && OrderWellFormed(s)
  }

  /** A closed pool has dropped its queue and is retiring every worker it still has. */
  ghost predicate Shut(s: State) {
    s.closed ==> s.queue == [] && forall i :: 0 <= i < |s.slots| ==> s.slots[i].retiring.Some?
  }

  /** No work waits while a worker could take it. */
  ghost predicate WorkConserving(s: State) {
    !s.closed && s.queue != [] ==>
      |s.slots| == s.workers && forall i :: 0 <= i < |s.slots| ==> s.slots[i].task.Some? || s.slots[i].retiring.Some?
  }

  ghost predicate Inv(s: State) {
    Core(s) && Shut(s) && WorkConserving(s) && QueuePending(s)
  }

  // ---------------------------------------------------------------------------
  // Every step keeps the invariant
  // ---------------------------------------------------------------------------

  lemma CoreGivesPending(s: State)
    requires Core(s)
    ensures QueuePending(s)
  {
  }

  /** What slot `i` of a consistent state tells. */
  lemma SlotFacts(s: State, i: nat)
    requires Core(s) && i < |s.slots|
    ensures s.slots[i].id < s.nextSlot && forall j :: 0 <= j < |s.slots| && j != i ==> s.slots[j].id != s.slots[i].id
    ensures s.slots[i].task.Some? ==>
      var t := s.slots[i].task.value; HeldBy(s, t, i) && t in s.tasks && t !in s.queue && t !in s.settled
  {
    hide OrderWellFormed;
  }

  lemma HeadApart(q: seq<nat>)
    requires Increasing(q) && q != []
    ensures q[0] in q && q[0] !in q[1..] && forall x :: x in q <==> x == q[0] || x in q[1..]
  {
    assert q == [q[0]] + q[1..];
  }

  /** Settling a task that no slot holds. */
  lemma SettleKeepsCore(s: State, t: nat, r: Result)
    requires Core(s) && t in s.queue
    ensures Core(Settle(s, t, r)) && Settle(s, t, r).slots == s.slots
  {
    WithoutIsRemoval(s.queue, t);
    var s1 := Settle(s, t, r);
    assert |s1.tasks| <= |s.tasks|;
    forall u | u in s1.tasks && u !in s1.queue
      ensures Held(s1, u)
    {
      var i :| HeldBy(s, u, i);
      assert HeldBy(s1, u, i);
    }
    forall i | 0 <= i < |s1.slots| && s1.slots[i].task.Some?
      ensures HeldBy(s1, s1.slots[i].task.value, i)
    {
      assert HeldBy(s, s.slots[i].task.value, i);
    }
  }

  lemma RetireKeepsCore(s: State, i: nat, e: Error)
    requires Core(s) && i < |s.slots|
    ensures Core(Retire(s, i, e))
  {
    var s1 := Retire(s, i, e);
    forall j | 0 <= j < |s1.slots| && s1.slots[j].task.Some?
      ensures HeldBy(s1, s1.slots[j].task.value, j)
    {
      assert HeldBy(s, s.slots[j].task.value, j);
    }
    forall u | u in s1.tasks && u !in s1.queue
      ensures Held(s1, u)
    {
      var j :| HeldBy(s, u, j);
      assert HeldBy(s1, u, j);
    }
  }

  lemma CreateKeepsCore(s: State)
    requires Core(s) && !s.closed && |s.slots| < s.workers
    ensures Core(CreateSlot(s))
  {
    var s1 := CreateSlot(s);
    forall j | 0 <= j < |s1.slots| && s1.slots[j].task.Some?
      ensures HeldBy(s1, s1.slots[j].task.value, j)
    {
      assert HeldBy(s, s.slots[j].task.value, j);
    }
    forall u | u in s1.tasks && u !in s1.queue
      ensures Held(s1, u)
    {
      var j :| HeldBy(s, u, j);
      assert HeldBy(s1, u, j);
    }
  }

  lemma TakeKeepsSlots(s: State, i: nat)
    requires Core(s) && s.queue != []
    requires i < |s.slots| && s.slots[i].task.None?
    ensures SlotsWellFormed(Take(s, i))
  {
    var t, s1 := s.queue[0], Take(s, i);
    assert t in s.queue;
    forall j | 0 <= j < |s1.slots| && s1.slots[j].task.Some?
      ensures HeldBy(s1, s1.slots[j].task.value, j)
      ensures s1.slots[j].task.value in s1.tasks && s1.slots[j].task.value !in s1.queue
    {
      if j == i {
        assert t !in s.queue[1..];
      } else {
        assert HeldBy(s, s.slots[j].task.value, j);
        assert s.slots[j].task.value !in s.queue;
      }
    }
  }

  lemma TakeKeepsTasks(s: State, i: nat)
    requires Core(s) && s.queue != []
    requires i < |s.slots| && s.slots[i].task.None?
    ensures TasksWellFormed(Take(s, i))
  {
    var t, s1 := s.queue[0], Take(s, i);
    HeadApart(s.queue) by {
      assert OrderWellFormed(s);
    }
    hide SlotsWellFormed, OrderWellFormed, Increasing;
    forall u | u in s1.tasks && u !in s1.queue
      ensures Held(s1, u)
    {
      if u == t {
        assert HeldBy(s1, t, i);
      } else {
        var j :| HeldBy(s, u, j);
        assert HeldBy(s1, u, j);
      }
    }
  }

  lemma TakeKeepsOrder(s: State, i: nat)
    requires Core(s) && s.queue != []
    requires i < |s.slots| && s.slots[i].task.None?
    ensures OrderWellFormed(Take(s, i))
  {
    assert s.queue[0] in s.queue;
    IncreasingAppend(s.dispatched, s.queue[0]);
    assert forall u :: u in Take(s, i).queue ==> u in s.queue;
  }

  lemma DispatchKeepsCore(s: State, i: nat, host: Host)
    requires Core(s) && !s.closed && s.queue != []
    requires i < |s.slots| && s.slots[i].task.None?
    ensures Core(Dispatch(s, i, host))
  {
    TakeKeepsSlots(s, i);
    TakeKeepsTasks(s, i);
    TakeKeepsOrder(s, i);
    if s.queue[0] in host.postFails {
      RetireKeepsCore(Take(s, i), i, POST_FAILED);
    }
  }

  lemma DrainStepKeepsCore(s: State, host: Host)
    requires Core(s) && !s.closed && s.queue != []
    ensures Core(DrainStep(s, host))
  {
    var i := FirstIdle(s.slots);
    if i < |s.slots| {
      DispatchKeepsCore(s, i, host);
    } else if |s.slots| < s.workers {
      if s.queue[0] in host.spawnFails {
        SettleKeepsCore(s, s.queue[0], Failure(SPAWN_FAILED));
      } else {
        CreateKeepsCore(s);
        DispatchKeepsCore(CreateSlot(s), |s.slots|, host);
      }
    }
  }

  /** `drain` leaves no work that a worker could take. */
  lemma {:induction false} DrainConserves(s: State, host: Host)
    requires Core(s) && Shut(s)
    ensures Inv(Drain(s, host))
    decreases |s.queue|
  {
    CoreGivesPending(s);
    if !s.closed && s.queue != [] {
      DrainStepShortens(s, host);
      DrainStepKeepsCore(s, host);
      if DrainStep(s, host) != s {
        DrainConserves(DrainStep(s, host), host);
      }
    }
  }

  lemma EnqueueKeepsCore(s: State)
    requires Core(s) && |s.tasks| < s.maxPending
    ensures Core(Enqueue(s))
  {
    hide SlotsWellFormed, TasksWellFormed, OrderWellFormed, Enqueue;
    EnqueueKeepsSlots(s);
    EnqueueKeepsTasks(s);
    EnqueueKeepsOrder(s);
  }

  lemma EnqueueKeepsSlots(s: State)
    requires Core(s)
    ensures SlotsWellFormed(Enqueue(s))
  {
    hide OrderWellFormed;
    var s1 := Enqueue(s);
    forall i | 0 <= i < |s.slots| && s.slots[i].task.Some?
      ensures HeldBy(s1, s.slots[i].task.value, i) && s.slots[i].task.value !in s1.queue
    {
      assert HeldBy(s, s.slots[i].task.value, i);
    }
  }

  lemma EnqueueKeepsTasks(s: State)
    requires Core(s) && |s.tasks| < s.maxPending
    ensures TasksWellFormed(Enqueue(s))
  {
    hide SlotsWellFormed, OrderWellFormed;
    var s1 := Enqueue(s);
    forall u | u in s1.tasks && u !in s1.queue
      ensures Held(s1, u)
    {
      assert u in s.tasks && u !in s.queue;
      var j :| HeldBy(s, u, j);
      assert HeldBy(s1, u, j);
    }
  }

  lemma EnqueueKeepsOrder(s: State)
    requires Core(s)
    ensures OrderWellFormed(Enqueue(s))
  {
    hide SlotsWellFormed;
    IncreasingAppend(s.queue, s.nextID + 1);
  }

  lemma AcceptKeepsInv(s: State, host: Host)
    requires Inv(s) && !s.closed && |s.tasks| < s.maxPending
    ensures Inv(Accept(s, host))
  {
    EnqueueKeepsCore(s);
    EnqueueIsPending(s);
    DrainConserves(Enqueue(s), host);
  }

  /** The slot delivers its task's outcome and is idle again. */
  function Release(s: State, i: nat): State
    requires i < |s.slots| && s.slots[i].task.Some?
  {
    s.(slots := s.slots[i := s.slots[i].(task := None)], holder := s.holder - {s.slots[i].task.value})
  }

  lemma ReleaseKeepsCore(s: State, i: nat, r: Result)
    requires Core(s) && i < |s.slots| && s.slots[i].task.Some?
    ensures Core(Settle(Release(s, i), s.slots[i].task.value, r))
  {
    hide SlotsWellFormed, TasksWellFormed, OrderWellFormed, Settle, Release;
    ReleaseKeepsSlots(s, i, r);
    ReleaseKeepsTasks(s, i, r);
    ReleaseKeepsOrder(s, i, r);
  }

  /** The released task leaves the pending ones, and nothing else moves. */
  lemma ReleaseShape(s: State, i: nat, r: Result)
    requires Core(s) && i < |s.slots| && s.slots[i].task.Some?
    ensures var t := s.slots[i].task.value;
            && t !in s.settled && t in s.tasks && HeldBy(s, t, i)
            && Settle(Release(s, i), t, r) == Release(s, i).(settled := s.settled[t := r], tasks := s.tasks - {t})
  {
    SlotFacts(s, i);
    WithoutIsRemoval(s.queue, s.slots[i].task.value);
  }

  lemma ReleaseKeepsSlots(s: State, i: nat, r: Result)
    requires Core(s) && i < |s.slots| && s.slots[i].task.Some?
    ensures SlotsWellFormed(Settle(Release(s, i), s.slots[i].task.value, r))
  {
    hide TasksWellFormed, OrderWellFormed, Settle;
    var s1 := Settle(Release(s, i), s.slots[i].task.value, r);
    ReleaseShape(s, i, r);
    SlotFacts(s, i);
    forall j | 0 <= j < |s1.slots| && s1.slots[j].task.Some?
      ensures HeldBy(s1, s1.slots[j].task.value, j) && s1.slots[j].task.value in s1.tasks
    {
      assert j != i && HeldBy(s, s.slots[j].task.value, j);
      assert s.slots[i].id != s.slots[j].id;
    }
  }

  lemma ReleaseKeepsTasks(s: State, i: nat, r: Result)
    requires Core(s) && i < |s.slots| && s.slots[i].task.Some?
    ensures TasksWellFormed(Settle(Release(s, i), s.slots[i].task.value, r))
  {
    hide SlotsWellFormed, OrderWellFormed, Settle;
    var s1 := Settle(Release(s, i), s.slots[i].task.value, r);
    ReleaseShape(s, i, r);
    assert |s1.tasks| <= |s.tasks|;
    forall u | u in s1.tasks && u !in s1.queue
      ensures Held(s1, u)
    {
      var j :| HeldBy(s, u, j);
      assert HeldBy(s1, u, j);
    }
  }

  lemma ReleaseKeepsOrder(s: State, i: nat, r: Result)
    requires Core(s) && i < |s.slots| && s.slots[i].task.Some?
    ensures OrderWellFormed(Settle(Release(s, i), s.slots[i].task.value, r))
  {
    hide SlotsWellFormed, TasksWellFormed, Settle;
    ReleaseShape(s, i, r);
  }

  /** The slot is gone; the task it still held, if any, ends with the reason it was retired for. */
  function Vanish(s: State, i: nat): State
    requires i < |s.slots|
  {
    s.(slots := s.slots[..i] + s.slots[i + 1..])
  }

  /** The state after `Vanish`, with the task settled. */
  function VanishAndSettle(s: State, i: nat, e: Error): State
    requires i < |s.slots|
  {
    if s.slots[i].task.Some? then Settle(Vanish(s, i), s.slots[i].task.value, Failure(e)) else Vanish(s, i)
  }

  lemma VanishKeepsQueue(s: State, i: nat, e: Error)
    requires Core(s) && i < |s.slots|
    ensures var s1 := VanishAndSettle(s, i, e);
            && s1.closed == s.closed && s1.queue == s.queue && s1.slots == s.slots[..i] + s.slots[i + 1..]
            && s1.tasks == (if s.slots[i].task.Some? then s.tasks - {s.slots[i].task.value} else s.tasks)
  {
    if s.slots[i].task.Some? {
      assert HeldBy(s, s.slots[i].task.value, i);
      WithoutIsRemoval(s.queue, s.slots[i].task.value);
    }
  }

  lemma VanishKeepsPending(s: State, i: nat, e: Error)
    requires Core(s) && i < |s.slots|
    ensures QueuePending(VanishAndSettle(s, i, e))
  {
    VanishKeepsCore(s, i, e);
  }

  lemma VanishKeepsSlots(s: State, i: nat, e: Error)
    requires Core(s) && i < |s.slots|
    ensures SlotsWellFormed(VanishAndSettle(s, i, e))
  {
    VanishKeepsQueue(s, i, e);
    var s1 := VanishAndSettle(s, i, e);
    forall j | 0 <= j < |s1.slots| && s1.slots[j].task.Some?
      ensures HeldBy(s1, s1.slots[j].task.value, j)
      ensures s1.slots[j].task.value in s1.tasks && s1.slots[j].task.value !in s1.queue
    {
      var k := if j < i then j else j + 1;
      assert s1.slots[j] == s.slots[k] && HeldBy(s, s.slots[k].task.value, k);
      assert s.slots[k].id != s.slots[i].id;
    }
  }

  lemma VanishKeepsCore(s: State, i: nat, e: Error)
    requires Core(s) && i < |s.slots|
    ensures Core(VanishAndSettle(s, i, e))
  {
    VanishKeepsQueue(s, i, e);
    VanishKeepsSlots(s, i, e);
    var s1 := VanishAndSettle(s, i, e);
    assert |s1.tasks| <= |s.tasks|;
    forall u | u in s1.tasks && u !in s1.queue
      ensures Held(s1, u)
    {
      var k: nat :| HeldBy(s, u, k);
      assert k != i;
      var j := if k < i then k else k - 1;
      assert s1.slots[j] == s.slots[k] && HeldBy(s1, u, j);
    }
  }

  lemma MessageKeepsInv(s: State, id: nat, t: nat, r: Result, host: Host)
    requires Inv(s)
    ensures Inv(Message(s, id, t, r, host))
  {
    var i := Find(s.slots, id);
    if i < |s.slots| && s.slots[i].task == Some(t) && t !in s.settled && s.slots[i].retiring.None? {
      ReleaseKeepsCore(s, i, r);
      WithoutIsRemoval(s.queue, t);
      DrainConserves(Settle(Release(s, i), t, r), host);
    }
  }

  lemma TerminatedKeepsInv(s: State, id: nat, host: Host)
    requires Inv(s)
    ensures Inv(Terminated(s, id, host))
  {
    hide Core, VanishAndSettle, Drain, QueuePending;
    var i := Find(s.slots, id);
    if i < |s.slots| && s.slots[i].retiring.Some? {
      var slot := s.slots[i];
      VanishKeepsCore(s, i, slot.retiring.value);
      VanishKeepsQueue(s, i, slot.retiring.value);
      DrainConserves(VanishAndSettle(s, i, slot.retiring.value), host);
    }
  }

  lemma RetireKeepsInv(s: State, i: nat, e: Error)
    requires Inv(s) && i < |s.slots|
    ensures Inv(Retire(s, i, e))
  {
    RetireKeepsCore(s, i, e);
  }

  lemma CancelKeepsInv(s: State, t: nat, e: Error, host: Host)
    requires Inv(s)
    ensures Inv(Cancel(s, t, e, host))
  {
    if t in s.tasks && t !in s.settled {
      if t in s.holder {
        var i := Find(s.slots, s.holder[t]);
        if i < |s.slots| {
          RetireKeepsInv(s, i, e);
        }
      } else {
        assert t in s.queue by {
          assert t in s.queue || Held(s, t);
        }
        WithoutIsRemoval(s.queue, t);
        SettleKeepsCore(s, t, Failure(e));
        DrainConserves(Settle(s, t, Failure(e)), host);
      }
    }
  }

  /** Settling the front of the queue takes it off and nothing else. */
  lemma SettleFront(s: State, t: nat, r: Result)
    requires Core(s) && s.queue != [] && t == s.queue[0]
    ensures var s1 := Settle(s, t, r);
            && Core(s1) && t !in s.settled && s1.queue == s.queue[1..]
            && s1 == s.(queue := s.queue[1..], settled := s.settled[t := r], tasks := s1.tasks)
  {
    assert t in s.queue;
    SettleKeepsCore(s, t, r);
    assert s.queue == [t] + s.queue[1..];
  }

  lemma {:induction false} SettleAllEmpties(s: State, ts: seq<nat>, r: Result)
    requires Core(s) && ts == s.queue
    ensures var s1 := SettleAll(s, ts, r);
            Core(s1) && s1 == s.(queue := [], settled := s1.settled, tasks := s1.tasks)
    ensures SettleAll(s, ts, r).settled.Keys == s.settled.Keys + (set t | t in ts)
    ensures forall t :: t in SettleAll(s, ts, r).settled ==>
              SettleAll(s, ts, r).settled[t] == if t in s.settled then s.settled[t] else r
    decreases |ts|
  {
    hide Core, Settle;
    if ts != [] {
      SettleFront(s, ts[0], r);
      assert ts == [ts[0]] + ts[1..];
      SettleAllEmpties(Settle(s, ts[0], r), ts[1..], r);
    }
  }

  ghost predicate OnlyRetired(s: State, s1: State, n: nat, e: Error) {
    && |s1.slots| == |s.slots| && s1 == s.(slots := s1.slots)
    && (forall i :: 0 <= i < |s.slots| ==>
          s1.slots[i] == if i < n && s.slots[i].retiring.None? then s.slots[i].(retiring := Some(e)) else s.slots[i])
  }

  lemma {:induction false} RetireAllRetires(s: State, n: nat, e: Error)
    requires n <= |s.slots|
    ensures OnlyRetired(s, RetireAll(s, n, e), n, e)
  {
    if n > 0 {
      RetireAllRetires(s, n - 1, e);
    }
  }

  lemma OnlyRetiredKeepsCore(s: State, s1: State, n: nat, e: Error)
    requires Core(s) && OnlyRetired(s, s1, n, e)
    ensures Core(s1)
  {
    forall j | 0 <= j < |s1.slots| && s1.slots[j].task.Some?
      ensures HeldBy(s1, s1.slots[j].task.value, j)
    {
      assert HeldBy(s, s.slots[j].task.value, j);
    }
    forall u | u in s1.tasks && u !in s1.queue
      ensures Held(s1, u)
    {
      var j :| HeldBy(s, u, j);
      assert HeldBy(s1, u, j);
    }
  }

  lemma CloseCore(s: State)
    requires Core(s)
    ensures Core(s.(closed := true))
  {
    var s0 := s.(closed := true);
    forall i | 0 <= i < |s.slots| && s.slots[i].task.Some?
      ensures HeldBy(s0, s.slots[i].task.value, i)
    {
      assert HeldBy(s, s.slots[i].task.value, i);
    }
    forall u | u in s.tasks && u !in s.queue
      ensures Held(s0, u)
    {
      var j :| HeldBy(s, u, j);
      assert HeldBy(s0, u, j);
    }
  }

  lemma CloseKeepsInv(s: State)
    requires Inv(s)
    ensures Inv(Close(s))
    ensures Close(s).closed && Close(s).queue == [] && |Close(s).slots| == |s.slots|
  {
    hide Core, SettleAll, RetireAll, QueuePending;
    var s0 := s.(closed := true);
    CloseCore(s);
    SettleAllEmpties(s0, s.queue, Failure(CLOSED));
    var s1 := SettleAll(s0, s.queue, Failure(CLOSED));
    RetireAllRetires(s1, |s1.slots|, CLOSED);
    OnlyRetiredKeepsCore(s1, Close(s), |s1.slots|, CLOSED);
    CoreGivesPending(Close(s));
  }

  lemma StepKeepsInv(s: State, ev: Event)
    requires Inv(s)
    ensures Inv(Step(s, ev))
  {
    hide Inv, Accept, Message, Retire, Terminated, Cancel, Close;
    match ev
    case Evaluate(aborted, oversized, host) =>
      if !Rejects(s, aborted, oversized) {
        AcceptKeepsInv(s, host);
      }
    case WorkerMessage(id, t, r, host) => MessageKeepsInv(s, id, t, r, host);
    case WorkerFault(id, e) =>
      var i := Find(s.slots, id);
      if i < |s.slots| {
        RetireKeepsInv(s, i, e);
      }
    case WorkerGone(id, host) => TerminatedKeepsInv(s, id, host);
    case CancelTask(t, e, host) => CancelKeepsInv(s, t, e, host);
    case ClosePool => CloseKeepsInv(s);
  }

  // ---------------------------------------------------------------------------
  // Runs
  // ---------------------------------------------------------------------------

  ghost function Run(s: State, evs: seq<Event>): (s1: State)
    requires Inv(s)
    ensures Inv(s1)
    decreases |evs|
  {
    if evs == [] then s
    else
      StepKeepsInv(s, evs[0]);
      Run(Step(s, evs[0]), evs[1..])
  }

  lemma InitialInv(workers: nat, maxPending: nat)
    requires workers >= 1 && maxPending >= 1
    ensures Inv(Initial(workers, maxPending))
  {
  }

  /**
   In every reachable state each accepted task is in exactly one place: waiting in the queue, run by
   exactly one worker that names it, or settled.  The two budgets hold, no work waits while a worker
   could take it, tasks were dispatched in the order they were accepted, and a closed pool without
   workers owes nothing.
   */
  lemma Conservation(workers: nat, maxPending: nat, evs: seq<Event>)
    requires workers >= 1 && maxPending >= 1
    ensures InitialOk(workers, maxPending)
    ensures var s := Run(Initial(workers, maxPending), evs);
            && |s.tasks| <= s.maxPending && |s.slots| <= s.workers
            && (forall t :: 1 <= t <= s.nextID ==>
                  (t in s.queue && !Held(s, t) && t !in s.settled)
                  || (t !in s.queue && Held(s, t) && t !in s.settled)
                  || (t !in s.queue && !Held(s, t) && t in s.settled))
            && (forall t: nat, i: nat, j: nat :: HeldBy(s, t, i) && HeldBy(s, t, j) ==> i == j)
            && WorkConserving(s)
            && Increasing(s.dispatched)
            && (s.closed && s.slots == [] ==> s.tasks == {})
  {
    InitialInv(workers, maxPending);
    var s := Run(Initial(workers, maxPending), evs);
    forall t | 1 <= t <= s.nextID
      ensures (t in s.queue && !Held(s, t) && t !in s.settled)
           || (t !in s.queue && Held(s, t) && t !in s.settled)
           || (t !in s.queue && !Held(s, t) && t in s.settled)
    {
      if Held(s, t) {
        var i: nat :| HeldBy(s, t, i);
        assert s.slots[i].task.value == t;
      }
    }
    forall t: nat, i: nat, j: nat | HeldBy(s, t, i) && HeldBy(s, t, j)
      ensures i == j
    {
      assert s.slots[i].id == s.slots[j].id;
    }
    assert forall t :: t in s.tasks ==> t in s.queue || Held(s, t);
  }

  ghost predicate InitialOk(workers: nat, maxPending: nat) {
    Inv(Initial(workers, maxPending))
  }

  // ---------------------------------------------------------------------------
  // What settles a task
  // ---------------------------------------------------------------------------

  /** `drain` leaves busy and retiring workers alone, and settles only what it cannot start a worker for. */
  ghost predicate DrainFrame(s: State, s1: State, host: Host) {
    && s1.closed == s.closed && s1.nextID == s.nextID
    && |s.slots| <= |s1.slots|
    && (forall i :: 0 <= i < |s.slots| ==>
          && s1.slots[i].id == s.slots[i].id
          && (s.slots[i].task.Some? || s.slots[i].retiring.Some? ==> s1.slots[i] == s.slots[i]))
    && s.nextSlot <= s1.nextSlot
    && (forall i :: |s.slots| <= i < |s1.slots| ==> s1.slots[i].id >= s.nextSlot)
    && (forall t :: t in s.settled ==> t in s1.settled && s1.settled[t] == s.settled[t])
    && (forall t :: t in s1.settled && t !in s.settled ==>
          t in s.queue && t in host.spawnFails && s1.settled[t] == Failure(SPAWN_FAILED))
  }

  lemma DispatchFrame(s: State, i: nat, host: Host)
    requires s.queue != [] && i < |s.slots| && s.slots[i].task.None? && s.slots[i].retiring.None?
    ensures var s1 := Dispatch(s, i, host);
            && s1.closed == s.closed && s1.nextID == s.nextID && s1.nextSlot == s.nextSlot && s1.settled == s.settled
            && |s1.slots| == |s.slots|
            && (forall j :: 0 <= j < |s.slots| ==> s1.slots[j].id == s.slots[j].id && (j != i ==> s1.slots[j] == s.slots[j]))
  {
  }

  lemma DrainStepFrame(s: State, host: Host)
    requires QueuePending(s) && s.queue != []
    ensures DrainFrame(s, DrainStep(s, host), host)
  {
    var i := FirstIdle(s.slots);
    if i < |s.slots| {
      DispatchFrame(s, i, host);
    } else if |s.slots| < s.workers && s.queue[0] !in host.spawnFails {
      DispatchFrame(CreateSlot(s), |s.slots|, host);
    }
  }

  lemma {:induction false} DrainChanges(s: State, host: Host)
    requires QueuePending(s)
    ensures DrainFrame(s, Drain(s, host), host)
    ensures s.closed || s.queue == [] ==> Drain(s, host) == s
    decreases |s.queue|
  {
    if !s.closed && s.queue != [] && DrainStep(s, host) != s {
      DrainStepFrame(s, host);
      DrainStepShortens(s, host);
      var s1 := DrainStep(s, host);
      DrainChanges(s1, host);
      var s2 := Drain(s1, host);
      assert forall t :: t in s1.queue ==> t in s.queue;
      forall i | 0 <= i < |s.slots|
        ensures s2.slots[i].id == s.slots[i].id
        ensures s.slots[i].task.Some? || s.slots[i].retiring.Some? ==> s2.slots[i] == s.slots[i]
      {
        assert s1.slots[i].id == s.slots[i].id;
      }
      forall i | |s.slots| <= i < |s2.slots|
        ensures s2.slots[i].id >= s.nextSlot
      {
        if i < |s1.slots| {
          assert s2.slots[i].id == s1.slots[i].id;
        }
      }
    }
  }

  ghost predicate RunsOn(s: State, t: nat, slot: nat, e: Option<Error>) {
    exists i: nat :: HeldBy(s, t, i) && s.slots[i].id == slot && s.slots[i].retiring == e
  }

  predicate HasSlot(s: State, slot: nat) {
    exists i :: 0 <= i < |s.slots| && s.slots[i].id == slot
  }

  /** The one step that may have given task `t` its outcome, and with what. */
  ghost predicate Accounted(s: State, ev: Event, s1: State, t: nat)
    requires t in s1.settled
  {
    match ev
    case WorkerMessage(slot, u, r, host) =>
      || (u == t && RunsOn(s, t, slot, None) && s1.settled[t] == r)
      || (t in s.queue && t in host.spawnFails && s1.settled[t] == Failure(SPAWN_FAILED))
    case WorkerGone(slot, host) =>
      || (exists e :: RunsOn(s, t, slot, Some(e)) && s1.settled[t] == Failure(e) && !HasSlot(s1, slot))
      || (t in s.queue && t in host.spawnFails && s1.settled[t] == Failure(SPAWN_FAILED))
    case CancelTask(u, e, host) =>
      || (u == t && t in s.queue && s1.settled[t] == Failure(e))
      || (t in s.queue && t in host.spawnFails && s1.settled[t] == Failure(SPAWN_FAILED))
    case Evaluate(_, _, host) =>
      (t in s.queue || t == s.nextID + 1) && t in host.spawnFails && s1.settled[t] == Failure(SPAWN_FAILED)
    case ClosePool => t in s.queue && s1.settled[t] == Failure(CLOSED)
    case WorkerFault(_, _) => false
  }

  lemma MessageShape(s: State, id: nat, t: nat, r: Result, host: Host)
    requires Inv(s)
    ensures var i := Find(s.slots, id);
            if i == |s.slots| || s.slots[i].task != Some(t) || t in s.settled || s.slots[i].retiring.Some?
            then Message(s, id, t, r, host) == s
            else
              var s0 := Settle(Release(s, i), t, r);
              && HeldBy(s, t, i) && QueuePending(s0) && s0.settled == s.settled[t := r] && s0.queue == s.queue
              && Message(s, id, t, r, host) == Drain(s0, host)
  {
    hide Core, Drain, QueuePending;
    var i := Find(s.slots, id);
    if i < |s.slots| && s.slots[i].task == Some(t) && t !in s.settled && s.slots[i].retiring.None? {
      ReleaseShape(s, i, r);
      ReleaseKeepsCore(s, i, r);
      CoreGivesPending(Settle(Release(s, i), t, r));
    }
  }

  lemma MessageSettles(s: State, id: nat, t: nat, r: Result, host: Host)
    requires Inv(s)
    ensures var s1, ev := Message(s, id, t, r, host), WorkerMessage(id, t, r, host);
            && (forall u :: u in s.settled ==> u in s1.settled && s1.settled[u] == s.settled[u])
            && (forall u :: u in s1.settled && u !in s.settled ==> Accounted(s, ev, s1, u))
  {
    hide Core, Settle, Release, Drain, Message, QueuePending, HeldBy;
    MessageShape(s, id, t, r, host);
    var i := Find(s.slots, id);
    if i < |s.slots| && s.slots[i].task == Some(t) && t !in s.settled && s.slots[i].retiring.None? {
      assert RunsOn(s, t, id, None);
      DrainChanges(Settle(Release(s, i), t, r), host);
    }
  }

  lemma VanishSettles(s: State, i: nat, e: Error)
    requires Core(s) && i < |s.slots|
    ensures var s1, x := VanishAndSettle(s, i, e), s.slots[i];
            && s1.settled == (if x.task.Some? then s.settled[x.task.value := Failure(e)] else s.settled)
            && (x.task.Some? ==> HeldBy(s, x.task.value, i) && x.task.value !in s.settled)
            && (forall j :: 0 <= j < |s1.slots| ==> s1.slots[j].id != x.id)
            && x.id < s.nextSlot == s1.nextSlot
  {
    hide Core, Without;
    SlotFacts(s, i);
    VanishKeepsQueue(s, i, e);
  }

  lemma TerminatedSettles(s: State, id: nat, host: Host)
    requires Inv(s)
    ensures var s1, ev := Terminated(s, id, host), WorkerGone(id, host);
            && (forall u :: u in s.settled ==> u in s1.settled && s1.settled[u] == s.settled[u])
            && (forall u :: u in s1.settled && u !in s.settled ==> Accounted(s, ev, s1, u))
            && (RetiringAt(s, id) ==> !HasSlot(s1, id))
  {
    hide Core, VanishAndSettle, Drain, QueuePending, HeldBy;
    var i := Find(s.slots, id);
    if i < |s.slots| && s.slots[i].retiring.Some? {
      var e := s.slots[i].retiring.value;
      VanishKeepsQueue(s, i, e);
      VanishSettles(s, i, e);
      VanishKeepsPending(s, i, e);
      var s0 := VanishAndSettle(s, i, e);
      DrainChanges(s0, host);
      var s1 := Terminated(s, id, host);
      forall j | 0 <= j < |s1.slots|
        ensures s1.slots[j].id != id
      {
        if j < |s0.slots| {
          assert s1.slots[j].id == s0.slots[j].id;
        }
      }
      if s.slots[i].task.Some? {
        assert RunsOn(s, s.slots[i].task.value, id, Some(e));
      }
    }
  }

  lemma AcceptSettles(s: State, aborted: bool, oversized: bool, host: Host)
    requires Inv(s)
    ensures var s1, ev := Accept(s, host), Evaluate(aborted, oversized, host);
            && (forall u :: u in s.settled ==> u in s1.settled && s1.settled[u] == s.settled[u])
            && (forall u :: u in s1.settled && u !in s.settled ==> Accounted(s, ev, s1, u))
  {
    EnqueueIsPending(s);
    DrainChanges(Enqueue(s), host);
  }

  lemma CancelSettles(s: State, t: nat, e: Error, host: Host)
    requires Inv(s)
    ensures var s1, ev := Cancel(s, t, e, host), CancelTask(t, e, host);
            && (forall u :: u in s.settled ==> u in s1.settled && s1.settled[u] == s.settled[u])
            && (forall u :: u in s1.settled && u !in s.settled ==> Accounted(s, ev, s1, u))
  {
    hide SlotsWellFormed, OrderWellFormed, Drain, Increasing;
    if t in s.tasks && t !in s.settled && t !in s.holder {
      assert t in s.queue || Held(s, t);
      WithoutIsRemoval(s.queue, t);
      var s0 := Settle(s, t, Failure(e));
      assert s0.settled == s.settled[t := Failure(e)];
      DrainChanges(s0, host);
    }
  }

  lemma CloseSettles(s: State)
    requires Inv(s)
    ensures (forall u :: u in s.settled ==> u in Close(s).settled && Close(s).settled[u] == s.settled[u])
         && (forall u :: u in Close(s).settled && u !in s.settled ==> Accounted(s, ClosePool, Close(s), u))
  {
    CloseCore(s);
    var s0 := s.(closed := true);
    SettleAllEmpties(s0, s.queue, Failure(CLOSED));
    RetireAllRetires(SettleAll(s0, s.queue, Failure(CLOSED)), |s.slots|, CLOSED);
  }

  predicate RetiringAt(s: State, id: nat) {
    var i := Find(s.slots, id);
    i < |s.slots| && s.slots[i].retiring.Some?
  }

  /**
   An outcome, once given, never changes, and every new outcome is accounted for: a value comes only
   from the message of the worker that runs the task, a cancelled task that had been dispatched fails
   only when its worker is gone, and everything else happens to queued tasks alone.
   */
  lemma WhatSettles(s: State, ev: Event)
    requires Inv(s)
    ensures forall t :: t in s.settled ==> t in Step(s, ev).settled && Step(s, ev).settled[t] == s.settled[t]
    ensures forall t :: t in Step(s, ev).settled && t !in s.settled ==> Accounted(s, ev, Step(s, ev), t)
  {
    hide Inv, Accept, Message, Terminated, Cancel, Close, Accounted;
    match ev
    case Evaluate(aborted, oversized, host) =>
      if !Rejects(s, aborted, oversized) {
        AcceptSettles(s, aborted, oversized, host);
      }
    case WorkerMessage(id, t, r, host) => MessageSettles(s, id, t, r, host);
    case WorkerFault(id, e) =>
    case WorkerGone(id, host) => TerminatedSettles(s, id, host);
    case CancelTask(t, e, host) => CancelSettles(s, t, e, host);
    case ClosePool => CloseSettles(s);
  }

  // ---------------------------------------------------------------------------
  // The fate of a cancelled task, and of a closed pool
  // ---------------------------------------------------------------------------

  lemma AcceptCounts(s: State, host: Host)
    requires Inv(s)
    ensures Accept(s, host).nextID == s.nextID + 1
  {
    EnqueueIsPending(s);
    DrainChanges(Enqueue(s), host);
  }

  /** What `drain` cannot touch. */
  lemma DrainKeepsRetiring(s: State, i: nat, slot: Slot, host: Host)
    requires QueuePending(s) && i < |s.slots| && s.slots[i] == slot && slot.retiring.Some?
    ensures slot in Drain(s, host).slots
  {
    DrainChanges(s, host);
    assert Drain(s, host).slots[i] == slot;
  }

  lemma AcceptKeepsRetiring(s: State, host: Host, i: nat)
    requires Inv(s) && i < |s.slots| && s.slots[i].retiring.Some?
    ensures s.slots[i] in Accept(s, host).slots
  {
    EnqueueIsPending(s);
    DrainKeepsRetiring(Enqueue(s), i, s.slots[i], host);
  }

  lemma MessageKeepsRetiring(s: State, id: nat, t: nat, r: Result, host: Host, i: nat)
    requires Inv(s) && i < |s.slots| && s.slots[i].retiring.Some?
    ensures s.slots[i] in Message(s, id, t, r, host).slots
  {
    var k := Find(s.slots, id);
    if k < |s.slots| && s.slots[k].task == Some(t) && t !in s.settled && s.slots[k].retiring.None? {
      WithoutIsRemoval(s.queue, t);
      DrainKeepsRetiring(Settle(Release(s, k), t, r), i, s.slots[i], host);
    }
  }

  lemma TerminatedKeepsRetiring(s: State, id: nat, host: Host, i: nat)
    requires Inv(s) && i < |s.slots| && s.slots[i].retiring.Some? && s.slots[i].id != id
    ensures s.slots[i] in Terminated(s, id, host).slots
  {
    var k := Find(s.slots, id);
    if k < |s.slots| && s.slots[k].retiring.Some? {
      var e := s.slots[k].retiring.value;
      VanishKeepsQueue(s, k, e);
      VanishKeepsPending(s, k, e);
      DrainKeepsRetiring(VanishAndSettle(s, k, e), if i < k then i else i - 1, s.slots[i], host);
    }
  }

  lemma CloseKeepsRetiring(s: State, i: nat)
    requires Inv(s) && i < |s.slots| && s.slots[i].retiring.Some?
    ensures s.slots[i] in Close(s).slots
  {
    CloseCore(s);
    var s0 := s.(closed := true);
    SettleAllEmpties(s0, s.queue, Failure(CLOSED));
    RetireAllRetires(SettleAll(s0, s.queue, Failure(CLOSED)), |s.slots|, CLOSED);
    assert Close(s).slots[i] == s.slots[i];
  }

  /** Only its own exit ends a retiring slot. */
  lemma RetiringSlotStays(s: State, ev: Event, i: nat)
    requires Inv(s) && i < |s.slots| && s.slots[i].retiring.Some?
    requires !(ev.WorkerGone? && ev.slot == s.slots[i].id)
    ensures s.slots[i] in Step(s, ev).slots
  {
    hide Inv, Accept, Message, Terminated, Cancel, Close;
    match ev
    case Evaluate(aborted, oversized, host) =>
      if !Rejects(s, aborted, oversized) {
        AcceptKeepsRetiring(s, host, i);
      }
    case WorkerMessage(id, t, r, host) => MessageKeepsRetiring(s, id, t, r, host, i);
    case WorkerFault(id, e) => assert Step(s, ev).slots[i] == s.slots[i];
    case WorkerGone(id, host) => TerminatedKeepsRetiring(s, id, host, i);
    case CancelTask(t, e, host) => CancelKeepsRetiring(s, t, e, host, i);
    case ClosePool => CloseKeepsRetiring(s, i);
  }

  lemma CancelKeepsRetiring(s: State, t: nat, e: Error, host: Host, i: nat)
    requires Inv(s) && i < |s.slots| && s.slots[i].retiring.Some?
    ensures s.slots[i] in Cancel(s, t, e, host).slots
  {
    if t in s.tasks && t !in s.settled && t !in s.holder {
      assert t in s.queue || Held(s, t);
      WithoutIsRemoval(s.queue, t);
      DrainKeepsRetiring(Settle(s, t, Failure(e)), i, s.slots[i], host);
    } else {
      assert Cancel(s, t, e, host).slots[i] == s.slots[i];
    }
  }

  lemma CancelledStep(s: State, ev: Event, t: nat, slot: nat, e: Error)
    requires Inv(s) && RunsOn(s, t, slot, Some(e))
    ensures RunsOn(Step(s, ev), t, slot, Some(e))
         || (ev.WorkerGone? && ev.slot == slot && t in Step(s, ev).settled && Step(s, ev).settled[t] == Failure(e)
             && !HasSlot(Step(s, ev), slot))
  {
    hide Core, Step;
    var i: nat :| HeldBy(s, t, i) && s.slots[i].id == slot && s.slots[i].retiring == Some(e);
    StepKeepsInv(s, ev);
    var s1 := Step(s, ev);
    if ev.WorkerGone? && ev.slot == slot {
      ExitDelivers(s, i, t, e, ev);
    } else {
      RetiringSlotStays(s, ev, i);
      var j :| 0 <= j < |s1.slots| && s1.slots[j] == s.slots[i];
      SlotFacts(s1, j);
    }
  }

  lemma ExitDelivers(s: State, i: nat, t: nat, e: Error, ev: Event)
    requires Inv(s) && HeldBy(s, t, i) && s.slots[i].retiring == Some(e)
    requires ev.WorkerGone? && ev.slot == s.slots[i].id
    ensures var s1 := Step(s, ev);
            t in s1.settled && s1.settled[t] == Failure(e) && !HasSlot(s1, s.slots[i].id)
  {
    hide Core, VanishAndSettle, Drain, QueuePending, Accounted;
    SlotFacts(s, i);
    TerminatedSettles(s, ev.slot, ev.host);
    VanishKeepsPending(s, i, e);
    VanishSettles(s, i, e);
    DrainChanges(VanishAndSettle(s, i, e), ev.host);
  }

  /** Whatever happens later, a task whose worker is being terminated ends with that reason, if it ends. */
  lemma {:induction false} CancelledFate(s: State, evs: seq<Event>, t: nat, slot: nat, e: Error)
    requires Inv(s) && RunsOn(s, t, slot, Some(e))
    ensures RunsOn(Run(s, evs), t, slot, Some(e))
         || (t in Run(s, evs).settled && Run(s, evs).settled[t] == Failure(e))
    decreases |evs|
  {
    if evs != [] {
      CancelledStep(s, evs[0], t, slot, e);
      StepKeepsInv(s, evs[0]);
      var s1 := Step(s, evs[0]);
      if RunsOn(s1, t, slot, Some(e)) {
        CancelledFate(s1, evs[1..], t, slot, e);
      } else {
        OutcomesStand(s1, evs[1..], t);
      }
    }
  }

  /** A promise is settled once: no later event changes the outcome. */
  lemma {:induction false} OutcomesStand(s: State, evs: seq<Event>, t: nat)
    requires Inv(s) && t in s.settled
    ensures t in Run(s, evs).settled && Run(s, evs).settled[t] == s.settled[t]
    decreases |evs|
  {
    if evs != [] {
      WhatSettles(s, evs[0]);
      StepKeepsInv(s, evs[0]);
      OutcomesStand(Step(s, evs[0]), evs[1..], t);
    }
  }

  /** A closed pool stays closed and only loses workers. */
  lemma ClosedShrinks(s: State, ev: Event)
    requires Inv(s) && s.closed
    ensures Step(s, ev).closed && Step(s, ev).nextID == s.nextID
    ensures forall x :: x in Step(s, ev).slots ==> x in s.slots
    ensures ev.WorkerGone? ==> !HasSlot(Step(s, ev), ev.slot)
  {
    hide Core, WorkConserving, QueuePending, Terminated, Cancel, Close, Accept, Drain;
    match ev
    case Evaluate(_, _, _) =>
    case WorkerMessage(id, t, r, host) => hide Message; MessageWhenShut(s, id, t, r, host);
    case WorkerFault(_, _) =>
    case WorkerGone(id, host) => ExitWhenShut(s, id, host);
    case CancelTask(t, e, host) => CancelWhenShut(s, t, e, host);
    case ClosePool => CloseAgain(s);
  }

  lemma MessageWhenShut(s: State, id: nat, t: nat, r: Result, host: Host)
    requires Inv(s) && s.closed
    ensures Message(s, id, t, r, host) == s
  {
    hide Core, WorkConserving, QueuePending, Drain;
  }

  lemma ExitWhenShut(s: State, id: nat, host: Host)
    requires Inv(s) && s.closed
    ensures var s1 := Terminated(s, id, host);
            && s1.closed && s1.nextID == s.nextID && !HasSlot(s1, id)
            && forall x :: x in s1.slots ==> x in s.slots
  {
    hide Core, WorkConserving, QueuePending, Accounted;
    var i := Find(s.slots, id);
    if i < |s.slots| {
      TerminatedSettles(s, id, host);
      VanishKeepsQueue(s, i, s.slots[i].retiring.value);
    }
  }

  lemma CancelWhenShut(s: State, t: nat, e: Error, host: Host)
    requires Inv(s) && s.closed
    ensures Cancel(s, t, e, host) == s
  {
    hide SlotsWellFormed, OrderWellFormed, WorkConserving, QueuePending, Drain;
    if t in s.tasks && t !in s.settled {
      assert Held(s, t);
    }
  }

  lemma CloseAgain(s: State)
    requires Inv(s) && s.closed
    ensures Close(s) == s
  {
    hide Core, WorkConserving, QueuePending;
    assert s.(closed := true) == s;
    SettleAllEmpties(s, s.queue, Failure(CLOSED));
    RetireAllRetires(s, |s.slots|, CLOSED);
    assert forall i :: 0 <= i < |s.slots| ==> Close(s).slots[i] == s.slots[i];
    assert Close(s).slots == s.slots;
  }

  predicate IsExitOf(ev: Event, slot: nat) {
    ev.WorkerGone? && ev.slot == slot
  }

  predicate GoneIn(evs: seq<Event>, slot: nat) {
    exists k :: 0 <= k < |evs| && IsExitOf(evs[k], slot)
  }

  lemma GoneLater(evs: seq<Event>, slot: nat)
    requires GoneIn(evs, slot) && !IsExitOf(evs[0], slot)
    ensures GoneIn(evs[1..], slot)
  {
    var k :| 0 <= k < |evs| && IsExitOf(evs[k], slot);
    assert IsExitOf(evs[1..][k - 1], slot);
  }

  /** After `close`, the exits of the workers that were left settle every task there was. */
  lemma {:induction false} ClosedPoolSettlesAll(s: State, evs: seq<Event>)
    requires Inv(s) && s.closed
    requires forall x :: x in s.slots ==> GoneIn(evs, x.id)
    ensures Run(s, evs).slots == [] && Run(s, evs).tasks == {} && Run(s, evs).nextID == s.nextID
    ensures forall t :: 1 <= t <= s.nextID ==> t in Run(s, evs).settled
    decreases |evs|
  {
    if evs == [] {
      assert !GoneIn(evs, if |s.slots| == 0 then 0 else s.slots[0].id);
      assert forall t :: t in s.tasks ==> t in s.queue || Held(s, t);
    } else {
      ClosedShrinks(s, evs[0]);
      StepKeepsInv(s, evs[0]);
      var s1 := Step(s, evs[0]);
      forall x | x in s1.slots
        ensures GoneIn(evs[1..], x.id)
      {
        assert HasSlot(s1, x.id);
        GoneLater(evs, x.id);
      }
      ClosedPoolSettlesAll(s1, evs[1..]);
    }
  }

  // ---------------------------------------------------------------------------
  // The handlers themselves
  // ---------------------------------------------------------------------------

  class Pool {
    const workers: nat
    const maxPending: nat
    var slots: seq<Slot>
    var queue: seq<nat>
    var tasks: set<nat>
    var closed: bool
    var nextID: nat
    var nextSlot: nat
    var holder: map<nat, nat>
    var settled: map<nat, Result>
    ghost var dispatched: seq<nat>

    ghost function View(): State
      reads this
    {
      State(workers, maxPending, slots, queue, tasks, closed, nextID, nextSlot, holder, settled, dispatched)
    }

    constructor (workers: nat, maxPending: nat)
      requires workers >= 1 && maxPending >= 1
      ensures View() == Initial(workers, maxPending) && Inv(View())
    {
      this.workers, this.maxPending := workers, maxPending;
      slots, queue, tasks, closed := [], [], {}, false;
      nextID, nextSlot, holder, settled := 0, 0, map[], map[];
      dispatched := [];
      new;
      InitialInv(workers, maxPending);
    }

    method SettleTask(t: nat, r: Result)
      modifies this`settled, this`tasks, this`queue
      ensures View() == Settle(old(View()), t, r)
    {
      if t in settled {
        return;
      }
      settled := settled[t := r];
      tasks := tasks - {t};
      queue := Without(queue, t);
    }

    method RetireSlot(i: nat, e: Error)
      requires i < |slots|
      modifies this`slots
      ensures View() == Retire(old(View()), i, e)
    {
      if slots[i].retiring.None? {
        slots := slots[i := slots[i].(retiring := Some(e))];
      }
    }

    method DispatchTo(i: nat, host: Host)
      requires i < |slots| && queue != []
      modifies this
      ensures View() == Dispatch(old(View()), i, host)
    {
      var t := queue[0];
      queue := queue[1..];
      slots := slots[i := slots[i].(task := Some(t))];
      holder := holder[t := slots[i].id];
      dispatched := dispatched + [t];
      if t in host.postFails {
        RetireSlot(i, POST_FAILED);
      }
    }

    /** One round of the loop in `drain`: false when there is no worker to be had. */
    method DrainRound(host: Host) returns (more: bool)
      requires QueuePending(View()) && queue != []
      modifies this
      ensures View() == DrainStep(old(View()), host)
      ensures more <==> View() != old(View())
    {
      hide QueuePending, Increasing;
      DrainStepShortens(View(), host);
      var i := FirstIdle(slots);
      if i == |slots| && |slots| < workers {
        if queue[0] in host.spawnFails {
          SettleTask(queue[0], Failure(SPAWN_FAILED));
          return true;
        }
        slots, nextSlot := slots + [Slot(nextSlot, None, None)], nextSlot + 1;
      }
      if i == |slots| {
        return false;
      }
      DispatchTo(i, host);
      return true;
    }

    method DrainQueue(host: Host)
      requires QueuePending(View())
      modifies this
      ensures View() == Drain(old(View()), host)
    {
      if closed {
        return;
      }
      var more := true;
      while more && queue != []
        invariant QueuePending(View()) && !closed
        invariant more ==> Drain(View(), host) == Drain(old(View()), host)
        invariant !more ==> View() == Drain(old(View()), host)
        decreases more, |queue|
      {
        ghost var before := View();
        DrainStepShortens(before, host);
        more := DrainRound(host);
      }
    }

    method Evaluate(aborted: bool, oversized: bool, host: Host) returns (id: Option<nat>)
      requires Inv(View())
      modifies this
      ensures View() == Step(old(View()), Event.Evaluate(aborted, oversized, host)) && Inv(View())
      ensures id.None? <==> old(closed) || aborted || |old(tasks)| >= maxPending || oversized
      ensures id.Some? ==> id.value == old(nextID) + 1 == nextID
    {
      StepKeepsInv(View(), Event.Evaluate(aborted, oversized, host));
      if closed || aborted || |tasks| >= maxPending || oversized {
        return None;
      }
      id := Some(nextID + 1);
      AcceptTask(host);
      AcceptCounts(old(View()), host);
    }

    method AcceptTask(host: Host)
      requires Inv(View())
      modifies this
      ensures View() == Accept(old(View()), host)
    {
      EnqueueIsPending(View());
      nextID := nextID + 1;
      tasks := tasks + {nextID};
      queue := queue + [nextID];
      assert View() == Enqueue(old(View()));
      DrainQueue(host);
    }

    method OnMessage(slot: nat, t: nat, r: Result, host: Host)
      requires Inv(View())
      modifies this
      ensures View() == Step(old(View()), WorkerMessage(slot, t, r, host)) && Inv(View())
    {
      hide Inv, Message, Drain, QueuePending, Settle;
      StepKeepsInv(View(), WorkerMessage(slot, t, r, host));
      MessageShape(View(), slot, t, r, host);
      var i := Find(slots, slot);
      if i == |slots| || slots[i].task != Some(t) || t in settled || slots[i].retiring.Some? {
        return;
      }
      slots := slots[i := slots[i].(task := None)];
      holder := holder - {t};
      SettleTask(t, r);
      DrainQueue(host);
    }

    /** The error and exit handlers. */
    method OnFault(slot: nat, e: Error)
      requires Inv(View())
      modifies this
      ensures View() == Step(old(View()), WorkerFault(slot, e)) && Inv(View())
    {
      StepKeepsInv(View(), WorkerFault(slot, e));
      var i := Find(slots, slot);
      if i < |slots| {
        RetireSlot(i, e);
      }
    }

    method OnGone(slot: nat, host: Host)
      requires Inv(View())
      modifies this
      ensures View() == Step(old(View()), WorkerGone(slot, host)) && Inv(View())
    {
      hide Core, Shut, WorkConserving, QueuePending, Settle, Drain;
      StepKeepsInv(View(), WorkerGone(slot, host));
      var i := Find(slots, slot);
      if i == |slots| || slots[i].retiring.None? {
        return;
      }
      var gone := slots[i];
      VanishKeepsPending(View(), i, gone.retiring.value);
      slots := slots[..i] + slots[i + 1..];
      if gone.task.Some? {
        SettleTask(gone.task.value, Failure(gone.retiring.value));
      }
      DrainQueue(host);
    }

    method CancelTask(t: nat, e: Error, host: Host)
      requires Inv(View())
      modifies this
      ensures View() == Step(old(View()), Event.CancelTask(t, e, host)) && Inv(View())
    {
      StepKeepsInv(View(), Event.CancelTask(t, e, host));
      if t in settled || t !in tasks {
        return;
      }
      if t in holder {
        var i := Find(slots, holder[t]);
        if i < |slots| {
          RetireSlot(i, e);
        }
      } else {
        WithoutIsRemoval(queue, t);
        SettleTask(t, Failure(e));
        DrainQueue(host);
      }
    }

    method OnClose()
      requires Inv(View())
      modifies this
      ensures View() == Step(old(View()), ClosePool) && Inv(View())
    {
      StepKeepsInv(View(), ClosePool);
      CloseAll();
    }

    method CloseAll()
      modifies this
      ensures View() == Close(old(View()))
    {
      closed := true;
      SettleQueue();
      var n := 0;
      ghost var all := View();
      while n < |slots|
        invariant 0 <= n <= |slots| == |all.slots|
        invariant View() == RetireAll(all, n, CLOSED)
      {
        RetireSlot(n, CLOSED);
        n := n + 1;
      }
    }

    method SettleQueue()
      modifies this`settled, this`tasks, this`queue
      ensures View() == SettleAll(old(View()), old(queue), Failure(CLOSED))
    {
      var pending := queue;
      var k := 0;
      while k < |pending|
        invariant 0 <= k <= |pending|
        invariant SettleAll(View(), pending[k..], Failure(CLOSED)) == SettleAll(old(View()), pending, Failure(CLOSED))
      {
        SettleTask(pending[k], Failure(CLOSED));
        assert pending[k..][1..] == pending[k + 1..];
        k := k + 1;
      }
    }
  }
}

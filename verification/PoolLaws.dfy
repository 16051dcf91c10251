/** What each event does to the workers of the pool, and why a worker is retired. */
module PoolLaws {
  import opened Options
  import opened WorkerPool

  // `WhatSettles` tells why a task ends.  The laws here are its counterpart for workers: a worker that
  // accepted its job keeps running it, and is retired for the four reasons there are and no other.

  // ---------------------------------------------------------------------------
  // Handing out tasks
  // ---------------------------------------------------------------------------

  predicate Idle(x: Slot) {
    x.task.None? && x.retiring.None?
  }

  /** The slot was given a queued task; it is retiring exactly if the job could not be posted. */
  predicate Handed(s: State, x: Slot, host: Host) {
    x.task.Some? && x.task.value in s.queue
    && x.retiring == if x.task.value in host.postFails then Some(POST_FAILED) else None
  }

  /** Slots keep their places; each is as it was, or was idle or missing and was handed a task. */
  ghost predicate OnlyHandsOut(s: State, s1: State, host: Host) {
    && |s.slots| <= |s1.slots|
    && (forall i :: 0 <= i < |s.slots| ==>
          s1.slots[i] == s.slots[i] || (Idle(s.slots[i]) && s1.slots[i].id == s.slots[i].id && Handed(s, s1.slots[i], host)))
    && (forall i :: |s.slots| <= i < |s1.slots| ==> Handed(s, s1.slots[i], host))
  }

  lemma DispatchHands(s: State, i: nat, host: Host)
    requires s.queue != [] && i < |s.slots| && Idle(s.slots[i])
    ensures var s1 := Dispatch(s, i, host);
            && |s1.slots| == |s.slots| && (forall j :: 0 <= j < |s.slots| && j != i ==> s1.slots[j] == s.slots[j])
            && s1.slots[i].id == s.slots[i].id && Handed(s, s1.slots[i], host)
  {
    assert s.queue[0] in s.queue;
  }

  lemma RoundHandsOut(s: State, host: Host)
    requires s.queue != []
    ensures OnlyHandsOut(s, DrainStep(s, host), host)
  {
    hide Dispatch;
    var i := FirstIdle(s.slots);
    if i < |s.slots| {
      DispatchHands(s, i, host);
    } else if |s.slots| < s.workers && s.queue[0] !in host.spawnFails {
      DispatchHands(CreateSlot(s), |s.slots|, host);
    }
  }

  lemma HandsOutTwice(s: State, s1: State, s2: State, host: Host)
    requires OnlyHandsOut(s, s1, host) && OnlyHandsOut(s1, s2, host) && forall t :: t in s1.queue ==> t in s.queue
    ensures OnlyHandsOut(s, s2, host)
  {
  }

  lemma {:induction false} DrainHandsOut(s: State, host: Host)
    requires QueuePending(s)
    ensures OnlyHandsOut(s, Drain(s, host), host)
    decreases |s.queue|
  {
    if !s.closed && s.queue != [] && DrainStep(s, host) != s {
      var s1 := DrainStep(s, host);
      DrainStepShortens(s, host);
      RoundHandsOut(s, host);
      DrainHandsOut(s1, host);
      HandsOutTwice(s, s1, Drain(s1, host), host);
    }
  }

  /** A worker is started only when none is idle: then all the earlier ones are at work or retiring. */
  lemma {:induction false} WorkersStartWhenNeeded(s: State, host: Host)
    requires QueuePending(s) && |Drain(s, host).slots| > |s.slots|
    ensures forall i :: 0 <= i < |s.slots| ==> !Idle(Drain(s, host).slots[i])
    decreases |s.queue|
  {
    var s1 := DrainStep(s, host);
    DrainStepShortens(s, host);
    if |s1.slots| > |s.slots| {
      RoundStarts(s, host);
      DrainHandsOut(s1, host);
    } else {
      RoundHandsOut(s, host);
      WorkersStartWhenNeeded(s1, host);
    }
  }

  lemma RoundStarts(s: State, host: Host)
    requires s.queue != [] && |DrainStep(s, host).slots| > |s.slots|
    ensures forall i :: 0 <= i < |s.slots| ==> DrainStep(s, host).slots[i] == s.slots[i] && !Idle(s.slots[i])
  {
  }

  // ---------------------------------------------------------------------------
  // Why a worker is retired
  // ---------------------------------------------------------------------------

  /** The slot was there, retiring for that reason already. */
  predicate WasRetiring(s: State, x: Slot) {
    exists y :: y in s.slots && y.id == x.id && y.retiring == x.retiring
  }

  /** The queue an event drains: what waits, and the task just accepted. */
  predicate Waits(s: State, ev: Event, t: nat) {
    t in s.queue || (ev.Evaluate? && t == s.nextID + 1)
  }

  /** The four reasons: its own fault, the cancellation of its task, closing, and a job that could not be posted. */
  predicate MayRetire(s: State, ev: Event, x: Slot) {
    || (ev.WorkerFault? && x.id == ev.slot && x.retiring == Some(ev.error))
    || (ev.CancelTask? && x.task == Some(ev.task) && x.retiring == Some(ev.error))
    || (ev.ClosePool? && x.retiring == Some(CLOSED))
    || ((ev.Evaluate? || ev.WorkerMessage? || ev.WorkerGone? || ev.CancelTask?)
        && x.task.Some? && Waits(s, ev, x.task.value) && x.task.value in ev.host.postFails && x.retiring == Some(POST_FAILED))
  }

  ghost predicate RetiresForReason(s: State, ev: Event, s1: State) {
    forall x :: x in s1.slots && x.retiring.Some? ==> WasRetiring(s, x) || MayRetire(s, ev, x)
  }

  /** What draining `s0` retires, when the slots of `s0` are slots of `s` or no longer retiring. */
  lemma DrainRetires(s: State, ev: Event, s0: State, host: Host)
    requires QueuePending(s0)
    requires forall x :: x in s0.slots && x.retiring.Some? ==> x in s.slots
    requires forall t :: t in s0.queue ==> Waits(s, ev, t)
    requires (ev.Evaluate? || ev.WorkerMessage? || ev.WorkerGone? || ev.CancelTask?) && ev.host == host
    ensures RetiresForReason(s, ev, Drain(s0, host))
  {
    hide Drain, QueuePending;
    DrainHandsOut(s0, host);
    var s1 := Drain(s0, host);
    forall x | x in s1.slots && x.retiring.Some?
      ensures WasRetiring(s, x) || MayRetire(s, ev, x)
    {
      var i :| 0 <= i < |s1.slots| && s1.slots[i] == x;
      if i < |s0.slots| && x == s0.slots[i] {
        assert x in s.slots;
      } else {
        assert Handed(s0, x, host);
      }
    }
  }

  lemma NothingRetires(s: State, ev: Event)
    ensures RetiresForReason(s, ev, s)
  {
  }

  lemma AcceptRetires(s: State, ev: Event)
    requires Inv(s) && ev.Evaluate?
    ensures RetiresForReason(s, ev, Accept(s, ev.host))
  {
    hide Inv, Drain, RetiresForReason, QueuePending;
    EnqueueIsPending(s);
    DrainRetires(s, ev, Enqueue(s), ev.host);
  }

  lemma MessageRetires(s: State, ev: Event)
    requires Inv(s) && ev.WorkerMessage?
    ensures RetiresForReason(s, ev, Message(s, ev.slot, ev.task, ev.result, ev.host))
  {
    hide Inv, Message, Drain, RetiresForReason, QueuePending, HeldBy;
    NothingRetires(s, ev);
    MessageShape(s, ev.slot, ev.task, ev.result, ev.host);
    var i := Find(s.slots, ev.slot);
    if i < |s.slots| && s.slots[i].task == Some(ev.task) && ev.task !in s.settled && s.slots[i].retiring.None? {
      var s0 := Settle(Release(s, i), ev.task, ev.result);
      forall x | x in s0.slots && x.retiring.Some?
        ensures x in s.slots
      {
        var j :| 0 <= j < |s0.slots| && s0.slots[j] == x;
        assert j != i && s.slots[j] == x;
      }
      DrainRetires(s, ev, s0, ev.host);
    }
  }

  lemma ExitRetires(s: State, ev: Event)
    requires Inv(s) && ev.WorkerGone?
    ensures RetiresForReason(s, ev, Terminated(s, ev.slot, ev.host))
  {
    hide Core, VanishAndSettle, Drain, RetiresForReason, QueuePending;
    NothingRetires(s, ev);
    var i := Find(s.slots, ev.slot);
    if i < |s.slots| && s.slots[i].retiring.Some? {
      var e := s.slots[i].retiring.value;
      VanishKeepsQueue(s, i, e);
      VanishKeepsPending(s, i, e);
      DrainRetires(s, ev, VanishAndSettle(s, i, e), ev.host);
    }
  }

  lemma CancelRetires(s: State, ev: Event)
    requires Inv(s) && ev.CancelTask?
    ensures RetiresForReason(s, ev, Cancel(s, ev.task, ev.error, ev.host))
  {
    hide Drain;
    if ev.task in s.tasks && ev.task !in s.settled && ev.task !in s.holder {
      WithoutIsRemoval(s.queue, ev.task);
      DrainRetires(s, ev, Settle(s, ev.task, Failure(ev.error)), ev.host);
    } else if ev.task in s.tasks && ev.task !in s.settled {
      CancelMarksHolder(s, ev);
    }
  }

  lemma CancelMarksHolder(s: State, ev: Event)
    requires Inv(s) && ev.CancelTask? && ev.task in s.tasks && ev.task !in s.settled && ev.task in s.holder
    ensures var i := Find(s.slots, s.holder[ev.task]);
            && i < |s.slots| && HeldBy(s, ev.task, i)
            && Cancel(s, ev.task, ev.error, ev.host) == Retire(s, i, ev.error)
            && RetiresForReason(s, ev, Retire(s, i, ev.error))
  {
    hide OrderWellFormed, WorkConserving, Drain;
    assert ev.task !in s.queue;
    var j: nat :| HeldBy(s, ev.task, j);
    SlotFacts(s, j);
    var i := Find(s.slots, s.holder[ev.task]);
    assert i == j;
    RetireRetires(s, ev, i, ev.error);
  }

  lemma RetireRetires(s: State, ev: Event, i: nat, e: Error)
    requires i < |s.slots|
    requires MayRetire(s, ev, s.slots[i].(retiring := Some(e)))
    ensures RetiresForReason(s, ev, Retire(s, i, e))
  {
    hide MayRetire;
    var s1 := Retire(s, i, e);
    forall x | x in s1.slots && x.retiring.Some?
      ensures WasRetiring(s, x) || MayRetire(s, ev, x)
    {
      var j :| 0 <= j < |s1.slots| && s1.slots[j] == x;
      if x == s.slots[j] {
        assert x in s.slots;
      }
    }
  }

  /** After `close` the queue has failed and every worker is on its way out, for its old reason if it had one. */
  lemma ClosingRetiresAll(s: State)
    requires Inv(s)
    ensures var s1 := Close(s);
            && s1.closed && s1.queue == [] && |s1.slots| == |s.slots|
            && (forall i :: 0 <= i < |s.slots| ==>
                  s1.slots[i] == if s.slots[i].retiring.Some? then s.slots[i] else s.slots[i].(retiring := Some(CLOSED)))
            && (forall t :: t in s.queue ==> t in s1.settled && s1.settled[t] == Failure("JSONata executor is closed"))
  {
    hide Core, SettleAll, RetireAll;
    CloseCore(s);
    var s0 := s.(closed := true);
    SettleAllEmpties(s0, s.queue, Failure(CLOSED));
    RetireAllRetires(SettleAll(s0, s.queue, Failure(CLOSED)), |s.slots|, CLOSED);
    QueueIsUnsettled(s);
  }

  lemma QueueIsUnsettled(s: State)
    requires Core(s)
    ensures forall t :: t in s.queue ==> t !in s.settled && t in s.tasks && t !in s.holder
  {
  }

  lemma CloseRetires(s: State)
    requires Inv(s)
    ensures RetiresForReason(s, ClosePool, Close(s))
  {
    hide Inv, Close;
    ClosingRetiresAll(s);
    var s1 := Close(s);
    forall x | x in s1.slots && x.retiring.Some?
      ensures WasRetiring(s, x) || MayRetire(s, ClosePool, x)
    {
      var j :| 0 <= j < |s1.slots| && s1.slots[j] == x;
      if s.slots[j].retiring.Some? {
        assert x in s.slots;
      }
    }
  }

  /** After any event a worker is retiring only if it was before, or for one of the four reasons. */
  lemma WhatRetires(s: State, ev: Event)
    requires Inv(s)
    ensures RetiresForReason(s, ev, Step(s, ev))
  {
    hide Inv, Accept, Message, Terminated, Cancel, Close, RetiresForReason;
    NothingRetires(s, ev);
    match ev
    case Evaluate(_, _, _) => AcceptRetires(s, ev);
    case WorkerMessage(_, _, _, _) => MessageRetires(s, ev);
    case WorkerFault(id, e) =>
      var i := Find(s.slots, id);
      if i < |s.slots| {
        RetireRetires(s, ev, i, e);
      }
    case WorkerGone(_, _) => ExitRetires(s, ev);
    case CancelTask(_, _, _) => CancelRetires(s, ev);
    case ClosePool => CloseRetires(s);
  }

  // ---------------------------------------------------------------------------
  // What each event is for
  // ---------------------------------------------------------------------------

  /** The host that takes part in the event, if one does. */
  function HostOf(ev: Event): Option<Host> {
    match ev
    case Evaluate(_, _, host) => Some(host)
    case WorkerMessage(_, _, _, host) => Some(host)
    case WorkerGone(_, host) => Some(host)
    case CancelTask(_, _, host) => Some(host)
    case _ => None
  }

  /** A task that an event hands out runs, unless its job could not be posted. */
  lemma HandedTasksRun(s: State, ev: Event, t: nat)
    requires Inv(s) && HostOf(ev).Some? && Waits(s, ev, t) && Held(Step(s, ev), t)
    ensures var reason := if t in HostOf(ev).value.postFails then Some(POST_FAILED) else None;
            exists slot :: RunsOn(Step(s, ev), t, slot, reason)
  {
    StepKeepsInv(s, ev);
    var s1 := Step(s, ev);
    var i: nat :| HeldBy(s1, t, i);
    StepHands(s, ev, t, i);
    assert RunsOn(s1, t, s1.slots[i].id, s1.slots[i].retiring);
  }

  lemma StepHands(s: State, ev: Event, t: nat, i: nat)
    requires Inv(s) && HostOf(ev).Some? && Waits(s, ev, t) && i < |Step(s, ev).slots| && Step(s, ev).slots[i].task == Some(t)
    ensures Step(s, ev).slots[i].retiring == if t in HostOf(ev).value.postFails then Some(POST_FAILED) else None
  {
    hide Core, Accept, Message, Terminated, Cancel, Drain;
    NotYetHeld(s, t);
    match ev
    case Evaluate(aborted, oversized, host) =>
      if !Rejects(s, aborted, oversized) {
        AcceptHands(s, host, t, i);
      }
    case WorkerMessage(id, u, r, host) => MessageHands(s, id, u, r, host, t, i);
    case WorkerGone(id, host) => ExitHands(s, id, host, t, i);
    case CancelTask(u, e, host) => CancelHands(s, u, e, host, t, i);
  }

  predicate Unheld(s: State, t: nat) {
    forall i :: 0 <= i < |s.slots| ==> s.slots[i].task != Some(t)
  }

  /** A waiting task, and the next one to come, is in no slot. */
  lemma NotYetHeld(s: State, t: nat)
    requires Inv(s) && (t in s.queue || t == s.nextID + 1)
    ensures Unheld(s, t)
  {
    hide OrderWellFormed, WorkConserving, Shut;
    forall i | 0 <= i < |s.slots| && s.slots[i].task.Some?
      ensures s.slots[i].task != Some(t)
    {
      SlotFacts(s, i);
    }
  }

  lemma DrainHands(s0: State, host: Host, t: nat, i: nat)
    requires QueuePending(s0) && Unheld(s0, t)
    requires i < |Drain(s0, host).slots| && Drain(s0, host).slots[i].task == Some(t)
    ensures Drain(s0, host).slots[i].retiring == if t in host.postFails then Some(POST_FAILED) else None
  {
    hide Drain, QueuePending;
    DrainHandsOut(s0, host);
  }

  lemma AcceptHands(s: State, host: Host, t: nat, i: nat)
    requires Inv(s) && Unheld(s, t)
    requires i < |Accept(s, host).slots| && Accept(s, host).slots[i].task == Some(t)
    ensures Accept(s, host).slots[i].retiring == if t in host.postFails then Some(POST_FAILED) else None
  {
    hide Inv, Drain, QueuePending;
    EnqueueIsPending(s);
    DrainHands(Enqueue(s), host, t, i);
  }

  lemma MessageHands(s: State, id: nat, u: nat, r: Result, host: Host, t: nat, i: nat)
    requires Inv(s) && Unheld(s, t)
    requires i < |Message(s, id, u, r, host).slots| && Message(s, id, u, r, host).slots[i].task == Some(t)
    ensures Message(s, id, u, r, host).slots[i].retiring == if t in host.postFails then Some(POST_FAILED) else None
  {
    hide Inv, Message, Drain, QueuePending, HeldBy;
    MessageShape(s, id, u, r, host);
    var k := Find(s.slots, id);
    if k < |s.slots| && s.slots[k].task == Some(u) && u !in s.settled && s.slots[k].retiring.None? {
      DrainHands(Settle(Release(s, k), u, r), host, t, i);
    }
  }

  lemma ExitHands(s: State, id: nat, host: Host, t: nat, i: nat)
    requires Inv(s) && Unheld(s, t)
    requires i < |Terminated(s, id, host).slots| && Terminated(s, id, host).slots[i].task == Some(t)
    ensures Terminated(s, id, host).slots[i].retiring == if t in host.postFails then Some(POST_FAILED) else None
  {
    hide Core, VanishAndSettle, Drain, QueuePending;
    var k := Find(s.slots, id);
    if k < |s.slots| && s.slots[k].retiring.Some? {
      var e := s.slots[k].retiring.value;
      VanishKeepsQueue(s, k, e);
      VanishKeepsPending(s, k, e);
      DrainHands(VanishAndSettle(s, k, e), host, t, i);
    }
  }

  lemma CancelHands(s: State, u: nat, e: Error, host: Host, t: nat, i: nat)
    requires Inv(s) && Unheld(s, t)
    requires i < |Cancel(s, u, e, host).slots| && Cancel(s, u, e, host).slots[i].task == Some(t)
    ensures Cancel(s, u, e, host).slots[i].retiring == if t in host.postFails then Some(POST_FAILED) else None
  {
    hide Drain;
    if u in s.tasks && u !in s.settled && u !in s.holder {
      WithoutIsRemoval(s.queue, u);
      DrainHands(Settle(s, u, Failure(e)), host, t, i);
    }
  }

  lemma RunnerOf(s: State, t: nat, slot: nat, e: Option<Error>) returns (i: nat)
    requires Core(s) && RunsOn(s, t, slot, e)
    ensures i < |s.slots| && Find(s.slots, slot) == i && s.slots[i] == Slot(slot, Some(t), e) && HeldBy(s, t, i)
    ensures t in s.tasks && t !in s.settled && t !in s.queue
  {
    hide Core;
    var k: nat :| HeldBy(s, t, k) && s.slots[k].id == slot && s.slots[k].retiring == e;
    i := k;
    SlotFacts(s, i);
  }

  /** The message of the worker that runs a task settles it with the worker's result and frees the worker. */
  lemma MessagesDeliver(s: State, slot: nat, t: nat, r: Result, host: Host)
    requires Inv(s) && RunsOn(s, t, slot, None)
    ensures var s1 := Step(s, WorkerMessage(slot, t, r, host));
            && t in s1.settled && s1.settled[t] == r
            && HasSlot(s1, slot) && !Held(s1, t)
  {
    hide Core, Shut, WorkConserving, QueuePending, Drain, Message;
    var i := RunnerOf(s, t, slot, None);
    MessageShape(s, slot, t, r, host);
    var s0 := Settle(Release(s, i), t, r);
    DrainChanges(s0, host);
    var s1 := Message(s, slot, t, r, host);
    assert s1.slots[i].id == slot;
    StepKeepsInv(s, WorkerMessage(slot, t, r, host));
    SettledIsUnheld(s1, t);
  }

  lemma SettledIsUnheld(s: State, t: nat)
    requires Core(s) && t in s.settled
    ensures !Held(s, t)
  {
    hide Core;
    if Held(s, t) {
      var i: nat :| HeldBy(s, t, i);
      SlotFacts(s, i);
    }
  }

  /** A fault retires the worker it names, for the first reason given, and nothing else changes. */
  lemma FaultsRetire(s: State, i: nat, e: Error)
    requires Inv(s) && i < |s.slots|
    ensures var s1 := Step(s, WorkerFault(s.slots[i].id, e));
            && s1 == s.(slots := s1.slots) && |s1.slots| == |s.slots|
            && (forall j :: 0 <= j < |s.slots| ==>
                  s1.slots[j] == if j == i && s.slots[j].retiring.None? then s.slots[j].(retiring := Some(e)) else s.slots[j])
  {
    hide Core;
    SlotFacts(s, i);
  }

  /** Cancelling: a waiting task fails at once, a running one has its worker retired and waits for its exit. */
  lemma CancellingActs(s: State, t: nat, e: Error, host: Host)
    requires Inv(s)
    ensures var s1 := Step(s, CancelTask(t, e, host));
            && (t in s.queue ==> t in s1.settled && s1.settled[t] == Failure(e))
            && (forall slot, reason :: RunsOn(s, t, slot, reason) ==>
                  RunsOn(s1, t, slot, if reason.Some? then reason else Some(e)) && t !in s1.settled)
            && (t !in s.tasks ==> s1 == s)
  {
    hide Drain;
    if t in s.queue {
      WithoutIsRemoval(s.queue, t);
      DrainChanges(Settle(s, t, Failure(e)), host);
    }
    forall slot, reason | RunsOn(s, t, slot, reason)
      ensures var s1 := Step(s, CancelTask(t, e, host));
              RunsOn(s1, t, slot, if reason.Some? then reason else Some(e)) && t !in s1.settled
    {
      CancelKeepsRunner(s, t, slot, reason, e, host);
    }
  }

  lemma CancelKeepsRunner(s: State, t: nat, slot: nat, reason: Option<Error>, e: Error, host: Host)
    requires Inv(s) && RunsOn(s, t, slot, reason)
    ensures var s1 := Cancel(s, t, e, host);
            RunsOn(s1, t, slot, if reason.Some? then reason else Some(e)) && t !in s1.settled
  {
    hide Core, Drain;
    var i := RunnerOf(s, t, slot, reason);
    var s1 := Cancel(s, t, e, host);
    assert s1 == Retire(s, i, e);
    assert HeldBy(s1, t, i);
  }

  /** An admitted evaluation takes the next number; it waits, runs, or failed because no worker could be started. */
  lemma EvaluationsEnter(s: State, aborted: bool, oversized: bool, host: Host)
    requires Inv(s)
    ensures var s1 := Step(s, Event.Evaluate(aborted, oversized, host));
            if s.closed || aborted || oversized || |s.tasks| >= s.maxPending then s1 == s
            else
              var t := s.nextID + 1;
              && s1.nextID == t
              && (t in s1.queue || Held(s1, t) || (t in host.spawnFails && t in s1.settled && s1.settled[t] == Failure(SPAWN_FAILED)))
  {
    hide Drain, Core, QueuePending;
    StepKeepsInv(s, Event.Evaluate(aborted, oversized, host));
    if !(s.closed || aborted || oversized || |s.tasks| >= s.maxPending) {
      AcceptCounts(s, host);
      WhatSettles(s, Event.Evaluate(aborted, oversized, host));
      KnownTask(Accept(s, host), s.nextID + 1);
      KnownTask(s, s.nextID + 1);
    }
  }

  /** Where a numbered task can be. */
  lemma KnownTask(s: State, t: nat)
    requires Core(s)
    ensures 1 <= t <= s.nextID ==> t in s.queue || Held(s, t) || t in s.settled
    ensures t > s.nextID ==> t !in s.settled
  {
    hide SlotsWellFormed, OrderWellFormed;
  }

  /** What concerns no worker, or not the task it runs, changes nothing. */
  lemma StrayEventsAreIgnored(s: State, id: nat, t: nat, r: Result, e: Error, host: Host)
    requires Inv(s)
    ensures !RunsOn(s, t, id, None) ==> Step(s, WorkerMessage(id, t, r, host)) == s
    ensures !HasSlot(s, id) ==> Step(s, WorkerFault(id, e)) == s && Step(s, WorkerGone(id, host)) == s
    ensures (forall x :: x in s.slots && x.id == id ==> x.retiring.None?) ==> Step(s, WorkerGone(id, host)) == s
  {
    hide Core, Drain, Message;
    MessageShape(s, id, t, r, host);
    var i := Find(s.slots, id);
    if i < |s.slots| {
      assert s.slots[i] in s.slots;
    }
  }

  // ---------------------------------------------------------------------------
  // Budgets
  // ---------------------------------------------------------------------------

  predicate SameBudgets(s: State, s1: State) {
    s1.workers == s.workers && s1.maxPending == s.maxPending
  }

  lemma {:induction false} DrainKeepsBudgets(s: State, host: Host)
    requires QueuePending(s)
    ensures SameBudgets(s, Drain(s, host))
    decreases |s.queue|
  {
    if !s.closed && s.queue != [] && DrainStep(s, host) != s {
      DrainStepShortens(s, host);
      DrainKeepsBudgets(DrainStep(s, host), host);
    }
  }

  lemma StepKeepsBudgets(s: State, ev: Event)
    requires Inv(s)
    ensures SameBudgets(s, Step(s, ev))
  {
    hide Core, Drain, Message, Close;
    match ev
    case Evaluate(_, _, host) =>
      EnqueueIsPending(s);
      DrainKeepsBudgets(Enqueue(s), host);
    case WorkerMessage(id, t, r, host) =>
      MessageShape(s, id, t, r, host);
      var i := Find(s.slots, id);
      if i < |s.slots| && s.slots[i].task == Some(t) && t !in s.settled && s.slots[i].retiring.None? {
        DrainKeepsBudgets(Settle(Release(s, i), t, r), host);
      }
    case WorkerFault(_, _) =>
    case WorkerGone(id, host) =>
      var i := Find(s.slots, id);
      if i < |s.slots| && s.slots[i].retiring.Some? {
        VanishKeepsPending(s, i, s.slots[i].retiring.value);
        DrainKeepsBudgets(VanishAndSettle(s, i, s.slots[i].retiring.value), host);
      }
    case CancelTask(t, e, host) =>
      if t in s.tasks && t !in s.settled && t !in s.holder {
        WithoutIsRemoval(s.queue, t);
        DrainKeepsBudgets(Settle(s, t, Failure(e)), host);
      }
    case ClosePool => CloseKeepsBudgets(s);
  }

  lemma CloseKeepsBudgets(s: State)
    requires Inv(s)
    ensures SameBudgets(s, Close(s))
  {
    hide Core;
    CloseCore(s);
    var s0 := s.(closed := true);
    SettleAllEmpties(s0, s.queue, Failure(CLOSED));
    RetireAllRetires(SettleAll(s0, s.queue, Failure(CLOSED)), |s.slots|, CLOSED);
  }

  /** No run changes the budgets the pool was made with. */
  lemma {:induction false} BudgetsStand(s: State, evs: seq<Event>)
    requires Inv(s)
    ensures SameBudgets(s, Run(s, evs))
    decreases |evs|
  {
    if evs != [] {
      StepKeepsInv(s, evs[0]);
      StepKeepsBudgets(s, evs[0]);
      BudgetsStand(Step(s, evs[0]), evs[1..]);
    }
  }
}

/** The monitor of threads/synchlist.cc on top of the Lock and Condition of threads/synch.cc.

    Any number of threads call Append and RemoveFront over and over.  A step is one
    statement of one thread, so threads interleave at least wherever interrupts are
    re-enabled: also between the end of `semaphore->P()` and the store to `lockHolder`, and
    between a thread's look at the list and its update.  An ASSERT that fails, a removal
    from an empty list or a V on a deleted semaphore puts the thread in `Failed`. */
module SynchLists {
  import opened Options
  import opened Semaphores

  /** Why a thread is acquiring the lock; `Retake` is the re-acquire inside Wait. */
  datatype Op<T> = Put(item: T) | Take | Retake

  /** Why a thread is releasing it: to sleep in Wait, or to return. */
  datatype Exit<T> = ToSleep | PutDone | TakeDone(item: T)

  datatype Pc<T> =
    | Idle
    // Lock::Acquire
    | LockTest(op: Op<T>, woken: bool)
    | LockSleep(op: Op<T>)
    | LockTaken(op: Op<T>)
    // SynchList::Append
    | PutRead(item: T)
    | PutWrite(item: T, seen: seq<T>)
    | PutSignal
    | PutPost(target: Thread)
    // SynchList::RemoveFront
    | TakeTest(again: bool)
    | TakeRead
    | TakeWrite(seen: seq<T>)
    // Condition::Wait
    | WaitEnqueue
    | WaitTest
    | WaitSleep
    // Lock::Release
    | Unhold(exit: Exit<T>)
    | LockPost(exit: Exit<T>)
    | Failed

  /** `waiter` holds the semaphore each Wait allocates, named after its thread, and
      `waitQueue` the threads whose semaphore is queued on the condition.
      `owner`, `appended` and `removed` are history: who decremented the lock's semaphore,
      and the items in the order the list got and lost them. */
  datatype State<T> = State(
    lock: Sem, lockHolder: Option<Thread>,
    waitQueue: seq<Thread>, waiter: map<Thread, Sem>,
    list: seq<T>,
    pc: map<Thread, Pc<T>>,
    owner: Option<Thread>, appended: seq<T>, removed: seq<T>)

  ghost predicate Init<T>(s: State<T>) {
    && s.lock == Sem(1, []) && s.lockHolder == None && s.owner == None
    && s.waitQueue == [] && s.waiter == map[]
    && s.list == s.appended == s.removed == []
    && forall t | t in s.pc :: s.pc[t] == Idle
  }

  // ---------------------------------------------------------------------------------
  // One step of thread t.

  function Goto<T>(s: State<T>, t: Thread, pc: Pc<T>): State<T> {
    s.(pc := s.pc[t := pc])
  }

  /** A thread taken off a semaphore's queue becomes ready to test the value again. */
  function Ready<T>(pc: map<Thread, Pc<T>>, woken: Option<Thread>): (r: map<Thread, Pc<T>>)
    ensures r.Keys == pc.Keys
  {
    if woken.None? || woken.value !in pc then pc
    else match pc[woken.value]
      case LockSleep(op) => pc[woken.value := LockTest(op, true)]
      case WaitSleep => pc[woken.value := WaitTest]
      case _ => pc
  }

  function StepAcquire<T>(s: State<T>, t: Thread): (r: State<T>)
    requires t in s.pc && (s.pc[t].LockTest? || s.pc[t].LockTaken?)
    ensures r.pc.Keys == s.pc.Keys
  {
    match s.pc[t]
    case LockTest(op, _) =>
      var (lock, ok) := TryP(s.lock, t);
      if ok then Goto(s.(lock := lock, owner := Some(t)), t, LockTaken(op))
      else if t in s.lock.queue then Goto(s, t, Failed)
      else Goto(s.(lock := lock), t, LockSleep(op))
    case LockTaken(op) =>
      var s := s.(lockHolder := Some(t));
      match op
      case Put(item) => Goto(s, t, PutRead(item))
      case Take => Goto(s, t, TakeTest(false))
      case Retake => Goto(s.(waiter := s.waiter - {t}), t, TakeTest(true))
  }

  predicate Putting<T>(pc: Pc<T>) {
    pc.PutRead? || pc.PutWrite? || pc.PutSignal? || pc.PutPost?
  }

  function StepPut<T>(s: State<T>, t: Thread): (r: State<T>)
    requires t in s.pc && Putting(s.pc[t])
    ensures r.pc.Keys == s.pc.Keys
  {
    match s.pc[t]
    case PutRead(item) => Goto(s, t, PutWrite(item, s.list))
    case PutWrite(item, seen) =>
      Goto(s.(list := seen + [item], appended := s.appended + [item]), t, PutSignal)
    case PutSignal =>
      if s.lockHolder != Some(t) then Goto(s, t, Failed)
      else if s.waitQueue == [] then Goto(s, t, Unhold(PutDone))
      else Goto(s.(waitQueue := s.waitQueue[1..]), t, PutPost(s.waitQueue[0]))
    case PutPost(w) =>
      if w !in s.waiter then Goto(s, t, Failed)
      else
        var (sem, woken) := Post(s.waiter[w]);
        Goto(s.(waiter := s.waiter[w := sem], pc := Ready(s.pc, woken)), t, Unhold(PutDone))
  }

  function StepTake<T>(s: State<T>, t: Thread): (r: State<T>)
    requires t in s.pc && (s.pc[t].TakeTest? || s.pc[t].TakeRead? || s.pc[t].TakeWrite?)
    ensures r.pc.Keys == s.pc.Keys
  {
    match s.pc[t]
    case TakeTest(_) => Goto(s, t, if s.list == [] then WaitEnqueue else TakeRead)
    case TakeRead => Goto(s, t, if s.list == [] then Failed else TakeWrite(s.list))
    case TakeWrite(seen) =>
      if seen == [] then Goto(s, t, Failed)
      else Goto(s.(list := seen[1..], removed := s.removed + [seen[0]]), t, Unhold(TakeDone(seen[0])))
  }

  function StepWait<T>(s: State<T>, t: Thread): (r: State<T>)
    requires t in s.pc && (s.pc[t].WaitEnqueue? || s.pc[t].WaitTest?)
    ensures r.pc.Keys == s.pc.Keys
  {
    match s.pc[t]
    case WaitEnqueue =>
      if s.lockHolder != Some(t) then Goto(s, t, Failed)
      else Goto(s.(waiter := s.waiter[t := Sem(0, [])], waitQueue := s.waitQueue + [t]), t, Unhold(ToSleep))
    case WaitTest =>
      if t !in s.waiter then Goto(s, t, Failed)
      else
        var (sem, ok) := TryP(s.waiter[t], t);
        Goto(s.(waiter := s.waiter[t := sem]), t, if ok then LockTest(Retake, false) else WaitSleep)
  }

  function StepRelease<T>(s: State<T>, t: Thread): (r: State<T>)
    requires t in s.pc && (s.pc[t].Unhold? || s.pc[t].LockPost?)
    ensures r.pc.Keys == s.pc.Keys
  {
    match s.pc[t]
    case Unhold(exit) =>
      if s.lockHolder != Some(t) then Goto(s, t, Failed)
      else Goto(s.(lockHolder := None), t, LockPost(exit))
    case LockPost(exit) =>
      var (lock, woken) := Post(s.lock);
      Goto(s.(lock := lock, owner := None, pc := Ready(s.pc, woken)), t, if exit.ToSleep? then WaitTest else Idle)
  }

  /** Thread `t` executes one statement; an idle thread starts the call it is given.  A
      sleeping thread cannot move. */
  function Step<T>(s: State<T>, t: Thread, call: Op<T>): (r: State<T>)
    ensures r.pc.Keys == s.pc.Keys
  {
    if t !in s.pc then s
    else match s.pc[t]
      case Idle => if call.Retake? then s else Goto(s, t, LockTest(call, false))
      case LockTest(_, _) => StepAcquire(s, t)
      case LockTaken(_) => StepAcquire(s, t)
      case PutRead(_) => StepPut(s, t)
      case PutWrite(_, _) => StepPut(s, t)
      case PutSignal => StepPut(s, t)
      case PutPost(_) => StepPut(s, t)
      case TakeTest(_) => StepTake(s, t)
      case TakeRead => StepTake(s, t)
      case TakeWrite(_) => StepTake(s, t)
      case WaitEnqueue => StepWait(s, t)
      case WaitTest => StepWait(s, t)
      case Unhold(_) => StepRelease(s, t)
      case LockPost(_) => StepRelease(s, t)
      case LockSleep(_) => s
      case WaitSleep => s
      case Failed => s
  }

  function Run<T>(s: State<T>, schedule: seq<(Thread, Op<T>)>): State<T>
    decreases |schedule|
  {
    if schedule == [] then s
    else Run(Step(s, schedule[0].0, schedule[0].1), schedule[1..])
  }

  // ---------------------------------------------------------------------------------
  // What every step keeps.

  /** Between Acquire's decrement and Release's increment. */
  predicate InLock<T>(pc: Pc<T>) {
    pc.LockTaken? || pc.LockPost? || Holds(pc)
  }

  predicate Holds<T>(pc: Pc<T>) {
    || pc.PutRead? || pc.PutWrite? || pc.PutSignal? || pc.PutPost?
    || pc.TakeTest? || pc.TakeRead? || pc.TakeWrite? || pc.WaitEnqueue? || pc.Unhold?
  }

  /** In Wait, after queueing the semaphore and before P on it returns. */
  predicate Waiting<T>(pc: Pc<T>) {
    pc == Unhold(ToSleep) || pc == LockPost(ToSleep) || pc.WaitTest? || pc.WaitSleep?
  }

  predicate Retaking<T>(pc: Pc<T>) {
    (pc.LockTest? || pc.LockSleep? || pc.LockTaken?) && pc.op.Retake?
  }

  ghost predicate MutexInv<T>(s: State<T>) {
    && s.lock.value == (if s.owner.None? then 1 else 0)
    && (s.owner.Some? ==> s.owner.value in s.pc)
    && (forall t | t in s.pc :: InLock(s.pc[t]) <==> s.owner == Some(t))
    && (forall t | t in s.pc :: Holds(s.pc[t]) <==> s.lockHolder == Some(t))
    && (s.lockHolder.Some? ==> s.lockHolder.value in s.pc)
    && (forall t | t in s.pc :: !s.pc[t].Failed?)
  }

  /** What mutual exclusion says of one thread. */
  ghost predicate MutexAt<T>(s: State<T>, t: Thread)
    requires t in s.pc
  {
    && (InLock(s.pc[t]) <==> s.owner == Some(t)) && (Holds(s.pc[t]) <==> s.lockHolder == Some(t))
    && (s.owner.Some? ==> s.owner.value in s.pc)
  }

  ghost function LockWoken<T>(s: State<T>): set<Thread> {
    set t | t in s.pc && s.pc[t].LockTest? && s.pc[t].woken
  }

  ghost predicate LockQueueInv<T>(s: State<T>) {
    && Distinct(s.lock.queue)
    && (forall t :: t in s.lock.queue <==> t in s.pc && s.pc[t].LockSleep?)
    && (s.lock.queue != [] && s.lock.value > 0 ==> LockWoken(s) != {})
  }

  /** Some thread is about to V thread t's semaphore. */
  ghost predicate Posting<T>(s: State<T>, t: Thread) {
    s.owner.Some? && s.owner.value in s.pc && s.pc[s.owner.value] == PutPost(t)
  }

  ghost predicate WaiterInv<T>(s: State<T>, t: Thread)
    requires t in s.pc
  {
    var pc := s.pc[t];
    && (t in s.waiter <==> Waiting(pc) || Retaking(pc))
    && (Waiting(pc) ==> s.waiter[t] == Sem(if t in s.waitQueue || Posting(s, t) then 0 else 1,
                                           if pc.WaitSleep? then [t] else []))
    && (pc.WaitSleep? ==> t in s.waitQueue || Posting(s, t))
    && (Retaking(pc) ==> s.waiter[t] == Sem(0, []))
    && (t in s.waitQueue ==> Waiting(pc))
    && (pc.PutPost? ==> pc.target in s.pc && Waiting(s.pc[pc.target]) && pc.target !in s.waitQueue)
  }

  ghost predicate ConditionInv<T>(s: State<T>) {
    && Distinct(s.waitQueue)
    && (forall t | t in s.waitQueue :: t in s.pc)
    && (forall t | t in s.pc :: WaiterInv(s, t))
  }

  /** What thread t has seen of the list is still true of it. */
  ghost predicate Seen<T>(s: State<T>, t: Thread)
    requires t in s.pc
  {
    var pc := s.pc[t];
    && (pc.PutWrite? ==> pc.seen == s.list)
    && (pc.TakeRead? ==> s.list != [])
    && (pc.TakeWrite? ==> pc.seen == s.list != [])
    && (pc.WaitEnqueue? ==> s.list == [])
  }

  ghost predicate ListInv<T>(s: State<T>) {
    && s.appended == s.removed + s.list
    && forall t | t in s.pc :: Seen(s, t)
  }

  /** A thread that will look at the list, or has promised to take an item or to signal:
      one item may be left to each while others wait. */
  ghost predicate Credit<T>(s: State<T>, t: Thread)
    requires t in s.pc
  {
    var pc := s.pc[t];
    || (Waiting(pc) && t !in s.waitQueue) || Retaking(pc) || pc == TakeTest(true)
    || pc.TakeRead? || pc.TakeWrite? || pc.PutSignal?
  }

  ghost function Credits<T>(s: State<T>): set<Thread> {
    set t | t in s.pc && Credit(s, t)
  }

  ghost predicate WakeInv<T>(s: State<T>) {
    s.waitQueue != [] ==> |s.list| <= |Credits(s)|
  }

  ghost predicate Inv<T>(s: State<T>) {
    MutexInv(s) && LockQueueInv(s) && ConditionInv(s) && ListInv(s) && WakeInv(s)
  }

  // ---------------------------------------------------------------------------------
  // Each kind of step keeps each part.

  lemma {:induction false} AcquireKeepsMutex<T>(s: State<T>, t: Thread)
    requires MutexInv(s) && LockQueueInv(s)
    requires t in s.pc && (s.pc[t].LockTest? || s.pc[t].LockTaken?)
    ensures MutexInv(StepAcquire(s, t))
  {
    var s' := StepAcquire(s, t);
    forall u | u in s'.pc
      ensures InLock(s'.pc[u]) <==> s'.owner == Some(u)
      ensures Holds(s'.pc[u]) <==> s'.lockHolder == Some(u)
    {
    }
  }

  lemma {:induction false} AcquireKeepsQueue<T>(s: State<T>, t: Thread)
    requires MutexInv(s) && LockQueueInv(s)
    requires t in s.pc && (s.pc[t].LockTest? || s.pc[t].LockTaken?)
    ensures LockQueueInv(StepAcquire(s, t))
  {
  }

  lemma {:induction false} AcquireKeepsWaiter<T>(s: State<T>, t: Thread, u: Thread)
    requires s.lock.value == if s.owner.None? then 1 else 0
    requires t in s.pc && t !in s.lock.queue && (s.pc[t].LockTest? || s.pc[t].LockTaken?)
    requires u in s.pc && MutexAt(s, t) && MutexAt(s, u) && WaiterInv(s, t) && WaiterInv(s, u)
    ensures WaiterInv(StepAcquire(s, t), u)
  {
    var s' := StepAcquire(s, t);
    assert u != t ==> s'.pc[u] == s.pc[u];
    assert Posting(s', u) == Posting(s, u);
    hide Posting;
  }

  lemma {:induction false} AcquireKeepsCondition<T>(s: State<T>, t: Thread)
    requires MutexInv(s) && LockQueueInv(s) && ConditionInv(s)
    requires t in s.pc && (s.pc[t].LockTest? || s.pc[t].LockTaken?)
    ensures ConditionInv(StepAcquire(s, t))
  {
    assert forall u | u in s.pc :: MutexAt(s, u);
    assert t !in s.lock.queue;
    hide LockQueueInv, WaiterInv, MutexAt;
    var s' := StepAcquire(s, t);
    forall u | u in s'.pc ensures WaiterInv(s', u) {
      AcquireKeepsWaiter(s, t, u);
    }
  }

  lemma {:induction false} PutKeepsAt<T>(s: State<T>, t: Thread, u: Thread)
    requires t in s.pc && Putting(s.pc[t]) && u in s.pc
    requires MutexAt(s, t) && MutexAt(s, u) && WaiterInv(s, t) && !s.pc[u].Failed?
    requires s.pc[t].PutPost? ==> s.pc[t].target in s.pc && WaiterInv(s, s.pc[t].target)
    ensures var s' := StepPut(s, t); MutexAt(s', u) && !s'.pc[u].Failed?
  {
  }

  lemma {:induction false} PutKeepsMutex<T>(s: State<T>, t: Thread)
    requires MutexInv(s) && ConditionInv(s)
    requires t in s.pc && Putting(s.pc[t])
    ensures MutexInv(StepPut(s, t))
  {
    assert WaiterInv(s, t);
    var s' := StepPut(s, t);
    forall u | u in s'.pc
      ensures MutexAt(s', u) && !s'.pc[u].Failed?
    {
      PutKeepsAt(s, t, u);
    }
    hide WaiterInv;
  }

  lemma {:induction false} PutLeavesLockers<T>(s: State<T>, t: Thread, u: Thread)
    requires t in s.pc && Putting(s.pc[t]) && u in s.pc
    requires s.pc[t].PutPost? ==> var w := s.pc[t].target; w in s.pc && Waiting(s.pc[w]) && WaiterInv(s, w)
    ensures var p, q := s.pc[u], StepPut(s, t).pc[u];
            p.LockTest? || p.LockSleep? || q.LockTest? || q.LockSleep? ==> q == p
  {
    hide Posting;
  }

  lemma {:induction false} PutKeepsQueue<T>(s: State<T>, t: Thread)
    requires MutexInv(s) && LockQueueInv(s) && ConditionInv(s)
    requires t in s.pc && Putting(s.pc[t])
    ensures LockQueueInv(StepPut(s, t))
  {
    var s' := StepPut(s, t);
    assert s'.lock == s.lock && WaiterInv(s, t);
    hide MutexInv, StepPut, Waiting, Posting;
    forall u | u in s.pc
      ensures var p, q := s.pc[u], s'.pc[u]; p.LockTest? || p.LockSleep? || q.LockTest? || q.LockSleep? ==> q == p
    {
      PutLeavesLockers(s, t, u);
    }
    assert LockWoken(s') == LockWoken(s);
  }

  lemma {:induction false} SignalKeepsWaiter<T>(s: State<T>, t: Thread, u: Thread)
    requires MutexInv(s) && Distinct(s.waitQueue)
    requires t in s.pc && s.pc[t].PutSignal?
             && (s.waitQueue != [] ==> s.waitQueue[0] in s.pc && WaiterInv(s, s.waitQueue[0]))
    requires u in s.pc && WaiterInv(s, t) && WaiterInv(s, u)
    ensures WaiterInv(StepPut(s, t), u)
  {
    var s' := StepPut(s, t);
    assert s.owner == Some(t) && s.lockHolder == Some(t) && u != t ==> !InLock(s.pc[u]);
    hide MutexInv;
    if s.waitQueue != [] {
      var w := s.waitQueue[0];
      RestAt(s.waitQueue, u);
      RestAt(s.waitQueue, w);
      assert Posting(s', u) <==> u == w;
    }
    assert !Posting(s, u);
    hide Distinct, Posting;
  }

  lemma {:induction false} SignalKeepsCondition<T>(s: State<T>, t: Thread)
    requires MutexInv(s) && ConditionInv(s)
    requires t in s.pc && s.pc[t].PutSignal?
    ensures ConditionInv(StepPut(s, t))
  {
    hide MutexInv, WaiterInv;
    var s' := StepPut(s, t);
    if s.waitQueue != [] {
      assert s.waitQueue[0] in s.waitQueue && s.waitQueue == [s.waitQueue[0]] + s.waitQueue[1..];
    }
    forall u | u in s'.pc ensures WaiterInv(s', u) {
      SignalKeepsWaiter(s, t, u);
    }
  }

  lemma {:induction false} PostKeepsWaiter<T>(s: State<T>, t: Thread, u: Thread)
    requires MutexInv(s)
    requires t in s.pc && s.pc[t].PutPost? && s.pc[t].target in s.pc && WaiterInv(s, s.pc[t].target)
    requires u in s.pc && WaiterInv(s, t) && WaiterInv(s, u)
    ensures WaiterInv(StepPut(s, t), u)
  {
    var s', w := StepPut(s, t), s.pc[t].target;
    assert s.owner == Some(t) && (u != t ==> !InLock(s.pc[u])) && t != w;
    hide MutexInv;
    assert Posting(s, u) <==> u == w;
    assert !Posting(s', u);
    hide Posting;
  }

  lemma {:induction false} PostKeepsCondition<T>(s: State<T>, t: Thread)
    requires MutexInv(s) && ConditionInv(s)
    requires t in s.pc && s.pc[t].PutPost?
    ensures ConditionInv(StepPut(s, t))
  {
    var s' := StepPut(s, t);
    assert WaiterInv(s, t);
    hide MutexInv, WaiterInv;
    forall u | u in s'.pc ensures WaiterInv(s', u) {
      PostKeepsWaiter(s, t, u);
    }
  }

  lemma {:induction false} PutKeepsCondition<T>(s: State<T>, t: Thread)
    requires MutexInv(s) && ConditionInv(s)
    requires t in s.pc && Putting(s.pc[t])
    ensures ConditionInv(StepPut(s, t))
  {
    if s.pc[t].PutSignal? {
      SignalKeepsCondition(s, t);
    } else if s.pc[t].PutPost? {
      PostKeepsCondition(s, t);
    } else {
      var s' := StepPut(s, t);
      forall u | u in s'.pc ensures WaiterInv(s', u) {
        assert WaiterInv(s, u);
      }
    }
  }

  lemma {:induction false} TakeKeepsMutex<T>(s: State<T>, t: Thread)
    requires MutexInv(s) && LockQueueInv(s) && ListInv(s)
    requires t in s.pc && (s.pc[t].TakeTest? || s.pc[t].TakeRead? || s.pc[t].TakeWrite?)
    ensures MutexInv(StepTake(s, t)) && LockQueueInv(StepTake(s, t))
  {
  }

  lemma {:induction false} TakeKeepsWaiter<T>(s: State<T>, t: Thread, u: Thread)
    requires t in s.pc && (s.pc[t].TakeTest? || s.pc[t].TakeRead? || s.pc[t].TakeWrite?)
    requires u in s.pc && MutexAt(s, t) && MutexAt(s, u) && WaiterInv(s, t) && WaiterInv(s, u)
    ensures WaiterInv(StepTake(s, t), u)
  {
    assert !Posting(s, u) && !Posting(StepTake(s, t), u);
    hide Posting;
  }

  lemma {:induction false} TakeKeepsCondition<T>(s: State<T>, t: Thread)
    requires MutexInv(s) && ConditionInv(s)
    requires t in s.pc && (s.pc[t].TakeTest? || s.pc[t].TakeRead? || s.pc[t].TakeWrite?)
    ensures ConditionInv(StepTake(s, t))
  {
    assert forall u | u in s.pc :: MutexAt(s, u);
    hide MutexInv, WaiterInv, MutexAt;
    var s' := StepTake(s, t);
    forall u | u in s'.pc ensures WaiterInv(s', u) {
      TakeKeepsWaiter(s, t, u);
    }
  }

  lemma {:induction false} WaitKeepsMutex<T>(s: State<T>, t: Thread)
    requires MutexInv(s) && ConditionInv(s)
    requires t in s.pc && (s.pc[t].WaitEnqueue? || s.pc[t].WaitTest?)
    ensures MutexInv(StepWait(s, t))
  {
    assert WaiterInv(s, t);
  }

  lemma {:induction false} WaitKeepsQueue<T>(s: State<T>, t: Thread)
    requires LockQueueInv(s) && MutexInv(s)
    requires t in s.pc && (s.pc[t].WaitEnqueue? || s.pc[t].WaitTest?)
    ensures LockQueueInv(StepWait(s, t))
  {
  }

  lemma {:induction false} WaitKeepsWaiter<T>(s: State<T>, t: Thread, u: Thread)
    requires t in s.pc && (s.pc[t].WaitEnqueue? || s.pc[t].WaitTest?)
    requires u in s.pc && MutexAt(s, t) && MutexAt(s, u) && WaiterInv(s, t) && WaiterInv(s, u)
    requires Posting(s, t) ==> s.owner != Some(t)
    ensures WaiterInv(StepWait(s, t), u)
  {
    var s' := StepWait(s, t);
    assert Posting(s', u) == Posting(s, u);
    hide Posting;
  }

  lemma {:induction false} WaitKeepsCondition<T>(s: State<T>, t: Thread)
    requires MutexInv(s) && ConditionInv(s)
    requires t in s.pc && (s.pc[t].WaitEnqueue? || s.pc[t].WaitTest?)
    ensures ConditionInv(StepWait(s, t))
  {
    assert forall u | u in s.pc :: MutexAt(s, u);
    assert WaiterInv(s, t);
    hide MutexInv, MutexAt;
    var s' := StepWait(s, t);
    forall u | u in s'.pc ensures WaiterInv(s', u) {
      hide WaiterInv;
      WaitKeepsWaiter(s, t, u);
    }
  }

  lemma {:induction false} ReleaseKeepsMutexAt<T>(s: State<T>, t: Thread, u: Thread)
    requires t in s.pc && (s.pc[t].Unhold? || s.pc[t].LockPost?)
    requires s.lock.queue != [] ==> s.lock.queue[0] in s.pc && s.pc[s.lock.queue[0]].LockSleep?
    requires u in s.pc && MutexAt(s, t) && MutexAt(s, u) && !s.pc[u].Failed?
    ensures MutexAt(StepRelease(s, t), u) && !StepRelease(s, t).pc[u].Failed?
  {
  }

  lemma {:induction false} ReleaseKeepsMutex<T>(s: State<T>, t: Thread)
    requires MutexInv(s) && LockQueueInv(s)
    requires t in s.pc && (s.pc[t].Unhold? || s.pc[t].LockPost?)
    ensures MutexInv(StepRelease(s, t))
  {
    assert forall u | u in s.pc :: MutexAt(s, u);
    assert s.lock.queue != [] ==> s.lock.queue[0] in s.lock.queue;
    var s' := StepRelease(s, t);
    forall u | u in s'.pc ensures MutexAt(s', u) && !s'.pc[u].Failed? {
      ReleaseKeepsMutexAt(s, t, u);
    }
    hide LockQueueInv, Ready;
  }

  lemma {:induction false} ReleaseKeepsQueue<T>(s: State<T>, t: Thread)
    requires MutexInv(s) && LockQueueInv(s)
    requires t in s.pc && (s.pc[t].Unhold? || s.pc[t].LockPost?)
    ensures LockQueueInv(StepRelease(s, t))
  {
    hide MutexInv;
    var s' := StepRelease(s, t);
    if s.pc[t].LockPost? && s.lock.queue != [] {
      var w := s.lock.queue[0];
      assert w in s.lock.queue && w in LockWoken(s');
      hide LockWoken;
      forall u ensures u in s'.lock.queue <==> u in s'.pc && s'.pc[u].LockSleep? {
        RestAt(s.lock.queue, u);
      }
    } else {
      assert LockWoken(s') == LockWoken(s);
    }
  }

  lemma {:induction false} ReleaseKeepsWaiter<T>(s: State<T>, t: Thread, u: Thread)
    requires t in s.pc && (s.pc[t].Unhold? || s.pc[t].LockPost?)
    requires s.lock.queue != [] ==> s.lock.queue[0] in s.pc && s.pc[s.lock.queue[0]].LockSleep?
    requires u in s.pc && MutexAt(s, t) && MutexAt(s, u) && WaiterInv(s, t) && WaiterInv(s, u)
    ensures WaiterInv(StepRelease(s, t), u)
  {
    var s' := StepRelease(s, t);
    assert s.owner == Some(t);
    assert !Posting(s, u) && !Posting(s', u);
    assert u != t ==> s'.pc[u] == s.pc[u] || (s.pc[u].LockSleep? && s'.pc[u] == LockTest(s.pc[u].op, true));
    hide Posting;
  }

  lemma {:induction false} ReleaseKeepsCondition<T>(s: State<T>, t: Thread)
    requires MutexInv(s) && LockQueueInv(s) && ConditionInv(s)
    requires t in s.pc && (s.pc[t].Unhold? || s.pc[t].LockPost?)
    ensures ConditionInv(StepRelease(s, t))
  {
    assert forall u | u in s.pc :: MutexAt(s, u);
    assert s.lock.queue != [] ==> s.lock.queue[0] in s.lock.queue;
    hide MutexInv, WaiterInv, MutexAt;
    var s' := StepRelease(s, t);
    forall u | u in s'.pc ensures WaiterInv(s', u) {
      ReleaseKeepsWaiter(s, t, u);
    }
  }

  /** The only thing a step of t can do to another thread is make it ready. */
  lemma {:induction false} FramePc<T>(s: State<T>, t: Thread, call: Op<T>, u: Thread)
    requires t in s.pc && u in s.pc && u != t
    ensures var p, q := s.pc[u], Step(s, t, call).pc[u];
            || q == p
            || (p.LockSleep? && q == LockTest(p.op, true))
            || (p.WaitSleep? && q == WaitTest)
  {
    if s.pc[t].LockTest? || s.pc[t].LockTaken? {
      hide StepPut, StepTake, StepWait, StepRelease;
    } else if Putting(s.pc[t]) {
      hide StepAcquire, StepTake, StepWait, StepRelease;
    } else if s.pc[t].TakeTest? || s.pc[t].TakeRead? || s.pc[t].TakeWrite? {
      hide StepAcquire, StepPut, StepWait, StepRelease;
    } else if s.pc[t].WaitEnqueue? || s.pc[t].WaitTest? {
      hide StepAcquire, StepPut, StepTake, StepRelease;
    } else {
      hide StepAcquire, StepPut, StepTake, StepWait;
    }
  }

  /** Only Signal takes another thread off the condition's queue. */
  lemma {:induction false} FrameQueue<T>(s: State<T>, t: Thread, call: Op<T>, u: Thread)
    requires t in s.pc && u != t
    requires !(s.pc[t].PutSignal? && s.waitQueue != [])
    ensures u in Step(s, t, call).waitQueue <==> u in s.waitQueue
  {
  }

  lemma {:induction false} ListNeedsLock<T>(s: State<T>, t: Thread, call: Op<T>)
    requires t in s.pc && !InLock(s.pc[t])
    ensures Step(s, t, call).list == s.list
  {
  }

  lemma {:induction false} OthersSeen<T>(s: State<T>, t: Thread, call: Op<T>, u: Thread)
    requires MutexInv(s)
    requires t in s.pc && u in s.pc && u != t && Seen(s, u)
    ensures Seen(Step(s, t, call), u)
  {
    hide Step;
    FramePc(s, t, call, u);
    if InLock(s.pc[u]) { ListNeedsLock(s, t, call); }
  }

  ghost predicate SeenKept<T>(s: State<T>, t: Thread) {
    t in s.pc && Seen(s, t) && s.appended == s.removed + s.list
  }

  lemma {:induction false} PutSeen<T>(s: State<T>, t: Thread)
    requires SeenKept(s, t) && Putting(s.pc[t])
    ensures SeenKept(StepPut(s, t), t)
  {
  }

  lemma {:induction false} TakeSeen<T>(s: State<T>, t: Thread)
    requires SeenKept(s, t) && (s.pc[t].TakeTest? || s.pc[t].TakeRead? || s.pc[t].TakeWrite?)
    ensures SeenKept(StepTake(s, t), t)
  {
  }

  lemma {:induction false} LockSeen<T>(s: State<T>, t: Thread)
    requires SeenKept(s, t)
    ensures s.pc[t].LockTest? || s.pc[t].LockTaken? ==> SeenKept(StepAcquire(s, t), t)
    ensures s.pc[t].WaitEnqueue? || s.pc[t].WaitTest? ==> SeenKept(StepWait(s, t), t)
    ensures s.pc[t].Unhold? || s.pc[t].LockPost? ==> SeenKept(StepRelease(s, t), t)
  {
  }

  lemma {:induction false} OwnSeen<T>(s: State<T>, t: Thread, call: Op<T>)
    requires SeenKept(s, t)
    ensures SeenKept(Step(s, t, call), t)
  {
    hide StepAcquire, StepPut, StepTake, StepWait, StepRelease;
    if Putting(s.pc[t]) {
      PutSeen(s, t);
    } else if s.pc[t].TakeTest? || s.pc[t].TakeRead? || s.pc[t].TakeWrite? {
      TakeSeen(s, t);
    } else {
      LockSeen(s, t);
    }
  }

  lemma {:induction false} StepKeepsList<T>(s: State<T>, t: Thread, call: Op<T>)
    requires MutexInv(s) && ListInv(s) && t in s.pc
    ensures ListInv(Step(s, t, call))
  {
    hide MutexInv, Step;
    OwnSeen(s, t, call);
    var s' := Step(s, t, call);
    forall u | u in s'.pc ensures Seen(s', u) {
      if u != t { OthersSeen(s, t, call, u); }
    }
  }

  lemma {:induction false} CallKeepsWaiter<T>(s: State<T>, t: Thread, call: Op<T>, u: Thread)
    requires t in s.pc && s.pc[t].Idle? && !call.Retake?
    requires u in s.pc && MutexAt(s, t) && MutexAt(s, u) && WaiterInv(s, t) && WaiterInv(s, u)
    ensures WaiterInv(Goto(s, t, LockTest(call, false)), u)
  {
    assert Posting(Goto(s, t, LockTest(call, false)), u) == Posting(s, u);
    hide Posting;
  }

  lemma {:induction false} CallKeepsLock<T>(s: State<T>, t: Thread, call: Op<T>)
    requires MutexInv(s) && LockQueueInv(s)
    requires t in s.pc && s.pc[t].Idle? && !call.Retake?
    ensures var s' := Goto(s, t, LockTest(call, false)); MutexInv(s') && LockQueueInv(s')
  {
    assert LockWoken(Goto(s, t, LockTest(call, false))) == LockWoken(s);
  }

  lemma {:induction false} CallKeeps<T>(s: State<T>, t: Thread, call: Op<T>)
    requires MutexInv(s) && LockQueueInv(s) && ConditionInv(s)
    requires t in s.pc && s.pc[t].Idle? && !call.Retake?
    ensures var s' := Goto(s, t, LockTest(call, false)); MutexInv(s') && LockQueueInv(s') && ConditionInv(s')
  {
    var s' := Goto(s, t, LockTest(call, false));
    CallKeepsLock(s, t, call);
    assert forall u | u in s.pc :: MutexAt(s, u);
    hide MutexInv, WaiterInv, LockQueueInv, MutexAt;
    forall u | u in s'.pc ensures WaiterInv(s', u) {
      CallKeepsWaiter(s, t, call, u);
    }
  }

  // ---------------------------------------------------------------------------------
  // No wakeup is lost.

  /** When only t's credit may have changed, so has the number of credits. */
  lemma {:induction false} CreditsOf<T>(s: State<T>, s': State<T>, t: Thread)
    requires t in s.pc && s'.pc.Keys == s.pc.Keys
    requires forall u | u in s.pc && u != t :: Credit(s', u) == Credit(s, u)
    ensures |Credits(s')| - (if Credit(s', t) then 1 else 0) == |Credits(s)| - (if Credit(s, t) then 1 else 0)
  {
    var rest := Credits(s) - {t};
    assert rest == Credits(s') - {t};
    if Credit(s, t) { SizeWithout(rest, Credits(s), t); } else { assert rest == Credits(s); }
    if Credit(s', t) { SizeWithout(rest, Credits(s'), t); } else { assert rest == Credits(s'); }
  }

  lemma {:induction false} SignalCredit<T>(s: State<T>, t: Thread, u: Thread)
    requires t in s.pc && s.pc[t].PutSignal? && s.waitQueue != [] && Distinct(s.waitQueue)
    requires s.waitQueue[0] in s.pc && WaiterInv(s, s.waitQueue[0]) && s.lockHolder == Some(t) && u in s.pc
    ensures var w := s.waitQueue[0];
            && w != t && !Credit(s, w) && Credit(s, t)
            && (Credit(StepPut(s, t), u) <==> u != t && (Credit(s, u) || u == w))
  {
    RestAt(s.waitQueue, u);
    RestAt(s.waitQueue, s.waitQueue[0]);
    assert s.waitQueue[0] in s.waitQueue;
    hide Distinct;
  }

  /** Signal hands its own credit to the waiter it takes off the condition's queue. */
  lemma {:induction false} SignalKeepsWake<T>(s: State<T>, t: Thread)
    requires MutexInv(s) && ConditionInv(s) && WakeInv(s)
    requires t in s.pc && s.pc[t].PutSignal? && s.waitQueue != []
    ensures WakeInv(StepPut(s, t))
  {
    var s', w := StepPut(s, t), s.waitQueue[0];
    assert w in s.waitQueue && WaiterInv(s, w) && s.lockHolder == Some(t);
    hide MutexInv, Credit, WaiterInv;
    forall u | u in s.pc ensures w != t && !Credit(s, w) && Credit(s, t)
           && (Credit(s', u) <==> u != t && (Credit(s, u) || u == w)) {
      SignalCredit(s, t, u);
    }
    var rest := Credits(s) - {t};
    assert Credits(s') == rest + {w};
    SizeWithout(rest, Credits(s), t);
    SizeWithout(rest, Credits(s'), w);
  }

  /** No step other than Signal touches the credit of another thread. */
  lemma {:induction false} CreditsStay<T>(s: State<T>, t: Thread, call: Op<T>, u: Thread)
    requires t in s.pc && u in s.pc && u != t
    requires !(s.pc[t].PutSignal? && s.waitQueue != [])
    ensures Credit(Step(s, t, call), u) == Credit(s, u)
  {
    hide Step;
    FramePc(s, t, call, u);
    FrameQueue(s, t, call, u);
  }

  /** Every step but Signal pays for an added item, or a lost credit, itself. */
  ghost predicate PaysItsWay<T>(s: State<T>, s': State<T>, t: Thread)
    requires t in s.pc
  {
    && s'.pc.Keys == s.pc.Keys
    && (s'.waitQueue == [] || s'.list == []
        || (&& s.waitQueue == s'.waitQueue
            && |s'.list| - (if Credit(s', t) then 1 else 0) <= |s.list| - (if Credit(s, t) then 1 else 0)))
  }

  lemma {:induction false} ListStepsPay<T>(s: State<T>, t: Thread)
    requires MutexInv(s) && ConditionInv(s) && ListInv(s)
    requires t in s.pc && !(s.pc[t].PutSignal? && s.waitQueue != [])
    ensures Putting(s.pc[t]) ==> PaysItsWay(s, StepPut(s, t), t)
    ensures s.pc[t].TakeTest? || s.pc[t].TakeRead? || s.pc[t].TakeWrite? ==> PaysItsWay(s, StepTake(s, t), t)
  {
    assert WaiterInv(s, t) && Seen(s, t);
  }

  lemma {:induction false} AcquirePays<T>(s: State<T>, t: Thread)
    requires t in s.pc && t !in s.lock.queue && (s.pc[t].LockTest? || s.pc[t].LockTaken?) && WaiterInv(s, t)
    ensures PaysItsWay(s, StepAcquire(s, t), t)
  {
  }

  lemma {:induction false} WaitPays<T>(s: State<T>, t: Thread)
    requires t in s.pc && (s.pc[t].WaitEnqueue? || s.pc[t].WaitTest?) && WaiterInv(s, t) && Seen(s, t)
    requires s.pc[t].WaitEnqueue? ==> s.lockHolder == Some(t)
    ensures PaysItsWay(s, StepWait(s, t), t)
  {
  }

  lemma {:induction false} ReleasePays<T>(s: State<T>, t: Thread)
    requires t in s.pc && (s.pc[t].Unhold? || s.pc[t].LockPost?) && WaiterInv(s, t)
    requires s.pc[t].Unhold? ==> s.lockHolder == Some(t)
    requires s.pc[t].LockPost? && s.lock.queue != [] ==> s.lock.queue[0] in s.pc && s.pc[s.lock.queue[0]].LockSleep?
    ensures PaysItsWay(s, StepRelease(s, t), t)
  {
  }

  lemma {:induction false} LockStepsPay<T>(s: State<T>, t: Thread)
    requires MutexInv(s) && LockQueueInv(s) && ConditionInv(s) && ListInv(s)
    requires t in s.pc
    ensures s.pc[t].LockTest? || s.pc[t].LockTaken? ==> PaysItsWay(s, StepAcquire(s, t), t)
    ensures s.pc[t].WaitEnqueue? || s.pc[t].WaitTest? ==> PaysItsWay(s, StepWait(s, t), t)
    ensures s.pc[t].Unhold? || s.pc[t].LockPost? ==> PaysItsWay(s, StepRelease(s, t), t)
  {
    assert WaiterInv(s, t) && Seen(s, t);
    assert s.lock.queue != [] ==> s.lock.queue[0] in s.lock.queue;
    hide StepAcquire, StepWait, StepRelease, PaysItsWay, WaiterInv, Seen;
    if s.pc[t].LockTest? || s.pc[t].LockTaken? {
      AcquirePays(s, t);
    } else if s.pc[t].WaitEnqueue? || s.pc[t].WaitTest? {
      WaitPays(s, t);
    } else if s.pc[t].Unhold? || s.pc[t].LockPost? {
      ReleasePays(s, t);
    }
  }

  lemma {:induction false} OthersKeepWake<T>(s: State<T>, t: Thread, call: Op<T>)
    requires Inv(s)
    requires t in s.pc && !(s.pc[t].PutSignal? && s.waitQueue != [])
    ensures WakeInv(Step(s, t, call))
  {
    hide MutexInv, LockQueueInv, ConditionInv, ListInv, StepPut, StepTake, StepWait, StepAcquire, StepRelease;
    ListStepsPay(s, t);
    LockStepsPay(s, t);
    var s' := Step(s, t, call);
    forall u | u in s.pc && u != t ensures Credit(s', u) == Credit(s, u) {
      CreditsStay(s, t, call, u);
    }
    assert PaysItsWay(s, s', t);
    CreditsOf(s, s', t);
  }

  lemma {:induction false} StepKeepsInv<T>(s: State<T>, t: Thread, call: Op<T>)
    requires Inv(s)
    ensures Inv(Step(s, t, call))
  {
    hide MutexInv, LockQueueInv, ConditionInv, ListInv, WakeInv;
    if t in s.pc {
      var pc := s.pc[t];
      if pc.LockTest? || pc.LockTaken? {
        AcquireKeepsMutex(s, t); AcquireKeepsQueue(s, t); AcquireKeepsCondition(s, t);
      } else if Putting(pc) {
        PutKeepsMutex(s, t); PutKeepsQueue(s, t); PutKeepsCondition(s, t);
      } else if pc.TakeTest? || pc.TakeRead? || pc.TakeWrite? {
        TakeKeepsMutex(s, t); TakeKeepsCondition(s, t);
      } else if pc.WaitEnqueue? || pc.WaitTest? {
        WaitKeepsMutex(s, t); WaitKeepsQueue(s, t); WaitKeepsCondition(s, t);
      } else if pc.Unhold? || pc.LockPost? {
        ReleaseKeepsMutex(s, t); ReleaseKeepsQueue(s, t); ReleaseKeepsCondition(s, t);
      } else if pc.Idle? && !call.Retake? {
        CallKeeps(s, t, call);
      }
      StepKeepsList(s, t, call);
      if pc.PutSignal? && s.waitQueue != [] {
        SignalKeepsWake(s, t);
      } else {
        OthersKeepWake(s, t, call);
      }
    }
  }

  lemma {:induction false} RunKeepsInv<T>(s: State<T>, schedule: seq<(Thread, Op<T>)>)
    requires Inv(s)
    ensures Inv(Run(s, schedule))
    decreases |schedule|
  {
    if schedule != [] {
      StepKeepsInv(s, schedule[0].0, schedule[0].1);
      RunKeepsInv(Step(s, schedule[0].0, schedule[0].1), schedule[1..]);
    }
  }

  lemma InitHasInv<T>(s: State<T>)
    requires Init(s)
    ensures Inv(s)
  {
  }

  // ---------------------------------------------------------------------------------
  // What holds after every interleaving.

  /** First in, first out, and mutual exclusion: the removed items in removal order are a
      prefix of the appended ones in append order and the list is the rest; at most one
      thread is between Acquire's decrement and Release's increment, lockHolder is that thread
      from Acquire's store to Release's, and no ASSERT, empty removal or use of a deleted semaphore happens. */
  lemma EveryInterleaving<T>(s: State<T>, schedule: seq<(Thread, Op<T>)>)
    requires Init(s)
    ensures var e := Run(s, schedule);
            && e.appended == e.removed + e.list
            && (forall t, u | t in e.pc && u in e.pc && InLock(e.pc[t]) && InLock(e.pc[u]) :: t == u)
            && (e.lock.value == 1 <==> forall t | t in e.pc :: !InLock(e.pc[t]))
            && (e.lockHolder.Some? ==> e.lockHolder.value in e.pc && InLock(e.pc[e.lockHolder.value]))
            && (forall t | t in e.pc :: Holds(e.pc[t]) <==> e.lockHolder == Some(t))
            && (forall t | t in e.pc :: e.pc[t] != Failed)
  {
    InitHasInv(s);
    RunKeepsInv(s, schedule);
  }

  /** Consumers a Signal has taken off the condition that have not looked at the list. */
  ghost function Signalled<T>(s: State<T>): set<Thread> {
    set t | t in s.pc && ((Waiting(s.pc[t]) && t !in s.waitQueue) || Retaking(s.pc[t]))
  }

  /** Whenever the lock is free, either no consumer is queued on the condition or every
      item is left to a signalled consumer that has yet to look. */
  lemma NoLostWakeup<T>(s: State<T>, schedule: seq<(Thread, Op<T>)>)
    requires Init(s)
    ensures var e := Run(s, schedule);
            e.lock.value == 1 ==> e.waitQueue == [] || |e.list| <= |Signalled(e)|
  {
    InitHasInv(s);
    RunKeepsInv(s, schedule);
    var e := Run(s, schedule);
    if e.lock.value == 1 {
      assert Credits(e) == Signalled(e);
    }
  }

  /** If every thread is either outside the monitor or asleep, then the lock is free with
      nobody asleep on it, and a consumer is asleep only when there is no item: nothing but
      a new call could make progress, and no item is stranded. */
  lemma NeverStuck<T>(s: State<T>, schedule: seq<(Thread, Op<T>)>)
    requires Init(s)
    requires forall t | t in Run(s, schedule).pc ::
               var pc := Run(s, schedule).pc[t]; pc.Idle? || pc.LockSleep? || pc.WaitSleep?
    ensures var e := Run(s, schedule);
            && e.lock == Sem(1, []) && e.lockHolder == None
            && (e.list == [] || forall t | t in e.pc :: e.pc[t].Idle?)
            && (forall t | t in e.pc :: e.pc[t].WaitSleep? <==> t in e.waitQueue)
  {
    InitHasInv(s);
    RunKeepsInv(s, schedule);
    var e := Run(s, schedule);
    assert e.owner.None?;
    assert LockWoken(e) == {};
    forall t | t in e.pc
      ensures e.pc[t].WaitSleep? <==> t in e.waitQueue
      ensures e.pc[t].LockSleep? ==> t in e.lock.queue
    {
      assert WaiterInv(e, t);
    }
    assert Credits(e) == {};
  }
}

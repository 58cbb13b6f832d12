/** What calls of Append and RemoveFront do, told by the calls that threads make and not by the
    monitor's own history: which items go in and come out over every run, and what a call does
    when its thread is the only one to move. */
module SynchCalls {
  import opened Options
  import opened Semaphores
  import opened SynchLists

  // ---------------------------------------------------------------------------------
  // The calls of a run.

  /** The items of the Append calls that idle threads start, in order. */
  ghost function PutItems<T>(s: State<T>, schedule: seq<(Thread, Op<T>)>): seq<T>
    decreases |schedule|
  {
    if schedule == [] then []
    else
      var (t, call) := schedule[0];
      (if t in s.pc then Items(Started(s, t, call)) else []) + PutItems(Step(s, t, call), schedule[1..])
  }

  /** Thread t's call returns with this step. */
  predicate Returns<T>(s: State<T>, t: Thread, s': State<T>) {
    t in s.pc && t in s'.pc && !s.pc[t].Idle? && s'.pc[t].Idle?
  }

  /** The item that RemoveFront hands back when it returns. */
  ghost function Result<T>(pc: Pc<T>): Option<T> {
    if pc.LockPost? && pc.exit.TakeDone? then Some(pc.exit.item) else None
  }

  /** The items that RemoveFront calls return, in order. */
  ghost function TakenItems<T>(s: State<T>, schedule: seq<(Thread, Op<T>)>): seq<T>
    decreases |schedule|
  {
    if schedule == [] then []
    else
      var (t, call) := schedule[0];
      var s' := Step(s, t, call);
      (if t in s.pc then Items(Returned(s, t, s')) else []) + TakenItems(s', schedule[1..])
  }

  /** The call each thread is in. */
  ghost function Calls<T>(s: State<T>, schedule: seq<(Thread, Op<T>)>, calls: map<Thread, Op<T>>): map<Thread, Op<T>>
    decreases |schedule|
  {
    if schedule == [] then calls
    else
      var (t, call) := schedule[0];
      Calls(Step(s, t, call), schedule[1..], NextCalls(s, t, call, calls))
  }

  ghost function NextCalls<T>(s: State<T>, t: Thread, call: Op<T>, calls: map<Thread, Op<T>>): map<Thread, Op<T>> {
    if Returns(s, t, Step(s, t, call)) then calls - {t}
    else if t in s.pc && s.pc[t].Idle? && !call.Retake? then calls[t := call]
    else calls
  }

  // ---------------------------------------------------------------------------------
  // The items that threads carry.

  /** An item given to Append and not yet in the list. */
  function InHand<T>(pc: Pc<T>): Option<T> {
    match pc
    case LockTest(Put(x), _) => Some(x)
    case LockSleep(Put(x)) => Some(x)
    case LockTaken(Put(x)) => Some(x)
    case PutRead(x) => Some(x)
    case PutWrite(x, _) => Some(x)
    case _ => None
  }

  /** An item out of the list and not yet returned by RemoveFront. */
  function Leaving<T>(pc: Pc<T>): Option<T> {
    match pc
    case Unhold(TakeDone(x)) => Some(x)
    case LockPost(TakeDone(x)) => Some(x)
    case _ => None
  }

  /** The threads that have item x in hand; those that are leaving with it. */
  ghost function Givers<T>(s: State<T>, x: T): set<Thread> {
    set t | t in s.pc && InHand(s.pc[t]) == Some(x)
  }

  ghost function Leavers<T>(s: State<T>, x: T): set<Thread> {
    set t | t in s.pc && Leaving(s.pc[t]) == Some(x)
  }

  /** How often x occurs. */
  ghost function Times<T>(s: seq<T>, x: T): nat {
    multiset(s)[x]
  }

  ghost function One<T>(o: Option<T>, x: T): nat {
    if o == Some(x) then 1 else 0
  }

  function Items<T>(o: Option<T>): seq<T> {
    if o.Some? then [o.value] else []
  }

  lemma TimesBoth<T>(a: seq<T>, b: seq<T>, x: T)
    ensures Times(a + b, x) == Times(a, x) + Times(b, x)
  {
  }

  lemma TimesItems<T>(o: Option<T>, x: T)
    ensures Times(Items(o), x) == One(o, x)
  {
  }

  /** When t is the only thread that may have joined or left a group, so has its size. */
  lemma GroupStep(a: set<Thread>, b: set<Thread>, t: Thread)
    requires a - {t} == b - {t}
    ensures |b| + (if t in a then 1 else 0) == |a| + if t in b then 1 else 0
  {
    if t in a { SizeWithout(a - {t}, a, t); }
    if t in b { SizeWithout(b - {t}, b, t); }
    assert t !in a ==> a - {t} == a;
    assert t !in b ==> b - {t} == b;
  }

  // ---------------------------------------------------------------------------------
  // One step.

  /** The item with which a step starts an Append. */
  function Started<T>(s: State<T>, t: Thread, call: Op<T>): Option<T>
    requires t in s.pc
  {
    if s.pc[t].Idle? && call.Put? then Some(call.item) else None
  }

  /** An item enters with a call, stays in hand, or goes to the end of the list. */
  ghost predicate PutBalance<T>(s: State<T>, t: Thread, call: Op<T>, s': State<T>)
    requires t in s.pc && t in s'.pc
  {
    var before := if s.pc[t].Idle? then Started(s, t, call) else InHand(s.pc[t]);
    || (s'.appended == s.appended && InHand(s'.pc[t]) == before)
    || (s'.appended == s.appended + Items(before) && InHand(s'.pc[t]) == None)
  }

  /** An item out of the list is leaving until the call returns it. */
  ghost predicate TakeBalance<T>(s: State<T>, t: Thread, s': State<T>)
    requires t in s.pc && t in s'.pc
  {
    var before, after := Leaving(s.pc[t]), Leaving(s'.pc[t]);
    if Returns(s, t, s') then s'.removed == s.removed && after == None && before == Result(s.pc[t])
    else (s'.removed == s.removed && before == after) || (s'.removed == s.removed + Items(after) && before == None)
  }

  /** The thread is where that call can be. */
  ghost predicate Serves<T>(pc: Pc<T>, call: Op<T>) {
    match call
    case Put(x) =>
      match pc {
        case LockTest(op, _) => op == call
        case LockSleep(op) => op == call
        case LockTaken(op) => op == call
        case PutRead(y) => y == x
        case PutWrite(y, _) => y == x
        case PutSignal => true
        case PutPost(_) => true
        case Unhold(exit) => exit.PutDone?
        case LockPost(exit) => exit.PutDone?
        case _ => false
      }
    case Take =>
      match pc {
        case LockTest(op, _) => !op.Put?
        case LockSleep(op) => !op.Put?
        case LockTaken(op) => !op.Put?
        case TakeTest(_) => true
        case TakeRead => true
        case TakeWrite(_) => true
        case WaitEnqueue => true
        case WaitTest => true
        case WaitSleep => true
        case Unhold(exit) => !exit.PutDone?
        case LockPost(exit) => !exit.PutDone?
        case _ => false
      }
    case Retake => false
  }

  /** What a step does for its own call c, and for the one it may start. */
  ghost predicate OwnStep<T>(s: State<T>, t: Thread, call: Op<T>, c: Op<T>, s': State<T>)
    requires t in s.pc && t in s'.pc
  {
    && PutBalance(s, t, call, s') && TakeBalance(s, t, s')
    && (s.pc[t].Idle? ==> if call.Retake? then s'.pc[t].Idle? else Serves(s'.pc[t], call))
    && (Serves(s.pc[t], c) ==> s'.pc[t].Idle? || Serves(s'.pc[t], c))
  }

  lemma {:induction false} AcquireOwn<T>(s: State<T>, t: Thread, call: Op<T>, c: Op<T>)
    requires t in s.pc && (s.pc[t].LockTest? || s.pc[t].LockTaken?) && t !in s.lock.queue
    ensures OwnStep(s, t, call, c, StepAcquire(s, t))
  {
  }

  lemma {:induction false} PutOwn<T>(s: State<T>, t: Thread, call: Op<T>, c: Op<T>)
    requires t in s.pc && Putting(s.pc[t]) && s.lockHolder == Some(t)
    requires s.pc[t].PutPost? ==> s.pc[t].target in s.waiter
    ensures OwnStep(s, t, call, c, StepPut(s, t))
  {
    hide Ready;
  }

  lemma {:induction false} TakeOwn<T>(s: State<T>, t: Thread, call: Op<T>, c: Op<T>)
    requires t in s.pc && (s.pc[t].TakeTest? || s.pc[t].TakeRead? || s.pc[t].TakeWrite?) && Seen(s, t)
    ensures OwnStep(s, t, call, c, StepTake(s, t))
  {
  }

  lemma {:induction false} WaitOwn<T>(s: State<T>, t: Thread, call: Op<T>, c: Op<T>)
    requires t in s.pc && (s.pc[t].WaitEnqueue? || s.pc[t].WaitTest?)
    requires if s.pc[t].WaitEnqueue? then s.lockHolder == Some(t) else t in s.waiter
    ensures OwnStep(s, t, call, c, StepWait(s, t))
  {
  }

  lemma {:induction false} ReleaseOwn<T>(s: State<T>, t: Thread, call: Op<T>, c: Op<T>)
    requires t in s.pc && (s.pc[t].Unhold? || s.pc[t].LockPost?) && (s.pc[t].Unhold? ==> s.lockHolder == Some(t))
    ensures OwnStep(s, t, call, c, StepRelease(s, t))
  {
    hide Ready;
  }

  lemma {:induction false} StepOwn<T>(s: State<T>, t: Thread, call: Op<T>, c: Op<T>)
    requires Inv(s) && t in s.pc
    ensures OwnStep(s, t, call, c, Step(s, t, call))
  {
    var pc := s.pc[t];
    assert WaiterInv(s, t) && Seen(s, t) && (Holds(pc) ==> s.lockHolder == Some(t));
    assert pc.PutPost? ==> WaiterInv(s, pc.target);
    assert pc.LockTest? || pc.LockTaken? ==> t !in s.lock.queue;
    hide Inv, OwnStep, StepAcquire, StepPut, StepTake, StepWait, StepRelease;
    if pc.LockTest? || pc.LockTaken? {
      AcquireOwn(s, t, call, c);
    } else if Putting(pc) {
      PutOwn(s, t, call, c);
    } else if pc.TakeTest? || pc.TakeRead? || pc.TakeWrite? {
      TakeOwn(s, t, call, c);
    } else if pc.WaitEnqueue? || pc.WaitTest? {
      WaitOwn(s, t, call, c);
    } else if pc.Unhold? || pc.LockPost? {
      ReleaseOwn(s, t, call, c);
    } else {
      StayOwn(s, t, call, c);
    }
  }

  lemma StayOwn<T>(s: State<T>, t: Thread, call: Op<T>, c: Op<T>)
    requires t in s.pc && (s.pc[t].Idle? || s.pc[t].LockSleep? || s.pc[t].WaitSleep? || s.pc[t].Failed?)
    ensures OwnStep(s, t, call, c, Step(s, t, call))
  {
  }

  /** Another thread's item and call stay with it. */
  lemma StepOther<T>(s: State<T>, t: Thread, call: Op<T>, u: Thread, c: Op<T>)
    requires t in s.pc && u in s.pc && u != t
    ensures var p, q := s.pc[u], Step(s, t, call).pc[u];
            && InHand(p) == InHand(q) && Leaving(p) == Leaving(q) && (p.Idle? <==> q.Idle?)
            && (Serves(p, c) ==> Serves(q, c))
  {
    FramePc(s, t, call, u);
    hide Step;
  }

  // ---------------------------------------------------------------------------------
  // Every run.

  ghost predicate CallInv<T>(s: State<T>, calls: map<Thread, Op<T>>) {
    forall t | t in s.pc :: CallAt(s, calls, t)
  }

  ghost predicate CallAt<T>(s: State<T>, calls: map<Thread, Op<T>>, t: Thread)
    requires t in s.pc
  {
    (t in calls <==> !s.pc[t].Idle?) && (t in calls ==> Serves(s.pc[t], calls[t]))
  }

  lemma {:induction false} StepCalls<T>(s: State<T>, t: Thread, call: Op<T>, calls: map<Thread, Op<T>>)
    requires Inv(s) && CallInv(s, calls) && t in s.pc
    ensures CallInv(Step(s, t, call), NextCalls(s, t, call, calls))
  {
    var s', next := Step(s, t, call), NextCalls(s, t, call, calls);
    assert CallAt(s, calls, t);
    hide Inv, Step, PutBalance, TakeBalance, Serves;
    StepOwn(s, t, call, if t in calls then calls[t] else call);
    forall u | u in s'.pc ensures CallAt(s', next, u) {
      if u != t {
        assert CallAt(s, calls, u);
        StepOther(s, t, call, u, if u in calls then calls[u] else call);
      }
    }
  }

  lemma {:induction false} StepGroups<T>(s: State<T>, t: Thread, call: Op<T>, x: T)
    requires Inv(s) && t in s.pc
    ensures var s' := Step(s, t, call);
            && |Givers(s', x)| + One(InHand(s.pc[t]), x) == |Givers(s, x)| + One(InHand(s'.pc[t]), x)
            && |Leavers(s', x)| + One(Leaving(s.pc[t]), x) == |Leavers(s, x)| + One(Leaving(s'.pc[t]), x)
  {
    var s' := Step(s, t, call);
    hide Inv, Step, InHand, Leaving;
    forall u | u in s.pc && u != t
      ensures InHand(s.pc[u]) == InHand(s'.pc[u]) && Leaving(s.pc[u]) == Leaving(s'.pc[u])
    {
      StepOther(s, t, call, u, call);
    }
    GroupStep(Givers(s, x), Givers(s', x), t);
    GroupStep(Leavers(s, x), Leavers(s', x), t);
  }

  ghost function Returned<T>(s: State<T>, t: Thread, s': State<T>): Option<T>
    requires t in s.pc
  {
    if Returns(s, t, s') then Result(s.pc[t]) else None
  }

  lemma PutTimes<T>(s: State<T>, t: Thread, call: Op<T>, s': State<T>, x: T)
    requires t in s.pc && t in s'.pc && PutBalance(s, t, call, s')
    ensures Times(s'.appended, x) + One(InHand(s'.pc[t]), x)
            == Times(s.appended, x) + One(InHand(s.pc[t]), x) + One(Started(s, t, call), x)
  {
    assert s.pc[t].Idle? ==> InHand(s.pc[t]) == None;
    hide Times, InHand, Items;
    var before := if s.pc[t].Idle? then Started(s, t, call) else InHand(s.pc[t]);
    TimesBoth(s.appended, Items(before), x);
    TimesItems(before, x);
  }

  lemma TakeTimes<T>(s: State<T>, t: Thread, s': State<T>, x: T)
    requires t in s.pc && t in s'.pc && TakeBalance(s, t, s')
    ensures Times(s'.removed, x) + One(Leaving(s.pc[t]), x)
            == Times(s.removed, x) + One(Leaving(s'.pc[t]), x) + One(Returned(s, t, s'), x)
  {
    hide Times, Leaving, Items, Result, Returns;
    TimesBoth(s.removed, Items(Leaving(s'.pc[t])), x);
    TimesItems(Leaving(s'.pc[t]), x);
  }

  lemma {:induction false} StepTimes<T>(s: State<T>, t: Thread, call: Op<T>, x: T)
    requires Inv(s) && t in s.pc
    ensures var s' := Step(s, t, call);
            && Times(s'.appended, x) + |Givers(s', x)|
              == Times(s.appended, x) + |Givers(s, x)| + One(Started(s, t, call), x)
            && Times(s'.removed, x) + |Leavers(s, x)|
               == Times(s.removed, x) + |Leavers(s', x)| + One(Returned(s, t, s'), x)
  {
    var s' := Step(s, t, call);
    StepOwn(s, t, call, call);
    StepGroups(s, t, call, x);
    PutTimes(s, t, call, s', x);
    TakeTimes(s, t, s', x);
    hide *;
  }

  lemma {:induction false} RunTimes<T>(s: State<T>, schedule: seq<(Thread, Op<T>)>, x: T)
    requires Inv(s)
    ensures var e := Run(s, schedule);
            && Times(e.appended, x) + |Givers(e, x)|
               == Times(s.appended, x) + |Givers(s, x)| + Times(PutItems(s, schedule), x)
            && Times(e.removed, x) + |Leavers(s, x)|
               == Times(s.removed, x) + |Leavers(e, x)| + Times(TakenItems(s, schedule), x)
    decreases |schedule|
  {
    hide Inv, Step, Times, Givers, Leavers, Items;
    if schedule == [] {
      TimesNone(x);
    } else {
      var (t, call) := schedule[0];
      var s' := Step(s, t, call);
      StepKeepsInv(s, t, call);
      RunTimes(s', schedule[1..], x);
      if t in s.pc {
        StepTimes(s, t, call, x);
        TimesBoth(Items(Started(s, t, call)), PutItems(s', schedule[1..]), x);
        TimesBoth(Items(Returned(s, t, s')), TakenItems(s', schedule[1..]), x);
        TimesItems(Started(s, t, call), x);
        TimesItems(Returned(s, t, s'), x);
      } else {
        StaysPut(s, t, call);
        assert [] + PutItems(s, schedule[1..]) == PutItems(s, schedule[1..]);
        assert [] + TakenItems(s, schedule[1..]) == TakenItems(s, schedule[1..]);
      }
    }
  }

  lemma TimesNone<T>(x: T)
    ensures Times([], x) == 0
  {
  }

  lemma StaysPut<T>(s: State<T>, t: Thread, call: Op<T>)
    requires t !in s.pc
    ensures Step(s, t, call) == s
  {
  }

  lemma {:induction false} RunCalls<T>(s: State<T>, schedule: seq<(Thread, Op<T>)>, calls: map<Thread, Op<T>>)
    requires Inv(s) && CallInv(s, calls)
    ensures CallInv(Run(s, schedule), Calls(s, schedule, calls))
    decreases |schedule|
  {
    if schedule != [] {
      var (t, call) := schedule[0];
      StepKeepsInv(s, t, call);
      if t in s.pc { StepCalls(s, t, call, calls); } else { StaysPut(s, t, call); }
      hide Inv, CallInv, Step;
      RunCalls(Step(s, t, call), schedule[1..], NextCalls(s, t, call, calls));
    }
  }

  /** In every interleaving, for every item: as often as it was given to Append it is in the list,
      in the hands of threads that have yet to append it, on its way out or returned by
      RemoveFront; the list got what was given less what is in hand, and lost what was returned
      and what is on its way out.  And every thread is in the call it started, a producer with its
      own item: a RemoveFront that returns has an item to return. */
  lemma EveryCall<T>(s: State<T>, schedule: seq<(Thread, Op<T>)>, x: T)
    requires Init(s)
    ensures var e, given, taken := Run(s, schedule), PutItems(s, schedule), TakenItems(s, schedule);
            && Times(given, x) == Times(e.appended, x) + |Givers(e, x)|
            && Times(e.removed, x) == Times(taken, x) + |Leavers(e, x)|
            && Times(given, x) == |Givers(e, x)| + Times(e.list, x) + |Leavers(e, x)| + Times(taken, x)
            && CallInv(e, Calls(s, schedule, map[]))
  {
    InitHasInv(s);
    EveryInterleaving(s, schedule);
    assert Givers(s, x) == {} && Leavers(s, x) == {};
    TimesNone(x);
    RunTimes(s, schedule, x);
    assert CallInv(s, map[]);
    RunCalls(s, schedule, map[]);
    var e := Run(s, schedule);
    TimesBoth(e.removed, e.list, x);
    hide *;
  }

  // ---------------------------------------------------------------------------------
  // A call whose thread is the only one to move.

  function Alone<T>(s: State<T>, t: Thread, call: Op<T>, n: nat): State<T>
    decreases n
  {
    if n == 0 then s else Alone(Step(s, t, call), t, call, n - 1)
  }

  lemma {:induction false} AloneIsRun<T>(s: State<T>, t: Thread, call: Op<T>, n: nat)
    ensures Alone(s, t, call, n) == Run(s, seq(n, _ => (t, call)))
    decreases n
  {
    if n > 0 {
      AloneIsRun(Step(s, t, call), t, call, n - 1);
      assert seq(n, _ => (t, call))[1..] == seq(n - 1, _ => (t, call));
    }
  }

  lemma {:induction false} AloneThen<T>(s: State<T>, t: Thread, call: Op<T>, m: nat, n: nat)
    ensures Alone(s, t, call, m + n) == Alone(Alone(s, t, call, m), t, call, n)
    decreases m
  {
    if m > 0 { AloneThen(Step(s, t, call), t, call, m - 1, n); }
  }

  lemma AloneTwo<T>(s: State<T>, t: Thread, call: Op<T>)
    ensures Alone(s, t, call, 2) == Step(Step(s, t, call), t, call)
  {
    hide Step;
    assert Alone(Step(s, t, call), t, call, 1) == Alone(Step(Step(s, t, call), t, call), t, call, 0);
  }

  lemma AloneThree<T>(s: State<T>, t: Thread, call: Op<T>)
    ensures Alone(s, t, call, 3) == Step(Step(Step(s, t, call), t, call), t, call)
  {
    AloneTwo(Step(s, t, call), t, call);
    hide Step;
  }

  lemma AloneOne<T>(s: State<T>, t: Thread, call: Op<T>)
    ensures Alone(s, t, call, 1) == Step(s, t, call)
  {
    hide Step;
    assert Alone(Step(s, t, call), t, call, 0) == Step(s, t, call);
  }

  /** The first statement under the lock. */
  function Entry<T>(op: Op<T>): Pc<T> {
    match op
    case Put(x) => PutRead(x)
    case Take => TakeTest(false)
    case Retake => TakeTest(true)
  }

  /** Acquire has returned: the thread holds the lock and is at the first statement under it. */
  function Entered<T>(s: State<T>, t: Thread, op: Op<T>): (e: State<T>)
    ensures t in e.pc && e.pc[t] == Entry(op) && e.lockHolder == Some(t) && e.list == s.list
    ensures e.waitQueue == s.waitQueue && e.lock.queue == s.lock.queue
  {
    s.(lock := Sem(0, s.lock.queue), owner := Some(t), lockHolder := Some(t), pc := s.pc[t := Entry(op)],
       waiter := if op.Retake? then s.waiter - {t} else s.waiter)
  }

  lemma AcquireAlone<T>(s: State<T>, t: Thread, call: Op<T>, op: Op<T>)
    requires t in s.pc && s.pc[t].LockTest? && s.pc[t].op == op && s.lock.value == 1
    ensures Alone(s, t, call, 2) == Entered(s, t, op)
  {
    AloneTwo(s, t, call);
    var s1 := Step(s, t, call);
    assert s1 == s.(lock := Sem(0, s.lock.queue), owner := Some(t), pc := s.pc[t := LockTaken(op)]);
    assert s1.pc[t := Entry(op)] == s.pc[t := Entry(op)];
  }

  /** The call, and then Acquire on a free lock. */
  lemma EnterAlone<T>(s: State<T>, t: Thread, call: Op<T>)
    requires t in s.pc && s.pc[t].Idle? && !call.Retake? && s.lock.value == 1
    ensures Alone(s, t, call, 3) == Entered(s, t, call)
  {
    var s1 := Step(s, t, call);
    assert s1 == s.(pc := s.pc[t := LockTest(call, false)]);
    hide Step;
    AcquireAlone(s1, t, call, call);
    assert s1.pc[t := Entry(call)] == s.pc[t := Entry(call)];
  }

  /** Release has returned: the lock is free and the first thread asleep on it is up. */
  function Released<T>(s: State<T>, t: Thread, exit: Exit<T>): State<T> {
    var (lock, woken) := Post(s.lock);
    s.(lock := lock, owner := None, lockHolder := None,
       pc := Ready(s.pc, woken)[t := if exit.ToSleep? then WaitTest else Idle])
  }

  lemma ReleaseAlone<T>(s: State<T>, t: Thread, call: Op<T>, exit: Exit<T>)
    requires t in s.pc && s.pc[t] == Unhold(exit) && s.lockHolder == Some(t) && t !in s.lock.queue
    ensures Alone(s, t, call, 2) == Released(s, t, exit)
    ensures var last := Alone(s, t, call, 1); t in last.pc && last.pc[t] == LockPost(exit)
  {
    AloneOne(s, t, call);
    AloneTwo(s, t, call);
    hide Alone;
    var s1 := Step(s, t, call);
    assert s1 == s.(lockHolder := None, pc := s.pc[t := LockPost(exit)]);
    var woken := Post(s.lock).1;
    assert Ready(s1.pc, woken)[t := Idle] == Ready(s.pc, woken)[t := Idle];
    assert Ready(s1.pc, woken)[t := WaitTest] == Ready(s.pc, woken)[t := WaitTest];
  }

  /** list->Append has returned. */
  function Filled<T>(s: State<T>, t: Thread, x: T): (e: State<T>)
    ensures t in e.pc && e.pc[t] == PutSignal && e.lockHolder == s.lockHolder && e.list == s.list + [x]
    ensures e.waitQueue == s.waitQueue && e.waiter == s.waiter && e.lock == s.lock
  {
    s.(list := s.list + [x], appended := s.appended + [x], pc := s.pc[t := PutSignal])
  }

  lemma FillAlone<T>(s: State<T>, t: Thread, call: Op<T>, x: T)
    requires t in s.pc && s.pc[t] == PutRead(x)
    ensures Alone(s, t, call, 2) == Filled(s, t, x)
  {
    AloneTwo(s, t, call);
    var s1 := Step(s, t, call);
    assert s1 == s.(pc := s.pc[t := PutWrite(x, s.list)]);
    assert s1.pc[t := PutSignal] == s.pc[t := PutSignal];
  }

  /** Signal has returned: the longest waiting consumer, if any, has left the condition and its
      semaphore is up. */
  function Posted<T>(s: State<T>, t: Thread): (e: State<T>)
    requires s.waitQueue != [] ==> s.waitQueue[0] in s.waiter
    ensures t in e.pc && e.pc[t] == Unhold(PutDone) && e.lockHolder == s.lockHolder && e.list == s.list
            && e.lock == s.lock
  {
    if s.waitQueue == [] then s.(pc := s.pc[t := Unhold(PutDone)])
    else
      var w := s.waitQueue[0];
      var (sem, woken) := Post(s.waiter[w]);
      s.(waitQueue := s.waitQueue[1..], waiter := s.waiter[w := sem], pc := Ready(s.pc, woken)[t := Unhold(PutDone)])
  }

  lemma SignalAlone<T>(s: State<T>, t: Thread, call: Op<T>)
    requires t in s.pc && s.pc[t] == PutSignal && s.lockHolder == Some(t)
    requires s.waitQueue != [] ==> s.waitQueue[0] in s.waiter && t !in s.waiter[s.waitQueue[0]].queue
    ensures Alone(s, t, call, if s.waitQueue == [] then 1 else 2) == Posted(s, t)
  {
    AloneOne(s, t, call);
    AloneTwo(s, t, call);
    hide Alone;
    if s.waitQueue != [] {
      var s1 := Step(s, t, call);
      assert s1 == s.(waitQueue := s.waitQueue[1..], pc := s.pc[t := PutPost(s.waitQueue[0])]);
      var woken := Post(s.waiter[s.waitQueue[0]]).1;
      assert Ready(s1.pc, woken)[t := Unhold(PutDone)] == Ready(s.pc, woken)[t := Unhold(PutDone)];
    }
  }

  /** list->RemoveFront has returned. */
  function Emptied<T>(s: State<T>, t: Thread): (e: State<T>)
    requires s.list != []
    ensures t in e.pc && e.pc[t] == Unhold(TakeDone(s.list[0])) && e.lockHolder == s.lockHolder
    ensures e.list == s.list[1..] && e.lock == s.lock
  {
    s.(list := s.list[1..], removed := s.removed + [s.list[0]], pc := s.pc[t := Unhold(TakeDone(s.list[0]))])
  }

  lemma EmptyAlone<T>(s: State<T>, t: Thread, call: Op<T>)
    requires t in s.pc && s.pc[t].TakeTest? && s.list != []
    ensures Alone(s, t, call, 3) == Emptied(s, t)
  {
    AloneThree(s, t, call);
    var s1 := Step(s, t, call);
    assert s1 == s.(pc := s.pc[t := TakeRead]);
    var s2 := Step(s1, t, call);
    assert s2 == s.(pc := s.pc[t := TakeWrite(s.list)]);
    assert s2.pc[t := Unhold(TakeDone(s.list[0]))] == s.pc[t := Unhold(TakeDone(s.list[0]))];
  }

  /** Wait has allocated its semaphore and queued it. */
  function Queued<T>(s: State<T>, t: Thread): (e: State<T>)
    ensures t in e.pc && e.pc[t] == Unhold(ToSleep) && e.lockHolder == s.lockHolder && e.lock == s.lock
  {
    s.(waitQueue := s.waitQueue + [t], waiter := s.waiter[t := Sem(0, [])], pc := s.pc[t := Unhold(ToSleep)])
  }

  lemma QueueAlone<T>(s: State<T>, t: Thread, call: Op<T>)
    requires t in s.pc && s.pc[t].TakeTest? && s.lockHolder == Some(t) && s.list == []
    ensures Alone(s, t, call, 2) == Queued(s, t)
  {
    AloneTwo(s, t, call);
    var s1 := Step(s, t, call);
    assert s1 == s.(pc := s.pc[t := WaitEnqueue]);
    assert s1.pc[t := Unhold(ToSleep)] == s.pc[t := Unhold(ToSleep)];
  }

  function Slept<T>(s: State<T>, t: Thread): State<T> {
    s.(waiter := s.waiter[t := Sem(0, [t])], pc := s.pc[t := WaitSleep])
  }

  lemma SleepAlone<T>(s: State<T>, t: Thread, call: Op<T>)
    requires t in s.pc && s.pc[t] == WaitTest && t in s.waiter && s.waiter[t] == Sem(0, [])
    ensures Alone(s, t, call, 1) == Slept(s, t)
  {
    AloneOne(s, t, call);
    hide Alone;
    assert [] + [t] == [t];
  }

  // ---------------------------------------------------------------------------------
  // Whole calls.

  /** e is s with thread t at `pc`, the lock free again, its first sleeper up, and `up`, if any,
      taken off its own semaphore. */
  ghost predicate Left<T>(s: State<T>, e: State<T>, t: Thread, pc: Pc<T>, up: Option<Thread>) {
    && e.pc.Keys == s.pc.Keys && t in s.pc && e.pc[t] == pc
    && e.lock == Sem(1, if s.lock.queue == [] then [] else s.lock.queue[1..]) && e.lockHolder == None
    && forall u | u in s.pc && u != t ::
         e.pc[u] == if s.lock.queue != [] && u == s.lock.queue[0] && s.pc[u].LockSleep? then LockTest(s.pc[u].op, true)
                    else if up == Some(u) && s.pc[u].WaitSleep? then WaitTest
                    else s.pc[u]
  }

  /** What the invariant says around a thread outside the lock and a free lock. */
  ghost predicate Around<T>(s: State<T>, t: Thread) {
    && t in s.pc && s.lock.value == 1 && t !in s.lock.queue && t !in s.waitQueue
    && (forall u | u in s.lock.queue :: u in s.pc && s.pc[u].LockSleep?)
    && (s.waitQueue != [] ==>
          var w := s.waitQueue[0];
          && w in s.pc && w in s.waiter && Waiting(s.pc[w]) && w !in s.lock.queue
          && s.waiter[w] == Sem(0, if s.pc[w].WaitSleep? then [w] else []))
  }

  lemma AroundIdle<T>(s: State<T>, t: Thread)
    requires Inv(s) && t in s.pc && s.pc[t].Idle? && s.lock.value == 1
    ensures Around(s, t) && t !in s.waiter
  {
    assert WaiterInv(s, t);
    if s.waitQueue != [] {
      assert s.waitQueue[0] in s.waitQueue;
      assert WaiterInv(s, s.waitQueue[0]);
    }
  }

  lemma AroundWoken<T>(s: State<T>, t: Thread)
    requires Inv(s) && t in s.pc && s.pc[t] == WaitTest && t !in s.waitQueue && s.lock.value == 1
    ensures Around(s, t) && t in s.waiter && s.waiter[t] == Sem(1, [])
  {
    assert WaiterInv(s, t) && s.owner == None;
    if s.waitQueue != [] {
      assert s.waitQueue[0] in s.waitQueue;
      assert WaiterInv(s, s.waitQueue[0]);
    }
  }

  /** Release after a, which differs from s in thread t and perhaps in one woken waiter. */
  lemma LeftIs<T>(s: State<T>, a: State<T>, t: Thread, exit: Exit<T>, up: Option<Thread>)
    requires Around(s, t) && a.pc.Keys == s.pc.Keys && a.lock == Sem(0, s.lock.queue)
    requires forall u | u in s.pc && u != t ::
               a.pc[u] == if up == Some(u) && s.pc[u].WaitSleep? then WaitTest else s.pc[u]
    ensures Left(s, Released(a, t, exit), t, if exit.ToSleep? then WaitTest else Idle, up)
  {
    if s.lock.queue != [] { assert s.lock.queue[0] in s.lock.queue; }
  }

  /** V on the semaphore of a waiter, told by its pc. */
  lemma WokenWaiter<T>(s: State<T>, w: Thread)
    requires w in s.pc && w in s.waiter && Waiting(s.pc[w])
    requires s.waiter[w] == Sem(0, if s.pc[w].WaitSleep? then [w] else [])
    ensures Post(s.waiter[w]).0 == Sem(1, [])
    ensures var pc := Ready(s.pc, Post(s.waiter[w]).1);
            forall u | u in s.pc :: pc[u] == if u == w && s.pc[u].WaitSleep? then WaitTest else s.pc[u]
  {
  }

  /** The state just before Release of an Append. */
  function PutBody<T>(s: State<T>, t: Thread, x: T): State<T>
    requires s.waitQueue != [] ==> s.waitQueue[0] in s.waiter
  {
    Posted(Filled(Entered(s, t, Put(x)), t, x), t)
  }

  lemma PutPath<T>(s: State<T>, t: Thread, x: T)
    requires Around(s, t) && s.pc[t].Idle?
    ensures Alone(s, t, Put(x), if s.waitQueue == [] then 8 else 9) == Released(PutBody(s, t, x), t, PutDone)
  {
    var call, n := Put(x), if s.waitQueue == [] then 1 else 2;
    hide Alone, Entered, Filled, Posted, Released;
    EnterAlone(s, t, call);
    var a := Entered(s, t, call);
    assert a.waiter == s.waiter by { KeepsWaiters(s, t, call); }
    FillAlone(a, t, call, x);
    SignalAlone(Filled(a, t, x), t, call);
    ReleaseAlone(PutBody(s, t, x), t, call, PutDone);
    AloneThen(s, t, call, 3, 2);
    AloneThen(s, t, call, 5, n);
    AloneThen(s, t, call, 5 + n, 2);
  }

  lemma KeepsWaiters<T>(s: State<T>, t: Thread, op: Op<T>)
    requires !op.Retake?
    ensures Entered(s, t, op).waiter == s.waiter
  {
  }

  lemma PutBodyIs<T>(s: State<T>, t: Thread, x: T)
    requires Around(s, t) && s.pc[t].Idle?
    ensures var a := PutBody(s, t, x);
            && a.list == s.list + [x] && a.removed == s.removed && a.lock == Sem(0, s.lock.queue)
            && a.pc.Keys == s.pc.Keys
            && (s.waitQueue == [] ==> a.waitQueue == [] && a.waiter == s.waiter)
            && (s.waitQueue != [] ==>
              a.waitQueue == s.waitQueue[1..] && a.waiter == s.waiter[s.waitQueue[0] := Sem(1, [])])
            && forall u | u in s.pc && u != t ::
                 a.pc[u] == if s.waitQueue != [] && u == s.waitQueue[0] && s.pc[u].WaitSleep? then WaitTest else s.pc[u]
  {
    if s.waitQueue != [] {
      var b := Filled(Entered(s, t, Put(x)), t, x);
      WokenWaiter(b, s.waitQueue[0]);
      hide Ready, Post;
    }
  }

  /** An Append by a thread that is the only one to move, on a free lock: the item is at the end of
      the list, the consumer that has waited longest is up, and the lock is free again. */
  lemma PutAlone<T>(s: State<T>, t: Thread, x: T)
    requires Inv(s) && t in s.pc && s.pc[t].Idle? && s.lock.value == 1
    ensures var e := Alone(s, t, Put(x), if s.waitQueue == [] then 8 else 9);
            && e.list == s.list + [x] && e.removed == s.removed
            && (s.waitQueue == [] ==> e.waitQueue == [] && e.waiter == s.waiter && Left(s, e, t, Idle, None))
            && (s.waitQueue != [] ==>
                  && e.waitQueue == s.waitQueue[1..] && e.waiter == s.waiter[s.waitQueue[0] := Sem(1, [])]
                  && Left(s, e, t, Idle, Some(s.waitQueue[0])))
  {
    AroundIdle(s, t);
    PutPath(s, t, x);
    PutBodyIs(s, t, x);
    hide Inv, Alone, PutBody, Left;
    LeftIs(s, PutBody(s, t, x), t, PutDone, if s.waitQueue == [] then None else Some(s.waitQueue[0]));
  }

  /** A RemoveFront by a thread that is the only one to move, with something in the list: it
      returns the first item, which leaves the list. */
  lemma TakeAlone<T>(s: State<T>, t: Thread)
    requires Inv(s) && t in s.pc && s.pc[t].Idle? && s.lock.value == 1 && s.list != []
    ensures var last, e := Alone(s, t, Take, 7), Alone(s, t, Take, 8);
            && t in last.pc && Returns(last, t, e) && Result(last.pc[t]) == Some(s.list[0])
            && e.list == s.list[1..] && e.appended == s.appended
            && e.waitQueue == s.waitQueue && e.waiter == s.waiter && Left(s, e, t, Idle, None)
  {
    AroundIdle(s, t);
    TakePath(s, t);
    TakeBodyIs(s, t, Take);
    var a := Emptied(Entered(s, t, Take), t);
    ReleasedIs(a, t, TakeDone(s.list[0]));
    hide Inv, Alone, Left, Emptied, Entered, Released;
    LeftIs(s, a, t, TakeDone(s.list[0]), None);
  }

  /** The state just before Release of a RemoveFront that found an item. */
  lemma TakeBodyIs<T>(s: State<T>, t: Thread, op: Op<T>)
    requires t in s.pc && s.list != [] && !op.Put?
    ensures var a := Emptied(Entered(s, t, op), t);
            && a.list == s.list[1..] && a.appended == s.appended && a.waitQueue == s.waitQueue
            && a.waiter == (if op.Retake? then s.waiter - {t} else s.waiter)
            && a.lock == Sem(0, s.lock.queue) && a.pc.Keys == s.pc.Keys
            && forall u | u in s.pc && u != t :: a.pc[u] == s.pc[u]
  {
  }

  lemma ReleasedIs<T>(a: State<T>, t: Thread, exit: Exit<T>)
    ensures var e := Released(a, t, exit);
            && e.list == a.list && e.appended == a.appended && e.removed == a.removed
            && e.waitQueue == a.waitQueue && e.waiter == a.waiter
            && t in e.pc && e.pc[t] == if exit.ToSleep? then WaitTest else Idle
  {
  }

  lemma TakePath<T>(s: State<T>, t: Thread)
    requires Around(s, t) && s.pc[t].Idle? && s.list != []
    ensures Alone(s, t, Take, 8) == Released(Emptied(Entered(s, t, Take), t), t, TakeDone(s.list[0]))
    ensures var last := Alone(s, t, Take, 7); t in last.pc && last.pc[t] == LockPost(TakeDone(s.list[0]))
  {
    hide Alone, Entered, Emptied, Released;
    EnterAlone(s, t, Take);
    var a := Entered(s, t, Take);
    EmptyAlone(a, t, Take);
    ReleaseAlone(Emptied(a, t), t, Take, TakeDone(s.list[0]));
    AloneThen(s, t, Take, 3, 3);
    AloneThen(s, t, Take, 6, 1);
    AloneThen(s, t, Take, 6, 2);
  }

  /** With nothing in the list it ends up asleep on its own semaphore, last on the condition, and
      the lock is free. */
  lemma TakeSleeps<T>(s: State<T>, t: Thread)
    requires Inv(s) && t in s.pc && s.pc[t].Idle? && s.lock.value == 1 && s.list == []
    ensures var e := Alone(s, t, Take, 8);
            && e.list == [] && e.appended == s.appended && e.removed == s.removed
            && e.waitQueue == s.waitQueue + [t] && e.waiter == s.waiter[t := Sem(0, [t])]
            && Left(s, e, t, WaitSleep, None)
  {
    AroundIdle(s, t);
    SleepPath(s, t);
    QueueBodyIs(s, t);
    var b := Queued(Entered(s, t, Take), t);
    var c := Released(b, t, ToSleep);
    ReleasedIs(b, t, ToSleep);
    hide Inv, Alone, Queued, Entered, Released, Slept, Left;
    LeftIs(s, b, t, ToSleep, None);
    SleptLeft(s, c, t);
  }

  lemma QueueBodyIs<T>(s: State<T>, t: Thread)
    requires t in s.pc
    ensures var b := Queued(Entered(s, t, Take), t);
            && b.list == s.list && b.appended == s.appended && b.removed == s.removed
            && b.waitQueue == s.waitQueue + [t] && b.waiter == s.waiter[t := Sem(0, [])]
            && b.lock == Sem(0, s.lock.queue) && b.pc.Keys == s.pc.Keys
            && forall u | u in s.pc && u != t :: b.pc[u] == s.pc[u]
  {
  }

  lemma SleptLeft<T>(s: State<T>, c: State<T>, t: Thread)
    requires t in s.pc && Left(s, c, t, WaitTest, None) && c.waiter == s.waiter[t := Sem(0, [])]
    ensures var e := Slept(c, t);
            && Left(s, e, t, WaitSleep, None) && e.waiter == s.waiter[t := Sem(0, [t])]
            && e.list == c.list && e.appended == c.appended && e.removed == c.removed && e.waitQueue == c.waitQueue
  {
    assert s.waiter[t := Sem(0, [])][t := Sem(0, [t])] == s.waiter[t := Sem(0, [t])];
  }

  lemma SleepPath<T>(s: State<T>, t: Thread)
    requires Around(s, t) && s.pc[t].Idle? && s.list == []
    ensures Alone(s, t, Take, 8) == Slept(Released(Queued(Entered(s, t, Take), t), t, ToSleep), t)
  {
    var a := Entered(s, t, Take);
    var b := Queued(a, t);
    var c := Released(b, t, ToSleep);
    assert t in c.pc && c.pc[t] == WaitTest && t in c.waiter && c.waiter[t] == Sem(0, []);
    hide Alone, Entered, Queued, Released, Slept;
    EnterAlone(s, t, Take);
    QueueAlone(a, t, Take);
    ReleaseAlone(b, t, Take, ToSleep);
    SleepAlone(c, t, Take);
    AloneThen(s, t, Take, 3, 2);
    AloneThen(s, t, Take, 5, 2);
    AloneThen(s, t, Take, 7, 1);
  }

  /** A consumer that has been signalled and is the only one to move, with the lock free and
      something in the list, returns the first item and deletes its semaphore. */
  lemma WokenTakes<T>(s: State<T>, t: Thread)
    requires Inv(s) && t in s.pc && s.pc[t] == WaitTest && t !in s.waitQueue && s.lock.value == 1 && s.list != []
    ensures var last, e := Alone(s, t, Take, 7), Alone(s, t, Take, 8);
            && t in last.pc && Returns(last, t, e) && Result(last.pc[t]) == Some(s.list[0])
            && e.list == s.list[1..] && e.waitQueue == s.waitQueue && e.waiter == s.waiter - {t}
            && Left(s, e, t, Idle, None)
  {
    AroundWoken(s, t);
    WokenPath(s, t);
    WokenBodyIs(s, t);
    var a := Emptied(Entered(Retest(s, t), t, Retake), t);
    ReleasedIs(a, t, TakeDone(s.list[0]));
    hide Inv, Alone, Left, Emptied, Entered, Released, Retest;
    LeftIs(s, a, t, TakeDone(s.list[0]), None);
  }

  /** P on the waiter's semaphore has got through, and Wait is about to take the lock again. */
  function Retest<T>(s: State<T>, t: Thread): (e: State<T>)
    ensures e.list == s.list
  {
    s.(waiter := s.waiter[t := Sem(0, [])], pc := s.pc[t := LockTest(Retake, false)])
  }

  lemma WokenBodyIs<T>(s: State<T>, t: Thread)
    requires t in s.pc && s.list != []
    ensures var a := Emptied(Entered(Retest(s, t), t, Retake), t);
            && a.list == s.list[1..] && a.waitQueue == s.waitQueue && a.waiter == s.waiter - {t}
            && a.lock == Sem(0, s.lock.queue) && a.pc.Keys == s.pc.Keys
            && forall u | u in s.pc && u != t :: a.pc[u] == s.pc[u]
  {
    TakeBodyIs(Retest(s, t), t, Retake);
    hide Emptied, Entered;
  }

  lemma WokenPath<T>(s: State<T>, t: Thread)
    requires Around(s, t) && s.pc[t] == WaitTest && t in s.waiter && s.waiter[t] == Sem(1, []) && s.list != []
    ensures && Alone(s, t, Take, 8) == Released(Emptied(Entered(Retest(s, t), t, Retake), t), t, TakeDone(s.list[0]))
            && var last := Alone(s, t, Take, 7); t in last.pc && last.pc[t] == LockPost(TakeDone(s.list[0]))
  {
    var s1 := Step(s, t, Take);
    assert s1 == Retest(s, t);
    AloneOne(s, t, Take);
    hide Alone, Step, Entered, Emptied, Released;
    AcquireAlone(s1, t, Take, Retake);
    var a := Entered(s1, t, Retake);
    EmptyAlone(a, t, Take);
    ReleaseAlone(Emptied(a, t), t, Take, TakeDone(s.list[0]));
    AloneThen(s, t, Take, 1, 2);
    AloneThen(s, t, Take, 3, 3);
    AloneThen(s, t, Take, 6, 1);
    AloneThen(s, t, Take, 6, 2);
  }
}

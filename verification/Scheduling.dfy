/** Thread placement: threads/scheduler.cc and the scheduler calls of threads/thread.cc,
    together with the queues of any number of semaphores.

    An action is a stretch of kernel code that runs with interrupts off.  A context switch
    is the change of the current thread, followed at once by the CheckToBeDestroyed that the
    next thread calls first. */
module Scheduling {
  import opened Options
  import opened Semaphores

  type SemId = nat

  datatype Status = READY | RUNNING | BLOCKED

  /** `inP` names the semaphore in whose P a thread is looping.  `idle`: the current thread
      is in Sleep's idle loop, about to finish when `finishing`.
      `readied` and `chosen` are history: threads in the order they joined the ready list,
      and in the order FindNextToRun returned them. */
  datatype Places = Places(
    ready: seq<Thread>, current: Thread, status: map<Thread, Status>,
    sems: map<SemId, Sem>, inP: map<Thread, SemId>,
    idle: bool, finishing: bool,
    readied: seq<Thread>, chosen: seq<Thread>)

  datatype Action =
    | Fork(child: Thread)
    | Yield
    | Finish
    | P(sem: SemId)
    | V(sem: SemId)
    | Interrupt(posts: seq<SemId>)
    | Continue

  /** Thread t is in exactly one place if it is live, told by its status, and otherwise in
      none: RUNNING is the current thread, READY is on the ready list, BLOCKED is on the
      queue of the semaphore it waits for and on no other.  The thread in Sleep's idle loop
      counts by its queue; a finishing one is on none. */
  ghost predicate PlacedAt(p: Places, t: Thread) {
    var live := t in p.status;
    && (t in p.ready <==> live && p.status[t] == READY)
    && (forall s | s in p.sems ::
          t in p.sems[s].queue <==> live && p.status[t] == BLOCKED && t in p.inP && p.inP[t] == s)
    && (live && p.status[t] == BLOCKED ==> t in p.inP || (t == p.current && p.idle && p.finishing))
    && (t in p.inP ==> live && p.inP[t] in p.sems)
    && (live && p.status[t] == RUNNING ==> t == p.current && !p.idle)
  }

  ghost predicate Placed(p: Places) {
    && (forall t :: PlacedAt(p, t))
    && p.current in p.status
    && (!p.idle ==> p.status[p.current] == RUNNING && !p.finishing)
    && (p.idle && p.finishing ==> p.current !in p.inP && p.status[p.current] == BLOCKED)
  }

  ghost predicate Once(p: Places) {
    && Distinct(p.ready)
    && (forall s | s in p.sems :: Distinct(p.sems[s].queue))
    && p.readied == p.chosen + p.ready
  }

  ghost predicate Inv(p: Places) {
    Placed(p) && Once(p)
  }

  // ---------------------------------------------------------------------------------
  // The actions.

  function ReadyToRun(p: Places, t: Thread): Places {
    p.(ready := p.ready + [t], status := p.status[t := READY], readied := p.readied + [t])
  }

  /** Sleep's loop: run the next ready thread, or stay idle if there is none.  A finishing
      thread is gone once another runs. */
  function Dispatch(p: Places): Places
    requires p.idle
  {
    if p.ready == [] then p
    else
      var next := p.ready[0];
      p.(ready := p.ready[1..], chosen := p.chosen + [next], current := next,
         status := (if p.finishing then p.status - {p.current} else p.status)[next := RUNNING],
         idle := false, finishing := false)
  }

  /** The current thread, marked BLOCKED, in Sleep's loop. */
  function Blocked(p: Places, done: bool): Places {
    p.(status := p.status[p.current := BLOCKED], idle := true, finishing := done)
  }

  /** The current thread blocks: it has just joined a queue, or it is done. */
  function Sleep(p: Places, done: bool): Places {
    Dispatch(Blocked(p, done))
  }

  function YieldCpu(p: Places): Places {
    if p.ready == [] then p
    else
      var next := p.ready[0];
      var q := ReadyToRun(p.(ready := p.ready[1..], chosen := p.chosen + [next]), p.current);
      q.(current := next, status := q.status[next := RUNNING])
  }

  /** One pass of P's loop by the current thread. */
  function TestLoop(p: Places, s: SemId): Places
    requires s in p.sems
  {
    var (sem, taken) := TryP(p.sems[s], p.current);
    if taken then p.(sems := p.sems[s := sem], inP := p.inP - {p.current})
    else Sleep(p.(sems := p.sems[s := sem], inP := p.inP[p.current := s]), false)
  }

  function PostTo(p: Places, s: SemId): Places {
    if s !in p.sems then p
    else
      var (sem, woken) := Post(p.sems[s]);
      var q := p.(sems := p.sems[s := sem]);
      if woken.Some? then ReadyToRun(q, woken.value) else q
  }

  function PostAll(p: Places, posts: seq<SemId>): Places
    decreases |posts|
  {
    if posts == [] then p else PostAll(PostTo(p, posts[0]), posts[1..])
  }

  /** An action that the state does not allow does nothing.  A thread that was woken inside
      P must first go round P's loop again (`Continue`), and an idle machine reacts to
      interrupts only; a handler's Vs can also come at any other time. */
  function Step(p: Places, a: Action): Places {
    var free := !p.idle && p.current !in p.inP;
    match a
    case Fork(child) => if free && child !in p.status && child !in p.inP then ReadyToRun(p, child) else p
    case Yield => if free then YieldCpu(p) else p
    case Finish => if free then Sleep(p, true) else p
    case P(s) => if free && s in p.sems then TestLoop(p, s) else p
    case V(s) => if free then PostTo(p, s) else p
    case Interrupt(posts) =>
      var q := PostAll(p, posts);
      if q.idle then Dispatch(q) else if free then q else p
    case Continue =>
      if !p.idle && p.current in p.inP && p.inP[p.current] in p.sems
      then TestLoop(p, p.inP[p.current]) else p
  }

  function Run(p: Places, actions: seq<Action>): Places
    decreases |actions|
  {
    if actions == [] then p else Run(Step(p, actions[0]), actions[1..])
  }

  // ---------------------------------------------------------------------------------
  // Every action keeps every thread in one place.

  lemma {:induction false} DispatchKeeps(p: Places)
    requires Inv(p) && p.idle
    ensures Inv(Dispatch(p))
  {
    if p.ready != [] {
      var q := Dispatch(p);
      assert PlacedAt(p, p.current) && PlacedAt(p, p.ready[0]);
      forall t ensures PlacedAt(q, t) {
        assert PlacedAt(p, t);
        RestAt(p.ready, t);
      }
    }
  }

  lemma {:induction false} YieldKeeps(p: Places)
    requires Inv(p) && !p.idle
    ensures Inv(YieldCpu(p))
  {
    if p.ready != [] {
      var q := YieldCpu(p);
      assert PlacedAt(p, p.current) && PlacedAt(p, p.ready[0]);
      forall t ensures PlacedAt(q, t) {
        assert PlacedAt(p, t);
        RestAt(p.ready, t);
      }
    }
  }

  /** The current thread has joined the queue of s. */
  lemma {:induction false} JoinKeeps(p: Places, s: SemId)
    requires Inv(p) && !p.idle && s in p.sems
    requires p.current in p.inP ==> p.inP[p.current] == s
    requires p.sems[s].value == 0
    ensures p.current !in p.sems[s].queue
    ensures Inv(Blocked(p.(sems := p.sems[s := TryP(p.sems[s], p.current).0], inP := p.inP[p.current := s]), false))
  {
    var r := Blocked(p.(sems := p.sems[s := TryP(p.sems[s], p.current).0], inP := p.inP[p.current := s]), false);
    assert PlacedAt(p, p.current);
    forall t ensures PlacedAt(r, t) {
      assert PlacedAt(p, t);
    }
  }

  lemma {:induction false} TestKeeps(p: Places, s: SemId)
    requires Inv(p) && !p.idle && s in p.sems
    requires p.current in p.inP ==> p.inP[p.current] == s
    ensures Inv(TestLoop(p, s))
  {
    if p.sems[s].value == 0 {
      JoinKeeps(p, s);
      DispatchKeeps(Blocked(p.(sems := p.sems[s := TryP(p.sems[s], p.current).0], inP := p.inP[p.current := s]),
        false));
    } else {
      var q := TestLoop(p, s);
      assert PlacedAt(p, p.current);
      forall t ensures PlacedAt(q, t) {
        assert PlacedAt(p, t);
      }
    }
  }

  lemma {:induction false} FinishKeeps(p: Places)
    requires Inv(p) && !p.idle && p.current !in p.inP
    ensures Inv(Blocked(p, true)) && Inv(Sleep(p, true))
  {
    var q := Blocked(p, true);
    forall t ensures PlacedAt(q, t) {
      assert PlacedAt(p, t);
    }
    DispatchKeeps(q);
  }

  lemma {:induction false} PostKeepsOnce(p: Places, s: SemId)
    requires Once(p)
    requires s in p.sems && (p.sems[s].queue != [] ==> p.sems[s].queue[0] !in p.ready)
    ensures Once(PostTo(p, s))
  {
    var q := PostTo(p, s);
    assert q.sems[s].queue == if p.sems[s].queue == [] then [] else p.sems[s].queue[1..];
    forall u | u in q.sems ensures Distinct(q.sems[u].queue) {
      assert Distinct(p.sems[u].queue);
    }
    assert Distinct(q.ready);
  }

  lemma {:induction false} PostPlaces(p: Places, s: SemId, t: Thread)
    requires s in p.sems && Distinct(p.sems[s].queue) && PlacedAt(p, t)
    requires p.sems[s].queue != [] ==> PlacedAt(p, p.sems[s].queue[0])
    ensures PlacedAt(PostTo(p, s), t)
  {
    if p.sems[s].queue != [] { RestAt(p.sems[s].queue, t); }
    hide Distinct;
  }

  lemma {:induction false} PostKeeps(p: Places, s: SemId)
    requires Inv(p)
    ensures Inv(PostTo(p, s)) && PostTo(p, s).idle == p.idle
  {
    if s in p.sems {
      var q := PostTo(p, s);
      var queue := p.sems[s].queue;
      assert Distinct(queue);
      if queue != [] {
        assert PlacedAt(p, queue[0]);
        assert queue[0] in queue && queue[0] !in p.ready;
      }
      PostKeepsOnce(p, s);
      hide PlacedAt, Once, Distinct;
      forall t ensures PlacedAt(q, t) {
        PostPlaces(p, s, t);
      }
    }
  }

  lemma {:induction false} PostAllKeeps(p: Places, posts: seq<SemId>)
    requires Inv(p)
    ensures Inv(PostAll(p, posts)) && PostAll(p, posts).idle == p.idle
    decreases |posts|
  {
    if posts != [] {
      PostKeeps(p, posts[0]);
      PostAllKeeps(PostTo(p, posts[0]), posts[1..]);
    }
  }

  lemma {:induction false} ForkKeeps(p: Places, child: Thread)
    requires Inv(p) && child !in p.status && child !in p.inP
    ensures Inv(ReadyToRun(p, child))
  {
    var q := ReadyToRun(p, child);
    assert PlacedAt(p, child);
    forall t ensures PlacedAt(q, t) {
      assert PlacedAt(p, t);
    }
  }

  lemma {:induction false} StepKeeps(p: Places, a: Action)
    requires Inv(p)
    ensures Inv(Step(p, a))
  {
    hide Placed, Once;
    var free := !p.idle && p.current !in p.inP;
    match a
    case Fork(child) => if free && child !in p.status && child !in p.inP { ForkKeeps(p, child); }
    case Yield => if free { YieldKeeps(p); }
    case Finish => if free { FinishKeeps(p); }
    case P(s) => if free && s in p.sems { TestKeeps(p, s); }
    case V(s) => PostKeeps(p, s);
    case Interrupt(posts) =>
      PostAllKeeps(p, posts);
      if p.idle { DispatchKeeps(PostAll(p, posts)); }
    case Continue =>
      if !p.idle && p.current in p.inP && p.inP[p.current] in p.sems { TestKeeps(p, p.inP[p.current]); }
  }

  lemma {:induction false} RunKeeps(p: Places, actions: seq<Action>)
    requires Inv(p)
    ensures Inv(Run(p, actions))
    decreases |actions|
  {
    if actions != [] {
      StepKeeps(p, actions[0]);
      RunKeeps(Step(p, actions[0]), actions[1..]);
    }
  }

  /** How often t occurs in a list. */
  function Count(list: seq<Thread>, t: Thread): nat {
    multiset(list)[t]
  }

  lemma DistinctCount(list: seq<Thread>, t: Thread)
    requires Distinct(list)
    ensures Count(list, t) == if t in list then 1 else 0
  {
    if t in list {
      var i :| 0 <= i < |list| && list[i] == t;
      assert list == list[..i] + [t] + list[i + 1..];
      assert t !in list[..i] && t !in list[i + 1..];
    }
  }

  ghost predicate Boot(p: Places) {
    && p.ready == p.readied == p.chosen == [] && p.inP == map[] && !p.idle && !p.finishing
    && p.status == map[p.current := RUNNING]
    && forall s | s in p.sems :: p.sems[s].queue == []
  }

  /** After every run from a kernel with one thread: a live thread is running, or once on the
      ready list, or once on one semaphore's queue, or finishing in the idle loop, and in no
      second place; a thread that is not live is in no list; and threads get the processor in
      the order in which they became ready. */
  lemma EveryRun(p: Places, actions: seq<Action>, t: Thread)
    requires Boot(p)
    ensures var e := Run(p, actions);
            && e.readied == e.chosen + e.ready
            && Count(e.ready, t) == (if t in e.status && e.status[t] == READY then 1 else 0)
            && (forall s | s in e.sems ::
                  Count(e.sems[s].queue, t) ==
                  if t in e.status && e.status[t] == BLOCKED && t in e.inP && e.inP[t] == s then 1 else 0)
            && (t in e.status && e.status[t] == RUNNING ==> t == e.current && !e.idle)
            && (t in e.status && e.status[t] == BLOCKED ==>
                  || (t in e.inP && e.inP[t] in e.sems)
                  || (t == e.current && e.idle && e.finishing))
            && e.current in e.status
  {
    assert forall u :: PlacedAt(p, u);
    RunKeeps(p, actions);
    var e := Run(p, actions);
    assert PlacedAt(e, t);
    DistinctCount(e.ready, t);
    forall s | s in e.sems ensures Count(e.sems[s].queue, t) == if t in e.sems[s].queue then 1 else 0 {
      DistinctCount(e.sems[s].queue, t);
    }
  }

  // ---------------------------------------------------------------------------------
  // What each action does.

  /** The current thread runs and is not inside P. */
  predicate Free(p: Places) {
    !p.idle && p.current !in p.inP
  }

  /** Only these parts of the state may differ; the histories are not counted. */
  ghost predicate Otherwise(p: Places, q: Places, current: Thread, ready: seq<Thread>, status: map<Thread, Status>) {
    && q.current == current && q.ready == ready && q.status == status
    && q.sems == p.sems && q.inP == p.inP && q.idle == p.idle && q.finishing == p.finishing
  }

  /** Yield: the first ready thread runs and the current one goes to the end of the list; with no
      ready thread nothing changes. */
  lemma Yields(p: Places)
    requires Inv(p) && Free(p)
    ensures var q := Step(p, Yield);
            if p.ready == [] then q == p
            else
              && p.ready[0] != p.current
              && Otherwise(p, q, p.ready[0], p.ready[1..] + [p.current],
                           p.status[p.current := READY][p.ready[0] := RUNNING])
  {
    if p.ready != [] { assert PlacedAt(p, p.ready[0]); }
  }

  /** Fork: a thread that does not exist yet is ready, behind all others. */
  lemma Forks(p: Places, child: Thread)
    requires Inv(p) && Free(p) && child !in p.status
    ensures Otherwise(p, Step(p, Fork(child)), p.current, p.ready + [child], p.status[child := READY])
  {
    assert PlacedAt(p, child);
  }

  /** P on a positive value: it is one lower, and the thread runs on. */
  lemma Passes(p: Places, s: SemId)
    requires Inv(p) && s in p.sems && p.sems[s].value > 0
    requires !p.idle && (p.current in p.inP ==> p.inP[p.current] == s)
    ensures Step(p, if p.current in p.inP then Continue else P(s))
            == p.(sems := p.sems[s := Sem(p.sems[s].value - 1, p.sems[s].queue)], inP := p.inP - {p.current})
  {
  }

  /** P on zero: the thread is last on the queue, inside P, and the first ready thread runs, or
      nobody if there is none. */
  lemma Waits(p: Places, s: SemId)
    requires Inv(p) && s in p.sems && p.sems[s].value == 0
    requires !p.idle && (p.current in p.inP ==> p.inP[p.current] == s)
    ensures var q := Step(p, if p.current in p.inP then Continue else P(s));
            && q.sems == p.sems[s := Sem(0, p.sems[s].queue + [p.current])] && q.inP == p.inP[p.current := s]
            && (if p.ready == [] then
                  q.idle && q.current == p.current && q.ready == [] && q.status == p.status[p.current := BLOCKED]
                else !q.idle && q.current == p.ready[0] && q.ready == p.ready[1..]
                     && q.status == p.status[p.current := BLOCKED][p.ready[0] := RUNNING])
            && !q.finishing
  {
  }

  /** V: the value is one higher, and the thread that has waited longest, if any, is ready behind
      all others. */
  lemma Posts(p: Places, s: SemId)
    requires Inv(p) && Free(p) && s in p.sems
    ensures var q, sem := Step(p, V(s)), p.sems[s];
            && q.current == p.current && q.idle == p.idle && q.inP == p.inP && q.finishing == p.finishing
            && (if sem.queue == [] then
                  q.sems == p.sems[s := Sem(sem.value + 1, [])] && q.ready == p.ready && q.status == p.status
                else q.sems == p.sems[s := Sem(sem.value + 1, sem.queue[1..])] && q.ready == p.ready + [sem.queue[0]]
                     && q.status == p.status[sem.queue[0] := READY])
  {
  }

  /** Finish: once another thread runs the finished one is gone; until then nobody runs. */
  lemma Finishes(p: Places)
    requires Inv(p) && Free(p)
    ensures var q := Step(p, Finish);
            && q.sems == p.sems && q.inP == p.inP
            && (if p.ready == [] then q.idle && q.finishing && q.current == p.current && q.ready == []
                else !q.idle && !q.finishing && q.current == p.ready[0] && q.ready == p.ready[1..]
                     && q.status == (p.status - {p.current})[p.ready[0] := RUNNING] && p.current !in q.status)
  {
    if p.ready != [] { assert PlacedAt(p, p.ready[0]); }
  }

  /** How often s is posted to. */
  function Posted(posts: seq<SemId>, s: SemId): nat {
    if posts == [] then 0 else (if posts[0] == s then 1 else 0) + Posted(posts[1..], s)
  }

  /** A queue without its first n, or empty when there are not so many. */
  function Dropped(queue: seq<Thread>, n: nat): seq<Thread> {
    if n < |queue| then queue[n..] else []
  }

  lemma DropOne(queue: seq<Thread>, n: nat)
    ensures Dropped(Dropped(queue, 1), n) == Dropped(queue, n + 1) && Dropped(queue, 0) == queue
  {
  }

  lemma OnePost(p: Places, r: SemId, s: SemId)
    requires s in p.sems
    ensures var q, sem := PostTo(p, r), p.sems[s];
            s in q.sems && q.sems[s] == if r == s then Sem(sem.value + 1, Dropped(sem.queue, 1)) else sem
  {
  }

  /** The Vs of a handler: each raises its value by one and wakes one waiter, while there are any. */
  lemma {:induction false} HandlerPosts(p: Places, posts: seq<SemId>, s: SemId)
    requires s in p.sems
    ensures var q, n := PostAll(p, posts), Posted(posts, s);
            s in q.sems && q.sems[s] == Sem(p.sems[s].value + n, Dropped(p.sems[s].queue, n))
    decreases |posts|
  {
    DropOne(p.sems[s].queue, 0);
    if posts != [] {
      OnePost(p, posts[0], s);
      DropOne(p.sems[s].queue, Posted(posts[1..], s));
      hide PostTo, Dropped;
      HandlerPosts(PostTo(p, posts[0]), posts[1..], s);
    }
  }

  /** With a thread running they are so many V actions, one after the other. */
  lemma {:induction false} HandlerIsVs(p: Places, posts: seq<SemId>)
    requires Free(p)
    ensures Step(p, Interrupt(posts)) == Run(p, seq(|posts|, i requires 0 <= i < |posts| => V(posts[i])))
    decreases |posts|
  {
    HandlerKeeps(p, posts);
    if posts != [] {
      var q := PostTo(p, posts[0]);
      HandlerIsVs(q, posts[1..]);
      HandlerKeeps(q, posts[1..]);
      assert seq(|posts|, i requires 0 <= i < |posts| => V(posts[i]))[1..]
             == seq(|posts[1..]|, i requires 0 <= i < |posts[1..]| => V(posts[1..][i]));
    }
  }

  /** An interrupt while a thread runs is its Vs; while nobody runs, the first thread then ready
      gets the processor, and a finishing thread is gone. */
  lemma Interrupts(p: Places, posts: seq<SemId>)
    requires Inv(p) && (p.idle || Free(p))
    ensures var q, a := Step(p, Interrupt(posts)), PostAll(p, posts);
            && (!p.idle ==> q == a)
            && (p.idle && a.ready == [] ==> q == a)
            && (p.idle && a.ready != [] ==>
                  && !q.idle && !q.finishing && q.current == a.ready[0] && q.ready == a.ready[1..]
                  && q.sems == a.sems && q.inP == p.inP
                  && q.status == (if p.finishing then a.status - {p.current} else a.status)[a.ready[0] := RUNNING])
  {
    HandlerKeeps(p, posts);
  }

  lemma {:induction false} HandlerKeeps(p: Places, posts: seq<SemId>)
    ensures var q := PostAll(p, posts);
            q.current == p.current && q.idle == p.idle && q.inP == p.inP && q.finishing == p.finishing
    decreases |posts|
  {
    if posts != [] { HandlerKeeps(PostTo(p, posts[0]), posts[1..]); }
  }

  // ---------------------------------------------------------------------------------
  // The same code in place.  An `assert` that carries the source's text is an ASSERT of
  // the source; none of them can fail.

  class Kernel {
    var readyList: seq<Thread>
    var toBeDestroyed: Option<Thread>
    var currentThread: Thread
    var status: map<Thread, Status>
    var sems: map<SemId, Sem>
    var inP: map<Thread, SemId>
    var idle: bool
    var finishing: bool
    ghost var readied: seq<Thread>
    ghost var chosen: seq<Thread>

    ghost function View(): Places
      reads this
    {
      Places(readyList, currentThread, status, sems, inP, idle, finishing, readied, chosen)
    }

    ghost predicate Valid()
      reads this
    {
      Inv(View()) && toBeDestroyed == None
    }

    method ReadyUp(t: Thread)
      requires t !in readyList
      modifies this`status, this`readyList, this`readied
      ensures View() == ReadyToRun(old(View()), t)
    {
      status := status[t := READY];
      assert t !in readyList;  // ASSERT(!IsInList(item)) in readyList->Append
      readyList := readyList + [t];
      readied := readied + [t];
    }

    method FindNextToRun() returns (next: Option<Thread>)
      modifies this`readyList, this`chosen
      ensures var p := old(View());
              if p.ready == [] then next == None && View() == p
              else next == Some(p.ready[0]) && View() == p.(ready := p.ready[1..], chosen := p.chosen + [p.ready[0]])
    {
      if readyList == [] {
        next := None;
      } else {
        next := Some(readyList[0]);
        chosen := chosen + [readyList[0]];
        readyList := readyList[1..];
      }
    }

    /** Run, up to and including the CheckToBeDestroyed that the next thread calls as soon as
        SWITCH returns in it, or in Begin. */
    method SwitchTo(next: Thread, done: bool)
      requires toBeDestroyed == None && (done ==> next != currentThread)
      modifies this`status, this`toBeDestroyed, this`currentThread, this`idle, this`finishing
      ensures View() == old(View()).(
                current := next, idle := false, finishing := false,
                status := (if done then old(status) - {old(currentThread)} else old(status))[next := RUNNING])
      ensures toBeDestroyed == None
    {
      if done {
        assert toBeDestroyed == None;  // ASSERT(toBeDestroyed == NULL)
        toBeDestroyed := Some(currentThread);
        status := status - {currentThread};
      }
      currentThread := next;
      status := status[next := RUNNING];
      idle, finishing := false, false;
      if toBeDestroyed.Some? {
        assert toBeDestroyed.value != currentThread;  // ASSERT(this != kernel->currentThread) in ~Thread
        toBeDestroyed := None;
      }
    }

    /** Sleep's loop, entered with the current thread already BLOCKED or woken meanwhile. */
    method LeaveIdle()
      requires Valid() && idle
      modifies this
      ensures Valid() && View() == Dispatch(old(View()))
    {
      DispatchKeeps(View());
      var next := FindNextToRun();
      if next.Some? {
        assert PlacedAt(old(View()), next.value);
        SwitchTo(next.value, finishing);
      }
    }

    method FinishThread()
      requires Valid() && !idle && currentThread !in inP
      modifies this
      ensures Valid() && View() == Sleep(old(View()), true)
    {
      FinishKeeps(View());
      status := status[currentThread := BLOCKED];
      idle, finishing := true, true;
      LeaveIdle();
    }

    method YieldThread()
      requires Valid() && !idle
      modifies this
      ensures Valid() && View() == YieldCpu(old(View()))
    {
      YieldKeeps(View());
      var next := FindNextToRun();
      if next.Some? {
        assert PlacedAt(old(View()), currentThread);
        RestAt(old(readyList), currentThread);
        ReadyUp(currentThread);
        SwitchTo(next.value, false);
      }
    }

    /** One pass of P's loop; a thread that goes to sleep comes back here when it is run. */
    method PassP(s: SemId)
      requires Valid() && !idle && s in sems
      requires currentThread in inP ==> inP[currentThread] == s
      modifies this
      ensures Valid() && View() == TestLoop(old(View()), s)
    {
      TestKeeps(View(), s);
      if sems[s].value == 0 {
        JoinKeeps(View(), s);
        assert currentThread !in sems[s].queue;  // ASSERT(!IsInList(item)) in queue->Append
        sems := sems[s := sems[s].(queue := sems[s].queue + [currentThread])];
        inP := inP[currentThread := s];
        status := status[currentThread := BLOCKED];
        idle, finishing := true, false;
        LeaveIdle();
      } else {
        sems := sems[s := sems[s].(value := sems[s].value - 1)];
        inP := inP - {currentThread};
      }
    }

    method PostSem(s: SemId)
      requires Valid() && s in sems
      modifies this
      ensures Valid() && View() == PostTo(old(View()), s)
    {
      PostKeeps(View(), s);
      var sem := sems[s];
      assert sem.queue != [] ==> PlacedAt(View(), sem.queue[0]) && sem.queue[0] !in readyList;
      hide Inv;
      if sem.queue != [] {
        sems := sems[s := Sem(sem.value + 1, sem.queue[1..])];
        ReadyUp(sem.queue[0]);
      } else {
        sems := sems[s := Sem(sem.value + 1, [])];
      }
    }

    /** A device handler runs some Vs; an idle machine then looks for a ready thread. */
    method HandleInterrupt(posts: seq<SemId>)
      requires Valid() && (idle || currentThread !in inP)
      modifies this
      ensures Valid() && View() == Step(old(View()), Interrupt(posts))
    {
      ghost var p := View();
      var i := 0;
      while i < |posts|
        invariant i <= |posts| && Valid() && idle == p.idle
        invariant PostAll(View(), posts[i..]) == PostAll(p, posts)
      {
        PostKeeps(View(), posts[i]);
        assert posts[i..][1..] == posts[i + 1..];
        if posts[i] in sems {
          PostSem(posts[i]);
        }
        i := i + 1;
      }
      if idle {
        LeaveIdle();
      }
    }

    /** One action of a run, in place. */
    method Perform(a: Action)
      requires Valid()
      modifies this
      ensures Valid() && View() == Step(old(View()), a)
    {
      var free := !idle && currentThread !in inP;
      match a {
        case Fork(child) =>
          if free && child !in status && child !in inP {
            ForkKeeps(View(), child);
            assert PlacedAt(View(), child);
            ReadyUp(child);
          }
        case Yield => if free { YieldThread(); }
        case Finish => if free { FinishThread(); }
        case P(s) => if free && s in sems { PassP(s); }
        case V(s) => if free && s in sems { PostSem(s); }
        case Interrupt(posts) => if idle || free { HandleInterrupt(posts); } else { PostAllKeeps(View(), posts); }
        case Continue =>
          if !idle && currentThread in inP && inP[currentThread] in sems { PassP(inP[currentThread]); }
      }
    }
  }
}

/** The counting semaphore of threads/synch.cc.

    P and V run with interrupts off, so one pass through P's loop and one whole V are
    atomic.  `TryP` and `Post` are those two atomic sections; `Semaphore` performs them in
    place. */
module Semaphores {
  import opened Options

  type Thread = nat

  datatype Sem = Sem(value: nat, queue: seq<Thread>)

  /** One pass through P's loop by thread `t`: take the value, or join the queue. */
  function TryP(s: Sem, t: Thread): (r: (Sem, bool))
    ensures r.1 <==> s.value > 0
    ensures r.0.value + (if r.1 then 1 else 0) == s.value
    ensures r.0.queue == s.queue + if r.1 then [] else [t]
  {
    if s.value == 0 then (s.(queue := s.queue + [t]), false)
    else (s.(value := s.value - 1), true)
  }

  /** V: the longest waiting thread, if any, is handed to the ready list. */
  function Post(s: Sem): (r: (Sem, Option<Thread>))
    ensures r.0.value == s.value + 1
    ensures r.1.None? <==> s.queue == []
    ensures s.queue == (if r.1.Some? then [r.1.value] else []) + r.0.queue
  {
    if s.queue == [] then (s.(value := s.value + 1), None)
    else (Sem(s.value + 1, s.queue[1..]), Some(s.queue[0]))
  }

  class Semaphore {
    var value: nat
    var queue: seq<Thread>

    function View(): Sem
      reads this
    {
      Sem(value, queue)
    }

    constructor (initialValue: nat)
      ensures View() == Sem(initialValue, [])
    {
      value, queue := initialValue, [];
    }

    /** The body of P's loop up to Sleep, or up to the end of P when `taken`. */
    method TestOnce(t: Thread) returns (taken: bool)
      modifies this
      ensures (View(), taken) == TryP(old(View()), t)
    {
      if value == 0 {
        queue := queue + [t];
        taken := false;
      } else {
        value := value - 1;
        taken := true;
      }
    }

    method V() returns (woken: Option<Thread>)
      modifies this
      ensures (View(), woken) == Post(old(View()))
    {
      woken := None;
      if queue != [] {
        woken := Some(queue[0]);
        queue := queue[1..];
      }
      value := value + 1;
    }
  }
}

/** Every interleaving of P and V on one semaphore by any number of threads. */
module SemaphoreRuns {
  import opened Options
  import opened Semaphores

  /** Where a thread stands with respect to one semaphore.  A thread that V took off the
      queue is ready with `woken` set until it tests the value again. */
  datatype Phase = Outside | Testing(woken: bool) | Asleep

  /** `taken` and `posted` count completed Ps and Vs. */
  datatype State = State(sem: Sem, phase: map<Thread, Phase>, taken: nat, posted: nat)

  datatype Action = CallP(t: Thread) | Test(t: Thread) | CallV

  ghost predicate Init(s: State, initial: nat) {
    && s.sem == Sem(initial, [])
    && s.taken == s.posted == 0
    && forall t | t in s.phase :: s.phase[t] == Outside
  }

  /** One atomic step; an action whose thread is not in the right phase does nothing. */
  function Step(s: State, a: Action): State {
    match a
    case CallP(t) =>
      if t in s.phase && s.phase[t] == Outside then s.(phase := s.phase[t := Testing(false)]) else s
    case Test(t) =>
      if t in s.phase && s.phase[t].Testing? then
        var (sem, ok) := TryP(s.sem, t);
        if ok then s.(sem := sem, phase := s.phase[t := Outside], taken := s.taken + 1)
        else s.(sem := sem, phase := s.phase[t := Asleep])
      else s
    case CallV =>
      var (sem, woken) := Post(s.sem);
      State(sem,
            if woken.Some? then s.phase[woken.value := Testing(true)] else s.phase,
            s.taken, s.posted + 1)
  }

  function Run(s: State, actions: seq<Action>): State
    decreases |actions|
  {
    if actions == [] then s else Run(Step(s, actions[0]), actions[1..])
  }

  /** Threads a V has woken that have not tested the value again. */
  ghost function Woken(s: State): set<Thread> {
    set t | t in s.phase && s.phase[t] == Testing(true)
  }

  ghost predicate Inv(s: State, initial: nat) {
    && s.sem.value + s.taken == initial + s.posted
    && Distinct(s.sem.queue)
    && (forall t :: t in s.sem.queue <==> t in s.phase && s.phase[t] == Asleep)
    && (s.sem.queue != [] ==> s.sem.value <= |Woken(s)|)
  }

  lemma {:induction false} TestKeepsInv(s: State, t: Thread, initial: nat)
    requires Inv(s, initial)
    requires t in s.phase && s.phase[t].Testing?
    ensures Inv(Step(s, Test(t)), initial)
  {
    TestWakes(s, t);
    hide Woken;
    var s' := Step(s, Test(t));
    assert t !in s.sem.queue;
    forall u ensures u in s'.sem.queue <==> u in s'.phase && s'.phase[u] == Asleep {}
  }

  lemma TestWakes(s: State, t: Thread)
    requires t in s.phase && s.phase[t].Testing?
    ensures |Woken(Step(s, Test(t)))| + (if s.phase[t].woken then 1 else 0) == |Woken(s)|
  {
    var s' := Step(s, Test(t));
    if s.phase[t].woken {
      SizeWithout(Woken(s'), Woken(s), t);
    } else {
      assert Woken(s') == Woken(s);
    }
  }

  lemma {:induction false} VKeepsInv(s: State, initial: nat)
    requires Inv(s, initial)
    requires s.sem.queue != []
    ensures Inv(Step(s, CallV), initial)
  {
    var s' := Step(s, CallV);
    var w := s.sem.queue[0];
    assert w in s.sem.queue;
    assert s.sem.queue == [w] + s'.sem.queue;
    assert forall t :: t in s'.sem.queue <==> t in s.sem.queue && t != w;
    SizeWithout(Woken(s), Woken(s'), w);
  }

  lemma {:induction false} StepKeepsInv(s: State, a: Action, initial: nat)
    requires Inv(s, initial)
    ensures Inv(Step(s, a), initial)
  {
    var s' := Step(s, a);
    match a
    case CallP(t) => assert Woken(s') == Woken(s);
    case Test(t) => if s' != s { TestKeepsInv(s, t, initial); }
    case CallV => if s.sem.queue != [] { VKeepsInv(s, initial); }
  }

  lemma {:induction false} RunKeepsInv(s: State, actions: seq<Action>, initial: nat)
    requires Inv(s, initial)
    ensures Inv(Run(s, actions), initial)
    decreases |actions|
  {
    if actions != [] {
      StepKeepsInv(s, actions[0], initial);
      RunKeepsInv(Step(s, actions[0]), actions[1..], initial);
    }
  }

  /** After every run: the value is the initial value plus Vs minus completed Ps, sleeping
      threads are exactly the queue, and a queue is non-empty only while every unit of the
      value is spoken for by a woken thread.  So once nobody is about to test, a positive
      value leaves nobody asleep: no V is lost. */
  lemma EveryRun(s: State, actions: seq<Action>, initial: nat)
    requires Init(s, initial)
    ensures var e := Run(s, actions);
            && e.sem.value == initial + e.posted - e.taken
            && (e.sem.queue != [] ==> e.sem.value <= |Woken(e)|)
            && (forall t :: t in e.sem.queue <==> t in e.phase && e.phase[t] == Asleep)
            && ((forall t | t in e.phase :: !e.phase[t].Testing?) && e.sem.value > 0 ==>
                  forall t | t in e.phase :: e.phase[t] == Outside)
  {
    assert Woken(s) == {};
    RunKeepsInv(s, actions, initial);
    var e := Run(s, actions);
    if forall t | t in e.phase :: !e.phase[t].Testing? {
      assert Woken(e) == {};
    }
  }
}

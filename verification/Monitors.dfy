/** The monitor-protected list in place: threads/synchlist.cc with the Lock and Condition of
    threads/synch.cc, as objects that threads update statement by statement.

    Each method executes the statements of one case of SynchLists.Step, with the thread's place
    in the program kept in the object.  What it adds to that module is that the waiter
    semaphores are objects of their own: none is another or the lock's (`Valid`), so a P or V
    on one leaves the rest alone (`PassOn`, `PostOn`). */
module Monitors {
  import opened Options
  import opened Semaphores
  import opened SynchLists

  class SynchList<T(==)> {
    const semaphore: Semaphore                 // of the lock
    var lockHolder: Option<Thread>
    var waitQueue: seq<Thread>                 // of the condition, by the thread that waits
    var waiters: map<Thread, Semaphore>        // the semaphores that Wait has allocated
    var list: seq<T>
    var pc: map<Thread, Pc<T>>                 // the statement each thread is at
    ghost var owner: Option<Thread>
    ghost var appended: seq<T>
    ghost var removed: seq<T>

    ghost predicate Valid()
      reads `waiters
    {
      && (forall t | t in waiters :: waiters[t] != semaphore)
      && forall t, u | t in waiters && u in waiters && t != u :: waiters[t] != waiters[u]
    }

    ghost function Waiting(): (m: map<Thread, Sem>)
      reads `waiters, waiters.Values
      ensures m.Keys == waiters.Keys
    {
      map t | t in waiters :: waiters[t].View()
    }

    ghost function View(): State<T>
      reads this, semaphore, waiters.Values
    {
      State(semaphore.View(), lockHolder, waitQueue, Waiting(), list, pc, owner, appended, removed)
    }

    constructor (threads: set<Thread>)
      ensures Valid() && Init(View()) && pc.Keys == threads && fresh(semaphore)
    {
      semaphore := new Semaphore(1);
      lockHolder, waitQueue, waiters, list := None, [], map[], [];
      pc := map t | t in threads :: Idle;
      owner, appended, removed := None, [], [];
    }

    /** The semaphore that Wait allocates. */
    method NewWaiter(t: Thread)
      requires Valid()
      modifies `waiters
      ensures Valid() && Waiting() == old(Waiting())[t := Sem(0, [])]
    {
      var waiter := new Semaphore(0);
      waiters := waiters[t := waiter];
    }

    /** It is gone once Wait returns. */
    method DropWaiter(t: Thread)
      requires Valid()
      modifies `waiters
      ensures Valid() && Waiting() == old(Waiting()) - {t}
    {
      waiters := waiters - {t};
    }

    /** A pass of P on a waiter's semaphore touches no other one. */
    method PassOn(t: Thread) returns (taken: bool)
      requires Valid() && t in waiters
      modifies waiters[t]
      ensures var (sem, ok) := TryP(old(Waiting())[t], t); Waiting() == old(Waiting())[t := sem] && taken == ok
    {
      taken := waiters[t].TestOnce(t);
    }

    /** And so does a V. */
    method PostOn(w: Thread) returns (woken: Option<Thread>)
      requires Valid() && w in waiters
      modifies waiters[w]
      ensures var (sem, who) := Post(old(Waiting())[w]); Waiting() == old(Waiting())[w := sem] && woken == who
    {
      woken := waiters[w].V();
    }

    /** ReadyToRun, for a thread that a V took off its queue. */
    method WakeUp(woken: Option<Thread>)
      modifies `pc
      ensures pc == Ready(old(pc), woken)
    {
      if woken.Some? && woken.value in pc {
        match pc[woken.value] {
          case LockSleep(op) => pc := pc[woken.value := LockTest(op, true)];
          case WaitSleep => pc := pc[woken.value := WaitTest];
          case _ =>
        }
      }
    }

    /** Lock::Acquire, also inside Wait. */
    method Acquire(t: Thread)
      requires Valid() && t in pc && (pc[t].LockTest? || pc[t].LockTaken?)
      modifies this, semaphore
      ensures Valid() && View() == StepAcquire(old(View()), t)
    {
      if pc[t].LockTest? {
        TestLock(t);
      } else {
        TakeLock(t);
      }
    }

    method TestLock(t: Thread)
      requires Valid() && t in pc && pc[t].LockTest?
      modifies this, semaphore
      ensures Valid() && View() == StepAcquire(old(View()), t)
    {
      hide Waiting;
      var op := pc[t].op;
      if semaphore.value == 0 && t in semaphore.queue {   // List::Append's ASSERT
        pc := pc[t := Failed];
        return;
      }
      var taken := semaphore.TestOnce(t);
      pc := pc[t := if taken then LockTaken(op) else LockSleep(op)];
      if taken {
        owner := Some(t);
      }
    }

    method TakeLock(t: Thread)
      requires Valid() && t in pc && pc[t].LockTaken?
      modifies this
      ensures Valid() && View() == StepAcquire(old(View()), t)
    {
      hide Waiting;
      lockHolder := Some(t);
      match pc[t].op {
        case Put(item) => pc := pc[t := PutRead(item)];
        case Take => pc := pc[t := TakeTest(false)];
        case Retake =>
          DropWaiter(t);
          pc := pc[t := TakeTest(true)];
      }
    }

    /** SynchList::Append with Condition::Signal, after the lock is held. */
    method Append(t: Thread)
      requires Valid() && t in pc && Putting(pc[t])
      modifies this, waiters.Values
      ensures Valid() && View() == StepPut(old(View()), t)
    {
      hide Post, Waiting;
      match pc[t] {
        case PutRead(item) =>
          pc := pc[t := PutWrite(item, list)];
        case PutWrite(item, seen) =>
          list := seen + [item];
          appended := appended + [item];
          pc := pc[t := PutSignal];
        case PutSignal =>
          if lockHolder != Some(t) {
            pc := pc[t := Failed];
          } else if waitQueue == [] {
            pc := pc[t := Unhold(PutDone)];
          } else {
            pc := pc[t := PutPost(waitQueue[0])];
            waitQueue := waitQueue[1..];
          }
        case PutPost(w) =>
          if w !in waiters {
            pc := pc[t := Failed];
          } else {
            var woken := PostOn(w);
            WakeUp(woken);
            pc := pc[t := Unhold(PutDone)];
          }
      }
    }

    /** SynchList::RemoveFront, after the lock is held. */
    method RemoveFront(t: Thread)
      requires Valid() && t in pc && (pc[t].TakeTest? || pc[t].TakeRead? || pc[t].TakeWrite?)
      modifies this
      ensures Valid() && View() == StepTake(old(View()), t)
    {
      match pc[t] {
        case TakeTest(_) =>
          pc := pc[t := if list == [] then WaitEnqueue else TakeRead];
        case TakeRead =>
          pc := pc[t := if list == [] then Failed else TakeWrite(list)];
        case TakeWrite(seen) =>
          if seen == [] {
            pc := pc[t := Failed];
          } else {
            list := seen[1..];
            removed := removed + [seen[0]];
            pc := pc[t := Unhold(TakeDone(seen[0]))];
          }
      }
    }

    /** Condition::Wait up to Release, and the P on the semaphore it has allocated. */
    method Wait(t: Thread)
      requires Valid() && t in pc && (pc[t].WaitEnqueue? || pc[t].WaitTest?)
      modifies this, waiters.Values
      ensures Valid() && View() == StepWait(old(View()), t)
    {
      hide TryP, Waiting;
      if pc[t].WaitEnqueue? {
        if lockHolder != Some(t) {
          pc := pc[t := Failed];
        } else {
          NewWaiter(t);
          waitQueue := waitQueue + [t];
          pc := pc[t := Unhold(ToSleep)];
        }
      } else if t !in waiters {
        pc := pc[t := Failed];
      } else {
        var taken := PassOn(t);
        pc := pc[t := if taken then LockTest(Retake, false) else WaitSleep];
      }
    }

    /** Lock::Release. */
    method Release(t: Thread)
      requires Valid() && t in pc && (pc[t].Unhold? || pc[t].LockPost?)
      modifies this, semaphore
      ensures Valid() && View() == StepRelease(old(View()), t)
    {
      hide Waiting;
      match pc[t] {
        case Unhold(exit) =>
          if lockHolder != Some(t) {
            pc := pc[t := Failed];
          } else {
            lockHolder := None;
            pc := pc[t := LockPost(exit)];
          }
        case LockPost(exit) =>
          var woken := semaphore.V();
          owner := None;
          WakeUp(woken);
          pc := pc[t := if exit.ToSleep? then WaitTest else Idle];
      }
    }

    /** Thread t executes its next statement; an idle one starts the call it is given. */
    method Perform(t: Thread, call: Op<T>)
      requires Valid()
      modifies this, semaphore, waiters.Values
      ensures Valid() && View() == Step(old(View()), t, call)
    {
      hide StepAcquire, StepPut, StepTake, StepWait, StepRelease;
      if t !in pc {
        return;
      }
      var at := pc[t];
      if at.LockTest? || at.LockTaken? {
        Acquire(t);
      } else if Putting(at) {
        Append(t);
      } else if at.TakeTest? || at.TakeRead? || at.TakeWrite? {
        RemoveFront(t);
      } else if at.WaitEnqueue? || at.WaitTest? {
        Wait(t);
      } else if at.Unhold? || at.LockPost? {
        Release(t);
      } else if at.Idle? && !call.Retake? {
        pc := pc[t := LockTest(call, false)];
      }
    }
  }
}

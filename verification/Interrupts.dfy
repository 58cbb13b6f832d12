/** Simulated time and pending interrupts: machine/interrupt.cc, with SortedList::Insert of
    lib/list.cc. */
module Interrupts {

  const SYSTEM_TICK := 10
  const USER_TICK := 1

  type Delay = d: int | d > 0 witness 1   // ASSERT(fromNow > 0)

  /** What a device asks for: call `to` after `fromNow` ticks. */
  datatype Request = Request(to: nat, fromNow: Delay)

  /** A scheduled interrupt; the stamp counts the calls of Schedule. */
  datatype Pending = Pending(to: nat, when: nat, stamp: nat)

  datatype Firing = Firing(what: Pending, at: nat)

  datatype Stats = Stats(total: nat, idle: nat, system: nat, user: nat)

  /** What a handler does when the interrupt with a given stamp fires. */
  datatype Handler = Handler(requests: seq<Request>, yielding: bool)

  type Script = nat -> Handler

  /** asked and log record every interrupt scheduled and every interrupt fired, in order. */
  datatype State = State(stats: Stats, pending: seq<Pending>, asked: seq<Pending>, log: seq<Firing>)

  /** SortedList::Insert with PendingCompare: after every entry that is not later. */
  function Inserted(s: seq<Pending>, p: Pending): (r: seq<Pending>)
    ensures |r| == |s| + 1
  {
    if s == [] || p.when < s[0].when then [p] + s else [s[0]] + Inserted(s[1..], p)
  }

  function Scheduled(st: State, r: Request): State {
    var p := Pending(r.to, st.stats.total + r.fromNow, |st.asked|);
    st.(pending := Inserted(st.pending, p), asked := st.asked + [p])
  }

  function ScheduleAll(st: State, rs: seq<Request>): (st': State)
    ensures st'.stats == st.stats && st'.log == st.log
    decreases |rs|
  {
    if rs == [] then st else ScheduleAll(Scheduled(st, rs[0]), rs[1..])
  }

  /** The front interrupt comes off the list and its handler runs. */
  function Serve(st: State, script: Script): State
    requires st.pending != []
  {
    var next := st.pending[0];
    ScheduleAll(st.(pending := st.pending[1..], log := st.log + [Firing(next, st.stats.total)]),
      script(next.stamp).requests)
  }

  predicate FrontDue(st: State) {
    st.pending != [] && st.pending[0].when <= st.stats.total
  }

  // ---------------------------------------------------------------------------------
  // Why the loop in CheckIfDue ends: what handlers schedule lies in the future.

  function DueCount(s: seq<Pending>, t: nat): nat {
    if s == [] then 0 else (if s[0].when <= t then 1 else 0) + DueCount(s[1..], t)
  }

  lemma {:induction false} InsertLater(s: seq<Pending>, p: Pending, t: nat)
    requires p.when > t
    ensures DueCount(Inserted(s, p), t) == DueCount(s, t)
  {
    if s == [] || p.when < s[0].when {
      assert ([p] + s)[1..] == s;
    } else {
      InsertLater(s[1..], p, t);
      assert ([s[0]] + Inserted(s[1..], p))[1..] == Inserted(s[1..], p);
    }
  }

  lemma {:induction false} HandlersScheduleLater(st: State, rs: seq<Request>)
    ensures DueCount(ScheduleAll(st, rs).pending, st.stats.total) == DueCount(st.pending, st.stats.total)
    decreases |rs|
  {
    if rs != [] {
      InsertLater(st.pending, Pending(rs[0].to, st.stats.total + rs[0].fromNow, |st.asked|), st.stats.total);
      HandlersScheduleLater(Scheduled(st, rs[0]), rs[1..]);
    }
  }

  /** Every round leaves one fewer due, whatever the handler schedules. */
  lemma ServeProgress(st: State, script: Script)
    requires FrontDue(st)
    ensures DueCount(Serve(st, script).pending, Serve(st, script).stats.total)
            == DueCount(st.pending, st.stats.total) - 1
  {
    var next := st.pending[0];
    HandlersScheduleLater(st.(pending := st.pending[1..], log := st.log + [Firing(next, st.stats.total)]),
      script(next.stamp).requests);
  }

  /** The do-while loop, from its test on. */
  function Drain(st: State, script: Script): State
    decreases DueCount(st.pending, st.stats.total)
  {
    if !FrontDue(st) then st
    else
      ServeProgress(st, script);
      Drain(Serve(st, script), script)
  }

  /** The idle machine's clock jumps to the next interrupt. */
  function Advanced(st: State): State
    requires st.pending != [] && st.pending[0].when > st.stats.total
  {
    var when := st.pending[0].when;
    st.(stats := st.stats.(idle := st.stats.idle + (when - st.stats.total), total := when))
  }

  function Checked(st: State, advanceClock: bool, script: Script): (State, bool) {
    if st.pending == [] then (st, false)
    else if st.pending[0].when <= st.stats.total then (Drain(st, script), true)
    else if !advanceClock then (st, false)
    else (Drain(Advanced(st), script), true)
  }

  function Tick(st: State, userMode: bool): State {
    st.(stats := if userMode then st.stats.(total := st.stats.total + USER_TICK, user := st.stats.user + USER_TICK)
                 else st.stats.(total := st.stats.total + SYSTEM_TICK, system := st.stats.system + SYSTEM_TICK))
  }

  // ---------------------------------------------------------------------------------
  // Every run of the device simulation.

  datatype Event = Device(r: Request) | OneTick(userMode: bool) | Idle

  function Happen(st: State, e: Event, script: Script): State {
    match e
    case Device(r) => Scheduled(st, r)
    case OneTick(userMode) => Checked(Tick(st, userMode), false, script).0
    case Idle => Checked(st, true, script).0
  }

  predicate Before(a: Pending, b: Pending) {
    a.when < b.when || (a.when == b.when && a.stamp < b.stamp)
  }

  /** By time, and by scheduling order within a time. */
  ghost predicate Sorted(s: seq<Pending>) {
    forall i, j | 0 <= i < j < |s| :: Before(s[i], s[j])
  }

  function Fired(log: seq<Firing>): (s: seq<Pending>)
    ensures |s| == |log|
  {
    seq(|log|, i requires 0 <= i < |log| => log[i].what)
  }

  /** What has fired, then what is pending. */
  function History(st: State): seq<Pending> {
    Fired(st.log) + st.pending
  }

  /** Fired at or after its time, and less than a system tick late. */
  predicate Punctual(f: Firing, now: nat) {
    f.what.when <= f.at < f.what.when + SYSTEM_TICK && f.at <= now
  }

  predicate Recent(s: seq<Pending>, now: nat) {
    forall i | 0 <= i < |s| :: now < s[i].when + SYSTEM_TICK
  }

  /** The interrupts asked for are stamped in order. */
  predicate Stamped(asked: seq<Pending>) {
    forall i | 0 <= i < |asked| :: asked[i].stamp == i
  }

  /** Holds between the rounds of the loop too. */
  ghost predicate Inv(st: State) {
    && Sorted(History(st))
    && multiset(History(st)) == multiset(st.asked) && Stamped(st.asked)
    && (forall i | 0 <= i < |st.log| :: Punctual(st.log[i], st.stats.total))
    && Recent(st.pending, st.stats.total)
    && st.stats.total == st.stats.idle + st.stats.system + st.stats.user
  }

  /** Between events everything pending is strictly in the future. */
  predicate Future(st: State) {
    forall i | 0 <= i < |st.pending| :: st.pending[i].when > st.stats.total
  }

  lemma {:induction false} InsertSorted(h: seq<Pending>, s: seq<Pending>, p: Pending)
    requires Sorted(h + s) && forall i | 0 <= i < |h| :: Before(h[i], p)
    requires forall i | 0 <= i < |s| :: s[i].stamp < p.stamp
    ensures Sorted(h + Inserted(s, p))
    decreases |s|
  {
    var all := h + s;
    if s == [] || p.when < s[0].when {
      forall i | 0 <= i < |s| ensures Before(p, s[i]) {
        assert all[|h|] == s[0] && all[|h| + i] == s[i];
      }
      forall i | 0 <= i < |h| ensures all[i] == h[i] {}
      assert forall i | 0 <= i < |s| :: all[|h| + i] == s[i];
    } else {
      assert (h + [s[0]]) + s[1..] == all;
      InsertSorted(h + [s[0]], s[1..], p);
      assert (h + [s[0]]) + Inserted(s[1..], p) == h + Inserted(s, p);
    }
  }

  lemma {:induction false} InsertedAt(s: seq<Pending>, p: Pending, k: nat)
    requires k <= |s| && (k < |s| ==> p.when < s[k].when) && forall j | 0 <= j < k :: p.when >= s[j].when
    ensures Inserted(s, p) == s[..k] + [p] + s[k..]
  {
    if k > 0 {
      InsertedAt(s[1..], p, k - 1);
      InsertedNext(s, p, k);
    }
  }

  lemma InsertedNext(s: seq<Pending>, p: Pending, k: nat)
    requires 0 < k <= |s|
    ensures [s[0]] + (s[1..][..k - 1] + [p] + s[1..][k - 1..]) == s[..k] + [p] + s[k..]
  {
    assert s[1..][..k - 1] == s[1..k] && s[1..][k - 1..] == s[k..] && s[..k] == [s[0]] + s[1..k];
  }

  lemma {:induction false} InsertAdds(s: seq<Pending>, p: Pending)
    ensures multiset(Inserted(s, p)) == multiset(s) + multiset{p}
  {
    if s != [] && p.when >= s[0].when {
      InsertAdds(s[1..], p);
      assert s == [s[0]] + s[1..];
    }
  }

  lemma {:induction false} InsertDue(s: seq<Pending>, p: Pending, t: nat)
    requires p.when > t
    ensures Due(Inserted(s, p), t) == Due(s, t)
  {
    if s != [] && p.when >= s[0].when {
      InsertDue(s[1..], p, t);
    }
  }

  /** The entries at the front that are due. */
  function Due(s: seq<Pending>, t: nat): seq<Pending> {
    if s == [] || s[0].when > t then [] else [s[0]] + Due(s[1..], t)
  }

  lemma StampsBelow(st: State, i: nat)
    requires Inv(st) && i < |st.pending|
    ensures st.pending[i].stamp < |st.asked|
  {
    assert History(st)[|st.log| + i] == st.pending[i];
    assert st.pending[i] in multiset(History(st));
    assert st.pending[i] in st.asked;
  }

  lemma ScheduleKeeps(st: State, r: Request)
    requires Inv(st)
    ensures Inv(Scheduled(st, r))
  {
    hide Inserted, Sorted, Recent;
    var p, st' := Pending(r.to, st.stats.total + r.fromNow, |st.asked|), Scheduled(st, r);
    forall i | 0 <= i < |st.pending| ensures st.pending[i].stamp < p.stamp {
      StampsBelow(st, i);
    }
    forall i | 0 <= i < |st.log| ensures Before(Fired(st.log)[i], p) {
      assert Punctual(st.log[i], st.stats.total);
    }
    InsertSorted(Fired(st.log), st.pending, p);
    InsertAdds(st.pending, p);
    RecentInsert(st.pending, p, st.stats.total);
  }

  lemma {:induction false} RecentInsert(s: seq<Pending>, p: Pending, now: nat)
    requires Recent(s, now) && now < p.when
    ensures Recent(Inserted(s, p), now)
    ensures (forall i | 0 <= i < |s| :: s[i].when > now) ==> forall i | 0 <= i < |Inserted(s, p)| ::
            Inserted(s, p)[i].when > now
  {
    if s != [] && p.when >= s[0].when {
      RecentInsert(s[1..], p, now);
    }
  }

  lemma {:induction false} ScheduleAllKeeps(st: State, rs: seq<Request>)
    requires Inv(st)
    ensures Inv(ScheduleAll(st, rs))
    decreases |rs|
  {
    if rs != [] {
      ScheduleKeeps(st, rs[0]);
      ScheduleAllKeeps(Scheduled(st, rs[0]), rs[1..]);
    }
  }

  lemma ServeKeeps(st: State, script: Script)
    requires Inv(st) && FrontDue(st)
    ensures Inv(Serve(st, script))
  {
    var next := st.pending[0];
    var st1 := st.(pending := st.pending[1..], log := st.log + [Firing(next, st.stats.total)]);
    assert History(st1) == History(st);
    assert Punctual(Firing(next, st.stats.total), st.stats.total);
    ScheduleAllKeeps(st1, script(next.stamp).requests);
  }

  /** The loop ends with nothing due. */
  lemma {:induction false} DrainKeeps(st: State, script: Script)
    requires Inv(st)
    ensures Inv(Drain(st, script)) && Future(Drain(st, script))
    decreases DueCount(st.pending, st.stats.total)
  {
    if FrontDue(st) {
      ServeKeeps(st, script);
      ServeProgress(st, script);
      DrainKeeps(Serve(st, script), script);
    } else {
      assert forall i | 0 <= i < |st.pending| :: History(st)[|st.log| + i] == st.pending[i];
    }
  }

  lemma AllAtNone(t: nat)
    ensures AllAt([], t) == []
  {
  }

  lemma {:induction false} DrainStats(st: State, script: Script)
    ensures Drain(st, script).stats == st.stats
    decreases DueCount(st.pending, st.stats.total)
  {
    if FrontDue(st) {
      ServeProgress(st, script);
      DrainStats(Serve(st, script), script);
    }
  }

  function AllAt(s: seq<Pending>, t: nat): (r: seq<Firing>)
    ensures |r| == |s|
  {
    seq(|s|, i requires 0 <= i < |s| => Firing(s[i], t))
  }

  lemma {:induction false} HandlersLeaveDue(st: State, rs: seq<Request>)
    ensures Due(ScheduleAll(st, rs).pending, st.stats.total) == Due(st.pending, st.stats.total)
    decreases |rs|
  {
    if rs != [] {
      InsertDue(st.pending, Pending(rs[0].to, st.stats.total + rs[0].fromNow, |st.asked|), st.stats.total);
      HandlersLeaveDue(Scheduled(st, rs[0]), rs[1..]);
    }
  }

  /** The loop fires what was due when it started, in order and at once, and nothing that its
      handlers schedule. */
  lemma {:induction false} DrainFires(st: State, script: Script)
    ensures Drain(st, script).log == st.log + AllAt(Due(st.pending, st.stats.total), st.stats.total)
    decreases DueCount(st.pending, st.stats.total)
  {
    if FrontDue(st) {
      var next, st' := st.pending[0], Serve(st, script);
      HandlersLeaveDue(st.(pending := st.pending[1..], log := st.log + [Firing(next, st.stats.total)]),
        script(next.stamp).requests);
      ServeProgress(st, script);
      DrainFires(st', script);
      assert AllAt(Due(st.pending, st.stats.total), st.stats.total)
          == [Firing(next, st.stats.total)] + AllAt(Due(st.pending[1..], st.stats.total), st.stats.total);
    }
  }

  lemma TickKeeps(st: State, userMode: bool)
    requires Inv(st) && Future(st)
    ensures Inv(Tick(st, userMode))
  {
    var st' := Tick(st, userMode);
    assert History(st') == History(st);
    assert forall f | f in st.log && Punctual(f, st.stats.total) :: Punctual(f, st'.stats.total);
    hide Sorted, History;
  }

  lemma AdvancedKeeps(st: State)
    requires Inv(st) && Future(st) && st.pending != []
    ensures Inv(Advanced(st))
  {
    var now := st.pending[0].when;
    forall i | 0 <= i < |st.pending| ensures now <= st.pending[i].when {
      assert History(st)[|st.log|] == st.pending[0] && History(st)[|st.log| + i] == st.pending[i];
    }
    assert forall f | f in st.log && Punctual(f, st.stats.total) :: Punctual(f, now);
    assert History(Advanced(st)) == History(st);
    hide Sorted, History;
  }

  lemma EventKeeps(st: State, e: Event, script: Script)
    requires Inv(st) && Future(st)
    ensures Inv(Happen(st, e, script)) && Future(Happen(st, e, script))
  {
    hide Inv;
    match e {
      case Device(r) =>
        assert Recent(st.pending, st.stats.total);
        ScheduleKeeps(st, r);
        RecentInsert(st.pending, Pending(r.to, st.stats.total + r.fromNow, |st.asked|), st.stats.total);
      case OneTick(userMode) =>
        TickKeeps(st, userMode);
        DrainKeeps(Tick(st, userMode), script);
      case Idle =>
        if st.pending != [] {
          AdvancedKeeps(st);
          DrainKeeps(Advanced(st), script);
        }
    }
  }

  /** What an event does to the log: exactly the interrupts due by then are added, in order. */
  lemma EventFires(st: State, e: Event, script: Script)
    requires Inv(st) && Future(st)
    ensures var st' := Happen(st, e, script);
            st'.log == st.log + AllAt(Due(st.pending, st'.stats.total), st'.stats.total)
    ensures e.Idle? ==> (Checked(st, true, script).1 <==> st.pending != [])
    ensures e.OneTick? ==>
              (Checked(Tick(st, e.userMode), false, script).1 <==> |Happen(st, e, script).log| > |st.log|)
  {
    hide Inv, AllAt;
    match e {
      case Device(r) =>
        AllAtNone(st.stats.total);
      case OneTick(userMode) =>
        var st1 := Tick(st, userMode);
        DrainFires(st1, script);
        AllAtNone(st1.stats.total);
        DrainStats(st1, script);
      case Idle =>
        if st.pending != [] {
          DrainFires(Advanced(st), script);
          DrainStats(Advanced(st), script);
        }
        AllAtNone(st.stats.total);
    }
  }

  // ---------------------------------------------------------------------------------

  ghost predicate Run(sts: seq<State>, es: seq<Event>, script: Script) {
    && |sts| == |es| + 1
    && sts[0] == State(Stats(0, 0, 0, 0), [], [], [])
    && forall k | 0 <= k < |es| :: sts[k + 1] == Happen(sts[k], es[k], script)
  }

  /** In every run, whatever the handlers schedule: every interrupt asked for is either pending
      or has fired exactly once; they fire in order of time, ties in scheduling order, never
      early and less than a system tick late; what is pending lies strictly in the future; and
      total time is idle, system and user time together. */
  lemma {:induction false} EveryRun(sts: seq<State>, es: seq<Event>, script: Script, k: nat)
    requires Run(sts, es, script) && k < |sts|
    ensures Inv(sts[k]) && Future(sts[k])
  {
    if k > 0 {
      EveryRun(sts, es, script, k - 1);
      EventKeeps(sts[k - 1], es[k - 1], script);
    }
  }

  // ---------------------------------------------------------------------------------
  // What was asked for, told by the requests, and when it fires.

  /** The interrupts that requests made at time t stand for, numbered from `base` on. */
  function Requested(rs: seq<Request>, t: nat, base: nat): (s: seq<Pending>)
    ensures |s| == |rs|
  {
    seq(|rs|, i requires 0 <= i < |rs| => Pending(rs[i].to, t + rs[i].fromNow, base + i))
  }

  lemma {:induction false} ScheduleAllAsks(st: State, rs: seq<Request>)
    ensures ScheduleAll(st, rs).asked == st.asked + Requested(rs, st.stats.total, |st.asked|)
    decreases |rs|
  {
    if rs != [] {
      var st1 := Scheduled(st, rs[0]);
      ScheduleAllAsks(st1, rs[1..]);
      var first, rest := Requested(rs[..1], st.stats.total, |st.asked|),
        Requested(rs[1..], st.stats.total, |st1.asked|);
      assert st1.asked == st.asked + first;
      assert Requested(rs, st.stats.total, |st.asked|) == first + rest;
      assert st.asked + first + rest == st.asked + (first + rest);
    }
  }

  /** The handler of firing number i has asked, at that time, for what its script says. */
  ghost predicate AnsweredAt(st: State, script: Script, i: nat)
    requires i < |st.log|
  {
    var rs := script(st.log[i].what.stamp).requests;
    exists b: nat | b + |rs| <= |st.asked| :: st.asked[b..b + |rs|] == Requested(rs, st.log[i].at, b)
  }

  ghost predicate Answered(st: State, script: Script) {
    forall i: nat | i < |st.log| :: AnsweredAt(st, script, i)
  }

  lemma AnsweredStays(st: State, st': State, script: Script, i: nat)
    requires i < |st.log| <= |st'.log| && st'.log[i] == st.log[i] && st.asked <= st'.asked && AnsweredAt(st, script, i)
    ensures AnsweredAt(st', script, i)
  {
    var rs := script(st.log[i].what.stamp).requests;
    var b: nat :| b + |rs| <= |st.asked| && st.asked[b..b + |rs|] == Requested(rs, st.log[i].at, b);
    assert st'.asked[b..b + |rs|] == st.asked[b..b + |rs|];
  }

  lemma ServeAnswers(st: State, script: Script)
    requires st.pending != [] && Answered(st, script)
    ensures Answered(Serve(st, script), script) && st.asked <= Serve(st, script).asked
            && st.log <= Serve(st, script).log
  {
    var next, st' := st.pending[0], Serve(st, script);
    var st1 := st.(pending := st.pending[1..], log := st.log + [Firing(next, st.stats.total)]);
    var rs := script(next.stamp).requests;
    ScheduleAllAsks(st1, rs);
    hide ScheduleAll;
    forall i: nat | i < |st'.log| ensures AnsweredAt(st', script, i) {
      if i < |st.log| {
        AnsweredStays(st, st', script, i);
      } else {
        var b := |st.asked|;
        assert st'.asked[b..b + |rs|] == Requested(rs, st.stats.total, b);
      }
    }
  }

  lemma {:induction false} DrainAnswers(st: State, script: Script)
    requires Answered(st, script)
    ensures Answered(Drain(st, script), script)
    ensures st.asked <= Drain(st, script).asked && st.log <= Drain(st, script).log
    decreases DueCount(st.pending, st.stats.total)
  {
    if FrontDue(st) {
      ServeProgress(st, script);
      ServeAnswers(st, script);
      hide Answered, Serve;
      DrainAnswers(Serve(st, script), script);
    }
  }

  lemma HappenAnswers(st: State, e: Event, script: Script)
    requires Answered(st, script)
    ensures Answered(Happen(st, e, script), script)
    ensures st.asked <= Happen(st, e, script).asked && st.log <= Happen(st, e, script).log
  {
    hide Drain;
    match e {
      case Device(r) =>
        var st' := Happen(st, e, script);
        forall i: nat | i < |st'.log| ensures AnsweredAt(st', script, i) {
          AnsweredStays(st, st', script, i);
        }
      case OneTick(userMode) =>
        SameAnswers(st, Tick(st, userMode), script);
        DrainAnswers(Tick(st, userMode), script);
      case Idle =>
        DrainAnswers(st, script);
        if st.pending != [] && st.pending[0].when > st.stats.total {
          SameAnswers(st, Advanced(st), script);
          DrainAnswers(Advanced(st), script);
        }
    }
  }

  lemma SameAnswers(st: State, st': State, script: Script)
    requires Answered(st, script) && st'.asked == st.asked && st'.log == st.log
    ensures Answered(st', script)
  {
    forall i: nat | i < |st'.log| ensures AnsweredAt(st', script, i) {
      AnsweredStays(st, st', script, i);
    }
  }

  lemma {:induction false} RunAnswers(sts: seq<State>, es: seq<Event>, script: Script, k: nat)
    requires Run(sts, es, script) && k < |sts|
    ensures Answered(sts[k], script)
  {
    if k > 0 {
      RunAnswers(sts, es, script, k - 1);
      HappenAnswers(sts[k - 1], es[k - 1], script);
    }
  }

  lemma {:induction false} AskedStays(sts: seq<State>, es: seq<Event>, script: Script, k: nat, j: nat)
    requires Run(sts, es, script) && k <= j < |sts|
    ensures sts[k].asked <= sts[j].asked
    decreases j
  {
    if k < j {
      AskedStays(sts, es, script, k, j - 1);
      RunAnswers(sts, es, script, j - 1);
      HappenAnswers(sts[j - 1], es[j - 1], script);
    }
  }

  /** What becomes of an interrupt: it fires within a system tick of its time, once, and until
      then, and only until then, it is pending. */
  ghost predicate ComesTrue(st: State, p: Pending) {
    && p in st.asked
    && (p in st.pending <==> st.stats.total < p.when)
    && (st.stats.total >= p.when <==> exists i: nat | i < |st.log| :: FiresAs(st, i, p))
    && forall i: nat, j: nat | i < |st.log| && j < |st.log| && st.log[i].what == p && st.log[j].what == p :: i == j
  }

  ghost predicate FiresAs(st: State, i: nat, p: Pending)
    requires i < |st.log|
  {
    st.log[i].what == p && p.when <= st.log[i].at < p.when + SYSTEM_TICK && st.log[i].at <= st.stats.total
  }

  lemma AskedComesTrue(st: State, p: Pending)
    requires Inv(st) && Future(st) && p in st.asked
    ensures ComesTrue(st, p)
  {
    var h := History(st);
    assert p in multiset(st.asked) && p in multiset(h) && p in h;
    var at :| 0 <= at < |h| && h[at] == p;
    if at < |st.log| {
      assert st.log[at].what == p && Punctual(st.log[at], st.stats.total) && FiresAs(st, at, p);
    } else {
      assert st.pending[at - |st.log|] == p;
    }
    forall b | 0 <= b < |st.pending| && st.pending[b] == p ensures p.when > st.stats.total {}
    forall i: nat | i < |st.log| && st.log[i].what == p ensures st.stats.total >= p.when {
      assert Punctual(st.log[i], st.stats.total);
    }
    FiredOnce(st, p);
    hide Inv, Future, History;
  }

  lemma FiredOnce(st: State, p: Pending)
    requires Sorted(History(st))
    ensures forall i: nat, j: nat | i < |st.log| && j < |st.log| && st.log[i].what == p && st.log[j].what == p :: i == j
  {
    var h := History(st);
    forall i: nat, j: nat | i < |st.log| && j < |st.log| && st.log[i].what == p && st.log[j].what == p ensures i == j {
      assert h[i] == p && h[j] == p;
    }
  }

  /** A device that asks at time t for an interrupt after fromNow ticks gets it, once, at a time
      `at` with t + fromNow <= at < t + fromNow + SYSTEM_TICK, and before that it is pending. */
  lemma DeviceServed(sts: seq<State>, es: seq<Event>, script: Script, k: nat, j: nat)
    requires Run(sts, es, script) && k < j < |sts| && es[k].Device?
    ensures var p := Pending(es[k].r.to, sts[k].stats.total + es[k].r.fromNow, |sts[k].asked|);
            sts[k + 1].asked == sts[k].asked + [p] && ComesTrue(sts[j], p)
  {
    EveryRun(sts, es, script, j);
    AskedStays(sts, es, script, k + 1, j);
    hide Inv, Future, ComesTrue;
    var p := Pending(es[k].r.to, sts[k].stats.total + es[k].r.fromNow, |sts[k].asked|);
    assert sts[k + 1] == Happen(sts[k], es[k], script);
    assert sts[k + 1].asked == sts[k].asked + [p];
    assert sts[j].asked[|sts[k].asked|] == p;
    AskedComesTrue(sts[j], p);
  }

  /** And so does a handler that asks when its own interrupt fires. */
  lemma HandlerServed(sts: seq<State>, es: seq<Event>, script: Script, j: nat, i: nat, n: nat) returns (stamp: nat)
    requires Run(sts, es, script) && j < |sts| && i < |sts[j].log|
    requires n < |script(sts[j].log[i].what.stamp).requests|
    ensures var f := sts[j].log[i];
            var r := script(f.what.stamp).requests[n];
            ComesTrue(sts[j], Pending(r.to, f.at + r.fromNow, stamp))
  {
    EveryRun(sts, es, script, j);
    RunAnswers(sts, es, script, j);
    var st, f := sts[j], sts[j].log[i];
    assert AnsweredAt(st, script, i);
    var rs := script(f.what.stamp).requests;
    var b: nat :| b + |rs| <= |st.asked| && st.asked[b..b + |rs|] == Requested(rs, f.at, b);
    hide Inv, Future, ComesTrue, Answered, AnsweredAt, Run;
    stamp := b + n;
    assert st.asked[b + n] == st.asked[b..b + |rs|][n];
    AskedComesTrue(st, Pending(rs[n].to, f.at + rs[n].fromNow, stamp));
  }

  // ---------------------------------------------------------------------------------
  // Where the time goes.

  /** How many ticks of a kind there have been. */
  function Ticks(es: seq<Event>, userMode: bool): nat {
    if es == [] then 0
    else Ticks(es[..|es| - 1], userMode) + if es[|es| - 1] == OneTick(userMode) then 1 else 0
  }

  /** User time is one for every tick in user mode, system time ten for every other one, and the
      rest was idle. */
  lemma {:induction false} TimeGoes(sts: seq<State>, es: seq<Event>, script: Script, k: nat)
    requires Run(sts, es, script) && k < |sts|
    ensures sts[k].stats.user == Ticks(es[..k], true) && sts[k].stats.system == 10 * Ticks(es[..k], false)
    ensures sts[k].stats.total == sts[k].stats.idle + Ticks(es[..k], true) + 10 * Ticks(es[..k], false)
  {
    EveryRun(sts, es, script, k);
    if k > 0 {
      TimeGoes(sts, es, script, k - 1);
      assert es[..k][..k - 1] == es[..k - 1];
      EventTime(sts[k - 1], es[k - 1], script);
    }
    hide Inv, Future, Happen;
  }

  lemma EventTime(st: State, e: Event, script: Script)
    ensures var a, b := st.stats, Happen(st, e, script).stats;
            && b.user == a.user + (if e == OneTick(true) then 1 else 0)
            && b.system == a.system + (if e == OneTick(false) then 10 else 0)
            && b.total == if e == OneTick(true) then a.total + 1
                          else if e == OneTick(false) then a.total + 10
                          else if e == Idle && st.pending != [] && st.pending[0].when > a.total then st.pending[0].when
                          else a.total
  {
    if e.OneTick? { DrainStats(Tick(st, e.userMode), script); }
    if e.Idle? {
      DrainStats(st, script);
      if st.pending != [] && st.pending[0].when > st.stats.total { DrainStats(Advanced(st), script); }
    }
    hide Drain;
  }

  // ---------------------------------------------------------------------------------
  // The interrupt hardware in place.

  datatype Mode = IdleMode | SystemMode | UserMode

  class Interrupt {
    var enabled: bool            // level == IntOn
    var pending: seq<Pending>
    var inHandler: bool
    var yieldOnReturn: bool
    var status: Mode
    var stats: Stats
    var made: nat                // calls of Schedule so far
    ghost var asked: seq<Pending>
    ghost var log: seq<Firing>

    ghost function View(): State
      reads this
    {
      State(stats, pending, asked, log)
    }

    ghost predicate Valid()
      reads this
    {
      made == |asked|
    }

    constructor ()
      ensures Valid() && View() == State(Stats(0, 0, 0, 0), [], [], [])
      ensures !enabled && !inHandler && !yieldOnReturn && status == SystemMode
    {
      enabled, pending, inHandler, yieldOnReturn, status := false, [], false, false, SystemMode;
      stats, made, asked, log := Stats(0, 0, 0, 0), 0, [], [];
    }

    /** SortedList::Insert, walking to the first entry that is later. */
    method Insert(p: Pending)
      modifies `pending
      ensures pending == Inserted(old(pending), p)
    {
      var k := 0;
      while k < |pending| && p.when >= pending[k].when
        invariant k <= |pending| && pending == old(pending)
        invariant forall j | 0 <= j < k :: p.when >= pending[j].when
      {
        k := k + 1;
      }
      InsertedAt(pending, p, k);
      pending := pending[..k] + [p] + pending[k..];
    }

    method Schedule(r: Request)
      requires Valid()
      modifies `pending, `made, `asked
      ensures Valid() && View() == Scheduled(old(View()), r)
    {
      var toOccur := Pending(r.to, stats.total + r.fromNow, made);
      Insert(toOccur);
      made := made + 1;
      asked := asked + [toOccur];
    }

    /** The handler of an interrupt that fired. */
    method CallBack(h: Handler)
      requires Valid() && inHandler
      modifies `pending, `made, `asked, `yieldOnReturn
      ensures Valid() && View() == ScheduleAll(old(View()), h.requests)
      ensures yieldOnReturn == (old(yieldOnReturn) || h.yielding)
    {
      for k := 0 to |h.requests|
        invariant Valid() && yieldOnReturn == old(yieldOnReturn)
        invariant ScheduleAll(View(), h.requests[k..]) == ScheduleAll(old(View()), h.requests)
      {
        assert h.requests[k..][1..] == h.requests[k + 1..];
        Schedule(h.requests[k]);
      }
      if h.yielding {
        yieldOnReturn := true;
      }
    }

    method CheckIfDue(advanceClock: bool, script: Script) returns (fired: bool)
      requires Valid() && !enabled && !inHandler
      modifies this
      ensures Valid() && (View(), fired) == Checked(old(View()), advanceClock, script)
      ensures !enabled && !inHandler && status == old(status)
    {
      if pending == [] {
        return false;
      }
      var next := pending[0];
      if next.when > stats.total {
        if !advanceClock {
          return false;
        }
        stats := stats.(idle := stats.idle + (next.when - stats.total), total := next.when);
      }
      inHandler := true;
      FireDue(script);
      inHandler := false;
      fired := true;
    }

    /** The do-while loop: handlers run one after the other until nothing is due. */
    method FireDue(script: Script)
      requires Valid() && inHandler && FrontDue(View())
      modifies `pending, `made, `asked, `yieldOnReturn, `log
      ensures Valid() && View() == Drain(old(View()), script)
    {
      var more := true;
      while more
        invariant Valid() && inHandler
        invariant more == FrontDue(View())
        invariant Drain(View(), script) == Drain(old(View()), script)
        decreases DueCount(pending, stats.total)
      {
        ServeProgress(View(), script);
        ServeFront(script);
        more := pending != [] && pending[0].when <= stats.total;
      }
    }

    method ServeFront(script: Script)
      requires Valid() && inHandler && pending != []
      modifies `pending, `made, `asked, `yieldOnReturn, `log
      ensures Valid() && View() == Serve(old(View()), script)
    {
      var next := pending[0];
      pending := pending[1..];
      log := log + [Firing(next, stats.total)];
      CallBack(script(next.stamp));
    }

    /** Returns whether the current thread must now yield. */
    method OneTick(script: Script) returns (yielding: bool)
      requires Valid() && enabled && !inHandler && Inv(View()) && Future(View())
      modifies this
      ensures Valid() && View() == Happen(old(View()), Event.OneTick(old(status) != SystemMode), script)
      ensures Inv(View()) && Future(View()) && enabled && !inHandler && !yieldOnReturn && status == old(status)
    {
      hide Inv, Future, Checked;
      EventKeeps(View(), Event.OneTick(status != SystemMode), script);
      if status == SystemMode {
        stats := stats.(total := stats.total + SYSTEM_TICK, system := stats.system + SYSTEM_TICK);
      } else {
        stats := stats.(total := stats.total + USER_TICK, user := stats.user + USER_TICK);
      }
      enabled := false;
      var fired := CheckIfDue(false, script);
      enabled := true;
      yielding := yieldOnReturn;
      yieldOnReturn := false;
    }

    /** Turning interrupts on takes a tick; handlers may not do it. */
    method SetLevel(now: bool, script: Script) returns (was: bool, yielding: bool)
      requires Valid() && (!now || !inHandler) && Inv(View()) && Future(View())
      modifies this
      ensures Valid() && Inv(View()) && Future(View()) && was == old(enabled) && enabled == now
      ensures View() == if now && !was then Happen(old(View()), Event.OneTick(old(status) != SystemMode), script)
              else old(View())
    {
      was, yielding := enabled, false;
      enabled := now;
      if now && !was {
        yielding := OneTick(script);
      }
    }

    /** Nothing is ready to run: jump to the next interrupt, or report that there is none. */
    method Idle(script: Script) returns (halt: bool)
      requires Valid() && !enabled && !inHandler && Inv(View()) && Future(View())
      modifies this
      ensures Valid() && View() == Happen(old(View()), Event.Idle, script) && Inv(View()) && Future(View())
      ensures halt <==> old(pending) == []
    {
      hide Inv, Future;
      EventKeeps(View(), Event.Idle, script);
      status := IdleMode;
      var fired := CheckIfDue(true, script);
      if fired {
        status := SystemMode;
      }
      halt := !fired;
    }
  }
}

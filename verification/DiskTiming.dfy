/** When the simulated disk answers: machine/disk.cc with the track buffer, used one request at
    a time by filesys/synchdisk.cc. */
module DiskTiming {
  import opened Options
  import Disks

  const ROTATION_TIME := 500
  const SEEK_TIME := 500
  const SECTORS_PER_TRACK := 32

  type Sector = s: nat | s < Disks.NUM_SECTORS

  function Track(s: Sector): nat {
    s / SECTORS_PER_TRACK
  }

  function SeekBetween(a: Sector, b: Sector): nat {
    (if Track(a) < Track(b) then Track(b) - Track(a) else Track(a) - Track(b)) * SEEK_TIME
  }

  /** Ticks until the next sector boundary. */
  function RoundUp(t: nat): nat {
    var over := t % ROTATION_TIME;
    if over > 0 then ROTATION_TIME - over else 0
  }

  function ModuloDiff(to: nat, from: nat): nat {
    (to % SECTORS_PER_TRACK - from % SECTORS_PER_TRACK + SECTORS_PER_TRACK) % SECTORS_PER_TRACK
  }

  datatype Head = Head(lastSector: Sector, bufferInit: nat)

  /** The boundary at which the head is on the track and between two sectors. */
  function Ready(h: Head, now: nat, s: Sector): nat {
    var arrive := now + SeekBetween(h.lastSector, s);
    arrive + RoundUp(arrive)
  }

  predicate BufferHit(h: Head, now: nat, s: Sector, writing: bool) {
    && !writing && SeekBetween(h.lastSector, s) == 0
    && (Ready(h, now, s) - h.bufferInit) / ROTATION_TIME > ModuloDiff(s, h.bufferInit / ROTATION_TIME)
  }

  function Latency(h: Head, now: nat, s: Sector, writing: bool): nat {
    if BufferHit(h, now, s, writing) then ROTATION_TIME
    else
      var after := Ready(h, now, s);
      after - now + ModuloDiff(s, after / ROTATION_TIME) * ROTATION_TIME + ROTATION_TIME
  }

  function UpdateLast(h: Head, now: nat, s: Sector): Head {
    if SeekBetween(h.lastSector, s) != 0 then Head(s, Ready(h, now, s)) else h.(lastSector := s)
  }

  // ---------------------------------------------------------------------------------
  // What the numbers mean: the platter turns by one sector every RotationTime ticks.

  /** The head is over sector s of its track from time t on for one RotationTime. */
  predicate Over(t: nat, s: Sector) {
    t % ROTATION_TIME == 0 && t / ROTATION_TIME % SECTORS_PER_TRACK == s % SECTORS_PER_TRACK
  }

  lemma Turn(m: nat, s: nat, j: nat)
    ensures (m + ModuloDiff(s, m)) % SECTORS_PER_TRACK == s % SECTORS_PER_TRACK
    ensures (m + j) % SECTORS_PER_TRACK == s % SECTORS_PER_TRACK ==> ModuloDiff(s, m) <= j
  {
    var q, a := m / SECTORS_PER_TRACK, m % SECTORS_PER_TRACK;
    var b, d := s % SECTORS_PER_TRACK, ModuloDiff(s, m);
    assert d == if b >= a then b - a else b - a + SECTORS_PER_TRACK;
    Divides(if b >= a then q else q + 1, SECTORS_PER_TRACK, b);
    if j < d {
      if a + j < SECTORS_PER_TRACK {
        Divides(q, SECTORS_PER_TRACK, a + j);
      } else {
        Divides(q + 1, SECTORS_PER_TRACK, a + j - SECTORS_PER_TRACK);
      }
    }
  }

  /** The first time from boundary `after` on at which the head is over s. */
  lemma FirstPass(after: nat, s: Sector, t: nat)
    requires after % ROTATION_TIME == 0
    ensures var first := after + ModuloDiff(s, after / ROTATION_TIME) * ROTATION_TIME;
            Over(first, s) && (t >= after && Over(t, s) ==> first <= t)
  {
    var m := after / ROTATION_TIME;
    var d := ModuloDiff(s, m);
    assert after == m * ROTATION_TIME;
    Turn(m, s, 0);
    Divides(m + d, ROTATION_TIME, 0);
    hide ModuloDiff;
    if t >= after && Over(t, s) {
      var n := t / ROTATION_TIME;
      assert t == n * ROTATION_TIME;
      Turn(m, s, n - m);
    }
  }

  lemma ReadyIsNext(h: Head, now: nat, s: Sector, t: nat)
    ensures var arrive := now + SeekBetween(h.lastSector, s);
            && Ready(h, now, s) % ROTATION_TIME == 0 && arrive <= Ready(h, now, s) < arrive + ROTATION_TIME
            && (t >= arrive && t % ROTATION_TIME == 0 ==> Ready(h, now, s) <= t)
  {
    var arrive := now + SeekBetween(h.lastSector, s);
    var q, r := arrive / ROTATION_TIME, arrive % ROTATION_TIME;
    assert arrive == ROTATION_TIME * q + r;
    if r > 0 {
      assert Ready(h, now, s) == ROTATION_TIME * (q + 1);
    }
    if t >= arrive && t % ROTATION_TIME == 0 {
      assert t == ROTATION_TIME * (t / ROTATION_TIME);
    }
    hide SeekBetween;
  }

  /** An unbuffered request completes when the head has passed the target once after the seek,
      and at the first such time. */
  lemma UnbufferedIsEarliest(h: Head, now: nat, s: Sector, writing: bool, t: nat)
    requires !BufferHit(h, now, s, writing)
    ensures var start := now + Latency(h, now, s, writing) - ROTATION_TIME;
            && start >= now + SeekBetween(h.lastSector, s) && Over(start, s)
            && (t >= now + SeekBetween(h.lastSector, s) && Over(t, s) ==> start <= t)
  {
    ReadyIsNext(h, now, s, t);
    FirstPass(Ready(h, now, s), s, t);
    hide Ready, SeekBetween, BufferHit, ModuloDiff, Over;
  }

  /** The track buffer holds the sector: the head has passed all of it since the buffer was
      started, by the next sector boundary. */
  ghost predicate InBuffer(h: Head, now: nat, s: Sector) {
    exists t: nat :: h.bufferInit <= t && Over(t, s) && t + ROTATION_TIME <= Ready(h, now, s)
  }

  /** The buffer answers exactly the reads of the current track that it holds. */
  lemma HitIff(h: Head, now: nat, s: Sector, writing: bool)
    requires h.bufferInit <= now && h.bufferInit % ROTATION_TIME == 0
    ensures BufferHit(h, now, s, writing) <==>
            !writing && Track(h.lastSector) == Track(s) && InBuffer(h, now, s)
  {
    var after, first := Ready(h, now, s), h.bufferInit + ModuloDiff(s, h.bufferInit / ROTATION_TIME) * ROTATION_TIME;
    ReadyIsNext(h, now, s, 0);
    FirstPass(h.bufferInit, s, 0);
    forall t: nat | h.bufferInit <= t && Over(t, s) ensures first <= t {
      FirstPass(h.bufferInit, s, t);
    }
    Quotient(after - h.bufferInit, ModuloDiff(s, h.bufferInit / ROTATION_TIME));
    hide Ready, ModuloDiff, Over;
    if first + ROTATION_TIME <= after {
      assert InBuffer(h, now, s);
    }
  }

  lemma Quotient(x: nat, d: nat)
    ensures x / ROTATION_TIME > d <==> d * ROTATION_TIME + ROTATION_TIME <= x
  {
  }

  // ---------------------------------------------------------------------------------
  // Every run of requests through SynchDisk. The lock lets one thread in at a time.

  /** How far the holder of the lock has come. */
  datatype Stage = Locked | Issued | Woken

  datatype State = State(
    now: nat,
    head: Head,
    active: bool,
    due: nat,               // when the active request's interrupt is scheduled
    semaphore: nat,
    holder: Option<nat>,
    stage: Stage,
    failed: bool)           // the ASSERT on one request at a time

  datatype Event =
    | Acquire(thread: nat)
    | Issue(sector: Sector, writing: bool)   // ReadRequest or WriteRequest by the holder
    | Interrupt                              // Disk::CallBack, which calls SynchDisk::CallBack
    | Pass                                   // the holder gets through semaphore->P
    | Release
    | Advance(ticks: nat)

  predicate Enabled(s: State, e: Event) {
    match e
    case Acquire(_) => s.holder.None?
    case Issue(_, _) => s.holder.Some? && s.stage == Locked
    case Interrupt => s.active && s.due <= s.now
    case Pass => s.holder.Some? && s.stage == Issued && s.semaphore > 0
    case Release => s.holder.Some? && s.stage == Woken
    case Advance(_) => true
  }

  function Happen(s: State, e: Event): State
    requires Enabled(s, e)
  {
    match e
    case Acquire(t) => s.(holder := Some(t), stage := Locked)
    case Issue(sector, writing) =>
      if s.active then s.(failed := true)
      else s.(active := true, due := s.now + Latency(s.head, s.now, sector, writing),
              head := UpdateLast(s.head, s.now, sector), stage := Issued)
    case Interrupt => s.(active := false, semaphore := s.semaphore + 1)
    case Pass => s.(semaphore := s.semaphore - 1, stage := Woken)
    case Release => s.(holder := None)
    case Advance(d) => s.(now := s.now + d)
  }

  /** A request is in flight only between the holder's request and its wake-up, and by the time
      it is answered the track buffer has been started. */
  predicate Inv(s: State) {
    && !s.failed
    && s.head.bufferInit % ROTATION_TIME == 0
    && s.head.bufferInit <= (if s.active then s.due else s.now)
    && (s.active || s.semaphore > 0 ==> s.holder.Some? && s.stage == Issued)
    && s.semaphore <= (if s.active then 0 else 1)
  }

  const START := State(0, Head(0, 0), false, 0, 0, None, Locked, false)

  lemma EventKeeps(s: State, e: Event)
    requires Inv(s) && Enabled(s, e)
    ensures Inv(Happen(s, e))
  {
    match e {
      case Issue(sector, writing) =>
        ReadyIsNext(s.head, s.now, sector, 0);
        StartsInTime(s.head, s.now, sector, writing);
        hide Latency, UpdateLast;
      case _ =>
    }
  }

  lemma StartsInTime(h: Head, now: nat, s: Sector, writing: bool)
    requires h.bufferInit <= now && h.bufferInit % ROTATION_TIME == 0
    ensures var h' := UpdateLast(h, now, s);
            h'.bufferInit % ROTATION_TIME == 0 && h'.bufferInit <= now + Latency(h, now, s, writing)
    ensures Latency(h, now, s, writing) >= ROTATION_TIME
  {
    ReadyIsNext(h, now, s, 0);
    hide ModuloDiff, Ready, SeekBetween;
  }

  ghost predicate Run(ss: seq<State>, es: seq<Event>) {
    && |ss| == |es| + 1 && ss[0] == START
    && forall k | 0 <= k < |es| :: Enabled(ss[k], es[k]) && ss[k + 1] == Happen(ss[k], es[k])
  }

  lemma {:induction false} RunKeeps(ss: seq<State>, es: seq<Event>, k: nat)
    requires Run(ss, es) && k < |ss|
    ensures Inv(ss[k])
  {
    if k > 0 {
      RunKeeps(ss, es, k - 1);
      EventKeeps(ss[k - 1], es[k - 1]);
    }
  }

  /** 500 ticks for every track of 32 sectors between the two. */
  function Arrival(now: nat, from: Sector, to: Sector): nat {
    if from / 32 < to / 32 then now + 500 * (to / 32 - from / 32) else now + 500 * (from / 32 - to / 32)
  }

  /** What a request comes to: its answer is due when the head has passed the sector after the
      seek for the first time, or one sector time from now when a read finds it in the buffer. */
  ghost predicate Served(s: State, sector: Sector, writing: bool, due: nat) {
    var arrive := Arrival(s.now, s.head.lastSector, sector);
    if !writing && s.head.lastSector / 32 == sector / 32 && InBuffer(s.head, s.now, sector) then
      due == s.now + ROTATION_TIME
    else
      && due >= arrive + ROTATION_TIME && Over(due - ROTATION_TIME, sector)
      && forall t: nat | t >= arrive && Over(t, sector) :: due <= t + ROTATION_TIME
  }

  /** In every run each request finds the disk free, the buffer started at a sector boundary not
      later than now, and is served accordingly. */
  lemma EveryRequest(ss: seq<State>, es: seq<Event>, k: nat)
    requires Run(ss, es) && k < |es| && es[k].Issue?
    ensures !ss[k].active && !ss[k + 1].failed
    ensures ss[k].head.bufferInit <= ss[k].now && ss[k].head.bufferInit % ROTATION_TIME == 0
    ensures Served(ss[k], es[k].sector, es[k].writing, ss[k + 1].due)
  {
    RunKeeps(ss, es, k);
    var s, sector, writing := ss[k], es[k].sector, es[k].writing;
    HitIff(s.head, s.now, sector, writing);
    if !BufferHit(s.head, s.now, sector, writing) {
      forall t: nat {
        UnbufferedIsEarliest(s.head, s.now, sector, writing, t);
      }
    }
    hide BufferHit, InBuffer, SeekBetween, Over, Ready, ModuloDiff;
  }

  /** The sector of the last request among the first k events. */
  function LastSector(es: seq<Event>, k: nat): Sector
    requires k <= |es|
  {
    if k == 0 then 0 else if es[k - 1].Issue? then es[k - 1].sector else LastSector(es, k - 1)
  }

  /** Event j is a request on another track than the one before it. */
  predicate Seeks(es: seq<Event>, j: nat): (b: bool)
    requires j < |es|
    ensures b ==> es[j].Issue?
  {
    es[j].Issue? && LastSector(es, j) / 32 != es[j].sector / 32
  }

  /** What the head of the disk stands for in every run: the sector of the last request, and the
      first sector boundary after the head came to the track by the last request that had to seek. */
  ghost predicate HeadTells(ss: seq<State>, es: seq<Event>, k: nat)
    requires Run(ss, es) && k < |ss|
  {
    && ss[k].head.lastSector == LastSector(es, k)
    && (NoSeek(es, 0, k) ==> ss[k].head.bufferInit == 0)
    && forall j: nat | j < k && Seeks(es, j) && NoSeek(es, j + 1, k) ::
         BufferSince(ss[k].head.bufferInit, Arrival(ss[j].now, LastSector(es, j), es[j].sector))
  }

  predicate NoSeek(es: seq<Event>, from: nat, to: nat)
    requires to <= |es|
  {
    forall i | from <= i < to :: !Seeks(es, i)
  }

  lemma NoSeekNext(es: seq<Event>, from: nat, to: nat)
    requires from <= to < |es|
    ensures NoSeek(es, from, to + 1) <==> NoSeek(es, from, to) && !Seeks(es, to)
    ensures NoSeek(es, to, to)
  {
    hide Seeks;
  }

  /** The first multiple of 500 from `arrive` on. */
  predicate BufferSince(bufferInit: nat, arrive: nat) {
    bufferInit % 500 == 0 && arrive <= bufferInit < arrive + 500
  }

  lemma HeadStep(s: State, e: Event)
    requires Inv(s) && Enabled(s, e)
    ensures var h, h' := s.head, Happen(s, e).head;
            && h'.lastSector == (if e.Issue? then e.sector else h.lastSector)
            && if e.Issue? && h.lastSector / 32 != e.sector / 32
               then BufferSince(h'.bufferInit, Arrival(s.now, h.lastSector, e.sector))
               else h'.bufferInit == h.bufferInit
  {
    if e.Issue? {
      ReadyIsNext(s.head, s.now, e.sector, 0);
      hide Ready, Latency;
    }
  }

  lemma HeadMoves(ss: seq<State>, es: seq<Event>, k: nat)
    requires Run(ss, es) && k < |es| && ss[k].head.lastSector == LastSector(es, k)
    ensures var h, h', e := ss[k].head, ss[k + 1].head, es[k];
            && h'.lastSector == LastSector(es, k + 1)
            && if Seeks(es, k) then BufferSince(h'.bufferInit, Arrival(ss[k].now, LastSector(es, k), e.sector))
               else h'.bufferInit == h.bufferInit
  {
    RunKeeps(ss, es, k);
    HeadStep(ss[k], es[k]);
    hide Inv, Happen, Enabled, Arrival, BufferSince;
  }

  lemma HeadAtStart(ss: seq<State>, es: seq<Event>)
    requires Run(ss, es)
    ensures HeadTells(ss, es, 0)
  {
  }

  lemma {:induction false} HeadOf(ss: seq<State>, es: seq<Event>, k: nat)
    requires Run(ss, es) && k < |ss|
    ensures HeadTells(ss, es, k)
  {
    hide Run, Arrival, BufferSince, LastSector, NoSeek, Seeks;
    if k == 0 {
      HeadAtStart(ss, es);
    } else {
      SameLength(ss, es);
      HeadOf(ss, es, k - 1);
      HeadMoves(ss, es, k - 1);
      NoSeekNext(es, 0, k - 1);
      forall j: nat | j < k && Seeks(es, j) && NoSeek(es, j + 1, k)
        ensures BufferSince(ss[k].head.bufferInit, Arrival(ss[j].now, LastSector(es, j), es[j].sector))
      {
        if j < k - 1 { NoSeekNext(es, j + 1, k - 1); }
      }
    }
  }

  lemma SameLength(ss: seq<State>, es: seq<Event>)
    requires Run(ss, es)
    ensures |ss| == |es| + 1
  {
  }

  // ---------------------------------------------------------------------------------
  // The disk in place.

  class Disk {
    var lastSector: Sector
    var bufferInit: nat
    var active: bool

    function View(): Head
      reads this
    {
      Head(lastSector, bufferInit)
    }

    constructor ()
      ensures View() == START.head && !active
    {
      lastSector, bufferInit, active := 0, 0, false;
    }

    method TimeToSeek(now: nat, newSector: Sector) returns (seek: nat, rotation: nat)
      ensures seek == SeekBetween(lastSector, newSector) && now + seek + rotation == Ready(View(), now, newSector)
    {
      var newTrack, oldTrack := newSector / SECTORS_PER_TRACK, lastSector / SECTORS_PER_TRACK;
      seek := (if newTrack < oldTrack then oldTrack - newTrack else newTrack - oldTrack) * SEEK_TIME;
      var over := (now + seek) % ROTATION_TIME;
      rotation := 0;
      if over > 0 {
        rotation := ROTATION_TIME - over;
      }
    }

    method ComputeLatency(now: nat, newSector: Sector, writing: bool) returns (ticks: nat)
      ensures ticks == Latency(View(), now, newSector, writing)
    {
      var seek, rotation := TimeToSeek(now, newSector);
      var timeAfter := now + seek + rotation;
      if !writing && seek == 0
         && (timeAfter - bufferInit) / ROTATION_TIME > ModuloDiff(newSector, bufferInit / ROTATION_TIME) {
        return ROTATION_TIME;
      }
      rotation := rotation + ModuloDiff(newSector, timeAfter / ROTATION_TIME) * ROTATION_TIME;
      ticks := seek + rotation + ROTATION_TIME;
    }

    /** ReadRequest and WriteRequest, apart from the data: when the interrupt is to come. */
    method Request(now: nat, sector: Sector, writing: bool) returns (due: nat)
      requires !active   // ASSERT(!active)
      modifies this
      ensures active && View() == UpdateLast(old(View()), now, sector)
      ensures due == now + Latency(old(View()), now, sector, writing)
    {
      var ticks := ComputeLatency(now, sector, writing);
      active := true;
      var seek, rotate := TimeToSeek(now, sector);
      if seek != 0 {
        bufferInit := now + seek + rotate;
      }
      lastSector := sector;
      due := now + ticks;
    }

    method CallBack()
      modifies this
      ensures !active && View() == old(View())
    {
      active := false;
    }
  }
}

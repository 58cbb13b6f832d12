/** Address spaces: the physical frames that userprog/addrspace.cc hands out and takes back, and
    what user programs running in different spaces can see of each other. */
module AddressSpaces {
  import opened Options
  import opened MachineWords
  import opened Memory
  import opened Cpu
  import opened Decoding
  import opened Machines
  import opened Bitmaps
  import opened Loading
  import Disks

  // ---------------------------------------------------------------------------------
  // What one instruction can reach.

  ghost predicate Owns(table: seq<Pte>, frame: nat) {
    exists i | 0 <= i < |table| :: table[i].frame == frame
  }

  lemma SameOwns(s: seq<Pte>, t: seq<Pte>, frame: nat)
    requires SameMapping(s, t)
    ensures Owns(s, frame) == Owns(t, frame)
  {
    if Owns(s, frame) {
      var i :| 0 <= i < |s| && s[i].frame == frame;
      assert t[i].frame == frame;
    }
    if Owns(t, frame) {
      var i :| 0 <= i < |t| && t[i].frame == frame;
      assert s[i].frame == frame;
    }
  }

  /** An access that goes through stays in one frame, and the table owns that frame. */
  lemma PutOwned(c: State, v: uint32, size: nat, value: int32, q: nat)
    requires size in {1, 2, 4} && q < MEMORY_SIZE && Translate(c.table, v, size, true).At?
    requires !Owns(c.table, q / PAGE_SIZE)
    ensures Put(c.mem, Translate(c.table, v, size, true).phys, size, value)[q] == c.mem[q]
  {
    var p := Translate(c.table, v, size, true).phys;
    hide Put, Fetch, Narrow;
    PutThenFetch(c.mem, p, size, value);
    if p <= q < p + size {
      OneFrame(c.table, v, size, true, q);
      assert false;
    }
  }

  lemma OneFrame(table: seq<Pte>, v: uint32, size: nat, writing: bool, q: nat)
    requires size in {1, 2, 4} && Translate(table, v, size, writing).At?
    requires var p := Translate(table, v, size, writing).phys; p <= q < p + size
    ensures v / PAGE_SIZE < |table| && table[v / PAGE_SIZE].frame == q / PAGE_SIZE
  {
    OnePage(v, size);
    var frame, offset := table[v / PAGE_SIZE].frame, v % PAGE_SIZE;
    assert q == frame * PAGE_SIZE + (q - frame * PAGE_SIZE) && 0 <= q - frame * PAGE_SIZE < PAGE_SIZE;
  }

  /** No byte of a frame that the table does not own can change, and the mapping stays. */
  ghost predicate Kept(c: State, c': State) {
    && SameMapping(c.table, c'.table)
    && forall q: nat | q < MEMORY_SIZE && !Owns(c.table, q / PAGE_SIZE) :: c'.mem[q] == c.mem[q]
  }

  lemma StoreKept(c: State, i: Instr, addr: int32)
    requires Good(c) && WellFormed(i) && IsMemory(i.op) && !IsLoad(i.op)
    ensures Kept(c, ExecStore(c, i, addr).0)
  {
    hide Translate, Fetch, Touch, Stored, Unsigned, Signed, Plus, DelayedLoad, Put, Owns;
    var v, size, c' := AccessAddr(i.op, addr), SizeOf(i.op), ExecStore(c, i, addr).0;
    var read := Translate(c.table, v, size, false);
    if IsPartial(i.op) && read.Fault? {
      return;
    }
    var c1 := if IsPartial(i.op) then c.(table := Touch(c.table, v, false)) else c;
    SameTranslate(c.table, c1.table, v, size, true);
    var a := Translate(c.table, v, size, true);
    if a.At? {
      var word := if IsPartial(i.op) then Fetch(c.mem, read.phys, 4) else 0;
      var value := Stored(i.op, word, c.regs[i.rt], Unsigned(addr) % 4);
      forall q: nat | q < MEMORY_SIZE && !Owns(c.table, q / PAGE_SIZE) ensures c'.mem[q] == c.mem[q] {
        PutOwned(c, v, size, value, q);
      }
    }
  }

  lemma ExecKept(c: State, i: Instr)
    requires Good(c) && WellFormed(i)
    ensures Kept(c, Exec(c, i).0)
  {
    hide Decide, Translate, Fetch, Touch, Loaded, ExecStore, Owns, DelayedLoad, Write;
    match Decide(c.regs, i) {
      case StoreTo(addr) => StoreKept(c, i, addr);
      case _ =>
    }
  }

  /** A whole instruction, fetch included. */
  lemma StepKept(c: State)
    requires Good(c)
    ensures Kept(c, Step(c).0) && Good(Step(c).0)
  {
    hide Decode, Exec, Translate, Fetch, Touch, Owns;
    var v := Unsigned(c.regs[PC]);
    var a := Translate(c.table, v, 4, false);
    if a.At? {
      var c1, i := c.(table := Touch(c.table, v, false)), Decode(Unsigned(Fetch(c.mem, a.phys, 4)));
      ExecKept(c1, i);
      ExecKeepsGood(c1, i);
      forall q: nat ensures Owns(c.table, q / PAGE_SIZE) == Owns(c1.table, q / PAGE_SIZE) {
        SameOwns(c.table, c1.table, q / PAGE_SIZE);
      }
    }
  }

  // ---------------------------------------------------------------------------------
  // All spaces and the frame bitmap.

  datatype Memories = Memories(tables: map<nat, seq<Pte>>, marks: set<nat>, mem: Mem)

  datatype Event =
    | Create(id: nat, exe: Executable)  // the loading constructor
    | Destroy(id: nat)                  // the destructor
    | User(id: nat, regs: Regs)         // one instruction while the space is current

  function NewTable(frames: seq<nat>): seq<Pte> {
    seq(|frames|, i requires 0 <= i < |frames| => Pte(frames[i], true, false, false, false))
  }

  function FramesOf(table: seq<Pte>): set<nat> {
    set i | 0 <= i < |table| :: table[i].frame
  }

  function PagesFor(size: nat): nat {
    (size + PAGE_SIZE - 1) / PAGE_SIZE
  }

  ghost function Zeroed(mem: Mem, frames: seq<nat>): Mem {
    seq(MEMORY_SIZE, q requires 0 <= q < MEMORY_SIZE => if q / PAGE_SIZE in frames then 0 else mem[q])
  }

  function Pages(exe: Executable): nat {
    PagesFor(SpaceSize(exe))
  }

  ghost predicate HasRoom(m: Memories, exe: Executable) {
    |m.marks| + Pages(exe) <= NUM_PHYS_PAGES
  }

  /** The frames that a new space gets. */
  ghost function FramesFor(m: Memories, exe: Executable): seq<nat> {
    Taken(m.marks, Pages(exe), NUM_PHYS_PAGES)
  }

  /** The copying loops stay in main memory. */
  ghost predicate Loads(m: Memories, exe: Executable) {
    HasRoom(m, exe) ==>
      && InMemory(FramesFor(m, exe), exe.code, |exe.file|)
      && InMemory(FramesFor(m, exe), exe.initData, |exe.file|)
  }

  ghost predicate Enabled(m: Memories, e: Event) {
    match e
    case Create(id, exe) => id !in m.tables && Pages(exe) <= NUM_PHYS_PAGES && Loads(m, exe)
    case Destroy(id) => id in m.tables
    case User(id, regs) => id in m.tables && regs[0] == 0 && 0 <= regs[LOAD] < NUM_GP
  }

  /** A space that does not fit is left without pages. */
  ghost function Happen(m: Memories, e: Event): Memories
    requires Enabled(m, e)
  {
    match e
    case Create(id, exe) =>
      if !HasRoom(m, exe) then m.(tables := m.tables[id := []])
      else
        var frames := FramesFor(m, exe);
        Memories(m.tables[id := NewTable(frames)], MarksAfter(m.marks, Pages(exe), NUM_PHYS_PAGES),
                 WithProgram(Zeroed(m.mem, frames), frames, exe))
    case Destroy(id) =>
      Memories(m.tables - {id}, m.marks - FramesOf(m.tables[id]), m.mem)
    case User(id, regs) =>
      var c := Step(State(regs, m.mem, m.tables[id])).0;
      Memories(m.tables[id := c.table], m.marks, c.mem)
  }

  /** Frames are in range and no frame is in two places. */
  ghost predicate Apart(tables: map<nat, seq<Pte>>) {
    forall a, b, i, j | a in tables && b in tables && 0 <= i < |tables[a]| && 0 <= j < |tables[b]|
                        && tables[a][i].frame == tables[b][j].frame :: a == b && i == j
  }

  ghost predicate Exactly(m: Memories) {
    forall f: nat :: f in m.marks <==> Owned(m.tables, f)
  }

  ghost predicate Owned(tables: map<nat, seq<Pte>>, f: nat) {
    exists a :: a in tables && Owns(tables[a], f)
  }

  ghost predicate Bounded(tables: map<nat, seq<Pte>>) {
    forall a, i | a in tables && 0 <= i < |tables[a]| ::
      tables[a][i].frame < NUM_PHYS_PAGES && tables[a][i].valid && !tables[a][i].readOnly
  }

  /** Live spaces own disjoint frames, and the bitmap marks exactly what they own. */
  ghost predicate Sound(m: Memories) {
    Apart(m.tables) && Bounded(m.tables) && Exactly(m)
  }

  lemma CreateKeeps(m: Memories, id: nat, frames: seq<nat>)
    requires Sound(m) && id !in m.tables && Distinct(frames)
    requires forall i | 0 <= i < |frames| :: frames[i] < NUM_PHYS_PAGES && frames[i] !in m.marks
    ensures Sound(m.(tables := m.tables[id := NewTable(frames)], marks := m.marks + Elems(frames)))
  {
    var table := NewTable(frames);
    var tables := m.tables[id := table];
    forall f: nat ensures f in m.marks + Elems(frames) <==> Owned(tables, f) {
      if f in frames {
        var i :| 0 <= i < |frames| && frames[i] == f;
        assert table[i].frame == f;
        assert Owns(tables[id], f);
      } else if Owned(m.tables, f) {
        var a :| a in m.tables && Owns(m.tables[a], f);
        assert a in tables && Owns(tables[a], f);
      }
    }
    forall a | a in m.tables ensures forall i | 0 <= i < |m.tables[a]| :: m.tables[a][i].frame in m.marks {
      forall i | 0 <= i < |m.tables[a]| ensures m.tables[a][i].frame in m.marks {
        assert Owns(m.tables[a], m.tables[a][i].frame);
      }
    }
  }

  lemma DestroyKeeps(m: Memories, id: nat)
    requires Sound(m) && id in m.tables
    ensures Sound(m.(tables := m.tables - {id}, marks := m.marks - FramesOf(m.tables[id])))
  {
    var gone, tables := FramesOf(m.tables[id]), m.tables - {id};
    forall f: nat ensures f in m.marks - gone <==> Owned(tables, f) {
      if f in m.marks - gone {
        var a :| a in m.tables && Owns(m.tables[a], f);
        var i :| 0 <= i < |m.tables[a]| && m.tables[a][i].frame == f;
        assert a != id;
        assert a in tables && Owns(tables[a], f);
      }
      if Owned(tables, f) {
        var a :| a in tables && Owns(tables[a], f);
        var j :| 0 <= j < |m.tables[a]| && m.tables[a][j].frame == f;
        assert Owns(m.tables[a], f);
        assert forall i | 0 <= i < |m.tables[id]| :: m.tables[id][i].frame != f;
      }
    }
  }

  lemma TouchKeeps(m: Memories, id: nat, table: seq<Pte>)
    requires Sound(m) && id in m.tables && SameMapping(m.tables[id], table)
    ensures Sound(m.(tables := m.tables[id := table]))
  {
    var tables := m.tables[id := table];
    forall f: nat ensures Owned(m.tables, f) <==> Owned(tables, f) {
      SameOwns(m.tables[id], table, f);
      if Owned(m.tables, f) {
        var a :| a in m.tables && Owns(m.tables[a], f);
        assert a in tables && Owns(tables[a], f);
      }
      if Owned(tables, f) {
        var a :| a in tables && Owns(tables[a], f);
        assert a in m.tables && Owns(m.tables[a], f);
      }
    }
  }

  lemma HappenKeeps(m: Memories, e: Event)
    requires Sound(m) && Enabled(m, e)
    ensures Sound(Happen(m, e))
  {
    hide Sound, Taken, MarksAfter, NewTable, FramesOf, Step, Zeroed, WithProgram, InMemory, SameMapping, Distinct;
    match e {
      case Create(id, exe) =>
        if !HasRoom(m, exe) {
          EmptyKeeps(m, id);
        } else {
          TakenAreFree(m.marks, Pages(exe), NUM_PHYS_PAGES);
          CreateKeeps(m, id, FramesFor(m, exe));
          SoundIgnoresMemory(m.(tables := Happen(m, e).tables, marks := Happen(m, e).marks), Happen(m, e));
        }
      case Destroy(id) =>
        DestroyKeeps(m, id);
      case User(id, regs) =>
        var c := State(regs, m.mem, m.tables[id]);
        StepKept(c);
        TouchKeeps(m, id, Step(c).0.table);
        SoundIgnoresMemory(m.(tables := Happen(m, e).tables), Happen(m, e));
    }
  }

  lemma SoundIgnoresMemory(m: Memories, m': Memories)
    requires Sound(m) && m.tables == m'.tables && m.marks == m'.marks
    ensures Sound(m')
  {
  }

  lemma EmptyKeeps(m: Memories, id: nat)
    requires Sound(m) && id !in m.tables
    ensures Sound(m.(tables := m.tables[id := []]))
  {
    CreateKeeps(m, id, []);
    assert NewTable([]) == [] && m.marks + Elems([]) == m.marks;
    hide Sound;
  }

  // ---------------------------------------------------------------------------------
  // Every run.

  ghost predicate Run(ms: seq<Memories>, es: seq<Event>) {
    && |ms| == |es| + 1
    && forall k | 0 <= k < |es| :: Enabled(ms[k], es[k]) && ms[k + 1] == Happen(ms[k], es[k])
  }

  /** What a space reads at a virtual byte address: the byte, or the exception. */
  datatype Reading = Read(value: byte) | Raises(which: Exception)

  function ReadByte(m: Memories, id: nat, v: uint32): Reading
    requires id in m.tables
  {
    match Translate(m.tables[id], v, 1, false)
    case Fault(which) => Raises(which)
    case At(p) => Read(m.mem[p])
  }

  /** A space takes k pages or fewer exactly when k pages hold its code, its data, initialized and
      not, and the 1024 bytes of its stack. */
  lemma PagesExact(exe: Executable, k: nat)
    ensures Pages(exe) <= k <==> exe.code.size + exe.initData.size + exe.uninitSize + 1024 <= k * PAGE_SIZE
  {
    var size, pages := SpaceSize(exe), Pages(exe);
    assert (pages - 1) * PAGE_SIZE < size <= pages * PAGE_SIZE;
    if pages <= k {
      MultiplesGrow(pages, k, PAGE_SIZE);
    } else {
      MultiplesGrow(k, pages - 1, PAGE_SIZE);
    }
  }

  /** A program that fits can read from the first byte of its code to the last of its stack, and
      to the end of that page; past it, and anywhere in a space that found no room, a read is an
      address error. */
  lemma NewSpaceReads(m: Memories, id: nat, exe: Executable, v: uint32)
    requires Enabled(m, Create(id, exe))
    ensures id in Happen(m, Create(id, exe)).tables
    ensures var reading := ReadByte(Happen(m, Create(id, exe)), id, v);
            if HasRoom(m, exe) && v < Pages(exe) * PAGE_SIZE then reading.Read?
            else reading == Raises(AddressErrorException)
    ensures HasRoom(m, exe) && v < exe.code.size + exe.initData.size + exe.uninitSize + 1024 ==>
              ReadByte(Happen(m, Create(id, exe)), id, v).Read?
  {
    var pages, m' := Pages(exe), Happen(m, Create(id, exe));
    PagesExact(exe, pages);
    hide Pages, MarksAfter, Taken, WithProgram, Zeroed, InMemory;
    if HasRoom(m, exe) {
      TakenAreFree(m.marks, pages, NUM_PHYS_PAGES);
      NewTableReads(m', id, FramesFor(m, exe), v);
    } else {
      NewTableReads(m', id, [], v);
    }
  }

  lemma NewTableReads(m: Memories, id: nat, frames: seq<nat>, v: uint32)
    requires id in m.tables && m.tables[id] == NewTable(frames)
    requires forall i | 0 <= i < |frames| :: frames[i] < NUM_PHYS_PAGES
    ensures if v < |frames| * PAGE_SIZE then ReadByte(m, id, v).Read?
            else ReadByte(m, id, v) == Raises(AddressErrorException)
  {
    if v < |frames| * PAGE_SIZE {
      assert v / PAGE_SIZE < |frames|;
      assert m.tables[id][v / PAGE_SIZE] == Pte(frames[v / PAGE_SIZE], true, false, false, false);
    } else {
      assert v / PAGE_SIZE >= |frames|;
    }
  }

  /** Where the event loads a program, every frame that its copying loops reach into is one of
      the new space's own. */
  ghost predicate Tidy(m: Memories, e: Event) {
    e.Create? && HasRoom(m, e.exe) ==>
      && Confined(FramesFor(m, e.exe), e.exe.code, |e.exe.file|)
      && Confined(FramesFor(m, e.exe), e.exe.initData, |e.exe.file|)
  }

  /** A space's memory is out of reach of every event that is not its own and that is tidy. */
  lemma HappenElsewhere(m: Memories, e: Event, id: nat, v: uint32)
    requires Sound(m) && Enabled(m, e) && id in m.tables && e.id != id && Tidy(m, e)
    ensures id in Happen(m, e).tables && Happen(m, e).tables[id] == m.tables[id]
    ensures ReadByte(Happen(m, e), id, v) == ReadByte(m, id, v)
  {
    hide Step, MarksAfter, NewTable, FramesOf, FramesFor, Owns, WithProgram, Zeroed, InMemory, Confined;
    var a := Translate(m.tables[id], v, 1, false);
    if a.At? {
      var q := a.phys;
      OneFrame(m.tables[id], v, 1, false, q);
      OwnFrame(m, id, v / PAGE_SIZE);
      hide Sound;
      match e {
        case Create(other, exe) =>
          if HasRoom(m, exe) { CreateElsewhere(m, exe, q); }
        case Destroy(_) =>
        case User(other, regs) =>
          StepKept(State(regs, m.mem, m.tables[other]));
          NotOwned(m, other, id, v / PAGE_SIZE);
          assert Step(State(regs, m.mem, m.tables[other])).0.mem[q] == m.mem[q];
      }
    }
  }

  lemma CreateElsewhere(m: Memories, exe: Executable, q: nat)
    requires HasRoom(m, exe) && Loads(m, exe) && q < MEMORY_SIZE && q / PAGE_SIZE in m.marks
    requires var frames := FramesFor(m, exe);
             Confined(frames, exe.code, |exe.file|) && Confined(frames, exe.initData, |exe.file|)
    ensures WithProgram(Zeroed(m.mem, FramesFor(m, exe)), FramesFor(m, exe), exe)[q] == m.mem[q]
  {
    TakenAreFree(m.marks, Pages(exe), NUM_PHYS_PAGES);
    hide Taken, InMemory, Confined, Copied, MarksAfter, Distinct;
    var frames := FramesFor(m, exe);
    assert q / PAGE_SIZE !in frames;
    var zeroed := Zeroed(m.mem, frames);
    var coded := Copied(zeroed, frames, exe.code, exe.file);
    ConfinedLeaves(zeroed, frames, exe.code, exe.file);
    ConfinedLeaves(coded, frames, exe.initData, exe.file);
  }

  lemma OwnFrame(m: Memories, id: nat, i: nat)
    requires Sound(m) && id in m.tables && i < |m.tables[id]|
    ensures m.tables[id][i].frame in m.marks
  {
    assert Owns(m.tables[id], m.tables[id][i].frame);
    assert Owned(m.tables, m.tables[id][i].frame);
  }

  lemma NotOwned(m: Memories, other: nat, id: nat, i: nat)
    requires Sound(m) && other in m.tables && id in m.tables && other != id && i < |m.tables[id]|
    ensures !Owns(m.tables[other], m.tables[id][i].frame)
  {
  }

  /** At every point of every run the spaces' frames are disjoint and marked exactly. */
  lemma {:induction false} RunKeeps(ms: seq<Memories>, es: seq<Event>, k: nat)
    requires Run(ms, es) && Sound(ms[0]) && k < |ms|
    ensures Sound(ms[k])
  {
    if k > 0 {
      RunKeeps(ms, es, k - 1);
      HappenKeeps(ms[k - 1], es[k - 1]);
    }
  }

  /** Whatever other spaces do, are created or destroyed, in any order and any number, a space
      reads the same at every address as long as no event is its own and every program loaded
      meanwhile is copied into its own frames. */
  lemma {:induction false} Undisturbed(ms: seq<Memories>, es: seq<Event>, id: nat, v: uint32, k: nat)
    requires Run(ms, es) && Sound(ms[0]) && id in ms[0].tables && k < |ms|
    requires forall j | 0 <= j < |es| :: es[j].id != id && Tidy(ms[j], es[j])
    ensures id in ms[k].tables && ReadByte(ms[k], id, v) == ReadByte(ms[0], id, v)
  {
    hide Tidy, Sound, ReadByte, Enabled, Happen;
    if k > 0 {
      Undisturbed(ms, es, id, v, k - 1);
      RunKeeps(ms, es, k - 1);
      HappenElsewhere(ms[k - 1], es[k - 1], id, v);
    }
  }

  // ---------------------------------------------------------------------------------
  // Programs loaded while no space has gone yet.

  lemma LowFrames(h: nat, k: nat)
    requires h + k <= NUM_PHYS_PAGES
    ensures forall i | 0 <= i < k :: Taken(Band(0, h), k, NUM_PHYS_PAGES)[i] == h + i
    ensures Consecutive(Taken(Band(0, h), k, NUM_PHYS_PAGES))
    ensures MarksAfter(Band(0, h), k, NUM_PHYS_PAGES) == Band(0, h + k)
  {
    MarksBand(0, h, k, NUM_PHYS_PAGES);
    assert BandAfter(0, h, k) == Band(0, h + k);
    hide Taken, MarksAfter, BandAfter, Band;
    forall i: nat | i < k ensures Taken(Band(0, h), k, NUM_PHYS_PAGES)[i] == h + i {
      TakenBand(0, h, k, NUM_PHYS_PAGES, i);
    }
  }

  /** Until a space is destroyed the frames in use are the lowest ones. */
  lemma {:induction false} LowMarks(ms: seq<Memories>, es: seq<Event>, start: nat, k: nat) returns (h: nat)
    requires Run(ms, es) && ms[0].marks == Band(0, start) && k < |ms|
    requires forall j | 0 <= j < |es| :: !es[j].Destroy?
    ensures ms[k].marks == Band(0, h)
  {
    h := start;
    if k > 0 {
      h := LowMarks(ms, es, start, k - 1);
      var m, e := ms[k - 1], es[k - 1];
      assert Enabled(m, e) && ms[k] == Happen(m, e);
      hide Run, Band, MarksAfter, Step;
      if e.Create? && HasRoom(m, e.exe) {
        BandSize(0, h);
        LowFrames(h, Pages(e.exe));
        h := h + Pages(e.exe);
      }
    }
  }

  /** So then every program whose segments end inside its space is copied into its own frames. */
  lemma TidyUntilExit(ms: seq<Memories>, es: seq<Event>, start: nat, k: nat)
    requires Run(ms, es) && ms[0].marks == Band(0, start) && k < |es|
    requires forall j | 0 <= j < |es| :: !es[j].Destroy?
    requires es[k].Create? ==>
               var exe := es[k].exe;
               EndsInside(|exe.file|, exe.code, Pages(exe)) && EndsInside(|exe.file|, exe.initData, Pages(exe))
    ensures Tidy(ms[k], es[k])
  {
    var h := LowMarks(ms, es, start, k);
    hide Run, Band, MarksAfter, Confined, EndsInside, Taken;
    if es[k].Create? && HasRoom(ms[k], es[k].exe) {
      var exe := es[k].exe;
      BandSize(0, h);
      LowFrames(h, Pages(exe));
      ConsecutiveIff(FramesFor(ms[k], exe), exe.code, |exe.file|);
      ConsecutiveIff(FramesFor(ms[k], exe), exe.initData, |exe.file|);
    }
  }

  // ---------------------------------------------------------------------------------
  // And once one has gone: a load that overwrites another space.

  /** A program of nothing but its stack: eight pages. */
  function Bare(): Executable {
    Executable(Segment(0, 0, 0), Segment(0, 0, 0), 0, [])
  }

  /** Eight pages of code at 0 and one of data at 1024: seventeen pages with the stack. */
  function Wide(file: seq<byte>): Executable {
    Executable(Segment(0, 40, 1024), Segment(1024, 1064, 128), 0, file)
  }

  lemma Sizes(file: seq<byte>)
    ensures Pages(Bare()) == 8 && Pages(Wide(file)) == 17
  {
  }

  lemma BareCreated(m: Memories, id: nat, h: nat)
    requires m.marks == Band(0, h) && h + 8 <= NUM_PHYS_PAGES && id !in m.tables
    ensures Enabled(m, Create(id, Bare()))
    ensures var m' := Happen(m, Create(id, Bare()));
            && m'.marks == Band(0, h + 8) && id in m'.tables && m'.tables == m.tables[id := m'.tables[id]]
            && |m'.tables[id]| == 8 && m'.mem[h * PAGE_SIZE] == 0
            && forall i | 0 <= i < 8 :: m'.tables[id][i] == Pte(h + i, true, false, false, false)
  {
    BandSize(0, h);
    LowFrames(h, 8);
    Sizes([]);
    hide Taken, MarksAfter, Band, Pages, CopyPages;
    var frames := Taken(Band(0, h), 8, NUM_PHYS_PAGES);
    assert frames[0] in frames && h * PAGE_SIZE / PAGE_SIZE == h;
  }

  lemma FirstGone(m: Memories)
    requires m.marks == Band(0, 16) && 0 in m.tables && |m.tables[0]| == 8
    requires forall i | 0 <= i < 8 :: m.tables[0][i].frame == i
    ensures Enabled(m, Destroy(0))
    ensures var m' := Happen(m, Destroy(0)); m'.marks == Band(8, 16) && m'.tables == m.tables - {0} && m'.mem == m.mem
  {
    forall x: nat ensures x in FramesOf(m.tables[0]) <==> x < 8 {
      if x < 8 { assert m.tables[0][x].frame == x; }
    }
  }

  lemma LowInMemory(frames: seq<nat>, seg: Segment, length: nat)
    requires forall i | 0 <= i < |frames| :: seg.virtualAddr + frames[i] * PAGE_SIZE + PAGE_SIZE <= MEMORY_SIZE
    ensures InMemory(frames, seg, length)
  {
    hide PieceLength;
  }

  /** The one page of data goes to 1024 and the eight frames below 1024 are the space's. */
  lemma WideCopied(mem: Mem, frames: seq<nat>, file: seq<byte>)
    requires |file| == 1192 && |frames| == 17 && Distinct(frames)
    requires forall i | 0 <= i < 17 :: frames[i] == if i < 8 then i else 8 + i
    ensures InMemory(frames, Wide(file).code, |file|) && InMemory(frames, Wide(file).initData, |file|)
    ensures WithProgram(mem, frames, Wide(file))[1024] == file[1064]
  {
    var exe := Wide(file);
    LowInMemory(frames, exe.code, |file|);
    LowInMemory(frames, exe.initData, |file|);
    assert Hits(frames, exe.initData, |file|, 0, 1024);
    hide InMemory, Distinct, CopyPages;
    HitHolds(Copied(mem, frames, exe.code, file), frames, exe.initData, file, 17, 0, 1024);
  }

  lemma WideCreated(m: Memories, file: seq<byte>)
    requires m.marks == Band(8, 16) && 2 !in m.tables && |file| == 1192
    ensures Enabled(m, Create(2, Wide(file)))
    ensures var m' := Happen(m, Create(2, Wide(file)));
            m'.tables == m.tables[2 := NewTable(FramesFor(m, Wide(file)))] && m'.mem[1024] == file[1064]
  {
    BandSize(8, 16);
    Sizes(file);
    hide Taken, MarksAfter, Band, Wide, Pages, WithProgram, InMemory, NewTable, Distinct;
    var frames := FramesFor(m, Wide(file));
    TakenAreFree(m.marks, 17, NUM_PHYS_PAGES);
    forall i: nat | i < 17 ensures frames[i] == if i < 8 then i else 8 + i {
      TakenBand(8, 16, 17, NUM_PHYS_PAGES, i);
    }
    WideCopied(Zeroed(m.mem, frames), frames, file);
  }

  lemma TwoThenOne(boot: Memories) returns (one: Memories, two: Memories, three: Memories)
    requires boot.tables == map[] && boot.marks == {}
    ensures Enabled(boot, Create(0, Bare())) && one == Happen(boot, Create(0, Bare()))
    ensures Enabled(one, Create(1, Bare())) && two == Happen(one, Create(1, Bare()))
    ensures Enabled(two, Destroy(0)) && three == Happen(two, Destroy(0))
    ensures three.marks == Band(8, 16) && 2 !in three.tables && 1 in three.tables && three.mem[1024] == 0
    ensures |three.tables[1]| > 0 && three.tables[1][0] == Pte(8, true, false, false, false)
  {
    assert boot.marks == Band(0, 0);
    hide *;
    BareCreated(boot, 0, 0);
    one := Happen(boot, Create(0, Bare()));
    BareCreated(one, 1, 8);
    two := Happen(one, Create(1, Bare()));
    FirstGone(two);
    three := Happen(two, Destroy(0));
  }

  lemma RunOfFour(a: Memories, b: Memories, c: Memories, d: Memories, e: Memories, w: Event, x: Event, y: Event,
      z: Event)
    requires Enabled(a, w) && b == Happen(a, w) && Enabled(b, x) && c == Happen(b, x)
    requires Enabled(c, y) && d == Happen(c, y) && Enabled(d, z) && e == Happen(d, z)
    ensures Run([a, b, c, d, e], [w, x, y, z])
  {
    hide Enabled, Happen;
  }

  lemma FirstByte(m: Memories, id: nat)
    requires id in m.tables && |m.tables[id]| > 0 && m.tables[id][0] == Pte(8, true, false, false, false)
    ensures ReadByte(m, id, 0) == Read(m.mem[1024])
  {
  }

  /** From boot: two spaces are created and the first destroyed; then a program is loaded into
      the frames below and above the second, and its data overwrite the second's first bytes. */
  lemma LoadOverruns(mem: Mem, file: seq<byte>) returns (ms: seq<Memories>, es: seq<Event>)
    requires |file| == 1192
    ensures es == [Create(0, Bare()), Create(1, Bare()), Destroy(0), Create(2, Wide(file))]
    ensures Run(ms, es) && ms[0] == Memories(map[], {}, mem)
    ensures 1 in ms[3].tables && 1 in ms[4].tables
    ensures ReadByte(ms[3], 1, 0) == Read(0) && ReadByte(ms[4], 1, 0) == Read(file[1064])
  {
    var boot := Memories(map[], {}, mem);
    var one, two, three := TwoThenOne(boot);
    WideCreated(three, file);
    hide *;
    var four := Happen(three, Create(2, Wide(file)));
    FirstByte(three, 1);
    FirstByte(four, 1);
    RunOfFour(boot, one, two, three, four, Create(0, Bare()), Create(1, Bare()), Destroy(0), Create(2, Wide(file)));
    ms, es := [boot, one, two, three, four], [Create(0, Bare()), Create(1, Bare()), Destroy(0), Create(2, Wide(file))];
  }

  // ---------------------------------------------------------------------------------
  // What a new space holds.

  /** On consecutive frames a new space reads, at every address, as its executable says. */
  lemma LoadedProgram(m: Memories, id: nat, exe: Executable, v: uint32)
    requires Enabled(m, Create(id, exe)) && HasRoom(m, exe) && v < Pages(exe) * PAGE_SIZE
    requires Consecutive(FramesFor(m, exe))
    requires EndsInside(|exe.file|, exe.code, Pages(exe)) && EndsInside(|exe.file|, exe.initData, Pages(exe))
    ensures ReadByte(Happen(m, Create(id, exe)), id, v) == Read(ImageByte(exe, Pages(exe), v))
  {
    TakenAreFree(m.marks, Pages(exe), NUM_PHYS_PAGES);
    hide Taken, MarksAfter, InMemory, EndsInside, WithProgram, ImageByte, Consecutive, Distinct;
    var frames := FramesFor(m, exe);
    NewTableAt(frames, v);
    FrameOfPlace(frames, v);
    ProgramPlaced(Zeroed(m.mem, frames), frames, exe, v);
  }

  lemma NewTableAt(frames: seq<nat>, v: uint32)
    requires v < |frames| * PAGE_SIZE && forall i | 0 <= i < |frames| :: frames[i] < NUM_PHYS_PAGES
    ensures v / PAGE_SIZE < |frames| && Translate(NewTable(frames), v, 1, false) == At(PlaceIn(frames, v))
  {
  }

  lemma FrameOfPlace(frames: seq<nat>, v: nat)
    requires v / PAGE_SIZE < |frames| && frames[v / PAGE_SIZE] < NUM_PHYS_PAGES
    ensures PlaceIn(frames, v) < MEMORY_SIZE && PlaceIn(frames, v) / PAGE_SIZE in frames
  {
    Divides(frames[v / PAGE_SIZE], PAGE_SIZE, v % PAGE_SIZE);
  }

  /** The kernel starts with no spaces and nothing marked. */
  lemma StartIsSound(mem: Mem)
    ensures Sound(Memories(map[], {}, mem))
  {
  }

  // ---------------------------------------------------------------------------------
  // The spaces in place: page tables are arrays, and the current one is the machine's.

  lemma ZeroOneMore(mem: Mem, frames: seq<nat>, f: nat)
    ensures Zeroed(Zeroed(mem, frames), [f]) == Zeroed(mem, frames + [f])
  {
  }

  lemma TakeNone(marks: set<nat>, mem: Mem)
    ensures Zeroed(mem, Taken(marks, 0, NUM_PHYS_PAGES)) == mem && MarksAfter(marks, 0, NUM_PHYS_PAGES) == marks
  {
  }

  /** One more call of FindAndSet, with room left. */
  lemma TakeOneMore(marks: set<nat>, i: nat, mem: Mem)
    requires |marks| + i < NUM_PHYS_PAGES
    ensures var f := LeastClear(MarksAfter(marks, i, NUM_PHYS_PAGES), 0, NUM_PHYS_PAGES);
            && f < NUM_PHYS_PAGES
            && MarksAfter(marks, i + 1, NUM_PHYS_PAGES) == MarksAfter(marks, i, NUM_PHYS_PAGES) + {f}
            && Taken(marks, i + 1, NUM_PHYS_PAGES) == Taken(marks, i, NUM_PHYS_PAGES) + [f]
            && Zeroed(Zeroed(mem, Taken(marks, i, NUM_PHYS_PAGES)), [f])
              == Zeroed(mem, Taken(marks, i + 1, NUM_PHYS_PAGES))
  {
    MarksGrow(marks, i, NUM_PHYS_PAGES);
    ClearBelow(MarksAfter(marks, i, NUM_PHYS_PAGES), NUM_PHYS_PAGES);
    ZeroOneMore(mem, Taken(marks, i, NUM_PHYS_PAGES),
      LeastClear(MarksAfter(marks, i, NUM_PHYS_PAGES), 0, NUM_PHYS_PAGES));
    hide Zeroed, LeastClear;
  }

  class UserMemory {
    const gPhysPageBitMap: Bitmap
    const machine: Machine
    var tables: map<nat, array<Pte>>

    ghost predicate Valid()
      reads this, machine
    {
      && gPhysPageBitMap.Valid() && gPhysPageBitMap.numBits == NUM_PHYS_PAGES && machine.Valid()
      && forall a, b | a in tables && b in tables && tables[a] == tables[b] :: a == b
    }

    ghost function View(): Memories
      requires Valid()
      reads this, machine, machine.mainMemory, gPhysPageBitMap.words, tables.Values
    {
      Memories(map a | a in tables :: tables[a][..], gPhysPageBitMap.Marks(), machine.mainMemory[..])
    }

    constructor ()
      ensures Valid() && fresh(machine) && fresh(machine.mainMemory) && fresh(gPhysPageBitMap)
              && fresh(gPhysPageBitMap.words)
      ensures View() == Memories(map[], {}, seq(MEMORY_SIZE, i => 0)) && Sound(View())
    {
      gPhysPageBitMap := new Bitmap(NUM_PHYS_PAGES);
      machine := new Machine();
      tables := map[];
    }

    /** The bytes of one frame become zero. */
    method Zero(frame: nat)
      requires machine.Valid() && frame < NUM_PHYS_PAGES
      modifies machine.mainMemory
      ensures machine.mainMemory[..] == Zeroed(old(machine.mainMemory[..]), [frame])
    {
      ghost var before: Mem := machine.mainMemory[..];
      for k := 0 to PAGE_SIZE
        invariant forall q: nat | q < MEMORY_SIZE ::
                    machine.mainMemory[q] == if frame * PAGE_SIZE <= q < frame * PAGE_SIZE + k then 0 else before[q]
      {
        machine.mainMemory[frame * PAGE_SIZE + k] := 0;
      }
      assert forall q: nat | q < MEMORY_SIZE ::
             frame * PAGE_SIZE <= q < frame * PAGE_SIZE + PAGE_SIZE <==> q / PAGE_SIZE == frame;
    }

    method Load(id: nat, exe: Executable)
      requires Valid() && Enabled(View(), Create(id, exe))
      modifies this, machine.mainMemory, gPhysPageBitMap.words
      ensures Valid() && View() == Happen(old(View()), Create(id, exe))
    {
      hide LeastClear, Taken, MarksAfter, Marked, NewTable, Zeroed, InMemory, Copied;
      ghost var m := View();
      var numPages := Pages(exe);
      var free := gPhysPageBitMap.NumClear();
      var pageTable: array<Pte>;
      if numPages > free {
        pageTable := new Pte[0];
        assert pageTable[..] == [];
      } else {
        pageTable := Allocate(numPages);
        CopySegment(pageTable, exe.code, exe.file, FramesFor(m, exe));
        CopySegment(pageTable, exe.initData, exe.file, FramesFor(m, exe));
      }
      assert View().tables == m.tables;
      AddTable(id, pageTable);
    }

    /** One of the two copying loops, if there is anything to copy. */
    method CopySegment(pageTable: array<Pte>, seg: Segment, file: seq<byte>, ghost frames: seq<nat>)
      requires machine.Valid() && pageTable[..] == NewTable(frames) && InMemory(frames, seg, |file|)
      modifies machine.mainMemory
      ensures machine.mainMemory[..] == Copied(old(machine.mainMemory[..]), frames, seg, file)
    {
      if seg.size == 0 {
        return;
      }
      ghost var mem := machine.mainMemory[..];
      NoPages(mem, frames, seg, file);
      for i := 0 to pageTable.Length
        invariant pageTable[..] == NewTable(frames)
        invariant machine.mainMemory[..] == CopyPages(mem, frames, seg, file, i)
      {
        assert pageTable[..][i].frame == frames[i];
        var piece := Piece(file, seg, i);
        if |piece| > 0 {
          Disks.Copy(piece, machine.mainMemory, seg.virtualAddr + pageTable[i].frame * PAGE_SIZE);
        }
      }
    }

    method AddTable(id: nat, pageTable: array<Pte>)
      requires Valid() && id !in tables && pageTable !in tables.Values
      modifies this
      ensures Valid() && View() == old(View()).(tables := old(View()).tables[id := pageTable[..]])
    {
      ghost var m := View();
      tables := tables[id := pageTable];
      assert View().tables == m.tables[id := pageTable[..]];
    }

    method Allocate(numPages: nat) returns (pageTable: array<Pte>)
      requires Valid() && |gPhysPageBitMap.Marks()| + numPages <= NUM_PHYS_PAGES
      modifies machine.mainMemory, gPhysPageBitMap.words
      ensures fresh(pageTable)
      ensures pageTable[..] == NewTable(Taken(old(gPhysPageBitMap.Marks()), numPages, NUM_PHYS_PAGES))
      ensures gPhysPageBitMap.Marks() == MarksAfter(old(gPhysPageBitMap.Marks()), numPages, NUM_PHYS_PAGES)
      ensures machine.mainMemory[..]
              == Zeroed(old(machine.mainMemory[..]), Taken(old(gPhysPageBitMap.Marks()), numPages, NUM_PHYS_PAGES))
    {
      hide LeastClear, Taken, MarksAfter, Marked, Zeroed;
      ghost var marks, mem := gPhysPageBitMap.Marks(), machine.mainMemory[..];
      assert machine.mainMemory[..] == Zeroed(mem, Taken(marks, 0, NUM_PHYS_PAGES))
        && marks == MarksAfter(marks, 0, NUM_PHYS_PAGES) by { TakeNone(marks, mem); }
      pageTable := new Pte[numPages](_ => Pte(0, false, false, false, false));
      for i := 0 to numPages
        invariant gPhysPageBitMap.Marks() == MarksAfter(marks, i, NUM_PHYS_PAGES)
        invariant forall j | 0 <= j < i ::
                  pageTable[j] == Pte(Taken(marks, i, NUM_PHYS_PAGES)[j], true, false, false, false)
        invariant machine.mainMemory[..] == Zeroed(mem, Taken(marks, i, NUM_PHYS_PAGES))
      {
        TakeOneMore(marks, i, mem);
        var frame := gPhysPageBitMap.FindAndSet();
        pageTable[i] := Pte(frame, true, false, false, false);
        Zero(frame);
      }
    }

    method Release(id: nat)
      requires Valid() && Sound(View()) && id in tables
      modifies this, gPhysPageBitMap.words
      ensures Valid() && View() == Happen(old(View()), Destroy(id))
    {
      hide Marked, Apart, Exactly;
      ghost var m := View();
      var pageTable := tables[id];
      assert m.tables[id] == pageTable[..];
      for i := 0 to pageTable.Length
        invariant tables == old(tables)
        invariant gPhysPageBitMap.Marks() == m.marks - FramesOf(m.tables[id][..i])
      {
        assert pageTable[..] == m.tables[id];
        gPhysPageBitMap.Clear(pageTable[i].frame);
        FramesOneMore(m.tables[id], i);
      }
      assert m.tables[id][..pageTable.Length] == m.tables[id];
      tables := tables - {id};
      assert View().tables == m.tables - {id};
    }

    /** RestoreState, then one instruction. */
    method RunIn(id: nat) returns (o: Outcome)
      requires Valid() && id in tables && machine.registers[0] == 0 && 0 <= machine.registers[LOAD] < NUM_GP
      modifies machine, machine.registers, machine.mainMemory, tables[id]
      ensures Valid() && View() == Happen(old(View()), User(id, old(machine.registers[..])))
    {
      hide Marked, Step;
      ghost var m := View();
      machine.pageTable := tables[id];
      ghost var c := machine.View();
      assert c == State(old(machine.registers[..]), m.mem, m.tables[id]);
      o := machine.OneInstruction();
      assert View().tables == m.tables[id := Step(c).0.table];
    }
  }

  lemma FramesOneMore(table: seq<Pte>, i: nat)
    requires i < |table|
    ensures FramesOf(table[..i + 1]) == FramesOf(table[..i]) + {table[i].frame}
  {
    forall f: nat ensures f in FramesOf(table[..i + 1]) <==> f in FramesOf(table[..i]) + {table[i].frame} {
      if f in FramesOf(table[..i]) {
        var j :| 0 <= j < i && table[..i][j].frame == f;
        assert table[..i + 1][j].frame == f;
      }
      if f == table[i].frame {
        assert table[..i + 1][i].frame == f;
      }
    }
  }

  // ---------------------------------------------------------------------------------
  // A write by the current space.

  /** Different virtual bytes of one space lie in different places. */
  lemma PlacesApart(m: Memories, id: nat, u: uint32, v: uint32)
    requires Sound(m) && id in m.tables && u != v
    requires Translate(m.tables[id], u, 1, false).At? && Translate(m.tables[id], v, 1, false).At?
    ensures Translate(m.tables[id], u, 1, false).phys != Translate(m.tables[id], v, 1, false).phys
  {
    var t, p, q := m.tables[id], Translate(m.tables[id], u, 1, false).phys, Translate(m.tables[id], v, 1, false).phys;
    OneFrame(t, u, 1, false, p);
    OneFrame(t, v, 1, false, q);
  }

  /** After a write of any size, reading the same address gives the value back as ReadMem
      extends it, and every byte outside the access reads as before. */
  lemma WriteThenRead(m: Memories, id: nat, v: uint32, size: nat, value: int32, u: uint32)
    requires Sound(m) && id in m.tables && size in {1, 2, 4} && Translate(m.tables[id], v, size, true).At?
    ensures var table := Touch(m.tables[id], v, true);
            var m' := m.(tables := m.tables[id := table],
              mem := Put(m.mem, Translate(m.tables[id], v, size, true).phys, size, value));
            && Translate(table, v, size, false).At?
            && Fetch(m'.mem, Translate(table, v, size, false).phys, size) == Narrow(value, size)
            && (!(v <= u < v + size) ==> ReadByte(m', id, u) == ReadByte(m, id, u))
  {
    var before, table := m.tables[id], Touch(m.tables[id], v, true);
    var p := Translate(before, v, size, true).phys;
    SameTranslate(before, table, v, size, false);
    SameTranslate(before, table, u, 1, false);
    PutThenFetch(m.mem, p, size, value);
    hide Put, Fetch, Narrow, Touch;
    if Translate(before, u, 1, false).At? && !(v <= u < v + size) {
      OutsideAccess(m, id, v, size, u);
    }
  }

  lemma OutsideAccess(m: Memories, id: nat, v: uint32, size: nat, u: uint32)
    requires Sound(m) && id in m.tables && size in {1, 2, 4} && !(v <= u < v + size)
    requires Translate(m.tables[id], v, size, true).At? && Translate(m.tables[id], u, 1, false).At?
    ensures var p, q := Translate(m.tables[id], v, size, true).phys, Translate(m.tables[id], u, 1, false).phys;
            !(p <= q < p + size)
  {
    hide Sound, Translate;
    var k := Translate(m.tables[id], u, 1, false).phys - Translate(m.tables[id], v, size, true).phys;
    if 0 <= k < size {
      InAccess(m, id, v, size, k);
      PlacesApart(m, id, u, v + k);
    }
  }

  lemma InAccess(m: Memories, id: nat, v: uint32, size: nat, k: nat)
    requires Sound(m) && id in m.tables && size in {1, 2, 4} && k < size && Translate(m.tables[id], v, size, true).At?
    ensures v + k < TWO32 && Translate(m.tables[id], v + k, 1, false).At?
    ensures Translate(m.tables[id], v + k, 1, false).phys == Translate(m.tables[id], v, size, true).phys + k
  {
    OnePage(v, size);
    var page, offset := v / PAGE_SIZE, v % PAGE_SIZE;
    assert v + k == PAGE_SIZE * page + (offset + k);
    assert (v + k) / PAGE_SIZE == page && (v + k) % PAGE_SIZE == offset + k;
  }
}

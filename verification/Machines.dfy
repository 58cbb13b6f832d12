/** The simulated machine: Machine::ReadMem, WriteMem, DelayedLoad, RaiseException and
    OneInstruction, updating the registers, main memory and page table in place. */
module Machines {
  import opened Options
  import opened MachineWords
  import opened Memory
  import opened Cpu
  import opened Decoding
  import Multiply

  /** Fetch, decode and execute. */
  function Step(c: State): (State, Outcome)
    requires Good(c)
  {
    var v := Unsigned(c.regs[PC]);
    var a := Translate(c.table, v, 4, false);
    if a.Fault? then Trap(c, a.which, c.regs[PC])
    else Exec(c.(table := Touch(c.table, v, false)), Decode(Unsigned(Fetch(c.mem, a.phys, 4))))
  }

  // ---------------------------------------------------------------------------------
  // Whole runs with the pending load landed early at any points, as interrupts do.

  /** The instruction the machine is about to execute, if it can be fetched. */
  function NextInstr(c: State): Option<Instr> {
    var a := Translate(c.table, Unsigned(c.regs[PC]), 4, false);
    if a.Fault? then None else Some(Decode(Unsigned(Fetch(c.mem, a.phys, 4))))
  }

  /** The next instruction has nothing to do with the target of the pending load; with none
      pending it does not merge into R0. */
  predicate Unaware(c: State)
    requires Good(c)
  {
    var i := NextInstr(c);
    i.None? || if c.regs[LOAD] == 0 then !((i.value.op.LWL? || i.value.op.LWR?) && i.value.rt == 0)
               else Independent(i.value, c.regs[LOAD])
  }

  /** Landing the load before the next instruction leaves no trace after it. */
  lemma StepForced(c: State)
    requires Good(c) && Unaware(c)
    ensures Step(ForceLoad(c)) == Step(c)
  {
    hide Translate, Decode, Fetch, Touch, Unsigned, Independent, Exec, Trap;
    var v := Unsigned(c.regs[PC]);
    var a := Translate(c.table, v, 4, false);
    if a.At? {
      ForcedLoadInvisible(c.(table := Touch(c.table, v, false)), NextInstr(c).value);
    } else {
      TrapAgrees(c, a.which, c.regs[PC]);
    }
  }

  /** What the kernel makes of the machine after an instruction or a trap, at each point. */
  type Handler = (nat, State, Outcome) -> State

  ghost predicate KeepsGood(kernel: Handler) {
    forall n: nat, c: State, o: Outcome | Good(c) :: Good(kernel(n, c, o))
  }

  /** The machine after n instructions; before instruction k the load is forced if forced(k). */
  ghost function After(c: State, kernel: Handler, forced: nat -> bool, n: nat): (c': State)
    requires Good(c) && KeepsGood(kernel)
    ensures Good(c')
  {
    if n == 0 then c
    else
      var before := After(c, kernel, forced, n - 1);
      var (c1, o) := Step(if forced(n - 1) then ForceLoad(before) else before);
      StepKeepsGood(if forced(n - 1) then ForceLoad(before) else before);
      kernel(n - 1, c1, o)
  }

  predicate Never(k: nat) {
    false
  }

  lemma StepKeepsGood(c: State)
    requires Good(c)
    ensures Good(Step(c).0)
  {
    var v := Unsigned(c.regs[PC]);
    var a := Translate(c.table, v, 4, false);
    hide Translate, Decode, Fetch, Touch, Unsigned, Exec;
    if a.At? {
      ExecKeepsGood(c.(table := Touch(c.table, v, false)), NextInstr(c).value);
    }
  }

  /** Wherever interrupts force the pending load, a program whose instructions keep off the
      pending targets goes through the same states, whatever the kernel does in between. */
  lemma {:induction false} ForcedAnywhere(c: State, kernel: Handler, forced: nat -> bool, n: nat)
    requires Good(c) && KeepsGood(kernel)
    requires forall k: nat | k < n :: Unaware(After(c, kernel, Never, k))
    ensures After(c, kernel, forced, n) == After(c, kernel, Never, n)
  {
    hide Step, Unaware, Good;
    if n > 0 {
      ForcedAnywhere(c, kernel, forced, n - 1);
      StepForced(After(c, kernel, Never, n - 1));
    }
  }

  // ---------------------------------------------------------------------------------
  // The multiplier.

  /** hi and lo are settled by the 64-bit product. */
  lemma ProductIs(hi: int32, lo: int32, x: int, y: int)
    requires Multiply.Pair(Unsigned(hi), Unsigned(lo)) == (x * y) % TWO64
    ensures Product(x, y) == (hi, lo)
  {
    HalvesOf(hi, lo, (x * y) % TWO64);
  }

  lemma HalvesOf(hi: int32, lo: int32, p: nat)
    requires p == Multiply.Pair(Unsigned(hi), Unsigned(lo))
    ensures Signed(p / TWO32) == hi && Signed(p) == lo
  {
    assert p / TWO32 == Unsigned(hi) && p % TWO32 == Unsigned(lo);
  }

  lemma UnsignedProduct(x: uint32, y: uint32)
    ensures (x * y) % TWO64 == x * y
  {
    MultiplesGrow(x, TWO32 - 1, y);
    var z: int := x * y;
    assert 0 <= z < TWO64;
  }

  lemma WriteTwo(r: Regs, hi: int32, lo: int32)
    ensures Write(r, [(HI, hi), (LO, lo)]) == r[HI := hi][LO := lo]
  {
    assert [(HI, hi), (LO, lo)][1..] == [(LO, lo)];
    assert Write(r[HI := hi], [(LO, lo)]) == r[HI := hi][LO := lo];
  }

  lemma ExecMult(c: State, i: Instr, hi: int32, lo: int32)
    requires Good(c) && WellFormed(i) && (i.op.MULT? || i.op.MULTU?)
    requires Multiply.Pair(Unsigned(hi), Unsigned(lo))
             == if i.op.MULT? then (c.regs[i.rs] * c.regs[i.rt]) % TWO64
               else Unsigned(c.regs[i.rs]) * Unsigned(c.regs[i.rt])
    ensures Exec(c, i) == Finish(c.(regs := c.regs[HI := hi][LO := lo]), 0, 0, Plus(c.regs[NEXT_PC], 4))
  {
    hide Product, Write, Unsigned, Plus, Finish, Multiply.Pair;
    var s, t := c.regs[i.rs], c.regs[i.rt];
    if i.op.MULT? {
      ProductIs(hi, lo, s, t);
    } else {
      UnsignedProduct(Unsigned(s), Unsigned(t));
      ProductIs(hi, lo, Unsigned(s), Unsigned(t));
    }
    WriteTwo(c.regs, hi, lo);
  }

  class Machine {
    const registers: array<int32>
    const mainMemory: array<byte>
    var pageTable: array<Pte>

    ghost predicate Valid()
      reads this
    {
      registers.Length == NUM_REGS && mainMemory.Length == MEMORY_SIZE
    }

    ghost function View(): State
      requires Valid()
      reads this, registers, mainMemory, pageTable
    {
      State(registers[..], mainMemory[..], pageTable[..])
    }

    constructor ()
      ensures Valid() && fresh(registers) && fresh(mainMemory) && fresh(pageTable)
      ensures View() == State(seq(NUM_REGS, i => 0), seq(MEMORY_SIZE, i => 0), []) && Good(View())
    {
      registers := new int32[NUM_REGS](i => 0);
      mainMemory := new byte[MEMORY_SIZE](i => 0);
      pageTable := new Pte[0];
    }

    method DelayedLoad(nextReg: nat, nextValue: int32)
      requires Valid() && 0 <= registers[LOAD] < NUM_GP && nextReg < NUM_GP
      modifies registers
      ensures View() == old(View()).(regs := Cpu.DelayedLoad(old(registers[..]), nextReg, nextValue))
    {
      registers[registers[LOAD]] := registers[LOAD_VALUE];
      registers[LOAD] := nextReg;
      registers[LOAD_VALUE] := nextValue;
      registers[0] := 0;
    }

    method RaiseException(which: Exception, bad: int32) returns (o: Outcome)
      requires Valid() && Good(View())
      modifies registers
      ensures (View(), o) == Trap(old(View()), which, bad)
    {
      registers[BAD_VADDR] := bad;
      DelayedLoad(0, 0);
      o := Trapped(which);
    }

    method TranslateAddress(addr: int32, size: nat, writing: bool) returns (a: Access)
      requires Valid() && size in {1, 2, 4}
      modifies pageTable
      ensures a == Translate(old(pageTable[..]), Unsigned(addr), size, writing)
      ensures pageTable[..] == if a.At? then Touch(old(pageTable[..]), Unsigned(addr), writing) else old(pageTable[..])
    {
      var v := Unsigned(addr);
      if v % size != 0 {
        return Fault(AddressErrorException);
      }
      var vpn, offset := v / PAGE_SIZE, v % PAGE_SIZE;
      if vpn >= pageTable.Length {
        return Fault(AddressErrorException);
      } else if !pageTable[vpn].valid {
        return Fault(PageFaultException);
      }
      if pageTable[vpn].readOnly && writing {
        return Fault(ReadOnlyException);
      }
      var pageFrame := pageTable[vpn].frame;
      if pageFrame >= NUM_PHYS_PAGES {
        return Fault(BusErrorException);
      }
      pageTable[vpn] := pageTable[vpn].(use := true);
      if writing {
        pageTable[vpn] := pageTable[vpn].(dirty := true);
      }
      a := At(pageFrame * PAGE_SIZE + offset);
    }

    method ReadMem(addr: int32, size: nat) returns (o: Outcome, value: int32)
      requires Valid() && Good(View()) && size in {1, 2, 4}
      modifies registers, pageTable
      ensures var a := Translate(old(pageTable[..]), Unsigned(addr), size, false);
              if a.Fault? then (View(), o) == Trap(old(View()), a.which, addr)
              else o.Ran? && View() == old(View()).(table := Touch(old(pageTable[..]), Unsigned(addr), false))
                   && value == Fetch(old(mainMemory[..]), a.phys, size)
    {
      value := 0;
      var a := TranslateAddress(addr, size, false);
      if a.Fault? {
        o := RaiseException(a.which, addr);
        return;
      }
      o := Ran;
      if size == 1 {
        var b: int := mainMemory[a.phys];
        value := if b < 0x80 then b else b - 0x100;
      } else if size == 2 {
        var low: int, high: int := mainMemory[a.phys], mainMemory[a.phys + 1];
        value := low + 0x100 * high;
      } else {
        value := Signed(WordAt(mainMemory[..], a.phys));
      }
    }

    method WriteMem(addr: int32, size: nat, value: int32) returns (o: Outcome)
      requires Valid() && Good(View()) && size in {1, 2, 4}
      modifies registers, pageTable, mainMemory
      ensures var a := Translate(old(pageTable[..]), Unsigned(addr), size, true);
              if a.Fault? then (View(), o) == Trap(old(View()), a.which, addr)
              else o.Ran? && View() == State(old(registers[..]), Put(old(mainMemory[..]), a.phys, size, value),
                                             Touch(old(pageTable[..]), Unsigned(addr), true))
    {
      var a := TranslateAddress(addr, size, true);
      if a.Fault? {
        o := RaiseException(a.which, addr);
        return;
      }
      o := Ran;
      var w := Unsigned(value);
      mainMemory[a.phys] := ByteOf(w, 0);
      if size != 1 {
        mainMemory[a.phys + 1] := ByteOf(w, 1);
      }
      if size == 4 {
        mainMemory[a.phys + 2] := ByteOf(w, 2);
        mainMemory[a.phys + 3] := ByteOf(w, 3);
      }
    }

    /** The end of every instruction that went through. */
    method Advance(nextReg: nat, nextValue: int32, pcAfter: int32) returns (o: Outcome)
      requires Valid() && 0 <= registers[LOAD] < NUM_GP && nextReg < NUM_GP
      modifies registers
      ensures (View(), o) == Finish(old(View()), nextReg, nextValue, pcAfter)
    {
      DelayedLoad(nextReg, nextValue);
      registers[PREV_PC] := registers[PC];
      registers[PC] := registers[NEXT_PC];
      registers[NEXT_PC] := pcAfter;
      o := Ran;
    }

    method SetAll(writes: seq<(nat, int32)>)
      requires Valid() && forall k | 0 <= k < |writes| :: writes[k].0 < PC
      modifies registers
      ensures View() == old(View()).(regs := Write(old(registers[..]), writes))
    {
      for k := 0 to |writes|
        invariant Write(registers[..], writes[k..]) == Write(old(registers[..]), writes)
      {
        ghost var before: Regs := registers[..];
        registers[writes[k].0] := writes[k].1;
        assert registers[..] == before[writes[k].0 := writes[k].1];
        assert writes[k..][1..] == writes[k + 1..];
      }
    }

    /** MULT and MULTU, by shifting and adding. */
    method Multiplied(i: Instr) returns (o: Outcome)
      requires Valid() && Good(View()) && WellFormed(i) && (i.op.MULT? || i.op.MULTU?)
      modifies registers
      ensures (View(), o) == Exec(old(View()), i)
    {
      var hi, lo := Multiply.Mult(registers[i.rs], registers[i.rt], i.op.MULT?);
      var pcAfter := Plus(registers[NEXT_PC], 4);
      ExecMult(View(), i, hi, lo);
      hide Exec, Finish, Unsigned, Plus;
      registers[HI] := hi;
      registers[LO] := lo;
      o := Advance(0, 0, pcAfter);
    }

    method Load(i: Instr, addr: int32) returns (o: Outcome)
      requires Valid() && Good(View()) && WellFormed(i) && IsLoad(i.op)
      modifies registers, pageTable
      ensures (View(), o) == ExecLoad(old(View()), i, addr)
    {
      hide Translate, Fetch, Touch, Loaded, Unsigned, Signed, Plus;
      var v := AccessAddr(i.op, addr);
      WordRoundTrip(v);
      var value;
      o, value := ReadMem(Signed(v), SizeOf(i.op));
      if o.Ran? {
        var prior := if registers[LOAD] == i.rt then registers[LOAD_VALUE] else registers[i.rt];
        o := Advance(i.rt, Loaded(i.op, value, prior, Unsigned(addr) % 4), Plus(registers[NEXT_PC], 4));
      }
    }

    method StoreTo(i: Instr, addr: int32) returns (o: Outcome)
      requires Valid() && Good(View()) && WellFormed(i) && IsMemory(i.op) && !IsLoad(i.op)
      modifies registers, pageTable, mainMemory
      ensures (View(), o) == ExecStore(old(View()), i, addr)
    {
      hide Translate, Fetch, Touch, Stored, Put, Unsigned, Signed, Plus;
      var v, at := AccessAddr(i.op, addr), Unsigned(addr) % 4;
      WordRoundTrip(v);
      var word: int32 := 0;
      if IsPartial(i.op) {
        o, word := ReadMem(Signed(v), 4);
        if o.Trapped? {
          return;
        }
      }
      o := WriteMem(Signed(v), SizeOf(i.op), Stored(i.op, word, registers[i.rt], at));
      if o.Ran? {
        o := Advance(0, 0, Plus(registers[NEXT_PC], 4));
      }
    }

    method Execute(i: Instr) returns (o: Outcome)
      requires Valid() && Good(View()) && WellFormed(i)
      modifies registers, pageTable, mainMemory
      ensures (View(), o) == Exec(old(View()), i)
    {
      if i.op.MULT? || i.op.MULTU? {
        o := Multiplied(i);
        return;
      }
      hide Decide, ExecLoad, ExecStore;
      match Decide(registers[..], i)
      case Compute(writes, pcAfter) =>
        SetAll(writes);
        o := Advance(0, 0, pcAfter);
      case LoadFrom(addr) =>
        o := Load(i, addr);
      case StoreTo(addr) =>
        o := StoreTo(i, addr);
      case Raise(which, bad) =>
        o := RaiseException(which, bad);
    }

    method OneInstruction() returns (o: Outcome)
      requires Valid() && Good(View())
      modifies registers, pageTable, mainMemory
      ensures (View(), o) == Step(old(View())) && Good(View())
    {
      hide Decode, Exec, Translate, Fetch, Touch, Unsigned;
      var raw;
      o, raw := ReadMem(registers[PC], 4);
      if o.Trapped? {
        return;
      }
      var i := Decode(Unsigned(raw));
      ExecKeepsGood(View(), i);
      o := Execute(i);
    }
  }
}

/** What every instruction of the simulated processor does, as the MIPS manual would put it: the
    registers, bytes and program counters after machine/mipssim.cc has executed it, in terms of
    those before. */
module Instructions {
  import opened Options
  import opened MachineWords
  import opened Memory
  import opened Cpu
  import opened Alu
  import opened Decoding
  import opened Unaligned
  import Machines

  // ---------------------------------------------------------------------------------
  // What a finished instruction leaves.

  /** General register k when the instruction puts v in register `dest`: a pending load lands on
      top of it, and R0 stays zero. */
  function Result(r: Regs, dest: nat, v: int32, k: nat): int32
    requires k < NUM_GP
  {
    if k == 0 then 0 else if k == r[LOAD] then r[LOAD_VALUE] else if k == dest then v else r[k]
  }

  /** The program goes on at the old NextPC, and after that at pcAfter. */
  predicate Moves(r: Regs, r': Regs, pcAfter: int32) {
    && r'[PREV_PC] == r[PC] && r'[PC] == r[NEXT_PC] && r'[NEXT_PC] == pcAfter
    && r'[BAD_VADDR] == r[BAD_VADDR]
  }

  /** The instruction after the delay slot. */
  function Following(c: State): int32 {
    Signed(c.regs[NEXT_PC] as int + 4)
  }

  /** The instruction runs and writes v to general register `dest` (R0 for none), hi and lo to
      HI and LO, and nothing else. */
  ghost predicate Leaves(c: State, i: Instr, dest: nat, v: int32, hi: int32, lo: int32, pcAfter: int32)
    requires Good(c) && WellFormed(i)
  {
    var (c', o) := Exec(c, i);
    && o.Ran? && c'.mem == c.mem && c'.table == c.table
    && (forall k: nat | k < NUM_GP :: c'.regs[k] == Result(c.regs, dest, v, k))
    && c'.regs[HI] == hi && c'.regs[LO] == lo
    && c'.regs[LOAD] == 0 && Moves(c.regs, c'.regs, pcAfter)
  }

  /** Only the general register and the program counters change. */
  ghost predicate Computes(c: State, i: Instr, dest: nat, v: int32, pcAfter: int32)
    requires Good(c) && WellFormed(i)
  {
    Leaves(c, i, dest, v, c.regs[HI], c.regs[LO], pcAfter)
  }

  /** The instruction traps: the pending load lands, the bad address is noted, and all else,
      the program counters too, stays. */
  ghost predicate Traps(c: State, i: Instr, which: Exception, bad: int32)
    requires Good(c) && WellFormed(i)
  {
    var (c', o) := Exec(c, i);
    && o == Trapped(which) && c'.mem == c.mem && c'.table == c.table
    && (forall k: nat | k < NUM_GP :: c'.regs[k] == Landed(c.regs, k))
    && c'.regs[HI] == c.regs[HI] && c'.regs[LO] == c.regs[LO]
    && c'.regs[PC] == c.regs[PC] && c'.regs[NEXT_PC] == c.regs[NEXT_PC] && c'.regs[PREV_PC] == c.regs[PREV_PC]
    && c'.regs[BAD_VADDR] == bad && c'.regs[LOAD] == 0
  }

  lemma WritesOne(c: State, i: Instr, dest: nat, v: int32, pcAfter: int32)
    requires Good(c) && WellFormed(i) && dest < NUM_GP && Decide(c.regs, i) == Compute([(dest, v)], pcAfter)
    ensures Computes(c, i, dest, v, pcAfter)
  {
    hide Decide;
    assert Write(c.regs, [(dest, v)]) == c.regs[dest := v];
    hide Write;
  }

  lemma WritesNone(c: State, i: Instr, pcAfter: int32)
    requires Good(c) && WellFormed(i) && Decide(c.regs, i) == Compute([], pcAfter)
    ensures Computes(c, i, 0, 0, pcAfter)
  {
    hide Decide;
  }

  lemma WritesHiLo(c: State, i: Instr, writes: seq<(nat, int32)>, hi: int32, lo: int32, pcAfter: int32)
    requires Good(c) && WellFormed(i) && Decide(c.regs, i) == Compute(writes, pcAfter)
    requires forall k | 0 <= k < |writes| :: writes[k].0 < PC
    requires Write(c.regs, writes) == c.regs[HI := hi][LO := lo]
    ensures Leaves(c, i, 0, 0, hi, lo, pcAfter)
  {
    hide Decide, Write;
    FinishMoves(c.(regs := c.regs[HI := hi][LO := lo]), 0, 0, pcAfter);
    hide Finish;
  }

  lemma Raises(c: State, i: Instr, which: Exception, bad: int32)
    requires Good(c) && WellFormed(i) && Decide(c.regs, i) == Raise(which, bad)
    ensures Traps(c, i, which, bad)
  {
    hide Decide;
  }

  // ---------------------------------------------------------------------------------
  // Branches and jumps.

  predicate IsBranch(op: Op) {
    op.BEQ? || op.BNE? || op.BGEZ? || op.BGTZ? || op.BLEZ? || op.BLTZ?
  }

  /** A branch goes extra words past its delay slot exactly when its condition holds, and on to
      the following instruction when not. */
  lemma Branches(c: State, i: Instr)
    requires Good(c) && WellFormed(i) && IsBranch(i.op)
    ensures var s, t := c.regs[i.rs], c.regs[i.rt];
            var taken := || (i.op.BEQ? && s == t) || (i.op.BNE? && s != t) || (i.op.BGEZ? && s >= 0)
                         || (i.op.BGTZ? && s > 0) || (i.op.BLEZ? && s <= 0) || (i.op.BLTZ? && s < 0);
            Computes(c, i, 0, 0, if taken then Signed(c.regs[NEXT_PC] as int + 4 * i.extra) else Following(c))
  {
    hide Signed, Exec, Leaves;
    var e := Decide(c.regs, i);
    WritesNone(c, i, e.pcAfter);
  }

  /** BGEZAL and BLTZAL leave the return address in R31, taken or not, before they test. */
  lemma LinkingBranches(c: State, i: Instr)
    requires Good(c) && WellFormed(i) && (i.op.BGEZAL? || i.op.BLTZAL?)
    ensures var link := Following(c);
            var tested := if i.rs == R31 then link else c.regs[i.rs];
            Computes(c, i, R31, link,
                     if i.op.BLTZAL? <==> tested < 0 then Signed(c.regs[NEXT_PC] as int + 4 * i.extra) else link)
  {
    hide Signed, Exec, Leaves;
    var e := Decide(c.regs, i);
    WritesOne(c, i, R31, e.writes[0].1, e.pcAfter);
  }

  /** J and JAL go to the word `extra` of the 256-megabyte region that the following instruction is
      in; JAL leaves the return address in R31. */
  lemma Jumps(c: State, i: Instr) returns (target: int32)
    requires Good(c) && WellFormed(i) && (i.op.J? || i.op.JAL?)
    ensures if i.op.JAL? then Computes(c, i, R31, Following(c), target) else Computes(c, i, 0, 0, target)
    ensures Unsigned(target) % 0x1000_0000 == 4 * i.extra
    ensures Unsigned(target) / 0x1000_0000 == Unsigned(Following(c)) / 0x1000_0000
  {
    target := Target(Following(c), i.extra);
    Region(Following(c), i.extra);
    hide Signed, Unsigned, Exec, Leaves, Target;
    if i.op.JAL? {
      WritesOne(c, i, R31, Following(c), target);
    } else {
      WritesNone(c, i, target);
    }
  }

  lemma Region(next: int32, extra: int32)
    requires 0 <= extra < 0x400_0000
    ensures var u := Unsigned(Target(next, extra));
            u % 0x1000_0000 == 4 * extra && u / 0x1000_0000 == Unsigned(next) / 0x1000_0000
  {
    var region := Unsigned(next) / 0x1000_0000;
    Divides(region, 0x1000_0000, 4 * extra);
    WordRoundTrip(region * 0x1000_0000 + 4 * extra);
    hide Unsigned, Signed;
  }

  /** JR and JALR go where register rs says, JALR having put the return address in rd. */
  lemma RegisterJumps(c: State, i: Instr)
    requires Good(c) && WellFormed(i) && (i.op.JR? || i.op.JALR?)
    ensures i.op.JR? ==> Computes(c, i, 0, 0, c.regs[i.rs])
    ensures i.op.JALR? ==>
              Computes(c, i, i.rd, Following(c), if i.rd == i.rs then Following(c) else c.regs[i.rs])
  {
    hide Signed, Exec, Leaves;
    if i.op.JR? {
      WritesNone(c, i, c.regs[i.rs]);
    } else {
      WritesOne(c, i, i.rd, Following(c), if i.rd == i.rs then Following(c) else c.regs[i.rs]);
    }
  }

  // ---------------------------------------------------------------------------------
  // Arithmetic.

  /** ADDU, SUBU and ADDIU wrap around. */
  lemma Wrapping(c: State, i: Instr)
    requires Good(c) && WellFormed(i)
    ensures i.op.ADDU? ==> Computes(c, i, i.rd, Signed(c.regs[i.rs] as int + c.regs[i.rt]), Following(c))
    ensures i.op.SUBU? ==> Computes(c, i, i.rd, Signed(c.regs[i.rs] as int - c.regs[i.rt]), Following(c))
    ensures i.op.ADDIU? ==> Computes(c, i, i.rt, Signed(c.regs[i.rs] as int + i.extra), Following(c))
  {
    hide Signed, Exec, Leaves;
    if i.op.ADDU? || i.op.SUBU? || i.op.ADDIU? {
      var e := Decide(c.regs, i);
      WritesOne(c, i, e.writes[0].0, e.writes[0].1, e.pcAfter);
    }
  }

  /** The sum or difference that ADD, ADDI or SUB asks for. */
  function Exact(r: Regs, i: Instr): int
    requires WellFormed(i)
  {
    var s: int, t: int := r[i.rs], if i.op.ADDI? then i.extra else r[i.rt];
    if i.op.SUB? then s - t else s + t
  }

  lemma CheckedDecides(r: Regs, i: Instr)
    requires WellFormed(i) && (i.op.ADD? || i.op.ADDI? || i.op.SUB?)
    ensures Decide(r, i) ==
            if -TWO31 <= Exact(r, i) < TWO31 then
              Compute([(if i.op.ADDI? then i.rt else i.rd, Exact(r, i))], Plus(r[NEXT_PC], 4))
            else Raise(OverflowException, 0)
  {
    OverflowExact(r, i);
    if -TWO31 <= Exact(r, i) < TWO31 { SmallIsItself(Exact(r, i)); }
    hide Signed;
  }

  /** ADD, ADDI and SUB give the exact sum or difference, or trap when it does not fit in 32 bits. */
  lemma Checked(c: State, i: Instr)
    requires Good(c) && WellFormed(i) && (i.op.ADD? || i.op.ADDI? || i.op.SUB?)
    ensures if -TWO31 <= Exact(c.regs, i) < TWO31 then
              Computes(c, i, if i.op.ADDI? then i.rt else i.rd, Exact(c.regs, i), Following(c))
            else Traps(c, i, OverflowException, 0)
  {
    CheckedDecides(c.regs, i);
    hide Decide, Signed, Exec, Leaves, Traps, Exact;
    if -TWO31 <= Exact(c.regs, i) < TWO31 {
      WritesOne(c, i, if i.op.ADDI? then i.rt else i.rd, Exact(c.regs, i), Following(c));
    } else {
      Raises(c, i, OverflowException, 0);
    }
  }

  /** The set instructions compare as signed or as unsigned numbers; an immediate is sign-extended
      for either. */
  lemma Comparisons(c: State, i: Instr)
    requires Good(c) && WellFormed(i)
    ensures var s, t := c.regs[i.rs], c.regs[i.rt];
            && (i.op.SLT? ==> Computes(c, i, i.rd, if s < t then 1 else 0, Following(c)))
            && (i.op.SLTI? ==> Computes(c, i, i.rt, if s < i.extra then 1 else 0, Following(c)))
            && (i.op.SLTU? ==> Computes(c, i, i.rd, if s % TWO32 < t % TWO32 then 1 else 0, Following(c)))
            && (i.op.SLTIU? ==> Computes(c, i, i.rt, if s % TWO32 < i.extra % TWO32 then 1 else 0, Following(c)))
  {
    hide Signed, Exec, Leaves;
    if i.op.SLT? || i.op.SLTI? || i.op.SLTU? || i.op.SLTIU? {
      var e := Decide(c.regs, i);
      WritesOne(c, i, e.writes[0].0, e.writes[0].1, e.pcAfter);
    }
  }

  /** LUI puts the low half of its immediate in the high half of the register. */
  lemma LoadUpper(c: State, i: Instr) returns (v: int32)
    requires Good(c) && WellFormed(i) && i.op.LUI?
    ensures Computes(c, i, i.rt, v, Following(c))
    ensures Unsigned(v) / 0x1_0000 == i.extra % 0x1_0000 && Unsigned(v) % 0x1_0000 == 0
  {
    v := Signed(i.extra * 0x1_0000);
    UpperHalf(i.extra);
    hide Signed, Unsigned, Exec, Leaves;
    WritesOne(c, i, i.rt, v, Following(c));
  }

  lemma UpperHalf(x: int)
    ensures var u := Unsigned(Signed(x * 0x1_0000));
            u / 0x1_0000 == x % 0x1_0000 && u % 0x1_0000 == 0
  {
    var high, low := x / 0x1_0000, x % 0x1_0000;
    assert x * 0x1_0000 == high * TWO32 + low * 0x1_0000;
    Residue(high, low * 0x1_0000);
    WordRoundTrip(low * 0x1_0000);
    SameResidue(x * 0x1_0000, low * 0x1_0000);
  }

  lemma Residue(q: int, u: uint32)
    ensures (q * TWO32 + u) % TWO32 == u
  {
  }

  lemma SameResidue(x: int, u: uint32)
    requires x % TWO32 == u
    ensures Signed(x) == Signed(u)
  {
  }

  // ---------------------------------------------------------------------------------
  // Shifts and logic.

  /** How far a shift goes: its own field, or the low five bits of rs. */
  function Distance(r: Regs, i: Instr): (n: nat)
    requires WellFormed(i) && (i.op.SLL? || i.op.SRA? || i.op.SRL? || i.op.SLLV? || i.op.SRAV? || i.op.SRLV?)
    ensures n < 32
  {
    if i.op.SLL? || i.op.SRA? || i.op.SRL? then i.extra else r[i.rs] % 32
  }

  lemma LowFive(x: int32)
    ensures Unsigned(x) % 32 == x % 32
  {
  }

  /** SLL and SLLV multiply by a power of two and keep 32 bits. */
  lemma LeftShifts(c: State, i: Instr) returns (v: int32)
    requires Good(c) && WellFormed(i) && (i.op.SLL? || i.op.SLLV?)
    ensures Computes(c, i, i.rd, v, Following(c))
    ensures Unsigned(v) == Unsigned(c.regs[i.rt]) * Power2(Distance(c.regs, i)) % TWO32
  {
    LowFive(c.regs[i.rs]);
    v := ShiftLeft(c.regs[i.rt], Distance(c.regs, i));
    Shifted(c.regs[i.rt], Power2(Distance(c.regs, i)));
    hide Signed, Unsigned, Power2, Exec, Leaves;
    WritesOne(c, i, i.rd, v, Following(c));
  }

  lemma Shifted(x: int32, p: nat)
    ensures Unsigned(Signed(x * p)) == Unsigned(x) * p % TWO32
  {
    var u, k := Unsigned(x), if x < 0 then -1 else 0;
    assert x as int == u + k * TWO32;
    var y: int := u * p;
    Scaled(u, k, p);
    Wraps(y, k * p);
    WordRoundTrip(y % TWO32);
    SameResidue(x * p, y % TWO32);
  }

  lemma Scaled(u: int, k: int, p: int)
    ensures (u + k * TWO32) * p == u * p + k * p * TWO32
  {
  }

  lemma Wraps(y: int, m: int)
    ensures (y + m * TWO32) % TWO32 == y % TWO32
  {
    var q: int, r: uint32 := y / TWO32, y % TWO32;
    assert y + m * TWO32 == (q + m) * TWO32 + r;
    Residue(q + m, r);
  }

  /** The right shifts, SRL and SRLV too, divide by a power of two and round down. */
  lemma RightShifts(c: State, i: Instr) returns (v: int32)
    requires Good(c) && WellFormed(i) && (i.op.SRA? || i.op.SRAV? || i.op.SRL? || i.op.SRLV?)
    ensures Computes(c, i, i.rd, v, Following(c))
    ensures var p := Power2(Distance(c.regs, i)); v * p <= c.regs[i.rt] < v * p + p
  {
    LowFive(c.regs[i.rs]);
    v := ShiftRight(c.regs[i.rt], Distance(c.regs, i));
    RoundedDown(c.regs[i.rt], Power2(Distance(c.regs, i)));
    hide Signed, Unsigned, Power2, Exec, Leaves;
    WritesOne(c, i, i.rd, v, Following(c));
  }

  lemma RoundedDown(x: int32, p: nat)
    requires p > 0
    ensures var v: int := Signed(x / p); v * p <= x < v * p + p
  {
    Floor(x, p);
    var q: int := x / p;
    if p == 1 || x >= 0 {
      assert -TWO31 <= q < TWO31 by {
        if x >= 0 { Truncates(x, p); }
      }
    } else {
      Below(x, p);
    }
    SmallIsItself(q);
  }

  lemma Truncates(x: nat, p: nat)
    requires p > 0
    ensures 0 <= x / p <= x
  {
    MultiplesGrow(1, p, x / p);
  }

  /** AND, OR, XOR, NOR and the immediate forms, bit by bit; an immediate is extended with zeros. */
  lemma Logicals(c: State, i: Instr, k: nat) returns (v: int32)
    requires Good(c) && WellFormed(i) && IsLogic(i.op) && k < 32
    ensures Computes(c, i, if IsImmediate(i.op) then i.rt else i.rd, v, Following(c))
    ensures var s := BitAt(Unsigned(c.regs[i.rs]), k);
            var t := if IsImmediate(i.op) then k < 16 && BitAt(Unsigned(i.extra), k)
                     else BitAt(Unsigned(c.regs[i.rt]), k);
            BitAt(Unsigned(v), k) <==>
              if i.op.AND? || i.op.ANDI? then s && t
              else if i.op.OR? || i.op.ORI? then s || t
              else if i.op.NOR? then !s && !t
              else s != t
  {
    hide Decide, Signed, Unsigned, BitAt, Exec, Leaves;
    v := LogicInstructions(c.regs, i, k);
    WritesOne(c, i, if IsImmediate(i.op) then i.rt else i.rd, v, Following(c));
  }

  // ---------------------------------------------------------------------------------
  // HI and LO.

  /** MFHI and MFLO copy to rd; MTHI and MTLO copy from rs and leave the other one. */
  lemma HiLoMoves(c: State, i: Instr)
    requires Good(c) && WellFormed(i)
    ensures i.op.MFHI? ==> Computes(c, i, i.rd, c.regs[HI], Following(c))
    ensures i.op.MFLO? ==> Computes(c, i, i.rd, c.regs[LO], Following(c))
    ensures i.op.MTHI? ==> Leaves(c, i, 0, 0, c.regs[i.rs], c.regs[LO], Following(c))
    ensures i.op.MTLO? ==> Leaves(c, i, 0, 0, c.regs[HI], c.regs[i.rs], Following(c))
  {
    if i.op.MTHI? || i.op.MTLO? {
      MoveTo(c, i);
    } else if i.op.MFHI? || i.op.MFLO? {
      hide Signed, Exec, Leaves, Write;
      var e := Decide(c.regs, i);
      WritesOne(c, i, i.rd, e.writes[0].1, Following(c));
    }
  }

  lemma MoveTo(c: State, i: Instr)
    requires Good(c) && WellFormed(i) && (i.op.MTHI? || i.op.MTLO?)
    ensures var s := c.regs[i.rs];
            Leaves(c, i, 0, 0, if i.op.MTHI? then s else c.regs[HI], if i.op.MTLO? then s else c.regs[LO], Following(c))
  {
    hide Signed, Exec, Leaves;
    var s, e := c.regs[i.rs], Decide(c.regs, i);
    var hi, lo := if i.op.MTHI? then s else c.regs[HI], if i.op.MTLO? then s else c.regs[LO];
    assert Write(c.regs, e.writes) == c.regs[e.writes[0].0 := s] == c.regs[HI := hi][LO := lo];
    hide Decide, Write;
    WritesHiLo(c, i, e.writes, hi, lo, Following(c));
  }

  lemma LoThenHi(r: Regs, hi: int32, lo: int32)
    ensures Write(r, [(LO, lo), (HI, hi)]) == r[HI := hi][LO := lo]
  {
    assert [(LO, lo), (HI, hi)][1..] == [(HI, hi)];
    assert Write(r[LO := lo], [(HI, hi)]) == r[LO := lo][HI := hi];
  }

  lemma HiThenLo(r: Regs, hi: int32, lo: int32)
    ensures Write(r, [(HI, hi), (LO, lo)]) == r[HI := hi][LO := lo]
  {
    assert [(HI, hi), (LO, lo)][1..] == [(LO, lo)];
    assert Write(r[HI := hi], [(LO, lo)]) == r[HI := hi][LO := lo];
  }

  /** A division by zero clears HI and LO. */
  lemma DivisionByZero(c: State, i: Instr)
    requires Good(c) && WellFormed(i) && (i.op.DIV? || i.op.DIVU?) && c.regs[i.rt] == 0
    ensures Leaves(c, i, 0, 0, 0, 0, Following(c))
  {
    LoThenHi(c.regs, 0, 0);
    assert Unsigned(0) == 0;
    hide Signed, Unsigned, Exec, Leaves, Write, Quotient;
    WritesHiLo(c, i, [(LO, 0), (HI, 0)], 0, 0, Following(c));
  }

  /** DIV: the quotient in LO and the remainder, with the dividend's sign, in HI; all but the one
      quotient that does not fit. */
  lemma SignedDivision(c: State, i: Instr) returns (quotient: int32, remainder: int32)
    requires Good(c) && WellFormed(i) && i.op.DIV? && c.regs[i.rt] != 0
    requires !(c.regs[i.rs] == -TWO31 && c.regs[i.rt] == -1)
    ensures Leaves(c, i, 0, 0, remainder, quotient, Following(c))
    ensures c.regs[i.rs] == quotient * c.regs[i.rt] + remainder
    ensures Abs(remainder) < Abs(c.regs[i.rt]) && (remainder == 0 || (remainder < 0) == (c.regs[i.rs] < 0))
  {
    quotient, remainder := DivisionLaw(c.regs, i);
    LoThenHi(c.regs, remainder, quotient);
    hide Signed, Exec, Leaves, Write, Decide;
    WritesHiLo(c, i, [(LO, quotient), (HI, remainder)], remainder, quotient, Following(c));
  }

  /** DIVU: the same of the unsigned readings. */
  lemma UnsignedDivision(c: State, i: Instr) returns (quotient: int32, remainder: int32)
    requires Good(c) && WellFormed(i) && i.op.DIVU? && c.regs[i.rt] != 0
    ensures Leaves(c, i, 0, 0, remainder, quotient, Following(c))
    ensures var s, t := Unsigned(c.regs[i.rs]), Unsigned(c.regs[i.rt]);
            s == Unsigned(quotient) * t + Unsigned(remainder) && Unsigned(remainder) < t
  {
    var s, t := Unsigned(c.regs[i.rs]), Unsigned(c.regs[i.rt]);
    assert t > 0;
    Truncates(s, t);
    Whole(s, t);
    WordRoundTrip(s / t);
    WordRoundTrip(s % t);
    quotient, remainder := Signed(s / t), Signed(s % t);
    LoThenHi(c.regs, remainder, quotient);
    hide Signed, Unsigned, Exec, Leaves, Write;
    WritesHiLo(c, i, [(LO, quotient), (HI, remainder)], remainder, quotient, Following(c));
  }

  /** MULT and MULTU leave the whole product in HI and LO. */
  lemma Multiplications(c: State, i: Instr) returns (hi: int32, lo: int32)
    requires Good(c) && WellFormed(i) && (i.op.MULT? || i.op.MULTU?)
    ensures Leaves(c, i, 0, 0, hi, lo, Following(c))
    ensures var s: int, t: int := c.regs[i.rs], c.regs[i.rt];
            if i.op.MULT? then hi * TWO32 + Unsigned(lo) == s * t
            else Unsigned(hi) * TWO32 + Unsigned(lo) == (s % TWO32) * (t % TWO32)
  {
    var s: int, t: int := c.regs[i.rs], c.regs[i.rt];
    if i.op.MULT? {
      SignedHalves(s, t);
    } else {
      UnsignedHalves(s % TWO32, t % TWO32);
    }
    var p := if i.op.MULT? then Product(s, t) else Product(Unsigned(s), Unsigned(t));
    hi, lo := p.0, p.1;
    HiThenLo(c.regs, hi, lo);
    hide Signed, Unsigned, Exec, Leaves, Write, Product;
    WritesHiLo(c, i, [(HI, hi), (LO, lo)], hi, lo, Following(c));
  }

  lemma SignedHalves(s: int, t: int)
    requires -TWO31 <= s < TWO31 && -TWO31 <= t < TWO31
    ensures var p := Product(s, t); p.0 * TWO32 + Unsigned(p.1) == s * t
  {
    var x: int := s * t;
    Bounded(s, t);
    Halves(x / TWO32, x % TWO32);
  }

  lemma Bounded(s: int, t: int)
    requires -TWO31 <= s <= TWO31 && -TWO31 <= t <= TWO31
    ensures -(TWO31 * TWO31) <= s * t <= TWO31 * TWO31
  {
    MultiplesGrow(Abs(s), TWO31, Abs(t));
    MultiplesGrow(Abs(t), TWO31, TWO31);
    assert Abs(s) * Abs(t) == Abs(s * t);
  }

  /** The product as high and low word. */
  lemma Halves(q: int, r: uint32)
    requires -TWO31 <= q < TWO31
    ensures var p := (q * TWO32 + r) % TWO64; Signed(p / TWO32) == q && Unsigned(Signed(p)) == r
  {
    var u := Unsigned(q);
    assert (q * TWO32 + r) % TWO64 == u * TWO32 + r;
    Divides(u, TWO32, r);
    SameResidue(u * TWO32 + r, r);
    WordRoundTrip(r);
    SignedUnsigned(q);
  }

  lemma UnsignedHalves(s: uint32, t: uint32)
    ensures var p := Product(s, t); Unsigned(p.0) * TWO32 + Unsigned(p.1) == s * t
  {
    var x: int := s * t;
    MultiplesGrow(s, TWO32 - 1, t);
    assert 0 <= x < TWO64 && x % TWO64 == x;
    WordRoundTrip(x / TWO32);
    WordRoundTrip(x % TWO32);
    SameResidue(x, x % TWO32);
  }

  // ---------------------------------------------------------------------------------
  // Loads and stores.

  /** Only the entry of the page that v is in changes: it is marked used, and dirty by a write. */
  ghost predicate Marked(table: seq<Pte>, table': seq<Pte>, v: uint32, writing: bool) {
    && |table'| == |table|
    && forall k | 0 <= k < |table| ::
         var e := table[k];
         table'[k] == if k == v / PAGE_SIZE then e.(use := true, dirty := e.dirty || writing) else e
  }

  /** The instruction runs; the load before it lands, and `reg` will get `value` after the next one. */
  ghost predicate Pends(c: State, i: Instr, v: uint32, writing: bool, reg: nat, value: int32)
    requires Good(c) && WellFormed(i)
  {
    var (c', o) := Exec(c, i);
    && o.Ran? && Landing(c, c') && Marked(c.table, c'.table, v, writing)
    && c'.regs[LOAD] == reg && c'.regs[LOAD_VALUE] == value && Moves(c.regs, c'.regs, Following(c))
  }

  /** A load that runs changes no memory. */
  ghost predicate Fetches(c: State, i: Instr, value: int32)
    requires Good(c) && WellFormed(i)
  {
    Pends(c, i, Address(c, i), false, i.rt, value) && Exec(c, i).0.mem == c.mem
  }

  /** The bytes of an aligned access lie next to each other. */
  lemma Adjacent(table: seq<Pte>, v: uint32, size: nat, writing: bool, k: nat)
    requires size in {1, 2, 4} && v % size == 0 && k < size && Mapped(table, v, writing)
    ensures Translate(table, v, size, writing) == Translate(table, v, 1, writing) == At(Place(table, v))
    ensures v + k < TWO32 && Mapped(table, v + k, writing) && Place(table, v + k) == Place(table, v) + k
    ensures Place(table, v) + k < MEMORY_SIZE
  {
    SameLine(v, size, k);
  }

  lemma SameLine(v: uint32, size: nat, k: nat)
    requires size in {1, 2, 4} && v % size == 0 && k < size
    ensures v + k < TWO32 && (v + k) / PAGE_SIZE == v / PAGE_SIZE && (v + k) % PAGE_SIZE == v % PAGE_SIZE + k
  {
    OnePage(v, size);
    var page, offset := v / PAGE_SIZE, v % PAGE_SIZE;
    Divides(page, PAGE_SIZE, offset + k);
  }

  /** Aligned or not is all that the size of an access matters to its translation. */
  lemma OnlyAlignment(table: seq<Pte>, v: uint32, size: nat, writing: bool)
    requires size in {1, 2, 4}
    ensures Translate(table, v, size, writing)
            == if v % size != 0 then Fault(AddressErrorException) else Translate(table, v, 1, writing)
  {
  }

  lemma LoadRuns(c: State, i: Instr, size: nat)
    requires Good(c) && WellFormed(i) && IsLoad(i.op) && !IsPartial(i.op) && size == SizeOf(i.op)
    ensures var a := Translate(c.table, Address(c, i), size, false);
            if a.Fault? then Traps(c, i, a.which, Signed(Address(c, i)))
            else Fetches(c, i, Loaded(i.op, Fetch(c.mem, a.phys, size), 0, 0))
  {
    var addr, v := Plus(c.regs[i.rs], i.extra), Address(c, i);
    SignedUnsigned(addr);
    LoadDecides(c, i);
    var a := Translate(c.table, v, size, false);
    hide Translate, Fetch, Signed, Unsigned, Plus, Exec, Decide;
    if Decide(c.regs, i).LoadFrom? {
      if a.At? {
        var value := Loaded(i.op, Fetch(c.mem, a.phys, size), Pending(c.regs, i.rt), v % 4);
        assert value == Loaded(i.op, Fetch(c.mem, a.phys, size), 0, 0);
        hide Loaded;
        FinishMoves(c.(table := Touch(c.table, v, false)), i.rt, value, Following(c));
      }
    } else {
      Raises(c, i, AddressErrorException, addr);
    }
  }

  lemma LoadDecides(c: State, i: Instr)
    requires Good(c) && WellFormed(i) && IsLoad(i.op) && !IsPartial(i.op)
    ensures var v, addr := Address(c, i), Plus(c.regs[i.rs], i.extra);
            Decide(c.regs, i) ==
            if v % SizeOf(i.op) != 0 then Raise(AddressErrorException, addr) else LoadFrom(addr)
  {
    hide Plus, Unsigned;
  }

  lemma FinishMoves(c: State, nextReg: nat, nextValue: int32, pcAfter: int32)
    requires 0 <= c.regs[LOAD] < NUM_GP && nextReg < NUM_GP
    ensures var (c', o) := Finish(c, nextReg, nextValue, pcAfter);
            && o.Ran? && Landing(c, c') && c'.mem == c.mem && c'.table == c.table && Moves(c.regs, c'.regs, pcAfter)
            && c'.regs[LOAD] == nextReg && c'.regs[LOAD_VALUE] == nextValue
  {
  }

  /** LB extends the byte addressed with its sign and LBU with zeros. */
  lemma LoadBytes(c: State, i: Instr)
    requires Good(c) && WellFormed(i) && (i.op.LB? || i.op.LBU?)
    ensures var v := Address(c, i);
            if !Mapped(c.table, v, false) then Traps(c, i, Translate(c.table, v, 1, false).which, Signed(v))
            else
              var b: int := Ram(c, v);
              Fetches(c, i, if i.op.LB? && b >= 0x80 then b - 0x100 else b)
  {
    LoadRuns(c, i, 1);
    hide Exec, Traps, Fetches, Translate, Address, Signed;
    if Mapped(c.table, Address(c, i), false) {
      ByteLoaded(i.op, c.mem, Place(c.table, Address(c, i)));
    }
  }

  lemma ByteLoaded(op: Op, mem: Mem, p: nat)
    requires p < MEMORY_SIZE && (op.LB? || op.LBU?)
    ensures var b: int := mem[p];
            Loaded(op, Fetch(mem, p, 1), 0, 0) == if op.LB? && b >= 0x80 then b - 0x100 else b
  {
    var b: int := mem[p];
    var u := Unsigned(Fetch(mem, p, 1));
    assert u == if b < 0x80 then b else TWO32 - 0x100 + b;
    assert u % 0x100 == b && (u / 0x80 % 2 == 1 <==> b >= 0x80);
  }

  /** LH and LHU the same of two bytes, the low one first, at an even address. */
  lemma LoadHalves(c: State, i: Instr)
    requires Good(c) && WellFormed(i) && (i.op.LH? || i.op.LHU?)
    ensures var v := Address(c, i);
            if v % 2 != 0 then Traps(c, i, AddressErrorException, Signed(v))
            else if !Mapped(c.table, v, false) then Traps(c, i, Translate(c.table, v, 1, false).which, Signed(v))
            else
              && v + 1 < TWO32 && Mapped(c.table, v + 1, false)
              && var h := Ram(c, v) + 0x100 * Ram(c, v + 1) as int;
                 Fetches(c, i, if i.op.LH? && h >= 0x8000 then h - 0x1_0000 else h)
  {
    var v := Address(c, i);
    LoadRuns(c, i, 2);
    OnlyAlignment(c.table, v, 2, false);
    hide Exec, Traps, Fetches, Translate, Address, Signed, Mapped, Place, Ram, Fetch, Loaded;
    if v % 2 == 0 && Mapped(c.table, v, false) {
      AlignedHalf(c, v);
      HalfLoaded(i.op, c.mem, Translate(c.table, v, 2, false).phys);
    }
  }

  lemma AlignedHalf(c: State, v: uint32)
    requires v % 2 == 0 && Mapped(c.table, v, false)
    ensures v + 1 < TWO32 && Mapped(c.table, v + 1, false)
    ensures var a := Translate(c.table, v, 2, false);
            a.At? && Ram(c, v) == c.mem[a.phys] && Ram(c, v + 1) == c.mem[a.phys + 1]
  {
    hide Translate;
    Adjacent(c.table, v, 2, false, 1);
  }

  lemma HalfLoaded(op: Op, mem: Mem, p: nat)
    requires p + 1 < MEMORY_SIZE && (op.LH? || op.LHU?)
    ensures var h := mem[p] + 0x100 * mem[p + 1] as int;
            Loaded(op, Fetch(mem, p, 2), 0, 0) == if op.LH? && h >= 0x8000 then h - 0x1_0000 else h
  {
    var h: int := Fetch(mem, p, 2);
    assert Unsigned(h) == h && 0 <= h < 0x1_0000;
    assert h / 0x8000 % 2 == 1 <==> h >= 0x8000;
  }

  /** LW fetches four bytes, the lowest first, at a multiple of four. */
  lemma LoadWords(c: State, i: Instr)
    requires Good(c) && WellFormed(i) && i.op.LW?
    ensures var v := Address(c, i);
            if v % 4 != 0 then Traps(c, i, AddressErrorException, Signed(v))
            else if !Mapped(c.table, v, false) then Traps(c, i, Translate(c.table, v, 1, false).which, Signed(v))
            else Spans(c.table, v, false) && Fetches(c, i, WordFrom(c, v))
  {
    var v := Address(c, i);
    LoadRuns(c, i, 4);
    OnlyAlignment(c.table, v, 4, false);
    hide Exec, Traps, Fetches, Translate, Address, Signed, Fetch, WordFrom, Spans;
    if v % 4 == 0 && Mapped(c.table, v, false) {
      AlignedWord(c, v);
    }
  }

  lemma AlignedWord(c: State, v: uint32)
    requires v % 4 == 0 && Mapped(c.table, v, false)
    ensures Translate(c.table, v, 4, false) == Translate(c.table, v, 1, false)
    ensures Spans(c.table, v, false) && WordFrom(c, v) == Fetch(c.mem, Translate(c.table, v, 4, false).phys, 4)
  {
    OnlyAlignment(c.table, v, 4, false);
    hide Translate, Signed, Mapped, Place, Ram, Combine;
    AlignedByte(c, v, 0);
    AlignedByte(c, v, 1);
    AlignedByte(c, v, 2);
    AlignedByte(c, v, 3);
  }

  lemma AlignedByte(c: State, v: uint32, k: nat)
    requires v % 4 == 0 && Mapped(c.table, v, false) && k < 4
    ensures Translate(c.table, v, 4, false).At? && v + k < TWO32 && Mapped(c.table, v + k, false)
    ensures Ram(c, v + k) == c.mem[Translate(c.table, v, 4, false).phys + k]
  {
    hide Translate;
    Adjacent(c.table, v, 4, false, k);
  }

  /** LWL and LWR move on like the other loads, and mark the same page. */
  lemma PartialLoadMoves(c: State, i: Instr)
    requires Good(c) && WellFormed(i) && (i.op.LWL? || i.op.LWR?)
    ensures var v := Address(c, i);
            if !Mapped(c.table, v, false) then Traps(c, i, Translate(c.table, v, 1, false).which, Signed(v - v % 4))
            else Fetches(c, i, Loaded(i.op, WordAround(c, v), Pending(c.regs, i.rt), v % 4))
  {
    var addr, v := Plus(c.regs[i.rs], i.extra), Address(c, i);
    hide Exec, ExecLoad, Translate, Fetch, Signed, Unsigned, Plus, Loaded, Pending, Touch, Marked;
    ExecIsLoad(c, i);
    PartialLoadEnds(c, i, addr);
    if Mapped(c.table, v, false) {
      SamePage(v);
      MarkedOnce(c.table, v - v % 4, v);
      var value := Loaded(i.op, WordAround(c, v), Pending(c.regs, i.rt), v % 4);
      FinishMoves(c.(table := Touch(c.table, v - v % 4, false)), i.rt, value, Following(c));
      hide Finish;
    }
  }

  lemma PartialLoadEnds(c: State, i: Instr, addr: int32)
    requires Good(c) && WellFormed(i) && (i.op.LWL? || i.op.LWR?)
    ensures var v := Unsigned(addr);
            if !Mapped(c.table, v, false) then
              ExecLoad(c, i, addr) == Trap(c, Translate(c.table, v, 1, false).which, Signed(v - v % 4))
            else
              && (v - v % 4) / PAGE_SIZE < |c.table|
              && var value := Loaded(i.op, WordAround(c, v), Pending(c.regs, i.rt), v % 4);
                 ExecLoad(c, i, addr)
                   == Finish(c.(table := Touch(c.table, v - v % 4, false)), i.rt, value, Following(c))
  {
    var v := Unsigned(addr);
    hide Translate, Fetch, Signed, Unsigned, Loaded, Pending, Touch, Finish, Trap;
    AroundPlace(c.table, v, false);
    SameFault(c.table, v, false);
  }

  lemma MarkedOnce(table: seq<Pte>, u: uint32, v: uint32)
    requires v / PAGE_SIZE == u / PAGE_SIZE < |table|
    ensures Marked(table, Touch(table, u, false), v, false)
  {
  }

  lemma SameFault(table: seq<Pte>, v: uint32, writing: bool)
    ensures Translate(table, v - v % 4, 4, writing).Fault? ==>
              Translate(table, v - v % 4, 4, writing) == Translate(table, v, 1, writing)
  {
    SamePage(v);
  }

  // Stores.

  /** A store that runs leaves mem'. */
  ghost predicate Writes(c: State, i: Instr, mem': Mem)
    requires Good(c) && WellFormed(i)
  {
    Pends(c, i, Address(c, i), true, 0, 0) && Exec(c, i).0.mem == mem'
  }

  lemma StoreRuns(c: State, i: Instr, size: nat)
    requires Good(c) && WellFormed(i) && (i.op.SB? || i.op.SH? || i.op.SW?) && size == SizeOf(i.op)
    ensures var a := Translate(c.table, Address(c, i), size, true);
            if a.Fault? then Traps(c, i, a.which, Signed(Address(c, i)))
            else Writes(c, i, Put(c.mem, a.phys, size, c.regs[i.rt]))
  {
    var addr, v := Plus(c.regs[i.rs], i.extra), Address(c, i);
    SignedUnsigned(addr);
    hide Translate, Put, Fetch, Signed, Unsigned, Plus;
    assert Decide(c.regs, i) == StoreTo(addr);
    hide Decide;
    var a := Translate(c.table, v, size, true);
    if a.At? {
      FinishMoves(State(c.regs, Put(c.mem, a.phys, size, c.regs[i.rt]), Touch(c.table, v, true)), 0, 0, Following(c));
      hide Finish;
    }
  }

  /** SB writes the low byte of the register. */
  lemma StoreBytes(c: State, i: Instr)
    requires Good(c) && WellFormed(i) && i.op.SB?
    ensures var v := Address(c, i);
            if !Mapped(c.table, v, true) then Traps(c, i, Translate(c.table, v, 1, true).which, Signed(v))
            else Mapped(c.table, v, false) && Writes(c, i, c.mem[Place(c.table, v) := c.regs[i.rt] % 0x100])
  {
    StoreRuns(c, i, 1);
    LowBytes(c.regs[i.rt]);
    hide Exec, Traps, Writes, Address, Signed;
    if Mapped(c.table, Address(c, i), true) {
      Adjacent(c.table, Address(c, i), 1, true, 0);
    }
  }

  lemma LowBytes(x: int32)
    ensures Unsigned(x) % 0x100 == x % 0x100 && Unsigned(x) / 0x100 % 0x100 == x / 0x100 % 0x100
  {
    var k: int := if x < 0 then 1 else 0;
    assert Unsigned(x) == x + 0x100 * (0x100_0000 * k);
    assert Unsigned(x) / 0x100 == x / 0x100 + 0x100 * (0x1_0000 * k);
  }

  /** SH writes the two low bytes, the lower one first, at an even address. */
  lemma StoreHalves(c: State, i: Instr)
    requires Good(c) && WellFormed(i) && i.op.SH?
    ensures var v := Address(c, i);
            if v % 2 != 0 then Traps(c, i, AddressErrorException, Signed(v))
            else if !Mapped(c.table, v, true) then Traps(c, i, Translate(c.table, v, 1, true).which, Signed(v))
            else
              && v + 1 < TWO32 && Mapped(c.table, v, false) && Mapped(c.table, v + 1, false)
              && Writes(c, i, c.mem[Place(c.table, v) := c.regs[i.rt] % 0x100]
                                   [Place(c.table, v + 1) := c.regs[i.rt] / 0x100 % 0x100])
  {
    var v := Address(c, i);
    StoreRuns(c, i, 2);
    OnlyAlignment(c.table, v, 2, true);
    hide Exec, Traps, Writes, Address, Signed, Translate, Put, Mapped, Place;
    if v % 2 == 0 && Mapped(c.table, v, true) {
      HalfStored(c, v, c.regs[i.rt]);
    }
  }

  lemma HalfStored(c: State, v: uint32, reg: int32)
    requires v % 2 == 0 && Mapped(c.table, v, true)
    ensures v + 1 < TWO32 && Mapped(c.table, v, false) && Mapped(c.table, v + 1, false)
    ensures var a := Translate(c.table, v, 2, true);
            && a.At?
            && Put(c.mem, a.phys, 2, reg)
               == c.mem[Place(c.table, v) := reg % 0x100][Place(c.table, v + 1) := reg / 0x100 % 0x100]
  {
    LowBytes(reg);
    Adjacent(c.table, v, 2, true, 1);
    Adjacent(c.table, v, 2, false, 1);
    hide Translate, Unsigned;
  }

  /** SW writes the four bytes, the lowest first, at a multiple of four, and no other byte. */
  lemma StoreWords(c: State, i: Instr)
    requires Good(c) && WellFormed(i) && i.op.SW?
    ensures var v, mem' := Address(c, i), Exec(c, i).0.mem;
            if v % 4 != 0 then Traps(c, i, AddressErrorException, Signed(v))
            else if !Mapped(c.table, v, true) then Traps(c, i, Translate(c.table, v, 1, true).which, Signed(v))
            else
              && Mapped(c.table, v, false) && Place(c.table, v) + 4 <= MEMORY_SIZE && Writes(c, i, mem')
              && Signed(WordAt(mem', Place(c.table, v))) == c.regs[i.rt]
              && forall q | 0 <= q < MEMORY_SIZE && !(0 <= q - Place(c.table, v) < 4) :: mem'[q] == c.mem[q]
  {
    var v := Address(c, i);
    StoreRuns(c, i, 4);
    OnlyAlignment(c.table, v, 4, true);
    if v % 4 == 0 && Mapped(c.table, v, true) {
      Adjacent(c.table, v, 4, true, 3);
      PutThenFetch(c.mem, Place(c.table, v), 4, c.regs[i.rt]);
    }
    hide Exec, Traps, Pends, Address, Signed, Translate, Put, WordAt;
  }

  /** SWL and SWR move on like the other stores, and mark the same page; what they write is
      Unaligned.StoreEffect. */
  lemma PartialStoreMoves(c: State, i: Instr)
    requires Good(c) && WellFormed(i) && (i.op.SWL? || i.op.SWR?) && Mapped(c.table, Address(c, i), true)
    ensures Writes(c, i, Exec(c, i).0.mem)
  {
    var addr, v := Plus(c.regs[i.rs], i.extra), Address(c, i);
    hide Exec, ExecStore, Translate, Fetch, Signed, Unsigned, Plus, Stored, Put, Touch, Marked;
    ExecIsStore(c, i);
    PartialStoreEnds(c, i, addr);
    SamePage(v);
    var u := v - v % 4;
    AroundPlace(c.table, v, true);
    MarkedTwice(c.table, u, v);
    var value := Stored(i.op, WordAround(c, v), c.regs[i.rt], v % 4);
    FinishMoves(State(c.regs, Put(c.mem, Base(c.table, v), 4, value), Touch(Touch(c.table, u, false), u, true)), 0, 0,
                Following(c));
    hide Finish;
  }

  /** Elsewhere they trap as a read of the byte would or, when it can be read, as a write to a
      read-only page, with the address of the aligned word. */
  lemma PartialStoreTraps(c: State, i: Instr)
    requires Good(c) && WellFormed(i) && (i.op.SWL? || i.op.SWR?) && !Mapped(c.table, Address(c, i), true)
    ensures var (v, (c', o)) := (Address(c, i), Exec(c, i));
            var which := if Mapped(c.table, v, false) then ReadOnlyException else Translate(c.table, v, 1, false).which;
            && o == Trapped(which) && c'.mem == c.mem && SameMapping(c.table, c'.table)
            && c'.regs == Trap(c, which, Signed(v - v % 4)).0.regs
  {
    hide Exec, ExecStore, Translate, Signed, Unsigned, Plus, DelayedLoad, Touch;
    ExecIsStore(c, i);
    PartialStoreFails(c, i, Plus(c.regs[i.rs], i.extra));
  }

  lemma PartialStoreFails(c: State, i: Instr, addr: int32)
    requires Good(c) && WellFormed(i) && (i.op.SWL? || i.op.SWR?) && !Mapped(c.table, Unsigned(addr), true)
    ensures var v := Unsigned(addr);
            var u := v - v % 4;
            if !Mapped(c.table, v, false) then
              ExecStore(c, i, addr) == Trap(c, Translate(c.table, v, 1, false).which, Signed(u))
            else
              && u / PAGE_SIZE < |c.table|
              && ExecStore(c, i, addr) == Trap(c.(table := Touch(c.table, u, false)), ReadOnlyException, Signed(u))
  {
    var v := Unsigned(addr);
    var u := v - v % 4;
    hide Translate, Fetch, Signed, Unsigned, Stored, Put, Touch, Finish, Trap;
    SameFault(c.table, v, false);
    AroundPlace(c.table, v, true);
    AroundPlace(c.table, v, false);
    if Mapped(c.table, v, false) {
      SameTranslate(c.table, Touch(c.table, u, false), u, 4, true);
      OnlyReadable(c.table, u);
    }
  }

  lemma OnlyReadable(table: seq<Pte>, v: uint32)
    requires Translate(table, v, 4, false).At? && Translate(table, v, 4, true).Fault?
    ensures Translate(table, v, 4, true) == Fault(ReadOnlyException)
  {
  }

  lemma PartialStoreEnds(c: State, i: Instr, addr: int32)
    requires Good(c) && WellFormed(i) && (i.op.SWL? || i.op.SWR?) && Mapped(c.table, Unsigned(addr), true)
    ensures var v := Unsigned(addr);
            var u := v - v % 4;
            && u / PAGE_SIZE < |c.table| && Mapped(c.table, v, false)
            && var mem := Put(c.mem, Base(c.table, v), 4, Stored(i.op, WordAround(c, v), c.regs[i.rt], v % 4));
               ExecStore(c, i, addr) ==
               Finish(State(c.regs, mem, Touch(Touch(c.table, u, false), u, true)), 0, 0, Following(c))
  {
    var v := Unsigned(addr);
    var u := v - v % 4;
    hide Translate, Fetch, Signed, Unsigned, Stored, Put, Touch, Finish, Trap;
    AroundPlace(c.table, v, true);
    AroundPlace(c.table, v, false);
    SameTranslate(c.table, Touch(c.table, u, false), u, 4, true);
  }

  lemma MarkedTwice(table: seq<Pte>, u: uint32, v: uint32)
    requires v / PAGE_SIZE == u / PAGE_SIZE < |table|
    ensures Marked(table, Touch(Touch(table, u, false), u, true), v, true)
    ensures SameMapping(table, Touch(Touch(table, u, false), u, true))
  {
  }

  // ---------------------------------------------------------------------------------

  /** System calls and the operations that the machine does not have. */
  lemma KernelTraps(c: State, i: Instr)
    requires Good(c) && WellFormed(i)
    ensures i.op.SYSCALL? ==> Traps(c, i, SyscallException, 0)
    ensures i.op.RES? || i.op.UNIMP? ==> Traps(c, i, IllegalInstrException, 0)
  {
    hide Exec, Traps;
    if i.op.SYSCALL? {
      Raises(c, i, SyscallException, 0);
    } else if i.op.RES? || i.op.UNIMP? {
      Raises(c, i, IllegalInstrException, 0);
    }
  }

  /** The machine executes the instruction whose encoding is in the four bytes at PC, or traps
      with PC as the bad address when they cannot be read. */
  lemma Fetched(c: State) returns (i: Instr)
    requires Good(c)
    ensures WellFormed(i)
    ensures var v := Unsigned(c.regs[PC]);
            if v % 4 != 0 then Machines.Step(c) == Trap(c, AddressErrorException, c.regs[PC])
            else if !Mapped(c.table, v, false) then
              Machines.Step(c) == Trap(c, Translate(c.table, v, 1, false).which, c.regs[PC])
            else
              && Spans(c.table, v, false) && v / PAGE_SIZE < |c.table|
              && Machines.Step(c) == Exec(c.(table := Touch(c.table, v, false)), i)
              && (!i.op.RES? && !i.op.UNIMP? ==> Encodable(i) && Assemble(i) == Unsigned(WordFrom(c, v)))
  {
    var v := Unsigned(c.regs[PC]);
    i := Instr(RES, 0, 0, 0, 0);
    OnlyAlignment(c.table, v, 4, false);
    hide Exec, Trap, Translate, Touch, Decode, Assemble, Encodable, Fetch, WordFrom, Spans, Unsigned;
    if v % 4 == 0 && Mapped(c.table, v, false) {
      AlignedWord(c, v);
      i := Decode(Unsigned(WordFrom(c, v)));
      if !i.op.RES? && !i.op.UNIMP? { DecodeThenAssemble(Unsigned(WordFrom(c, v))); }
    }
  }
}

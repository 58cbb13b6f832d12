/** The MIPS processor of machine/mipssim.cc (the SIM_FIX branches): decoding, one instruction,
    and the load delay slot.  A trap ends the step just before the kernel's handler runs. */
module Cpu {
  import opened Options
  import opened MachineWords
  import opened Memory

  const HI := 32
  const LO := 33
  const PC := 34
  const NEXT_PC := 35
  const PREV_PC := 36
  const LOAD := 37
  const LOAD_VALUE := 38
  const BAD_VADDR := 39
  const R31 := 31
  const NUM_GP := 32
  const NUM_REGS := 40

  type Regs = r: seq<int32> | |r| == NUM_REGS witness seq(NUM_REGS, i => 0)
  type Mem = m: seq<byte> | |m| == MEMORY_SIZE witness seq(MEMORY_SIZE, i => 0)

  datatype State = State(regs: Regs, mem: Mem, table: seq<Pte>)

  datatype Outcome = Ran | Trapped(which: Exception)

  datatype Op =
    | ADD | ADDI | ADDIU | ADDU | AND | ANDI | BEQ | BGEZ | BGEZAL | BGTZ | BLEZ | BLTZ | BLTZAL | BNE
    | DIV | DIVU | J | JAL | JALR | JR | LB | LBU | LH | LHU | LUI | LW | LWL | LWR
    | MFHI | MFLO | MTHI | MTLO | MULT | MULTU | NOR | OR | ORI | SB | SH | SLL | SLLV | SLT | SLTI | SLTIU | SLTU
    | SRA | SRAV | SRL | SRLV | SUB | SUBU | SW | SWL | SWR | XOR | XORI | SYSCALL | UNIMP | RES

  datatype Instr = Instr(op: Op, rs: nat, rt: nat, rd: nat, extra: int32)

  predicate WellFormed(i: Instr) {
    && i.rs < NUM_GP && i.rt < NUM_GP && i.rd < NUM_GP
    && (i.op.SLL? || i.op.SRA? || i.op.SRL? ==> 0 <= i.extra < 32)
    && (i.op.J? || i.op.JAL? ==> 0 <= i.extra < 0x400_0000)
  }

  // ---------------------------------------------------------------------------------
  // Arithmetic and logic

  function Bitwise(f: (bool, bool) -> bool, x: nat, y: nat, n: nat): (r: nat)
    ensures r < Power2(n)
  {
    if n == 0 then 0
    else 2 * Bitwise(f, x / 2, y / 2, n - 1) + if f(x % 2 == 1, y % 2 == 1) then 1 else 0
  }

  function AndBit(p: bool, q: bool): bool { p && q }

  function OrBit(p: bool, q: bool): bool { p || q }

  function XorBit(p: bool, q: bool): bool { p != q }

  function NorBit(p: bool, q: bool): bool { !(p || q) }

  function Logic(f: (bool, bool) -> bool, x: int32, y: int32): int32 {
    Power32();
    Signed(Bitwise(f, Unsigned(x), Unsigned(y), 32))
  }

  function Low16(x: int32): int32 {
    Unsigned(x) % 0x1_0000
  }

  function Plus(x: int, y: int): int32 {
    Signed(x + y)
  }

  function Less(x: int, y: int): int32 {
    Signed(x - y)
  }

  function ShiftLeft(x: int32, n: nat): int32 {
    Signed(x * Power2(n))
  }

  /** C's >> on int, which rounds down; the simulator uses it for SRL and SRLV as well. */
  function ShiftRight(x: int32, n: nat): int32 {
    Signed(x / Power2(n))
  }

  /** C's truncating division. */
  function Quotient(x: int, y: int): int
    requires y != 0
  {
    var q := (if x < 0 then -x else x) / (if y < 0 then -y else y);
    if (x < 0) == (y < 0) then q else -q
  }

  /** hi and lo of the 64-bit product. */
  function Product(x: int, y: int): (int32, int32) {
    var p := (x * y) % TWO64;
    (Signed(p / TWO32), Signed(p))
  }

  // ---------------------------------------------------------------------------------
  // What an instruction does, as far as the registers decide it.

  datatype Effect =
    | Compute(writes: seq<(nat, int32)>, pcAfter: int32)
    | LoadFrom(addr: int32)
    | StoreTo(addr: int32)
    | Raise(which: Exception, bad: int32)

  function Set(reg: nat, value: int32, pc: int32): Effect {
    Compute([(reg, value)], pc)
  }

  function Flag(b: bool): int32 {
    if b then 1 else 0
  }

  /** Loads and stores, and their own alignment tests. */
  function DecideMemory(r: Regs, i: Instr): Effect
    requires WellFormed(i) && IsMemory(i.op)
  {
    var addr := Plus(r[i.rs], i.extra);
    if (i.op.LH? || i.op.LHU?) && Unsigned(addr) % 2 != 0 then Raise(AddressErrorException, addr)
    else if i.op.LW? && Unsigned(addr) % 4 != 0 then Raise(AddressErrorException, addr)
    else if IsLoad(i.op) then LoadFrom(addr)
    else StoreTo(addr)
  }

  predicate IsLoad(op: Op) {
    op.LB? || op.LBU? || op.LH? || op.LHU? || op.LW? || op.LWL? || op.LWR?
  }

  predicate IsMemory(op: Op) {
    IsLoad(op) || op.SB? || op.SH? || op.SW? || op.SWL? || op.SWR?
  }

  predicate IsLink(op: Op) {
    op.BGEZAL? || op.BLTZAL? || op.JAL?
  }

  predicate IsJump(op: Op) {
    || IsLink(op) || op.BEQ? || op.BNE? || op.BGEZ? || op.BGTZ? || op.BLEZ? || op.BLTZ?
    || op.J? || op.JALR? || op.JR?
  }

  /** Branches and jumps.  The linking ones store the return address before they test or read
      their operand. */
  function DecideJump(r: Regs, i: Instr): (e: Effect)
    requires WellFormed(i) && IsJump(i.op)
    ensures e.Compute? && |e.writes| <= 1
    ensures |e.writes| == 1 ==> (IsLink(i.op) || i.op.JALR?) && e.writes[0].0 == (if IsLink(i.op) then R31 else i.rd)
  {
    var s, t := r[i.rs], r[i.rt];
    var next := Plus(r[NEXT_PC], 4);
    var branch := Plus(r[NEXT_PC], i.extra * 4);
    var linked := if i.rs == R31 then next else s;
    match i.op
    case BEQ => Compute([], if s == t then branch else next)
    case BNE => Compute([], if s != t then branch else next)
    case BGEZAL => Compute([(R31, next)], if linked >= 0 then branch else next)
    case BGEZ => Compute([], if s >= 0 then branch else next)
    case BGTZ => Compute([], if s > 0 then branch else next)
    case BLEZ => Compute([], if s <= 0 then branch else next)
    case BLTZAL => Compute([(R31, next)], if linked < 0 then branch else next)
    case BLTZ => Compute([], if s < 0 then branch else next)
    case JAL => Compute([(R31, next)], Target(next, i.extra))
    case J => Compute([], Target(next, i.extra))
    case JALR => Compute([(i.rd, next)], if i.rd == i.rs then next else s)
    case JR => Compute([], s)
  }

  /** Multiplication, division and the HI and LO registers. */
  predicate IsHiLo(op: Op) {
    op.DIV? || op.DIVU? || op.MFHI? || op.MFLO? || op.MTHI? || op.MTLO? || op.MULT? || op.MULTU?
  }

  function DecideHiLo(r: Regs, i: Instr): (e: Effect)
    requires WellFormed(i) && IsHiLo(i.op)
    ensures e.Compute? && 1 <= |e.writes| <= 2
    ensures forall k | 0 <= k < |e.writes| ::
              if i.op.MFHI? || i.op.MFLO? then e.writes[k].0 == i.rd else e.writes[k].0 in {HI, LO}
  {
    var s, t := r[i.rs], r[i.rt];
    var next := Plus(r[NEXT_PC], 4);
    match i.op
    case DIV =>
      if t == 0 then Compute([(LO, 0), (HI, 0)], next)
      else Compute([(LO, Signed(Quotient(s, t))), (HI, Signed(s - Quotient(s, t) * t))], next)
    case DIVU =>
      if Unsigned(t) == 0 then Compute([(LO, 0), (HI, 0)], next)
      else Compute([(LO, Signed(Unsigned(s) / Unsigned(t))), (HI, Signed(Unsigned(s) % Unsigned(t)))], next)
    case MFHI => Set(i.rd, r[HI], next)
    case MFLO => Set(i.rd, r[LO], next)
    case MTHI => Set(HI, s, next)
    case MTLO => Set(LO, s, next)
    case MULT => var p := Product(s, t); Compute([(HI, p.0), (LO, p.1)], next)
    case MULTU => var p := Product(Unsigned(s), Unsigned(t)); Compute([(HI, p.0), (LO, p.1)], next)
  }

  predicate DestIsRt(op: Op) {
    op.ADDI? || op.ADDIU? || op.ANDI? || op.LUI? || op.ORI? || op.SLTI? || op.SLTIU? || op.XORI?
  }

  /** The rest: three-register and immediate operations, and the traps. */
  function DecideAlu(r: Regs, i: Instr): (e: Effect)
    requires WellFormed(i) && !IsMemory(i.op) && !IsJump(i.op) && !IsHiLo(i.op)
    ensures e.Raise? || (e.Compute? && |e.writes| == 1 && e.writes[0].0 == (if DestIsRt(i.op) then i.rt else i.rd))
  {
    var s, t := r[i.rs], r[i.rt];
    var next := Plus(r[NEXT_PC], 4);
    match i.op
    case ADD =>
      var sum := Plus(s, t);
      if (s < 0) == (t < 0) && (s < 0) != (sum < 0) then Raise(OverflowException, 0) else Set(i.rd, sum, next)
    case ADDI =>
      var sum := Plus(s, i.extra);
      if (s < 0) == (i.extra < 0) && (i.extra < 0) != (sum < 0) then Raise(OverflowException, 0)
      else Set(i.rt, sum, next)
    case ADDIU => Set(i.rt, Plus(s, i.extra), next)
    case ADDU => Set(i.rd, Plus(s, t), next)
    case AND => Set(i.rd, Logic(AndBit, s, t), next)
    case ANDI => Set(i.rt, Logic(AndBit, s, Low16(i.extra)), next)
    case LUI => Set(i.rt, Signed(i.extra * 0x1_0000), next)
    case NOR => Set(i.rd, Logic(NorBit, s, t), next)
    case OR => Set(i.rd, Logic(OrBit, s, t), next)
    case ORI => Set(i.rt, Logic(OrBit, s, Low16(i.extra)), next)
    case SLL => Set(i.rd, ShiftLeft(t, i.extra), next)
    case SLLV => Set(i.rd, ShiftLeft(t, Unsigned(s) % 32), next)
    case SLT => Set(i.rd, Flag(s < t), next)
    case SLTI => Set(i.rt, Flag(s < i.extra), next)
    case SLTIU => Set(i.rt, Flag(Unsigned(s) < Unsigned(i.extra)), next)
    case SLTU => Set(i.rd, Flag(Unsigned(s) < Unsigned(t)), next)
    case SRA => Set(i.rd, ShiftRight(t, i.extra), next)
    case SRAV => Set(i.rd, ShiftRight(t, Unsigned(s) % 32), next)
    case SRL => Set(i.rd, ShiftRight(t, i.extra), next)
    case SRLV => Set(i.rd, ShiftRight(t, Unsigned(s) % 32), next)
    case SUB =>
      var diff := Less(s, t);
      if (s < 0) != (t < 0) && (s < 0) != (diff < 0) then Raise(OverflowException, 0) else Set(i.rd, diff, next)
    case SUBU => Set(i.rd, Less(s, t), next)
    case XOR => Set(i.rd, Logic(XorBit, s, t), next)
    case XORI => Set(i.rt, Logic(XorBit, s, Low16(i.extra)), next)
    case SYSCALL => Raise(SyscallException, 0)
    case RES => Raise(IllegalInstrException, 0)
    case UNIMP => Raise(IllegalInstrException, 0)
  }

  function Decide(r: Regs, i: Instr): (e: Effect)
    requires WellFormed(i)
    ensures e.Compute? ==> forall k | 0 <= k < |e.writes| :: e.writes[k].0 < PC
    ensures e.LoadFrom? ==> IsLoad(i.op)
    ensures e.StoreTo? ==> IsMemory(i.op) && !IsLoad(i.op)
  {
    if IsMemory(i.op) then DecideMemory(r, i)
    else if IsJump(i.op) then DecideJump(r, i)
    else if IsHiLo(i.op) then DecideHiLo(r, i)
    else DecideAlu(r, i)
  }

  /** The overflow tests of ADD and SUB on sign bits catch exactly the results that do not fit. */
  lemma OverflowExact(r: Regs, i: Instr)
    requires WellFormed(i)
    ensures i.op.ADD? ==> (Decide(r, i).Raise? <==> !(-TWO31 <= r[i.rs] + r[i.rt] < TWO31))
    ensures i.op.ADDI? ==> (Decide(r, i).Raise? <==> !(-TWO31 <= r[i.rs] + i.extra < TWO31))
    ensures i.op.SUB? ==> (Decide(r, i).Raise? <==> !(-TWO31 <= r[i.rs] - r[i.rt] < TWO31))
  {
    SignsTell(r[i.rs], r[i.rt]);
    SignsTell(r[i.rs], i.extra);
    hide Plus, Less, Logic, ShiftLeft, ShiftRight, Signed, Unsigned;
  }

  lemma SignsTell(x: int32, y: int32)
    ensures (x < 0) == (y < 0) && (y < 0) != (Plus(x, y) < 0) <==> !(-TWO31 <= x + y < TWO31)
    ensures (x < 0) != (y < 0) && (x < 0) != (Less(x, y) < 0) <==> !(-TWO31 <= x - y < TWO31)
  {
  }

  /** The target of J and JAL: the low 28 bits are replaced. */
  function Target(next: int32, extra: int32): int32
    requires 0 <= extra < 0x400_0000
  {
    Signed(Unsigned(next) / 0x1000_0000 * 0x1000_0000 + extra * 4)
  }

  // ---------------------------------------------------------------------------------
  // The load delay slot.

  /** DelayedLoad: the pending load lands, the next one is remembered, and R0 is zero again. */
  function DelayedLoad(r: Regs, nextReg: nat, nextValue: int32): Regs
    requires 0 <= r[LOAD] < NUM_REGS && nextReg < NUM_GP
  {
    r[r[LOAD] := r[LOAD_VALUE]][LOAD := nextReg][LOAD_VALUE := nextValue][0 := 0]
  }

  /** Between instructions R0 is zero and the pending target is a general register. */
  predicate Good(c: State) {
    c.regs[0] == 0 && 0 <= c.regs[LOAD] < NUM_GP
  }

  function Trap(c: State, which: Exception, bad: int32): (State, Outcome)
    requires Good(c)
  {
    (c.(regs := DelayedLoad(c.regs[BAD_VADDR := bad], 0, 0)), Trapped(which))
  }

  function Finish(c: State, nextReg: nat, nextValue: int32, pcAfter: int32): (State, Outcome)
    requires 0 <= c.regs[LOAD] < NUM_GP && nextReg < NUM_GP
  {
    var r := DelayedLoad(c.regs, nextReg, nextValue);
    (c.(regs := r[PREV_PC := r[PC]][PC := r[NEXT_PC]][NEXT_PC := pcAfter]), Ran)
  }

  function Write(r: Regs, writes: seq<(nat, int32)>): (r': Regs)
    requires forall k | 0 <= k < |writes| :: writes[k].0 < PC
    ensures forall k | PC <= k < NUM_REGS :: r'[k] == r[k]
    decreases |writes|
  {
    if writes == [] then r else Write(r[writes[0].0 := writes[0].1], writes[1..])
  }

  // ---------------------------------------------------------------------------------
  // Loads and stores.

  function SizeOf(op: Op): nat {
    if op.LB? || op.LBU? || op.SB? then 1 else if op.LH? || op.LHU? || op.SH? then 2 else 4
  }

  /** LWL and LWR, SWL and SWR always access the aligned word around their address. */
  predicate IsPartial(op: Op) {
    op.LWL? || op.LWR? || op.SWL? || op.SWR?
  }

  function AccessAddr(op: Op, addr: int32): uint32 {
    var u := Unsigned(addr);
    if IsPartial(op) then u - u % 4 else u
  }

  /** A shift to the left by whole bytes, in 32 bits. */
  function Up(x: uint32, scale: nat): (r: uint32)
    requires scale in {0x100, 0x1_0000, 0x100_0000}
    ensures r <= TWO32 - scale
  {
    UpIs(x, scale);
    Unsigned(x * scale)
  }

  lemma UpIs(x: uint32, scale: nat)
    requires scale in {0x100, 0x1_0000, 0x100_0000}
    ensures Unsigned(x * scale) <= TWO32 - scale
  {
    if scale == 0x100 {
      Divides(x / 0x100_0000, TWO32, x % 0x100_0000 * 0x100);
    } else if scale == 0x1_0000 {
      Divides(x / 0x1_0000, TWO32, x % 0x1_0000 * 0x1_0000);
    } else {
      Divides(x / 0x100, TWO32, x % 0x100 * 0x100_0000);
    }
  }

  lemma HighPlusLow(p: uint32, v: uint32)
    ensures p / 0x100 * 0x100 + v / 0x100_0000 < TWO32
    ensures p / 0x1_0000 * 0x1_0000 + v / 0x1_0000 < TWO32
    ensures p / 0x100_0000 * 0x100_0000 + v / 0x100 < TWO32
  {
    assert p / 0x100 < 0x100_0000 && v / 0x100_0000 < 0x100;
    assert p / 0x1_0000 < 0x1_0000 && v / 0x1_0000 < 0x1_0000;
    assert p / 0x100_0000 < 0x100 && v / 0x100 < 0x100_0000;
  }

  /** LWL: the bytes from the word's start up to `at` become the high end of the register. */
  function MergeLeft(prior: uint32, value: uint32, at: nat): uint32
    requires at < 4
  {
    if at == 3 then value
    else if at == 2 then prior % 0x100 + Up(value, 0x100)
    else if at == 1 then prior % 0x1_0000 + Up(value, 0x1_0000)
    else prior % 0x100_0000 + Up(value, 0x100_0000)
  }

  /** LWR: the bytes from `at` to the word's end become the low end of the register. */
  function MergeRight(prior: uint32, value: uint32, at: nat): uint32
    requires at < 4
  {
    HighPlusLow(prior, value);
    if at == 3 then prior / 0x100 * 0x100 + value / 0x100_0000
    else if at == 2 then prior / 0x1_0000 * 0x1_0000 + value / 0x1_0000
    else if at == 1 then prior / 0x100_0000 * 0x100_0000 + value / 0x100
    else value
  }

  /** SWL: the high end of the register goes to the bytes up to `at`. */
  function StoreLeft(word: uint32, reg: uint32, at: nat): uint32
    requires at < 4
  {
    HighPlusLow(word, reg);
    if at == 3 then reg
    else if at == 2 then word / 0x100_0000 * 0x100_0000 + reg / 0x100
    else if at == 1 then word / 0x1_0000 * 0x1_0000 + reg / 0x1_0000
    else word / 0x100 * 0x100 + reg / 0x100_0000
  }

  /** SWR: the low end of the register goes to the bytes from `at`. */
  function StoreRight(word: uint32, reg: uint32, at: nat): uint32
    requires at < 4
  {
    if at == 3 then word % 0x100_0000 + Up(reg, 0x100_0000)
    else if at == 2 then word % 0x1_0000 + Up(reg, 0x1_0000)
    else if at == 1 then word % 0x100 + Up(reg, 0x100)
    else reg
  }

  /** The register's value as LWL and LWR see it, with the pending load taken into account. */
  function Pending(r: Regs, rt: nat): int32
    requires rt < NUM_GP
  {
    if r[LOAD] == rt then r[LOAD_VALUE] else r[rt]
  }

  function Loaded(op: Op, value: int32, prior: int32, at: nat): int32
    requires at < 4
  {
    var u := Unsigned(value);
    match op
    case LB => if u / 0x80 % 2 == 1 then Signed(TWO32 - 0x100 + u % 0x100) else u % 0x100
    case LBU => u % 0x100
    case LH => if u / 0x8000 % 2 == 1 then Signed(TWO32 - 0x1_0000 + u % 0x1_0000) else u % 0x1_0000
    case LHU => u % 0x1_0000
    case LWL => Signed(MergeLeft(Unsigned(prior), u, at))
    case LWR => Signed(MergeRight(Unsigned(prior), u, at))
    case _ => value
  }

  function ExecLoad(c: State, i: Instr, addr: int32): (State, Outcome)
    requires Good(c) && WellFormed(i) && IsLoad(i.op)
  {
    var v := AccessAddr(i.op, addr);
    var a := Translate(c.table, v, SizeOf(i.op), false);
    if a.Fault? then Trap(c, a.which, Signed(v))
    else
      var value := Loaded(i.op, Fetch(c.mem, a.phys, SizeOf(i.op)), Pending(c.regs, i.rt), Unsigned(addr) % 4);
      Finish(c.(table := Touch(c.table, v, false)), i.rt, value, Plus(c.regs[NEXT_PC], 4))
  }

  /** The aligned word that SWL or SWR writes back. */
  function Stored(op: Op, word: int32, reg: int32, at: nat): int32
    requires at < 4
  {
    if op.SWL? then Signed(StoreLeft(Unsigned(word), Unsigned(reg), at))
    else if op.SWR? then Signed(StoreRight(Unsigned(word), Unsigned(reg), at))
    else reg
  }

  function ExecStore(c: State, i: Instr, addr: int32): (State, Outcome)
    requires Good(c) && WellFormed(i) && IsMemory(i.op) && !IsLoad(i.op)
  {
    var v := AccessAddr(i.op, addr);
    var size := SizeOf(i.op);
    var read := Translate(c.table, v, size, false);
    if IsPartial(i.op) && read.Fault? then Trap(c, read.which, Signed(v))
    else
      var c1 := if IsPartial(i.op) then c.(table := Touch(c.table, v, false)) else c;
      var a := Translate(c1.table, v, size, true);
      if a.Fault? then Trap(c1, a.which, Signed(v))
      else
        var word := if IsPartial(i.op) then Fetch(c.mem, read.phys, 4) else 0;
        var value := Stored(i.op, word, c.regs[i.rt], Unsigned(addr) % 4);
        Finish(State(c.regs, Put(c.mem, a.phys, size, value), Touch(c1.table, v, true)), 0, 0, Plus(c.regs[NEXT_PC], 4))
  }

  /** One decoded instruction. */
  function Exec(c: State, i: Instr): (State, Outcome)
    requires Good(c) && WellFormed(i)
  {
    match Decide(c.regs, i)
    case Compute(writes, pcAfter) =>
      Finish(c.(regs := Write(c.regs, writes)), 0, 0, pcAfter)
    case LoadFrom(addr) => ExecLoad(c, i, addr)
    case StoreTo(addr) => ExecStore(c, i, addr)
    case Raise(which, bad) => Trap(c, which, bad)
  }

  lemma ExecIsLoad(c: State, i: Instr)
    requires Good(c) && WellFormed(i) && (i.op.LWL? || i.op.LWR?)
    ensures Exec(c, i) == ExecLoad(c, i, Plus(c.regs[i.rs], i.extra))
  {
    hide ExecLoad, ExecStore, Finish, Trap, Write, DecideJump, DecideHiLo, DecideAlu, Plus, Unsigned;
  }

  lemma ExecIsStore(c: State, i: Instr)
    requires Good(c) && WellFormed(i) && (i.op.SWL? || i.op.SWR?)
    ensures Exec(c, i) == ExecStore(c, i, Plus(c.regs[i.rs], i.extra))
  {
    hide ExecLoad, ExecStore, Finish, Trap, Write, DecideJump, DecideHiLo, DecideAlu, Plus, Unsigned;
  }

  lemma {:induction false} ExecKeepsGood(c: State, i: Instr)
    requires Good(c) && WellFormed(i)
    ensures Good(Exec(c, i).0)
  {
    hide Decide, Translate, Loaded, Stored, Put, Fetch;
  }

  // ---------------------------------------------------------------------------------
  // Landing a pending load early, as an interrupt does, cannot be seen by an instruction that
  // has nothing to do with its target.

  function ForceLoad(c: State): State
    requires Good(c)
  {
    c.(regs := DelayedLoad(c.regs, 0, 0))
  }

  /** The instruction takes a value from field rs; from field rt. */
  predicate UsesRs(op: Op) {
    !(op.LUI? || op.SLL? || op.SRA? || op.SRL? || op.MFHI? || op.MFLO? || op.J? || op.JAL? || op.SYSCALL? || op.RES?
      || op.UNIMP?)
  }

  predicate UsesRt(op: Op) {
    || op.ADD? || op.ADDU? || op.AND? || op.BEQ? || op.BNE? || op.DIV? || op.DIVU? || op.MULT? || op.MULTU?
    || op.NOR? || op.OR?
    || op.SB? || op.SH? || op.SW? || op.SWL? || op.SWR? || op.SLL? || op.SLLV? || op.SLT? || op.SLTU?
    || op.SRA? || op.SRAV? || op.SRL? || op.SRLV? || op.SUB? || op.SUBU? || op.XOR?
  }

  predicate DestIsRd(op: Op) {
    || op.ADD? || op.ADDU? || op.AND? || op.JALR? || op.MFHI? || op.MFLO? || op.NOR? || op.OR? || op.SLL? || op.SLLV?
    || op.SLT?
    || op.SLTU? || op.SRA? || op.SRAV? || op.SRL? || op.SRLV? || op.SUB? || op.SUBU? || op.XOR?
  }

  /** The instruction neither takes a value from register r nor sets it at once.  A load may
      have r as its target: it too lands later, and LWL and LWR merge with the pending value. */
  predicate Independent(i: Instr, r: nat) {
    && (UsesRs(i.op) ==> r != i.rs) && (UsesRt(i.op) ==> r != i.rt)
    && (DestIsRd(i.op) ==> r != i.rd) && (DestIsRt(i.op) ==> r != i.rt) && (IsLink(i.op) ==> r != R31)
  }

  lemma DecideAgrees(r: Regs, r': Regs, i: Instr)
    requires WellFormed(i)
    requires UsesRs(i.op) ==> r[i.rs] == r'[i.rs]
    requires UsesRt(i.op) ==> r[i.rt] == r'[i.rt]
    requires r[HI] == r'[HI] && r[LO] == r'[LO] && r[NEXT_PC] == r'[NEXT_PC]
    ensures Decide(r, i) == Decide(r', i)
  {
    if IsMemory(i.op) {
      hide Plus, Unsigned;
    } else if IsJump(i.op) {
      hide Plus, Unsigned, Target;
    } else if IsHiLo(i.op) {
      hide Plus, Unsigned, Signed, Quotient, Product;
    } else {
      AluAgrees(r, r', i);
      hide DecideAlu;
    }
  }

  lemma AluAgrees(r: Regs, r': Regs, i: Instr)
    requires WellFormed(i) && !IsMemory(i.op) && !IsJump(i.op) && !IsHiLo(i.op)
    requires UsesRs(i.op) ==> r[i.rs] == r'[i.rs]
    requires UsesRt(i.op) ==> r[i.rt] == r'[i.rt]
    requires r[NEXT_PC] == r'[NEXT_PC]
    ensures DecideAlu(r, i) == DecideAlu(r', i)
  {
    hide Plus, Less, Unsigned, Signed, Logic, Low16, ShiftLeft, ShiftRight, Flag, Set;
  }

  ghost predicate Writes(writes: seq<(nat, int32)>, k: nat) {
    exists j | 0 <= j < |writes| :: writes[j].0 == k
  }

  lemma {:induction false} WriteAgrees(r: Regs, r': Regs, writes: seq<(nat, int32)>, k: nat)
    requires forall j | 0 <= j < |writes| :: writes[j].0 < PC
    requires k < NUM_REGS
    ensures r[k] == r'[k] ==> Write(r, writes)[k] == Write(r', writes)[k]
    ensures !Writes(writes, k) ==> Write(r, writes)[k] == r[k]
    ensures Writes(writes, k) ==> Write(r, writes)[k] == Write(r', writes)[k]
    decreases |writes|
  {
    if writes != [] {
      var w, rest := writes[0], writes[1..];
      assert writes == [w] + rest;
      WriteAgrees(r[w.0 := w.1], r'[w.0 := w.1], rest, k);
      assert Writes(writes, k) <==> w.0 == k || Writes(rest, k) by {
        if Writes(rest, k) {
          var j :| 0 <= j < |rest| && rest[j].0 == k;
          assert writes[j + 1].0 == k;
        }
      }
    }
  }

  /** The registers that Exec leaves, if the pending load of c and the forced one of c' meet the
      same writes. */
  lemma ComputeAgrees(c: State, writes: seq<(nat, int32)>, pcAfter: int32)
    requires Good(c) && forall j | 0 <= j < |writes| :: writes[j].0 < PC
    requires c.regs[LOAD] != 0 ==> !Writes(writes, c.regs[LOAD])
    ensures var c' := ForceLoad(c);
            Finish(c.(regs := Write(c.regs, writes)), 0, 0, pcAfter) ==
            Finish(c'.(regs := Write(c'.regs, writes)), 0, 0, pcAfter)
  {
    var c' := ForceLoad(c);
    var w, w' := Write(c.regs, writes), Write(c'.regs, writes);
    var a, b := DelayedLoad(w, 0, 0), DelayedLoad(w', 0, 0);
    forall k | 0 <= k < NUM_REGS ensures a[k] == b[k] {
      LandAgrees(c.regs, writes, k);
    }
    assert a == b;
  }

  lemma LandAgrees(r: Regs, writes: seq<(nat, int32)>, k: nat)
    requires 0 <= r[LOAD] < NUM_GP && forall j | 0 <= j < |writes| :: writes[j].0 < PC
    requires r[LOAD] != 0 ==> !Writes(writes, r[LOAD])
    requires k < NUM_REGS
    ensures DelayedLoad(Write(r, writes), 0, 0)[k] == DelayedLoad(Write(DelayedLoad(r, 0, 0), writes), 0, 0)[k]
  {
    var r' := DelayedLoad(r, 0, 0);
    WriteAgrees(r, r', writes, k);
    WriteAgrees(r', r, writes, k);
    hide Write, Writes;
  }

  lemma DecideWrites(r: Regs, i: Instr, k: nat)
    requires WellFormed(i) && Independent(i, k) && k < NUM_GP && Decide(r, i).Compute?
    ensures !Writes(Decide(r, i).writes, k)
  {
  }

  lemma FinishAgrees(c: State, nextReg: nat, nextValue: int32, pcAfter: int32)
    requires Good(c) && nextReg < NUM_GP
    ensures Finish(ForceLoad(c), nextReg, nextValue, pcAfter) == Finish(c, nextReg, nextValue, pcAfter)
  {
    var a, b := Finish(c, nextReg, nextValue, pcAfter), Finish(ForceLoad(c), nextReg, nextValue, pcAfter);
    forall k | 0 <= k < NUM_REGS ensures a.0.regs[k] == b.0.regs[k] {}
    assert a.0.regs == b.0.regs;
  }

  lemma TrapAgrees(c: State, which: Exception, bad: int32)
    requires Good(c)
    ensures Trap(ForceLoad(c), which, bad) == Trap(c, which, bad)
  {
    assert Trap(ForceLoad(c), which, bad).0.regs == Trap(c, which, bad).0.regs;
  }

  lemma LoadAgrees(c: State, i: Instr, addr: int32)
    requires Good(c) && WellFormed(i) && IsLoad(i.op)
    requires c.regs[LOAD] == 0 && (i.op.LWL? || i.op.LWR?) ==> i.rt != 0
    ensures ExecLoad(ForceLoad(c), i, addr) == ExecLoad(c, i, addr)
  {
    var c' := ForceLoad(c);
    var v := AccessAddr(i.op, addr);
    var a := Translate(c.table, v, SizeOf(i.op), false);
    assert i.op.LWL? || i.op.LWR? ==> Pending(c.regs, i.rt) == Pending(c'.regs, i.rt);
    hide Translate, AccessAddr, Fetch, Touch, Unsigned, MergeLeft, MergeRight, Signed, Plus, DelayedLoad, Pending;
    hide Finish, Trap;
    if a.At? {
      var value := Loaded(i.op, Fetch(c.mem, a.phys, SizeOf(i.op)), Pending(c.regs, i.rt), Unsigned(addr) % 4);
      FinishAgrees(c.(table := Touch(c.table, v, false)), i.rt, value, Plus(c.regs[NEXT_PC], 4));
    } else {
      TrapAgrees(c, a.which, Signed(v));
    }
  }

  lemma StoreAgrees(c: State, i: Instr, addr: int32)
    requires Good(c) && WellFormed(i) && IsMemory(i.op) && !IsLoad(i.op)
    requires c.regs[LOAD] == 0 || c.regs[LOAD] != i.rt
    ensures ExecStore(ForceLoad(c), i, addr) == ExecStore(c, i, addr)
  {
    var c' := ForceLoad(c);
    assert c'.regs[i.rt] == c.regs[i.rt] && c'.regs[NEXT_PC] == c.regs[NEXT_PC];
    hide Translate, AccessAddr, Fetch, Touch, Unsigned, Stored, Signed, Plus, Put, DelayedLoad, Finish, Trap;
    forall mem: Mem, table ensures ForceLoad(State(c.regs, mem, table)) == State(c'.regs, mem, table) {}
    forall d: State, pcAfter | Good(d) ensures Finish(ForceLoad(d), 0, 0, pcAfter) == Finish(d, 0, 0, pcAfter) {
      FinishAgrees(d, 0, 0, pcAfter);
    }
    forall d: State, which, bad | Good(d) ensures Trap(ForceLoad(d), which, bad) == Trap(d, which, bad) {
      TrapAgrees(d, which, bad);
    }
  }

  /** Forcing the pending load is invisible: the state after the next instruction, and whether
      it traps, are the same with and without it.  With no load pending (target R0) the one
      exception is a merge into R0. */
  lemma ForcedLoadInvisible(c: State, i: Instr)
    requires Good(c) && WellFormed(i)
    requires if c.regs[LOAD] == 0 then !((i.op.LWL? || i.op.LWR?) && i.rt == 0) else Independent(i, c.regs[LOAD])
    ensures Exec(ForceLoad(c), i) == Exec(c, i)
  {
    var c' := ForceLoad(c);
    DecideAgrees(c.regs, c'.regs, i);
    match Decide(c.regs, i) {
      case Compute(writes, pcAfter) =>
        if c.regs[LOAD] != 0 { DecideWrites(c.regs, i, c.regs[LOAD]); }
        hide Decide, Finish, Write;
        ComputeAgrees(c, writes, pcAfter);
      case LoadFrom(addr) =>
        hide Decide, ExecLoad;
        LoadAgrees(c, i, addr);
      case StoreTo(addr) =>
        assert c.regs[LOAD] != 0 ==> i.rt != c.regs[LOAD];
        hide Decide, ExecStore;
        StoreAgrees(c, i, addr);
      case Raise(which, bad) =>
        hide Decide;
        assert Trap(c, which, bad).0.regs == Trap(c', which, bad).0.regs;
    }
  }

  /** The part of the old register that LWL or LWR keeps. */
  function Kept(op: Op, prior: uint32, at: nat): nat
    requires at < 4
  {
    if op.LWL? then
      if at == 3 then 0 else if at == 2 then prior % 0x100 else if at == 1 then prior % 0x1_0000 else prior % 0x100_0000
    else
      if at == 3 then prior / 0x100 else if at == 2 then prior / 0x1_0000 else if at == 1 then prior / 0x100_0000 else 0
  }

  lemma MergesApart(op: Op, value: int32, prior: int32, at: nat)
    requires at < 4 && (op.LWL? || op.LWR?)
    ensures Loaded(op, value, prior, at) == Loaded(op, value, 0, at) <==> Kept(op, Unsigned(prior), at) == 0
  {
    var p, v := Unsigned(prior), Unsigned(value);
    var x := if op.LWL? then MergeLeft(p, v, at) else MergeRight(p, v, at);
    var y := if op.LWL? then MergeLeft(0, v, at) else MergeRight(0, v, at);
    WordRoundTrip(x);
    WordRoundTrip(y);
    hide Signed;
    assert x == y <==> Kept(op, p, at) == 0;
  }

  /** With no load pending, a merge into R0 shows the stale value of the load value register:
      forcing is invisible exactly when the access faults or the kept part of it is zero. */
  lemma MergeIntoZero(c: State, i: Instr)
    requires Good(c) && WellFormed(i) && c.regs[LOAD] == 0
    requires (i.op.LWL? || i.op.LWR?) && i.rt == 0
    ensures var addr := Plus(c.regs[i.rs], i.extra);
            Exec(ForceLoad(c), i) == Exec(c, i) <==>
              || Translate(c.table, AccessAddr(i.op, addr), 4, false).Fault?
              || Kept(i.op, Unsigned(c.regs[LOAD_VALUE]), Unsigned(addr) % 4) == 0
  {
    StaleZero(c, i.rs);
    hide Exec, Translate, AccessAddr, Unsigned, Signed, Plus, Touch, Fetch, Kept, Loaded, DelayedLoad, Pending;
    hide Finish, Trap;
    ExecIsLoad(c, i);
    ExecIsLoad(ForceLoad(c), i);
    var addr := Plus(c.regs[i.rs], i.extra);
    var v := AccessAddr(i.op, addr);
    var access := Translate(c.table, v, 4, false);
    if access.At? {
      MergeTells(c, i, addr);
      hide ExecLoad;
    } else {
      TrapAgrees(c, access.which, Signed(v));
    }
  }

  lemma MergeTells(c: State, i: Instr, addr: int32)
    requires Good(c) && WellFormed(i) && c.regs[LOAD] == 0 && (i.op.LWL? || i.op.LWR?) && i.rt == 0
    requires Translate(c.table, AccessAddr(i.op, addr), 4, false).At?
    ensures Good(ForceLoad(c))
    ensures ExecLoad(ForceLoad(c), i, addr) == ExecLoad(c, i, addr)
            <==> Kept(i.op, Unsigned(c.regs[LOAD_VALUE]), Unsigned(addr) % 4) == 0
  {
    StaleZero(c, i.rs);
    hide Translate, AccessAddr, Unsigned, Signed, Plus, Touch, Fetch, Kept, Loaded, DelayedLoad, Pending, Finish, Trap;
    var v := AccessAddr(i.op, addr);
    var value, at, pcAfter := Fetch(c.mem, Translate(c.table, v, 4, false).phys, 4), Unsigned(addr) % 4,
      Plus(c.regs[NEXT_PC], 4);
    var touched := c.(table := Touch(c.table, v, false));
    MergesApart(i.op, value, c.regs[LOAD_VALUE], at);
    FinishAgrees(touched, 0, Loaded(i.op, value, 0, at), pcAfter);
    FinishTells(touched, Loaded(i.op, value, c.regs[LOAD_VALUE], at), Loaded(i.op, value, 0, at), pcAfter);
  }

  lemma StaleZero(c: State, k: nat)
    requires Good(c) && c.regs[LOAD] == 0 && k < NUM_GP
    ensures var r := ForceLoad(c).regs;
            Good(ForceLoad(c)) && r[k] == c.regs[k] && r[NEXT_PC] == c.regs[NEXT_PC] && Pending(r, 0) == 0
              && Pending(c.regs, 0) == c.regs[LOAD_VALUE]
  {
  }

  lemma FinishTells(c: State, v: int32, w: int32, pcAfter: int32)
    requires Good(c)
    ensures Finish(c, 0, v, pcAfter) == Finish(c, 0, w, pcAfter) <==> v == w
  {
    assert Finish(c, 0, v, pcAfter).0.regs[LOAD_VALUE] == v;
    assert Finish(c, 0, w, pcAfter).0.regs[LOAD_VALUE] == w;
  }

  /** A machine with one page, a 1 in its first word, and zeros elsewhere. */
  function OneInMemory(): (c: State)
    ensures Good(c)
  {
    State(seq(NUM_REGS, k => 0), seq(MEMORY_SIZE, k => if k == 0 then 1 else 0), [Pte(0, true, false, false, false)])
  }

  /** Such states are reached: after LW of that word into R0, an interrupt changes what LWL into
      R0 leaves pending. */
  lemma ForcedLoadShows()
    ensures var lw, lwl := Instr(LW, 0, 0, 0, 0), Instr(LWL, 0, 0, 0, 0);
            var (c, o) := Exec(OneInMemory(), lw);
            o.Ran? && Good(c) && Exec(ForceLoad(c), lwl) != Exec(c, lwl)
  {
    OneLoaded();
    hide Exec, Translate;
    MergeIntoZero(Exec(OneInMemory(), Instr(LW, 0, 0, 0, 0)).0, Instr(LWL, 0, 0, 0, 0));
    assert Kept(LWL, 1, 0) == 1;
  }

  lemma OneLoaded()
    ensures var (c, o) := Exec(OneInMemory(), Instr(LW, 0, 0, 0, 0));
            && o.Ran? && Good(c) && Translate(c.table, 0, 4, false).At?
            && c.regs[0] == 0 && c.regs[LOAD] == 0 && c.regs[LOAD_VALUE] == 1
  {
    var start := OneInMemory();
    assert Decide(start.regs, Instr(LW, 0, 0, 0, 0)) == LoadFrom(0);
    FirstWord();
    hide Decide, Translate, Fetch, Touch, OneInMemory, Plus;
    SameTranslate(start.table, Touch(start.table, 0, false), 0, 4, false);
  }

  lemma FirstWord()
    ensures var c := OneInMemory();
            Translate(c.table, 0, 4, false) == At(0) && Fetch(c.mem, 0, 4) == 1 && c.regs[LOAD] == 0
  {
  }
}

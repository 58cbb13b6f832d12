/** Instruction::Decode (machine/mipssim.cc) with the tables of machine/mipssim.h. */
module Decoding {
  import opened Options
  import opened MachineWords
  import opened Cpu

  /** An entry of the table for bits 26 to 31. */
  datatype Entry = Plain(op: Op) | Special | Bcond

  predicate IsShift(op: Op) {
    op.SLL? || op.SRA? || op.SRL?
  }

  /** The table for bits 26 to 31; what it does not list is reserved. */
  function TopEntry(code: nat): (e: Entry)
    ensures e.Plain? ==> !IsShift(e.op)
  {
    match code
    case 0 => Special
    case 1 => Bcond
    case 2 => Plain(J)
    case 3 => Plain(JAL)
    case 4 => Plain(BEQ)
    case 5 => Plain(BNE)
    case 6 => Plain(BLEZ)
    case 7 => Plain(BGTZ)
    case 8 => Plain(ADDI)
    case 9 => Plain(ADDIU)
    case 10 => Plain(SLTI)
    case 11 => Plain(SLTIU)
    case 12 => Plain(ANDI)
    case 13 => Plain(ORI)
    case 14 => Plain(XORI)
    case 15 => Plain(LUI)
    case 16 => Plain(UNIMP)
    case 17 => Plain(UNIMP)
    case 18 => Plain(UNIMP)
    case 19 => Plain(UNIMP)
    case 32 => Plain(LB)
    case 33 => Plain(LH)
    case 34 => Plain(LWL)
    case 35 => Plain(LW)
    case 36 => Plain(LBU)
    case 37 => Plain(LHU)
    case 38 => Plain(LWR)
    case 40 => Plain(SB)
    case 41 => Plain(SH)
    case 42 => Plain(SWL)
    case 43 => Plain(SW)
    case 46 => Plain(SWR)
    case 48 => Plain(UNIMP)
    case 49 => Plain(UNIMP)
    case 50 => Plain(UNIMP)
    case 51 => Plain(UNIMP)
    case 56 => Plain(UNIMP)
    case 57 => Plain(UNIMP)
    case 58 => Plain(UNIMP)
    case 59 => Plain(UNIMP)
    case _ => Plain(RES)
  }

  /** The table for the function code in bits 0 to 5 of a SPECIAL instruction. */
  function SpecialOp(code: nat): (e: Op)
  {
    match code
    case 0 => SLL
    case 2 => SRL
    case 3 => SRA
    case 4 => SLLV
    case 6 => SRLV
    case 7 => SRAV
    case 8 => JR
    case 9 => JALR
    case 12 => SYSCALL
    case 13 => UNIMP
    case 16 => MFHI
    case 17 => MTHI
    case 18 => MFLO
    case 19 => MTLO
    case 24 => MULT
    case 25 => MULTU
    case 26 => DIV
    case 27 => DIVU
    case 32 => ADD
    case 33 => ADDU
    case 34 => SUB
    case 35 => SUBU
    case 36 => AND
    case 37 => OR
    case 38 => XOR
    case 39 => NOR
    case 42 => SLT
    case 43 => SLTU
    case _ => RES
  }

  /** The branch that the rt field of a BCOND instruction selects. */
  function Branch(rt: nat): Op {
    if rt == 0 then BLTZ else if rt == 1 then BGEZ else if rt == 16 then BLTZAL else if rt == 17 then BGEZAL else UNIMP
  }

  function SignExtend(x: nat): int32
    requires x < 0x1_0000
  {
    if x < 0x8000 then x else x - 0x1_0000
  }

  function Field(w: uint32, scale: nat, width: nat): (f: nat)
    requires scale > 0 && width > 0
    ensures f < width
  {
    w / scale % width
  }

  function Decode(w: uint32): (i: Instr)
    ensures WellFormed(i)
  {
    var rs, rt, rd := Field(w, 0x20_0000, 32), Field(w, 0x1_0000, 32), Field(w, 0x800, 32);
    match TopEntry(Field(w, 0x400_0000, 64))
    case Special => Instr(SpecialOp(Field(w, 1, 64)), rs, rt, rd, Field(w, 0x40, 32))
    case Bcond => Instr(Branch(rt), rs, rt, rd, SignExtend(Field(w, 1, 0x1_0000)))
    case Plain(op) =>
      if op.J? || op.JAL? then Instr(op, rs, rt, rd, Field(w, 1, 0x400_0000))
      else Instr(op, rs, rt, rd, SignExtend(Field(w, 1, 0x1_0000)))
  }

  // ---------------------------------------------------------------------------------
  // The encodings of the MIPS manual, and what the decoder makes of them.

  function EncodeR(code: nat, rs: nat, rt: nat, rd: nat, shift: nat): uint32
    requires code < 64 && rs < 32 && rt < 32 && rd < 32 && shift < 32
  {
    0x20_0000 * rs + 0x1_0000 * rt + 0x800 * rd + 0x40 * shift + code
  }

  function EncodeI(code: nat, rs: nat, rt: nat, imm: nat): uint32
    requires code < 64 && rs < 32 && rt < 32 && imm < 0x1_0000
  {
    0x400_0000 * code + 0x20_0000 * rs + 0x1_0000 * rt + imm
  }

  function EncodeJ(code: nat, target: nat): uint32
    requires code < 64 && target < 0x400_0000
  {
    0x400_0000 * code + target
  }

  /** Every word is an encoding in each format that its top field allows, so the four lemmas
      below say what the decoder makes of every word. */
  lemma EveryWord(w: uint32)
    ensures var code, rs, rt := Field(w, 0x400_0000, 64), Field(w, 0x20_0000, 32), Field(w, 0x1_0000, 32);
            && w == EncodeI(code, rs, rt, Field(w, 1, 0x1_0000))
            && w == EncodeJ(code, Field(w, 1, 0x400_0000))
            && (code == 0 ==> w == EncodeR(Field(w, 1, 64), rs, rt, Field(w, 0x800, 32), Field(w, 0x40, 32)))
  {
    var six, eleven, sixteen, twenty1, twenty6 := w / 0x40, w / 0x800, w / 0x1_0000, w / 0x20_0000, w / 0x400_0000;
    assert eleven == six / 32 && sixteen == eleven / 32 && twenty1 == sixteen / 32 && twenty6 == twenty1 / 32;
    assert w == 0x40 * six + w % 64 && six == 32 * eleven + six % 32 && eleven == 32 * sixteen + eleven % 32;
  }

  /** Every register-format encoding decodes to its own operation and fields. */
  lemma DecodeR(code: nat, rs: nat, rt: nat, rd: nat, shift: nat)
    requires code < 64 && rs < 32 && rt < 32 && rd < 32 && shift < 32
    ensures Decode(EncodeR(code, rs, rt, rd, shift)) == Instr(SpecialOp(code), rs, rt, rd, shift)
  {
    var w: uint32 := EncodeR(code, rs, rt, rd, shift);
    assert TopEntry(0) == Special;
    hide Field, TopEntry, SpecialOp;
    FieldIs(w, 1, code, 0, shift + 0x20 * rd + 0x400 * rt + 0x8000 * rs, 64);
    FieldIs(w, 0x40, shift, code, rd + 0x20 * rt + 0x400 * rs, 32);
    FieldIs(w, 0x800, rd, 0x40 * shift + code, rt + 0x20 * rs, 32);
    FieldIs(w, 0x1_0000, rt, 0x800 * rd + 0x40 * shift + code, rs, 32);
    FieldIs(w, 0x20_0000, rs, 0x1_0000 * rt + 0x800 * rd + 0x40 * shift + code, 0, 32);
    FieldIs(w, 0x400_0000, 0, w, 0, 64);
  }

  lemma FieldsOfI(code: nat, rs: nat, rt: nat, low: nat)
    requires code < 64 && rs < 32 && rt < 32 && low < 0x1_0000
    ensures var w := EncodeI(code, rs, rt, low);
            && Field(w, 0x400_0000, 64) == code && Field(w, 0x20_0000, 32) == rs
            && Field(w, 0x1_0000, 32) == rt && Field(w, 1, 0x1_0000) == low
  {
    var w: uint32 := EncodeI(code, rs, rt, low);
    hide Field;
    FieldIs(w, 1, low, 0, rt + 0x20 * rs + 0x400 * code, 0x1_0000);
    FieldIs(w, 0x1_0000, rt, low, rs + 0x20 * code, 32);
    FieldIs(w, 0x20_0000, rs, 0x1_0000 * rt + low, code, 32);
    FieldIs(w, 0x400_0000, code, 0x20_0000 * rs + 0x1_0000 * rt + low, 0, 64);
  }

  lemma SignExtends(imm: int)
    requires -0x8000 <= imm < 0x8000
    ensures SignExtend(imm % 0x1_0000) == imm
  {
  }

  /** Every immediate-format encoding decodes to its operation, registers and signed immediate. */
  lemma DecodeI(code: nat, rs: nat, rt: nat, imm: int)
    requires code < 64 && rs < 32 && rt < 32 && -0x8000 <= imm < 0x8000
    requires TopEntry(code).Plain? && !TopEntry(code).op.J? && !TopEntry(code).op.JAL?
    ensures var i := Decode(EncodeI(code, rs, rt, imm % 0x1_0000));
            i.op == TopEntry(code).op && i.rs == rs && i.rt == rt && i.extra == imm
  {
    SignExtends(imm);
    FieldsOfI(code, rs, rt, imm % 0x1_0000);
    hide Field, TopEntry, SignExtend, EncodeI;
  }

  /** J and JAL keep their 26 bits. */
  lemma DecodeJ(code: nat, target: nat)
    requires code < 64 && target < 0x400_0000
    requires TopEntry(code) in {Plain(J), Plain(JAL)}
    ensures var i := Decode(EncodeJ(code, target)); i.op == TopEntry(code).op && i.extra == target
  {
    var w: uint32 := EncodeJ(code, target);
    hide Field, TopEntry;
    FieldIs(w, 1, target, 0, code, 0x400_0000);
    FieldIs(w, 0x400_0000, code, target, 0, 64);
  }

  /** The four conditional branches, and nothing else, are in the rt field of BCOND. */
  lemma DecodeB(rs: nat, rt: nat, imm: int)
    requires rs < 32 && rt < 32 && -0x8000 <= imm < 0x8000
    ensures var i := Decode(EncodeI(1, rs, rt, imm % 0x1_0000));
            i.op == Branch(rt) && i.rs == rs && i.extra == imm
  {
    assert TopEntry(1) == Bcond;
    SignExtends(imm);
    FieldsOfI(1, rs, rt, imm % 0x1_0000);
    hide Field, TopEntry, Branch, SignExtend, EncodeI;
  }

  // ---------------------------------------------------------------------------------
  // An assembler with the operation codes of the MIPS manual, and the decoder as its inverse.

  /** The function code of an operation in the register format. */
  function FunctionCode(op: Op): Option<nat> {
    match op
    case SLL => Some(0x00) case SRL => Some(0x02) case SRA => Some(0x03)
    case SLLV => Some(0x04) case SRLV => Some(0x06) case SRAV => Some(0x07)
    case JR => Some(0x08) case JALR => Some(0x09) case SYSCALL => Some(0x0c)
    case MFHI => Some(0x10) case MTHI => Some(0x11) case MFLO => Some(0x12) case MTLO => Some(0x13)
    case MULT => Some(0x18) case MULTU => Some(0x19) case DIV => Some(0x1a) case DIVU => Some(0x1b)
    case ADD => Some(0x20) case ADDU => Some(0x21) case SUB => Some(0x22) case SUBU => Some(0x23)
    case AND => Some(0x24) case OR => Some(0x25) case XOR => Some(0x26) case NOR => Some(0x27)
    case SLT => Some(0x2a) case SLTU => Some(0x2b)
    case _ => None
  }

  /** The operation code of one in the immediate or the jump format. */
  function OperationCode(op: Op): Option<nat> {
    match op
    case J => Some(0x02) case JAL => Some(0x03)
    case BEQ => Some(0x04) case BNE => Some(0x05) case BLEZ => Some(0x06) case BGTZ => Some(0x07)
    case ADDI => Some(0x08) case ADDIU => Some(0x09) case SLTI => Some(0x0a) case SLTIU => Some(0x0b)
    case ANDI => Some(0x0c) case ORI => Some(0x0d) case XORI => Some(0x0e) case LUI => Some(0x0f)
    case LB => Some(0x20) case LH => Some(0x21) case LWL => Some(0x22) case LW => Some(0x23)
    case LBU => Some(0x24) case LHU => Some(0x25) case LWR => Some(0x26)
    case SB => Some(0x28) case SH => Some(0x29) case SWL => Some(0x2a) case SW => Some(0x2b) case SWR => Some(0x2e)
    case _ => None
  }

  /** What stands in the rt field of a branch that shares operation code 1. */
  function BranchCode(op: Op): Option<nat> {
    match op
    case BLTZ => Some(0) case BGEZ => Some(1) case BLTZAL => Some(16) case BGEZAL => Some(17)
    case _ => None
  }

  /** The fields fit the format of the operation. */
  predicate Encodable(i: Instr) {
    && i.rs < 32 && i.rt < 32 && i.rd < 32
    && if FunctionCode(i.op).Some? then 0 <= i.extra < 32
       else if i.op.J? || i.op.JAL? then 0 <= i.extra < 0x400_0000
       else -0x8000 <= i.extra < 0x8000 && (OperationCode(i.op).Some? || BranchCode(i.op) == Some(i.rt))
  }

  function Assemble(i: Instr): uint32
    requires Encodable(i)
  {
    if FunctionCode(i.op).Some? then EncodeR(FunctionCode(i.op).value, i.rs, i.rt, i.rd, i.extra)
    else if i.op.J? || i.op.JAL? then EncodeJ(OperationCode(i.op).value, i.extra)
    else if OperationCode(i.op).Some? then EncodeI(OperationCode(i.op).value, i.rs, i.rt, i.extra % 0x1_0000)
    else EncodeI(1, i.rs, i.rt, i.extra % 0x1_0000)
  }

  lemma FunctionDecodes(op: Op)
    requires FunctionCode(op).Some?
    ensures FunctionCode(op).value < 64 && SpecialOp(FunctionCode(op).value) == op
  {
  }

  lemma OperationDecodes(op: Op)
    requires OperationCode(op).Some?
    ensures OperationCode(op).value < 64 && TopEntry(OperationCode(op).value) == Plain(op)
  {
  }

  lemma FunctionEncodes(code: nat)
    requires !SpecialOp(code).RES? && !SpecialOp(code).UNIMP?
    ensures FunctionCode(SpecialOp(code)) == Some(code)
  {
    if code < 16 {
    } else if code < 32 {
    }
  }

  lemma OperationEncodes(code: nat)
    requires TopEntry(code).Plain? && !TopEntry(code).op.RES? && !TopEntry(code).op.UNIMP?
    ensures FunctionCode(TopEntry(code).op) == None
    ensures OperationCode(TopEntry(code).op) == Some(code)
  {
  }

  lemma SharedCodes(code: nat)
    ensures TopEntry(code) == Special <==> code == 0
    ensures TopEntry(code) == Bcond <==> code == 1
  {
  }

  /** An operation has one format. */
  lemma OneFormat(op: Op)
    ensures op.J? || op.JAL? ==> OperationCode(op).Some?
    ensures BranchCode(op).Some? ==> FunctionCode(op).None? && OperationCode(op).None?
    ensures BranchCode(op).Some? ==> BranchCode(op).value < 32 && Branch(BranchCode(op).value) == op
  {
  }

  lemma BranchEncodes(rt: nat)
    requires !Branch(rt).UNIMP?
    ensures FunctionCode(Branch(rt)) == None && OperationCode(Branch(rt)) == None
    ensures BranchCode(Branch(rt)) == Some(rt) && !Branch(rt).J? && !Branch(rt).JAL?
  {
  }

  /** What is assembled is decoded: the operation and every field of its format. */
  lemma AssembleThenDecode(i: Instr)
    requires Encodable(i)
    ensures var d := Decode(Assemble(i));
            && d.op == i.op && d.extra == i.extra
            && (!i.op.J? && !i.op.JAL? ==> d.rs == i.rs)
            && (!i.op.J? && !i.op.JAL? && BranchCode(i.op).None? ==> d.rt == i.rt)
            && (FunctionCode(i.op).Some? ==> d.rd == i.rd)
  {
    hide SpecialOp, TopEntry, Branch, Decode, FunctionCode, OperationCode, BranchCode, EncodeR, EncodeI, EncodeJ;
    OneFormat(i.op);
    if FunctionCode(i.op).Some? {
      FunctionDecodes(i.op);
      DecodeR(FunctionCode(i.op).value, i.rs, i.rt, i.rd, i.extra);
    } else if OperationCode(i.op).Some? {
      OperationDecodes(i.op);
      if i.op.J? || i.op.JAL? {
        DecodeJ(OperationCode(i.op).value, i.extra);
      } else {
        DecodeI(OperationCode(i.op).value, i.rs, i.rt, i.extra);
      }
    } else {
      DecodeB(i.rs, i.rt, i.extra);
    }
  }

  /** What is decoded to an operation of the machine assembles to the word it came from. */
  lemma DecodeThenAssemble(w: uint32)
    requires !Decode(w).op.RES? && !Decode(w).op.UNIMP?
    ensures Encodable(Decode(w)) && Assemble(Decode(w)) == w
  {
    hide SpecialOp, TopEntry, Branch, FunctionCode, OperationCode, BranchCode;
    hide EncodeR, EncodeI, EncodeJ, SignExtend, Field;
    var code := Field(w, 0x400_0000, 64);
    EveryWord(w);
    SharedCodes(code);
    SignExtended(Field(w, 1, 0x1_0000));
    if code == 0 {
      FunctionEncodes(Field(w, 1, 64));
    } else if code == 1 {
      BranchEncodes(Field(w, 0x1_0000, 32));
    } else {
      OperationEncodes(code);
    }
  }

  lemma SignExtended(low: nat)
    requires low < 0x1_0000
    ensures -0x8000 <= SignExtend(low) < 0x8000 && SignExtend(low) % 0x1_0000 == low
  {
  }

  /** A field between what lies below and what lies above it. */
  lemma FieldIs(w: uint32, scale: nat, field: nat, below: nat, above: nat, width: nat)
    requires scale > 0 && field < width && below < scale
    requires w == (above * width + field) * scale + below
    ensures Field(w, scale, width) == field
  {
    Divides(above * width + field, scale, below);
    Divides(above, width, field);
  }
}

/** What the arithmetic and logic instructions of the simulated processor mean: the results of
    machine/mipssim.cc against the laws of the operations they are named after. */
module Alu {
  import opened Options
  import opened MachineWords
  import opened Memory
  import opened Cpu

  // ---------------------------------------------------------------------------------
  // Bitwise operations

  predicate BitAt(x: nat, k: nat) {
    x / Power2(k) % 2 == 1
  }

  lemma {:induction false} BitwiseAt(f: (bool, bool) -> bool, x: nat, y: nat, n: nat, k: nat)
    requires k < n
    ensures BitAt(Bitwise(f, x, y, n), k) <==> f(BitAt(x, k), BitAt(y, k))
  {
    var half := Bitwise(f, x / 2, y / 2, n - 1);
    Divides(half, 2, if f(x % 2 == 1, y % 2 == 1) then 1 else 0);
    assert Bitwise(f, x, y, n) / 2 == half;
    if k == 0 {
      assert Power2(0) == 1;
      hide Bitwise;
    } else {
      hide BitAt, Bitwise;
      BitwiseAt(f, x / 2, y / 2, n - 1, k - 1);
      HalveBit(x, k);
      HalveBit(y, k);
      HalveBit(Bitwise(f, x, y, n), k);
    }
  }

  lemma HalveBit(x: nat, k: nat)
    requires k > 0
    ensures BitAt(x, k) == BitAt(x / 2, k - 1)
  {
    var p := Power2(k - 1);
    var q, r := x / 2 / p, x / 2 % p;
    assert x == (q * p + r) * 2 + x % 2;
    assert x == q * (2 * p) + (2 * r + x % 2);
    Divides(q, 2 * p, 2 * r + x % 2);
  }

  /** AND, OR, XOR and NOR act on each of the 32 bits alone. */
  lemma LogicBits(f: (bool, bool) -> bool, x: int32, y: int32, k: nat)
    requires k < 32
    ensures BitAt(Unsigned(Logic(f, x, y)), k) <==> f(BitAt(Unsigned(x), k), BitAt(Unsigned(y), k))
  {
    Power32();
    var r := Bitwise(f, Unsigned(x), Unsigned(y), 32);
    BitwiseAt(f, Unsigned(x), Unsigned(y), 32, k);
    WordRoundTrip(r);
    hide BitAt, Bitwise;
  }

  /** The low bits of a word. */
  lemma {:induction false} LowBits(x: nat, n: nat, k: nat)
    ensures BitAt(x % Power2(n), k) <==> k < n && BitAt(x, k)
    decreases n
  {
    if n == 0 {
      NoBits(k);
    } else {
      HalveLow(x, n);
      if k == 0 {
        assert Power2(0) == 1;
        LowestBit(x, Power2(n - 1));
      } else {
        LowBits(x / 2, n - 1, k - 1);
        HalveBit(x, k);
        HalveBit(x % Power2(n), k);
      }
      hide BitAt, Power2;
    }
  }

  lemma NoBits(k: nat)
    ensures !BitAt(0 % Power2(0), k) && forall x: nat :: x % Power2(0) == 0
  {
    Divides(0, Power2(k), 0);
  }

  lemma LowestBit(x: nat, p: nat)
    requires p > 0
    ensures x % (2 * p) % 2 == x % 2
  {
    var q, r := x / (2 * p), x % (2 * p);
    assert x == 2 * (q * p) + r;
  }

  lemma HalveLow(x: nat, n: nat)
    requires n > 0
    ensures x % Power2(n) / 2 == x / 2 % Power2(n - 1)
  {
    assert Power2(n) == 2 * Power2(n - 1);
    HalveRemainder(x, Power2(n - 1));
    hide Power2;
  }

  lemma HalveRemainder(x: nat, p: nat)
    requires p > 0
    ensures x % (2 * p) / 2 == x / 2 % p
  {
    var y, rest := x / 2, x % 2;
    var q, half := y / p, y % p;
    Whole(y, p);
    TwiceTimes(q, p);
    Divides(q, 2 * p, 2 * half + rest);
    assert x == q * (2 * p) + (2 * half + rest);
  }

  lemma Whole(x: nat, d: nat)
    requires d > 0
    ensures x == x / d * d + x % d
  {
  }

  lemma TwiceTimes(q: nat, p: nat)
    ensures q * (2 * p) == q * p * 2
  {
  }

  predicate IsLogic(op: Op) {
    op.AND? || op.OR? || op.XOR? || op.NOR? || op.ANDI? || op.ORI? || op.XORI?
  }

  predicate IsImmediate(op: Op) {
    op.ANDI? || op.ORI? || op.XORI?
  }

  function BitOf(op: Op): (bool, bool) -> bool
    requires IsLogic(op)
  {
    if op.AND? || op.ANDI? then AndBit else if op.OR? || op.ORI? then OrBit
    else if op.NOR? then NorBit else XorBit
  }

  /** The second operand; an immediate is extended with zeros. */
  function Operand(r: Regs, i: Instr): int32
    requires WellFormed(i)
  {
    if IsImmediate(i.op) then Low16(i.extra) else r[i.rt]
  }

  lemma LogicDecides(r: Regs, i: Instr)
    requires WellFormed(i) && IsLogic(i.op)
    ensures Decide(r, i)
            == Compute([(if IsImmediate(i.op) then i.rt else i.rd, Logic(BitOf(i.op), r[i.rs], Operand(r, i)))],
                                    Plus(r[NEXT_PC], 4))
  {
    hide Logic, Low16, Plus;
  }

  /** What the seven instructions write, bit by bit. */
  lemma LogicInstructions(r: Regs, i: Instr, k: nat) returns (v: int32)
    requires WellFormed(i) && IsLogic(i.op) && k < 32
    ensures Decide(r, i) == Compute([(if IsImmediate(i.op) then i.rt else i.rd, v)], Plus(r[NEXT_PC], 4))
    ensures var s := BitAt(Unsigned(r[i.rs]), k);
            var t := if IsImmediate(i.op) then k < 16 && BitAt(Unsigned(i.extra), k) else BitAt(Unsigned(r[i.rt]), k);
            BitAt(Unsigned(v), k) <==>
              if i.op.AND? || i.op.ANDI? then s && t
              else if i.op.OR? || i.op.ORI? then s || t
              else if i.op.NOR? then !s && !t
              else s != t
  {
    LogicDecides(r, i);
    hide BitAt, Logic, Low16, Unsigned, Plus, Decide;
    LowWord(i.extra, k);
    LogicBits(BitOf(i.op), r[i.rs], Operand(r, i), k);
    v := Logic(BitOf(i.op), r[i.rs], Operand(r, i));
  }

  lemma LowWord(x: int32, k: nat)
    ensures BitAt(Unsigned(Low16(x)), k) <==> k < 16 && BitAt(Unsigned(x), k)
  {
    Power16();
    hide BitAt, Power2;
    LowBits(Unsigned(x), 16, k);
    SmallIsItself(Unsigned(x) % 0x1_0000);
    Divides(0, TWO32, Unsigned(x) % 0x1_0000);
  }

  lemma Power16()
    ensures Power2(16) == 0x1_0000
  {
    assert Power2(8) == 256;
  }

  // ---------------------------------------------------------------------------------
  // Division

  function Abs(x: int): int {
    if x < 0 then -x else x
  }

  lemma SignedTimes(q: int, x: int, y: int)
    ensures (if (x < 0) == (y < 0) then q else -q) * y == if x < 0 then -(q * Abs(y)) else q * Abs(y)
  {
  }

  /** Quotient and remainder of C: the remainder has the dividend's sign. */
  lemma QuotientLaw(x: int, y: int)
    requires y != 0
    ensures var r := x - Quotient(x, y) * y;
            -Abs(y) < r < Abs(y) && (r == 0 || (r < 0) == (x < 0))
    ensures Abs(Quotient(x, y)) == Abs(x) / Abs(y)
  {
    QuotientTimes(x, y);
    Truncated(Abs(x), Abs(y));
    hide Quotient;
  }

  lemma QuotientTimes(x: int, y: int)
    requires y != 0
    ensures var q := Abs(x) / Abs(y);
            Abs(Quotient(x, y)) == q && Quotient(x, y) * y == if x < 0 then -(q * Abs(y)) else q * Abs(y)
  {
    SignedTimes(Abs(x) / Abs(y), x, y);
    NotNegative(Abs(x), Abs(y));
  }

  lemma NotNegative(a: nat, b: nat)
    requires b > 0
    ensures a / b >= 0
  {
  }

  lemma Truncated(a: nat, b: nat)
    requires b > 0
    ensures 0 <= a - a / b * b < b
  {
  }

  /** DIV leaves the quotient in LO and the remainder in HI, unless the quotient does not fit. */
  lemma DivisionLaw(r: Regs, i: Instr) returns (quotient: int32, remainder: int32)
    requires WellFormed(i) && i.op.DIV? && r[i.rt] != 0 && !(r[i.rs] == -TWO31 && r[i.rt] == -1)
    ensures Decide(r, i) == Compute([(LO, quotient), (HI, remainder)], Plus(r[NEXT_PC], 4))
    ensures r[i.rs] == quotient * r[i.rt] + remainder
    ensures Abs(remainder) < Abs(r[i.rt]) && (remainder == 0 || (remainder < 0) == (r[i.rs] < 0))
  {
    hide Signed, Unsigned, Plus;
    var s: int, t: int := r[i.rs], r[i.rt];
    QuotientLaw(s, t);
    QuotientFits(s, t);
    SmallIsItself(Quotient(s, t));
    SmallIsItself(s - Quotient(s, t) * t);
    quotient, remainder := Quotient(s, t), s - Quotient(s, t) * t;
    hide Quotient;
  }

  lemma QuotientFits(s: int, t: int)
    requires -TWO31 <= s < TWO31 && t != 0 && !(s == -TWO31 && t == -1)
    ensures -TWO31 <= Quotient(s, t) < TWO31
  {
    var a, b := Abs(s), Abs(t);
    var q := a / b;
    assert a == q * b + a % b;
    if b == 1 {
      assert q == a;
    } else {
      MultiplesGrow(2, b, q);
    }
  }

  lemma SmallIsItself(x: int)
    requires -TWO31 <= x < TWO31
    ensures Signed(x) == x
  {
  }

  // ---------------------------------------------------------------------------------
  // Shifts

  function ShiftAmount(r: Regs, i: Instr): (n: nat)
    requires WellFormed(i) && (i.op.SRL? || i.op.SRLV?)
    ensures n < 32
  {
    if i.op.SRL? then i.extra else Unsigned(r[i.rs]) % 32
  }

  /** SRL and SRLV shift in the sign: they are logical shifts exactly for a register that is
      not negative, or when nothing is shifted. */
  lemma ShiftIsLogicalIff(r: Regs, i: Instr) returns (v: int32)
    requires WellFormed(i) && (i.op.SRL? || i.op.SRLV?)
    ensures Decide(r, i) == Compute([(i.rd, v)], Plus(r[NEXT_PC], 4))
    ensures v == Signed(Unsigned(r[i.rt]) / Power2(ShiftAmount(r, i))) <==> r[i.rt] >= 0 || ShiftAmount(r, i) == 0
  {
    hide Plus, Unsigned, Signed, Power2, ShiftRight;
    var n := ShiftAmount(r, i);
    v := ShiftRight(r[i.rt], n);
    if n == 0 {
      NoShift(r[i.rt]);
    } else if r[i.rt] >= 0 {
      PositiveShift(r[i.rt], n);
    } else {
      NegativeShift(r[i.rt], n);
    }
  }

  lemma NoShift(x: int32)
    ensures ShiftRight(x, 0) == Signed(Unsigned(x) / Power2(0))
  {
    SmallIsItself(x);
    SignedUnsigned(x);
    hide Signed, Unsigned;
  }

  lemma PositiveShift(x: int32, n: nat)
    requires x >= 0
    ensures ShiftRight(x, n) == Signed(Unsigned(x) / Power2(n))
  {
    hide Signed, Power2;
    assert Unsigned(x) == x;
  }

  lemma NegativeShift(x: int32, n: nat)
    requires x < 0 && n > 0
    ensures ShiftRight(x, n) < 0 <= Signed(Unsigned(x) / Power2(n))
  {
    var p := Power2(n);
    Power2Monotone(1, n);
    assert p >= 2 by { assert Power2(1) == 2; }
    hide Power2, Unsigned, Signed;
    Below(x, p);
    SmallIsItself(x / p);
    Halved(Unsigned(x), p);
    SmallIsItself(Unsigned(x) / p);
  }

  lemma Floor(x: int, p: nat)
    requires p > 0
    ensures x / p * p <= x < x / p * p + p
  {
  }

  lemma Below(x: int, p: nat)
    requires -TWO31 <= x < 0 && p >= 2
    ensures -TWO31 <= x / p < 0
  {
    Floor(x, p);
    Quotients(x, x / p, p);
  }

  lemma Quotients(x: int, q: int, p: nat)
    requires x < 0 && p >= 2 && q * p <= x < q * p + p
    ensures x <= q < 0
  {
    if q < x {
      MultiplesGrow(1, p, -(q + 1));
    }
    if q >= 0 {
      MultiplesGrow(0, p, q);
    }
  }

  lemma Halved(u: uint32, p: nat)
    requires p >= 2
    ensures 0 <= u / p < TWO31
  {
    var h := u / p;
    assert u == h * p + u % p;
    MultiplesGrow(2, p, h);
  }
}

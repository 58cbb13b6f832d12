/** Mult of machine/mipssim.cc: 32 by 32 bits to 64 by shifting and adding. */
module Multiply {
  import opened MachineWords

  /** lo += bLo with the carry into hi, then hi += bHi, in 32-bit arithmetic. */
  function AddPair(hi: uint32, lo: uint32, bHi: uint32, bLo: uint32): (uint32, uint32) {
    var lo' := Unsigned(lo + bLo);
    var hi' := if lo' < bLo then Unsigned(hi + 1) else hi;
    (Unsigned(hi' + bHi), lo')
  }

  function Pair(hi: uint32, lo: uint32): nat {
    hi * TWO32 + lo
  }

  lemma AddPairAdds(hi: uint32, lo: uint32, bHi: uint32, bLo: uint32)
    requires Pair(hi, lo) + Pair(bHi, bLo) < TWO64
    ensures var (hi', lo') := AddPair(hi, lo, bHi, bLo); Pair(hi', lo') == Pair(hi, lo) + Pair(bHi, bLo)
  {
  }

  /** bHi:bLo shifted left by one bit. */
  function ShiftPair(bHi: uint32, bLo: uint32): (uint32, uint32) {
    (Unsigned(bHi * 2) + (if bLo >= TWO31 then 1 else 0), Unsigned(bLo * 2))
  }

  lemma ShiftPairDoubles(bHi: uint32, bLo: uint32)
    requires 2 * Pair(bHi, bLo) < TWO64
    ensures var (h, l) := ShiftPair(bHi, bLo); Pair(h, l) == 2 * Pair(bHi, bLo)
  {
  }

  /** The two's complement of hi:lo: complement both, add one, carry. */
  function NegatePair(hi: uint32, lo: uint32): (uint32, uint32) {
    var lo' := Unsigned(TWO32 - 1 - lo + 1);
    (if lo' == 0 then Unsigned(TWO32 - 1 - hi + 1) else TWO32 - 1 - hi, lo')
  }

  lemma NegatePairNegates(hi: uint32, lo: uint32)
    ensures var (h, l) := NegatePair(hi, lo); Pair(h, l) == (0 - Pair(hi, lo)) % TWO64
  {
  }

  lemma Products(x: nat, y: nat, a: nat, b: nat)
    requires x <= a && y < b
    ensures x * y <= a * y && (a > 0 ==> a * y < a * b)
  {
  }

  /** One round keeps a * p + low fixed while the product of low grows by p * b. */
  lemma Round(a: int, p: nat, low: nat, b: nat)
    ensures (a / 2) * (2 * p) + (if a % 2 == 1 then low + p else low) == a * p + low
    ensures (low + p) * b == low * b + b * p && b * (2 * p) == 2 * (b * p)
  {
    assert a == a / 2 * 2 + a % 2;
    assert a * p == (a / 2 * 2 + a % 2) * p;
    assert (a / 2 * 2 + a % 2) * p == (a / 2) * (2 * p) + (a % 2) * p;
  }

  /** The partial products fit 64 bits. */
  lemma Fits(i: nat, low: nat, b: uint32)
    requires i < 32 && low < Power2(i)
    ensures (low + Power2(i)) * b < TWO64 && (i < 31 ==> b * (2 * Power2(i)) < TWO64)
  {
    Power32();
    Power2Monotone(i, 31);
    Products(low + Power2(i), b, TWO32, TWO32);
    if i < 31 {
      Power2Monotone(i + 1, 31);
      Products(2 * Power2(i), b, TWO32, TWO32);
    }
  }

  lemma Start(b: uint32)
    ensures Power2(0) == 1 && Pair(0, 0) == 0 && Pair(0, b) == b
  {
  }

  lemma Doubles(i: nat)
    ensures Power2(i + 1) == 2 * Power2(i)
  {
  }

  /** The main loop: from |a| and |b| as ints, whose bits are read as unsigned, to the product. */
  method ShiftAdd(a0: int32, b: uint32) returns (hi: uint32, lo: uint32)
    requires a0 != 0
    ensures Pair(hi, lo) == Unsigned(a0) * b
  {
    Start(b);
    hide Power2, AddPair, ShiftPair, Pair;
    var a := a0;
    var bLo: uint32, bHi: uint32 := b, 0;
    lo, hi := 0, 0;
    ghost var p, low := 1, 0;
    var i := 0;
    while i < 32
      invariant i <= 32 && p == Power2(i) && 0 <= low < p
      invariant a0 == a * p + low
      invariant Pair(hi, lo) == low * b
      invariant i < 32 ==> Pair(bHi, bLo) == b * p
    {
      Round(a, p, low, b);
      Fits(i, low, b);
      Doubles(i);
      if a % 2 == 1 {
        AddPairAdds(hi, lo, bHi, bLo);
        var sum := AddPair(hi, lo, bHi, bLo);
        hi, lo := sum.0, sum.1;
        low := low + p;
        if a == 1 {  // (a & 0xfffffffe) == 0
          return;
        }
      }
      if i < 31 {
        ShiftPairDoubles(bHi, bLo);
      }
      var shifted := ShiftPair(bHi, bLo);
      bHi, bLo := shifted.0, shifted.1;
      a := a / 2;
      p := 2 * p;
      i := i + 1;
    }
    Power32();
    assert low == Unsigned(a0);
  }

  /** hi:lo is the exact 64-bit product, in two's complement when the operands are signed. */
  method Mult(a: int32, b: int32, signedArith: bool) returns (hi: int32, lo: int32)
    ensures Pair(Unsigned(hi), Unsigned(lo)) ==
            if signedArith then (a * b) % TWO64 else Unsigned(a) * Unsigned(b)
  {
    if a == 0 || b == 0 {
      return 0, 0;
    }
    UnsignedMagnitude(a);
    UnsignedMagnitude(b);
    Magnitudes(a, b);
    hide Pair, Signed, Unsigned, Minus, NegatePair, Magnitude;
    var negative := false;
    var x, y := a, b;
    if signedArith {
      if x < 0 {
        negative := !negative;
        x := Minus(x);
      }
      if y < 0 {
        negative := !negative;
        y := Minus(y);
      }
    }
    NonZero(a);
    var h, l := ShiftAdd(x, Unsigned(y));
    if negative {
      NegatePairNegates(h, l);
      var negated := NegatePair(h, l);
      h, l := negated.0, negated.1;
    }
    hi, lo := Signed(h), Signed(l);
    WordRoundTrip(h);
    WordRoundTrip(l);
  }

  lemma NonZero(a: int32)
    requires a != 0
    ensures Minus(a) != 0
  {
  }

  /** Signed operands are multiplied as magnitudes. */
  lemma Magnitudes(a: int32, b: int32)
    ensures var p := Magnitude(a) * Magnitude(b);
            (if (a < 0) != (b < 0) then (0 - p) % TWO64 else p) == (a * b) % TWO64
  {
    var x: int, y: int := Magnitude(a), Magnitude(b);
    Products(x, y, TWO32, TWO32);
    assert if (a < 0) != (b < 0) then a * b == 0 - x * y else a * b == x * y;
  }
}

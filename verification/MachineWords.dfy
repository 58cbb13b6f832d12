/** 32-bit machine words: the signed and unsigned readings of C's int, and powers of two. */
module MachineWords {
  const TWO31 := 0x8000_0000
  const TWO32 := 0x1_0000_0000
  const TWO64 := 0x1_0000_0000_0000_0000

  type byte = x: int | 0 <= x < 0x100
  type uint16 = x: int | 0 <= x < 0x1_0000
  type uint32 = x: int | 0 <= x < TWO32
  type int32 = x: int | -TWO31 <= x < TWO31

  /** Conversion to int: the value with the same low 32 bits. */
  function Signed(x: int): (r: int32)
    ensures (r - x) % TWO32 == 0
  {
    var u := x % TWO32;
    if u < TWO31 then u else u - TWO32
  }

  /** Conversion to unsigned. */
  function Unsigned(x: int): (r: uint32)
    ensures (r - x) % TWO32 == 0
  {
    x % TWO32
  }

  /** -x in 32 bits: -2^31 is its own negation. */
  function Minus(x: int32): (r: int32)
    ensures Unsigned(r) == Unsigned(TWO32 - Unsigned(x))
  {
    var v: int := x;
    Signed(0 - v)
  }

  function Magnitude(x: int32): nat {
    var v: int := x;
    if v < 0 then 0 - v else v
  }

  /** Negating a negative int leaves its magnitude in the unsigned reading. */
  lemma UnsignedMagnitude(x: int32)
    ensures Unsigned(if x < 0 then Minus(x) else x) == Magnitude(x)
  {
  }

  /** Converting to int and back loses nothing. */
  lemma WordRoundTrip(u: uint32)
    ensures Unsigned(Signed(u)) == u
  {
  }

  function Power2(n: nat): (p: nat)
    ensures p > 0
  {
    if n == 0 then 1 else 2 * Power2(n - 1)
  }

  lemma Power32()
    ensures Power2(32) == TWO32 && Power2(31) == TWO31
  {
    assert Power2(8) == 256;
    assert Power2(16) == 65536;
    assert Power2(24) == 0x100_0000;
  }

  lemma {:induction false} Power2Monotone(m: nat, n: nat)
    requires m <= n
    ensures Power2(m) <= Power2(n)
  {
    if m < n { Power2Monotone(m, n - 1); }
  }

  function Zeros(n: nat): (z: seq<byte>)
    ensures |z| == n && forall i | 0 <= i < n :: z[i] == 0
  {
    seq(n, i => 0)
  }

  // ---------------------------------------------------------------------------------
  // Words as bytes, least significant first.

  function Combine(b0: int, b1: int, b2: int, b3: int): int {
    b0 + 0x100 * b1 + 0x1_0000 * b2 + 0x100_0000 * b3
  }

  /** Byte k of a word. */
  function ByteOf(w: uint32, k: nat): byte
    requires k < 4
  {
    if k == 0 then w % 0x100 else if k == 1 then w / 0x100 % 0x100
    else if k == 2 then w / 0x1_0000 % 0x100 else w / 0x100_0000
  }

  /** The word in four consecutive bytes of memory. */
  function WordAt(b: seq<byte>, at: nat): uint32
    requires at + 4 <= |b|
  {
    Combine(b[at], b[at + 1], b[at + 2], b[at + 3])
  }

  lemma BytesOfWord(w: uint32)
    ensures Combine(ByteOf(w, 0), ByteOf(w, 1), ByteOf(w, 2), ByteOf(w, 3)) == w
  {
    assert w / 0x1_0000 == w / 0x100 / 0x100 && w / 0x100_0000 == w / 0x1_0000 / 0x100;
  }

  lemma WordOfBytes(b0: byte, b1: byte, b2: byte, b3: byte)
    ensures var w := Combine(b0, b1, b2, b3);
            0 <= w < TWO32 && ByteOf(w, 0) == b0 && ByteOf(w, 1) == b1 && ByteOf(w, 2) == b2 && ByteOf(w, 3) == b3
  {
    var w: int := Combine(b0, b1, b2, b3);
    assert w / 0x100 == b1 + 0x100 * b2 + 0x1_0000 * b3;
    assert w / 0x1_0000 == b2 + 0x100 * b3;
  }
}

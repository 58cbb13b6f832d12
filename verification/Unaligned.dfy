/** Unaligned words: LWR with LWL and SWR with SWL (machine/mipssim.cc), through the page table
    and the load delay slot. */
module Unaligned {
  import opened Options
  import opened MachineWords
  import opened Memory
  import opened Cpu

  // ---------------------------------------------------------------------------------
  // The shifts and masks of the four instructions, on the bytes of a word.

  lemma Drop(x: int, k: int)
    requires 0 <= x < TWO32
    ensures (x + k * TWO32) % TWO32 == x
  {
  }

  lemma ShiftBytes(a: byte, b: byte, c: byte, d: byte)
    ensures 0 <= Combine(a, b, c, d) < TWO32
    ensures Up(Combine(a, b, c, d), 0x100) == Combine(0, a, b, c)
    ensures Up(Combine(a, b, c, d), 0x1_0000) == Combine(0, 0, a, b)
    ensures Up(Combine(a, b, c, d), 0x100_0000) == Combine(0, 0, 0, a)
  {
    var i: int, j: int, k: int, l: int := a, b, c, d;
    assert Combine(i, j, k, l) * 0x100 == Combine(0, i, j, k) + l * TWO32;
    Drop(Combine(0, i, j, k), l);
    assert Combine(i, j, k, l) * 0x1_0000 == Combine(0, 0, i, j) + (k + 0x100 * l) * TWO32;
    Drop(Combine(0, 0, i, j), k + 0x100 * l);
    assert Combine(i, j, k, l) * 0x100_0000 == Combine(0, 0, 0, i) + (j + 0x100 * k + 0x1_0000 * l) * TWO32;
    Drop(Combine(0, 0, 0, i), j + 0x100 * k + 0x1_0000 * l);
  }

  lemma MaskBytes(a: byte, b: byte, c: byte, d: byte)
    ensures var w := Combine(a, b, c, d);
            && w / 0x100 == Combine(b, c, d, 0) && w / 0x1_0000 == Combine(c, d, 0, 0) && w / 0x100_0000 == d
            && w % 0x100 == a && w % 0x1_0000 == Combine(a, b, 0, 0) && w % 0x100_0000 == Combine(a, b, c, 0)
  {
  }

  /** Each result as four bytes: what comes from the word v and what stays of p. */
  lemma MergeWords(a: byte, b: byte, c: byte, d: byte, e: byte, f: byte, g: byte, h: byte)
    ensures var p, v := Combine(a, b, c, d), Combine(e, f, g, h);
            && 0 <= p < TWO32 && 0 <= v < TWO32
            && MergeRight(p, v, 1) == Combine(f, g, h, d) && MergeLeft(p, v, 1) == Combine(a, b, e, f)
            && MergeRight(p, v, 2) == Combine(g, h, c, d) && MergeLeft(p, v, 2) == Combine(a, e, f, g)
            && MergeRight(p, v, 3) == Combine(h, b, c, d) && MergeLeft(p, v, 0) == Combine(a, b, c, e)
            && StoreLeft(p, v, 0) == Combine(h, b, c, d) && StoreRight(p, v, 1) == Combine(a, e, f, g)
            && StoreLeft(p, v, 1) == Combine(g, h, c, d) && StoreRight(p, v, 2) == Combine(a, b, e, f)
            && StoreLeft(p, v, 2) == Combine(f, g, h, d) && StoreRight(p, v, 3) == Combine(a, b, c, e)
  {
    ShiftBytes(e, f, g, h);
    MaskBytes(a, b, c, d);
    MaskBytes(e, f, g, h);
    hide Up;
  }

  /** LWR: byte k of the result is a byte of v or a byte of p, as the position `at` has it. */
  lemma MergeRightBytes(p: uint32, v: uint32, at: nat, k: nat)
    requires at < 4 && k < 4
    ensures ByteOf(MergeRight(p, v, at), k) == if k + at < 4 then ByteOf(v, k + at) else ByteOf(p, k)
  {
    var a, b, c, d := ByteOf(p, 0), ByteOf(p, 1), ByteOf(p, 2), ByteOf(p, 3);
    var e, f, g, h := ByteOf(v, 0), ByteOf(v, 1), ByteOf(v, 2), ByteOf(v, 3);
    BytesOfWord(p);
    BytesOfWord(v);
    MergeWords(a, b, c, d, e, f, g, h);
    WordOfBytes(f, g, h, d);
    WordOfBytes(g, h, c, d);
    WordOfBytes(h, b, c, d);
    assert MergeRight(p, v, 0) == v;
    hide *;
  }

  /** LWL. */
  lemma MergeLeftBytes(p: uint32, v: uint32, at: nat, k: nat)
    requires at < 4 && k < 4
    ensures ByteOf(MergeLeft(p, v, at), k) == if k + at >= 3 then ByteOf(v, k + at - 3) else ByteOf(p, k)
  {
    var a, b, c, d := ByteOf(p, 0), ByteOf(p, 1), ByteOf(p, 2), ByteOf(p, 3);
    var e, f, g, h := ByteOf(v, 0), ByteOf(v, 1), ByteOf(v, 2), ByteOf(v, 3);
    BytesOfWord(p);
    BytesOfWord(v);
    MergeWords(a, b, c, d, e, f, g, h);
    WordOfBytes(a, b, e, f);
    WordOfBytes(a, e, f, g);
    WordOfBytes(a, b, c, e);
    assert MergeLeft(p, v, 3) == v;
    hide *;
  }

  /** SWL. */
  lemma StoreLeftBytes(p: uint32, v: uint32, at: nat, k: nat)
    requires at < 4 && k < 4
    ensures ByteOf(StoreLeft(p, v, at), k) == if k <= at then ByteOf(v, k + 3 - at) else ByteOf(p, k)
  {
    var a, b, c, d := ByteOf(p, 0), ByteOf(p, 1), ByteOf(p, 2), ByteOf(p, 3);
    var e, f, g, h := ByteOf(v, 0), ByteOf(v, 1), ByteOf(v, 2), ByteOf(v, 3);
    BytesOfWord(p);
    BytesOfWord(v);
    MergeWords(a, b, c, d, e, f, g, h);
    WordOfBytes(h, b, c, d);
    WordOfBytes(g, h, c, d);
    WordOfBytes(f, g, h, d);
    assert StoreLeft(p, v, 3) == v;
    hide *;
  }

  /** SWR. */
  lemma StoreRightBytes(p: uint32, v: uint32, at: nat, k: nat)
    requires at < 4 && k < 4
    ensures ByteOf(StoreRight(p, v, at), k) == if k >= at then ByteOf(v, k - at) else ByteOf(p, k)
  {
    var a, b, c, d := ByteOf(p, 0), ByteOf(p, 1), ByteOf(p, 2), ByteOf(p, 3);
    var e, f, g, h := ByteOf(v, 0), ByteOf(v, 1), ByteOf(v, 2), ByteOf(v, 3);
    BytesOfWord(p);
    BytesOfWord(v);
    MergeWords(a, b, c, d, e, f, g, h);
    WordOfBytes(a, e, f, g);
    WordOfBytes(a, b, e, f);
    WordOfBytes(a, b, c, e);
    assert StoreRight(p, v, 0) == v;
    hide *;
  }

  // ---------------------------------------------------------------------------------
  // Bytes at virtual addresses.

  predicate Mapped(table: seq<Pte>, v: uint32, writing: bool) {
    Translate(table, v, 1, writing).At?
  }

  /** The physical place of a virtual byte. */
  function Place(table: seq<Pte>, v: uint32): (p: nat)
    requires Mapped(table, v, false)
    ensures p < MEMORY_SIZE && p % PAGE_SIZE == v % PAGE_SIZE
  {
    Translate(table, v, 1, false).phys
  }

  function Ram(c: State, v: uint32): byte
    requires Mapped(c.table, v, false)
  {
    c.mem[Place(c.table, v)]
  }

  /** The aligned word around a mapped byte. */
  function WordAround(c: State, v: uint32): int32
    requires Mapped(c.table, v, false)
  {
    Fetch(c.mem, Base(c.table, v), 4)
  }

  /** Where that word starts. */
  function Base(table: seq<Pte>, v: uint32): (p: nat)
    requires Mapped(table, v, false)
    ensures p + 4 <= MEMORY_SIZE && p + v % 4 == Place(table, v)
  {
    SamePage(v);
    Translate(table, v - v % 4, 4, false).phys
  }

  /** The aligned word around a byte is mapped exactly when the byte is, and in the same place. */
  lemma AroundPlace(table: seq<Pte>, v: uint32, writing: bool)
    ensures Translate(table, v - v % 4, 4, writing).At? <==> Mapped(table, v, writing)
    ensures Mapped(table, v, writing) ==> Mapped(table, v, false)
    ensures Mapped(table, v, writing) ==> Translate(table, v - v % 4, 4, writing) == At(Base(table, v))
  {
    SamePage(v);
  }

  /** Byte k of that word is byte k of the four. */
  lemma AroundByte(c: State, v: uint32, k: nat)
    requires Mapped(c.table, v, false) && k < 4
    ensures v - v % 4 + k < TWO32 && Mapped(c.table, v - v % 4 + k, false)
    ensures ByteOf(Unsigned(WordAround(c, v)), k) == Ram(c, v - v % 4 + k)
  {
    hide Translate, Fetch, ByteOf, Unsigned;
    SameWord(v, k);
    var w, u := v - v % 4, v - v % 4 + k;
    AroundPlace(c.table, v, false);
    AroundPlace(c.table, u, false);
    FetchedByte(c.mem, Base(c.table, v), k);
  }

  lemma SameWord(v: uint32, k: nat)
    requires k < 4
    ensures var u := v - v % 4 + k; u < TWO32 && u % 4 == k && u - u % 4 == v - v % 4
  {
    var m := v / 4;
    assert v - v % 4 + k == 4 * m + k;
  }

  lemma SamePage(v: uint32)
    ensures (v - v % 4) % 4 == 0
    ensures (v - v % 4) / PAGE_SIZE == v / PAGE_SIZE && (v - v % 4) % PAGE_SIZE == v % PAGE_SIZE - v % 4
  {
    var page, offset := v / PAGE_SIZE, v % PAGE_SIZE;
    var slot, rest := offset / 4, offset % 4;
    Divides(page * 32 + slot, 4, rest);
    Divides(page * 32 + slot, 4, 0);
    Divides(page, PAGE_SIZE, slot * 4);
    assert v == (page * 32 + slot) * 4 + rest;
  }

  lemma FetchedByte(mem: seq<byte>, p: nat, k: nat)
    requires p + 4 <= |mem| && k < 4
    ensures ByteOf(Unsigned(Fetch(mem, p, 4)), k) == mem[p + k]
  {
    WordRoundTrip(WordAt(mem, p));
    WordOfBytes(mem[p], mem[p + 1], mem[p + 2], mem[p + 3]);
    hide Signed, Unsigned, Combine, ByteOf;
  }

  // ---------------------------------------------------------------------------------
  // One instruction.

  /** The address an instruction computes. */
  function Address(c: State, i: Instr): uint32
    requires WellFormed(i)
  {
    Unsigned(Plus(c.regs[i.rs], i.extra))
  }

  /** General register r once the pending load has landed. */
  function Landed(r: Regs, k: nat): int32
    requires k < NUM_GP
  {
    if k == 0 then 0 else Pending(r, k)
  }

  /** The pending load has landed, and HI, LO and the other general registers stand. */
  ghost predicate Landing(c: State, c': State) {
    && SameMapping(c.table, c'.table)
    && c'.regs[HI] == c.regs[HI] && c'.regs[LO] == c.regs[LO]
    && forall k: nat | k < NUM_GP :: c'.regs[k] == Landed(c.regs, k)
  }

  lemma FinishLands(c: State, nextReg: nat, nextValue: int32, pcAfter: int32)
    requires 0 <= c.regs[LOAD] < NUM_GP && nextReg < NUM_GP
    ensures var (c', o) := Finish(c, nextReg, nextValue, pcAfter);
            o.Ran? && Landing(c, c') && c'.mem == c.mem && c'.table == c.table && Good(c')
            && c'.regs[LOAD] == nextReg && c'.regs[LOAD_VALUE] == nextValue
  {
  }

  lemma LoadLands(c: State, i: Instr, addr: int32)
    requires Good(c) && WellFormed(i) && IsLoad(i.op)
    ensures var r, a := ExecLoad(c, i, addr), Translate(c.table, AccessAddr(i.op, addr), SizeOf(i.op), false);
            && (r.1.Ran? <==> a.At?)
            && (a.At? ==>
                  && Landing(c, r.0) && r.0.mem == c.mem && Good(r.0) && r.0.regs[LOAD] == i.rt
                  && r.0.regs[LOAD_VALUE]
                     == Loaded(i.op, Fetch(c.mem, a.phys, SizeOf(i.op)), Pending(c.regs, i.rt), Unsigned(addr) % 4))
  {
    hide Translate, AccessAddr, Fetch, Loaded, Pending, Plus, Unsigned, Signed;
    var v := AccessAddr(i.op, addr);
    var a := Translate(c.table, v, SizeOf(i.op), false);
    if a.At? {
      var value := Loaded(i.op, Fetch(c.mem, a.phys, SizeOf(i.op)), Pending(c.regs, i.rt), Unsigned(addr) % 4);
      FinishLands(c.(table := Touch(c.table, v, false)), i.rt, value, Plus(c.regs[NEXT_PC], 4));
      hide Finish, Touch;
    }
  }

  lemma StoreLands(c: State, i: Instr, addr: int32)
    requires Good(c) && WellFormed(i) && (i.op.SWL? || i.op.SWR?)
    ensures var r, a := ExecStore(c, i, addr), Translate(c.table, AccessAddr(i.op, addr), 4, true);
            && (r.1.Ran? <==> a.At?)
            && (a.At? ==>
                  && Landing(c, r.0) && r.0.regs[LOAD] == 0
                  && r.0.mem == Put(c.mem, a.phys, 4,
                    Stored(i.op, Fetch(c.mem, a.phys, 4), c.regs[i.rt], Unsigned(addr) % 4)))
  {
    var v := AccessAddr(i.op, addr);
    Writable(c.table, v);
    hide Translate, AccessAddr, Fetch, Put, Stored, Plus, Unsigned, Signed, Finish;
    var read, a := Translate(c.table, v, 4, false), Translate(c.table, v, 4, true);
    if read.At? {
      var table := Touch(c.table, v, false);
      SameTranslate(c.table, table, v, 4, true);
      if a.At? {
        var value := Stored(i.op, Fetch(c.mem, a.phys, 4), c.regs[i.rt], Unsigned(addr) % 4);
        FinishLands(State(c.regs, Put(c.mem, a.phys, 4, value), Touch(table, v, true)), 0, 0, Plus(c.regs[NEXT_PC], 4));
      }
    }
    hide Touch;
  }

  /** What may be written may be read, in the same place. */
  lemma Writable(table: seq<Pte>, v: uint32)
    ensures Translate(table, v, 4, true).At? ==> Translate(table, v, 4, false) == Translate(table, v, 4, true)
  {
  }

  /** LWL and LWR go through exactly when the byte addressed is mapped. */
  lemma PartialLoad(c: State, i: Instr)
    requires Good(c) && WellFormed(i) && (i.op.LWL? || i.op.LWR?)
    ensures Exec(c, i).1.Ran? <==> Mapped(c.table, Address(c, i), false)
    ensures Exec(c, i).1.Ran? ==>
              var c', a := Exec(c, i).0, Address(c, i);
              Landing(c, c') && c'.mem == c.mem && Good(c') && c'.regs[LOAD] == i.rt
              && c'.regs[LOAD_VALUE] == Loaded(i.op, WordAround(c, a), Pending(c.regs, i.rt), a % 4)
  {
    hide Exec, ExecLoad, Translate, Fetch, Loaded, Unsigned, Signed, Plus, Landing, Pending, Good;
    ExecIsLoad(c, i);
    LoadLands(c, i, Plus(c.regs[i.rs], i.extra));
    AroundPlace(c.table, Address(c, i), false);
  }

  // ---------------------------------------------------------------------------------
  // Loading a word from any address.

  /** The four bytes from v are mapped. */
  predicate Spans(table: seq<Pte>, v: uint32, writing: bool) {
    && v + 3 < TWO32
    && Mapped(table, v, writing) && Mapped(table, v + 1, writing)
    && Mapped(table, v + 2, writing) && Mapped(table, v + 3, writing)
  }

  function RamFrom(c: State, v: uint32, k: nat): byte
    requires Spans(c.table, v, false) && k < 4
  {
    hide Mapped;
    assert Mapped(c.table, v + k, false);
    Ram(c, v + k)
  }

  /** The word in the bytes v to v + 3. */
  function WordFrom(c: State, v: uint32): int32
    requires Spans(c.table, v, false)
  {
    Signed(Combine(RamFrom(c, v, 0), RamFrom(c, v, 1), RamFrom(c, v, 2), RamFrom(c, v, 3)))
  }

  /** Where v + 3 lies in its aligned word when v lies at `at`. */
  function Far(at: nat): nat
    requires at < 4
  {
    if at == 0 then 3 else at - 1
  }

  /** Byte k of the four is in the aligned word around v, or in the one around v + 3. */
  lemma NearWord(v: uint32, k: nat)
    requires v + 3 < TWO32 && k < 4
    ensures k + v % 4 < 4 ==> v + k - (v + k) % 4 == v - v % 4
    ensures k + v % 4 >= 4 ==> v + k - (v + k) % 4 == v + 3 - (v + 3) % 4
    ensures (v + 3) % 4 == Far(v % 4)
  {
    var m, r := v / 4, v % 4;
    assert v + k == 4 * m + (r + k) && v + 3 == 4 * m + (r + 3);
    if r + k >= 4 {
      assert v + k == 4 * (m + 1) + (r + k - 4);
    }
    if r >= 1 {
      assert v + 3 == 4 * (m + 1) + (r - 1);
    }
  }

  lemma BetweenEnds(table: seq<Pte>, v: uint32, k: nat, writing: bool)
    requires v + 3 < TWO32 && k < 4 && Mapped(table, v, writing) && Mapped(table, v + 3, writing)
    ensures Mapped(table, v + k, writing)
  {
    NearWord(v, k);
    AroundPlace(table, if k + v % 4 < 4 then v else v + 3, writing);
    AroundPlace(table, v + k, writing);
    hide Mapped, Translate;
  }

  /** Both ends are enough, since no aligned word lies across two pages. */
  lemma EndsSpan(table: seq<Pte>, v: uint32, writing: bool)
    requires v + 3 < TWO32
    ensures Spans(table, v, writing) <==> Mapped(table, v, writing) && Mapped(table, v + 3, writing)
  {
    if Mapped(table, v, writing) && Mapped(table, v + 3, writing) {
      BetweenEnds(table, v, 1, writing);
      BetweenEnds(table, v, 2, writing);
    }
    hide Mapped;
  }

  /** LWR at `at` and LWL at the far end take every byte from one of the two words. */
  lemma PairByte(prior: uint32, low: uint32, high: uint32, at: nat, k: nat)
    requires at < 4 && k < 4
    ensures ByteOf(MergeLeft(MergeRight(prior, low, at), high, Far(at)), k)
              == if k + Far(at) >= 3 then ByteOf(high, k + Far(at) - 3) else ByteOf(low, k + at)
    ensures ByteOf(MergeRight(MergeLeft(prior, high, Far(at)), low, at), k)
              == if k + at < 4 then ByteOf(low, k + at) else ByteOf(high, k + Far(at) - 3)
  {
    MergeRightBytes(prior, low, at, k);
    MergeLeftBytes(MergeRight(prior, low, at), high, Far(at), k);
    MergeLeftBytes(prior, high, Far(at), k);
    MergeRightBytes(MergeLeft(prior, high, Far(at)), low, at, k);
    hide MergeLeft, MergeRight, ByteOf;
  }

  lemma NearByte(c: State, v: uint32, k: nat)
    requires Spans(c.table, v, false) && k < 4
    ensures k + v % 4 < 4 ==> ByteOf(Unsigned(WordAround(c, v)), k + v % 4) == RamFrom(c, v, k)
    ensures k + Far(v % 4) >= 3 ==> ByteOf(Unsigned(WordAround(c, v + 3)), k + Far(v % 4) - 3) == RamFrom(c, v, k)
  {
    hide Unsigned, WordAround, ByteOf, Ram, Mapped;
    NearWord(v, k);
    if k + v % 4 < 4 { AroundByte(c, v, k + v % 4); }
    if k + Far(v % 4) >= 3 { AroundByte(c, v + 3, k + Far(v % 4) - 3); }
  }

  /** What the two instructions make of the two aligned words, in either order. */
  lemma MergedWord(c: State, v: uint32, prior: uint32)
    requires Spans(c.table, v, false)
    ensures var low, high := Unsigned(WordAround(c, v)), Unsigned(WordAround(c, v + 3));
            && Signed(MergeLeft(MergeRight(prior, low, v % 4), high, Far(v % 4))) == WordFrom(c, v)
            && Signed(MergeRight(MergeLeft(prior, high, Far(v % 4)), low, v % 4)) == WordFrom(c, v)
  {
    var low, high, at := Unsigned(WordAround(c, v)), Unsigned(WordAround(c, v + 3)), v % 4;
    var one := MergeLeft(MergeRight(prior, low, at), high, Far(at));
    var two := MergeRight(MergeLeft(prior, high, Far(at)), low, at);
    BytesOfWord(one);
    BytesOfWord(two);
    forall k: nat | k < 4 ensures ByteOf(one, k) == RamFrom(c, v, k) == ByteOf(two, k) {
      PairByte(prior, low, high, at, k);
      NearByte(c, v, k);
      hide *;
    }
    hide Unsigned, WordAround, MergeLeft, MergeRight, ByteOf, RamFrom, Mapped, Combine, Signed;
  }

  /** Two instructions, the second only if the first went through. */
  function Both(c: State, i: Instr, j: Instr): (State, Outcome)
    requires Good(c) && WellFormed(i) && WellFormed(j)
  {
    var (c1, o1) := Exec(c, i);
    if o1.Trapped? then (c1, o1)
    else
      ExecKeepsGood(c, i);
      Exec(c1, j)
  }

  lemma SameSpans(s: seq<Pte>, t: seq<Pte>, v: uint32, writing: bool)
    requires SameMapping(s, t)
    ensures Mapped(s, v, writing) == Mapped(t, v, writing)
    ensures Mapped(s, v, false) ==> Place(s, v) == Place(t, v)
  {
    SameTranslate(s, t, v, 1, writing);
    SameTranslate(s, t, v, 1, false);
    hide Translate;
  }

  lemma SameAround(c: State, c': State, v: uint32)
    requires SameMapping(c.table, c'.table) && c.mem == c'.mem && Mapped(c.table, v, false)
    ensures Mapped(c'.table, v, false) && WordAround(c, v) == WordAround(c', v)
  {
    SameTranslate(c.table, c'.table, v - v % 4, 4, false);
    SameSpans(c.table, c'.table, v, false);
    hide Translate, Fetch;
  }

  /** LWR at an address and LWL three bytes further, back to back and in either order, leave
      exactly the word at that address pending, whatever the register held before; they go
      through exactly when the four bytes are mapped. The base register may itself be the
      target, but a load still pending must not be about to change the base. */
  lemma LoadPair(c: State, right: Instr, left: Instr)
    requires Good(c) && WellFormed(right) && WellFormed(left)
    requires right.op.LWR? && left.op.LWL? && right.rs == left.rs && right.rt == left.rt
    requires left.extra == right.extra + 3 && Address(c, right) + 3 < TWO32
    requires right.rs == 0 || c.regs[LOAD] != right.rs
    ensures Both(c, right, left).1.Ran? <==> Spans(c.table, Address(c, right), false)
    ensures Both(c, left, right).1.Ran? <==> Spans(c.table, Address(c, right), false)
    ensures Spans(c.table, Address(c, right), false) ==>
              Holds(c, Both(c, right, left).0, right) && Holds(c, Both(c, left, right).0, right)
  {
    hide Both, Exec, Mapped, WordAround, WordFrom, MergeLeft, MergeRight, Signed, Unsigned, Plus;
    var v := Address(c, right);
    Further(c.regs[right.rs], right.extra);
    EndsSpan(c.table, v, false);
    OneThenOther(c, right, left);
    OneThenOther(c, left, right);
    if Spans(c.table, v, false) {
      var prior := Unsigned(Pending(c.regs, right.rt));
      NearWord(v, 0);
      MergedWord(c, v, prior);
      WordRoundTrip(MergeRight(prior, Unsigned(WordAround(c, v)), v % 4));
      WordRoundTrip(MergeLeft(prior, Unsigned(WordAround(c, v + 3)), Far(v % 4)));
    }
  }

  /** Program counters aside, c' is c with the old load landed and, at its target, the word the
      instruction addresses pending. */
  ghost predicate Holds(c: State, c': State, i: Instr)
    requires WellFormed(i) && Spans(c.table, Address(c, i), false)
  {
    c'.mem == c.mem && Elsewhere(c, c', i.rt)
    && c'.regs[LOAD] == i.rt && c'.regs[LOAD_VALUE] == WordFrom(c, Address(c, i))
  }

  /** As Landing, but for register rt, which is about to be loaded. */
  ghost predicate Elsewhere(c: State, c': State, rt: nat) {
    && SameMapping(c.table, c'.table)
    && c'.regs[HI] == c.regs[HI] && c'.regs[LO] == c.regs[LO]
    && forall k: nat | k < NUM_GP && (k != rt || k == 0) :: c'.regs[k] == Landed(c.regs, k)
  }

  lemma Further(base: int32, extra: int32)
    requires extra + 3 < TWO31 && Unsigned(Plus(base, extra)) + 3 < TWO32
    ensures Unsigned(Plus(base, extra + 3)) == Unsigned(Plus(base, extra)) + 3
  {
    var sum: int := base + extra;
    UnsignedSigned(sum);
    UnsignedSigned(sum + 3);
    hide Signed;
    var low, carry := sum % TWO32, sum / TWO32;
    assert sum + 3 == low + 3 + carry * TWO32;
    Drop(low + 3, carry);
  }

  lemma UnsignedSigned(x: int)
    ensures Unsigned(Signed(x)) == x % TWO32
  {
    WordRoundTrip(x % TWO32);
  }

  /** The second instruction finds the first one's result still pending and merges into it. */
  lemma OneThenOther(c: State, i: Instr, j: Instr)
    requires Good(c) && WellFormed(i) && WellFormed(j) && (i.op.LWL? || i.op.LWR?) && (j.op.LWL? || j.op.LWR?)
    requires i.rs == j.rs && i.rt == j.rt && (i.rs == 0 || c.regs[LOAD] != i.rs)
    ensures Both(c, i, j).1.Ran? <==> Mapped(c.table, Address(c, i), false) && Mapped(c.table, Address(c, j), false)
    ensures Both(c, i, j).1.Ran? ==>
              var c', v, w := Both(c, i, j).0, Address(c, i), Address(c, j);
              c'.mem == c.mem && Elsewhere(c, c', i.rt) && c'.regs[LOAD] == i.rt
              && c'.regs[LOAD_VALUE]
                 == Loaded(j.op, WordAround(c, w), Loaded(i.op, WordAround(c, v), Pending(c.regs, i.rt), v % 4), w % 4)
  {
    hide Exec, Mapped, WordAround, Loaded, Plus, Unsigned;
    PartialLoad(c, i);
    var c1 := Exec(c, i).0;
    if Exec(c, i).1.Ran? {
      PartialLoad(c1, j);
      assert c1.regs[i.rs] == Landed(c.regs, i.rs) == c.regs[i.rs];
      SameSpans(c.table, c1.table, Address(c, j), false);
      if Mapped(c.table, Address(c, j), false) {
        SameAround(c, c1, Address(c, j));
      }
    }
  }

  // ---------------------------------------------------------------------------------
  // Storing a word at any address.

  /** SWL and SWR go through exactly when the byte addressed may be written. */
  lemma PartialStore(c: State, i: Instr)
    requires Good(c) && WellFormed(i) && (i.op.SWL? || i.op.SWR?)
    ensures Exec(c, i).1.Ran? <==> Mapped(c.table, Address(c, i), true)
    ensures Mapped(c.table, Address(c, i), true) ==> Mapped(c.table, Address(c, i), false)
    ensures Exec(c, i).1.Ran? ==>
              var c', a := Exec(c, i).0, Address(c, i);
              Landing(c, c') && c'.regs[LOAD] == 0
              && c'.mem == Put(c.mem, Base(c.table, a), 4, Stored(i.op, WordAround(c, a), c.regs[i.rt], a % 4))
  {
    hide Exec, ExecStore, Translate, Fetch, Put, Stored, Unsigned, Signed, Plus, Landing, Good;
    ExecIsStore(c, i);
    StoreLands(c, i, Plus(c.regs[i.rs], i.extra));
    AroundPlace(c.table, Address(c, i), true);
  }

  /** Which byte of the register goes to place q, or -1: SWR writes from its address to the end
      of the aligned word, SWL from the word's start to its address. */
  function Slot(op: Op, p: nat, at: nat, q: nat): (s: int)
    requires at < 4
    ensures -1 <= s < 4
  {
    if op.SWR? && p <= q < p + 4 - at then q - p
    else if op.SWL? && p - at <= q <= p then q - p + 3
    else -1
  }

  function NewByte(slot: int, reg: uint32, was: byte): byte
    requires -1 <= slot < 4
  {
    if slot < 0 then was else ByteOf(reg, slot)
  }

  /** What one of them leaves at place q. */
  lemma StoreEffect(c: State, i: Instr, q: nat)
    requires Good(c) && WellFormed(i) && (i.op.SWL? || i.op.SWR?) && q < MEMORY_SIZE
    requires Mapped(c.table, Address(c, i), true)
    ensures Mapped(c.table, Address(c, i), false)
    ensures var slot := Slot(i.op, Place(c.table, Address(c, i)), Address(c, i) % 4, q);
            Exec(c, i).0.mem[q] == NewByte(slot, Unsigned(c.regs[i.rt]), c.mem[q])
  {
    hide Exec, Unsigned, Signed, Plus, Put, StoreLeft, StoreRight, ByteOf, Translate, Fetch;
    PartialStore(c, i);
    var a := Address(c, i);
    var base, at := Base(c.table, a), a % 4;
    var word, reg := Unsigned(WordAround(c, a)), Unsigned(c.regs[i.rt]);
    var value := if i.op.SWL? then StoreLeft(word, reg, at) else StoreRight(word, reg, at);
    PutByte(c.mem, base, value, q);
    if base <= q < base + 4 {
      if i.op.SWL? { StoreLeftBytes(word, reg, at, q - base); } else { StoreRightBytes(word, reg, at, q - base); }
      FetchedByte(c.mem, base, q - base);
    }
  }

  lemma PutByte(mem: seq<byte>, p: nat, w: uint32, q: nat)
    requires p + 4 <= |mem| && q < |mem|
    ensures Put(mem, p, 4, Signed(w))[q] == if p <= q < p + 4 then ByteOf(w, q - p) else mem[q]
  {
    WordRoundTrip(w);
    hide Signed, Unsigned, ByteOf;
  }

  /** The places of the four bytes, seen from either end. */
  lemma PlaceNear(table: seq<Pte>, v: uint32, k: nat)
    requires Spans(table, v, false) && k < 4
    ensures Mapped(table, v + k, false)
    ensures k + v % 4 < 4 ==> Place(table, v + k) == Place(table, v) + k
    ensures k + Far(v % 4) >= 3 ==> Place(table, v + k) == Place(table, v + 3) + k - 3
  {
    hide Mapped, Translate, Place;
    NearWord(v, k);
    AroundPlace(table, v, false);
    AroundPlace(table, v + k, false);
    AroundPlace(table, v + 3, false);
  }

  /** They differ, even when two pages share a frame. */
  lemma PlacesDiffer(table: seq<Pte>, v: uint32, j: nat, k: nat)
    requires Spans(table, v, false) && j < k < 4
    ensures Mapped(table, v + j, false) && Mapped(table, v + k, false)
    ensures Place(table, v + j) != Place(table, v + k)
  {
    PlaceNear(table, v, j);
    PlaceNear(table, v, k);
    OffsetsDiffer(v + j, k - j);
    hide Mapped, Place;
  }

  lemma OffsetsDiffer(x: nat, d: nat)
    requires 0 < d < PAGE_SIZE
    ensures (x + d) % PAGE_SIZE != x % PAGE_SIZE
  {
    var q, r := x / PAGE_SIZE, x % PAGE_SIZE;
    if r + d < PAGE_SIZE { Divides(q, PAGE_SIZE, r + d); } else { Divides(q + 1, PAGE_SIZE, r + d - PAGE_SIZE); }
  }

  /** The bytes v to v + 3 of c' are those of reg, and no other byte of memory changed. */
  ghost predicate Wrote(c: State, c': State, v: uint32, reg: uint32)
    requires Spans(c.table, v, false)
  {
    && (forall k: nat | k < 4 :: WroteByte(c, c', v, reg, k))
    && forall q: nat | q < MEMORY_SIZE && !InSpan(c.table, v, q) :: c'.mem[q] == c.mem[q]
  }

  predicate WroteByte(c: State, c': State, v: uint32, reg: uint32, k: nat)
    requires Spans(c.table, v, false) && k < 4
  {
    hide Mapped;
    assert Mapped(c.table, v + k, false);
    c'.mem[Place(c.table, v + k)] == ByteOf(reg, k)
  }

  predicate InSpan(table: seq<Pte>, v: uint32, q: nat)
    requires Spans(table, v, false)
  {
    q in [Place(table, v), Place(table, v + 1), Place(table, v + 2), Place(table, v + 3)]
  }

  lemma SpanReadable(table: seq<Pte>, v: uint32)
    requires Spans(table, v, true)
    ensures Spans(table, v, false)
  {
    AroundPlace(table, v, true);
    AroundPlace(table, v + 1, true);
    AroundPlace(table, v + 2, true);
    AroundPlace(table, v + 3, true);
    hide Mapped;
  }

  function RightSlot(table: seq<Pte>, v: uint32, q: nat): (s: int)
    requires Spans(table, v, false)
    ensures -1 <= s < 4
  {
    Slot(SWR, Place(table, v), v % 4, q)
  }

  function LeftSlot(table: seq<Pte>, v: uint32, q: nat): (s: int)
    requires Spans(table, v, false)
    ensures -1 <= s < 4
  {
    Slot(SWL, Place(table, v + 3), Far(v % 4), q)
  }

  /** Every byte of the register goes to its own place, from one instruction or from both. */
  lemma Slots(table: seq<Pte>, v: uint32, q: nat, k: nat)
    requires Spans(table, v, false) && k < 4 && Mapped(table, v + k, false)
    ensures RightSlot(table, v, q) == k || LeftSlot(table, v, q) == k <==> q == Place(table, v + k)
    ensures q == Place(table, v + k) ==> RightSlot(table, v, q) == k || RightSlot(table, v, q) < 0
    ensures q == Place(table, v + k) ==> LeftSlot(table, v, q) == k || LeftSlot(table, v, q) < 0
  {
    hide Mapped, Place;
    PlaceNear(table, v, k);
    if q == Place(table, v + k) {
      OnlySlot(table, v, RightSlot(table, v, q), k);
      OnlySlot(table, v, LeftSlot(table, v, q), k);
    }
  }

  lemma OnlySlot(table: seq<Pte>, v: uint32, j: int, k: nat)
    requires Spans(table, v, false) && -1 <= j < 4 && k < 4 && Mapped(table, v + k, false)
    ensures j >= 0 ==> Mapped(table, v + j, false)
    ensures j >= 0 && Place(table, v + j) == Place(table, v + k) ==> j == k
    ensures j >= 0 && j + v % 4 < 4 ==> Place(table, v + j) == Place(table, v) + j
    ensures j >= 0 && j + Far(v % 4) >= 3 ==> Place(table, v + j) == Place(table, v + 3) + j - 3
  {
    hide Mapped, Place;
    if 0 <= j { PlaceNear(table, v, j); }
    if 0 <= j < k { PlacesDiffer(table, v, j, k); }
    if k < j { PlacesDiffer(table, v, k, j); }
  }

  /** Two stores after one another, at place q. */
  lemma StoreBoth(c: State, i: Instr, j: Instr)
    requires Good(c) && WellFormed(i) && WellFormed(j) && (i.op.SWL? || i.op.SWR?) && (j.op.SWL? || j.op.SWR?)
    requires i.rs == j.rs && i.rt == j.rt
    requires c.regs[LOAD] == 0 || (c.regs[LOAD] != i.rs && c.regs[LOAD] != i.rt)
    ensures Both(c, i, j).1.Ran? <==> Mapped(c.table, Address(c, i), true) && Mapped(c.table, Address(c, j), true)
    ensures Both(c, i, j).1.Ran? ==> StoredBoth(c, Both(c, i, j).0, i, j)
  {
    hide Exec, Mapped, Place, Base, WordAround, Put, Stored, Plus, Unsigned, Slot, NewByte;
    PartialStore(c, i);
    var c1 := Exec(c, i).0;
    if Exec(c, i).1.Ran? {
      ExecKeepsGood(c, i);
      assert c1.regs[i.rs] == Landed(c.regs, i.rs) && c1.regs[i.rt] == Landed(c.regs, i.rt);
      PartialStore(c1, j);
      PartialStore(c, j);
      SameSpans(c.table, c1.table, Address(c, j), true);
      if Mapped(c.table, Address(c, j), true) {
        forall q: nat | q < MEMORY_SIZE ensures StoredAt(c, Exec(c1, j).0, i, j, q) {
          StoreEffect(c, i, q);
          StoreEffect(c1, j, q);
        }
      }
    }
  }

  /** What two stores leave at place q; the second wins where both write. */
  ghost predicate StoredAt(c: State, c': State, i: Instr, j: Instr, q: nat)
    requires WellFormed(i) && WellFormed(j) && q < MEMORY_SIZE
    requires Mapped(c.table, Address(c, i), false) && Mapped(c.table, Address(c, j), false)
  {
    var v, w, reg := Address(c, i), Address(c, j), Unsigned(c.regs[i.rt]);
    var first := NewByte(Slot(i.op, Place(c.table, v), v % 4, q), reg, c.mem[q]);
    c'.mem[q] == NewByte(Slot(j.op, Place(c.table, w), w % 4, q), reg, first)
  }

  ghost predicate StoredBoth(c: State, c': State, i: Instr, j: Instr)
    requires WellFormed(i) && WellFormed(j)
  {
    && Mapped(c.table, Address(c, i), false) && Mapped(c.table, Address(c, j), false)
    && c'.regs[LOAD] == 0 && SameMapping(c.table, c'.table)
    && c'.regs[i.rs] == c.regs[i.rs] && Good(c')
    && forall q: nat | q < MEMORY_SIZE :: StoredAt(c, c', i, j, q)
  }

  lemma BothWrote(c: State, c': State, i: Instr, j: Instr, v: uint32)
    requires WellFormed(i) && WellFormed(j) && StoredBoth(c, c', i, j) && Spans(c.table, v, false)
             && Far(v % 4) == (v + 3) % 4
    requires (i.op.SWR? && Address(c, i) == v && j.op.SWL? && Address(c, j) == v + 3)
             || (i.op.SWL? && Address(c, i) == v + 3 && j.op.SWR? && Address(c, j) == v)
    ensures Wrote(c, c', v, Unsigned(c.regs[i.rt]))
  {
    hide Mapped, Place, Unsigned, Address, ByteOf, Slot;
    var reg := Unsigned(c.regs[i.rt]);
    forall k: nat | k < 4 ensures WroteByte(c, c', v, reg, k) {
      PlaceNear(c.table, v, k);
      Slots(c.table, v, Place(c.table, v + k), k);
      assert StoredAt(c, c', i, j, Place(c.table, v + k));
    }
    forall q: nat | q < MEMORY_SIZE && !InSpan(c.table, v, q) ensures c'.mem[q] == c.mem[q] {
      Slots(c.table, v, q, 0);
      Slots(c.table, v, q, 1);
      Slots(c.table, v, q, 2);
      Slots(c.table, v, q, 3);
      assert StoredAt(c, c', i, j, q);
    }
  }

  /** SWR at an address and SWL three bytes further, in either order, write exactly the four
      bytes from that address, and go through exactly when all four may be written. A load
      still pending must not be about to change the base or the register stored. */
  lemma StorePair(c: State, right: Instr, left: Instr)
    requires Good(c) && WellFormed(right) && WellFormed(left)
    requires right.op.SWR? && left.op.SWL? && right.rs == left.rs && right.rt == left.rt
    requires left.extra == right.extra + 3 && Address(c, right) + 3 < TWO32
    requires c.regs[LOAD] == 0 || (c.regs[LOAD] != right.rs && c.regs[LOAD] != right.rt)
    ensures Both(c, right, left).1.Ran? <==> Spans(c.table, Address(c, right), true)
    ensures Both(c, left, right).1.Ran? <==> Spans(c.table, Address(c, right), true)
    ensures Spans(c.table, Address(c, right), true) ==> Spans(c.table, Address(c, right), false)
    ensures Spans(c.table, Address(c, right), true) ==>
              StoredWord(c, Both(c, right, left).0, right) && StoredWord(c, Both(c, left, right).0, right)
  {
    hide Both, Exec, Mapped, Unsigned, Plus, Wrote, StoredAt;
    var v := Address(c, right);
    Further(c.regs[right.rs], right.extra);
    EndsSpan(c.table, v, true);
    StoreBoth(c, right, left);
    StoreBoth(c, left, right);
    if Spans(c.table, v, true) {
      SpanReadable(c.table, v);
      NearWord(v, 0);
      BothWrote(c, Both(c, right, left).0, right, left, v);
      BothWrote(c, Both(c, left, right).0, left, right, v);
    }
  }

  /** Nothing is pending, the base stands, and memory holds the register at the address. */
  ghost predicate StoredWord(c: State, c': State, i: Instr)
    requires WellFormed(i) && Spans(c.table, Address(c, i), false)
  {
    && Good(c') && c'.regs[LOAD] == 0 && c'.regs[i.rs] == c.regs[i.rs] && SameMapping(c.table, c'.table)
    && Wrote(c, c', Address(c, i), Unsigned(c.regs[i.rt]))
  }

  lemma SameSpan(s: seq<Pte>, t: seq<Pte>, v: uint32)
    requires SameMapping(s, t) && Spans(s, v, false)
    ensures Spans(t, v, false)
  {
    SameSpans(s, t, v, false);
    SameSpans(s, t, v + 1, false);
    SameSpans(s, t, v + 2, false);
    SameSpans(s, t, v + 3, false);
    hide Mapped;
  }

  lemma WroteRam(c: State, c': State, v: uint32, reg: uint32, k: nat)
    requires SameMapping(c.table, c'.table) && Spans(c.table, v, false) && Spans(c'.table, v, false)
    requires k < 4 && Wrote(c, c', v, reg)
    ensures RamFrom(c', v, k) == ByteOf(reg, k)
  {
    hide Mapped, Place, ByteOf;
    assert WroteByte(c, c', v, reg, k);
    SameSpans(c.table, c'.table, v + k, false);
  }

  lemma WroteWord(c: State, c': State, v: uint32, value: int32)
    requires SameMapping(c.table, c'.table) && Spans(c.table, v, false) && Wrote(c, c', v, Unsigned(value))
    ensures Spans(c'.table, v, false) && WordFrom(c', v) == value
  {
    hide RamFrom, Wrote, Spans, ByteOf, Unsigned, Signed, Combine;
    var reg := Unsigned(value);
    SameSpan(c.table, c'.table, v);
    WroteRam(c, c', v, reg, 0);
    WroteRam(c, c', v, reg, 1);
    WroteRam(c, c', v, reg, 2);
    WroteRam(c, c', v, reg, 3);
    BytesOfWord(reg);
    SignedUnsigned(value);
  }

  /** A word stored at any address is the word loaded from there. */
  lemma StoreThenLoad(c: State, swr: Instr, swl: Instr, lwr: Instr, lwl: Instr)
    requires Good(c) && WellFormed(swr) && WellFormed(swl) && WellFormed(lwr) && WellFormed(lwl)
    requires swr.op.SWR? && swl.op.SWL? && lwr.op.LWR? && lwl.op.LWL?
    requires swr.rs == swl.rs == lwr.rs == lwl.rs && swr.rt == swl.rt && lwr.rt == lwl.rt
    requires swl.extra == lwl.extra == swr.extra + 3 && lwr.extra == swr.extra && Address(c, swr) + 3 < TWO32
    requires c.regs[LOAD] == 0 || (c.regs[LOAD] != swr.rs && c.regs[LOAD] != swr.rt)
    requires Both(c, swr, swl).1.Ran?
    ensures var c1 := Both(c, swr, swl).0;
            && Good(c1)
            && Both(c1, lwr, lwl).1.Ran?
            && Both(c1, lwr, lwl).0.regs[LOAD] == lwr.rt
            && Both(c1, lwr, lwl).0.regs[LOAD_VALUE] == c.regs[swr.rt]
  {
    hide Both, Unsigned, Plus, Wrote, Spans, WordFrom;
    StorePair(c, swr, swl);
    var c1 := Both(c, swr, swl).0;
    WroteWord(c, c1, Address(c, swr), c.regs[swr.rt]);
    LoadPair(c1, lwr, lwl);
  }
}

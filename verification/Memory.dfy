/** User memory: machine/translate.cc with the linear page table, on a little-endian host. */
module Memory {
  import opened Options
  import opened MachineWords

  const PAGE_SIZE := 128
  const NUM_PHYS_PAGES := 128
  const MEMORY_SIZE := NUM_PHYS_PAGES * PAGE_SIZE

  datatype Exception =
    | SyscallException | PageFaultException | ReadOnlyException | BusErrorException
    | AddressErrorException | OverflowException | IllegalInstrException

  /** One page table entry; the index in the table is the virtual page. */
  datatype Pte = Pte(frame: nat, valid: bool, readOnly: bool, use: bool, dirty: bool)

  /** The virtual page and the entry for address v exist and allow the access. */
  datatype Access = Fault(which: Exception) | At(phys: nat)

  /** Translate: the physical address, or the exception it raises. */
  function Translate(table: seq<Pte>, v: uint32, size: nat, writing: bool): (a: Access)
    requires size in {1, 2, 4}
    ensures a.At? ==> a.phys + size <= MEMORY_SIZE && a.phys % PAGE_SIZE == v % PAGE_SIZE
    ensures a.At? ==> v / PAGE_SIZE < |table| && a.phys / PAGE_SIZE == table[v / PAGE_SIZE].frame
  {
    if v % size != 0 then Fault(AddressErrorException)
    else
      var vpn := v / PAGE_SIZE;
      if vpn >= |table| then Fault(AddressErrorException)
      else if !table[vpn].valid then Fault(PageFaultException)
      else if table[vpn].readOnly && writing then Fault(ReadOnlyException)
      else if table[vpn].frame >= NUM_PHYS_PAGES then Fault(BusErrorException)
      else
        OnePage(v, size);
        Divides(table[vpn].frame, PAGE_SIZE, v % PAGE_SIZE);
        At(table[vpn].frame * PAGE_SIZE + v % PAGE_SIZE)
  }

  /** Which accesses go through and where to, and what each exception of the others means. */
  lemma AccessExactly(table: seq<Pte>, v: uint32, size: nat, writing: bool)
    requires size in {1, 2, 4}
    ensures var a, page := Translate(table, v, size, writing), v / PAGE_SIZE;
            && (a == Fault(AddressErrorException) <==> v % size != 0 || page >= |table|)
            && (a != Fault(AddressErrorException) ==>
                  var e := table[page];
                  && (a == Fault(PageFaultException) <==> !e.valid)
                  && (a == Fault(ReadOnlyException) <==> e.valid && e.readOnly && writing)
                  && (a == Fault(BusErrorException)
                    <==> e.valid && !(e.readOnly && writing) && e.frame >= NUM_PHYS_PAGES)
                  && (a == At(PAGE_SIZE * e.frame + v % PAGE_SIZE) <==>
                        e.valid && !(e.readOnly && writing) && e.frame < NUM_PHYS_PAGES))
  {
  }

  /** An aligned access stays in one page. */
  lemma OnePage(v: uint32, size: nat)
    requires size in {1, 2, 4} && v % size == 0
    ensures v % PAGE_SIZE + size <= PAGE_SIZE
  {
    var page, offset, k := v / PAGE_SIZE, v % PAGE_SIZE, v / size;
    assert v == PAGE_SIZE * page + offset;
    if size == 2 {
      assert v == 2 * k;
      assert offset == 2 * (k - 64 * page);
    } else if size == 4 {
      assert v == 4 * k;
      assert offset == 4 * (k - 32 * page);
    }
  }

  /** The use and dirty bits a successful access sets. */
  function Touch(table: seq<Pte>, v: uint32, writing: bool): (t: seq<Pte>)
    requires v / PAGE_SIZE < |table|
    ensures SameMapping(table, t)
  {
    var e := table[v / PAGE_SIZE];
    table[v / PAGE_SIZE := e.(use := true, dirty := e.dirty || writing)]
  }

  /** Equal but for use and dirty bits. */
  predicate SameMapping(s: seq<Pte>, t: seq<Pte>) {
    && |s| == |t|
    && forall i | 0 <= i < |s| ::
         s[i].frame == t[i].frame && s[i].valid == t[i].valid && s[i].readOnly == t[i].readOnly
  }

  lemma SameTranslate(s: seq<Pte>, t: seq<Pte>, v: uint32, size: nat, writing: bool)
    requires SameMapping(s, t) && size in {1, 2, 4}
    ensures Translate(s, v, size, writing) == Translate(t, v, size, writing)
  {
  }

  // ---------------------------------------------------------------------------------
  // Bytes of physical memory.

  function PutWord(mem: seq<byte>, p: nat, w: uint32): (m: seq<byte>)
    requires p + 4 <= |mem|
    ensures |m| == |mem|
  {
    mem[p := ByteOf(w, 0)][p + 1 := ByteOf(w, 1)][p + 2 := ByteOf(w, 2)][p + 3 := ByteOf(w, 3)]
  }

  /** What the value register of ReadMem holds for 1, 2 or 4 bytes at p: a char is signed, a
      short is not. */
  function Fetch(mem: seq<byte>, p: nat, size: nat): int32
    requires size in {1, 2, 4} && p + size <= |mem|
  {
    if size == 1 then if mem[p] < 0x80 then mem[p] else mem[p] - 0x100
    else if size == 2 then mem[p] + 0x100 * mem[p + 1]
    else Signed(WordAt(mem, p))
  }

  function Put(mem: seq<byte>, p: nat, size: nat, value: int32): (m: seq<byte>)
    requires size in {1, 2, 4} && p + size <= |mem|
    ensures |m| == |mem|
  {
    var w := Unsigned(value);
    if size == 1 then mem[p := ByteOf(w, 0)]
    else if size == 2 then mem[p := ByteOf(w, 0)][p + 1 := ByteOf(w, 1)]
    else PutWord(mem, p, w)
  }

  /** What ReadMem makes of the low bytes of a value. */
  function Narrow(value: int32, size: nat): int32
    requires size in {1, 2, 4}
  {
    if size == 1 then var low := Unsigned(value) % 0x100; if low < 0x80 then low else low - 0x100
    else if size == 2 then Unsigned(value) % 0x1_0000
    else value
  }

  /** Reading back what was written gives the low bytes of the value, as ReadMem extends
      them, and no byte outside the access changes. */
  lemma PutThenFetch(mem: seq<byte>, p: nat, size: nat, value: int32)
    requires size in {1, 2, 4} && p + size <= |mem|
    ensures Fetch(Put(mem, p, size, value), p, size) == Narrow(value, size)
    ensures forall q | 0 <= q < |mem| && !(p <= q < p + size) :: Put(mem, p, size, value)[q] == mem[q]
  {
    var w := Unsigned(value);
    if size == 4 {
      PutThenFetchWord(mem, p, w);
      SignedUnsigned(value);
      hide WordAt, PutWord, Signed, Unsigned;
    } else {
      LowHalf(w);
      hide WordAt, PutWord, ByteOf, Unsigned;
    }
  }

  lemma SignedUnsigned(x: int32)
    ensures Signed(Unsigned(x)) == x
  {
  }

  lemma LowHalf(w: uint32)
    ensures ByteOf(w, 0) == w % 0x100 && ByteOf(w, 0) + 0x100 * ByteOf(w, 1) == w % 0x1_0000
  {
    var high, low := w / 0x100, w % 0x100;
    Divides(high / 0x100, 0x1_0000, high % 0x100 * 0x100 + low);
  }

  lemma PutThenFetchWord(mem: seq<byte>, p: nat, w: uint32)
    requires p + 4 <= |mem|
    ensures WordAt(PutWord(mem, p, w), p) == w
    ensures forall q | 0 <= q < |mem| && !(p <= q < p + 4) :: PutWord(mem, p, w)[q] == mem[q]
  {
    BytesOfWord(w);
    hide ByteOf, Combine;
  }
}

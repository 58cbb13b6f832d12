/** Loading a program: the two loops of userprog/addrspace.cc that copy an executable into the
    frames of its new address space.

    Page i of a segment goes to physical address `virtualAddr + frame * PageSize`, where `frame`
    is the frame of page i of the space, and not of the page at `virtualAddr`. */
module Loading {
  import opened Options
  import opened Memory
  import opened MachineWords
  import opened Cpu
  import Disks
  import OpenFiles

  const USER_STACK_SIZE := 1024

  datatype Segment = Segment(virtualAddr: nat, inFileAddr: nat, size: nat)

  /** The fields of the NOFF header that the constructor uses, and the bytes of the file. */
  datatype Executable = Executable(code: Segment, initData: Segment, uninitSize: nat, file: seq<byte>)

  function SpaceSize(exe: Executable): nat {
    exe.code.size + exe.initData.size + exe.uninitSize + USER_STACK_SIZE
  }

  // ---------------------------------------------------------------------------------
  // One segment.

  /** How many bytes ReadAt finds for page i of the segment: the file may end earlier. */
  function PieceLength(length: nat, seg: Segment, i: nat): (n: nat)
    ensures n <= PAGE_SIZE && (n > 0 ==> seg.inFileAddr + i * PAGE_SIZE + n <= length)
  {
    OpenFiles.Clip(length, PAGE_SIZE, seg.inFileAddr + i * PAGE_SIZE)
  }

  function Piece(file: seq<byte>, seg: Segment, i: nat): (s: seq<byte>)
    ensures |s| == PieceLength(|file|, seg, i)
  {
    var n, at := PieceLength(|file|, seg, i), seg.inFileAddr + i * PAGE_SIZE;
    if n == 0 then [] else file[at..at + n]
  }

  /** Where page i of the segment is put. */
  function Destination(frames: seq<nat>, seg: Segment, i: nat): nat
    requires i < |frames|
  {
    seg.virtualAddr + frames[i] * PAGE_SIZE
  }

  /** Physical byte q is written for page i. */
  predicate Hits(frames: seq<nat>, seg: Segment, length: nat, i: nat, q: nat)
    requires i < |frames|
  {
    0 <= q - Destination(frames, seg, i) < PieceLength(length, seg, i)
  }

  /** All that is written lies in main memory. */
  predicate InMemory(frames: seq<nat>, seg: Segment, length: nat) {
    seg.size > 0 ==> forall i: nat | i < |frames| && PieceLength(length, seg, i) > 0 ::
      Destination(frames, seg, i) + PieceLength(length, seg, i) <= MEMORY_SIZE
  }

  /** Memory after the first n pages of the segment have been copied. */
  function CopyPages(mem: Mem, frames: seq<nat>, seg: Segment, file: seq<byte>, n: nat): Mem
    requires n <= |frames| && seg.size > 0 && InMemory(frames, seg, |file|)
  {
    if n == 0 then mem
    else
      var m, piece := CopyPages(mem, frames, seg, file, n - 1), Piece(file, seg, n - 1);
      if piece == [] then m else Disks.Over(m, Destination(frames, seg, n - 1), piece)
  }

  function Copied(mem: Mem, frames: seq<nat>, seg: Segment, file: seq<byte>): Mem
    requires InMemory(frames, seg, |file|)
  {
    if seg.size > 0 then CopyPages(mem, frames, seg, file, |frames|) else mem
  }

  /** Code first, then initialised data. */
  function WithProgram(mem: Mem, frames: seq<nat>, exe: Executable): Mem
    requires InMemory(frames, exe.code, |exe.file|) && InMemory(frames, exe.initData, |exe.file|)
  {
    Copied(Copied(mem, frames, exe.code, exe.file), frames, exe.initData, exe.file)
  }

  lemma OnePageAt(mem: Mem, frames: seq<nat>, seg: Segment, file: seq<byte>, i: nat, q: nat)
    requires i < |frames| && seg.size > 0 && InMemory(frames, seg, |file|) && q < MEMORY_SIZE
    ensures Hits(frames, seg, |file|, i, q) ==> FileByte(frames, seg, i, q) < |file|
    ensures CopyPages(mem, frames, seg, file, i + 1)[q]
            == if Hits(frames, seg, |file|, i, q) then file[FileByte(frames, seg, i, q)]
               else CopyPages(mem, frames, seg, file, i)[q]
  {
    var m, piece, at := CopyPages(mem, frames, seg, file, i), Piece(file, seg, i), Destination(frames, seg, i);
    hide PieceLength, InMemory, Destination;
    if piece != [] {
      OverAt(m, at, piece, q);
    }
  }

  /** The place in the file of what is written to q for page i. */
  function FileByte(frames: seq<nat>, seg: Segment, i: nat, q: nat): int
    requires i < |frames|
  {
    seg.inFileAddr + i * PAGE_SIZE + (q - Destination(frames, seg, i))
  }

  lemma OverAt(s: seq<byte>, at: nat, data: seq<byte>, q: nat)
    requires at + |data| <= |s| && q < |s|
    ensures Disks.Over(s, at, data)[q] == if at <= q < at + |data| then data[q - at] else s[q]
  {
  }

  lemma NoPages(mem: Mem, frames: seq<nat>, seg: Segment, file: seq<byte>)
    requires seg.size > 0 && InMemory(frames, seg, |file|)
    ensures CopyPages(mem, frames, seg, file, 0) == mem
  {
  }

  /** What no page hits stays. */
  lemma {:induction false} MissedStays(mem: Mem, frames: seq<nat>, seg: Segment, file: seq<byte>, n: nat, q: nat)
    requires n <= |frames| && seg.size > 0 && InMemory(frames, seg, |file|) && q < MEMORY_SIZE
    requires forall i: nat | i < n :: !Hits(frames, seg, |file|, i, q)
    ensures CopyPages(mem, frames, seg, file, n)[q] == mem[q]
  {
    hide CopyPages, Hits, InMemory;
    if n == 0 {
      NoPages(mem, frames, seg, file);
    } else {
      MissedStays(mem, frames, seg, file, n - 1, q);
      OnePageAt(mem, frames, seg, file, n - 1, q);
    }
  }

  /** A byte of main memory is hit for one page at most, since the frames differ. */
  lemma HitOnce(frames: seq<nat>, seg: Segment, length: nat, i: nat, j: nat, q: nat)
    requires i < |frames| && j < |frames| && Distinct(frames)
    requires Hits(frames, seg, length, i, q) && Hits(frames, seg, length, j, q)
    ensures i == j
  {
    assert frames[i] == frames[j];
  }

  lemma {:induction false} HitHolds(mem: Mem, frames: seq<nat>, seg: Segment, file: seq<byte>, n: nat, i: nat, q: nat)
    requires i < n <= |frames| && Distinct(frames) && q < MEMORY_SIZE
    requires seg.size > 0 && InMemory(frames, seg, |file|) && Hits(frames, seg, |file|, i, q)
    ensures FileByte(frames, seg, i, q) < |file|
    ensures CopyPages(mem, frames, seg, file, n)[q] == file[FileByte(frames, seg, i, q)]
  {
    hide CopyPages, Hits, InMemory, Distinct, FileByte;
    OnePageAt(mem, frames, seg, file, n - 1, q);
    if i < n - 1 {
      HitHolds(mem, frames, seg, file, n - 1, i, q);
      if Hits(frames, seg, |file|, n - 1, q) { HitOnce(frames, seg, |file|, i, n - 1, q); }
    }
  }

  // ---------------------------------------------------------------------------------
  // When the copy stays in the frames of the space.

  /** The frames that a piece reaches into, the first and the last byte of it, are of the space. */
  predicate Confined(frames: seq<nat>, seg: Segment, length: nat) {
    seg.size > 0 ==> forall i: nat | i < |frames| && PieceLength(length, seg, i) > 0 ::
      PieceInside(frames, seg, length, i)
  }

  predicate PieceInside(frames: seq<nat>, seg: Segment, length: nat, i: nat)
    requires i < |frames| && PieceLength(length, seg, i) > 0
  {
    var at := Destination(frames, seg, i);
    at / PAGE_SIZE in frames && (at + PieceLength(length, seg, i) - 1) / PAGE_SIZE in frames
  }

  /** No byte outside the frames changes. */
  ghost predicate Leaves(mem: Mem, mem': Mem, frames: seq<nat>) {
    forall q: nat | q < MEMORY_SIZE && q / PAGE_SIZE !in frames :: mem'[q] == mem[q]
  }

  lemma InsideHits(frames: seq<nat>, seg: Segment, length: nat, i: nat, q: nat)
    requires i < |frames| && PieceLength(length, seg, i) > 0 && PieceInside(frames, seg, length, i)
    requires Hits(frames, seg, length, i, q)
    ensures q / PAGE_SIZE in frames
  {
    var at, n := Destination(frames, seg, i), PieceLength(length, seg, i);
    BetweenFrames(at, n, q - at);
  }

  lemma BetweenFrames(at: nat, n: nat, k: nat)
    requires k < n <= PAGE_SIZE
    ensures (at + k) / PAGE_SIZE == at / PAGE_SIZE || (at + k) / PAGE_SIZE == (at + n - 1) / PAGE_SIZE
  {
    var f, r := at / PAGE_SIZE, at % PAGE_SIZE;
    if r + k < PAGE_SIZE {
      Divides(f, PAGE_SIZE, r + k);
    } else {
      Divides(f + 1, PAGE_SIZE, r + k - PAGE_SIZE);
      Divides(f + 1, PAGE_SIZE, r + n - 1 - PAGE_SIZE);
    }
  }

  lemma ConfinedLeaves(mem: Mem, frames: seq<nat>, seg: Segment, file: seq<byte>)
    requires InMemory(frames, seg, |file|) && Confined(frames, seg, |file|)
    ensures Leaves(mem, Copied(mem, frames, seg, file), frames)
  {
    forall q: nat | q < MEMORY_SIZE && q / PAGE_SIZE !in frames && seg.size > 0
      ensures CopyPages(mem, frames, seg, file, |frames|)[q] == mem[q]
    {
      forall i: nat | i < |frames| ensures !Hits(frames, seg, |file|, i, q) {
        if Hits(frames, seg, |file|, i, q) { InsideHits(frames, seg, |file|, i, q); }
      }
      MissedStays(mem, frames, seg, file, |frames|, q);
    }
    hide CopyPages, InMemory, Confined;
  }

  /** With the same byte everywhere in the file, that is what a hit leaves. */
  lemma {:induction false} SameByteHits(mem: Mem, frames: seq<nat>, seg: Segment, file: seq<byte>, b: byte, n: nat,
      i: nat, q: nat)
    requires i < n <= |frames| && seg.size > 0 && InMemory(frames, seg, |file|) && q < MEMORY_SIZE
    requires Hits(frames, seg, |file|, i, q) && forall k | 0 <= k < |file| :: file[k] == b
    ensures CopyPages(mem, frames, seg, file, n)[q] == b
  {
    hide CopyPages, Hits, InMemory, FileByte;
    OnePageAt(mem, frames, seg, file, n - 1, q);
    if Hits(frames, seg, |file|, n - 1, q) {
      FileByteOf(frames, seg, |file|, n - 1, q);
    } else {
      SameByteHits(mem, frames, seg, file, b, n - 1, i, q);
    }
  }

  lemma FileByteOf(frames: seq<nat>, seg: Segment, length: nat, i: nat, q: nat)
    requires i < |frames| && Hits(frames, seg, length, i, q)
    ensures 0 <= FileByte(frames, seg, i, q) < length
  {
  }

  lemma EscapePlace(frames: seq<nat>, seg: Segment, length: nat) returns (i: nat, q: nat)
    requires InMemory(frames, seg, length) && !Confined(frames, seg, length)
    ensures seg.size > 0 && i < |frames| && q < MEMORY_SIZE && q / PAGE_SIZE !in frames
            && Hits(frames, seg, length, i, q)
  {
    i :| i < |frames| && PieceLength(length, seg, i) > 0 && !PieceInside(frames, seg, length, i);
    var at, n := Destination(frames, seg, i), PieceLength(length, seg, i);
    q := if at / PAGE_SIZE !in frames then at else at + n - 1;
  }

  function OtherByte(b: byte): (r: byte)
    ensures r != b
  {
    if b == 0 then 1 else 0
  }

  /** Some content of the file shows up outside the frames. */
  lemma Escapes(mem: Mem, frames: seq<nat>, seg: Segment, length: nat) returns (file: seq<byte>)
    requires InMemory(frames, seg, length) && !Confined(frames, seg, length)
    ensures |file| == length && !Leaves(mem, Copied(mem, frames, seg, file), frames)
  {
    var i, q := EscapePlace(frames, seg, length);
    var b := OtherByte(mem[q]);
    file := seq(length, _ => b);
    hide Hits, InMemory, Confined, CopyPages;
    SameByteHits(mem, frames, seg, file, b, |frames|, i, q);
  }

  /** The copy changes no byte outside the space's frames, whatever the file holds, exactly when
      every frame it reaches into is one of them. */
  lemma CopyStaysIff(mem: Mem, frames: seq<nat>, seg: Segment, length: nat)
    requires InMemory(frames, seg, length)
    ensures Confined(frames, seg, length)
            <==> forall file: seq<byte> | |file| == length :: Leaves(mem, Copied(mem, frames, seg, file), frames)
  {
    hide InMemory, Confined, Leaves, Copied;
    if Confined(frames, seg, length) {
      forall file: seq<byte> | |file| == length ensures Leaves(mem, Copied(mem, frames, seg, file), frames) {
        ConfinedLeaves(mem, frames, seg, file);
      }
    } else {
      var file := Escapes(mem, frames, seg, length);
    }
  }

  lemma ProgramEscapes(mem: Mem, frames: seq<nat>, exe: Executable) returns (file: seq<byte>)
    requires InMemory(frames, exe.code, |exe.file|) && InMemory(frames, exe.initData, |exe.file|)
    requires !(Confined(frames, exe.code, |exe.file|) && Confined(frames, exe.initData, |exe.file|))
    ensures |file| == |exe.file| && !Leaves(mem, WithProgram(mem, frames, exe.(file := file)), frames)
  {
    var seg := if Confined(frames, exe.initData, |exe.file|) then exe.code else exe.initData;
    var i, q := EscapePlace(frames, seg, |exe.file|);
    var b := OtherByte(mem[q]);
    file := seq(|exe.file|, _ => b);
    hide Hits, InMemory, Confined, CopyPages;
    var coded := Copied(mem, frames, exe.code, file);
    if Confined(frames, exe.initData, |exe.file|) {
      SameByteHits(mem, frames, seg, file, b, |frames|, i, q);
      ConfinedLeaves(coded, frames, exe.initData, file);
    } else {
      SameByteHits(coded, frames, seg, file, b, |frames|, i, q);
    }
  }

  /** So for both segments together. */
  lemma ProgramStaysIff(mem: Mem, frames: seq<nat>, exe: Executable)
    requires InMemory(frames, exe.code, |exe.file|) && InMemory(frames, exe.initData, |exe.file|)
    ensures Confined(frames, exe.code, |exe.file|) && Confined(frames, exe.initData, |exe.file|)
            <==> forall file: seq<byte> | |file| == |exe.file| ::
                   Leaves(mem, WithProgram(mem, frames, exe.(file := file)), frames)
  {
    hide InMemory, Confined, Copied;
    if Confined(frames, exe.code, |exe.file|) && Confined(frames, exe.initData, |exe.file|) {
      forall file: seq<byte> | |file| == |exe.file|
        ensures Leaves(mem, WithProgram(mem, frames, exe.(file := file)), frames)
      {
        ConfinedLeaves(mem, frames, exe.code, file);
        ConfinedLeaves(Copied(mem, frames, exe.code, file), frames, exe.initData, file);
      }
    } else {
      var file := ProgramEscapes(mem, frames, exe);
      hide WithProgram, Leaves;
    }
  }

  /** A copy inside the frames is inside main memory. */
  lemma ConfinedInMemory(frames: seq<nat>, seg: Segment, length: nat)
    requires Confined(frames, seg, length)
    requires forall i | 0 <= i < |frames| :: frames[i] < NUM_PHYS_PAGES
    ensures InMemory(frames, seg, length)
  {
    forall i: nat | i < |frames| && PieceLength(length, seg, i) > 0 && seg.size > 0
      ensures Destination(frames, seg, i) + PieceLength(length, seg, i) <= MEMORY_SIZE
    {
      assert PieceInside(frames, seg, length, i);
      var last := Destination(frames, seg, i) + PieceLength(length, seg, i) - 1;
      assert last / PAGE_SIZE < NUM_PHYS_PAGES;
    }
  }

  // ---------------------------------------------------------------------------------
  // When the segment ends up at its virtual address.

  /** The physical place of virtual byte v of a space with these frames. */
  function PlaceIn(frames: seq<nat>, v: nat): nat
    requires v / PAGE_SIZE < |frames|
  {
    frames[v / PAGE_SIZE] * PAGE_SIZE + v % PAGE_SIZE
  }

  /** How many bytes from inFileAddr on are copied into n pages. */
  function Span(length: nat, seg: Segment, n: nat): nat {
    OpenFiles.Clip(length, n * PAGE_SIZE, seg.inFileAddr)
  }

  ghost predicate Consecutive(frames: seq<nat>) {
    forall i | 0 <= i < |frames| :: frames[i] == frames[0] + i
  }

  /** Byte k of the segment belongs to page k / PAGE_SIZE. */
  lemma ByteOfPage(length: nat, seg: Segment, n: nat, k: nat)
    ensures k < Span(length, seg, n) <==> k / PAGE_SIZE < n && k % PAGE_SIZE < PieceLength(length, seg, k / PAGE_SIZE)
  {
    var i, r := k / PAGE_SIZE, k % PAGE_SIZE;
    assert k == i * PAGE_SIZE + r;
  }

  lemma PlaceHolds(mem: Mem, frames: seq<nat>, seg: Segment, file: seq<byte>, k: nat, q: nat)
    requires Distinct(frames) && InMemory(frames, seg, |file|) && seg.size > 0 && k < Span(|file|, seg, |frames|)
    requires k / PAGE_SIZE < |frames| ==> q == Destination(frames, seg, k / PAGE_SIZE) + k % PAGE_SIZE
    ensures k / PAGE_SIZE < |frames| && q < MEMORY_SIZE && seg.inFileAddr + k < |file|
    ensures Copied(mem, frames, seg, file)[q] == file[seg.inFileAddr + k]
  {
    ByteOfPage(|file|, seg, |frames|, k);
    var i := k / PAGE_SIZE;
    assert Hits(frames, seg, |file|, i, q);
    HitHolds(mem, frames, seg, file, |frames|, i, q);
    hide CopyPages, PieceLength;
  }

  /** A segment that starts at virtual address 0 is always loaded right, whatever the frames. */
  lemma AtZeroPlaced(mem: Mem, frames: seq<nat>, seg: Segment, file: seq<byte>, k: nat)
    requires Distinct(frames) && InMemory(frames, seg, |file|) && seg.virtualAddr == 0 && seg.size > 0
    requires k < Span(|file|, seg, |frames|)
    ensures Confined(frames, seg, |file|)
    ensures k / PAGE_SIZE < |frames| && PlaceIn(frames, k) < MEMORY_SIZE && seg.inFileAddr + k < |file|
    ensures Copied(mem, frames, seg, file)[PlaceIn(frames, k)] == file[seg.inFileAddr + k]
  {
    forall i: nat | i < |frames| && PieceLength(|file|, seg, i) > 0 ensures PieceInside(frames, seg, |file|, i) {
      Divides(frames[i], PAGE_SIZE, 0);
      Divides(frames[i], PAGE_SIZE, PieceLength(|file|, seg, i) - 1);
    }
    ByteOfPage(|file|, seg, |frames|, k);
    PlaceHolds(mem, frames, seg, file, k, PlaceIn(frames, k));
  }

  lemma ConsecutiveDestination(frames: seq<nat>, seg: Segment, i: nat, r: nat)
    requires Consecutive(frames) && i < |frames|
    ensures Destination(frames, seg, i) + r == frames[0] * PAGE_SIZE + (seg.virtualAddr + i * PAGE_SIZE + r)
  {
  }

  lemma ConsecutiveFrame(frames: seq<nat>, v: nat)
    requires Consecutive(frames) && frames != []
    ensures (frames[0] * PAGE_SIZE + v) / PAGE_SIZE in frames <==> v < |frames| * PAGE_SIZE
    ensures v < |frames| * PAGE_SIZE ==> v / PAGE_SIZE < |frames| && PlaceIn(frames, v) == frames[0] * PAGE_SIZE + v
  {
    var i, r := v / PAGE_SIZE, v % PAGE_SIZE;
    Divides(frames[0] + i, PAGE_SIZE, r);
    if i < |frames| {
      assert frames[i] == frames[0] + i;
    } else {
      assert forall j | 0 <= j < |frames| :: frames[j] != frames[0] + i;
    }
  }

  /** What is copied of the segment ends inside a space of n pages. */
  predicate EndsInside(length: nat, seg: Segment, n: nat) {
    seg.size > 0 && Span(length, seg, n) > 0 ==> seg.virtualAddr + Span(length, seg, n) <= n * PAGE_SIZE
  }

  /** On consecutive frames a segment stays inside exactly when it ends inside the space. */
  lemma ConsecutiveIff(frames: seq<nat>, seg: Segment, length: nat)
    requires Consecutive(frames)
    ensures Confined(frames, seg, length) <==> EndsInside(length, seg, |frames|)
  {
    var span, v := Span(length, seg, |frames|), seg.virtualAddr;
    if EndsInside(length, seg, |frames|) {
      forall i: nat | i < |frames| && PieceLength(length, seg, i) > 0 && seg.size > 0
        ensures PieceInside(frames, seg, length, i)
      {
        ConsecutivePiece(frames, seg, length, i);
      }
    } else {
      var k := span - 1;
      ByteOfPage(length, seg, |frames|, k);
      LastOfPiece(length, seg, |frames|);
      ConsecutivePiece(frames, seg, length, k / PAGE_SIZE);
    }
    hide PieceLength, Span, PieceInside;
  }

  /** The last byte copied is the last of its piece. */
  lemma LastOfPiece(length: nat, seg: Segment, n: nat)
    requires Span(length, seg, n) > 0
    ensures var k := Span(length, seg, n) - 1;
            k / PAGE_SIZE < n && PieceLength(length, seg, k / PAGE_SIZE) == k % PAGE_SIZE + 1
  {
    var k := Span(length, seg, n) - 1;
    var i, r := k / PAGE_SIZE, k % PAGE_SIZE;
    assert k == i * PAGE_SIZE + r;
  }

  lemma ConsecutivePiece(frames: seq<nat>, seg: Segment, length: nat, i: nat)
    requires Consecutive(frames) && i < |frames| && PieceLength(length, seg, i) > 0
    ensures PieceInside(frames, seg, length, i)
            <==> seg.virtualAddr + i * PAGE_SIZE + PieceLength(length, seg, i) <= |frames| * PAGE_SIZE
    ensures i * PAGE_SIZE + PieceLength(length, seg, i) <= Span(length, seg, |frames|)
  {
    var n, v := PieceLength(length, seg, i), seg.virtualAddr + i * PAGE_SIZE;
    ConsecutiveDestination(frames, seg, i, 0);
    ConsecutiveDestination(frames, seg, i, n - 1);
    ConsecutiveFrame(frames, v);
    ConsecutiveFrame(frames, v + n - 1);
    ByteOfPage(length, seg, |frames|, i * PAGE_SIZE + n - 1);
    Divides(i, PAGE_SIZE, n - 1);
    hide PieceLength, Span;
  }

  /** And then every byte of it is at its virtual address. */
  lemma ConsecutivePlaced(mem: Mem, frames: seq<nat>, seg: Segment, file: seq<byte>, k: nat)
    requires Distinct(frames) && Consecutive(frames) && InMemory(frames, seg, |file|) && seg.size > 0
    requires EndsInside(|file|, seg, |frames|) && k < Span(|file|, seg, |frames|)
    ensures var v := seg.virtualAddr + k;
            && v / PAGE_SIZE < |frames| && PlaceIn(frames, v) < MEMORY_SIZE && seg.inFileAddr + k < |file|
            && Copied(mem, frames, seg, file)[PlaceIn(frames, v)] == file[seg.inFileAddr + k]
  {
    hide InMemory, Distinct, Copied, PlaceIn, Span;
    ByteOfPage(|file|, seg, |frames|, k);
    ConsecutiveFrame(frames, seg.virtualAddr + k);
    ConsecutiveDestination(frames, seg, k / PAGE_SIZE, k % PAGE_SIZE);
    PlaceHolds(mem, frames, seg, file, k, PlaceIn(frames, seg.virtualAddr + k));
  }

  /** Virtual byte v is outside what is copied of the segment. */
  predicate Outside(length: nat, seg: Segment, n: nat, v: nat) {
    seg.size == 0 || !(0 <= v - seg.virtualAddr < Span(length, seg, n))
  }

  lemma ConsecutiveElsewhere(mem: Mem, frames: seq<nat>, seg: Segment, file: seq<byte>, v: nat)
    requires Consecutive(frames) && InMemory(frames, seg, |file|) && v < |frames| * PAGE_SIZE
    requires Outside(|file|, seg, |frames|, v)
    ensures v / PAGE_SIZE < |frames|
    ensures PlaceIn(frames, v) < MEMORY_SIZE ==>
            Copied(mem, frames, seg, file)[PlaceIn(frames, v)] == mem[PlaceIn(frames, v)]
  {
    hide CopyPages, InMemory, PieceLength, Span;
    ConsecutiveFrame(frames, v);
    var q := PlaceIn(frames, v);
    if seg.size > 0 && q < MEMORY_SIZE {
      forall i: nat | i < |frames| ensures !Hits(frames, seg, |file|, i, q) {
        if Hits(frames, seg, |file|, i, q) {
          var r := q - Destination(frames, seg, i);
          ConsecutiveDestination(frames, seg, i, r);
          Divides(i, PAGE_SIZE, r);
          ByteOfPage(|file|, seg, |frames|, i * PAGE_SIZE + r);
          assert false;
        }
      }
      MissedStays(mem, frames, seg, file, |frames|, q);
    }
  }

  /** Byte v of a program in memory: initialised data, else code, else zero. */
  function ImageByte(exe: Executable, n: nat, v: nat): byte {
    if !Outside(|exe.file|, exe.initData, n, v) then exe.file[exe.initData.inFileAddr + v - exe.initData.virtualAddr]
    else if !Outside(|exe.file|, exe.code, n, v) then exe.file[exe.code.inFileAddr + v - exe.code.virtualAddr]
    else 0
  }

  /** On consecutive zeroed frames that both segments end inside of, the program is in place,
      and the rest of the space is zero. */
  lemma ProgramPlaced(mem: Mem, frames: seq<nat>, exe: Executable, v: nat)
    requires Distinct(frames) && Consecutive(frames) && v < |frames| * PAGE_SIZE
    requires InMemory(frames, exe.code, |exe.file|) && EndsInside(|exe.file|, exe.code, |frames|)
    requires InMemory(frames, exe.initData, |exe.file|) && EndsInside(|exe.file|, exe.initData, |frames|)
    requires v / PAGE_SIZE < |frames| ==> PlaceIn(frames, v) < MEMORY_SIZE && mem[PlaceIn(frames, v)] == 0
    ensures v / PAGE_SIZE < |frames| && WithProgram(mem, frames, exe)[PlaceIn(frames, v)] == ImageByte(exe, |frames|, v)
  {
    var file, n, coded := exe.file, |frames|, Copied(mem, frames, exe.code, exe.file);
    hide InMemory, EndsInside, Copied, Span, Distinct, Consecutive, PlaceIn;
    if !Outside(|file|, exe.initData, n, v) {
      ConsecutivePlaced(coded, frames, exe.initData, file, v - exe.initData.virtualAddr);
    } else {
      ConsecutiveElsewhere(coded, frames, exe.initData, file, v);
      if !Outside(|file|, exe.code, n, v) {
        ConsecutivePlaced(mem, frames, exe.code, file, v - exe.code.virtualAddr);
      } else {
        ConsecutiveElsewhere(mem, frames, exe.code, file, v);
      }
    }
  }
}

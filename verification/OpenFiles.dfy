/** Files: filesys/filehdr.cc and filesys/openfile.cc.  A file is a header that lists data
    sectors; an open file reads and writes any run of its bytes through whole sectors. */
module OpenFiles {
  import opened Options
  import opened MachineWords
  import opened Disks

  const NUM_DIRECT := 30
  const MAX_FILE_SIZE := NUM_DIRECT * SECTOR_SIZE

  function DivRoundUp(n: nat, s: nat): nat
    requires s > 0
  {
    n / s + if n % s > 0 then 1 else 0
  }

  /** What a file header says: the length in bytes and the data sectors. */
  datatype Inode = Inode(length: nat, blocks: seq<nat>)

  ghost predicate WellFormed(f: Inode) {
    && |f.blocks| == DivRoundUp(f.length, SECTOR_SIZE) <= NUM_DIRECT
    && Distinct(f.blocks)
    && forall k | 0 <= k < |f.blocks| :: f.blocks[k] < NUM_SECTORS
  }

  /** A header sector is 32 words: the length, the number of data sectors, and room for 30
      sector numbers, of which the first so many count. */
  function InodeAt(s: Sector): (f: Inode) {
    var w := Words(s);
    Inode(w[0], w[2..2 + if w[1] <= NUM_DIRECT then w[1] else NUM_DIRECT])
  }

  // ---------------------------------------------------------------------------------
  // The file as a flat array of bytes.

  ghost function ByteOf(d: Image, f: Inode, i: nat): byte
    requires WellFormed(f) && i < f.length
  {
    d[f.blocks[i / SECTOR_SIZE]][i % SECTOR_SIZE]
  }

  ghost function Flat(d: Image, f: Inode): (s: seq<byte>)
    requires WellFormed(f)
    ensures |s| == f.length
  {
    seq(f.length, i requires 0 <= i < f.length => ByteOf(d, f, i))
  }

  /** How many bytes of a request at `position` lie in the file. */
  function Clip(length: nat, numBytes: int, position: nat): (n: nat)
    ensures n > 0 ==> position + n <= length && n <= numBytes
  {
    if numBytes <= 0 || position >= length then 0
    else if position + numBytes > length then length - position
    else numBytes
  }

  /** How many bytes ReadAt and WriteAt go on to transfer: the end of the request is an int. */
  function Transfer(length: nat, numBytes: int32, position: nat): (n: nat)
    ensures NoWrap(length, numBytes, position) ==> n == Clip(length, numBytes, position)
  {
    if numBytes <= 0 || position >= length then 0
    else if Signed(position + numBytes) > length then length - position
    else numBytes
  }

  /** The end of the request fits an int, where it is looked at. */
  predicate NoWrap(length: nat, numBytes: int, position: nat) {
    numBytes <= 0 || position >= length || position + numBytes < TWO31
  }

  /** A request inside the file is cut at its end exactly when the sum does not wrap: past
      2^31 the sum is negative, nothing is cut, and the transfer runs past the file. */
  lemma TransferIff(length: nat, numBytes: int32, position: nat)
    requires position < length < TWO31 && numBytes > 0
    ensures Transfer(length, numBytes, position) == Clip(length, numBytes, position)
            <==> position + numBytes < TWO31
    ensures position + Transfer(length, numBytes, position) <= length <==> position + numBytes < TWO31
  {
    if position + numBytes >= TWO31 {
      assert Signed(position + numBytes) == position + numBytes - TWO32 < 0;
    }
  }

  /** One byte is left in the file, 2147483647 are asked for, and that many are transferred. */
  lemma RunsPastTheEnd()
    ensures Clip(2, 2147483647, 1) == 1 && Transfer(2, 2147483647, 1) == 2147483647
  {
    TransferIff(2, 2147483647, 1);
  }

  lemma LengthBound(f: Inode)
    requires WellFormed(f)
    ensures f.length <= MAX_FILE_SIZE
  {
  }

  /** A file's bytes depend on its own sectors only. */
  lemma FlatFrame(d: Image, d': Image, f: Inode)
    requires WellFormed(f) && forall b | b in f.blocks :: d'[b] == d[b]
    ensures Flat(d', f) == Flat(d, f)
  {
    forall i: nat | i < f.length ensures ByteOf(d', f, i) == ByteOf(d, f, i) {
      assert f.blocks[i / SECTOR_SIZE] in f.blocks;
    }
  }

  /** After a write: the slice reads back, the rest of the file is as before, and so is every
      file that shares no sector with it. */
  lemma WriteThenRead(d: Image, d': Image, f: Inode, g: Inode, position: nat, data: seq<byte>)
    requires WellFormed(f) && WellFormed(g) && position + |data| <= f.length
    requires Flat(d', f) == Over(Flat(d, f), position, data)
    requires forall b | 0 <= b < NUM_SECTORS && b !in f.blocks :: d'[b] == d[b]
    requires forall b | b in g.blocks :: b !in f.blocks
    ensures Flat(d', f)[position..position + |data|] == data
    ensures Flat(d', f)[..position] == Flat(d, f)[..position]
    ensures Flat(d', f)[position + |data|..] == Flat(d, f)[position + |data|..]
    ensures Flat(d', g) == Flat(d, g)
  {
    hide Flat;
    FlatFrame(d, d', g);
  }

  class OpenFile {
    const disk: SynchDisk
    const hdr: Inode
    var seekPosition: nat

    constructor (disk: SynchDisk, sector: nat)
      requires sector < NUM_SECTORS
      ensures this.disk == disk && hdr == InodeAt(disk.image[sector]) && seekPosition == 0
    {
      var data := disk.ReadSector(sector);
      this.disk, hdr, seekPosition := disk, InodeAt(data), 0;
    }

    method Seek(position: nat)
      modifies this`seekPosition
      ensures seekPosition == position
    {
      seekPosition := position;
    }

    method Read(into: array<byte>, numBytes: int32) returns (n: nat)
      requires NoWrap(hdr.length, numBytes, seekPosition)
      requires WellFormed(hdr) && Clip(hdr.length, numBytes, seekPosition) <= into.Length
      modifies into, this`seekPosition
      ensures n == Clip(hdr.length, numBytes, old(seekPosition)) && seekPosition == old(seekPosition) + n
      ensures n > 0 ==> into[..n] == Flat(disk.image, hdr)[old(seekPosition)..seekPosition]
    {
      n := ReadAt(into, 0, numBytes, seekPosition);
      seekPosition := seekPosition + n;
    }

    method Write(from: seq<byte>, numBytes: int32) returns (n: nat)
      requires NoWrap(hdr.length, numBytes, seekPosition)
      requires WellFormed(hdr) && Clip(hdr.length, numBytes, seekPosition) <= |from|
      modifies disk, this`seekPosition
      ensures n == Clip(hdr.length, numBytes, old(seekPosition)) && seekPosition == old(seekPosition) + n
      ensures n > 0 ==> Flat(disk.image, hdr) == Over(Flat(old(disk.image), hdr), old(seekPosition), from[..n])
      ensures forall b | 0 <= b < NUM_SECTORS && b !in hdr.blocks :: disk.image[b] == old(disk.image)[b]
    {
      n := WriteAt(from, numBytes, seekPosition);
      seekPosition := seekPosition + n;
    }

    /** Read the sectors that hold the bytes from `position` on and copy the part asked for
        to into[at..]. */
    method ReadAt(into: array<byte>, at: nat, numBytes: int32, position: nat) returns (n: nat)
      requires NoWrap(hdr.length, numBytes, position)
      requires WellFormed(hdr) && at + Clip(hdr.length, numBytes, position) <= into.Length
      modifies into
      ensures n == Clip(hdr.length, numBytes, position)
      ensures n == 0 ==> into[..] == old(into[..])
      ensures n > 0 ==> into[..] == Over(old(into[..]), at, Flat(disk.image, hdr)[position..position + n])
    {
      n := Transfer(hdr.length, numBytes, position);
      if n == 0 {
        return;
      }
      var firstSector := position / SECTOR_SIZE;
      var lastSector := (position + n - 1) / SECTOR_SIZE;
      SectorsExist(hdr, position, n);
      hide WellFormed, Flat;
      var buf := ReadSectors(firstSector, lastSector);
      var start := position - firstSector * SECTOR_SIZE;
      RunIsFlat(disk.image, hdr, firstSector, lastSector + 1, position, n);
      Copy(buf[start..start + n], into, at);
    }

    method ReadSectors(firstSector: nat, lastSector: nat) returns (buf: array<byte>)
      requires WellFormed(hdr) && firstSector <= lastSector < |hdr.blocks|
      ensures fresh(buf) && buf[..] == Run(disk.image, hdr, firstSector, lastSector + 1)
    {
      buf := new byte[(1 + lastSector - firstSector) * SECTOR_SIZE];
      for i := firstSector to lastSector + 1
        invariant buf[..(i - firstSector) * SECTOR_SIZE] == Run(disk.image, hdr, firstSector, i)
      {
        var data := disk.ReadSector(hdr.blocks[i]);
        var where := (i - firstSector) * SECTOR_SIZE;
        ghost var before := buf[..];
        Copy(data, buf, where);
        assert buf[..where + SECTOR_SIZE] == before[..where] + data;
      }
      assert buf[..] == buf[..(1 + lastSector - firstSector) * SECTOR_SIZE];
    }

    /** Read the sectors that are only partly overwritten, lay the new bytes over the buffer,
        and write the sectors back. */
    method WriteAt(from: seq<byte>, numBytes: int32, position: nat) returns (n: nat)
      requires NoWrap(hdr.length, numBytes, position)
      requires WellFormed(hdr) && Clip(hdr.length, numBytes, position) <= |from|
      modifies disk
      ensures n == Clip(hdr.length, numBytes, position)
      ensures n == 0 ==> disk.image == old(disk.image)
      ensures n > 0 ==> Flat(disk.image, hdr) == Over(Flat(old(disk.image), hdr), position, from[..n])
      ensures forall b | 0 <= b < NUM_SECTORS && b !in hdr.blocks :: disk.image[b] == old(disk.image)[b]
    {
      n := Transfer(hdr.length, numBytes, position);
      if n == 0 {
        return;
      }
      var firstSector := position / SECTOR_SIZE;
      var lastSector := (position + n - 1) / SECTOR_SIZE;
      SectorsExist(hdr, position, n);
      hide WellFormed, Flat, Patched;
      var buf := Patch(from[..n], position, firstSector, lastSector);
      var bytes := buf[..];
      WriteSectors(bytes, firstSector, lastSector);
      PiecesMakeFlat(old(disk.image), disk.image, hdr, bytes, firstSector, lastSector, position, from[..n]);
    }

    method WriteSectors(bytes: seq<byte>, firstSector: nat, lastSector: nat)
      requires WellFormed(hdr) && firstSector <= lastSector < |hdr.blocks|
      requires |bytes| == (1 + lastSector - firstSector) * SECTOR_SIZE
      modifies disk
      ensures forall k | firstSector <= k <= lastSector ::
                hdr.blocks[k] < NUM_SECTORS && disk.image[hdr.blocks[k]] == Piece(bytes, k - firstSector)
      ensures forall b | 0 <= b < NUM_SECTORS && b !in hdr.blocks[firstSector..lastSector + 1] ::
                disk.image[b] == old(disk.image)[b]
    {
      var i := firstSector;
      while i <= lastSector
        invariant firstSector <= i <= lastSector + 1
        invariant forall k | firstSector <= k < i :: disk.image[hdr.blocks[k]] == Piece(bytes, k - firstSector)
        invariant forall b | 0 <= b < NUM_SECTORS && b !in hdr.blocks[firstSector..i] ::
                  disk.image[b] == old(disk.image)[b]
      {
        disk.WriteSector(hdr.blocks[i], bytes[(i - firstSector) * SECTOR_SIZE..(i - firstSector + 1) * SECTOR_SIZE]);
        assert hdr.blocks[firstSector..i + 1] == hdr.blocks[firstSector..i] + [hdr.blocks[i]];
        i := i + 1;
      }
    }

    /** Fetch sector number k of the file into its place in the buffer. */
    method ReadPiece(buf: array<byte>, first: nat, k: nat, ghost lo: nat, ghost hi: nat)
      requires WellFormed(hdr) && first <= k && k * SECTOR_SIZE < hdr.length
               && (k + 1 - first) * SECTOR_SIZE <= buf.Length
      modifies buf
      ensures Agrees(buf[..], Flat(disk.image, hdr), first, k * SECTOR_SIZE, (k + 1) * SECTOR_SIZE)
      ensures Agrees(old(buf[..]), Flat(disk.image, hdr), first, lo, hi) ==>
              Agrees(buf[..], Flat(disk.image, hdr), first, lo, hi)
    {
      LengthBound(hdr);
      PieceFits(hdr.length, k * SECTOR_SIZE);
      hide Flat, Agrees, WellFormed, Over;
      hide Clip;
      var at, position := (k - first) * SECTOR_SIZE, k * SECTOR_SIZE;
      var got := ReadAt(buf, at, SECTOR_SIZE, position);
      PieceAgrees(old(buf[..]), Flat(disk.image, hdr), first, at, position, got, lo, hi);
    }

    /** WriteAt's buffer just before it goes to disk: inside the file it holds the new bytes
        and around them the old ones.  Past the end of the file it may hold anything. */
    method Patch(data: seq<byte>, position: nat, firstSector: nat, lastSector: nat) returns (buf: array<byte>)
      requires WellFormed(hdr) && |data| > 0 && position + |data| <= hdr.length
      requires firstSector == position / SECTOR_SIZE && lastSector == (position + |data| - 1) / SECTOR_SIZE
      ensures fresh(buf) && buf.Length == (1 + lastSector - firstSector) * SECTOR_SIZE
      ensures Patched(buf[..], Over(Flat(disk.image, hdr), position, data), firstSector)
    {
      hide Flat, Agrees, WellFormed;
      var n := |data|;
      buf := new byte[(1 + lastSector - firstSector) * SECTOR_SIZE];
      var firstAligned := position == firstSector * SECTOR_SIZE;
      var lastAligned := position + n == (lastSector + 1) * SECTOR_SIZE;
      ghost var flat := Flat(disk.image, hdr);
      ghost var start, end := firstSector * SECTOR_SIZE, (lastSector + 1) * SECTOR_SIZE;
      if !firstAligned {
        ReadPiece(buf, firstSector, firstSector, 0, 0);
        AgreesPart(buf[..], flat, firstSector, start, start + SECTOR_SIZE, start, position);
        AgreesPart(buf[..], flat, firstSector, start, start + SECTOR_SIZE, position + n, start + SECTOR_SIZE);
      }
      if !lastAligned && (firstSector != lastSector || firstAligned) {
        AgreesEmpty(buf[..], flat, firstSector, position);
        ReadPiece(buf, firstSector, lastSector, start, position);
        AgreesPart(buf[..], flat, firstSector, end - SECTOR_SIZE, end, position + n, end);
      }
      AgreesEmpty(buf[..], flat, firstSector, position);
      AgreesEmpty(buf[..], flat, firstSector, end);
      LayPatches(buf[..], flat, firstSector, lastSector, position, data);
      Copy(data, buf, position - firstSector * SECTOR_SIZE);
    }
  }

  /** A run of bytes of the file lies in the file's sectors. */
  lemma SectorsExist(f: Inode, position: nat, n: nat)
    requires WellFormed(f) && n > 0 && position + n <= f.length
    ensures var first, last := position / SECTOR_SIZE, (position + n - 1) / SECTOR_SIZE;
            && first <= last < |f.blocks|
            && first * SECTOR_SIZE <= position && position + n <= (last + 1) * SECTOR_SIZE
  {
  }

  ghost function Piece(buf: seq<byte>, k: nat): seq<byte>
    requires (k + 1) * SECTOR_SIZE <= |buf|
  {
    buf[k * SECTOR_SIZE..(k + 1) * SECTOR_SIZE]
  }

  /** buf, laid from sector `first` on, agrees with the file on bytes lo..hi that exist. */
  ghost predicate Agrees(buf: seq<byte>, flat: seq<byte>, first: nat, lo: nat, hi: nat) {
    forall i | lo <= i < hi && i < |flat| && 0 <= i - first * SECTOR_SIZE < |buf| ::
      flat[i] == buf[i - first * SECTOR_SIZE]
  }

  ghost predicate Patched(buf: seq<byte>, flat: seq<byte>, first: nat) {
    Agrees(buf, flat, first, 0, |flat|)
  }

  /** Laying file bytes p..p+n over the buffer makes it agree there, and nowhere less. */
  lemma LayAgrees(buf: seq<byte>, flat: seq<byte>, first: nat, p: nat, n: nat, lo: nat, hi: nat)
    requires first * SECTOR_SIZE <= p && p + n <= |flat| && p - first * SECTOR_SIZE + n <= |buf|
    ensures var buf' := Over(buf, p - first * SECTOR_SIZE, flat[p..p + n]);
            && Agrees(buf', flat, first, p, p + n)
            && (Agrees(buf, flat, first, lo, hi) ==> Agrees(buf', flat, first, lo, hi))
  {
  }

  lemma PieceFits(length: nat, position: nat)
    requires position < length <= MAX_FILE_SIZE
    ensures NoWrap(length, SECTOR_SIZE, position) && 0 < Clip(length, SECTOR_SIZE, position) <= SECTOR_SIZE
  {
  }

  lemma PieceAgrees(buf: seq<byte>, flat: seq<byte>, first: nat, at: nat, position: nat, n: nat, lo: nat, hi: nat)
    requires position == first * SECTOR_SIZE + at && position < |flat| && at + SECTOR_SIZE <= |buf|
    requires n == Clip(|flat|, SECTOR_SIZE, position)
    ensures var buf' := Over(buf, at, flat[position..position + n]);
            && Agrees(buf', flat, first, position, position + SECTOR_SIZE)
            && (Agrees(buf, flat, first, lo, hi) ==> Agrees(buf', flat, first, lo, hi))
  {
    LayAgrees(buf, flat, first, position, n, lo, hi);
    hide Agrees, Over;
    AgreesToEnd(Over(buf, at, flat[position..position + n]), flat, first, position, position + n,
      position + SECTOR_SIZE);
  }

  lemma AgreesPart(buf: seq<byte>, flat: seq<byte>, first: nat, lo: nat, hi: nat, lo': nat, hi': nat)
    requires Agrees(buf, flat, first, lo, hi) && lo <= lo' && hi' <= hi
    ensures Agrees(buf, flat, first, lo', hi')
  {
  }

  /** Nothing is asked of bytes past the end of the file. */
  lemma AgreesToEnd(buf: seq<byte>, flat: seq<byte>, first: nat, lo: nat, hi: nat, past: nat)
    requires Agrees(buf, flat, first, lo, hi) && (hi == past || hi == |flat|)
    ensures Agrees(buf, flat, first, lo, past)
  {
  }

  lemma AgreesEmpty(buf: seq<byte>, flat: seq<byte>, first: nat, lo: nat)
    ensures Agrees(buf, flat, first, lo, lo)
  {
  }

  lemma LayPatches(buf: seq<byte>, flat: seq<byte>, first: nat, last: nat, position: nat, data: seq<byte>)
    requires first * SECTOR_SIZE <= position && position + |data| <= |flat|
    requires first <= last && |buf| == (1 + last - first) * SECTOR_SIZE && position + |data| <= (last + 1) * SECTOR_SIZE
    requires Agrees(buf, flat, first, first * SECTOR_SIZE, position)
    requires Agrees(buf, flat, first, position + |data|, (last + 1) * SECTOR_SIZE)
    ensures Patched(Over(buf, position - first * SECTOR_SIZE, data), Over(flat, position, data), first)
  {
  }

  lemma PiecesMakeFlat(d: Image, d': Image, f: Inode, buf: seq<byte>, first: nat, last: nat, position: nat,
      data: seq<byte>)
    requires WellFormed(f) && |data| > 0 && position + |data| <= f.length
    requires first == position / SECTOR_SIZE && last == (position + |data| - 1) / SECTOR_SIZE
    requires |buf| == (1 + last - first) * SECTOR_SIZE
    requires Patched(buf, Over(Flat(d, f), position, data), first)
    requires forall k | first <= k <= last :: d'[f.blocks[k]] == Piece(buf, k - first)
    requires forall b | 0 <= b < NUM_SECTORS && b !in f.blocks[first..last + 1] :: d'[b] == d[b]
    ensures Flat(d', f) == Over(Flat(d, f), position, data)
  {
    var goal := Over(Flat(d, f), position, data);
    forall i: nat | i < f.length ensures ByteOf(d', f, i) == goal[i] {
      var k := i / SECTOR_SIZE;
      if first <= k <= last {
        assert Piece(buf, k - first)[i % SECTOR_SIZE] == buf[i - first * SECTOR_SIZE];
      } else {
        assert f.blocks[k] !in f.blocks[first..last + 1];
      }
    }
  }

  /** The sectors number first..last of the file, one after the other. */
  ghost function Run(d: Image, f: Inode, first: nat, last: nat): (s: seq<byte>)
    requires WellFormed(f) && first <= last <= |f.blocks|
    ensures |s| == (last - first) * SECTOR_SIZE
    decreases last
  {
    if first == last then [] else Run(d, f, first, last - 1) + d[f.blocks[last - 1]]
  }

  lemma {:induction false} RunAt(d: Image, f: Inode, first: nat, last: nat, i: nat)
    requires WellFormed(f) && first <= last <= |f.blocks|
    requires first * SECTOR_SIZE <= i < last * SECTOR_SIZE
    ensures Run(d, f, first, last)[i - first * SECTOR_SIZE] == d[f.blocks[i / SECTOR_SIZE]][i % SECTOR_SIZE]
    decreases last
  {
    if i < (last - 1) * SECTOR_SIZE {
      RunAt(d, f, first, last - 1, i);
    }
  }

  lemma RunByte(d: Image, f: Inode, first: nat, last: nat, i: nat)
    requires WellFormed(f) && first <= last <= |f.blocks|
    requires first * SECTOR_SIZE <= i < last * SECTOR_SIZE && i < f.length
    ensures Run(d, f, first, last)[i - first * SECTOR_SIZE] == Flat(d, f)[i]
  {
    RunAt(d, f, first, last, i);
    hide Run, WellFormed;
  }

  lemma RunIsFlat(d: Image, f: Inode, first: nat, last: nat, position: nat, n: nat)
    requires WellFormed(f) && first <= last <= |f.blocks|
    requires first * SECTOR_SIZE <= position && position + n <= last * SECTOR_SIZE && position + n <= f.length
    ensures Run(d, f, first, last)[position - first * SECTOR_SIZE..position - first * SECTOR_SIZE + n]
            == Flat(d, f)[position..position + n]
  {
    hide Run, Flat, WellFormed;
    var start := position - first * SECTOR_SIZE;
    var run, flat := Run(d, f, first, last)[start..start + n], Flat(d, f)[position..position + n];
    forall i | 0 <= i < n ensures run[i] == flat[i] {
      RunByte(d, f, first, last, position + i);
    }
  }
}

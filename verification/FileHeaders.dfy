/** The i-node in memory: filesys/filehdr.cc. */
module FileHeaders {
  import opened Options
  import opened MachineWords
  import opened Disks
  import opened Bitmaps
  import opened OpenFiles

  /** The 32 words of a header as they lie in memory. */
  function HeaderBytes(numBytes: word, numSectors: word, dataSectors: seq<word>): (s: seq<byte>)
    requires |dataSectors| == NUM_DIRECT
    ensures |s| == SECTOR_SIZE
  {
    Bytes([numBytes, numSectors] + dataSectors)
  }

  /** A header read back from where it was written says the same. */
  lemma HeaderRoundTrip(numBytes: word, numSectors: word, dataSectors: seq<word>)
    requires |dataSectors| == NUM_DIRECT && numSectors <= NUM_DIRECT
    ensures InodeAt(HeaderBytes(numBytes, numSectors, dataSectors)) == Inode(numBytes, dataSectors[..numSectors])
    ensures Words(HeaderBytes(numBytes, numSectors, dataSectors))[1] == numSectors
  {
    hide Bytes, Words;
    var w := [numBytes, numSectors] + dataSectors;
    WordsOfBytes(w);
    assert w[2..2 + numSectors] == dataSectors[..numSectors];
  }

  class FileHeader {
    var numBytes: word
    var numSectors: word
    const dataSectors: array<word>

    ghost predicate Valid()
      reads this
    {
      dataSectors.Length == NUM_DIRECT && numSectors <= NUM_DIRECT
    }

    ghost function View(): Inode
      requires Valid()
      reads this, dataSectors
    {
      Inode(numBytes, dataSectors[..numSectors])
    }

    /** `new FileHeader` initialises nothing that is read later. */
    constructor ()
      ensures Valid() && fresh(dataSectors)
    {
      dataSectors := new word[NUM_DIRECT];
      numBytes, numSectors := 0, 0;
    }

    method Allocate(freeMap: Bitmap, fileSize: nat) returns (ok: bool)
      requires Valid() && freeMap.Valid() && freeMap.words != dataSectors
      requires freeMap.numBits == NUM_SECTORS && fileSize <= MAX_FILE_SIZE
      modifies this, dataSectors, freeMap.words
      ensures ok ==> Valid()
      ensures ok <==> |old(freeMap.Marks())| + DivRoundUp(fileSize, SECTOR_SIZE) <= NUM_SECTORS
      ensures ok ==>
                View() == Inode(fileSize, Taken(old(freeMap.Marks()), DivRoundUp(fileSize, SECTOR_SIZE), NUM_SECTORS))
      ensures freeMap.Marks() == if ok then old(freeMap.Marks()) + Elems(View().blocks) else old(freeMap.Marks())
    {
      numBytes := fileSize;
      numSectors := fileSize / SECTOR_SIZE + if fileSize % SECTOR_SIZE > 0 then 1 else 0;
      ghost var marks := freeMap.Marks();
      var clear := freeMap.NumClear();
      if clear < numSectors {
        return false;
      }
      hide Taken, MarksAfter, Elems, Marked;
      AllocateSectors(freeMap, numSectors);
      TakenAreFree(marks, numSectors, NUM_SECTORS);
      return true;
    }

    /** The loop of Allocate. */
    method AllocateSectors(freeMap: Bitmap, count: nat)
      requires freeMap.Valid() && freeMap.words != dataSectors && freeMap.numBits == NUM_SECTORS
      requires count <= dataSectors.Length && |freeMap.Marks()| + count <= NUM_SECTORS
      modifies dataSectors, freeMap.words
      ensures dataSectors[..count] == Taken(old(freeMap.Marks()), count, NUM_SECTORS)
      ensures freeMap.Marks() == MarksAfter(old(freeMap.Marks()), count, NUM_SECTORS)
    {
      ghost var marks := freeMap.Marks();
      NextTaken(marks, 0, NUM_SECTORS);
      hide Marked, Taken, MarksAfter, LeastClear;
      for i := 0 to count
        invariant dataSectors[..i] == Taken(marks, i, NUM_SECTORS)
        invariant freeMap.Marks() == MarksAfter(marks, i, NUM_SECTORS)
      {
        AllocateOne(freeMap, i, marks);
      }
    }

    method AllocateOne(freeMap: Bitmap, i: nat, ghost marks: set<nat>)
      requires freeMap.Valid() && freeMap.words != dataSectors && freeMap.numBits == NUM_SECTORS
      requires i < dataSectors.Length && |marks| + i < NUM_SECTORS
      requires dataSectors[..i] == Taken(marks, i, NUM_SECTORS) && freeMap.Marks() == MarksAfter(marks, i, NUM_SECTORS)
      modifies dataSectors, freeMap.words
      ensures dataSectors[..i + 1] == Taken(marks, i + 1, NUM_SECTORS)
      ensures freeMap.Marks() == MarksAfter(marks, i + 1, NUM_SECTORS)
    {
      hide Marked, Taken, MarksAfter, LeastClear;
      NextTaken(marks, i, NUM_SECTORS);
      MarksGrow(marks, i, NUM_SECTORS);
      ClearBelow(freeMap.Marks(), NUM_SECTORS);
      var found := freeMap.FindAndSet();
      assert found >= 0;  // ASSERT(dataSectors[i] >= 0)
      dataSectors[i] := found;
      assert dataSectors[..i + 1] == dataSectors[..i] + [found];
    }

    method Deallocate(freeMap: Bitmap)
      requires Valid() && freeMap.Valid() && freeMap.words != dataSectors && freeMap.numBits == NUM_SECTORS
      requires Distinct(View().blocks) && forall b | b in View().blocks :: b in freeMap.Marks()
      modifies freeMap.words
      ensures freeMap.Marks() == old(freeMap.Marks()) - Elems(View().blocks)
    {
      ghost var blocks: seq<nat> := View().blocks;
      for i := 0 to numSectors
        invariant freeMap.Marks() == old(freeMap.Marks()) - Elems(blocks[..i])
      {
        assert blocks[i] == dataSectors[i] && blocks[i] in blocks && blocks[i] !in blocks[..i];
        var marked := freeMap.Test(dataSectors[i]);
        assert marked;  // ASSERT(freeMap->Test((int)dataSectors[i]))
        freeMap.Clear(dataSectors[i]);
        assert blocks[..i + 1] == blocks[..i] + [blocks[i]];
      }
      assert blocks[..numSectors] == blocks;
    }

    method FetchFrom(disk: SynchDisk, sector: nat)
      requires Valid() && sector < NUM_SECTORS
      requires Words(disk.image[sector])[1] <= NUM_DIRECT
      modifies this, dataSectors
      ensures Valid() && View() == InodeAt(disk.image[sector])
    {
      var data := disk.ReadSector(sector);
      var w := Words(data);
      numBytes, numSectors := w[0], w[1];
      for i := 0 to NUM_DIRECT
        invariant numBytes == w[0] && numSectors == w[1]
        invariant forall j | 0 <= j < i :: dataSectors[j] == w[2..][j]
      {
        dataSectors[i] := w[2 + i];
      }
      assert dataSectors[..numSectors] == w[2..2 + numSectors];
    }

    method WriteBack(disk: SynchDisk, sector: nat)
      requires Valid() && sector < NUM_SECTORS
      modifies disk
      ensures disk.image == old(disk.image)[sector := disk.image[sector]]
      ensures InodeAt(disk.image[sector]) == View() && Words(disk.image[sector])[1] <= NUM_DIRECT
    {
      var s := HeaderBytes(numBytes, numSectors, dataSectors[..]);
      HeaderRoundTrip(numBytes, numSectors, dataSectors[..]);
      assert dataSectors[..][..numSectors] == dataSectors[..numSectors];
      disk.WriteSector(sector, s);
      assert disk.image == old(disk.image)[sector := s];
    }
  }
}

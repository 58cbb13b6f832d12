/** The disk as SynchDisk presents it (filesys/synchdisk.cc): numbered sectors of bytes, read
    and written whole.  Also the little-endian words that the C++ code stores in them when
    it casts an object to `char *`. */
module Disks {
  import opened MachineWords

  type word = uint32

  const SECTOR_SIZE := 128
  const NUM_SECTORS := 1024

  type Sector = s: seq<byte> | |s| == SECTOR_SIZE witness BlankSector()
  type Image = d: seq<Sector> | |d| == NUM_SECTORS witness BlankImage()

  function BlankSector(): (s: seq<byte>)
    ensures |s| == SECTOR_SIZE
  {
    seq(SECTOR_SIZE, i => 0)
  }

  function BlankImage(): (d: seq<Sector>)
    ensures |d| == NUM_SECTORS
  {
    seq(NUM_SECTORS, i => BlankSector())
  }

  class SynchDisk {
    var image: Image

    method ReadSector(n: nat) returns (data: Sector)
      requires n < NUM_SECTORS
      ensures data == image[n]
    {
      data := image[n];
    }

    method WriteSector(n: nat, data: Sector)
      requires n < NUM_SECTORS
      modifies this
      ensures image == old(image)[n := data]
    {
      image := image[n := data];
    }
  }

  /** `s` with `data` laid over it from `at` on. */
  function Over(s: seq<byte>, at: nat, data: seq<byte>): (r: seq<byte>)
    requires at + |data| <= |s|
    ensures |r| == |s|
  {
    s[..at] + data + s[at + |data|..]
  }

  /** bcopy into a buffer. */
  method Copy(data: seq<byte>, into: array<byte>, at: nat)
    requires at + |data| <= into.Length
    modifies into
    ensures into[..] == Over(old(into[..]), at, data)
  {
    for i := 0 to |data|
      invariant into[..at] == old(into[..at])
      invariant into[at..at + i] == data[..i]
      invariant into[at + |data|..] == old(into[at + |data|..])
    {
      into[at + i] := data[i];
      assert into[at..at + i + 1] == into[at..at + i] + [into[at + i]];
      assert data[..i + 1] == data[..i] + [data[i]];
    }
    assert into[..] == into[..at] + into[at..at + |data|] + into[at + |data|..];
  }

  // ---------------------------------------------------------------------------------
  // Words in memory order.

  function WordBytes(x: word): (b: seq<byte>)
    ensures |b| == 4
  {
    [ByteOf(x, 0), ByteOf(x, 1), ByteOf(x, 2), ByteOf(x, 3)]
  }

  lemma WordBytesRoundTrip(x: word, b: seq<byte>, at: nat)
    requires at + 4 <= |b| && b[at..at + 4] == WordBytes(x)
    ensures WordAt(b, at) == x
  {
    hide ByteOf, Combine;
    BytesOfWord(x);
    var c := b[at..at + 4];
    assert b[at] == c[0] && b[at + 1] == c[1] && b[at + 2] == c[2] && b[at + 3] == c[3];
  }

  /** An array of words laid out in memory. */
  function Bytes(words: seq<word>): (b: seq<byte>)
    ensures |b| == 4 * |words|
  {
    if words == [] then [] else WordBytes(words[0]) + Bytes(words[1..])
  }

  function Words(b: seq<byte>): (words: seq<word>)
    requires |b| % 4 == 0
    ensures |words| == |b| / 4
  {
    if b == [] then [] else [WordAt(b, 0)] + Words(b[4..])
  }

  lemma {:induction false} WordsOfBytes(words: seq<word>)
    ensures Words(Bytes(words)) == words
  {
    if words != [] {
      WordBytesRoundTrip(words[0], Bytes(words), 0);
      WordsOfBytes(words[1..]);
      assert Bytes(words)[4..] == Bytes(words[1..]);
    }
  }
}

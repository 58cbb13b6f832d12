/** filesys/directory.cc: a table of (name, header sector) pairs, kept in a file. */
module Directories {
  import opened MachineWords
  import opened Disks
  import opened OpenFiles

  const NAME_MAX := 9
  const ENTRY_SIZE := 20

  type NameField = s: seq<byte> | |s| == NAME_MAX + 1 witness [0, 0, 0, 0, 0, 0, 0, 0, 0, 0]

  datatype Entry = Entry(inUse: bool, sector: word, name: NameField)

  // ---------------------------------------------------------------------------------
  // C strings

  /** The string that starts at s, up to a NUL or n characters. */
  function Cut(s: seq<byte>, n: nat): (r: seq<byte>)
    ensures |r| <= n && |r| <= |s| && 0 !in r && r == s[..|r|]
    ensures |r| < n && |r| < |s| ==> s[|r|] == 0
  {
    if n == 0 || s == [] || s[0] == 0 then [] else [s[0]] + Cut(s[1..], n - 1)
  }

  /** strncmp(a, b, n) == 0, for strings that end with a NUL after their last byte. */
  predicate SameName(a: seq<byte>, b: seq<byte>, n: nat) {
    if n == 0 then true
    else
      var x := if a == [] then 0 else a[0];
      var y := if b == [] then 0 else b[0];
      x == y && (x == 0 || SameName(a[1..], b[1..], n - 1))
  }

  lemma {:induction false} SameNameIff(a: seq<byte>, b: seq<byte>, n: nat)
    ensures SameName(a, b, n) <==> Cut(a, n) == Cut(b, n)
  {
    if n > 0 && a != [] && b != [] && a[0] == b[0] != 0 {
      SameNameIff(a[1..], b[1..], n - 1);
      assert Cut(a, n)[1..] == Cut(a[1..], n - 1) && Cut(b, n)[1..] == Cut(b[1..], n - 1);
    } else if n > 0 {
      assert Cut(a, n) != [] ==> Cut(a, n)[0] == a[0];
      assert Cut(b, n) != [] ==> Cut(b, n)[0] == b[0];
    }
  }

  /** strncpy(dest, src, 9): the rest of the nine is cleared, the tenth byte stays. */
  function CopyName(dest: NameField, src: seq<byte>): NameField {
    var s := Cut(src, NAME_MAX);
    s + Zeros(NAME_MAX - |s|) + [dest[NAME_MAX]]
  }

  lemma {:induction false} CutAppend(s: seq<byte>, rest: seq<byte>, n: nat)
    requires |s| <= n && 0 !in s && (|s| == n || (rest != [] && rest[0] == 0))
    ensures Cut(s + rest, n) == s
  {
    if s != [] {
      assert (s + rest)[1..] == s[1..] + rest;
      CutAppend(s[1..], rest, n - 1);
    } else {
      assert s + rest == rest;
    }
  }

  lemma CopiedName(dest: NameField, src: seq<byte>)
    ensures Cut(CopyName(dest, src), NAME_MAX) == Cut(src, NAME_MAX)
  {
    var s := Cut(src, NAME_MAX);
    CutAppend(s, Zeros(NAME_MAX - |s|) + [dest[NAME_MAX]], NAME_MAX);
    assert CopyName(dest, src) == s + (Zeros(NAME_MAX - |s|) + [dest[NAME_MAX]]);
  }

  // ---------------------------------------------------------------------------------
  // Layout: a bool, three bytes of padding, an int, ten characters, two bytes of padding.

  function EntryBytes(e: Entry): (b: seq<byte>)
    ensures |b| == ENTRY_SIZE
  {
    [if e.inUse then 1 else 0, 0, 0, 0] + WordBytes(e.sector) + e.name + [0, 0]
  }

  function EntryAt(b: seq<byte>, k: nat): Entry
    requires (k + 1) * ENTRY_SIZE <= |b|
  {
    var at := k * ENTRY_SIZE;
    Entry(b[at] != 0, WordAt(b, at + 4), b[at + 8..at + 18])
  }

  function TableBytes(t: seq<Entry>): (b: seq<byte>)
    ensures |b| == |t| * ENTRY_SIZE
  {
    if t == [] then [] else TableBytes(t[..|t| - 1]) + EntryBytes(t[|t| - 1])
  }

  function TableAt(b: seq<byte>): (t: seq<Entry>)
    ensures |t| == |b| / ENTRY_SIZE
  {
    seq(|b| / ENTRY_SIZE, k requires 0 <= k < |b| / ENTRY_SIZE => EntryAt(b, k))
  }

  lemma SubSlice(b: seq<byte>, lo: nat, hi: nat, i: nat, j: nat)
    requires lo <= hi <= |b| && i <= j <= hi - lo
    ensures b[lo..hi][i..j] == b[lo + i..lo + j]
  {
    var x, y := b[lo..hi][i..j], b[lo + i..lo + j];
    assert |x| == |y|;
    forall k | 0 <= k < |x| ensures x[k] == y[k] {
      assert x[k] == b[lo..hi][i + k] == b[lo + (i + k)];
      assert y[k] == b[(lo + i) + k];
    }
  }

  lemma EntryRoundTrip(b: seq<byte>, k: nat, e: Entry)
    requires (k + 1) * ENTRY_SIZE <= |b| && b[k * ENTRY_SIZE..(k + 1) * ENTRY_SIZE] == EntryBytes(e)
    ensures EntryAt(b, k) == e
  {
    var at := k * ENTRY_SIZE;
    var c := b[at..at + ENTRY_SIZE];
    assert c[4..8] == WordBytes(e.sector) && c[8..18] == e.name && c[0] == if e.inUse then 1 else 0;
    SubSlice(b, at, at + ENTRY_SIZE, 4, 8);
    SubSlice(b, at, at + ENTRY_SIZE, 8, 18);
    assert b[at] == c[0];
    WordBytesRoundTrip(e.sector, b, at + 4);
  }

  lemma {:induction false} TableSlice(t: seq<Entry>, k: nat)
    requires k < |t|
    ensures TableBytes(t)[k * ENTRY_SIZE..(k + 1) * ENTRY_SIZE] == EntryBytes(t[k])
  {
    var n := |t| - 1;
    if k < n {
      TableSlice(t[..n], k);
      assert TableBytes(t)[k * ENTRY_SIZE..(k + 1) * ENTRY_SIZE]
          == TableBytes(t[..n])[k * ENTRY_SIZE..(k + 1) * ENTRY_SIZE];
    }
  }

  /** A directory read back from where it was written is the same. */
  lemma TableRoundTrip(t: seq<Entry>)
    ensures TableAt(TableBytes(t)) == t
  {
    forall k | 0 <= k < |t| ensures TableAt(TableBytes(t))[k] == t[k] {
      TableSlice(t, k);
      EntryRoundTrip(TableBytes(t), k, t[k]);
    }
  }

  // ---------------------------------------------------------------------------------

  /** Entry k of the table is in use under this name. */
  predicate Matches(t: seq<Entry>, k: nat, name: seq<byte>)
    requires k < |t|
  {
    t[k].inUse && Cut(t[k].name, NAME_MAX) == Cut(name, NAME_MAX)
  }

  /** The first unused entry, or the size of the table if there is none. */
  function FirstUnused(t: seq<Entry>): (k: nat)
    ensures k <= |t| && (forall j | 0 <= j < k :: t[j].inUse) && (k < |t| ==> !t[k].inUse)
  {
    if t == [] || !t[0].inUse then 0 else 1 + FirstUnused(t[1..])
  }

  method ReadWhole(file: OpenFile) returns (bytes: seq<byte>)
    requires WellFormed(file.hdr)
    ensures bytes == Flat(file.disk.image, file.hdr)
  {
    LengthBound(file.hdr);
    hide Flat, WellFormed;
    var buf := new byte[file.hdr.length];
    var n := file.ReadAt(buf, 0, buf.Length, 0);
    bytes := buf[..];
    assert bytes == Flat(file.disk.image, file.hdr)[..];
  }

  class Directory {
    const table: array<Entry>

    constructor (size: nat)
      ensures fresh(table) && table.Length == size && forall k | 0 <= k < size :: !table[k].inUse
    {
      table := new Entry[size](k => Entry(false, 0, Zeros(NAME_MAX + 1)));
    }

    method FindIndex(name: seq<byte>) returns (i: int)
      ensures -1 <= i < table.Length
      ensures i == -1 ==> forall k | 0 <= k < table.Length :: !Matches(table[..], k, name)
      ensures i >= 0 ==> Matches(table[..], i, name) && forall k | 0 <= k < i :: !Matches(table[..], k, name)
    {
      i := 0;
      while i < table.Length
        invariant 0 <= i <= table.Length
        invariant forall k | 0 <= k < i :: !Matches(table[..], k, name)
      {
        SameNameIff(table[i].name, name, NAME_MAX);
        if table[i].inUse && SameName(table[i].name, name, NAME_MAX) {
          return;
        }
        i := i + 1;
      }
      i := -1;
    }

    method Find(name: seq<byte>) returns (sector: int)
      ensures sector == -1 ==> forall k | 0 <= k < table.Length :: !Matches(table[..], k, name)
      ensures sector != -1 ==> exists k ::
              0 <= k < table.Length && Matches(table[..], k, name) && sector == table[k].sector
    {
      var i := FindIndex(name);
      if i != -1 {
        assert Matches(table[..], i, name);
        return table[i].sector;
      }
      return -1;
    }

    method Add(name: seq<byte>, newSector: word) returns (ok: bool)
      modifies table
      ensures var t := old(table[..]);
              var k := FirstUnused(t);
              && (ok <==> k < |t| && forall j | 0 <= j < |t| :: !Matches(t, j, name))
              && table[..] == if ok then t[k := Entry(true, newSector, CopyName(t[k].name, name))] else t
    {
      var found := FindIndex(name);
      if found != -1 {
        return false;
      }
      var i := 0;
      while i < table.Length
        invariant i <= table.Length && table[..] == old(table[..])
        invariant forall j | 0 <= j < i :: table[j].inUse
      {
        if !table[i].inUse {
          assert i == FirstUnused(table[..]);
          table[i] := Entry(true, newSector, CopyName(table[i].name, name));
          return true;
        }
        i := i + 1;
      }
      return false;
    }

    method Remove(name: seq<byte>) returns (ok: bool)
      modifies table
      ensures var t := old(table[..]);
              if ok then exists k :: 0 <= k < |t| && Matches(t, k, name) && table[..] == t[k := t[k].(inUse := false)]
              else table[..] == t && forall k | 0 <= k < |t| :: !Matches(t, k, name)
    {
      var i := FindIndex(name);
      if i == -1 {
        return false;
      }
      ghost var t := table[..];
      table[i] := table[i].(inUse := false);
      assert Matches(t, i, name) && table[..] == t[i := t[i].(inUse := false)];
      return true;
    }

    method FetchFrom(file: OpenFile)
      requires WellFormed(file.hdr) && file.hdr.length == table.Length * ENTRY_SIZE
      modifies table
      ensures table[..] == TableAt(Flat(file.disk.image, file.hdr))
    {
      hide Flat, EntryAt, WellFormed;
      var bytes := ReadWhole(file);
      for k := 0 to table.Length
        invariant forall j | 0 <= j < k :: table[j] == TableAt(bytes)[j]
      {
        table[k] := EntryAt(bytes, k);
      }
    }

    method WriteBack(file: OpenFile)
      requires WellFormed(file.hdr) && file.hdr.length == table.Length * ENTRY_SIZE && table.Length > 0
      modifies file.disk
      ensures TableAt(Flat(file.disk.image, file.hdr)) == table[..]
      ensures forall b | 0 <= b < NUM_SECTORS && b !in file.hdr.blocks :: file.disk.image[b] == old(file.disk.image)[b]
    {
      var bytes := TableBytes(table[..]);
      TableRoundTrip(table[..]);
      LengthBound(file.hdr);
      var n := file.WriteAt(bytes, |bytes|, 0);
      assert bytes[..n] == bytes;
      assert Flat(file.disk.image, file.hdr) == bytes;
    }
  }
}

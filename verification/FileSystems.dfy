/** filesys/filesys.cc: format, Create, Open and Remove, with the free map
    (filesys/pbitmap.cc) and the directory themselves stored as files.

    Everything is read off the disk image: who owns which sector, which sectors the free map
    on disk marks, which names the directory on disk holds. */
module FileSystems {
  import opened Options
  import opened MachineWords
  import opened Disks
  import opened Bitmaps
  import opened OpenFiles
  import opened FileHeaders
  import opened Directories

  const FREE_MAP_SECTOR := 0
  const DIRECTORY_SECTOR := 1
  const FREE_MAP_SIZE := NUM_SECTORS / 8
  const ENTRIES := 10
  const DIRECTORY_SIZE := ENTRIES * ENTRY_SIZE

  // ---------------------------------------------------------------------------------
  // What a disk image says.

  ghost function MapFile(d: Image): Inode {
    InodeAt(d[FREE_MAP_SECTOR])
  }

  ghost function DirFile(d: Image): Inode {
    InodeAt(d[DIRECTORY_SECTOR])
  }

  ghost predicate HasFiles(d: Image) {
    && WellFormed(MapFile(d)) && MapFile(d).length == FREE_MAP_SIZE
    && WellFormed(DirFile(d)) && DirFile(d).length == DIRECTORY_SIZE
  }

  ghost function MapMarks(d: Image, f: Inode): set<nat>
    requires WellFormed(f) && f.length == FREE_MAP_SIZE
  {
    Marked(Words(Flat(d, f)), NUM_SECTORS)
  }

  /** The sectors the free map on disk marks. */
  ghost function Marks(d: Image): set<nat>
    requires HasFiles(d)
  {
    MapMarks(d, MapFile(d))
  }

  ghost function Table(d: Image): (t: seq<Entry>)
    requires HasFiles(d)
    ensures |t| == ENTRIES
  {
    TableAt(Flat(d, DirFile(d)))
  }

  /** A header sector with its data sectors. */
  ghost function Extent(d: Image, sector: nat): seq<nat>
    requires sector < NUM_SECTORS
  {
    [sector] + InodeAt(d[sector]).blocks
  }

  ghost predicate HeaderOk(d: Image, sector: nat) {
    sector < NUM_SECTORS && WellFormed(InodeAt(d[sector])) && Words(d[sector])[1] <= NUM_DIRECT
  }

  /** Entry e, if in use, leads to a file header. */
  ghost predicate EntryOk(d: Image, e: Entry) {
    e.inUse ==> HeaderOk(d, e.sector)
  }

  const CLAIMS := ENTRIES + 2

  /** The sectors of file number i: the free map, the directory, then one for each entry of
      the directory, which has none while it is not in use. */
  ghost function Claim(d: Image, i: nat): seq<nat>
    requires HasFiles(d) && i < CLAIMS
  {
    if i == 0 then Extent(d, FREE_MAP_SECTOR)
    else if i == 1 then Extent(d, DIRECTORY_SECTOR)
    else
      var e := Table(d)[i - 2];
      if e.inUse && e.sector < NUM_SECTORS then Extent(d, e.sector) else []
  }

  /** The claims of the files, their names, and the marks of the free map fit together. */
  ghost predicate Disjoint(claims: seq<seq<nat>>) {
    && (forall i | 0 <= i < |claims| :: Distinct(claims[i]))
    && (forall i, j, x | 0 <= i < j < |claims| && x in claims[i] :: x !in claims[j])
  }

  ghost predicate Exact(marks: set<nat>, claims: seq<seq<nat>>) {
    && (forall x | x in marks :: exists i | 0 <= i < |claims| :: x in claims[i])
    && (forall i, x | 0 <= i < |claims| && x in claims[i] :: x in marks)
  }

  ghost predicate NamesDiffer(t: seq<Entry>) {
    forall i, j | 0 <= i < j < |t| && t[i].inUse && t[j].inUse ::
      Cut(t[i].name, NAME_MAX) != Cut(t[j].name, NAME_MAX)
  }

  ghost function Claims(d: Image): (c: seq<seq<nat>>)
    requires HasFiles(d)
    ensures |c| == CLAIMS
  {
    seq(CLAIMS, i requires 0 <= i < CLAIMS => Claim(d, i))
  }

  /** The invariant of the file system, on the bytes of the disk: every file's header and
      data sectors are its own, the free map marks exactly these, and names differ in their
      first nine characters. */
  ghost predicate Consistent(d: Image) {
    && HasFiles(d)
    && (forall k | 0 <= k < ENTRIES :: EntryOk(d, Table(d)[k]))
    && Disjoint(Claims(d))
    && Exact(Marks(d), Claims(d))
    && NamesDiffer(Table(d))
  }

  // ---------------------------------------------------------------------------------
  // Giving and taking one claim.

  lemma GiveClaim(marks: set<nat>, claims: seq<seq<nat>>, i: nat, c: seq<nat>)
    requires Disjoint(claims) && Exact(marks, claims) && i < |claims| && claims[i] == []
    requires Distinct(c) && forall x | x in c :: x !in marks
    ensures Disjoint(claims[i := c]) && Exact(marks + Elems(c), claims[i := c])
  {
    var claims' := claims[i := c];
    forall x | x in marks + Elems(c) ensures exists j | 0 <= j < |claims'| :: x in claims'[j] {
      if x in c {
        assert x in claims'[i];
      } else {
        var j :| 0 <= j < |claims| && x in claims[j];
        assert x in claims'[j];
      }
    }
  }

  lemma TakeClaim(marks: set<nat>, claims: seq<seq<nat>>, i: nat)
    requires Disjoint(claims) && Exact(marks, claims) && i < |claims|
    ensures Disjoint(claims[i := []]) && Exact(marks - Elems(claims[i]), claims[i := []])
  {
    var claims' := claims[i := []];
    forall x | x in marks - Elems(claims[i]) ensures exists j | 0 <= j < |claims'| :: x in claims'[j] {
      var j :| 0 <= j < |claims| && x in claims[j];
      assert x in claims'[j];
    }
  }

  // ---------------------------------------------------------------------------------
  // Rewriting the free map, the directory, and sectors nobody owns.

  /** Sector x carries data of the free map or of the directory. */
  ghost predicate Metadata(d: Image, x: nat) {
    x in MapFile(d).blocks || x in DirFile(d).blocks
  }

  /** d' differs from d only in data of the free map and the directory and in free sectors. */
  ghost predicate Rewritten(d: Image, d': Image)
    requires HasFiles(d)
  {
    forall x | 0 <= x < NUM_SECTORS && x in Marks(d) && !Metadata(d, x) :: d'[x] == d[x]
  }

  lemma HeadApart(x: nat, rest: seq<nat>)
    requires Distinct([x] + rest)
    ensures x !in rest
  {
    forall i | 0 <= i < |rest| ensures rest[i] != x {
      assert ([x] + rest)[i + 1] == rest[i] && ([x] + rest)[0] == x;
    }
  }

  lemma OwnIsSafe(claims: seq<seq<nat>>, marks: set<nat>, x: nat, xs: seq<nat>, y: nat, ys: seq<nat>)
    requires Disjoint(claims) && Exact(marks, claims)
    requires |claims| > 1 && claims[0] == [x] + xs && claims[1] == [y] + ys
    ensures x in marks && x !in xs && x !in ys && y in marks && y !in xs && y !in ys
    ensures forall i, z | 2 <= i < |claims| && z in claims[i] :: z in marks && z !in xs && z !in ys
  {
    assert x in claims[0] && y in claims[1];
    HeadApart(x, xs);
    HeadApart(y, ys);
    forall z | z in xs ensures z in claims[0] {}
    forall z | z in ys ensures z in claims[1] {}
  }

  /** The sectors of the files in use are not touched by such a change, nor are the headers of
      the free map and the directory. */
  lemma OthersStay(d: Image, d': Image)
    requires Consistent(d) && Rewritten(d, d')
    ensures d'[FREE_MAP_SECTOR] == d[FREE_MAP_SECTOR] && d'[DIRECTORY_SECTOR] == d[DIRECTORY_SECTOR]
    ensures forall i, z | 2 <= i < CLAIMS && z in Claim(d, i) :: z < NUM_SECTORS ==> d'[z] == d[z]
  {
    hide Marks, WellFormed, NamesDiffer, InodeAt, Table;
    var c := Claims(d);
    OwnIsSafe(c, Marks(d), FREE_MAP_SECTOR, MapFile(d).blocks, DIRECTORY_SECTOR, DirFile(d).blocks);
    forall i, z | 2 <= i < CLAIMS && z in Claim(d, i) && z < NUM_SECTORS ensures d'[z] == d[z] {
      assert z in c[i];
    }
  }

  /** Replacing entry k of the directory replaces claim k + 2. */
  lemma ClaimsAfter(d: Image, d': Image, k: nat, e: Entry)
    requires Consistent(d) && Rewritten(d, d') && k < ENTRIES
    requires HasFiles(d') && Table(d') == Table(d)[k := e]
    requires EntryOk(d', e)
    ensures Claims(d') == Claims(d)[k + 2 := if e.inUse then Extent(d', e.sector) else []]
    ensures forall j | 0 <= j < ENTRIES :: EntryOk(d', Table(d')[j])
  {
    OthersStay(d, d');
    assert HasFiles(d) && forall j | 0 <= j < ENTRIES :: EntryOk(d, Table(d)[j]);
    hide Consistent, Rewritten, Marks, Extent, Table, EntryOk, HasFiles, Claim, Claims;
    forall j: nat | j < ENTRIES ensures EntryOk(d', Table(d')[j]) {
      if j != k { ClaimStays(d, d', j); }
    }
    var c, c' := Claims(d)[k + 2 := if e.inUse then Extent(d', e.sector) else []], Claims(d');
    forall i: nat | i < CLAIMS ensures c'[i] == c[i] {
      ClaimAfter(d, d', k, e, i);
    }
  }

  lemma ClaimAfter(d: Image, d': Image, k: nat, e: Entry, i: nat)
    requires HasFiles(d) && HasFiles(d') && k < ENTRIES && i < CLAIMS
    requires Table(d') == Table(d)[k := e] && EntryOk(d', e)
    requires forall j | 0 <= j < ENTRIES :: EntryOk(d, Table(d)[j])
    requires d'[FREE_MAP_SECTOR] == d[FREE_MAP_SECTOR] && d'[DIRECTORY_SECTOR] == d[DIRECTORY_SECTOR]
    requires forall z | z in Claim(d, i) && i >= 2 :: z < NUM_SECTORS ==> d'[z] == d[z]
    ensures Claims(d')[i] == if i == k + 2 then if e.inUse then Extent(d', e.sector) else [] else Claims(d)[i]
  {
    hide Table, InodeAt, WellFormed;
    if i >= 2 && i != k + 2 { ClaimStays(d, d', i - 2); }
  }

  lemma ClaimStays(d: Image, d': Image, j: nat)
    requires HasFiles(d) && HasFiles(d') && j < ENTRIES && EntryOk(d, Table(d)[j]) && Table(d')[j] == Table(d)[j]
    requires forall z | z in Claim(d, j + 2) :: z < NUM_SECTORS ==> d'[z] == d[z]
    ensures EntryOk(d', Table(d')[j]) && Claim(d', j + 2) == Claim(d, j + 2)
  {
    hide WellFormed, InodeAt, Table;
    var t := Table(d)[j];
    if t.inUse {
      assert Claim(d, j + 2) == [t.sector as nat] + InodeAt(d[t.sector]).blocks;
      assert t.sector in Claim(d, j + 2);
    }
  }

  lemma NamesAfterAdd(t: seq<Entry>, k: nat, name: seq<byte>, sector: word)
    requires NamesDiffer(t) && k < |t| && forall j | 0 <= j < |t| :: !Matches(t, j, name)
    ensures NamesDiffer(t[k := Entry(true, sector, CopyName(t[k].name, name))])
  {
    CopiedName(t[k].name, name);
    hide Cut, CopyName;
    var t' := t[k := Entry(true, sector, CopyName(t[k].name, name))];
    forall i, j | 0 <= i < j < |t| && t'[i].inUse && t'[j].inUse
      ensures Cut(t'[i].name, NAME_MAX) != Cut(t'[j].name, NAME_MAX)
    {
      assert !Matches(t, i, name) && !Matches(t, j, name);
    }
  }

  /** The free map's file and the directory's file, freshly allocated. */
  ghost predicate SystemFiles(marks: set<nat>, m: Inode, f: Inode) {
    && WellFormed(m) && m.length == FREE_MAP_SIZE && WellFormed(f) && f.length == DIRECTORY_SIZE
    && Distinct([FREE_MAP_SECTOR] + m.blocks) && Distinct([DIRECTORY_SECTOR] + f.blocks)
    && (forall x | x in [DIRECTORY_SECTOR] + f.blocks :: x !in [FREE_MAP_SECTOR] + m.blocks)
    && marks == Elems([FREE_MAP_SECTOR] + m.blocks) + Elems([DIRECTORY_SECTOR] + f.blocks)
  }

  lemma LayoutApart(marks: set<nat>, m: Inode, f: Inode)
    requires SystemFiles(marks, m, f)
    ensures WellFormed(m) && m.length == FREE_MAP_SIZE && WellFormed(f) && f.length == DIRECTORY_SIZE
    ensures FREE_MAP_SECTOR !in m.blocks && DIRECTORY_SECTOR !in m.blocks
    ensures FREE_MAP_SECTOR !in f.blocks && DIRECTORY_SECTOR !in f.blocks
    ensures forall x | x in m.blocks :: x !in f.blocks
  {
    HeadApart(FREE_MAP_SECTOR, m.blocks);
    HeadApart(DIRECTORY_SECTOR, f.blocks);
    var c, e := [FREE_MAP_SECTOR] + m.blocks, [DIRECTORY_SECTOR] + f.blocks;
    assert FREE_MAP_SECTOR in c && DIRECTORY_SECTOR in e;
    forall x | x in m.blocks ensures x in c {}
    forall x | x in f.blocks ensures x in e {}
  }

  /** An empty directory, with the free map marking the two system files, is consistent. */
  lemma FormatMakes(d: Image, m: Inode, f: Inode)
    requires HasFiles(d) && MapFile(d) == m && DirFile(d) == f
    requires forall k | 0 <= k < ENTRIES :: !Table(d)[k].inUse
    requires SystemFiles(Marks(d), m, f)
    ensures Consistent(d)
  {
    hide InodeAt, WellFormed, Marks, Table;
    var c := Claims(d);
    assert c[0] == [FREE_MAP_SECTOR] + m.blocks && c[1] == [DIRECTORY_SECTOR] + f.blocks;
    assert forall i | 2 <= i < CLAIMS :: c[i] == [];
    forall x | x in Marks(d) ensures exists i | 0 <= i < |c| :: x in c[i] {
      assert x in c[0] || x in c[1];
    }
  }

  lemma FormatCommits(d: Image, m: Inode, f: Inode, marks: set<nat>, t: seq<Entry>)
    requires InodeAt(d[FREE_MAP_SECTOR]) == m && InodeAt(d[DIRECTORY_SECTOR]) == f
    requires WellFormed(m) && m.length == FREE_MAP_SIZE && WellFormed(f) && f.length == DIRECTORY_SIZE
    requires MapMarks(d, m) == marks && TableAt(Flat(d, f)) == t && SystemFiles(marks, m, f)
    requires |t| == ENTRIES && forall k | 0 <= k < ENTRIES :: !t[k].inUse
    ensures Consistent(d) && MapFile(d) == m && DirFile(d) == f && Table(d) == t
  {
    hide InodeAt, WellFormed, MapMarks, TableAt, Flat, SystemFiles, Consistent;
    FormatMakes(d, m, f);
  }

  lemma SystemFilesAt(a: nat, b: nat, c: nat)
    requires Distinct([0, 1, a, b, c]) && a < NUM_SECTORS && b < NUM_SECTORS && c < NUM_SECTORS
    ensures SystemFiles({0, 1, a, b, c}, Inode(FREE_MAP_SIZE, [a]), Inode(DIRECTORY_SIZE, [b, c]))
  {
    var all := [0, 1, a, b, c];
    assert all[0] == 0 && all[1] == 1 && all[2] == a && all[3] == b && all[4] == c;
    assert [FREE_MAP_SECTOR] + [a] == [0, a] && [DIRECTORY_SECTOR] + [b, c] == [1, b, c];
  }

  lemma Three(a: nat)
    requires a != 0 && a != 1
    ensures |{0, 1, a}| == 3
  {
  }

  /** There is room on a fresh disk for the two system files. */
  lemma FormatRoom()
    ensures |{0, 1}| == 2 && DivRoundUp(FREE_MAP_SIZE, SECTOR_SIZE) == 1 && DivRoundUp(DIRECTORY_SIZE, SECTOR_SIZE) == 2
    ensures var mb := Taken({0, 1}, 1, NUM_SECTORS);
            var marks := {0, 1} + Elems(mb);
            var db := Taken(marks, 2, NUM_SECTORS);
            && |marks| == 3
            && SystemFiles(marks + Elems(db), Inode(FREE_MAP_SIZE, mb), Inode(DIRECTORY_SIZE, db))
  {
    hide Taken, LeastClear, MarksAfter, SystemFiles, Elems, Distinct;
    TakenAreFree({0, 1}, 1, NUM_SECTORS);
    var a := OneTaken({0, 1}, Taken({0, 1}, 1, NUM_SECTORS));
    Three(a);
    TakenAreFree({0, 1, a}, 2, NUM_SECTORS);
    var b, c := TwoTaken({0, 1, a}, Taken({0, 1, a}, 2, NUM_SECTORS));
    Five(a, b, c);
    SystemFilesAt(a, b, c);
  }

  lemma OneTaken(marks: set<nat>, s: seq<nat>) returns (a: nat)
    requires |s| == 1 && s[0] !in marks
    ensures s == [a] && a !in marks && a == s[0] && marks + Elems(s) == marks + {a}
  {
    a := s[0];
  }

  lemma TwoTaken(marks: set<nat>, s: seq<nat>) returns (a: nat, b: nat)
    requires |s| == 2 && Distinct(s) && s[0] !in marks && s[1] !in marks
    ensures s == [a, b] && a != b && a !in marks && b !in marks && a == s[0] && b == s[1]
    ensures marks + Elems(s) == marks + {a, b}
  {
    a, b := s[0], s[1];
  }

  lemma Five(a: nat, b: nat, c: nat)
    requires a !in {0, 1} && b !in {0, 1, a} && c !in {0, 1, a} && b != c
    ensures {0, 1} + {a} == {0, 1, a} && {0, 1, a} + {b, c} == {0, 1, a, b, c} && Distinct([0, 1, a, b, c])
  {
  }

  /** Create's effect on the disk keeps it consistent. */
  lemma CreateKeeps(d: Image, d': Image, name: seq<byte>, sector: word)
    requires Consistent(d) && Rewritten(d, d')
    requires HasFiles(d') && HeaderOk(d', sector)
    requires var t := Table(d); var k := FirstUnused(t);
             && k < ENTRIES && (forall j | 0 <= j < ENTRIES :: !Matches(t, j, name))
             && Table(d') == t[k := Entry(true, sector, CopyName(t[k].name, name))]
    requires Distinct(Extent(d', sector)) && forall x | x in Extent(d', sector) :: x !in Marks(d)
    requires Marks(d') == Marks(d) + Elems(Extent(d', sector))
    ensures Consistent(d')
  {
    var t := Table(d);
    var k := FirstUnused(t);
    NamesAfterAdd(t, k, name, sector);
    hide WellFormed, InodeAt, Table, Marks, NamesDiffer, Disjoint, Exact, Cut, CopyName, Elems, Distinct, MapFile;
    hide DirFile;
    ClaimsAfter(d, d', k, Table(d')[k]);
    assert Claim(d, k + 2) == [];
    GiveClaim(Marks(d), Claims(d), k + 2, Extent(d', sector));
  }

  /** Remove's effect on the disk keeps it consistent. */
  lemma RemoveKeeps(d: Image, d': Image, k: nat)
    requires Consistent(d) && Rewritten(d, d') && HasFiles(d')
    requires k < ENTRIES && Table(d)[k].inUse
    requires Table(d') == Table(d)[k := Table(d)[k].(inUse := false)]
    requires Marks(d') == Marks(d) - Elems(Claim(d, k + 2))
    ensures Consistent(d')
  {
    hide WellFormed, InodeAt, Table, Marks;
    ClaimsAfter(d, d', k, Table(d')[k]);
    TakeClaim(Marks(d), Claims(d), k + 2);
  }

  /** The bytes of a file whose entry stays in use are preserved by Create and Remove. */
  lemma ContentsStay(d: Image, d': Image, k: nat)
    requires Consistent(d) && Rewritten(d, d') && k < ENTRIES && Table(d)[k].inUse
    ensures var s := Table(d)[k].sector;
            && HeaderOk(d, s) && InodeAt(d'[s]) == InodeAt(d[s])
            && Flat(d', InodeAt(d[s])) == Flat(d, InodeAt(d[s]))
  {
    var s := Table(d)[k].sector;
    OthersStay(d, d');
    FileOf(d, k);
    hide Consistent, InodeAt, Table, Marks, Claim, WellFormed;
    var f := InodeAt(d[s]);
    assert s in Claim(d, k + 2);
    forall b | b in f.blocks ensures d'[b] == d[b] {
      assert b in Claim(d, k + 2) && b < NUM_SECTORS;
    }
    FlatFrame(d, d', f);
  }

  /** What the invariant says about one entry in use. */
  lemma FileOf(d: Image, k: nat)
    requires Consistent(d) && k < ENTRIES && Table(d)[k].inUse
    ensures var s := Table(d)[k].sector;
            && HeaderOk(d, s) && Claim(d, k + 2) == [s as nat] + InodeAt(d[s]).blocks
            && Distinct(Claim(d, k + 2)) && Distinct(InodeAt(d[s]).blocks)
            && (forall x | x in Claim(d, k + 2) :: x in Marks(d))
            && (forall x | x in InodeAt(d[s]).blocks :: x < NUM_SECTORS && x != s)
  {
    assert EntryOk(d, Table(d)[k]);
    hide InodeAt, Table, Marks, NamesDiffer;
    var s := Table(d)[k].sector;
    var c := Claims(d)[k + 2];
    assert c == Claim(d, k + 2) == [s as nat] + InodeAt(d[s]).blocks;
    HeadApart(s, InodeAt(d[s]).blocks);
  }

  // ---------------------------------------------------------------------------------
  // PersistentBitmap

  method FetchMap(file: OpenFile) returns (freeMap: Bitmap)
    requires WellFormed(file.hdr) && file.hdr.length == FREE_MAP_SIZE
    ensures fresh(freeMap) && fresh(freeMap.words) && freeMap.Valid() && freeMap.numBits == NUM_SECTORS
    ensures freeMap.Marks() == MapMarks(file.disk.image, file.hdr)
  {
    freeMap := new Bitmap(NUM_SECTORS);
    var buf := new byte[FREE_MAP_SIZE];
    var n := file.ReadAt(buf, 0, FREE_MAP_SIZE, 0);
    var bytes := buf[..];
    assert bytes == Flat(file.disk.image, file.hdr);
    hide Flat, Words;
    var w := Words(bytes);
    for i := 0 to |w|
      invariant forall j | 0 <= j < i :: freeMap.words[j] == w[j]
    {
      freeMap.words[i] := w[i];
    }
    assert freeMap.words[..] == w;
  }

  method WriteMap(freeMap: Bitmap, file: OpenFile)
    requires freeMap.Valid() && freeMap.numBits == NUM_SECTORS
    requires WellFormed(file.hdr) && file.hdr.length == FREE_MAP_SIZE
    modifies file.disk
    ensures MapMarks(file.disk.image, file.hdr) == freeMap.Marks()
    ensures forall b | 0 <= b < NUM_SECTORS && b !in file.hdr.blocks :: file.disk.image[b] == old(file.disk.image)[b]
  {
    var bytes := Bytes(freeMap.words[..]);
    WordsOfBytes(freeMap.words[..]);
    var n := file.WriteAt(bytes, |bytes|, 0);
    assert bytes[..n] == bytes;
    assert Flat(file.disk.image, file.hdr) == bytes;
  }

  // ---------------------------------------------------------------------------------

  /** The free map and then the directory go to disk; neither disturbs the other. */
  method WriteSystem(freeMap: Bitmap, mapFile: OpenFile, directory: Directory, dirFile: OpenFile)
    requires freeMap.Valid() && freeMap.numBits == NUM_SECTORS && directory.table.Length == ENTRIES
    requires WellFormed(mapFile.hdr) && mapFile.hdr.length == FREE_MAP_SIZE
    requires WellFormed(dirFile.hdr) && dirFile.hdr.length == DIRECTORY_SIZE
    requires mapFile.disk == dirFile.disk && forall b | b in mapFile.hdr.blocks :: b !in dirFile.hdr.blocks
    modifies mapFile.disk
    ensures MapMarks(mapFile.disk.image, mapFile.hdr) == freeMap.Marks()
    ensures TableAt(Flat(mapFile.disk.image, dirFile.hdr)) == directory.table[..]
    ensures forall b | 0 <= b < NUM_SECTORS && b !in mapFile.hdr.blocks && b !in dirFile.hdr.blocks ::
              mapFile.disk.image[b] == old(mapFile.disk.image)[b]
  {
    assert forall b | b in mapFile.hdr.blocks :: b < NUM_SECTORS;
    hide WellFormed, Flat, TableAt, Words, Marked;
    WriteMap(freeMap, mapFile);
    ghost var d := dirFile.disk.image;
    directory.WriteBack(dirFile);
    FlatFrame(d, mapFile.disk.image, mapFile.hdr);
  }

  /** The image after the free map and the directory have been written, seen as a whole. */
  lemma Committed(d: Image, d': Image, marks: set<nat>, t: seq<Entry>)
    requires Consistent(d) && Rewritten(d, d')
    requires MapMarks(d', MapFile(d)) == marks && TableAt(Flat(d', DirFile(d))) == t
    ensures HasFiles(d') && MapFile(d') == MapFile(d) && DirFile(d') == DirFile(d)
    ensures Marks(d') == marks && Table(d') == t
  {
    OthersStay(d, d');
  }

  /** The free map and the directory share no sector. */
  lemma MetadataApart(d: Image)
    requires Consistent(d)
    ensures forall b | b in MapFile(d).blocks :: b !in DirFile(d).blocks
    ensures forall b | b in MapFile(d).blocks || b in DirFile(d).blocks :: b in Marks(d)
  {
    hide Marks, InodeAt, WellFormed;
    var c := Claims(d);
    assert c[0] == [FREE_MAP_SECTOR] + MapFile(d).blocks && c[1] == [DIRECTORY_SECTOR] + DirFile(d).blocks;
    forall b | b in MapFile(d).blocks ensures b in c[0] && b !in c[1] {}
    forall b | b in DirFile(d).blocks ensures b in c[1] {}
  }

  /** These sectors are distinct and none is marked. */
  ghost predicate FreeExtent(marks: set<nat>, c: seq<nat>) {
    Distinct(c) && forall x | x in c :: x !in marks
  }

  lemma OneMore(marks: set<nat>, sector: nat)
    requires sector !in marks
    ensures |marks + {sector}| == |marks| + 1
  {
  }

  lemma HeadedExtent(marks: set<nat>, sector: nat, blocks: seq<nat>)
    requires sector !in marks && Distinct(blocks)
    requires forall i | 0 <= i < |blocks| :: blocks[i] !in marks + {sector}
    ensures FreeExtent(marks, [sector] + blocks)
  {
    var c := [sector] + blocks;
    forall i | 0 <= i < |c| ensures c[i] !in marks && (i > 0 ==> c[i] != sector) {
      if i > 0 { assert c[i] == blocks[i - 1]; }
    }
  }

  /** The sectors Create picks, a header and k more, were all free. */
  lemma NewExtent(marks: set<nat>, sector: nat, k: nat)
    requires sector < NUM_SECTORS && sector !in marks && |marks| + 1 + k <= NUM_SECTORS
    ensures var blocks := Taken(marks + {sector}, k, NUM_SECTORS);
            && FreeExtent(marks, [sector] + blocks) && Distinct(blocks)
            && forall i | 0 <= i < |blocks| :: blocks[i] < NUM_SECTORS
  {
    hide *;
    OneMore(marks, sector);
    TakenAreFree(marks + {sector}, k, NUM_SECTORS);
    HeadedExtent(marks, sector, Taken(marks + {sector}, k, NUM_SECTORS));
  }

  lemma SizedFile(size: nat, blocks: seq<nat>)
    requires |blocks| == DivRoundUp(size, SECTOR_SIZE) && size <= MAX_FILE_SIZE && Distinct(blocks)
    requires forall i | 0 <= i < |blocks| :: blocks[i] < NUM_SECTORS
    ensures WellFormed(Inode(size, blocks))
  {
  }

  lemma ExtentMarks(marks: set<nat>, sector: nat, blocks: seq<nat>)
    requires FreeExtent(marks, [sector] + blocks)
    ensures marks + {sector} + Elems(blocks) == marks + Elems([sector] + blocks)
    ensures marks !! Elems([sector] + blocks)
  {
  }

  /** What Create has prepared in memory for file f under a name: its header's sector, the free
      map and the directory. */
  ghost predicate Planned(d: Image, name: seq<byte>, sector: word, f: Inode, marks: set<nat>, t': seq<Entry>)
    requires HasFiles(d)
  {
    && sector < NUM_SECTORS && WellFormed(f)
    && FreeExtent(Marks(d), [sector as nat] + f.blocks) && marks == Marks(d) + {sector as nat} + Elems(f.blocks)
    && var t := Table(d);
       var k := FirstUnused(t);
       && k < ENTRIES && (forall j | 0 <= j < ENTRIES :: !Matches(t, j, name))
       && t' == t[k := Entry(true, sector, CopyName(t[k].name, name))]
  }

  lemma PlannedApart(d: Image, name: seq<byte>, sector: word, f: Inode, marks: set<nat>, t': seq<Entry>)
    requires Consistent(d) && Planned(d, name, sector, f, marks, t')
    ensures sector < NUM_SECTORS && WellFormed(f) && !Metadata(d, sector) && sector !in Marks(d)
  {
    MetadataApart(d);
    hide Consistent, Marks, Table, InodeAt, WellFormed;
    assert sector in [sector as nat] + f.blocks;
  }

  lemma NewFileCommits(d: Image, d': Image, name: seq<byte>, sector: word, f: Inode, marks: set<nat>, t': seq<Entry>)
    requires Consistent(d) && Planned(d, name, sector, f, marks, t') && Rewritten(d, d')
    requires MapMarks(d', MapFile(d)) == marks && TableAt(Flat(d', DirFile(d))) == t'
    requires HeaderOk(d', sector) && InodeAt(d'[sector]) == f
    ensures Consistent(d') && Created(d, d', name, f.length) && MapFile(d') == MapFile(d) && DirFile(d') == DirFile(d)
  {
    Committed(d, d', marks, t');
    ExtentMarks(Marks(d), sector, f.blocks);
    hide Consistent, Created, InodeAt, Marks, Table, WellFormed, Flat, TableAt, MapMarks, Words, Rewritten;
    CreateKeeps(d, d', name, sector);
    CreateCreates(d, d', name, sector);
  }

  class FileSystem {
    const disk: SynchDisk
    const freeMapFile: OpenFile
    const directoryFile: OpenFile

    ghost predicate Valid()
      reads disk
    {
      && freeMapFile.disk == disk && directoryFile.disk == disk
      && freeMapFile.hdr == MapFile(disk.image) && directoryFile.hdr == DirFile(disk.image)
      && Consistent(disk.image)
    }

    /** Without formatting: open the two files of a disk that holds a file system. */
    constructor Mount(disk: SynchDisk)
      requires Consistent(disk.image)
      ensures Valid() && this.disk == disk
    {
      this.disk := disk;
      freeMapFile := new OpenFile(disk, FREE_MAP_SECTOR);
      directoryFile := new OpenFile(disk, DIRECTORY_SECTOR);
    }

    /** Format: whatever was on the disk, it now holds a file system without files. */
    constructor Format(disk: SynchDisk)
      modifies disk
      ensures Valid() && this.disk == disk
      ensures forall k | 0 <= k < ENTRIES :: !Table(disk.image)[k].inUse
    {
      var mapFile, dirFile := FormatDisk(disk);
      this.disk := disk;
      freeMapFile, directoryFile := mapFile, dirFile;
    }

    static method FormatDisk(disk: SynchDisk) returns (mapFile: OpenFile, dirFile: OpenFile)
      modifies disk
      ensures Consistent(disk.image) && forall k | 0 <= k < ENTRIES :: !Table(disk.image)[k].inUse
      ensures mapFile.disk == disk && dirFile.disk == disk
      ensures mapFile.hdr == MapFile(disk.image) && dirFile.hdr == DirFile(disk.image)
    {
      var freeMap, mapHdr, dirHdr := Layout();
      var directory := new Directory(ENTRIES);
      ghost var m, f := mapHdr.View(), dirHdr.View();
      LayoutApart(freeMap.Marks(), m, f);
      hide InodeAt, WellFormed, Marked, Flat, TableAt, Distinct, Elems, SystemFiles, Words;
      hide Consistent, HasFiles, Table, Marks, MapMarks;
      mapFile, dirFile := WriteHeaders(disk, mapHdr, dirHdr);
      WriteSystem(freeMap, mapFile, directory, dirFile);
      FormatCommits(disk.image, m, f, freeMap.Marks(), directory.table[..]);
    }

    static method WriteHeaders(disk: SynchDisk, mapHdr: FileHeader, dirHdr: FileHeader)
      returns (mapFile: OpenFile, dirFile: OpenFile)
      requires mapHdr.Valid() && dirHdr.Valid()
      modifies disk
      ensures mapFile.disk == disk && mapFile.hdr == mapHdr.View() == InodeAt(disk.image[FREE_MAP_SECTOR])
      ensures dirFile.disk == disk && dirFile.hdr == dirHdr.View() == InodeAt(disk.image[DIRECTORY_SECTOR])
    {
      hide InodeAt, Words;
      mapHdr.WriteBack(disk, FREE_MAP_SECTOR);
      dirHdr.WriteBack(disk, DIRECTORY_SECTOR);
      mapFile := new OpenFile(disk, FREE_MAP_SECTOR);
      dirFile := new OpenFile(disk, DIRECTORY_SECTOR);
    }

    /** Format's first part: the free map with the two system files allocated in it. */
    static method Layout() returns (freeMap: Bitmap, mapHdr: FileHeader, dirHdr: FileHeader)
      ensures fresh(freeMap) && fresh(freeMap.words) && fresh(mapHdr) && fresh(dirHdr)
      ensures freeMap.Valid() && freeMap.numBits == NUM_SECTORS && mapHdr.Valid() && dirHdr.Valid()
      ensures SystemFiles(freeMap.Marks(), mapHdr.View(), dirHdr.View())
    {
      hide WellFormed, LeastClear, Taken, Marked, Elems, Distinct, SystemFiles;
      freeMap := new Bitmap(NUM_SECTORS);
      mapHdr := new FileHeader();
      dirHdr := new FileHeader();
      freeMap.Mark(FREE_MAP_SECTOR);
      freeMap.Mark(DIRECTORY_SECTOR);
      assert freeMap.Marks() == {0, 1};
      FormatRoom();
      var mapOk := mapHdr.Allocate(freeMap, FREE_MAP_SIZE);
      assert mapOk;  // ASSERT(mapHdr->Allocate(freeMap, FreeMapFileSize))
      var dirOk := dirHdr.Allocate(freeMap, DIRECTORY_SIZE);
      assert dirOk;  // ASSERT(dirHdr->Allocate(freeMap, DirectoryFileSize))
    }

    /** Create a file of the given size.  It fails, and then leaves the disk as it was, exactly
        when the name is taken, the directory is full or the disk lacks room. */
    method Create(name: seq<byte>, initialSize: nat) returns (ok: bool)
      requires Valid() && initialSize <= MAX_FILE_SIZE
      modifies disk
      ensures Valid()
      ensures ok <==> CanCreate(old(disk.image), name, initialSize)
      ensures !ok ==> disk.image == old(disk.image)
      ensures ok ==> Created(old(disk.image), disk.image, name, initialSize)
    {
      assert HasFiles(disk.image);
      hide Consistent, HasFiles, Created, CanCreate, Marks, Table, MapMarks, WellFormed, InodeAt, Flat;
      hide TableAt, Cut, CopyName, Marked, Elems, DivRoundUp, FreeExtent, Distinct;
      var directory := new Directory(ENTRIES);
      directory.FetchFrom(directoryFile);
      var found := directory.Find(name);
      CanCreateIff(disk.image, name, initialSize);
      if found != -1 {
        return false;
      }
      ok := CreateNew(directory, name, initialSize);
    }

    method CreateNew(directory: Directory, name: seq<byte>, initialSize: nat) returns (ok: bool)
      requires Valid() && initialSize <= MAX_FILE_SIZE
      requires directory.table.Length == ENTRIES && directory.table[..] == Table(disk.image)
      requires forall j | 0 <= j < ENTRIES :: !Matches(Table(disk.image), j, name)
      modifies disk, directory.table
      ensures Valid()
      ensures ok <==> CanCreate(old(disk.image), name, initialSize)
      ensures !ok ==> disk.image == old(disk.image)
      ensures ok ==> Created(old(disk.image), disk.image, name, initialSize)
    {
      assert HasFiles(disk.image);
      CanCreateIff(disk.image, name, initialSize);
      hide Consistent, HasFiles, Created, CanCreate, Marks, Table, MapMarks, WellFormed, InodeAt, Flat;
      hide TableAt, Cut, CopyName, Marked, Elems, DivRoundUp, FreeExtent, Distinct;
      var freeMap := FetchMap(freeMapFile);
      var hdr := new FileHeader();
      var sector;
      ok, sector := Reserve(directory, freeMap, hdr, name, initialSize);
      if ok {
        assert Planned(disk.image, name, sector, hdr.View(), freeMap.Marks(), directory.table[..]);
        FlushNew(hdr, sector, directory, freeMap, name);
      }
    }

    /** Open finds the header of the file of this name, if there is one. */
    method Open(name: seq<byte>) returns (file: Option<OpenFile>)
      requires Valid()
      ensures file.None? <==> !HasName(Table(disk.image), name)
      ensures file.Some? ==> && fresh(file.value) && file.value.disk == disk && WellFormed(file.value.hdr)
                             && exists k | 0 <= k < ENTRIES :: IsFile(disk.image, k, name, file.value.hdr)
    {
      ghost var d := disk.image;
      ghost var t := Table(d);
      assert HasFiles(d);
      var directory := new Directory(ENTRIES);
      directory.FetchFrom(directoryFile);
      assert directory.table[..] == t;
      var sector := directory.Find(name);
      assert directory.table[..] == t;
      if sector == -1 {
        NoName(t, name);
        return None;
      }
      ghost var k :| 0 <= k < ENTRIES && Matches(t, k, name) && sector == t[k].sector;
      Named(t, k, name);
      FileOf(d, k);
      var f := new OpenFile(disk, sector);
      assert IsFile(d, k, name, f.hdr);
      return Some(f);
    }

    /** Write to a file by name; the other files keep their bytes. */
    method WriteFile(name: seq<byte>, data: seq<byte>, position: nat) returns (n: nat)
      requires Valid() && position + |data| < TWO31
      modifies disk
      ensures Valid() && Table(disk.image) == old(Table(disk.image)) && Marks(disk.image) == old(Marks(disk.image))
      ensures !HasName(old(Table(disk.image)), name) ==> n == 0 && disk.image == old(disk.image)
      ensures HasName(old(Table(disk.image)), name) ==>
                exists k | 0 <= k < ENTRIES :: Wrote(old(disk.image), disk.image, k, name, data, position, n)
    {
      var file := Open(name);
      if file.None? {
        return 0;
      }
      ghost var d := disk.image;
      ghost var k :| 0 <= k < ENTRIES && IsFile(d, k, name, file.value.hdr);
      hide WellFormed, InodeAt, Table, Marks, Flat, Consistent, Wrote, IsFile, Over, Clip, HasName, HasFiles, HeaderOk;
      n := file.value.WriteAt(data, |data|, position);
      WriteWrites(d, disk.image, k, name, file.value.hdr, data, position, n);
    }

    /** Remove a file.  It fails, and leaves the disk as it was, exactly when there is none of
        this name. */
    method Remove(name: seq<byte>) returns (ok: bool)
      requires Valid()
      modifies disk
      ensures Valid()
      ensures ok <==> HasName(old(Table(disk.image)), name)
      ensures !ok ==> disk.image == old(disk.image)
      ensures forall k | 0 <= k < ENTRIES && Matches(old(Table(disk.image)), k, name) ::
              Removed(old(disk.image), disk.image, k)
    {
      ghost var d := disk.image;
      ghost var t := Table(d);
      assert HasFiles(d) && NamesDiffer(t);
      var directory := new Directory(ENTRIES);
      directory.FetchFrom(directoryFile);
      assert directory.table[..] == t;
      hide *;
      var sector := directory.Find(name);
      assert directory.table[..] == t;
      if sector == -1 {
        NoName(t, name);
        return false;
      }
      ghost var k :| 0 <= k < ENTRIES && Matches(t, k, name) && sector == t[k].sector;
      Named(t, k, name);
      Discard(directory, sector, name, k);
      forall j | 0 <= j < ENTRIES && Matches(t, j, name) ensures Removed(d, disk.image, j) {
        OneMatch(t, j, k, name);
      }
      ok := true;
    }

    /** Remove's middle part: the free map without the sectors of the file. */
    method Release(sector: word, ghost k: nat) returns (freeMap: Bitmap)
      requires Valid() && k < ENTRIES && Table(disk.image)[k].inUse && sector == Table(disk.image)[k].sector
      ensures fresh(freeMap) && fresh(freeMap.words) && freeMap.Valid() && freeMap.numBits == NUM_SECTORS
      ensures freeMap.Marks() == Marks(disk.image) - Elems(Claim(disk.image, k + 2))
    {
      ghost var d := disk.image;
      FileOf(d, k);
      assert HasFiles(d);
      hide Consistent, Table, WellFormed, InodeAt, Claim, MapMarks;
      var fileHdr := new FileHeader();
      fileHdr.FetchFrom(disk, sector);
      freeMap := FetchMap(freeMapFile);
      fileHdr.Deallocate(freeMap);
      freeMap.Clear(sector);
      ReleaseMarks(Marks(d), sector, fileHdr.View().blocks);
    }

    /** Remove's last part: the entry is given up and the free map and the directory go to
        disk. */
    method Discard(directory: Directory, sector: word, name: seq<byte>, ghost k: nat)
      requires Valid() && directory.table.Length == ENTRIES && directory.table[..] == Table(disk.image)
      requires k < ENTRIES && Matches(Table(disk.image), k, name) && sector == Table(disk.image)[k].sector
      modifies disk, directory.table
      ensures Valid() && Removed(old(disk.image), disk.image, k)
    {
      ghost var d := disk.image;
      assert HasFiles(d) && NamesDiffer(Table(d));
      hide Consistent, Removed, Marks, Table, WellFormed, InodeAt, Flat, Cut, NamesDiffer, Claim, Elems;
      var freeMap := Release(sector, k);
      assert directory.table[..] == Table(d);
      var removed := directory.Remove(name);
      OneEntry(Table(d), directory.table[..], k, name);
      FlushRemoved(directory, freeMap, k);
    }

    method FlushRemoved(directory: Directory, freeMap: Bitmap, ghost k: nat)
      requires Valid() && freeMap.Valid() && freeMap.numBits == NUM_SECTORS && directory.table.Length == ENTRIES
      requires k < ENTRIES && Table(disk.image)[k].inUse
      requires directory.table[..] == Table(disk.image)[k := Table(disk.image)[k].(inUse := false)]
      requires freeMap.Marks() == Marks(disk.image) - Elems(Claim(disk.image, k + 2))
      modifies disk
      ensures Valid() && Removed(old(disk.image), disk.image, k)
    {
      ghost var d := disk.image;
      assert HasFiles(d);
      MetadataApart(d);
      hide Consistent, Removed, Marks, Table, WellFormed, InodeAt, Flat, Claim, Elems, Cut, MapMarks, TableAt, Words;
      hide Marked;
      WriteSystem(freeMap, freeMapFile, directory, directoryFile);
      assert Rewritten(d, disk.image);
      RemoveCommits(d, disk.image, freeMap.Marks(), directory.table[..], k);
    }

    /** Create's middle part: pick the header's sector, an entry and the data sectors, all in
        memory. */
    static method Reserve(directory: Directory, freeMap: Bitmap, hdr: FileHeader, name: seq<byte>, initialSize: nat)
      returns (ok: bool, sector: word)
      requires hdr.Valid() && freeMap.Valid() && freeMap.numBits == NUM_SECTORS && freeMap.words != hdr.dataSectors
      requires directory.table.Length == ENTRIES && initialSize <= MAX_FILE_SIZE
      requires forall j | 0 <= j < ENTRIES :: !Matches(directory.table[..], j, name)
      modifies directory.table, freeMap.words, hdr, hdr.dataSectors
      ensures ok <==> && FirstUnused(old(directory.table[..])) < ENTRIES
                      && |old(freeMap.Marks())| + 1 + DivRoundUp(initialSize, SECTOR_SIZE) <= NUM_SECTORS
      ensures ok ==> hdr.Valid() && sector < NUM_SECTORS && hdr.View().length == initialSize && WellFormed(hdr.View())
      ensures ok ==> FreeExtent(old(freeMap.Marks()), [sector as nat] + hdr.View().blocks)
      ensures ok ==> freeMap.Marks() == old(freeMap.Marks()) + {sector as nat} + Elems(hdr.View().blocks)
      ensures ok ==> var t := old(directory.table[..]); var k := FirstUnused(t);
                     directory.table[..] == t[k := Entry(true, sector, CopyName(t[k].name, name))]
    {
      hide WellFormed, Cut, CopyName, LeastClear, Taken, Marked, Elems, DivRoundUp, FreeExtent, Distinct;
      ghost var marks := freeMap.Marks();
      sector := 0;
      var found := freeMap.FindAndSet();
      if found == -1 {
        FullBelow(marks, NUM_SECTORS);
        return false, 0;
      }
      sector := found;
      OneMore(marks, sector);
      ok := directory.Add(name, sector);
      if ok {
        ok := hdr.Allocate(freeMap, initialSize);
        if ok {
          NewExtent(marks, sector, DivRoundUp(initialSize, SECTOR_SIZE));
          SizedFile(initialSize, hdr.View().blocks);
        }
      }
    }

    /** Create's last part: the header, the directory and the free map go to disk. */
    method FlushNew(hdr: FileHeader, sector: word, directory: Directory, freeMap: Bitmap, ghost name: seq<byte>)
      requires Valid() && hdr.Valid() && freeMap.Valid() && freeMap.numBits == NUM_SECTORS
      requires directory.table.Length == ENTRIES
      requires Planned(disk.image, name, sector, hdr.View(), freeMap.Marks(), directory.table[..])
      modifies disk
      ensures Valid() && Created(old(disk.image), disk.image, name, hdr.View().length)
    {
      ghost var d := disk.image;
      MetadataApart(d);
      PlannedApart(d, name, sector, hdr.View(), freeMap.Marks(), directory.table[..]);
      hide Consistent, Created, InodeAt, Marks, Table, Planned, WellFormed, Flat, TableAt, MapMarks, Words;
      hdr.WriteBack(disk, sector);
      ghost var d1 := disk.image;
      directory.WriteBack(directoryFile);
      ghost var d2 := disk.image;
      WriteMap(freeMap, freeMapFile);
      ghost var d3 := disk.image;
      FlatFrame(d2, d3, DirFile(d));
      assert Rewritten(d, d3);
      assert d3[sector] == d1[sector];
      NewFileCommits(d, d3, name, sector, hdr.View(), freeMap.Marks(), directory.table[..]);
    }
  }

  /** Entry k has this name and leads to this header. */
  ghost predicate IsFile(d: Image, k: nat, name: seq<byte>, f: Inode)
    requires HasFiles(d) && k < ENTRIES
  {
    && Matches(Table(d), k, name) && Table(d)[k].sector < NUM_SECTORS
    && f == InodeAt(d[Table(d)[k].sector])
  }

  /** d' is d with n bytes of data written to the file of entry k, and nothing else. */
  ghost predicate Wrote(d: Image, d': Image, k: nat, name: seq<byte>, data: seq<byte>, position: nat, n: nat)
    requires Consistent(d) && k < ENTRIES
  {
    && Matches(Table(d), k, name) && HeaderOk(d, Table(d)[k].sector)
    && var f := InodeAt(d[Table(d)[k].sector]);
    && n == Clip(f.length, |data|, position)
    && Flat(d', f) == (if n == 0 then Flat(d, f) else Over(Flat(d, f), position, data[..n]))
    && (forall j | 0 <= j < ENTRIES && Table(d)[j].inUse ::
          Table(d)[j].sector < NUM_SECTORS && d'[Table(d)[j].sector] == d[Table(d)[j].sector])
    && (forall j | 0 <= j < ENTRIES && j != k && Table(d)[j].inUse ::
          HeaderOk(d, Table(d)[j].sector) &&
          var g := InodeAt(d[Table(d)[j].sector]); Flat(d', g) == Flat(d, g))
  }

  lemma HeadersStay(d: Image, d': Image, k: nat)
    requires Consistent(d) && k < ENTRIES && Table(d)[k].inUse
    requires forall b | 0 <= b < NUM_SECTORS && b !in InodeAt(d[Table(d)[k].sector]).blocks :: d'[b] == d[b]
    ensures forall j | 0 <= j < ENTRIES && Table(d)[j].inUse ::
              Table(d)[j].sector < NUM_SECTORS && d'[Table(d)[j].sector] == d[Table(d)[j].sector]
  {
    FileOf(d, k);
    var own := InodeAt(d[Table(d)[k].sector]).blocks;
    hide WellFormed, InodeAt, Table, Marks, Flat, Consistent, Claim;
    forall j | 0 <= j < ENTRIES && Table(d)[j].inUse
      ensures var s := Table(d)[j].sector; s < NUM_SECTORS && d'[s] == d[s]
    {
      FileOf(d, j);
      assert Table(d)[j].sector in Claim(d, j + 2);
      if j != k { ClaimsApart(d, j + 2, k + 2, Table(d)[j].sector); }
    }
  }

  /** Overwriting data sectors of one file leaves the file system and the other files alone. */
  lemma UserWriteKeeps(d: Image, d': Image, k: nat)
    requires Consistent(d) && k < ENTRIES && Table(d)[k].inUse
    requires forall b | 0 <= b < NUM_SECTORS && b !in InodeAt(d[Table(d)[k].sector]).blocks :: d'[b] == d[b]
    ensures Consistent(d') && Table(d') == Table(d) && Marks(d') == Marks(d)
    ensures MapFile(d') == MapFile(d) && DirFile(d') == DirFile(d)
    ensures forall j | 0 <= j < ENTRIES && Table(d)[j].inUse ::
              Table(d)[j].sector < NUM_SECTORS && d'[Table(d)[j].sector] == d[Table(d)[j].sector]
    ensures forall j | 0 <= j < ENTRIES && j != k && Table(d)[j].inUse ::
              HeaderOk(d, Table(d)[j].sector) &&
              var f := InodeAt(d[Table(d)[j].sector]); Flat(d', f) == Flat(d, f)
  {
    FileOf(d, k);
    var own := InodeAt(d[Table(d)[k].sector]).blocks;
    hide WellFormed, InodeAt, Table, Marks, Flat, Consistent, Claim;
    forall i, x | 0 <= i < CLAIMS && i != k + 2 && x in Claim(d, i) ensures x !in own {
      ClaimsApart(d, i, k + 2, x);
    }
    SystemStays(d, d', own);
    HeadersStay(d, d', k);
    SameHeaders(d, d');
    forall j | 0 <= j < ENTRIES && j != k && Table(d)[j].inUse
      ensures HeaderOk(d, Table(d)[j].sector) && var f := InodeAt(d[Table(d)[j].sector]); Flat(d', f) == Flat(d, f)
    {
      OtherBytes(d, d', own, j);
    }
  }

  lemma WriteWrites(d: Image, d': Image, k: nat, name: seq<byte>, f: Inode, data: seq<byte>, position: nat, n: nat)
    requires Consistent(d) && k < ENTRIES && IsFile(d, k, name, f) && WellFormed(f)
    requires n == Clip(f.length, |data|, position)
    requires n == 0 ==> d' == d
    requires n > 0 ==> Flat(d', f) == Over(Flat(d, f), position, data[..n])
    requires forall b | 0 <= b < NUM_SECTORS && b !in f.blocks :: d'[b] == d[b]
    ensures Consistent(d') && Table(d') == Table(d) && Marks(d') == Marks(d)
    ensures MapFile(d') == MapFile(d) && DirFile(d') == DirFile(d)
    ensures Wrote(d, d', k, name, data, position, n)
  {
    hide WellFormed, InodeAt, Table, Marks, Flat, Consistent;
    FileOf(d, k);
    UserWriteKeeps(d, d', k);
  }

  lemma OtherBytes(d: Image, d': Image, own: seq<nat>, j: nat)
    requires Consistent(d) && j < ENTRIES && Table(d)[j].inUse
    requires forall x | x in Claim(d, j + 2) :: x !in own
    requires forall b | 0 <= b < NUM_SECTORS && b !in own :: d'[b] == d[b]
    ensures HeaderOk(d, Table(d)[j].sector)
    ensures var f := InodeAt(d[Table(d)[j].sector]); Flat(d', f) == Flat(d, f)
  {
    FileOf(d, j);
    hide WellFormed, InodeAt, Table, Marks, Flat, Consistent, Claim;
    var f := InodeAt(d[Table(d)[j].sector]);
    forall b | b in f.blocks ensures d'[b] == d[b] {
      assert b in Claim(d, j + 2) && b < NUM_SECTORS;
    }
    FlatFrame(d, d', f);
  }

  lemma ClaimsApart(d: Image, i: nat, j: nat, x: nat)
    requires Consistent(d) && i < CLAIMS && j < CLAIMS && i != j && x in Claim(d, i)
    ensures x !in Claim(d, j)
  {
    assert Claims(d)[i] == Claim(d, i) && Claims(d)[j] == Claim(d, j);
  }

  /** A change outside the claims of the free map and the directory leaves both. */
  lemma SystemStays(d: Image, d': Image, own: seq<nat>)
    requires HasFiles(d)
    requires forall x | x in Claim(d, 0) || x in Claim(d, 1) :: x !in own
    requires forall b | 0 <= b < NUM_SECTORS && b !in own :: d'[b] == d[b]
    ensures MapFile(d') == MapFile(d) && DirFile(d') == DirFile(d) && HasFiles(d')
    ensures Table(d') == Table(d) && Marks(d') == Marks(d)
  {
    assert FREE_MAP_SECTOR in Claim(d, 0) && DIRECTORY_SECTOR in Claim(d, 1);
    forall b | b in MapFile(d).blocks ensures b in Claim(d, 0) {}
    forall b | b in DirFile(d).blocks ensures b in Claim(d, 1) {}
    FlatFrame(d, d', MapFile(d));
    FlatFrame(d, d', DirFile(d));
  }

  lemma SameHeaders(d: Image, d': Image)
    requires Consistent(d) && HasFiles(d') && MapFile(d') == MapFile(d) && DirFile(d') == DirFile(d)
    requires Table(d') == Table(d) && Marks(d') == Marks(d)
    requires forall j | 0 <= j < ENTRIES ::
               Table(d)[j].inUse ==> Table(d)[j].sector < NUM_SECTORS && d'[Table(d)[j].sector] == d[Table(d)[j].sector]
    ensures Consistent(d')
  {
    hide Marks, Table, WellFormed;
    forall i | 0 <= i < CLAIMS ensures Claim(d', i) == Claim(d, i) {
      if i >= 2 { assert Table(d)[i - 2] == Table(d')[i - 2]; }
    }
    assert Claims(d') == Claims(d);
    forall j | 0 <= j < ENTRIES ensures EntryOk(d', Table(d')[j]) {
      assert EntryOk(d, Table(d)[j]);
    }
  }

  ghost predicate HasName(t: seq<Entry>, name: seq<byte>) {
    exists k | 0 <= k < |t| :: Matches(t, k, name)
  }

  lemma Named(t: seq<Entry>, k: nat, name: seq<byte>)
    requires k < |t| && Matches(t, k, name)
    ensures HasName(t, name) && t[k].inUse
  {
  }

  lemma NoName(t: seq<Entry>, name: seq<byte>)
    requires forall k | 0 <= k < |t| :: !Matches(t, k, name)
    ensures !HasName(t, name)
  {
  }

  lemma OneMatch(t: seq<Entry>, i: nat, j: nat, name: seq<byte>)
    requires NamesDiffer(t) && i < |t| && j < |t| && Matches(t, i, name) && Matches(t, j, name)
    ensures i == j
  {
  }

  lemma OneEntry(t: seq<Entry>, t': seq<Entry>, k: nat, name: seq<byte>)
    requires NamesDiffer(t) && k < |t| && Matches(t, k, name)
    requires exists j :: 0 <= j < |t| && Matches(t, j, name) && t' == t[j := t[j].(inUse := false)]
    ensures t' == t[k := t[k].(inUse := false)]
  {
    var j :| 0 <= j < |t| && Matches(t, j, name) && t' == t[j := t[j].(inUse := false)];
    OneMatch(t, j, k, name);
  }

  lemma ReleaseMarks(marks: set<nat>, sector: nat, blocks: seq<nat>)
    ensures marks - Elems(blocks) - {sector} == marks - Elems([sector] + blocks)
  {
  }

  lemma RemoveCommits(d: Image, d': Image, marks: set<nat>, t: seq<Entry>, k: nat)
    requires Consistent(d) && Rewritten(d, d') && k < ENTRIES && Table(d)[k].inUse
    requires MapMarks(d', MapFile(d)) == marks && TableAt(Flat(d', DirFile(d))) == t
    requires t == Table(d)[k := Table(d)[k].(inUse := false)] && marks == Marks(d) - Elems(Claim(d, k + 2))
    ensures Consistent(d') && MapFile(d') == MapFile(d) && DirFile(d') == DirFile(d) && Removed(d, d', k)
  {
    hide Consistent, Marks, Table, WellFormed, InodeAt, Flat, Claim, MapMarks, TableAt;
    Committed(d, d', marks, t);
    RemoveKeeps(d, d', k);
  }

  /** d' is d without the file of entry k. */
  ghost predicate Removed(d: Image, d': Image, k: nat)
    requires HasFiles(d) && HasFiles(d') && k < ENTRIES
  {
    && Rewritten(d, d')
    && Table(d') == Table(d)[k := Table(d)[k].(inUse := false)]
    && Marks(d') == Marks(d) - Elems(Claim(d, k + 2))
  }

  ghost predicate CanCreate(d: Image, name: seq<byte>, size: nat)
    requires HasFiles(d)
  {
    && (forall j | 0 <= j < ENTRIES :: !Matches(Table(d), j, name))
    && FirstUnused(Table(d)) < ENTRIES
    && |Marks(d)| + 1 + DivRoundUp(size, SECTOR_SIZE) <= NUM_SECTORS
  }

  /** Removing the file just created gives back the free map and every other entry. */
  lemma CreateThenRemove(d: Image, d': Image, d'': Image, name: seq<byte>, size: nat)
    requires HasFiles(d) && HasFiles(d') && HasFiles(d'') && FirstUnused(Table(d)) < ENTRIES
    requires Created(d, d', name, size) && Removed(d', d'', FirstUnused(Table(d)))
    ensures Marks(d'') == Marks(d)
    ensures forall j | 0 <= j < ENTRIES ::
              && Table(d'')[j].inUse == Table(d)[j].inUse
              && (Table(d)[j].inUse ==> Table(d'')[j] == Table(d)[j])
  {
    hide WellFormed, InodeAt, Table, Marks, Flat, MapMarks;
    var k := FirstUnused(Table(d));
    assert Claim(d', k + 2) == Extent(d', Table(d')[k].sector);
  }

  lemma CreateCreates(d: Image, d': Image, name: seq<byte>, sector: word)
    requires HasFiles(d) && HasFiles(d') && Rewritten(d, d') && sector < NUM_SECTORS
    requires var t := Table(d); var k := FirstUnused(t);
             k < ENTRIES && Table(d') == t[k := Entry(true, sector, CopyName(t[k].name, name))]
    requires FreeExtent(Marks(d), Extent(d', sector)) && Marks(d') == Marks(d) + Elems(Extent(d', sector))
    ensures Created(d, d', name, InodeAt(d'[sector]).length)
  {
    hide WellFormed, Flat, InodeAt, MapMarks;
    CopiedName(Table(d)[FirstUnused(Table(d))].name, name);
    ExtentMarks(Marks(d), sector, InodeAt(d'[sector]).blocks);
  }

  lemma CanCreateIff(d: Image, name: seq<byte>, size: nat)
    requires HasFiles(d)
    ensures Table(d) == TableAt(Flat(d, DirFile(d))) && Marks(d) == MapMarks(d, MapFile(d))
    ensures CanCreate(d, name, size) <==>
              && (forall j | 0 <= j < ENTRIES :: !Matches(Table(d), j, name))
              && FirstUnused(Table(d)) < ENTRIES
              && |Marks(d)| + 1 + DivRoundUp(size, SECTOR_SIZE) <= NUM_SECTORS
  {
  }

  /** d' is d with one more file, of this name and size, in the first unused entry. */
  ghost predicate Created(d: Image, d': Image, name: seq<byte>, size: nat)
    requires HasFiles(d) && HasFiles(d') && FirstUnused(Table(d)) < ENTRIES
  {
    var k := FirstUnused(Table(d));
    var e := Table(d')[k];
    && Rewritten(d, d')
    && Table(d') == Table(d)[k := e] && Matches(Table(d'), k, name)
    && e.sector < NUM_SECTORS && InodeAt(d'[e.sector]).length == size
    && Marks(d') == Marks(d) + Elems(Extent(d', e.sector))
    && Marks(d) !! Elems(Extent(d', e.sector))
  }
}

/** The file system seen from outside: a map from names, cut at nine characters, to the bytes
    of the files. Every operation of filesys/filesys.cc acts on it as on such a map. */
module FileMaps {
  import opened Options
  import opened MachineWords
  import opened Disks
  import opened Bitmaps
  import opened OpenFiles
  import opened Directories
  import opened FileSystems

  type Name = seq<byte>
  type Files = map<Name, seq<byte>>

  function Key(name: seq<byte>): Name {
    Cut(name, NAME_MAX)
  }

  // ---------------------------------------------------------------------------------
  // A directory's entries as a map.

  datatype Slot = Free | File(name: Name, bytes: seq<byte>)

  predicate NamesDistinct(ss: seq<Slot>) {
    forall i, j | 0 <= i < j < |ss| && ss[i].File? && ss[j].File? :: ss[i].name != ss[j].name
  }

  function MapOf(ss: seq<Slot>): Files {
    if ss == [] then map[]
    else
      var rest, last := MapOf(ss[..|ss| - 1]), ss[|ss| - 1];
      if last.Free? then rest else rest[last.name := last.bytes]
  }

  lemma {:induction false} MapOfHas(ss: seq<Slot>, name: Name)
    ensures name in MapOf(ss) <==> exists k | 0 <= k < |ss| :: ss[k].File? && ss[k].name == name
  {
    if ss != [] {
      var rest, last := ss[..|ss| - 1], ss[|ss| - 1];
      MapOfHas(rest, name);
      if k :| 0 <= k < |ss| && ss[k].File? && ss[k].name == name {
        assert k < |rest| ==> rest[k] == ss[k];
      }
      if k :| 0 <= k < |rest| && rest[k].File? && rest[k].name == name {
        assert ss[k] == rest[k];
      }
    }
  }

  lemma {:induction false} MapOfAt(ss: seq<Slot>, k: nat)
    requires NamesDistinct(ss) && k < |ss| && ss[k].File?
    ensures ss[k].name in MapOf(ss) && MapOf(ss)[ss[k].name] == ss[k].bytes
  {
    if k < |ss| - 1 {
      assert ss[..|ss| - 1][k] == ss[k];
      MapOfAt(ss[..|ss| - 1], k);
    }
  }

  /** Filling a free slot adds a file; the name was not there. */
  lemma FillSlot(ss: seq<Slot>, k: nat, name: Name, bytes: seq<byte>)
    requires k < |ss| && ss[k].Free? && NamesDistinct(ss[k := File(name, bytes)])
    ensures NamesDistinct(ss) && name !in MapOf(ss) && MapOf(ss[k := File(name, bytes)]) == MapOf(ss)[name := bytes]
  {
    var tt := ss[k := File(name, bytes)];
    assert forall i | 0 <= i < |ss| && i != k :: tt[i] == ss[i];
    MapOfHas(ss, name);
    SameElsewhere(ss, tt, k);
    MapOfAt(tt, k);
  }

  /** Freeing a slot takes a file away. */
  lemma FreeSlot(ss: seq<Slot>, k: nat)
    requires k < |ss| && ss[k].File? && NamesDistinct(ss)
    ensures MapOf(ss[k := Free]) == MapOf(ss) - {ss[k].name}
  {
    var tt := ss[k := Free];
    MapOfHas(tt, ss[k].name);
    SameElsewhere(ss, tt, k);
  }

  /** Changing the bytes in a slot changes that file. */
  lemma RewriteSlot(ss: seq<Slot>, k: nat, bytes: seq<byte>)
    requires k < |ss| && ss[k].File? && NamesDistinct(ss)
    ensures MapOf(ss[k := File(ss[k].name, bytes)]) == MapOf(ss)[ss[k].name := bytes]
  {
    var tt := ss[k := File(ss[k].name, bytes)];
    SameElsewhere(ss, tt, k);
    MapOfAt(tt, k);
  }

  /** Slots other than k decide all names but those of slot k. */
  lemma SameElsewhere(ss: seq<Slot>, tt: seq<Slot>, k: nat)
    requires NamesDistinct(ss) && NamesDistinct(tt) && |ss| == |tt| && k < |ss|
    requires forall i | 0 <= i < |ss| && i != k :: ss[i] == tt[i]
    ensures forall n | (ss[k].File? ==> n != ss[k].name) && (tt[k].File? ==> n != tt[k].name) ::
              (n in MapOf(ss) <==> n in MapOf(tt)) && (n in MapOf(ss) ==> MapOf(ss)[n] == MapOf(tt)[n])
  {
    forall n | (ss[k].File? ==> n != ss[k].name) && (tt[k].File? ==> n != tt[k].name)
      ensures (n in MapOf(ss) <==> n in MapOf(tt)) && (n in MapOf(ss) ==> MapOf(ss)[n] == MapOf(tt)[n])
    {
      MapOfHas(ss, n);
      MapOfHas(tt, n);
      if n in MapOf(ss) {
        var i :| 0 <= i < |ss| && ss[i].File? && ss[i].name == n;
        assert tt[i] == ss[i];
        MapOfAt(ss, i);
        MapOfAt(tt, i);
      }
      if n in MapOf(tt) {
        var i :| 0 <= i < |tt| && tt[i].File? && tt[i].name == n;
        assert ss[i] == tt[i];
      }
      hide MapOf;
    }
  }

  // ---------------------------------------------------------------------------------
  // Room: what a map of files takes on disk.

  /** A header sector and the data sectors. */
  function Cost(bytes: seq<byte>): nat {
    1 + DivRoundUp(|bytes|, SECTOR_SIZE)
  }

  ghost function Total(m: Files): nat {
    if m == map[] then 0
    else
      var n :| n in m;
      Cost(m[n]) + Total(m - {n})
  }

  lemma {:induction false} TotalWithout(m: Files, n: Name)
    requires n in m
    ensures Total(m) == Cost(m[n]) + Total(m - {n})
    decreases |m|
  {
    hide Cost;
    var p: Name :| p in m && Total(m) == Cost(m[p]) + Total(m - {p});
    if p != n {
      TotalWithout(m - {p}, n);
      TotalWithout(m - {n}, p);
      assert m - {p} - {n} == m - {n} - {p};
    }
  }

  function SlotCost(s: Slot): nat {
    if s.Free? then 0 else Cost(s.bytes)
  }

  function SlotsTotal(ss: seq<Slot>): nat {
    if ss == [] then 0 else SlotsTotal(ss[..|ss| - 1]) + SlotCost(ss[|ss| - 1])
  }

  function Filled(ss: seq<Slot>): (n: nat)
    ensures n <= |ss|
  {
    if ss == [] then 0 else Filled(ss[..|ss| - 1]) + if ss[|ss| - 1].Free? then 0 else 1
  }

  /** The map's room and size are those of the slots. */
  lemma {:induction false} MapOfTotal(ss: seq<Slot>)
    requires NamesDistinct(ss)
    ensures Total(MapOf(ss)) == SlotsTotal(ss) && |MapOf(ss)| == Filled(ss)
  {
    if ss != [] {
      var rest, last := ss[..|ss| - 1], ss[|ss| - 1];
      MapOfTotal(rest);
      if last.File? {
        MapOfHas(rest, last.name);
        var m := MapOf(rest);
        TotalWithout(m[last.name := last.bytes], last.name);
        assert m[last.name := last.bytes] - {last.name} == m;
        assert m[last.name := last.bytes].Keys == m.Keys + {last.name};
        assert |m| == |m.Keys| && |m[last.name := last.bytes]| == |m[last.name := last.bytes].Keys|;
      }
    }
  }

  lemma {:induction false} FullIff(ss: seq<Slot>)
    ensures Filled(ss) == |ss| <==> forall k | 0 <= k < |ss| :: ss[k].File?
  {
    if ss != [] {
      FullIff(ss[..|ss| - 1]);
      assert forall k | 0 <= k < |ss| - 1 :: ss[..|ss| - 1][k] == ss[k];
    }
  }

  // ---------------------------------------------------------------------------------
  // The files on a disk.

  ghost function SlotOn(d: Image, k: nat): Slot
    requires Consistent(d) && k < ENTRIES
  {
    var e := Table(d)[k];
    if !e.inUse then Free
    else
      assert EntryOk(d, e);
      File(Key(e.name), Flat(d, InodeAt(d[e.sector])))
  }

  ghost function SlotsOn(d: Image): (ss: seq<Slot>)
    requires Consistent(d)
    ensures |ss| == ENTRIES
  {
    seq(ENTRIES, k requires 0 <= k < ENTRIES => SlotOn(d, k))
  }

  /** What is on the disk, as a map. */
  ghost function FilesOn(d: Image): Files
    requires Consistent(d)
  {
    MapOf(SlotsOn(d))
  }

  lemma SlotsDistinct(d: Image)
    requires Consistent(d)
    ensures NamesDistinct(SlotsOn(d))
  {
    hide Table, InodeAt, Flat, WellFormed, Cut, Marks;
  }

  lemma SlotStays(d: Image, d': Image, j: nat)
    requires Consistent(d) && Consistent(d') && j < ENTRIES && Rewritten(d, d') && Table(d')[j] == Table(d)[j]
    ensures SlotOn(d', j) == SlotOn(d, j)
  {
    assert HasFiles(d);
    hide Consistent, Table, InodeAt, Flat, WellFormed, Cut, Marks, HasFiles, Rewritten;
    if Table(d)[j].inUse { ContentsStay(d, d', j); }
  }

  lemma NewSlot(d': Image, k: nat, name: seq<byte>)
    requires Consistent(d') && k < ENTRIES && Matches(Table(d'), k, name) && Table(d')[k].sector < NUM_SECTORS
    ensures SlotOn(d', k).File? && SlotOn(d', k).name == Key(name)
    ensures |SlotOn(d', k).bytes| == InodeAt(d'[Table(d')[k].sector]).length
  {
    hide Table, InodeAt, Flat, WellFormed, Cut, Marks;
  }

  lemma OneSlotDiffers(d: Image, d': Image, k: nat)
    requires Consistent(d) && Consistent(d') && k < ENTRIES
    requires forall j: nat | j < ENTRIES && j != k :: SlotOn(d', j) == SlotOn(d, j)
    ensures SlotsOn(d') == SlotsOn(d)[k := SlotOn(d', k)]
  {
    hide SlotOn, Consistent;
  }

  lemma OthersStaySlots(d: Image, d': Image, k: nat)
    requires Consistent(d) && Consistent(d') && k < ENTRIES && Rewritten(d, d')
    requires Table(d') == Table(d)[k := Table(d')[k]]
    ensures SlotsOn(d') == SlotsOn(d)[k := SlotOn(d', k)]
  {
    var t, t' := Table(d), Table(d');
    assert forall j | 0 <= j < ENTRIES && j != k :: t'[j] == t[j];
    hide SlotOn, Consistent, Table, Rewritten, SlotsOn;
    forall j: nat | j < ENTRIES && j != k ensures SlotOn(d', j) == SlotOn(d, j) {
      SlotStays(d, d', j);
    }
    OneSlotDiffers(d, d', k);
  }

  lemma CreatedSlots(d: Image, d': Image, name: seq<byte>, size: nat)
    requires Consistent(d) && Consistent(d') && FirstUnused(Table(d)) < ENTRIES && Created(d, d', name, size)
    ensures var k := FirstUnused(Table(d));
            && SlotOn(d, k).Free? && SlotOn(d', k).File? && SlotOn(d', k).name == Key(name)
              && |SlotOn(d', k).bytes| == size
            && SlotsOn(d') == SlotsOn(d)[k := SlotOn(d', k)]
  {
    var k := FirstUnused(Table(d));
    hide Consistent, Table, InodeAt, Marks, HasFiles, Rewritten, Extent, SlotsOn, Matches;
    assert SlotOn(d, k).Free?;
    hide SlotOn;
    NewSlot(d', k, name);
    OthersStaySlots(d, d', k);
  }

  lemma RemovedSlots(d: Image, d': Image, k: nat)
    requires Consistent(d) && Consistent(d') && k < ENTRIES && Removed(d, d', k)
    ensures SlotsOn(d') == SlotsOn(d)[k := Free]
  {
    hide Consistent, Table, Marks, HasFiles, Rewritten, SlotsOn, Claim;
    assert SlotOn(d', k).Free?;
    hide SlotOn;
    OthersStaySlots(d, d', k);
  }

  lemma WroteSlot(d: Image, d': Image, k: nat, name: seq<byte>, data: seq<byte>, position: nat, n: nat)
    requires Consistent(d) && Consistent(d') && k < ENTRIES && Table(d') == Table(d)
    requires Wrote(d, d', k, name, data, position, n)
    ensures SlotOn(d, k).File? && SlotOn(d, k).name == Key(name) && n == Clip(|SlotOn(d, k).bytes|, |data|, position)
    ensures var was := SlotOn(d, k).bytes;
            SlotOn(d', k) == File(Key(name), if n == 0 then was else Over(was, position, data[..n]))
  {
    assert HasFiles(d) && HasFiles(d');
    hide Consistent, Table, InodeAt, Flat, WellFormed, Cut, Marks, HasFiles, Over, Clip;
  }

  lemma WroteOther(d: Image, d': Image, k: nat, name: seq<byte>, data: seq<byte>, position: nat, n: nat, j: nat)
    requires Consistent(d) && Consistent(d') && k < ENTRIES && j < ENTRIES && j != k && Table(d') == Table(d)
    requires Wrote(d, d', k, name, data, position, n)
    ensures SlotOn(d', j) == SlotOn(d, j)
  {
    assert HasFiles(d) && HasFiles(d');
    hide Consistent, Table, InodeAt, Flat, WellFormed, Cut, Marks, HasFiles, Over, Clip;
  }

  lemma WroteSlots(d: Image, d': Image, k: nat, name: seq<byte>, data: seq<byte>, position: nat, n: nat)
    requires Consistent(d) && Consistent(d') && k < ENTRIES && Table(d') == Table(d)
    requires Wrote(d, d', k, name, data, position, n)
    ensures SlotOn(d, k).File? && SlotOn(d, k).name == Key(name)
    ensures var was := SlotOn(d, k).bytes;
            && n == Clip(|was|, |data|, position)
            && SlotsOn(d') == SlotsOn(d)[k := File(Key(name), if n == 0 then was else Over(was, position, data[..n]))]
  {
    hide Consistent, Table, Wrote, SlotOn, Over, Clip;
    WroteSlot(d, d', k, name, data, position, n);
    forall j: nat | j < ENTRIES && j != k ensures SlotOn(d', j) == SlotOn(d, j) {
      WroteOther(d, d', k, name, data, position, n, j);
    }
  }

  // ---------------------------------------------------------------------------------
  // How many sectors are marked.

  ghost function Lengths(claims: seq<seq<nat>>): nat {
    if claims == [] then 0 else Lengths(claims[..|claims| - 1]) + |claims[|claims| - 1]|
  }

  lemma {:induction false} ElemsCount(s: seq<nat>)
    requires Distinct(s)
    ensures |Elems(s)| == |s|
  {
    if s != [] {
      var rest, last := s[..|s| - 1], s[|s| - 1];
      ElemsCount(rest);
      assert Elems(s) == Elems(rest) + {last};
    }
  }

  lemma RestExact(marks: set<nat>, claims: seq<seq<nat>>)
    requires Disjoint(claims) && Exact(marks, claims) && claims != []
    ensures var rest, last := claims[..|claims| - 1], claims[|claims| - 1];
            Disjoint(rest) && Exact(marks - Elems(last), rest) && Elems(last) <= marks && Distinct(last)
  {
    var rest, last := claims[..|claims| - 1], claims[|claims| - 1];
    assert forall i | 0 <= i < |rest| :: rest[i] == claims[i];
    forall x | x in marks - Elems(last) ensures exists i | 0 <= i < |rest| :: x in rest[i] {
      var i :| 0 <= i < |claims| && x in claims[i];
      assert x in rest[i];
    }
  }

  /** Disjoint claims that are marked exactly make up the number of marks. */
  lemma {:induction false} MarksCount(marks: set<nat>, claims: seq<seq<nat>>)
    requires Disjoint(claims) && Exact(marks, claims)
    ensures |marks| == Lengths(claims)
  {
    if claims == [] {
      assert marks == {};
    } else {
      RestExact(marks, claims);
      hide Disjoint, Exact, Distinct, Elems;
      var last := claims[|claims| - 1];
      MarksCount(marks - Elems(last), claims[..|claims| - 1]);
      ElemsCount(last);
      SizeOfRest(marks, Elems(last));
    }
  }

  lemma SizeOfRest(all: set<nat>, part: set<nat>)
    requires part <= all
    ensures |all| == |all - part| + |part|
  {
    assert all == (all - part) + part;
  }

  /** The free map, the directory and their headers take five sectors, the rest is the files'. */
  lemma MarksAreFiles(d: Image)
    requires Consistent(d)
    ensures |Marks(d)| == 5 + Total(FilesOn(d))
  {
    var c, ss := Claims(d), SlotsOn(d);
    MarksCount(Marks(d), c);
    SlotsDistinct(d);
    MapOfTotal(ss);
    SystemClaims(d);
    forall k | 0 <= k < ENTRIES ensures |c[k + 2]| == SlotCost(ss[k]) {
      ClaimLength(d, k);
    }
    hide *;
    LengthsTotal(c, ss);
  }

  lemma SystemClaims(d: Image)
    requires Consistent(d)
    ensures |Claims(d)[0]| == 2 && |Claims(d)[1]| == 3
  {
    hide Marks, Table, InodeAt;
    assert DivRoundUp(FREE_MAP_SIZE, SECTOR_SIZE) == 1 && DivRoundUp(DIRECTORY_SIZE, SECTOR_SIZE) == 2;
  }

  lemma ClaimLength(d: Image, k: nat)
    requires Consistent(d) && k < ENTRIES
    ensures |Claims(d)[k + 2]| == SlotCost(SlotOn(d, k))
  {
    assert HasFiles(d);
    hide Consistent, Table, InodeAt, Marks, WellFormed, Distinct, HasFiles, Claims, Flat;
    ClaimIs(d, k);
    if Table(d)[k].inUse {
      hide Claim;
      FileOf(d, k);
      BlocksOf(InodeAt(d[Table(d)[k].sector]));
    }
  }

  lemma ClaimIs(d: Image, k: nat)
    requires HasFiles(d) && k < ENTRIES
    ensures Claims(d)[k + 2] == Claim(d, k + 2)
  {
    hide HasFiles, Claim;
  }

  lemma BlocksOf(f: Inode)
    requires WellFormed(f)
    ensures |f.blocks| == DivRoundUp(f.length, SECTOR_SIZE)
  {
  }

  lemma {:induction false} LengthsTotal(c: seq<seq<nat>>, ss: seq<Slot>)
    requires |c| == |ss| + 2 && |c[0]| == 2 && |c[1]| == 3
    requires forall k | 0 <= k < |ss| :: |c[k + 2]| == SlotCost(ss[k])
    ensures Lengths(c) == 5 + SlotsTotal(ss)
  {
    hide SlotCost;
    var c', ss' := c[..|c| - 1], if ss == [] then [] else ss[..|ss| - 1];
    if ss == [] {
      assert c == [c[0], c[1]] && c' == [c[0]];
      assert Lengths(c') == Lengths(c'[..0]) + 2;
    } else {
      assert forall k | 0 <= k < |ss'| :: c'[k + 2] == c[k + 2] && ss'[k] == ss[k];
      LengthsTotal(c', ss');
    }
  }

  // ---------------------------------------------------------------------------------
  // The operations on the map.

  lemma SlotIs(d: Image, k: nat)
    requires Consistent(d) && k < ENTRIES
    ensures SlotsOn(d)[k] == SlotOn(d, k) && (SlotOn(d, k).File? <==> Table(d)[k].inUse)
    ensures Table(d)[k].inUse ==> SlotOn(d, k).name == Key(Table(d)[k].name)
  {
    hide Table, InodeAt, Flat, Cut;
  }

  lemma HasNameIff(d: Image, name: seq<byte>)
    requires Consistent(d)
    ensures HasName(Table(d), name) <==> Key(name) in FilesOn(d)
  {
    var t, ss := Table(d), SlotsOn(d);
    MapOfHas(ss, Key(name));
    hide Consistent, Table, MapOf, Cut, SlotsOn, SlotOn;
    if k :| 0 <= k < |t| && Matches(t, k, name) {
      SlotIs(d, k);
    }
    if k :| 0 <= k < |ss| && ss[k].File? && ss[k].name == Key(name) {
      SlotIs(d, k);
      assert Matches(t, k, name);
    }
  }

  lemma FullDirectory(d: Image)
    requires Consistent(d)
    ensures FirstUnused(Table(d)) < ENTRIES <==> |FilesOn(d)| < ENTRIES
  {
    var t, ss := Table(d), SlotsOn(d);
    hide Consistent, Table, MapOf, SlotsOn, SlotOn, NamesDistinct, Filled, FirstUnused;
    SlotsDistinct(d);
    MapOfTotal(ss);
    forall k | 0 <= k < ENTRIES ensures ss[k].File? <==> t[k].inUse {
      SlotIs(d, k);
    }
    UnusedIff(t, ss);
  }

  lemma UnusedIff(t: seq<Entry>, ss: seq<Slot>)
    requires |t| == |ss| && forall k | 0 <= k < |ss| :: ss[k].File? <==> t[k].inUse
    ensures FirstUnused(t) < |t| <==> Filled(ss) != |ss|
  {
    FullIff(ss);
    hide Filled;
    if FirstUnused(t) < |t| {
      assert !ss[FirstUnused(t)].File?;
    }
  }

  /** A file of this name and size can be added: the name is new, an entry is free, and the disk
      has room for its sectors besides those of the other files and the five of the system. */
  ghost predicate Fits(m: Files, name: seq<byte>, size: nat) {
    Key(name) !in m && |m| < ENTRIES && 5 + Total(m) + 1 + DivRoundUp(size, SECTOR_SIZE) <= NUM_SECTORS
  }

  lemma CanCreateFits(d: Image, name: seq<byte>, size: nat)
    requires Consistent(d)
    ensures CanCreate(d, name, size) <==> Fits(FilesOn(d), name, size)
  {
    HasNameIff(d, name);
    FullDirectory(d);
    MarksAreFiles(d);
    hide Consistent, Table, Marks, FilesOn, Total, Matches, Cut, DivRoundUp;
  }

  lemma {:induction false} TotalAtMost(m: Files)
    requires forall n | n in m :: |m[n]| <= MAX_FILE_SIZE
    ensures Total(m) <= 31 * |m|
    decreases |m|
  {
    if m != map[] {
      var n: Name :| n in m;
      TotalWithout(m, n);
      TotalAtMost(m - {n});
      SizeWithout((m - {n}).Keys, m.Keys, n);
    }
  }

  lemma FilesBound(d: Image, n: Name)
    requires Consistent(d) && n in FilesOn(d)
    ensures |FilesOn(d)[n]| <= MAX_FILE_SIZE
  {
    var ss := SlotsOn(d);
    MapOfHas(ss, n);
    SlotsDistinct(d);
    var k: nat :| k < |ss| && ss[k].File? && ss[k].name == n;
    MapOfAt(ss, k);
    SlotIs(d, k);
    FileOf(d, k);
    LengthBound(InodeAt(d[Table(d)[k].sector]));
    hide MapOf, SlotsOn, Table, InodeAt, Flat, WellFormed, Consistent;
  }

  /** Ten files of at most thirty-one sectors and the five of the system: the disk never runs
      out before the directory does. */
  lemma AlwaysRoom(d: Image)
    requires Consistent(d)
    ensures |FilesOn(d)| <= ENTRIES && Total(FilesOn(d)) <= 31 * |FilesOn(d)| && |Marks(d)| <= 315
  {
    SlotsDistinct(d);
    MapOfTotal(SlotsOn(d));
    forall n | n in FilesOn(d) ensures |FilesOn(d)[n]| <= MAX_FILE_SIZE {
      FilesBound(d, n);
    }
    MarksAreFiles(d);
    TotalAtMost(FilesOn(d));
    hide Consistent, MapOf, SlotsOn, Total, Marks, Filled;
  }

  /** So Create fails exactly when the name is taken or the directory full. */
  lemma FitsIff(d: Image, name: seq<byte>, size: nat)
    requires Consistent(d) && size <= MAX_FILE_SIZE
    ensures Fits(FilesOn(d), name, size) <==> Key(name) !in FilesOn(d) && |FilesOn(d)| < ENTRIES
  {
    AlwaysRoom(d);
    hide Consistent, FilesOn, Marks, Total, Cut;
  }

  /** Reading n bytes at a position. */
  function Slice(bytes: seq<byte>, numBytes: int, position: nat): seq<byte> {
    var n := Clip(|bytes|, numBytes, position);
    if n == 0 then [] else bytes[position..position + n]
  }

  function Written(bytes: seq<byte>, data: seq<byte>, position: nat): seq<byte> {
    var n := Clip(|bytes|, |data|, position);
    if n == 0 then bytes else Over(bytes, position, data[..n])
  }

  /** How many bytes a write by name transfers. */
  ghost function Length(m: Files, name: seq<byte>, data: seq<byte>, position: nat): nat {
    if Key(name) in m then Clip(|m[Key(name)]|, |data|, position) else 0
  }

  datatype Request =
    | CreateFile(name: seq<byte>, size: nat)
    | RemoveFile(name: seq<byte>)
    | WriteTo(name: seq<byte>, data: seq<byte>, position: nat)

  /** The end of a write fits an int. */
  predicate Bounded(r: Request) {
    r.WriteTo? ==> r.position + |r.data| < TWO31
  }

  /** What a request does to the files. A new file has the size asked for and whatever bytes its
      sectors held. */
  ghost predicate Effect(m: Files, r: Request, m': Files) {
    match r
    case CreateFile(name, size) =>
      if size <= MAX_FILE_SIZE && Fits(m, name, size) then
        Key(name) in m' && |m'[Key(name)]| == size && m' - {Key(name)} == m
      else m' == m
    case RemoveFile(name) => m' == m - {Key(name)}
    case WriteTo(name, data, position) =>
      m' == if Key(name) in m then m[Key(name) := Written(m[Key(name)], data, position)] else m
  }

  method Create(fs: FileSystem, name: seq<byte>, size: nat) returns (ok: bool)
    requires fs.Valid() && size <= MAX_FILE_SIZE
    modifies fs.disk
    ensures fs.Valid() && (ok <==> Fits(old(FilesOn(fs.disk.image)), name, size))
    ensures ok <==> Key(name) !in old(FilesOn(fs.disk.image)) && |old(FilesOn(fs.disk.image))| < ENTRIES
    ensures Effect(old(FilesOn(fs.disk.image)), CreateFile(name, size), FilesOn(fs.disk.image))
  {
    ghost var d := fs.disk.image;
    CanCreateFits(d, name, size);
    FitsIff(d, name, size);
    hide Fits, FilesOn, Cut, Consistent, Created, Table, Marks, MapOf, SlotsOn, SlotOn, HasFiles;
    ok := fs.Create(name, size);
    if ok {
      CreatedFiles(d, fs.disk.image, name, size);
    }
  }

  lemma CreatedFiles(d: Image, d': Image, name: seq<byte>, size: nat)
    requires Consistent(d) && Consistent(d') && FirstUnused(Table(d)) < ENTRIES && Created(d, d', name, size)
    ensures Key(name) in FilesOn(d') && |FilesOn(d')[Key(name)]| == size && FilesOn(d') - {Key(name)} == FilesOn(d)
  {
    var k := FirstUnused(Table(d));
    CreatedSlots(d, d', name, size);
    SlotsDistinct(d');
    hide Consistent, Created, Table, MapOf, SlotOn, SlotsOn, NamesDistinct, Cut;
    FillSlot(SlotsOn(d), k, Key(name), SlotOn(d', k).bytes);
    PutThenDrop(FilesOn(d), Key(name), SlotOn(d', k).bytes);
  }

  lemma PutThenDrop(m: Files, name: Name, bytes: seq<byte>)
    requires name !in m
    ensures m[name := bytes] - {name} == m
  {
  }

  method Remove(fs: FileSystem, name: seq<byte>) returns (ok: bool)
    requires fs.Valid()
    modifies fs.disk
    ensures fs.Valid() && (ok <==> Key(name) in old(FilesOn(fs.disk.image)))
    ensures Effect(old(FilesOn(fs.disk.image)), RemoveFile(name), FilesOn(fs.disk.image))
  {
    ghost var d := fs.disk.image;
    HasNameIff(d, name);
    hide Consistent, Removed, Table, Marks, FilesOn, HasFiles, Matches, Cut;
    hide Effect;
    ok := fs.Remove(name);
    if ok {
      ghost var k :| 0 <= k < ENTRIES && Matches(Table(d), k, name);
      RemovedFiles(d, fs.disk.image, k, name);
    }
    RemoveIs(old(FilesOn(fs.disk.image)), name, FilesOn(fs.disk.image));
  }

  lemma RemoveIs(m: Files, name: seq<byte>, m': Files)
    requires m' == if Key(name) in m then m - {Key(name)} else m
    ensures Effect(m, RemoveFile(name), m')
  {
  }

  lemma RemovedFiles(d: Image, d': Image, k: nat, name: seq<byte>)
    requires Consistent(d) && Consistent(d') && k < ENTRIES && Matches(Table(d), k, name) && Removed(d, d', k)
    ensures FilesOn(d') == FilesOn(d) - {Key(name)}
  {
    SlotIs(d, k);
    RemovedSlots(d, d', k);
    SlotsDistinct(d);
    hide Consistent, Removed, Table, MapOf, SlotOn, NamesDistinct, Cut, SlotsOn;
    FreeSlot(SlotsOn(d), k);
  }

  method Write(fs: FileSystem, name: seq<byte>, data: seq<byte>, position: nat) returns (n: nat)
    requires fs.Valid() && position + |data| < TWO31
    modifies fs.disk
    ensures fs.Valid() && Effect(old(FilesOn(fs.disk.image)), WriteTo(name, data, position), FilesOn(fs.disk.image))
    ensures n == Length(old(FilesOn(fs.disk.image)), name, data, position)
  {
    ghost var d := fs.disk.image;
    hide Consistent, Wrote, Table, Marks, FilesOn, HasFiles, HasName, Effect;
    n := fs.WriteFile(name, data, position);
    WriteEffect(d, fs.disk.image, name, data, position, n);
  }

  lemma WriteEffect(d: Image, d': Image, name: seq<byte>, data: seq<byte>, position: nat, n: nat)
    requires Consistent(d) && Consistent(d') && Table(d') == Table(d)
    requires !HasName(Table(d), name) ==> n == 0 && d' == d
    requires HasName(Table(d), name) ==> exists k | 0 <= k < ENTRIES :: Wrote(d, d', k, name, data, position, n)
    ensures Effect(FilesOn(d), WriteTo(name, data, position), FilesOn(d'))
    ensures n == Length(FilesOn(d), name, data, position)
  {
    hide Consistent, Wrote, Table, FilesOn, HasFiles, HasName, Cut, Written, Clip;
    HasNameIff(d, name);
    if Key(name) in FilesOn(d) {
      var k :| 0 <= k < ENTRIES && Wrote(d, d', k, name, data, position, n);
      WroteFiles(d, d', k, name, data, position, n);
    }
  }

  lemma WroteFiles(d: Image, d': Image, k: nat, name: seq<byte>, data: seq<byte>, position: nat, n: nat)
    requires Consistent(d) && Consistent(d') && k < ENTRIES && Table(d') == Table(d)
    requires Wrote(d, d', k, name, data, position, n)
    ensures Key(name) in FilesOn(d) && n == Length(FilesOn(d), name, data, position)
    ensures FilesOn(d') == FilesOn(d)[Key(name) := Written(FilesOn(d)[Key(name)], data, position)]
  {
    WroteSlots(d, d', k, name, data, position, n);
    SlotsDistinct(d);
    assert SlotsOn(d)[k] == SlotOn(d, k);
    hide Consistent, Wrote, Table, MapOf, SlotOn, NamesDistinct, Cut, SlotsOn, Over, Clip;
    MapOfAt(SlotsOn(d), k);
    RewriteSlot(SlotsOn(d), k, Written(SlotOn(d, k).bytes, data, position));
  }

  /** Open a file and read from it. */
  method Read(fs: FileSystem, name: seq<byte>, numBytes: int32, position: nat) returns (data: Option<seq<byte>>)
    requires fs.Valid() && position + numBytes < TWO31
    ensures data == if Key(name) in FilesOn(fs.disk.image)
            then Some(Slice(FilesOn(fs.disk.image)[Key(name)], numBytes, position))
                    else None
  {
    ghost var d := fs.disk.image;
    HasNameIff(d, name);
    assert HasFiles(d);
    hide Consistent, Table, FilesOn, WellFormed, Flat, IsFile, Slice, HasFiles, HasName, Cut, Marks, InodeAt;
    var file := fs.Open(name);
    if file.None? {
      return None;
    }
    ghost var k :| 0 <= k < ENTRIES && IsFile(d, k, name, file.value.hdr);
    OpenedFile(d, k, name, file.value.hdr);
    var bytes := ReadFrom(file.value, numBytes, position);
    data := Some(bytes);
  }

  method ReadFrom(file: OpenFile, numBytes: int32, position: nat) returns (data: seq<byte>)
    requires WellFormed(file.hdr) && position + numBytes < TWO31
    ensures data == Slice(Flat(file.disk.image, file.hdr), numBytes, position)
  {
    hide WellFormed, Flat;
    var buf := new byte[if numBytes > 0 then numBytes else 0];
    var n := file.ReadAt(buf, 0, numBytes, position);
    data := buf[..n];
  }

  lemma OpenedFile(d: Image, k: nat, name: seq<byte>, f: Inode)
    requires Consistent(d) && k < ENTRIES && IsFile(d, k, name, f)
    ensures WellFormed(f) && Key(name) in FilesOn(d) && FilesOn(d)[Key(name)] == Flat(d, f)
  {
    FileOf(d, k);
    SlotsDistinct(d);
    assert SlotOn(d, k) == File(Key(name), Flat(d, f));
    hide Consistent, Table, MapOf, SlotOn, NamesDistinct, Cut, Flat, InodeAt, WellFormed;
    MapOfAt(SlotsOn(d), k);
  }

  /** Every sequence of requests acts on the disk as on a map from names to bytes; the trace is
      the map before, between and after the requests. */
  method Serve(fs: FileSystem, requests: seq<Request>) returns (ghost trace: seq<Files>)
    requires fs.Valid() && forall i | 0 <= i < |requests| :: Bounded(requests[i])
    modifies fs.disk
    ensures fs.Valid() && |trace| == |requests| + 1
    ensures trace[0] == old(FilesOn(fs.disk.image)) && trace[|requests|] == FilesOn(fs.disk.image)
    ensures forall i | 0 <= i < |requests| :: Effect(trace[i], requests[i], trace[i + 1])
  {
    hide Effect, FilesOn, Consistent;
    trace := [FilesOn(fs.disk.image)];
    for i := 0 to |requests|
      invariant fs.Valid() && |trace| == i + 1
      invariant trace[0] == old(FilesOn(fs.disk.image)) && trace[i] == FilesOn(fs.disk.image)
      invariant forall j | 0 <= j < i :: Effect(trace[j], requests[j], trace[j + 1])
    {
      ServeOne(fs, requests[i]);
      trace := trace + [FilesOn(fs.disk.image)];
    }
  }

  method ServeOne(fs: FileSystem, r: Request)
    requires fs.Valid() && Bounded(r)
    modifies fs.disk
    ensures fs.Valid() && Effect(old(FilesOn(fs.disk.image)), r, FilesOn(fs.disk.image))
  {
    hide FilesOn, Consistent, Fits;
    match r {
      case CreateFile(name, size) =>
        if size <= MAX_FILE_SIZE {
          var _ := Create(fs, name, size);
        }
      case RemoveFile(name) =>
        var _ := Remove(fs, name);
      case WriteTo(name, data, position) =>
        var _ := Write(fs, name, data, position);
    }
  }

  /** A disk without entries in use, as format leaves it, holds the empty map. */
  lemma NoFiles(d: Image)
    requires Consistent(d) && forall k | 0 <= k < ENTRIES :: !Table(d)[k].inUse
    ensures FilesOn(d) == map[]
  {
    forall n ensures n !in FilesOn(d) {
      MapOfHas(SlotsOn(d), n);
      hide MapOf, Table, InodeAt, Flat, WellFormed;
    }
  }
}

/** IP fragmentation and reassembly and the UDP layer of network/post.cc: a cut-down form of
    section 3.2 of RFC 791 carrying the 8-byte header of RFC 768.

    The network delivers every fragment exactly once, in any order, with the fragments of
    any number of datagrams interleaved. */
module Reassembly {
  import opened Options
  import Decimal
  import opened MachineWords

  const CHUNK := 1480   // bytes of payload in one fragment
  const UNITS := 185    // the same in the 8-byte units of the offset field

  datatype Addr = Addr(a: byte, b: byte, c: byte, d: byte)

  /** One entry of the receiver's vector of fragments. */
  datatype Fragment = Fragment(offset: nat, more: bool, data: seq<byte>)

  // ---------------------------------------------------------------------------------
  // Keys

  function SumChar(x: byte, y: byte): char {
    ((x + y) % 256) as char
  }

  /** computeHash: one character for each byte sum, then the identification in decimal. */
  function Key(src: Addr, dst: Addr, id: uint16): string {
    [SumChar(src.a, dst.a), SumChar(src.b, dst.b), SumChar(src.c, dst.c), SumChar(src.d, dst.d)]
    + Decimal.Digits(id)
  }

  lemma SumCharInjective(x: byte, x': byte, y: byte)
    requires SumChar(x, y) == SumChar(x', y)
    ensures x == x'
  {
    assert (SumChar(x, y) as int) == (x + y) % 256;
    assert (SumChar(x', y) as int) == (x' + y) % 256;
  }

  /** For one destination, keys tell source and identification apart. */
  lemma KeysIdentify(src: Addr, src': Addr, dst: Addr, id: uint16, id': uint16)
    ensures Key(src, dst, id) == Key(src', dst, id') <==> src == src' && id == id'
  {
    var k, k' := Key(src, dst, id), Key(src', dst, id');
    if k == k' {
      assert k[4..] == Decimal.Digits(id) && k'[4..] == Decimal.Digits(id');
      Decimal.DigitsInjective(id, id');
      assert k[0] == k'[0] && k[1] == k'[1] && k[2] == k'[2] && k[3] == k'[3];
      SumCharInjective(src.a, src'.a, dst.a);
      SumCharInjective(src.b, src'.b, dst.b);
      SumCharInjective(src.c, src'.c, dst.c);
      SumCharInjective(src.d, src'.d, dst.d);
    }
  }

  /** Across destinations they do not: a reply has the key of its request. */
  lemma KeysClashAcrossDestinations(p: Addr, q: Addr, id: uint16)
    ensures Key(p, q, id) == Key(q, p, id)
  {
  }

  // ---------------------------------------------------------------------------------
  // Sender

  function Min(x: int, y: int): int {
    if x < y then x else y
  }

  /** The number of fragments, ceil(size / 1480). */
  function FragmentCount(size: nat): nat {
    (size + CHUNK - 1) / CHUNK
  }

  /** Chunk i of the data, filled up with zeros. */
  function Chunk(data: seq<byte>, i: nat): (c: seq<byte>)
    requires i < FragmentCount(|data|)
    ensures |c| == CHUNK
  {
    var end := Min((i + 1) * CHUNK, |data|);
    data[i * CHUNK..end] + Zeros(CHUNK - (end - i * CHUNK))
  }

  /** Fragment i as the receiver gets it; the offset field has 13 bits. */
  function FragmentOf(data: seq<byte>, i: nat): Fragment
    requires i < FragmentCount(|data|)
  {
    Fragment((i * CHUNK / 8) % 8192, i + 1 < FragmentCount(|data|), Chunk(data, i))
  }

  /** What fits: the sizes whose fragment offsets do not wrap. */
  const MAX_SIZE := 45 * CHUNK

  lemma OffsetExact(data: seq<byte>, i: nat)
    requires |data| <= MAX_SIZE && i < FragmentCount(|data|)
    ensures FragmentOf(data, i).offset == i * UNITS
  {
    assert i < 45;
    assert i * CHUNK == i * UNITS * 8;
    Divides(i * UNITS, 8, 0);
    Divides(0, 8192, i * UNITS);
  }

  /** Send: the loop that builds the fragments. */
  method Send(data: seq<byte>) returns (sent: seq<Fragment>)
    ensures |sent| == FragmentCount(|data|)
    ensures forall i | 0 <= i < |sent| :: sent[i] == FragmentOf(data, i)
  {
    sent := [];
    var n := FragmentCount(|data|);
    for i := 0 to n
      invariant |sent| == i
      invariant forall j | 0 <= j < i :: sent[j] == FragmentOf(data, j)
    {
      var length := Min(|data| - i * CHUNK, CHUNK);
      var payload := data[i * CHUNK..i * CHUNK + length] + Zeros(CHUNK - length);
      sent := sent + [Fragment((i * CHUNK / 8) % 8192, i < n - 1, payload)];
    }
  }

  // ---------------------------------------------------------------------------------
  // Receiver

  /** insertToMap's place for f: before the first fragment with a larger offset. */
  function Insert(v: seq<Fragment>, f: Fragment): seq<Fragment> {
    if v == [] then [f]
    else if v[0].offset > f.offset then [f] + v
    else [v[0]] + Insert(v[1..], f)
  }

  /** check's test: no gap, and the last fragment is there. */
  predicate Complete(v: seq<Fragment>) {
    && |v| > 0
    && (forall i | 0 <= i < |v| :: v[i].offset == i * UNITS)
    && !v[|v| - 1].more
  }

  function Join(v: seq<Fragment>): seq<byte> {
    if v == [] then [] else v[0].data + Join(v[1..])
  }

  type Dict = map<string, seq<Fragment>>

  function Stored(dict: Dict, key: string): seq<Fragment> {
    if key in dict then dict[key] else []
  }

  /** Receive: file the fragment, and hand the datagram up if it is complete. */
  function Receive(dict: Dict, key: string, f: Fragment): (Dict, Option<seq<byte>>) {
    var v := Insert(Stored(dict, key), f);
    if Complete(v) then (dict - {key}, Some(Join(v)))
    else (dict[key := v], None)
  }

  class IpLayer {
    var fragmentDict: Dict

    constructor ()
      ensures fragmentDict == map[]
    {
      fragmentDict := map[];
    }

    method InsertToMap(key: string, f: Fragment)
      modifies this
      ensures fragmentDict == old(fragmentDict)[key := Insert(Stored(old(fragmentDict), key), f)]
    {
      if key !in fragmentDict {
        fragmentDict := fragmentDict[key := [f]];
        return;
      }
      var v := fragmentDict[key];
      var i := 0;
      while i < |v|
        invariant i <= |v| && fragmentDict == old(fragmentDict)
        invariant Insert(v, f) == v[..i] + Insert(v[i..], f)
      {
        if v[i].offset > f.offset {
          fragmentDict := fragmentDict[key := v[..i] + [f] + v[i..]];
          assert v[..i] + [f] + v[i..] == v[..i] + ([f] + v[i..]);
          return;
        }
        assert v[i..][1..] == v[i + 1..];
        assert v[..i] + ([v[i]] + Insert(v[i + 1..], f)) == v[..i + 1] + Insert(v[i + 1..], f);
        i := i + 1;
      }
      assert v[..i] == v && v[i..] == [];
      fragmentDict := fragmentDict[key := v + [f]];
    }

    method Check(key: string) returns (datagram: Option<seq<byte>>)
      requires key in fragmentDict && fragmentDict[key] != []
      modifies this
      ensures var v := old(fragmentDict)[key];
              if Complete(v) then datagram == Some(Join(v)) && fragmentDict == old(fragmentDict) - {key}
              else datagram == None && fragmentDict == old(fragmentDict)
    {
      var v := fragmentDict[key];
      datagram := None;
      for i := 0 to |v|
        invariant forall j | 0 <= j < i :: v[j].offset == j * UNITS
      {
        if v[i].offset != i * UNITS {
          return;
        }
      }
      if !v[|v| - 1].more {
        var bytes := [];
        for i := 0 to |v|
          invariant bytes + Join(v[i..]) == Join(v)
        {
          assert v[i..][1..] == v[i + 1..];
          assert bytes + (v[i].data + Join(v[i + 1..])) == (bytes + v[i].data) + Join(v[i + 1..]);
          bytes := bytes + v[i].data;
        }
        assert v[|v|..] == [] && bytes + [] == bytes;
        fragmentDict := fragmentDict - {key};
        datagram := Some(bytes);
      }
    }

    method OnFragment(src: Addr, dst: Addr, id: uint16, f: Fragment) returns (datagram: Option<seq<byte>>)
      modifies this
      ensures (fragmentDict, datagram) == Receive(old(fragmentDict), Key(src, dst, id), f)
    {
      var key := Key(src, dst, id);
      InsertToMap(key, f);
      assert Insert(Stored(old(fragmentDict), key), f) != [];
      datagram := Check(key);
      assert old(fragmentDict)[key := Insert(Stored(old(fragmentDict), key), f)] - {key} == old(fragmentDict) - {key};
    }
  }

  // ---------------------------------------------------------------------------------
  // What a vector of stored fragments stands for: some of the fragments of one datagram,
  // by increasing index.

  ghost predicate Represents(v: seq<Fragment>, data: seq<byte>, idx: seq<nat>) {
    && |v| == |idx|
    && (forall j | 0 <= j < |idx| :: idx[j] < FragmentCount(|data|) && v[j] == FragmentOf(data, idx[j]))
    && (forall j, k | 0 <= j < k < |idx| :: idx[j] < idx[k])
  }

  lemma {:induction false} InsertRepresents(v: seq<Fragment>, data: seq<byte>, idx: seq<nat>, i: nat)
    returns (idx': seq<nat>)
    requires |data| <= MAX_SIZE && Represents(v, data, idx)
    requires i < FragmentCount(|data|) && i !in idx
    ensures Represents(Insert(v, FragmentOf(data, i)), data, idx')
    ensures forall k :: k in idx' <==> k in idx || k == i
  {
    OffsetExact(data, i);
    if v == [] {
      idx' := [i];
    } else {
      OffsetExact(data, idx[0]);
      assert idx[0] in idx;
      if idx[0] > i {
        idx' := [i] + idx;
        PrependRepresents(v, data, idx, i);
      } else {
        var rest := InsertRepresents(v[1..], data, idx[1..], i);
        StillAhead(idx, rest, i);
        idx' := [idx[0]] + rest;
        PrependRepresents(Insert(v[1..], FragmentOf(data, i)), data, rest, idx[0]);
      }
    }
  }

  lemma StillAhead(idx: seq<nat>, rest: seq<nat>, i: nat)
    requires idx != [] && idx[0] < i && forall j | 0 < j < |idx| :: idx[0] < idx[j]
    requires forall k :: k in rest <==> k in idx[1..] || k == i
    ensures forall j | 0 <= j < |rest| :: idx[0] < rest[j]
    ensures forall k :: k in [idx[0]] + rest <==> k in idx || k == i
  {
    assert idx == [idx[0]] + idx[1..];
    forall j | 0 <= j < |rest| ensures idx[0] < rest[j] {
      assert rest[j] in rest;
    }
  }

  lemma {:induction false} PrependRepresents(v: seq<Fragment>, data: seq<byte>, idx: seq<nat>, i: nat)
    requires Represents(v, data, idx) && i < FragmentCount(|data|)
    requires forall j | 0 <= j < |idx| :: i < idx[j]
    ensures Represents([FragmentOf(data, i)] + v, data, [i] + idx)
  {
  }

  ghost predicate AllIn(n: nat, idx: seq<nat>) {
    forall k | 0 <= k < n :: k in idx
  }

  lemma {:induction false} Dense(n: nat, idx: seq<nat>, j: nat)
    requires forall a, b | 0 <= a < b < |idx| :: idx[a] < idx[b]
    requires AllIn(n, idx) && j < n
    ensures j < |idx| && idx[j] == j
  {
    if j > 0 { Dense(n, idx, j - 1); }
    assert j in idx;
    var m :| 0 <= m < |idx| && idx[m] == j;
    if m < j {
      Dense(n, idx, m);
    }
  }

  /** The test in check succeeds exactly when every fragment is there. */
  lemma {:induction false} CompleteIff(v: seq<Fragment>, data: seq<byte>, idx: seq<nat>)
    requires 0 < |data| <= MAX_SIZE && Represents(v, data, idx)
    ensures Complete(v) <==> AllIn(FragmentCount(|data|), idx)
    ensures Complete(v) ==> |idx| == FragmentCount(|data|) && forall j | 0 <= j < |idx| :: idx[j] == j
  {
    var n := FragmentCount(|data|);
    forall j | 0 <= j < |idx| ensures v[j].offset == idx[j] * UNITS {
      OffsetExact(data, idx[j]);
    }
    if AllIn(n, idx) {
      forall j | 0 <= j < n ensures j < |idx| && idx[j] == j {
        Dense(n, idx, j);
      }
      assert idx[n - 1] == n - 1;
    }
    if Complete(v) {
      forall j | 0 <= j < |idx| ensures idx[j] == j {
        assert v[j].offset == j * UNITS;
      }
      assert idx[|idx| - 1] == |idx| - 1 == n - 1;
      forall k | 0 <= k < n ensures k in idx {
        assert idx[k] == k;
      }
    }
  }

  /** The datagram, filled up with zeros to whole chunks. */
  function Padded(data: seq<byte>): (p: seq<byte>)
    ensures data <= p && |p| == FragmentCount(|data|) * CHUNK
  {
    data + Zeros(FragmentCount(|data|) * CHUNK - |data|)
  }

  lemma {:induction false} JoinFrom(v: seq<Fragment>, data: seq<byte>, i: nat)
    requires |v| == FragmentCount(|data|) && i <= |v|
    requires forall j | 0 <= j < |v| :: v[j] == FragmentOf(data, j)
    ensures Join(v[i..]) == Padded(data)[i * CHUNK..]
    decreases |v| - i
  {
    if i < |v| {
      JoinFrom(v, data, i + 1);
      assert v[i..][1..] == v[i + 1..];
      var p := Padded(data);
      assert Chunk(data, i) == p[i * CHUNK..(i + 1) * CHUNK];
      assert p[i * CHUNK..] == p[i * CHUNK..(i + 1) * CHUNK] + p[(i + 1) * CHUNK..];
    }
  }

  // ---------------------------------------------------------------------------------
  // Every arrival order, every interleaving.

  datatype Source = Source(src: Addr, id: uint16)

  /** Fragment number `index` of the datagram of `from` reaches the receiver. */
  datatype Arrival = Arrival(from: Source, index: nat)

  type Sends = map<Source, seq<byte>>

  /** Each fragment of each datagram arrives at most once. */
  ghost predicate Arrivals(sends: Sends, arrivals: seq<Arrival>) {
    && (forall x | x in sends :: 0 < |sends[x]| <= MAX_SIZE)
    && (forall j | 0 <= j < |arrivals| ::
          arrivals[j].from in sends && arrivals[j].index < FragmentCount(|sends[arrivals[j].from]|))
    && Distinct(arrivals)
  }

  /** The receiver at `dst` after the arrivals, starting from `dict`. */
  ghost function After(dict: Dict, dst: Addr, sends: Sends, arrivals: seq<Arrival>): Dict
    requires Arrivals(sends, arrivals)
    decreases |arrivals|
  {
    if arrivals == [] then dict
    else
      var n := |arrivals| - 1;
      Arrive(After(dict, dst, sends, arrivals[..n]), dst, sends, arrivals[n]).0
  }

  ghost function Arrive(dict: Dict, dst: Addr, sends: Sends, a: Arrival): (Dict, Option<seq<byte>>)
    requires a.from in sends && a.index < FragmentCount(|sends[a.from]|)
  {
    Receive(dict, Key(a.from.src, dst, a.from.id), FragmentOf(sends[a.from], a.index))
  }

  ghost predicate Arrived(arrivals: seq<Arrival>, x: Source, index: nat) {
    Arrival(x, index) in arrivals
  }

  ghost predicate AllArrived(sends: Sends, arrivals: seq<Arrival>, x: Source)
    requires x in sends
  {
    forall i | 0 <= i < FragmentCount(|sends[x]|) :: Arrived(arrivals, x, i)
  }

  /** What is stored for datagram x: its fragments so far, or nothing once it is complete. */
  ghost predicate StoredFor(dict: Dict, dst: Addr, sends: Sends, arrivals: seq<Arrival>, x: Source, idx: seq<nat>)
    requires x in sends
  {
    var key := Key(x.src, dst, x.id);
    if AllArrived(sends, arrivals, x) then key !in dict
    else && Represents(Stored(dict, key), sends[x], idx)
         && (forall i :: i in idx <==> Arrived(arrivals, x, i))
  }

  /** What the next arrival does to its datagram: the stored fragments grow by it, and the
      datagram is handed up exactly when this was the last one missing. */
  lemma {:induction false} ArriveOwn(dict: Dict, dst: Addr, sends: Sends, arrivals: seq<Arrival>, a: Arrival,
      idx: seq<nat>)
    returns (idx': seq<nat>)
    requires a.from in sends && 0 < |sends[a.from]| <= MAX_SIZE
    requires a.index < FragmentCount(|sends[a.from]|) && a !in arrivals
    requires StoredFor(dict, dst, sends, arrivals, a.from, idx)
    ensures var (dict', out) := Arrive(dict, dst, sends, a);
            && StoredFor(dict', dst, sends, arrivals + [a], a.from, idx')
            && out == if AllArrived(sends, arrivals + [a], a.from) then Some(Padded(sends[a.from])) else None
  {
    var x := a.from;
    var data := sends[x];
    assert !Arrived(arrivals, x, a.index);
    var v := Stored(dict, Key(x.src, dst, x.id));
    idx' := InsertRepresents(v, data, idx, a.index);
    var v' := Insert(v, FragmentOf(data, a.index));
    forall i ensures i in idx' <==> Arrived(arrivals + [a], x, i) {
      assert Arrival(x, i) in arrivals + [a] <==> Arrival(x, i) in arrivals || i == a.index;
    }
    CompleteIff(v', data, idx');
    if Complete(v') {
      JoinFrom(v', data, 0);
    }
  }

  /** It does nothing to the others: their keys differ. */
  lemma {:induction false} ArriveOther(dict: Dict, dst: Addr, sends: Sends, arrivals: seq<Arrival>, a: Arrival,
      x: Source, idx: seq<nat>)
    requires x in sends && a.from in sends && a.index < FragmentCount(|sends[a.from]|)
    requires x != a.from && StoredFor(dict, dst, sends, arrivals, x, idx)
    ensures StoredFor(Arrive(dict, dst, sends, a).0, dst, sends, arrivals + [a], x, idx)
  {
    KeysIdentify(a.from.src, x.src, dst, a.from.id, x.id);
    forall i ensures Arrived(arrivals + [a], x, i) <==> Arrived(arrivals, x, i) {
      assert Arrival(x, i) in arrivals + [a] <==> Arrival(x, i) in arrivals;
    }
  }

  /** No datagram of the run has anything stored to begin with. */
  ghost predicate Fresh(dict: Dict, dst: Addr, sends: Sends) {
    forall x | x in sends :: Key(x.src, dst, x.id) !in dict
  }

  lemma {:induction false} AfterStores(dict: Dict, dst: Addr, sends: Sends, arrivals: seq<Arrival>, x: Source)
    returns (idx: seq<nat>)
    requires Arrivals(sends, arrivals) && Fresh(dict, dst, sends) && x in sends
    ensures StoredFor(After(dict, dst, sends, arrivals), dst, sends, arrivals, x, idx)
    decreases |arrivals|
  {
    hide StoredFor, Arrive, FragmentCount;
    if arrivals == [] {
      idx := [];
      NothingStored(dict, dst, sends, x);
    } else {
      var n := |arrivals| - 1;
      idx := AfterStores(dict, dst, sends, arrivals[..n], x);
      idx := ArriveStores(After(dict, dst, sends, arrivals[..n]), dst, sends, arrivals, x, idx);
    }
  }

  lemma NothingStored(dict: Dict, dst: Addr, sends: Sends, x: Source)
    requires Arrivals(sends, []) && Fresh(dict, dst, sends) && x in sends
    ensures StoredFor(dict, dst, sends, [], x, [])
  {
    assert !Arrived([], x, 0);
  }

  lemma ArriveStores(dict: Dict, dst: Addr, sends: Sends, arrivals: seq<Arrival>, x: Source, idx: seq<nat>)
    returns (idx': seq<nat>)
    requires Arrivals(sends, arrivals) && x in sends && arrivals != []
    requires StoredFor(dict, dst, sends, arrivals[..|arrivals| - 1], x, idx)
    ensures StoredFor(Arrive(dict, dst, sends, arrivals[|arrivals| - 1]).0, dst, sends, arrivals, x, idx')
  {
    hide StoredFor, Arrive, FragmentCount;
    var n := |arrivals| - 1;
    var before, a := arrivals[..n], arrivals[n];
    assert arrivals == before + [a];
    if x == a.from {
      idx' := ArriveOwn(dict, dst, sends, before, a, idx);
    } else {
      ArriveOther(dict, dst, sends, before, a, x, idx);
      idx' := idx;
    }
  }

  /** What the receiver hands to UDP on arrival number j. */
  ghost function Handed(dict: Dict, dst: Addr, sends: Sends, arrivals: seq<Arrival>, j: nat): Option<seq<byte>>
    requires Arrivals(sends, arrivals) && j < |arrivals|
  {
    Arrive(After(dict, dst, sends, arrivals[..j]), dst, sends, arrivals[j]).1
  }

  /** In every arrival order and interleaving: arrival j hands up its own datagram, whole,
      exactly when it is the last missing fragment, and otherwise nothing. */
  lemma HandedWhenComplete(dict: Dict, dst: Addr, sends: Sends, arrivals: seq<Arrival>, j: nat)
    requires Arrivals(sends, arrivals) && Fresh(dict, dst, sends) && j < |arrivals|
    ensures var x := arrivals[j].from;
            Handed(dict, dst, sends, arrivals, j) ==
            if AllArrived(sends, arrivals[..j + 1], x) then Some(Padded(sends[x])) else None
  {
    var a := arrivals[j];
    var idx := AfterStores(dict, dst, sends, arrivals[..j], a.from);
    assert arrivals[..j + 1] == arrivals[..j] + [a];
    var _ := ArriveOwn(After(dict, dst, sends, arrivals[..j]), dst, sends, arrivals[..j], a, idx);
  }

  /** A datagram all of whose fragments arrive is handed up exactly once. */
  lemma HandedOnce(dict: Dict, dst: Addr, sends: Sends, arrivals: seq<Arrival>, x: Source)
    requires Arrivals(sends, arrivals) && Fresh(dict, dst, sends)
    requires x in sends && AllArrived(sends, arrivals, x)
    ensures exists j | 0 <= j < |arrivals| ::
              && arrivals[j].from == x && Handed(dict, dst, sends, arrivals, j) == Some(Padded(sends[x]))
              && forall k | 0 <= k < |arrivals| && k != j && arrivals[k].from == x ::
                   Handed(dict, dst, sends, arrivals, k) == None
  {
    var j := LastOf(sends, arrivals, x);
    HandedWhenComplete(dict, dst, sends, arrivals, j);
    var upto := arrivals[..j + 1];
    forall i | 0 <= i < FragmentCount(|sends[x]|) ensures Arrived(upto, x, i) {
      assert Arrived(arrivals, x, i);
      var m :| 0 <= m < |arrivals| && arrivals[m] == Arrival(x, i);
      assert upto[m] == Arrival(x, i);
    }
    forall k | 0 <= k < |arrivals| && k != j && arrivals[k].from == x
      ensures Handed(dict, dst, sends, arrivals, k) == None
    {
      HandedWhenComplete(dict, dst, sends, arrivals, k);
      assert !Arrived(arrivals[..k + 1], x, arrivals[j].index);
    }
  }

  /** The last arrival that belongs to x. */
  lemma {:induction false} LastOf(sends: Sends, arrivals: seq<Arrival>, x: Source) returns (j: nat)
    requires Arrivals(sends, arrivals) && x in sends && AllArrived(sends, arrivals, x)
    ensures j < |arrivals| && arrivals[j].from == x
    ensures forall k | j < k < |arrivals| :: arrivals[k].from != x
  {
    assert Arrived(arrivals, x, 0);
    var first :| 0 <= first < |arrivals| && arrivals[first] == Arrival(x, 0);
    j := |arrivals| - 1;
    while arrivals[j].from != x
      invariant first <= j < |arrivals|
      invariant forall k | j < k < |arrivals| :: arrivals[k].from != x
      decreases j
    {
      j := j - 1;
    }
  }

  // ---------------------------------------------------------------------------------
  // UDP

  function Low(x: uint16): byte {
    x % 256
  }

  function High(x: uint16): byte {
    x / 256
  }

  function Word(b: seq<byte>, at: nat): uint16
    requires at + 1 < |b|
  {
    var lo: int, hi: int := b[at], b[at + 1];
    lo + 256 * hi
  }

  /** The buffer UDP hands to IP; the length field has 16 bits, the checksum is never set. */
  function UdpBuffer(data: seq<byte>, srcPort: uint16, destPort: uint16, checksum: uint16): seq<byte> {
    var length := (|data| + 8) % 65536;
    [Low(srcPort), High(srcPort), Low(destPort), High(destPort), Low(length), High(length), Low(checksum),
      High(checksum)]
    + data
  }

  /** The header is the four fields of RFC 768, two bytes each, the low byte first: source port,
      destination port, length of header and data, and checksum. */
  lemma UdpHeader(data: seq<byte>, srcPort: uint16, destPort: uint16, checksum: uint16)
    ensures var b := UdpBuffer(data, srcPort, destPort, checksum);
            && |b| == |data| + 8 && b[8..] == data
            && Word(b, 0) == srcPort && Word(b, 2) == destPort && Word(b, 6) == checksum
            && Word(b, 4) == (|data| + 8) % 65536
  {
  }

  /** What UDP's Receive passes to putData: the buffer's bytes, a byte count that may be
      negative, and the port. */
  function UdpReceive(datagram: seq<byte>): (seq<byte>, int, uint16)
    requires |datagram| >= 8
  {
    (datagram[8..], Word(datagram, 4) - 8, Word(datagram, 2))
  }

  /** The receiver is given the data and the port that were sent, and the right count, if
      and only if the UDP length fits its 16 bits. */
  lemma UdpRoundTrip(data: seq<byte>, srcPort: uint16, destPort: uint16, checksum: uint16)
    requires |data| <= 65536
    ensures var (bytes, count, port) := UdpReceive(Padded(UdpBuffer(data, srcPort, destPort, checksum)));
            && port == destPort
            && data <= bytes
            && (count == |data| <==> |data| + 8 < 65536)
  {
    var b := UdpBuffer(data, srcPort, destPort, checksum);
    var p := Padded(b);
    assert p[..|b|] == b;
    assert data == b[8..];
    assert p[8..][..|data|] == data;
  }

  /** From the sender's socket to the receiver's: whatever else arrives in between, each
      datagram whose fragments all arrive is passed to putData once, with the data, the
      length and the port it was sent with. */
  lemma EndToEnd(dict: Dict, dst: Addr, sends: Sends, arrivals: seq<Arrival>, x: Source,
                 data: seq<byte>, srcPort: uint16, destPort: uint16, checksum: uint16)
    requires Arrivals(sends, arrivals) && Fresh(dict, dst, sends)
    requires |data| + 8 < 65536
    requires x in sends && sends[x] == UdpBuffer(data, srcPort, destPort, checksum)
    requires AllArrived(sends, arrivals, x)
    ensures exists j | 0 <= j < |arrivals| ::
              && arrivals[j].from == x
              && Handed(dict, dst, sends, arrivals, j).Some?
              && |Handed(dict, dst, sends, arrivals, j).value| >= |data| + 8
              && UdpReceive(Handed(dict, dst, sends, arrivals, j).value).0[..|data|] == data
              && UdpReceive(Handed(dict, dst, sends, arrivals, j).value).1 == |data|
              && UdpReceive(Handed(dict, dst, sends, arrivals, j).value).2 == destPort
              && forall k | 0 <= k < |arrivals| && k != j && arrivals[k].from == x ::
                   Handed(dict, dst, sends, arrivals, k) == None
  {
    HandedOnce(dict, dst, sends, arrivals, x);
    UdpRoundTrip(data, srcPort, destPort, checksum);
  }
}

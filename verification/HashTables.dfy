/** The chained hash table of lib/hash.cc with its iterator. A chain is a sequence here; the
    linked list itself is in module Lists. */
module HashTables {
  import opened Options

  const INITIAL_BUCKETS := 4
  const RESIZE_RATIO := 3
  const INCREASE_SIZE_BY := 4

  /** How items are keyed and hashed. */
  datatype Scheme<!Key, !T> = Scheme(getKey: T -> Key, hash: Key -> nat)

  function Home<Key, T>(sc: Scheme<Key, T>, key: Key, n: nat): (b: nat)
    requires n > 0
    ensures b < n
  {
    sc.hash(key) % n
  }

  /** Chain s holds, once each, exactly the items of m that hash to bucket b of n. */
  ghost predicate Chain<Key(!new), T(!new)>(sc: Scheme<Key, T>, s: seq<T>, m: map<Key, T>, b: nat, n: nat)
    requires n > 0
  {
    && Distinct(s)
    && (forall x | x in s :: sc.getKey(x) in m && m[sc.getKey(x)] == x && Home(sc, sc.getKey(x), n) == b)
    && (forall k | k in m && Home(sc, k, n) == b :: m[k] in s)
  }

  ghost predicate Keyed<Key, T>(sc: Scheme<Key, T>, m: map<Key, T>) {
    forall k | k in m :: sc.getKey(m[k]) == k
  }

  /** The buckets represent the map m. */
  ghost predicate Represents<Key(!new), T(!new)>(sc: Scheme<Key, T>, bs: seq<seq<T>>, m: map<Key, T>) {
    && |bs| > 0 && Keyed(sc, m)
    && (forall b | 0 <= b < |bs| :: Chain(sc, bs[b], m, b, |bs|))
    && Total(bs) == |m|
  }

  function Total<T>(bs: seq<seq<T>>): nat {
    if bs == [] then 0 else |bs[0]| + Total(bs[1..])
  }

  lemma {:induction false} TotalUpdate<T>(bs: seq<seq<T>>, b: nat, s: seq<T>)
    requires b < |bs|
    ensures Total(bs[b := s]) == Total(bs) - |bs[b]| + |s|
  {
    if b > 0 {
      TotalUpdate(bs[1..], b - 1, s);
      assert bs[b := s][1..] == bs[1..][b - 1 := s];
    }
  }

  lemma AppendRepresents<Key(!new), T(!new)>(sc: Scheme<Key, T>, bs: seq<seq<T>>, m: map<Key, T>, x: T)
    requires Represents(sc, bs, m) && sc.getKey(x) !in m
    ensures var b := Home(sc, sc.getKey(x), |bs|);
            Represents(sc, bs[b := bs[b] + [x]], m[sc.getKey(x) := x])
  {
    hide Chain;
    var k := sc.getKey(x);
    var b := Home(sc, k, |bs|);
    var m', bs' := m[k := x], bs[b := bs[b] + [x]];
    TotalUpdate(bs, b, bs[b] + [x]);
    assert m'.Keys == m.Keys + {k} && |m'.Keys| == |m'| && |m.Keys| == |m|;
    forall c | 0 <= c < |bs'| ensures Chain(sc, bs'[c], m', c, |bs'|) {
      assert Chain(sc, bs[c], m, c, |bs|);
      GrowChain(sc, bs[c], m, c, |bs|, x);
    }
  }

  lemma GrowChain<Key(!new), T(!new)>(sc: Scheme<Key, T>, s: seq<T>, m: map<Key, T>, b: nat, n: nat, x: T)
    requires n > 0 && Chain(sc, s, m, b, n) && sc.getKey(x) !in m
    ensures Chain(sc, if b == Home(sc, sc.getKey(x), n) then s + [x] else s, m[sc.getKey(x) := x], b, n)
  {
  }

  lemma RemoveRepresents<Key(!new), T(!new)>(sc: Scheme<Key, T>, bs: seq<seq<T>>, m: map<Key, T>, b: nat, i: nat)
    requires Represents(sc, bs, m) && b < |bs| && i < |bs[b]|
    ensures var k := sc.getKey(bs[b][i]);
            k in m && m[k] == bs[b][i] && Represents(sc, bs[b := bs[b][..i] + bs[b][i + 1..]], m - {k})
  {
    assert Chain(sc, bs[b], m, b, |bs|);
    var x, s := bs[b][i], bs[b][..i] + bs[b][i + 1..];
    var k := sc.getKey(x);
    var m' := m - {k};
    TotalUpdate(bs, b, s);
    assert m.Keys == m'.Keys + {k} && |m'.Keys| == |m'| && |m.Keys| == |m|;
    var bs' := bs[b := s];
    forall c | 0 <= c < |bs'| ensures Chain(sc, bs'[c], m', c, |bs'|) {
      assert Chain(sc, bs[c], m, c, |bs|);
      if c == b { CutChain(sc, bs[b], m, b, |bs|, i); }
    }
  }

  lemma CutChain<Key(!new), T(!new)>(sc: Scheme<Key, T>, s: seq<T>, m: map<Key, T>, b: nat, n: nat, i: nat)
    requires n > 0 && i < |s| && Chain(sc, s, m, b, n) && Keyed(sc, m)
    ensures Chain(sc, s[..i] + s[i + 1..], m - {sc.getKey(s[i])}, b, n)
  {
    var s', k := s[..i] + s[i + 1..], sc.getKey(s[i]);
    var m' := m - {k};
    forall x | x in s' ensures sc.getKey(x) in m' && m'[sc.getKey(x)] == x && Home(sc, sc.getKey(x), n) == b {
      var j :| 0 <= j < |s'| && s'[j] == x;
      assert x == if j < i then s[j] else s[j + 1];
    }
    forall j | j in m' && Home(sc, j, n) == b ensures m'[j] in s' {
      var p :| 0 <= p < |s| && s[p] == m[j];
      assert p != i;
      assert s[p] == if p < i then s'[p] else s'[p - 1];
    }
  }

  /** Empty chains represent the empty map, and only it. */
  lemma EmptyRepresents<Key(!new), T(!new)>(sc: Scheme<Key, T>, bs: seq<seq<T>>)
    requires |bs| > 0 && forall b | 0 <= b < |bs| :: bs[b] == []
    ensures Represents(sc, bs, map[])
    ensures forall m: map<Key, T> | Represents(sc, bs, m) :: m == map[]
  {
    TotalEmpty(bs);
    forall m: map<Key, T> | Represents(sc, bs, m) ensures m == map[] {
      assert |m| == 0;
    }
  }

  lemma {:induction false} TotalEmpty<T>(bs: seq<seq<T>>)
    requires forall b | 0 <= b < |bs| :: bs[b] == []
    ensures Total(bs) == 0
  {
    if bs != [] { TotalEmpty(bs[1..]); }
  }

  // ---------------------------------------------------------------------------------
  // The order in which the iterator visits the items.

  function Flat<T>(bs: seq<seq<T>>): seq<T> {
    if bs == [] then [] else bs[0] + Flat(bs[1..])
  }

  lemma {:induction false} FlatHas<T>(bs: seq<seq<T>>, x: T)
    ensures x in Flat(bs) <==> exists b | 0 <= b < |bs| :: x in bs[b]
  {
    if bs != [] {
      FlatHas(bs[1..], x);
      if b :| 0 <= b < |bs| && x in bs[b] {
        assert b > 0 ==> x in bs[1..][b - 1];
      }
      if b :| 0 <= b < |bs[1..]| && x in bs[1..][b] {
        assert x in bs[b + 1];
      }
    }
  }

  lemma {:induction false} FlatLength<T>(bs: seq<seq<T>>)
    ensures |Flat(bs)| == Total(bs)
  {
    if bs != [] { FlatLength(bs[1..]); }
  }

  /** Every item of the map is visited exactly once, and nothing else. */
  lemma FlatVisits<Key(!new), T(!new)>(sc: Scheme<Key, T>, bs: seq<seq<T>>, m: map<Key, T>)
    requires Represents(sc, bs, m)
    ensures |Flat(bs)| == |m| && Distinct(Flat(bs))
    ensures forall x :: x in Flat(bs) <==> sc.getKey(x) in m && m[sc.getKey(x)] == x
  {
    forall x ensures x in Flat(bs) <==> sc.getKey(x) in m && m[sc.getKey(x)] == x {
      FlatHas(bs, x);
      if x in Flat(bs) {
        var b :| 0 <= b < |bs| && x in bs[b];
        assert Chain(sc, bs[b], m, b, |bs|);
      }
      if sc.getKey(x) in m && m[sc.getKey(x)] == x {
        var b := Home(sc, sc.getKey(x), |bs|);
        assert Chain(sc, bs[b], m, b, |bs|);
        assert x in bs[b];
      }
    }
    FlatDistinct(bs, x => Home(sc, sc.getKey(x), |bs|), 0);
    FlatLength(bs);
  }

  /** Chains whose items tell which chain they are in. */
  lemma {:induction false} FlatDistinct<T>(bs: seq<seq<T>>, where: T -> nat, from: nat)
    requires forall b | 0 <= b < |bs| :: Distinct(bs[b]) && forall x | x in bs[b] :: where(x) == from + b
    ensures Distinct(Flat(bs))
    ensures forall x | x in Flat(bs) :: where(x) >= from
  {
    if bs != [] {
      assert forall b | 0 <= b < |bs[1..]| :: bs[1..][b] == bs[b + 1];
      FlatDistinct(bs[1..], where, from + 1);
      assert forall x | x in bs[0] :: where(x) == from;
      var rest, all := Flat(bs[1..]), Flat(bs);
      forall i, j | 0 <= i < j < |all| ensures all[i] != all[j] {
        if i < |bs[0]| <= j {
          assert all[i] in bs[0] && all[j] == rest[j - |bs[0]|];
        }
      }
    }
  }

  // ---------------------------------------------------------------------------------
  // The table in place.

  lemma Ratio(n: nat, size: nat)
    requires size > 0
    ensures n / size >= RESIZE_RATIO <==> n >= RESIZE_RATIO * size
  {
    assert n == n / size * size + n % size;
    if n / size >= RESIZE_RATIO {
      assert (n / size - RESIZE_RATIO) * size >= 0;
    } else {
      assert (RESIZE_RATIO - 1 - n / size) * size >= 0;
    }
  }

  /** While a table is moved: what is in the new buckets and what is still in the old ones. */
  ghost predicate Halfway<Key(!new), T(!new)>(sc: Scheme<Key, T>, before: seq<seq<T>>, after: seq<seq<T>>,
                                              m: map<Key, T>, moved: map<Key, T>) {
    && |before| > 0 && |after| > 0
    && Represents(sc, after, moved) && Represents(sc, before, m - moved.Keys)
    && moved == map k | k in m && k in moved :: m[k]
  }

  lemma NoneMoved<Key(!new), T(!new)>(sc: Scheme<Key, T>, before: seq<seq<T>>, after: seq<seq<T>>, m: map<Key, T>)
    requires Represents(sc, before, m) && |after| > 0 && forall b | 0 <= b < |after| :: after[b] == []
    ensures Halfway(sc, before, after, m, map[])
  {
    EmptyRepresents(sc, after);
    assert |before| > 0;
    hide Represents;
    var none: map<Key, T> := map[];
    assert m - none.Keys == m;
  }

  lemma AllMoved<Key(!new), T(!new)>(sc: Scheme<Key, T>, before: seq<seq<T>>, after: seq<seq<T>>,
                                     m: map<Key, T>, moved: map<Key, T>)
    requires Halfway(sc, before, after, m, moved) && forall b | 0 <= b < |before| :: before[b] == []
    ensures Represents(sc, after, m)
  {
    hide Represents;
    EmptyRepresents(sc, before);
    forall k | k in m ensures k in moved {
      assert k !in m - moved.Keys;
    }
    assert moved == m;
  }

  class HashTable<Key(==, !new), T(==, !new)> {
    const sc: Scheme<Key, T>
    var buckets: array<seq<T>>
    var numItems: nat
    ghost var contents: map<Key, T>

    ghost predicate Valid()
      reads this, buckets
    {
      && buckets.Length > 0 && Represents(sc, buckets[..], contents)
      && numItems == |contents| && numItems <= RESIZE_RATIO * buckets.Length
    }

    constructor (getKey: T -> Key, hash: Key -> nat)
      ensures Valid() && fresh(buckets) && contents == map[] && sc == Scheme(getKey, hash)
    {
      sc := Scheme(getKey, hash);
      numItems, contents := 0, map[];
      buckets := new seq<T>[INITIAL_BUCKETS](_ => []);
      new;
      EmptyRepresents(sc, buckets[..]);
    }

    /** FindInBucket: the item with the key, and where it is in its chain. */
    method FindInBucket(b: nat, key: Key) returns (at: Option<nat>)
      requires Valid() && b == Home(sc, key, buckets.Length)
      ensures at.Some? <==> key in contents
      ensures at.Some? ==> at.value < |buckets[b]| && buckets[b][at.value] == contents[key]
    {
      assert Chain(sc, buckets[..][b], contents, b, buckets.Length);
      for i := 0 to |buckets[b]|
        invariant forall j | 0 <= j < i :: sc.getKey(buckets[b][j]) != key
      {
        assert buckets[b][i] in buckets[b];
        if sc.getKey(buckets[b][i]) == key {
          return Some(i);
        }
      }
      at := None;
    }

    method Find(key: Key) returns (item: Option<T>)
      requires Valid()
      ensures item == if key in contents then Some(contents[key]) else None
    {
      var b := Home(sc, key, buckets.Length);
      var at := FindInBucket(b, key);
      item := if at.Some? then Some(buckets[b][at.value]) else None;
    }

    method Insert(item: T)
      requires Valid() && sc.getKey(item) !in contents   // ASSERT(!IsInTable(key))
      modifies this, buckets
      ensures Valid() && contents == old(contents)[sc.getKey(item) := item]
      ensures buckets == old(buckets) || fresh(buckets)
    {
      hide Represents;
      Ratio(numItems, buckets.Length);
      if numItems / buckets.Length >= RESIZE_RATIO {
        ReHash();
      }
      AppendItem(item);
    }

    method AppendItem(item: T)
      requires Valid() && sc.getKey(item) !in contents && numItems < RESIZE_RATIO * buckets.Length
      modifies this, buckets
      ensures Valid() && contents == old(contents)[sc.getKey(item) := item] && buckets == old(buckets)
    {
      hide Represents;
      var key := sc.getKey(item);
      var b := Home(sc, key, buckets.Length);
      AppendRepresents(sc, buckets[..], contents, item);
      ghost var before := buckets[..];
      buckets[b] := buckets[b] + [item];
      assert buckets[..] == before[b := before[b] + [item]];
      numItems := numItems + 1;
      assert contents[key := item].Keys == contents.Keys + {key};
      contents := contents[key := item];
    }

    /** Every item moves to a table four times the size. */
    method ReHash()
      requires Valid()
      modifies this, buckets
      ensures Valid() && contents == old(contents) && numItems == old(numItems)
      ensures fresh(buckets) && buckets.Length == INCREASE_SIZE_BY * old(buckets.Length)
    {
      hide Represents, Halfway;
      var oldTable, size := buckets, buckets.Length;
      var newTable := new seq<T>[size * INCREASE_SIZE_BY](_ => []);
      ghost var moved: map<Key, T> := map[];
      NoneMoved(sc, oldTable[..], newTable[..], contents);
      for i := 0 to size
        modifies oldTable, newTable
        invariant Halfway(sc, oldTable[..], newTable[..], contents, moved)
        invariant forall j | 0 <= j < i :: oldTable[j] == []
      {
        moved := MoveChain(oldTable, newTable, i, moved);
      }
      AllMoved(sc, oldTable[..], newTable[..], contents, moved);
      buckets := newTable;
    }

    method MoveChain(oldTable: array<seq<T>>, newTable: array<seq<T>>, i: nat, ghost before: map<Key, T>)
      returns (ghost moved: map<Key, T>)
      requires i < oldTable.Length && oldTable != newTable
      requires Halfway(sc, oldTable[..], newTable[..], contents, before)
      modifies oldTable, newTable
      ensures Halfway(sc, oldTable[..], newTable[..], contents, moved)
      ensures oldTable[i] == [] && forall j | 0 <= j < oldTable.Length && j != i :: oldTable[j] == old(oldTable[j])
    {
      hide Halfway;
      moved := before;
      while oldTable[i] != []
        invariant Halfway(sc, oldTable[..], newTable[..], contents, moved)
        invariant forall j | 0 <= j < oldTable.Length && j != i :: oldTable[j] == old(oldTable[j])
        decreases |oldTable[i]|
      {
        moved := MoveFront(oldTable, newTable, i, moved);
      }
    }

    method MoveFront(oldTable: array<seq<T>>, newTable: array<seq<T>>, i: nat, ghost moved: map<Key, T>)
      returns (ghost moved': map<Key, T>)
      requires i < oldTable.Length && oldTable[i] != [] && oldTable != newTable
      requires Halfway(sc, oldTable[..], newTable[..], contents, moved)
      modifies oldTable, newTable
      ensures Halfway(sc, oldTable[..], newTable[..], contents, moved')
      ensures oldTable[i] == old(oldTable[i])[1..] && forall j | 0 <= j < oldTable.Length && j != i ::
              oldTable[j] == old(oldTable[j])
    {
      hide Represents, Chain, Keyed;
      ghost var was, now := oldTable[..], newTable[..];
      var item := oldTable[i][0];
      RemoveRepresents(sc, was, contents - moved.Keys, i, 0);
      AppendRepresents(sc, now, moved, item);
      assert was[i][..0] + was[i][1..] == was[i][1..];
      oldTable[i] := oldTable[i][1..];
      assert oldTable[..] == was[i := was[i][1..]];
      var b := Home(sc, sc.getKey(item), newTable.Length);
      newTable[b] := newTable[b] + [item];
      assert newTable[..] == now[b := now[b] + [item]];
      moved' := moved[sc.getKey(item) := item];
      assert contents - moved'.Keys == contents - moved.Keys - {sc.getKey(item)};
    }

    method Remove(key: Key) returns (item: T)
      requires Valid() && key in contents   // ASSERT(found)
      modifies this, buckets
      ensures Valid() && item == old(contents)[key] && contents == old(contents) - {key}
      ensures buckets == old(buckets)
    {
      hide Represents;
      var b := Home(sc, key, buckets.Length);
      var at := FindInBucket(b, key);
      var i := at.value;
      item := buckets[b][i];
      RemoveRepresents(sc, buckets[..], contents, b, i);
      KeyIs(sc, buckets[..], contents, key);
      ghost var before := buckets[..];
      buckets[b] := buckets[b][..i] + buckets[b][i + 1..];
      assert buckets[..] == before[b := before[b][..i] + before[b][i + 1..]];
      numItems := numItems - 1;
      assert contents.Keys == (contents - {key}).Keys + {key};
      contents := contents - {key};
    }
  }

  lemma KeyIs<Key(!new), T(!new)>(sc: Scheme<Key, T>, bs: seq<seq<T>>, m: map<Key, T>, key: Key)
    requires Represents(sc, bs, m) && key in m
    ensures sc.getKey(m[key]) == key
  {
  }

  lemma {:induction false} SkipEmpty<T>(bs: seq<seq<T>>, start: nat, end: nat)
    requires start <= end <= |bs| && forall b | start <= b < end :: bs[b] == []
    ensures Flat(bs[start..]) == Flat(bs[end..])
    decreases |bs| - start
  {
    if start < end {
      assert bs[start..][1..] == bs[start + 1..];
      SkipEmpty(bs, start + 1, end);
    }
  }

  ghost predicate Parts<T>(all: seq<T>, seen: seq<T>, rest: seq<T>) {
    all == seen + rest
  }

  lemma NoneSeen<T>(all: seq<T>)
    ensures Parts(all, [], all)
  {
  }

  lemma OneMore<T>(all: seq<T>, seen: seq<T>, rest: seq<T>)
    requires Parts(all, seen, rest) && |rest| > 0
    ensures Parts(all, seen + [rest[0]], rest[1..])
  {
    assert rest == [rest[0]] + rest[1..];
  }

  lemma AllSeen<T>(all: seq<T>, seen: seq<T>, rest: seq<T>)
    requires Parts(all, seen, rest) && |rest| == 0
    ensures seen == all
  {
  }

  /** What is still to be visited from item number `at` of a bucket on. */
  ghost function RestOf<T>(bs: seq<seq<T>>, bucket: nat, at: nat): seq<T>
    requires bucket <= |bs| && (bucket < |bs| ==> at < |bs[bucket]|)
  {
    if bucket == |bs| then [] else bs[bucket][at..] + Flat(bs[bucket + 1..])
  }

  lemma RestNext<T>(bs: seq<seq<T>>, bucket: nat, at: nat)
    requires bucket < |bs| && at < |bs[bucket]|
    ensures |RestOf(bs, bucket, at)| > 0 && RestOf(bs, bucket, at)[0] == bs[bucket][at]
    ensures RestOf(bs, bucket, at)[1..]
            == if at + 1 < |bs[bucket]| then RestOf(bs, bucket, at + 1) else Flat(bs[bucket + 1..])
  {
    hide Flat;
  }

  class HashIterator<Key(==, !new), T(==, !new)> {
    const table: HashTable<Key, T>
    var bucket: nat
    var at: nat        // where the list iterator is in the bucket's chain

    ghost predicate Valid()
      reads this, table, table.buckets
    {
      && table.Valid() && bucket <= table.buckets.Length
      && (bucket < table.buckets.Length ==> at < |table.buckets[bucket]|)
    }

    /** What is still to be visited. */
    ghost function Rest(): seq<T>
      requires Valid()
      reads this, table, table.buckets
    {
      RestOf(table.buckets[..], bucket, at)
    }

    constructor (tbl: HashTable<Key, T>)
      requires tbl.Valid()
      ensures Valid() && table == tbl && Rest() == Flat(tbl.buckets[..])
    {
      table := tbl;
      bucket, at := 0, 0;
      new;
      FindNextFullBucket(0);
      assert table.buckets[..][0..] == table.buckets[..];
    }

    method FindNextFullBucket(from: nat)
      requires table.Valid() && from <= table.buckets.Length
      modifies this
      ensures Valid() && Rest() == Flat(table.buckets[..][from..])
    {
      hide Represents;
      bucket, at := from, 0;
      while bucket < table.buckets.Length && table.buckets[bucket] == []
        invariant from <= bucket <= table.buckets.Length && at == 0
        invariant forall b | from <= b < bucket :: table.buckets[b] == []
      {
        bucket := bucket + 1;
      }
      SkipEmpty(table.buckets[..], from, bucket);
      assert bucket < table.buckets.Length ==> table.buckets[..][bucket..][1..] == table.buckets[..][bucket + 1..];
    }

    method IsDone() returns (done: bool)
      requires Valid()
      ensures done <==> |Rest()| == 0
    {
      done := bucket == table.buckets.Length;
    }

    method Item() returns (item: T)
      requires Valid() && |Rest()| > 0   // ASSERT(!IsDone())
      ensures item == Rest()[0]
    {
      item := table.buckets[bucket][at];
    }

    method Next()
      requires Valid() && |Rest()| > 0
      modifies this
      ensures Valid() && Rest() == old(Rest())[1..]
    {
      RestNext(table.buckets[..], bucket, at);
      hide Represents, Flat, RestOf, HashTable.Valid;
      at := at + 1;
      if at == |table.buckets[bucket]| {
        FindNextFullBucket(bucket + 1);
      }
    }

    ghost predicate Visiting(all: seq<T>, seen: seq<T>, done: bool, left: nat)
      reads this, table, table.buckets
    {
      Valid() && Parts(all, seen, Rest()) && left == |Rest()| && (done <==> left == 0)
    }

    method VisitOne(ghost all: seq<T>, seen: seq<T>, ghost left: nat)
        returns (more: seq<T>, done: bool, ghost left': nat)
      requires Visiting(all, seen, false, left)
      modifies this
      ensures Visiting(all, more, done, left') && left' < left
    {
      hide Parts, Rest, Valid;
      OneMore(all, seen, Rest());
      var item := Item();
      more := seen + [item];
      Next();
      done := IsDone();
      left' := |Rest()|;
    }

    method Start() returns (done: bool, ghost left: nat)
      requires Valid()
      ensures Visiting(Rest(), [], done, left)
    {
      hide Parts, Rest, Valid;
      NoneSeen(Rest());
      done := IsDone();
      left := |Rest()|;
    }

    /** A loop over the iterator sees what was still to be visited, in order. */
    method Drain() returns (seen: seq<T>)
      requires Valid()
      modifies this
      ensures Valid() && seen == old(Rest())
    {
      ghost var all := Rest();
      seen := [];
      hide *;
      var done, left := Start();
      while !done
        invariant Visiting(all, seen, done, left)
        decreases left
      {
        seen, done, left := VisitOne(all, seen, left);
      }
      VisitedAll(all, seen, left);
    }

    lemma VisitedAll(all: seq<T>, seen: seq<T>, left: nat)
      requires Visiting(all, seen, true, left)
      ensures Valid() && seen == all
    {
      AllSeen(all, seen, Rest());
    }
  }

  /** So a whole iteration sees every item of the table once and nothing else. */
  method VisitAll<Key(==, !new), T(==, !new)>(table: HashTable<Key, T>) returns (seen: seq<T>)
    requires table.Valid()
    ensures Distinct(seen) && |seen| == table.numItems
    ensures forall x :: x in seen <==> table.sc.getKey(x) in table.contents && table.contents[table.sc.getKey(x)] == x
  {
    hide Represents, Flat;
    FlatVisits(table.sc, table.buckets[..], table.contents);
    var iter := new HashIterator(table);
    seen := iter.Drain();
  }
}

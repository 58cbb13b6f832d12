/** The singly linked list of lib/list.cc, in place, against sequences. */
module Lists {
  import opened Options

  class ListElement<T> {
    var item: T
    var next: ListElement?<T>

    constructor (itm: T)
      ensures item == itm && next == null
    {
      item, next := itm, null;
    }
  }

  /** A sequence without its element at i. */
  function Without<T>(s: seq<T>, i: nat): seq<T>
    requires i < |s|
  {
    s[..i] + s[i + 1..]
  }

  lemma WithoutAt<T>(s: seq<T>, k: nat, i: nat)
    requires k < |s| && i < |s| - 1
    ensures |Without(s, k)| == |s| - 1 && Without(s, k)[i] == s[if i < k then i else i + 1]
  {
  }

  lemma WithoutLength<T>(s: seq<T>, k: nat)
    requires k < |s|
    ensures |Without(s, k)| == |s| - 1
  {
  }

  lemma WithoutDistinct<T>(s: seq<T>, k: nat)
    requires k < |s| && Distinct(s)
    ensures Distinct(Without(s, k))
  {
  }

  lemma DifferAt<T>(s: seq<T>, i: nat, j: nat)
    requires Distinct(s) && i < |s| && j < |s| && i != j
    ensures s[i] != s[j]
  {
  }

  /** A sequence with x before its element at k. */
  function With<T>(s: seq<T>, k: nat, x: T): seq<T>
    requires k <= |s|
  {
    s[..k] + [x] + s[k..]
  }

  /** `compare` orders the items: of two at most one is less, and "not less" is transitive. */
  ghost predicate Preorder<T>(compare: (T, T) -> int, s: seq<T>) {
    && (forall x, y | x in s && y in s :: compare(x, y) < 0 ==> compare(y, x) >= 0)
    && (forall x, y, z | x in s && y in s && z in s ::
          compare(y, x) >= 0 && compare(z, y) >= 0 ==> compare(z, x) >= 0)
  }

  ghost predicate Sorted<T>(compare: (T, T) -> int, s: seq<T>) {
    forall i, j | 0 <= i < j < |s| :: compare(s[j], s[i]) >= 0
  }

  lemma WithAt<T>(s: seq<T>, k: nat, x: T, i: nat)
    requires k <= |s| && i <= |s|
    ensures |With(s, k, x)| == |s| + 1
    ensures With(s, k, x)[i] == if i < k then s[i] else if i == k then x else s[i - 1]
  {
  }

  lemma Chained<T>(compare: (T, T) -> int, s: seq<T>, i: nat, j: nat, k: nat)
    requires Preorder(compare, s) && i < |s| && j < |s| && k < |s|
    requires compare(s[i], s[j]) < 0 && (j == k || compare(s[k], s[j]) >= 0)
    ensures compare(s[k], s[i]) >= 0
  {
    assert s[i] in s && s[j] in s && s[k] in s;
    assert compare(s[j], s[i]) >= 0;
  }

  /** Put before the first item it is less than, an item keeps a sorted list sorted. */
  lemma InsertSorts<T>(compare: (T, T) -> int, s: seq<T>, k: nat, x: T)
    requires k <= |s| && (forall j | 0 <= j < k :: compare(x, s[j]) >= 0) && (k < |s| ==> compare(x, s[k]) < 0)
    ensures Preorder(compare, With(s, k, x)) && Sorted(compare, s) ==> Sorted(compare, With(s, k, x))
  {
    hide With, Preorder;
    var t := With(s, k, x);
    WithAt(s, k, x, k);
    if Preorder(compare, t) && Sorted(compare, s) {
      forall i, j | 0 <= i < j < |t| ensures compare(t[j], t[i]) >= 0 {
        WithAt(s, k, x, i);
        WithAt(s, k, x, j);
        if i == k {
          WithAt(s, k, x, k + 1);
          Chained(compare, t, k, k + 1, j);
        }
      }
    }
  }

  lemma WithDistinct<T>(s: seq<T>, k: nat, x: T)
    requires k <= |s| && Distinct(s) && x !in s
    ensures Distinct(With(s, k, x))
  {
  }

  ghost function ElementAt<T>(spine: seq<ListElement<T>>, i: nat): ListElement?<T> {
    if i < |spine| then spine[i] else null
  }

  ghost predicate LinkAt<T>(spine: seq<ListElement<T>>, i: nat)
    requires i < |spine|
    reads spine
  {
    spine[i].next == ElementAt(spine, i + 1)
  }

  ghost predicate Linked<T>(spine: seq<ListElement<T>>)
    reads spine
  {
    forall i: nat | i < |spine| :: LinkAt(spine, i)
  }

  ghost function Items<T>(spine: seq<ListElement<T>>): (s: seq<T>)
    reads spine
    ensures |s| == |spine|
  {
    seq(|spine|, i requires 0 <= i < |spine| reads spine => spine[i].item)
  }

  /** Element k - 1 now points past element k. */
  twostate predicate Bypassed<T>(spine: seq<ListElement<T>>, new k: nat)
    reads spine
  {
    && 0 < k < |spine| && Distinct(spine) && old(Linked(spine))
    && spine[k - 1].next == ElementAt(spine, k + 1)
    && forall e | e in spine :: e.item == old(e.item) && (e != spine[k - 1] ==> e.next == old(e.next))
  }

  twostate lemma UnlinkedAt<T>(spine: seq<ListElement<T>>, new k: nat, new j: nat)
    requires Bypassed(spine, k) && j < |spine| && j != k
    ensures spine[j].next == ElementAt(spine, if j == k - 1 then j + 2 else j + 1)
            && spine[j].item == old(spine[j].item)
  {
    hide Distinct;
    assert spine[j] in spine && old(LinkAt(spine, j));
    if j != k - 1 { DifferAt(spine, j, k - 1); }
  }

  twostate lemma Unlinked<T>(spine: seq<ListElement<T>>, new k: nat)
    requires Bypassed(spine, k)
    ensures Linked(Without(spine, k)) && Items(Without(spine, k)) == Without(old(Items(spine)), k)
  {
    assert k < |spine|;
    hide Bypassed, Without;
    var now, items := Without(spine, k), Without(old(Items(spine)), k);
    WithoutLength(spine, k);
    WithoutLength(old(Items(spine)), k);
    forall i: nat | i < |now| ensures LinkAt(now, i) && now[i].item == items[i] {
      WithoutAt(spine, k, i);
      WithoutAt(old(Items(spine)), k, i);
      if i + 1 < |now| { WithoutAt(spine, k, i + 1); }
      UnlinkedAt(spine, k, if i < k then i else i + 1);
    }
  }

  /** The last element now points to a new one. */
  twostate lemma Extended<T>(spine: seq<ListElement<T>>, new element: ListElement<T>)
    requires Distinct(spine) && old(Linked(spine)) && element !in spine && element.next == null
    requires forall e | e in spine :: e.item == old(e.item)
    requires forall e | e in spine && e != spine[|spine| - 1] :: e.next == old(e.next)
    requires spine != [] ==> spine[|spine| - 1].next == element
    ensures Linked(spine + [element]) && Items(spine + [element]) == old(Items(spine)) + [element.item]
    ensures Distinct(spine + [element])
  {
    var now := spine + [element];
    forall i: nat | i < |now| ensures LinkAt(now, i) {
      if i < |spine| {
        assert now[i] == spine[i] && spine[i] in spine && old(LinkAt(spine, i));
        if i + 1 < |spine| { DifferAt(spine, i, |spine| - 1); }
      }
    }
    assert forall i | 0 <= i < |spine| :: spine[i] in spine;
  }

  /** Element k - 1 now points to a new element, which points to element k. */
  twostate predicate Spliced<T>(spine: seq<ListElement<T>>, new k: nat, new element: ListElement<T>)
    reads spine, element
  {
    && k <= |spine| && Distinct(spine) && old(Linked(spine)) && element !in spine
    && element.next == ElementAt(spine, k) && (k > 0 ==> spine[k - 1].next == element)
    && forall e | e in spine :: e.item == old(e.item) && (k == 0 || e != spine[k - 1] ==> e.next == old(e.next))
  }

  twostate lemma SplicedLinks<T>(spine: seq<ListElement<T>>, new k: nat, new element: ListElement<T>)
    requires Spliced(spine, k, element)
    ensures Linked(With(spine, k, element))
    ensures Items(With(spine, k, element)) == With(old(Items(spine)), k, element.item)
  {
    hide With, Distinct;
    var now, items := With(spine, k, element), With(old(Items(spine)), k, element.item);
    WithAt(spine, k, element, 0);
    WithAt(old(Items(spine)), k, element.item, 0);
    forall i: nat | i < |now| ensures LinkAt(now, i) && now[i].item == items[i] {
      WithAt(spine, k, element, i);
      WithAt(old(Items(spine)), k, element.item, i);
      if i + 1 < |now| { WithAt(spine, k, element, i + 1); }
      if i != k {
        var j := if i < k then i else i - 1;
        assert now[i] == spine[j] && spine[j] in spine && old(LinkAt(spine, j));
        if k > 0 && j != k - 1 { DifferAt(spine, j, k - 1); }
      }
    }
  }

  lemma AddedDistinct<T>(s: seq<T>, x: T)
    requires Distinct(s) && x !in s
    ensures Distinct(s + [x]) && Distinct([x] + s)
  {
  }

  /** Of distinct elements the one taken out is gone. */
  lemma TakenOut<T>(s: seq<T>, k: nat)
    requires Distinct(s) && k < |s|
    ensures Distinct(Without(s, k)) && s[k] !in Without(s, k)
  {
    WithoutDistinct(s, k);
  }

  class List<T(==)> {
    var first: ListElement?<T>
    var last: ListElement?<T>
    var numInList: nat
    ghost var spine: seq<ListElement<T>>

    /** Every item is in the list once: the source asserts absence wherever it adds one. */
    ghost predicate Valid()
      reads this, spine
    {
      Wired() && Distinct(Contents())
    }

    ghost predicate Wired()
      reads this, spine
    {
      && numInList == |spine| && Distinct(spine)
      && (if spine == [] then first == null && last == null else first == spine[0] && last == spine[|spine| - 1])
      && Linked(spine)
    }

    ghost function Contents(): (s: seq<T>)
      reads this, spine
      ensures |s| == |spine|
    {
      Items(spine)
    }

    constructor ()
      ensures Valid() && spine == [] && Contents() == []
    {
      first, last, numInList, spine := null, null, 0, [];
    }

    method IsInList(item: T) returns (found: bool)
      requires Valid()
      ensures found <==> item in Contents()
    {
      var ptr := first;
      ghost var k := 0;
      while ptr != null
        invariant k <= |spine| && ptr == ElementAt(spine, k)
        invariant forall j | 0 <= j < k :: Contents()[j] != item
        decreases |spine| - k
      {
        if ptr.item == item {
          assert Contents()[k] == item;
          return true;
        }
        assert LinkAt(spine, k);
        ptr, k := ptr.next, k + 1;
      }
      found := false;
    }

    method Append(item: T)
      requires Valid() && item !in Contents()   // ASSERT(!IsInList(item))
      modifies this, last
      ensures Valid() && Contents() == old(Contents()) + [item]
      ensures |spine| > 0 && spine[..|spine| - 1] == old(spine) && fresh(spine[|spine| - 1])
    {
      AddedDistinct(Contents(), item);
      var element := new ListElement(item);
      ghost var was := spine;
      if first == null {
        first := element;
        last := element;
      } else {
        last.next := element;
        last := element;
      }
      Extended(was, element);
      numInList := numInList + 1;
      spine := was + [element];
    }

    method Prepend(item: T)
      requires Valid() && item !in Contents()
      modifies this
      ensures Valid() && Contents() == [item] + old(Contents())
      ensures |spine| > 0 && spine[1..] == old(spine) && fresh(spine[0])
    {
      AddedDistinct(Contents(), item);
      var element := new ListElement(item);
      if first == null {
        first := element;
        last := element;
      } else {
        element.next := first;
        first := element;
      }
      numInList := numInList + 1;
      ghost var was := spine;
      spine := [element] + was;
      forall i: nat | i < |spine| ensures LinkAt(spine, i) {
        if i > 0 {
          assert spine[i] == was[i - 1] && old(LinkAt(was, i - 1));
        }
      }
      assert Contents() == [item] + old(Contents());
    }

    method RemoveFront() returns (thing: T)
      requires Valid() && Contents() != []   // ASSERT(!IsEmpty())
      modifies this
      ensures Valid() && old(Contents()) == [thing] + Contents() && spine == old(spine)[1..]
    {
      thing := first.item;
      assert LinkAt(spine, 0);
      if first == last {
        first := null;
        last := null;
      } else {
        first := first.next;
      }
      numInList := numInList - 1;
      ghost var was := spine;
      spine := was[1..];
      forall i: nat | i < |spine| ensures LinkAt(spine, i) {
        assert spine[i] == was[i + 1] && old(LinkAt(was, i + 1));
      }
      assert Contents() == old(Contents())[1..];
    }

    /** Unlinks element k, given the one before it. */
    method Unlink(prev: ListElement<T>, ghost k: nat)
      requires Wired() && 0 < k < |spine| && prev == spine[k - 1]
      modifies this, prev
      ensures Wired() && spine == Without(old(spine), k) && Contents() == Without(old(Contents()), k)
    {
      ghost var was := spine;
      var ptr := prev.next;
      assert LinkAt(was, k - 1) && LinkAt(was, k);
      prev.next := ptr.next;
      Unlinked(was, k);
      WithoutDistinct(was, k);
      WithoutAt(was, k, 0);
      WithoutAt(was, k, |was| - 2);
      hide Without, Distinct, Linked, Items;
      if prev.next == null {
        last := prev;
      }
      numInList := numInList - 1;
      spine := Without(was, k);
    }

    /** Takes out the first occurrence, which was at `at`. */
    method Remove(item: T) returns (ghost at: nat)
      requires Valid() && item in Contents()   // ASSERT(IsInList(item))
      modifies this, spine
      ensures Valid() && at < |old(spine)|
      ensures old(Contents())[at] == item && item !in old(Contents())[..at]
      ensures Contents() == Without(old(Contents()), at) && spine == Without(old(spine), at)
      ensures item !in Contents()   // ASSERT(!IsInList(item))
    {
      at := 0;
      if first.item == item {
        var removed := RemoveFront();
        RestAt(old(Contents()), item);
        return;
      }
      var prev := FindBefore(item);
      at := IndexOf(prev) + 1;
      TakenOut(Contents(), at);
      Unlink(prev, at);
    }

    ghost function IndexOf(e: ListElement<T>): (i: nat)
      requires e in spine
      reads this
      ensures i < |spine| && spine[i] == e
    {
      var i: nat :| i < |spine| && spine[i] == e;
      i
    }

    lemma IndexIs(k: nat)
      requires Distinct(spine) && k < |spine|
      ensures IndexOf(spine[k]) == k
    {
    }

    /** The element before the first one that holds the item. */
    method FindBefore(item: T) returns (prev: ListElement<T>)
      requires Valid() && item in Contents() && Contents()[0] != item
      ensures prev in spine && IndexOf(prev) + 1 < |spine|
      ensures Contents()[IndexOf(prev) + 1] == item && item !in Contents()[..IndexOf(prev) + 1]
    {
      prev := first;
      ghost var k := 1;
      ghost var items := Contents();
      while prev.next != null && prev.next.item != item
        invariant 0 < k <= |spine| && prev == spine[k - 1] && forall j | 0 <= j < k :: items[j] != item
        decreases |spine| - k
      {
        assert LinkAt(spine, k - 1) && items[k] == spine[k].item;
        prev, k := prev.next, k + 1;
      }
      assert LinkAt(spine, k - 1);
      IndexIs(k - 1);
      assert item in items[k..] by {
        var j :| 0 <= j < |items| && items[j] == item;
        assert items[j] == items[k..][j - k];
      }
    }

    /** SortedList::Insert: before the first item that the new one is less than. */
    method Insert(item: T, compare: (T, T) -> int) returns (ghost at: nat)
      requires Valid() && item !in Contents()   // ASSERT(!IsInList(item))
      modifies this, spine
      ensures Valid() && at <= |old(spine)| && Contents() == With(old(Contents()), at, item)
      ensures forall j | 0 <= j < at :: compare(item, old(Contents())[j]) >= 0
      ensures at < |old(spine)| ==> compare(item, old(Contents())[at]) < 0
      ensures Preorder(compare, Contents()) && Sorted(compare, old(Contents())) ==> Sorted(compare, Contents())
    {
      at := Place(item, compare);
      InsertSorts(compare, old(Contents()), at, item);
    }

    method Place(item: T, compare: (T, T) -> int) returns (ghost at: nat)
      requires Valid() && item !in Contents()
      modifies this, spine
      ensures Valid() && at <= |old(spine)| && Contents() == With(old(Contents()), at, item)
      ensures forall j | 0 <= j < at :: compare(item, old(Contents())[j]) >= 0
      ensures at < |old(spine)| ==> compare(item, old(Contents())[at]) < 0
    {
      at := 0;
      if first == null || compare(item, first.item) < 0 {
        Prepend(item);
      } else {
        var ptr := FindPlace(item, compare);
        at := IndexOf(ptr) + 1;
        WithDistinct(Contents(), at, item);
        InsertAfter(ptr, item, at);
      }
    }

    method InsertAfter(ptr: ListElement<T>, item: T, ghost k: nat)
      requires Wired() && 0 < k <= |spine| && ptr == spine[k - 1]
      modifies this, ptr
      ensures Wired() && Contents() == With(old(Contents()), k, item)
    {
      var element := new ListElement(item);
      ghost var was := spine;
      assert LinkAt(was, k - 1);
      element.next := ptr.next;
      ptr.next := element;
      SplicedLinks(was, k, element);
      WithDistinct(was, k, element);
      WithAt(was, k, element, 0);
      WithAt(was, k, element, |was|);
      hide Linked, Items, With, Distinct;
      if element.next == null {
        last := element;
      }
      numInList := numInList + 1;
      spine := With(was, k, element);
    }

    /** The last element that the item is not less than, up to the first one that it is. */
    method FindPlace(item: T, compare: (T, T) -> int) returns (ptr: ListElement<T>)
      requires Valid() && Contents() != [] && compare(item, Contents()[0]) >= 0
      ensures ptr in spine && forall j | 0 <= j <= IndexOf(ptr) :: compare(item, Contents()[j]) >= 0
      ensures IndexOf(ptr) + 1 < |spine| ==> compare(item, Contents()[IndexOf(ptr) + 1]) < 0
    {
      ptr := first;
      ghost var k := 0;
      ghost var items := Contents();
      while ptr.next != null && compare(item, ptr.next.item) >= 0
        invariant k < |spine| && ptr == spine[k] && forall j | 0 <= j <= k :: compare(item, items[j]) >= 0
        decreases |spine| - k
      {
        assert LinkAt(spine, k) && items[k + 1] == spine[k + 1].item;
        ptr, k := ptr.next, k + 1;
      }
      assert LinkAt(spine, k);
      IndexIs(k);
    }
  }
}

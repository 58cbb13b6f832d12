/** lib/bitmap.cc: a set of small numbers, packed 32 to a word. */
module Bitmaps {
  import opened Options
  import opened Disks
  import opened MachineWords

  const BITS_IN_WORD := 32

  function WordsFor(numBits: nat): nat {
    numBits / BITS_IN_WORD + if numBits % BITS_IN_WORD > 0 then 1 else 0
  }

  // Bit b of a word, and the word with that bit set (`w | 1 << b`) or cleared
  // (`w & ~(1 << b)`), from the low end up.

  predicate TestIn(w: nat, b: nat) {
    if b == 0 then w % 2 == 1 else TestIn(w / 2, b - 1)
  }

  function SetIn(w: nat, b: nat): (r: nat)
    ensures r == if TestIn(w, b) then w else w + Power2(b)
  {
    if b == 0 then w / 2 * 2 + 1 else SetIn(w / 2, b - 1) * 2 + w % 2
  }

  function ClearIn(w: nat, b: nat): (r: nat)
    ensures r == if TestIn(w, b) then w - Power2(b) else w
  {
    if b == 0 then w / 2 * 2 else ClearIn(w / 2, b - 1) * 2 + w % 2
  }

  /** Setting one bit of a word leaves the others. */
  lemma {:induction false} SetOneBit(w: nat, b: nat, c: nat)
    ensures TestIn(SetIn(w, b), c) <==> b == c || TestIn(w, c)
  {
    hide Power2;
    if b > 0 {
      Divides(SetIn(w / 2, b - 1), 2, w % 2);
      if c > 0 { SetOneBit(w / 2, b - 1, c - 1); }
    }
  }

  /** Clearing one bit of a word leaves the others. */
  lemma {:induction false} ClearOneBit(w: nat, b: nat, c: nat)
    ensures TestIn(ClearIn(w, b), c) <==> b != c && TestIn(w, c)
  {
    hide Power2;
    if b > 0 {
      Divides(ClearIn(w / 2, b - 1), 2, w % 2);
      if c > 0 { ClearOneBit(w / 2, b - 1, c - 1); }
    }
  }

  lemma {:induction false} WordStaysWord(w: nat, b: nat, n: nat)
    requires w < Power2(n) && b < n
    ensures SetIn(w, b) < Power2(n)
  {
    var half, p := w / 2, Power2(n - 1);
    assert Power2(n) == 2 * p;
    hide TestIn, Power2;
    assert half < p;
    if b > 0 { WordStaysWord(half, b - 1, n - 1); }
  }

  lemma {:induction false} ZeroIsClear(b: nat)
    ensures !TestIn(0, b)
  {
    if b > 0 { ZeroIsClear(b - 1); }
  }

  /** `w | 1 << b` on 32-bit words. */
  function WithBit(w: word, b: nat): (r: word)
    requires b < BITS_IN_WORD
    ensures r == SetIn(w, b)
  {
    Power32(); WordStaysWord(w, b, 32);
    SetIn(w, b)
  }

  /** `w & ~(1 << b)` on 32-bit words. */
  function WithoutBit(w: word, b: nat): (r: word)
    requires b < BITS_IN_WORD
    ensures r == ClearIn(w, b)
  {
    ClearIn(w, b)
  }

  predicate Bit(words: seq<word>, i: nat)
    requires i / BITS_IN_WORD < |words|
  {
    TestIn(words[i / BITS_IN_WORD], i % BITS_IN_WORD)
  }

  /** The numbers below numBits whose bit is set. */
  ghost function Marked(words: seq<word>, numBits: nat): set<nat>
    requires |words| == WordsFor(numBits)
  {
    set i: nat | i < numBits && Bit(words, i)
  }

  lemma SetBit(words: seq<word>, which: nat, i: nat)
    requires which / BITS_IN_WORD < |words| && i / BITS_IN_WORD < |words|
    ensures var w := which / BITS_IN_WORD;
            Bit(words[w := WithBit(words[w], which % BITS_IN_WORD)], i) <==> i == which || Bit(words, i)
  {
    hide TestIn;
    SetOneBit(words[which / BITS_IN_WORD], which % BITS_IN_WORD, i % BITS_IN_WORD);
  }

  lemma ClearBit(words: seq<word>, which: nat, i: nat)
    requires which / BITS_IN_WORD < |words| && i / BITS_IN_WORD < |words|
    ensures var w := which / BITS_IN_WORD;
            Bit(words[w := WithoutBit(words[w], which % BITS_IN_WORD)], i) <==> i != which && Bit(words, i)
  {
    hide TestIn;
    ClearOneBit(words[which / BITS_IN_WORD], which % BITS_IN_WORD, i % BITS_IN_WORD);
  }

  /** The least number from `from` on that is not marked, or n if there is none below n. */
  ghost function LeastClear(marks: set<nat>, from: nat, n: nat): (r: nat)
    requires from <= n
    ensures from <= r <= n && (forall i | from <= i < r :: i in marks) && (r < n ==> r !in marks)
    decreases n - from
  {
    if from == n || from !in marks then from else LeastClear(marks, from + 1, n)
  }

  lemma {:induction false} FullBelow(marks: set<nat>, n: nat)
    requires forall i | 0 <= i < n :: i in marks
    ensures n <= |marks|
  {
    if n > 0 {
      FullBelow(marks - {n - 1}, n - 1);
    }
  }

  ghost function Elems(s: seq<nat>): set<nat> {
    set x | x in s
  }

  /** The marks after k calls of FindAndSet, and what the calls return. */
  ghost function MarksAfter(marks: set<nat>, k: nat, n: nat): set<nat> {
    if k == 0 then marks
    else var m := MarksAfter(marks, k - 1, n); m + {LeastClear(m, 0, n)}
  }

  ghost function Taken(marks: set<nat>, k: nat, n: nat): (s: seq<nat>)
    ensures |s| == k
  {
    if k == 0 then []
    else Taken(marks, k - 1, n) + [LeastClear(MarksAfter(marks, k - 1, n), 0, n)]
  }

  lemma NextTaken(marks: set<nat>, k: nat, n: nat)
    ensures Taken(marks, 0, n) == [] && MarksAfter(marks, 0, n) == marks
    ensures var x := LeastClear(MarksAfter(marks, k, n), 0, n);
            Taken(marks, k + 1, n) == Taken(marks, k, n) + [x]
              && MarksAfter(marks, k + 1, n) == MarksAfter(marks, k, n) + {x}
  {
  }

  lemma ClearBelow(marks: set<nat>, n: nat)
    requires |marks| < n
    ensures LeastClear(marks, 0, n) < n
  {
    if LeastClear(marks, 0, n) == n { FullBelow(marks, n); }
  }

  /** While there is room every call marks one more. */
  lemma {:induction false} MarksGrow(marks: set<nat>, k: nat, n: nat)
    requires |marks| + k <= n
    ensures |MarksAfter(marks, k, n)| == |marks| + k
  {
    if k > 0 {
      MarksGrow(marks, k - 1, n);
      ClearBelow(MarksAfter(marks, k - 1, n), n);
    }
  }

  lemma {:induction false} MarksAre(marks: set<nat>, k: nat, n: nat, x: nat)
    ensures x in MarksAfter(marks, k, n) <==> x in marks || x in Taken(marks, k, n)
  {
    if k > 0 { MarksAre(marks, k - 1, n, x); }
  }

  lemma {:induction false} TakenAt(marks: set<nat>, k: nat, n: nat, i: nat)
    requires i < k
    ensures Taken(marks, k, n)[i] == LeastClear(MarksAfter(marks, i, n), 0, n)
  {
    hide MarksAfter, LeastClear;
    if i < k - 1 { TakenAt(marks, k - 1, n, i); }
  }

  lemma TakenIsFree(marks: set<nat>, k: nat, n: nat, i: nat)
    requires |marks| + k <= n && i < k
    ensures var x := Taken(marks, k, n)[i]; x < n && x !in marks && x !in Taken(marks, i, n)
  {
    hide Taken, MarksAfter;
    var x := LeastClear(MarksAfter(marks, i, n), 0, n);
    TakenAt(marks, k, n, i);
    MarksGrow(marks, i, n);
    ClearBelow(MarksAfter(marks, i, n), n);
    MarksAre(marks, i, n, x);
  }

  lemma {:induction false} TakenPrefix(marks: set<nat>, k: nat, n: nat, i: nat)
    requires i <= k
    ensures Taken(marks, k, n)[..i] == Taken(marks, i, n)
  {
    if i < k {
      TakenPrefix(marks, k - 1, n, i);
      assert Taken(marks, k, n)[..i] == Taken(marks, k - 1, n)[..i];
    }
  }

  /** While there is room, the numbers taken are distinct and were not marked. */
  lemma TakenAreFree(marks: set<nat>, k: nat, n: nat)
    requires |marks| + k <= n
    ensures Distinct(Taken(marks, k, n))
    ensures forall i | 0 <= i < k :: Taken(marks, k, n)[i] < n && Taken(marks, k, n)[i] !in marks
    ensures MarksAfter(marks, k, n) == marks + Elems(Taken(marks, k, n))
  {
    hide Taken, MarksAfter;
    var s := Taken(marks, k, n);
    forall i, j | 0 <= i < j < k ensures s[i] != s[j] {
      TakenIsFree(marks, k, n, j);
      TakenPrefix(marks, k, n, j);
      assert s[i] == s[..j][i];
    }
    forall i | 0 <= i < k ensures s[i] < n && s[i] !in marks {
      TakenIsFree(marks, k, n, i);
    }
    forall x: nat ensures x in MarksAfter(marks, k, n) <==> x in marks + Elems(s) {
      MarksAre(marks, k, n, x);
    }
  }

  predicate AtLeast(x: nat, lo: nat) {
    lo <= x
  }

  ghost function Band(lo: nat, hi: nat): set<nat> {
    set x: nat | x < hi && AtLeast(x, lo)
  }

  lemma {:induction false} BandSize(lo: nat, hi: nat)
    requires lo <= hi
    ensures |Band(lo, hi)| == hi - lo
    decreases hi - lo
  {
    if lo < hi {
      BandSize(lo, hi - 1);
      assert Band(lo, hi) == Band(lo, hi - 1) + {hi - 1};
    }
  }

  lemma LeastIs(marks: set<nat>, n: nat, r: nat)
    requires r < n && r !in marks && forall i | 0 <= i < r :: i in marks
    ensures LeastClear(marks, 0, n) == r
  {
  }

  /** The marks after k numbers have been taken with one band marked. */
  ghost function BandAfter(lo: nat, hi: nat, k: nat): set<nat>
    requires lo <= hi
  {
    if k <= lo then Band(0, k) + Band(lo, hi) else Band(0, hi + k - lo)
  }

  lemma BandNext(lo: nat, hi: nat, k: nat, n: nat)
    requires lo <= hi && (if k < lo then k else hi + k - lo) < n
    ensures var r := if k < lo then k else hi + k - lo;
            LeastClear(BandAfter(lo, hi, k), 0, n) == r && BandAfter(lo, hi, k) + {r} == BandAfter(lo, hi, k + 1)
  {
    LeastIs(BandAfter(lo, hi, k), n, if k < lo then k else hi + k - lo);
    hide LeastClear;
  }

  lemma {:induction false} MarksBand(lo: nat, hi: nat, k: nat, n: nat)
    requires lo <= hi <= n && (if k <= lo then k else hi + k - lo) <= n
    ensures MarksAfter(Band(lo, hi), k, n) == BandAfter(lo, hi, k)
  {
    if k == 0 {
      assert Band(0, 0) + Band(lo, hi) == Band(lo, hi);
    } else {
      NextTaken(Band(lo, hi), k - 1, n);
      MarksBand(lo, hi, k - 1, n);
      BandNext(lo, hi, k - 1, n);
      hide *;
    }
  }

  /** With one band marked, the numbers below it go first and then those above it. */
  lemma TakenBand(lo: nat, hi: nat, k: nat, n: nat, i: nat)
    requires lo <= hi <= n && (if k <= lo then k else hi + k - lo) <= n && i < k
    ensures Taken(Band(lo, hi), k, n)[i] == if i < lo then i else hi + i - lo
  {
    hide *;
    TakenAt(Band(lo, hi), k, n, i);
    MarksBand(lo, hi, i, n);
    BandNext(lo, hi, i, n);
  }

  class Bitmap {
    const numBits: nat
    const words: array<word>

    ghost predicate Valid() {
      words.Length == WordsFor(numBits)
    }

    ghost function Marks(): set<nat>
      requires Valid()
      reads words
    {
      Marked(words[..], numBits)
    }

    constructor (numItems: nat)
      requires numItems > 0  // ASSERT(numItems > 0)
      ensures Valid() && numBits == numItems && fresh(words) && Marks() == {}
    {
      numBits := numItems;
      var storage := new word[WordsFor(numItems)](i => 0);
      words := storage;
      new;
      forall i: nat | i < numBits ensures !Bit(words[..], i) {
        ZeroIsClear(i % BITS_IN_WORD);
      }
    }

    method Test(which: nat) returns (marked: bool)
      requires Valid() && which < numBits
      ensures marked <==> which in Marks()
    {
      marked := TestIn(words[which / BITS_IN_WORD], which % BITS_IN_WORD);
    }

    method Mark(which: nat)
      requires Valid() && which < numBits
      modifies words
      ensures Marks() == old(Marks()) + {which}
    {
      hide TestIn, Bit;
      var w := which / BITS_IN_WORD;
      ghost var before := words[..];
      words[w] := WithBit(words[w], which % BITS_IN_WORD);
      assert words[..] == before[w := WithBit(before[w], which % BITS_IN_WORD)];
      forall i: nat | i < numBits ensures Bit(words[..], i) <==> i == which || Bit(before, i) {
        SetBit(before, which, i);
      }
    }

    method Clear(which: nat)
      requires Valid() && which < numBits
      modifies words
      ensures Marks() == old(Marks()) - {which}
    {
      hide TestIn, Bit;
      var w := which / BITS_IN_WORD;
      ghost var before := words[..];
      words[w] := WithoutBit(words[w], which % BITS_IN_WORD);
      assert words[..] == before[w := WithoutBit(before[w], which % BITS_IN_WORD)];
      forall i: nat | i < numBits ensures Bit(words[..], i) <==> i != which && Bit(before, i) {
        ClearBit(before, which, i);
      }
    }

    method FindAndSet() returns (found: int)
      requires Valid()
      modifies words
      ensures var least := LeastClear(old(Marks()), 0, numBits);
              if least < numBits then found == least && Marks() == old(Marks()) + {least}
              else found == -1 && Marks() == old(Marks())
    {
      var i := 0;
      while i < numBits
        invariant i <= numBits && words[..] == old(words[..])
        invariant LeastClear(Marks(), 0, numBits) == LeastClear(Marks(), i, numBits)
      {
        var marked := Test(i);
        if !marked {
          Mark(i);
          return i;
        }
        i := i + 1;
      }
      found := -1;
    }

    method NumClear() returns (count: nat)
      requires Valid()
      ensures count + |Marks()| == numBits
    {
      hide TestIn, Bit;
      count := 0;
      ghost var seen: set<nat> := {};
      for i := 0 to numBits
        invariant seen == set j: nat | j < i && j in Marks()
        invariant count + |seen| == i
      {
        var marked := Test(i);
        if marked {
          seen := seen + {i};
        } else {
          count := count + 1;
        }
      }
      assert seen == Marks();
    }
  }
}

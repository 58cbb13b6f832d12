/** Shared value types and facts about sequences, finite sets and division used by the other modules. */
module Options {

  datatype Option<+T> = None | Some(value: T)

  /** No element occurs twice. */
  ghost predicate Distinct<T>(s: seq<T>) {
    forall i, j :: 0 <= i < j < |s| ==> s[i] != s[j]
  }

  /** Without its first element a sequence has every other element still. */
  lemma RestAt<T>(q: seq<T>, x: T)
    requires q != [] && Distinct(q)
    ensures x in q[1..] <==> x in q && x != q[0]
  {
    assert q == [q[0]] + q[1..];
  }

  /** Taking one element out of a finite set lowers its size by one. */
  lemma SizeWithout<T>(small: set<T>, big: set<T>, x: T)
    requires x in big && small == big - {x}
    ensures |big| == |small| + 1
  {
    assert big == small + {x};
  }

  /** Quotient and remainder are unique. */
  lemma Divides(q: nat, d: nat, r: nat)
    requires r < d
    ensures (q * d + r) / d == q && (q * d + r) % d == r
  {
    var x := q * d + r;
    var p := x / d;
    if p < q {
      MultiplesGrow(p + 1, q, d);
      assert false;
    }
    if q < p {
      MultiplesGrow(q + 1, p, d);
      assert false;
    }
  }

  lemma MultiplesGrow(a: nat, b: nat, d: nat)
    requires a <= b
    ensures a * d <= b * d
  {
  }
}

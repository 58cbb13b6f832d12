/** Decimal notation, as std::to_string and the console routines print it. */
module Decimal {

  predicate IsDigit(c: char) {
    '0' <= c <= '9'
  }

  function DigitChar(d: nat): (c: char)
    requires d < 10
    ensures IsDigit(c) && DigitValue(c) == d
  {
    '0' + d as char
  }

  function DigitValue(c: char): (d: nat)
    requires IsDigit(c)
    ensures d < 10
  {
    (c - '0') as nat
  }

  predicate AllDigits(s: string) {
    forall i | 0 <= i < |s| :: IsDigit(s[i])
  }

  /** The canonical digits of n: no leading zero, except for zero itself. */
  function Digits(n: nat): (s: string)
    ensures |s| > 0 && AllDigits(s)
    ensures n > 0 ==> s[0] != '0'
  {
    if n < 10 then [DigitChar(n)] else Digits(n / 10) + [DigitChar(n % 10)]
  }

  /** The number a string of digits stands for, leading zeros and all. */
  function Value(s: string): nat
    requires AllDigits(s)
  {
    if s == [] then 0 else Value(s[..|s| - 1]) * 10 + DigitValue(s[|s| - 1])
  }

  lemma {:induction false} ValueOfDigits(n: nat)
    ensures Value(Digits(n)) == n
  {
    if n >= 10 {
      ValueOfDigits(n / 10);
      assert Digits(n)[..|Digits(n)| - 1] == Digits(n / 10);
    }
  }

  /** Printing is one to one. */
  lemma DigitsInjective(m: nat, n: nat)
    requires Digits(m) == Digits(n)
    ensures m == n
  {
    ValueOfDigits(m);
    ValueOfDigits(n);
  }

  /** The digits of a number are the only notation for it without a leading zero. */
  lemma {:induction false} DigitsOfValue(s: string)
    requires AllDigits(s) && |s| > 0 && (s[0] == '0' ==> |s| == 1)
    ensures Digits(Value(s)) == s
    ensures Value(s) == 0 <==> s == "0"
  {
    var t := s[..|s| - 1];
    if t == [] {
      assert s == [s[0]];
    } else {
      DigitsOfValue(t);
      assert t[0] == s[0] && t != "0";
      assert s == t + [s[|s| - 1]];
    }
  }
}

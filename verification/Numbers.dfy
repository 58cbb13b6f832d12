/** Reading and printing numbers on the console: userprog/ksyscall.h and ksyscallhelper.h. */
module Numbers {
  import opened MachineWords
  import opened Decimal

  const MAX_NUM_LENGTH := 11

  /** The canonical decimal form of an int32. */
  function Printed(v: int32): string {
    if v < 0 then "-" + Digits(Magnitude(v)) else Digits(v)
  }

  ghost predicate Canonical(s: string) {
    exists v: int32 :: s == Printed(v)
  }

  lemma PrintedInjective(v: int32, w: int32)
    requires Printed(v) == Printed(w)
    ensures v == w
  {
    assert v < 0 ==> Printed(v)[0] == '-';
    assert w < 0 ==> Printed(w)[0] == '-';
    assert v >= 0 ==> IsDigit(Printed(v)[0]);
    assert w >= 0 ==> IsDigit(Printed(w)[0]);
    if v < 0 {
      assert Printed(v)[1..] == Digits(Magnitude(v)) && Printed(w)[1..] == Digits(Magnitude(w));
    }
    DigitsInjective(Magnitude(v), Magnitude(w));
    hide Digits;
  }

  // ---------------------------------------------------------------------------------
  // How long numbers are.

  function Ten(n: nat): nat {
    if n == 0 then 1 else 10 * Ten(n - 1)
  }

  lemma Tens()
    ensures Ten(9) == 1_000_000_000 && Ten(10) == 10_000_000_000
  {
    assert Ten(3) == 1000;
    assert Ten(6) == 1_000_000;
  }

  lemma {:induction false} ValueBelow(s: string)
    requires AllDigits(s)
    ensures Value(s) < Ten(|s|)
  {
    if s != [] { ValueBelow(s[..|s| - 1]); }
  }

  lemma {:induction false} DigitsShort(n: nat, k: nat)
    requires n < Ten(k) && k > 0
    ensures |Digits(n)| <= k
  {
    if n >= 10 { DigitsShort(n / 10, k - 1); }
  }

  /** A magnitude has at most ten digits. */
  lemma MagnitudeShort(v: int32)
    ensures |Digits(Magnitude(v))| <= 10
  {
    Tens();
    DigitsShort(Magnitude(v), 10);
  }

  // ---------------------------------------------------------------------------------

  /** The string is the end of a longer one: matching from the right runs out of it. */
  predicate RunsOut(s: string, all: string) {
    |s| < |all| && all[|all| - |s|..] == s
  }

  /** The loop of compareNumAndString: the characters after `from` from the right, against the
      number's digits.  After a minus sign it may run into the sign, which is no digit. */
  method MatchDigits(number: nat, s: string, from: nat) returns (same: bool)
    requires number > 0 && if from == 0 then !RunsOut(s, Digits(number)) else from == 1 <= |s| && s[0] == '-'
    ensures same <==> s[from..] == Digits(number)
  {
    ghost var all := Digits(number);
    var len, rest := |s| - from, number;
    NoneMatched(number, s);
    hide Digits, RunsOut, Matched;
    while rest > 0
      invariant 0 <= len <= |s| - from && Matched(all, rest, s, from + len)
    {
      var digit := rest % 10;
      EndOf(all, rest, s);
      if s[from + len - 1] as int - '0' as int != digit {
        LastDiffers(all, rest, s, from, len);
        return false;
      }
      OneMoreDigit(all, rest, s, from + len);
      len, rest := len - 1, rest / 10;
    }
    AllMatched(all, s, from, len);
    return len == 0;
  }

  /** What is left of the number, and then the string from p on, make up all the digits. */
  ghost predicate Matched(all: string, rest: nat, s: string, p: nat)
    requires p <= |s|
  {
    all == (if rest > 0 then Digits(rest) else []) + s[p..]
  }

  lemma NoneMatched(number: nat, s: string)
    requires number > 0
    ensures Matched(Digits(number), number, s, |s|)
  {
    hide Digits;
  }

  lemma EndOf(all: string, rest: nat, s: string)
    requires rest > 0
    ensures Matched(all, rest, s, 0) ==> RunsOut(s, all)
  {
    hide Digits;
    assert s[0..] == s;
  }

  lemma LastDigit(n: nat)
    ensures Digits(n)[|Digits(n)| - 1] == DigitChar(n % 10)
    ensures n > 0 ==> Digits(n) == (if n / 10 > 0 then Digits(n / 10) else []) + [DigitChar(n % 10)]
  {
  }

  lemma LastDiffers(all: string, n: nat, s: string, from: nat, len: nat)
    requires n > 0 && from + len <= |s| && Matched(all, n, s, from + len)
    requires len > 0 ==> s[from + len - 1] != DigitChar(n % 10)
    ensures s[from..] != all
  {
    LastDigit(n);
    hide Digits;
    assert |all| == |s| - from ==> len > 0 && all[len - 1] == DigitChar(n % 10);
  }

  lemma OneMoreDigit(all: string, n: nat, s: string, p: nat)
    requires n > 0 && 0 < p <= |s| && Matched(all, n, s, p) && s[p - 1] as int - '0' as int == n % 10
    ensures Matched(all, n / 10, s, p - 1)
  {
    LastDigit(n);
    hide Digits;
    var front, last := if n / 10 > 0 then Digits(n / 10) else [], [DigitChar(n % 10)];
    assert s[p - 1..] == last + s[p..];
    assert front + last + s[p..] == front + (last + s[p..]);
  }

  lemma AllMatched(all: string, s: string, from: nat, len: nat)
    requires from + len <= |s| && Matched(all, 0, s, from + len)
    ensures s[from..] == all <==> len == 0
  {
    assert all == s[from + len..];
  }

  /** compareNumAndString: whether the string is the decimal form of the number, except that
      -2^31, being its own negation, has no digits.  The one thing it asks of its caller is that
      the digits of a positive number do not run on to the left of the string. */
  method CompareNumAndString(number: int32, s: string) returns (same: bool)
    requires number > 0 ==> !RunsOut(s, Digits(number))
    ensures number != -TWO31 ==> (same <==> s == Printed(number))
    ensures number == -TWO31 ==> (same <==> s == "-")
  {
    if number == 0 {
      ZeroPrinted();
      return s == "0";
    }
    if number < 0 && (s == [] || s[0] != '-') {
      assert Printed(number)[0] == '-';
      return false;
    }
    hide Digits, Minus, Magnitude, Printed;
    MinusMagnitude(number);
    if number > 0 {
      Unsign(s, number);
      assert s[0..] == s;
      same := MatchDigits(number, s, 0);
    } else if Minus(number) > 0 {
      Unsign(s, number);
      same := MatchDigits(Minus(number), s, 1);
    } else {
      same := |s| - 1 == 0;
    }
  }

  lemma Unsign(s: string, v: int32)
    requires v < 0 ==> |s| > 0 && s[0] == '-'
    ensures s == Printed(v) <==> (if v < 0 then s[1..] else s) == Digits(Magnitude(v))
  {
    hide Digits;
    if v < 0 { assert s == "-" + s[1..]; }
  }

  // ---------------------------------------------------------------------------------

  function LeadingZeros(s: string): (n: nat)
    ensures n <= |s|
    ensures n > 1 ==> |s| > 1 && s[0] == '0'
    ensures n > 0 <==> |s| > 0 && s[0] == '0'
  {
    if s == [] || s[0] != '0' then 0 else 1 + LeadingZeros(s[1..])
  }

  lemma {:induction false} OneMoreZero(s: string, c: char)
    ensures LeadingZeros(s + [c]) == if LeadingZeros(s) == |s| && c == '0' then |s| + 1 else LeadingZeros(s)
  {
    if s != [] {
      OneMoreZero(s[1..], c);
      assert (s + [c])[1..] == s[1..] + [c];
    }
  }

  /** The loop of SysReadNum: the number wraps around as an int does. */
  method Scan(t: string) returns (ok: bool, num: int32, zeros: nat)
    ensures ok <==> AllDigits(t)
    ensures ok ==> num == Signed(Value(t)) && zeros == LeadingZeros(t)
  {
    num, zeros := 0, 0;
    var isLeading := true;
    for i := 0 to |t|
      invariant AllDigits(t[..i]) && num == Signed(Value(t[..i]))
      invariant zeros == LeadingZeros(t[..i]) && (isLeading <==> zeros == i)
    {
      hide AllDigits, Value, LeadingZeros, Signed;
      var c := t[i];
      OneMoreZero(t[..i], c);
      OneMoreRead(t, i);
      if c == '0' && isLeading {
        zeros := zeros + 1;
      } else {
        isLeading := false;
      }
      if c < '0' || c > '9' {
        return false, 0, 0;
      }
      WrapsOn(Value(t[..i]), DigitValue(c));
      num := Signed(num * 10 + DigitValue(c));
    }
    assert t[..|t|] == t;
    ok := true;
  }

  lemma OneMoreRead(t: string, i: nat)
    requires i < |t| && AllDigits(t[..i])
    ensures t[..i + 1] == t[..i] + [t[i]]
    ensures IsDigit(t[i]) ==> AllDigits(t[..i + 1]) && Value(t[..i + 1]) == Value(t[..i]) * 10 + DigitValue(t[i])
    ensures !IsDigit(t[i]) ==> !AllDigits(t)
  {
    assert t[..i + 1] == t[..i] + [t[i]];
    assert t[..i + 1][..i] == t[..i];
  }

  lemma WrapsOn(x: nat, d: nat)
    ensures Signed(Signed(x) * 10 + d) == Signed(x * 10 + d)
  {
    var q := x / TWO32;
    var u: int := x % TWO32;
    var k := if u < TWO31 then q else q + 1;
    assert Signed(x) == x - k * TWO32;
    Shift(x * 10 + d, 10 * k);
    assert Signed(x) * 10 + d == x * 10 + d - (10 * k) * TWO32;
  }

  lemma Shift(x: int, k: int)
    ensures Signed(x - k * TWO32) == Signed(x)
  {
    assert (x - k * TWO32) % TWO32 == x % TWO32;
  }

  // ---------------------------------------------------------------------------------
  // Which strings are canonical.

  /** The part after the sign. */
  function Body(s: string): string {
    if |s| > 0 && s[0] == '-' then s[1..] else s
  }

  predicate Negative(s: string) {
    |s| > 0 && s[0] == '-'
  }

  /** Only digits after an optional sign, no superfluous zero, and not minus zero. */
  predicate Proper(s: string) {
    var t := Body(s);
    |t| > 0 && AllDigits(t) && (t[0] == '0' ==> |t| == 1 && !Negative(s))
  }

  function Denoted(s: string): int
    requires AllDigits(Body(s))
  {
    if Negative(s) then -(Value(Body(s)) as int) else Value(Body(s))
  }

  /** A string is the canonical form of exactly the number it denotes, if that fits. */
  lemma CanonicalIff(s: string)
    ensures Canonical(s) <==> Proper(s) && -TWO31 <= Denoted(s) < TWO31
    ensures forall v: int32 | s == Printed(v) :: Proper(s) && Denoted(s) == v
    ensures Proper(s) && -TWO31 <= Denoted(s) < TWO31 ==> s == Printed(Denoted(s))
  {
    forall v: int32 | s == Printed(v) ensures Proper(s) && Denoted(s) == v {
      PrintedProper(v);
    }
    if Proper(s) && -TWO31 <= Denoted(s) < TWO31 {
      DenotedPrinted(s);
    }
    hide Printed, Proper, Denoted;
  }

  lemma DenotedPrinted(s: string)
    requires Proper(s) && -TWO31 <= Denoted(s) < TWO31
    ensures s == Printed(Denoted(s))
  {
    DigitsOfValue(Body(s));
    hide Digits, Value;
    assert Negative(s) ==> s == "-" + Body(s);
  }

  lemma PrintedProper(v: int32)
    ensures Proper(Printed(v)) && Denoted(Printed(v)) == v
  {
    ValueOfDigits(Magnitude(v));
    assert v < 0 ==> Printed(v)[0] == '-' && Printed(v)[1..] == Digits(Magnitude(v));
    assert v >= 0 ==> Printed(v) == Digits(v) && IsDigit(Printed(v)[0]);
    assert v == 0 ==> Digits(0) == "0";
    hide Digits, Value;
  }

  lemma MinimumPrinted()
    ensures Printed(-TWO31) == "-2147483648"
  {
    hide Digits;
    TwoPrinted();
    NextDigit(2, 1);
    NextDigit(21, 4);
    NextDigit(214, 7);
    NextDigit(2147, 4);
    NextDigit(21474, 8);
    NextDigit(214748, 3);
    NextDigit(2147483, 6);
    NextDigit(21474836, 4);
    NextDigit(214748364, 8);
    assert Digits(21474) == "21474";
    assert Digits(2147483648) == "2147483648";
  }

  lemma TwoPrinted()
    ensures Digits(2) == "2"
  {
  }

  lemma NextDigit(n: nat, d: nat)
    requires n > 0 && d < 10
    ensures Digits(10 * n + d) == Digits(n) + [DigitChar(d)]
  {
  }

  lemma {:induction false} TenGrows(m: nat, n: nat)
    requires m <= n
    ensures Ten(m) <= Ten(n)
    decreases n
  {
    if m < n { TenGrows(m, n - 1); }
  }

  /** Nine characters cannot overflow. */
  lemma ShortFits(t: string)
    requires AllDigits(t) && |t| <= 9
    ensures Value(t) < 1_000_000_000 && |Digits(Value(t))| <= 9
  {
    ValueBelow(t);
    TenGrows(|t|, 9);
    Tens();
    DigitsShort(Value(t), 9);
    hide Value, Digits;
  }

  lemma MinusWraps(x: nat)
    ensures Minus(Signed(x)) == Signed(0 - x)
  {
    var y: int := Signed(x);
    var k := (x - y) / TWO32;
    assert y == x - k * TWO32;
    assert 0 - y == (0 - x) - (0 - k) * TWO32;
    Shift(0 - x, 0 - k);
  }

  /** What the check for superfluous zeros lets through: nothing improper but a number that
      has come out as zero. */
  lemma ImproperOrZero(s: string)
    requires |s| > 0 && AllDigits(Body(s)) && !Proper(s)
    ensures var zeros, num := LeadingZeros(Body(s)), Signed(Value(Body(s)));
            zeros > 1 || (zeros != 0 && (num != 0 || Negative(s))) || (Signed(Denoted(s)) == 0 && s != "0")
  {
  }

  lemma ProperZeros(s: string)
    requires |s| > 0 && Proper(s)
    ensures LeadingZeros(Body(s)) <= 1
    ensures LeadingZeros(Body(s)) == 1 ==> s == "0" && Value(Body(s)) == 0
  {
    if LeadingZeros(Body(s)) == 1 {
      assert s == "0" && Body(s) == "0";
      assert Value("0") == 0;
    }
  }

  /** The number is taken as it is when it is short, and otherwise only if its own digits are
      those of the string. */
  method Checked(s: string, num: int32) returns (r: int32)
    requires |s| > 0 && s != Printed(-TWO31) && AllDigits(Body(s)) && num == Signed(Denoted(s))
    requires !Proper(s) ==> num == 0 && s != "0"
    ensures if Canonical(s) then s == Printed(r) else r == 0
  {
    CanonicalIff(s);
    FitsExact(s);
    hide Signed, Value, Digits, AllDigits, Canonical, Proper, Denoted;
    if |s| <= MAX_NUM_LENGTH - 2 {
      ShortExact(s);
      return num;
    }
    MagnitudeShort(num);
    var same := CompareNumAndString(num, s);
    return if same then num else 0;
  }

  /** SysReadNum on what the buffer holds: the number, if the buffer is the canonical form of
      one, and 0 otherwise. */
  method ReadNumber(s: string) returns (r: int32)
    ensures if Canonical(s) then s == Printed(r) else r == 0
  {
    CanonicalIff(s);
    MinimumPrinted();
    if |s| == 0 {
      return 0;
    }
    if s == "-2147483648" {
      return -TWO31;
    }
    var nega := s[0] == '-';
    var ok, num, zeros := Scan(if nega then s[1..] else s);
    if !ok {
      return 0;
    }
    if Proper(s) { ProperZeros(s); } else { ImproperOrZero(s); }
    hide Signed, Minus, Value, Digits, LeadingZeros, AllDigits, Canonical, Proper;
    if zeros > 1 || (zeros != 0 && (num != 0 || nega)) {
      return 0;
    }
    MinusWraps(Value(Body(s)));
    if nega {
      num := Minus(num);
    }
    r := Checked(s, num);
  }

  lemma ShortExact(s: string)
    requires |s| <= 9 && AllDigits(Body(s))
    ensures -TWO31 <= Denoted(s) < TWO31 && Signed(Denoted(s)) == Denoted(s)
  {
    ShortFits(Body(s));
    hide Value;
  }

  lemma FitsExact(s: string)
    requires AllDigits(Body(s))
    ensures -TWO31 <= Denoted(s) < TWO31 ==> Signed(Denoted(s)) == Denoted(s)
  {
  }

  // ---------------------------------------------------------------------------------
  // Printing.

  /** Digits collected from the right, read back from the left. */
  function Backwards(b: seq<nat>): string
    requires forall i | 0 <= i < |b| :: b[i] < 10
  {
    if b == [] then [] else [DigitChar(b[|b| - 1])] + Backwards(b[..|b| - 1])
  }

  method SysPrintNum(num: int32) returns (out: string)
    ensures out == Printed(num)
  {
    hide Digits;
    if num == 0 {
      ZeroPrinted();
      return "0";
    }
    if num == -TWO31 {
      MinimumPrinted();
      return "-2147483648";
    }
    MagnitudeShort(num);
    if num < 0 {
      MinusMagnitude(num);
      hide Minus, Magnitude;
      var digits := PrintDigits(Minus(num));
      out := "-" + digits;
    } else {
      out := PrintDigits(num);
    }
  }

  lemma ZeroPrinted()
    ensures Printed(0) == "0"
  {
  }

  lemma MinusMagnitude(v: int32)
    ensures -TWO31 < v < 0 ==> Minus(v) == Magnitude(v)
    ensures v > 0 ==> Magnitude(v) == v
    ensures v == -TWO31 ==> Minus(v) == v
  {
  }

  method PrintDigits(number: nat) returns (out: string)
    requires number > 0 && |Digits(number)| <= 10
    ensures out == Digits(number)
  {
    hide Digits, Backwards;
    var buffer := new nat[MAX_NUM_LENGTH + 2](_ => 0);
    var n, rest := 0, number;
    NoneBack(buffer[..0]);
    while rest > 0
      invariant 0 <= n <= 10 && forall i | 0 <= i < n :: buffer[i] < 10
      invariant Digits(number) == (if rest > 0 then Digits(rest) else []) + Backwards(buffer[..n])
      invariant |Backwards(buffer[..n])| == n
    {
      LastDigit(rest);
      ghost var before := buffer[..n];
      buffer[n] := rest % 10;
      OneMoreBack(before, rest % 10);
      assert buffer[..n + 1] == before + [rest % 10];
      n, rest := n + 1, rest / 10;
    }
    out := Emit(buffer, n);
  }

  lemma NoneBack(b: seq<nat>)
    requires b == []
    ensures Backwards(b) == []
  {
  }

  lemma OneMoreBack(b: seq<nat>, d: nat)
    requires d < 10 && forall i | 0 <= i < |b| :: b[i] < 10
    ensures Backwards(b + [d]) == [DigitChar(d)] + Backwards(b)
  {
    assert (b + [d])[..|b|] == b;
  }

  method Emit(buffer: array<nat>, n: nat) returns (out: string)
    requires n <= buffer.Length && forall i | 0 <= i < n :: buffer[i] < 10
    ensures out == Backwards(buffer[..n])
  {
    out := "";
    for i := n downto 0
      invariant |out| == n - i && forall k | 0 <= k < |out| :: out[k] == DigitChar(buffer[n - 1 - k])
    {
      out := out + [DigitChar(buffer[i])];
    }
    BackwardsAt(buffer[..n]);
    hide Backwards;
  }

  lemma {:induction false} BackwardsAt(b: seq<nat>)
    requires forall i | 0 <= i < |b| :: b[i] < 10
    ensures |Backwards(b)| == |b|
    ensures forall k | 0 <= k < |b| :: Backwards(b)[k] == DigitChar(b[|b| - 1 - k])
  {
    if b != [] { BackwardsAt(b[..|b| - 1]); }
  }

  // ---------------------------------------------------------------------------------
  // The console: what is left of the input after a token.

  predicate IsBlank(c: char) {
    c == '\n' || c == '\r' || c == '\t' || c == ' '
  }

  /** A byte of 255, read into a signed char, is what the console returns at the end of its
      input, and it asks for no further character after it. */
  const END_OF_FILE := 255 as char

  predicate EndsToken(c: char) {
    IsBlank(c) || c == END_OF_FILE
  }

  /** The length of the token the input starts with; the input's end ends it too. */
  function TokenLength(input: string): (k: nat)
    ensures k <= |input| && (k < |input| ==> EndsToken(input[k])) && forall i | 0 <= i < k :: !EndsToken(input[i])
  {
    if input == [] || EndsToken(input[0]) then 0 else 1 + TokenLength(input[1..])
  }

  /** What the console still has to deliver after a token of k characters and what ends it. */
  function LeftAfter(input: string, k: nat): string
    requires k <= |input|
  {
    if k < |input| && input[k] != END_OF_FILE then input[k + 1..] else []
  }

  /** Takes the token and the character that ends it, but no more than twelve characters. */
  method ReadUntilBlank(input: string) returns (buffer: string, rest: string)
    ensures var k := TokenLength(input);
            if k > MAX_NUM_LENGTH then buffer == input[..MAX_NUM_LENGTH + 1] && rest == input[MAX_NUM_LENGTH + 1..]
            else buffer == input[..k] && rest == LeftAfter(input, k)
  {
    buffer := "";
    var n := 0;
    while n < |input| && !EndsToken(input[n])
      invariant 0 <= n <= |input| && n <= MAX_NUM_LENGTH && buffer == input[..n] && n <= TokenLength(input)
    {
      buffer := buffer + [input[n]];
      n := n + 1;
      if n > MAX_NUM_LENGTH {
        return buffer, input[n..];
      }
    }
    rest := LeftAfter(input, n);
  }

  /** The buffer as a C string: up to the first zero byte. */
  function CString(s: string): (t: string)
    ensures t <= s && '\0' !in t && (t == s || s[|t|] == '\0')
  {
    if s == [] || s[0] == '\0' then [] else [s[0]] + CString(s[1..])
  }

  method SysReadNum(input: string) returns (r: int32, rest: string)
    ensures var k := TokenLength(input);
            var token := CString(input[..if k > MAX_NUM_LENGTH then MAX_NUM_LENGTH + 1 else k]);
            if Canonical(token) then token == Printed(r) else r == 0
    ensures var k := TokenLength(input);
            rest == if k > MAX_NUM_LENGTH then input[MAX_NUM_LENGTH + 1..] else LeftAfter(input, k)
  {
    var buffer;
    buffer, rest := ReadUntilBlank(input);
    r := ReadNumber(CString(buffer));
  }

  /** Whatever is printed and followed by a blank is read back, and the rest of the input stays. */
  method PrintThenRead(v: int32, blank: char, tail: string) returns (r: int32, rest: string)
    requires IsBlank(blank)
    ensures r == v && rest == tail
  {
    var out := SysPrintNum(v);
    var input := out + [blank] + tail;
    MagnitudeShort(v);
    assert forall i | 0 <= i < |out| :: out[i] != '\0' && !EndsToken(out[i]) && input[i] == out[i];
    assert input[|out|] == blank && TokenLength(input) == |out|;
    assert input[..|out|] == out && input[|out| + 1..] == tail;
    assert Canonical(out);
    r, rest := SysReadNum(input);
    PrintedInjective(r, v);
  }
}

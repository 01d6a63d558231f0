/** ASCII decimal text: the part of Python's `int()` and `str()` that the source relies on. */
module Decimal {
  import opened Wrappers
  import opened Text

  predicate IsDigit(c: char) {
    '0' <= c <= '9'
  }

  predicate AllDigits(s: string) {
    forall i :: 0 <= i < |s| ==> IsDigit(s[i])
  }

  function DigitValue(c: char): nat
    requires IsDigit(c)
  {
    c as int - '0' as int
  }

  function DigitChar(d: nat): char
    requires d < 10
  {
    ('0' as int + d) as char
  }

  /** The number a run of digits denotes; the empty run denotes 0. */
  function Value(s: string): nat
    requires AllDigits(s)
  {
    if s == "" then 0 else 10 * Value(s[..|s| - 1]) + DigitValue(s[|s| - 1])
  }

  function Pow10(n: nat): nat
    ensures Pow10(n) > 0
  {
    if n == 0 then 1 else 10 * Pow10(n - 1)
  }

  /** The length of the leading run of digits. */
  function DigitRun(s: string): (n: nat)
    ensures n <= |s| && AllDigits(s[..n])
    ensures n < |s| ==> !IsDigit(s[n])
  {
    if s == "" || !IsDigit(s[0]) then 0
    else
      assert s[1..][..DigitRun(s[1..])] == s[1..1 + DigitRun(s[1..])];
      1 + DigitRun(s[1..])
  }

  lemma DigitRunOf(digits: string, rest: string)
    requires AllDigits(digits)
    requires rest == "" || !IsDigit(rest[0])
    ensures DigitRun(digits + rest) == |digits|
  {
    var s := digits + rest;
    var n := DigitRun(s);
    assert forall i :: 0 <= i < |digits| ==> s[i] == digits[i];
    assert rest != "" ==> s[|digits|] == rest[0];
    assert forall i :: 0 <= i < n ==> s[..n][i] == s[i];
  }

  /** `str()` of a natural number. */
  function PrintNat(n: nat): (s: string)
    ensures s != "" && AllDigits(s)
  {
    if n < 10 then [DigitChar(n)] else PrintNat(n / 10) + [DigitChar(n % 10)]
  }

  /** `str()` of an integer. */
  function Print(n: int): string {
    if n < 0 then "-" + PrintNat(-n) else PrintNat(n)
  }

  /** Digits with single underscores allowed between them. */
  predicate IsIntBody(s: string) {
    && s != "" && IsDigit(s[0]) && IsDigit(s[|s| - 1])
    && (forall i :: 0 <= i < |s| ==> IsDigit(s[i]) || s[i] == '_')
    && (forall i :: 0 < i < |s| ==> IsDigit(s[i - 1]) || IsDigit(s[i]))
  }

  function DigitsOnly(s: string): (digits: string)
    ensures AllDigits(digits)
  {
    if s == "" then "" else (if IsDigit(s[0]) then [s[0]] else "") + DigitsOnly(s[1..])
  }

  function ParseMagnitude(body: string): Option<int> {
    if IsIntBody(body) then Some(Value(DigitsOnly(body))) else None
  }

  function Negated(n: Option<int>): Option<int> {
    match n
    case None => None
    case Some(magnitude) => Some(-magnitude)
  }

  /** `int()` on ASCII text: surrounding whitespace, a sign, and digits with single underscores. */
  function Parse(s: string): Option<int> {
    var text := StripOf(s, IsAsciiSpace);
    if text != "" && text[0] == '-' then Negated(ParseMagnitude(text[1..]))
    else if text != "" && text[0] == '+' then ParseMagnitude(text[1..])
    else ParseMagnitude(text)
  }

  lemma {:induction false} DigitsAreDigitsOnly(s: string)
    requires AllDigits(s)
    ensures DigitsOnly(s) == s
  {
    if s == "" {
    } else {
      DigitsAreDigitsOnly(s[1..]);
    }
  }

  lemma {:induction false} ValuePrintNat(n: nat)
    ensures Value(PrintNat(n)) == n
  {
    if n >= 10 {
      ValuePrintNat(n / 10);
      var s := PrintNat(n);
      assert s[..|s| - 1] == PrintNat(n / 10);
    } else {
      var s := PrintNat(n);
      assert s[..0] == "";
    }
  }

  lemma MagnitudeOfDigits(digits: string)
    requires digits != "" && AllDigits(digits)
    ensures ParseMagnitude(digits) == Some(Value(digits))
  {
    DigitsAreDigitsOnly(digits);
    assert IsDigit(digits[0]) && IsDigit(digits[|digits| - 1]);
  }

  lemma ParseDigits(digits: string)
    requires digits != "" && AllDigits(digits)
    ensures Parse(digits) == ParseMagnitude(digits)
    ensures Parse("-" + digits) == Negated(ParseMagnitude(digits))
  {
    var text := "-" + digits;
    assert IsDigit(digits[0]) && IsDigit(digits[|digits| - 1]);
    assert text[|text| - 1] == digits[|digits| - 1] && text[1..] == digits;
    StripKeeps(digits, IsAsciiSpace);
    StripKeeps(text, IsAsciiSpace);
  }

  /** Printing then parsing gives the number back, so printing is injective. */
  lemma ParsePrint(n: int)
    ensures Parse(Print(n)) == Some(n)
  {
    var magnitude: nat := if n < 0 then -n else n;
    ValuePrintNat(magnitude);
    MagnitudeOfDigits(PrintNat(magnitude));
    ParseDigits(PrintNat(magnitude));
  }

  // ---------------------------------------------------------------- place value

  const DIGITS: string := "0123456789"

  /** One digit denotes its place among the ten. */
  lemma ValueOfDigit(d: nat)
    requires d < 10
    ensures IsDigit(DIGITS[d]) && Value([DIGITS[d]]) == d && PrintNat(d) == [DIGITS[d]]
  {
    assert [DIGITS[d]][..0] == "";
  }

  lemma Pow10Add(m: nat, n: nat)
    ensures Pow10(m + n) == Pow10(m) * Pow10(n)
    decreases m
  {
    if m == 0 {
    } else {
      Pow10Add(m - 1, n);
      assert 10 * (Pow10(m - 1) * Pow10(n)) == (10 * Pow10(m - 1)) * Pow10(n);
    }
  }

  lemma TimesTen(a: nat, p: nat, d: nat)
    ensures 10 * (a * p + d) == a * (10 * p) + 10 * d
  {}

  /** Reading on: the digits before count as many times more as 1 followed by that many zeros. */
  lemma {:induction false} ValueAppend(a: string, b: string)
    requires AllDigits(a) && AllDigits(b)
    ensures AllDigits(a + b) && Value(a + b) == Value(a) * Pow10(|b|) + Value(b)
    decreases |b|
  {
    if b == "" {
      assert a + b == a;
    } else {
      var init, last := b[..|b| - 1], b[|b| - 1];
      ValueAppend(a, init);
      assert (a + b)[..|a + b| - 1] == a + init;
      TimesTen(Value(a), Pow10(|init|), Value(init));
    }
  }

  /** `Pow10(n)` is the number written as 1 and n zeros. */
  lemma {:induction false} PowerIsOneAndZeros(n: nat)
    ensures var s := "1" + seq(n, _ => '0');
            AllDigits(s) && Value(s) == Pow10(n)
  {
    var s := "1" + seq(n, _ => '0');
    if n == 0 {
      assert s == [DIGITS[1]];
      ValueOfDigit(1);
    } else {
      PowerIsOneAndZeros(n - 1);
      assert s[..|s| - 1] == "1" + seq(n - 1, _ => '0');
    }
  }

  lemma {:induction false} PrintedLength(n: nat, k: nat)
    requires n < Pow10(k) && k > 0
    ensures |PrintNat(n)| <= k
  {
    if n < 10 {
    } else {
      assert k > 1;
      PrintedLength(n / 10, k - 1);
    }
  }

  // ---------------------------------------------------------------- what is no integer

  /** Digits, an underscore, a sign and whitespace are all that a number may hold. */
  predicate MayOccur(c: char) {
    IsDigit(c) || c == '_' || c == '-' || c == '+' || IsAsciiSpace(c)
  }

  lemma {:induction false} StripLeftKeepsOthers(s: string, space: char -> bool, c: char)
    requires c in s && !space(c)
    ensures c in StripLeft(s, space)
  {
    if s != "" && space(s[0]) {
      StripLeftKeepsOthers(s[1..], space, c);
    } else {
    }
  }

  lemma {:induction false} StripRightKeepsOthers(s: string, space: char -> bool, c: char)
    requires c in s && !space(c)
    ensures c in StripRight(s, space)
  {
    if s != "" && space(s[|s| - 1]) {
      StripRightKeepsOthers(s[..|s| - 1], space, c);
    } else {
    }
  }

  /** The empty text, and every text with any other character, is no integer. */
  lemma OtherTextIsNoInteger(s: string, c: char)
    requires s == "" || (c in s && !MayOccur(c))
    ensures Parse(s) == None
  {
    if s != "" {
      StripLeftKeepsOthers(s, IsAsciiSpace, c);
      StripRightKeepsOthers(StripLeft(s, IsAsciiSpace), IsAsciiSpace, c);
      var text := StripOf(s, IsAsciiSpace);
      var i :| 0 <= i < |text| && text[i] == c;
      assert i > 0 ==> text[1..][i - 1] == c;
    }
  }

  // ---------------------------------------------------------------- what else is one

  /** Whitespace around a text changes nothing. */
  lemma SurroundingSpace(pre: string, s: string, post: string)
    requires forall i :: 0 <= i < |pre| ==> pre[i] == ' ' || '\t' <= pre[i] <= '\r'
    requires forall i :: 0 <= i < |post| ==> post[i] == ' ' || '\t' <= post[i] <= '\r'
    ensures Parse(pre + (s + post)) == Parse(s)
  {
    StripPast(pre, s, post, IsAsciiSpace);
  }

  /** Nor does a plus sign before a number. */
  lemma PlusSign(n: int)
    requires n >= 0
    ensures Parse("+" + PrintNat(n)) == Some(n)
  {
    var digits := PrintNat(n);
    var text := "+" + digits;
    ValuePrintNat(n);
    MagnitudeOfDigits(digits);
    assert text[|text| - 1] == digits[|digits| - 1] && text[1..] == digits;
    StripKeeps(text, IsAsciiSpace);
  }

  lemma UnderscoreBody(a: string, b: string, s: string)
    requires AllDigits(a) && AllDigits(b) && a != "" && b != "" && s == a + ("_" + b)
    ensures IsIntBody(s)
  {
    assert forall i :: 0 <= i < |a| ==> s[i] == a[i];
    assert forall i :: |a| < i < |s| ==> s[i] == b[i - |a| - 1];
  }

  lemma UnderscoreDigits(a: string, b: string, s: string)
    requires AllDigits(a) && AllDigits(b) && s == a + ("_" + b)
    ensures DigitsOnly(s) == a + b
  {
    DigitsAreDigitsOnly(b);
    UnderscoreIsSkipped("_" + b, b);
    DigitsOnlyOf(a, "_" + b);
  }

  lemma UnderscoreIsSkipped(s: string, b: string)
    requires s == "_" + b
    ensures DigitsOnly(s) == DigitsOnly(b)
  {
    assert s[0] == '_' && s[1..] == b;
  }

  /** One underscore may stand between two digits. */
  lemma OneUnderscore(a: string, b: string, s: string)
    requires AllDigits(a) && AllDigits(b) && AllDigits(a + b) && a != "" && b != "" && s == a + ("_" + b)
    ensures ParseMagnitude(s) == Some(Value(a + b))
  {
    UnderscoreBody(a, b, s);
    UnderscoreDigits(a, b, s);
  }

  /** None may stand at an end, or beside another. */
  lemma OtherUnderscores(s: string)
    requires s != ""
    requires s[0] == '_' || s[|s| - 1] == '_' || exists i :: 0 < i < |s| && s[i - 1] == '_' && s[i] == '_'
    ensures ParseMagnitude(s) == None
  {}

  lemma {:induction false} DigitsOnlyOf(digits: string, rest: string)
    requires AllDigits(digits)
    ensures DigitsOnly(digits + rest) == digits + DigitsOnly(rest)
  {
    if digits == "" {
      assert digits + rest == rest;
    } else {
      assert (digits + rest)[1..] == digits[1..] + rest;
      DigitsOnlyOf(digits[1..], rest);
    }
  }
}

/**
 The decimal numeral of an integer, stated independently of how the converter
 in static_format.hpp computes it: digits most significant first, a leading
 '-' exactly for negative values, no leading zeros, "0" for zero. A parser is
 given as the partner, and the two are shown to be inverse bijections between
 integers and standard numerals.
 */
module Decimal {

  predicate IsDigit(c: char) {
    '0' <= c <= '9'
  }

  function DigitChar(d: nat): (c: char)
    requires d < 10
    ensures IsDigit(c) && c as int - '0' as int == d
  {
    ('0' as int + d) as char
  }

  function DigitValue(c: char): (d: nat)
    requires IsDigit(c)
    ensures d < 10 && DigitChar(d) == c
  {
    c as int - '0' as int
  }

  predicate AllDigits(s: string) {
    forall i :: 0 <= i < |s| ==> IsDigit(s[i])
  }

  /** A canonical numeral of a natural number: non-empty, digits only, and no
      leading zero unless the numeral is "0" itself. */
  predicate Canonical(s: string) {
    |s| >= 1 && AllDigits(s) && (s[0] == '0' ==> s == "0")
  }

  /** A standard numeral of an integer: a canonical natural numeral, optionally
      preceded by '-' when the magnitude is not zero (no "-0", no '+'). */
  predicate IsNumeral(s: string) {
    Canonical(s) || (|s| >= 2 && s[0] == '-' && Canonical(s[1..]) && s[1] != '0')
  }

  function Abs(n: int): nat {
    if n < 0 then -n else n
  }

  function Pow10(k: nat): (p: nat)
    ensures p >= 1
  {
    if k == 0 then 1 else 10 * Pow10(k - 1)
  }

  /** The digits of m, most significant first. */
  function Digits(m: nat): (s: string)
    ensures Canonical(s)
    ensures s[0] == '0' <==> m == 0
    decreases m
  {
    if m < 10 then [DigitChar(m)] else Digits(m / 10) + [DigitChar(m % 10)]
  }

  /** The standard decimal numeral of n. */
  function Numeral(n: int): string {
    (if n < 0 then "-" else "") + Digits(Abs(n))
  }

  /** The value of a string of digits read most significant first. */
  function Value(s: string): nat
    requires AllDigits(s)
  {
    if s == [] then 0 else Value(s[..|s| - 1]) * 10 + DigitValue(s[|s| - 1])
  }

  /** Reads back a standard numeral. */
  function ParseNumeral(s: string): int
    requires IsNumeral(s)
  {
    if s[0] == '-' then -(Value(s[1..]) as int) else Value(s)
  }

  /** The digits of m in the order the converter emits them: least significant
      first. Mirrors the do-while loop, so zero still yields one digit. */
  function LowFirst(m: nat): string
    decreases m
  {
    [DigitChar(m % 10)] + (if m < 10 then [] else LowFirst(m / 10))
  }

  function Reverse<T>(s: seq<T>): (r: seq<T>)
    ensures |r| == |s|
    ensures forall i :: 0 <= i < |s| ==> r[i] == s[|s| - 1 - i]
  {
    if s == [] then [] else Reverse(s[1..]) + [s[0]]
  }

  lemma ReverseAppend<T>(x: seq<T>, y: seq<T>)
    ensures Reverse(x + y) == Reverse(y) + Reverse(x)
  {
    var l, r := Reverse(x + y), Reverse(y) + Reverse(x);
    assert |l| == |r|;
    forall i | 0 <= i < |l|
      ensures l[i] == r[i]
    {
      if i < |y| {
        assert r[i] == y[|y| - 1 - i];
      } else {
        assert r[i] == x[|x| - 1 - (i - |y|)];
      }
    }
  }

  /** Reversing the converter's digit order gives the numeral's digit order. */
  lemma {:induction false} LowFirstReversed(m: nat)
    ensures Reverse(LowFirst(m)) == Digits(m)
    decreases m
  {
    if m >= 10 {
      LowFirstReversed(m / 10);
      ReverseAppend([DigitChar(m % 10)], LowFirst(m / 10));
      assert Reverse([DigitChar(m % 10)]) == [DigitChar(m % 10)];
    }
  }

  lemma {:induction false} ValueOfDigits(m: nat)
    ensures Value(Digits(m)) == m
    decreases m
  {
    if m >= 10 {
      var s := Digits(m / 10) + [DigitChar(m % 10)];
      assert s[..|s| - 1] == Digits(m / 10);
      ValueOfDigits(m / 10);
    }
  }

  lemma {:induction false} ValuePositive(s: string)
    requires |s| >= 1 && AllDigits(s) && s[0] != '0'
    ensures Value(s) >= 1
    decreases |s|
  {
    if |s| > 1 {
      ValuePositive(s[..|s| - 1]);
    }
  }

  lemma {:induction false} DigitsOfValue(s: string)
    requires Canonical(s)
    ensures Digits(Value(s)) == s
    decreases |s|
  {
    var last := |s| - 1;
    if last == 0 {
      assert Value(s) == DigitValue(s[0]);
    } else {
      var p := s[..last];
      assert s != "0";
      assert Canonical(p);
      ValuePositive(p);
      DigitsOfValue(p);
      var v := Value(s);
      assert v == Value(p) * 10 + DigitValue(s[last]);
      assert v / 10 == Value(p) && v % 10 == DigitValue(s[last]);
      assert s == p + [s[last]];
    }
  }

  /** Numeral renders every integer as a standard numeral carrying the sign
      exactly when the integer is negative, and reading it back gives the
      integer. */
  lemma NumeralRoundTrip(n: int)
    ensures IsNumeral(Numeral(n))
    ensures Numeral(n)[0] == '-' <==> n < 0
    ensures |Numeral(n)| == |Digits(Abs(n))| + (if n < 0 then 1 else 0)
    ensures ParseNumeral(Numeral(n)) == n
  {
    var s := Numeral(n);
    ValueOfDigits(Abs(n));
    if n < 0 {
      assert s[1..] == Digits(Abs(n));
    } else {
      assert s == Digits(n);
    }
  }

  /** Every standard numeral is the numeral of the integer it denotes. */
  lemma NumeralOfParse(s: string)
    requires IsNumeral(s)
    ensures Numeral(ParseNumeral(s)) == s
  {
    if s[0] == '-' {
      var t := s[1..];
      DigitsOfValue(t);
      ValuePositive(t);
      assert s == "-" + t;
    } else {
      DigitsOfValue(s);
    }
  }

  /** A magnitude below 10^k has at most k digits. */
  lemma {:induction false} DigitsBound(m: nat, k: nat)
    requires k >= 1 && m < Pow10(k)
    ensures |Digits(m)| <= k
    decreases m
  {
    if m >= 10 {
      assert Pow10(1) == 10;
      assert m / 10 < Pow10(k - 1);
      DigitsBound(m / 10, k - 1);
    }
  }

  /** A magnitude of at least 10^(k-1) has at least k digits. */
  lemma {:induction false} DigitsLowerBound(m: nat, k: nat)
    requires k >= 1 && Pow10(k - 1) <= m
    ensures |Digits(m)| >= k
    decreases k
  {
    if k > 1 {
      assert Pow10(k - 2) <= m / 10;
      DigitsLowerBound(m / 10, k - 1);
    }
  }
}

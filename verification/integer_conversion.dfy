/**
 to_static_string for integral types: collect digits least significant first
 with the truncating remainder, append '-' for negative values, write a NUL
 terminator at the next position, set the length, and reverse the prefix in
 place. The buffer has capacity digits10 + 1, which is too small for the
 terminator of the longest values of the type; WriteDecimal takes the capacity
 as a parameter so that both the source's capacity and a sufficient one can be
 stated.
 */
module IntegerConversion {
  import opened Decimal
  import opened StaticStrings

  /** An integral type: its value range and std::numeric_limits<T>::digits10. */
  datatype Integral = Integral(min: int, max: int, digits10: nat) {

    predicate Contains(n: int) {
      min <= n <= max
    }

    /** What digits10 guarantees about a range: no magnitude in the range has
        more than digits10 + 1 digits. */
    predicate Valid() {
      min <= 0 < max && -min < Pow10(digits10 + 1) && max < Pow10(digits10 + 1)
    }
  }

  // The signed integral types; char and bool are not modelled.
  const Int8: Integral := Integral(-128, 127, 2)
  const Int16: Integral := Integral(-32768, 32767, 4)
  const Int32: Integral := Integral(-2147483648, 2147483647, 9)
  const Int64: Integral := Integral(-9223372036854775808, 9223372036854775807, 18)

  /** C++ integer division: the quotient is truncated toward zero. */
  function Quot(a: int, b: int): int
    requires b > 0
  {
    if a >= 0 then a / b else -((-a) / b)
  }

  /** C++ remainder: it takes the sign of the dividend. */
  function Rem(a: int, b: int): int
    requires b > 0
  {
    a - b * Quot(a, b)
  }

  /** abs(cn % 10) is the last digit of |cn|, and cn / 10 drops it, whatever
      the sign of cn. */
  lemma TruncatedStep(a: int)
    ensures Abs(Rem(a, 10)) == Abs(a) % 10
    ensures Abs(Quot(a, 10)) == Abs(a) / 10
    ensures Quot(a, 10) == 0 <==> Abs(a) < 10
  {
  }

  /** The state of the digit loop: the digits written so far, followed by the
      digits of the part cn still to go (none once the loop stops), are the
      digits of |n| least significant first; the rest of the buffer is
      untouched. */
  predicate Collecting(buf: seq<char>, n: int, r: seq<char>, pos: nat, cn: int, more: bool) {
    && |r| == |buf| && pos <= |LowFirst(Abs(n))| <= |buf|
    && (more ==> r[..pos] + LowFirst(Abs(cn)) == LowFirst(Abs(n)))
    && (!more ==> r[..pos] == LowFirst(Abs(n)))
    && (forall k :: pos <= k < |r| ==> r[k] == buf[k])
  }

  lemma WritePrefix(s: seq<char>, i: nat, c: char)
    requires i < |s|
    ensures s[i := c][..i + 1] == s[..i] + [c]
  {
  }

  lemma AppendAssoc(a: seq<char>, b: seq<char>, c: seq<char>)
    ensures a + b + c == a + (b + c)
  {
  }

  /** The digit written by one pass, and the rest of the digits to go. */
  lemma PeelDigit(cn: int)
    ensures var d, rest := DigitChar(Abs(Rem(cn, 10))), Abs(Quot(cn, 10));
      LowFirst(Abs(cn)) == [d] + (if Quot(cn, 10) == 0 then [] else LowFirst(rest))
  {
    TruncatedStep(cn);
  }

  /** One pass of the do-while body keeps the loop state, and the part of
      the value still to go shrinks. */
  lemma CollectStep(buf: seq<char>, n: int, r: seq<char>, pos: nat, cn: int)
    requires Collecting(buf, n, r, pos, cn, true)
    ensures pos < |r| && Abs(Rem(cn, 10)) < 10
    ensures Quot(cn, 10) != 0 ==> Abs(Quot(cn, 10)) < Abs(cn)
    ensures var d := DigitChar(Abs(Rem(cn, 10)));
      Collecting(buf, n, r[pos := d], pos + 1, Quot(cn, 10), Quot(cn, 10) != 0)
  {
    var low, done := LowFirst(Abs(n)), r[..pos];
    TruncatedStep(cn);
    var d, cn' := DigitChar(Abs(Rem(cn, 10))), Quot(cn, 10);
    PeelDigit(cn);
    assert pos < |r|;
    var r' := r[pos := d];
    WritePrefix(r, pos, d);
    if cn' != 0 {
      AppendAssoc(done, [d], LowFirst(Abs(cn')));
      assert r'[..pos + 1] + LowFirst(Abs(cn')) == low;
    } else {
      assert r'[..pos + 1] == low;
    }
  }

  /** The loop state before the first pass. */
  lemma CollectStart(buf: seq<char>, n: int)
    requires |Digits(Abs(n))| <= |buf|
    ensures Collecting(buf, n, buf, 0, n, true)
  {
    LowFirstReversed(Abs(n));
    assert buf[..0] + LowFirst(Abs(n)) == LowFirst(Abs(n));
  }

  /** Once the loop stops, the written prefix is all of the digits. */
  lemma CollectDone(buf: seq<char>, n: int, r: seq<char>, pos: nat, cn: int)
    requires Collecting(buf, n, r, pos, cn, false)
    ensures pos == |Digits(Abs(n))| && r[..pos] == LowFirst(Abs(n))
  {
    LowFirstReversed(Abs(n));
  }

  /** The do-while loop of to_static_string: writes the digits of |n|, least
      significant first, from index 0 of the buffer. Each digit is
      abs(cn % 10) with the truncating remainder, then cn /= 10; the loop body
      runs at least once, so zero gives the single digit '0'. */
  method CollectDigits(buf: seq<char>, n: int) returns (r: seq<char>, pos: nat)
    requires |Digits(Abs(n))| <= |buf|
    ensures |r| == |buf|
    ensures pos == |Digits(Abs(n))|
    ensures r[..pos] == LowFirst(Abs(n))
    ensures forall k :: pos <= k < |r| ==> r[k] == buf[k]
  {
    CollectStart(buf, n);
    r, pos := buf, 0;
    var cn := n;
    while true
      invariant Collecting(buf, n, r, pos, cn, true)
      decreases Abs(cn)
    {
      CollectStep(buf, n, r, pos, cn);
      r := r[pos := DigitChar(Abs(Rem(cn, 10)))];
      pos := pos + 1;
      cn := Quot(cn, 10);
      if cn == 0 {
        break;
      }
    }
    CollectDone(buf, n, r, pos, cn);
  }

  /** r is s with the outer i pairs of its first k characters swapped. */
  predicate SwappedUpTo(s: seq<char>, r: seq<char>, i: nat, k: nat) {
    && |r| == |s| && i <= k / 2 && k <= |s|
    && (forall j :: 0 <= j < i ==> r[j] == s[k - 1 - j] && r[k - 1 - j] == s[j])
    && (forall j :: i <= j < k - i ==> r[j] == s[j])
    && (forall j :: k <= j < |s| ==> r[j] == s[j])
  }

  lemma SwapStep(s: seq<char>, r: seq<char>, i: nat, k: nat)
    requires SwappedUpTo(s, r, i, k) && i < k / 2
    ensures SwappedUpTo(s, r[i := r[k - 1 - i]][k - 1 - i := r[i]], i + 1, k)
  {
  }

  lemma SwappedAll(s: seq<char>, r: seq<char>, k: nat)
    requires SwappedUpTo(s, r, k / 2, k)
    ensures r[..k] == Reverse(s[..k])
  {
    var i := k / 2;
    forall j | 0 <= j < k
      ensures r[j] == s[k - 1 - j]
    {
      if k - i <= j {
        assert r[k - 1 - (k - 1 - j)] == s[k - 1 - j];
      }
    }
  }

  /** std::reverse over the first k characters, swapping from both ends. */
  method ReversePrefix(s: seq<char>, k: nat) returns (r: seq<char>)
    requires k <= |s|
    ensures |r| == |s|
    ensures r[..k] == Reverse(s[..k])
    ensures forall j :: k <= j < |s| ==> r[j] == s[j]
  {
    r := s;
    var i := 0;
    while i < k / 2
      invariant SwappedUpTo(s, r, i, k)
    {
      SwapStep(s, r, i, k);
      r := r[i := r[k - 1 - i]][k - 1 - i := r[i]];
      i := i + 1;
    }
    SwappedAll(s, r, k);
  }

  /** The body of to_static_string on a buffer of `cap` characters that starts
      all NUL. Every write, the terminator's included, must land inside the
      buffer. */
  method WriteDecimal(cap: nat, n: int) returns (r: StaticString)
    requires |Numeral(n)| < cap
    ensures r.Capacity() == cap
    ensures r.Size() == |Digits(Abs(n))| + (if n < 0 then 1 else 0)
    ensures r.str[..r.Size()] == Numeral(n)
    ensures forall i :: r.Size() <= i < cap ==> r.str[i] == NUL
  {
    ghost var sign := if n < 0 then "-" else "";
    assert Numeral(n) == sign + Digits(Abs(n));
    var buf, pos := CollectDigits(Zeros(cap), n);
    ghost var low := buf[..pos];
    if n < 0 {
      buf := buf[pos := '-'];
      pos := pos + 1;
    }
    assert buf[..pos] == low + sign;
    buf := buf[pos := NUL];
    assert buf[..pos] == low + sign;
    var out := ReversePrefix(buf, pos);
    assert out[..pos] == Numeral(n) by {
      ReverseAppend(low, sign);
      LowFirstReversed(Abs(n));
      assert Reverse(sign) == sign;
    }
    r := StaticString(out, pos);
  }

  /** to_static_string as written: the buffer holds digits10 + 1 characters,
      so the numeral must be strictly shorter than that for the terminator
      write ret[pos] to stay inside it. */
  method ToStaticString(t: Integral, n: int) returns (r: StaticString)
    requires t.Contains(n)
    requires |Numeral(n)| < t.digits10 + 1
    ensures r.Capacity() == t.digits10 + 1
    ensures r.Viewable() && ToView(r) == Numeral(n)
    ensures r.Size() == |Digits(Abs(n))| + (if n < 0 then 1 else 0)
  {
    r := WriteDecimal(t.digits10 + 1, n);
  }

  /** A 10-digit int, and a 9-digit negative int, are values of int whose
      numeral fills all digits10 + 1 = 10 places, so to_static_string writes
      its terminator at index 10 of a 10-character array. */
  lemma TerminatorOutOfBounds()
    ensures Int32.Contains(1000000000) && |Numeral(1000000000)| == Int32.digits10 + 1
    ensures Int32.Contains(-100000000) && |Numeral(-100000000)| == Int32.digits10 + 1
    ensures Int32.Contains(Int32.min) && |Numeral(Int32.min)| == Int32.digits10 + 2
  {
    assert Pow10(8) == 100000000;
    assert Pow10(9) == 1000000000;
    assert Pow10(10) == 10000000000;
    DigitsLowerBound(1000000000, 10);
    DigitsBound(1000000000, 10);
    DigitsLowerBound(100000000, 9);
    DigitsBound(100000000, 9);
    DigitsLowerBound(2147483648, 10);
    DigitsBound(2147483648, 10);
  }

  /** Capacity digits10 + 3 holds the sign, every digit a value of the type can
      have, and the terminator. */
  lemma SizedCapacitySuffices(t: Integral, n: int)
    requires t.Valid() && t.Contains(n)
    ensures |Numeral(n)| < t.digits10 + 3
  {
    NumeralRoundTrip(n);
    DigitsBound(Abs(n), t.digits10 + 1);
  }

  lemma SignedTypesValid()
    ensures Int8.Valid() && Int16.Valid() && Int32.Valid() && Int64.Valid()
  {
    assert Pow10(3) == 1000;
    assert Pow10(5) == 100000;
    assert Pow10(10) == 10000000000;
    assert Pow10(19) == 10000000000000000000;
  }

  /** to_static_string with the capacity corrected to digits10 + 3: every
      value of the type converts to its numeral. */
  method ToStaticStringSized(t: Integral, n: int) returns (r: StaticString)
    requires t.Valid() && t.Contains(n)
    ensures r.Capacity() == t.digits10 + 3
    ensures r.Viewable() && ToView(r) == Numeral(n)
    ensures r.Size() == |Digits(Abs(n))| + (if n < 0 then 1 else 0)
  {
    SizedCapacitySuffices(t, n);
    r := WriteDecimal(t.digits10 + 3, n);
  }
}

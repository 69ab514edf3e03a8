/** Decimal digit strings, Python's integer formatting (`str(n)`, `f"{n:0wd}"`) and the
    RFC 3339 (section 5.6) `full-date` strings `YYYY-MM-DD` that the transactions table stores. */
module Dates {

  predicate IsDigit(c: char) { '0' <= c <= '9' }

  predicate AllDigits(s: string) { forall i :: 0 <= i < |s| ==> IsDigit(s[i]) }

  function DigitValue(c: char): nat
    requires IsDigit(c)
  {
    (c as int) - ('0' as int)
  }

  function DigitChar(n: nat): (c: char)
    requires n < 10
    ensures IsDigit(c) && DigitValue(c) == n
  {
    (('0' as int) + n) as char
  }

  function Pow10(k: nat): (p: nat)
    ensures p >= 1
  {
    if k == 0 then 1 else 10 * Pow10(k - 1)
  }

  /** The number a string of decimal digits denotes, most significant digit first. */
  function DigitsValue(s: string): nat
    requires AllDigits(s)
  {
    if s == [] then 0 else 10 * DigitsValue(s[..|s| - 1]) + DigitValue(s[|s| - 1])
  }

  /** Python's `str(n)` for a non-negative `n`: the shortest decimal numeral. */
  function NatString(n: nat): (s: string)
    ensures |s| >= 1 && AllDigits(s)
  {
    if n < 10 then [DigitChar(n)] else NatString(n / 10) + [DigitChar(n % 10)]
  }

  /** Python's `str(n)` for any integer. */
  function Decimal(n: int): (s: string)
    ensures |s| >= 1
    ensures n < 0 <==> s[0] == '-'
  {
    if n < 0 then "-" + NatString(-n) else NatString(n)
  }

  function Zeros(k: int): (s: string)
    ensures |s| == if k <= 0 then 0 else k
    ensures forall i :: 0 <= i < |s| ==> s[i] == '0'
    decreases k
  {
    if k <= 0 then "" else "0" + Zeros(k - 1)
  }

  /** Python's `f"{n:0wd}"`: the sign, then zeros up to width `w`, then the digits of `|n|`. */
  function ZeroPad(n: int, w: nat): string
  {
    if n < 0 then "-" + Zeros(w - 1 - |NatString(-n)|) + NatString(-n)
    else Zeros(w - |NatString(n)|) + NatString(n)
  }

  lemma {:induction false} NatStringValue(n: nat)
    ensures DigitsValue(NatString(n)) == n
  {
    if n >= 10 {
      var s := NatString(n);
      assert s[..|s| - 1] == NatString(n / 10);
      NatStringValue(n / 10);
    }
  }

  /** `str(n)` has at most `k` digits below `10^k` and more than `k` from `10^k` on. */
  lemma {:induction false} NatStringLength(n: nat, k: nat)
    ensures k >= 1 && n < Pow10(k) ==> |NatString(n)| <= k
    ensures n >= Pow10(k) ==> |NatString(n)| >= k + 1
  {
    if n >= 10 && k >= 1 {
      assert Pow10(k) == 10 * Pow10(k - 1);
      assert n < Pow10(k) ==> n / 10 < Pow10(k - 1);
      assert n >= Pow10(k) ==> n / 10 >= Pow10(k - 1);
      NatStringLength(n / 10, k - 1);
    }
  }

  lemma {:induction false} DigitsValueBound(s: string)
    requires AllDigits(s)
    ensures DigitsValue(s) < Pow10(|s|)
  {
    if s != [] {
      DigitsValueBound(s[..|s| - 1]);
    }
  }

  /** Two digit strings of one length that denote the same number are the same string. */
  lemma {:induction false} DigitsValueInjective(s: string, t: string)
    requires AllDigits(s) && AllDigits(t) && |s| == |t|
    requires DigitsValue(s) == DigitsValue(t)
    ensures s == t
  {
    if s != [] {
      var n := |s| - 1;
      var a, b := DigitsValue(s[..n]), DigitsValue(t[..n]);
      var x, y := DigitValue(s[n]), DigitValue(t[n]);
      assert 10 * a + x == 10 * b + y;
      assert a == b && x == y;
      assert s[n] == t[n];
      DigitsValueInjective(s[..n], t[..n]);
      assert s == s[..n] + [s[n]] && t == t[..n] + [t[n]];
    }
  }

  lemma {:induction false} ZerosValue(k: int)
    ensures AllDigits(Zeros(k)) && DigitsValue(Zeros(k)) == 0
    decreases k
  {
    if k > 0 {
      var z := Zeros(k);
      assert z[..|z| - 1] == Zeros(k - 1);
      ZerosValue(k - 1);
    }
  }

  /** Leading zeros do not change the number a digit string denotes. */
  lemma {:induction false} LeadingZerosValue(k: int, s: string)
    requires AllDigits(s)
    ensures AllDigits(Zeros(k) + s) && DigitsValue(Zeros(k) + s) == DigitsValue(s)
  {
    if s == [] {
      assert Zeros(k) + s == Zeros(k);
      ZerosValue(k);
    } else {
      var n := |s| - 1;
      var z := Zeros(k) + s;
      assert z[..|z| - 1] == Zeros(k) + s[..n];
      LeadingZerosValue(k, s[..n]);
    }
  }

  /** `f"{n:0wd}"` of a non-negative `n` is a digit string denoting `n`, exactly `w` long when `n` fits. */
  lemma ZeroPadDigits(n: nat, w: nat)
    ensures AllDigits(ZeroPad(n, w)) && DigitsValue(ZeroPad(n, w)) == n
    ensures w >= 1 && n < Pow10(w) ==> |ZeroPad(n, w)| == w
  {
    NatStringValue(n);
    LeadingZerosValue(w - |NatString(n)|, NatString(n));
    NatStringLength(n, w);
  }

  /** The digit fields of a `full-date` string, as SQLite's strftime('%Y'), ('%m') and ('%d') read them. */
  predicate IsDateShape(s: string)
  {
    |s| == 10 && AllDigits(s[0..4]) && s[4] == '-' && AllDigits(s[5..7]) && s[7] == '-' && AllDigits(s[8..10])
  }

  function YearOf(s: string): nat requires IsDateShape(s) { DigitsValue(s[0..4]) }

  function MonthOf(s: string): nat requires IsDateShape(s) { DigitsValue(s[5..7]) }

  function DayOf(s: string): nat requires IsDateShape(s) { DigitsValue(s[8..10]) }

  predicate IsLeapYear(y: int) { y % 4 == 0 && (y % 100 != 0 || y % 400 == 0) }

  /** The last day of month `m` in year `y` (RFC 3339, section 5.7). */
  function DaysInMonth(y: int, m: int): int
  {
    if m == 2 then (if IsLeapYear(y) then 29 else 28)
    else if m == 4 || m == 6 || m == 9 || m == 11 then 30
    else 31
  }

  /** An RFC 3339 `full-date`: `date-fullyear "-" date-month "-" date-mday`. */
  predicate IsFullDate(s: string)
  {
    IsDateShape(s) && 1 <= MonthOf(s) <= 12 && 1 <= DayOf(s) <= DaysInMonth(YearOf(s), MonthOf(s))
  }

  /** A Python `datetime.date`. */
  datatype Date = Date(year: int, month: int, day: int)

  predicate IsValidDate(d: Date)
  {
    1 <= d.year <= 9999 && 1 <= d.month <= 12 && 1 <= d.day <= DaysInMonth(d.year, d.month)
  }

  /** Python's `str(d)` of a date: `'%04d-%02d-%02d' % (year, month, day)`. */
  function IsoFormat(d: Date): string
  {
    ZeroPad(d.year, 4) + "-" + ZeroPad(d.month, 2) + "-" + ZeroPad(d.day, 2)
  }

  function ParseDate(s: string): Date
    requires IsDateShape(s)
  {
    Date(YearOf(s), MonthOf(s), DayOf(s))
  }

  /** `str(d)` of a date is a `full-date` whose fields read back as the date's fields. */
  lemma IsoFormatRoundTrip(d: Date)
    requires IsValidDate(d)
    ensures IsFullDate(IsoFormat(d))
    ensures ParseDate(IsoFormat(d)) == d
  {
    ZeroPadDigits(d.year, 4);
    ZeroPadDigits(d.month, 2);
    ZeroPadDigits(d.day, 2);
    var s := IsoFormat(d);
    assert s[0..4] == ZeroPad(d.year, 4);
    assert s[5..7] == ZeroPad(d.month, 2);
    assert s[8..10] == ZeroPad(d.day, 2);
  }

  /** Every `full-date` of a year from 1 on is `str(d)` of exactly the date it spells. */
  lemma ParseDateRoundTrip(s: string)
    requires IsFullDate(s) && YearOf(s) >= 1
    ensures IsValidDate(ParseDate(s))
    ensures IsoFormat(ParseDate(s)) == s
  {
    var d := ParseDate(s);
    DigitsValueBound(s[0..4]);
    DigitsValueBound(s[5..7]);
    DigitsValueBound(s[8..10]);
    assert Pow10(2) == 100 && Pow10(4) == 10000;
    ZeroPadDigits(d.year, 4);
    ZeroPadDigits(d.month, 2);
    ZeroPadDigits(d.day, 2);
    DigitsValueInjective(s[0..4], ZeroPad(d.year, 4));
    DigitsValueInjective(s[5..7], ZeroPad(d.month, 2));
    DigitsValueInjective(s[8..10], ZeroPad(d.day, 2));
    assert s == s[0..4] + "-" + s[5..7] + "-" + s[8..10];
  }

  /** The month condition `strftime('%m', date) = f"{m:02d}"` holds exactly when the date's month is `m`. */
  lemma MonthFilterExact(s: string, m: int)
    requires IsDateShape(s)
    ensures s[5..7] == ZeroPad(m, 2) <==> MonthOf(s) == m
  {
    var f := s[5..7];
    if m >= 0 {
      ZeroPadDigits(m, 2);
      if MonthOf(s) == m {
        DigitsValueBound(f);
        assert Pow10(2) == 100;
        DigitsValueInjective(f, ZeroPad(m, 2));
      }
    } else {
      assert ZeroPad(m, 2)[0] == '-';
      assert IsDigit(f[0]);
    }
  }

  /** The year condition `strftime('%Y', date) = str(y)` holds exactly when the date's year is `y`
      and `y` has four digits: `str(y)` is not zero-padded, so years below 1000 never match. */
  lemma YearFilterExact(s: string, y: int)
    requires IsDateShape(s)
    ensures s[0..4] == Decimal(y) <==> 1000 <= y && YearOf(s) == y
  {
    var f := s[0..4];
    if y >= 0 {
      NatStringValue(y);
      NatStringLength(y, 3);
      assert Pow10(3) == 1000;
      if 1000 <= y && YearOf(s) == y {
        DigitsValueBound(f);
        assert Pow10(4) == 10000;
        NatStringLength(y, 4);
        DigitsValueInjective(f, NatString(y));
      }
    } else {
      assert IsDigit(f[0]);
    }
  }
}

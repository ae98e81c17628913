/**
 * validators.js: the calendar-date check applied to `match_date`, `from` and
 * `to`, and the trimming helper applied to opponent names and e-mails.
 */
module Validators {
  import opened Wrappers
  import opened Js

  /** A calendar date as year, month (1-12) and day of month. */
  datatype Date = Date(year: int, month: int, day: int)

  /** Chronological order, the order of the DATE column. */
  predicate DateBefore(a: Date, b: Date) {
    || a.year < b.year
    || (a.year == b.year && (a.month < b.month || (a.month == b.month && a.day < b.day)))
  }

  /** The Gregorian leap-year rule, applied proleptically (year 0 is a leap year). */
  predicate IsLeapYear(y: int) {
    y % 4 == 0 && (y % 100 != 0 || y % 400 == 0)
  }

  function DaysInMonth(y: int, m: int): (n: int)
    requires 1 <= m <= 12
    ensures 28 <= n <= 31
    ensures m == 2 ==> (n == 29 <==> IsLeapYear(y))
  {
    if m == 2 then (if IsLeapYear(y) then 29 else 28)
    else if m == 4 || m == 6 || m == 9 || m == 11 then 30
    else 31
  }

  /** A real day of the Gregorian calendar. */
  predicate IsCalendarDate(d: Date) {
    1 <= d.month <= 12 && 1 <= d.day <= DaysInMonth(d.year, d.month)
  }

  /** `\d` of a JavaScript regular expression without the `u` flag. */
  predicate IsAsciiDigit(c: char) {
    '0' <= c <= '9'
  }

  predicate AllDigits(s: string) {
    forall k :: 0 <= k < |s| ==> IsAsciiDigit(s[k])
  }

  /** The regular expression `/^\d{4}-\d{2}-\d{2}$/`. */
  predicate MatchesIsoPattern(s: string) {
    && |s| == 10
    && s[4] == '-' && s[7] == '-'
    && AllDigits(s[..4]) && AllDigits(s[5..7]) && AllDigits(s[8..])
  }

  function DigitValue(c: char): (n: nat)
    requires IsAsciiDigit(c)
    ensures n <= 9
  {
    c as int - '0' as int
  }

  /** `Number(part)` for a non-empty run of ASCII digits: its decimal value. */
  function DecimalValue(s: string): (n: nat)
    requires AllDigits(s)
  {
    if s == [] then 0 else 10 * DecimalValue(s[..|s| - 1]) + DigitValue(s[|s| - 1])
  }

  /** `String.prototype.split(sep)` for a one-character separator. */
  function Split(s: string, sep: char): (parts: seq<string>)
    ensures |parts| >= 1
  {
    if s == [] then [""]
    else
      var rest := Split(s[1..], sep);
      if s[0] == sep then [""] + rest else [[s[0]] + rest[0]] + rest[1..]
  }

  /** Splitting at the first separator, at index `n`. */
  lemma {:induction false} SplitAtFirst(s: string, sep: char, n: nat)
    requires n < |s| && s[n] == sep
    requires forall k :: 0 <= k < n ==> s[k] != sep
    ensures Split(s, sep) == [s[..n]] + Split(s[n + 1..], sep)
    decreases n
  {
    if n > 0 {
      SplitAtFirst(s[1..], sep, n - 1);
      assert s[1..][n..] == s[n + 1..];
      assert [s[0]] + s[1..][..n - 1] == s[..n];
    }
  }

  /** A string without the separator splits into itself. */
  lemma {:induction false} SplitWithoutSeparator(s: string, sep: char)
    requires forall k :: 0 <= k < |s| ==> s[k] != sep
    ensures Split(s, sep) == [s]
    decreases |s|
  {
    if s != [] {
      SplitWithoutSeparator(s[1..], sep);
      assert [s[0]] + s[1..] == s;
    }
  }

  /** `dateStr.split("-")` of a pattern-matching string gives its three digit fields. */
  lemma SplitIsoDate(s: string)
    requires MatchesIsoPattern(s)
    ensures Split(s, '-') == [s[..4], s[5..7], s[8..]]
  {
    assert forall k :: 0 <= k < 4 ==> s[..4][k] == s[k];
    SplitAtFirst(s, '-', 4);
    var t := s[5..];
    assert forall k :: 0 <= k < 2 ==> t[k] == s[5..7][k];
    SplitAtFirst(t, '-', 2);
    assert t[..2] == s[5..7] && t[3..] == s[8..];
    SplitWithoutSeparator(s[8..], '-');
  }

  /**
   * What `new Date(`${y}-${m}-${d}T00:00:00Z`)` reports through its UTC
   * fields when the string already passed the pattern and the range checks:
   * the engine accepts any day from 1 to 31 and carries a day past the end
   * of the month into the next one. The result is an `Option` so that the
   * `Number.isNaN` check has a case to test, but this engine never answers
   * NaN for such a string (the `ensures` says so); an engine that did would
   * refuse exactly the same dates, those past the end of the month.
   */
  function NewUtcDate(y: int, m: int, d: int): (r: Option<Date>)
    requires 1 <= m <= 12 && 1 <= d <= 31
    ensures r.Some? && IsCalendarDate(r.value)
    ensures r == Some(Date(y, m, d)) <==> d <= DaysInMonth(y, m)
  {
    var n := DaysInMonth(y, m);
    if d <= n then Some(Date(y, m, d))
    else if m == 12 then Some(Date(y + 1, 1, d - n))
    else Some(Date(y, m + 1, d - n))
  }

  /** `isValidISODate(dateStr)` (validators.js). */
  function IsValidISODate(v: JsValue): (ok: bool)
    ensures ok ==> v.Str? && MatchesIsoPattern(v.s)
  {
    if !v.Str? then false
    else if !MatchesIsoPattern(v.s) then false
    else
      SplitIsoDate(v.s);
      var parts := Split(v.s, '-');
      var y, m, d := DecimalValue(parts[0]), DecimalValue(parts[1]), DecimalValue(parts[2]);
      if m < 1 || m > 12 then false
      else if d < 1 || d > 31 then false
      else
        var dt := NewUtcDate(y, m, d);
        dt.Some? && dt.value.year == y && dt.value.month == m && dt.value.day == d
  }

  /** The three fields of a pattern-matching string, read digit by digit. */
  function IsoFields(s: string): (d: Date)
    requires MatchesIsoPattern(s)
    ensures 0 <= d.year <= 9999 && 0 <= d.month <= 99 && 0 <= d.day <= 99
  {
    assert forall k :: 0 <= k < 4 ==> s[..4][k] == s[k];
    assert forall k :: 0 <= k < 2 ==> s[5..7][k] == s[k + 5] && s[8..][k] == s[k + 8];
    Date(
      1000 * DigitValue(s[0]) + 100 * DigitValue(s[1]) + 10 * DigitValue(s[2]) + DigitValue(s[3]),
      10 * DigitValue(s[5]) + DigitValue(s[6]),
      10 * DigitValue(s[8]) + DigitValue(s[9]))
  }

  lemma DecimalValueOfFields(s: string)
    requires MatchesIsoPattern(s)
    ensures DecimalValue(s[..4]) == IsoFields(s).year
    ensures DecimalValue(s[5..7]) == IsoFields(s).month
    ensures DecimalValue(s[8..]) == IsoFields(s).day
  {
    var y := s[..4];
    assert DecimalValue(y[..1]) == DigitValue(s[0]) by {
      assert y[..1][..0] == [];
    }
    assert DecimalValue(y[..2]) == 10 * DigitValue(s[0]) + DigitValue(s[1]) by {
      assert y[..2][..1] == y[..1];
    }
    assert DecimalValue(y[..3]) == 100 * DigitValue(s[0]) + 10 * DigitValue(s[1]) + DigitValue(s[2]) by {
      assert y[..3][..2] == y[..2];
    }
    assert DecimalValue(y) == 10 * DecimalValue(y[..3]) + DigitValue(s[3]) by {
      assert y[..|y| - 1] == y[..3];
    }
    TwoDigitValue(s[5..7], s[5], s[6]);
    TwoDigitValue(s[8..], s[8], s[9]);
  }

  lemma TwoDigitValue(f: string, a: char, b: char)
    requires f == [a, b] && IsAsciiDigit(a) && IsAsciiDigit(b)
    ensures DecimalValue(f) == 10 * DigitValue(a) + DigitValue(b)
  {
    assert f[..|f| - 1] == [a] && [a][..0] == [];
    assert DecimalValue([a]) == DigitValue(a);
  }

  /**
   * A string is accepted exactly when it has the `YYYY-MM-DD` shape and names
   * a real Gregorian date; every year from 0000 to 9999 is allowed.
   */
  lemma IsValidISODateIff(v: JsValue)
    ensures IsValidISODate(v) <==> v.Str? && MatchesIsoPattern(v.s) && IsCalendarDate(IsoFields(v.s))
  {
    if v.Str? && MatchesIsoPattern(v.s) {
      SplitIsoDate(v.s);
      DecimalValueOfFields(v.s);
    }
  }

  /** The DATE the database stores for an accepted string. */
  function DateOf(s: string): (d: Date)
    requires IsValidISODate(Str(s))
    ensures IsCalendarDate(d) && 0 <= d.year <= 9999
  {
    IsValidISODateIff(Str(s));
    IsoFields(s)
  }

  function DigitChar(n: nat): (c: char)
    requires n <= 9
    ensures IsAsciiDigit(c) && DigitValue(c) == n
  {
    ('0' as int + n) as char
  }

  /** The `YYYY-MM-DD` spelling of a date: four, two and two zero-padded digits. */
  function FormatIsoDate(d: Date): (s: string)
    requires 0 <= d.year <= 9999 && 1 <= d.month <= 12 && 1 <= d.day <= 31
    ensures |s| == 10
  {
    [DigitChar(d.year / 1000), DigitChar(d.year / 100 % 10), DigitChar(d.year / 10 % 10),
     DigitChar(d.year % 10), '-', DigitChar(d.month / 10), DigitChar(d.month % 10), '-',
     DigitChar(d.day / 10), DigitChar(d.day % 10)]
  }

  lemma FourDigits(y: int)
    requires 0 <= y <= 9999
    ensures 1000 * (y / 1000) + 100 * (y / 100 % 10) + 10 * (y / 10 % 10) + y % 10 == y
  {
    var a, b, c := y / 1000, y / 100, y / 10;
    assert y == 10 * c + y % 10;
    assert c == 10 * b + c % 10;
    assert b == 10 * a + b % 10;
  }

  /**
   * Formatting a stored date and validating the text again gives back the
   * same date: every date the table can hold is accepted by the validator.
   */
  lemma FormatIsoDateRoundTrip(d: Date)
    requires 0 <= d.year <= 9999 && IsCalendarDate(d)
    ensures IsValidISODate(Str(FormatIsoDate(d)))
    ensures DateOf(FormatIsoDate(d)) == d
  {
    var s := FormatIsoDate(d);
    assert MatchesIsoPattern(s);
    FourDigits(d.year);
    assert IsoFields(s) == d;
    IsValidISODateIff(Str(s));
  }

  /** A string of the right shape is accepted exactly when its fields name a real date. */
  lemma ShapedAs(s: string, d: Date)
    requires MatchesIsoPattern(s) && IsoFields(s) == d
    ensures IsValidISODate(Str(s)) <==> IsCalendarDate(d)
  {
    IsValidISODateIff(Str(s));
  }

  /** 2024 is a leap year: its 29 February exists. */
  lemma LeapDayAccepted()
    ensures IsValidISODate(Str("2024-02-29"))
  {
    ShapedAs("2024-02-29", Date(2024, 2, 29));
  }

  /** Even a leap year has no 30 February. */
  lemma February30Refused()
    ensures !IsValidISODate(Str("2024-02-30"))
  {
    ShapedAs("2024-02-30", Date(2024, 2, 30));
  }

  /** 2023 is not a leap year. */
  lemma CommonYearLeapDayRefused()
    ensures !IsValidISODate(Str("2023-02-29"))
  {
    ShapedAs("2023-02-29", Date(2023, 2, 29));
  }

  /** Year 0000 is accepted, and it is a leap year under the proleptic rule. */
  lemma YearZeroAccepted()
    ensures IsValidISODate(Str("0000-02-29"))
  {
    ShapedAs("0000-02-29", Date(0, 2, 29));
    assert IsLeapYear(0) && DaysInMonth(0, 2) == 29;
  }

  /** A month out of range, a non-digit year, a short field and a non-string are refused. */
  lemma MalformedDatesRefused()
    ensures !IsValidISODate(Str("2023-13-01"))
    ensures !IsValidISODate(Str("abcd-01-01"))
    ensures !IsValidISODate(Str("2024-1-1"))
    ensures !IsValidISODate(Num(Finite(20240101.0)))
  {
    ShapedAs("2023-13-01", Date(2023, 13, 1));
    assert !IsAsciiDigit("abcd-01-01"[..4][0]);
  }

  /** `cleanTrimmedString(value)` (validators.js). */
  function CleanTrimmedString(v: JsValue): (r: string)
    ensures !v.Str? ==> r == ""
    ensures r == [] || (!IsWhiteSpace(r[0]) && !IsWhiteSpace(r[|r| - 1]))
  {
    if !v.Str? then "" else Trim(v.s)
  }

  /**
   * The cleaned string is one contiguous piece of the input, starting after
   * the leading whitespace, with only whitespace cut from either end; so the
   * interior characters and their case are kept.
   */
  lemma CleanTrimmedStringIsInfix(s: string)
    ensures var r, i := CleanTrimmedString(Str(s)), Text.LeadingCount(s, IsWhiteSpace);
      && i + |r| <= |s|
      && r == s[i..i + |r|]
      && (forall k :: 0 <= k < i ==> IsWhiteSpace(s[k]))
      && (forall k :: i + |r| <= k < |s| ==> IsWhiteSpace(s[k]))
  {
    assert CleanTrimmedString(Str(s)) == Text.Strip(s, IsWhiteSpace);
    Text.StripIsInfix(s, IsWhiteSpace);
  }

  lemma CleanTrimmedStringIdempotent(v: JsValue)
    ensures CleanTrimmedString(Str(CleanTrimmedString(v))) == CleanTrimmedString(v)
  {
    if v.Str? {
      Text.StripIdempotent(v.s, IsWhiteSpace);
    }
  }
}

/**
 * The timestamps of a timewarrior export, `YYYYMMDDTHHMMSSZ` in UTC, as main.py
 * reads them with `datetime.strptime(s, "%Y%m%dT%H%M%SZ")`, and the duration
 * `end - start` that `calculate_hours` computes, kept in whole seconds.
 */
module Timestamp {
  import opened Wrappers

  /** A naive (UTC) civil date and time, as `strptime` builds it. */
  datatype DateTime = DateTime(year: int, month: int, day: int, hour: int, minute: int, second: int)

  /** The `ValueError` that `strptime` raises on text it cannot read; it aborts the run. */
  datatype ParseError = BadTimestamp(text: string)

  // ---------------------------------------------------------------------
  // The proleptic Gregorian calendar of Python's `datetime`

  predicate IsLeapYear(y: int)
  {
    y % 4 == 0 && (y % 100 != 0 || y % 400 == 0)
  }

  function DaysInMonth(y: int, m: int): (n: int)
    requires 1 <= m <= 12
    ensures 28 <= n <= 31
  {
    if m == 2 then (if IsLeapYear(y) then 29 else 28)
    else if m == 4 || m == 6 || m == 9 || m == 11 then 30
    else 31
  }

  function DaysInYear(y: int): int
  {
    if IsLeapYear(y) then 366 else 365
  }

  /** The ranges `datetime` accepts: years 1..9999, real calendar days, seconds 0..59. */
  predicate Valid(dt: DateTime)
  {
    && 1 <= dt.year <= 9999
    && 1 <= dt.month <= 12
    && 1 <= dt.day <= DaysInMonth(dt.year, dt.month)
    && 0 <= dt.hour < 24
    && 0 <= dt.minute < 60
    && 0 <= dt.second < 60
  }

  /** Days from 0001-01-01 to January 1st of year `y`. */
  function DaysBeforeYear(y: int): int
  {
    var p := y - 1;
    p * 365 + p / 4 - p / 100 + p / 400
  }

  /** Days from January 1st to the first day of month `m` of year `y`. */
  function DaysBeforeMonth(y: int, m: int): int
    requires 1 <= m <= 12
  {
    var table := [0, 31, 59, 90, 120, 151, 181, 212, 243, 273, 304, 334];
    table[m - 1] + (if m > 2 && IsLeapYear(y) then 1 else 0)
  }

  /** Days elapsed since 0001-01-01 (the proleptic ordinal minus one). */
  function DayNumber(dt: DateTime): int
    requires Valid(dt)
  {
    DaysBeforeYear(dt.year) + DaysBeforeMonth(dt.year, dt.month) + dt.day - 1
  }

  /** Seconds elapsed since 0001-01-01T00:00:00: whole days, then the time of day. */
  function ToSeconds(dt: DateTime): (n: int)
    requires Valid(dt)
    ensures DayNumber(dt) * 86400 <= n < (DayNumber(dt) + 1) * 86400
  {
    DayNumber(dt) * 86400 + dt.hour * 3600 + dt.minute * 60 + dt.second
  }

  /** `b` falls on the calendar day after the day of `a`. */
  predicate IsNextDay(a: DateTime, b: DateTime)
    requires Valid(a)
  {
    if a.day < DaysInMonth(a.year, a.month) then (b.year, b.month, b.day) == (a.year, a.month, a.day + 1)
    else if a.month < 12 then (b.year, b.month, b.day) == (a.year, a.month + 1, 1)
    else (b.year, b.month, b.day) == (a.year + 1, 1, 1)
  }

  /** Chronological order, field by field from the year down to the second. */
  predicate Before(a: DateTime, b: DateTime)
  {
    if a.year != b.year then a.year < b.year
    else if a.month != b.month then a.month < b.month
    else if a.day != b.day then a.day < b.day
    else if a.hour != b.hour then a.hour < b.hour
    else if a.minute != b.minute then a.minute < b.minute
    else a.second < b.second
  }

  // ---------------------------------------------------------------------
  // Reading and writing the fixed 16-character format

  predicate IsDigit(c: char)
  {
    '0' <= c <= '9'
  }

  function DigitValue(c: char): (n: int)
    requires IsDigit(c)
    ensures 0 <= n < 10
  {
    c as int - '0' as int
  }

  function DigitChar(n: int): (c: char)
    requires 0 <= n < 10
    ensures IsDigit(c) && DigitValue(c) == n
  {
    ('0' as int + n) as char
  }

  /** `%Y%m%dT%H%M%SZ` in its 16-character form; `strptime` matches `T` and `Z` ignoring case. */
  predicate WellShaped(s: string)
  {
    && |s| == 16
    && (forall i :: 0 <= i < 8 ==> IsDigit(s[i]))
    && (forall i :: 9 <= i < 15 ==> IsDigit(s[i]))
    && (s[8] == 'T' || s[8] == 't')
    && (s[15] == 'Z' || s[15] == 'z')
  }

  /** The decimal value of the digits `s[lo..hi]`. */
  function DigitsValue(s: string, lo: nat, hi: nat): (n: int)
    requires lo <= hi <= |s|
    requires forall i :: lo <= i < hi ==> IsDigit(s[i])
    decreases hi - lo
  {
    if lo == hi then 0 else DigitsValue(s, lo, hi - 1) * 10 + DigitValue(s[hi - 1])
  }

  /** The fields of a well-shaped timestamp, before range checks. */
  function Fields(s: string): DateTime
    requires WellShaped(s)
  {
    DateTime(DigitsValue(s, 0, 4), DigitsValue(s, 4, 6), DigitsValue(s, 6, 8),
             DigitsValue(s, 9, 11), DigitsValue(s, 11, 13), DigitsValue(s, 13, 15))
  }

  /** `datetime.strptime(s, "%Y%m%dT%H%M%SZ")`: `None` where Python raises `ValueError`. */
  function Parse(s: string): (r: Option<DateTime>)
    ensures r.Some? ==> Valid(r.value)
    ensures r.Some? <==> WellShaped(s) && Valid(Fields(s))
  {
    if WellShaped(s) && Valid(Fields(s)) then Some(Fields(s)) else None
  }

  /** The export's canonical spelling of a date-time (the inverse of `Parse`). */
  function Format(dt: DateTime): (s: string)
    requires Valid(dt)
    ensures |s| == 16
  {
    [ DigitChar(dt.year / 1000), DigitChar(dt.year / 100 % 10), DigitChar(dt.year / 10 % 10), DigitChar(dt.year % 10),
      DigitChar(dt.month / 10), DigitChar(dt.month % 10), DigitChar(dt.day / 10), DigitChar(dt.day % 10),
      'T',
      DigitChar(dt.hour / 10), DigitChar(dt.hour % 10), DigitChar(dt.minute / 10), DigitChar(dt.minute % 10),
      DigitChar(dt.second / 10), DigitChar(dt.second % 10),
      'Z' ]
  }

  // ---------------------------------------------------------------------
  // calculate_hours, in seconds

  /**
   * `calculate_hours(start, end)` without the final division by 3600: parse both
   * (start first, as Python does) and subtract. Nothing checks that `end` is not
   * before `start`, so the result may be negative.
   */
  function DurationSeconds(start: string, end: string): (r: Result<int, ParseError>)
    ensures r.Success? <==> Parse(start).Some? && Parse(end).Some?
    ensures Parse(start).None? ==> r == Failure(BadTimestamp(start))
    ensures Parse(start).Some? && Parse(end).None? ==> r == Failure(BadTimestamp(end))
  {
    match Parse(start)
    case None => Failure(BadTimestamp(start))
    case Some(s) =>
      match Parse(end)
      case None => Failure(BadTimestamp(end))
      case Some(e) => Success(ToSeconds(e) - ToSeconds(s))
  }

  // ---------------------------------------------------------------------
  // Calendar lemmas

  lemma DaysBeforeYearStep(y: int)
    requires y >= 1
    ensures DaysBeforeYear(y + 1) == DaysBeforeYear(y) + DaysInYear(y)
  {
    DivStep4(y);
    DivStep100(y);
    DivStep400(y);
    DivisorChain(y);
    var q4, q100, q400 := (y - 1) / 4, (y - 1) / 100, (y - 1) / 400;
    assert DaysBeforeYear(y) == (y - 1) * 365 + q4 - q100 + q400;
    if IsLeapYear(y) {
      assert DaysBeforeYear(y + 1) == (y - 1) * 365 + 365 + q4 - q100 + q400 + 1;
    } else {
      assert DaysBeforeYear(y + 1) == (y - 1) * 365 + 365 + q4 - q100 + q400;
    }
  }

  /** A multiple of 400 is a multiple of 100, and a multiple of 100 is a multiple of 4. */
  lemma DivisorChain(y: int)
    ensures y % 400 == 0 ==> y % 100 == 0
    ensures y % 100 == 0 ==> y % 4 == 0
  {
  }

  /** Counting multiples of 4 (then of 100 and of 400) up to `y`: `y` adds one exactly when it is one. */
  lemma DivStep4(y: int)
    requires y >= 1
    ensures y / 4 == (y - 1) / 4 + (if y % 4 == 0 then 1 else 0)
  {
  }

  lemma DivStep100(y: int)
    requires y >= 1
    ensures y / 100 == (y - 1) / 100 + (if y % 100 == 0 then 1 else 0)
  {
  }

  lemma DivStep400(y: int)
    requires y >= 1
    ensures y / 400 == (y - 1) / 400 + (if y % 400 == 0 then 1 else 0)
  {
  }

  lemma {:induction false} DaysBeforeYearMonotone(y1: int, y2: int)
    requires 1 <= y1 <= y2
    ensures DaysBeforeYear(y1) + 365 * (y2 - y1) <= DaysBeforeYear(y2)
    decreases y2 - y1
  {
    if y1 < y2 {
      DaysBeforeYearStep(y1);
      DaysBeforeYearMonotone(y1 + 1, y2);
    }
  }

  lemma DaysBeforeMonthMonotone(y: int, m1: int, m2: int)
    requires 1 <= m1 < m2 <= 12
    ensures DaysBeforeMonth(y, m1) + DaysInMonth(y, m1) <= DaysBeforeMonth(y, m2)
  {
  }

  lemma DaysWithinYear(y: int, m: int)
    requires 1 <= m <= 12
    ensures DaysBeforeMonth(y, m) + DaysInMonth(y, m) <= DaysInYear(y)
  {
  }

  /** Each month starts the day after the previous month ends. */
  lemma DaysBeforeMonthStep(y: int, m: int)
    requires 1 <= m < 12
    ensures DaysBeforeMonth(y, m + 1) == DaysBeforeMonth(y, m) + DaysInMonth(y, m)
  {
  }

  /** December ends on the last day of the year. */
  lemma DaysBeforeYearEnd(y: int)
    ensures DaysBeforeMonth(y, 12) + DaysInMonth(y, 12) == DaysInYear(y)
  {
  }

  /** The next calendar day, across a month or a year end, has the next day number. */
  lemma NextDay(a: DateTime, b: DateTime)
    requires Valid(a) && Valid(b) && IsNextDay(a, b)
    ensures DayNumber(b) == DayNumber(a) + 1
  {
    if a.day == DaysInMonth(a.year, a.month) {
      if a.month < 12 {
        DaysBeforeMonthStep(a.year, a.month);
      } else {
        DaysBeforeYearEnd(a.year);
        DaysBeforeYearStep(a.year);
      }
    }
  }

  /** A duration that crosses midnight is one day plus the difference of the clock times. */
  lemma MidnightDuration(a: DateTime, b: DateTime)
    requires Valid(a) && Valid(b) && IsNextDay(a, b)
    ensures ToSeconds(b) - ToSeconds(a)
            == 86400 + (b.hour - a.hour) * 3600 + (b.minute - a.minute) * 60 + (b.second - a.second)
  {
    NextDay(a, b);
  }

  /** The day number grows strictly with the calendar date. */
  lemma DayNumberMonotone(a: DateTime, b: DateTime)
    requires Valid(a) && Valid(b)
    requires (a.year, a.month, a.day) != (b.year, b.month, b.day)
    requires Before(a, b)
    ensures DayNumber(a) < DayNumber(b)
  {
    if a.year < b.year {
      DaysWithinYear(a.year, a.month);
      DaysBeforeYearStep(a.year);
      DaysBeforeYearMonotone(a.year + 1, b.year);
    } else if a.month < b.month {
      DaysBeforeMonthMonotone(a.year, a.month, b.month);
    }
  }

  /** Seconds since the epoch preserve chronological order. */
  lemma SecondsMonotone(a: DateTime, b: DateTime)
    requires Valid(a) && Valid(b) && Before(a, b)
    ensures ToSeconds(a) < ToSeconds(b)
  {
    if (a.year, a.month, a.day) != (b.year, b.month, b.day) {
      DayNumberMonotone(a, b);
    }
  }

  /** A duration is positive, zero or negative exactly as the end is after, equal to or before the start. */
  lemma DurationSign(start: string, end: string)
    requires DurationSeconds(start, end).Success?
    ensures var d := DurationSeconds(start, end).value;
            var s, e := Parse(start).value, Parse(end).value;
            && (d > 0 <==> Before(s, e))
            && (d == 0 <==> s == e)
            && (d < 0 <==> Before(e, s))
  {
    var s, e := Parse(start).value, Parse(end).value;
    if Before(s, e) {
      SecondsMonotone(s, e);
    } else if Before(e, s) {
      SecondsMonotone(e, s);
    }
  }

  // ---------------------------------------------------------------------
  // Round trips between Parse and Format

  lemma DigitsValue2(s: string, lo: nat)
    requires lo + 2 <= |s| && IsDigit(s[lo]) && IsDigit(s[lo + 1])
    ensures DigitsValue(s, lo, lo + 2) == 10 * DigitValue(s[lo]) + DigitValue(s[lo + 1])
  {
    assert DigitsValue(s, lo, lo + 1) == DigitValue(s[lo]);
  }

  lemma DigitsValue4(s: string, lo: nat)
    requires lo + 4 <= |s| && forall i :: lo <= i < lo + 4 ==> IsDigit(s[i])
    ensures DigitsValue(s, lo, lo + 4)
         == 1000 * DigitValue(s[lo]) + 100 * DigitValue(s[lo + 1]) + 10 * DigitValue(s[lo + 2]) + DigitValue(s[lo + 3])
  {
    DigitsValue2(s, lo);
    assert DigitsValue(s, lo, lo + 3) == DigitsValue(s, lo, lo + 2) * 10 + DigitValue(s[lo + 2]);
  }

  /** Reading back the two digits written for `n`. */
  lemma ReadTwo(s: string, lo: nat, n: int)
    requires 0 <= n < 100 && lo + 2 <= |s|
    requires s[lo] == DigitChar(n / 10) && s[lo + 1] == DigitChar(n % 10)
    ensures DigitsValue(s, lo, lo + 2) == n
  {
    DigitsValue2(s, lo);
  }

  /** Reading back the four digits written for `n`. */
  lemma ReadFour(s: string, lo: nat, n: int)
    requires 0 <= n < 10000 && lo + 4 <= |s|
    requires s[lo] == DigitChar(n / 1000) && s[lo + 1] == DigitChar(n / 100 % 10)
    requires s[lo + 2] == DigitChar(n / 10 % 10) && s[lo + 3] == DigitChar(n % 10)
    ensures DigitsValue(s, lo, lo + 4) == n
  {
    DigitsValue4(s, lo);
    FourDigits(n);
  }

  /** A number below 10000 is the sum of its four decimal digits times their place values. */
  lemma FourDigits(n: int)
    requires 0 <= n < 10000
    ensures 1000 * (n / 1000) + 100 * (n / 100 % 10) + 10 * (n / 10 % 10) + n % 10 == n
  {
    var q, r := n / 100, n % 100;
    var c, e := r / 10, r % 10;
    assert n == 1000 * (q / 10) + (100 * (q % 10) + r);
    SplitThousands(q / 10, 100 * (q % 10) + r);
    assert n == 10 * (10 * q + c) + e;
    SplitTwo(10 * q + c, e);
    SplitTwo(q, c);
  }

  /** The thousands of `1000 * a + b`. */
  lemma SplitThousands(a: int, b: int)
    requires 0 <= b < 1000
    ensures (1000 * a + b) / 1000 == a
  {
  }

  /** Every valid date-time is read back from its canonical spelling. */
  lemma ParseFormat(dt: DateTime)
    requires Valid(dt)
    ensures Parse(Format(dt)) == Some(dt)
  {
    FormatWellShaped(dt);
    FormatFields(dt);
  }

  /** The fields read from the canonical spelling are the fields written. */
  lemma FormatFields(dt: DateTime)
    requires Valid(dt)
    ensures WellShaped(Format(dt)) && Fields(Format(dt)) == dt
  {
    FormatWellShaped(dt);
    FormatDate(dt);
    FormatTime(dt);
  }

  lemma FormatDate(dt: DateTime)
    requires Valid(dt)
    ensures var s := Format(dt);
            DigitsValue(s, 0, 4) == dt.year && DigitsValue(s, 4, 6) == dt.month && DigitsValue(s, 6, 8) == dt.day
  {
    var s := Format(dt);
    ReadFour(s, 0, dt.year);
    ReadTwo(s, 4, dt.month);
    ReadTwo(s, 6, dt.day);
  }

  lemma FormatTime(dt: DateTime)
    requires Valid(dt)
    ensures var s := Format(dt);
            DigitsValue(s, 9, 11) == dt.hour && DigitsValue(s, 11, 13) == dt.minute && DigitsValue(s, 13, 15) == dt.second
  {
    var s := Format(dt);
    ReadTwo(s, 9, dt.hour);
    ReadTwo(s, 11, dt.minute);
    ReadTwo(s, 13, dt.second);
  }

  lemma FormatWellShaped(dt: DateTime)
    requires Valid(dt)
    ensures WellShaped(Format(dt))
  {
    var s := Format(dt);
    forall i | 0 <= i < 16 && i != 8 && i != 15 ensures IsDigit(s[i]) {
    }
  }

  /** The last digit of `10 * a + b`, and the number before it. */
  lemma SplitTwo(a: int, b: int)
    requires 0 <= b < 10
    ensures (10 * a + b) / 10 == a && (10 * a + b) % 10 == b
  {
  }

  /** The four digits of a four-digit number. */
  lemma SplitFour(a: int, b: int, c: int, d: int)
    requires 0 <= a < 10 && 0 <= b < 10 && 0 <= c < 10 && 0 <= d < 10
    ensures var n := 1000 * a + 100 * b + 10 * c + d;
            n / 1000 == a && n / 100 % 10 == b && n / 10 % 10 == c && n % 10 == d
  {
    var n := 1000 * a + 100 * b + 10 * c + d;
    assert n / 10 == 100 * a + 10 * b + c;
    assert n / 100 == 10 * a + b;
  }

  lemma DigitRoundTrip(c: char)
    requires IsDigit(c)
    ensures DigitChar(DigitValue(c)) == c
  {
  }

  lemma WriteTwo(s: string, lo: nat)
    requires lo + 2 <= |s| && IsDigit(s[lo]) && IsDigit(s[lo + 1])
    ensures var n := DigitsValue(s, lo, lo + 2);
            0 <= n < 100 && DigitChar(n / 10) == s[lo] && DigitChar(n % 10) == s[lo + 1]
  {
    DigitsValue2(s, lo);
    SplitTwo(DigitValue(s[lo]), DigitValue(s[lo + 1]));
    DigitRoundTrip(s[lo]);
    DigitRoundTrip(s[lo + 1]);
  }

  lemma WriteFour(s: string, lo: nat)
    requires lo + 4 <= |s| && forall i :: lo <= i < lo + 4 ==> IsDigit(s[i])
    ensures var n := DigitsValue(s, lo, lo + 4);
            && 0 <= n < 10000
            && DigitChar(n / 1000) == s[lo] && DigitChar(n / 100 % 10) == s[lo + 1]
            && DigitChar(n / 10 % 10) == s[lo + 2] && DigitChar(n % 10) == s[lo + 3]
  {
    DigitsValue4(s, lo);
    SplitFour(DigitValue(s[lo]), DigitValue(s[lo + 1]), DigitValue(s[lo + 2]), DigitValue(s[lo + 3]));
    DigitRoundTrip(s[lo]);
    DigitRoundTrip(s[lo + 1]);
    DigitRoundTrip(s[lo + 2]);
    DigitRoundTrip(s[lo + 3]);
  }

  /** A timestamp `Parse` accepts is, with upper-case `T` and `Z`, the canonical spelling of its value. */
  lemma FormatParse(s: string)
    requires Parse(s).Some? && s[8] == 'T' && s[15] == 'Z'
    ensures Format(Parse(s).value) == s
  {
    var f := Format(Parse(s).value);
    FormatMatchesDate(s);
    FormatMatchesTime(s);
    assert forall i :: 0 <= i < 16 ==> f[i] == s[i];
  }

  lemma FormatMatchesDate(s: string)
    requires Parse(s).Some?
    ensures forall i :: 0 <= i < 8 ==> Format(Parse(s).value)[i] == s[i]
  {
    WriteFour(s, 0);
    WriteTwo(s, 4);
    WriteTwo(s, 6);
  }

  lemma FormatMatchesTime(s: string)
    requires Parse(s).Some?
    ensures forall i :: 9 <= i < 15 ==> Format(Parse(s).value)[i] == s[i]
  {
    WriteTwo(s, 9);
    WriteTwo(s, 11);
    WriteTwo(s, 13);
  }

  // ---------------------------------------------------------------------
  // Worked examples

  /** 09:00 to 11:30 on the same day is 9000 seconds (2.5 hours); reversed it is -9000. */
  lemma DurationExample()
    ensures DurationSeconds("20240101T090000Z", "20240101T113000Z") == Success(9000)
    ensures DurationSeconds("20240101T113000Z", "20240101T090000Z") == Success(-9000)
  {
    ParseNine();
    ParseHalfPastEleven();
  }

  lemma ParseNine()
    ensures Parse("20240101T090000Z") == Some(DateTime(2024, 1, 1, 9, 0, 0))
  {
    var a: string := "20240101T090000Z";
    assert WellShaped(a);
    DigitsValue4(a, 0);
    assert Fields(a) == DateTime(2024, 1, 1, 9, 0, 0);
  }

  lemma ParseHalfPastEleven()
    ensures Parse("20240101T113000Z") == Some(DateTime(2024, 1, 1, 11, 30, 0))
  {
    var b: string := "20240101T113000Z";
    assert WellShaped(b);
    DigitsValue4(b, 0);
    assert Fields(b) == DateTime(2024, 1, 1, 11, 30, 0);
  }
}

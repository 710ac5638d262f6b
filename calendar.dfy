/**
 * Civil dates as pandas parses them, with the two period keys the metrics
 * group by: `to_period("M")` rendered as text ("YYYY-MM") and C `strftime`
 * "%Y-W%U" (Sunday-start week numbers).
 */
module Calendar {
  import opened Common

  datatype CivilDate = CivilDate(year: int, month: int, day: int)

  predicate IsLeapYear(y: int) {
    y % 4 == 0 && (y % 100 != 0 || y % 400 == 0)
  }

  function DaysInMonth(y: int, m: int): int
    requires 1 <= m <= 12
  {
    if m == 2 then (if IsLeapYear(y) then 29 else 28)
    else if m == 4 || m == 6 || m == 9 || m == 11 then 30
    else 31
  }

  function DaysInYear(y: int): int {
    if IsLeapYear(y) then 366 else 365
  }

  /** Years are four-digit: pandas timestamps lie in 1677..2262. */
  predicate ValidDate(d: CivilDate) {
    1000 <= d.year <= 9999 && 1 <= d.month <= 12 && 1 <= d.day <= DaysInMonth(d.year, d.month)
  }

  type Date = d: CivilDate | ValidDate(d) witness CivilDate(2000, 1, 1)

  /** Strict chronological order. */
  predicate DateLess(a: CivilDate, b: CivilDate) {
    a.year < b.year || (a.year == b.year && (a.month < b.month || (a.month == b.month && a.day < b.day)))
  }

  /** Number of days of year `y` that come before month `m` (m = 13: the whole year). */
  function DaysBeforeMonth(y: int, m: int): (n: int)
    requires 1 <= m <= 13
    ensures n == (if m <= 12 then DaysInYear(y) - DaysFromMonth(y, m) else DaysInYear(y))
    decreases m
  {
    if m == 1 then 0 else DaysBeforeMonth(y, m - 1) + DaysInMonth(y, m - 1)
  }

  /** Number of days from the first of month `m` to the end of the year. */
  function DaysFromMonth(y: int, m: int): (n: int)
    requires 1 <= m <= 12
    ensures n >= DaysInMonth(y, m)
    decreases 12 - m
  {
    if m == 12 then 31 else DaysInMonth(y, m) + DaysFromMonth(y, m + 1)
  }

  /** C `tm_yday`: zero-based day of the year. */
  function DayOfYear(d: Date): (n: int)
    ensures 0 <= n < DaysInYear(d.year)
  {
    DaysBeforeMonth(d.year, d.month) + d.day - 1
  }

  /** Weekday of the first of January, Sunday = 0 (Gauss's rule). */
  function Jan1Weekday(y: int): (w: int)
    ensures 0 <= w < 7
  {
    (1 + 5 * ((y - 1) % 4) + 4 * ((y - 1) % 100) + 6 * ((y - 1) % 400)) % 7
  }

  /** C `tm_wday`: Sunday = 0 ... Saturday = 6. */
  function Weekday(d: Date): (w: int)
    ensures 0 <= w < 7
  {
    (Jan1Weekday(d.year) + DayOfYear(d)) % 7
  }

  /** Zero-based day of the year of the first Sunday. */
  function FirstSunday(y: int): (n: int)
    ensures 0 <= n < 7
  {
    (7 - Jan1Weekday(y)) % 7
  }

  /** `%U`: (tm_yday + 7 - tm_wday) / 7. */
  function WeekNumber(d: Date): int {
    (DayOfYear(d) + 7 - Weekday(d)) / 7
  }

  lemma ModFourStep(x: int)
    ensures (x + 1) % 4 == if x % 4 == 3 then 0 else x % 4 + 1
  {
    var q := x / 4;
    assert x == 4 * q + x % 4;
    if x % 4 == 3 {
      assert x + 1 == 4 * (q + 1);
    } else {
      assert x + 1 == 4 * q + (x % 4 + 1);
    }
  }

  /** Euclidean remainder by 4, from a quotient and remainder pair. */
  lemma ModFourOf(y: int, q: int, r: int)
    requires y == 4 * q + r && 0 <= r < 4
    ensures y % 4 == r
  {
  }

  /** Euclidean remainder by 100, from a quotient and remainder pair. */
  lemma ModHundredOf(y: int, q: int, r: int)
    requires y == 100 * q + r && 0 <= r < 100
    ensures y % 100 == r
  {
  }

  /** Euclidean remainder by 400, from a quotient and remainder pair. */
  lemma ModFourHundredOf(y: int, q: int, r: int)
    requires y == 400 * q + r && 0 <= r < 400
    ensures y % 400 == r
  {
  }

  lemma ModHundredStep(x: int)
    ensures (x + 1) % 100 == if x % 100 == 99 then 0 else x % 100 + 1
    ensures x % 100 == 99 ==> x % 4 == 3
  {
    var q, r := x / 100, x % 100;
    if r == 99 {
      ModHundredOf(x + 1, q + 1, 0);
      ModFourOf(x, 25 * q + 24, 3);
    } else {
      ModHundredOf(x + 1, q, r + 1);
    }
  }

  lemma ModFourHundredStep(x: int)
    ensures (x + 1) % 400 == if x % 400 == 399 then 0 else x % 400 + 1
    ensures x % 400 == 399 ==> x % 100 == 99
  {
    var q, r := x / 400, x % 400;
    if r == 399 {
      ModFourHundredOf(x + 1, q + 1, 0);
      ModHundredOf(x, 4 * q + 3, 99);
    } else {
      ModFourHundredOf(x + 1, q, r + 1);
    }
  }

  lemma ModSevenShift(s: int, k: int, c: int)
    requires (k - c) % 7 == 0
    ensures (s + k) % 7 == (s % 7 + c) % 7
  {
    var j := (k - c) / 7;
    assert k == c + 7 * j;
    var q := s / 7;
    assert s == 7 * q + s % 7;
    assert s + k == 7 * (q + j) + (s % 7 + c);
  }

  /** The first of January moves forward by the length of the year, mod 7. */
  lemma {:induction false} Jan1WeekdayAdvances(y: int)
    ensures Jan1Weekday(y + 1) == (Jan1Weekday(y) + DaysInYear(y)) % 7
  {
    var x := y - 1;
    ModFourStep(x);
    ModHundredStep(x);
    ModFourHundredStep(x);
    var a4, a100, a400 := x % 4, x % 100, x % 400;
    var s := 1 + 5 * a4 + 4 * a100 + 6 * a400;
    var t := 1 + 5 * (y % 4) + 4 * (y % 100) + 6 * (y % 400);
    assert Jan1Weekday(y) == s % 7;
    assert Jan1Weekday(y + 1) == t % 7;
    if a4 != 3 {
      assert !IsLeapYear(y);
      assert t == s + 15;
      ModSevenShift(s, 15, 365);
    } else if a100 != 99 {
      assert IsLeapYear(y);
      assert t == s - 5;
      ModSevenShift(s, -5, 366);
    } else if a400 != 399 {
      assert !IsLeapYear(y);
      assert t == s - 405;
      ModSevenShift(s, -405, 365);
    } else {
      assert IsLeapYear(y);
      assert t == s - 2805;
      ModSevenShift(s, -2805, 366);
    }
  }

  /** Anchors: 1 January 2023 was a Sunday and 1 January 2025 a Wednesday. */
  lemma Jan1WeekdayAnchors()
    ensures Jan1Weekday(2023) == 0 && Jan1Weekday(2025) == 3
  {
  }

  /** Weeks 01.. start on Sundays; the days before the first Sunday form week 00. */
  lemma {:induction false} WeekNumberBySundays(d: Date)
    ensures WeekNumber(d) == if DayOfYear(d) < FirstSunday(d.year) then 0
                             else (DayOfYear(d) - FirstSunday(d.year)) / 7 + 1
  {
    WeekArithmetic(DayOfYear(d), Jan1Weekday(d.year));
  }

  /** The arithmetic behind `WeekNumberBySundays`, for a day `yd` of a year starting on weekday `w1`. */
  lemma WeekArithmetic(yd: int, w1: int)
    requires 0 <= yd && 0 <= w1 < 7
    ensures (yd + 7 - (w1 + yd) % 7) / 7
            == if yd < (7 - w1) % 7 then 0 else (yd - (7 - w1) % 7) / 7 + 1
  {
    var fs, wd := (7 - w1) % 7, (w1 + yd) % 7;
    var c := if w1 == 0 then 0 else 1;
    if w1 == 0 {
      DivSevenOf(7, 1, 0);
    } else {
      DivSevenOf(7 - w1, 0, 7 - w1);
    }
    assert w1 + fs == 7 * c;
    if yd < fs {
      DivSevenOf(w1 + yd, 0, w1 + yd);
      DivSevenOf(yd + 7 - wd, 0, 7 - w1);
    } else {
      var q, r := (yd - fs) / 7, (yd - fs) % 7;
      DivSevenOf(w1 + yd, c + q, r);
      DivSevenOf(yd + 7 - wd, q + 1, fs);
    }
  }

  /** Euclidean quotient and remainder by 7, from a quotient and remainder pair. */
  lemma DivSevenOf(y: int, q: int, r: int)
    requires y == 7 * q + r && 0 <= r < 7
    ensures y / 7 == q && y % 7 == r
  {
  }

  /** `%U` lies in 00..53. */
  lemma WeekNumberRange(d: Date)
    ensures 0 <= WeekNumber(d) <= 53
  {
    assert DayOfYear(d) <= 365;
  }

  /** Week 00 holds exactly the days before the year's first Sunday. */
  lemma WeekZeroBeforeFirstSunday(d: Date)
    ensures WeekNumber(d) == 0 <==> DayOfYear(d) < FirstSunday(d.year)
  {
    WeekNumberBySundays(d);
  }

  // ---- fixed-width decimal text ----

  predicate IsDigit(c: char) { '0' <= c <= '9' }

  function DigitChar(n: int): (c: char)
    requires 0 <= n < 10
    ensures IsDigit(c)
  {
    ('0' as int + n) as char
  }

  function DigitValue(c: char): int {
    c as int - '0' as int
  }

  function Pad2(n: int): (s: string)
    requires 0 <= n < 100
    ensures |s| == 2 && IsDigit(s[0]) && IsDigit(s[1])
  {
    [DigitChar(n / 10), DigitChar(n % 10)]
  }

  function Pad4(n: int): (s: string)
    requires 0 <= n < 10000
    ensures |s| == 4 && forall i :: 0 <= i < 4 ==> IsDigit(s[i])
  {
    Pad2(n / 100) + Pad2(n % 100)
  }

  function ReadDigits(s: string): int
    decreases |s|
  {
    if |s| == 0 then 0 else ReadDigits(s[..|s| - 1]) * 10 + DigitValue(s[|s| - 1])
  }

  lemma Pad2Read(n: int)
    requires 0 <= n < 100
    ensures ReadDigits(Pad2(n)) == n
  {
    var s := Pad2(n);
    assert s[..1] == [s[0]];
    assert s[..1][..0] == [];
    assert ReadDigits(s[..1]) == DigitValue(s[0]) == n / 10;
    assert DigitValue(s[1]) == n % 10;
  }

  lemma Pad4Read(n: int)
    requires 0 <= n < 10000
    ensures ReadDigits(Pad4(n)) == n
  {
    var s := Pad4(n);
    var hi, lo := Pad2(n / 100), Pad2(n % 100);
    assert s[..3] == hi + [lo[0]];
    assert s[..3][..2] == hi;
    Pad2Read(n / 100);
    Pad2Read(n % 100);
    assert lo[..1] == [lo[0]];
    assert lo[..1][..0] == [];
  }

  // ---- period keys ----

  /** `to_period("M").astype(str)` of a parsed date. */
  function MonthKey(d: Date): (s: string)
    ensures |s| == 7 && s[4] == '-'
  {
    Pad4(d.year) + "-" + Pad2(d.month)
  }

  /** `strftime("%Y-W%U")` of a parsed date. */
  function WeekKey(d: Date): (s: string)
    ensures |s| == 8 && s[4] == '-' && s[5] == 'W'
  {
    WeekNumberRange(d);
    Pad4(d.year) + "-W" + Pad2(WeekNumber(d))
  }

  /** Reads a "YYYY-MM" key back into (year, month). */
  function ParseMonthKey(s: string): Option<(int, int)> {
    if |s| == 7 && s[4] == '-' then Some((ReadDigits(s[..4]), ReadDigits(s[5..]))) else None
  }

  /** Reads a "YYYY-Www" key back into (year, week). */
  function ParseWeekKey(s: string): Option<(int, int)> {
    if |s| == 8 && s[4] == '-' && s[5] == 'W' then Some((ReadDigits(s[..4]), ReadDigits(s[6..]))) else None
  }

  lemma MonthKeyRoundTrip(d: Date)
    ensures ParseMonthKey(MonthKey(d)) == Some((d.year, d.month))
  {
    var s := MonthKey(d);
    assert s[..4] == Pad4(d.year);
    assert s[5..] == Pad2(d.month);
    Pad4Read(d.year);
    Pad2Read(d.month);
  }

  lemma WeekKeyRoundTrip(d: Date)
    ensures ParseWeekKey(WeekKey(d)) == Some((d.year, WeekNumber(d)))
  {
    WeekNumberRange(d);
    var s := WeekKey(d);
    assert s[..4] == Pad4(d.year);
    assert s[6..] == Pad2(WeekNumber(d));
    Pad4Read(d.year);
    Pad2Read(WeekNumber(d));
  }

  /** Two dates share a month group exactly when they share year and month. */
  lemma MonthKeyInjective(a: Date, b: Date)
    ensures MonthKey(a) == MonthKey(b) <==> a.year == b.year && a.month == b.month
  {
    MonthKeyRoundTrip(a);
    MonthKeyRoundTrip(b);
  }

  /** Two dates share a week group exactly when they share year and `%U` week. */
  lemma WeekKeyInjective(a: Date, b: Date)
    ensures WeekKey(a) == WeekKey(b) <==> a.year == b.year && WeekNumber(a) == WeekNumber(b)
  {
    WeekKeyRoundTrip(a);
    WeekKeyRoundTrip(b);
  }
}

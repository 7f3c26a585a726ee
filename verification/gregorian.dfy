/**
 * Proleptic Gregorian calendar arithmetic as JavaScript's `Date` performs it
 * (ECMA-262, "Days in Year", "Year Number", "Month Number" and "MakeDay"):
 * days are counted from 1970-01-01 (day 0, a Thursday), years and months are
 * normalised with floor division, and months are numbered 1..12 here where
 * `Date.prototype.getMonth` numbers them 0..11.
 */
module Gregorian {

  /** The Gregorian leap-year rule. */
  predicate IsLeapYear(y: int) {
    y % 4 == 0 && (y % 100 != 0 || y % 400 == 0)
  }

  /** ECMA-262 DaysInYear, written as its four cases. */
  function DaysInYear(y: int): (n: int)
    ensures n == 365 || n == 366
    ensures n == 366 <==> IsLeapYear(y)
  {
    if y % 4 != 0 then 365
    else if y % 100 != 0 then 366
    else if y % 400 != 0 then 365
    else 366
  }

  /** Number of days of month `m` (1..12) of year `y`. */
  function DaysInMonth(y: int, m: int): (n: int)
    requires 1 <= m <= 12
    ensures 28 <= n <= 31
    ensures m == 2 ==> (n == 29 <==> IsLeapYear(y))
    ensures m != 2 ==> n >= 30
  {
    if m == 2 then (if IsLeapYear(y) then 29 else 28)
    else if m == 4 || m == 6 || m == 9 || m == 11 then 30
    else 31
  }

  /** Days of year `y` that precede the first of month `m`; month 13 stands for the year's end. */
  function DaysBeforeMonth(y: int, m: int): (n: nat)
    requires 1 <= m <= 13
    ensures 28 * (m - 1) <= n <= 31 * (m - 1)
  {
    if m == 1 then 0 else DaysBeforeMonth(y, m - 1) + DaysInMonth(y, m - 1)
  }

  /** ECMA-262 DayFromYear: the day number of January 1 of year `y` (floor division). */
  function DayFromYear(y: int): int {
    365 * (y - 1970) + (y - 1969) / 4 - (y - 1901) / 100 + (y - 1601) / 400
  }

  /** Day number (days since 1970-01-01) of the date `y`-`m`-`d`, as MakeDay computes it. */
  function DayNumber(y: int, m: int, d: int): int
    requires 1 <= m <= 12
  {
    DayFromYear(y) + DaysBeforeMonth(y, m) + d - 1
  }

  /** `Date.prototype.getDay`: 0 = Sunday .. 6 = Saturday; day 0 was a Thursday. */
  function WeekDay(y: int, m: int, d: int): (w: int)
    requires 1 <= m <= 12
    ensures 0 <= w < 7
    ensures w == (DayNumber(y, m, d) + 4) % 7
  {
    (DayNumber(y, m, d) + 4) % 7
  }

  lemma FloorDivStep4(n: int)
    ensures (n + 1) / 4 == n / 4 + (if (n + 1) % 4 == 0 then 1 else 0)
  {
  }

  lemma FloorDivStep100(n: int)
    ensures (n + 1) / 100 == n / 100 + (if (n + 1) % 100 == 0 then 1 else 0)
  {
  }

  lemma FloorDivStep400(n: int)
    ensures (n + 1) / 400 == n / 400 + (if (n + 1) % 400 == 0 then 1 else 0)
  {
  }

  /** Consecutive New Year's days lie exactly one year-length apart. */
  lemma DayFromYearStep(y: int)
    ensures DayFromYear(y + 1) == DayFromYear(y) + DaysInYear(y)
  {
    LeapStep4(y);
    LeapStep100(y);
    LeapStep400(y);
    DivisorChain(y);
  }

  /** Multiples of 400 are multiples of 100, which are multiples of 4. */
  lemma DivisorChain(y: int)
    ensures y % 400 == 0 ==> y % 100 == 0
    ensures y % 100 == 0 ==> y % 4 == 0
  {
    if y % 400 == 0 {
      MultipleOf100(y, 4 * (y / 400));
    }
    if y % 100 == 0 {
      MultipleOf4(y, 25 * (y / 100));
    }
  }

  lemma MultipleOf100(y: int, q: int)
    requires y == 100 * q
    ensures y % 100 == 0
  {
  }

  lemma MultipleOf4(y: int, q: int)
    requires y == 4 * q
    ensures y % 4 == 0
  {
  }

  /** Each term of the leap-day count grows by one exactly at its multiples. */
  lemma LeapStep4(y: int)
    ensures (y - 1968) / 4 == (y - 1969) / 4 + (if y % 4 == 0 then 1 else 0)
  {
    FloorDivStep4(y - 1969);
    Shift4(y);
  }

  lemma LeapStep100(y: int)
    ensures (y - 1900) / 100 == (y - 1901) / 100 + (if y % 100 == 0 then 1 else 0)
  {
    FloorDivStep100(y - 1901);
    Shift100(y);
  }

  lemma LeapStep400(y: int)
    ensures (y - 1600) / 400 == (y - 1601) / 400 + (if y % 400 == 0 then 1 else 0)
  {
    FloorDivStep400(y - 1601);
    Shift400(y);
  }

  lemma Shift4(y: int)
    ensures (y - 1968) % 4 == y % 4
  {
  }

  lemma Shift100(y: int)
    ensures (y - 1900) % 100 == y % 100
  {
  }

  lemma Shift400(y: int)
    ensures (y - 1600) % 400 == y % 400
  {
  }

  /** The twelve month lengths add up to the year's length. */
  lemma MonthsFillYear(y: int)
    ensures DaysBeforeMonth(y, 13) == DaysInYear(y)
  {
    DaysBeforeMonthTable(y, 12);
  }

  /** Reference count of New Year's days: one year-length at a time from 1970. */
  function YearSum(y: int): int
    decreases if y >= 1970 then y - 1970 else 1970 - y
  {
    if y == 1970 then 0
    else if y > 1970 then YearSum(y - 1) + DaysInYear(y - 1)
    else YearSum(y + 1) - DaysInYear(y)
  }

  /** The closed form of DayFromYear agrees with counting year by year, in both directions from 1970. */
  lemma {:induction false} DayFromYearIsYearSum(y: int)
    ensures DayFromYear(y) == YearSum(y)
    decreases if y >= 1970 then y - 1970 else 1970 - y
  {
    if y > 1970 {
      DayFromYearIsYearSum(y - 1);
      DayFromYearStep(y - 1);
    } else if y < 1970 {
      DayFromYearIsYearSum(y + 1);
      DayFromYearStep(y);
    }
  }

  /** A displayed month: `month` runs 1..12. */
  datatype YearMonth = YearMonth(year: int, month: int) {
    predicate Valid() {
      1 <= month <= 12
    }
  }

  /** Months counted from January of year 0; consecutive months have consecutive indices. */
  function MonthIndex(ym: YearMonth): int {
    12 * ym.year + ym.month - 1
  }

  /**
   * MakeDay's month normalisation: the 0-based month `m0` of year `y` may be
   * any integer and is carried into the year with floor division.
   */
  function Normalize(y: int, m0: int): (r: YearMonth)
    ensures r.Valid()
    ensures MonthIndex(r) == 12 * y + m0
  {
    YearMonth(y + m0 / 12, m0 % 12 + 1)
  }

  lemma MonthIndexInjective(a: YearMonth, b: YearMonth)
    requires a.Valid() && b.Valid()
    requires MonthIndex(a) == MonthIndex(b)
    ensures a == b
  {
  }

  /** The month after `ym`: the month `setMonth(getMonth() + 1)` targets, before the kept day is added. */
  function NextMonth(ym: YearMonth): (r: YearMonth)
    requires ym.Valid()
    ensures r.Valid()
    ensures MonthIndex(r) == MonthIndex(ym) + 1
  {
    Normalize(ym.year, ym.month)
  }

  /** The month before `ym`: the month `setMonth(getMonth() - 1)` targets, before the kept day is added. */
  function PrevMonth(ym: YearMonth): (r: YearMonth)
    requires ym.Valid()
    ensures r.Valid()
    ensures MonthIndex(r) == MonthIndex(ym) - 1
  {
    Normalize(ym.year, ym.month - 2)
  }

  /** December rolls over to January of the next year and January back to December of the previous one. */
  lemma NextPrevRollover(ym: YearMonth)
    requires ym.Valid()
    ensures NextMonth(ym) == (if ym.month == 12 then YearMonth(ym.year + 1, 1) else YearMonth(ym.year, ym.month + 1))
    ensures PrevMonth(ym) == (if ym.month == 1 then YearMonth(ym.year - 1, 12) else YearMonth(ym.year, ym.month - 1))
  {
    var n := NextMonth(ym);
    var p := PrevMonth(ym);
    MonthIndexInjective(n, if ym.month == 12 then YearMonth(ym.year + 1, 1) else YearMonth(ym.year, ym.month + 1));
    MonthIndexInjective(p, if ym.month == 1 then YearMonth(ym.year - 1, 12) else YearMonth(ym.year, ym.month - 1));
  }

  /** Month-level previous and next undo each other. */
  lemma PrevNextInverse(ym: YearMonth)
    requires ym.Valid()
    ensures PrevMonth(NextMonth(ym)) == ym
    ensures NextMonth(PrevMonth(ym)) == ym
  {
    MonthIndexInjective(PrevMonth(NextMonth(ym)), ym);
    MonthIndexInjective(NextMonth(PrevMonth(ym)), ym);
  }

  predicate ValidDate(y: int, m: int, d: int) {
    1 <= m <= 12 && 1 <= d <= DaysInMonth(y, m)
  }

  /** The first of the following month comes exactly one month-length after the first of this one. */
  lemma FirstOfNextMonth(ym: YearMonth)
    requires ym.Valid()
    ensures DayNumber(NextMonth(ym).year, NextMonth(ym).month, 1)
         == DayNumber(ym.year, ym.month, 1) + DaysInMonth(ym.year, ym.month)
  {
    NextPrevRollover(ym);
    if ym.month == 12 {
      DayFromYearStep(ym.year);
      MonthsFillYear(ym.year);
    }
  }

  /**
   * `new Date(year, month + 1, 0)` is day 0 of the following month, which is
   * the last valid date of this month, so its `getDate()` is DaysInMonth.
   */
  lemma LastDayOfMonth(ym: YearMonth)
    requires ym.Valid()
    ensures ValidDate(ym.year, ym.month, DaysInMonth(ym.year, ym.month))
    ensures DayNumber(NextMonth(ym).year, NextMonth(ym).month, 0)
         == DayNumber(ym.year, ym.month, DaysInMonth(ym.year, ym.month))
  {
    FirstOfNextMonth(ym);
  }

  /** The weekday of the first of next month is this month's advanced by its length. */
  lemma WeekDayOfNextMonth(ym: YearMonth)
    requires ym.Valid()
    ensures WeekDay(NextMonth(ym).year, NextMonth(ym).month, 1)
         == (WeekDay(ym.year, ym.month, 1) + DaysInMonth(ym.year, ym.month)) % 7
  {
    FirstOfNextMonth(ym);
    var a := DayNumber(ym.year, ym.month, 1) + 4;
    ModSeven(a, DaysInMonth(ym.year, ym.month));
  }

  lemma ModSeven(x: int, n: int)
    ensures (x % 7 + n) % 7 == (x + n) % 7
  {
    assert x == 7 * (x / 7) + x % 7;
  }

  /** Day-of-year offsets of the first of each month in a common year. */
  function CommonDaysBefore(m: int): int
    requires 1 <= m <= 12
  {
    [0, 31, 59, 90, 120, 151, 181, 212, 243, 273, 304, 334][m - 1]
  }

  lemma DaysBeforeMonthTable(y: int, m: int)
    requires 1 <= m <= 12
    ensures DaysBeforeMonth(y, m) == CommonDaysBefore(m) + (if m >= 3 && IsLeapYear(y) then 1 else 0)
  {
    var feb := DaysInMonth(y, 2);
    assert DaysBeforeMonth(y, 3) == 31 + feb;
    assert DaysBeforeMonth(y, 5) == 31 + feb + 61;
    assert DaysBeforeMonth(y, 7) == 31 + feb + 122;
    assert DaysBeforeMonth(y, 9) == 31 + feb + 184;
    assert DaysBeforeMonth(y, 11) == 31 + feb + 245;
  }

  /** Leap days from year 1 through year `x` (floor division). */
  function LeapCount(x: int): int {
    x / 4 - x / 100 + x / 400
  }

  /** Sakamoto's month offsets: the weekday shift of the first of each month. */
  function SakamotoOffset(m: int): int
    requires 1 <= m <= 12
  {
    [0, 3, 2, 5, 0, 3, 5, 1, 4, 6, 2, 4][m - 1]
  }

  /** Sakamoto's weekday formula: an independent way to compute `getDay()`. */
  function SakamotoWeekDay(y: int, m: int, d: int): (w: int)
    requires 1 <= m <= 12
    ensures 0 <= w < 7
  {
    var z := if m < 3 then y - 1 else y;
    (z + LeapCount(z) + SakamotoOffset(m) + d) % 7
  }

  lemma DayFromYearByLeapCount(y: int)
    ensures DayFromYear(y) == 365 * y + LeapCount(y - 1) - 719527
  {
    DivShift4(y - 1);
    DivShift100(y - 1);
    DivShift400(y - 1);
  }

  lemma DivShift4(x: int)
    ensures (x - 1968) / 4 == x / 4 - 492
  {
  }

  lemma DivShift100(x: int)
    ensures (x - 1900) / 100 == x / 100 - 19
  {
  }

  lemma DivShift400(x: int)
    ensures (x - 1600) / 400 == x / 400 - 4
  {
  }

  lemma LeapCountStep(y: int)
    ensures LeapCount(y) == LeapCount(y - 1) + (if IsLeapYear(y) then 1 else 0)
  {
    FloorDivStep4(y - 1);
    FloorDivStep100(y - 1);
    FloorDivStep400(y - 1);
  }

  lemma ModShiftSeven(a: int, k: int)
    ensures (a + 7 * k) % 7 == a % 7
  {
    assert a == 7 * (a / 7) + a % 7;
    assert a + 7 * k == 7 * (a / 7 + k) + a % 7;
  }

  /** Whole weeks in the days before each month of a common year, net of Sakamoto's offset. */
  function SakamotoWeeks(m: int): int
    requires 1 <= m <= 12
  {
    [0, 4, 8, 12, 17, 21, 25, 30, 34, 38, 43, 47][m - 1]
  }

  /**
   * Sakamoto's offsets are the common-year month starts modulo 7, shifted by
   * one from March on (the formula counts the current year's leap day there).
   */
  lemma SakamotoTable(m: int)
    requires 1 <= m <= 12
    ensures CommonDaysBefore(m) == SakamotoOffset(m) + 7 * SakamotoWeeks(m) + (if m >= 3 then 1 else 0)
  {
  }

  /** The day count plus Thursday's offset, split into Sakamoto's sum and whole weeks. */
  lemma SakamotoSplit(y: int, m: int, d: int)
    requires 1 <= m <= 12
    ensures var z := if m < 3 then y - 1 else y;
      DayNumber(y, m, d) + 4 == z + LeapCount(z) + SakamotoOffset(m) + d + 7 * (52 * y - 102789 + SakamotoWeeks(m))
  {
    DayFromYearByLeapCount(y);
    DaysBeforeMonthTable(y, m);
    SakamotoTable(m);
    LeapCountStep(y);
  }

  /** Sakamoto's formula and ECMA-262's day count give the same weekday for every date. */
  lemma SakamotoAgrees(y: int, m: int, d: int)
    requires 1 <= m <= 12
    ensures SakamotoWeekDay(y, m, d) == WeekDay(y, m, d)
  {
    var z := if m < 3 then y - 1 else y;
    SakamotoSplit(y, m, d);
    ModShiftSeven(z + LeapCount(z) + SakamotoOffset(m) + d, 52 * y - 102789 + SakamotoWeeks(m));
  }

  /** February 2024 has 29 days and starts on a Thursday. */
  lemma February2024()
    ensures DaysInMonth(2024, 2) == 29
    ensures WeekDay(2024, 2, 1) == 4
  {
    DayFromYearByLeapCount(2024);
  }

  lemma {:induction false} DaysBeforeMonthMonotone(y: int, m: int, m': int)
    requires 1 <= m <= m' <= 13
    ensures DaysBeforeMonth(y, m) <= DaysBeforeMonth(y, m')
    decreases m' - m
  {
    if m < m' {
      DaysBeforeMonthMonotone(y, m, m' - 1);
    }
  }

  /** A valid date of year `y` falls between that New Year's day and the next. */
  lemma DayWithinYear(y: int, m: int, d: int)
    requires ValidDate(y, m, d)
    ensures DayFromYear(y) <= DayNumber(y, m, d) < DayFromYear(y + 1)
  {
    DaysBeforeMonthMonotone(y, m + 1, 13);
    MonthsFillYear(y);
    DayFromYearStep(y);
  }

  lemma {:induction false} DayFromYearMonotone(y: int, y': int)
    requires y < y'
    ensures DayFromYear(y + 1) <= DayFromYear(y')
    decreases y' - y
  {
    if y + 1 < y' {
      DayFromYearMonotone(y, y' - 1);
      DayFromYearStep(y' - 1);
    }
  }

  /**
   * Distinct valid dates have distinct day numbers, so the date fields that
   * `getFullYear`, `getMonth` and `getDate` read back from a day are unique.
   */
  lemma DayNumberInjective(y: int, m: int, d: int, y': int, m': int, d': int)
    requires ValidDate(y, m, d) && ValidDate(y', m', d')
    requires DayNumber(y, m, d) == DayNumber(y', m', d')
    ensures y == y' && m == m' && d == d'
  {
    if y < y' {
      EarlierYearEarlierDay(y, m, d, y', m', d');
    } else if y' < y {
      EarlierYearEarlierDay(y', m', d', y, m, d);
    } else if m < m' {
      EarlierMonthEarlierDay(y, m, d, m', d');
    } else if m' < m {
      EarlierMonthEarlierDay(y, m', d', m, d);
    }
  }

  lemma EarlierYearEarlierDay(y: int, m: int, d: int, y': int, m': int, d': int)
    requires ValidDate(y, m, d) && ValidDate(y', m', d') && y < y'
    ensures DayNumber(y, m, d) < DayNumber(y', m', d')
  {
    DayWithinYear(y, m, d);
    DayWithinYear(y', m', d');
    DayFromYearMonotone(y, y');
  }

  lemma EarlierMonthEarlierDay(y: int, m: int, d: int, m': int, d': int)
    requires ValidDate(y, m, d) && ValidDate(y, m', d') && m < m'
    ensures DayNumber(y, m, d) < DayNumber(y, m', d')
  {
    DaysBeforeMonthMonotone(y, m + 1, m');
  }
}

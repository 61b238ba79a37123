/**
 The proleptic Gregorian calendar, as JavaScript's Date object implements it:
 leap years, month lengths, calendar validity, chronological order and a day
 number standing in for Date.prototype.getTime().
 */
module Dates {

  /** A date as the component reads it from "DD.MM.YYYY": day, 1-based month, year. */
  datatype Date = Date(day: int, month: int, year: int)

  /** Leap year: divisible by 4 and not by 100, or divisible by 400. */
  predicate IsLeapYear(y: int) {
    (y % 4 == 0 && y % 100 != 0) || y % 400 == 0
  }

  function DaysInMonth(m: int, y: int): int
    requires 1 <= m <= 12
  {
    if m == 2 then (if IsLeapYear(y) then 29 else 28)
    else if m == 4 || m == 6 || m == 9 || m == 11 then 30
    else 31
  }

  function DaysInYear(y: int): int {
    if IsLeapYear(y) then 366 else 365
  }

  /** A real day of the calendar: month 1..12, day 1..length of that month. */
  predicate IsCalendarDate(d: Date) {
    && 1 <= d.month <= 12
    && 1 <= d.day <= DaysInMonth(d.month, d.year)
  }

  /** Strict chronological order as a lexicographic order on (year, month, day). */
  predicate Before(a: Date, b: Date) {
    || a.year < b.year
    || (a.year == b.year && a.month < b.month)
    || (a.year == b.year && a.month == b.month && a.day < b.day)
  }

  lemma BeforeIsStrictTotalOrder(a: Date, b: Date, c: Date)
    ensures !Before(a, a)
    ensures Before(a, b) ==> !Before(b, a)
    ensures Before(a, b) && Before(b, c) ==> Before(a, c)
    ensures a != b ==> Before(a, b) || Before(b, a)
  {
  }

  /** Days in the months of year y that precede month m. */
  function DaysBeforeMonth(m: int, y: int): (n: int)
    requires 1 <= m <= 12
    ensures 0 <= n
    ensures n + DaysInMonth(m, y) <= DaysInYear(y)
  {
    var cumulative := [0, 31, 59, 90, 120, 151, 181, 212, 243, 273, 304, 334];
    cumulative[m - 1] + (if m > 2 && IsLeapYear(y) then 1 else 0)
  }

  /** Each month starts right after the previous one ends. */
  lemma DaysBeforeNextMonth(m: int, y: int)
    requires 1 <= m < 12
    ensures DaysBeforeMonth(m + 1, y) == DaysBeforeMonth(m, y) + DaysInMonth(m, y)
  {
  }

  /** Days in the years 1 .. y-1. */
  function DaysBeforeYear(y: int): (n: nat)
    requires 1 <= y
    decreases y
  {
    if y == 1 then 0 else DaysBeforeYear(y - 1) + DaysInYear(y - 1)
  }

  /** Day number of a calendar date: 1 for 1 January of year 1; a proxy for getTime(). */
  function DayNumber(d: Date): int
    requires IsCalendarDate(d) && 1 <= d.year
  {
    DaysBeforeYear(d.year) + DaysBeforeMonth(d.month, d.year) + d.day
  }

  lemma {:induction false} DaysBeforeYearGrows(y1: int, y2: int)
    requires 1 <= y1 < y2
    ensures DaysBeforeYear(y1) + DaysInYear(y1) <= DaysBeforeYear(y2)
    decreases y2 - y1
  {
    if y1 + 1 < y2 {
      DaysBeforeYearGrows(y1 + 1, y2);
    }
  }

  lemma {:induction false} DaysBeforeMonthGrows(m1: int, m2: int, y: int)
    requires 1 <= m1 < m2 <= 12
    ensures DaysBeforeMonth(m1, y) + DaysInMonth(m1, y) <= DaysBeforeMonth(m2, y)
    decreases m2 - m1
  {
    DaysBeforeNextMonth(m1, y);
    if m1 + 1 < m2 {
      DaysBeforeMonthGrows(m1 + 1, m2, y);
    }
  }

  /** The day number orders calendar dates exactly as the lexicographic order does. */
  lemma DayNumberOrder(a: Date, b: Date)
    requires IsCalendarDate(a) && 1 <= a.year
    requires IsCalendarDate(b) && 1 <= b.year
    ensures DayNumber(a) < DayNumber(b) <==> Before(a, b)
    ensures DayNumber(a) == DayNumber(b) <==> a == b
  {
    BeforeLowersDayNumber(a, b);
    BeforeLowersDayNumber(b, a);
    BeforeIsStrictTotalOrder(a, b, b);
  }

  lemma BeforeLowersDayNumber(a: Date, b: Date)
    requires IsCalendarDate(a) && 1 <= a.year
    requires IsCalendarDate(b) && 1 <= b.year
    ensures Before(a, b) ==> DayNumber(a) < DayNumber(b)
  {
    if a.year < b.year {
      DaysBeforeYearGrows(a.year, b.year);
    } else if a.year == b.year && a.month < b.month {
      DaysBeforeMonthGrows(a.month, b.month, a.year);
    }
  }
}

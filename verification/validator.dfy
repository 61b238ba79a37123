/**
 The component's date check: the shape test followed by isValidDate, which
 builds `new Date(year, month - 1, day)` and asks for the same year, month and
 day back. The Date constructor is modelled by its day arithmetic: two-digit
 years read as 19xx, month overflow carried into the year, day overflow
 carried into the following months.
 */
module Validator {
  import opened Dates
  import opened DateText

  /** The Date constructor reads a year argument of 0..99 as 1900..1999. */
  function JsYear(y: int): (r: int)
    ensures r == y <==> !(0 <= y <= 99)
    ensures 0 <= y <= 99 ==> 1900 <= r <= 1999
  {
    if 0 <= y <= 99 then 1900 + y else y
  }

  /** Day 1 of month m of year y, advanced by d - 1 days. */
  function RollDays(y: int, m: int, d: int): (r: Date)
    requires 1 <= m <= 12 && 1 <= d
    ensures IsCalendarDate(r) && y <= r.year
    ensures d <= DaysInMonth(m, y) ==> r == Date(d, m, y)
    ensures d > DaysInMonth(m, y) ==> r.day < d
    decreases d
  {
    var n := DaysInMonth(m, y);
    if d <= n then Date(d, m, y)
    else if m == 12 then RollDays(y + 1, 1, d - n)
    else RollDays(y, m + 1, d - n)
  }

  lemma DaysInYearSplit(y: int)
    ensures DaysInYear(y) == DaysBeforeMonth(12, y) + DaysInMonth(12, y)
  {
  }

  /** Rolling over lands exactly d - 1 days after the first of the month. */
  lemma {:induction false} RollDaysCounts(y: int, m: int, d: int)
    requires 1 <= m <= 12 && 1 <= d && 1 <= y
    ensures DayNumber(RollDays(y, m, d)) == DayNumber(Date(1, m, y)) + d - 1
    decreases d
  {
    var n := DaysInMonth(m, y);
    if d > n {
      if m == 12 {
        RollDaysCounts(y + 1, 1, d - n);
        DaysInYearSplit(y);
      } else {
        RollDaysCounts(y, m + 1, d - n);
        DaysBeforeNextMonth(m, y);
      }
    }
  }

  /** `new Date(year, monthIndex, day)` for a non-negative month index and a positive day, read back in local time. */
  function NewDate(year: int, monthIndex: int, day: int): (r: Date)
    requires 0 <= monthIndex && 1 <= day
    ensures IsCalendarDate(r)
    ensures 1 <= year ==> 1 <= r.year
  {
    RollDays(JsYear(year) + monthIndex / 12, monthIndex % 12 + 1, day)
  }

  /** isValidDate, for the strings it is called on: those that passed the shape test (see MatchesPatternIff). */
  function IsValidDate(s: string): bool
    requires HasDateShape(s)
  {
    var f := Fields(s);
    if f.day == 0 || f.month == 0 || f.year == 0 then false
    else
      var date := NewDate(f.year, f.month - 1, f.day);
      date.year == f.year && date.month - 1 == f.month - 1 && date.day == f.day
  }

  /** A date string the form accepts: it passes the shape test and isValidDate. */
  predicate IsAcceptedDate(s: string) {
    HasDateShape(s) && IsValidDate(s)
  }

  /** The round trip through Date succeeds exactly for calendar dates from year 100 on. */
  lemma NewDateRoundTrip(d: Date)
    requires 1 <= d.day && 1 <= d.month && 1 <= d.year
    ensures NewDate(d.year, d.month - 1, d.day) == d <==> IsCalendarDate(d) && 100 <= d.year
  {
    var mi := d.month - 1;
    var y := JsYear(d.year) + mi / 12;
    var m := mi % 12 + 1;
    var r := NewDate(d.year, mi, d.day);
    if r == d {
      assert d.day <= DaysInMonth(m, y);
      assert m == d.month;
      assert mi < 12;
      assert y == JsYear(d.year);
    }
  }

  /** isValidDate holds of a pattern string iff its fields form a calendar date with a year of at least 100. */
  lemma IsValidDateIff(s: string)
    requires HasDateShape(s)
    ensures IsValidDate(s) <==> IsCalendarDate(Fields(s)) && 100 <= Fields(s).year
  {
    var f := Fields(s);
    if f.day != 0 && f.month != 0 && f.year != 0 {
      NewDateRoundTrip(f);
    }
  }

  /** A zero day, month or year is refused before any Date is built. */
  lemma ZeroFieldRejected(s: string)
    requires HasDateShape(s)
    requires Fields(s).day == 0 || Fields(s).month == 0 || Fields(s).year == 0
    ensures !IsValidDate(s)
  {
  }

  /** The verdict on the text of a bounded date, stated through its fields. */
  lemma FormattedVerdict(d: Date, s: string)
    requires 0 <= d.day < 100 && 0 <= d.month < 100 && 0 <= d.year < 10000
    requires Format(d) == s
    ensures HasDateShape(s)
    ensures IsValidDate(s) <==> IsCalendarDate(d) && 100 <= d.year
  {
    FieldsFormat(d);
    IsValidDateIff(s);
  }

  lemma DigitCharExamples()
    ensures DigitChar(0) == '0' && DigitChar(1) == '1' && DigitChar(2) == '2' && DigitChar(3) == '3'
    ensures DigitChar(4) == '4' && DigitChar(9) == '9'
  {
  }

  lemma PaddedExamples()
    ensures PadDigits(1, 2) == "01" && PadDigits(2, 2) == "02" && PadDigits(4, 2) == "04"
    ensures PadDigits(29, 2) == "29" && PadDigits(31, 2) == "31"
  {
    DigitCharExamples();
  }

  lemma FormatLeapDay()
    ensures Format(Date(29, 2, 2024)) == "29.02.2024"
  {
    PaddedExamples();
    DigitCharExamples();
    assert PadDigits(2024, 4) == "2024";
  }

  lemma LeapDayAccepted()
    ensures MatchesPattern("29.02.2024") && IsValidDate("29.02.2024")
  {
    var s := "29.02.2024";
    MatchesPatternIff(s);
    FormatLeapDay();
    FormattedVerdict(Date(29, 2, 2024), s);
  }

  lemma FormatNonLeapDay()
    ensures Format(Date(29, 2, 2023)) == "29.02.2023"
  {
    PaddedExamples();
    DigitCharExamples();
    assert PadDigits(2023, 4) == "2023";
  }

  lemma NonLeapDayRejected()
    ensures MatchesPattern("29.02.2023") && !IsValidDate("29.02.2023")
  {
    var s := "29.02.2023";
    MatchesPatternIff(s);
    FormatNonLeapDay();
    assert !IsCalendarDate(Date(29, 2, 2023));
    FormattedVerdict(Date(29, 2, 2023), s);
  }

  lemma FormatAprilThirtyFirst()
    ensures Format(Date(31, 4, 2024)) == "31.04.2024"
  {
    PaddedExamples();
    DigitCharExamples();
    assert PadDigits(2024, 4) == "2024";
  }

  /** April has 30 days: the constructor rolls 31 April 2024 over to 1 May. */
  lemma AprilRollsOver()
    ensures NewDate(2024, 3, 31) == Date(1, 5, 2024)
  {
  }

  lemma ThirtyFirstOfAprilRejected()
    ensures MatchesPattern("31.04.2024") && !IsValidDate("31.04.2024")
  {
    var s := "31.04.2024";
    MatchesPatternIff(s);
    FormatAprilThirtyFirst();
    assert !IsCalendarDate(Date(31, 4, 2024));
    FormattedVerdict(Date(31, 4, 2024), s);
  }

  lemma FormatTwoDigitYear()
    ensures Format(Date(1, 1, 99)) == "01.01.0099"
  {
    PaddedExamples();
    DigitCharExamples();
    assert PadDigits(99, 4) == "0099";
  }

  /** A year argument of 99 comes back as 1999. */
  lemma TwoDigitYearShifts()
    ensures NewDate(99, 0, 1) == Date(1, 1, 1999)
  {
  }

  /** Years 1..99 come back as 1901..1999, so the round trip refuses them. */
  lemma TwoDigitYearRejected()
    ensures MatchesPattern("01.01.0099") && !IsValidDate("01.01.0099")
  {
    var s := "01.01.0099";
    MatchesPatternIff(s);
    FormatTwoDigitYear();
    FormattedVerdict(Date(1, 1, 99), s);
  }

  /** "1.1.2000" could be read as a date but fails the shape test. */
  lemma MissingLeadingZerosRejected()
    ensures !MatchesPattern("1.1.2000")
  {
    MatchesPatternIff("1.1.2000");
  }
}

/**
 * The part of Go's time package the core relies on: proleptic Gregorian
 * dates, the length of each month, a day ordinal that turns dates into a
 * count of days, the wall-clock view of a time.Time, and Format(time.DateOnly).
 */
module Calendar {
  import opened Text

  datatype Date = Date(year: int, month: int, day: int)

  /** Leap year: divisible by 4, except centuries not divisible by 400. */
  predicate IsLeap(y: int) {
    y % 4 == 0 && (y % 100 != 0 || y % 400 == 0)
  }

  /** The time package's daysIn. */
  function DaysIn(m: int, y: int): (n: int)
    requires 1 <= m <= 12
    ensures 28 <= n <= 31
    ensures m == 2 ==> (n == 29 <==> IsLeap(y))
  {
    if m == 2 then (if IsLeap(y) then 29 else 28)
    else if m == 4 || m == 6 || m == 9 || m == 11 then 30
    else 31
  }

  predicate Valid(d: Date) {
    1 <= d.month <= 12 && 1 <= d.day <= DaysIn(d.month, d.year)
  }

  /** A date that exists in the Gregorian calendar, as every time.Time holds. */
  type CalendarDate = d: Date | Valid(d) witness Date(1970, 1, 1)

  /** Days from 0000-01-01 to January 1 of year y (negative before year 0). */
  function DaysBeforeYear(y: int): int {
    365 * y + (y + 3) / 4 - (y + 99) / 100 + (y + 399) / 400
  }

  /** Days from January 1 to the first of month m. */
  function DaysBeforeMonth(m: int, y: int): int
    requires 1 <= m <= 12
  {
    [0, 31, 59, 90, 120, 151, 181, 212, 243, 273, 304, 334][m - 1]
      + (if m > 2 && IsLeap(y) then 1 else 0)
  }

  /** The day ordinal: 0000-01-01 is day 0, and consecutive dates are consecutive numbers. */
  function Ord(d: CalendarDate): int {
    DaysBeforeYear(d.year) + DaysBeforeMonth(d.month, d.year) + d.day - 1
  }

  /** The calendar day after d. */
  function Next(d: CalendarDate): CalendarDate {
    if d.day < DaysIn(d.month, d.year) then Date(d.year, d.month, d.day + 1)
    else if d.month < 12 then Date(d.year, d.month + 1, 1)
    else Date(d.year + 1, 1, 1)
  }

  /** Calendar order: by year, then month, then day. */
  predicate Before(a: Date, b: Date) {
    a.year < b.year
    || (a.year == b.year && (a.month < b.month || (a.month == b.month && a.day < b.day)))
  }

  lemma YearLength(y: int)
    ensures DaysBeforeYear(y + 1) - DaysBeforeYear(y) == if IsLeap(y) then 366 else 365
  {
    StepOf4(y);
    StepOf100(y);
    StepOf400(y);
    Centuries(y);
  }

  /** Each term of DaysBeforeYear grows by one exactly at a multiple of its divisor. */
  lemma StepOf4(y: int)
    ensures (y + 4) / 4 - (y + 3) / 4 == if y % 4 == 0 then 1 else 0
  {
  }

  lemma StepOf100(y: int)
    ensures (y + 100) / 100 - (y + 99) / 100 == if y % 100 == 0 then 1 else 0
  {
  }

  lemma StepOf400(y: int)
    ensures (y + 400) / 400 - (y + 399) / 400 == if y % 400 == 0 then 1 else 0
  {
  }

  lemma Centuries(y: int)
    ensures y % 100 == 0 ==> y % 4 == 0
    ensures y % 400 == 0 ==> y % 100 == 0
  {
    if y % 100 == 0 {
      assert y == 4 * (25 * (y / 100));
    }
    if y % 400 == 0 {
      assert y == 100 * (4 * (y / 400));
    }
  }

  lemma MonthLength(m: int, y: int)
    requires 1 <= m <= 12
    ensures m < 12 ==> DaysBeforeMonth(m + 1, y) == DaysBeforeMonth(m, y) + DaysIn(m, y)
    ensures m == 12 ==> DaysBeforeMonth(m, y) + DaysIn(m, y) == DaysBeforeYear(y + 1) - DaysBeforeYear(y)
  {
    YearLength(y);
  }

  /** Ord counts days: the next calendar day is exactly one more. */
  lemma OrdNext(d: CalendarDate)
    ensures Ord(Next(d)) == Ord(d) + 1
  {
    MonthLength(d.month, d.year);
  }

  /** Every date of year y lies between the first days of years y and y + 1. */
  lemma OrdWithinYear(d: CalendarDate)
    ensures DaysBeforeYear(d.year) <= Ord(d) < DaysBeforeYear(d.year + 1)
  {
    MonthLength(12, d.year);
    MonthsBefore(d.month, 12, d.year);
  }

  lemma {:induction false} MonthsBefore(m: int, n: int, y: int)
    requires 1 <= m <= n <= 12
    ensures DaysBeforeMonth(m, y) + DaysIn(m, y) <= DaysBeforeMonth(n, y) + DaysIn(n, y)
    ensures m < n ==> DaysBeforeMonth(m, y) + DaysIn(m, y) <= DaysBeforeMonth(n, y)
    decreases n - m
  {
    if m < n {
      MonthLength(m, y);
      MonthsBefore(m + 1, n, y);
    }
  }

  lemma {:induction false} YearsBefore(x: int, y: int)
    requires x <= y
    ensures DaysBeforeYear(x) <= DaysBeforeYear(y)
    decreases y - x
  {
    if x < y {
      YearLength(x);
      YearsBefore(x + 1, y);
    }
  }

  /** Ord is strictly monotone in calendar order, so it is also one-to-one. */
  lemma OrdOrder(a: CalendarDate, b: CalendarDate)
    ensures Before(a, b) <==> Ord(a) < Ord(b)
    ensures a == b <==> Ord(a) == Ord(b)
  {
    if Before(a, b) {
      OrdBefore(a, b);
    } else if Before(b, a) {
      OrdBefore(b, a);
    } else {
      assert a == b;
    }
  }

  lemma OrdBefore(a: CalendarDate, b: CalendarDate)
    requires Before(a, b)
    ensures Ord(a) < Ord(b)
  {
    if a.year < b.year {
      OrdWithinYear(a);
      OrdWithinYear(b);
      YearsBefore(a.year + 1, b.year);
    } else if a.month < b.month {
      MonthsBefore(a.month, b.month, a.year);
    }
  }

  /**
   * The wall-clock reading of a time.Time: its date and clock in its own
   * location, and that location's offset east of UTC in seconds.
   */
  datatype Time = Time(date: CalendarDate, hour: int, minute: int, second: int, offset: int)

  /** time.Date(y, m, d, 0, 0, 0, 0, time.UTC) */
  function Midnight(d: CalendarDate): Time {
    Time(d, 0, 0, 0, 0)
  }

  /** t.Format(time.DateOnly): the wall-clock date as YYYY-MM-DD. */
  function FormatDateOnly(t: Time): string {
    PadInt(t.date.year, 4) + "-" + PadInt(t.date.month, 2) + "-" + PadInt(t.date.day, 2)
  }
}

/**
 * The day counter: whole days between the calendar dates of two times, as
 * the difference of their midnights in UTC, measured by time.Time.Sub
 * (a time.Duration, which saturates) and converted to days by truncation.
 */
module Compute {
  import opened Calendar

  const NanosPerSecond: int := 1_000_000_000
  const NanosPerDay: int := 86_400 * NanosPerSecond

  /** The range of time.Duration, an int64 count of nanoseconds. */
  const MinDuration: int := -0x8000_0000_0000_0000
  const MaxDuration: int := 0x7FFF_FFFF_FFFF_FFFF

  /** The most whole days a time.Duration can hold (about 292 years). */
  const MaxDays: int := 106_751

  /** Seconds since 0000-01-01 00:00:00 UTC of the instant a wall-clock reading names. */
  function Instant(t: Time): int {
    Ord(t.date) * 86_400 + t.hour * 3_600 + t.minute * 60 + t.second - t.offset
  }

  /** A nanosecond count clamped to the range of time.Duration. */
  function Saturate(ns: int): int {
    if ns > MaxDuration then MaxDuration else if ns < MinDuration then MinDuration else ns
  }

  /** t.Sub(u): the elapsed time from u to t, saturating at the ends of time.Duration. */
  function Sub(t: Time, u: Time): (d: int)
    ensures MinDuration <= d <= MaxDuration
    ensures MinDuration <= (Instant(t) - Instant(u)) * NanosPerSecond <= MaxDuration ==>
      d == (Instant(t) - Instant(u)) * NanosPerSecond
    ensures (Instant(t) - Instant(u)) * NanosPerSecond > MaxDuration ==> d == MaxDuration
    ensures (Instant(t) - Instant(u)) * NanosPerSecond < MinDuration ==> d == MinDuration
  {
    Saturate((Instant(t) - Instant(u)) * NanosPerSecond)
  }

  /** int(d.Hours() / 24): the whole days in a duration, truncated toward zero. */
  function WholeDays(d: int): int {
    if d >= 0 then d / NanosPerDay else -((-d) / NanosPerDay)
  }

  /** The number of days from the date of `from` to the date of `to`, without a bound. */
  function DayDifference(from: Time, to: Time): int {
    Ord(to.date) - Ord(from.date)
  }

  /**
   * compute.DaysBetween: the days from the date of `from` to the date of
   * `to`, each read in its own location, and negative when `to` is earlier.
   * Dates more than MaxDays apart give ±MaxDays, since the difference of the
   * two midnights saturates as a time.Duration.
   */
  function DaysBetween(from: Time, to: Time): (r: int)
    ensures -MaxDays <= DayDifference(from, to) <= MaxDays ==> r == DayDifference(from, to)
    ensures DayDifference(from, to) > MaxDays ==> r == MaxDays
    ensures DayDifference(from, to) < -MaxDays ==> r == -MaxDays
  {
    var f := Midnight(from.date);
    var t := Midnight(to.date);
    SubOfMidnights(f, t);
    WholeDays(Sub(t, f))
  }

  /** The difference of two midnights is a whole number of days, saturated. */
  lemma SubOfMidnights(f: Time, t: Time)
    requires f == Midnight(f.date) && t == Midnight(t.date)
    ensures var n := Ord(t.date) - Ord(f.date);
      WholeDays(Sub(t, f)) == if n > MaxDays then MaxDays else if n < -MaxDays then -MaxDays else n
  {
    var n := Ord(t.date) - Ord(f.date);
    var d := Instant(t) - Instant(f);
    assert d == n * 86_400;
    assert d * NanosPerSecond == n * NanosPerDay by { DaysInNanos(n, d); }
    assert Sub(t, f) == Saturate(n * NanosPerDay);
    SaturatedDays(n);
  }

  lemma DaysInNanos(n: int, d: int)
    requires d == n * 86_400
    ensures d * NanosPerSecond == n * NanosPerDay
  {
  }

  /** n days as a saturated Duration, truncated back to days: n, clamped to MaxDays. */
  lemma SaturatedDays(n: int)
    ensures WholeDays(Saturate(n * NanosPerDay)) == if n > MaxDays then MaxDays else if n < -MaxDays then -MaxDays else n
  {
    if n > MaxDays {
      assert n * NanosPerDay >= (MaxDays + 1) * NanosPerDay > MaxDuration;
      assert WholeDays(MaxDuration) == MaxDays;
    } else if n < -MaxDays {
      assert n * NanosPerDay <= -(MaxDays + 1) * NanosPerDay < MinDuration;
      assert WholeDays(MinDuration) == -MaxDays;
    } else if n >= 0 {
      assert n * NanosPerDay <= MaxDays * NanosPerDay <= MaxDuration;
      assert (n * NanosPerDay) / NanosPerDay == n;
    } else {
      assert n * NanosPerDay >= -MaxDays * NanosPerDay >= MinDuration;
      assert (-(n * NanosPerDay)) / NanosPerDay == -n;
    }
  }

  /** compute.DaysSince: days from `date` to `now`; negative when `date` lies ahead of `now`. */
  function DaysSince(date: Time, now: Time): int {
    DaysBetween(date, now)
  }

  /** The date n calendar days after d. */
  function After(d: CalendarDate, n: nat): CalendarDate {
    if n == 0 then d else Next(After(d, n - 1))
  }

  lemma {:induction false} OrdAfter(d: CalendarDate, n: nat)
    ensures Ord(After(d, n)) == Ord(d) + n
  {
    if n > 0 {
      OrdAfter(d, n - 1);
      OrdNext(After(d, n - 1));
    }
  }

  /** Counting forward by calendar days agrees with DaysBetween, up to the saturation bound. */
  lemma DaysBetweenCountsDays(d: CalendarDate, n: nat)
    ensures DaysBetween(Midnight(d), Midnight(After(d, n))) == if n <= MaxDays then n else MaxDays
  {
    OrdAfter(d, n);
    Clamped(Midnight(d), Midnight(After(d, n)), n);
  }

  /** Counting back from a date n days later gives -n, up to the saturation bound. */
  lemma DaysBetweenCountsBack(d: CalendarDate, n: nat)
    ensures DaysBetween(Midnight(After(d, n)), Midnight(d)) == if n <= MaxDays then -(n as int) else -MaxDays
  {
    OrdAfter(d, n);
    Clamped(Midnight(After(d, n)), Midnight(d), -(n as int));
  }

  lemma Clamped(f: Time, t: Time, n: int)
    requires DayDifference(f, t) == n
    ensures DaysBetween(f, t) == if n > MaxDays then MaxDays else if n < -MaxDays then -MaxDays else n
  {
  }

  /** The same date gives zero, whatever the clocks. */
  lemma DaysBetweenSameDate(a: Time, b: Time)
    requires a.date == b.date
    ensures DaysBetween(a, b) == 0
  {
  }

  /** Swapping the arguments negates the result. */
  lemma DaysBetweenAntisymmetric(a: Time, b: Time)
    ensures DaysBetween(b, a) == -DaysBetween(a, b)
  {
  }

  /** The sign of the result is the calendar order of the two dates. */
  lemma DaysBetweenSign(a: Time, b: Time)
    ensures DaysBetween(a, b) < 0 <==> Before(b.date, a.date)
    ensures DaysBetween(a, b) == 0 <==> a.date == b.date
    ensures DaysBetween(a, b) > 0 <==> Before(a.date, b.date)
  {
    OrdOrder(a.date, b.date);
  }

  /** Only the dates matter: the clock and the zone offset of either argument are ignored. */
  lemma DaysBetweenIgnoresClock(a: Time, b: Time, a2: Time, b2: Time)
    requires a.date == a2.date && b.date == b2.date
    ensures DaysBetween(a, b) == DaysBetween(a2, b2)
  {
  }

  /** Within the saturation bound, spans add up. */
  lemma DaysBetweenAdditive(a: Time, b: Time, c: Time)
    requires -MaxDays <= DayDifference(a, b) <= MaxDays
    requires -MaxDays <= DayDifference(b, c) <= MaxDays
    requires -MaxDays <= DayDifference(a, c) <= MaxDays
    ensures DaysBetween(a, c) == DaysBetween(a, b) + DaysBetween(b, c)
  {
  }

  /** DaysSince counts from the date to now, so a date ahead of now gives a negative count. */
  lemma DaysSinceSign(date: Time, now: Time)
    ensures DaysSince(date, now) < 0 <==> Before(now.date, date.date)
    ensures DaysSince(date, now) == 0 <==> date.date == now.date
    ensures -MaxDays <= DayDifference(date, now) <= MaxDays ==> DaysSince(date, now) == Ord(now.date) - Ord(date.date)
  {
    DaysBetweenSign(date, now);
  }

  // ---------------------------------------------------------------------
  // The cases of the compute package's tests, and the saturation bound.

  lemma BasicExample()
    ensures DaysBetween(Midnight(Date(2024, 1, 1)), Midnight(Date(2024, 1, 11))) == 10
  {
  }

  lemma SameDayExample()
    ensures DaysBetween(Midnight(Date(2024, 5, 5)), Midnight(Date(2024, 5, 5))) == 0
  {
  }

  lemma FutureExample()
    ensures DaysSince(Midnight(Date(2024, 6, 10)), Midnight(Date(2024, 6, 1))) == -9
  {
  }

  lemma LeapSpanExample()
    ensures DaysBetween(Midnight(Date(2019, 2, 28)), Midnight(Date(2019, 3, 1))) == 1
    ensures DaysBetween(Midnight(Date(2020, 2, 28)), Midnight(Date(2020, 3, 1))) == 2
  {
    assert DaysBeforeMonth(3, 2019) == 59 && DaysBeforeMonth(2, 2019) == 31;
    assert DaysBeforeMonth(3, 2020) == 60 && DaysBeforeMonth(2, 2020) == 31;
    assert DayDifference(Midnight(Date(2019, 2, 28)), Midnight(Date(2019, 3, 1))) == 1;
    assert DayDifference(Midnight(Date(2020, 2, 28)), Midnight(Date(2020, 3, 1))) == 2;
  }

  /** Two parseable dates 324 years apart still give only MaxDays. */
  lemma SaturationExample()
    ensures DayDifference(Midnight(Date(1700, 1, 1)), Midnight(Date(2024, 1, 1))) == 118_338
    ensures DaysBetween(Midnight(Date(1700, 1, 1)), Midnight(Date(2024, 1, 1))) == MaxDays
  {
  }
}

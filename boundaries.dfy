/**
 * The calendar boundaries the recurrences are anchored to, computed the
 * way the service computes them: by calendar arithmetic (AddDate) on the
 * wall-clock reading of an instant, then a fixed correction.
 */
module Boundaries {
  import opened Calendar

  /** The wall-clock midnight of a date. */
  function Midnight(d: Date): DateTime {
    DateTime(d, 0, 0, 0)
  }

  /**
   * The first local midnight strictly after `t`: one calendar day later,
   * minus the wall-clock time of day. The time of day subtracted is that
   * of `t` itself, read before the day is added; under a fixed offset it
   * equals the time of day after the addition, and the two would only
   * differ across a daylight-saving change.
   */
  function EndOfDay(t: Instant, loc: Location): (r: Instant)
    ensures IsLocalMidnight(r, loc)
    ensures t < r <= t + SecondsPerDay
  {
    var c := Civil(t, loc);
    AddDaysShift(t, 1, loc);
    var r := AddDate(t, 0, 0, 1, loc) - c.ClockSeconds();
    WholeDays(r, loc, DayNumber(c.date) + 1);
    r
  }

  /** A local midnight after a clock reading on day `n - 1` and no later than the same reading on day `n` is the midnight that starts day `n`. */
  lemma MidnightInWindow(r: Instant, loc: Location, n: int, clock: int)
    requires 0 <= clock < SecondsPerDay
    requires IsLocalMidnight(r, loc)
    requires (n - 1) * SecondsPerDay + clock - loc.offset < r <= n * SecondsPerDay + clock - loc.offset
    ensures r == n * SecondsPerDay - loc.offset
  {
    var k := (r + loc.offset) / SecondsPerDay;
    assert r + loc.offset == k * SecondsPerDay;
  }

  /** The midnight that starts a valid date, as an instant in `loc`, reads as that date at 00:00:00. */
  lemma CivilOfMidnight(d: Date, loc: Location)
    requires d.Valid()
    ensures Civil(DayNumber(d) * SecondsPerDay - loc.offset, loc) == Midnight(d)
  {
    hide Civil, DayNumber;
    CivilUnique(DayNumber(d) * SecondsPerDay - loc.offset, loc, Midnight(d));
  }

  /** EndOfDay gives 00:00:00 of the calendar day after the day of `t`. */
  lemma EndOfDayIsNextMidnight(t: Instant, loc: Location)
    ensures Civil(EndOfDay(t, loc), loc) == Midnight(NextDay(Civil(t, loc).date))
  {
    var c := Civil(t, loc);
    var next := NextDay(c.date);
    MidnightInWindow(EndOfDay(t, loc), loc, DayNumber(next), c.ClockSeconds());
    CivilOfMidnight(next, loc);
  }

  /** The example 2023-02-03 15:12:45 UTC, whose end of day is 2023-02-04 00:00:00 UTC. */
  lemma EndOfDayExample()
    ensures EndOfDay(MakeTime(2023, 2, 3, 15, 12, 45, UTC), UTC) == MakeTime(2023, 2, 4, 0, 0, 0, UTC)
  {
    var t := MakeTime(2023, 2, 3, 15, 12, 45, UTC);
    CivilOfMakeTime(DateTime(Date(2023, 2, 3), 15, 12, 45), UTC);
    EndOfDayIsNextMidnight(t, UTC);
    MakeTimeOfCivil(EndOfDay(t, UTC), UTC);
  }

  /**
   * The start of the month after the month of `t`: day 0 of the next
   * month is normalised to the last day of this month (at the same time
   * of day), whose end of day is the first of the next month.
   */
  function EndOfMonth(t: Instant, loc: Location): (r: Instant)
    ensures var d := Civil(t, loc).date;
      Civil(r, loc) == Midnight(MonthFirst(MonthIndex(d.year, d.month) + 1))
    ensures t < r
  {
    var c := Civil(t, loc);
    EndOfMonthIsNextMonthStart(t, loc);
    EndOfDay(AddDate(t, 0, 1, -c.date.day, loc), loc)
  }

  lemma EndOfMonthIsNextMonthStart(t: Instant, loc: Location)
    ensures var c := Civil(t, loc);
      var first := MonthFirst(MonthIndex(c.date.year, c.date.month) + 1);
      var r := EndOfDay(AddDate(t, 0, 1, -c.date.day, loc), loc);
      t < r && Civil(r, loc) == Midnight(first)
  {
    hide Civil, EndOfDay, MonthFirst, DayNumber, AddDate;
    var c := Civil(t, loc);
    var first := MonthFirst(MonthIndex(c.date.year, c.date.month) + 1);
    var n := DayNumber(first);
    var x := AddDate(t, 0, 1, -c.date.day, loc);
    assert x == (n - 1) * SecondsPerDay + c.ClockSeconds() - loc.offset by {
      DayZeroOfNextMonth(t, loc);
    }
    var r := EndOfDay(x, loc);
    assert r == n * SecondsPerDay - loc.offset by {
      MidnightInWindow(r, loc, n, c.ClockSeconds());
    }
    assert t < r by {
      DayNumberInMonth(c.date);
    }
    CivilOfMidnight(first, loc);
  }

  /** Day 0 of the next month is the day before its first, at the same time of day. */
  lemma DayZeroOfNextMonth(t: Instant, loc: Location)
    ensures var c := Civil(t, loc);
      var first := MonthFirst(MonthIndex(c.date.year, c.date.month) + 1);
      AddDate(t, 0, 1, -c.date.day, loc) == (DayNumber(first) - 1) * SecondsPerDay + c.ClockSeconds() - loc.offset
  {
    hide Civil, MonthFirst, DayNumber;
    var c := Civil(t, loc);
    assert MonthIndex(c.date.year + 0, c.date.month + 1) == MonthIndex(c.date.year, c.date.month) + 1;
  }

  /**
   * 1 January of the year after the year of `t`, at hour 0 but with the
   * minutes and seconds of `t` kept: the month and day are stepped back
   * to 1 January, the year forward by one, and then the hours of `t` are
   * subtracted.
   */
  function EndOfYear(t: Instant, loc: Location): (r: Instant)
    ensures var c := Civil(t, loc);
      Civil(r, loc) == DateTime(Date(c.date.year + 1, 1, 1), 0, c.minute, c.second)
    ensures t < r
  {
    hide *;
    var c := Civil(t, loc);
    NewYearFields(t, loc);
    NewYearReading(Civil(t, loc), loc);
    NewYearIsLater(t, loc);
    AddDate(t, 1, -(c.date.month - 1), -(c.date.day - 1), loc) - c.hour * SecondsPerHour
  }

  /** The instant EndOfYear computes is 1 January of the next year at hour 0, with the minutes and seconds of `t`. */
  lemma NewYearFields(t: Instant, loc: Location)
    ensures var c := Civil(t, loc);
      AddDate(t, 1, -(c.date.month - 1), -(c.date.day - 1), loc) - c.hour * SecondsPerHour
        == MakeTime(c.date.year + 1, 1, 1, 0, c.minute, c.second, loc)
  {
    hide Civil, MonthFirst, DayNumber;
    var c := Civil(t, loc);
    assert AddDate(t, 1, -(c.date.month - 1), -(c.date.day - 1), loc)
        == MakeTime(c.date.year + 1, 1, 1, c.hour, c.minute, c.second, loc);
  }

  /** 1 January at hour 0 with a valid reading's minutes and seconds reads back as itself. */
  lemma NewYearReading(c: DateTime, loc: Location)
    requires c.Valid()
    ensures Civil(MakeTime(c.date.year + 1, 1, 1, 0, c.minute, c.second, loc), loc)
         == DateTime(Date(c.date.year + 1, 1, 1), 0, c.minute, c.second)
  {
    CivilOfMakeTime(DateTime(Date(c.date.year + 1, 1, 1), 0, c.minute, c.second), loc);
  }

  /** 1 January of the next year, at any minute of hour 0, is after `t`. */
  lemma NewYearIsLater(t: Instant, loc: Location)
    ensures var c := Civil(t, loc);
      t < MakeTime(c.date.year + 1, 1, 1, 0, c.minute, c.second, loc)
  {
    hide Civil, MakeTime, DaysBeforeMonth;
    var c := Civil(t, loc);
    MakeTimeInRange(c.date.year + 1, 1, 1, 0, c.minute, c.second, loc);
    DayNumberInYear(c.date);
    DaysBeforeMonthStep(c.date.year + 1, 1);
  }
}

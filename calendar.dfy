/**
 * Civil time as the engine's date arithmetic sees it: the proleptic
 * Gregorian calendar, instants counted in whole seconds since
 * 0001-01-01T00:00:00Z (the zero time of the time library the service is
 * written against), and a location reduced to a fixed offset from UTC.
 *
 * The library's date constructor accepts out-of-range fields and
 * normalises them: the month first (by floor division into the year),
 * then the day, hour, minute and second simply add up as a count of
 * seconds. `MakeTime` models exactly that, so "day 0 of March" is the
 * last day of February and a negative day walks back into earlier months.
 */
module Calendar {

  const SecondsPerMinute: int := 60
  const SecondsPerHour: int := 3600
  const SecondsPerDay: int := 86400
  const DaysPer400Years: int := 146097

  /** Seconds since 0001-01-01T00:00:00Z. */
  type Instant = int

  /** A location with a fixed offset, in seconds east of UTC. */
  datatype Location = Location(offset: int)

  const UTC: Location := Location(0)

  datatype Date = Date(year: int, month: int, day: int) {
    predicate Valid() {
      1 <= month <= 12 && 1 <= day <= DaysIn(year, month)
    }
  }

  /** The wall-clock reading of an instant in some location. */
  datatype DateTime = DateTime(date: Date, hour: int, minute: int, second: int) {
    predicate Valid() {
      date.Valid() && 0 <= hour < 24 && 0 <= minute < 60 && 0 <= second < 60
    }

    /** Seconds elapsed since the wall clock last read midnight. */
    function ClockSeconds(): int {
      hour * SecondsPerHour + minute * SecondsPerMinute + second
    }
  }

  predicate IsLeap(y: int) {
    y % 4 == 0 && (y % 100 != 0 || y % 400 == 0)
  }

  function YearLength(y: int): int {
    if IsLeap(y) then 366 else 365
  }

  function DaysIn(y: int, m: int): (n: int)
    requires 1 <= m <= 12
    ensures 28 <= n <= 31
    ensures n == 29 <==> m == 2 && IsLeap(y)
  {
    if m == 2 then (if IsLeap(y) then 29 else 28)
    else if m == 4 || m == 6 || m == 9 || m == 11 then 30
    else 31
  }

  /** Days from 1 January of `y` to the first of month `m`; month 13 is the next 1 January. */
  function DaysBeforeMonth(y: int, m: int): int
    requires 1 <= m <= 13
  {
    [0, 31, 59, 90, 120, 151, 181, 212, 243, 273, 304, 334, 365][m - 1]
      + (if IsLeap(y) && m > 2 then 1 else 0)
  }

  /** Days from 0001-01-01 to 1 January of `y` (negative before year 1). */
  function DaysBeforeYear(y: int): int {
    365 * (y - 1) + (y - 1) / 4 - (y - 1) / 100 + (y - 1) / 400
  }

  /** The day number of a (possibly non-normalised) day of a month: 0001-01-01 is day 0. */
  function DayNumber(d: Date): int
    requires 1 <= d.month <= 12
  {
    DaysBeforeYear(d.year) + DaysBeforeMonth(d.year, d.month) + d.day - 1
  }

  lemma DaysBeforeMonthStep(y: int, m: int)
    requires 1 <= m <= 12
    ensures DaysBeforeMonth(y, m + 1) == DaysBeforeMonth(y, m) + DaysIn(y, m)
    ensures DaysBeforeMonth(y, 1) == 0 && DaysBeforeMonth(y, 13) == YearLength(y)
  {
  }

  lemma DaysBeforeYearStep(y: int)
    ensures DaysBeforeYear(y + 1) == DaysBeforeYear(y) + YearLength(y)
  {
    var a := y - 1;
    assert (a + 1) / 4 == a / 4 + (if y % 4 == 0 then 1 else 0);
    assert (a + 1) / 100 == a / 100 + (if y % 100 == 0 then 1 else 0);
    assert (a + 1) / 400 == a / 400 + (if y % 400 == 0 then 1 else 0);
  }

  lemma {:induction false} DaysBeforeYearMonotone(a: int, b: int)
    requires a <= b
    ensures DaysBeforeYear(a) + 365 * (b - a) <= DaysBeforeYear(b)
    decreases b - a
  {
    if a < b {
      DaysBeforeYearMonotone(a, b - 1);
      DaysBeforeYearStep(b - 1);
    }
  }

  lemma DaysBeforeYearCycle(y: int, q: int)
    ensures DaysBeforeYear(y + 400 * q) == DaysBeforeYear(y) + DaysPer400Years * q
  {
    var a := y - 1;
    assert (a + 400 * q) / 4 == a / 4 + 100 * q;
    assert (a + 400 * q) / 100 == a / 100 + 4 * q;
    assert (a + 400 * q) / 400 == a / 400 + q;
  }

  /** The year `j' <= j` whose first day is the last one not after day `r`. */
  function YearInCycle(r: int, j: int): (j': int)
    requires 1 <= j && 0 <= r < DaysBeforeYear(j + 1)
    ensures 1 <= j' <= j
    ensures DaysBeforeYear(j') <= r < DaysBeforeYear(j' + 1)
    decreases j
  {
    if DaysBeforeYear(j) <= r then j else YearInCycle(r, j - 1)
  }

  /** The month `m' <= m` of year `y` in which day-of-year `doy` falls. */
  function MonthOf(y: int, doy: int, m: int): (m': int)
    requires 1 <= m <= 12 && 0 <= doy < DaysBeforeMonth(y, m + 1)
    ensures 1 <= m' <= m
    ensures DaysBeforeMonth(y, m') <= doy < DaysBeforeMonth(y, m' + 1)
    decreases m
  {
    if DaysBeforeMonth(y, m) <= doy then m else MonthOf(y, doy, m - 1)
  }

  /** Searching down from year `r / 365 + 1` finds the year of day `r` of a 400-year cycle. */
  lemma CycleSearchStart(r: int)
    requires 0 <= r
    ensures 1 <= r / 365 + 1 && r < DaysBeforeYear(r / 365 + 2)
  {
    assert DaysBeforeYear(1) == 0;
    DaysBeforeYearMonotone(1, r / 365 + 2);
  }

  /** A year of the first cycle holding day `r` becomes, `q` cycles on, the year holding day `r + q` cycles. */
  lemma CycleShift(j: int, q: int, r: int)
    requires DaysBeforeYear(j) <= r < DaysBeforeYear(j + 1)
    ensures DaysBeforeYear(j + 400 * q) <= r + DaysPer400Years * q < DaysBeforeYear(j + 400 * q + 1)
  {
    DaysBeforeYearCycle(j, q);
    DaysBeforeYearCycle(j + 1, q);
    assert j + 1 + 400 * q == j + 400 * q + 1;
  }

  /** The year whose span of day numbers holds day `n`. */
  function YearOf(n: int): (y: int)
    ensures DaysBeforeYear(y) <= n < DaysBeforeYear(y + 1)
  {
    hide DaysBeforeYear, YearInCycle;
    var q, r := n / DaysPer400Years, n % DaysPer400Years;
    CycleSearchStart(r);
    var j := YearInCycle(r, r / 365 + 1);
    CycleShift(j, q, r);
    j + 400 * q
  }

  /** The calendar date of day number `n`: the inverse of `DayNumber` on valid dates. */
  function DateOf(n: int): (d: Date)
    ensures d.Valid() && DayNumber(d) == n
  {
    hide DaysBeforeYear, DaysBeforeMonth, YearOf, MonthOf;
    var y := YearOf(n);
    DaysBeforeYearStep(y);
    DaysBeforeMonthStep(y, 12);
    var doy := n - DaysBeforeYear(y);
    var m := MonthOf(y, doy, 12);
    DaysBeforeMonthStep(y, m);
    Date(y, m, doy - DaysBeforeMonth(y, m) + 1)
  }

  /** A valid date lies inside its own year's span of day numbers. */
  lemma DayNumberInYear(d: Date)
    requires d.Valid()
    ensures DaysBeforeYear(d.year) <= DayNumber(d) < DaysBeforeYear(d.year + 1)
    ensures DaysBeforeMonth(d.year, d.month) <= DayNumber(d) - DaysBeforeYear(d.year) < DaysBeforeMonth(d.year, d.month + 1)
  {
    DaysBeforeYearStep(d.year);
    DaysBeforeMonthStep(d.year, d.month);
    DaysBeforeMonthMonotone(d.year, d.month + 1, 13);
  }

  lemma DaysBeforeMonthMonotone(y: int, a: int, b: int)
    requires 1 <= a <= b <= 13
    ensures DaysBeforeMonth(y, a) <= DaysBeforeMonth(y, b)
  {
  }

  /** Distinct valid dates have distinct day numbers. */
  lemma DayNumberInjective(a: Date, b: Date)
    requires a.Valid() && b.Valid() && DayNumber(a) == DayNumber(b)
    ensures a == b
  {
    SameYear(a, b);
    DayNumberInYear(a);
    DayNumberInYear(b);
    hide DaysBeforeYear, DaysBeforeMonth;
    if a.month < b.month {
      DaysBeforeMonthMonotone(a.year, a.month + 1, b.month);
    } else if b.month < a.month {
      DaysBeforeMonthMonotone(a.year, b.month + 1, a.month);
    }
  }

  /** Valid dates with the same day number lie in the same year. */
  lemma SameYear(a: Date, b: Date)
    requires a.Valid() && b.Valid() && DayNumber(a) == DayNumber(b)
    ensures a.year == b.year
  {
    DayNumberInYear(a);
    DayNumberInYear(b);
    YearSpansDisjoint(a.year, b.year, DayNumber(a));
  }

  /** No day lies in the spans of two different years. */
  lemma YearSpansDisjoint(y1: int, y2: int, n: int)
    requires DaysBeforeYear(y1) <= n < DaysBeforeYear(y1 + 1)
    requires DaysBeforeYear(y2) <= n < DaysBeforeYear(y2 + 1)
    ensures y1 == y2
  {
    hide *;
    if y1 < y2 {
      DaysBeforeYearMonotone(y1 + 1, y2);
    } else if y2 < y1 {
      DaysBeforeYearMonotone(y2 + 1, y1);
    }
  }

  /** Round trip: a valid date is recovered from its day number. */
  lemma DateOfDayNumber(d: Date)
    requires d.Valid()
    ensures DateOf(DayNumber(d)) == d
  {
    DayNumberInjective(DateOf(DayNumber(d)), d);
  }

  /** The calendar day that follows `d`. */
  function NextDay(d: Date): (e: Date)
    requires d.Valid()
    ensures e.Valid() && DayNumber(e) == DayNumber(d) + 1
  {
    DaysBeforeMonthStep(d.year, d.month);
    DaysBeforeYearStep(d.year);
    if d.day < DaysIn(d.year, d.month) then Date(d.year, d.month, d.day + 1)
    else if d.month < 12 then Date(d.year, d.month + 1, 1)
    else Date(d.year + 1, 1, 1)
  }

  /** Months counted from January of year 0: month `m` of year `y` is `12 * y + m - 1`. */
  function MonthIndex(y: int, m: int): int {
    12 * y + m - 1
  }

  /** The first day of month index `k`. */
  function MonthFirst(k: int): (d: Date)
    ensures d.Valid() && d.day == 1 && MonthIndex(d.year, d.month) == k
  {
    Date(k / 12, k % 12 + 1, 1)
  }

  /** The first of a month is the first of the month with its index. */
  lemma MonthFirstOfIndex(y: int, m: int)
    requires 1 <= m <= 12
    ensures MonthFirst(MonthIndex(y, m)) == Date(y, m, 1)
  {
  }

  /** The month after a month's first: the next month of the same year, or January of the next. */
  lemma MonthFirstNext(k: int)
    ensures var d := MonthFirst(k);
      MonthFirst(k + 1) == if d.month < 12 then Date(d.year, d.month + 1, 1) else Date(d.year + 1, 1, 1)
  {
  }

  /** Consecutive month indices start `DaysIn` days apart. */
  lemma MonthFirstStep(k: int)
    ensures DayNumber(MonthFirst(k + 1)) == DayNumber(MonthFirst(k)) + DaysIn(MonthFirst(k).year, MonthFirst(k).month)
  {
    hide MonthFirst, DaysBeforeYear, DaysBeforeMonth;
    var d := MonthFirst(k);
    MonthFirstNext(k);
    DaysBeforeMonthStep(d.year, d.month);
    DaysBeforeMonthStep(d.year + 1, 1);
    DaysBeforeYearStep(d.year);
  }

  /** Month starts are at least 28 days apart per month. */
  lemma {:induction false} MonthFirstMonotone(a: int, b: int)
    requires a <= b
    ensures DayNumber(MonthFirst(a)) + 28 * (b - a) <= DayNumber(MonthFirst(b))
    decreases b - a
  {
    hide MonthFirst, DayNumber;
    if a < b {
      MonthFirstMonotone(a, b - 1);
      MonthFirstStep(b - 1);
    }
  }

  /** The last day of month index `k`. */
  function MonthLast(k: int): (d: Date)
    ensures d.Valid() && MonthIndex(d.year, d.month) == k
    ensures DayNumber(d) + 1 == DayNumber(MonthFirst(k + 1))
  {
    var f := MonthFirst(k);
    MonthFirstStep(k);
    Date(f.year, f.month, DaysIn(f.year, f.month))
  }

  /** A valid date lies between the first of its month and the first of the next month. */
  lemma DayNumberInMonth(d: Date)
    requires d.Valid()
    ensures var k := MonthIndex(d.year, d.month);
      DayNumber(MonthFirst(k)) <= DayNumber(d) < DayNumber(MonthFirst(k + 1))
  {
    hide MonthFirst, DaysBeforeYear, DaysBeforeMonth;
    var k := MonthIndex(d.year, d.month);
    MonthFirstOfIndex(d.year, d.month);
    MonthFirstStep(k);
  }

  /**
   * The instant named by possibly out-of-range wall-clock fields in `loc`:
   * the month is normalised into the year first, and the day, hour,
   * minute and second then count forward (or back) from the first of that
   * month, so day 0 is the last day of the previous month.
   */
  function MakeTime(year: int, month: int, day: int, hour: int, minute: int, second: int, loc: Location): Instant
  {
    var f := MonthFirst(MonthIndex(year, month));
    (DayNumber(f) + day - 1) * SecondsPerDay
      + hour * SecondsPerHour + minute * SecondsPerMinute + second - loc.offset
  }

  /** The wall-clock reading of `t` in `loc`. */
  function Civil(t: Instant, loc: Location): (c: DateTime)
    ensures c.Valid()
    ensures 0 <= c.ClockSeconds() < SecondsPerDay
    ensures t + loc.offset == DayNumber(c.date) * SecondsPerDay + c.ClockSeconds()
  {
    var local := t + loc.offset;
    var d := DateOf(local / SecondsPerDay);
    var s := local % SecondsPerDay;
    ClockSplit(s);
    DateTime(d, s / SecondsPerHour, s % SecondsPerHour / SecondsPerMinute, s % SecondsPerMinute)
  }

  lemma ClockSplit(s: int)
    requires 0 <= s < SecondsPerDay
    ensures 0 <= s / SecondsPerHour < 24
    ensures 0 <= s % SecondsPerHour / SecondsPerMinute < 60
    ensures s / SecondsPerHour * SecondsPerHour + s % SecondsPerHour / SecondsPerMinute * SecondsPerMinute
            + s % SecondsPerMinute == s
  {
    var h, rest := s / 3600, s % 3600;
    assert s == 3600 * h + rest;
    assert rest == 60 * (rest / 60) + rest % 60;
    assert s % 60 == rest % 60;
  }

  /** MakeTime of in-range fields counts from the first of their own month. */
  lemma MakeTimeInRange(year: int, month: int, day: int, hour: int, minute: int, second: int, loc: Location)
    requires 1 <= month <= 12
    ensures MakeTime(year, month, day, hour, minute, second, loc)
         == (DayNumber(Date(year, month, day))) * SecondsPerDay
            + hour * SecondsPerHour + minute * SecondsPerMinute + second - loc.offset
  {
    hide MonthFirst;
    MonthFirstOfIndex(year, month);
  }

  /** Round trip: the wall-clock reading of `t` names `t` again. */
  lemma MakeTimeOfCivil(t: Instant, loc: Location)
    ensures var c := Civil(t, loc);
      MakeTime(c.date.year, c.date.month, c.date.day, c.hour, c.minute, c.second, loc) == t
  {
    var c := Civil(t, loc);
    MakeTimeInRange(c.date.year, c.date.month, c.date.day, c.hour, c.minute, c.second, loc);
  }

  /** A count of seconds splits into whole days and a time of day in only one way. */
  lemma DaySplitUnique(n1: int, s1: int, n2: int, s2: int)
    requires 0 <= s1 < SecondsPerDay && 0 <= s2 < SecondsPerDay
    requires n1 * SecondsPerDay + s1 == n2 * SecondsPerDay + s2
    ensures n1 == n2 && s1 == s2
  {
  }

  /** Two valid readings with the same time of day agree on hour, minute and second. */
  lemma ClockUnique(a: DateTime, b: DateTime)
    requires a.Valid() && b.Valid()
    requires a.ClockSeconds() == b.ClockSeconds()
    ensures a.hour == b.hour && a.minute == b.minute && a.second == b.second
  {
  }

  /**
   * Civil is characterised by its postcondition: a valid reading whose day
   * number and time of day add up to the local seconds of `t` is the
   * reading of `t`.
   */
  lemma CivilUnique(t: Instant, loc: Location, c: DateTime)
    requires c.Valid()
    requires t + loc.offset == DayNumber(c.date) * SecondsPerDay + c.ClockSeconds()
    ensures Civil(t, loc) == c
  {
    var e := Civil(t, loc);
    DaySplitUnique(DayNumber(e.date), e.ClockSeconds(), DayNumber(c.date), c.ClockSeconds());
    DayNumberInjective(e.date, c.date);
    ClockUnique(e, c);
  }

  /** Distinct instants read differently on the wall clock of a fixed offset. */
  lemma CivilInjective(a: Instant, b: Instant, loc: Location)
    requires Civil(a, loc) == Civil(b, loc)
    ensures a == b
  {
  }

  /** Round trip: valid wall-clock fields are read back from the instant they name. */
  lemma CivilOfMakeTime(c: DateTime, loc: Location)
    requires c.Valid()
    ensures Civil(MakeTime(c.date.year, c.date.month, c.date.day, c.hour, c.minute, c.second, loc), loc) == c
  {
    MakeTimeInRange(c.date.year, c.date.month, c.date.day, c.hour, c.minute, c.second, loc);
    CivilUnique(MakeTime(c.date.year, c.date.month, c.date.day, c.hour, c.minute, c.second, loc), loc, c);
  }

  /**
   * Normalisation: fields whose time of day is under 24 hours name that
   * time of day on the day `day - 1` days after the first of month
   * `month` of `year`, the month counted on past December or back before
   * January, and the day past the end of the month or back before it.
   */
  lemma MakeTimeNormalises(year: int, month: int, day: int, hour: int, minute: int, second: int, loc: Location)
    requires 0 <= hour * SecondsPerHour + minute * SecondsPerMinute + second < SecondsPerDay
    ensures var c := Civil(MakeTime(year, month, day, hour, minute, second, loc), loc);
      && c.ClockSeconds() == hour * SecondsPerHour + minute * SecondsPerMinute + second
      && DayNumber(c.date) == DayNumber(MonthFirst(MonthIndex(year, month))) + day - 1
  {
    hide Civil, DayNumber, MonthFirst;
    var f := MonthFirst(MonthIndex(year, month));
    var c := Civil(MakeTime(year, month, day, hour, minute, second, loc), loc);
    DaySplitUnique(DayNumber(c.date), c.ClockSeconds(), DayNumber(f) + day - 1, hour * SecondsPerHour + minute * SecondsPerMinute + second);
  }

  /** The library's AddDate: shift the wall-clock date of `t` and normalise. */
  function AddDate(t: Instant, years: int, months: int, days: int, loc: Location): Instant
  {
    var c := Civil(t, loc);
    MakeTime(c.date.year + years, c.date.month + months, c.date.day + days, c.hour, c.minute, c.second, loc)
  }

  /** Adding calendar days under a fixed offset moves the instant by whole days. */
  lemma AddDaysShift(t: Instant, days: int, loc: Location)
    ensures AddDate(t, 0, 0, days, loc) == t + days * SecondsPerDay
  {
    MakeTimeOfCivil(t, loc);
  }

  /**
   * AddDate keeps the time of day of `t` and lands on day `d + days` of
   * month `m + months` of year `y + years`, counted from the first of that
   * (normalised) month, where `y`, `m`, `d` is the date of `t`.
   */
  lemma AddDateReading(t: Instant, years: int, months: int, days: int, loc: Location)
    ensures var c := Civil(t, loc);
      var c' := Civil(AddDate(t, years, months, days, loc), loc);
      && c'.ClockSeconds() == c.ClockSeconds()
      && DayNumber(c'.date) == DayNumber(MonthFirst(MonthIndex(c.date.year + years, c.date.month + months))) + c.date.day + days - 1
  {
    var c := Civil(t, loc);
    hide Civil, DayNumber, MonthFirst, MakeTime;
    MakeTimeNormalises(c.date.year + years, c.date.month + months, c.date.day + days, c.hour, c.minute, c.second, loc);
  }

  /** The library's Truncate(1h): round down to a whole hour counted from the zero time. */
  function TruncateToHour(t: Instant): (r: Instant)
    ensures r % SecondsPerHour == 0 && r <= t < r + SecondsPerHour
  {
    t - t % SecondsPerHour
  }

  predicate IsLocalMidnight(t: Instant, loc: Location) {
    (t + loc.offset) % SecondsPerDay == 0
  }

  /** An instant whose local seconds are a whole number of days is a local midnight. */
  lemma WholeDays(t: Instant, loc: Location, n: int)
    requires t + loc.offset == n * SecondsPerDay
    ensures IsLocalMidnight(t, loc)
  {
  }

  /** A local midnight reads 00:00:00 on the wall clock. */
  lemma LocalMidnightClock(t: Instant, loc: Location)
    requires IsLocalMidnight(t, loc)
    ensures var c := Civil(t, loc); c.hour == 0 && c.minute == 0 && c.second == 0
  {
    var c := Civil(t, loc);
    var k := (t + loc.offset) / SecondsPerDay;
    DaySplitUnique(k, 0, DayNumber(c.date), c.ClockSeconds());
  }
}

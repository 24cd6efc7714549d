/**
 * The recurrence engine: for each unit, the first candidate after t1 (the
 * seed), the step from one candidate to the next (the advance), the list
 * of candidates before t2 (the series), and the four generators that build
 * the formatted list with a loop, as the service does.
 *
 * Every candidate the engine produces is the start of some period of its
 * unit, written `Anchor(u, j, loc)`: hour `j` since the zero time, or the
 * local midnight that starts day number `j`, month index `j` or year `j`.
 * The seed is the anchor of the period after the one holding t1, and each
 * advance moves `step` periods on, so the series is an arithmetic
 * progression of period indices, cut off at t2.
 */
module Engine {
  import opened Calendar
  import opened Models
  import opened Period
  import opened Boundaries
  import opened Format

  /** The instant that starts period `j` of unit `u`. */
  function Anchor(u: Unit, j: int, loc: Location): Instant
    requires u.Known()
  {
    match u
    case Hours => j * SecondsPerHour
    case Days => j * SecondsPerDay - loc.offset
    case Months => DayNumber(MonthFirst(j)) * SecondsPerDay - loc.offset
    case Years => DayNumber(Date(j, 1, 1)) * SecondsPerDay - loc.offset
  }

  /** What an anchor reads on the wall clock: a whole hour, or 00:00:00 on the first day of its period. */
  lemma AnchorReading(u: Unit, j: int, loc: Location)
    requires u.Known()
    ensures u == Hours ==> Anchor(u, j, loc) % SecondsPerHour == 0
    ensures u == Days ==> Civil(Anchor(u, j, loc), loc) == Midnight(DateOf(j))
    ensures u == Months ==> Civil(Anchor(u, j, loc), loc) == Midnight(MonthFirst(j))
    ensures u == Years ==> Civil(Anchor(u, j, loc), loc) == Midnight(Date(j, 1, 1))
  {
    hide Civil, DayNumber, DateOf, MonthFirst;
    match u
    case Hours =>
    case Days => CivilOfMidnight(DateOf(j), loc);
    case Months => CivilOfMidnight(MonthFirst(j), loc);
    case Years => CivilOfMidnight(Date(j, 1, 1), loc);
  }

  /** Round down to a whole hour of the local wall clock. */
  function TruncateToLocalHour(t: Instant, loc: Location): (r: Instant)
    ensures (r + loc.offset) % SecondsPerHour == 0 && r <= t < r + SecondsPerHour
  {
    t - (t + loc.offset) % SecondsPerHour
  }

  /**
   * The years seed as the service writes it: the end of the year of t1
   * (1 January at hour 0, with the minutes and seconds of t1), rounded
   * down to a whole hour counted from the zero time, that is, of UTC.
   */
  function YearsSeedAsWritten(t1: Instant, loc: Location): (r: Instant)
    ensures r % SecondsPerHour == 0
    ensures EndOfYear(t1, loc) - SecondsPerHour < r <= EndOfYear(t1, loc)
  {
    TruncateToHour(EndOfYear(t1, loc))
  }

  /**
   * The years seed as intended: the end of the year of t1 rounded down to
   * a whole hour of the local wall clock, which is local midnight of
   * 1 January of the next year.
   */
  function YearsSeed(t1: Instant, loc: Location): (r: Instant)
    ensures r == Anchor(Years, Civil(t1, loc).date.year + 1, loc)
    ensures t1 < r
  {
    NewYearTruncates(t1, loc);
    TruncateToLocalHour(EndOfYear(t1, loc), loc)
  }

  lemma NewYearTruncates(t1: Instant, loc: Location)
    ensures var a := Anchor(Years, Civil(t1, loc).date.year + 1, loc);
      TruncateToLocalHour(EndOfYear(t1, loc), loc) == a && t1 < a
  {
    hide Civil, EndOfYear;
    var c := Civil(t1, loc);
    var e := EndOfYear(t1, loc);
    var n := DayNumber(Date(c.date.year + 1, 1, 1));
    var within := c.minute * SecondsPerMinute + c.second;
    assert e + loc.offset == n * SecondsPerDay + within;
    HourSplit(n * 24, within);
    DayNumberInYear(c.date);
  }

  /** Whole hours plus less than an hour leave that remainder. */
  lemma HourSplit(h: int, within: int)
    requires 0 <= within < SecondsPerHour
    ensures (h * SecondsPerHour + within) % SecondsPerHour == within
  {
  }

  /**
   * The first candidate after t1: for hours, t1 plus `step` hours rounded
   * down to the hour; for days, months and years, the start of the next
   * day, month or year.
   */
  function Seed(u: Unit, step: nat, t1: Instant, loc: Location): Instant
    requires u.Known()
  {
    match u
    case Hours => TruncateToHour(t1 + step * SecondsPerHour)
    case Days => EndOfDay(t1, loc)
    case Months => EndOfMonth(t1, loc)
    case Years => YearsSeed(t1, loc)
  }

  /** The period index of the seed: `step` hours on from the hour of t1, or the day, month or year after that of t1. */
  function FirstIndex(u: Unit, step: nat, t1: Instant, loc: Location): int
    requires u.Known()
  {
    match u
    case Hours => t1 / SecondsPerHour + step
    case Days => DayNumber(Civil(t1, loc).date) + 1
    case Months => MonthIndex(Civil(t1, loc).date.year, Civil(t1, loc).date.month) + 1
    case Years => Civil(t1, loc).date.year + 1
  }

  /** The seed starts the period of its first index, and comes after t1. */
  lemma SeedIsAnchor(u: Unit, step: nat, t1: Instant, loc: Location)
    requires u.Known() && step >= 1
    ensures Seed(u, step, t1, loc) == Anchor(u, FirstIndex(u, step, t1, loc), loc)
    ensures t1 < Seed(u, step, t1, loc)
  {
    hide Civil, EndOfDay, EndOfMonth, YearsSeed, DayNumber, MonthFirst;
    match u
    case Hours =>
      HourSplit(t1 / SecondsPerHour + step, t1 % SecondsPerHour);
    case Days =>
      DaysSeedIsAnchor(t1, loc);
    case Months =>
      MonthsSeedIsAnchor(t1, loc);
    case Years =>
  }

  lemma DaysSeedIsAnchor(t1: Instant, loc: Location)
    ensures EndOfDay(t1, loc) == Anchor(Days, DayNumber(Civil(t1, loc).date) + 1, loc)
  {
    hide Civil, DayNumber, AddDate;
    AddDaysShift(t1, 1, loc);
  }

  lemma MonthsSeedIsAnchor(t1: Instant, loc: Location)
    ensures var d := Civil(t1, loc).date;
      EndOfMonth(t1, loc) == Anchor(Months, MonthIndex(d.year, d.month) + 1, loc)
  {
    hide Civil, DayNumber, MonthFirst, EndOfMonth;
    var d := Civil(t1, loc).date;
    AnchorReading(Months, MonthIndex(d.year, d.month) + 1, loc);
    CivilInjective(EndOfMonth(t1, loc), Anchor(Months, MonthIndex(d.year, d.month) + 1, loc), loc);
  }

  /**
   * The step from one candidate to the next: `step` hours on, rounded
   * down to the hour; `step` calendar days or years on; or, for months,
   * `step` months on less one day, then the start of the following month.
   */
  function Advance(u: Unit, step: nat, t: Instant, loc: Location): (r: Instant)
    requires u.Known() && step >= 1
    ensures t < r
  {
    match u
    case Hours => TruncateToHour(t + step * SecondsPerHour)
    case Days =>
      AddDaysShift(t, step, loc);
      AddDate(t, 0, 0, step, loc)
    case Months =>
      MonthsStepLater(t, step, loc);
      EndOfMonth(AddDate(t, 0, step, -1, loc), loc)
    case Years =>
      YearsStepLater(t, step, loc);
      AddDate(t, step, 0, 0, loc)
  }

  /** `step` months on less one day is still after `t`: months are longer than a day. */
  lemma MonthsStepLater(t: Instant, step: nat, loc: Location)
    requires step >= 1
    ensures t < AddDate(t, 0, step, -1, loc)
  {
    hide Civil, MonthFirst, DayNumber;
    var c := Civil(t, loc);
    var k := MonthIndex(c.date.year, c.date.month);
    MakeTimeOfCivil(t, loc);
    assert MonthIndex(c.date.year, c.date.month + step) == k + step;
    MonthFirstMonotone(k, k + step);
  }

  /** `step` calendar years on is after `t`: a year gains at least 365 days and loses at most the leap day. */
  lemma YearsStepLater(t: Instant, step: nat, loc: Location)
    requires step >= 1
    ensures t < AddDate(t, step, 0, 0, loc)
  {
    hide Civil, DaysBeforeYear, MonthFirst;
    var c := Civil(t, loc);
    MakeTimeOfCivil(t, loc);
    MakeTimeInRange(c.date.year, c.date.month, c.date.day, c.hour, c.minute, c.second, loc);
    MakeTimeInRange(c.date.year + step, c.date.month, c.date.day, c.hour, c.minute, c.second, loc);
    DaysBeforeYearMonotone(c.date.year, c.date.year + step);
  }

  /** Advancing from the start of period `j` gives the start of period `j + step`. */
  lemma AdvanceAnchor(u: Unit, step: nat, j: int, loc: Location)
    requires u.Known() && step >= 1
    ensures Advance(u, step, Anchor(u, j, loc), loc) == Anchor(u, j + step, loc)
  {
    match u
    case Hours =>
      HourSplit(j + step, 0);
    case Days =>
      AddDaysShift(Anchor(u, j, loc), step, loc);
    case Months =>
      MonthsAdvanceAnchor(step, j, loc);
    case Years =>
      YearsAdvanceAnchor(step, j, loc);
  }

  lemma MonthsAdvanceAnchor(step: nat, j: int, loc: Location)
    requires step >= 1
    ensures EndOfMonth(AddDate(Anchor(Months, j, loc), 0, step, -1, loc), loc) == Anchor(Months, j + step, loc)
  {
    hide Civil, MonthFirst, DayNumber, EndOfMonth;
    var a := Anchor(Months, j, loc);
    var f := MonthFirst(j);
    AnchorReading(Months, j, loc);
    var last := MonthLast(j + step - 1);
    var x := AddDate(a, 0, step, -1, loc);
    assert x == DayNumber(last) * SecondsPerDay - loc.offset by {
      assert MonthIndex(f.year, f.month + step) == j + step;
    }
    CivilOfMidnight(last, loc);
    AnchorReading(Months, j + step, loc);
    CivilInjective(EndOfMonth(x, loc), Anchor(Months, j + step, loc), loc);
  }

  lemma YearsAdvanceAnchor(step: nat, j: int, loc: Location)
    requires step >= 1
    ensures AddDate(Anchor(Years, j, loc), step, 0, 0, loc) == Anchor(Years, j + step, loc)
  {
    hide Civil, MonthFirst, DayNumber;
    AnchorReading(Years, j, loc);
    MakeTimeInRange(j + step, 1, 1, 0, 0, 0, loc);
  }

  /** The candidates from `next` on, advancing `step` periods at a time, that come before t2. */
  function Series(u: Unit, step: nat, next: Instant, t2: Instant, loc: Location): seq<Instant>
    requires u.Known() && step >= 1
    decreases t2 - next
  {
    if next < t2 then [next] + Series(u, step, Advance(u, step, next, loc), t2, loc) else []
  }

  lemma SeriesStep(u: Unit, step: nat, next: Instant, t2: Instant, loc: Location)
    requires u.Known() && step >= 1
    ensures next < t2 ==> Series(u, step, next, t2, loc) == [next] + Series(u, step, Advance(u, step, next, loc), t2, loc)
    ensures t2 <= next ==> Series(u, step, next, t2, loc) == []
  {
  }

  /**
   * The series starts at `next`, increases strictly, stays before t2, goes
   * from each element to the next by one advance, and stops at the first
   * candidate that is not before t2.
   */
  lemma {:induction false} SeriesShape(u: Unit, step: nat, next: Instant, t2: Instant, loc: Location)
    requires u.Known() && step >= 1
    ensures var s := Series(u, step, next, t2, loc);
      && (|s| == 0 <==> t2 <= next)
      && (|s| > 0 ==> s[0] == next && t2 <= Advance(u, step, s[|s| - 1], loc))
      && (forall i :: 0 <= i < |s| ==> next <= s[i] < t2)
      && (forall i :: 0 <= i < |s| - 1 ==> s[i + 1] == Advance(u, step, s[i], loc))
      && (forall i, k :: 0 <= i < k < |s| ==> s[i] < s[k])
    decreases t2 - next
  {
    hide Advance;
    if next < t2 {
      var a := Advance(u, step, next, loc);
      SeriesShape(u, step, a, t2, loc);
      var s, rest := Series(u, step, next, t2, loc), Series(u, step, a, t2, loc);
      assert s == [next] + rest;
      forall i | 0 <= i < |s| - 1
        ensures s[i + 1] == Advance(u, step, s[i], loc)
      {
        if i > 0 {
          assert s[i] == rest[i - 1];
        }
      }
      forall i, k | 0 <= i < k < |s|
        ensures s[i] < s[k]
      {
        assert s[k] == rest[k - 1];
        if i > 0 {
          assert s[i] == rest[i - 1];
        }
      }
    }
  }

  /**
   * From the start of period `j`, element `i` of the series is the start
   * of period `j + i * step`, and the first period start left out is not
   * before t2.
   */
  lemma {:induction false} SeriesOfAnchors(u: Unit, step: nat, j: int, t2: Instant, loc: Location)
    requires u.Known() && step >= 1
    ensures var s := Series(u, step, Anchor(u, j, loc), t2, loc);
      && (forall i :: 0 <= i < |s| ==> s[i] == Anchor(u, j + i * step, loc))
      && t2 <= Anchor(u, j + |s| * step, loc)
    decreases t2 - Anchor(u, j, loc)
  {
    hide Advance, Anchor;
    var a := Anchor(u, j, loc);
    if a < t2 {
      AdvanceAnchor(u, step, j, loc);
      SeriesOfAnchors(u, step, j + step, t2, loc);
      var s, rest := Series(u, step, a, t2, loc), Series(u, step, Anchor(u, j + step, loc), t2, loc);
      assert s == [a] + rest;
      forall i | 0 < i < |s|
        ensures s[i] == Anchor(u, j + i * step, loc)
      {
        assert s[i] == rest[i - 1];
        assert j + step + (i - 1) * step == j + i * step;
      }
      assert j + step + |rest| * step == j + |s| * step;
    }
  }

  /** Every other element, starting with the first. */
  function EvenIndexed<T>(s: seq<T>): (r: seq<T>)
    ensures |r| == (|s| + 1) / 2
    ensures forall i :: 0 <= i < |r| ==> r[i] == s[2 * i]
  {
    if |s| <= 1 then s else [s[0]] + EvenIndexed(s[2..])
  }

  /**
   * Doubling the step from a period start keeps every other element of
   * the series.
   */
  lemma {:induction false} DoubleStep(u: Unit, step: nat, j: int, t2: Instant, loc: Location)
    requires u.Known() && step >= 1
    ensures Series(u, 2 * step, Anchor(u, j, loc), t2, loc) == EvenIndexed(Series(u, step, Anchor(u, j, loc), t2, loc))
    decreases t2 - Anchor(u, j, loc)
  {
    hide Advance, Anchor;
    var a := Anchor(u, j, loc);
    if a < t2 {
      AdvanceAnchor(u, step, j, loc);
      AdvanceAnchor(u, step, j + step, loc);
      AdvanceAnchor(u, 2 * step, j, loc);
      assert j + step + step == j + 2 * step;
      var b, c := Anchor(u, j + step, loc), Anchor(u, j + 2 * step, loc);
      assert Series(u, 2 * step, a, t2, loc) == [a] + Series(u, 2 * step, c, t2, loc);
      assert Series(u, step, a, t2, loc) == [a] + Series(u, step, b, t2, loc);
      if b < t2 {
        DoubleStep(u, step, j + 2 * step, t2, loc);
        var rest := Series(u, step, c, t2, loc);
        assert Series(u, step, a, t2, loc) == [a, b] + rest;
        assert ([a, b] + rest)[2..] == rest;
      }
    }
  }

  /** Formatting commutes with keeping every other element. */
  lemma FormatAllEvenIndexed(ts: seq<Instant>)
    ensures FormatAll(EvenIndexed(ts)) == EvenIndexed(FormatAll(ts))
  {
    hide FormatUTC;
    var a, b := FormatAll(EvenIndexed(ts)), EvenIndexed(FormatAll(ts));
    assert |a| == |b|;
    forall i | 0 <= i < |a|
      ensures a[i] == b[i]
    {
    }
  }

  /** Formatting commutes with dropping the first element. */
  lemma FormatAllTail(ts: seq<Instant>)
    requires ts != []
    ensures FormatAll(ts)[1..] == FormatAll(ts[1..])
  {
  }

  /** Period starts a whole number of steps further on are later. */
  lemma {:induction false} AnchorsIncrease(u: Unit, step: nat, j: int, i: nat, k: nat, loc: Location)
    requires u.Known() && step >= 1 && i <= k
    ensures Anchor(u, j + i * step, loc) <= Anchor(u, j + k * step, loc)
    decreases k - i
  {
    hide Anchor, Advance;
    if i < k {
      AnchorsIncrease(u, step, j, i, k - 1, loc);
      AdvanceAnchor(u, step, j + (k - 1) * step, loc);
      assert j + (k - 1) * step + step == j + k * step;
    }
  }

  /**
   * What a generator lists, before formatting: the starts of periods
   * `j`, `j + step`, `j + 2 * step`, ... from the first index `j`, each
   * strictly between t1 and t2, in increasing order; and every later
   * period start of that progression is not before t2, so none is
   * skipped.
   */
  lemma GeneratedSeries(u: Unit, step: nat, t1: Instant, t2: Instant, loc: Location)
    requires u.Known() && step >= 1
    ensures var s := Series(u, step, Seed(u, step, t1, loc), t2, loc);
      var j := FirstIndex(u, step, t1, loc);
      && (forall i :: 0 <= i < |s| ==> s[i] == Anchor(u, j + i * step, loc) && t1 < s[i] < t2)
      && (forall i, k :: 0 <= i < k < |s| ==> s[i] < s[k])
      && (forall i: nat :: |s| <= i ==> t2 <= Anchor(u, j + i * step, loc))
  {
    hide Anchor, Advance, Seed, FirstIndex;
    var j := FirstIndex(u, step, t1, loc);
    SeedIsAnchor(u, step, t1, loc);
    var s := Series(u, step, Seed(u, step, t1, loc), t2, loc);
    SeriesShape(u, step, Seed(u, step, t1, loc), t2, loc);
    SeriesOfAnchors(u, step, j, t2, loc);
    forall i: nat | |s| <= i
      ensures t2 <= Anchor(u, j + i * step, loc)
    {
      AnchorsIncrease(u, step, j, |s|, i, loc);
    }
  }

  /**
   * For days, months and years the seed does not depend on the step, so
   * doubling the step keeps every other element of the list, starting
   * with the first.
   */
  lemma DoubleStepKeepsEveryOther(u: Unit, step: nat, t1: Instant, t2: Instant, loc: Location)
    requires u.Known() && u != Hours && step >= 1
    ensures FormatAll(Series(u, 2 * step, Seed(u, 2 * step, t1, loc), t2, loc))
         == EvenIndexed(FormatAll(Series(u, step, Seed(u, step, t1, loc), t2, loc)))
  {
    hide Anchor, Advance, FirstIndex, FormatAll, EvenIndexed;
    assert Seed(u, 2 * step, t1, loc) == Seed(u, step, t1, loc);
    SeedIsAnchor(u, step, t1, loc);
    DoubleStep(u, step, FirstIndex(u, step, t1, loc), t2, loc);
    FormatAllEvenIndexed(Series(u, step, Seed(u, step, t1, loc), t2, loc));
  }

  /**
   * For hours the seed is `step` hours after t1, so doubling the step
   * starts one element later: the list keeps every other element from the
   * second on.
   */
  lemma HoursDoubleStep(step: nat, t1: Instant, t2: Instant, loc: Location)
    requires step >= 1
    ensures var single := FormatAll(Series(Hours, step, Seed(Hours, step, t1, loc), t2, loc));
      FormatAll(Series(Hours, 2 * step, Seed(Hours, 2 * step, t1, loc), t2, loc))
        == EvenIndexed(if single == [] then [] else single[1..])
  {
    hide Anchor, Advance, FormatAll, EvenIndexed, Seed, Series;
    var h := t1 / SecondsPerHour;
    SeedIsAnchor(Hours, step, t1, loc);
    SeedIsAnchor(Hours, 2 * step, t1, loc);
    var a, b := Anchor(Hours, h + step, loc), Anchor(Hours, h + 2 * step, loc);
    assert Seed(Hours, step, t1, loc) == a && Seed(Hours, 2 * step, t1, loc) == b;
    assert h + step + step == h + 2 * step;
    AdvanceAnchor(Hours, step, h + step, loc);
    var rest := Series(Hours, step, b, t2, loc);
    var doubled := Series(Hours, 2 * step, b, t2, loc);
    var single := Series(Hours, step, a, t2, loc);
    SeriesStep(Hours, step, a, t2, loc);
    if a < t2 {
      assert single == [a] + rest;
      assert single[1..] == rest;
      FormatAllTail(single);
      DoubleStep(Hours, step, h + 2 * step, t2, loc);
      assert doubled == EvenIndexed(rest);
      FormatAllEvenIndexed(rest);
    } else {
      SeriesStep(Hours, 2 * step, b, t2, loc);
      assert doubled == [];
      assert single == [];
    }
  }

  /** Formatting the series emits its first element, then the series from the next candidate on. */
  lemma FormatSeriesStep(u: Unit, step: nat, next: Instant, t2: Instant, loc: Location)
    requires u.Known() && step >= 1 && next < t2
    ensures FormatAll(Series(u, step, next, t2, loc))
         == [FormatUTC(next)] + FormatAll(Series(u, step, Advance(u, step, next, loc), t2, loc))
  {
    hide Advance, FormatUTC, Series;
    SeriesStep(u, step, next, t2, loc);
    var s := Series(u, step, next, t2, loc);
    assert s[1..] == Series(u, step, Advance(u, step, next, loc), t2, loc);
  }

  /** From 10:46:03 to 12:34:56 on one day in Europe/Athens (UTC+03:00 in October) no midnight falls, so the daily list is empty. */
  lemma NoDaysExample()
    ensures var athens := Location(3 * SecondsPerHour);
      var t1, t2 := MakeTime(2021, 10, 10, 10, 46, 3, athens), MakeTime(2021, 10, 10, 12, 34, 56, athens);
      Series(Days, 1, Seed(Days, 1, t1, athens), t2, athens) == []
  {
    var athens := Location(3 * SecondsPerHour);
    var t1, t2 := MakeTime(2021, 10, 10, 10, 46, 3, athens), MakeTime(2021, 10, 10, 12, 34, 56, athens);
    hide Civil, Seed, Series, EndOfDay, MonthFirst, DayNumber;
    CivilOfMakeTime(DateTime(Date(2021, 10, 10), 10, 46, 3), athens);
    MakeTimeInRange(2021, 10, 10, 12, 34, 56, athens);
    SeedIsAnchor(Days, 1, t1, athens);
    SeriesStep(Days, 1, Seed(Days, 1, t1, athens), t2, athens);
  }

  /** The list for a step of `step` hours, built candidate by candidate. */
  method TimestampsHours(step: nat, t1: Instant, t2: Instant, loc: Location) returns (ptList: seq<string>)
    requires step >= 1
    ensures ptList == FormatAll(Series(Hours, step, Seed(Hours, step, t1, loc), t2, loc))
  {
    hide FormatAll, FormatUTC, Series, Civil, AddDate, EndOfDay, EndOfMonth, YearsSeed, MonthFirst, DayNumber;
    ptList := [];
    var next := TruncateToHour(t1 + step * SecondsPerHour);
    while next < t2
      invariant ptList + FormatAll(Series(Hours, step, next, t2, loc))
             == FormatAll(Series(Hours, step, Seed(Hours, step, t1, loc), t2, loc))
      decreases t2 - next
    {
      FormatSeriesStep(Hours, step, next, t2, loc);
      ptList := ptList + [FormatUTC(next)];
      next := TruncateToHour(next + step * SecondsPerHour);
    }
    SeriesStep(Hours, step, next, t2, loc);
  }

  /** The list for a step of `step` days, built candidate by candidate. */
  method TimestampsDays(step: nat, t1: Instant, t2: Instant, loc: Location) returns (ptList: seq<string>)
    requires step >= 1
    ensures ptList == FormatAll(Series(Days, step, Seed(Days, step, t1, loc), t2, loc))
  {
    hide FormatAll, FormatUTC, Series, Civil, AddDate, EndOfDay, EndOfMonth, YearsSeed, MonthFirst, DayNumber;
    ptList := [];
    var next := EndOfDay(t1, loc);
    while next < t2
      invariant ptList + FormatAll(Series(Days, step, next, t2, loc))
             == FormatAll(Series(Days, step, Seed(Days, step, t1, loc), t2, loc))
      decreases t2 - next
    {
      FormatSeriesStep(Days, step, next, t2, loc);
      ptList := ptList + [FormatUTC(next)];
      next := AddDate(next, 0, 0, step, loc);
    }
    SeriesStep(Days, step, next, t2, loc);
  }

  /** The list for a step of `step` months, built candidate by candidate. */
  method TimestampsMonths(step: nat, t1: Instant, t2: Instant, loc: Location) returns (ptList: seq<string>)
    requires step >= 1
    ensures ptList == FormatAll(Series(Months, step, Seed(Months, step, t1, loc), t2, loc))
  {
    hide FormatAll, FormatUTC, Series, Civil, AddDate, EndOfDay, EndOfMonth, YearsSeed, MonthFirst, DayNumber;
    ptList := [];
    var next := EndOfMonth(t1, loc);
    while next < t2
      invariant ptList + FormatAll(Series(Months, step, next, t2, loc))
             == FormatAll(Series(Months, step, Seed(Months, step, t1, loc), t2, loc))
      decreases t2 - next
    {
      FormatSeriesStep(Months, step, next, t2, loc);
      ptList := ptList + [FormatUTC(next)];
      next := EndOfMonth(AddDate(next, 0, step, -1, loc), loc);
    }
    SeriesStep(Months, step, next, t2, loc);
  }

  /** The list for a step of `step` years, built candidate by candidate from the corrected seed. */
  method TimestampsYears(step: nat, t1: Instant, t2: Instant, loc: Location) returns (ptList: seq<string>)
    requires step >= 1
    ensures ptList == FormatAll(Series(Years, step, Seed(Years, step, t1, loc), t2, loc))
  {
    hide FormatAll, FormatUTC, Series, Civil, AddDate, EndOfDay, EndOfMonth, YearsSeed, MonthFirst, DayNumber;
    ptList := [];
    var next := YearsSeed(t1, loc);
    while next < t2
      invariant ptList + FormatAll(Series(Years, step, next, t2, loc))
             == FormatAll(Series(Years, step, Seed(Years, step, t1, loc), t2, loc))
      decreases t2 - next
    {
      FormatSeriesStep(Years, step, next, t2, loc);
      ptList := ptList + [FormatUTC(next)];
      next := AddDate(next, step, 0, 0, loc);
    }
    SeriesStep(Years, step, next, t2, loc);
  }

  /**
   * A period whose unit is known carries a step of at least one: the
   * service validates periods against a whitelist and relies on the
   * whitelisted ones being sensible (a step of 0 would never advance).
   */
  predicate SensiblePeriod(period: string) {
    PeriodOf(period).1.Known() ==> PeriodOf(period).0 >= 1
  }

  /** The periods the service whitelists unless configured otherwise. */
  const DefaultPeriods: seq<string> := ["1h", "1d", "1mo", "1y"]

  /** Each default period is a step of one of a known unit, so any request they let through can be handled. */
  lemma DefaultPeriodsSensible()
    ensures PeriodOf("1h") == (1, Hours) && PeriodOf("1d") == (1, Days)
    ensures PeriodOf("1mo") == (1, Months) && PeriodOf("1y") == (1, Years)
    ensures forall p :: p in DefaultPeriods ==> SensiblePeriod(p)
  {
    assert Decimal(1) == "1";
    PeriodRoundTrip(1, Hours);
    assert Decimal(1) + UnitText(Hours) == "1h";
    PeriodRoundTrip(1, Days);
    assert Decimal(1) + UnitText(Days) == "1d";
    PeriodRoundTrip(1, Months);
    assert Decimal(1) + UnitText(Months) == "1mo";
    PeriodRoundTrip(1, Years);
    assert Decimal(1) + UnitText(Years) == "1y";
  }

  /**
   * Answers a validated request: parses the period, then runs the
   * generator of its unit over the request's instants in its location;
   * a unit the engine does not know yields no timestamps.
   */
  method HandleRequest(r: Request) returns (ptList: seq<string>)
    requires SensiblePeriod(r.period)
    ensures var (number, unit) := PeriodOf(r.period);
      && (unit.Known() ==> ptList == FormatAll(Series(unit, number, Seed(unit, number, r.t1, r.location), r.t2, r.location)))
      && (!unit.Known() ==> ptList == [])
  {
    var number, unit := ParsePeriod(r.period);
    match unit {
      case Hours =>
        ptList := TimestampsHours(number, r.t1, r.t2, r.location);
      case Days =>
        ptList := TimestampsDays(number, r.t1, r.t2, r.location);
      case Months =>
        ptList := TimestampsMonths(number, r.t1, r.t2, r.location);
      case Years =>
        ptList := TimestampsYears(number, r.t1, r.t2, r.location);
      case Unknown(_) =>
        ptList := [];
    }
  }

  /** Under a location whose offset is a whole number of hours the years seed as written is the intended one. */
  lemma YearsSeedWholeHourOffset(t1: Instant, loc: Location)
    requires loc.offset % SecondsPerHour == 0
    ensures YearsSeedAsWritten(t1, loc) == YearsSeed(t1, loc)
  {
    hide EndOfYear, YearsSeed, Civil, Anchor;
    NewYearTruncates(t1, loc);
    var e := EndOfYear(t1, loc);
    WholeHourShift(e, loc.offset);
  }

  lemma WholeHourShift(e: int, offset: int)
    requires offset % SecondsPerHour == 0
    ensures (e + offset) % SecondsPerHour == e % SecondsPerHour
  {
    HourSplit(e / SecondsPerHour + offset / SecondsPerHour, e % SecondsPerHour);
  }

  /**
   * In Asia/Kolkata (UTC+05:30), from 2021-06-15T00:00:00Z, the years seed
   * as written is 2021-12-31T19:00:00Z, which reads 00:30 on 1 January
   * 2022 in that location; local midnight is 2021-12-31T18:30:00Z.
   */
  lemma YearsSeedHalfHourOffset()
    ensures var kolkata := Location(19800);
      var t1 := MakeTime(2021, 6, 15, 0, 0, 0, UTC);
      && FormatUTC(t1) == "20210615T000000Z"
      && FormatUTC(YearsSeedAsWritten(t1, kolkata)) == "20211231T190000Z"
      && Civil(YearsSeedAsWritten(t1, kolkata), kolkata) == DateTime(Date(2022, 1, 1), 0, 30, 0)
      && FormatUTC(YearsSeed(t1, kolkata)) == "20211231T183000Z"
      && Civil(YearsSeed(t1, kolkata), kolkata) == Midnight(Date(2022, 1, 1))
  {
    hide *;
    KolkataStart();
    YearsSeedInKolkata(MakeTime(2021, 6, 15, 0, 0, 0, UTC));
  }

  lemma KolkataStart()
    ensures var t1 := MakeTime(2021, 6, 15, 0, 0, 0, UTC);
      FormatUTC(t1) == "20210615T000000Z" && Civil(t1, Location(19800)) == DateTime(Date(2021, 6, 15), 5, 30, 0)
  {
    hide Civil, FormatUTC, DayNumber, MonthFirst;
    FormatOfFields(DateTime(Date(2021, 6, 15), 0, 0, 0));
    assert MakeTime(2021, 6, 15, 0, 0, 0, UTC) == MakeTime(2021, 6, 15, 5, 30, 0, Location(19800));
    CivilOfMakeTime(DateTime(Date(2021, 6, 15), 5, 30, 0), Location(19800));
  }

  lemma YearsSeedInKolkata(t1: Instant)
    requires Civil(t1, Location(19800)) == DateTime(Date(2021, 6, 15), 5, 30, 0)
    ensures var kolkata := Location(19800);
      && FormatUTC(YearsSeedAsWritten(t1, kolkata)) == "20211231T190000Z"
      && Civil(YearsSeedAsWritten(t1, kolkata), kolkata) == DateTime(Date(2022, 1, 1), 0, 30, 0)
      && FormatUTC(YearsSeed(t1, kolkata)) == "20211231T183000Z"
      && Civil(YearsSeed(t1, kolkata), kolkata) == Midnight(Date(2022, 1, 1))
  {
    hide Civil, EndOfYear, FormatUTC, MakeTime, YearsSeed, Anchor;
    var kolkata := Location(19800);
    KolkataNewYear(t1);
    FormatOfFields(DateTime(Date(2021, 12, 31), 19, 0, 0));
    FormatOfFields(DateTime(Date(2021, 12, 31), 18, 30, 0));
    AnchorReading(Years, 2022, kolkata);
  }

  /** The end of the year and the intended seed from a Kolkata reading of 2021-06-15 05:30:00. */
  lemma KolkataNewYear(t1: Instant)
    requires Civil(t1, Location(19800)) == DateTime(Date(2021, 6, 15), 5, 30, 0)
    ensures var kolkata := Location(19800);
      var e := EndOfYear(t1, kolkata);
      && e == MakeTime(2021, 12, 31, 19, 0, 0, UTC) && e % SecondsPerHour == 0
      && Civil(e, kolkata) == DateTime(Date(2022, 1, 1), 0, 30, 0)
      && YearsSeed(t1, kolkata) == MakeTime(2021, 12, 31, 18, 30, 0, UTC)
  {
    hide Civil, EndOfYear, DaysBeforeYear, MonthFirst, YearsSeed;
    var kolkata := Location(19800);
    var e := EndOfYear(t1, kolkata);
    CivilOfMakeTime(DateTime(Date(2022, 1, 1), 0, 30, 0), kolkata);
    CivilInjective(e, MakeTime(2022, 1, 1, 0, 30, 0, kolkata), kolkata);
    MakeTimeInRange(2022, 1, 1, 0, 30, 0, kolkata);
    MakeTimeInRange(2021, 12, 31, 19, 0, 0, UTC);
    MakeTimeInRange(2021, 12, 31, 18, 30, 0, UTC);
    DaysBeforeYearStep(2021);
    var base := DaysBeforeYear(2021) + 364;
    assert e == (base * 24 + 19) * SecondsPerHour;
    HourSplit(base * 24 + 19, 0);
  }


  /**
   * In Asia/Kolkata, from a reading of 2021-06-15 05:10:00 (ten minutes
   * past the hour, 2021-06-14T23:40:00Z), the years seed as written is
   * 2021-12-31T18:00:00Z, which reads 23:30 on 31 December 2021 in that
   * location: the yearly list then does not fall on 1 January at all.
   */
  lemma YearsSeedHalfHourEarlyMinute()
    ensures var kolkata := Location(19800);
      var t1 := MakeTime(2021, 6, 15, 5, 10, 0, kolkata);
      && FormatUTC(t1) == "20210614T234000Z"
      && FormatUTC(YearsSeedAsWritten(t1, kolkata)) == "20211231T180000Z"
      && Civil(YearsSeedAsWritten(t1, kolkata), kolkata) == DateTime(Date(2021, 12, 31), 23, 30, 0)
      && FormatUTC(YearsSeed(t1, kolkata)) == "20211231T183000Z"
  {
    hide Civil, FormatUTC, MakeTime, YearsSeedAsWritten, YearsSeed, EndOfYear, DayNumber, MonthFirst;
    var kolkata := Location(19800);
    var t1 := MakeTime(2021, 6, 15, 5, 10, 0, kolkata);
    KolkataEarlyStart();
    KolkataEarlyNewYear(t1);
    FormatOfFields(DateTime(Date(2021, 12, 31), 18, 0, 0));
    FormatOfFields(DateTime(Date(2021, 12, 31), 18, 30, 0));
  }

  lemma KolkataEarlyStart()
    ensures var t1 := MakeTime(2021, 6, 15, 5, 10, 0, Location(19800));
      FormatUTC(t1) == "20210614T234000Z" && Civil(t1, Location(19800)) == DateTime(Date(2021, 6, 15), 5, 10, 0)
  {
    hide Civil, FormatUTC, DaysBeforeYear, MonthFirst;
    FormatOfFields(DateTime(Date(2021, 6, 14), 23, 40, 0));
    MakeTimeInRange(2021, 6, 15, 5, 10, 0, Location(19800));
    MakeTimeInRange(2021, 6, 14, 23, 40, 0, UTC);
    CivilOfMakeTime(DateTime(Date(2021, 6, 15), 5, 10, 0), Location(19800));
  }

  /** The end of the year and both seeds from a Kolkata reading of 2021-06-15 05:10:00. */
  lemma KolkataEarlyNewYear(t1: Instant)
    requires Civil(t1, Location(19800)) == DateTime(Date(2021, 6, 15), 5, 10, 0)
    ensures var kolkata := Location(19800);
      && YearsSeedAsWritten(t1, kolkata) == MakeTime(2021, 12, 31, 18, 0, 0, UTC)
      && Civil(YearsSeedAsWritten(t1, kolkata), kolkata) == DateTime(Date(2021, 12, 31), 23, 30, 0)
      && YearsSeed(t1, kolkata) == MakeTime(2021, 12, 31, 18, 30, 0, UTC)
  {
    hide Civil, EndOfYear, DaysBeforeYear, MonthFirst, YearsSeed;
    var kolkata := Location(19800);
    var e := EndOfYear(t1, kolkata);
    CivilOfMakeTime(DateTime(Date(2022, 1, 1), 0, 10, 0), kolkata);
    CivilInjective(e, MakeTime(2022, 1, 1, 0, 10, 0, kolkata), kolkata);
    MakeTimeInRange(2022, 1, 1, 0, 10, 0, kolkata);
    MakeTimeInRange(2021, 12, 31, 18, 0, 0, UTC);
    MakeTimeInRange(2021, 12, 31, 18, 30, 0, UTC);
    MakeTimeInRange(2021, 12, 31, 23, 30, 0, kolkata);
    CivilOfMakeTime(DateTime(Date(2021, 12, 31), 23, 30, 0), kolkata);
    DaysBeforeYearStep(2021);
    var base := DaysBeforeYear(2021) + 364;
    assert e == (base * 24 + 18) * SecondsPerHour + 40 * SecondsPerMinute;
    HourSplit(base * 24 + 18, 40 * SecondsPerMinute);
  }

}

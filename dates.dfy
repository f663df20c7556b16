/**
 * Calendar dates as Gregorian day numbers.
 *
 * The application passes dates around as ISO 8601 calendar-date strings
 * (`YYYY-MM-DD`, the extended format of section 4.1.2.2 of ISO 8601:2004).
 * For four-digit years, the plain string order of that form is chronological
 * order, so the model replaces each string by its day number: the number of
 * days since 1970-01-01 in the proleptic Gregorian calendar.
 */
module Dates {

  /** A calendar date: days since 1970-01-01 (negative before it). */
  type Day = int

  predicate IsLeapYear(y: int) {
    y % 4 == 0 && (y % 100 != 0 || y % 400 == 0)
  }

  predicate ValidMonth(m: int) {
    1 <= m <= 12
  }

  function DaysInMonth(y: int, m: int): (n: int)
    requires ValidMonth(m)
    ensures 28 <= n <= 31
    ensures n == 29 <==> m == 2 && IsLeapYear(y)
  {
    if m == 2 then (if IsLeapYear(y) then 29 else 28)
    else if m == 4 || m == 6 || m == 9 || m == 11 then 30
    else 31
  }

  /**
   * The day number of year `y`, month `m`, day `d`. The computation counts
   * years from March, so that the leap day falls at the end of a year, and
   * groups them in 400-year eras of 146097 days (`/` with a positive divisor
   * rounds down, as the algorithm needs).
   */
  function DaysFromCivil(y: int, m: int, d: int): Day
    requires ValidMonth(m)
  {
    var y' := if m <= 2 then y - 1 else y;
    var era := y' / 400;
    var yoe := y' - era * 400;
    var mp := (m + 9) % 12;
    var doy := (153 * mp + 2) / 5 + d - 1;
    var doe := yoe * 365 + yoe / 4 - yoe / 100 + doy;
    era * 146097 + doe - 719468
  }

  /** The day of the week, 0 for Sunday through 6 for Saturday. 1970-01-01 was a Thursday. */
  function Weekday(d: Day): (w: int)
    ensures 0 <= w < 7
  {
    (d + 4) % 7
  }

  /** The month after month `m` of year `y`, as a (year, month) pair. */
  function NextMonth(y: int, m: int): (r: (int, int))
    requires ValidMonth(m)
    ensures ValidMonth(r.1)
    ensures r == (if m == 12 then (y + 1, 1) else (y, m + 1))
  {
    if m == 12 then (y + 1, 1) else (y, m + 1)
  }

  /** Consecutive days of a month have consecutive day numbers. */
  lemma DaysFromCivilNextDay(y: int, m: int, d: int)
    requires ValidMonth(m)
    ensures DaysFromCivil(y, m, d + 1) == DaysFromCivil(y, m, d) + 1
  {
  }

  /** Day number arithmetic of one 400-year era: `r` years after the start of era `e`, counted from March. */
  function EraDay(e: int, r: int): int {
    e * 146097 + r * 365 + r / 4 - r / 100 - 719468
  }

  lemma MarchFirst(y': int)
    ensures DaysFromCivil(y', 3, 1) == EraDay(y' / 400, y' % 400)
  {
  }

  lemma EraYearStep(e: int, r: int)
    requires 0 <= r < 399
    ensures EraDay(e, r + 1) - EraDay(e, r) == 365 + (if (r + 1) % 4 == 0 && (r + 1) % 100 != 0 then 1 else 0)
  {
  }

  lemma EraLastYear(e: int)
    ensures EraDay(e + 1, 0) - EraDay(e, 399) == 366
  {
  }

  /** The remainder of `x` modulo 4, 100 and 400, given a quotient and a remainder in range. */
  lemma Mod4Of(x: int, q: int, r: int)
    requires x == 4 * q + r && 0 <= r < 4
    ensures x % 4 == r
  {
  }

  lemma Mod100Of(x: int, q: int, r: int)
    requires x == 100 * q + r && 0 <= r < 100
    ensures x % 100 == r
  {
  }

  lemma Mod400Of(x: int, q: int, r: int)
    requires x == 400 * q + r && 0 <= r < 400
    ensures x % 400 == r
  {
  }

  /** Adding whole eras to a year does not change its leap-year status. */
  lemma LeapYearPeriodic(e: int, s: int)
    requires 0 <= s < 400
    ensures IsLeapYear(e * 400 + s) == ((s % 4 == 0 && s % 100 != 0) || s == 0)
  {
    var x := e * 400 + s;
    Mod4Of(x, 100 * e + s / 4, s % 4);
    Mod100Of(x, 4 * e + s / 100, s % 100);
    Mod400Of(x, e, s);
  }

  /** The length of the computational (March-to-February) year that starts in March of `y'`. */
  lemma YearLength(y': int)
    ensures DaysFromCivil(y' + 1, 3, 1) - DaysFromCivil(y', 3, 1) == 365 + (if IsLeapYear(y' + 1) then 1 else 0)
  {
    MarchFirst(y');
    MarchFirst(y' + 1);
    var e, r := y' / 400, y' % 400;
    assert y' == e * 400 + r;
    if r == 399 {
      assert (y' + 1) / 400 == e + 1 && (y' + 1) % 400 == 0;
      EraLastYear(e);
      LeapYearPeriodic(e + 1, 0);
    } else {
      assert (y' + 1) / 400 == e && (y' + 1) % 400 == r + 1;
      EraYearStep(e, r);
      LeapYearPeriodic(e, r + 1);
    }
  }

  /** The year, counted from March, that month `m` of year `y` belongs to. */
  function MarchYear(y: int, m: int): int {
    if m <= 2 then y - 1 else y
  }

  /** The number of days from March 1 to the first day of month `m`, in the year counted from March. */
  function MonthOffset(m: int): int
    requires ValidMonth(m)
  {
    (153 * ((m + 9) % 12) + 2) / 5
  }

  /** A day number is the first of March of its computational year plus the offset of its month and day. */
  lemma CivilSplit(y: int, m: int, d: int)
    requires ValidMonth(m)
    ensures DaysFromCivil(y, m, d) == DaysFromCivil(MarchYear(y, m), 3, 1) + MonthOffset(m) + d - 1
  {
  }

  /** Within a computational year, consecutive month offsets differ by the length of the month. */
  lemma MonthOffsetStep(y: int, m: int)
    requires ValidMonth(m) && m != 2
    ensures MonthOffset(NextMonth(y, m).1) == MonthOffset(m) + DaysInMonth(y, m)
    ensures MarchYear(NextMonth(y, m).0, NextMonth(y, m).1) == MarchYear(y, m)
  {
    if m == 1 {
      assert MonthOffset(1) == 306 && MonthOffset(2) == 337;
    } else if m == 3 {
      assert MonthOffset(3) == 0 && MonthOffset(4) == 31;
    } else if m == 4 {
      assert MonthOffset(4) == 31 && MonthOffset(5) == 61;
    } else if m == 5 {
      assert MonthOffset(5) == 61 && MonthOffset(6) == 92;
    } else if m == 6 {
      assert MonthOffset(6) == 92 && MonthOffset(7) == 122;
    } else if m == 7 {
      assert MonthOffset(7) == 122 && MonthOffset(8) == 153;
    } else if m == 8 {
      assert MonthOffset(8) == 153 && MonthOffset(9) == 184;
    } else if m == 9 {
      assert MonthOffset(9) == 184 && MonthOffset(10) == 214;
    } else if m == 10 {
      assert MonthOffset(10) == 214 && MonthOffset(11) == 245;
    } else if m == 11 {
      assert MonthOffset(11) == 245 && MonthOffset(12) == 275;
    } else {
      assert MonthOffset(12) == 275 && MonthOffset(1) == 306;
    }
  }

  /**
   * The months tile the time line: the first day of the next month is the
   * first day of this month plus the length of this month.
   */
  lemma {:induction false} MonthsTile(y: int, m: int)
    requires ValidMonth(m)
    ensures var (y2, m2) := NextMonth(y, m);
      DaysFromCivil(y2, m2, 1) == DaysFromCivil(y, m, 1) + DaysInMonth(y, m)
  {
    var (y2, m2) := NextMonth(y, m);
    CivilSplit(y, m, 1);
    CivilSplit(y2, m2, 1);
    if m == 2 {
      YearLength(y - 1);
      assert MonthOffset(2) == 337 && MonthOffset(3) == 0;
    } else {
      MonthOffsetStep(y, m);
    }
  }

  /** Two fixed points of the numbering: the epoch, and 2024-05-01, a Wednesday. */
  lemma KnownDays()
    ensures DaysFromCivil(1970, 1, 1) == 0 && Weekday(0) == 4
    ensures DaysFromCivil(2024, 5, 1) == 19844 && Weekday(19844) == 3
  {
  }
}

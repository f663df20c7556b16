/**
 * The month calendar: the padded Sunday-to-Saturday grid of days shown for a
 * month, and the classification of each cell relative to today and to the
 * entries of the month.
 */
module Calendar {
  import opened Dates
  import opened Entries
  import Streaks

  /** The month on display. */
  datatype YearMonth = YearMonth(year: int, month: int)

  /** `startOfMonth`: the first day of the month. */
  function MonthStart(ym: YearMonth): Day
    requires ValidMonth(ym.month)
  {
    DaysFromCivil(ym.year, ym.month, 1)
  }

  /** `endOfMonth`: the last day of the month. */
  function MonthEnd(ym: YearMonth): Day
    requires ValidMonth(ym.month)
  {
    MonthStart(ym) + DaysInMonth(ym.year, ym.month) - 1
  }

  /** `isSameMonth(day, currentMonth)`: `d` lies between the first and the last day of the month. */
  predicate InMonth(d: Day, ym: YearMonth)
    requires ValidMonth(ym.month)
  {
    MonthStart(ym) <= d <= MonthEnd(ym)
  }

  /**
   * `isSameMonth` compares year and month: a day lies between the first and
   * the last day of the month exactly when it is day k of that year and
   * month, for some k from 1 to the length of the month.
   */
  lemma InMonthIsSameMonth(d: Day, ym: YearMonth)
    requires ValidMonth(ym.month)
    ensures InMonth(d, ym) <==>
      exists k :: 1 <= k <= DaysInMonth(ym.year, ym.month) && d == DaysFromCivil(ym.year, ym.month, k)
  {
    CivilSplit(ym.year, ym.month, 1);
    if InMonth(d, ym) {
      var k := d - MonthStart(ym) + 1;
      CivilSplit(ym.year, ym.month, k);
      assert d == DaysFromCivil(ym.year, ym.month, k);
    }
    forall k | 1 <= k <= DaysInMonth(ym.year, ym.month) && d == DaysFromCivil(ym.year, ym.month, k)
      ensures InMonth(d, ym)
    {
      CivilSplit(ym.year, ym.month, k);
    }
  }

  lemma WeekdayShift(d: Day, k: nat)
    ensures Weekday(d + k) == (Weekday(d) + k) % 7
  {
  }

  /** `startOfWeek` with weeks starting on Sunday: the Sunday on or before `d`. */
  function StartOfWeek(d: Day): (r: Day)
    ensures Weekday(r) == 0 && r <= d < r + 7
  {
    d - Weekday(d)
  }

  /** `endOfWeek` with weeks starting on Sunday: the Saturday on or after `d`. */
  function EndOfWeek(d: Day): (r: Day)
    ensures Weekday(r) == 6 && r - 7 < d <= r
  {
    d + (6 - Weekday(d))
  }

  /** `eachDayOfInterval` from the start of the week of the 1st to the end of the week of the last day. */
  function GridDays(ym: YearMonth): seq<Day>
    requires ValidMonth(ym.month)
  {
    var start := StartOfWeek(MonthStart(ym));
    var end := EndOfWeek(MonthEnd(ym));
    seq(end - start + 1, i => start + i)
  }

  /** The classification of one grid cell. */
  datatype DayCell = DayCell(date: Day, inMonth: bool, today: bool, completed: bool,
                             isPast: bool, isFuture: bool, missed: bool, canClick: bool)

  /** `new Set(entries.filter(e => e.completed).map(e => e.entry_date))`. */
  function CompletedSet(entries: seq<Entry>): set<Day> {
    set i | 0 <= i < |entries| && entries[i].completed :: entries[i].date
  }

  /** The calendar's completed days are the members of the dashboard's completed-date list. */
  lemma CompletedSetOfCompletedDates(entries: seq<Entry>)
    ensures CompletedSet(entries) == set d | d in Streaks.CompletedDates(entries)
  {
    var dates := Streaks.CompletedDates(entries);
    forall d | d in dates ensures d in CompletedSet(entries) {
      var i :| 0 <= i < |entries| && entries[i].completed && entries[i].date == d;
    }
  }

  /** The flags of the cell of `day`, with `today` in place of the clock. */
  function ClassifyDay(day: Day, ym: YearMonth, completedSet: set<Day>, today: Day): (c: DayCell)
    requires ValidMonth(ym.month)
    ensures c.date == day && (c.inMonth <==> InMonth(day, ym)) && (c.completed <==> day in completedSet)
    ensures (c.isPast <==> day < today) && (c.today <==> day == today) && (c.isFuture <==> day > today)
    ensures c.missed <==> InMonth(day, ym) && day < today && day !in completedSet
    ensures c.canClick <==> InMonth(day, ym) && day == today
  {
    var inMonth := InMonth(day, ym);
    var isToday := day == today;
    var completed := day in completedSet;
    var isPast := day < today;
    var isFuture := !isPast && !isToday;
    var missed := inMonth && isPast && !completed && !isToday;
    var canClick := inMonth && isToday;
    DayCell(day, inMonth, isToday, completed, isPast, isFuture, missed, canClick)
  }

  /** The cells of the month grid, in order. */
  function ClassifyMonth(ym: YearMonth, entries: seq<Entry>, today: Day): (cells: seq<DayCell>)
    requires ValidMonth(ym.month)
    ensures |cells| == |GridDays(ym)| && forall i :: 0 <= i < |cells| ==> cells[i].date == GridDays(ym)[i]
  {
    var days := GridDays(ym);
    var completedSet := CompletedSet(entries);
    seq(|days|, i requires 0 <= i < |days| => ClassifyDay(days[i], ym, completedSet, today))
  }

  /**
   * The grid is the contiguous ascending run of days from the Sunday on or
   * before the 1st to the Saturday on or after the last day of the month:
   * four, five or six full weeks.
   */
  lemma GridShape(ym: YearMonth)
    requires ValidMonth(ym.month)
    ensures var g := GridDays(ym);
      && |g| % 7 == 0 && 28 <= |g| <= 42
      && Weekday(g[0]) == 0 && g[0] <= MonthStart(ym) < g[0] + 7
      && Weekday(g[|g| - 1]) == 6 && g[|g| - 1] - 7 < MonthEnd(ym) <= g[|g| - 1]
      && (forall i :: 0 < i < |g| ==> g[i] == g[i - 1] + 1)
  {
    var first, last := MonthStart(ym), MonthEnd(ym);
    var w, n := Weekday(first), DaysInMonth(ym.year, ym.month);
    WeekdayShift(first, n - 1);
    var t := w + n - 1;
    assert Weekday(last) == t % 7;
    var g := GridDays(ym);
    assert |g| == t - t % 7 + 7;
    assert t - t % 7 == 7 * (t / 7);
    assert 3 <= t / 7 <= 5;
  }

  /** The indices of the grid that show day `d`. */
  function IndicesOf(g: seq<Day>, d: Day): set<int> {
    set i | 0 <= i < |g| && g[i] == d
  }

  /** Every day of the month appears in the grid exactly once. */
  lemma GridHasMonthOnce(ym: YearMonth, d: Day)
    requires ValidMonth(ym.month) && InMonth(d, ym)
    ensures |IndicesOf(GridDays(ym), d)| == 1
  {
    var g := GridDays(ym);
    GridShape(ym);
    var k := d - g[0];
    assert IndicesOf(g, d) == {k};
  }

  /** Each cell is exactly one of past, today and future, as its day compares with today. */
  lemma TimeClassesPartition(ym: YearMonth, entries: seq<Entry>, today: Day, i: int)
    requires ValidMonth(ym.month) && 0 <= i < |ClassifyMonth(ym, entries, today)|
    ensures var c := ClassifyMonth(ym, entries, today)[i];
      && (c.isPast <==> c.date < today) && (c.today <==> c.date == today) && (c.isFuture <==> c.date > today)
      && (c.isPast || c.today || c.isFuture)
      && !(c.isPast && c.today) && !(c.isPast && c.isFuture) && !(c.today && c.isFuture)
  {
  }

  /** A cell is completed exactly when some entry of its day is completed; other entries do not matter. */
  lemma CompletedIffCompletedEntry(ym: YearMonth, entries: seq<Entry>, today: Day, i: int)
    requires ValidMonth(ym.month) && 0 <= i < |ClassifyMonth(ym, entries, today)|
    ensures var c := ClassifyMonth(ym, entries, today)[i];
      c.completed <==> exists j :: 0 <= j < |entries| && entries[j].date == c.date && entries[j].completed
  {
    var c := ClassifyMonth(ym, entries, today)[i];
    if c.completed {
      var j :| 0 <= j < |entries| && entries[j].completed && entries[j].date == c.date;
    }
  }

  /** Adding an entry that is not completed changes no cell. */
  lemma IncompleteEntryIgnored(ym: YearMonth, before: seq<Entry>, e: Entry, after: seq<Entry>, today: Day)
    requires ValidMonth(ym.month) && !e.completed
    ensures ClassifyMonth(ym, before + [e] + after, today) == ClassifyMonth(ym, before + after, today)
  {
    var xs, ys := before + [e] + after, before + after;
    assert CompletedSet(xs) == CompletedSet(ys) by {
      forall d | d in CompletedSet(xs) ensures d in CompletedSet(ys) {
        var j :| 0 <= j < |xs| && xs[j].completed && xs[j].date == d;
        if j < |before| {
          assert ys[j] == xs[j];
        } else {
          assert j > |before| && ys[j - 1] == xs[j];
        }
      }
      forall d | d in CompletedSet(ys) ensures d in CompletedSet(xs) {
        var j :| 0 <= j < |ys| && ys[j].completed && ys[j].date == d;
        if j < |before| {
          assert xs[j] == ys[j];
        } else {
          assert xs[j + 1] == ys[j];
        }
      }
    }
  }

  /**
   * A cell is missed exactly when it is a day of the month before today
   * without a completed entry; today and future days are never missed.
   */
  lemma MissedMeaning(ym: YearMonth, entries: seq<Entry>, today: Day, i: int)
    requires ValidMonth(ym.month) && 0 <= i < |ClassifyMonth(ym, entries, today)|
    ensures var c := ClassifyMonth(ym, entries, today)[i];
      && (c.missed <==> c.inMonth && c.date < today && !c.completed)
      && (c.isFuture || c.today ==> !c.missed)
  {
  }

  /**
   * A cell is in the month exactly when its day is, and can be clicked
   * exactly when it is today and in the month; cells outside the month never
   * can.
   */
  lemma ClickableOnlyToday(ym: YearMonth, entries: seq<Entry>, today: Day, i: int)
    requires ValidMonth(ym.month) && 0 <= i < |ClassifyMonth(ym, entries, today)|
    ensures var c := ClassifyMonth(ym, entries, today)[i];
      && (c.inMonth <==> InMonth(c.date, ym))
      && (c.canClick <==> InMonth(c.date, ym) && c.date == today)
      && (!c.inMonth ==> !c.canClick)
  {
  }

  /** At most one cell of the grid can be clicked. */
  lemma AtMostOneClickable(ym: YearMonth, entries: seq<Entry>, today: Day, i: int, j: int)
    requires ValidMonth(ym.month)
    requires 0 <= i < |ClassifyMonth(ym, entries, today)| && 0 <= j < |ClassifyMonth(ym, entries, today)|
    requires ClassifyMonth(ym, entries, today)[i].canClick && ClassifyMonth(ym, entries, today)[j].canClick
    ensures i == j
  {
  }

  /** The indices of the cells flagged as today. */
  function TodayCells(cells: seq<DayCell>): set<int> {
    set i | 0 <= i < |cells| && cells[i].today
  }

  /** Exactly one cell is today when today falls in the grid, padding included, and none otherwise. */
  lemma TodayCellCount(ym: YearMonth, entries: seq<Entry>, today: Day)
    requires ValidMonth(ym.month)
    ensures var g := GridDays(ym);
      |TodayCells(ClassifyMonth(ym, entries, today))| == if g[0] <= today <= g[|g| - 1] then 1 else 0
  {
    var g := GridDays(ym);
    var cells := ClassifyMonth(ym, entries, today);
    GridShape(ym);
    if g[0] <= today <= g[|g| - 1] {
      assert TodayCells(cells) == {today - g[0]};
    } else {
      assert TodayCells(cells) == {};
    }
  }
}

/**
 * The streak engine of the dashboard: from all of a user's entries and the
 * current day it computes the current streak (consecutive completed days
 * ending today, or yesterday while today is still open) and the longest
 * streak (the longest run of consecutive completed days in the history).
 */
module Streaks {
  import opened Dates
  import opened Entries
  import opened Sorting

  /** The backward walk inspects at most this many days, today included. */
  const WalkLimit := 365

  /** `allEntries.filter(e => e.completed).map(e => e.entry_date)`. */
  function CompletedDates(entries: seq<Entry>): (r: seq<Day>)
    ensures |r| <= |entries|
    ensures forall d :: d in r <==> exists i :: 0 <= i < |entries| && entries[i].completed && entries[i].date == d
    ensures r == [] <==> forall i :: 0 <= i < |entries| ==> !entries[i].completed
  {
    if entries == [] then []
    else
      var rest := CompletedDates(entries[1..]);
      assert forall i :: 0 < i < |entries| ==> entries[i] == entries[1..][i - 1];
      if entries[0].completed then [entries[0].date] + rest else rest
  }

  /** The `k` consecutive days `first`, `first + 1`, ..., `first + k - 1` all occur in `dates`. */
  predicate IsRun(dates: seq<Day>, first: Day, k: nat) {
    forall x :: first <= x < first + k ==> x in dates
  }

  /**
   * `k` is the length of the run of days of `dates` that ends at `d`, when at
   * most `cap` days are looked at: the run is there, and either the cap is
   * reached or the day before it is missing.
   */
  predicate IsCappedRunEndingAt(dates: seq<Day>, d: Day, cap: nat, k: nat) {
    k <= cap && IsRun(dates, d - k + 1, k) && (k == cap || d - k !in dates)
  }

  /** The number of consecutive days `d`, `d - 1`, ... that occur in `dates`, counting at most `cap`. */
  function RunBack(dates: seq<Day>, d: Day, cap: nat): (k: nat)
    ensures k <= cap
    decreases cap
  {
    if cap == 0 || d !in dates then 0 else 1 + RunBack(dates, d - 1, cap - 1)
  }

  /**
   * The current streak: the run ending today, or, when today has no completed
   * entry, the run ending yesterday (today's step of the walk is spent).
   */
  function CurrentStreakOf(dates: seq<Day>, today: Day): (r: nat)
    ensures r <= WalkLimit
    ensures today !in dates ==> r <= WalkLimit - 1
  {
    if today in dates then RunBack(dates, today, WalkLimit) else RunBack(dates, today - 1, WalkLimit - 1)
  }

  /** The length of the run of neighbours exactly one day apart that ends at index `i`. */
  function RunEndingAt(s: seq<Day>, i: nat): (k: nat)
    requires i < |s|
    ensures 1 <= k <= i + 1
  {
    if i == 0 then 1
    else if s[i] - s[i - 1] == 1 then RunEndingAt(s, i - 1) + 1
    else 1
  }

  function Max(a: int, b: int): int {
    if a >= b then a else b
  }

  /** The longest such run ending among the first `n` elements. */
  function LongestUpTo(s: seq<Day>, n: nat): (m: nat)
    requires n <= |s|
    ensures m <= n && (n > 0 ==> 1 <= m)
  {
    if n == 0 then 0 else Max(LongestUpTo(s, n - 1), RunEndingAt(s, n - 1))
  }

  /** The longest streak of a sorted sequence of dates: the longest run of neighbours one day apart. */
  function LongestStreakOf(sorted: seq<Day>): (r: nat)
    ensures |sorted| == 0 ==> r == 0
    ensures |sorted| > 0 ==> 1 <= r <= |sorted|
  {
    LongestUpTo(sorted, |sorted|)
  }

  /**
   * The dashboard's streak computation, with today as a parameter. Dates are
   * not deduplicated: a repeated date is a neighbour zero days apart and
   * resets the running count in the longest-streak scan.
   */
  method ComputeStreaks(allEntries: seq<Entry>, today: Day) returns (currentStreak: nat, longestStreak: nat)
    ensures currentStreak == CurrentStreakOf(CompletedDates(allEntries), today)
    ensures longestStreak == LongestStreakOf(SortAsc(CompletedDates(allEntries)))
  {
    if |allEntries| == 0 {
      return 0, 0;
    }
    var completedDates := Reverse(SortAsc(CompletedDates(allEntries)));
    ReverseSortedMembers(CompletedDates(allEntries));
    if |completedDates| == 0 {
      return 0, 0;
    }
    currentStreak := WalkBack(completedDates, today);
    CurrentStreakIgnoresOrderAndRepeats(completedDates, CompletedDates(allEntries), today);
    var allSorted := SortAsc(completedDates);
    ResortReversed(CompletedDates(allEntries));
    longestStreak := ScanLongest(allSorted);
  }

  /** The current-streak loop: walk back from today over at most 365 days. */
  method WalkBack(completedDates: seq<Day>, today: Day) returns (current: nat)
    ensures current == CurrentStreakOf(completedDates, today)
  {
    current := 0;
    var checkDate := today;
    var i := 0;
    while i < WalkLimit
      invariant 0 <= i <= WalkLimit && checkDate == today - i
      invariant current == if i == 0 then 0 else if today in completedDates then i else i - 1
      invariant forall x :: today - i < x < today ==> x in completedDates
    {
      if checkDate in completedDates {
        current := current + 1;
      } else if checkDate != today {
        MissedDayEndsStreak(completedDates, today, i);
        break;
      }
      checkDate := checkDate - 1;
      i := i + 1;
    }
    if i == WalkLimit {
      FullWalk(completedDates, today);
    }
  }

  /** The longest-streak loop over the dates in ascending order. */
  method ScanLongest(allSorted: seq<Day>) returns (longest: nat)
    ensures longest == LongestStreakOf(allSorted)
  {
    longest := 0;
    var streak := 0;
    var k := 0;
    while k < |allSorted|
      invariant 0 <= k <= |allSorted|
      invariant k > 0 ==> streak == RunEndingAt(allSorted, k - 1)
      invariant longest == LongestUpTo(allSorted, k)
    {
      if k == 0 {
        streak := 1;
      } else {
        var diff := allSorted[k] - allSorted[k - 1];
        streak := if diff == 1 then streak + 1 else 1;
      }
      longest := Max(longest, streak);
      k := k + 1;
    }
  }

  /** The reversed sorted copy has the same members and length as the dates. */
  lemma ReverseSortedMembers(dates: seq<Day>)
    ensures forall x :: x in Reverse(SortAsc(dates)) <==> x in dates
    ensures |Reverse(SortAsc(dates))| == |dates|
  {
    var r := Reverse(SortAsc(dates));
    ReversePermutes(SortAsc(dates));
    assert |r| == |multiset(r)| == |multiset(dates)| == |dates|;
    forall x ensures x in r <==> x in dates {
      assert x in r <==> x in multiset(r);
      assert x in dates <==> x in multiset(dates);
    }
  }

  /** A run found by the walk, ended by a missing past day `today - i`. */
  lemma MissedDayEndsStreak(dates: seq<Day>, today: Day, i: nat)
    requires 1 <= i < WalkLimit && today - i !in dates
    requires forall x :: today - i < x < today ==> x in dates
    ensures CurrentStreakOf(dates, today) == if today in dates then i else i - 1
  {
    if today in dates {
      RunBackUnique(dates, today, WalkLimit, i);
    } else {
      RunBackUnique(dates, today - 1, WalkLimit - 1, i - 1);
    }
  }

  /** A walk that used all its steps. */
  lemma FullWalk(dates: seq<Day>, today: Day)
    requires forall x :: today - WalkLimit < x < today ==> x in dates
    ensures CurrentStreakOf(dates, today) == if today in dates then WalkLimit else WalkLimit - 1
  {
    if today in dates {
      RunBackUnique(dates, today, WalkLimit, WalkLimit);
    } else {
      RunBackUnique(dates, today - 1, WalkLimit - 1, WalkLimit - 1);
    }
  }

  /** `RunBack` is the length of the capped run ending at `d`. */
  lemma {:induction false} RunBackIsCappedRun(dates: seq<Day>, d: Day, cap: nat)
    ensures IsCappedRunEndingAt(dates, d, cap, RunBack(dates, d, cap))
    decreases cap
  {
    if cap > 0 && d in dates {
      RunBackIsCappedRun(dates, d - 1, cap - 1);
    }
  }

  /** ... and the only such length. */
  lemma {:induction false} RunBackUnique(dates: seq<Day>, d: Day, cap: nat, k: nat)
    requires IsCappedRunEndingAt(dates, d, cap, k)
    ensures RunBack(dates, d, cap) == k
    decreases cap
  {
    if k > 0 {
      assert d in dates;
      RunBackUnique(dates, d - 1, cap - 1, k - 1);
    }
  }

  /**
   * The current streak is `k` exactly when `k` is the length of the run of
   * completed days ending today (capped at 365 days), or, when today has no
   * completed entry, of the run ending yesterday (capped at 364 days).
   */
  lemma CurrentStreakIsRunEndingToday(dates: seq<Day>, today: Day, k: nat)
    ensures today in dates ==>
      (CurrentStreakOf(dates, today) == k <==> IsCappedRunEndingAt(dates, today, WalkLimit, k))
    ensures today !in dates ==>
      (CurrentStreakOf(dates, today) == k <==> IsCappedRunEndingAt(dates, today - 1, WalkLimit - 1, k))
  {
    if today in dates {
      RunBackIsCappedRun(dates, today, WalkLimit);
      if IsCappedRunEndingAt(dates, today, WalkLimit, k) { RunBackUnique(dates, today, WalkLimit, k); }
    } else {
      RunBackIsCappedRun(dates, today - 1, WalkLimit - 1);
      if IsCappedRunEndingAt(dates, today - 1, WalkLimit - 1, k) { RunBackUnique(dates, today - 1, WalkLimit - 1, k); }
    }
  }

  lemma {:induction false} RunBackSameMembers(a: seq<Day>, b: seq<Day>, d: Day, cap: nat)
    requires forall x :: x in a <==> x in b
    ensures RunBack(a, d, cap) == RunBack(b, d, cap)
    decreases cap
  {
    if cap > 0 && d in a {
      RunBackSameMembers(a, b, d - 1, cap - 1);
    }
  }

  /** The current streak depends only on which days are completed, not on their order or repetition. */
  lemma CurrentStreakIgnoresOrderAndRepeats(a: seq<Day>, b: seq<Day>, today: Day)
    requires forall x :: x in a <==> x in b
    ensures CurrentStreakOf(a, today) == CurrentStreakOf(b, today)
  {
    RunBackSameMembers(a, b, today, WalkLimit);
    RunBackSameMembers(a, b, today - 1, WalkLimit - 1);
  }

  /** With nothing completed, both streaks are zero. */
  lemma NoCompletedNoStreak(entries: seq<Entry>, today: Day)
    requires forall i :: 0 <= i < |entries| ==> !entries[i].completed
    ensures CurrentStreakOf(CompletedDates(entries), today) == 0
    ensures LongestStreakOf(SortAsc(CompletedDates(entries))) == 0
  {
  }

  /** The neighbours of a run ending at `i` are one day apart. */
  lemma {:induction false} RunEndingAtIsRun(s: seq<Day>, i: nat)
    requires i < |s|
    ensures forall j :: i - RunEndingAt(s, i) < j <= i ==> s[j] == s[i] - (i - j)
  {
    if i > 0 && s[i] - s[i - 1] == 1 {
      RunEndingAtIsRun(s, i - 1);
    }
  }

  /** In a strictly ascending sequence, the run ending at the last day of any run is at least that run. */
  lemma {:induction false} RunCoversIndex(s: seq<Day>, first: Day, k: nat, i: nat)
    requires StrictlyAsc(s) && 1 <= k && i < |s| && s[i] == first + k - 1
    requires IsRun(s, first, k)
    ensures RunEndingAt(s, i) >= k
  {
    if k > 1 {
      assert first + (k - 2) in s;
      var i' :| 0 <= i' < |s| && s[i'] == first + k - 2;
      assert i' < i;
      assert s[i'] <= s[i - 1] < s[i];
      assert IsRun(s, first, k - 1);
      RunCoversIndex(s, first, k - 1, i - 1);
    }
  }

  lemma {:induction false} LongestUpToBounds(s: seq<Day>, n: nat, i: nat)
    requires i < n <= |s|
    ensures RunEndingAt(s, i) <= LongestUpTo(s, n)
  {
    if i < n - 1 {
      LongestUpToBounds(s, n - 1, i);
    }
  }

  lemma {:induction false} LongestUpToAttained(s: seq<Day>, n: nat) returns (i: nat)
    requires 0 < n <= |s|
    ensures i < n && RunEndingAt(s, i) == LongestUpTo(s, n)
  {
    if n == 1 || LongestUpTo(s, n - 1) < RunEndingAt(s, n - 1) {
      i := n - 1;
    } else {
      i := LongestUpToAttained(s, n - 1);
    }
  }

  /**
   * On strictly ascending dates the longest streak is the length of a longest
   * run of consecutive calendar days: some run has that length, none is longer.
   */
  lemma LongestStreakIsLongestRun(s: seq<Day>)
    requires StrictlyAsc(s) && |s| > 0
    ensures exists first :: IsRun(s, first, LongestStreakOf(s))
    ensures forall first: Day, k: nat :: IsRun(s, first, k) ==> k <= LongestStreakOf(s)
  {
    var i := LongestUpToAttained(s, |s|);
    var k := RunEndingAt(s, i);
    RunEndingAtIsRun(s, i);
    assert IsRun(s, s[i] - k + 1, k) by {
      forall x | s[i] - k + 1 <= x < s[i] + 1 ensures x in s {
        assert s[i - (s[i] - x)] == x;
      }
    }
    forall first: Day, k': nat | IsRun(s, first, k') ensures k' <= LongestStreakOf(s) {
      if k' >= 1 {
        assert first + (k' - 1) in s;
        var i' :| 0 <= i' < |s| && s[i'] == first + k' - 1;
        RunCoversIndex(s, first, k', i');
        LongestUpToBounds(s, |s|, i');
      }
    }
  }

  /** Members of the computed sorted copy are the completed dates. */
  lemma SortedMembers(dates: seq<Day>)
    ensures forall x :: x in SortAsc(dates) <==> x in dates
  {
    forall x ensures x in SortAsc(dates) <==> x in dates {
      assert x in SortAsc(dates) <==> x in multiset(SortAsc(dates));
      assert x in dates <==> x in multiset(dates);
    }
  }

  /**
   * When no two completed entries share a date, the longest streak is the
   * length of a longest run of consecutive completed days.
   */
  lemma LongestStreakOfDistinctDates(entries: seq<Entry>)
    requires Distinct(CompletedDates(entries)) && CompletedDates(entries) != []
    ensures var dates := CompletedDates(entries);
      (exists first :: IsRun(dates, first, LongestStreakOf(SortAsc(dates))))
      && (forall first: Day, k: nat :: IsRun(dates, first, k) ==> k <= LongestStreakOf(SortAsc(dates)))
  {
    var dates := CompletedDates(entries);
    var s := SortAsc(dates);
    SortDistinct(dates);
    SortedMembers(dates);
    assert |s| > 0 by { assert dates[0] in multiset(s); }
    LongestStreakIsLongestRun(s);
    var first :| IsRun(s, first, LongestStreakOf(s));
    assert IsRun(dates, first, LongestStreakOf(s));
    forall first': Day, k: nat | IsRun(dates, first', k) ensures k <= LongestStreakOf(s) {
      assert IsRun(s, first', k);
    }
  }

  /** When no two completed entries share a date, the longest streak is at least the current one. */
  lemma LongestAtLeastCurrent(entries: seq<Entry>, today: Day)
    requires Distinct(CompletedDates(entries))
    ensures LongestStreakOf(SortAsc(CompletedDates(entries))) >= CurrentStreakOf(CompletedDates(entries), today)
  {
    var dates := CompletedDates(entries);
    var c := CurrentStreakOf(dates, today);
    CurrentStreakIsRunEndingToday(dates, today, c);
    if c > 0 {
      var end := if today in dates then today else today - 1;
      assert IsRun(dates, end - c + 1, c);
      assert dates != [] by { assert end - c + 1 in dates; }
      LongestStreakOfDistinctDates(entries);
    }
  }

  /**
   * A repeated date is a neighbour zero days apart and resets the scan: the
   * dates d, d+1, d+1, d+2 hold a run of three days, yet the longest streak
   * is 2, below the current streak of 3 on day d+2.
   */
  lemma RepeatedDateResetsRun(d: Day)
    ensures IsRun([d, d + 1, d + 1, d + 2], d, 3)
    ensures LongestStreakOf(SortAsc([d, d + 1, d + 1, d + 2])) == 2
    ensures CurrentStreakOf([d, d + 1, d + 1, d + 2], d + 2) == 3
  {
    var s := [d, d + 1, d + 1, d + 2];
    RepeatedDatesRun(d);
    RepeatedDatesLongest(d);
    RepeatedDatesCurrent(d);
    assert SortedAsc(s);
    LongestOfSorted(s);
  }

  lemma RepeatedDatesRun(d: Day)
    ensures IsRun([d, d + 1, d + 1, d + 2], d, 3)
  {
    var s := [d, d + 1, d + 1, d + 2];
    forall x | d <= x < d + 3 ensures x in s {
      assert x == s[0] || x == s[1] || x == s[3];
    }
  }

  lemma RepeatedDatesLongest(d: Day)
    ensures LongestStreakOf([d, d + 1, d + 1, d + 2]) == 2
  {
    var s := [d, d + 1, d + 1, d + 2];
    assert RunEndingAt(s, 1) == 2 && RunEndingAt(s, 2) == 1 && RunEndingAt(s, 3) == 2;
    assert LongestUpTo(s, 2) == 2 && LongestUpTo(s, 3) == 2;
  }

  lemma RepeatedDatesCurrent(d: Day)
    ensures CurrentStreakOf([d, d + 1, d + 1, d + 2], d + 2) == 3
  {
    var s := [d, d + 1, d + 1, d + 2];
    RepeatedDatesRun(d);
    assert s[0] == d && d - 1 !in s;
    RunBackUnique(s, d + 2, WalkLimit, 3);
  }

  /** The completed dates of an entry list, one entry at a time. */
  lemma CompletedDatesCons(e: Entry, rest: seq<Entry>)
    ensures CompletedDates([e] + rest) == (if e.completed then [e.date] else []) + CompletedDates(rest)
  {
    assert ([e] + rest)[1..] == rest;
  }

  /**
   * The completed dates list one date per completed entry, in entry order,
   * without removing repeats: `idx` holds, in increasing order, exactly the
   * positions of the completed entries, and the k-th date is that of the
   * entry at `idx[k]`.
   */
  lemma {:induction false} CompletedDatesPositions(entries: seq<Entry>) returns (idx: seq<nat>)
    ensures |idx| == |CompletedDates(entries)|
    ensures forall k :: 0 <= k < |idx| ==>
      idx[k] < |entries| && entries[idx[k]].completed && CompletedDates(entries)[k] == entries[idx[k]].date
    ensures forall k, l :: 0 <= k < l < |idx| ==> idx[k] < idx[l]
    ensures forall i :: 0 <= i < |entries| && entries[i].completed ==> i in idx
  {
    if entries == [] {
      idx := [];
    } else {
      var rest := CompletedDatesPositions(entries[1..]);
      var shifted := ShiftPositions(entries, rest);
      idx := ConsPositions(entries, shifted);
    }
  }

  /** The positions of the completed entries of `entries`, from those of its tail shifted by one. */
  lemma ConsPositions(entries: seq<Entry>, shifted: seq<nat>) returns (idx: seq<nat>)
    requires entries != []
    requires |shifted| == |CompletedDates(entries[1..])|
    requires forall k :: 0 <= k < |shifted| ==>
      0 < shifted[k] < |entries| && entries[shifted[k]].completed
      && CompletedDates(entries[1..])[k] == entries[shifted[k]].date
    requires forall k, l :: 0 <= k < l < |shifted| ==> shifted[k] < shifted[l]
    requires forall i :: 0 < i < |entries| && entries[i].completed ==> i in shifted
    ensures |idx| == |CompletedDates(entries)|
    ensures forall k :: 0 <= k < |idx| ==>
      idx[k] < |entries| && entries[idx[k]].completed && CompletedDates(entries)[k] == entries[idx[k]].date
    ensures forall k, l :: 0 <= k < l < |idx| ==> idx[k] < idx[l]
    ensures forall i :: 0 <= i < |entries| && entries[i].completed ==> i in idx
  {
    if entries[0].completed {
      idx := [0] + shifted;
      PrependPosition(entries, shifted);
    } else {
      idx := shifted;
    }
  }

  /** The completed head at position 0 in front of its tail's shifted positions. */
  lemma PrependPosition(entries: seq<Entry>, shifted: seq<nat>)
    requires entries != [] && entries[0].completed
    requires |shifted| == |CompletedDates(entries[1..])|
    requires forall k :: 0 <= k < |shifted| ==>
      0 < shifted[k] < |entries| && entries[shifted[k]].completed
      && CompletedDates(entries[1..])[k] == entries[shifted[k]].date
    requires forall k, l :: 0 <= k < l < |shifted| ==> shifted[k] < shifted[l]
    ensures var idx := [0] + shifted;
      && |idx| == |CompletedDates(entries)|
      && (forall k :: 0 <= k < |idx| ==>
            idx[k] < |entries| && entries[idx[k]].completed && CompletedDates(entries)[k] == entries[idx[k]].date)
      && (forall k, l :: 0 <= k < l < |idx| ==> idx[k] < idx[l])
  {
    assert CompletedDates(entries) == [entries[0].date] + CompletedDates(entries[1..]);
    PrependZero(shifted);
  }

  /** Positions of the completed entries of `entries[1..]`, as positions in `entries`. */
  lemma ShiftPositions(entries: seq<Entry>, rest: seq<nat>) returns (shifted: seq<nat>)
    requires entries != []
    requires |rest| == |CompletedDates(entries[1..])|
    requires forall k :: 0 <= k < |rest| ==>
      rest[k] < |entries| - 1 && entries[1..][rest[k]].completed
      && CompletedDates(entries[1..])[k] == entries[1..][rest[k]].date
    requires forall k, l :: 0 <= k < l < |rest| ==> rest[k] < rest[l]
    ensures |shifted| == |rest|
    ensures forall k :: 0 <= k < |rest| ==>
      shifted[k] == rest[k] + 1 && 0 < shifted[k] < |entries|
      && entries[shifted[k]].completed && CompletedDates(entries[1..])[k] == entries[shifted[k]].date
    ensures forall k, l :: 0 <= k < l < |rest| ==> shifted[k] < shifted[l]
    ensures (forall i :: 0 <= i < |entries| - 1 && entries[1..][i].completed ==> i in rest) ==>
      forall i :: 0 < i < |entries| && entries[i].completed ==> i in shifted
  {
    shifted := seq(|rest|, k requires 0 <= k < |rest| => rest[k] + 1);
    forall k | 0 <= k < |rest| ensures entries[1..][rest[k]] == entries[shifted[k]] {
    }
    if forall i :: 0 <= i < |entries| - 1 && entries[1..][i].completed ==> i in rest {
      forall i | 0 < i < |entries| && entries[i].completed ensures i in shifted {
        assert entries[1..][i - 1] == entries[i];
        var k :| 0 <= k < |rest| && rest[k] == i - 1;
        assert shifted[k] == i;
      }
    }
  }

  /** Putting position 0 in front of increasing positive positions keeps them increasing. */
  lemma PrependZero(shifted: seq<nat>)
    requires forall k :: 0 <= k < |shifted| ==> 0 < shifted[k]
    requires forall k, l :: 0 <= k < l < |shifted| ==> shifted[k] < shifted[l]
    ensures forall k, l :: 0 <= k < l < |shifted| + 1 ==> ([0] + shifted)[k] < ([0] + shifted)[l]
  {
  }

  /**
   * The duplicate-date quirk through entries: completed records of d, d+1,
   * d+1 and d+2 give the date d+1 twice, and the longest streak is 2.
   */
  lemma DuplicateRecordResetsRun(d: Day)
    ensures var entries := [Completed("1", d), Completed("2", d + 1), Completed("3", d + 1), Completed("4", d + 2)];
      CompletedDates(entries) == [d, d + 1, d + 1, d + 2]
      && LongestStreakOf(SortAsc(CompletedDates(entries))) == 2
  {
    DuplicateRecordEntries(d);
    RepeatedDateResetsRun(d);
  }

  lemma DuplicateRecordEntries(d: Day)
    ensures CompletedDates([Completed("1", d), Completed("2", d + 1), Completed("3", d + 1), Completed("4", d + 2)])
      == [d, d + 1, d + 1, d + 2]
  {
    var entries := [Completed("1", d), Completed("2", d + 1), Completed("3", d + 1), Completed("4", d + 2)];
    CompletedDatesCons(entries[3], []);
    CompletedDatesCons(entries[2], entries[3..]);
    CompletedDatesCons(entries[1], entries[2..]);
    CompletedDatesCons(entries[0], entries[1..]);
    assert entries == [entries[0]] + ([entries[1]] + ([entries[2]] + ([entries[3]] + [])));
  }

  lemma LongestOfSorted(s: seq<Day>)
    requires SortedAsc(s)
    ensures LongestStreakOf(SortAsc(s)) == LongestStreakOf(s)
  {
    SortSorted(s);
  }

  function Completed(id: string, date: Day): Entry {
    Entry(id, "user", date, true, "")
  }

  /**
   * Days d, d+1 and d+3 completed and d+2 not, on day d+3 (with d = 2024-05-01:
   * the 1st, 2nd and 4th of May completed, the 3rd not, on the 4th): current
   * streak 1, longest 2.
   */
  lemma GapBeforeToday(d: Day)
    ensures var entries := [Completed("1", d), Completed("2", d + 1),
                            Entry("3", "user", d + 2, false, ""), Completed("4", d + 3)];
      CurrentStreakOf(CompletedDates(entries), d + 3) == 1
      && LongestStreakOf(SortAsc(CompletedDates(entries))) == 2
  {
    GapBeforeTodayEntries(d);
    GapBeforeTodayDates(d);
  }

  lemma GapBeforeTodayEntries(d: Day)
    ensures CompletedDates([Completed("1", d), Completed("2", d + 1),
                            Entry("3", "user", d + 2, false, ""), Completed("4", d + 3)]) == [d, d + 1, d + 3]
  {
    var entries := [Completed("1", d), Completed("2", d + 1),
                    Entry("3", "user", d + 2, false, ""), Completed("4", d + 3)];
    CompletedDatesCons(entries[3], []);
    CompletedDatesCons(entries[2], entries[3..]);
    CompletedDatesCons(entries[1], entries[2..]);
    CompletedDatesCons(entries[0], entries[1..]);
    assert entries == [entries[0]] + ([entries[1]] + ([entries[2]] + ([entries[3]] + [])));
  }

  lemma GapBeforeTodayDates(d: Day)
    ensures CurrentStreakOf([d, d + 1, d + 3], d + 3) == 1
    ensures LongestStreakOf(SortAsc([d, d + 1, d + 3])) == 2
  {
    GapBeforeTodayCurrent(d);
    GapBeforeTodayLongest(d);
    assert SortedAsc([d, d + 1, d + 3]);
    LongestOfSorted([d, d + 1, d + 3]);
  }

  lemma GapBeforeTodayCurrent(d: Day)
    ensures CurrentStreakOf([d, d + 1, d + 3], d + 3) == 1
  {
    var dates := [d, d + 1, d + 3];
    assert dates[2] == d + 3 && d + 2 !in dates;
    RunBackUnique(dates, d + 3, WalkLimit, 1);
  }

  lemma GapBeforeTodayLongest(d: Day)
    ensures LongestStreakOf([d, d + 1, d + 3]) == 2
  {
    var dates := [d, d + 1, d + 3];
    assert RunEndingAt(dates, 1) == 2 && RunEndingAt(dates, 2) == 1;
    assert LongestUpTo(dates, 2) == 2;
  }

  /**
   * Days d to d+4 completed, on day d+5 with nothing logged yet (with
   * d = 2024-05-01: the 1st to the 5th of May, on the 6th): current streak 5,
   * longest 5.
   */
  lemma OpenTodayKeepsStreak(d: Day)
    ensures var entries := [Completed("1", d), Completed("2", d + 1), Completed("3", d + 2),
                            Completed("4", d + 3), Completed("5", d + 4)];
      CurrentStreakOf(CompletedDates(entries), d + 5) == 5
      && LongestStreakOf(SortAsc(CompletedDates(entries))) == 5
  {
    OpenTodayEntries(d);
    OpenTodayKeepsStreakDates(d);
  }

  lemma OpenTodayEntries(d: Day)
    ensures CompletedDates([Completed("1", d), Completed("2", d + 1), Completed("3", d + 2),
                            Completed("4", d + 3), Completed("5", d + 4)]) == [d, d + 1, d + 2, d + 3, d + 4]
  {
    var entries := [Completed("1", d), Completed("2", d + 1), Completed("3", d + 2),
                    Completed("4", d + 3), Completed("5", d + 4)];
    CompletedDatesCons(entries[4], []);
    CompletedDatesCons(entries[3], entries[4..]);
    CompletedDatesCons(entries[2], entries[3..]);
    CompletedDatesCons(entries[1], entries[2..]);
    CompletedDatesCons(entries[0], entries[1..]);
    assert entries == [entries[0]] + ([entries[1]] + ([entries[2]] + ([entries[3]] + ([entries[4]] + []))));
  }

  lemma OpenTodayKeepsStreakDates(d: Day)
    ensures CurrentStreakOf([d, d + 1, d + 2, d + 3, d + 4], d + 5) == 5
    ensures LongestStreakOf(SortAsc([d, d + 1, d + 2, d + 3, d + 4])) == 5
  {
    OpenTodayCurrent(d);
    OpenTodayLongest(d);
    assert SortedAsc([d, d + 1, d + 2, d + 3, d + 4]);
    LongestOfSorted([d, d + 1, d + 2, d + 3, d + 4]);
  }

  lemma OpenTodayCurrent(d: Day)
    ensures CurrentStreakOf([d, d + 1, d + 2, d + 3, d + 4], d + 5) == 5
  {
    var dates := [d, d + 1, d + 2, d + 3, d + 4];
    assert IsRun(dates, d, 5) by {
      forall x | d <= x < d + 5 ensures x in dates {
        assert x == dates[x - d];
      }
    }
    assert d - 1 !in dates && d + 5 !in dates;
    RunBackUnique(dates, d + 4, WalkLimit - 1, 5);
  }

  lemma OpenTodayLongest(d: Day)
    ensures LongestStreakOf([d, d + 1, d + 2, d + 3, d + 4]) == 5
  {
    var dates := [d, d + 1, d + 2, d + 3, d + 4];
    assert RunEndingAt(dates, 1) == 2 && RunEndingAt(dates, 2) == 3;
    assert RunEndingAt(dates, 3) == 4 && RunEndingAt(dates, 4) == 5;
    assert LongestUpTo(dates, 2) == 2 && LongestUpTo(dates, 3) == 3 && LongestUpTo(dates, 4) == 4;
  }

  /** Of two records for day d, one completed and one not, the completed one counts. */
  lemma ConflictingRecordsCountAsCompleted(d: Day)
    ensures var entries := [Entry("1", "user", d, false, ""), Completed("2", d)];
      d in CompletedDates(entries) && CurrentStreakOf(CompletedDates(entries), d) == 1
  {
    var entries := [Entry("1", "user", d, false, ""), Completed("2", d)];
    assert CompletedDates(entries) == [d];
    assert d - 1 !in [d];
    RunBackUnique([d], d, WalkLimit, 1);
  }
}

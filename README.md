# Willpower tracker: verified model of the daily-entry logic

The willpower tracker is a daily-habit app. A user marks a calendar day
"completed" and may add notes. The dashboard shows a month calendar, a current
streak and a longest streak. A second page lets users search motivation
videos and submit new ones. Almost all of the application is React UI over
Supabase calls. This project models the part that computes something, in
Dafny, and proves what that code promises:

- **Streaks** (`streaks.dfy`): the dashboard's streak computation. The current
  streak walks back from today over at most 365 days. A missing today is
  skipped; any other missing day ends the walk. The longest streak scans the
  sorted dates for neighbours exactly one day apart. Both loops are methods
  proved against specification functions.
- **Calendar** (`calendar.dfy`): the padded Sunday-to-Saturday grid of a month
  and the per-cell flags `inMonth`, `today`, `completed`, `isPast`,
  `isFuture`, `missed` and `canClick`.
- **Entries** (`entries.dfy`): the `entries` list that the `useEntries` hook
  keeps, and its `upsertEntry` transition. The entry whose date matches is
  updated by id; otherwise the row returned by the store is appended. The
  store is an oracle: it either fails or answers.
- **DayModal** (`daymodal.dfy`): the notes and completed flag that pre-fill the
  day editor.
- **VideoSubmission** (`videosubmission.dfy`): the required-field check, the
  anchored YouTube URL pattern as a hand-written recogniser, and the trimmed
  payload.
- **VideoSearch** (`videosearch.dfy`): the case-insensitive substring filter
  over video titles and descriptions.

Helper modules: `Dates` (Gregorian day numbers), `Text` (JavaScript white
space, `trim`, `toLowerCase`, `includes`), `Sorting` (`sort` and `reverse` of
date lists) and `Wrappers` (an `Option` type for `undefined`).

Dates are `YYYY-MM-DD` strings in the application: the ISO 8601 extended
calendar-date form, section 4.1.2.2 of ISO 8601:2004. Here they are day
numbers: days since 1970-01-01 in the proleptic Gregorian calendar. For
four-digit years the string order is the numeric order. "Today" is an explicit
parameter in place of `new Date()`.

The dashboard does not deduplicate the completed dates: two completed
records of one day put that day in the list twice. A repeated date is a
neighbour zero days apart and resets the longest-streak run to 1. The model
keeps this. `Streaks.CompletedDatesPositions` states that the list holds one
date per completed entry, in entry order, and `Streaks.DuplicateRecordResetsRun`
shows a history where the longest streak (2) is below the current one (3).
With distinct dates, `Streaks.LongestAtLeastCurrent` proves longest >= current.

## Model

| member | source | states |
|---|---|---|
| `Streaks.CompletedDates` | src/pages/Dashboard.tsx:37-39 | a date is in the list iff some entry with that date is completed; the list is empty iff no entry is completed |
| `Streaks.CompletedDatesPositions` | src/pages/Dashboard.tsx:37-39 | the list holds one date per completed entry, in entry order: the k-th date is the date of the k-th completed entry, repeats included |
| `Streaks.DuplicateRecordResetsRun` | src/pages/Dashboard.tsx:37-74 | completed records of d, d+1, d+1 and d+2 give the date d+1 twice and a longest streak of 2 |
| `Streaks.CurrentStreakOf` | src/pages/Dashboard.tsx:50-58 | the current streak is at most 365, and at most 364 when today has no completed entry |
| `Streaks.RunEndingAt` | src/pages/Dashboard.tsx:64-72 | the run of neighbours one day apart ending at index i is between 1 and i + 1 long |
| `Streaks.LongestStreakOf` | src/pages/Dashboard.tsx:61-74 | the longest streak is 0 on no dates and between 1 and the number of dates otherwise |
| `Streaks.ComputeStreaks` | src/pages/Dashboard.tsx:34-77 | the two returned numbers are the current streak of the completed dates relative to today, and the longest streak of their ascending order |
| `Streaks.WalkBack` | src/pages/Dashboard.tsx:47-58 | the backward walk from today returns the current streak of the dates |
| `Streaks.ScanLongest` | src/pages/Dashboard.tsx:61-74 | the ascending scan returns the longest run of neighbours exactly one day apart |
| `Streaks.ReverseSortedMembers` | src/pages/Dashboard.tsx:37-41 | sorting then reversing keeps exactly the same dates and the same count |
| `Streaks.MissedDayEndsStreak` | src/pages/Dashboard.tsx:54-55 | a missing past day i days back ends the walk with i completed days (i - 1 when today is missing) |
| `Streaks.FullWalk` | src/pages/Dashboard.tsx:50 | a walk that uses all 365 steps counts 365, or 364 when today is missing |
| `Streaks.RunBackIsCappedRun` | src/pages/Dashboard.tsx:50-58 | the backward count is a run of consecutive completed days ending at the start day, stopped by the cap or by a missing day |
| `Streaks.RunBackUnique` | src/pages/Dashboard.tsx:50-58 | any capped run length ending at the start day equals the backward count |
| `Streaks.CurrentStreakIsRunEndingToday` | src/pages/Dashboard.tsx:50-58 | current streak = k iff k is the run ending today capped at 365 (today completed), or the run ending yesterday capped at 364 (today not completed) |
| `Streaks.CurrentStreakIgnoresOrderAndRepeats` | src/pages/Dashboard.tsx:52 | two date lists with the same members give the same current streak, whatever their order and repetitions |
| `Streaks.NoCompletedNoStreak` | src/pages/Dashboard.tsx:35-43 | with no completed entry both streaks are 0 |
| `Streaks.RunEndingAtIsRun` | src/pages/Dashboard.tsx:68-71 | the dates of the run ending at index i are consecutive days |
| `Streaks.RunCoversIndex` | src/pages/Dashboard.tsx:64-74 | on strictly ascending dates, the scan's run ending at the last day of any calendar run is at least that run's length |
| `Streaks.LongestUpToBounds` | src/pages/Dashboard.tsx:73 | the running maximum is at least every run length seen so far |
| `Streaks.LongestUpToAttained` | src/pages/Dashboard.tsx:73 | the running maximum is the run length at some index seen so far |
| `Streaks.LongestStreakIsLongestRun` | src/pages/Dashboard.tsx:61-74 | on strictly ascending dates, some calendar run has the longest-streak length and no calendar run is longer |
| `Streaks.SortedMembers` | src/pages/Dashboard.tsx:63 | the sorted copy has exactly the members of the dates |
| `Streaks.LongestStreakOfDistinctDates` | src/pages/Dashboard.tsx:37-74 | with distinct completed dates, the longest streak is the length of a longest run of calendar-consecutive completed days |
| `Streaks.LongestAtLeastCurrent` | src/pages/Dashboard.tsx:50-74 | with distinct completed dates, the longest streak is at least the current streak |
| `Streaks.RepeatedDateResetsRun` | src/pages/Dashboard.tsx:70-71 | with dates d, d+1, d+1, d+2 the repeated date resets the scan: longest streak 2, current streak 3 on day d+2 |
| `Streaks.GapBeforeToday` | src/pages/Dashboard.tsx:50-74 | days d, d+1, d+3 completed and d+2 not, on day d+3: current streak 1, longest 2 |
| `Streaks.OpenTodayKeepsStreak` | src/pages/Dashboard.tsx:50-74 | days d to d+4 completed, on day d+5 with nothing logged: current streak 5, longest 5 |
| `Streaks.ConflictingRecordsCountAsCompleted` | src/pages/Dashboard.tsx:37-39 | of two records for one day, one completed and one not, the day counts as completed |
| `Sorting.SortAsc` | src/pages/Dashboard.tsx:40 | the result is ascending and a permutation of the input |
| `Sorting.Reverse` | src/pages/Dashboard.tsx:41 | the result has the same length and holds the input back to front |
| `Sorting.ReversePermutes` | src/pages/Dashboard.tsx:41 | reversing is a permutation |
| `Sorting.SortedUnique` | src/pages/Dashboard.tsx:40 | two ascending arrangements of one multiset are equal |
| `Sorting.ResortReversed` | src/pages/Dashboard.tsx:63 | sorting the reversed sorted dates gives the sorted dates back |
| `Sorting.SortDistinct` | src/pages/Dashboard.tsx:63 | distinct dates sort into a strictly ascending sequence |
| `Dates.DaysInMonth` | src/components/CalendarGrid.tsx:28 | a month has 28 to 31 days, and 29 exactly for February of a leap year |
| `Dates.Weekday` | src/components/CalendarGrid.tsx:24 | the weekday is an index 0 (Sunday) to 6 (Saturday) |
| `Dates.MonthsTile` | src/components/CalendarGrid.tsx:27-28 | the first day of the next month follows the last day of this month |
| `Dates.DaysFromCivil` | src/components/CalendarGrid.tsx:27-31 | the day number of a calendar date (no contract of its own; its meaning is fixed by `Dates.MonthsTile`, `Dates.KnownDays` and `Calendar.InMonthIsSameMonth`) |
| `Dates.KnownDays` | src/components/CalendarGrid.tsx:24 | 1970-01-01 is day 0, a Thursday; 2024-05-01 is day 19844, a Wednesday |
| `Calendar.MonthStart` | src/components/CalendarGrid.tsx:27 | the day number of the 1st of the month (a definition, no contract) |
| `Calendar.MonthEnd` | src/components/CalendarGrid.tsx:28 | the day number of the last day of the month (a definition, no contract) |
| `Calendar.InMonth` | src/components/CalendarGrid.tsx:52 | the day lies between the first and the last day of the month (a definition; `Calendar.InMonthIsSameMonth` gives its meaning) |
| `Calendar.InMonthIsSameMonth` | src/components/CalendarGrid.tsx:52 | a day is in the month iff it is day k of that year and month for some k from 1 to the month's length |
| `Calendar.StartOfWeek` | src/components/CalendarGrid.tsx:29 | the result is the Sunday on or before the day |
| `Calendar.EndOfWeek` | src/components/CalendarGrid.tsx:30 | the result is the Saturday on or after the day |
| `Calendar.GridDays` | src/components/CalendarGrid.tsx:31 | the days from the start of the week of the 1st to the end of the week of the last day (a definition; `Calendar.GridShape` states its shape) |
| `Calendar.CompletedSet` | src/components/CalendarGrid.tsx:33-35 | the dates of the completed entries (a definition; `Calendar.CompletedSetOfCompletedDates` relates it to the dashboard's list) |
| `Calendar.CompletedSetOfCompletedDates` | src/components/CalendarGrid.tsx:33-35 | the calendar's completed days are exactly the members of the dashboard's completed-date list |
| `Calendar.ClassifyDay` | src/components/CalendarGrid.tsx:51-58 | a cell is in the month iff its day is; completed iff its day is in the completed set; past, today and future as the day compares with today; missed iff in the month, before today and not completed; clickable iff in the month and today |
| `Calendar.ClassifyMonth` | src/components/CalendarGrid.tsx:50-58 | one cell per grid day, in grid order |
| `Calendar.GridShape` | src/components/CalendarGrid.tsx:27-31 | the grid is consecutive ascending days from the Sunday on or before the 1st to the Saturday on or after the last day; its length is a multiple of 7 between 28 and 42 |
| `Calendar.GridHasMonthOnce` | src/components/CalendarGrid.tsx:27-31 | every day of the month appears in the grid exactly once |
| `Calendar.TimeClassesPartition` | src/components/CalendarGrid.tsx:53-56 | each cell is exactly one of past, today and future, as its day compares with today |
| `Calendar.CompletedIffCompletedEntry` | src/components/CalendarGrid.tsx:33-35 | a cell is completed iff some entry of its day is completed |
| `Calendar.IncompleteEntryIgnored` | src/components/CalendarGrid.tsx:33-35 | adding an entry that is not completed changes no cell |
| `Calendar.MissedMeaning` | src/components/CalendarGrid.tsx:57 | missed iff in the month, before today and not completed; today and future cells are never missed |
| `Calendar.ClickableOnlyToday` | src/components/CalendarGrid.tsx:52-64 | a cell's `inMonth` flag holds iff its day is in the month; a cell is clickable iff it is today and in the month; out-of-month cells never are |
| `Calendar.AtMostOneClickable` | src/components/CalendarGrid.tsx:58 | two clickable cells are the same cell |
| `Calendar.TodayCellCount` | src/components/CalendarGrid.tsx:53 | exactly one cell is today when today lies in the grid, padding included, and none otherwise |
| `Entries.FindByDate` | src/hooks/useEntries.ts:61 | the index of the first entry with the date, or none iff no entry has it |
| `Entries.UpdateById` | src/hooks/useEntries.ts:70-72 | same length; ids, users and dates are kept; entries with the id take the new flag and notes; the others are unchanged |
| `Entries.AfterUpsert` | src/hooks/useEntries.ts:58-87 | the lookup runs on the snapshot taken when the call began, the change on the list current when the store answers; no user or a failed store call leaves the current list; the update path keeps its length and changes only the flag and notes of the entries carrying the id found in the snapshot; the insert path appends exactly the returned row; when nothing changed in between, after success some entry of the date carries the new flag and notes |
| `Entries.StaleSnapshotDuplicatesDate` | src/hooks/useEntries.ts:61-83 | when the snapshot has no entry of the date but the current list gained one meanwhile, the inserted row is appended and the date appears twice |
| `Entries.EntryList.constructor` | src/hooks/useEntries.ts:16 | the list starts empty |
| `Entries.EntryList.ApplyUpdate` | src/hooks/useEntries.ts:70-72 | the new list is the old one with the entries of the id updated |
| `Entries.EntryList.ApplyInsert` | src/hooks/useEntries.ts:83 | the new list is the old one with the row appended |
| `Entries.EntryList.Upsert` | src/hooks/useEntries.ts:58-87 | with no other change during the store round trip, the new list is the upsert transition of the old list |
| `DayModal.HasNotes` | src/components/DayModal.tsx:32 | the notes are not all white space (a definition; `DayModal.HasNotesIffTrimmed` ties it to the filter) |
| `DayModal.HasNotesIffTrimmed` | src/components/DayModal.tsx:32 | an entry passes the notes filter iff its notes are not all white space |
| `DayModal.MostRecentAmong` | src/components/DayModal.tsx:31-35 | the first entry of maximal date among the first n entries with notes, or none iff there is none |
| `DayModal.MostRecentWithNotes` | src/components/DayModal.tsx:31-35 | the first entry of maximal date among all entries with notes, or none iff there is none |
| `DayModal.MostRecentUnique` | src/components/DayModal.tsx:33-35 | the entry a stable descending sort puts first is the only one with those properties |
| `DayModal.PreviousDayNotes` | src/components/DayModal.tsx:27-36 | non-empty current notes are returned as they are; otherwise the notes of a most recent entry with non-blank notes, or "" iff there is none; a value taken from the list is never blank |
| `DayModal.InitialCompleted` | src/components/DayModal.tsx:38 | the flag is true iff there is an entry and it is completed |
| `DayModal.BlankCurrentNotesKept` | src/components/DayModal.tsx:28 | any non-empty current notes made only of white space are returned as they are, whatever the other entries |
| `DayModal.BlankNotesNeverChosen` | src/components/DayModal.tsx:28-35 | without non-empty current notes, the pre-filled notes never equal the notes of an entry whose notes are non-empty white space, in any list |
| `Text.Trim` | src/components/SubmitVideoDialog.tsx:27 | the result is a slice of the input between blank ends, and has no white space at either end |
| `Text.TrimEmptyIffBlank` | src/pages/VideoDiscovery.tsx:32 | a string trims to "" iff it is all white space |
| `Text.TrimOfPadded` | src/components/SubmitVideoDialog.tsx:34 | trimming removes exactly the white space around a string with non-white-space ends |
| `Text.TrimAbsorbsPadding` | src/components/SubmitVideoDialog.tsx:34 | white space added on either side of any string does not change its trimmed form |
| `Text.ToLower` | src/pages/VideoDiscovery.tsx:34 | same length, each character folded |
| `Text.Includes` | src/pages/VideoDiscovery.tsx:36-37 | true iff the substring occurs at some offset |
| `VideoSearch.Matches` | src/pages/VideoDiscovery.tsx:36-37 | the query occurs in the lower-cased title, or in the lower-cased non-empty description (a definition; `VideoSearch.FilterKeepsOrderAndMatches` states the filter over it) |
| `VideoSearch.Filter` | src/pages/VideoDiscovery.tsx:35 | every kept element passes the test, and the result is no longer than the input |
| `VideoSearch.FilterKeepsExactlyPassing` | src/pages/VideoDiscovery.tsx:35-38 | the result is an order-preserving subsequence holding exactly the positions that pass |
| `VideoSearch.FilterVideos` | src/pages/VideoDiscovery.tsx:31-39 | a blank query returns the list unchanged; otherwise every returned video matches the lower-cased query |
| `VideoSearch.FilterKeepsOrderAndMatches` | src/pages/VideoDiscovery.tsx:35-38 | for a non-blank query the result is an order-preserving subsequence holding exactly the matching videos |
| `VideoSearch.FilterComplete` | src/pages/VideoDiscovery.tsx:35-38 | every video matching the lower-cased query is returned |
| `VideoSearch.CaseIgnored` | src/pages/VideoDiscovery.tsx:34-36 | the query "YOGA" finds the title "Yoga" |
| `VideoSearch.QueryNotTrimmed` | src/pages/VideoDiscovery.tsx:34 | the query " yoga" does not find the title "Yoga": its leading space takes part in the match |
| `VideoSubmission.MatchesPattern` | src/components/SubmitVideoDialog.tsx:33 | the language of the anchored pattern, as the union of its scheme, `www.` and host alternatives followed by the video part (a definition) |
| `VideoSubmission.IsYouTubeUrl` | src/components/SubmitVideoDialog.tsx:33 | the recogniser: strip an optional scheme, an optional `www.`, one of the two hosts, then check the video part (a definition; `VideoSubmission.RecogniserMatchesPattern` proves it equal to the pattern) |
| `VideoSubmission.RecogniserSound` | src/components/SubmitVideoDialog.tsx:33 | every URL the recogniser accepts is in the pattern |
| `VideoSubmission.RecogniserComplete` | src/components/SubmitVideoDialog.tsx:33 | every URL in the pattern is accepted by the recogniser |
| `VideoSubmission.RecogniserMatchesPattern` | src/components/SubmitVideoDialog.tsx:33 | the recogniser accepts exactly the URLs of the pattern |
| `VideoSubmission.PatternIffVideoPart` | src/components/SubmitVideoDialog.tsx:33 | after any scheme, `www.` and host, a URL is accepted iff the rest is an 11-character id and an optional `&` tail of non-white-space |
| `VideoSubmission.TenCharacterIdRejected` | src/components/SubmitVideoDialog.tsx:33 | a 10-character id is rejected |
| `VideoSubmission.TwelveCharacterIdRejected` | src/components/SubmitVideoDialog.tsx:33 | a 12-character id is rejected |
| `VideoSubmission.HttpsWithoutHostRejected` | src/components/SubmitVideoDialog.tsx:33 | after `https://`, a URL whose next character is neither `w` nor `y` is rejected |
| `VideoSubmission.CapitalisedHostRejected` | src/components/SubmitVideoDialog.tsx:33 | `https://YouTube.com/watch?v=...` is rejected: the match is case-sensitive |
| `VideoSubmission.MobileHostRejected` | src/components/SubmitVideoDialog.tsx:33 | `https://m.youtube.com/watch?v=...` is rejected |
| `VideoSubmission.StripPrefix` | src/components/SubmitVideoDialog.tsx:33 | removes the prefix when it is there, and nothing otherwise |
| `VideoSubmission.RequiredFieldsMissing` | src/components/SubmitVideoDialog.tsx:27 | the title or the URL trims to empty (a definition) |
| `VideoSubmission.CheckTrimmed` | src/components/SubmitVideoDialog.tsx:27-63 | on trimmed fields: missing iff title or URL is empty; invalid iff both present and the URL is outside the pattern; otherwise the payload carries the fields |
| `VideoSubmission.ValidateSubmission` | src/components/SubmitVideoDialog.tsx:27-63 | missing iff title or URL trims to empty; invalid iff present and the trimmed URL is outside the pattern; an accepted payload carries the trimmed title and URL, and its description is undefined iff it is blank and otherwise the trimmed description |
| `VideoSubmission.UrlTrimmedBeforeValidation` | src/components/SubmitVideoDialog.tsx:34 | any blank padding on either side of the URL changes neither the verdict nor the payload |
| `VideoSubmission.MissingFieldsBeforeUrl` | src/components/SubmitVideoDialog.tsx:27-30 | a blank title is reported as a missing field whatever the URL is |

## Left out

- Supabase I/O: every fetch, insert, update, delete and RPC call of the hooks. Only the local list transition of `upsertEntry` is modelled. The store is an oracle argument: whether the update succeeded and which row the insert returned.
- `fetchEntries`, `fetchAllEntries` and the refresh that `upsertEntry` triggers after a success: they only reload from the store.
- `getVideoId` / `normalizeYouTubeUrl` and the duplicate-URL check of `SubmitVideoDialog`: an unanchored regular-expression search and database queries.
- Randomness: the video shuffle, the inspiration quote and the random success-jar entry.
- The success-rate percentage on the dashboard: floating-point arithmetic with `Math.round`.
- The clock and time zones: `new Date()`, `isToday` and `startOfDay` become an explicit day number `today`. JavaScript `Date` parsing and `format` are not modelled; dates are day numbers from the start.
- UI work: rendering, CSS classes, toasts, dialogs, the `window.confirm` flow, sharing, navigation, form resets, `handleSave` and the `setSaving`/`setSubmitting` sequencing.
- Trivial display helpers: initials and `hasChanges` in the profile page and the dashboard header.
- Text.ToLower: folds only the ASCII letters A to Z; JavaScript's `toLowerCase` also folds other Unicode letters.
- DayModal.MostRecentWithNotes: the sorted copy of the entries is not built; the model selects its first element directly: the earliest entry in list order among those of maximal date, which is what a stable descending sort puts first.
- Entries.EntryList.Upsert: runs the lookup and the list update back to back, so it does not capture a refetch or a second upsert that changes the list during the store round trip. `Entries.AfterUpsert` takes the lookup snapshot and the current list as separate arguments, and `Entries.StaleSnapshotDuplicatesDate` shows what such an interleaving leads to.
- Streaks.CurrentStreakOf: streaks longer than the 365-day cap are undercounted exactly as in the code.

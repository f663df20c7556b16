/**
 * The initial state of the day editor: the notes it is pre-filled with and
 * the initial completed flag.
 */
module DayModal {
  import opened Wrappers
  import opened Entries
  import Text

  /** The entry carries notes that are not all white space. */
  predicate HasNotes(e: Entry) {
    !Text.IsBlank(e.notes)
  }

  /** `e.notes && e.notes.trim()` is truthy exactly for the entries with notes. */
  lemma HasNotesIffTrimmed(e: Entry)
    ensures HasNotes(e) <==> e.notes != "" && Text.Trim(e.notes) != ""
  {
    Text.TrimEmptyIffBlank(e.notes);
  }

  /**
   * The entry a stable sort by date, most recent first, puts in front among
   * those of the first `n` entries with notes: an entry of maximal date, the
   * earliest such in list order.
   */
  function MostRecentAmong(entries: seq<Entry>, n: nat): (r: Option<nat>)
    requires n <= |entries|
    ensures r.None? <==> forall j :: 0 <= j < n ==> !HasNotes(entries[j])
    ensures r.Some? ==> r.value < n && HasNotes(entries[r.value])
    ensures r.Some? ==> forall j :: 0 <= j < n && HasNotes(entries[j]) ==>
      entries[j].date <= entries[r.value].date
    ensures r.Some? ==> forall j :: 0 <= j < r.value && HasNotes(entries[j]) ==>
      entries[j].date < entries[r.value].date
  {
    if n == 0 then None
    else
      var best := MostRecentAmong(entries, n - 1);
      if !HasNotes(entries[n - 1]) then best
      else
        match best
        case None => Some(n - 1)
        case Some(k) => if entries[n - 1].date > entries[k].date then Some(n - 1) else Some(k)
  }

  /** `sortedEntries[0]` over the whole list, as an index into it. */
  function MostRecentWithNotes(entries: seq<Entry>): (r: Option<nat>)
    ensures r.None? <==> forall j :: 0 <= j < |entries| ==> !HasNotes(entries[j])
    ensures r.Some? ==> r.value < |entries| && HasNotes(entries[r.value])
    ensures r.Some? ==> forall j :: 0 <= j < |entries| && HasNotes(entries[j]) ==>
      entries[j].date <= entries[r.value].date
    ensures r.Some? ==> forall j :: 0 <= j < r.value && HasNotes(entries[j]) ==>
      entries[j].date < entries[r.value].date
  {
    MostRecentAmong(entries, |entries|)
  }

  /** The selection above is the only index with its three properties. */
  lemma MostRecentUnique(entries: seq<Entry>, i: nat)
    requires i < |entries| && HasNotes(entries[i])
    requires forall j :: 0 <= j < |entries| && HasNotes(entries[j]) ==> entries[j].date <= entries[i].date
    requires forall j :: 0 <= j < i && HasNotes(entries[j]) ==> entries[j].date < entries[i].date
    ensures MostRecentWithNotes(entries) == Some(i)
  {
    var r := MostRecentWithNotes(entries);
    var k := r.value;
    assert entries[k].date == entries[i].date;
  }

  /** `getPreviousDayNotes()`, for the entry of the day (if any) and all the user's entries. */
  function PreviousDayNotes(entry: Option<Entry>, allEntries: seq<Entry>): (r: string)
    ensures entry.Some? && entry.value.notes != "" ==> r == entry.value.notes
    ensures !(entry.Some? && entry.value.notes != "") ==>
      (r == "" <==> forall j :: 0 <= j < |allEntries| ==> !HasNotes(allEntries[j]))
    ensures !(entry.Some? && entry.value.notes != "") && r != "" ==>
      exists i :: 0 <= i < |allEntries| && HasNotes(allEntries[i]) && r == allEntries[i].notes
        && forall j :: 0 <= j < |allEntries| && HasNotes(allEntries[j]) ==> allEntries[j].date <= allEntries[i].date
    ensures !(entry.Some? && entry.value.notes != "") ==> r == "" || Text.Trim(r) != ""
  {
    if entry.Some? && entry.value.notes != "" then entry.value.notes
    else
      match MostRecentWithNotes(allEntries)
      case None => ""
      case Some(i) =>
        HasNotesIffTrimmed(allEntries[i]);
        allEntries[i].notes
  }

  /** `entry?.completed ?? false`. */
  function InitialCompleted(entry: Option<Entry>): (b: bool)
    ensures b <==> entry.Some? && entry.value.completed
  {
    match entry
    case None => false
    case Some(e) => e.completed
  }

  /**
   * Non-empty notes of the current entry are kept as they are, even when they
   * are only white space: the check is on the raw string, not the trimmed one.
   */
  lemma BlankCurrentNotesKept(e: Entry, allEntries: seq<Entry>)
    requires e.notes != "" && Text.IsBlank(e.notes)
    ensures PreviousDayNotes(Some(e), allEntries) == e.notes
  {
  }

  /**
   * Without current notes, an entry whose notes are non-empty white space is
   * never the source of the pre-filled notes.
   */
  lemma BlankNotesNeverChosen(entry: Option<Entry>, allEntries: seq<Entry>, i: int)
    requires !(entry.Some? && entry.value.notes != "")
    requires 0 <= i < |allEntries| && allEntries[i].notes != "" && Text.IsBlank(allEntries[i].notes)
    ensures PreviousDayNotes(entry, allEntries) != allEntries[i].notes
  {
    Text.TrimEmptyIffBlank(allEntries[i].notes);
  }
}

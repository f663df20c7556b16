/**
 * Daily entries and the in-memory list of them that the `useEntries` hook
 * keeps for the visible month, with its upsert-by-date transition.
 */
module Entries {
  import opened Wrappers
  import opened Dates

  /** One user-day record, as the store returns it. The date is a day number. */
  datatype Entry = Entry(id: string, userId: string, date: Day, completed: bool, notes: string)

  /** `entries.find(e => e.entry_date === date)`, as the index of the first match. */
  function FindByDate(entries: seq<Entry>, date: Day): (r: Option<nat>)
    ensures r.None? <==> forall i :: 0 <= i < |entries| ==> entries[i].date != date
    ensures r.Some? ==> r.value < |entries| && entries[r.value].date == date
    ensures r.Some? ==> forall j :: 0 <= j < r.value ==> entries[j].date != date
  {
    if entries == [] then None
    else if entries[0].date == date then Some(0)
    else match FindByDate(entries[1..], date)
      case None => None
      case Some(k) => Some(k + 1)
  }

  /**
   * `prev.map(e => e.id === id ? { ...e, completed, notes } : e)`: every entry
   * carrying `id` takes the new flag and notes; nothing else changes.
   */
  function UpdateById(entries: seq<Entry>, id: string, completed: bool, notes: string): (r: seq<Entry>)
    ensures |r| == |entries|
    ensures forall i :: 0 <= i < |r| ==>
      r[i].id == entries[i].id && r[i].userId == entries[i].userId && r[i].date == entries[i].date
    ensures forall i :: 0 <= i < |r| && entries[i].id == id ==> r[i].completed == completed && r[i].notes == notes
    ensures forall i :: 0 <= i < |r| && entries[i].id != id ==> r[i] == entries[i]
  {
    if entries == [] then []
    else
      var e := entries[0];
      var e' := if e.id == id then e.(completed := completed, notes := notes) else e;
      [e'] + UpdateById(entries[1..], id, completed, notes)
  }

  /** Some entry of `entries` is dated `date` and carries `completed` and `notes`. */
  predicate Records(entries: seq<Entry>, date: Day, completed: bool, notes: string) {
    exists i :: 0 <= i < |entries| && entries[i].date == date
      && entries[i].completed == completed && entries[i].notes == notes
  }

  /**
   * The list after `upsertEntry(date, completed, notes)`. The lookup runs on
   * `snapshot`, the list the hook saw when the call began; the update or the
   * append is applied to `prev`, the list current when the store answers
   * (the same list unless something else changed it in between). The store
   * is an oracle: `updateOk` says whether the update call reported no error,
   * and `inserted` is the row the insert call returned (`None` on an error or
   * an empty reply). A well-behaved store returns the row it was sent plus a
   * fresh id.
   */
  function AfterUpsert(snapshot: seq<Entry>, prev: seq<Entry>, user: Option<string>, date: Day,
                       completed: bool, notes: string, updateOk: bool, inserted: Option<Entry>): (r: seq<Entry>)
    // no signed-in user, or a failed store call: nothing changes
    ensures user.None? ==> r == prev
    ensures FindByDate(snapshot, date).Some? && !updateOk ==> r == prev
    ensures FindByDate(snapshot, date).None? && inserted.None? ==> r == prev
    // update path: same length, only entries with the id found in the snapshot change, and only their flag and notes
    ensures user.Some? && FindByDate(snapshot, date).Some? ==>
      var id := snapshot[FindByDate(snapshot, date).value].id;
      |r| == |prev|
      && (forall i :: 0 <= i < |r| ==>
            r[i].id == prev[i].id && r[i].userId == prev[i].userId && r[i].date == prev[i].date)
      && (forall i :: 0 <= i < |r| && prev[i].id != id ==> r[i] == prev[i])
      && (forall i :: 0 <= i < |r| && prev[i].id == id && updateOk ==>
            r[i].completed == completed && r[i].notes == notes)
    // insert path: exactly the returned row is appended
    ensures user.Some? && FindByDate(snapshot, date).None? && inserted.Some? ==>
      |r| == |prev| + 1 && r[..|prev|] == prev && r[|prev|] == inserted.value
    // when nothing changed in between, a successful call records the new flag and notes for the date
    ensures user.Some? && snapshot == prev && FindByDate(snapshot, date).Some? && updateOk ==>
      Records(r, date, completed, notes)
    ensures user.Some? && FindByDate(snapshot, date).None? && inserted.Some?
      && inserted.value.date == date && inserted.value.completed == completed && inserted.value.notes == notes
      ==> Records(r, date, completed, notes)
  {
    if user.None? then prev
    else match FindByDate(snapshot, date)
      case Some(k) =>
        if updateOk then
          var r := UpdateById(prev, snapshot[k].id, completed, notes);
          assert snapshot == prev ==> r[k].date == date && r[k].completed == completed && r[k].notes == notes;
          r
        else prev
      case None =>
        if inserted.Some? then
          var r := prev + [inserted.value];
          assert r[|prev|] == inserted.value;
          r
        else prev
  }

  /**
   * A stale snapshot: when the snapshot has no entry for the date but the
   * current list gained one during the store round trip, the inserted row is
   * appended all the same, and the list holds the date twice.
   */
  lemma StaleSnapshotDuplicatesDate(snapshot: seq<Entry>, prev: seq<Entry>, user: string, date: Day,
                                    completed: bool, notes: string, updateOk: bool, row: Entry, j: int)
    requires FindByDate(snapshot, date).None?
    requires 0 <= j < |prev| && prev[j].date == date && row.date == date
    ensures var r := AfterUpsert(snapshot, prev, Some(user), date, completed, notes, updateOk, Some(row));
      j < |prev| < |r| && r[j].date == date && r[|prev|].date == date
  {
  }

  /** The hook's `entries` state for the signed-in `user` (or no user). */
  class EntryList {
    var entries: seq<Entry>
    var user: Option<string>

    constructor (user: Option<string>)
      ensures this.entries == [] && this.user == user
    {
      this.entries := [];
      this.user := user;
    }

    /** `setEntries(prev => prev.map(e => e.id === id ? { ...e, completed, notes } : e))`. */
    method ApplyUpdate(id: string, completed: bool, notes: string)
      modifies this`entries
      ensures entries == UpdateById(old(entries), id, completed, notes)
    {
      entries := UpdateById(entries, id, completed, notes);
    }

    /** `setEntries(prev => [...prev, data])`. */
    method ApplyInsert(row: Entry)
      modifies this`entries
      ensures entries == old(entries) + [row]
    {
      entries := entries + [row];
    }

    /**
     * `upsertEntry` with nothing else changing the list during the store
     * round trip: find the entry of `date`; if there is one, update it by
     * id, otherwise append the inserted row; on a store error keep the list.
     */
    method Upsert(date: Day, completed: bool, notes: string, updateOk: bool, inserted: Option<Entry>)
      modifies this`entries
      ensures entries == AfterUpsert(old(entries), old(entries), user, date, completed, notes, updateOk, inserted)
    {
      if user.None? {
        return;
      }
      var existing := FindByDate(entries, date);
      if existing.Some? {
        if updateOk {
          ApplyUpdate(entries[existing.value].id, completed, notes);
        }
      } else {
        if inserted.Some? {
          ApplyInsert(inserted.value);
        }
      }
    }
  }
}

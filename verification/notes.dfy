/** The note record the app keeps in its collection, and facts about collections of notes. */
module Notes {
  import opened Wrappers

  /**
   * A note. Instants (`createdAt`, `alarmDate`) are milliseconds since the
   * epoch; `alarmTime` is the text of the time field, normally "HH:MM".
   */
  datatype Note = Note(
    id: string,
    title: string,
    content: string,
    createdAt: int,
    alarmDate: Option<int>,
    alarmTime: Option<string>,
    isAlarmActive: bool)

  /**
   * `note.alarmDate && note.alarmTime` in `page.tsx`: a Date object is
   * always truthy, a time string only when it is not empty.
   */
  predicate AlarmConfigured(n: Note) {
    n.alarmDate.Some? && n.alarmTime.Some? && n.alarmTime.value != ""
  }

  /** No two notes of the collection share an id. */
  predicate UniqueIds(notes: seq<Note>) {
    forall i, j :: 0 <= i < j < |notes| ==> notes[i].id != notes[j].id
  }

  predicate HasId(notes: seq<Note>, id: string) {
    exists i :: 0 <= i < |notes| && notes[i].id == id
  }

  /** Two collections that hold the same notes except, perhaps, for their alarm flags. */
  predicate SameButFlags(a: seq<Note>, b: seq<Note>) {
    |a| == |b| && forall k :: 0 <= k < |a| ==> a[k].(isAlarmActive := b[k].isAlarmActive) == b[k]
  }

  /** Collections that agree except for alarm flags have the same ids at the same places. */
  lemma SameButFlagsKeepsIds(a: seq<Note>, b: seq<Note>)
    requires SameButFlags(a, b)
    ensures forall k :: 0 <= k < |a| ==> a[k].id == b[k].id
    ensures UniqueIds(a) <==> UniqueIds(b)
  {
    assert forall k :: 0 <= k < |a| ==> a[k].id == a[k].(isAlarmActive := b[k].isAlarmActive).id;
  }
}

/**
 * The user-facing operations on the note collection: creating a note from
 * the form (with the blank and duplicate checks), deleting a note, and
 * toggling a note's alarm. The collection is newest first.
 */
module Lifecycle {
  import opened Wrappers
  import opened Text
  import opened Notes

  /** The title a note gets when the title field is left empty. */
  const Untitled: string := "Nota sem título"

  /** The form's fields, as the user typed them. */
  datatype Draft = Draft(title: string, content: string, alarmDate: string, alarmTime: string)

  datatype Rejection = BlankNote | Duplicate

  /** A create either yields the new collection or is turned down, leaving the collection as it was. */
  datatype Outcome = Created(notes: seq<Note>) | Rejected(reason: Rejection)

  /** An existing note has the draft's title and content, up to surrounding whitespace and letter case. */
  predicate SameText(n: Note, d: Draft) {
    Key(n.title) == Key(d.title) && Key(n.content) == Key(d.content)
  }

  predicate HasDuplicate(notes: seq<Note>, d: Draft) {
    exists i :: 0 <= i < |notes| && SameText(notes[i], d)
  }

  /**
   * The note built from a draft. `id` and `now` stand for the generated id
   * and the creation time; `dateValue` is the instant the date field turns
   * into, used only when that field is filled in.
   */
  function NewNote(d: Draft, id: string, now: int, dateValue: int): (n: Note)
    ensures n.id == id && n.createdAt == now
    ensures n.title != ""
    ensures d.title != "" ==> n.title == d.title
    ensures d.title == "" ==> n.title == Untitled
    ensures n.content == d.content
    ensures n.alarmDate == (if d.alarmDate == "" then None else Some(dateValue))
    ensures n.alarmTime == (if d.alarmTime == "" then None else Some(d.alarmTime))
    ensures n.isAlarmActive <==> d.alarmDate != "" && d.alarmTime != ""
    ensures n.isAlarmActive <==> AlarmConfigured(n)
  {
    Note(
      id := id,
      title := if d.title == "" then Untitled else d.title,
      content := d.content,
      createdAt := now,
      alarmDate := if d.alarmDate == "" then None else Some(dateValue),
      alarmTime := if d.alarmTime == "" then None else Some(d.alarmTime),
      isAlarmActive := d.alarmDate != "" && d.alarmTime != "")
  }

  /**
   * `createNote`: a draft whose title and content are both blank is
   * ignored, one with the text of an existing note is refused, and any
   * other draft becomes a new note at the front of the collection.
   */
  function CreateNote(notes: seq<Note>, d: Draft, id: string, now: int, dateValue: int): (r: Outcome)
    ensures r == Rejected(BlankNote) <==> Blank(d.title) && Blank(d.content)
    ensures r == Rejected(Duplicate) <==> !(Blank(d.title) && Blank(d.content)) && HasDuplicate(notes, d)
    ensures r.Created? ==> |r.notes| == |notes| + 1 && r.notes[0] == NewNote(d, id, now, dateValue) && r.notes[1..] == notes
  {
    if Blank(d.title) && Blank(d.content) then Rejected(BlankNote)
    else if HasDuplicate(notes, d) then Rejected(Duplicate)
    else Created([NewNote(d, id, now, dateValue)] + notes)
  }

  /** A note created with an id no other note has keeps the ids of the collection unique. */
  lemma CreateKeepsIdsUnique(notes: seq<Note>, d: Draft, id: string, now: int, dateValue: int)
    requires UniqueIds(notes) && !HasId(notes, id)
    ensures CreateNote(notes, d, id, now, dateValue).Created? ==> UniqueIds(CreateNote(notes, d, id, now, dateValue).notes)
  {
    var r := CreateNote(notes, d, id, now, dateValue);
    if r.Created? {
      var ns := r.notes;
      assert ns[0].id == id;
      forall i, j | 0 <= i < j < |ns|
        ensures ns[i].id != ns[j].id
      {
        assert ns[j] == notes[j - 1];
        if i > 0 {
          assert ns[i] == notes[i - 1];
        }
      }
    }
  }

  /**
   * Submitting the same titled draft again is refused: the note the first
   * submission stored carries the draft's own title and content.
   */
  lemma ResubmitIsRejected(notes: seq<Note>, d: Draft, id: string, id': string, now: int, now': int, dateValue: int)
    requires d.title != ""
    requires CreateNote(notes, d, id, now, dateValue).Created?
    ensures CreateNote(CreateNote(notes, d, id, now, dateValue).notes, d, id', now', dateValue).Rejected?
  {
    var ns := CreateNote(notes, d, id, now, dateValue).notes;
    assert SameText(ns[0], d);
  }

  /**
   * The duplicate check compares the draft's raw title with the stored
   * one, and an untitled note is stored as `Untitled`. So an untitled draft
   * with content is accepted again however often it is submitted: the
   * collection then holds two notes with equal title and content.
   */
  lemma UntitledResubmitIsAccepted(d: Draft, id: string, id': string, now: int, now': int, dateValue: int)
    requires d.title == "" && !Blank(d.content)
    ensures CreateNote([], d, id, now, dateValue).Created?
    ensures var ns := CreateNote([], d, id, now, dateValue).notes;
      && CreateNote(ns, d, id', now', dateValue).Created?
      && var ns' := CreateNote(ns, d, id', now', dateValue).notes;
      && |ns'| == 2 && ns'[0].title == ns'[1].title && ns'[0].content == ns'[1].content
  {
    var n := NewNote(d, id, now, dateValue);
    assert CreateNote([], d, id, now, dateValue) == Created([n]);
    assert !IsWhitespace(Untitled[0]);
    assert !Blank(Untitled);
    assert Key(d.title) == [] && Key(n.title) != [];
    assert !SameText(n, d);
    assert !HasDuplicate([n], d);
  }

  /**
   * Re-typing an existing note with other letter case and extra whitespace
   * around its title and content is refused: as a duplicate, unless that
   * note's title and content are both blank.
   */
  lemma VariantIsDuplicate(notes: seq<Note>, i: nat, title: string, content: string,
                           w1: string, w2: string, w3: string, w4: string,
                           alarmDate: string, alarmTime: string)
    requires i < |notes|
    requires AllWhitespace(w1) && AllWhitespace(w2) && AllWhitespace(w3) && AllWhitespace(w4)
    requires ToLower(title) == ToLower(notes[i].title) && ToLower(content) == ToLower(notes[i].content)
    ensures var d := Draft(w1 + title + w2, w3 + content + w4, alarmDate, alarmTime);
      forall id, now, dateValue :: CreateNote(notes, d, id, now, dateValue)
        == Rejected(if Blank(notes[i].title) && Blank(notes[i].content) then BlankNote else Duplicate)
  {
    var d := Draft(w1 + title + w2, w3 + content + w4, alarmDate, alarmTime);
    KeyIgnoresPadding(w1, title, w2);
    KeyOfSameLower(title, notes[i].title);
    KeyIgnoresPadding(w3, content, w4);
    KeyOfSameLower(content, notes[i].content);
    assert SameText(notes[i], d);
  }

  /** `deleteNote`: the notes whose id differs from `id`, in their original order. */
  function DeleteNote(notes: seq<Note>, id: string): (r: seq<Note>)
    ensures |r| <= |notes|
    ensures forall n :: n in r <==> n in notes && n.id != id
    ensures !HasId(notes, id) ==> r == notes
  {
    if notes == [] then []
    else (if notes[0].id == id then [] else [notes[0]]) + DeleteNote(notes[1..], id)
  }

  /** Deleting from a joined collection deletes from each part: the kept notes stay in order. */
  lemma {:induction false} DeleteDistributes(a: seq<Note>, b: seq<Note>, id: string)
    ensures DeleteNote(a + b, id) == DeleteNote(a, id) + DeleteNote(b, id)
  {
    if a == [] {
      assert a + b == b;
    } else {
      assert (a + b)[1..] == a[1..] + b;
      DeleteDistributes(a[1..], b, id);
    }
  }

  /** Deleting twice is deleting once. */
  lemma DeleteIdempotent(notes: seq<Note>, id: string)
    ensures DeleteNote(DeleteNote(notes, id), id) == DeleteNote(notes, id)
  {
    var r := DeleteNote(notes, id);
    assert !HasId(r, id) by {
      forall k | 0 <= k < |r|
        ensures r[k].id != id
      {
        assert r[k] in r;
      }
    }
  }

  /** Removing notes keeps the remaining ids unique. */
  lemma {:induction false} DeleteKeepsIdsUnique(notes: seq<Note>, id: string)
    requires UniqueIds(notes)
    ensures UniqueIds(DeleteNote(notes, id))
  {
    if notes != [] {
      DeleteKeepsIdsUnique(notes[1..], id);
      var rest := DeleteNote(notes[1..], id);
      forall k | 0 <= k < |rest|
        ensures rest[k].id != notes[0].id
      {
        assert rest[k] in notes[1..];
      }
    }
  }

  /** The note with its alarm flag negated when its id is `id`, and unchanged otherwise. */
  function FlipIfId(n: Note, id: string): Note {
    if n.id == id then n.(isAlarmActive := !n.isAlarmActive) else n
  }

  /**
   * `toggleAlarm`: negates the alarm flag of every note with the given id
   * and changes nothing else. It does not look at whether an alarm date and
   * time are set.
   */
  function ToggleAlarm(notes: seq<Note>, id: string): (r: seq<Note>)
    ensures SameButFlags(r, notes)
    ensures forall k :: 0 <= k < |r| ==> (r[k].isAlarmActive != notes[k].isAlarmActive <==> notes[k].id == id)
  {
    if notes == [] then [] else [FlipIfId(notes[0], id)] + ToggleAlarm(notes[1..], id)
  }

  /** Toggling twice restores the collection. */
  lemma ToggleTwice(notes: seq<Note>, id: string)
    ensures ToggleAlarm(ToggleAlarm(notes, id), id) == notes
  {
    var once := ToggleAlarm(notes, id);
    var twice := ToggleAlarm(once, id);
    SameButFlagsKeepsIds(once, notes);
    forall k | 0 <= k < |notes|
      ensures twice[k] == notes[k]
    {
      assert twice[k].(isAlarmActive := once[k].isAlarmActive) == once[k];
      assert once[k].(isAlarmActive := notes[k].isAlarmActive) == notes[k];
    }
  }

  /** Toggling keeps every id where it was, so unique ids stay unique. */
  lemma ToggleKeepsIdsUnique(notes: seq<Note>, id: string)
    requires UniqueIds(notes)
    ensures UniqueIds(ToggleAlarm(notes, id))
  {
    SameButFlagsKeepsIds(ToggleAlarm(notes, id), notes);
  }

  /** A note without alarm date or time is armed by a toggle all the same: the flag flips unconditionally. */
  lemma ToggleArmsUnconfigured(n: Note)
    requires !AlarmConfigured(n) && !n.isAlarmActive
    ensures ToggleAlarm([n], n.id)[0].isAlarmActive
    ensures !AlarmConfigured(ToggleAlarm([n], n.id)[0])
  {
    SameButFlagsKeepsIds(ToggleAlarm([n], n.id), [n]);
    assert ToggleAlarm([n], n.id)[0].(isAlarmActive := false) == n;
  }
}

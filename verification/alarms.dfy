/**
 * The periodic alarm scan (`checkAlarms`): which notes are due at a given
 * instant, the reminders shown for them, and the disarming that keeps a
 * reminder from firing twice.
 */
module Alarms {
  import opened Wrappers
  import opened Clock
  import opened Notes
  import Lifecycle

  /** A reminder fires only within one minute after its instant. */
  const Window: int := 60000

  /**
   * The instant a note's alarm is set for, when the note has an alarm date
   * and a non-empty alarm time and the time parses to numbers.
   */
  function Target(n: Note, zone: int): (r: Option<int>)
    ensures r.Some? ==> AlarmConfigured(n)
  {
    if AlarmConfigured(n) then AlarmInstant(n.alarmDate.value, n.alarmTime.value, zone) else None
  }

  /**
   * A note is due at `now` when its alarm is armed and configured and `now`
   * lies in the minute that starts at its target instant.
   */
  predicate Due(n: Note, now: int, zone: int) {
    && n.isAlarmActive
    && AlarmConfigured(n)
    && Target(n, zone).Some?
    && now >= Target(n, zone).value
    && now - Target(n, zone).value < Window
  }

  /** The reminder a due note shows: `new Notification("Lembrete: " + title, { body: content, icon })`. */
  datatype Reminder = Reminder(title: string, body: string, icon: string)

  function ReminderFor(n: Note): Reminder {
    Reminder("Lembrete: " + n.title, n.content, "/icon.svg")
  }

  /**
   * The browser's notification permission, and the platforms on which asking
   * for it goes wrong. `Unsupported` is a platform without the Notification
   * API. `GrantedWithoutConstructor` grants permission, but its
   * `Notification` constructor throws a TypeError, as Chrome on Android
   * does: it shows notifications only through a service worker.
   */
  datatype Permission = Granted | GrantedWithoutConstructor | Denied | Default | Unsupported

  /**
   * The platforms on which the scan throws at a due note: reading
   * `Notification.permission` throws a ReferenceError, or the permission is
   * granted and `new Notification(...)` throws a TypeError.
   */
  predicate ThrowsAtDueNote(permission: Permission) {
    permission == Unsupported || permission == GrantedWithoutConstructor
  }

  /**
   * The due test at `now` as a predicate on notes. The scan below is
   * written for any such test, so that its proofs need not look into
   * the clock arithmetic behind `Due`.
   */
  function DueAt(now: int, zone: int): Note -> bool {
    n => Due(n, now, zone)
  }

  /** The ids of the notes that pass the due test. */
  function DueIds(notes: seq<Note>, due: Note -> bool): set<string> {
    set k | 0 <= k < |notes| && due(notes[k]) :: notes[k].id
  }

  /** Every note whose id is in `ids` gets its alarm flag cleared; nothing else changes. */
  function DisarmIds(notes: seq<Note>, ids: set<string>): (r: seq<Note>)
    ensures SameButFlags(r, notes)
    ensures forall k :: 0 <= k < |r| ==> (r[k].isAlarmActive <==> notes[k].isAlarmActive && notes[k].id !in ids)
  {
    if notes == [] then []
    else
      var n := notes[0];
      [if n.id in ids then n.(isAlarmActive := false) else n] + DisarmIds(notes[1..], ids)
  }

  /** The reminders shown for the due notes, in collection order; none unless they may be shown. */
  function Reminders(notes: seq<Note>, due: Note -> bool, show: bool): seq<Reminder> {
    if notes == [] then []
    else
      var last := notes[|notes| - 1];
      Reminders(notes[..|notes| - 1], due, show)
        + (if show && due(last) then [ReminderFor(last)] else [])
  }

  datatype ScanResult = ScanResult(notes: seq<Note>, shown: seq<Reminder>)

  /**
   * One alarm scan: every due note is disarmed (through its id) and, when
   * `show` holds, announced. Disarming does not depend on `show`. The scan
   * at `now` is `Scan(notes, DueAt(now, zone), show)`.
   */
  function Scan(notes: seq<Note>, due: Note -> bool, show: bool): ScanResult {
    ScanResult(DisarmIds(notes, DueIds(notes, due)), Reminders(notes, due, show))
  }

  /**
   * How a scan as written ends: normally, or by the exception a
   * `ThrowsAtDueNote` platform raises at the first due note, before
   * anything is disarmed or shown.
   */
  datatype ScanRun = Finished(result: ScanResult) | Threw

  function ScanAsWritten(notes: seq<Note>, due: Note -> bool, permission: Permission): ScanRun {
    if ThrowsAtDueNote(permission) && DueIds(notes, due) != {} then Threw
    else Finished(Scan(notes, due, permission == Granted))
  }

  /** Disarming in two rounds is disarming the union of the ids at once. */
  lemma DisarmTwice(notes: seq<Note>, a: set<string>, b: set<string>)
    ensures DisarmIds(DisarmIds(notes, a), b) == DisarmIds(notes, a + b)
  {
    var once := DisarmIds(notes, a);
    var twice := DisarmIds(once, b);
    var both := DisarmIds(notes, a + b);
    SameButFlagsKeepsIds(once, notes);
    forall k | 0 <= k < |notes|
      ensures twice[k] == both[k]
    {
      SameFlagSameNote(twice[k], once[k], both[k], notes[k]);
    }
  }

  lemma SameFlagSameNote(x: Note, y: Note, z: Note, n: Note)
    requires x.(isAlarmActive := y.isAlarmActive) == y
    requires y.(isAlarmActive := n.isAlarmActive) == n
    requires z.(isAlarmActive := n.isAlarmActive) == n
    requires x.isAlarmActive == z.isAlarmActive
    ensures x == z
  {
  }

  /** Disarming no ids changes nothing. */
  lemma DisarmNothing(notes: seq<Note>)
    ensures DisarmIds(notes, {}) == notes
  {
    var r := DisarmIds(notes, {});
    forall k | 0 <= k < |notes|
      ensures r[k] == notes[k]
    {
      assert r[k].(isAlarmActive := notes[k].isAlarmActive) == notes[k];
    }
  }

  /** The due ids of a prefix grow by the id of the next note when that note is due. */
  lemma DueIdsSnoc(notes: seq<Note>, k: nat, due: Note -> bool)
    requires k < |notes|
    ensures DueIds(notes[..k + 1], due)
      == DueIds(notes[..k], due) + (if due(notes[k]) then {notes[k].id} else {})
  {
    var p, q := notes[..k + 1], notes[..k];
    assert forall j :: 0 <= j < k ==> p[j] == q[j];
    assert p[k] == notes[k];
  }

  /** When reminders may not be shown, none are. */
  lemma {:induction false} NothingShownWithoutPermission(notes: seq<Note>, due: Note -> bool)
    ensures Reminders(notes, due, false) == []
  {
    if notes != [] {
      NothingShownWithoutPermission(notes[..|notes| - 1], due);
    }
  }

  /** The id of a due note is among the due ids. */
  lemma DueIdListed(notes: seq<Note>, k: nat, due: Note -> bool)
    requires k < |notes| && due(notes[k])
    ensures notes[k].id in DueIds(notes, due)
  {
  }

  /** Visiting note `k` adds its reminder, when it is due and may be shown, to those of the notes before it. */
  lemma RemindersSnoc(notes: seq<Note>, k: nat, due: Note -> bool, show: bool)
    requires k < |notes|
    ensures Reminders(notes[..k + 1], due, show) == Reminders(notes[..k], due, show)
      + (if show && due(notes[k]) then [ReminderFor(notes[k])] else [])
  {
    assert notes[..k + 1][..k] == notes[..k];
  }

  /** Visiting note `k` disarms its id, when it is due, on top of the ids disarmed before it. */
  lemma DisarmSnoc(snapshot: seq<Note>, k: nat, due: Note -> bool)
    requires k < |snapshot|
    ensures DisarmIds(snapshot, DueIds(snapshot[..k + 1], due))
      == if due(snapshot[k])
         then DisarmIds(DisarmIds(snapshot, DueIds(snapshot[..k], due)), {snapshot[k].id})
         else DisarmIds(snapshot, DueIds(snapshot[..k], due))
  {
    DueIdsSnoc(snapshot, k, due);
    var before, after := DueIds(snapshot[..k], due), DueIds(snapshot[..k + 1], due);
    if due(snapshot[k]) {
      assert after == before + {snapshot[k].id};
      DisarmTwice(snapshot, before, {snapshot[k].id});
    } else {
      assert after == before;
    }
  }

  /** The scan throws at its first due note, having disarmed and shown nothing. */
  lemma FirstDueNoteThrows(notes: seq<Note>, k: nat, due: Note -> bool, permission: Permission)
    requires ThrowsAtDueNote(permission) && k < |notes| && due(notes[k])
    requires DueIds(notes[..k], due) == {}
    ensures ScanAsWritten(notes, due, permission) == Threw
    ensures DisarmIds(notes, DueIds(notes[..k], due)) == notes
    ensures Reminders(notes[..k], due, permission == Granted) == []
  {
    DueIdListed(notes, k, due);
    DisarmNothing(notes);
    NothingShownWithoutPermission(notes[..k], due);
  }

  /** A scan with no due note, or on a platform that does not throw, finishes with the result of `Scan`. */
  lemma ScanFinishes(notes: seq<Note>, due: Note -> bool, permission: Permission)
    requires ThrowsAtDueNote(permission) ==> DueIds(notes, due) == {}
    ensures ScanAsWritten(notes, due, permission) == Finished(Scan(notes, due, permission == Granted))
  {
  }

  /**
   * `checkAlarms` as written: each note of the snapshot is visited in
   * order, and a due note is announced when permission is granted and then
   * disarmed by id. On a `ThrowsAtDueNote` platform the first due note
   * raises an exception, which ends the scan before anything is disarmed
   * (`threw`).
   */
  method CheckAlarms(snapshot: seq<Note>, now: int, zone: int, permission: Permission)
    returns (updated: seq<Note>, shown: seq<Reminder>, threw: bool)
    ensures threw <==> ScanAsWritten(snapshot, DueAt(now, zone), permission) == Threw
    ensures threw ==> updated == snapshot && shown == []
    ensures !threw ==> ScanAsWritten(snapshot, DueAt(now, zone), permission) == Finished(ScanResult(updated, shown))
  {
    updated, shown, threw := VisitNotes(snapshot, DueAt(now, zone), permission);
  }

  /** The loop of `checkAlarms`, for any due test. */
  method VisitNotes(snapshot: seq<Note>, due: Note -> bool, permission: Permission)
    returns (updated: seq<Note>, shown: seq<Reminder>, threw: bool)
    ensures threw <==> ScanAsWritten(snapshot, due, permission) == Threw
    ensures threw ==> updated == snapshot && shown == []
    ensures !threw ==> ScanAsWritten(snapshot, due, permission) == Finished(ScanResult(updated, shown))
  {
    updated, shown, threw := snapshot, [], false;
    DisarmNothing(snapshot);
    for k := 0 to |snapshot|
      invariant updated == DisarmIds(snapshot, DueIds(snapshot[..k], due))
      invariant shown == Reminders(snapshot[..k], due, permission == Granted)
      invariant ThrowsAtDueNote(permission) ==> DueIds(snapshot[..k], due) == {}
    {
      updated, shown, threw := VisitNote(snapshot, k, due, permission, updated, shown);
      if threw {
        return;
      }
    }
    assert snapshot[..|snapshot|] == snapshot;
    ScanFinishes(snapshot, due, permission);
  }

  /**
   * The body of the `forEach` for note `k`, given what the notes before it
   * left: a due note is announced when permission is granted and then
   * disarmed, unless the platform throws at it.
   */
  method VisitNote(snapshot: seq<Note>, k: nat, due: Note -> bool, permission: Permission,
                   updated: seq<Note>, shown: seq<Reminder>)
    returns (updated': seq<Note>, shown': seq<Reminder>, threw: bool)
    requires k < |snapshot|
    requires updated == DisarmIds(snapshot, DueIds(snapshot[..k], due))
    requires shown == Reminders(snapshot[..k], due, permission == Granted)
    requires ThrowsAtDueNote(permission) ==> DueIds(snapshot[..k], due) == {}
    ensures threw <==> ThrowsAtDueNote(permission) && due(snapshot[k])
    ensures threw ==> ScanAsWritten(snapshot, due, permission) == Threw && updated' == snapshot && shown' == []
    ensures !threw ==> updated' == DisarmIds(snapshot, DueIds(snapshot[..k + 1], due))
    ensures !threw ==> shown' == Reminders(snapshot[..k + 1], due, permission == Granted)
    ensures !threw ==> (ThrowsAtDueNote(permission) ==> DueIds(snapshot[..k + 1], due) == {})
  {
    var note := snapshot[k];
    if due(note) && ThrowsAtDueNote(permission) {
      FirstDueNoteThrows(snapshot, k, due, permission);
      return snapshot, [], true;
    }
    RemindersSnoc(snapshot, k, due, permission == Granted);
    DisarmSnoc(snapshot, k, due);
    DueIdsSnoc(snapshot, k, due);
    updated', shown', threw := updated, shown, false;
    if due(note) {
      if permission == Granted {
        shown' := shown' + [ReminderFor(note)];
      }
      updated' := DisarmIds(updated', {note.id});
    }
  }

  /**
   * For a time field's "HH:MM", the alarm is set for that wall-clock time
   * on the local day of the alarm date, whatever the note's other fields.
   */
  lemma TargetOfTimeField(n: Note, zone: int, h: nat, m: nat)
    requires h < 24 && m < 60
    requires n.alarmDate.Some? && n.alarmTime == Some(TimeField(h, m))
    ensures Target(n, zone).Some?
    ensures LocalDay(Target(n, zone).value, zone) == LocalDay(n.alarmDate.value, zone)
    ensures LocalTimeOfDay(Target(n, zone).value, zone) == h * HourMs + m * MinuteMs
  {
    AlarmInstantOfTimeField(n.alarmDate.value, zone, h, m);
  }

  /**
   * A note created from a filled-in date field and a time field showing
   * "HH:MM" is armed, and its alarm is set for that wall-clock time on the
   * local day of the date field's instant.
   */
  lemma CreatedAlarmTarget(d: Lifecycle.Draft, id: string, now: int, dateValue: int, zone: int, h: nat, m: nat)
    requires h < 24 && m < 60
    requires d.alarmDate != "" && d.alarmTime == TimeField(h, m)
    ensures var n := Lifecycle.NewNote(d, id, now, dateValue);
      && n.isAlarmActive
      && Target(n, zone).Some?
      && LocalDay(Target(n, zone).value, zone) == LocalDay(dateValue, zone)
      && LocalTimeOfDay(Target(n, zone).value, zone) == h * HourMs + m * MinuteMs
  {
    TargetOfTimeField(Lifecycle.NewNote(d, id, now, dateValue), zone, h, m);
  }

  /** An armed note with a target is due exactly during the minute starting at its target. */
  lemma DueExactlyInWindow(n: Note, now: int, zone: int)
    requires n.isAlarmActive && Target(n, zone).Some?
    ensures Due(n, now, zone) <==> Target(n, zone).value <= now < Target(n, zone).value + Window
  {
  }

  /** A note lacking the alarm date or time never fires, whatever its flag says. */
  lemma UnconfiguredNeverDue(n: Note, now: int, zone: int)
    requires !AlarmConfigured(n)
    ensures !Due(n, now, zone)
  {
  }

  /** A note that is due stays due for the rest of its minute, as long as nothing disarms it. */
  lemma DueUntilWindowEnds(n: Note, now: int, later: int, zone: int)
    requires Due(n, now, zone)
    requires now <= later < Target(n, zone).value + Window
    ensures Due(n, later, zone)
  {
  }

  /**
   * The effect of a scan on the collection: no note is added, removed or
   * moved, only alarm flags change, every due note is disarmed, and a flag
   * is only ever cleared, never set. A note that is not due is disarmed only
   * when it shares its id with a due note.
   */
  lemma ScanDisarmsDue(notes: seq<Note>, due: Note -> bool, show: bool)
    ensures var r := Scan(notes, due, show).notes;
      && SameButFlags(r, notes)
      && (forall k :: 0 <= k < |r| && due(notes[k]) ==> !r[k].isAlarmActive)
      && (forall k :: 0 <= k < |r| && r[k].isAlarmActive ==> notes[k].isAlarmActive)
      && (forall k :: 0 <= k < |r| && r[k] != notes[k] ==> notes[k].id in DueIds(notes, due))
  {
    var r := Scan(notes, due, show).notes;
    forall k | 0 <= k < |r| && r[k] != notes[k]
      ensures notes[k].id in DueIds(notes, due)
    {
      assert r[k].(isAlarmActive := notes[k].isAlarmActive) == notes[k];
    }
  }

  /**
   * With unique ids, a scan disarms exactly the due notes and leaves every
   * other note as it was.
   */
  lemma ScanWithUniqueIds(notes: seq<Note>, due: Note -> bool, show: bool)
    requires UniqueIds(notes)
    ensures var r := Scan(notes, due, show).notes;
      && |r| == |notes|
      && forall k :: 0 <= k < |r| ==>
           r[k] == (if due(notes[k]) then notes[k].(isAlarmActive := false) else notes[k])
  {
    var r := Scan(notes, due, show).notes;
    forall k | 0 <= k < |r|
      ensures r[k] == (if due(notes[k]) then notes[k].(isAlarmActive := false) else notes[k])
    {
      assert r[k].(isAlarmActive := notes[k].isAlarmActive) == notes[k];
      if notes[k].id in DueIds(notes, due) {
        var j :| 0 <= j < |notes| && due(notes[j]) && notes[j].id == notes[k].id;
        assert j == k;
      }
    }
  }

  /** Scanning keeps every id where it was, so unique ids stay unique. */
  lemma ScanKeepsIdsUnique(notes: seq<Note>, due: Note -> bool, show: bool)
    requires UniqueIds(notes)
    ensures UniqueIds(Scan(notes, due, show).notes)
  {
    SameButFlagsKeepsIds(Scan(notes, due, show).notes, notes);
  }

  /**
   * As written, on a platform without the Notification API, or one whose
   * `Notification` constructor throws, a due note is never disarmed: every
   * scan during its minute throws before reaching the disarming update.
   * A scan that throws leaves the collection as it was (`CheckAlarms`), so
   * the note stays armed.
   */
  lemma ThrowingScanNeverDisarms(notes: seq<Note>, k: nat, now: int, later: int, zone: int, permission: Permission)
    requires ThrowsAtDueNote(permission)
    requires k < |notes| && Due(notes[k], now, zone)
    requires now <= later < Target(notes[k], zone).value + Window
    ensures ScanAsWritten(notes, DueAt(later, zone), permission) == Threw
  {
    DueUntilWindowEnds(notes[k], now, later, zone);
    DueIdListed(notes, k, DueAt(later, zone));
  }

  /**
   * On a platform that answers the permission question and can construct a
   * notification, the scan as written is the scan of `Scan`; on the others
   * it finishes exactly when no note is due.
   */
  lemma AsWrittenWithPermission(notes: seq<Note>, due: Note -> bool, permission: Permission)
    ensures !ThrowsAtDueNote(permission) ==> ScanAsWritten(notes, due, permission) == Finished(Scan(notes, due, permission == Granted))
    ensures ScanAsWritten(notes, due, permission).Finished? <==> !ThrowsAtDueNote(permission) || DueIds(notes, due) == {}
  {
  }

  /** An armed note that matches another note up to its flag is that note. */
  lemma ArmedFlagDecides(x: Note, y: Note)
    requires x.(isAlarmActive := y.isAlarmActive) == y
    requires x.isAlarmActive && y.isAlarmActive
    ensures x == y
  {
  }

  /** A collection with no due note shows no reminder. */
  lemma {:induction false} NoDueNoReminders(notes: seq<Note>, due: Note -> bool, show: bool)
    requires forall k :: 0 <= k < |notes| ==> !due(notes[k])
    ensures Reminders(notes, due, show) == []
  {
    if notes != [] {
      NoDueNoReminders(notes[..|notes| - 1], due, show);
    }
  }

  /** The due test only ever passes armed notes. */
  ghost predicate ArmedOnly(due: Note -> bool) {
    forall n :: due(n) ==> n.isAlarmActive
  }

  /**
   * At most once: for a due test that only passes armed notes, no note is
   * due right after a scan, so a second scan with the same test shows
   * nothing and changes nothing.
   */
  lemma ScanIsAtMostOnce(notes: seq<Note>, due: Note -> bool, show: bool, show': bool)
    requires ArmedOnly(due)
    ensures var first := Scan(notes, due, show);
      && Scan(first.notes, due, show') == ScanResult(first.notes, [])
  {
    var r := Scan(notes, due, show).notes;
    forall k | 0 <= k < |r|
      ensures !due(r[k])
    {
      if due(r[k]) {
        ArmedFlagDecides(r[k], notes[k]);
        DueIdListed(notes, k, due);
      }
    }
    assert DueIds(r, due) == {};
    DisarmNothing(r);
    NoDueNoReminders(r, due, show');
  }

  /** A second scan at the same instant shows nothing and changes nothing. */
  lemma ScanAtSameInstant(notes: seq<Note>, now: int, zone: int, show: bool, show': bool)
    ensures var first := Scan(notes, DueAt(now, zone), show);
      && Scan(first.notes, DueAt(now, zone), show') == ScanResult(first.notes, [])
  {
    ScanIsAtMostOnce(notes, DueAt(now, zone), show, show');
  }

  /** A note that fired is never due again at any later scan, until the user re-arms it. */
  lemma FiredStaysSilent(notes: seq<Note>, k: nat, now: int, later: int, zone: int, show: bool)
    requires k < |notes| && Due(notes[k], now, zone)
    ensures !Due(Scan(notes, DueAt(now, zone), show).notes[k], later, zone)
  {
    DueIdListed(notes, k, DueAt(now, zone));
  }

  /** Every reminder shown belongs to a due note, and there are no more reminders than notes. */
  lemma {:induction false} RemindersAreForDueNotes(notes: seq<Note>, due: Note -> bool, show: bool)
    ensures |Reminders(notes, due, show)| <= |notes|
    ensures forall x :: x in Reminders(notes, due, show) ==>
      exists k :: 0 <= k < |notes| && due(notes[k]) && x == ReminderFor(notes[k])
  {
    if notes != [] {
      var init, last := notes[..|notes| - 1], notes[|notes| - 1];
      RemindersAreForDueNotes(init, due, show);
      var before := Reminders(init, due, show);
      assert Reminders(notes, due, show) == before + (if show && due(last) then [ReminderFor(last)] else []);
      forall x | x in Reminders(notes, due, show)
        ensures exists k :: 0 <= k < |notes| && due(notes[k]) && x == ReminderFor(notes[k])
      {
        if x in before {
          var k :| 0 <= k < |init| && due(init[k]) && x == ReminderFor(init[k]);
          assert notes[k] == init[k];
        } else {
          assert x == ReminderFor(notes[|notes| - 1]);
        }
      }
    }
  }

  /** When reminders may be shown, every due note gets one. */
  lemma {:induction false} DueNoteShown(notes: seq<Note>, k: nat, due: Note -> bool)
    requires k < |notes| && due(notes[k])
    ensures ReminderFor(notes[k]) in Reminders(notes, due, true)
    decreases |notes|
  {
    var init := notes[..|notes| - 1];
    if k < |init| {
      assert init[k] == notes[k];
      DueNoteShown(init, k, due);
    }
  }

  /**
   * Disarming ignores the permission: the scan leaves the same collection
   * whether or not reminders may be shown, and disarms every due note even
   * when none is shown.
   */
  lemma DisarmIgnoresPermission(notes: seq<Note>, due: Note -> bool)
    ensures Scan(notes, due, true).notes == Scan(notes, due, false).notes
    ensures Scan(notes, due, false).shown == []
    ensures forall k :: 0 <= k < |notes| && due(notes[k]) ==> !Scan(notes, due, false).notes[k].isAlarmActive
  {
    NothingShownWithoutPermission(notes, due);
  }

  /** A deleted note is never due again, since no note with its id is left. */
  lemma DeletedNeverFires(notes: seq<Note>, id: string, due: Note -> bool)
    ensures id !in DueIds(Lifecycle.DeleteNote(notes, id), due)
  {
    var r := Lifecycle.DeleteNote(notes, id);
    forall k | 0 <= k < |r|
      ensures r[k].id != id
    {
      assert r[k] in r;
    }
  }

  /**
   * The toggle does not check the alarm fields, yet a note without them
   * stays silent after being armed by a toggle.
   */
  lemma ToggledUnconfiguredStaysSilent(n: Note, now: int, zone: int)
    requires !AlarmConfigured(n) && !n.isAlarmActive
    ensures Lifecycle.ToggleAlarm([n], n.id)[0].isAlarmActive
    ensures !Due(Lifecycle.ToggleAlarm([n], n.id)[0], now, zone)
  {
    Lifecycle.ToggleArmsUnconfigured(n);
  }

  /**
   * Re-arming is not checked against the clock: a note that just fired and
   * is toggled back on within its minute is due again at the same instant.
   */
  lemma RearmedFiresAgain(n: Note, now: int, zone: int, show: bool)
    requires Due(n, now, zone)
    ensures var fired := Scan([n], DueAt(now, zone), show).notes;
      && !fired[0].isAlarmActive
      && Due(Lifecycle.ToggleAlarm(fired, n.id)[0], now, zone)
  {
    var fired := Scan([n], DueAt(now, zone), show).notes;
    DueIdListed([n], 0, DueAt(now, zone));
    var back := Lifecycle.ToggleAlarm(fired, n.id);
    assert fired[0].(isAlarmActive := n.isAlarmActive) == n;
    assert back[0].(isAlarmActive := fired[0].isAlarmActive) == fired[0];
    assert back[0] == n;
  }
}

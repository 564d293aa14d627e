# Floating notes: note collection and alarm scan

This project models the note-keeping logic of the "Notas Flutuantes" web app
(`src/app/page.tsx`) in Dafny and proves properties of it. The app keeps a
newest-first list of notes. Each note has a title, some content, a creation
time and an optional alarm, made of a date and an "HH:MM" time. The user
creates, deletes and arms or disarms notes. Every 30 seconds a scan visits
each armed note whose alarm minute has come. It announces the note with a
reminder ("Lembrete: ...") when notifications are allowed, and disarms it.

The model keeps the logic and leaves React out. Each operation is a pure
function from the note list (`seq<Note>`) to a new list. Time is in integer
milliseconds. Local time is UTC shifted by a fixed zone offset `zone`.

Modules:

- `Wrappers`: `Option`, for a field that may be `undefined`.
- `Text`: `trim`, `toLowerCase` and the duplicate-check key `s.trim().toLowerCase()`.
- `Clock`: local midnight, `parseInt`, the `split(':')` of an alarm time, and the
  instant `setHours` produces.
- `DateInput`: the value of the date field, and what `new Date(value)` makes of it.
  This is the subject of the first finding below.
- `Notes`: the `Note` record and facts about lists of notes.
- `Lifecycle`: `createNote`, `deleteNote`, `toggleAlarm`.
- `Alarms`: the due test, the scan (`Scan`, a declarative definition) and
  `CheckAlarms` (the `forEach` loop as written). `CheckAlarms` is proved equal
  to `ScanAsWritten`: the result of `Scan`, unless a note is due on a platform
  where the scan throws. The scan is written for any due test `Note -> bool`.
  The scan at `now` uses `DueAt(now, zone)`, the due test of `page.tsx`.

Inputs that `page.tsx` takes from the environment are parameters here:

- the generated id and the creation time of a new note;
- the instant the date field converts to;
- the current time `now` and the zone offset;
- the notification permission and the platform (`Permission`). Besides the three
  permission answers, it has two platforms on which the scan throws at a due note:
  `Unsupported` has no Notification API, and `GrantedWithoutConstructor` grants
  permission but its `Notification` constructor throws a TypeError. Chrome on
  Android does the latter, because it shows notifications only through a service
  worker.

Reminders are not displayed. The scan returns them as a list (`shown`).

`toggleAlarm` (`src/app/page.tsx:166-170`) flips the flag without checking the
alarm fields. Only the UI hides the button for a note without them
(`src/app/page.tsx:311`). `Lifecycle.ToggleArmsUnconfigured` shows the flag flipping.
`Alarms.ToggledUnconfiguredStaysSilent` shows that such a note still never fires.

## Model

| member | source | states |
|---|---|---|
| `Text.Blank` | src/app/page.tsx:134 | a field is blank when its trimmed text is empty; `Text.Trim` states that this is exactly an all-whitespace field |
| `Text.SkipSpace` | src/app/page.tsx:134 | the scan from the front stops at the first non-whitespace character, and everything it passes is whitespace |
| `Text.SkipSpaceBack` | src/app/page.tsx:134 | the scan from the back stops just past the last non-whitespace character, and everything it passes is whitespace |
| `Text.Trim` | src/app/page.tsx:134 | the trimmed text is empty exactly when the field is all whitespace; otherwise it starts and ends with a non-whitespace character |
| `Text.TrimBetweenSpaces` | src/app/page.tsx:134 | the trimmed text is the part of the field between its leading and its trailing whitespace |
| `Text.TrimOfSplit` | src/app/page.tsx:138-139 | the trimmed text is uniquely determined: any split into whitespace, a middle with non-whitespace ends, and whitespace trims to that middle |
| `Text.LowerChar` | src/app/page.tsx:138-139 | a folded character is never an upper-case letter; a folded letter moves 32 code points up, from upper case to lower case, and every other character is kept (narrower than `toLowerCase`; see "## Left out") |
| `Text.ToLower` | src/app/page.tsx:138-139 | lower-casing keeps the length and folds each character on its own |
| `Text.Key` | src/app/page.tsx:138-139 | the comparison key of a field is empty exactly when the field is blank, so two blank fields always compare equal |
| `Text.ToLowerIdempotent` | src/app/page.tsx:138-139 | lower-casing an already lower-cased string changes nothing |
| `Text.SpaceOfLower` | src/app/page.tsx:138-139 | lower-casing keeps the positions where trimming cuts a field |
| `Text.TrimOfLower` | src/app/page.tsx:138-139 | trimming and lower-casing commute |
| `Text.KeyIgnoresCase` | src/app/page.tsx:138-139 | a field and its lower-cased form have the same key |
| `Text.KeyOfSameLower` | src/app/page.tsx:138-139 | two fields that lower-case to the same text have the same key |
| `Text.TrimIgnoresPadding` | src/app/page.tsx:134 | whitespace added on either side of a field does not change its trimmed text |
| `Text.KeyIgnoresPadding` | src/app/page.tsx:138-139 | whitespace added on either side of a field does not change its key |
| `Clock.LocalDayStart` | src/app/page.tsx:102-103 | the local midnight of an instant is at or before it, less than a day before it, and falls on a local day boundary |
| `Clock.LocalDayStartUnique` | src/app/page.tsx:102-103 | the local midnight is the only day boundary within the day before the instant |
| `Clock.OnLocalDay` | src/app/page.tsx:103 | an instant less than a day after a local midnight lies on that day at that wall-clock offset |
| `Clock.Unsigned` | src/app/page.tsx:103 | `parseInt` drops one leading sign character exactly when the text starts with '-' or '+', and otherwise keeps the text |
| `Clock.DigitRun` | src/app/page.tsx:103 | `parseInt` reads exactly the longest run of digits at the start |
| `Clock.ParseInt` | src/app/page.tsx:103 | `parseInt` gives NaN exactly when no digit follows the leading whitespace and sign; otherwise it gives the decimal value of the digit run, negated when the sign is '-' |
| `Clock.ParseTwoDigits` | src/app/page.tsx:103 | `parseInt` of a zero-padded two-digit number gives that number |
| `Clock.ColonAt` | src/app/page.tsx:101 | `split(':')` cuts at the first ':' of the text, or nowhere when there is none |
| `Clock.ParseTime` | src/app/page.tsx:101-103 | an alarm time yields numbers exactly when it contains a ':' and both its first and its second `split(':')` pieces parse; the hours and the minutes are then `parseInt` of those pieces |
| `Clock.HoursPiece` | src/app/page.tsx:101 | the first `split(':')` piece is the longest prefix without ':' |
| `Clock.MinutesPiece` | src/app/page.tsx:101 | the second `split(':')` piece is the text after the first ':', up to the next ':' or the end, and it is missing (NaN for `parseInt`) when the text has no ':' |
| `Clock.ParseTimeField` | src/app/page.tsx:101-103 | splitting a time field's "HH:MM" at ':' and parsing both halves gives back the hour and the minute |
| `Clock.WallClock` | src/app/page.tsx:102-103 | adding less than a day to the local midnight of an instant stays on that instant's local day, at that wall-clock time |
| `Clock.AlarmInstant` | src/app/page.tsx:102-103 | `setHours` gives a valid instant exactly when both halves of the time parse to numbers |
| `Clock.SetHours` | src/app/page.tsx:103 | `setHours` on a local midnight gives a valid instant exactly when neither the hours nor the minutes are NaN |
| `Clock.AlarmInstantKeepsOnlyDay` | src/app/page.tsx:102-103 | `setHours` keeps only the local day of the stored date: two dates on the same local day give the same alarm instant |
| `Clock.AlarmInstantOfTimeField` | src/app/page.tsx:101-103 | `setHours(h, m, 0, 0)` puts the alarm on the local day of the stored date at wall-clock time h:m |
| `DateInput.ParseDateField` | src/app/page.tsx:152 | a date field value that is accepted has the "YYYY-MM-DD" shape |
| `DateInput.ParseDateFieldRoundTrip` | src/app/page.tsx:152 | the "YYYY-MM-DD" value a date field holds for a real calendar date parses back to that date's day number |
| `DateInput.MarchYearLength` | src/app/page.tsx:152 | a year counted from March has 366 days when the February that ends it has 29 days, and 365 otherwise |
| `DateInput.MonthBoundary` | src/app/page.tsx:152 | the last day of every month and the first day of the next month, across a year's end and across 28 or 29 February, have consecutive day numbers |
| `DateInput.NewYearsDayNumber` | src/app/page.tsx:152 | "2024-01-01" is day 19723 after 1970-01-01 |
| `DateInput.AlarmDateAsWritten` | src/app/page.tsx:152 | `new Date("YYYY-MM-DD")` is midnight UTC of the chosen day |
| `DateInput.AlarmDateLocal` | src/app/page.tsx:152 | the corrected conversion is local midnight of the chosen day |
| `DateInput.AsWrittenAlarmIsDayEarly` | src/app/page.tsx:152 | as written, in every zone west of UTC the alarm fires at the chosen time on the day before the chosen day |
| `DateInput.AsWrittenAlarmEastOfGreenwich` | src/app/page.tsx:152 | as written, in UTC and zones east of it, the alarm lands on the chosen day |
| `DateInput.LocalAlarmIsOnChosenDay` | src/app/page.tsx:152 | with the corrected conversion, the alarm lands on the chosen day at the chosen time in every zone |
| `DateInput.NewYearAsWritten` | src/app/page.tsx:152 | 2024-01-01 09:00 in UTC-3 gives the instant 2023-12-31T12:00Z as written |
| `DateInput.NewYearLocal` | src/app/page.tsx:152 | the same alarm gives the instant 2024-01-01T12:00Z with the corrected conversion |
| `Notes.AlarmConfigured` | src/app/page.tsx:100 | a note's alarm is configured when it has an alarm date and a non-empty alarm time |
| `Lifecycle.SameText` | src/app/page.tsx:137-140 | a stored note matches a draft when their trimmed, lower-cased titles are equal and so are their contents |
| `Lifecycle.HasDuplicate` | src/app/page.tsx:137-140 | the duplicate search succeeds when some stored note matches the draft |
| `Lifecycle.NewNote` | src/app/page.tsx:147-155 | a new note has the given id and time and the raw content. Its title is the raw title when one was typed and "Nota sem título" otherwise. It stores the date's instant and the time text exactly when those fields were filled. Its alarm is armed exactly when both alarm fields were filled, and then the alarm is configured |
| `Lifecycle.CreateNote` | src/app/page.tsx:133-160 | a create is refused as blank exactly when title and content are both blank. Otherwise it is refused as a duplicate exactly when a stored note has the same title key and the same content key. Otherwise the new note is put in front and the old notes follow unchanged and in order |
| `Lifecycle.CreateKeepsIdsUnique` | src/app/page.tsx:147-157 | creating with an id no note has keeps the ids unique |
| `Lifecycle.ResubmitIsRejected` | src/app/page.tsx:137-145 | submitting the same titled draft a second time is refused |
| `Lifecycle.UntitledResubmitIsAccepted` | src/app/page.tsx:137-149 | an untitled draft with content is accepted twice, leaving two notes with equal title and content |
| `Lifecycle.VariantIsDuplicate` | src/app/page.tsx:134-145 | a draft that differs from a stored note only in letter case and surrounding whitespace is refused: as a duplicate, or as blank when that note's title and content are both blank |
| `Lifecycle.DeleteNote` | src/app/page.tsx:162-164 | the result holds exactly the notes without the id. It is no longer than the input, and it is the input itself when no note has the id |
| `Lifecycle.DeleteDistributes` | src/app/page.tsx:163 | deleting from a joined list deletes from each part, so the kept notes stay in their order |
| `Lifecycle.DeleteIdempotent` | src/app/page.tsx:163 | deleting the same id twice is the same as deleting it once |
| `Lifecycle.DeleteKeepsIdsUnique` | src/app/page.tsx:163 | deletion keeps the ids unique |
| `Lifecycle.ToggleAlarm` | src/app/page.tsx:166-170 | only alarm flags change, and a note's flag changes exactly when its id matches |
| `Lifecycle.ToggleTwice` | src/app/page.tsx:167-169 | toggling twice restores the list |
| `Lifecycle.ToggleKeepsIdsUnique` | src/app/page.tsx:167-169 | toggling keeps the ids unique |
| `Lifecycle.ToggleArmsUnconfigured` | src/app/page.tsx:166-170 | a note with no alarm date or time is still armed by a toggle |
| `Alarms.Target` | src/app/page.tsx:100-103 | a note has an alarm instant only when both its alarm fields are set; the instant is the one `setHours` gives on the alarm date |
| `Alarms.Due` | src/app/page.tsx:100-105 | a note is due when it is armed, has both alarm fields, and `now` is at or after its alarm instant by less than 60000 ms; `Alarms.DueExactlyInWindow` states the window |
| `Alarms.ReminderFor` | src/app/page.tsx:108-111 | the reminder of a note is titled "Lembrete: " and the note's title, with its content as body and "/icon.svg" as icon |
| `Alarms.DueIds` | src/app/page.tsx:99-116 | the ids the scan disarms are those of the notes that pass the due test; `Alarms.DueIdListed` and `Alarms.ScanDisarmsDue` state the consequences |
| `Alarms.Reminders` | src/app/page.tsx:107-112 | the reminders of a scan are those of the due notes, in list order, and none when they may not be shown; `Alarms.RemindersAreForDueNotes` and `Alarms.NothingShownWithoutPermission` state this |
| `Alarms.Scan` | src/app/page.tsx:99-116 | a scan disarms every due note by id and, when reminders may be shown, announces it; `Alarms.ScanDisarmsDue` and `Alarms.DisarmIgnoresPermission` state this |
| `Alarms.ScanAsWritten` | src/app/page.tsx:99-116 | the scan as written throws on a throwing platform when some note is due, and otherwise ends as `Alarms.Scan`; `Alarms.AsWrittenWithPermission` states both directions |
| `Alarms.CreatedAlarmTarget` | src/app/page.tsx:147-155 | a note created with a date and an "HH:MM" time is armed, and its alarm instant is that wall-clock time on the local day of the date's instant |
| `Alarms.DisarmIds` | src/app/page.tsx:114-116 | only alarm flags change; a note stays armed exactly when it was armed and its id is not one of the disarmed ids |
| `Alarms.DisarmTwice` | src/app/page.tsx:114-116 | two disarming updates in a row equal one update with the union of their ids |
| `Alarms.DisarmNothing` | src/app/page.tsx:114-116 | disarming no ids changes nothing |
| `Alarms.DueIdListed` | src/app/page.tsx:99-116 | the id of every due note is among the ids the scan disarms |
| `Alarms.DueIdsSnoc` | src/app/page.tsx:99-116 | visiting one more note adds its id to the ids to disarm exactly when it is due |
| `Alarms.RemindersSnoc` | src/app/page.tsx:99-112 | visiting one more note adds its reminder exactly when it is due and may be shown |
| `Alarms.DisarmSnoc` | src/app/page.tsx:113-116 | visiting one more note disarms its id on top of the earlier updates exactly when it is due |
| `Alarms.VisitNote` | src/app/page.tsx:100-116 | visiting note `k` throws exactly when it is due on a throwing platform, with nothing disarmed or shown; otherwise it extends the scan of the notes before it by one note |
| `Alarms.FirstDueNoteThrows` | src/app/page.tsx:107-108 | a throwing platform ends the scan at the first due note, with nothing disarmed or shown |
| `Alarms.ScanFinishes` | src/app/page.tsx:99-116 | with no due note, or on a platform that does not throw, the scan as written ends as `Alarms.Scan` |
| `Alarms.VisitNotes` | src/app/page.tsx:99-119 | the note-by-note loop, for any due test, ends as the declarative scan does, or throws with nothing disarmed or shown |
| `Alarms.CheckAlarms` | src/app/page.tsx:97-120 | the note-by-note loop ends as the declarative scan does. When a note is due on a platform without the Notification API, or on one whose `Notification` constructor throws, it throws with nothing disarmed or shown |
| `Alarms.TargetOfTimeField` | src/app/page.tsx:100-103 | for "HH:MM" the alarm instant is that wall-clock time on the local day of the alarm date, independent of the creation time |
| `Alarms.DueExactlyInWindow` | src/app/page.tsx:105 | an armed note with an alarm instant is due exactly in the 60000 ms that start at that instant |
| `Alarms.UnconfiguredNeverDue` | src/app/page.tsx:100 | a note lacking the alarm date or a non-empty alarm time is never due, whatever its flag says |
| `Alarms.DueUntilWindowEnds` | src/app/page.tsx:105 | a due note left armed stays due until its minute is over |
| `Alarms.ScanDisarmsDue` | src/app/page.tsx:99-117 | a scan adds, removes and moves no note. It clears the flag of every due note and never sets a flag. It changes only notes that share an id with a due note |
| `Alarms.ScanWithUniqueIds` | src/app/page.tsx:99-117 | with unique ids a scan disarms exactly the due notes and leaves all others as they were |
| `Alarms.ScanKeepsIdsUnique` | src/app/page.tsx:114-116 | a scan keeps the ids unique |
| `Alarms.NoDueNoReminders` | src/app/page.tsx:105-112 | a list with no due note gets no reminder |
| `Alarms.ScanIsAtMostOnce` | src/app/page.tsx:113-116 | for a due test that passes only armed notes, a second scan with the same test shows no reminder and changes nothing |
| `Alarms.ScanAtSameInstant` | src/app/page.tsx:99-116 | a second scan at the same instant shows no reminder and changes nothing |
| `Alarms.FiredStaysSilent` | src/app/page.tsx:113-116 | a note that fired is not due at any later instant |
| `Alarms.RemindersAreForDueNotes` | src/app/page.tsx:107-112 | every reminder shown is "Lembrete: title" with the content of a due note, and there are no more reminders than notes |
| `Alarms.DueNoteShown` | src/app/page.tsx:107-112 | with permission granted every due note is announced |
| `Alarms.NothingShownWithoutPermission` | src/app/page.tsx:107 | without permission no reminder is shown |
| `Alarms.DisarmIgnoresPermission` | src/app/page.tsx:107-116 | the scan leaves the same list whether or not reminders may be shown, and disarms every due note even when nothing is shown |
| `Alarms.AsWrittenWithPermission` | src/app/page.tsx:107-116 | on a platform that answers the permission question and can construct a notification, the scan as written is the declarative scan. On any platform it finishes exactly when the platform does not throw or no note is due |
| `Alarms.ThrowingScanNeverDisarms` | src/app/page.tsx:107-116 | as written, without the Notification API or with a throwing `Notification` constructor, every scan during a due note's minute throws. By `Alarms.CheckAlarms` (`threw ==> updated == snapshot`) a scan that throws leaves the list unchanged, so the note stays armed |
| `Alarms.DeletedNeverFires` | src/app/page.tsx:163 | after deleting an id, no due note carries that id at any instant |
| `Alarms.ToggledUnconfiguredStaysSilent` | src/app/page.tsx:166-170 | a toggle arms a note that has no alarm fields, yet that note is never due |
| `Alarms.RearmedFiresAgain` | src/app/page.tsx:166-170 | a note that just fired and is toggled back on is due again within the same minute |

## Findings

| source | as written | input that shows it | evidently intended | confidence | as-written member | corrected member |
|---|---|---|---|---|---|---|
| src/app/page.tsx:152 | `new Date(newNote.alarmDate)` reads the date field's "YYYY-MM-DD" as midnight UTC, but the scan's `setHours` (line 103) works on the local day of that instant | zone UTC-3, date "2024-01-01", time "09:00": the alarm instant is 2023-12-31T12:00Z, which is 09:00 local on 31 December | the alarm fires at 09:00 local time on 1 January | high (not executed) | `DateInput.AsWrittenAlarmIsDayEarly` | `DateInput.LocalAlarmIsOnChosenDay` |
| src/app/page.tsx:107-108 | `Notification.permission` is read without checking that the Notification API exists, and `new Notification(...)` is called without a `try`. On a platform without the API the read throws a ReferenceError. On one whose constructor throws, such as Chrome on Android, the call throws a TypeError. Either way the scan stops before the disarming update at lines 114-116 | a due note, with no `Notification` global in the browser, or with permission granted on Chrome for Android | the note is disarmed anyway; the permission request at line 128 does guard with `'Notification' in window` | high (not executed) | `Alarms.ThrowingScanNeverDisarms` | `Alarms.DisarmIgnoresPermission` |

The rest of the model is built on the corrected definitions. `Alarms.Scan`
disarms every due note for every permission. `Alarms.ScanAsWritten` and
`Alarms.CheckAlarms` keep the as-written throwing path next to it.
`Lifecycle.CreateNote` takes the instant of the date field as a parameter.
`DateInput.AlarmDateLocal` is the corrected way to produce that instant.

## Left out

- Loading and saving the list to `localStorage` (`src/app/page.tsx:59-85`): host storage and JSON encoding, outside the logic.
- Showing a notification and asking for permission (`src/app/page.tsx:107-112`, `127-131`): platform side effects. The scan returns its reminders as a list, and the permission is a parameter.
- Id generation from `Date.now()` and `Math.random()` (`src/app/page.tsx:148`) and the creation time (`src/app/page.tsx:151`): nondeterministic. Both are parameters. `Lifecycle.CreateKeepsIdsUnique` states what a fresh id gives.
- The `alert` for a duplicate and the form reset (`src/app/page.tsx:143`, `158-159`): UI state. A refused create is `Rejected(Duplicate)`.
- The 30-second `setInterval` of the scan (`src/app/page.tsx:122`), the effect re-registration on every change, and the ad carousel (`src/app/page.tsx:87-93`): timer plumbing and presentation.
- Updates queued by the scan apply to React's latest state (`prev`), not to the scanned snapshot. With a single-threaded scan and no change in between, the two are the same list, and the model applies the updates to the snapshot.
- `formatDate`/`formatTime` (`src/app/page.tsx:172-185`) and all rendering: locale formatting and presentation.
- Clock.LocalDayStart: uses a fixed zone offset, so daylight-saving changes and the `Date` range limit of ±8.64e15 ms are not modelled.
- Clock.ParseInt: does not model the "0x" hexadecimal prefix or precision loss past 2^53, because a time field never produces either.
- Text.LowerChar: folds only ASCII A-Z and Latin-1 À-Þ and keeps every other character, while `toLowerCase` also folds letters such as 'Ā' (U+0100) and 'Σ'. The rest of Unicode's case mapping is not modelled.
- Text.ToLower: folds only ASCII A-Z and Latin-1 À-Þ. The rest of Unicode's case mapping is not modelled.
- DateInput.ParseDateField: covers only real calendar dates in "YYYY-MM-DD" form with a four-digit year, which is what a date field produces. Its contract states only the shape of accepted text; `DateInput.ParseDateFieldRoundTrip` states the value. For any other text, `new Date(s)` is implementation-defined, and the model does not follow it.
- Lifecycle.CreateNote: takes the alarm-date instant as a number. It does not model an Invalid Date, which a date field cannot produce.

/**
 * The value of an `<input type="date">` ("YYYY-MM-DD") and the instant
 * `new Date(value)` turns it into when a note is created.
 *
 * A date-only ISO string is read as UTC midnight of that day, while the
 * alarm scan's `setHours` works on the local day of the stored instant. West
 * of Greenwich (negative `zone`) UTC midnight is still the previous local
 * day, so the alarm lands a day before the day the user picked.
 * `AlarmDateAsWritten` models the conversion as written and
 * `AsWrittenAlarmIsDayEarly` exhibits the shift; `AlarmDateLocal` is local
 * midnight of the chosen day, and `LocalAlarmIsOnChosenDay` proves that it
 * puts the alarm on that day in every zone.
 */
module DateInput {
  import opened Wrappers
  import opened Clock

  predicate IsLeapYear(y: int) {
    y % 4 == 0 && (y % 100 != 0 || y % 400 == 0)
  }

  function DaysInMonth(y: int, m: int): int
    requires 1 <= m <= 12
  {
    if m == 2 then (if IsLeapYear(y) then 29 else 28)
    else if m == 4 || m == 6 || m == 9 || m == 11 then 30
    else 31
  }

  /**
   * The day number, counted from 0000-03-01, of 1 March of year `y`. Years
   * are counted from March here, so that a leap day ends its year; a
   * 400-year era has 146097 days.
   */
  function MarchYearStart(y: int): int {
    var era := y / 400;
    era * 146097 + DaysBeforeYearOfEra(y - era * 400)
  }

  /** The days of an era before its year `yearOfEra`, counted from March. */
  function DaysBeforeYearOfEra(yearOfEra: int): int {
    yearOfEra * 365 + yearOfEra / 4 - yearOfEra / 100
  }

  /** The proleptic Gregorian day number of `y-m-d`, counted from 1970-01-01 (day 0). */
  function DaysFromCivil(y: int, m: int, d: int): int
    requires 1 <= m <= 12
  {
    var y' := if m <= 2 then y - 1 else y;
    var dayOfYear := (153 * (if m > 2 then m - 3 else m + 9) + 2) / 5 + d - 1;
    MarchYearStart(y') + dayOfYear - 719468
  }

  /** A year counted from March has 366 days when the February that ends it has a leap day, and 365 otherwise. */
  lemma MarchYearLength(y: int)
    ensures MarchYearStart(y + 1) == MarchYearStart(y) + (if IsLeapYear(y + 1) then 366 else 365)
  {
    var era := y / 400;
    if y - era * 400 < 399 {
      YearLengthWithinEra(y, era);
    } else {
      YearLengthAtEraEnd(y, era);
    }
  }

  lemma YearLengthWithinEra(y: int, era: int)
    requires era * 400 <= y < era * 400 + 399
    ensures MarchYearStart(y + 1) == MarchYearStart(y) + (if IsLeapYear(y + 1) then 366 else 365)
  {
    MarchYearStartOf(y, era);
    MarchYearStartOf(y + 1, era);
    YearWithinEra(y + 1, era);
    YearOfEraLength(y - era * 400);
  }

  /** The last year of an era ends with the leap day of the next era's first year. */
  lemma YearLengthAtEraEnd(y: int, era: int)
    requires y == era * 400 + 399
    ensures MarchYearStart(y + 1) == MarchYearStart(y) + (if IsLeapYear(y + 1) then 366 else 365)
  {
    MarchYearStartOf(y, era);
    MarchYearStartOf(y + 1, era + 1);
    YearWithinEra(y + 1, era + 1);
    assert DaysBeforeYearOfEra(399) == 145731;
  }

  /** The start of a March-based year, from its era. */
  lemma MarchYearStartOf(y: int, era: int)
    requires era * 400 <= y < era * 400 + 400
    ensures MarchYearStart(y) == era * 146097 + DaysBeforeYearOfEra(y - era * 400)
  {
    assert y / 400 == era;
  }

  /** A year and its place in its era are leap years together. */
  lemma YearWithinEra(y: int, era: int)
    requires era * 400 <= y < era * 400 + 400
    ensures IsLeapYear(y) <==> IsLeapYear(y - era * 400)
  {
    var yoe := y - era * 400;
    ShiftMod4(era * 100, yoe);
    ShiftMod100(era * 4, yoe);
  }

  lemma ShiftMod4(c: int, r: int)
    ensures (c * 4 + r) % 4 == r % 4
  {
  }

  lemma ShiftMod100(c: int, r: int)
    ensures (c * 100 + r) % 100 == r % 100
  {
  }

  lemma YearOfEraLength(yoe: int)
    requires 0 <= yoe < 399
    ensures DaysBeforeYearOfEra(yoe + 1) == DaysBeforeYearOfEra(yoe) + (if IsLeapYear(yoe + 1) then 366 else 365)
  {
    DivStep4(yoe);
    DivStep100(yoe);
    var c := (yoe + 1) / 100;
    if (yoe + 1) % 100 == 0 {
      assert yoe + 1 == c * 100 && 1 <= c <= 3;
      assert (yoe + 1) % 4 == 0 && (yoe + 1) % 400 != 0;
    }
  }

  lemma DivStep4(a: int)
    ensures (a + 1) / 4 == a / 4 + (if (a + 1) % 4 == 0 then 1 else 0)
  {
    var q, r := a / 4, a % 4;
    assert a == q * 4 + r && 0 <= r < 4;
  }

  lemma DivStep100(a: int)
    ensures (a + 1) / 100 == a / 100 + (if (a + 1) % 100 == 0 then 1 else 0)
  {
    var q, r := a / 100, a % 100;
    assert a == q * 100 + r && 0 <= r < 100;
  }

  /**
   * The last day of a month and the first day of the next month, across a
   * year's end too, have consecutive day numbers.
   */
  lemma MonthBoundary(y: int, m: int)
    requires 1 <= m <= 12
    ensures DaysFromCivil(y, m, DaysInMonth(y, m)) + 1
      == (if m == 12 then DaysFromCivil(y + 1, 1, 1) else DaysFromCivil(y, m + 1, 1))
  {
    if m == 2 {
      MarchYearLength(y - 1);
    }
  }

  /** The day number of a date field's "YYYY-MM-DD" value; `None` for text that is not a real calendar date. */
  function ParseDateField(s: string): (r: Option<int>)
    ensures r.Some? ==> |s| == 10 && s[4] == '-' && s[7] == '-'
  {
    if |s| == 10 && s[4] == '-' && s[7] == '-'
      && (forall k :: 0 <= k < 10 && k != 4 && k != 7 ==> IsDigit(s[k]))
    then
      var y, m, d := DigitsValue(s[..4]), DigitsValue(s[5..7]), DigitsValue(s[8..]);
      if 1 <= m <= 12 && 1 <= d <= DaysInMonth(y, m) then Some(DaysFromCivil(y, m, d)) else None
    else
      None
  }

  /** The value a date field holds for day `d` of month `m` of year `y`: "YYYY-MM-DD", zero-padded. */
  function DateField(y: nat, m: nat, d: nat): (s: string)
    requires y < 10000 && 1 <= m <= 12 && 1 <= d <= 31
    ensures |s| == 10 && s[4] == '-' && s[7] == '-'
  {
    TwoDigits(y / 100) + TwoDigits(y % 100) + ['-'] + TwoDigits(m) + ['-'] + TwoDigits(d)
  }

  /** Round trip: the value a date field holds for a calendar date parses back to that date's day number. */
  lemma ParseDateFieldRoundTrip(y: nat, m: nat, d: nat)
    requires y < 10000 && 1 <= m <= 12 && 1 <= d <= DaysInMonth(y, m)
    ensures ParseDateField(DateField(y, m, d)) == Some(DaysFromCivil(y, m, d))
  {
    var s := DateField(y, m, d);
    TwoDigitsValue(y / 100);
    TwoDigitsValue(y % 100);
    TwoDigitsValue(m);
    TwoDigitsValue(d);
    DigitsValueOfPair(TwoDigits(y / 100), TwoDigits(y % 100));
    assert s[..4] == TwoDigits(y / 100) + TwoDigits(y % 100);
    assert s[5..7] == TwoDigits(m);
    assert s[8..] == TwoDigits(d);
  }

  /** As written: `new Date("YYYY-MM-DD")` is midnight UTC of the chosen day. */
  function AlarmDateAsWritten(day: int): (t: int)
    ensures t % DayMs == 0 && t / DayMs == day
  {
    day * DayMs
  }

  /** Corrected: local midnight of the chosen day, as `new Date(y, m - 1, d)` would give. */
  function AlarmDateLocal(day: int, zone: int): (t: int)
    ensures LocalDay(t, zone) == day && LocalTimeOfDay(t, zone) == 0
  {
    DivBetween(day * DayMs, day);
    day * DayMs - zone
  }

  /**
   * As written, for every zone west of Greenwich the alarm set for day `day`
   * at `h:m` fires on local day `day - 1`, at `h:m`.
   */
  lemma AsWrittenAlarmIsDayEarly(day: int, zone: int, h: nat, m: nat)
    requires -DayMs < zone < 0
    requires h < 24 && m < 60
    ensures AlarmInstant(AlarmDateAsWritten(day), TimeField(h, m), zone).Some?
    ensures var t := AlarmInstant(AlarmDateAsWritten(day), TimeField(h, m), zone).value;
      LocalDay(t, zone) == day - 1 && LocalTimeOfDay(t, zone) == h * HourMs + m * MinuteMs
  {
    AlarmInstantOfTimeField(AlarmDateAsWritten(day), zone, h, m);
    DivBetween(day * DayMs + zone, day - 1);
  }

  /** As written, in UTC and east of it the alarm does land on the chosen day. */
  lemma AsWrittenAlarmEastOfGreenwich(day: int, zone: int, h: nat, m: nat)
    requires 0 <= zone < DayMs
    requires h < 24 && m < 60
    ensures AlarmInstant(AlarmDateAsWritten(day), TimeField(h, m), zone).Some?
    ensures LocalDay(AlarmInstant(AlarmDateAsWritten(day), TimeField(h, m), zone).value, zone) == day
  {
    AlarmInstantOfTimeField(AlarmDateAsWritten(day), zone, h, m);
    DivBetween(day * DayMs + zone, day);
  }

  /** Corrected: in every zone the alarm lands on the chosen day at the chosen wall-clock time. */
  lemma LocalAlarmIsOnChosenDay(day: int, zone: int, h: nat, m: nat)
    requires h < 24 && m < 60
    ensures AlarmInstant(AlarmDateLocal(day, zone), TimeField(h, m), zone).Some?
    ensures var t := AlarmInstant(AlarmDateLocal(day, zone), TimeField(h, m), zone).value;
      LocalDay(t, zone) == day && LocalTimeOfDay(t, zone) == h * HourMs + m * MinuteMs
  {
    AlarmInstantOfTimeField(AlarmDateLocal(day, zone), zone, h, m);
  }

  /** The date field's value for 1 January 2024 is day 19723. */
  lemma NewYearsDayNumber()
    ensures ParseDateField("2024-01-01") == Some(19723)
  {
    var s := "2024-01-01";
    assert forall k :: 0 <= k < 10 && k != 4 && k != 7 ==> IsDigit(s[k]);
    assert s[..4] == TwoDigits(20) + TwoDigits(24);
    assert s[5..7] == TwoDigits(1) && s[8..] == TwoDigits(1);
    TwoDigitsValue(20);
    TwoDigitsValue(24);
    TwoDigitsValue(1);
    DigitsValueOfPair(TwoDigits(20), TwoDigits(24));
  }

  /**
   * 1 January 2024 at 09:00 in UTC-3: as written the alarm instant is
   * 2023-12-31T12:00Z, which is 09:00 local time on 31 December.
   */
  lemma NewYearAsWritten()
    ensures AlarmInstant(AlarmDateAsWritten(19723), "09:00", -3 * HourMs) == Some(1704024000000)
  {
    assert TimeField(9, 0) == "09:00";
    ParseTimeField(9, 0);
    assert AlarmDateAsWritten(19723) == 1704067200000;
    DivBetween(1704056400000, 19722);
    assert LocalDayStart(1704067200000, -3 * HourMs) == 1703991600000;
  }

  /** The corrected conversion gives 2024-01-01T12:00Z, which is 09:00 local time on 1 January. */
  lemma NewYearLocal()
    ensures AlarmInstant(AlarmDateLocal(19723, -3 * HourMs), "09:00", -3 * HourMs) == Some(1704110400000)
  {
    assert TimeField(9, 0) == "09:00";
    ParseTimeField(9, 0);
  }
}

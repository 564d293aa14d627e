/**
 * Millisecond time arithmetic used by the alarm scan: the local day an
 * instant falls on, JavaScript's `parseInt` on decimal text, the "HH:MM"
 * value of a time field, and the alarm instant that `setHours` produces.
 * Local time is UTC shifted by a fixed `zone` offset in milliseconds
 * (negative west of Greenwich: UTC-3 is -3 * HourMs).
 */
module Clock {
  import opened Wrappers
  import Text

  const MinuteMs: int := 60000
  const HourMs: int := 3600000
  const DayMs: int := 86400000

  /** The instant of local midnight that starts the local day containing `t`. */
  function LocalDayStart(t: int, zone: int): (r: int)
    ensures r <= t < r + DayMs
    ensures (r + zone) % DayMs == 0
  {
    t - (t + zone) % DayMs
  }

  /** The local calendar day of instant `t`, counted in days since 1970-01-01. */
  function LocalDay(t: int, zone: int): int {
    (t + zone) / DayMs
  }

  /** The local wall-clock time of instant `t`, in milliseconds since local midnight. */
  function LocalTimeOfDay(t: int, zone: int): int {
    (t + zone) % DayMs
  }

  /** Local midnight is the only instant of its local day whose wall-clock time is zero. */
  lemma LocalDayStartUnique(t: int, zone: int, d: int)
    requires d <= t < d + DayMs && (d + zone) % DayMs == 0
    ensures LocalDayStart(t, zone) == d
  {
    var k := (d + zone) / DayMs;
    assert d + zone == k * DayMs;
    assert k * DayMs <= t + zone < (k + 1) * DayMs;
    DivBetween(t + zone, k);
  }

  lemma DivBetween(x: int, k: int)
    requires k * DayMs <= x < (k + 1) * DayMs
    ensures x / DayMs == k && x % DayMs == x - k * DayMs
  {
    var q, r := x / DayMs, x % DayMs;
    assert x == q * DayMs + r && 0 <= r < DayMs;
  }

  /**
   * An instant `ms` milliseconds after a local midnight, with `ms` less than
   * a day, lies on that midnight's local day at wall-clock time `ms`.
   */
  lemma OnLocalDay(midnight: int, zone: int, ms: int)
    requires (midnight + zone) % DayMs == 0 && 0 <= ms < DayMs
    ensures LocalDay(midnight + ms, zone) == LocalDay(midnight, zone)
    ensures LocalTimeOfDay(midnight + ms, zone) == ms
    ensures LocalDayStart(midnight + ms, zone) == midnight
  {
    var k := (midnight + zone) / DayMs;
    DivBetween(midnight + zone, k);
    DivBetween(midnight + ms + zone, k);
    LocalDayStartUnique(midnight + ms, zone, midnight);
  }

  predicate IsDigit(c: char) {
    '0' <= c <= '9'
  }

  function DigitValue(c: char): (v: nat)
    requires IsDigit(c)
    ensures v < 10
  {
    c as int - '0' as int
  }

  function DigitChar(v: nat): (c: char)
    requires v < 10
    ensures IsDigit(c) && DigitValue(c) == v
  {
    ('0' as int + v) as char
  }

  /** The number of decimal digits `s` starts with. */
  function DigitRun(s: string): (n: nat)
    ensures n <= |s|
    ensures forall k :: 0 <= k < n ==> IsDigit(s[k])
    ensures n == |s| || !IsDigit(s[n])
  {
    if |s| > 0 && IsDigit(s[0]) then 1 + DigitRun(s[1..]) else 0
  }

  /** The value of a string of decimal digits, most significant first. */
  function DigitsValue(ds: string): nat
    requires forall k :: 0 <= k < |ds| ==> IsDigit(ds[k])
  {
    if ds == [] then 0 else DigitsValue(ds[..|ds| - 1]) * 10 + DigitValue(ds[|ds| - 1])
  }

  /**
   * `parseInt(s)` for decimal text: leading whitespace is skipped, one sign
   * is read, then the longest run of digits; no digits gives NaN (`None`).
   */
  function ParseInt(s: string): (r: Option<int>)
    ensures r.None? <==> DigitRun(Unsigned(s[Text.SkipSpace(s, 0)..])) == 0
    ensures r.Some? ==>
      var t := s[Text.SkipSpace(s, 0)..];
      var u := Unsigned(t);
      r.value == (if |t| > 0 && t[0] == '-' then -1 else 1) * DigitsValue(u[..DigitRun(u)])
  {
    var t := s[Text.SkipSpace(s, 0)..];
    var u := Unsigned(t);
    var n := DigitRun(u);
    if n == 0 then None
    else
      var v: int := DigitsValue(u[..n]);
      Some(if |t| > 0 && t[0] == '-' then -v else v)
  }

  /** `t` without its sign character, if it has one. */
  function Unsigned(t: string): (u: string)
    ensures u == t || (|t| > 0 && (t[0] == '-' || t[0] == '+') && u == t[1..])
    ensures u != t <==> |t| > 0 && (t[0] == '-' || t[0] == '+')
  {
    if |t| > 0 && (t[0] == '-' || t[0] == '+') then t[1..] else t
  }

  /** The index of the first ':' in `s`, or `|s|` when there is none. */
  function ColonAt(s: string): (i: nat)
    ensures i <= |s|
    ensures forall k :: 0 <= k < i ==> s[k] != ':'
    ensures i == |s| || s[i] == ':'
  {
    if s == [] || s[0] == ':' then 0 else 1 + ColonAt(s[1..])
  }

  /**
   * `const [hours, minutes] = time.split(':')` followed by `parseInt` of
   * each piece: the hours are the text before the first ':', the minutes the
   * text between the first and the second ':'. A missing piece is
   * `undefined`, which `parseInt` turns into NaN, so the result is `None`
   * whenever either number is NaN.
   */
  function ParseTime(time: string): (r: Option<(int, int)>)
    ensures r.Some? <==>
      && ColonAt(time) < |time|
      && ParseInt(HoursPiece(time)).Some?
      && ParseInt(MinutesPiece(time)).Some?
    ensures r.Some? ==>
      r.value == (ParseInt(HoursPiece(time)).value, ParseInt(MinutesPiece(time)).value)
  {
    var hours := ParseInt(HoursPiece(time));
    var minutes := if ColonAt(time) == |time| then None else ParseInt(MinutesPiece(time));
    if hours.Some? && minutes.Some? then Some((hours.value, minutes.value)) else None
  }

  /** The first piece of `time.split(':')`: the text before the first ':', or all of it. */
  function HoursPiece(time: string): (p: string)
    ensures forall k :: 0 <= k < |p| ==> p[k] != ':'
    ensures p <= time && (|p| == |time| || time[|p|] == ':')
  {
    time[..ColonAt(time)]
  }

  /**
   * The second piece of `time.split(':')`, when there is one: the text
   * after the first ':' up to the next ':' or the end.
   */
  function MinutesPiece(time: string): (p: string)
    ensures ColonAt(time) == |time| ==> p == []
    ensures forall k :: 0 <= k < |p| ==> p[k] != ':'
    ensures ColonAt(time) < |time| ==>
      var i := ColonAt(time);
      && i + 1 + |p| <= |time|
      && time[i + 1..i + 1 + |p|] == p
      && (i + 1 + |p| == |time| || time[i + 1 + |p|] == ':')
  {
    var i := ColonAt(time);
    if i == |time| then []
    else
      var rest := time[i + 1..];
      var c := ColonAt(rest);
      assert time[i + 1..i + 1 + c] == rest[..c];
      rest[..c]
  }

  /** Two decimal digits for `0 <= n < 100`, zero-padded as a time field writes them. */
  function TwoDigits(n: nat): (s: string)
    requires n < 100
    ensures |s| == 2
  {
    [DigitChar(n / 10), DigitChar(n % 10)]
  }

  /** The "HH:MM" value an `<input type="time">` holds for hour `h` and minute `m`. */
  function TimeField(h: nat, m: nat): (s: string)
    requires h < 24 && m < 60
    ensures |s| == 5
  {
    TwoDigits(h) + [':'] + TwoDigits(m)
  }

  /** Reading the two digits written for `n` gives `n` back. */
  lemma TwoDigitsValue(n: nat)
    requires n < 100
    ensures forall k :: 0 <= k < 2 ==> IsDigit(TwoDigits(n)[k])
    ensures DigitsValue(TwoDigits(n)) == n
  {
    var s := TwoDigits(n);
    assert s[..1][..0] == [];
    assert DigitsValue(s[..1]) == n / 10;
  }

  /** Two more digits after a digit string shift its value two places to the left. */
  lemma DigitsValueOfPair(a: string, b: string)
    requires |b| == 2
    requires forall k :: 0 <= k < |a| ==> IsDigit(a[k])
    requires forall k :: 0 <= k < |b| ==> IsDigit(b[k])
    ensures forall k :: 0 <= k < |a + b| ==> IsDigit((a + b)[k])
    ensures DigitsValue(a + b) == DigitsValue(a) * 100 + DigitsValue(b)
  {
    var ab := a + b;
    assert ab[..|ab| - 1] == a + b[..1];
    assert (a + b[..1])[..|a|] == a;
    assert b[..1][..0] == [];
    assert DigitsValue(b[..1]) == DigitValue(b[0]);
  }

  lemma ParseTwoDigits(n: nat)
    requires n < 100
    ensures ParseInt(TwoDigits(n)) == Some(n)
  {
    var s := TwoDigits(n);
    assert Text.SkipSpace(s, 0) == 0 by {
      assert !Text.IsWhitespace(s[0]);
    }
    assert s[0..] == s;
    assert Unsigned(s) == s;
    assert DigitRun(s) == 2 by {
      assert DigitRun(s[1..]) == 1 by {
        assert DigitRun(s[1..][1..]) == 0;
      }
    }
    assert s[..2] == s;
    TwoDigitsValue(n);
  }

  /** Parsing the text of a time field gives back its hour and minute. */
  lemma ParseTimeField(h: nat, m: nat)
    requires h < 24 && m < 60
    ensures ParseTime(TimeField(h, m)) == Some((h, m))
  {
    var s := TimeField(h, m);
    assert ColonAt(s) == 2 by {
      assert ColonAt(s[1..]) == 1 by {
        assert ColonAt(s[1..][1..]) == 0;
      }
    }
    assert s[..2] == TwoDigits(h);
    var rest := s[3..];
    assert rest == TwoDigits(m);
    assert ColonAt(rest) == 2 by {
      assert ColonAt(rest[1..]) == 1 by {
        assert ColonAt(rest[1..][1..]) == 0 by {
          assert rest[1..][1..] == [];
        }
      }
    }
    assert rest[..2] == rest;
    ParseTwoDigits(h);
    ParseTwoDigits(m);
  }

  /**
   * `new Date(date)` followed by `setHours(h, m, 0, 0)`: the local midnight
   * of `date`'s local day plus `h` hours and `m` minutes. NaN hours or
   * minutes make the date invalid, which is `None` here.
   */
  function AlarmInstant(date: int, time: string, zone: int): (r: Option<int>)
    ensures r.Some? <==> ParseTime(time).Some?
  {
    SetHours(LocalDayStart(date, zone), ParseTime(time))
  }

  /** `setHours(h, m, 0, 0)` on a local midnight; NaN hours or minutes give `None`. */
  function SetHours(midnight: int, hm: Option<(int, int)>): (r: Option<int>)
    ensures r.Some? <==> hm.Some?
  {
    match hm
    case None => None
    case Some((h, m)) => Some(midnight + h * HourMs + m * MinuteMs)
  }

  /**
   * For a time field's text, the alarm instant falls on the local day of
   * `date`, at exactly the wall-clock time the field shows.
   */
  lemma AlarmInstantOfTimeField(date: int, zone: int, h: nat, m: nat)
    requires h < 24 && m < 60
    ensures AlarmInstant(date, TimeField(h, m), zone).Some?
    ensures var t := AlarmInstant(date, TimeField(h, m), zone).value;
      && LocalDay(t, zone) == LocalDay(date, zone)
      && LocalTimeOfDay(t, zone) == h * HourMs + m * MinuteMs
  {
    ParseTimeField(h, m);
    var ms := h * HourMs + m * MinuteMs;
    assert ms < DayMs by {
      assert h * HourMs <= 23 * HourMs;
      assert m * MinuteMs <= 59 * MinuteMs;
    }
    WallClock(date, zone, ms);
  }

  /**
   * `setHours` keeps only the local day of the date it starts from: two
   * dates on the same local day give the same alarm instant.
   */
  lemma AlarmInstantKeepsOnlyDay(date: int, date': int, time: string, zone: int)
    requires LocalDay(date, zone) == LocalDay(date', zone)
    ensures AlarmInstant(date, time, zone) == AlarmInstant(date', time, zone)
  {
    SameDaySameStart(date, date', zone);
  }

  lemma SameDaySameStart(t: int, t': int, zone: int)
    requires LocalDay(t, zone) == LocalDay(t', zone)
    ensures LocalDayStart(t, zone) == LocalDayStart(t', zone)
  {
    assert LocalDayStart(t, zone) == LocalDay(t, zone) * DayMs - zone;
    assert LocalDayStart(t', zone) == LocalDay(t', zone) * DayMs - zone;
  }

  /** Adding a wall-clock time `ms` to the local midnight of `date` stays on the local day of `date`. */
  lemma WallClock(date: int, zone: int, ms: int)
    requires 0 <= ms < DayMs
    ensures var t := LocalDayStart(date, zone) + ms;
      && LocalDay(t, zone) == LocalDay(date, zone)
      && LocalTimeOfDay(t, zone) == ms
  {
    var d := LocalDayStart(date, zone);
    OnLocalDay(d, zone, ms);
    OnLocalDay(d, zone, date - d);
  }
}

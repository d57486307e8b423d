/** Local broken-down time as moment.js presents it: the proleptic Gregorian calendar, a
    weekday numbered 0 = Sunday .. 6 = Saturday, and the `YYYY-MM-DD` and `HH:mm` formats. */
module Calendar {

  import opened Wrappers
  import opened Text

  datatype DateTime = DateTime(year: int, month: int, day: int, hour: int, minute: int, second: int)

  predicate IsLeapYear(y: int) {
    y % 4 == 0 && (y % 100 != 0 || y % 400 == 0)
  }

  function DaysInMonth(y: int, m: int): (n: int)
    requires 1 <= m <= 12
    ensures 28 <= n <= 31
  {
    if m == 2 then (if IsLeapYear(y) then 29 else 28)
    else if m == 4 || m == 6 || m == 9 || m == 11 then 30
    else 31
  }

  /** A real local time; years are kept to the range moment writes with four digits. */
  predicate Valid(t: DateTime) {
    1 <= t.year <= 9999 &&
    1 <= t.month <= 12 &&
    1 <= t.day <= DaysInMonth(t.year, t.month) &&
    0 <= t.hour < 24 && 0 <= t.minute < 60 && 0 <= t.second < 60
  }

  type Moment = t: DateTime | Valid(t) witness DateTime(1970, 1, 1, 0, 0, 0)

  predicate SameDate(a: DateTime, b: DateTime) {
    a.year == b.year && a.month == b.month && a.day == b.day
  }

  /** Days in the months of year `y` before month `m`. */
  function DaysBeforeMonth(y: int, m: int): nat
    requires 1 <= m <= 13
  {
    if m == 1 then 0 else DaysBeforeMonth(y, m - 1) + DaysInMonth(y, m - 1)
  }

  /** Days from 0001-01-01 to the first day of year `y`. */
  function DaysBeforeYear(y: int): nat
    requires y >= 1
  {
    var p := y - 1;
    365 * p + p / 4 - p / 100 + p / 400
  }

  /** Days from 0001-01-01 (a Monday) to the date of `t`. */
  function DayNumber(t: Moment): nat {
    DaysBeforeYear(t.year) + DaysBeforeMonth(t.year, t.month) + t.day - 1
  }

  /** moment's `day()`: 0 = Sunday .. 6 = Saturday. */
  function Weekday(t: Moment): (w: int)
    ensures 0 <= w < 7
  {
    (DayNumber(t) + 1) % 7
  }

  /** The next day of the same month is the next weekday. */
  lemma WeekdayOfNextDay(t: Moment, u: Moment)
    requires t.year == u.year && t.month == u.month && u.day == t.day + 1
    ensures Weekday(u) == (Weekday(t) + 1) % 7
  {
    assert DayNumber(u) == DayNumber(t) + 1;
    WeekdayOfSuccessor(t, u);
  }

  /** The first of a month follows the last day of the month before it. */
  lemma {:induction false} WeekdayAcrossMonthEnd(t: Moment, u: Moment)
    requires t.year == u.year && u.month == t.month + 1
    requires t.day == DaysInMonth(t.year, t.month) && u.day == 1
    ensures Weekday(u) == (Weekday(t) + 1) % 7
  {
    assert DaysBeforeMonth(u.year, u.month) == DaysBeforeMonth(t.year, t.month) + t.day;
    assert DayNumber(u) == DayNumber(t) + 1;
    WeekdayOfSuccessor(t, u);
  }

  /** The days of the twelve months add up to the length of the year. */
  lemma DaysInYear(y: int)
    ensures DaysBeforeMonth(y, 13) == if IsLeapYear(y) then 366 else 365
  {
    assert DaysBeforeMonth(y, 2) == 31;
    assert DaysBeforeMonth(y, 3) == 31 + DaysInMonth(y, 2);
    assert DaysBeforeMonth(y, 4) == 62 + DaysInMonth(y, 2);
    assert DaysBeforeMonth(y, 5) == 92 + DaysInMonth(y, 2);
    assert DaysBeforeMonth(y, 6) == 123 + DaysInMonth(y, 2);
    assert DaysBeforeMonth(y, 7) == 153 + DaysInMonth(y, 2);
    assert DaysBeforeMonth(y, 8) == 184 + DaysInMonth(y, 2);
    assert DaysBeforeMonth(y, 9) == 215 + DaysInMonth(y, 2);
    assert DaysBeforeMonth(y, 10) == 245 + DaysInMonth(y, 2);
    assert DaysBeforeMonth(y, 11) == 276 + DaysInMonth(y, 2);
    assert DaysBeforeMonth(y, 12) == 306 + DaysInMonth(y, 2);
  }

  /** Counting multiples of 4, 100 and 400: one more number adds one exactly when it is a
      multiple. */
  lemma MultiplesStep(p: nat)
    ensures (p + 1) / 4 == p / 4 + (if (p + 1) % 4 == 0 then 1 else 0)
    ensures (p + 1) / 100 == p / 100 + (if (p + 1) % 100 == 0 then 1 else 0)
    ensures (p + 1) / 400 == p / 400 + (if (p + 1) % 400 == 0 then 1 else 0)
  {
  }

  /** A year adds 366 days when it is a leap year and 365 otherwise. */
  lemma DaysBeforeNextYear(y: int)
    requires y >= 1
    ensures DaysBeforeYear(y + 1) == DaysBeforeYear(y) + if IsLeapYear(y) then 366 else 365
  {
    MultiplesStep(y - 1);
  }

  /** The day after a day is the weekday after its weekday. */
  lemma WeekdayOfSuccessor(t: Moment, u: Moment)
    requires DayNumber(u) == DayNumber(t) + 1
    ensures Weekday(u) == (Weekday(t) + 1) % 7
  {
    Mod7Step(DayNumber(t) + 1);
  }

  lemma Mod7Step(n: nat)
    ensures (n + 1) % 7 == (n % 7 + 1) % 7
  {
  }

  /** New Year's Day is the weekday after the 31 December before it. */
  lemma WeekdayAcrossYearEnd(t: Moment, u: Moment)
    requires u.year == t.year + 1
    requires t.month == 12 && t.day == 31 && u.month == 1 && u.day == 1
    ensures Weekday(u) == (Weekday(t) + 1) % 7
  {
    DaysInYear(t.year);
    DaysBeforeNextYear(t.year);
    assert DaysBeforeMonth(t.year, 13) == DaysBeforeMonth(t.year, 12) + 31;
    assert DayNumber(u) == DaysBeforeYear(t.year + 1);
    assert DayNumber(t) == DaysBeforeYear(t.year) + DaysBeforeMonth(t.year, 12) + 30;
    WeekdayOfSuccessor(t, u);
  }

  /** The same time of day on the next date; the last day of year 9999 has none in range. */
  function NextDate(t: Moment): (u: Moment)
    requires !(t.year == 9999 && t.month == 12 && t.day == 31)
    ensures u.hour == t.hour && u.minute == t.minute && u.second == t.second
    ensures DayNumber(u) == DayNumber(t) + 1
  {
    if t.day < DaysInMonth(t.year, t.month) then
      var u: Moment := t.(day := t.day + 1);
      assert DayNumber(u) == DayNumber(t) + 1;
      u
    else if t.month < 12 then
      var u: Moment := t.(month := t.month + 1, day := 1);
      assert DaysBeforeMonth(u.year, u.month) == DaysBeforeMonth(t.year, t.month) + t.day;
      u
    else
      var u: Moment := DateTime(t.year + 1, 1, 1, t.hour, t.minute, t.second);
      DaysInYear(t.year);
      DaysBeforeNextYear(t.year);
      assert DaysBeforeMonth(t.year, 13) == DaysBeforeMonth(t.year, 12) + 31;
      u
  }

  /** Every date is followed by the next weekday: `day()` runs through 0..6 without gaps across
      month and year ends. */
  lemma WeekdayOfNextDate(t: Moment)
    requires !(t.year == 9999 && t.month == 12 && t.day == 31)
    ensures Weekday(NextDate(t)) == (Weekday(t) + 1) % 7
  {
    WeekdayOfSuccessor(t, NextDate(t));
  }

  /** moment's `format('YYYY-MM-DD')`. */
  function DateKey(t: Moment): (s: string)
    ensures |s| == 10 && s[4] == '-' && s[7] == '-'
  {
    ZeroPadded(t.year, 4) + "-" + ZeroPadded(t.month, 2) + "-" + ZeroPadded(t.day, 2)
  }

  /** A time of day written `HH:mm`, as both moment's `format('HH:mm')` and the activity
      form's time picker write it. */
  function TimeOfDay(hour: nat, minute: nat): (s: string)
    requires hour < 24 && minute < 60
    ensures |s| == 5 && s[2] == ':'
  {
    ZeroPadded(hour, 2) + ":" + ZeroPadded(minute, 2)
  }

  /** moment's `format('HH:mm')`: the time to the minute, seconds dropped. */
  function HourMinute(t: Moment): (s: string)
    ensures |s| == 5 && s[2] == ':'
    ensures ParseNat(s[0..2]) == Some(t.hour) && ParseNat(s[3..5]) == Some(t.minute)
  {
    TimeOfDayFields(t.hour, t.minute);
    TimeOfDay(t.hour, t.minute)
  }

  /** Two moments have the same `YYYY-MM-DD` exactly when they fall on the same date. */
  lemma DateKeyInjective(a: Moment, b: Moment)
    ensures DateKey(a) == DateKey(b) <==> SameDate(a, b)
  {
    if DateKey(a) == DateKey(b) {
      assert DateKey(a)[0..4] == ZeroPadded(a.year, 4);
      assert DateKey(b)[0..4] == ZeroPadded(b.year, 4);
      assert DateKey(a)[5..7] == ZeroPadded(a.month, 2);
      assert DateKey(b)[5..7] == ZeroPadded(b.month, 2);
      assert DateKey(a)[8..10] == ZeroPadded(a.day, 2);
      assert DateKey(b)[8..10] == ZeroPadded(b.day, 2);
      ZeroPaddedInjective(a.year, b.year, 4);
      ZeroPaddedInjective(a.month, b.month, 2);
      ZeroPaddedInjective(a.day, b.day, 2);
    }
  }

  /** `HH:mm` strings are equal exactly when hour and minute are. */
  lemma TimeOfDayInjective(h1: nat, m1: nat, h2: nat, m2: nat)
    requires h1 < 24 && m1 < 60 && h2 < 24 && m2 < 60
    ensures TimeOfDay(h1, m1) == TimeOfDay(h2, m2) <==> h1 == h2 && m1 == m2
  {
    if TimeOfDay(h1, m1) == TimeOfDay(h2, m2) {
      assert TimeOfDay(h1, m1)[0..2] == ZeroPadded(h1, 2);
      assert TimeOfDay(h2, m2)[0..2] == ZeroPadded(h2, 2);
      assert TimeOfDay(h1, m1)[3..5] == ZeroPadded(m1, 2);
      assert TimeOfDay(h2, m2)[3..5] == ZeroPadded(m2, 2);
      ZeroPaddedInjective(h1, h2, 2);
      ZeroPaddedInjective(m1, m2, 2);
    }
  }

  /** The hour and minute can be read back from an `HH:mm` string. */
  lemma TimeOfDayFields(hour: nat, minute: nat)
    requires hour < 24 && minute < 60
    ensures ParseNat(TimeOfDay(hour, minute)[0..2]) == Some(hour)
    ensures ParseNat(TimeOfDay(hour, minute)[3..5]) == Some(minute)
  {
    assert TimeOfDay(hour, minute)[0..2] == ZeroPadded(hour, 2);
    assert TimeOfDay(hour, minute)[3..5] == ZeroPadded(minute, 2);
    ZeroPaddedValue(hour, 2);
    ZeroPaddedValue(minute, 2);
  }

  /** 2024-06-01 is a Saturday, and 08:00:00 on it formats as `08:00`. */
  lemma SaturdayMorning()
    ensures Weekday(DateTime(2024, 6, 1, 8, 0, 0)) == 6
    ensures TimeOfDay(8, 0) == "08:00"
  {
    assert DaysBeforeYear(2024) == 738885;
    assert DaysBeforeMonth(2024, 6) == 152;
    assert ZeroPadded(8, 2) == "08" by {
      assert ZeroPadded(0, 1) == "0";
    }
    assert ZeroPadded(0, 2) == "00" by {
      assert ZeroPadded(0, 1) == "0";
    }
  }

}

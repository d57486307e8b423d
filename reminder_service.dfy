/** `createReminderTask`: the crontab line an activity's reminder rule is scheduled with,
    and what such a line means under crontab(5). */
module ReminderService {

  import opened Wrappers
  import opened Text
  import opened Calendar
  import opened Activities
  import opened ReminderJob

  /** How the call ends: `reminderTime.split` on a null time throws before the switch is
      reached; an unknown reminder type returns without scheduling; otherwise a job is scheduled
      with the cron expression. */
  datatype TaskOutcome = Thrown | NotScheduled | Scheduled(cronExpression: string)

  /** What a template literal prints for a nullable integer column. */
  function Interpolate(v: Option<int>): (s: string)
    ensures ' ' !in s
  {
    match v
    case None => "null"
    case Some(n) =>
      var s := IntToString(n);
      assert n < 0 ==> s == [s[0]] + s[1..];
      s
  }

  function CreateReminderTask(a: Activity): (r: TaskOutcome)
    ensures r.Thrown? <==> a.reminderTime.None?
    ensures r.Scheduled? <==> a.reminderTime.Some? && a.reminderType in {DAILY, WEEKLY, MONTHLY}
  {
    match a.reminderTime
    case None => Thrown
    case Some(time) =>
      var parts := Split(time, ':');
      var hour := parts[0];
      var minute := if |parts| > 1 then parts[1] else "undefined";
      if a.reminderType == DAILY then Scheduled(minute + " " + hour + " * * *")
      else if a.reminderType == WEEKLY then Scheduled(minute + " " + hour + " * * " + Interpolate(a.reminderDay))
      else if a.reminderType == MONTHLY then Scheduled(minute + " " + hour + " " + Interpolate(a.reminderDate) + " * *")
      else NotScheduled
  }

  /** The form's `HH:mm` splits on ':' into the hour and the minute. */
  lemma SplitTimeOfDay(hour: nat, minute: nat)
    requires hour < 24 && minute < 60
    ensures Split(TimeOfDay(hour, minute), ':') == [ZeroPadded(hour, 2), ZeroPadded(minute, 2)]
  {
    var h, m := ZeroPadded(hour, 2), ZeroPadded(minute, 2);
    assert TimeOfDay(hour, minute) == Join([h, m], ':');
    SplitJoin([h, m], ':');
  }

  /** The template `${f0} ${f1} ${f2} ${f3} ${f4}` is the five fields joined by spaces. */
  lemma CronLineIsJoin(f0: string, f1: string, f2: string, f3: string, f4: string)
    ensures f0 + " " + f1 + " " + f2 + " " + f3 + " " + f4 == Join([f0, f1, f2, f3, f4], ' ')
  {
    var fields := [f0, f1, f2, f3, f4];
    assert Join(fields[4..], ' ') == f4;
    assert Join(fields[3..], ' ') == f3 + " " + f4;
    assert Join(fields[2..], ' ') == f2 + " " + (f3 + " " + f4);
    assert Join(fields[1..], ' ') == f1 + " " + (f2 + " " + (f3 + " " + f4));
  }

  /** Five fields without spaces, joined by single spaces, split back into the same five. */
  lemma CronSplit(f0: string, f1: string, f2: string, f3: string, f4: string)
    requires ' ' !in f0 && ' ' !in f1 && ' ' !in f2 && ' ' !in f3 && ' ' !in f4
    ensures Split(f0 + " " + f1 + " " + f2 + " " + f3 + " " + f4, ' ') == [f0, f1, f2, f3, f4]
  {
    CronLineIsJoin(f0, f1, f2, f3, f4);
    SplitJoin([f0, f1, f2, f3, f4], ' ');
  }

  /** A zero-padded number holds no space. */
  lemma PaddedHasNoSpace(n: nat)
    requires n < 100
    ensures ' ' !in ZeroPadded(n, 2)
  {
    var s := ZeroPadded(n, 2);
    assert !IsDigit(' ');
    assert s == [s[0], s[1]];
  }

  /** The expression built for a rule whose time came from the form has the crontab(5) field
      order: the minute first, the hour second, then day of month, month, day of week. */
  lemma CronFields(a: Activity, hour: nat, minute: nat)
    requires hour < 24 && minute < 60
    requires a.reminderTime == Some(TimeOfDay(hour, minute))
    requires a.reminderType in {DAILY, WEEKLY, MONTHLY}
    ensures CreateReminderTask(a).Scheduled?
    ensures var fields := Split(CreateReminderTask(a).cronExpression, ' ');
      |fields| == 5 &&
      fields[0] == ZeroPadded(minute, 2) && fields[1] == ZeroPadded(hour, 2) && fields[3] == "*" &&
      (a.reminderType == DAILY ==> fields[2] == "*" && fields[4] == "*") &&
      (a.reminderType == WEEKLY ==> fields[2] == "*" && fields[4] == Interpolate(a.reminderDay)) &&
      (a.reminderType == MONTHLY ==> fields[2] == Interpolate(a.reminderDate) && fields[4] == "*")
  {
    SplitTimeOfDay(hour, minute);
    PaddedHasNoSpace(hour);
    PaddedHasNoSpace(minute);
    var m, h := ZeroPadded(minute, 2), ZeroPadded(hour, 2);
    var expression := CreateReminderTask(a).cronExpression;
    if a.reminderType == DAILY {
      assert expression == m + " " + h + " " + "*" + " " + "*" + " " + "*";
      CronSplit(m, h, "*", "*", "*");
    } else if a.reminderType == WEEKLY {
      var dow := Interpolate(a.reminderDay);
      assert expression == m + " " + h + " " + "*" + " " + "*" + " " + dow;
      CronSplit(m, h, "*", "*", dow);
    } else {
      var dom := Interpolate(a.reminderDate);
      assert expression == m + " " + h + " " + dom + " " + "*" + " " + "*";
      CronSplit(m, h, dom, "*", "*");
    }
  }

  /** Round trip: the hour and the minute of the rule's time are read back from fields 1 and 0
      of the expression. */
  lemma CronRoundTrip(a: Activity, hour: nat, minute: nat)
    requires hour < 24 && minute < 60
    requires a.reminderTime == Some(TimeOfDay(hour, minute))
    requires a.reminderType in {DAILY, WEEKLY, MONTHLY}
    ensures CreateReminderTask(a).Scheduled?
    ensures var fields := Split(CreateReminderTask(a).cronExpression, ' ');
      |fields| == 5 && ParseNat(fields[1]) == Some(hour) && ParseNat(fields[0]) == Some(minute)
  {
    CronFields(a, hour, minute);
    ZeroPaddedValue(hour, 2);
    ZeroPaddedValue(minute, 2);
  }

  /** One field of a cron expression, in the forms `createReminderTask` writes: a star or a
      decimal number. Lists, ranges and steps are not produced and are read as unsupported. */
  datatype CronField = Any | Value(n: nat) | Unsupported

  function ParseField(s: string): CronField {
    if s == "*" then Any
    else match ParseNat(s)
      case Some(n) => Value(n)
      case None => Unsupported
  }

  predicate FieldMatches(f: CronField, v: int) {
    f.Any? || (f.Value? && f.n == v)
  }

  /** Day of week: 0 and 7 both stand for Sunday. */
  predicate DayOfWeekMatches(f: CronField, weekday: int) {
    f.Any? || (f.Value? && (f.n == weekday || (f.n == 7 && weekday == 0)))
  }

  /** crontab(5): a line fires in a minute when minute, hour and month match and the day
      matches; when both day fields are restricted, either one matching is enough. */
  predicate CronFires(expression: string, now: Moment) {
    var fields := Split(expression, ' ');
    |fields| == 5 &&
    var minute, hour, dom, month, dow :=
      ParseField(fields[0]), ParseField(fields[1]), ParseField(fields[2]), ParseField(fields[3]), ParseField(fields[4]);
    FieldMatches(minute, now.minute) && FieldMatches(hour, now.hour) && FieldMatches(month, now.month) &&
    if !dom.Any? && !dow.Any? then FieldMatches(dom, now.day) || DayOfWeekMatches(dow, Weekday(now))
    else FieldMatches(dom, now.day) && DayOfWeekMatches(dow, Weekday(now))
  }

  lemma InterpolatedField(v: Option<int>)
    ensures ParseField(Interpolate(v)) == match v
      case Some(n) => if n >= 0 then Value(n) else Unsupported
      case None => Unsupported
  {
    match v
    case None =>
      assert Interpolate(v) != "*";
      assert !IsDigit('n');
    case Some(n) =>
      var s := Interpolate(v);
      assert s != "*" by {
        if n < 0 { assert s[0] == '-'; } else { assert AllDigits(s); }
      }
      if n < 0 {
        assert !IsDigit(s[0]);
      }
  }

  /** The scheduled cron job and the per-minute matcher agree on which minutes a rule fires in
      (the matcher also suppresses a second reminder on one date, which cron does not do). The
      one exception is a WEEKLY day stored as 7, which cron reads as Sunday and the matcher as no
      weekday at all; the activity form offers only 0 to 6. */
  lemma CronAgreesWithMatcher(a: Activity, hour: nat, minute: nat, now: Moment)
    requires hour < 24 && minute < 60
    requires a.reminderTime == Some(TimeOfDay(hour, minute))
    requires a.reminderType in {DAILY, WEEKLY, MONTHLY}
    requires a.reminderType == WEEKLY ==> a.reminderDay != Some(7)
    ensures CreateReminderTask(a).Scheduled?
    ensures CronFires(CreateReminderTask(a).cronExpression, now) <==> RuleMatches(a, now)
  {
    CronFields(a, hour, minute);
    ZeroPaddedValue(hour, 2);
    ZeroPaddedValue(minute, 2);
    var fields := Split(CreateReminderTask(a).cronExpression, ' ');
    assert ParseField(fields[0]) == Value(minute);
    assert ParseField(fields[1]) == Value(hour);
    assert ParseField(fields[3]) == Any;
    TimeOfDayInjective(hour, minute, now.hour, now.minute);
    assert TimeMatches(a, now) <==> now.hour == hour && now.minute == minute;
    if a.reminderType == DAILY {
      assert ParseField(fields[2]) == Any && ParseField(fields[4]) == Any;
    } else if a.reminderType == WEEKLY {
      assert ParseField(fields[2]) == Any;
      InterpolatedField(a.reminderDay);
    } else {
      assert ParseField(fields[4]) == Any;
      InterpolatedField(a.reminderDate);
    }
  }

}

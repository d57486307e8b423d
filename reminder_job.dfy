/** The reminder job: on each tick, fetch the open activities that have a reminder rule, and for
    each one whose rule fires at `now` and that has no reminder yet on `now`'s date, insert a
    pending reminder. */
module ReminderJob {

  import opened Wrappers
  import opened Calendar
  import opened Activities

  /** The fetch's filter: not started or in progress, and a reminder type other than NONE. */
  predicate IsEligible(a: Activity) {
    (a.status == NOT_STARTED || a.status == IN_PROGRESS) && a.reminderType != NONE
  }

  /** The fetched activities, in table order. */
  function Eligible(table: seq<Activity>): (r: seq<Activity>)
    ensures |r| <= |table|
  {
    if table == [] then []
    else (if IsEligible(table[0]) then [table[0]] else []) + Eligible(table[1..])
  }

  /** The fetch returns exactly the eligible rows. */
  lemma {:induction false} EligibleMembers(table: seq<Activity>)
    ensures forall a :: a in Eligible(table) <==> a in table && IsEligible(a)
  {
    if table != [] {
      EligibleMembers(table[1..]);
      assert table == [table[0]] + table[1..];
    }
  }

  /** The fetch keeps ids distinct, since it only drops rows. */
  lemma {:induction false} EligibleUniqueIds(table: seq<Activity>)
    requires UniqueIds(table)
    ensures UniqueIds(Eligible(table))
  {
    if table != [] {
      var rest := table[1..];
      assert UniqueIds(rest) by {
        forall i, j | 0 <= i < j < |rest| ensures rest[i].id != rest[j].id {
          assert rest[i] == table[i + 1] && rest[j] == table[j + 1];
        }
      }
      EligibleUniqueIds(rest);
      EligibleMembers(rest);
      forall x | x in Eligible(rest) ensures x.id != table[0].id {
        var k :| 0 <= k < |rest| && rest[k] == x;
        assert table[k + 1] == x;
      }
    }
  }

  /** `activity.reminders.find(...)`: a reminder recorded on the same local date as `now`,
      compared as `YYYY-MM-DD` strings. */
  function FindToday(reminders: seq<Reminder>, now: Moment): (r: Option<Reminder>)
    ensures r.Some? ==> r.value in reminders && SameDate(r.value.remindTime, now)
    ensures r.None? ==> forall x :: x in reminders ==> !SameDate(x.remindTime, now)
  {
    if reminders == [] then None
    else
      DateKeyInjective(reminders[0].remindTime, now);
      if DateKey(reminders[0].remindTime) == DateKey(now) then Some(reminders[0])
      else FindToday(reminders[1..], now)
  }

  /** `reminderTime && now.format('HH:mm') === reminderTime`: a missing or empty time never
      matches. */
  predicate TimeMatches(a: Activity, now: Moment) {
    match a.reminderTime
    case None => false
    case Some(t) => t != "" && HourMinute(now) == t
  }

  /** The switch on the reminder type: the extra gate each rule adds to the time match. */
  predicate RuleMatches(a: Activity, now: Moment) {
    if a.reminderType == DAILY then TimeMatches(a, now)
    else if a.reminderType == WEEKLY then TimeMatches(a, now) && Some(Weekday(now)) == a.reminderDay
    else if a.reminderType == MONTHLY then TimeMatches(a, now) && Some(now.day) == a.reminderDate
    else false
  }

  /** `shouldSendReminder(activity, now)`, given the activity's reminders as fetched. */
  predicate ShouldSendReminder(a: Activity, reminders: seq<Reminder>, now: Moment) {
    if FindToday(reminders, now).Some? then false else RuleMatches(a, now)
  }

  /** The matcher in plain terms: no reminder yet on `now`'s date, the stored time is exactly
      `now`'s hour and minute, and the rule's own gate holds. */
  lemma ShouldSendIff(a: Activity, reminders: seq<Reminder>, now: Moment)
    ensures ShouldSendReminder(a, reminders, now) <==>
      (forall x :: x in reminders ==> !SameDate(x.remindTime, now)) &&
      a.reminderTime == Some(TimeOfDay(now.hour, now.minute)) &&
      (a.reminderType == DAILY ||
       (a.reminderType == WEEKLY && a.reminderDay == Some(Weekday(now))) ||
       (a.reminderType == MONTHLY && a.reminderDate == Some(now.day)))
  {
  }

  /** A reminder already recorded on `now`'s date suppresses the rule, whatever it says. */
  lemma SameDaySuppresses(a: Activity, reminders: seq<Reminder>, now: Moment, x: Reminder)
    requires x in reminders && SameDate(x.remindTime, now)
    ensures !ShouldSendReminder(a, reminders, now)
  {
  }

  /** A time set in the activity form (`HH:mm`) fires only in exactly that minute of the day;
      the seconds of `now` play no part. */
  lemma ExactMinute(a: Activity, reminders: seq<Reminder>, now: Moment, hour: nat, minute: nat)
    requires hour < 24 && minute < 60
    requires a.reminderTime == Some(TimeOfDay(hour, minute))
    ensures ShouldSendReminder(a, reminders, now) ==> now.hour == hour && now.minute == minute
    ensures ShouldSendReminder(a, reminders, now) <==>
      ShouldSendReminder(a, reminders, now.(second := 0)) && now.hour == hour && now.minute == minute
  {
    TimeOfDayInjective(hour, minute, now.hour, now.minute);
  }

  /** A rule without a time never fires. */
  lemma MissingTimeNeverFires(a: Activity, reminders: seq<Reminder>, now: Moment)
    requires a.reminderTime.None? || a.reminderTime == Some("")
    ensures !ShouldSendReminder(a, reminders, now)
  {
  }

  /** DAILY fires in its minute on every day that has no reminder yet. */
  lemma DailyFires(a: Activity, reminders: seq<Reminder>, now: Moment, hour: nat, minute: nat)
    requires hour < 24 && minute < 60
    requires a.reminderType == DAILY && a.reminderTime == Some(TimeOfDay(hour, minute))
    ensures ShouldSendReminder(a, reminders, now) <==>
      (forall x :: x in reminders ==> !SameDate(x.remindTime, now)) &&
      now.hour == hour && now.minute == minute
  {
    TimeOfDayInjective(hour, minute, now.hour, now.minute);
  }

  /** WEEKLY fires in its minute only on its weekday (0 = Sunday); the day-of-month column is
      ignored. */
  lemma WeeklyFires(a: Activity, reminders: seq<Reminder>, now: Moment, hour: nat, minute: nat, weekday: int)
    requires hour < 24 && minute < 60
    requires a.reminderType == WEEKLY && a.reminderTime == Some(TimeOfDay(hour, minute))
    requires a.reminderDay == Some(weekday)
    ensures ShouldSendReminder(a, reminders, now) <==>
      (forall x :: x in reminders ==> !SameDate(x.remindTime, now)) &&
      now.hour == hour && now.minute == minute && Weekday(now) == weekday
    ensures ShouldSendReminder(a, reminders, now) <==> ShouldSendReminder(a.(reminderDate := None), reminders, now)
  {
    TimeOfDayInjective(hour, minute, now.hour, now.minute);
  }

  /** MONTHLY fires in its minute only on its day of the month; the weekday column is
      ignored. */
  lemma MonthlyFires(a: Activity, reminders: seq<Reminder>, now: Moment, hour: nat, minute: nat, date: int)
    requires hour < 24 && minute < 60
    requires a.reminderType == MONTHLY && a.reminderTime == Some(TimeOfDay(hour, minute))
    requires a.reminderDate == Some(date)
    ensures ShouldSendReminder(a, reminders, now) <==>
      (forall x :: x in reminders ==> !SameDate(x.remindTime, now)) &&
      now.hour == hour && now.minute == minute && now.day == date
    ensures ShouldSendReminder(a, reminders, now) <==> ShouldSendReminder(a.(reminderDay := None), reminders, now)
  {
    TimeOfDayInjective(hour, minute, now.hour, now.minute);
  }

  /** A MONTHLY day the current month does not have (31 in a 30-day month, 30 in February)
      never fires in that month: there is no rollover to the next day. */
  lemma MonthlyNoRollover(a: Activity, reminders: seq<Reminder>, now: Moment, date: int)
    requires a.reminderType == MONTHLY && a.reminderDate == Some(date)
    requires date > DaysInMonth(now.year, now.month)
    ensures !ShouldSendReminder(a, reminders, now)
  {
  }

  /** Any reminder type outside DAILY, WEEKLY and MONTHLY never fires. */
  lemma OtherTypesNeverFire(a: Activity, reminders: seq<Reminder>, now: Moment)
    requires a.reminderType != DAILY && a.reminderType != WEEKLY && a.reminderType != MONTHLY
    ensures !ShouldSendReminder(a, reminders, now)
  {
  }

  /** The reminders one tick inserts, for the fetched activities in order: every activity whose
      rule fires, judged against the reminders fetched with it, gets one pending reminder
      stamped `now`, unless the store rejects the insert. */
  function Fired(fetched: seq<Activity>, snapshot: seq<Reminder>, now: Moment, rejected: set<int>): seq<Reminder>
    decreases |fetched|
  {
    if fetched == [] then []
    else
      var a := fetched[|fetched| - 1];
      Fired(fetched[..|fetched| - 1], snapshot, now, rejected) +
        (if ShouldSendReminder(a, RemindersOf(snapshot, a.id), now) && a.id !in rejected
         then [Reminder(a.id, now, PENDING)] else [])
  }

  /** One more fetched activity adds its own reminder, if any, after the others. */
  lemma FiredStep(fetched: seq<Activity>, snapshot: seq<Reminder>, now: Moment, rejected: set<int>, i: int)
    requires 0 <= i < |fetched|
    ensures Fired(fetched[..i + 1], snapshot, now, rejected) ==
      Fired(fetched[..i], snapshot, now, rejected) +
        (if ShouldSendReminder(fetched[i], RemindersOf(snapshot, fetched[i].id), now) && fetched[i].id !in rejected
         then [Reminder(fetched[i].id, now, PENDING)] else [])
  {
    assert fetched[..i + 1][..i] == fetched[..i];
  }

  /** `createReminder`: insert one pending reminder for the activity, stamped `now`; a rejected
      insert is swallowed and leaves the table as it was. */
  method CreateReminder(table: seq<Reminder>, activity: Activity, now: Moment, rejected: set<int>)
    returns (table': seq<Reminder>)
    ensures activity.id in rejected ==> table' == table
    ensures activity.id !in rejected ==> table' == table + [Reminder(activity.id, now, PENDING)]
  {
    if activity.id in rejected {
      table' := table;
    } else {
      table' := table + [Reminder(activity.id, now, PENDING)];
    }
  }

  /** `checkAndSendReminders`: one tick at `now` over the activity and reminder tables. The
      reminders each activity is judged against are the ones fetched with it, before the tick
      inserted anything. */
  method CheckAndSendReminders(activityTable: seq<Activity>, reminderTable: seq<Reminder>,
                               now: Moment, rejected: set<int>)
    returns (table: seq<Reminder>)
    ensures table == reminderTable + Fired(Eligible(activityTable), reminderTable, now, rejected)
  {
    var activities := Eligible(activityTable);
    table := reminderTable;
    var i := 0;
    while i < |activities|
      invariant 0 <= i <= |activities|
      invariant table == reminderTable + Fired(activities[..i], reminderTable, now, rejected)
    {
      var activity := activities[i];
      FiredStep(activities, reminderTable, now, rejected, i);
      var shouldRemind := ShouldSendReminder(activity, RemindersOf(reminderTable, activity.id), now);
      if shouldRemind {
        table := CreateReminder(table, activity, now, rejected);
      }
      i := i + 1;
    }
    assert activities[..|activities|] == activities;
  }

  /** Every inserted reminder is pending, stamped `now`, and belongs to a fetched activity whose
      rule fired and whose insert went through. */
  lemma {:induction false} FiredRows(fetched: seq<Activity>, snapshot: seq<Reminder>, now: Moment, rejected: set<int>)
    ensures forall x :: x in Fired(fetched, snapshot, now, rejected) ==>
      x.status == PENDING && x.remindTime == now && x.activityId !in rejected &&
      exists a :: a in fetched && a.id == x.activityId && ShouldSendReminder(a, RemindersOf(snapshot, a.id), now)
    ensures |Fired(fetched, snapshot, now, rejected)| <= |fetched|
    decreases |fetched|
  {
    if fetched != [] {
      var prefix := fetched[..|fetched| - 1];
      FiredRows(prefix, snapshot, now, rejected);
      forall a | a in prefix ensures a in fetched {
      }
    }
  }

  /** Every fetched activity whose rule fires and whose insert goes through gets its reminder. */
  lemma {:induction false} FiredComplete(fetched: seq<Activity>, snapshot: seq<Reminder>, now: Moment,
                                         rejected: set<int>, a: Activity)
    requires a in fetched && a.id !in rejected
    requires ShouldSendReminder(a, RemindersOf(snapshot, a.id), now)
    ensures Reminder(a.id, now, PENDING) in Fired(fetched, snapshot, now, rejected)
    decreases |fetched|
  {
    var prefix := fetched[..|fetched| - 1];
    if a != fetched[|fetched| - 1] {
      assert a in prefix;
      FiredComplete(prefix, snapshot, now, rejected, a);
    }
  }

  /** With distinct activity ids, the inserted reminders belong to distinct activities. */
  lemma {:induction false} FiredDistinct(fetched: seq<Activity>, snapshot: seq<Reminder>, now: Moment, rejected: set<int>)
    requires UniqueIds(fetched)
    ensures DistinctActivities(Fired(fetched, snapshot, now, rejected))
    decreases |fetched|
  {
    if fetched != [] {
      var prefix := fetched[..|fetched| - 1];
      var last := fetched[|fetched| - 1];
      assert UniqueIds(prefix) by {
        forall i, j | 0 <= i < j < |prefix| ensures prefix[i].id != prefix[j].id {
          assert prefix[i] == fetched[i] && prefix[j] == fetched[j];
        }
      }
      FiredDistinct(prefix, snapshot, now, rejected);
      FiredRows(prefix, snapshot, now, rejected);
      var fp := Fired(prefix, snapshot, now, rejected);
      var tail := if ShouldSendReminder(last, RemindersOf(snapshot, last.id), now) && last.id !in rejected
        then [Reminder(last.id, now, PENDING)] else [];
      forall x | x in fp ensures x.activityId != last.id {
        var b :| b in prefix && b.id == x.activityId && ShouldSendReminder(b, RemindersOf(snapshot, b.id), now);
        var k :| 0 <= k < |prefix| && prefix[k] == b;
        assert fetched[k] == b;
      }
      DistinctActivitiesAppend(fp, tail);
    }
  }

  /** The reminders of an activity that did not fire this tick are exactly what they were. */
  lemma TickKeepsOthers(activityTable: seq<Activity>, reminderTable: seq<Reminder>, now: Moment,
                        rejected: set<int>, id: int)
    requires forall a :: a in activityTable && IsEligible(a) && a.id == id ==>
      !ShouldSendReminder(a, RemindersOf(reminderTable, id), now) || id in rejected
    ensures var f := Fired(Eligible(activityTable), reminderTable, now, rejected);
      RemindersOf(reminderTable + f, id) == RemindersOf(reminderTable, id)
  {
    var f := Fired(Eligible(activityTable), reminderTable, now, rejected);
    FiredRows(Eligible(activityTable), reminderTable, now, rejected);
    RemindersOfAppend(reminderTable, f, id);
    EligibleMembers(activityTable);
    RemindersOfNone(f, id);
    assert RemindersOf(reminderTable, id) + [] == RemindersOf(reminderTable, id);
  }

  /** With distinct activity ids, a tick adds at most one reminder per activity. */
  lemma TickAddsAtMostOne(activityTable: seq<Activity>, reminderTable: seq<Reminder>, now: Moment,
                          rejected: set<int>, id: int)
    requires UniqueIds(activityTable)
    ensures var f := Fired(Eligible(activityTable), reminderTable, now, rejected);
      |RemindersOf(reminderTable + f, id)| <= |RemindersOf(reminderTable, id)| + 1
  {
    var f := Fired(Eligible(activityTable), reminderTable, now, rejected);
    EligibleUniqueIds(activityTable);
    FiredDistinct(Eligible(activityTable), reminderTable, now, rejected);
    RemindersOfAppend(reminderTable, f, id);
    RemindersOfDistinctIds(f, id);
  }

  /** A tick inserts only pending reminders stamped `now`, and only for activities that are
      fetched (not started or in progress, with a reminder type other than NONE) and whose rule
      fired. */
  lemma TickOnlyEligible(activityTable: seq<Activity>, reminderTable: seq<Reminder>, now: Moment,
                         rejected: set<int>)
    ensures forall x :: x in Fired(Eligible(activityTable), reminderTable, now, rejected) ==>
      x.status == PENDING && x.remindTime == now && x.activityId !in rejected &&
      exists a :: a in activityTable && IsEligible(a) && a.id == x.activityId &&
        ShouldSendReminder(a, RemindersOf(reminderTable, a.id), now)
  {
    EligibleMembers(activityTable);
    FiredRows(Eligible(activityTable), reminderTable, now, rejected);
  }

  /** At most one reminder per activity per local date. */
  predicate OnePerDay(table: seq<Reminder>) {
    forall i, j :: 0 <= i < j < |table| && table[i].activityId == table[j].activityId ==>
      !SameDate(table[i].remindTime, table[j].remindTime)
  }

  /** A tick keeps "at most one reminder per activity per date". */
  lemma TickPreservesOnePerDay(activityTable: seq<Activity>, reminderTable: seq<Reminder>, now: Moment,
                               rejected: set<int>)
    requires UniqueIds(activityTable)
    requires OnePerDay(reminderTable)
    ensures OnePerDay(reminderTable + Fired(Eligible(activityTable), reminderTable, now, rejected))
  {
    var fetched := Eligible(activityTable);
    var f := Fired(fetched, reminderTable, now, rejected);
    var after := reminderTable + f;
    EligibleUniqueIds(activityTable);
    FiredDistinct(fetched, reminderTable, now, rejected);
    FiredRows(fetched, reminderTable, now, rejected);
    var n := |reminderTable|;
    forall i, j | 0 <= i < j < |after| && after[i].activityId == after[j].activityId
      ensures !SameDate(after[i].remindTime, after[j].remindTime)
    {
      if j < n {
        assert after[i] == reminderTable[i] && after[j] == reminderTable[j];
      } else if i < n {
        var y := f[j - n];
        assert y in f;
        var a :| a in fetched && a.id == y.activityId && ShouldSendReminder(a, RemindersOf(reminderTable, a.id), now);
        assert after[i] == reminderTable[i];
        assert reminderTable[i] in RemindersOf(reminderTable, a.id);
      } else {
        // two new rows: FiredDistinct gives them distinct activities
        assert false;
      }
    }
  }

  /** No fetched activity fires: nothing is inserted. */
  lemma {:induction false} FiredNone(fetched: seq<Activity>, snapshot: seq<Reminder>, now: Moment, rejected: set<int>)
    requires forall a :: a in fetched ==> !ShouldSendReminder(a, RemindersOf(snapshot, a.id), now) || a.id in rejected
    ensures Fired(fetched, snapshot, now, rejected) == []
    decreases |fetched|
  {
    if fetched != [] {
      var prefix := fetched[..|fetched| - 1];
      forall a | a in prefix ensures a in fetched {
      }
      FiredNone(prefix, snapshot, now, rejected);
    }
  }

  /** Two local times in the same minute of the same date, seconds aside. */
  predicate SameMinute(t: Moment, u: Moment) {
    SameDate(t, u) && t.hour == u.hour && t.minute == u.minute
  }

  /** A rule's gate and time match cannot tell apart two moments in the same minute. */
  lemma RuleMatchesSameMinute(a: Activity, now: Moment, now2: Moment)
    requires SameMinute(now, now2)
    ensures RuleMatches(a, now) <==> RuleMatches(a, now2)
  {
    assert DayNumber(now) == DayNumber(now2);
  }

  /** A fetched activity that fires again, at a second tick in the same minute, on the table the
      first tick left, is one whose first insert was rejected. */
  lemma SecondLook(fetched: seq<Activity>, reminderTable: seq<Reminder>, now: Moment, now2: Moment,
                   rejected1: set<int>, a: Activity)
    requires a in fetched
    requires SameMinute(now, now2)
    ensures var after := reminderTable + Fired(fetched, reminderTable, now, rejected1);
      ShouldSendReminder(a, RemindersOf(after, a.id), now2) ==> a.id in rejected1
  {
    var f1 := Fired(fetched, reminderTable, now, rejected1);
    var after := reminderTable + f1;
    if ShouldSendReminder(a, RemindersOf(after, a.id), now2) && a.id !in rejected1 {
      RemindersOfAppend(reminderTable, f1, a.id);
      assert FindToday(RemindersOf(reminderTable, a.id), now).None? by {
        forall y | y in RemindersOf(reminderTable, a.id) ensures !SameDate(y.remindTime, now) {
          assert y in RemindersOf(after, a.id);
        }
      }
      RuleMatchesSameMinute(a, now, now2);
      FiredComplete(fetched, reminderTable, now, rejected1, a);
      // its reminder is in `after`, dated `now`, the date of `now2`, so the second look finds it
      assert false;
    }
  }

  /** A second tick in the same minute, over the same activities and the table the first tick
      left, inserts only for activities whose first insert was rejected: a reminder that went
      in is never inserted twice. */
  lemma SecondTickOnlyRetries(activityTable: seq<Activity>, reminderTable: seq<Reminder>, now: Moment,
                              now2: Moment, rejected1: set<int>, rejected2: set<int>)
    requires SameMinute(now, now2)
    ensures var after := reminderTable + Fired(Eligible(activityTable), reminderTable, now, rejected1);
      forall x :: x in Fired(Eligible(activityTable), after, now2, rejected2) ==> x.activityId in rejected1
  {
    var fetched := Eligible(activityTable);
    var after := reminderTable + Fired(fetched, reminderTable, now, rejected1);
    FiredRows(fetched, after, now2, rejected2);
    forall a | a in fetched
      ensures ShouldSendReminder(a, RemindersOf(after, a.id), now2) ==> a.id in rejected1
    {
      SecondLook(fetched, reminderTable, now, now2, rejected1, a);
    }
  }

  /** When the first tick's inserts all go through, a second tick in the same minute inserts
      nothing. */
  lemma SecondTickIdempotent(activityTable: seq<Activity>, reminderTable: seq<Reminder>, now: Moment,
                             now2: Moment, rejected2: set<int>)
    requires SameMinute(now, now2)
    ensures var after := reminderTable + Fired(Eligible(activityTable), reminderTable, now, {});
      Fired(Eligible(activityTable), after, now2, rejected2) == []
  {
    var fetched := Eligible(activityTable);
    var after := reminderTable + Fired(fetched, reminderTable, now, {});
    forall a | a in fetched
      ensures !ShouldSendReminder(a, RemindersOf(after, a.id), now2) || a.id in rejected2
    {
      SecondLook(fetched, reminderTable, now, now2, {}, a);
    }
    FiredNone(fetched, after, now2, rejected2);
  }

  /** A weekly Saturday-08:00 rule ticked twice at 2024-06-01 08:00 (a Saturday): the first
      tick inserts one reminder, the second none. */
  lemma SaturdayScenario()
    ensures var a := Activity(1, 1, "weekly", 0, 1, NOT_STARTED, WEEKLY, Some(6), None, Some("08:00"));
      var now: Moment := DateTime(2024, 6, 1, 8, 0, 0);
      var first := Fired(Eligible([a]), [], now, {});
      first == [Reminder(1, now, PENDING)] && Fired(Eligible([a]), first, now, {}) == []
  {
    var a := Activity(1, 1, "weekly", 0, 1, NOT_STARTED, WEEKLY, Some(6), None, Some("08:00"));
    var now: Moment := DateTime(2024, 6, 1, 8, 0, 0);
    SaturdayMorning();
    assert Eligible([a]) == [a] by {
      assert [a][1..] == [];
    }
    WeeklyFires(a, RemindersOf([], 1), now, 8, 0, 6);
    assert Fired([a], [], now, {}) == [Reminder(1, now, PENDING)] by {
      assert [a][..0] == [];
    }
    SecondTickIdempotent([a], [], now, now, {});
    assert [] + [Reminder(1, now, PENDING)] == [Reminder(1, now, PENDING)];
  }


}

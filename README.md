# Activity lifecycle and reminder engine

This is a Dafny model of the background engine of a bank-activity to-do application. The
engine has three parts:

- **Status job** (`updateActivityStatus`). Two bulk updates over the activity table, both taken
  at one instant `now`:
  - an open activity (0 not started, 1 in progress) whose end time has passed becomes 3,
    expired;
  - a not-started activity with `startTime <= now < endTime` becomes 1, in progress;
  - completed (2) and expired (3) activities are never touched.
- **Reminder job** (`checkAndSendReminders`, `shouldSendReminder`, `createReminder`). It
  fetches the open activities whose reminder type is not `NONE`, together with their reminders.
  For each one it decides whether the activity's rule fires at the local time `now`:
  - a reminder already recorded on `now`'s date (`YYYY-MM-DD`) suppresses it;
  - `now`'s `HH:mm` must equal the stored time exactly;
  - `DAILY` needs nothing more, `WEEKLY` needs the weekday (`day()`, 0 = Sunday), `MONTHLY` the
    day of the month (`date()`);
  - any other type never fires.

  When the rule fires it inserts one pending reminder (status 0). A failed insert is logged
  and swallowed.
- **Cron builder** (`createReminderTask`). It splits the stored `HH:mm` on `:` and writes a
  five-field crontab line:
  - `DAILY`: `mm HH * * *`;
  - `WEEKLY`: `mm HH * * D`;
  - `MONTHLY`: `mm HH D * *`;
  - any other type: nothing is scheduled.

Modules, one per concern:

- `Wrappers`: `Option`.
- `Text`: the string side of the formats:
  - digits and zero padding;
  - decimal printing of integers;
  - `split` and `join` on one character.
- `Calendar`: local broken-down time as moment presents it:
  - the Gregorian calendar over years 1..9999;
  - the weekday;
  - the `YYYY-MM-DD` and `HH:mm` formats.
- `Activities`: the two stored records and the `reminders` relation.
- `StatusUpdate`: the status job. `UpdateActivityStatus` rewrites an `array` of activity rows
  in place in two loops, one per `updateMany`. It is proved equal to applying the case table
  `NextStatus` to every row.
- `ReminderJob`: the matcher as a function, and the tick.
  - `CheckAndSendReminders` is a method with a loop over the fetched activities that appends
    to the reminder table. It is proved equal to `Fired`, the specification of one tick.
  - The tick properties are lemmas about `Fired`.
- `ReminderService`: `createReminderTask` as a function, plus the crontab(5) reading of the
  line it builds.

How the environment is represented:

- **Store.** The tables are values: a `seq` of reminders, and an `array` of activities for the
  status job.
- **Rejected inserts.** The set `rejected` holds the activity ids whose reminder insert the
  store refuses.
- **Clocks.** The status job's clock is an integer instant. The reminder job's clock is a
  valid local `Moment`. Both are parameters.

## Model

| member | source | states |
|---|---|---|
| Text.ZeroPaddedValue | components/activity/ActivityForm.js:65 | the `HH`/`mm` digits of a zero-padded number read back as that number |
| Text.ZeroPaddedInjective | components/activity/ActivityForm.js:65 | two numbers padded to one width give the same digits exactly when they are equal |
| Text.NatToStringValue | lib/reminderService.js:21 | the decimal printing of a natural number parses back to it |
| Text.IntToString | lib/reminderService.js:21 | a template prints an integer as a non-empty string: its decimal digits, or `-` followed by the digits of its magnitude |
| Text.ZeroPadded | components/activity/ActivityForm.js:65 | a number below `10^w` is written with exactly `w` decimal digits |
| Text.ParseNat | lib/reminderService.js:31 | the scheduler reads a field as a number exactly when it is a non-empty run of decimal digits, and the number read, padded back to the field's width, is the field again |
| Text.DigitsPadded | lib/reminderService.js:31 | digits read as a number are below `10^width` and pad back to themselves |
| Text.Split | lib/reminderService.js:14 | `split` on one character gives at least one piece, and no piece holds the separator |
| Text.SplitPiece | lib/reminderService.js:14 | a separator-free prefix joins the first piece of what follows it |
| Text.SplitJoin | lib/reminderService.js:14 | splitting separator-free fields joined by the separator gives back exactly those fields |
| Calendar.DaysInMonth | lib/jobs/activityReminder.js:53 | every month of the Gregorian calendar has 28 to 31 days, February 29 in leap years |
| Calendar.Weekday | lib/jobs/activityReminder.js:50 | moment's `day()` is a number from 0 (Sunday) to 6 |
| Calendar.WeekdayOfNextDay | lib/jobs/activityReminder.js:50 | the next day of a month is the next weekday |
| Calendar.WeekdayAcrossMonthEnd | lib/jobs/activityReminder.js:50 | the first of a month is the weekday after the last day of the month before |
| Calendar.DaysInYear | lib/jobs/activityReminder.js:50 | the twelve months add up to 366 days in a leap year and 365 otherwise |
| Calendar.DaysBeforeNextYear | lib/jobs/activityReminder.js:50 | a year adds 366 days to the day count when it is a leap year and 365 otherwise |
| Calendar.WeekdayOfSuccessor | lib/jobs/activityReminder.js:50 | the day numbered one more has the next weekday |
| Calendar.WeekdayAcrossYearEnd | lib/jobs/activityReminder.js:50 | 1 January is the weekday after the 31 December before it |
| Calendar.NextDate | lib/jobs/activityReminder.js:50 | the next date, across month and year ends, is numbered one day later and keeps the time of day |
| Calendar.WeekdayOfNextDate | lib/jobs/activityReminder.js:50 | every date in range is followed by the next weekday, so `day()` cycles 0..6 without gaps |
| Calendar.SaturdayMorning | lib/jobs/activityReminder.js:50 | 2024-06-01 is a Saturday (`day()` 6), and 08:00 formats as `08:00` |
| Calendar.DateKey | lib/jobs/activityReminder.js:38 | `format('YYYY-MM-DD')` is ten characters with dashes at positions 4 and 7 |
| Calendar.DateKeyInjective | lib/jobs/activityReminder.js:37-39 | two local times give the same `YYYY-MM-DD` exactly when they fall on the same date |
| Calendar.TimeOfDay | components/activity/ActivityForm.js:65 | `HH:mm` is five characters with the colon in the middle |
| Calendar.HourMinute | lib/jobs/activityReminder.js:43 | `now.format('HH:mm')` is five characters with the colon in the middle, and its halves read back as `now`'s hour and minute |
| Calendar.TimeOfDayInjective | lib/jobs/activityReminder.js:43 | two `HH:mm` strings are equal exactly when hour and minute are |
| Calendar.TimeOfDayFields | lib/reminderService.js:14 | the hour and the minute read back from the two halves of `HH:mm` |
| Activities.RemindersOf | lib/jobs/activityReminder.js:16-19 | an activity's included reminders are exactly its rows of the reminder table |
| Activities.RemindersOfAppend | lib/jobs/activityReminder.js:62-68 | rows appended to the table add to an activity's reminders only the appended rows that belong to it, at the end |
| Activities.RemindersOfNone | lib/jobs/activityReminder.js:16-19 | an activity without rows has no reminders |
| Activities.RemindersOfDistinctIds | lib/jobs/activityReminder.js:16-19 | with rows of distinct activities, each activity has at most one reminder |
| Activities.DistinctActivitiesAppend | lib/jobs/activityReminder.js:62-68 | two row lists with distinct activities and no activity in common append to one with distinct activities |
| StatusUpdate.ExpireSelects | lib/jobs/updateActivityStatus.js:8-15 | definition: the first update's filter, status 0 or 1 and `endTime < now` |
| StatusUpdate.StartSelects | lib/jobs/updateActivityStatus.js:23-31 | definition: the second update's filter, status 0, `startTime <= now` and `endTime > now` |
| StatusUpdate.NextStatus | lib/jobs/updateActivityStatus.js:7-35 | the status after the job: completed or expired unchanged; only 0→1, 0→3 and 1→3 occur; expired exactly when already expired or open with `endTime < now`; in progress exactly when in progress with `now <= endTime`, or not started with `startTime <= now < endTime` |
| StatusUpdate.Advanced | lib/jobs/updateActivityStatus.js:7-35 | the job keeps the number of rows |
| StatusUpdate.PassesAreNextStatus | lib/jobs/updateActivityStatus.js:7-35 | the first update followed by the second on one row gives `NextStatus` |
| StatusUpdate.UpdateActivityStatus | lib/jobs/updateActivityStatus.js:3-35 | the two in-place passes leave every row as `NextStatus` makes it |
| StatusUpdate.EndBoundaryUntouched | lib/jobs/updateActivityStatus.js:12-14 | at `now == endTime` neither filter selects the row and it is left as it was |
| StatusUpdate.AdvancedIdempotent | lib/jobs/updateActivityStatus.js:7-35 | a second run at the same `now` changes nothing |
| StatusUpdate.AdvancedKeepsRows | lib/jobs/updateActivityStatus.js:16-18 | only `status` changes; completed and expired rows are unchanged; status never decreases |
| StatusUpdate.RunsAreMonotonic | lib/jobs/updateActivityStatus.js:7-35 | over any series of runs at any instants: only `status` changes, it never decreases, completed and expired rows are never touched, expired stays expired, and only a not-started row can still be not started |
| StatusUpdate.JanuaryScenario | lib/jobs/updateActivityStatus.js:22-35 | an activity for January 2024 is started by the run at its start time and expired by the run on 1 February |
| ReminderJob.IsEligible | lib/jobs/activityReminder.js:8-15 | definition: the fetch's filter, status 0 or 1 and a reminder type other than `NONE` |
| ReminderJob.Eligible | lib/jobs/activityReminder.js:7-20 | the fetch returns no more rows than the table holds |
| ReminderJob.EligibleMembers | lib/jobs/activityReminder.js:7-20 | the fetch returns exactly the rows with status 0 or 1 and a reminder type other than `NONE` |
| ReminderJob.EligibleUniqueIds | lib/jobs/activityReminder.js:7-20 | the fetch keeps activity ids distinct |
| ReminderJob.FindToday | lib/jobs/activityReminder.js:37-39 | a found reminder is one of the activity's and lies on `now`'s date; none found means no reminder of the activity lies on that date |
| ReminderJob.TimeMatches | lib/jobs/activityReminder.js:43 | definition: the time is present, not empty, and equal to `now`'s `HH:mm`; its meaning is stated by `ExactMinute` and `MissingTimeNeverFires` |
| ReminderJob.RuleMatches | lib/jobs/activityReminder.js:45-57 | definition: the switch on the type, no gate for DAILY, `day()` for WEEKLY, `date()` for MONTHLY, false otherwise; its meaning per type is stated by the `...Fires` lemmas |
| ReminderJob.ShouldSendReminder | lib/jobs/activityReminder.js:33-58 | definition: false when a reminder of `now`'s date is found, else the switch; its meaning is stated by `ShouldSendIff` |
| ReminderJob.RuleMatchesSameMinute | lib/jobs/activityReminder.js:43-53 | the time match and the type's gate give the same answer for any two moments in one minute of one date |
| ReminderJob.ShouldSendIff | lib/jobs/activityReminder.js:33-58 | the matcher fires exactly when no reminder lies on `now`'s date, the stored time is `now`'s `HH:mm`, and the type's gate holds |
| ReminderJob.SameDaySuppresses | lib/jobs/activityReminder.js:37-41 | a reminder on `now`'s date suppresses the rule whatever it says |
| ReminderJob.ExactMinute | lib/jobs/activityReminder.js:43 | a form-set time fires only in exactly its minute, and the seconds of `now` play no part |
| ReminderJob.MissingTimeNeverFires | lib/jobs/activityReminder.js:43 | a missing or empty time never fires |
| ReminderJob.DailyFires | lib/jobs/activityReminder.js:46-47 | DAILY fires exactly in its minute on a date without a reminder |
| ReminderJob.WeeklyFires | lib/jobs/activityReminder.js:49-50 | WEEKLY fires exactly in its minute on its weekday on a date without a reminder, and ignores the day-of-month column |
| ReminderJob.MonthlyFires | lib/jobs/activityReminder.js:52-53 | MONTHLY fires exactly in its minute on its day of the month on a date without a reminder, and ignores the weekday column |
| ReminderJob.MonthlyNoRollover | lib/jobs/activityReminder.js:52-53 | a day the current month does not have never fires in that month |
| ReminderJob.OtherTypesNeverFire | lib/jobs/activityReminder.js:55-56 | any other reminder type never fires |
| ReminderJob.Fired | lib/jobs/activityReminder.js:22-27 | definition: the reminders one tick inserts, one per fetched activity that fires against its fetched reminders and whose insert is not rejected, in fetch order; its meaning is stated by `FiredRows`, `FiredComplete` and `FiredDistinct` |
| ReminderJob.FiredStep | lib/jobs/activityReminder.js:22-27 | one more fetched activity adds its own reminder, if any, after those of the earlier ones |
| ReminderJob.CreateReminder | lib/jobs/activityReminder.js:60-76 | a pending reminder stamped `now` is appended for the activity; a rejected insert leaves the table as it was |
| ReminderJob.CheckAndSendReminders | lib/jobs/activityReminder.js:4-31 | the tick leaves the reminder table followed by `Fired` of the fetched activities |
| ReminderJob.FiredRows | lib/jobs/activityReminder.js:22-27 | every inserted reminder is pending, stamped `now`, not rejected, and belongs to a fetched activity whose rule fired; no more reminders than fetched activities |
| ReminderJob.FiredComplete | lib/jobs/activityReminder.js:22-27 | every fetched activity that fires and is not rejected gets its reminder |
| ReminderJob.FiredDistinct | lib/jobs/activityReminder.js:22-27 | with distinct activity ids, the inserted reminders belong to distinct activities |
| ReminderJob.FiredNone | lib/jobs/activityReminder.js:22-27 | when no fetched activity fires, nothing is inserted |
| ReminderJob.TickKeepsOthers | lib/jobs/activityReminder.js:22-27 | an activity that did not fire keeps exactly the reminders it had |
| ReminderJob.TickAddsAtMostOne | lib/jobs/activityReminder.js:22-27 | a tick adds at most one reminder to each activity |
| ReminderJob.TickOnlyEligible | lib/jobs/activityReminder.js:7-27 | a tick inserts only pending reminders stamped `now`, for fetched activities whose rule fired |
| ReminderJob.TickPreservesOnePerDay | lib/jobs/activityReminder.js:22-41 | a tick keeps "at most one reminder per activity per date" |
| ReminderJob.SecondLook | lib/jobs/activityReminder.js:37-41 | an activity that fires again at a second tick in the same minute, after the first tick, is one whose first insert was rejected |
| ReminderJob.SecondTickOnlyRetries | lib/jobs/activityReminder.js:22-27 | a second tick in the same minute of the same date inserts only for activities whose first insert was rejected |
| ReminderJob.SecondTickIdempotent | lib/jobs/activityReminder.js:22-27 | when the first tick's inserts all succeeded, a second tick in the same minute of the same date inserts nothing |
| ReminderJob.SaturdayScenario | lib/jobs/activityReminder.js:49-50 | a Saturday-08:00 weekly rule ticked twice at 2024-06-01 08:00 gives exactly one reminder |
| ReminderService.Interpolate | lib/reminderService.js:21 | what a template prints for a nullable day column holds no space |
| ReminderService.CreateReminderTask | lib/reminderService.js:4-28 | a missing time throws before the switch; a line is scheduled exactly for a time with type DAILY, WEEKLY or MONTHLY; other types schedule nothing |
| ReminderService.SplitTimeOfDay | lib/reminderService.js:14 | a form time splits on `:` into its hour and its minute |
| ReminderService.CronLineIsJoin | lib/reminderService.js:18-24 | the template is its five fields joined by spaces |
| ReminderService.CronSplit | lib/reminderService.js:18-24 | five space-free fields in the template split back into those five |
| ReminderService.PaddedHasNoSpace | lib/reminderService.js:14 | an `HH` or `mm` half holds no space |
| ReminderService.CronFields | lib/reminderService.js:14-25 | the line has five fields: minute, hour, then `* * *` for DAILY, `* * D` with the weekday column for WEEKLY, `D * *` with the day-of-month column for MONTHLY |
| ReminderService.CronRoundTrip | lib/reminderService.js:14-24 | fields 1 and 0 of the line read back as the hour and the minute of the stored time |
| ReminderService.CronFires | lib/reminderService.js:31 | definition: crontab(5) firing of the line handed to `scheduleJob`; minute, hour and month must match; the two day fields must both match, or either one when both are restricted; a weekday of 7 is Sunday |
| ReminderService.InterpolatedField | lib/reminderService.js:21-24 | a printed day column reads as that number when it is not negative, and as no cron value when it is negative or null |
| ReminderService.CronAgreesWithMatcher | lib/reminderService.js:14-25 | under crontab(5) the scheduled line fires in exactly the minutes where the reminder job's rule matches |

## Left out

- Prisma is left out. The tables are in-memory values.
  - A failing `findMany` in the reminder job is not modelled. It ends the tick with nothing
    inserted, and the error is caught and logged (lib/jobs/activityReminder.js:28-30).
  - A failing `updateMany` in the status job is not modelled. `updateActivityStatus` has no
    `try` of its own; the error reaches the timer callback, which logs it
    (lib/scheduler.js:8-12). When the second update fails, the first update's expirations stay
    written, so the table is left half-way.
  - Each `updateMany` is one pass over the table. Its atomicity in the store is not modelled.
- A failing `prisma.reminder.create` is modelled by the `rejected` set: that insert leaves the
  table unchanged.
- Reminder row ids, and timestamps the store fills in, are not modelled.
- `remindTime` is the insert's own clock read (`new Date()`). The model stamps it with the
  tick's `now`. The two differ by the tick's running time. When a tick runs past midnight, the
  real stamp lies on the next date: the next day's reminder of that activity is then
  suppressed, which the model cannot show. `TickPreservesOnePerDay`, `SecondLook` and the
  second-tick lemmas rely on every inserted reminder lying on `now`'s date.
- The integer instants of the status job and the local `Moment` of the reminder job are not
  tied together. Time zones and the process locale are not modelled; local time is given
  directly.
- Calendar: years outside 1..9999 are not modelled, the range moment prints with four digits.
  Calendar.NextDate: has no value for 9999-12-31, the last date in range.
- `scheduleJob` from node-schedule and the delivery stubs are foreign calls or empty, so they
  are not modelled. `lib/scheduler.js`, which wires both jobs to a per-minute timer, is not
  part of this model either.
- Concurrency between the two jobs, and between overlapping ticks, is not modelled: each tick
  runs alone on the tables it is given.
- Expiry requires `endTime < now` (strict, the `lt` filter), and starting requires
  `endTime > now` (the `gt` filter). So an activity at exactly its end time is neither expired
  nor started by that run (`EndBoundaryUntouched`).
- The reminder route of the HTTP API can insert reminders directly. `OnePerDay` is preserved
  by the job only, not by that route.
- ReminderService.CronFires: reads only the field forms `createReminderTask` writes (a star or
  a decimal number). Lists, ranges, steps and names of crontab(5) are read as values that
  never match.
- ReminderService.CronAgreesWithMatcher: excludes a WEEKLY day stored as 7. Cron reads 7 as
  Sunday; the job's matcher matches no weekday for it. The activity form offers only 0 to 6.
- ReminderService.CronFields: covers only times in the form's `HH:mm` shape.
  `CreateReminderTask` itself takes any string. A time without a colon prints the minute
  field as `undefined`.
- ReminderJob.TickAddsAtMostOne, ReminderJob.TickPreservesOnePerDay: assume distinct activity
  ids. That is the table's primary key.

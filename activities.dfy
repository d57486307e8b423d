/** The two stored records the engine reads and writes, with the column encodings the
    application uses. */
module Activities {

  import opened Wrappers
  import opened Calendar

  // Activity.status
  const NOT_STARTED := 0
  const IN_PROGRESS := 1
  const COMPLETED := 2
  const EXPIRED := 3

  // Reminder.status of a freshly recognised occurrence
  const PENDING := 0

  // Activity.reminderType
  const NONE := "NONE"
  const DAILY := "DAILY"
  const WEEKLY := "WEEKLY"
  const MONTHLY := "MONTHLY"

  /** An activity row. Times are instants on one integer time line; the nullable reminder
      columns are options. `bankId` and `title` stand for the columns the engine never writes. */
  datatype Activity = Activity(
    id: int,
    bankId: int,
    title: string,
    startTime: int,
    endTime: int,
    status: int,
    reminderType: string,
    reminderDay: Option<int>,
    reminderDate: Option<int>,
    reminderTime: Option<string>)

  /** A reminder row: the activity it belongs to, the local time it was recorded at, and its
      delivery status. */
  datatype Reminder = Reminder(activityId: int, remindTime: Moment, status: int)

  /** No two activities share an id (the table's primary key). */
  predicate UniqueIds(activities: seq<Activity>) {
    forall i, j :: 0 <= i < j < |activities| ==> activities[i].id != activities[j].id
  }

  /** Every row of the table belongs to a different activity. */
  predicate DistinctActivities(table: seq<Reminder>) {
    forall i, j :: 0 <= i < j < |table| ==> table[i].activityId != table[j].activityId
  }

  lemma DistinctActivitiesAppend(a: seq<Reminder>, b: seq<Reminder>)
    requires DistinctActivities(a) && DistinctActivities(b)
    requires forall x, y :: x in a && y in b ==> x.activityId != y.activityId
    ensures DistinctActivities(a + b)
  {
    forall i, j | 0 <= i < j < |a + b| ensures (a + b)[i].activityId != (a + b)[j].activityId {
      if j < |a| {
        assert (a + b)[i] == a[i] && (a + b)[j] == a[j];
      } else if i < |a| {
        assert (a + b)[i] in a && (a + b)[j] in b;
      } else {
        assert (a + b)[i] == b[i - |a|] && (a + b)[j] == b[j - |a|];
      }
    }
  }

  /** The `reminders` relation of one activity: its rows, in table order. */
  function RemindersOf(table: seq<Reminder>, id: int): (r: seq<Reminder>)
    ensures forall x :: x in r <==> x in table && x.activityId == id
    ensures |r| <= |table|
  {
    if table == [] then []
    else
      var last := table[|table| - 1];
      RemindersOf(table[..|table| - 1], id) + (if last.activityId == id then [last] else [])
  }

  lemma {:induction false} RemindersOfAppend(a: seq<Reminder>, b: seq<Reminder>, id: int)
    ensures RemindersOf(a + b, id) == RemindersOf(a, id) + RemindersOf(b, id)
  {
    if b != [] {
      var b' := b[..|b| - 1];
      assert (a + b)[..|a + b| - 1] == a + b';
      assert (a + b)[|a + b| - 1] == b[|b| - 1];
      RemindersOfAppend(a, b', id);
    } else {
      assert a + b == a;
    }
  }

  /** An activity with no rows in the table has an empty `reminders` relation. */
  lemma {:induction false} RemindersOfNone(table: seq<Reminder>, id: int)
    requires forall x :: x in table ==> x.activityId != id
    ensures RemindersOf(table, id) == []
  {
    if table != [] {
      var prefix := table[..|table| - 1];
      forall x | x in prefix ensures x.activityId != id {
        var k :| 0 <= k < |prefix| && prefix[k] == x;
        assert table[k] == x;
      }
      RemindersOfNone(prefix, id);
    }
  }

  /** In a table whose rows belong to distinct activities, each activity has at most one row. */
  lemma {:induction false} RemindersOfDistinctIds(table: seq<Reminder>, id: int)
    requires DistinctActivities(table)
    ensures |RemindersOf(table, id)| <= 1
  {
    if table != [] {
      var prefix := table[..|table| - 1];
      var last := table[|table| - 1];
      if last.activityId == id {
        forall x | x in prefix ensures x.activityId != id {
          var k :| 0 <= k < |prefix| && prefix[k] == x;
          assert table[k] == x;
        }
        RemindersOfNone(prefix, id);
      } else {
        RemindersOfDistinctIds(prefix, id);
      }
    }
  }

}

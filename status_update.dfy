/** The status job: two bulk updates over the activity table, both keyed on the same `now`.
    The first marks overdue activities expired; the second marks started ones in progress. */
module StatusUpdate {

  import opened Wrappers
  import opened Activities

  predicate IsOpen(status: int) {
    status == NOT_STARTED || status == IN_PROGRESS
  }

  /** The first update's filter: open, and the end time already passed. */
  predicate ExpireSelects(a: Activity, now: int) {
    IsOpen(a.status) && a.endTime < now
  }

  /** The second update's filter: not started, and `now` inside [startTime, endTime). */
  predicate StartSelects(a: Activity, now: int) {
    a.status == NOT_STARTED && a.startTime <= now && now < a.endTime
  }

  /** The status one run of the job leaves behind, as a single case table (the reference the
      two passes are proved against). */
  function NextStatus(status: int, startTime: int, endTime: int, now: int): (s: int)
    ensures !IsOpen(status) ==> s == status
    ensures s == status || (status == NOT_STARTED && s == IN_PROGRESS) ||
            (status == NOT_STARTED && s == EXPIRED) || (status == IN_PROGRESS && s == EXPIRED)
    ensures s == EXPIRED <==> status == EXPIRED || (IsOpen(status) && endTime < now)
    ensures IsOpen(status) && s == IN_PROGRESS <==>
            (status == IN_PROGRESS && now <= endTime) ||
            (status == NOT_STARTED && startTime <= now < endTime)
  {
    if !IsOpen(status) then status
    else if endTime < now then EXPIRED
    else if status == NOT_STARTED && startTime <= now && now < endTime then IN_PROGRESS
    else status
  }

  /** One record after the job: only its status may differ. */
  function Advance(a: Activity, now: int): Activity {
    a.(status := NextStatus(a.status, a.startTime, a.endTime, now))
  }

  /** The whole table after the job. */
  function Advanced(table: seq<Activity>, now: int): (r: seq<Activity>)
    ensures |r| == |table|
  {
    seq(|table|, k requires 0 <= k < |table| => Advance(table[k], now))
  }

  /** Running the first update and then the second on one record is the case table. */
  lemma PassesAreNextStatus(a: Activity, now: int)
    ensures var a1 := if ExpireSelects(a, now) then a.(status := EXPIRED) else a;
            (if StartSelects(a1, now) then a1.(status := IN_PROGRESS) else a1) == Advance(a, now)
  {
  }

  /** `updateActivityStatus`: rewrites `status` in place, first pass then second pass. */
  method UpdateActivityStatus(table: array<Activity>, now: int)
    modifies table
    ensures table[..] == Advanced(old(table[..]), now)
  {
    var i := 0;
    while i < table.Length
      invariant 0 <= i <= table.Length
      invariant forall k :: 0 <= k < i ==>
        table[k] == if ExpireSelects(old(table[k]), now) then old(table[k]).(status := EXPIRED) else old(table[k])
      invariant forall k :: i <= k < table.Length ==> table[k] == old(table[k])
    {
      if ExpireSelects(table[i], now) {
        table[i] := table[i].(status := EXPIRED);
      }
      i := i + 1;
    }
    ghost var afterFirst := table[..];
    i := 0;
    while i < table.Length
      invariant 0 <= i <= table.Length
      invariant forall k :: 0 <= k < i ==>
        table[k] == if StartSelects(afterFirst[k], now) then afterFirst[k].(status := IN_PROGRESS) else afterFirst[k]
      invariant forall k :: i <= k < table.Length ==> table[k] == afterFirst[k]
    {
      if StartSelects(table[i], now) {
        table[i] := table[i].(status := IN_PROGRESS);
      }
      i := i + 1;
    }
    forall k | 0 <= k < table.Length
      ensures table[k] == Advance(old(table[k]), now)
    {
      PassesAreNextStatus(old(table[k]), now);
    }
  }

  /** At `now == endTime` neither filter applies (`lt` and `gt` are strict), so the record is
      left as it was, whatever its status. */
  lemma EndBoundaryUntouched(a: Activity, now: int)
    requires now == a.endTime
    ensures !ExpireSelects(a, now) && !StartSelects(a, now)
    ensures Advance(a, now) == a
  {
  }

  /** Running the job twice with the same `now` changes nothing the first run did not. */
  lemma AdvancedIdempotent(table: seq<Activity>, now: int)
    ensures Advanced(Advanced(table, now), now) == Advanced(table, now)
  {
    var once := Advanced(table, now);
    forall k | 0 <= k < |table|
      ensures Advanced(once, now)[k] == once[k]
    {
      var a := table[k];
      assert NextStatus(NextStatus(a.status, a.startTime, a.endTime, now), a.startTime, a.endTime, now)
        == NextStatus(a.status, a.startTime, a.endTime, now);
    }
  }

  /** The job keeps the table's shape: same rows in the same places, same columns except
      `status`, and completed or expired rows exactly as they were. */
  lemma AdvancedKeepsRows(table: seq<Activity>, now: int, k: int)
    requires 0 <= k < |table|
    ensures Advanced(table, now)[k] == table[k].(status := Advanced(table, now)[k].status)
    ensures table[k].status == COMPLETED || table[k].status == EXPIRED ==> Advanced(table, now)[k] == table[k]
    ensures Advanced(table, now)[k].status >= table[k].status
  {
  }

  /** A record after a series of runs of the job, at the given instants, in order. */
  function AfterRuns(a: Activity, nows: seq<int>): Activity
    decreases |nows|
  {
    if nows == [] then a else AfterRuns(Advance(a, nows[0]), nows[1..])
  }

  /** Over any series of runs, at any instants, in any order: only `status` changes, it never
      decreases, and a completed or expired record is never touched. */
  lemma {:induction false} RunsAreMonotonic(a: Activity, nows: seq<int>)
    ensures AfterRuns(a, nows) == a.(status := AfterRuns(a, nows).status)
    ensures AfterRuns(a, nows).status >= a.status
    ensures !IsOpen(a.status) ==> AfterRuns(a, nows) == a
    ensures a.status == EXPIRED ==> AfterRuns(a, nows).status == EXPIRED
    ensures AfterRuns(a, nows).status == NOT_STARTED ==> a.status == NOT_STARTED
    decreases |nows|
  {
    if nows != [] {
      RunsAreMonotonic(Advance(a, nows[0]), nows[1..]);
    }
  }

  /** An activity for 2024-01-01T00:00Z to 2024-01-31T00:00Z, in milliseconds: the job at
      its start time starts it, and the job on 2024-02-01 expires it. */
  lemma JanuaryScenario()
    ensures var a := Activity(1, 1, "January", 1704067200000, 1706659200000, NOT_STARTED, NONE, None, None, None);
      var started := Advance(a, 1704067200000);
      started.status == IN_PROGRESS && Advance(started, 1706745600000).status == EXPIRED
  {
  }

}

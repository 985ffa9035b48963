/**
 The status filters of the task views and the counters shown on the menu,
 computed from the rows a `SELECT *` returned.
 */
module TaskStats {
  import opened TaskRecords

  /**
   The rows whose status is `status`, in order and with repetitions (the
   list comprehensions of the views, whose callers pick by position).
   */
  function StatusFilter(rows: seq<Task>, status: string): (r: seq<Task>)
    ensures |r| <= |rows|
    ensures forall t :: t in r <==> t in rows && t.status == Some(status)
    ensures forall t :: multiset(r)[t] == if t.status == Some(status) then multiset(rows)[t] else 0
  {
    if rows == [] then []
    else
      assert rows == [rows[0]] + rows[1..];
      assert forall t :: t in rows <==> t == rows[0] || t in rows[1..];
      (if rows[0].status == Some(status) then [rows[0]] else []) + StatusFilter(rows[1..], status)
  }

  /** Filtering a list is filtering its parts, so the view keeps the list's order. */
  lemma {:induction false} StatusFilterAppend(a: seq<Task>, b: seq<Task>, status: string)
    ensures StatusFilter(a + b, status) == StatusFilter(a, status) + StatusFilter(b, status)
  {
    if a == [] {
      assert a + b == b;
    } else {
      assert (a + b)[0] == a[0] && (a + b)[1..] == a[1..] + b;
      StatusFilterAppend(a[1..], b, status);
    }
  }

  /** The generator sum `sum(1 for t in todo_list if t[1] == status)`. */
  function CountStatus(rows: seq<Task>, status: string): (n: nat)
    ensures n <= |rows|
    ensures n == 0 <==> forall i :: 0 <= i < |rows| ==> rows[i].status != Some(status)
  {
    if rows == [] then 0
    else
      assert forall i :: 1 <= i < |rows| ==> rows[i] == rows[1..][i - 1];
      (if rows[0].status == Some(status) then 1 else 0) + CountStatus(rows[1..], status)
  }

  /** The counter and the filtered view always agree. */
  lemma {:induction false} CountIsFilterLength(rows: seq<Task>, status: string)
    ensures CountStatus(rows, status) == |StatusFilter(rows, status)|
  {
    if rows != [] {
      CountIsFilterLength(rows[1..], status);
    }
  }

  datatype Stats = Stats(total: nat, completed: nat, pending: nat, inProgress: nat)

  /** `get_task_stats`: the menu's counters. */
  function GetTaskStats(rows: seq<Task>): (s: Stats)
    ensures s.total == |rows|
    ensures s.completed == |StatusFilter(rows, COMPLETED)|
    ensures s.pending == |StatusFilter(rows, NOT_STARTED)|
    ensures s.inProgress == |StatusFilter(rows, STARTED)|
  {
    CountIsFilterLength(rows, COMPLETED);
    CountIsFilterLength(rows, NOT_STARTED);
    CountIsFilterLength(rows, STARTED);
    Stats(|rows|, CountStatus(rows, COMPLETED), CountStatus(rows, NOT_STARTED), CountStatus(rows, STARTED))
  }

  /** One of the three statuses the application itself writes. */
  predicate KnownStatus(t: Task) {
    t.status == Some(NOT_STARTED) || t.status == Some(STARTED) || t.status == Some(COMPLETED)
  }

  lemma {:induction false} CountsAddUp(rows: seq<Task>)
    ensures CountStatus(rows, COMPLETED) + CountStatus(rows, NOT_STARTED) + CountStatus(rows, STARTED) <= |rows|
    ensures CountStatus(rows, COMPLETED) + CountStatus(rows, NOT_STARTED) + CountStatus(rows, STARTED) == |rows|
            <==> forall i :: 0 <= i < |rows| ==> KnownStatus(rows[i])
  {
    if rows != [] {
      var rest := rows[1..];
      CountsAddUp(rest);
      assert forall i :: 1 <= i < |rows| ==> rows[i] == rest[i - 1];
      assert (forall i :: 0 <= i < |rows| ==> KnownStatus(rows[i])) <==>
             KnownStatus(rows[0]) && forall i :: 0 <= i < |rest| ==> KnownStatus(rest[i]);
    }
  }

  /**
   The three counters never exceed the total, and they add up to it exactly
   when every row has one of the three known statuses.
   */
  lemma StatsAddUp(rows: seq<Task>)
    ensures var s := GetTaskStats(rows); s.completed + s.pending + s.inProgress <= s.total
    ensures var s := GetTaskStats(rows);
      s.completed + s.pending + s.inProgress == s.total <==> forall i :: 0 <= i < |rows| ==> KnownStatus(rows[i])
  {
    CountIsFilterLength(rows, COMPLETED);
    CountIsFilterLength(rows, NOT_STARTED);
    CountIsFilterLength(rows, STARTED);
    CountsAddUp(rows);
  }
}

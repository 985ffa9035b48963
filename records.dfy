/**
 The `tasks` table of the todo application: its rows, the natural key
 (task, created_at) with SQLite's NULL semantics, and the table updates
 performed by INSERT, INSERT OR IGNORE, UPDATE ... WHERE and DELETE ... WHERE,
 written as functions on the sequence of rows in scan (insertion) order.
 */
module TaskRecords {

  datatype Option<T> = None | Some(value: T)

  /** A TEXT column value; `None` is SQL NULL (Python's `None`). */
  type Cell = Option<string>

  /** One row `(task, status, created_at, started_at, completed_at)`. */
  datatype Task = Task(task: Cell, status: Cell, createdAt: Cell, startedAt: Cell, completedAt: Cell)

  const NOT_STARTED: string := "Not Started"
  const STARTED: string := "Started"
  const COMPLETED: string := "Completed"

  /** SQL `a = b`: true only when neither side is NULL and the texts agree. */
  predicate SqlEq(a: Cell, b: Cell) {
    a.Some? && b.Some? && a.value == b.value
  }

  /**
   Two rows collide under UNIQUE(task, created_at); this is also the match
   of `WHERE task=? AND created_at=?`. NULLs never collide.
   */
  predicate SameKey(a: Task, b: Task) {
    SqlEq(a.task, b.task) && SqlEq(a.createdAt, b.createdAt)
  }

  /** Some row of the table has the key of `t`. */
  predicate HasKey(rows: seq<Task>, t: Task) {
    exists i :: 0 <= i < |rows| && SameKey(rows[i], t)
  }

  /** The table invariant declared by UNIQUE(task, created_at). */
  predicate KeysUnique(rows: seq<Task>) {
    forall i, j :: 0 <= i < j < |rows| ==> !SameKey(rows[i], rows[j])
  }

  /** The row `add_task` inserts. */
  function NewTask(name: string, now: string): (t: Task)
    ensures SameKey(t, t)
    ensures t.task == Some(name) && t.status == Some(NOT_STARTED) && t.createdAt == Some(now)
    ensures t.startedAt.None? && t.completedAt.None?
  {
    Task(Some(name), Some(NOT_STARTED), Some(now), None, None)
  }

  /** A row whose key is new keeps the keys unique once appended. */
  lemma AppendKeepsUnique(rows: seq<Task>, t: Task)
    requires KeysUnique(rows) && !HasKey(rows, t)
    ensures KeysUnique(rows + [t])
  {
  }

  /** `INSERT OR IGNORE`: the row is appended unless its key is taken. */
  function InsertOrIgnore(rows: seq<Task>, t: Task): (r: seq<Task>)
    ensures |rows| <= |r| <= |rows| + 1 && r[..|rows|] == rows
    ensures HasKey(rows, t) ==> r == rows
    ensures SameKey(t, t) ==> HasKey(r, t)
    ensures KeysUnique(rows) ==> KeysUnique(r)
  {
    if HasKey(rows, t) then rows
    else
      assert (rows + [t])[|rows|] == t;
      assert KeysUnique(rows) ==> KeysUnique(rows + [t]) by {
        if KeysUnique(rows) { AppendKeepsUnique(rows, t); }
      }
      rows + [t]
  }

  /**
   The single-row effect of `update_task_status`: "Started" stamps
   started_at, "Completed" stamps completed_at, any other status is ignored.
   The current status is not consulted.
   */
  function Transition(t: Task, newStatus: string, now: string): (u: Task)
    ensures u.task == t.task && u.createdAt == t.createdAt
    ensures newStatus == STARTED ==>
      u.status == Some(STARTED) && u.startedAt == Some(now) && u.completedAt == t.completedAt
    ensures newStatus == COMPLETED ==>
      u.status == Some(COMPLETED) && u.completedAt == Some(now) && u.startedAt == t.startedAt
    ensures newStatus != STARTED && newStatus != COMPLETED ==> u == t
  {
    if newStatus == STARTED then t.(status := Some(STARTED), startedAt := Some(now))
    else if newStatus == COMPLETED then t.(status := Some(COMPLETED), completedAt := Some(now))
    else t
  }

  /** `UPDATE tasks SET ... WHERE task=? AND created_at=?` keyed by `key`. */
  function UpdateStatus(rows: seq<Task>, key: Task, newStatus: string, now: string): (r: seq<Task>)
    ensures |r| == |rows|
    ensures forall i :: 0 <= i < |r| ==> r[i].task == rows[i].task && r[i].createdAt == rows[i].createdAt
    ensures forall i :: 0 <= i < |r| && !SameKey(rows[i], key) ==> r[i] == rows[i]
    ensures forall i :: 0 <= i < |r| && SameKey(rows[i], key) ==> r[i] == Transition(rows[i], newStatus, now)
  {
    seq(|rows|, i requires 0 <= i < |rows| =>
      if SameKey(rows[i], key) then Transition(rows[i], newStatus, now) else rows[i])
  }

  /** An update never changes a key, so the table stays free of duplicates. */
  lemma UpdateKeepsUnique(rows: seq<Task>, key: Task, newStatus: string, now: string)
    requires KeysUnique(rows)
    ensures KeysUnique(UpdateStatus(rows, key, newStatus, now))
  {
  }

  /** In a table with unique keys an update keyed by row `i` changes no other row. */
  lemma UpdateChangesOnlyMatch(rows: seq<Task>, key: Task, newStatus: string, now: string, i: int)
    requires KeysUnique(rows)
    requires 0 <= i < |rows| && SameKey(rows[i], key)
    ensures forall j :: 0 <= j < |rows| && j != i ==> UpdateStatus(rows, key, newStatus, now)[j] == rows[j]
  {
  }

  /** A key that matches nothing, or an unrecognised status, leaves the table as it was. */
  lemma UpdateNoMatchIsNoop(rows: seq<Task>, key: Task, newStatus: string, now: string)
    requires !HasKey(rows, key) || (newStatus != STARTED && newStatus != COMPLETED)
    ensures UpdateStatus(rows, key, newStatus, now) == rows
  {
  }

  /** `DELETE FROM tasks WHERE task=? AND created_at=?` keyed by `key`. */
  function Deleted(rows: seq<Task>, key: Task): (r: seq<Task>)
    ensures |r| <= |rows|
  {
    if rows == [] then []
    else if SameKey(rows[0], key) then Deleted(rows[1..], key)
    else [rows[0]] + Deleted(rows[1..], key)
  }

  /** Exactly the rows without the key survive a delete. */
  lemma {:induction false} DeletedMembers(rows: seq<Task>, key: Task)
    ensures forall t :: t in Deleted(rows, key) <==> t in rows && !SameKey(t, key)
  {
    if rows != [] {
      DeletedMembers(rows[1..], key);
      assert rows == [rows[0]] + rows[1..];
    }
  }

  lemma {:induction false} DeletedAppend(a: seq<Task>, b: seq<Task>, key: Task)
    ensures Deleted(a + b, key) == Deleted(a, key) + Deleted(b, key)
  {
    if a == [] {
      assert a + b == b;
    } else {
      assert (a + b)[0] == a[0] && (a + b)[1..] == a[1..] + b;
      DeletedAppend(a[1..], b, key);
    }
  }

  /** Deleting an absent key changes nothing (and is not an error). */
  lemma {:induction false} DeletedAbsent(rows: seq<Task>, key: Task)
    requires !HasKey(rows, key)
    ensures Deleted(rows, key) == rows
  {
    if rows != [] {
      assert !SameKey(rows[0], key);
      assert !HasKey(rows[1..], key) by {
        forall i | 0 <= i < |rows[1..]| ensures !SameKey(rows[1..][i], key) {
          assert rows[1..][i] == rows[i + 1];
        }
      }
      DeletedAbsent(rows[1..], key);
    }
  }

  lemma DeletedSplice(before: seq<Task>, t: Task, after: seq<Task>, key: Task)
    requires !HasKey(before, key) && !HasKey(after, key) && SameKey(t, key)
    ensures Deleted(before + [t] + after, key) == before + after
  {
    DeletedAbsent(before, key);
    DeletedAbsent(after, key);
    assert Deleted([t], key) == [] by {
      assert [t][1..] == [];
    }
    DeletedAppend(before + [t], after, key);
    DeletedAppend(before, [t], key);
  }

  /** In a table with unique keys, deleting the key of row `i` removes exactly that row. */
  lemma DeletedExactlyOne(rows: seq<Task>, key: Task, i: int)
    requires KeysUnique(rows)
    requires 0 <= i < |rows| && SameKey(rows[i], key)
    ensures Deleted(rows, key) == rows[..i] + rows[i + 1..]
  {
    var before, after := rows[..i], rows[i + 1..];
    assert !HasKey(before, key) by {
      forall k | 0 <= k < i ensures !SameKey(before[k], key) {
        assert !SameKey(rows[k], rows[i]);
      }
    }
    assert !HasKey(after, key) by {
      forall k | 0 <= k < |after| ensures !SameKey(after[k], key) {
        assert after[k] == rows[i + 1 + k];
        assert !SameKey(rows[i], rows[i + 1 + k]);
      }
    }
    assert rows == before + [rows[i]] + after;
    DeletedSplice(before, rows[i], after, key);
  }

  /** Deleting never introduces duplicate keys. */
  lemma {:induction false} DeletedKeepsUnique(rows: seq<Task>, key: Task)
    requires KeysUnique(rows)
    ensures KeysUnique(Deleted(rows, key))
  {
    if rows != [] {
      var rest := rows[1..];
      assert KeysUnique(rest) by {
        forall i, j | 0 <= i < j < |rest| ensures !SameKey(rest[i], rest[j]) {
          assert rest[i] == rows[i + 1] && rest[j] == rows[j + 1];
        }
      }
      DeletedKeepsUnique(rest, key);
      DeletedMembers(rest, key);
      if !SameKey(rows[0], key) {
        var d := Deleted(rest, key);
        forall t | t in d ensures !SameKey(rows[0], t) {
          var k :| 0 <= k < |rest| && rest[k] == t;
          assert rows[k + 1] == t;
        }
        forall i, j | 0 <= i < j < |[rows[0]] + d|
          ensures !SameKey(([rows[0]] + d)[i], ([rows[0]] + d)[j])
        {
          if i == 0 {
            assert ([rows[0]] + d)[j] == d[j - 1];
            assert d[j - 1] in d;
          } else {
            assert ([rows[0]] + d)[i] == d[i - 1] && ([rows[0]] + d)[j] == d[j - 1];
          }
        }
      }
    }
  }
}

/**
 The task table as the application changes it: one object per open
 connection, whose rows every statement rewrites in place and commits at once.
 */
module TaskStore {
  import opened TaskRecords
  import opened TaskTransfer

  class TaskTable {
    /** The rows in scan order, which is insertion order. */
    var rows: seq<Task>

    /** The storage layer's UNIQUE(task, created_at) constraint. */
    ghost predicate Valid()
      reads this
    {
      KeysUnique(rows)
    }

    /** `init_db` on a new database file or ":memory:": the table exists and is empty. */
    constructor ()
      ensures Valid() && rows == []
    {
      rows := [];
    }

    /**
     A plain INSERT. `inserted` is false exactly when SQLite raises
     IntegrityError for a duplicate key, and then nothing is written.
     */
    method Insert(t: Task) returns (inserted: bool)
      requires Valid()
      modifies this
      ensures Valid()
      ensures inserted <==> !HasKey(old(rows), t)
      ensures rows == if inserted then old(rows) + [t] else old(rows)
    {
      inserted := !HasKey(rows, t);
      if inserted {
        AppendKeepsUnique(rows, t);
        rows := rows + [t];
      }
    }

    /**
     `add_task`: inserts a "Not Started" row stamped `now`, and returns
     true; a task of the same name added in the same second is refused
     (`added` false stands for the IntegrityError that escapes).
     */
    method AddTask(name: string, now: string) returns (added: bool)
      requires Valid()
      modifies this
      ensures Valid()
      ensures added <==> !HasKey(old(rows), NewTask(name, now))
      ensures added ==> rows == old(rows) + [Task(Some(name), Some(NOT_STARTED), Some(now), None, None)]
      ensures !added ==> rows == old(rows)
    {
      added := Insert(NewTask(name, now));
    }

    /** `INSERT OR IGNORE`: a row whose key is taken is dropped silently. */
    method InsertOrIgnore(t: Task)
      requires Valid()
      modifies this
      ensures Valid()
      ensures rows == TaskRecords.InsertOrIgnore(old(rows), t)
      ensures HasKey(old(rows), t) ==> rows == old(rows)
      ensures !HasKey(old(rows), t) ==> rows == old(rows) + [t]
    {
      rows := TaskRecords.InsertOrIgnore(rows, t);
    }

    /**
     `update_task_status`: the row keyed by (task_data[0], task_data[2]) is
     moved to `newStatus` with its timestamp set to `now`; every other row
     stays as it was.
     */
    method UpdateTaskStatus(taskData: Task, newStatus: string, now: string)
      requires Valid()
      modifies this
      ensures Valid()
      ensures rows == UpdateStatus(old(rows), taskData, newStatus, now)
      ensures forall i :: 0 <= i < |rows| && SameKey(old(rows)[i], taskData) ==>
        rows[i] == Transition(old(rows)[i], newStatus, now)
      ensures forall i :: 0 <= i < |rows| && !SameKey(old(rows)[i], taskData) ==> rows[i] == old(rows)[i]
    {
      UpdateKeepsUnique(rows, taskData, newStatus, now);
      rows := UpdateStatus(rows, taskData, newStatus, now);
    }

    /** `delete_task`: removes the row(s) keyed by (task_data[0], task_data[2]), keeping the others in order. */
    method DeleteTask(taskData: Task)
      requires Valid()
      modifies this
      ensures Valid()
      ensures rows == Deleted(old(rows), taskData)
      ensures forall t :: t in rows <==> t in old(rows) && !SameKey(t, taskData)
      ensures !HasKey(old(rows), taskData) ==> rows == old(rows)
    {
      DeletedKeepsUnique(rows, taskData);
      DeletedMembers(rows, taskData);
      if !HasKey(rows, taskData) {
        DeletedAbsent(rows, taskData);
      }
      rows := Deleted(rows, taskData);
    }

    /**
     The loop of `import_from_csv` over the data rows of a file with the given
     header: a blank row is skipped; the first non-blank row looks the five
     columns up, and a missing one raises KeyError (`missing`) before anything
     is inserted; otherwise each row is inserted or ignored.
     */
    method InsertRows(header: Row, data: Csv) returns (missing: Option<string>)
      requires Valid()
      modifies this
      ensures Valid()
      ensures HasColumns(header) ==> missing.None? && rows == ImportRows(old(rows), header, data)
      ensures !HasColumns(header) ==> rows == old(rows)
      ensures !HasColumns(header) ==> (missing.None? <==> AllBlank(data))
      ensures missing.Some? ==> missing == FirstMissing(COLUMNS, header)
    {
      missing := None;
      // The lookup of the five columns depends on the header alone.
      var absent := FirstMissing(COLUMNS, header);
      var i := 0;
      while i < |data|
        invariant 0 <= i <= |data|
        invariant Valid()
        invariant absent.None? ==> rows == ImportRows(old(rows), header, data[..i])
        invariant absent.Some? ==> rows == old(rows) && AllBlank(data[..i])
      {
        var row := data[i];
        assert data[..i + 1] == data[..i] + [row];
        if row != [] {
          if absent.Some? {
            missing := absent;
            return;
          }
          InsertOrIgnore(RowTask(header, row));
        }
        if absent.None? {
          ImportRowsStep(old(rows), header, data[..i], row);
        }
        i := i + 1;
      }
      assert data[..i] == data;
    }

    /**
     `import_from_csv`: reads the header, then the data rows one at a time,
     inserting each with INSERT OR IGNORE. `missing` names the column whose
     lookup raised KeyError; that happens on the first non-blank row, so
     nothing has been inserted by then.
     */
    method ImportFromCsv(csv: Csv) returns (missing: Option<string>)
      requires Valid()
      modifies this
      ensures Valid()
      ensures missing.Some? ==> rows == old(rows)
      ensures ImportCsv(old(rows), csv) == if missing.None? then Imported(rows) else KeyError(missing.value)
    {
      missing := None;
      if csv != [] {
        ImportCsvOutcome(rows, csv);
        missing := InsertRows(csv[0], csv[1..]);
      }
    }
  }
}

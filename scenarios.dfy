/**
 Client-side scenarios of the test suite, proved from the table's
 contracts alone: each starts from a fresh in-memory database.
 */
module TaskScenarios {
  import opened TaskRecords
  import opened TaskTransfer
  import opened TaskStore

  /** Adding the same task twice within one second: the second insert is refused. */
  method AddTwiceInOneSecond(name: string, now: string) returns (first: bool, second: bool, count: nat)
    ensures first && !second && count == 1
  {
    var table := new TaskTable();
    first := table.AddTask(name, now);
    assert SameKey(table.rows[0], NewTask(name, now));
    second := table.AddTask(name, now);
    count := |table.rows|;
  }

  /** Start a new task, then complete it: both stamps are set and the status is "Completed". */
  method StartThenComplete(name: string, created: string, started: string, completed: string)
    returns (row: Task)
    ensures row.task == Some(name) && row.createdAt == Some(created)
    ensures row.status == Some(COMPLETED)
    ensures row.startedAt == Some(started) && row.completedAt == Some(completed)
  {
    var table := new TaskTable();
    var added := table.AddTask(name, created);
    var fetched := table.rows[0];
    table.UpdateTaskStatus(fetched, STARTED, started);
    fetched := table.rows[0];
    table.UpdateTaskStatus(fetched, COMPLETED, completed);
    row := table.rows[0];
  }

  /** Add a task, export, import the file into an empty table: the task comes back. */
  method CsvWorkflow(name: string, now: string) returns (row: Task, missing: Option<string>)
    ensures missing.None?
    ensures row.task == Some(name) && row.status == Some(NOT_STARTED) && row.createdAt == Some(now)
  {
    var table := new TaskTable();
    var added := table.AddTask(name, now);
    var csv := ExportToCsv(table.rows);
    var restored := new TaskTable();
    ExportImportRoundTrip(table.rows);
    missing := restored.ImportFromCsv(csv);
    row := restored.rows[0];
  }
}

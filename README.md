# Task table of the todo application, modelled in Dafny

The todo application keeps its tasks in one SQLite table, `tasks`. Each row
holds five TEXT columns: `task`, `status`, `created_at`, `started_at` and
`completed_at`. The pair `(task, created_at)` is declared UNIQUE. The
application inserts a "Not Started" row for a new task. It stamps a status
and a timestamp on the row with a given key, deletes rows by key, and exports
the whole table to a CSV file. It imports such a file with INSERT OR IGNORE
and counts rows by status for its menu.

The model has five modules:

- `TaskRecords` (`records.dfy`) holds the row datatype. Every column is a
  `Cell`: SQL NULL (`None`) or text. The module also has the natural key with
  SQLite's NULL semantics. NULL never equals anything, in a WHERE clause or
  under UNIQUE. The table updates are written as functions on the rows in
  scan order, together with their lemmas.
- `TaskTransfer` (`transfer.dfy`) holds the CSV export, a model of how a
  dictionary reader looks up columns, and the import as a specification
  function. It also has the lemmas on import: uniqueness is preserved, the
  import is idempotent, and exporting then importing gives the rows back.
- `TaskStore` (`store.dfy`) holds the class `TaskTable`. It keeps the rows in
  a `seq` field, and each method rewrites that field as the SQL statement
  does. `ImportFromCsv` loops over the data rows the way the source does.
- `TaskStats` (`stats.dfy`) holds the status filters of the views and
  `get_task_stats`.
- `TaskScenarios` (`scenarios.dfy`) holds the test-suite workflows as client
  methods, proved from the class contracts alone.

The current time (`datetime.now()`) is a parameter `now`, and timestamps are
opaque strings. A CSV file is a sequence of rows, each a sequence of fields.
The header comes first.

## Model

| member | source | states |
|---|---|---|
| TaskRecords.NewTask | todo.py:58-61 | the inserted row is `(name, "Not Started", now, NULL, NULL)` and has a complete key |
| TaskRecords.AppendKeepsUnique | todo.py:20-22 | appending a row whose key is absent keeps `(task, created_at)` unique |
| TaskRecords.InsertOrIgnore | todo.py:90-91 | INSERT OR IGNORE keeps existing rows as a prefix and adds at most one row. A taken key changes nothing. Afterwards a complete key is present, and uniqueness is preserved |
| TaskRecords.Transition | todo.py:66-73 | "Started" sets status and started_at and keeps completed_at. "Completed" sets status and completed_at and keeps started_at. Any other status changes nothing. The key never changes, and the old status is not consulted |
| TaskRecords.UpdateStatus | todo.py:69-73 | the UPDATE keeps the table's length and never changes any row's task or created_at. Every row matching the key becomes its `Transition` (status and the matching timestamp set), and every other row stays as it was |
| TaskRecords.UpdateKeepsUnique | todo.py:66-74 | a status update preserves the UNIQUE(task, created_at) invariant |
| TaskRecords.UpdateChangesOnlyMatch | todo.py:69-73 | with unique keys, an update keyed by row i leaves every other row unchanged |
| TaskRecords.UpdateNoMatchIsNoop | todo.py:66-74 | an unrecognised status or an absent key leaves the table unchanged |
| TaskRecords.Deleted | todo.py:76-78 | DELETE never lengthens the table |
| TaskRecords.DeletedMembers | todo.py:76-78 | a row survives a delete exactly when it is in the table and does not match the key |
| TaskRecords.DeletedAppend | todo.py:76-78 | DELETE acts on each part of the table separately, so the order of the kept rows is preserved |
| TaskRecords.DeletedAbsent | todo.py:76-78 | deleting an absent key changes nothing and does not fail |
| TaskRecords.DeletedExactlyOne | todo.py:76-78 | with unique keys, deleting the key of row i yields the table without row i, in order |
| TaskRecords.DeletedKeepsUnique | todo.py:76-78 | deleting preserves the UNIQUE(task, created_at) invariant |
| TaskTransfer.CellText | todo.py:84 | the writer writes text as it is and `None` as an empty field; `ReadBackRow` is its partner |
| TaskTransfer.TaskRow | todo.py:84 | an exported row has exactly five fields |
| TaskTransfer.ExportToCsv | todo.py:80-84 | the file is the header `task,status,created_at,started_at,completed_at` followed by one five-field row per task |
| TaskTransfer.FirstMissing | todo.py:90-91 | the column whose lookup raises KeyError is the first absent one in lookup order, and there is none exactly when all are present |
| TaskTransfer.LastIndexOf | todo.py:88-91 | the result is a header position holding the name, and no later position holds it |
| TaskTransfer.Field | todo.py:88-91 | a looked-up value is one of the row's fields, and a row at least as long as the header never yields `None` |
| TaskTransfer.FieldReadsColumn | todo.py:88-91 | `row[name]` is `None` exactly when some header position holding `name` lies past the end of the row (the restval fill). Otherwise it is the field under the last header position holding `name` |
| TaskTransfer.RowTask | todo.py:90-91 | a row at least as long as the header gives a task with no NULL column, and the task name comes from the row |
| TaskTransfer.RowTaskColumns | todo.py:88-91 | each of the five values bound to the INSERT is the reader's value under its own column name, by the rule of `FieldReadsColumn`, whatever the order, repetition or extra columns of the header |
| TaskTransfer.ImportRow | todo.py:89-91 | a blank row is skipped; any other row leaves the table as a prefix and adds at most the row read from it |
| TaskTransfer.ImportRows | todo.py:89-91 | the loop adds at most one row per data row and never shrinks the table |
| TaskTransfer.ImportCsv | todo.py:86-92 | an empty file imports nothing. A KeyError is raised exactly when the header lacks one of the five columns and some data row is non-blank. It names the first absent column in lookup order. A successful import keeps the old rows as a prefix and adds at most one row per data line |
| TaskTransfer.ImportCsvOutcome | todo.py:86-92 | a non-empty file with all five columns imports every data row in turn. With a column missing, it imports nothing if every data row is blank, and otherwise raises KeyError for the first missing column |
| TaskTransfer.ImportRowsExtends | todo.py:89-91 | import never alters or reorders rows already in the table |
| TaskTransfer.ImportRowsKeepsUnique | todo.py:89-91 | each INSERT OR IGNORE of the loop keeps the keys unique |
| TaskTransfer.ImportCsvKeepsUnique | todo.py:86-92 | a successful import preserves the UNIQUE(task, created_at) invariant |
| TaskTransfer.ImportRowsCovers | todo.py:89-91 | after an import, the key of every non-blank data row with both key fields is in the table |
| TaskTransfer.ImportRowsPresentNoop | todo.py:89-91 | data rows whose keys are all present are skipped, and the table is unchanged |
| TaskTransfer.ImportCsvIdempotent | todo.py:86-92 | importing the same file twice gives the same table as importing it once, when no data row is short of a key field |
| TaskTransfer.ShortRowImportedTwice | todo.py:88-91 | a one-field data row, whatever its text, is stored with a NULL key, and a second import of the same file duplicates it |
| TaskTransfer.NullKeyRowsMergeOnRoundTrip | todo.py:80-92 | a row with a NULL created_at may be stored twice under the UNIQUE constraint, yet export followed by import gives back only one copy |
| TaskTransfer.Normalize | todo.py:83-84 | after a CSV round trip every column is non-NULL |
| TaskTransfer.ColumnPositions | todo.py:83 | the exported header holds every looked-up column, each at its own position |
| TaskTransfer.ReadBackRow | todo.py:84-91 | reading an exported row back gives the row with NULLs turned into empty text |
| TaskTransfer.ImportExportedRows | todo.py:80-92 | when every row has both key fields and the keys are unique, importing the exported data rows into an empty table rebuilds the normalized rows, in order |
| TaskTransfer.ExportImportRoundTrip | todo.py:80-92 | when every row has both key fields (task and created_at not NULL) and the keys are unique, export followed by import into an empty table succeeds and restores every row in order. Task, status and created_at come back unchanged, and NULLs come back as empty text |
| TaskTransfer.ReimportExportNoop | todo.py:80-92 | when every row has both key fields, importing the exported file back into the table it came from changes nothing |
| TaskTransfer.NullKeyRowReimportedTwice | todo.py:80-92 | a row with a NULL created_at comes back from its own exported file with the key `(task, "")`, which is new, so re-importing the file into the same table adds a second, normalized copy |
| TaskTransfer.ExportImportExact | todo.py:80-92 | a table with unique keys and no NULLs survives export and import unchanged, at the level of fields (see Left out on line endings) |
| TaskStore.TaskTable.constructor | todo.py:17-24 | a new database has an empty table satisfying the uniqueness invariant |
| TaskStore.TaskTable.Insert | todo.py:61 | a plain INSERT appends the row exactly when its key is absent; otherwise it fails with the table unchanged |
| TaskStore.TaskTable.AddTask | todo.py:58-63 | adding appends exactly `(name, "Not Started", now, NULL, NULL)` and leaves other rows unchanged. A same-name, same-second duplicate is refused and writes nothing |
| TaskStore.TaskTable.InsertOrIgnore | todo.py:90-91 | a row with a taken key is dropped; otherwise it is appended |
| TaskStore.TaskTable.UpdateTaskStatus | todo.py:66-74 | rows matching `(task_data[0], task_data[2])` get the transition, and all others are unchanged |
| TaskStore.TaskTable.DeleteTask | todo.py:76-78 | exactly the rows not matching the key remain. An absent key leaves the table unchanged |
| TaskStore.TaskTable.InsertRows | todo.py:89-91 | with all five columns the loop leaves the table as `ImportRows`. With a column missing it writes nothing, and raises KeyError for the first missing column exactly when some data row is non-blank |
| TaskStore.TaskTable.ImportFromCsv | todo.py:86-92 | reading the header and then looping over the data rows computes `ImportCsv`. On KeyError it names the missing column and the table is unchanged. The invariant holds throughout |
| TaskStats.StatusFilter | todo.py:108-112 | the filtered view holds each row with that status as many times as the list does, and no other row |
| TaskStats.StatusFilterAppend | todo.py:118 | filtering distributes over concatenation, so the view keeps the list's order, which callers index by position |
| TaskStats.CountStatus | todo.py:177-179 | a count never exceeds the list length and is zero exactly when no row has that status; `CountIsFilterLength` ties it to the view |
| TaskStats.CountIsFilterLength | todo.py:177-179 | each generator count equals the length of the matching filtered view |
| TaskStats.GetTaskStats | todo.py:174-180 | total is the list length; completed, pending and in_progress are the lengths of the "Completed", "Not Started" and "Started" views |
| TaskStats.CountsAddUp | todo.py:177-179 | the three counts sum to at most the list length, and to exactly it when every status is one of the three |
| TaskStats.StatsAddUp | todo.py:174-180 | completed + pending + in_progress never exceeds total, and equals it exactly when every row has one of the three statuses |
| TaskScenarios.AddTwiceInOneSecond | test_todo.py:72-80 | a second add with the same name in the same second is refused, and one row remains |
| TaskScenarios.StartThenComplete | test_todo.py:54-63 | starting then completing a new task leaves status "Completed" with both timestamps set |
| TaskScenarios.CsvWorkflow | test_todo.py:83-100 | after export and import into an empty table, the task comes back "Not Started" with its creation time |

## Behaviour of the program worth knowing

- A data row shorter than the header does not fail the import. It is stored
  with NULLs in its missing columns, because the dictionary reader fills
  them with `None`. A row with a NULL key never collides, so importing such
  a file twice stores those rows twice (`ShortRowImportedTwice`).
- The only import failure is a header that lacks one of the five column
  names. It raises `KeyError` at the first non-blank data row, before
  anything is inserted.
- Export writes `None` as an empty field, and import stores it back as empty
  text, not NULL.
- Rows with a NULL created_at (which only a short import row produces) may
  share a task name. After export and import they share the key
  `(name, "")`, so only the first comes back (`NullKeyRowsMergeOnRoundTrip`).
  The round trip therefore holds for tables whose rows all have both key
  fields.
- Importing an exported file back into the table it came from changes
  nothing when every row has both key fields (`ReimportExportNoop`). A row
  with a NULL created_at breaks this: its exported copy reads back with the
  key `(name, "")`, so the re-import adds a second row
  (`NullKeyRowReimportedTwice`).
- The CSV header is the five column names, once each.
- A duplicate `add_task` raises SQLite's IntegrityError from the INSERT,
  and nothing catches it. `import_from_csv` returns nothing, not a count.

## Left out

- `login` and the credential check: they read environment variables and call
  a bcrypt comparison, which is foreign code.
- `clear_screen`, `print_table` (including the duration computed with
  `strptime`) and `show_menu`: these are terminal output only.
- The `handle_*` functions and `main`: they are interactive `input()` loops
  and menu dispatch. The filters they use are modelled in `TaskStats`.
- The SQLite connection, cursor and `commit`, and the file `open` calls. The
  table is the object's state, and a file is its sequence of rows.
- CSV quoting, escaping and line splitting by Python's `csv` module.
  `import_from_csv` opens the file without `newline=""`, so a carriage
  return inside a field comes back as a line feed; the round-trip lemmas
  hold at the level of fields and do not capture this. Extra
  fields beyond the header (the reader's `restkey`) are never looked up, so
  they are ignored.
- `datetime.now()` is the parameter `now`. Timestamps are opaque strings, so
  orderings such as "started_at is not before created_at" are not modelled.
  The clock is not part of this model.
- `init_db` on an existing database file, where CREATE TABLE IF NOT EXISTS
  keeps the stored rows. The constructor models a new file or `:memory:`.
- Scan order: `SELECT *` without ORDER BY is taken to return rows in
  insertion (rowid) order.
- I/O failures during export or import (missing file, permission denied).
  They propagate out of the source unhandled.

/**
 CSV export and import of the task table. A CSV file is a sequence of rows of
 fields (quoting and line splitting belong to the CSV library and are not
 modelled). Export writes a header and one row per task; import reads the file
 the way a dictionary reader does (the first row names the columns) and feeds
 every data row to INSERT OR IGNORE.
 */
module TaskTransfer {
  import opened TaskRecords

  type Row = seq<string>
  type Csv = seq<Row>

  /** The header `export_to_csv` writes and the keys `import_from_csv` looks up, in that order. */
  const COLUMNS: Row := ["task", "status", "created_at", "started_at", "completed_at"]

  /** The CSV writer writes `None` as an empty field and text as it is. */
  function CellText(c: Cell): (s: string)
    ensures c.Some? ==> s == c.value
    ensures c.None? ==> s == ""
  {
    if c.Some? then c.value else ""
  }

  function TaskRow(t: Task): (r: Row)
    ensures |r| == |COLUMNS|
  {
    [CellText(t.task), CellText(t.status), CellText(t.createdAt), CellText(t.startedAt), CellText(t.completedAt)]
  }

  /** `export_to_csv`: the header, then one row per task in the order given. */
  function ExportToCsv(rows: seq<Task>): (csv: Csv)
    ensures |csv| == |rows| + 1 && csv[0] == COLUMNS
    ensures forall k :: 1 <= k < |csv| ==> |csv[k]| == |COLUMNS|
  {
    [COLUMNS] + seq(|rows|, i requires 0 <= i < |rows| => TaskRow(rows[i]))
  }

  /** Every column that import looks up is present in the header. */
  predicate HasColumns(header: Row) {
    forall c :: c in COLUMNS ==> c in header
  }

  /**
   The first of `wanted` absent from `header`: the key whose lookup raises
   KeyError, since the five lookups are evaluated left to right.
   */
  function FirstMissing(wanted: Row, header: Row): (m: Option<string>)
    ensures m.None? <==> forall c :: c in wanted ==> c in header
    ensures m.Some? ==> m.value !in header
    ensures m.Some? ==> exists k :: (0 <= k < |wanted| && wanted[k] == m.value &&
                                     forall j :: 0 <= j < k ==> wanted[j] in header)
  {
    if wanted == [] then None
    else if wanted[0] !in header then Some(wanted[0])
    else
      var m := FirstMissing(wanted[1..], header);
      assert forall c :: c in wanted <==> c == wanted[0] || c in wanted[1..];
      if m.Some? then
        var k :| 0 <= k < |wanted[1..]| && wanted[1..][k] == m.value &&
                 (forall j :: 0 <= j < k ==> wanted[1..][j] in header);
        assert wanted[k + 1] == m.value;
        assert forall j :: 0 <= j < k + 1 ==> wanted[j] in header by {
          forall j | 0 <= j < k + 1 ensures wanted[j] in header {
            if j > 0 { assert wanted[j] == wanted[1..][j - 1]; }
          }
        }
        m
      else
        m
  }

  /**
   The position a dictionary reader takes a column's value from: with a
   repeated header name the last occurrence wins.
   */
  function LastIndexOf(header: Row, name: string): (k: nat)
    requires name in header
    ensures k < |header| && header[k] == name
    ensures forall j :: k < j < |header| ==> header[j] != name
  {
    if header[|header| - 1] == name then |header| - 1
    else
      assert name in header[..|header| - 1] by {
        var i :| 0 <= i < |header| && header[i] == name;
        assert header[..|header| - 1][i] == name;
      }
      LastIndexOf(header[..|header| - 1], name)
  }

  /**
   The value a dictionary reader holds under `name` for `row`: the fields are
   paired with the header positions, a later position overwriting an earlier
   one with the same name, and positions past the end of the row are filled
   with `None` (its restval).
   */
  predicate ReaderValue(header: Row, row: Row, name: string, c: Cell) {
    && (c.None? <==> exists k :: |row| <= k < |header| && header[k] == name)
    && (c.Some? ==> exists k :: (0 <= k < |row| && k < |header| && header[k] == name && row[k] == c.value &&
                                 forall j :: k < j < |header| ==> header[j] != name))
  }

  /** `row[name]` of a dictionary reader: `None` (its restval) when the row is too short. */
  function Field(header: Row, row: Row, name: string): (c: Cell)
    requires name in header
    ensures c.Some? ==> c.value in row
    ensures |row| >= |header| ==> c.Some?
  {
    var k := LastIndexOf(header, name);
    if k < |row| then Some(row[k]) else None
  }

  /** The lookup follows the reader's rule: restval fill, and the last header position wins. */
  lemma FieldReadsColumn(header: Row, row: Row, name: string)
    requires name in header
    ensures ReaderValue(header, row, name, Field(header, row, name))
  {
    var k := LastIndexOf(header, name);
    if k < |row| {
      assert forall j :: |row| <= j < |header| ==> header[j] != name;
    }
  }

  lemma ColumnsPresent(header: Row)
    requires HasColumns(header)
    ensures "task" in header && "status" in header && "created_at" in header
    ensures "started_at" in header && "completed_at" in header
  {
  }

  /** The values bound to the INSERT OR IGNORE for one data row. */
  function RowTask(header: Row, row: Row): (t: Task)
    requires HasColumns(header)
    ensures |row| >= |header| ==>
      t.task.Some? && t.status.Some? && t.createdAt.Some? && t.startedAt.Some? && t.completedAt.Some?
    ensures t.task.Some? ==> t.task.value in row
  {
    ColumnsPresent(header);
    Task(Field(header, row, "task"), Field(header, row, "status"), Field(header, row, "created_at"),
         Field(header, row, "started_at"), Field(header, row, "completed_at"))
  }

  /** Each column of the task read from a data row is the reader's value under that column's name. */
  lemma RowTaskColumns(header: Row, row: Row)
    requires HasColumns(header)
    ensures var t := RowTask(header, row);
      && ReaderValue(header, row, "task", t.task) && ReaderValue(header, row, "status", t.status)
      && ReaderValue(header, row, "created_at", t.createdAt)
      && ReaderValue(header, row, "started_at", t.startedAt)
      && ReaderValue(header, row, "completed_at", t.completedAt)
  {
    ColumnsPresent(header);
    FieldReadsColumn(header, row, "task");
    FieldReadsColumn(header, row, "status");
    FieldReadsColumn(header, row, "created_at");
    FieldReadsColumn(header, row, "started_at");
    FieldReadsColumn(header, row, "completed_at");
  }

  /** One data row: a blank row is skipped by the reader; any other is inserted or ignored. */
  function ImportRow(table: seq<Task>, header: Row, row: Row): (r: seq<Task>)
    requires HasColumns(header)
    ensures row == [] ==> r == table
    ensures |table| <= |r| <= |table| + 1 && r[..|table|] == table
    ensures row != [] && |r| == |table| + 1 ==> r[|table|] == RowTask(header, row)
  {
    if row == [] then table else InsertOrIgnore(table, RowTask(header, row))
  }

  /** The data rows in file order (the last row is applied last). */
  function ImportRows(table: seq<Task>, header: Row, data: Csv): (r: seq<Task>)
    requires HasColumns(header)
    ensures |table| <= |r| <= |table| + |data|
    decreases |data|
  {
    if data == [] then table
    else ImportRow(ImportRows(table, header, data[..|data| - 1]), header, data[|data| - 1])
  }

  /** One more data row is one more step of the fold. */
  lemma ImportRowsSnoc(table: seq<Task>, header: Row, data: Csv, row: Row)
    requires HasColumns(header)
    ensures ImportRows(table, header, data + [row]) == ImportRow(ImportRows(table, header, data), header, row)
  {
    assert (data + [row])[..|data|] == data;
  }

  /** One more data row: skipped when blank, otherwise inserted or ignored. */
  lemma ImportRowsStep(table: seq<Task>, header: Row, data: Csv, row: Row)
    requires HasColumns(header)
    ensures row == [] ==> ImportRows(table, header, data + [row]) == ImportRows(table, header, data)
    ensures row != [] ==>
      ImportRows(table, header, data + [row]) == InsertOrIgnore(ImportRows(table, header, data), RowTask(header, row))
  {
    ImportRowsSnoc(table, header, data, row);
  }

  predicate AllBlank(data: Csv) {
    forall k :: 0 <= k < |data| ==> data[k] == []
  }

  datatype ImportResult = Imported(table: seq<Task>) | KeyError(column: string)

  /**
   `import_from_csv` on a table: an empty file imports nothing; a header
   lacking one of the five columns raises KeyError at the first non-blank
   data row, before anything is inserted; otherwise every row is inserted
   or ignored.
   */
  function ImportCsv(table: seq<Task>, csv: Csv): (r: ImportResult)
    ensures csv == [] ==> r == Imported(table)
    ensures r.KeyError? ==> csv != [] && r.column in COLUMNS && r.column !in csv[0] && !AllBlank(csv[1..])
    ensures r.KeyError? ==> Some(r.column) == FirstMissing(COLUMNS, csv[0])
    ensures csv != [] && !HasColumns(csv[0]) && !AllBlank(csv[1..]) ==> r.KeyError?
    ensures r.Imported? ==> |table| <= |r.table| && r.table[..|table|] == table
    ensures r.Imported? && csv != [] ==> |r.table| <= |table| + |csv| - 1
  {
    if csv == [] then Imported(table)
    else
      var missing := FirstMissing(COLUMNS, csv[0]);
      if missing.None? then
        ImportRowsExtends(table, csv[0], csv[1..]);
        Imported(ImportRows(table, csv[0], csv[1..]))
      else if AllBlank(csv[1..]) then Imported(table)
      else KeyError(missing.value)
  }

  /** The three outcomes of an import of a non-empty file, by its header and data rows. */
  lemma ImportCsvOutcome(table: seq<Task>, csv: Csv)
    requires csv != []
    ensures HasColumns(csv[0]) ==> ImportCsv(table, csv) == Imported(ImportRows(table, csv[0], csv[1..]))
    ensures !HasColumns(csv[0]) && AllBlank(csv[1..]) ==> ImportCsv(table, csv) == Imported(table)
    ensures !HasColumns(csv[0]) && !AllBlank(csv[1..]) ==>
      FirstMissing(COLUMNS, csv[0]).Some? && ImportCsv(table, csv) == KeyError(FirstMissing(COLUMNS, csv[0]).value)
  {
  }

  /** Rows already in the table are never altered or reordered by an import. */
  lemma {:induction false} ImportRowsExtends(table: seq<Task>, header: Row, data: Csv)
    requires HasColumns(header)
    ensures |table| <= |ImportRows(table, header, data)|
    ensures ImportRows(table, header, data)[..|table|] == table
  {
    if data != [] {
      var prev := ImportRows(table, header, data[..|data| - 1]);
      ImportRowsExtends(table, header, data[..|data| - 1]);
      var next := ImportRow(prev, header, data[|data| - 1]);
      assert next[..|prev|] == prev;
      assert next[..|table|] == prev[..|prev|][..|table|];
    }
  }

  /** Import never breaks UNIQUE(task, created_at). */
  lemma {:induction false} ImportRowsKeepsUnique(table: seq<Task>, header: Row, data: Csv)
    requires HasColumns(header) && KeysUnique(table)
    ensures KeysUnique(ImportRows(table, header, data))
  {
    if data != [] {
      ImportRowsKeepsUnique(table, header, data[..|data| - 1]);
    }
  }

  lemma ImportCsvKeepsUnique(table: seq<Task>, csv: Csv)
    requires KeysUnique(table)
    ensures ImportCsv(table, csv).Imported? ==> KeysUnique(ImportCsv(table, csv).table)
  {
    if csv != [] && FirstMissing(COLUMNS, csv[0]).None? {
      ImportRowsKeepsUnique(table, csv[0], csv[1..]);
    }
  }

  /** A data row carries both halves of the key (it is long enough for task and created_at). */
  predicate RowHasKey(header: Row, row: Row)
    requires HasColumns(header)
  {
    SameKey(RowTask(header, row), RowTask(header, row))
  }

  /** No non-blank data row is short of a key field. */
  predicate KeyedRows(csv: Csv) {
    csv != [] && HasColumns(csv[0]) ==>
      forall k :: 1 <= k < |csv| && csv[k] != [] ==> RowHasKey(csv[0], csv[k])
  }

  lemma PrefixKeepsKey(table: seq<Task>, bigger: seq<Task>, t: Task)
    requires |table| <= |bigger| && bigger[..|table|] == table
    requires HasKey(table, t)
    ensures HasKey(bigger, t)
  {
  }

  /** After an import, the key of every keyed non-blank row is in the table. */
  lemma {:induction false} ImportRowsCovers(table: seq<Task>, header: Row, data: Csv, k: int)
    requires HasColumns(header)
    requires 0 <= k < |data| && data[k] != [] && RowHasKey(header, data[k])
    ensures HasKey(ImportRows(table, header, data), RowTask(header, data[k]))
  {
    var n := |data| - 1;
    var prev := ImportRows(table, header, data[..n]);
    var next := ImportRows(table, header, data);
    if k == n {
      assert next == InsertOrIgnore(prev, RowTask(header, data[k]));
    } else {
      assert data[..n][k] == data[k];
      ImportRowsCovers(table, header, data[..n], k);
      PrefixKeepsKey(prev, next, RowTask(header, data[k]));
    }
  }

  /** Rows whose keys are all present already change nothing. */
  lemma {:induction false} ImportRowsPresentNoop(table: seq<Task>, header: Row, data: Csv)
    requires HasColumns(header)
    requires forall k :: 0 <= k < |data| && data[k] != [] ==> HasKey(table, RowTask(header, data[k]))
    ensures ImportRows(table, header, data) == table
  {
    if data != [] {
      var n := |data| - 1;
      forall k | 0 <= k < n && data[..n][k] != []
        ensures HasKey(table, RowTask(header, data[..n][k]))
      {
        assert data[..n][k] == data[k];
      }
      ImportRowsPresentNoop(table, header, data[..n]);
    }
  }

  /**
   Importing the same file a second time leaves the table unchanged,
   provided no data row is short of a key field.
   */
  lemma ImportCsvIdempotent(table: seq<Task>, csv: Csv)
    requires KeyedRows(csv)
    requires ImportCsv(table, csv).Imported?
    ensures ImportCsv(ImportCsv(table, csv).table, csv) == ImportCsv(table, csv)
  {
    if csv != [] && FirstMissing(COLUMNS, csv[0]).None? {
      var header, data := csv[0], csv[1..];
      var once := ImportRows(table, header, data);
      forall k | 0 <= k < |data| && data[k] != []
        ensures HasKey(once, RowTask(header, data[k]))
      {
        assert data[k] == csv[k + 1];
        ImportRowsCovers(table, header, data, k);
      }
      ImportRowsPresentNoop(once, header, data);
    }
  }

  /** A file of the exported header and one non-blank data row inserts or ignores that row. */
  lemma ImportOneRow(table: seq<Task>, row: Row)
    requires row != []
    ensures HasColumns(COLUMNS)
    ensures ImportCsv(table, [COLUMNS, row]) == Imported(InsertOrIgnore(table, RowTask(COLUMNS, row)))
  {
    ImportUnderColumns(table, [COLUMNS, row]);
    ImportRowsSnoc(table, COLUMNS, [], row);
    assert [COLUMNS, row][1..] == [] + [row];
  }

  lemma ShortRowTask(name: string)
    ensures HasColumns(COLUMNS) && RowTask(COLUMNS, [name]) == Task(Some(name), None, None, None, None)
  {
    ColumnPositions();
  }

  /** A short data row gets a NULL key, which never collides, so a second import duplicates it. */
  lemma ShortRowImportedTwice(name: string)
    ensures var row := Task(Some(name), None, None, None, None);
      ImportCsv([], [COLUMNS, [name]]) == Imported([row]) &&
      ImportCsv([row], [COLUMNS, [name]]) == Imported([row, row])
  {
    var row := Task(Some(name), None, None, None, None);
    ShortRowTask(name);
    ImportOneRow([], [name]);
    ImportOneRow([row], [name]);
    assert !HasKey([row], row);
  }

  /**
   A row with a NULL created_at may be stored twice, since NULL keys never
   collide; once exported both copies read back with the same key, and the
   second is ignored.
   */
  lemma NullKeyRowsMergeOnRoundTrip(row: Task)
    requires row.createdAt.None?
    ensures KeysUnique([row, row])
    ensures ImportCsv([], ExportToCsv([row, row])) == Imported([Normalize(row)])
  {
    var line := TaskRow(row);
    assert ExportToCsv([row, row]) == [COLUMNS, line, line];
    ImportUnderColumns([], [COLUMNS, line, line]);
    ReadBackRow(row);
    ImportRowsSnoc([], COLUMNS, [], line);
    ImportRowsSnoc([], COLUMNS, [line], line);
    assert [COLUMNS, line, line][1..] == [] + [line] + [line];
    assert SameKey([Normalize(row)][0], Normalize(row));
  }

  /** What a row looks like once it has been through a CSV file: NULLs come back as empty text. */
  function Normalize(t: Task): (u: Task)
    ensures u.task.Some? && u.status.Some? && u.createdAt.Some? && u.startedAt.Some? && u.completedAt.Some?
  {
    Task(Some(CellText(t.task)), Some(CellText(t.status)), Some(CellText(t.createdAt)),
         Some(CellText(t.startedAt)), Some(CellText(t.completedAt)))
  }

  function Normalized(rows: seq<Task>): seq<Task> {
    seq(|rows|, i requires 0 <= i < |rows| => Normalize(rows[i]))
  }

  lemma NormalizedKeepsKeys(rows: seq<Task>)
    requires KeysPresent(rows)
    ensures forall i :: 0 <= i < |rows| ==>
      var u := Normalized(rows)[i];
      u.task == rows[i].task && u.createdAt == rows[i].createdAt &&
      u.status == Some(CellText(rows[i].status))
  {
  }

  /** A file whose header is the exported one is imported row by row. */
  lemma ImportUnderColumns(table: seq<Task>, csv: Csv)
    requires csv != [] && csv[0] == COLUMNS
    ensures HasColumns(COLUMNS)
    ensures ImportCsv(table, csv) == Imported(ImportRows(table, COLUMNS, csv[1..]))
  {
    ColumnPositions();
  }

  lemma ColumnPositions()
    ensures HasColumns(COLUMNS)
    ensures LastIndexOf(COLUMNS, "task") == 0 && LastIndexOf(COLUMNS, "status") == 1
    ensures LastIndexOf(COLUMNS, "created_at") == 2 && LastIndexOf(COLUMNS, "started_at") == 3
    ensures LastIndexOf(COLUMNS, "completed_at") == 4
  {
  }

  /** Reading back an exported row gives the row with its NULLs turned into empty text. */
  lemma ReadBackRow(t: Task)
    ensures HasColumns(COLUMNS) && RowTask(COLUMNS, TaskRow(t)) == Normalize(t)
  {
  }

  /** Every row has both halves of its key. */
  predicate KeysPresent(rows: seq<Task>) {
    forall i :: 0 <= i < |rows| ==> SameKey(rows[i], rows[i])
  }

  lemma ExportedPrefix(rows: seq<Task>, n: nat)
    requires n <= |rows|
    ensures ExportToCsv(rows)[1..][..n] == ExportToCsv(rows[..n])[1..]
  {
  }

  lemma NormalizedSnoc(rows: seq<Task>)
    requires rows != []
    ensures Normalized(rows) == Normalized(rows[..|rows| - 1]) + [Normalize(rows[|rows| - 1])]
  {
  }

  lemma {:induction false} ImportExportedRows(rows: seq<Task>)
    requires KeysUnique(rows) && KeysPresent(rows)
    ensures HasColumns(COLUMNS)
    ensures ImportRows([], COLUMNS, ExportToCsv(rows)[1..]) == Normalized(rows)
  {
    ColumnPositions();
    var data := ExportToCsv(rows)[1..];
    if rows != [] {
      var n := |rows| - 1;
      var front := rows[..n];
      assert KeysUnique(front) && KeysPresent(front);
      ImportExportedRows(front);
      ExportedPrefix(rows, n);
      var prev := Normalized(front);
      assert ImportRows([], COLUMNS, data[..n]) == prev;
      ReadBackRow(rows[n]);
      assert data[n] == TaskRow(rows[n]) && data[n] != [];
      assert !HasKey(prev, Normalize(rows[n])) by {
        forall i | 0 <= i < n ensures !SameKey(prev[i], Normalize(rows[n])) {
          assert !SameKey(rows[i], rows[n]);
        }
      }
      assert ImportRows([], COLUMNS, data) == InsertOrIgnore(prev, Normalize(rows[n]));
      NormalizedSnoc(rows);
    }
  }

  /**
   Exporting a table and importing the file into an empty table restores
   every row in order, with task, status and created_at unchanged and NULL
   timestamps read back as empty text.
   */
  lemma ExportImportRoundTrip(rows: seq<Task>)
    requires KeysUnique(rows) && KeysPresent(rows)
    ensures ImportCsv([], ExportToCsv(rows)) == Imported(Normalized(rows))
    ensures forall i :: 0 <= i < |rows| ==>
      var u := Normalized(rows)[i];
      u.task == rows[i].task && u.createdAt == rows[i].createdAt &&
      u.status == Some(CellText(rows[i].status))
  {
    ImportExportedRows(rows);
    ImportUnderColumns([], ExportToCsv(rows));
    NormalizedKeepsKeys(rows);
  }

  /**
   Importing an exported file back into the table it came from changes
   nothing, provided every row has both halves of its key.
   */
  lemma ReimportExportNoop(rows: seq<Task>)
    requires KeysPresent(rows)
    ensures ImportCsv(rows, ExportToCsv(rows)) == Imported(rows)
  {
    ColumnPositions();
    var csv := ExportToCsv(rows);
    var data := csv[1..];
    forall k | 0 <= k < |data| && data[k] != []
      ensures HasKey(rows, RowTask(COLUMNS, data[k]))
    {
      assert data[k] == TaskRow(rows[k]);
      ReadBackRow(rows[k]);
      assert SameKey(rows[k], Normalize(rows[k]));
    }
    ImportRowsPresentNoop(rows, COLUMNS, data);
    ImportUnderColumns(rows, csv);
  }

  /**
   A row with a NULL created_at (as a short import row leaves it) reads back
   with the key `(name, "")`, which is new, so re-importing the exported file
   into the same table adds a second copy.
   */
  lemma NullKeyRowReimportedTwice(row: Task)
    requires row.createdAt.None?
    ensures KeysUnique([row])
    ensures ImportCsv([row], ExportToCsv([row])) == Imported([row, Normalize(row)])
  {
    assert ExportToCsv([row]) == [COLUMNS, TaskRow(row)];
    ReadBackRow(row);
    ImportOneRow([row], TaskRow(row));
    assert !HasKey([row], Normalize(row));
  }

  /** A table without NULLs survives the round trip exactly. */
  lemma ExportImportExact(rows: seq<Task>)
    requires KeysUnique(rows)
    requires forall i :: 0 <= i < |rows| ==> Normalize(rows[i]) == rows[i]
    ensures ImportCsv([], ExportToCsv(rows)) == Imported(rows)
  {
    assert KeysPresent(rows) by {
      forall i | 0 <= i < |rows| ensures SameKey(rows[i], rows[i]) {
        assert Normalize(rows[i]) == rows[i];
      }
    }
    ExportImportRoundTrip(rows);
    assert Normalized(rows) == rows;
  }
}

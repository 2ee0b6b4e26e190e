/** Extraction of the two metadata maps from the spreadsheet
    (update_bigquery_descriptions.py, `get_table_descriptions_from_sheet`
    and `get_column_schemas_from_sheet`). Authentication and worksheet
    access are not modelled: the rows arrive already keyed by header, a
    missing cell is `None`, and a worksheet whose rows could not be read
    carries `Failure`. */
module Sheet {
  import opened Wrappers
  import opened Text
  import opened LastWins

  // ---------------------------------------------------------------------
  // Table descriptions
  // ---------------------------------------------------------------------

  /** A row of the table-list worksheet: the `BQ Table` composite key
      (`<dataset>.<table>`), the `Table 說明` description and the `狀態`
      status cells. */
  datatype TableRow = TableRow(bqTable: Option<string>, description: Option<string>, status: Option<string>)

  /** What is kept per table: description and status, `''` when the cell
      is missing. */
  datatype TableFact = TableFact(description: string, status: string)

  /** The `ValueError` raised when a key does not unpack into exactly two
      parts; nothing catches it, so the whole extraction stops. */
  datatype ExtractError = UnpackError(key: string)

  /** The row passes the `if bq_table and '.' in bq_table` guard. */
  predicate HasSeparator(row: TableRow) {
    Truthy(row.bqTable) && '.' in row.bqTable.value
  }

  /** The row passes the guard but its key does not split into exactly two
      parts. */
  predicate UnpackFails(row: TableRow) {
    HasSeparator(row) && |Split(row.bqTable.value, '.')| != 2
  }

  /** The upsert one row performs, if any: the table part of the key and
      the row's fact, for a key whose dataset part is a target. */
  function TableEntry(targets: seq<string>, row: TableRow): Option<(string, TableFact)>
  {
    if HasSeparator(row) then
      var parts := Split(row.bqTable.value, '.');
      if |parts| == 2 && parts[0] in targets then
        Some((parts[1], TableFact(row.description.GetOr(""), row.status.GetOr(""))))
      else None
    else None
  }

  function TableEntries(targets: seq<string>, rows: seq<TableRow>): seq<Option<(string, TableFact)>>
  {
    seq(|rows|, i requires 0 <= i < |rows| => TableEntry(targets, rows[i]))
  }

  /** Index of the first row whose key fails to unpack, `|rows|` if none. */
  function FirstUnpackFailure(rows: seq<TableRow>): (n: nat)
    ensures n <= |rows|
    ensures forall j :: 0 <= j < n ==> !UnpackFails(rows[j])
    ensures n < |rows| ==> UnpackFails(rows[n])
  {
    if rows == [] || UnpackFails(rows[0]) then 0
    else 1 + FirstUnpackFailure(rows[1..])
  }

  /** The outcome of the row loop: the map `table -> fact`, or the error
      raised at the first key that fails to unpack. */
  function TableInfo(rows: seq<TableRow>, targets: seq<string>): (r: Result<map<string, TableFact>, ExtractError>)
    ensures r.Failure? <==> exists i :: 0 <= i < |rows| && UnpackFails(rows[i])
  {
    var n := FirstUnpackFailure(rows);
    if n < |rows| then Failure(UnpackError(rows[n].bqTable.value))
    else Success(Collect(TableEntries(targets, rows)))
  }

  /** The row loop of `get_table_descriptions_from_sheet`. */
  method ExtractTableDescriptions(rows: seq<TableRow>, targets: seq<string>)
    returns (result: Result<map<string, TableFact>, ExtractError>)
    ensures result == TableInfo(rows, targets)
    ensures result.Failure? <==> exists i :: 0 <= i < |rows| && UnpackFails(rows[i])
  {
    ghost var entries := TableEntries(targets, rows);
    var tableInfo: map<string, TableFact> := map[];
    var i := 0;
    while i < |rows|
      invariant 0 <= i <= |rows|
      invariant forall j :: 0 <= j < i ==> !UnpackFails(rows[j])
      invariant tableInfo == Collect(entries[..i])
    {
      var row := rows[i];
      var bqTable := row.bqTable;
      var description := row.description.GetOr("");
      var status := row.status.GetOr("");
      assert entries[i] == TableEntry(targets, row);
      assert entries[..i + 1] == entries[..i] + [entries[i]];
      CollectSnoc(entries[..i], entries[i]);
      if Truthy(bqTable) && '.' in bqTable.value {
        var parts := Split(bqTable.value, '.');
        if |parts| != 2 {
          assert FirstUnpackFailure(rows) == i by { FirstFailureAt(rows, i); }
          return Failure(UnpackError(bqTable.value));
        }
        var datasetName, tableName := parts[0], parts[1];
        if datasetName in targets {
          tableInfo := tableInfo[tableName := TableFact(description, status)];
        }
      }
      i := i + 1;
    }
    assert entries[..i] == entries;
    assert FirstUnpackFailure(rows) == |rows| by { FirstFailureAt(rows, |rows|); }
    result := Success(tableInfo);
  }

  /** The first failing row is the one before which no row fails. */
  lemma {:induction false} FirstFailureAt(rows: seq<TableRow>, n: nat)
    requires n <= |rows|
    requires forall j :: 0 <= j < n ==> !UnpackFails(rows[j])
    requires n < |rows| ==> UnpackFails(rows[n])
    ensures FirstUnpackFailure(rows) == n
  {
    if n > 0 {
      FirstFailureAt(rows[1..], n - 1);
    }
  }

  /** The extraction aborts exactly on a key with more than one `.`: the
      spreadsheet key `a.b.c` is an error, not a skipped row. */
  lemma UnpackFailsIff(row: TableRow)
    ensures UnpackFails(row) <==> row.bqTable.Some? && CountChar(row.bqTable.value, '.') >= 2
  {
    if row.bqTable.Some? {
      CountCharPositive(row.bqTable.value, '.');
    }
  }

  /** Row `row` stores a fact under table `t`. */
  predicate Registers(targets: seq<string>, row: TableRow, t: string) {
    Writes(TableEntry(targets, row), t)
  }

  /** A row stores a fact under `t` exactly when its key is
      `<dataset>.<t>` with a target dataset and no other `.`. */
  lemma RegistersIff(targets: seq<string>, row: TableRow, t: string)
    ensures Registers(targets, row, t) <==>
      exists d :: d in targets && '.' !in d && '.' !in t && row.bqTable == Some(d + "." + t)
  {
    if Registers(targets, row, t) {
      var key := row.bqTable.value;
      var parts := Split(key, '.');
      TwoPartKey(key, parts[0], parts[1], '.');
      assert key == parts[0] + "." + t;
    }
    if exists d :: d in targets && '.' !in d && '.' !in t && row.bqTable == Some(d + "." + t) {
      var d :| d in targets && '.' !in d && '.' !in t && row.bqTable == Some(d + "." + t);
      var key := row.bqTable.value;
      TwoPartKey(key, d, t, '.');
      assert key[|d|] == '.';
    }
  }

  /** A row keyed `<d>.<t>`, with neither part containing `.`, stores its
      fact under `t` when `d` is a target dataset and is skipped
      otherwise; it never aborts the extraction. */
  lemma TableEntryOfKey(targets: seq<string>, d: string, t: string, description: Option<string>, status: Option<string>)
    requires '.' !in d && '.' !in t
    ensures !UnpackFails(TableRow(Some(d + "." + t), description, status))
    ensures TableEntry(targets, TableRow(Some(d + "." + t), description, status)) ==
      if d in targets then Some((t, TableFact(description.GetOr(""), status.GetOr("")))) else None
  {
    var key := d + "." + t;
    TwoPartKey(key, d, t, '.');
    assert key[|d|] == '.';
  }

  /** A table is in the extracted map exactly when some row stores it. */
  lemma TableInfoKeys(rows: seq<TableRow>, targets: seq<string>, t: string)
    requires TableInfo(rows, targets).Success?
    ensures t in TableInfo(rows, targets).value <==>
      exists i :: 0 <= i < |rows| && Registers(targets, rows[i], t)
  {
    var entries := TableEntries(targets, rows);
    CollectKeys(entries, t);
    assert forall i :: 0 <= i < |rows| ==> entries[i] == TableEntry(targets, rows[i]);
  }

  /** The fact kept for a table is the one from the last row storing it,
      with missing description and status cells read as `''`. */
  lemma TableInfoLastWins(rows: seq<TableRow>, targets: seq<string>, i: nat, t: string)
    requires TableInfo(rows, targets).Success?
    requires i < |rows| && Registers(targets, rows[i], t)
    requires forall j :: i < j < |rows| ==> !Registers(targets, rows[j], t)
    ensures t in TableInfo(rows, targets).value
    ensures TableInfo(rows, targets).value[t] ==
      TableFact(rows[i].description.GetOr(""), rows[i].status.GetOr(""))
  {
    var entries := TableEntries(targets, rows);
    assert forall j :: 0 <= j < |rows| ==> entries[j] == TableEntry(targets, rows[j]);
    CollectLastWins(entries, i);
  }

  // ---------------------------------------------------------------------
  // Column descriptions
  // ---------------------------------------------------------------------

  /** A row of a column worksheet: the `BQ 欄位` column name and the `說明`
      description cells. */
  datatype ColumnRow = ColumnRow(column: Option<string>, description: Option<string>)

  /** A worksheet: its title and either its rows or the error raised while
      reading them. */
  datatype Worksheet = Worksheet(title: string, records: Result<seq<ColumnRow>, string>)

  /** Title prefix of the column worksheets. */
  const SemPrefix: string := "sem."

  /** The upsert one row performs, if any (`if col_name:`). */
  function ColumnEntry(row: ColumnRow): Option<(string, string)>
  {
    if Truthy(row.column) then Some((row.column.value, row.description.GetOr(""))) else None
  }

  function ColumnEntries(rows: seq<ColumnRow>): seq<Option<(string, string)>>
  {
    seq(|rows|, i requires 0 <= i < |rows| => ColumnEntry(rows[i]))
  }

  /** The `columns` dictionary built from one worksheet's rows. */
  function Columns(rows: seq<ColumnRow>): map<string, string>
  {
    Collect(ColumnEntries(rows))
  }

  /** The inner row loop of `get_column_schemas_from_sheet`. */
  method ReadColumns(rows: seq<ColumnRow>) returns (columns: map<string, string>)
    ensures columns == Columns(rows)
  {
    ghost var entries := ColumnEntries(rows);
    columns := map[];
    var i := 0;
    while i < |rows|
      invariant 0 <= i <= |rows|
      invariant columns == Collect(entries[..i])
    {
      var colName := rows[i].column;
      var colDesc := rows[i].description.GetOr("");
      assert entries[..i + 1] == entries[..i] + [entries[i]];
      CollectSnoc(entries[..i], entries[i]);
      if Truthy(colName) {
        assert entries[i] == Some((colName.value, colDesc));
        columns := columns[colName.value := colDesc];
      } else {
        assert entries[i] == None;
      }
      i := i + 1;
    }
    assert entries[..i] == entries;
  }

  /** A column is collected exactly when some row names it with a
      non-empty `BQ 欄位`. */
  lemma ColumnsKeys(rows: seq<ColumnRow>, c: string)
    ensures c in Columns(rows) <==> c != "" && exists i :: 0 <= i < |rows| && rows[i].column == Some(c)
  {
    var entries := ColumnEntries(rows);
    CollectKeys(entries, c);
    assert forall i :: 0 <= i < |rows| ==> entries[i] == ColumnEntry(rows[i]);
  }

  /** The description kept for a column is the last row's for that name. */
  lemma ColumnsLastWins(rows: seq<ColumnRow>, i: nat)
    requires i < |rows| && Truthy(rows[i].column)
    requires forall j :: i < j < |rows| ==> rows[j].column != rows[i].column
    ensures rows[i].column.value in Columns(rows)
    ensures Columns(rows)[rows[i].column.value] == rows[i].description.GetOr("")
  {
    var entries := ColumnEntries(rows);
    assert forall j :: 0 <= j < |rows| ==> entries[j] == ColumnEntry(rows[j]);
    CollectLastWins(entries, i);
  }

  /** `sheet_title.replace('sem.', '')`: the table a column worksheet
      describes. */
  function SheetTable(title: string): string
  {
    RemoveAll(title, SemPrefix)
  }

  /** For a title with no further `sem.` after the leading one, the table
      name is the rest of the title. */
  lemma SheetTableStrip(rest: string)
    requires !Occurs(SemPrefix, rest)
    ensures SheetTable(SemPrefix + rest) == rest
  {
    RemoveAllAtPattern(SemPrefix, rest);
    RemoveAllFixedIff(rest, SemPrefix);
  }

  /** A title in which `sem.` occurs nowhere names its table as it is. */
  lemma SheetTableUntouched(title: string)
    ensures SheetTable(title) == title <==> !Occurs(SemPrefix, title)
  {
    RemoveAllFixedIff(title, SemPrefix);
  }

  /** The upsert one worksheet performs, if any: only a `sem.` worksheet
      that was read and yielded at least one column contributes. */
  function SheetEntry(ws: Worksheet): Option<(string, map<string, string>)>
  {
    if !(SemPrefix <= ws.title) then None
    else
      match ws.records
      case Failure(_) => None
      case Success(rows) =>
        var columns := Columns(rows);
        if columns == map[] then None else Some((SheetTable(ws.title), columns))
  }

  function SheetEntries(sheets: seq<Worksheet>): seq<Option<(string, map<string, string>)>>
  {
    seq(|sheets|, i requires 0 <= i < |sheets| => SheetEntry(sheets[i]))
  }

  /** The `column_schemas` dictionary: `table -> {column -> description}`. */
  function ColumnSchemas(sheets: seq<Worksheet>): map<string, map<string, string>>
  {
    Collect(SheetEntries(sheets))
  }

  /** The worksheet loop of `get_column_schemas_from_sheet`. A worksheet
      whose rows cannot be read is skipped and the loop goes on. */
  method ExtractColumnSchemas(sheets: seq<Worksheet>) returns (schemas: map<string, map<string, string>>)
    ensures schemas == ColumnSchemas(sheets)
    ensures forall t :: t in schemas ==> schemas[t] != map[]
  {
    ghost var entries := SheetEntries(sheets);
    schemas := map[];
    var i := 0;
    while i < |sheets|
      invariant 0 <= i <= |sheets|
      invariant schemas == Collect(entries[..i])
      invariant forall t :: t in schemas ==> schemas[t] != map[]
    {
      var ws := sheets[i];
      CollectSnoc(entries[..i], entries[i]);
      assert entries[..i + 1] == entries[..i] + [entries[i]];
      if SemPrefix <= ws.title {
        var tableName := SheetTable(ws.title);
        match ws.records {
          case Failure(_) =>
          case Success(rows) =>
            var columns := ReadColumns(rows);
            if columns != map[] {
              schemas := schemas[tableName := columns];
            }
        }
      }
      i := i + 1;
    }
    assert entries[..i] == entries;
  }

  /** Worksheet `ws` supplies the column map of table `t`. */
  predicate Feeds(ws: Worksheet, t: string) {
    && SemPrefix <= ws.title
    && SheetTable(ws.title) == t
    && ws.records.Success?
    && Columns(ws.records.value) != map[]
  }

  /** A table has column descriptions exactly when some `sem.` worksheet
      named for it was read and yielded a column. */
  lemma ColumnSchemasKeys(sheets: seq<Worksheet>, t: string)
    ensures t in ColumnSchemas(sheets) <==> exists i :: 0 <= i < |sheets| && Feeds(sheets[i], t)
  {
    var entries := SheetEntries(sheets);
    CollectKeys(entries, t);
    assert forall i :: 0 <= i < |sheets| ==> (Writes(entries[i], t) <==> Feeds(sheets[i], t));
  }

  /** A later worksheet for the same table replaces an earlier one's column
      map as a whole; maps are not merged. */
  lemma ColumnSchemasLastWins(sheets: seq<Worksheet>, i: nat, t: string)
    requires i < |sheets| && Feeds(sheets[i], t)
    requires forall j :: i < j < |sheets| ==> !Feeds(sheets[j], t)
    ensures t in ColumnSchemas(sheets)
    ensures ColumnSchemas(sheets)[t] == Columns(sheets[i].records.value)
  {
    var entries := SheetEntries(sheets);
    assert forall j :: 0 <= j < |sheets| ==> (Writes(entries[j], t) <==> Feeds(sheets[j], t));
    CollectLastWins(entries, i);
  }

  /** The rows of a worksheet without the `sem.` prefix never matter: they
      can be anything, including a read error. */
  lemma UnreadSheetIgnored(sheets: seq<Worksheet>, i: nat, records: Result<seq<ColumnRow>, string>)
    requires i < |sheets| && !(SemPrefix <= sheets[i].title)
    ensures ColumnSchemas(sheets[i := sheets[i].(records := records)]) == ColumnSchemas(sheets)
  {
    var other := sheets[i := sheets[i].(records := records)];
    assert SheetEntries(other) == SheetEntries(sheets);
  }

  /** A worksheet that is skipped (wrong title) or fails to read
      contributes nothing: removing it leaves the result unchanged, so the
      worksheets after it are processed as if it were absent. */
  lemma SkippedSheetContained(sheets: seq<Worksheet>, i: nat)
    requires i < |sheets|
    requires !(SemPrefix <= sheets[i].title) || sheets[i].records.Failure?
    ensures ColumnSchemas(sheets[..i] + sheets[i + 1..]) == ColumnSchemas(sheets)
  {
    var front, back := SheetEntries(sheets[..i]), SheetEntries(sheets[i + 1..]);
    assert SheetEntries(sheets) == front + [None] + back;
    assert SheetEntries(sheets[..i] + sheets[i + 1..]) == front + back;
    CollectDropSkipped(front, back);
  }

  // ---------------------------------------------------------------------
  // Examples
  // ---------------------------------------------------------------------

  /** `a.b.c` has two separators: the whole extraction fails, even though
      an earlier row was fine. */
  lemma ExtraSeparatorAborts()
    ensures TableInfo([TableRow(Some("ds.ok"), Some("fine"), None), TableRow(Some("ds.b.c"), None, None)], ["ds"])
         == Failure(UnpackError("ds.b.c"))
  {
    var ds: string, b: string, c: string := "ds", "b", "c";
    var good := TableRow(Some(ds + "." + "ok"), Some("fine"), None);
    var bad := TableRow(Some(ds + "." + (b + "." + c)), None, None);
    TableEntryOfKey(["ds"], ds, "ok", Some("fine"), None);
    SplitPiece(c, '.');
    SplitAfterPiece(b, c, '.');
    SplitAfterPiece(ds, b + "." + c, '.');
    assert (ds + "." + (b + "." + c))[|ds|] == '.';
    assert UnpackFails(bad);
    var rows := [good, bad];
    assert rows[1..] == [bad];
    assert FirstUnpackFailure(rows) == 1;
    assert ds + "." + "ok" == "ds.ok";
    assert ds + "." + (b + "." + c) == "ds.b.c";
  }

  /** A single `sem.` worksheet that yields columns gives its table those
      columns. */
  lemma SingleSheet(title: string, rows: seq<ColumnRow>)
    requires SemPrefix <= title && Columns(rows) != map[]
    ensures ColumnSchemas([Worksheet(title, Success(rows))]) == map[SheetTable(title) := Columns(rows)]
  {
    var e := SheetEntry(Worksheet(title, Success(rows)));
    assert SheetEntries([Worksheet(title, Success(rows))]) == [] + [e];
    CollectSnoc([], e);
  }

  /** Worksheet `sem.orders` with column `amount` yields
      `{"orders": {"amount": "order total"}}`; worksheets with other titles
      and worksheets whose read fails add nothing. */
  lemma ColumnSchemasExample(sheets: seq<Worksheet>)
    requires sheets == [Worksheet("Table 列表", Success([ColumnRow(Some("x"), Some("y"))])),
                        Worksheet("sem.orders", Success([ColumnRow(Some("amount"), Some("order total"))])),
                        Worksheet("sem.users", Failure("permission denied"))]
    ensures ColumnSchemas(sheets) == map["orders" := map["amount" := "order total"]]
  {
    var rows := [ColumnRow(Some("amount"), Some("order total"))];
    assert Columns(rows) == map["amount" := "order total"] by {
      var c := Some(("amount", "order total"));
      assert ColumnEntries(rows) == [] + [c];
      CollectSnoc([], c);
    }
    assert "amount" in Columns(rows);
    SkippedSheetContained(sheets, 2);
    assert sheets[..2] + sheets[3..] == sheets[..2];
    assert !(SemPrefix <= sheets[0].title) by { assert SemPrefix[0] != sheets[0].title[0]; }
    SkippedSheetContained(sheets[..2], 0);
    assert sheets[..2][..0] + sheets[..2][1..] == [sheets[1]];
    assert SemPrefix <= sheets[1].title;
    SingleSheet("sem.orders", rows);
    SheetTablePrefixExample();
  }

  /** The usual case: the prefix is removed. */
  lemma SheetTablePrefixExample()
    ensures SheetTable("sem.orders") == "orders"
  {
    var ers: string := "ers";
    var ders := ['d'] + ers;
    var rders := ['r'] + ders;
    var orders := ['o'] + rders;
    RemoveAllShort(ers, SemPrefix);
    assert !(SemPrefix <= ders) by { assert SemPrefix[0] != ders[0]; }
    RemoveAllKeeps('d', ers, SemPrefix);
    assert !(SemPrefix <= rders) by { assert SemPrefix[0] != rders[0]; }
    RemoveAllKeeps('r', ders, SemPrefix);
    assert !(SemPrefix <= orders) by { assert SemPrefix[0] != orders[0]; }
    RemoveAllKeeps('o', rders, SemPrefix);
    RemoveAllAtPattern(SemPrefix, orders);
    assert orders == "orders" && SemPrefix + orders == "sem.orders";
  }

  /** `replace` removes every `sem.`, not only the prefix. */
  lemma SheetTableInnerExample()
    ensures SheetTable("sem.a_sem.b") == "a_b"
  {
    var b: string := "b";
    var inner := ['_'] + (SemPrefix + b);
    var title := SemPrefix + (['a'] + inner);
    RemoveAllShort(b, SemPrefix);
    RemoveAllAtPattern(SemPrefix, b);
    assert !(SemPrefix <= inner) by { assert SemPrefix[0] != inner[0]; }
    RemoveAllKeeps('_', SemPrefix + b, SemPrefix);
    assert !(SemPrefix <= ['a'] + inner) by { assert SemPrefix[0] != (['a'] + inner)[0]; }
    RemoveAllKeeps('a', inner, SemPrefix);
    RemoveAllAtPattern(SemPrefix, ['a'] + inner);
    assert title == "sem.a_sem.b";
  }

  /** A removal can bring a new `sem.` together, and that one is kept:
      the table name can itself start with `sem.`. */
  lemma SheetTableRejoinExample()
    ensures SheetTable("ssem.em.") == "sem."
  {
    var em: string := "em.";
    var rest := SemPrefix + em;
    RemoveAllShort(em, SemPrefix);
    RemoveAllAtPattern(SemPrefix, em);
    assert !(SemPrefix <= ['s'] + rest) by { assert SemPrefix[1] != (['s'] + rest)[1]; }
    RemoveAllKeeps('s', rest, SemPrefix);
    assert ['s'] + em == "sem." && ['s'] + rest == "ssem.em.";
  }
}

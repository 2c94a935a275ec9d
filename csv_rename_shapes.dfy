/**
 * `csv_rename_shapes.py`: turns draw.io shape names into the spreadsheet's
 * vocabulary. The two gate shapes become `process` steps whose description says
 * which gate they were.
 */
module CsvRenameShapes {
  import opened Wrappers
  import opened Tables

  /** The draw.io shape names this stage rewrites. */
  const DiagramOnly: set<string> := {"start_1", "terminator", "summing_function", "or"}

  /** The gate shapes, whose description is overwritten. */
  const Gates: set<string> := {"summing_function", "or"}

  /**
   * One data row, `s` and `d` the indices of `shape` and `description`. The shape
   * cell is always read; the description cell only written for a gate.
   */
  function SheetRow(row: Row, s: nat, d: nat): (r: Result<Row, Error>)
    requires s != d
    ensures r.Ok? <==> s < |row| && (row[s] in Gates ==> d < |row|)
    ensures r.Ok? ==> |r.value| == |row|
    ensures r.Ok? ==> forall c | 0 <= c < |row| && c != s && (c != d || row[s] !in Gates) :: r.value[c] == row[c]
    ensures r.Ok? && row[s] !in DiagramOnly ==> r.value == row
    ensures r.Ok? && row[s] == "start_1" ==> r.value[s] == "start"
    ensures r.Ok? && row[s] == "terminator" ==> r.value[s] == "end"
    ensures r.Ok? && row[s] in Gates ==>
      r.value[s] == "process" && r.value[d] == (if row[s] == "summing_function" then "OR" else "AND")
  {
    if s >= |row| then Err(RowTooShort)
    else if row[s] == "start_1" then Ok(row[s := "start"])
    else if row[s] == "terminator" then Ok(row[s := "end"])
    else if row[s] == "summing_function" then
      if d < |row| then Ok(row[s := "process"][d := "OR"]) else Err(RowTooShort)
    else if row[s] == "or" then
      if d < |row| then Ok(row[s := "process"][d := "AND"]) else Err(RowTooShort)
    else Ok(row)
  }

  function SheetRowFn(s: nat, d: nat): Row -> Result<Row, Error>
    requires s != d
  {
    row => SheetRow(row, s, d)
  }

  /** The stage: the header as it was and every row renamed; both columns must exist. */
  function SheetShapes(t: Table): (r: Result<Table, Error>)
    ensures "shape" !in t.header ==> r == Err(MissingColumn("shape"))
    ensures "shape" in t.header && "description" !in t.header ==> r == Err(MissingColumn("description"))
    ensures "shape" in t.header && "description" in t.header ==>
      var s, d := IndexOf(t.header, "shape").value, IndexOf(t.header, "description").value;
      && s != d
      && (r.Ok? <==> forall j | 0 <= j < |t.rows| :: SheetRow(t.rows[j], s, d).Ok?)
      && (r.Ok? ==> r.value.header == t.header && |r.value.rows| == |t.rows|)
      && (r.Ok? ==> forall j | 0 <= j < |t.rows| :: SheetRow(t.rows[j], s, d) == Ok(r.value.rows[j]))
  {
    match ColumnIndex(t.header, "shape")
    case Err(e) => Err(e)
    case Ok(s) =>
      match ColumnIndex(t.header, "description")
      case Err(e) => Err(e)
      case Ok(d) =>
        match MapRows(t.rows, SheetRowFn(s, d))
        case Err(e) => Err(e)
        case Ok(rows) => Ok(Table(t.header, rows))
  }

  /** `rename_shapes`: the row loop, rewriting the two cells in place. */
  method RenameShapes(t: Table) returns (r: Result<Table, Error>)
    ensures r == SheetShapes(t)
  {
    var foundS := IndexOf(t.header, "shape");
    if foundS.None? {
      return Err(MissingColumn("shape"));
    }
    var foundD := IndexOf(t.header, "description");
    if foundD.None? {
      return Err(MissingColumn("description"));
    }
    var s, d := foundS.value, foundD.value;
    var out: seq<Row> := [];
    var i := 0;
    while i < |t.rows|
      invariant i <= |t.rows|
      invariant MapRows(t.rows[..i], SheetRowFn(s, d)) == Ok(out)
    {
      var row := t.rows[i];
      if s >= |row| || (row[s] in Gates && d >= |row|) {
        MapRowsStop(t.rows, SheetRowFn(s, d), i, out);
        return Err(RowTooShort);
      }
      if row[s] == "start_1" {
        row := row[s := "start"];
      } else if row[s] == "terminator" {
        row := row[s := "end"];
      } else if row[s] == "summing_function" {
        row := row[s := "process"];
        row := row[d := "OR"];
      } else if row[s] == "or" {
        row := row[s := "process"];
        row := row[d := "AND"];
      }
      MapRowsStep(t.rows, SheetRowFn(s, d), i, out);
      out := out + [row];
      i := i + 1;
    }
    MapRowsDone(t.rows);
    r := Ok(Table(t.header, out));
  }

  /** Renaming a row a second time changes nothing. */
  lemma SheetRowIdempotent(row: Row, s: nat, d: nat)
    requires s != d && SheetRow(row, s, d).Ok?
    ensures SheetRow(SheetRow(row, s, d).value, s, d) == SheetRow(row, s, d)
  {
  }

  /** Running the stage on its own output changes nothing. */
  lemma SheetShapesIdempotent(t: Table)
    requires SheetShapes(t).Ok?
    ensures SheetShapes(SheetShapes(t).value) == SheetShapes(t)
  {
    var u := SheetShapes(t).value;
    var s, d := IndexOf(t.header, "shape").value, IndexOf(t.header, "description").value;
    forall j | 0 <= j < |u.rows| ensures SheetRowFn(s, d)(u.rows[j]) == Ok(u.rows[j]) {
      SheetRowIdempotent(t.rows[j], s, d);
    }
    MapRowsIs(u.rows, SheetRowFn(s, d), u.rows);
  }
}

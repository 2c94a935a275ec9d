/**
 * `xl_rename_shapes.py`: turns the spreadsheet's shape vocabulary back into
 * draw.io shape names, reading a `process` step described as `AND` or `OR` as
 * the corresponding gate.
 */
module XlRenameShapes {
  import opened Wrappers
  import opened Tables
  import CsvRenameShapes

  /** The spreadsheet names this stage rewrites (`process` only with a gate description). */
  const SheetOnly: set<string> := {"start", "end"}

  /**
   * One data row, `s` and `d` the indices of `shape` and `description`. The
   * description cell is read only for a `process` step.
   */
  function DiagramRow(row: Row, s: nat, d: nat): (r: Result<Row, Error>)
    requires s != d
    ensures r.Ok? <==> s < |row| && (row[s] == "process" ==> d < |row|)
    ensures r.Ok? ==> |r.value| == |row|
    ensures r.Ok? ==> forall c | 0 <= c < |row| && c != s && (c != d || row[s] != "process") :: r.value[c] == row[c]
    ensures r.Ok? && row[s] !in SheetOnly && (row[s] == "process" ==> row[d] !in {"AND", "OR"}) ==> r.value == row
    ensures r.Ok? && row[s] == "process" && row[d] in {"AND", "OR"} ==>
      r.value[d] == "" && r.value[s] == (if row[d] == "AND" then "or" else "summing_function")
    ensures r.Ok? && row[s] == "end" ==> r.value[s] == "terminator"
    ensures r.Ok? && row[s] == "start" ==> r.value[s] == "start_1"
  {
    if s >= |row| then Err(RowTooShort)
    else if row[s] == "process" then
      if d >= |row| then Err(RowTooShort)
      else if row[d] == "AND" then Ok(row[s := "or"][d := ""])
      else if row[d] == "OR" then Ok(row[s := "summing_function"][d := ""])
      else Ok(row)
    else if row[s] == "end" then Ok(row[s := "terminator"])
    else if row[s] == "start" then Ok(row[s := "start_1"])
    else Ok(row)
  }

  function DiagramRowFn(s: nat, d: nat): Row -> Result<Row, Error>
    requires s != d
  {
    row => DiagramRow(row, s, d)
  }

  /** The stage: the header as it was and every row renamed; both columns must exist. */
  function DiagramShapes(t: Table): (r: Result<Table, Error>)
    ensures "shape" !in t.header ==> r == Err(MissingColumn("shape"))
    ensures "shape" in t.header && "description" !in t.header ==> r == Err(MissingColumn("description"))
    ensures "shape" in t.header && "description" in t.header ==>
      var s, d := IndexOf(t.header, "shape").value, IndexOf(t.header, "description").value;
      && s != d
      && (r.Ok? <==> forall j | 0 <= j < |t.rows| :: DiagramRow(t.rows[j], s, d).Ok?)
      && (r.Ok? ==> r.value.header == t.header && |r.value.rows| == |t.rows|)
      && (r.Ok? ==> forall j | 0 <= j < |t.rows| :: DiagramRow(t.rows[j], s, d) == Ok(r.value.rows[j]))
  {
    match ColumnIndex(t.header, "shape")
    case Err(e) => Err(e)
    case Ok(s) =>
      match ColumnIndex(t.header, "description")
      case Err(e) => Err(e)
      case Ok(d) =>
        match MapRows(t.rows, DiagramRowFn(s, d))
        case Err(e) => Err(e)
        case Ok(rows) => Ok(Table(t.header, rows))
  }

  /** `rename_shapes`: the row loop, rewriting the two cells in place. */
  method RenameShapes(t: Table) returns (r: Result<Table, Error>)
    ensures r == DiagramShapes(t)
  {
    var foundS := IndexOf(t.header, "shape");
    if foundS.None? {
      return Err(MissingColumn("shape"));
    }
    var foundD := IndexOf(t.header, "description");
    if foundD.None? {
      return Err(MissingColumn("description"));
    }
    var s, d := foundS.value, foundD.value;
    var f := DiagramRowFn(s, d);
    var out: seq<Row> := [];
    var i := 0;
    while i < |t.rows|
      invariant i <= |t.rows|
      invariant MapRows(t.rows[..i], f) == Ok(out)
    {
      var res := RenameRow(t.rows[i], s, d);
      assert f(t.rows[i]) == res;
      if res.Err? {
        MapRowsStop(t.rows, f, i, out);
        return Err(res.error);
      }
      MapRowsStep(t.rows, f, i, out);
      out := out + [res.value];
      i := i + 1;
    }
    MapRowsDone(t.rows);
    r := Ok(Table(t.header, out));
  }

  /** The body of the row loop: the row's cells rewritten one assignment at a time. */
  method RenameRow(row0: Row, s: nat, d: nat) returns (res: Result<Row, Error>)
    requires s != d
    ensures res == DiagramRow(row0, s, d)
  {
    var row := row0;
    if s >= |row| || (row[s] == "process" && d >= |row|) {
      return Err(RowTooShort);
    }
    if row[s] == "process" && row[d] == "AND" {
      row := row[s := "or"];
      row := row[d := ""];
    } else if row[s] == "process" && row[d] == "OR" {
      row := row[s := "summing_function"];
      row := row[d := ""];
    } else if row[s] == "end" {
      row := row[s := "terminator"];
    } else if row[s] == "start" {
      row := row[s := "start_1"];
    }
    return Ok(row);
  }

  /** Renaming a row a second time changes nothing. */
  lemma DiagramRowIdempotent(row: Row, s: nat, d: nat)
    requires s != d && DiagramRow(row, s, d).Ok?
    ensures DiagramRow(DiagramRow(row, s, d).value, s, d) == DiagramRow(row, s, d)
  {
  }

  /** Running the stage on its own output changes nothing. */
  lemma DiagramShapesIdempotent(t: Table)
    requires DiagramShapes(t).Ok?
    ensures DiagramShapes(DiagramShapes(t).value) == DiagramShapes(t)
  {
    var u := DiagramShapes(t).value;
    var s, d := IndexOf(t.header, "shape").value, IndexOf(t.header, "description").value;
    forall j | 0 <= j < |u.rows| ensures DiagramRowFn(s, d)(u.rows[j]) == Ok(u.rows[j]) {
      DiagramRowIdempotent(t.rows[j], s, d);
    }
    MapRowsIs(u.rows, DiagramRowFn(s, d), u.rows);
  }

  /**
   * Spreadsheet side: renaming to draw.io names and back restores any row whose
   * shape is not itself a draw.io-only name.
   */
  lemma SheetRowRoundTrip(row: Row, s: nat, d: nat)
    requires s != d && DiagramRow(row, s, d).Ok?
    requires row[s] !in CsvRenameShapes.DiagramOnly
    ensures CsvRenameShapes.SheetRow(DiagramRow(row, s, d).value, s, d) == Ok(row)
  {
    if row[s] == "process" && row[d] in {"AND", "OR"} {
      var gate := if row[d] == "AND" then "or" else "summing_function";
      RestoreTwo(row, s, d, gate, "");
    } else if row[s] in SheetOnly {
      RestoreOne(row, s, if row[s] == "end" then "terminator" else "start_1");
    }
  }

  /** Writing two cells and then their old values back restores the row. */
  lemma RestoreTwo(row: Row, s: nat, d: nat, a: string, b: string)
    requires s != d && s < |row| && d < |row|
    ensures row[s := a][d := b][s := row[s]][d := row[d]] == row
  {
  }

  /** Writing one cell and then its old value back restores the row. */
  lemma RestoreOne(row: Row, s: nat, a: string)
    requires s < |row|
    ensures row[s := a][s := row[s]] == row
  {
  }

  /**
   * Diagram side: renaming to spreadsheet names and back restores a row unless it
   * already used a spreadsheet-only name, is a `process` box described `AND` or
   * `OR`, or is a gate with a description of its own.
   */
  lemma DiagramRowRoundTrip(row: Row, s: nat, d: nat)
    requires s != d && CsvRenameShapes.SheetRow(row, s, d).Ok?
    requires row[s] !in SheetOnly
    requires row[s] == "process" ==> d < |row| && row[d] !in {"AND", "OR"}
    requires row[s] in CsvRenameShapes.Gates ==> row[d] == ""
    ensures DiagramRow(CsvRenameShapes.SheetRow(row, s, d).value, s, d) == Ok(row)
  {
    if row[s] in CsvRenameShapes.Gates {
      var word := if row[s] == "or" then "AND" else "OR";
      RestoreTwo(row, s, d, "process", word);
    } else if row[s] in CsvRenameShapes.DiagramOnly {
      RestoreOne(row, s, if row[s] == "terminator" then "end" else "start");
    }
  }

  /** A `process` box described `AND` comes back from the round trip as an `or` gate. */
  lemma ProcessNamedAndBecomesGate()
    ensures CsvRenameShapes.SheetRow(["process", "AND"], 0, 1) == Ok(["process", "AND"])
    ensures DiagramRow(["process", "AND"], 0, 1) == Ok(["or", ""])
  {
    assert ["process", "AND"][0 := "or"][1 := ""] == ["or", ""];
  }

  /** On tables: renaming to draw.io names and back restores the spreadsheet. */
  lemma SheetShapesRoundTrip(t: Table)
    requires DiagramShapes(t).Ok?
    requires forall j | 0 <= j < |t.rows| :: t.rows[j][IndexOf(t.header, "shape").value] !in CsvRenameShapes.DiagramOnly
    ensures CsvRenameShapes.SheetShapes(DiagramShapes(t).value) == Ok(t)
  {
    var u := DiagramShapes(t).value;
    var s, d := IndexOf(t.header, "shape").value, IndexOf(t.header, "description").value;
    forall j | 0 <= j < |u.rows| ensures CsvRenameShapes.SheetRowFn(s, d)(u.rows[j]) == Ok(t.rows[j]) {
      SheetRowRoundTrip(t.rows[j], s, d);
    }
    MapRowsIs(u.rows, CsvRenameShapes.SheetRowFn(s, d), t.rows);
  }
}

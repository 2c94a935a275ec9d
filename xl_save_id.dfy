/** `xl_save_id.py`: keeps a copy of each row's `Process Step ID` in a trailing `xl_id` column. */
module XlSaveId {
  import opened Wrappers
  import opened Tables

  /** One row with a copy of its cell at `k` appended; `IndexError` when the row has no cell there. */
  function AppendCopy(row: Row, k: nat): (r: Result<Row, Error>)
    ensures r.Ok? <==> k < |row|
  {
    if k < |row| then Ok(row + [row[k]]) else Err(RowTooShort)
  }

  function AppendCopyFn(k: nat): Row -> Result<Row, Error> {
    row => AppendCopy(row, k)
  }

  /**
   * The stage: `xl_id` appended to the header, and each row extended by one cell
   * equal to its `Process Step ID` cell, every earlier cell kept.
   */
  function WithXlId(t: Table): (r: Result<Table, Error>)
    ensures "Process Step ID" !in t.header ==> r == Err(MissingColumn("Process Step ID"))
    ensures "Process Step ID" in t.header ==>
      var k := IndexOf(t.header, "Process Step ID").value;
      && (r.Ok? <==> forall j | 0 <= j < |t.rows| :: k < |t.rows[j]|)
      && (r.Ok? ==> r.value.header == t.header + ["xl_id"] && |r.value.rows| == |t.rows|)
      && (r.Ok? ==> forall j | 0 <= j < |t.rows| ::
            |r.value.rows[j]| == |t.rows[j]| + 1 &&
            r.value.rows[j][..|t.rows[j]|] == t.rows[j] &&
            r.value.rows[j][|t.rows[j]|] == t.rows[j][k])
  {
    match ColumnIndex(t.header, "Process Step ID")
    case Err(e) => Err(e)
    case Ok(k) =>
      match MapRows(t.rows, AppendCopyFn(k))
      case Err(e) => Err(e)
      case Ok(rows) =>
        assert forall j | 0 <= j < |t.rows| :: rows[j][..|t.rows[j]|] == t.rows[j];
        Ok(Table(t.header + ["xl_id"], rows))
  }

  /** `process_csv`: the row loop, appending the copied cell to each row. */
  method ProcessCsv(t: Table) returns (r: Result<Table, Error>)
    ensures r == WithXlId(t)
  {
    var found := IndexOf(t.header, "Process Step ID");
    if found.None? {
      return Err(MissingColumn("Process Step ID"));
    }
    var k := found.value;
    var headers := t.header + ["xl_id"];
    var out: seq<Row> := [];
    var i := 0;
    while i < |t.rows|
      invariant i <= |t.rows|
      invariant MapRows(t.rows[..i], AppendCopyFn(k)) == Ok(out)
    {
      var row := t.rows[i];
      if k >= |row| {
        MapRowsStop(t.rows, AppendCopyFn(k), i, out);
        return Err(RowTooShort);
      }
      row := row + [row[k]];
      MapRowsStep(t.rows, AppendCopyFn(k), i, out);
      out := out + [row];
      i := i + 1;
    }
    MapRowsDone(t.rows);
    r := Ok(Table(headers, out));
  }
}

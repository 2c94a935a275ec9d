/** `csv_strip_xl_ids.py`: removes the `xl_id` column. */
module CsvStripXlIds {
  import opened Wrappers
  import opened Tables
  import Utils
  import XlSaveId

  /**
   * The stage: the header without its first `xl_id`, and every row without the cell
   * at that index. Unlike `delete_column`, a missing `xl_id` header is an error.
   */
  function WithoutXlId(t: Table): (r: Result<Table, Error>)
    ensures "xl_id" !in t.header ==> r == Err(MissingColumn("xl_id"))
    ensures "xl_id" in t.header ==>
      var k := IndexOf(t.header, "xl_id").value;
      && (r.Ok? <==> forall j | 0 <= j < |t.rows| :: k < |t.rows[j]|)
      && (r.Ok? ==> r.value.header == DeleteAt(t.header, k) && |r.value.rows| == |t.rows|)
      && (r.Ok? ==> forall j | 0 <= j < |t.rows| :: r.value.rows[j] == DeleteAt(t.rows[j], k))
  {
    match ColumnIndex(t.header, "xl_id")
    case Err(e) => Err(e)
    case Ok(k) =>
      match MapRows(t.rows, Utils.DeleteCellFn(k))
      case Err(e) => Err(e)
      case Ok(rows) => Ok(Table(DeleteAt(t.header, k), rows))
  }

  /** `strip_xl_id`: the row loop, popping one cell of each row. */
  method StripXlId(t: Table) returns (r: Result<Table, Error>)
    ensures r == WithoutXlId(t)
  {
    var found := IndexOf(t.header, "xl_id");
    if found.None? {
      return Err(MissingColumn("xl_id"));
    }
    var k := found.value;
    var headers := t.header[..k] + t.header[k + 1..];
    var out: seq<Row> := [];
    var i := 0;
    while i < |t.rows|
      invariant i <= |t.rows|
      invariant MapRows(t.rows[..i], Utils.DeleteCellFn(k)) == Ok(out)
    {
      var row := t.rows[i];
      if k >= |row| {
        MapRowsStop(t.rows, Utils.DeleteCellFn(k), i, out);
        return Err(RowTooShort);
      }
      row := row[..k] + row[k + 1..];
      MapRowsStep(t.rows, Utils.DeleteCellFn(k), i, out);
      out := out + [row];
      i := i + 1;
    }
    MapRowsDone(t.rows);
    r := Ok(Table(headers, out));
  }

  /**
   * With an `xl_id` column the stage is `delete_column(..., 'xl_id')`; without one,
   * `delete_column` passes the content through while this stage fails.
   */
  lemma StripMatchesDeleteColumn(t: Table)
    ensures "xl_id" in t.header ==> WithoutXlId(t) == Utils.DeleteColumnSpec(t, "xl_id")
    ensures "xl_id" !in t.header ==>
      WithoutXlId(t) == Err(MissingColumn("xl_id")) && Utils.DeleteColumnSpec(t, "xl_id") == Ok(t)
  {
  }

  /**
   * Stripping `xl_id` undoes `xl_save_id.py` on a table that had no `xl_id` column and
   * whose rows are as wide as its header (the copy is appended at the row's own end).
   */
  lemma StripUndoesSave(t: Table)
    requires "xl_id" !in t.header
    requires forall j | 0 <= j < |t.rows| :: |t.rows[j]| == |t.header|
    requires XlSaveId.WithXlId(t).Ok?
    ensures WithoutXlId(XlSaveId.WithXlId(t).value) == Ok(t)
  {
    var u := XlSaveId.WithXlId(t).value;
    var n := |t.header|;
    assert IndexOf(u.header, "xl_id") == Some(n) by {
      assert u.header[..n] == t.header;
    }
    forall j | 0 <= j < |u.rows| ensures Utils.DeleteCellFn(n)(u.rows[j]) == Ok(t.rows[j]) {
      assert DeleteAt(u.rows[j], n) == u.rows[j][..n];
    }
    MapRowsIs(u.rows, Utils.DeleteCellFn(n), t.rows);
    assert DeleteAt(u.header, n) == t.header;
  }
}

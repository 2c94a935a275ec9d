/** `fix_shape_case.py`: lower-cases the `Shape Type` cell of every data row. */
module FixShapeCase {
  import opened Wrappers
  import opened Strings
  import opened Tables

  /** One row with its cell at `k` lower-cased; `IndexError` when the row has no cell there. */
  function LowerCell(row: Row, k: nat): (r: Result<Row, Error>)
    ensures r.Ok? <==> k < |row|
    ensures r.Ok? ==> |r.value| == |row| && r.value[k] == Lower(row[k])
    ensures r.Ok? ==> forall c | 0 <= c < |row| && c != k :: r.value[c] == row[c]
  {
    if k < |row| then Ok(row[k := Lower(row[k])]) else Err(RowTooShort)
  }

  function LowerCellFn(k: nat): Row -> Result<Row, Error> {
    row => LowerCell(row, k)
  }

  /**
   * The stage: the header as it was, and in every data row the `Shape Type` cell
   * lower-cased and every other cell kept.
   */
  function LowerShapes(t: Table): (r: Result<Table, Error>)
    ensures "Shape Type" !in t.header ==> r == Err(MissingColumn("Shape Type"))
    ensures "Shape Type" in t.header ==>
      var k := IndexOf(t.header, "Shape Type").value;
      && (r.Ok? <==> forall j | 0 <= j < |t.rows| :: k < |t.rows[j]|)
      && (r.Ok? ==> r.value.header == t.header && |r.value.rows| == |t.rows|)
      && (r.Ok? ==> forall j | 0 <= j < |t.rows| :: r.value.rows[j] == t.rows[j][k := Lower(t.rows[j][k])])
  {
    match ColumnIndex(t.header, "Shape Type")
    case Err(e) => Err(e)
    case Ok(k) =>
      match MapRows(t.rows, LowerCellFn(k))
      case Err(e) => Err(e)
      case Ok(rows) => Ok(Table(t.header, rows))
  }

  /** `process_csv`: the row loop, lowering one cell of each row in place. */
  method ProcessCsv(t: Table) returns (r: Result<Table, Error>)
    ensures r == LowerShapes(t)
  {
    var found := IndexOf(t.header, "Shape Type");
    if found.None? {
      return Err(MissingColumn("Shape Type"));
    }
    var k := found.value;
    var out: seq<Row> := [];
    var i := 0;
    while i < |t.rows|
      invariant i <= |t.rows|
      invariant MapRows(t.rows[..i], LowerCellFn(k)) == Ok(out)
    {
      var row := t.rows[i];
      if k >= |row| {
        MapRowsStop(t.rows, LowerCellFn(k), i, out);
        return Err(RowTooShort);
      }
      row := row[k := Lower(row[k])];
      MapRowsStep(t.rows, LowerCellFn(k), i, out);
      out := out + [row];
      i := i + 1;
    }
    MapRowsDone(t.rows);
    r := Ok(Table(t.header, out));
  }

  /** Running the stage on its own output changes nothing. */
  lemma LowerShapesIdempotent(t: Table)
    requires LowerShapes(t).Ok?
    ensures LowerShapes(LowerShapes(t).value) == LowerShapes(t)
  {
    var u := LowerShapes(t).value;
    var k := IndexOf(t.header, "Shape Type").value;
    forall j | 0 <= j < |u.rows| ensures LowerCellFn(k)(u.rows[j]) == Ok(u.rows[j]) {
      LowerIdempotent(t.rows[j][k]);
      assert u.rows[j][k := Lower(u.rows[j][k])] == u.rows[j];
    }
    MapRowsIs(u.rows, LowerCellFn(k), u.rows);
  }
}

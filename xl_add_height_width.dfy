/** `xl_add_height_width.py`: appends `width` and `height` columns looked up from each row's shape. */
module XlAddHeightWidth {
  import opened Wrappers
  import opened Tables
  import opened Shapes

  /** One row with the size of the shape in its cell `k` appended; `IndexError` when there is no such cell. */
  function AppendSize(row: Row, k: nat): (r: Result<Row, Error>)
    ensures r.Ok? <==> k < |row|
  {
    if k < |row| then
      var size := SheetSize(row[k]);
      Ok(row + [size.width, size.height])
    else Err(RowTooShort)
  }

  function AppendSizeFn(k: nat): Row -> Result<Row, Error> {
    row => AppendSize(row, k)
  }

  /**
   * The stage: `width` and `height` appended to the header, and each row extended by
   * the size of its `shape` (`100`x`100` for a shape the table does not list),
   * every earlier cell kept.
   */
  function WithDimensions(t: Table): (r: Result<Table, Error>)
    ensures "shape" !in t.header ==> r == Err(MissingColumn("shape"))
    ensures "shape" in t.header ==>
      var k := IndexOf(t.header, "shape").value;
      && (r.Ok? <==> forall j | 0 <= j < |t.rows| :: k < |t.rows[j]|)
      && (r.Ok? ==> r.value.header == t.header + ["width", "height"] && |r.value.rows| == |t.rows|)
      && (r.Ok? ==> forall j | 0 <= j < |t.rows| ::
            r.value.rows[j] == t.rows[j] + [SheetSize(t.rows[j][k]).width, SheetSize(t.rows[j][k]).height])
  {
    match ColumnIndex(t.header, "shape")
    case Err(e) => Err(e)
    case Ok(k) =>
      match MapRows(t.rows, AppendSizeFn(k))
      case Err(e) => Err(e)
      case Ok(rows) => Ok(Table(t.header + ["width", "height"], rows))
  }

  /** `insert_dimensions`: the row loop, extending each row by two cells. */
  method InsertDimensions(t: Table) returns (r: Result<Table, Error>)
    ensures r == WithDimensions(t)
  {
    var found := IndexOf(t.header, "shape");
    if found.None? {
      return Err(MissingColumn("shape"));
    }
    var k := found.value;
    var headers := t.header + ["width", "height"];
    var out: seq<Row> := [];
    var i := 0;
    while i < |t.rows|
      invariant i <= |t.rows|
      invariant MapRows(t.rows[..i], AppendSizeFn(k)) == Ok(out)
    {
      var row := t.rows[i];
      if k >= |row| {
        MapRowsStop(t.rows, AppendSizeFn(k), i, out);
        return Err(RowTooShort);
      }
      var size := SheetSize(row[k]);
      row := row + [size.width, size.height];
      MapRowsStep(t.rows, AppendSizeFn(k), i, out);
      out := out + [row];
      i := i + 1;
    }
    MapRowsDone(t.rows);
    r := Ok(Table(headers, out));
  }

  /** A terminator row gets a 100x50 box, a process row 200x100, an unknown shape 100x100. */
  lemma WithDimensionsExample()
    ensures WithDimensions(Table(["id", "shape"], [["1", "terminator"], ["2", "process"], ["3", "hexagon"]]))
      == Ok(Table(["id", "shape", "width", "height"],
                  [["1", "terminator", "100", "50"], ["2", "process", "200", "100"], ["3", "hexagon", "100", "100"]]))
  {
    var t := Table(["id", "shape"], [["1", "terminator"], ["2", "process"], ["3", "hexagon"]]);
    assert IndexOf(t.header, "shape") == Some(1) by {
      assert t.header[1..] == ["shape"];
    }
    assert t.header + ["width", "height"] == ["id", "shape", "width", "height"];
    assert ["1", "terminator"] + ["100", "50"] == ["1", "terminator", "100", "50"];
    assert ["2", "process"] + ["200", "100"] == ["2", "process", "200", "100"];
    assert ["3", "hexagon"] + ["100", "100"] == ["3", "hexagon", "100", "100"];
    assert AppendSizeFn(1)(t.rows[0]) == Ok(["1", "terminator", "100", "50"]);
    assert AppendSizeFn(1)(t.rows[1]) == Ok(["2", "process", "200", "100"]);
    assert AppendSizeFn(1)(t.rows[2]) == Ok(["3", "hexagon", "100", "100"]);
    MapRowsIs(t.rows, AppendSizeFn(1),
      [["1", "terminator", "100", "50"], ["2", "process", "200", "100"], ["3", "hexagon", "100", "100"]]);
  }
}

/** `csv_delete_height_width.py`: removes the `height` and `width` columns. */
module CsvDeleteHeightWidth {
  import opened Wrappers
  import opened Tables
  import Utils
  import XlAddHeightWidth
  import Shapes

  /**
   * `del` at two distinct indices, the larger one first so that the smaller one
   * still names the same cell: the list without those two cells, in order.
   */
  function DeletePair<T>(s: seq<T>, h: nat, w: nat): (r: seq<T>)
    requires h != w && h < |s| && w < |s|
    ensures |r| == |s| - 2
  {
    if h > w then DeleteAt(DeleteAt(s, h), w) else DeleteAt(DeleteAt(s, w), h)
  }

  /** The cells `DeletePair` keeps: those before both indices, between them, and after both. */
  lemma DeletePairCells<T>(s: seq<T>, h: nat, w: nat)
    requires h != w && h < |s| && w < |s|
    ensures var r := DeletePair(s, h, w);
      && (forall c | 0 <= c < |r| && c < h && c < w :: r[c] == s[c])
      && (forall c | 0 <= c < |r| && (h <= c < w - 1 || w <= c < h - 1) :: r[c] == s[c + 1])
      && (forall c | 0 <= c < |r| && c >= h - 1 && c >= w - 1 :: r[c] == s[c + 2])
  {
  }

  /** One data row: both cells deleted; `IndexError` when the row is too short for either index. */
  function DeleteDimensions(row: Row, h: nat, w: nat): (r: Result<Row, Error>)
    requires h != w
    ensures r.Ok? <==> h < |row| && w < |row|
    ensures r.Ok? ==> r.value == DeletePair(row, h, w)
    ensures r.Err? ==> r.error == RowTooShort
  {
    if h > w then
      if h < |row| then Ok(DeleteAt(DeleteAt(row, h), w)) else Err(RowTooShort)
    else
      if w < |row| then Ok(DeleteAt(DeleteAt(row, w), h)) else Err(RowTooShort)
  }

  function DeleteDimensionsFn(h: nat, w: nat): Row -> Result<Row, Error>
    requires h != w
  {
    row => DeleteDimensions(row, h, w)
  }

  /** `headers.remove('height')` then `headers.remove('width')`: each the first such name left. */
  function RemovedHeader(header: Row): (r: Row)
    requires "height" in header && "width" in header
    ensures r == DeletePair(header, IndexOf(header, "height").value, IndexOf(header, "width").value)
  {
    var h := IndexOf(header, "height").value;
    var once := DeleteAt(header, h);
    assert "width" in once by {
      var w := IndexOf(header, "width").value;
      assert once[if w < h then w else w - 1] == "width";
    }
    var w' := IndexOf(once, "width").value;
    IndexAfterDelete(header, h, "width");
    DeleteAt(once, w')
  }

  /**
   * After deleting a cell that is not `x`, the first `x` is where it was, or one
   * place earlier when it came after the deleted cell.
   */
  lemma IndexAfterDelete(s: seq<string>, h: nat, x: string)
    requires h < |s| && s[h] != x && x in s
    ensures var w := IndexOf(s, x).value;
      IndexOf(DeleteAt(s, h), x) == Some(if w < h then w else w - 1)
  {
    var w := IndexOf(s, x).value;
    IndexOfBefore(s, x, w);
    var d := DeleteAt(s, h);
    var k := if w < h then w else w - 1;
    assert d[k] == s[w];
    forall c | 0 <= c < k
      ensures d[c] != x
    {
      assert d[c] == s[if c < h then c else c + 1];
    }
    IndexOfIs(d, x, k);
  }

  /**
   * The stage: without the first `height` and the first `width`, in the header and
   * at the same two indices of every data row. `height` is looked up first, so a
   * table missing both reports `height`.
   */
  function WithoutDimensions(t: Table): (r: Result<Table, Error>)
    ensures "height" !in t.header ==> r == Err(MissingColumn("height"))
    ensures "height" in t.header && "width" !in t.header ==> r == Err(MissingColumn("width"))
    ensures "height" in t.header && "width" in t.header ==>
      var h, w := IndexOf(t.header, "height").value, IndexOf(t.header, "width").value;
      && (r.Ok? <==> forall j | 0 <= j < |t.rows| :: h < |t.rows[j]| && w < |t.rows[j]|)
      && (r.Err? ==> r.error == RowTooShort)
      && (r.Ok? ==> r.value.header == DeletePair(t.header, h, w) && |r.value.rows| == |t.rows|)
      && (r.Ok? ==> forall j | 0 <= j < |t.rows| :: r.value.rows[j] == DeletePair(t.rows[j], h, w))
  {
    match ColumnIndex(t.header, "height")
    case Err(e) => Err(e)
    case Ok(h) =>
      match ColumnIndex(t.header, "width")
      case Err(e) => Err(e)
      case Ok(w) =>
        DimensionRows(t.rows, h, w);
        match MapRows(t.rows, DeleteDimensionsFn(h, w))
        case Err(e) => Err(e)
        case Ok(rows) => Ok(Table(RemovedHeader(t.header), rows))
  }

  /** The row loop of the stage fails on a row too short for either index, and otherwise deletes both cells. */
  lemma DimensionRows(rows: seq<Row>, h: nat, w: nat)
    requires h != w
    ensures var r := MapRows(rows, DeleteDimensionsFn(h, w));
      && (r.Ok? <==> forall j | 0 <= j < |rows| :: h < |rows[j]| && w < |rows[j]|)
      && (r.Err? ==> r.error == RowTooShort)
      && (r.Ok? ==> forall j | 0 <= j < |rows| :: r.value[j] == DeletePair(rows[j], h, w))
  {
    var f := DeleteDimensionsFn(h, w);
    var r := MapRows(rows, f);
    assert forall j | 0 <= j < |rows| :: f(rows[j]) == DeleteDimensions(rows[j], h, w);
    if r.Err? {
      var k :| 0 <= k < |rows| && f(rows[k]) == Err(r.error);
    }
  }

  /** `remove_dimensions`: the row loop, deleting two cells of each row. */
  method RemoveDimensions(t: Table) returns (r: Result<Table, Error>)
    ensures r == WithoutDimensions(t)
  {
    var foundH := IndexOf(t.header, "height");
    if foundH.None? {
      return Err(MissingColumn("height"));
    }
    var foundW := IndexOf(t.header, "width");
    if foundW.None? {
      return Err(MissingColumn("width"));
    }
    var h, w := foundH.value, foundW.value;
    var headers := RemovedHeader(t.header);
    var out: seq<Row> := [];
    var i := 0;
    while i < |t.rows|
      invariant i <= |t.rows|
      invariant MapRows(t.rows[..i], DeleteDimensionsFn(h, w)) == Ok(out)
    {
      var row := t.rows[i];
      if h > w {
        if h >= |row| {
          MapRowsStop(t.rows, DeleteDimensionsFn(h, w), i, out);
          return Err(RowTooShort);
        }
        row := DeleteAt(row, h);
        row := DeleteAt(row, w);
      } else {
        if w >= |row| {
          MapRowsStop(t.rows, DeleteDimensionsFn(h, w), i, out);
          return Err(RowTooShort);
        }
        row := DeleteAt(row, w);
        row := DeleteAt(row, h);
      }
      MapRowsStep(t.rows, DeleteDimensionsFn(h, w), i, out);
      out := out + [row];
      i := i + 1;
    }
    MapRowsDone(t.rows);
    r := Ok(Table(headers, out));
  }

  /** Deleting two cells, larger index first, is deleting one and then the other's new position. */
  lemma DeletePairInTurn<T>(s: seq<T>, h: nat, w: nat)
    requires h != w && h < |s| && w < |s|
    ensures DeletePair(s, h, w) == DeleteAt(DeleteAt(s, h), if w < h then w else w - 1)
  {
  }

  /** `delete_column(..., 'height')` and then `delete_column(..., 'width')` on its output. */
  function TwoDeletes(t: Table): Result<Table, Error> {
    match Utils.DeleteColumnSpec(t, "height")
    case Err(e) => Err(e)
    case Ok(u) => Utils.DeleteColumnSpec(u, "width")
  }

  /**
   * With both columns present the stage is `delete_column(..., 'height')` followed by
   * `delete_column(..., 'width')`, outcome and exception alike.
   */
  lemma WithoutDimensionsIsTwoDeletes(t: Table)
    requires "height" in t.header && "width" in t.header
    ensures WithoutDimensions(t) == TwoDeletes(t)
  {
    var h, w := IndexOf(t.header, "height").value, IndexOf(t.header, "width").value;
    IndexAfterDelete(t.header, h, "width");
    if forall j | 0 <= j < |t.rows| :: h < |t.rows[j]| && w < |t.rows[j]| {
      TwoDeletesOk(t, h, w);
    } else {
      var j :| 0 <= j < |t.rows| && !(h < |t.rows[j]| && w < |t.rows[j]|);
      TwoDeletesErr(t, h, w, j);
    }
  }

  lemma TwoDeletesErr(t: Table, h: nat, w: nat, j: nat)
    requires "height" in t.header && "width" in t.header
    requires h == IndexOf(t.header, "height").value && w == IndexOf(t.header, "width").value
    requires IndexOf(DeleteAt(t.header, h), "width") == Some(if w < h then w else w - 1)
    requires j < |t.rows| && !(h < |t.rows[j]| && w < |t.rows[j]|)
    ensures WithoutDimensions(t) == Err(RowTooShort) && TwoDeletes(t) == Err(RowTooShort)
  {
    var row := t.rows[j];
    assert !(h < |row| && w < |row|);
    assert WithoutDimensions(t).Err?;
    var first := Utils.DeleteColumnSpec(t, "height");
    if first.Ok? {
      SecondDeleteFails(t, first.value, h, w, j);
      assert TwoDeletes(t) == Utils.DeleteColumnSpec(first.value, "width");
    } else {
      assert TwoDeletes(t) == first;
    }
  }

  lemma SecondDeleteFails(t: Table, u: Table, h: nat, w: nat, j: nat)
    requires "height" in t.header && h == IndexOf(t.header, "height").value
    requires Utils.DeleteColumnSpec(t, "height") == Ok(u)
    requires IndexOf(u.header, "width") == Some(if w < h then w else w - 1)
    requires j < |t.rows| && !(h < |t.rows[j]| && w < |t.rows[j]|)
    ensures Utils.DeleteColumnSpec(u, "width") == Err(RowTooShort)
  {
    assert u.rows[j] == DeleteAt(t.rows[j], h);
  }

  lemma TwoDeletesOk(t: Table, h: nat, w: nat)
    requires "height" in t.header && "width" in t.header
    requires h == IndexOf(t.header, "height").value && w == IndexOf(t.header, "width").value
    requires IndexOf(DeleteAt(t.header, h), "width") == Some(if w < h then w else w - 1)
    requires forall j | 0 <= j < |t.rows| :: h < |t.rows[j]| && w < |t.rows[j]|
    ensures WithoutDimensions(t) == TwoDeletes(t)
  {
    var w' := if w < h then w else w - 1;
    var mid := seq(|t.rows|, j requires 0 <= j < |t.rows| => DeleteAt(t.rows[j], h));
    var out := seq(|t.rows|, j requires 0 <= j < |t.rows| => DeletePair(t.rows[j], h, w));
    MapRowsIs(t.rows, Utils.DeleteCellFn(h), mid);
    forall j | 0 <= j < |mid| ensures Utils.DeleteCellFn(w')(mid[j]) == Ok(out[j]) {
      DeletePairInTurn(t.rows[j], h, w);
    }
    MapRowsIs(mid, Utils.DeleteCellFn(w'), out);
    MapRowsIs(t.rows, DeleteDimensionsFn(h, w), out);
    DeletePairInTurn(t.header, h, w);
    TwoDeletesOfRows(t, h, w', mid, out);
    DimensionsOfRows(t, h, w, out);
  }

  /** `TwoDeletes` once both row loops are known to succeed. */
  lemma TwoDeletesOfRows(t: Table, h: nat, w': nat, mid: seq<Row>, out: seq<Row>)
    requires IndexOf(t.header, "height") == Some(h) && MapRows(t.rows, Utils.DeleteCellFn(h)) == Ok(mid)
    requires IndexOf(DeleteAt(t.header, h), "width") == Some(w') && MapRows(mid, Utils.DeleteCellFn(w')) == Ok(out)
    ensures TwoDeletes(t) == Ok(Table(DeleteAt(DeleteAt(t.header, h), w'), out))
  {
    var u := Table(DeleteAt(t.header, h), mid);
    assert Utils.DeleteColumnSpec(t, "height") == Ok(u);
  }

  /** `WithoutDimensions` once its row loop is known to succeed. */
  lemma DimensionsOfRows(t: Table, h: nat, w: nat, out: seq<Row>)
    requires IndexOf(t.header, "height") == Some(h) && IndexOf(t.header, "width") == Some(w)
    requires MapRows(t.rows, DeleteDimensionsFn(h, w)) == Ok(out)
    ensures WithoutDimensions(t) == Ok(Table(DeletePair(t.header, h, w), out))
  {
  }

  /**
   * Deleting the dimensions undoes `xl_add_height_width.py` on a table that had
   * neither column and whose rows are as wide as its header.
   */
  lemma RemoveUndoesInsert(t: Table)
    requires "width" !in t.header && "height" !in t.header
    requires forall j | 0 <= j < |t.rows| :: |t.rows[j]| == |t.header|
    requires XlAddHeightWidth.WithDimensions(t).Ok?
    ensures WithoutDimensions(XlAddHeightWidth.WithDimensions(t).value) == Ok(t)
  {
    var u := XlAddHeightWidth.WithDimensions(t).value;
    var k := IndexOf(t.header, "shape").value;
    var n := |t.header|;
    assert u.header == t.header + ["width", "height"];
    forall j | 0 <= j < |u.rows|
      ensures n + 1 < |u.rows[j]| && DeletePair(u.rows[j], n + 1, n) == t.rows[j]
    {
      var size := Shapes.SheetSize(t.rows[j][k]);
      assert u.rows[j] == t.rows[j] + [size.width, size.height];
      DeleteAppended(t.rows[j], size.width, size.height);
    }
    UndoneRows(t, u);
  }

  /** A table with two columns appended, whose rows lose exactly those cells, is restored. */
  lemma UndoneRows(t: Table, u: Table)
    requires "width" !in t.header && "height" !in t.header
    requires u.header == t.header + ["width", "height"] && |u.rows| == |t.rows|
    requires forall j | 0 <= j < |u.rows| ::
      |t.header| + 1 < |u.rows[j]| && DeletePair(u.rows[j], |t.header| + 1, |t.header|) == t.rows[j]
    ensures WithoutDimensions(u) == Ok(t)
  {
    AppendedIndices(t.header);
    DeleteAppended(t.header, "width", "height");
    var r := WithoutDimensions(u);
    assert r.Ok? && r.value.header == t.header;
    assert r.value.rows == t.rows;
  }

  /** The two columns appended after a header that had neither are found where they were appended. */
  lemma AppendedIndices(header: Row)
    requires "width" !in header && "height" !in header
    ensures IndexOf(header + ["width", "height"], "width") == Some(|header|)
    ensures IndexOf(header + ["width", "height"], "height") == Some(|header| + 1)
  {
    var added: Row := ["width", "height"];
    assert |added[0]| != |"height"|;
    IndexOfIs(added, "width", 0);
    IndexOfIs(added, "height", 1);
    IndexOfAfter(header, added, "width");
    IndexOfAfter(header, added, "height");
  }

  /** Deleting the two cells appended to a row gives the row back. */
  lemma DeleteAppended<T>(row: seq<T>, a: T, b: T)
    ensures DeletePair(row + [a, b], |row| + 1, |row|) == row
  {
    assert DeleteAt(row + [a, b], |row| + 1) == row + [a];
    assert DeleteAt(row + [a], |row|) == row;
  }
}

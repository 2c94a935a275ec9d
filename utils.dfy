/**
 * The table utilities of `drawio_xl/utils.py`: deleting a named column,
 * deleting the columns whose header is empty, and deleting the lines that hold
 * nothing but whitespace.
 */
module Utils {
  import opened Wrappers
  import opened Strings
  import opened Tables

  // ------------------------------------------------------------------ delete_column

  function DeleteCellFn(k: nat): Row -> Result<Row, Error> {
    row => DeleteCell(row, k)
  }

  /**
   * `delete_column`: without the first column named `name`, header cell and the
   * data cell at the same index in every row; the content as it was when no
   * column has that name. A row too short for the index raises `IndexError`.
   */
  function DeleteColumnSpec(t: Table, name: string): (r: Result<Table, Error>)
    ensures name !in t.header ==> r == Ok(t)
    ensures name in t.header ==>
      var k := IndexOf(t.header, name).value;
      && (r.Ok? <==> forall j | 0 <= j < |t.rows| :: k < |t.rows[j]|)
      && (r.Err? ==> r.error == RowTooShort)
      && (r.Ok? ==>
            && r.value.header == DeleteAt(t.header, k)
            && |r.value.rows| == |t.rows|
            && forall j | 0 <= j < |t.rows| :: r.value.rows[j] == DeleteAt(t.rows[j], k))
  {
    match IndexOf(t.header, name)
    case None => Ok(t)
    case Some(k) =>
      match MapRows(t.rows, DeleteCellFn(k))
      case Err(e) => Err(e)
      case Ok(rows) => Ok(Table(DeleteAt(t.header, k), rows))
  }

  /** The row loop of `delete_column`, deleting one cell of each row in turn. */
  method DeleteColumn(t: Table, name: string) returns (r: Result<Table, Error>)
    ensures r == DeleteColumnSpec(t, name)
  {
    if name !in t.header {
      return Ok(t);
    }
    var k := IndexOf(t.header, name).value;
    var headers := t.header[..k] + t.header[k + 1..];
    var out: seq<Row> := [];
    var i := 0;
    while i < |t.rows|
      invariant i <= |t.rows|
      invariant MapRows(t.rows[..i], DeleteCellFn(k)) == Ok(out)
    {
      var row := t.rows[i];
      if k >= |row| {
        MapRowsStop(t.rows, DeleteCellFn(k), i, out);
        return Err(RowTooShort);
      }
      row := row[..k] + row[k + 1..];
      MapRowsStep(t.rows, DeleteCellFn(k), i, out);
      out := out + [row];
      i := i + 1;
    }
    MapRowsDone(t.rows);
    r := Ok(Table(headers, out));
  }

  /** Deleting a column named once leaves no column of that name, and every other name in order. */
  lemma DeleteColumnRemovesName(t: Table, name: string)
    requires multiset(t.header)[name] == 1
    requires DeleteColumnSpec(t, name).Ok?
    ensures name !in DeleteColumnSpec(t, name).value.header
    ensures DeleteColumnSpec(t, name).value.header == Without(t.header, {name})
  {
    var k := IndexOf(t.header, name).value;
    DeleteOnly(t.header, k);
  }

  lemma OnlyOccurrence(h: seq<string>, k: nat)
    requires k < |h| && multiset(h)[h[k]] == 1
    ensures h[k] !in h[..k] && h[k] !in h[k + 1..]
  {
    assert h == h[..k] + [h[k]] + h[k + 1..];
    assert multiset(h) == multiset(h[..k]) + multiset{h[k]} + multiset(h[k + 1..]);
  }

  /** Deleting the only occurrence of a name is dropping that name. */
  lemma DeleteOnly(h: seq<string>, k: nat)
    requires k < |h| && multiset(h)[h[k]] == 1
    ensures DeleteAt(h, k) == Without(h, {h[k]}) && h[k] !in DeleteAt(h, k)
  {
    var name, a, b := h[k], h[..k], h[k + 1..];
    OnlyOccurrence(h, k);
    SplitAround(h, k);
    WithoutAbsent(a, name);
    WithoutAbsent(b, name);
    WithoutAppend(a + [name], b, {name});
    WithoutAppend(a, [name], {name});
    assert Without([name], {name}) == [] by {
      assert [name][..0] == [];
    }
    assert a + [] == a;
  }

  lemma SplitAround(h: seq<string>, k: nat)
    requires k < |h|
    ensures h == h[..k] + [h[k]] + h[k + 1..]
    ensures DeleteAt(h, k) == h[..k] + h[k + 1..]
  {
  }

  lemma {:induction false} WithoutAbsent(s: seq<string>, x: string)
    requires x !in s
    ensures Without(s, {x}) == s
    decreases |s|
  {
    if s != [] {
      WithoutAbsent(s[..|s| - 1], x);
      assert s == s[..|s| - 1] + [s[|s| - 1]];
    }
  }

  lemma {:induction false} WithoutAppend(a: seq<string>, b: seq<string>, drop: set<string>)
    ensures Without(a + b, drop) == Without(a, drop) + Without(b, drop)
    decreases |b|
  {
    if b == [] {
      assert a + b == a;
    } else {
      var b' := b[..|b| - 1];
      WithoutAppend(a, b', drop);
      assert (a + b)[..|a + b| - 1] == a + b';
      assert (a + b)[|a + b| - 1] == b[|b| - 1];
    }
  }

  /** Dropping some names leaves the count of every other name as it was. */
  lemma {:induction false} WithoutCount(s: seq<string>, drop: set<string>, y: string)
    requires y !in drop
    ensures multiset(Without(s, drop))[y] == multiset(s)[y]
    decreases |s|
  {
    if s != [] {
      var front, last := s[..|s| - 1], s[|s| - 1];
      WithoutCount(front, drop, y);
      assert s == front + [last];
    }
  }

  /** Dropping two sets of names one after the other drops their union. */
  lemma {:induction false} WithoutTwice(s: seq<string>, a: set<string>, b: set<string>)
    ensures Without(Without(s, a), b) == Without(s, a + b)
    decreases |s|
  {
    if s != [] {
      var front, last := s[..|s| - 1], s[|s| - 1];
      WithoutTwice(front, a, b);
      var tail := if last in a then [] else [last];
      WithoutAppend(Without(front, a), tail, b);
      if last !in a {
        assert Without(tail, b) == Without([], b) + (if last in b then [] else [last]) by {
          assert tail[..0] == [];
        }
      }
    }
  }

  /**
   * The examples of `tests/test_utils.py`: deleting `height` from a three-column
   * table, and deleting `weight`, which it does not have.
   */
  lemma DeleteColumnExample()
    ensures DeleteColumnSpec(
      Table(["name", "age", "height"], [["Alice", "20", "160"], ["Bob", "25", "175"]]), "height")
      == Ok(Table(["name", "age"], [["Alice", "20"], ["Bob", "25"]]))
    ensures var t := Table(["name", "age", "height"], [["Alice", "20", "160"], ["Bob", "25", "175"]]);
      DeleteColumnSpec(t, "weight") == Ok(t)
  {
    DeleteHeightExample();
    DeleteWeightExample();
  }

  /** Deleting `height`, the last column of the test's table. */
  lemma DeleteHeightExample()
    ensures DeleteColumnSpec(
      Table(["name", "age", "height"], [["Alice", "20", "160"], ["Bob", "25", "175"]]), "height")
      == Ok(Table(["name", "age"], [["Alice", "20"], ["Bob", "25"]]))
  {
    var t := Table(["name", "age", "height"], [["Alice", "20", "160"], ["Bob", "25", "175"]]);
    assert t.header[1..][1..] == ["height"];
    assert IndexOf(t.header, "height") == Some(2);
    var f := DeleteCellFn(2);
    assert DeleteAt(t.rows[0], 2) == ["Alice", "20"];
    assert DeleteAt(t.rows[1], 2) == ["Bob", "25"];
    assert DeleteAt(t.header, 2) == ["name", "age"];
    assert MapRows(t.rows[..0], f) == Ok([]);
    assert f(t.rows[0]) == Ok(["Alice", "20"]);
    assert f(t.rows[1]) == Ok(["Bob", "25"]);
    MapRowsStep(t.rows, f, 0, []);
    assert [] + [["Alice", "20"]] == [["Alice", "20"]];
    MapRowsStep(t.rows, f, 1, [["Alice", "20"]]);
    assert t.rows[..2] == t.rows;
    assert [["Alice", "20"]] + [["Bob", "25"]] == [["Alice", "20"], ["Bob", "25"]];
    assert MapRows(t.rows, f) == Ok([["Alice", "20"], ["Bob", "25"]]);
    assert DeleteColumnSpec(t, "height") == Ok(Table(DeleteAt(t.header, 2), [["Alice", "20"], ["Bob", "25"]]));
  }

  /** Deleting `weight`, which the test's table does not have. */
  lemma DeleteWeightExample()
    ensures var t := Table(["name", "age", "height"], [["Alice", "20", "160"], ["Bob", "25", "175"]]);
      DeleteColumnSpec(t, "weight") == Ok(t)
  {
    var t := Table(["name", "age", "height"], [["Alice", "20", "160"], ["Bob", "25", "175"]]);
    assert t.header[0] != "weight" && t.header[1] != "weight" && t.header[2] != "weight";
    assert "weight" !in t.header;
  }

  // ------------------------------------------------------------------ delete_empty_cols

  /**
   * `delete_empty_cols`: the header and every row projected onto the positions
   * whose header is non-empty; cells past the last header are dropped, and a row
   * too short for a kept position raises `IndexError`.
   */
  function DeleteEmptyCols(t: Table): (r: Result<Table, Error>)
    ensures r.Ok? <==> forall j | 0 <= j < |t.rows| :: Covers(t.rows[j], NonEmptyPositions(t.header))
    ensures r.Ok? ==> r.value.header == Without(t.header, {""}) && "" !in r.value.header
    ensures r.Ok? ==> |r.value.rows| == |t.rows|
    ensures r.Ok? ==> forall j | 0 <= j < |t.rows| ::
      r.value.rows[j] == Project(t.rows[j], NonEmptyPositions(t.header)) &&
      |r.value.rows[j]| == |r.value.header|
  {
    var keep := NonEmptyPositions(t.header);
    ProjectNonEmpty(t.header);
    WithoutMembers(t.header, {""});
    match MapRows(t.rows, ProjectFn(keep))
    case Err(e) => Err(e)
    case Ok(rows) => Ok(Table(Project(t.header, keep), rows))
  }

  /** A second pass finds nothing more to delete. */
  lemma DeleteEmptyColsIdempotent(t: Table)
    requires DeleteEmptyCols(t).Ok?
    ensures DeleteEmptyCols(DeleteEmptyCols(t).value) == DeleteEmptyCols(t)
  {
    var u := DeleteEmptyCols(t).value;
    NonEmptyPositionsAll(u.header);
    forall j | 0 <= j < |u.rows| ensures ProjectCells(u.rows[j], NonEmptyPositions(u.header)) == Ok(u.rows[j]) {
      ProjectAll(u.rows[j]);
    }
    assert MapRows(u.rows, ProjectFn(NonEmptyPositions(u.header))).value == u.rows;
    ProjectAll(u.header);
  }

  /** The example of `tests/test_utils.py`: an empty middle column and trailing empty cells. */
  lemma DeleteEmptyColsExample()
    ensures DeleteEmptyCols(Table(["header1", "", "header3"], [["value1", "", "value3", "", "", ""]]))
      == Ok(Table(["header1", "header3"], [["value1", "value3"]]))
  {
    var h := ["header1", "", "header3"];
    ExamplePositions();
    var rows := [["value1", "", "value3", "", "", ""]];
    assert Project(rows[0], [0, 2]) == ["value1", "value3"];
    assert Project(h, [0, 2]) == ["header1", "header3"];
    assert MapRows(rows[..0], ProjectFn([0, 2])) == Ok([]);
    MapRowsStep(rows, ProjectFn([0, 2]), 0, []);
    assert rows[..1] == rows;
    assert [] + [["value1", "value3"]] == [["value1", "value3"]];
    assert MapRows(rows, ProjectFn([0, 2])) == Ok([["value1", "value3"]]);
  }

  lemma ExamplePositions()
    ensures NonEmptyPositions(["header1", "", "header3"]) == [0, 2]
  {
    var h := ["header1", "", "header3"];
    assert h[..2] == ["header1", ""];
    assert h[..2][..1] == ["header1"];
    assert h[..2][..1][..0] == [];
    assert NonEmptyPositions(h[..2][..1]) == [0];
    assert NonEmptyPositions(h[..2]) == [0];
  }

  // ------------------------------------------------------------------ delete_empty_rows

  /** `any(field.strip() for field in row)`. */
  predicate HasContent(row: Row)
    decreases |row|
  {
    row != [] && (Strip(row[0]) != "" || HasContent(row[1..]))
  }

  /** A row has content exactly when one of its cells has a non-whitespace character. */
  lemma {:induction false} HasContentIff(row: Row)
    ensures HasContent(row) <==> exists i | 0 <= i < |row| :: !Blank(row[i])
    decreases |row|
  {
    if row != [] {
      StripEmpty(row[0]);
      HasContentIff(row[1..]);
      assert forall i | 1 <= i < |row| :: row[i] == row[1..][i - 1];
      if exists i | 0 <= i < |row[1..]| :: !Blank(row[1..][i]) {
        var i :| 0 <= i < |row[1..]| && !Blank(row[1..][i]);
        assert row[i + 1] == row[1..][i];
      }
    }
  }

  /**
   * `delete_empty_rows`: the lines, header included, that have content, in order
   * and unmodified; a line with no cell at all is dropped.
   */
  function DeleteEmptyRows(rows: seq<Row>): (r: seq<Row>)
    ensures forall row :: row in r <==> row in rows && HasContent(row)
    ensures |r| <= |rows|
  {
    FilterMembers(rows, HasContent);
    Filter(rows, HasContent)
  }

  /** Filtering the lines of two pieces of a file is filtering each piece: order is kept. */
  lemma DeleteEmptyRowsAppend(a: seq<Row>, b: seq<Row>)
    ensures DeleteEmptyRows(a + b) == DeleteEmptyRows(a) + DeleteEmptyRows(b)
  {
    FilterAppend(a, b, HasContent);
  }

  /** A second pass deletes nothing. */
  lemma DeleteEmptyRowsIdempotent(rows: seq<Row>)
    ensures DeleteEmptyRows(DeleteEmptyRows(rows)) == DeleteEmptyRows(rows)
  {
    FilterIdempotent(rows, HasContent);
  }

  /** A row whose first cell starts with a non-space character has content. */
  lemma FirstCellContent(row: Row)
    requires |row| > 0 && |row[0]| > 0 && !IsSpace(row[0][0])
    ensures HasContent(row)
  {
    StripEmpty(row[0]);
  }

  lemma BlankRowNoContent(row: Row)
    requires forall i | 0 <= i < |row| :: row[i] == ""
    ensures !HasContent(row)
  {
    HasContentIff(row);
  }

  /** The example of `tests/test_utils.py`: a line of empty cells between two lines with content. */
  lemma DeleteEmptyRowsExample()
    ensures DeleteEmptyRows([["header1", "header2", "header3"], ["value1", "value2", "value3"],
                             ["", "", ""], ["value4", "value5", "value6"]])
      == [["header1", "header2", "header3"], ["value1", "value2", "value3"], ["value4", "value5", "value6"]]
  {
    var r0, r1, r2, r3 := ["header1", "header2", "header3"], ["value1", "value2", "value3"],
                          ["", "", ""], ["value4", "value5", "value6"];
    FirstCellContent(r0);
    FirstCellContent(r1);
    BlankRowNoContent(r2);
    FirstCellContent(r3);
    FilterSnoc([], r0, HasContent);
    FilterSnoc([r0], r1, HasContent);
    FilterSnoc([r0, r1], r2, HasContent);
    FilterSnoc([r0, r1, r2], r3, HasContent);
    assert [] + [r0] == [r0];
    assert [r0] + [r1] == [r0, r1];
    assert [r0, r1] + [r2] == [r0, r1, r2];
    assert [r0, r1, r2] + [r3] == [r0, r1, r2, r3];
    assert [r0, r1] + [r3] == [r0, r1, r3];
  }
}

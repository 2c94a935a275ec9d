/**
 * `xl_to_csv.py`: turns the 15-column spreadsheet layout (the 14 columns that
 * `csv_to_xl.py` writes plus `xl_id`) back into the 22-column CSV of the diagram.
 * The gate rows get their draw.io shapes back, width and height come from the
 * size table, and the compacted `next_step_id` and `connector_label` lists of a
 * decision row are spread over the three slot pairs.
 */
module XlToCsv {
  import opened Wrappers
  import opened Strings
  import opened Tables
  import opened Shapes
  import opened Decisions
  import CsvToXl

  /** The header `write_output_to_csv` writes. */
  const OutputHeader: seq<string> := [
    "id", "owner", "description", "status", "function", "phase",
    "estimated_duration", "estimated_completion_date", "notes",
    "wbs", "oqe", "next_step_id", "shape", "width", "height",
    "decision0_id", "decision0_label", "decision1_id", "decision1_label",
    "decision2_id", "decision2_label", "xl_id"]

  /** Rows with fewer cells than this are passed over. */
  const MinWidth := 14

  /**
   * The 15 cells a data row unpacks into, by position: id 0, owner 1, description 2,
   * status 3, function 4, phase 5, estimated_duration 6, estimated_completion_date 7,
   * notes 8, wbs 9, oqe 10, next_step_id 11, shape 12, connector_label 13, xl_id 14.
   */
  const InputWidth := 15

  /** The slot cells of a row that is not a decision: three pairs of `None`. */
  const NoSlots: seq<string> := ["", "", "", "", "", ""]

  /**
   * The draw.io shape names back from the spreadsheet vocabulary: `start` is
   * `start_1`, `end` is `terminator`, and a `process` whose description is `AND`
   * or `OR` is the gate of that kind, with the description cleared.
   */
  function UnmapShape(shape: string, description: string): (r: (string, string))
    ensures shape !in {"start", "end", "process"} ==> r == (shape, description)
    ensures shape == "process" && description !in {"AND", "OR"} ==> r == (shape, description)
    ensures shape == "start" ==> r == ("start_1", description)
    ensures shape == "end" ==> r == ("terminator", description)
    ensures shape == "process" && description == "AND" ==> r == ("summing_function", "")
    ensures shape == "process" && description == "OR" ==> r == ("or", "")
    ensures r.0 !in {"start", "end"}
  {
    if shape == "start" then ("start_1", description)
    else if shape == "end" then ("terminator", description)
    else if shape == "process" && description == "AND" then ("summing_function", "")
    else if shape == "process" && description == "OR" then ("or", "")
    else (shape, description)
  }

  /**
   * One data row in the 22-column layout: the first eleven fields, `next_step_id`
   * (cleared on a decision row), the restored shape, its width and height, the six
   * slot cells and `xl_id`. Unpacking any other width than 15 raises `ValueError`.
   */
  function RestoreRow(row: Row): (r: Result<Row, Error>)
    ensures r.Ok? <==> |row| == InputWidth
    ensures r.Ok? ==> |r.value| == |OutputHeader| && r.value[21] == row[14]
  {
    if |row| != InputWidth then Err(WrongCellCount)
    else
      var (shape, description) := UnmapShape(row[12], row[2]);
      var size := SheetSize(shape);
      var next := if shape == "decision" then "" else row[11];
      var slots := if shape == "decision" then Slots(Split(row[11], ", "), Split(row[13], ", ")) else NoSlots;
      Ok([row[0], row[1], description, row[3], row[4], row[5], row[6], row[7], row[8],
          row[9], row[10], next, shape, size.width, size.height] + slots + [row[14]])
  }

  /** A row with enough cells to be looked at. */
  predicate Long(row: Row) {
    |row| >= MinWidth
  }

  function LongFn(): Row -> bool {
    row => Long(row)
  }

  function RestoreFn(): Row -> Result<Row, Error> {
    row => RestoreRow(row)
  }

  /**
   * `reverse_process_csv` and `write_output_to_csv`: the first row is skipped, the
   * short rows are passed over, every other row is restored in order.
   */
  function Restored(t: Table): (r: Result<Table, Error>)
    ensures r.Ok? ==> r.value.header == OutputHeader
    ensures r.Ok? ==> forall k | 0 <= k < |r.value.rows| :: |r.value.rows[k]| == |OutputHeader|
    ensures r.Ok? <==> forall k | 0 <= k < |t.rows| :: |t.rows[k]| < MinWidth || |t.rows[k]| == InputWidth
  {
    RestoredAll(t);
    match MapRows(Filter(t.rows, LongFn()), RestoreFn())
    case Err(e) => Err(e)
    case Ok(out) => Ok(Table(OutputHeader, out))
  }

  /** Every kept row restores exactly when every row is short or 15 cells wide. */
  lemma RestoredAll(t: Table)
    ensures MapRows(Filter(t.rows, LongFn()), RestoreFn()).Ok? <==>
      forall k | 0 <= k < |t.rows| :: |t.rows[k]| < MinWidth || |t.rows[k]| == InputWidth
  {
    var kept := Filter(t.rows, LongFn());
    FilterMembers(t.rows, LongFn());
    assert forall k | 0 <= k < |t.rows| && Long(t.rows[k]) :: t.rows[k] in kept;
    if MapRows(kept, RestoreFn()).Err? {
      var j :| 0 <= j < |kept| && RestoreRow(kept[j]).Err?;
      assert kept[j] in t.rows;
      var k :| 0 <= k < |t.rows| && t.rows[k] == kept[j];
    }
  }

  /** The loop of `reverse_process_csv`, with its `continue` and its rebinding of fields. */
  method ReverseProcessCsv(t: Table) returns (r: Result<Table, Error>)
    ensures r == Restored(t)
  {
    var out: seq<Row> := [];
    var i := 0;
    while i < |t.rows|
      invariant i <= |t.rows| && MapRows(Filter(t.rows[..i], LongFn()), RestoreFn()) == Ok(out)
    {
      var row := t.rows[i];
      if |row| < MinWidth {
        assert !LongFn()(row);
        FilterMapStep(t.rows, LongFn(), RestoreFn(), i, out);
        i := i + 1;
        continue;
      }
      assert LongFn()(row);
      if |row| != InputWidth {
        RestoredStop(t, i);
        return Err(WrongCellCount);
      }
      var restored := RestoreLine(row);
      assert RestoreFn()(row) == Ok(restored);
      FilterMapStep(t.rows, LongFn(), RestoreFn(), i, out);
      out := out + [restored];
      i := i + 1;
    }
    assert t.rows[..i] == t.rows;
    r := Ok(Table(OutputHeader, out));
  }

  /** The body of the row loop for a row of the right width, with its rebinding of fields. */
  method RestoreLine(row: Row) returns (restored: Row)
    requires |row| == InputWidth
    ensures RestoreRow(row) == Ok(restored)
  {
    var shape, description := row[12], row[2];
    if shape == "start" {
      shape := "start_1";
    } else if shape == "end" {
      shape := "terminator";
    } else if shape == "process" && description == "AND" {
      shape := "summing_function";
      description := "";
    } else if shape == "process" && description == "OR" {
      shape := "or";
      description := "";
    }
    var size := SheetSize(shape);
    var nextStepId, fields := row[11], NoSlots;
    if shape == "decision" {
      fields := Slots(Split(row[11], ", "), Split(row[13], ", "));
      nextStepId := "";
    }
    restored := [row[0], row[1], description, row[3], row[4], row[5], row[6], row[7], row[8],
                 row[9], row[10], nextStepId, shape, size.width, size.height] + fields + [row[14]];
  }

  /** A long row of the wrong width stops the stage with `WrongCellCount`. */
  lemma RestoredStop(t: Table, i: nat)
    requires i < |t.rows| && Long(t.rows[i]) && |t.rows[i]| != InputWidth
    requires MapRows(Filter(t.rows[..i], LongFn()), RestoreFn()).Ok?
    ensures Restored(t) == Err(WrongCellCount)
  {
    var kept := Filter(t.rows[..i], LongFn());
    var row := t.rows[i];
    assert t.rows == t.rows[..i] + [row] + t.rows[i + 1..];
    FilterAppend(t.rows[..i] + [row], t.rows[i + 1..], LongFn());
    FilterSnoc(t.rows[..i], row, LongFn());
    var all := Filter(t.rows, LongFn());
    assert all == kept + [row] + Filter(t.rows[i + 1..], LongFn());
    assert all[..|kept|] == kept && all[|kept|] == row;
    MapRowsStop(all, RestoreFn(), |kept|, MapRows(kept, RestoreFn()).value);
  }

  // ------------------------------------------------------------------ properties

  /**
   * The restored row: the restored shape and description, the size of that shape,
   * the split lists of a decision row over the slots with `next_step_id` cleared
   * (the list kept and the slots empty otherwise), the other ten fields in place
   * and `xl_id` last.
   */
  lemma RestoredRow(row: Row)
    requires |row| == InputWidth
    ensures var out, m := RestoreRow(row).value, UnmapShape(row[12], row[2]);
      && out[12] == m.0 && out[2] == m.1
      && out[13] == SheetSize(m.0).width && out[14] == SheetSize(m.0).height
      && (m.0 == "decision" ==>
            out[11] == "" && out[15..21] == Slots(Split(row[11], ", "), Split(row[13], ", ")))
      && (m.0 != "decision" ==> out[11] == row[11] && out[15..21] == NoSlots)
      && out[..2] == row[..2] && out[3..11] == row[3..11] && out[21] == row[14]
  {
  }

  /**
   * The stage keeps exactly the rows with at least 14 cells, in order, and restores
   * each of them.
   */
  lemma RestoredRows(t: Table, k: nat)
    requires Restored(t).Ok? && k < |Filter(t.rows, LongFn())|
    ensures RestoreRow(Filter(t.rows, LongFn())[k]) == Ok(Restored(t).value.rows[k])
    ensures |Restored(t).value.rows| == |Filter(t.rows, LongFn())|
  {
  }

  /**
   * A 14-cell row, which is what `csv_to_xl.py` writes, passes the length guard and
   * then fails to unpack: the stage needs the `xl_id` column added first.
   */
  lemma FourteenCellsFail(t: Table, k: nat)
    requires k < |t.rows| && |t.rows[k]| == |CsvToXl.OutputHeader|
    ensures Restored(t) == Err(WrongCellCount)
  {
    var bad := t.rows[k];
    FilterMembers(t.rows, LongFn());
    assert bad in Filter(t.rows, LongFn());
    var r := Restored(t);
    assert r.Err?;
    var all := Filter(t.rows, LongFn());
    var j :| 0 <= j < |all| && RestoreRow(all[j]) == Err(r.error);
  }

  /** Restoring the shape undoes the spreadsheet renaming of every draw.io shape name except `start`, `end` and `process`. */
  lemma ShapeRoundTrip(shape: string, description: string)
    requires shape !in {"start", "end", "process"}
    ensures var m := CsvToXl.MapShape(shape, description);
      UnmapShape(m.0, m.1) == (shape, if shape in {"summing_function", "or"} then "" else description)
  {
  }

  /** Renaming undoes the restoring of every spreadsheet shape name that is not a draw.io-only name. */
  lemma SheetShapeRoundTrip(shape: string, description: string)
    requires shape !in {"start_1", "terminator", "summing_function", "or"}
    ensures var u := UnmapShape(shape, description); CsvToXl.MapShape(u.0, u.1) == (shape, description)
  {
  }

  /**
   * A `process` step whose description happens to be `AND` does not survive the
   * round trip: it comes back as an AND gate with no description.
   */
  lemma ProcessAndLost()
    ensures var m := CsvToXl.MapShape("process", "AND"); UnmapShape(m.0, m.1) == ("summing_function", "")
  {
  }

  /**
   * A diagram row through `csv_to_xl.py`, with an `xl_id` cell appended, and back:
   * the shape, the description (cleared on a gate), the other ten fields and
   * `xl_id` come back; width and height are taken from the size table; a row that
   * is not a decision keeps `next_step_id` and gets empty slots.
   */
  lemma RowRoundTrip(row: Row, xl: string)
    requires |row| == CsvToXl.InputWidth && row[12] !in {"start", "end", "process"}
    ensures var back := RestoreRow(CsvToXl.ConvertRow(row).value + [xl]);
      && back.Ok?
      && back.value[12] == row[12]
      && back.value[2] == (if row[12] in {"summing_function", "or"} then "" else row[2])
      && back.value[..2] == row[..2] && back.value[3..11] == row[3..11]
      && back.value[13] == SheetSize(row[12]).width && back.value[14] == SheetSize(row[12]).height
      && (row[12] != "decision" ==> back.value[11] == row[11] && back.value[15..21] == NoSlots)
      && back.value[21] == xl
  {
    var mid := CsvToXl.ConvertRow(row).value + [xl];
    CsvToXl.ConvertedRow(row);
    ShapeRoundTrip(row[12], row[2]);
    RestoredRow(mid);
    assert mid[..2] == row[..2] && mid[3..11] == row[3..11];
  }

  /**
   * A decision row whose three ids and three labels are all filled and free of
   * `", "` gets the same three pairs back, and an empty `next_step_id`.
   */
  lemma DecisionRoundTrip(row: Row, xl: string)
    requires |row| == CsvToXl.InputWidth && row[12] == "decision"
    requires forall i | 0 <= i < 3 :: Present(row[15 + 2 * i]) && Present(row[16 + 2 * i])
    requires Separable([row[15], row[17], row[19]]) && Separable([row[16], row[18], row[20]])
    ensures var back := RestoreRow(CsvToXl.ConvertRow(row).value + [xl]);
      back.Ok? && back.value[11] == "" && back.value[15..21] == row[15..21]
  {
    var mid := CsvToXl.ConvertRow(row).value + [xl];
    CsvToXl.ConvertedRow(row);
    var ids, labels := [row[15], row[17], row[19]], [row[16], row[18], row[20]];
    assert forall i | 0 <= i < 3 :: Present(ids[i]) && Present(labels[i]) by {
      assert Present(row[15 + 2 * 0]) && Present(row[15 + 2 * 1]) && Present(row[15 + 2 * 2]);
      assert Present(row[16 + 2 * 0]) && Present(row[16 + 2 * 1]) && Present(row[16 + 2 * 2]);
    }
    SpreadCompact(ids);
    SpreadCompact(labels);
    RestoredRow(mid);
    var back := RestoreRow(mid).value;
    assert back[15..21] == Slots(ids, labels);
  }
}

/**
 * `csv_to_xl.py`: turns the 21-column CSV of the diagram into the 14-column
 * spreadsheet layout. Comment rows and header rows are skipped; gates become
 * `process` rows with the gate kind in the description; the decision slots are
 * compacted into `next_step_id` and `connector_label`; width, height and the slots
 * are dropped.
 */
module CsvToXl {
  import opened Wrappers
  import opened Strings
  import opened Tables
  import opened Decisions

  /** The header `write_output_to_csv` writes. */
  const OutputHeader: seq<string> := [
    "Process Step ID", "Owner", "Description", "Status", "Function", "Phase",
    "Estimated Duration", "Estimated Completion Date", "Notes",
    "WBS", "OQE", "Next Step ID", "Shape Type", "Connector Label"]

  /**
   * The 21 cells a data row unpacks into, by position: id 0, owner 1, description 2,
   * status 3, function 4, phase 5, estimated_duration 6, estimated_completion_date 7,
   * notes 8, wbs 9, oqe 10, next_step_id 11, shape 12, width 13, height 14, then
   * decision0_id 15, decision0_label 16, decision1_id 17, decision1_label 18,
   * decision2_id 19, decision2_label 20.
   */
  const InputWidth := 21

  /**
   * The shape vocabulary of the spreadsheet: `start_1` is `start`, `terminator` is
   * `end`, and the two gates become `process` with the gate kind as description
   * (`summing_function` is `AND`, `or` is `OR`). Other shapes are kept.
   */
  function MapShape(shape: string, description: string): (r: (string, string))
    ensures shape !in {"start_1", "terminator", "summing_function", "or"} ==> r == (shape, description)
    ensures shape == "start_1" ==> r == ("start", description)
    ensures shape == "terminator" ==> r == ("end", description)
    ensures shape == "summing_function" ==> r == ("process", "AND")
    ensures shape == "or" ==> r == ("process", "OR")
    ensures r.0 !in {"start_1", "terminator", "summing_function", "or"}
  {
    if shape == "start_1" then ("start", description)
    else if shape == "terminator" then ("end", description)
    else if shape == "summing_function" then ("process", "AND")
    else if shape == "or" then ("process", "OR")
    else (shape, description)
  }

  /** One data row in the 14-column layout; unpacking any other width raises `ValueError`. */
  function ConvertRow(row: Row): (r: Result<Row, Error>)
    ensures r.Ok? <==> |row| == InputWidth
    ensures r.Ok? ==> |r.value| == |OutputHeader|
  {
    if |row| != InputWidth then Err(WrongCellCount)
    else
      var (shape, description) := MapShape(row[12], row[2]);
      var next := if shape == "decision" then Compact([row[15], row[17], row[19]]) else row[11];
      var connector := if shape == "decision" then Compact([row[16], row[18], row[20]]) else "";
      Ok([row[0], row[1], description, row[3], row[4], row[5], row[6], row[7], row[8],
          row[9], row[10], next, shape, connector])
  }

  /** A comment row (first cell starting with `#`) or a header row (first cell `id` in any case). */
  predicate Skipped(row: Row)
    requires |row| > 0
  {
    StartsWith(row[0], "#") || Lower(row[0]) == "id"
  }

  /** A row that is converted: it has a first cell, and it is not skipped. */
  predicate Kept(row: Row) {
    |row| > 0 && !Skipped(row)
  }

  /**
   * `process_csv`: every row in order; reading the first cell of an empty row
   * raises `IndexError`, a skipped row is passed over, any other row is converted.
   */
  function ProcessRows(rows: seq<Row>): (r: Result<seq<Row>, Error>)
    ensures (exists k | 0 <= k < |rows| :: |rows[k]| == 0) ==> r.Err?
    ensures r.Ok? ==> |r.value| <= |rows|
    decreases |rows|
  {
    if rows == [] then Ok([])
    else
      var front, row := rows[..|rows| - 1], rows[|rows| - 1];
      assert forall k | 0 <= k < |front| :: front[k] == rows[k];
      match ProcessRows(front)
      case Err(e) => Err(e)
      case Ok(done) =>
        if |row| == 0 then Err(RowTooShort)
        else if Skipped(row) then Ok(done)
        else
          match ConvertRow(row)
          case Err(e) => Err(e)
          case Ok(out) => Ok(done + [out])
  }

  /** The converted table: the fixed header, then the converted rows. */
  function Converted(rows: seq<Row>): (r: Result<Table, Error>)
    ensures r.Ok? ==> r.value.header == OutputHeader
    ensures r.Ok? ==> forall k | 0 <= k < |r.value.rows| :: |r.value.rows[k]| == |OutputHeader|
  {
    match ProcessRows(rows)
    case Err(e) => Err(e)
    case Ok(out) =>
      ProcessRowsIs(rows);
      Ok(Table(OutputHeader, out))
  }

  function ConvertFn(): Row -> Result<Row, Error> {
    row => ConvertRow(row)
  }

  function KeptFn(): Row -> bool {
    row => Kept(row)
  }

  /**
   * Without empty rows, the stage converts exactly the rows that are not skipped,
   * one output row each, in order; it fails exactly when one of them does not have
   * 21 cells.
   */
  lemma {:induction false} ProcessRowsIs(rows: seq<Row>)
    ensures (forall k | 0 <= k < |rows| :: |rows[k]| > 0) ==>
      ProcessRows(rows) == MapRows(Filter(rows, KeptFn()), ConvertFn())
    decreases |rows|
  {
    if rows != [] && forall k | 0 <= k < |rows| :: |rows[k]| > 0 {
      var front, row := rows[..|rows| - 1], rows[|rows| - 1];
      ProcessRowsIs(front);
      assert rows == front + [row];
      FilterSnoc(front, row, KeptFn());
      var kept := Filter(front, KeptFn());
      if Kept(row) {
        assert Filter(rows, KeptFn()) == kept + [row];
        MapRowsSnoc(kept, row, ConvertFn());
      } else {
        assert Filter(rows, KeptFn()) == kept;
      }
    }
  }

  /** `process_csv` and `write_output_to_csv` as the source runs them: a loop that appends. */
  method ProcessCsv(rows: seq<Row>) returns (r: Result<Table, Error>)
    ensures r == Converted(rows)
  {
    var out: seq<Row> := [];
    var i := 0;
    while i < |rows|
      invariant i <= |rows| && ProcessRows(rows[..i]) == Ok(out)
    {
      var row := rows[i];
      assert rows[..i + 1][..i] == rows[..i];
      if |row| == 0 {
        ProcessRowsStop(rows, i + 1);
        return Err(RowTooShort);
      }
      if StartsWith(row[0], "#") || Lower(row[0]) == "id" {
        i := i + 1;
        continue;
      }
      if |row| != InputWidth {
        ProcessRowsStop(rows, i + 1);
        return Err(WrongCellCount);
      }
      var shape, description := row[12], row[2];
      if shape == "start_1" {
        shape := "start";
      } else if shape == "terminator" {
        shape := "end";
      } else if shape == "summing_function" {
        shape := "process";
        description := "AND";
      } else if shape == "or" {
        shape := "process";
        description := "OR";
      }
      var nextStepId, connectorLabel := row[11], "";
      if shape == "decision" {
        nextStepId := Compact([row[15], row[17], row[19]]);
        connectorLabel := Compact([row[16], row[18], row[20]]);
      }
      out := out + [[row[0], row[1], description, row[3], row[4], row[5], row[6], row[7], row[8],
                     row[9], row[10], nextStepId, shape, connectorLabel]];
      i := i + 1;
    }
    assert rows[..i] == rows;
    r := Ok(Table(OutputHeader, out));
  }

  /** A prefix that already fails makes the whole loop fail the same way. */
  lemma {:induction false} ProcessRowsStop(rows: seq<Row>, j: nat)
    requires j <= |rows| && ProcessRows(rows[..j]).Err?
    ensures ProcessRows(rows) == ProcessRows(rows[..j])
    decreases |rows| - j
  {
    if j < |rows| {
      assert rows[..j + 1][..j] == rows[..j];
      ProcessRowsStop(rows, j + 1);
    } else {
      assert rows[..j] == rows;
    }
  }

  // ------------------------------------------------------------------ properties

  /**
   * The converted row: the renamed shape and description, the compacted slots of a
   * decision row (`next_step_id` kept and `connector_label` empty otherwise), and
   * the other ten fields in place; width, height and the slots are gone.
   */
  lemma ConvertedRow(row: Row)
    requires |row| == InputWidth
    ensures var out, m := ConvertRow(row).value, MapShape(row[12], row[2]);
      && out[12] == m.0 && out[2] == m.1
      && (m.0 == "decision" ==>
            out[11] == Compact([row[15], row[17], row[19]]) && out[13] == Compact([row[16], row[18], row[20]]))
      && (m.0 != "decision" ==> out[11] == row[11] && out[13] == "")
      && out[..2] == row[..2] && out[3..11] == row[3..11]
  {
    var m := MapShape(row[12], row[2]);
    var next := if m.0 == "decision" then Compact([row[15], row[17], row[19]]) else row[11];
    var connector := if m.0 == "decision" then Compact([row[16], row[18], row[20]]) else "";
    var out := [row[0], row[1], m.1, row[3], row[4], row[5], row[6], row[7], row[8], row[9], row[10], next, m.0, connector];
    assert ConvertRow(row) == Ok(out);
    assert out[..2] == row[..2];
    assert out[3..11] == row[3..11];
  }

  /** The gates get the opposite descriptions from the ones the CSV shape renaming gives them. */
  lemma GatesOpposite()
    ensures MapShape("summing_function", "") == ("process", "AND")
    ensures MapShape("or", "") == ("process", "OR")
  {
  }

  /** Mapping the shapes a second time changes nothing. */
  lemma MapShapeIdempotent(shape: string, description: string)
    ensures var m := MapShape(shape, description); MapShape(m.0, m.1) == m
  {
  }
}

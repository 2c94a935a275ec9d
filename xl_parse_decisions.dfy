/**
 * `xl_parse_decisions.py`: spreads the `next_step_id` and `connector_label` lists
 * of every decision row over three appended slot pairs, `decision0_id` ..
 * `decision2_label`, splitting both lists on `,`.
 */
module XlParseDecisions {
  import opened Wrappers
  import opened Strings
  import opened Tables
  import opened Decisions

  /** The names appended to the header, in the order of the appended cells. */
  const SlotColumns: seq<string> :=
    ["decision0_id", "decision0_label", "decision1_id", "decision1_label", "decision2_id", "decision2_label"]

  /** The columns the stage looks up, in its order. */
  const Looked: seq<string> := ["shape", "next_step_id", "connector_label"]

  /** The six cells a row that is not a decision gains: three pairs of `None`. */
  const NoSlots: seq<string> := ["", "", "", "", "", ""]

  /**
   * One row (`p` the positions of `shape`, `next_step_id`, `connector_label`): a
   * decision row gets its `next_step_id` and `connector_label` lists, split on
   * `,`, as the six slot cells and an empty `next_step_id`; any other row gets six
   * empty cells. A cell read past the end raises `IndexError`.
   */
  function ExpandRow(row: Row, p: seq<nat>): (r: Result<Row, Error>)
    requires |p| == 3
    ensures r.Ok? <==> p[0] < |row| && (row[p[0]] == "decision" ==> Covers(row, p))
    ensures r.Ok? ==> |r.value| == |row| + 6
  {
    if p[0] >= |row| then Err(RowTooShort)
    else if row[p[0]] == "decision" then
      if !Covers(row, p) then Err(RowTooShort)
      else
        var ids, labels := Split(row[p[1]], ","), Split(row[p[2]], ",");
        Ok(row[p[1] := ""] + Slots(ids, labels))
    else Ok(row + NoSlots)
  }

  function ExpandFn(p: seq<nat>): Row -> Result<Row, Error>
    requires |p| == 3
  {
    row => ExpandRow(row, p)
  }

  /** `parse_decisions`: the lookups, the header extended by the slot names, the row loop. */
  function Expanded(t: Table): (r: Result<Table, Error>)
    ensures r.Ok? ==> r.value.header == t.header + SlotColumns && |r.value.rows| == |t.rows|
    ensures r.Ok? ==> forall k | 0 <= k < |t.rows| :: |r.value.rows[k]| == |t.rows[k]| + 6
    ensures r.Err? ==> r.error == RowTooShort || (r.error.MissingColumn? && r.error.name in Looked)
  {
    match ColumnIndices(t.header, Looked)
    case Err(e) => Err(e)
    case Ok(p) =>
      match MapRows(t.rows, ExpandFn(p))
      case Err(e) => Err(e)
      case Ok(rows) => Ok(Table(t.header + SlotColumns, rows))
  }

  method ParseDecisions(t: Table) returns (r: Result<Table, Error>)
    ensures r == Expanded(t)
  {
    var found := ColumnIndices(t.header, Looked);
    if found.Err? {
      return Err(found.error);
    }
    var p := found.value;
    var out: seq<Row> := [];
    var i := 0;
    while i < |t.rows|
      invariant i <= |t.rows| && MapRows(t.rows[..i], ExpandFn(p)) == Ok(out)
    {
      var res := ExpandLine(t.rows[i], p);
      if res.Err? {
        MapRowsStop(t.rows, ExpandFn(p), i, out);
        return Err(res.error);
      }
      MapRowsStep(t.rows, ExpandFn(p), i, out);
      out := out + [res.value];
      i := i + 1;
    }
    MapRowsDone(t.rows);
    r := Ok(Table(t.header + SlotColumns, out));
  }

  /** The body of the row loop for one row. */
  method ExpandLine(row0: Row, p: seq<nat>) returns (res: Result<Row, Error>)
    requires |p| == 3
    ensures res == ExpandRow(row0, p)
  {
    var row := row0;
    if p[0] >= |row| || (row[p[0]] == "decision" && !Covers(row, p)) {
      return Err(RowTooShort);
    }
    var fields := NoSlots;
    if row[p[0]] == "decision" {
      var ids := Split(row[p[1]], ",");
      var labels := Split(row[p[2]], ",");
      fields := Slots(ids, labels);
      row := row[p[1] := ""];
    }
    res := Ok(row + fields);
  }

  // ------------------------------------------------------------------ properties

  /**
   * What one row becomes: slot `i` of a decision row holds the `i`-th `,`-token of
   * `next_step_id` and of `connector_label` (empty past the end of the list) and
   * its `next_step_id` is cleared; any other row gains six empty cells; every
   * other cell, `connector_label` included, keeps its value.
   */
  lemma ExpandedRow(row: Row, p: seq<nat>)
    requires |p| == 3 && p[1] != p[2] && ExpandRow(row, p).Ok?
    ensures var out := ExpandRow(row, p).value;
      && |out| == |row| + 6
      && (row[p[0]] == "decision" ==>
            && out[p[1]] == ""
            && forall i | 0 <= i < 3 ::
                 && out[|row| + 2 * i] == Spread(Split(row[p[1]], ","))[i]
                 && out[|row| + 2 * i + 1] == Spread(Split(row[p[2]], ","))[i])
      && (row[p[0]] != "decision" ==> out == row + NoSlots)
      && forall c | 0 <= c < |row| && (row[p[0]] == "decision" ==> c != p[1]) :: out[c] == row[c]
  {
    var out := ExpandRow(row, p).value;
    if row[p[0]] == "decision" {
      var s := Slots(Split(row[p[1]], ","), Split(row[p[2]], ","));
      assert out == row[p[1] := ""] + s;
      forall i | 0 <= i < 3
        ensures out[|row| + 2 * i] == s[2 * i] && out[|row| + 2 * i + 1] == s[2 * i + 1]
      {
      }
    }
  }

  /** The stage on row `k`, with `p` the header positions of the three looked-up columns. */
  lemma ExpandedTableRow(t: Table, p: seq<nat>, k: nat)
    requires ColumnIndices(t.header, Looked) == Ok(p) && Expanded(t).Ok? && k < |t.rows|
    ensures |p| == 3 && p[1] != p[2]
    ensures Expanded(t).value.rows[k] == ExpandRow(t.rows[k], p).value
  {
    assert t.header[p[1]] == "next_step_id" && t.header[p[2]] == "connector_label" by {
      assert Looked[1] == "next_step_id" && Looked[2] == "connector_label";
    }
    assert ExpandFn(p)(t.rows[k]) == Ok(Expanded(t).value.rows[k]);
  }

  /** A header that lacks one of the looked-up columns fails with the first one it lacks. */
  lemma MissingColumnFails(t: Table, k: nat)
    requires k < |Looked| && Looked[k] !in t.header
    requires forall j | 0 <= j < k :: Looked[j] in t.header
    ensures Expanded(t) == Err(MissingColumn(Looked[k]))
  {
    ColumnIndicesFirstMissing(t.header, Looked, k);
  }

  /** An empty `next_step_id` on a decision row gives three empty id slots. */
  lemma EmptyListEmptySlots(row: Row, p: seq<nat>)
    requires |p| == 3 && p[1] != p[2] && ExpandRow(row, p).Ok?
    requires row[p[0]] == "decision" && row[p[1]] == ""
    ensures forall i | 0 <= i < 3 :: ExpandRow(row, p).value[|row| + 2 * i] == ""
  {
    ExpandedRow(row, p);
    assert Split("", ",") == [""];
  }

  /**
   * Up to three comma-free ids joined with `,` come back as the first slots, the
   * rest of the slots empty: spreading undoes the `,`-join.
   */
  lemma SpreadJoined(ids: seq<string>)
    requires 1 <= |ids| <= 3 && forall i | 0 <= i < |ids| :: ',' !in ids[i]
    ensures Spread(Split(Join(ids, ","), ",")) == Spread(ids)
  {
    forall i | 0 <= i < |ids|
      ensures !Contains(ids[i], ",")
    {
      ContainsChar(ids[i], ',');
    }
    assert NoBorder(",");
    SplitJoin(ids, ",");
  }

  /**
   * Tokens are not trimmed, so this stage does not undo the `", "`-join of the
   * collapsing stages: the second id comes back with a leading space.
   */
  lemma SpaceKept()
    ensures Spread(Split(Compact(["4", "6", ""]), ",")) == ["4", " 6", ""]
  {
    FilterLastEmpty("4", "6");
    assert Join(["4", "6"], ", ") == "4, 6" by {
      assert ["4", "6"][1..] == ["6"];
    }
    assert Split("4, 6", ",") == ["4", " 6"] by {
      assert !Contains("4", ",") by {
        ContainsChar("4", ',');
      }
      assert !Contains(" 6", ",") by {
        ContainsChar(" 6", ',');
      }
      assert NoBorder(",");
      SplitJoin(["4", " 6"], ",");
      assert Join(["4", " 6"], ",") == "4, 6" by {
        assert ["4", " 6"][1..] == [" 6"];
      }
    }
  }
}

/**
 * `csv_parse_decisions.py`: folds the three decision slots of every row into
 * `next_step_id` and a new `connector_label` column. The first pass appends
 * `connector_label` and rewrites the rows (through an in-memory CSV); the
 * second pass deletes the six slot columns from the header by name and from
 * every row by position.
 */
module CsvParseDecisions {
  import opened Wrappers
  import opened Tables
  import opened Utils
  import opened Decisions

  /** The six slot columns, in the order the second pass removes them from the header. */
  const SlotColumns: seq<string> :=
    ["decision0_id", "decision0_label", "decision1_id", "decision1_label", "decision2_id", "decision2_label"]

  /** The columns the first pass looks up, in its order: the shape, the next step, the slots. */
  const Looked: seq<string> := ["shape", "next_step_id"] + SlotColumns

  // ------------------------------------------------------------------ first pass

  /** The position `headers.index('connector_label')` finds once the name has been appended. */
  function ConnectorIndex(header: Row): (r: nat)
    ensures r <= |header|
    ensures "connector_label" in header ==> IndexOf(header, "connector_label") == Some(r)
    ensures "connector_label" !in header ==> r == |header|
  {
    var h := header + ["connector_label"];
    assert h[|header|] == "connector_label";
    var r := IndexOf(h, "connector_label").value;
    if "connector_label" in header then
      IndexOfAppend(header, ["connector_label"], "connector_label");
      r
    else
      r
  }

  /** The ids of the three slots, in slot order (`p` holds the positions of `Looked`). */
  function SlotIds(cells: Row, p: seq<nat>): seq<string>
    requires |p| == 8 && Covers(cells, p)
  {
    [cells[p[2]], cells[p[4]], cells[p[6]]]
  }

  /** The labels of the three slots, in slot order. */
  function SlotLabels(cells: Row, p: seq<nat>): seq<string>
    requires |p| == 8 && Covers(cells, p)
  {
    [cells[p[3]], cells[p[5]], cells[p[7]]]
  }

  /**
   * The first pass on one row (`p` the positions of `Looked`, `cl` that of
   * `connector_label`): the row gains an empty cell; a decision row then gets its
   * compacted slot ids as `next_step_id` and its compacted labels as
   * `connector_label`, any other row an empty `connector_label`. A cell it reads
   * or writes past the end raises `IndexError`.
   */
  function CollapseRow(row: Row, p: seq<nat>, cl: nat): (r: Result<Row, Error>)
    requires |p| == 8
    ensures r.Ok? <==>
      p[0] <= |row| && cl <= |row| && ((row + [""])[p[0]] == "decision" ==> Covers(row + [""], p))
    ensures r.Ok? ==> |r.value| == |row| + 1
  {
    var cells := row + [""];
    if p[0] >= |cells| then Err(RowTooShort)
    else if cells[p[0]] == "decision" then
      if !Covers(cells, p) || cl >= |cells| then Err(RowTooShort)
      else Ok(cells[p[1] := Compact(SlotIds(cells, p))][cl := Compact(SlotLabels(cells, p))])
    else if cl >= |cells| then Err(RowTooShort)
    else Ok(cells[cl := ""])
  }

  function CollapseFn(p: seq<nat>, cl: nat): Row -> Result<Row, Error>
    requires |p| == 8
  {
    row => CollapseRow(row, p, cl)
  }

  /** The table the first pass writes to the in-memory CSV. */
  function FirstPass(t: Table): (r: Result<Table, Error>)
    ensures r.Ok? ==> r.value.header == t.header + ["connector_label"]
    ensures r.Ok? ==> |r.value.rows| == |t.rows|
    ensures r.Ok? ==> forall k | 0 <= k < |t.rows| :: |r.value.rows[k]| == |t.rows[k]| + 1
    ensures r.Err? ==> r.error == RowTooShort || (r.error.MissingColumn? && r.error.name in Looked)
  {
    match ColumnIndices(t.header, Looked)
    case Err(e) => Err(e)
    case Ok(p) =>
      match MapRows(t.rows, CollapseFn(p, ConnectorIndex(t.header)))
      case Err(e) => Err(e)
      case Ok(rows) => Ok(Table(t.header + ["connector_label"], rows))
  }

  // ------------------------------------------------------------------ second pass

  /** Python's `s.remove(x)`: deletes the first `x`, `ValueError` when there is none. */
  function Remove(s: Row, x: string): (r: Result<Row, Error>)
    ensures r.Ok? <==> x in s
    ensures r.Ok? ==> |r.value| == |s| - 1
  {
    match IndexOf(s, x)
    case None => Err(MissingColumn(x))
    case Some(k) => Ok(DeleteAt(s, k))
  }

  /** `s.remove(x)` for each name in turn. */
  function RemoveEach(s: Row, names: seq<string>): (r: Result<Row, Error>)
    ensures r.Err? ==> r.error.MissingColumn? && r.error.name in names
    decreases |names|
  {
    if names == [] then Ok(s)
    else
      match Remove(s, names[0])
      case Err(e) => Err(e)
      case Ok(t) =>
        var r := RemoveEach(t, names[1..]);
        assert r.Err? ==> r.error.name in names by {
          assert forall x | x in names[1..] :: x in names;
        }
        r
  }

  /** The positions in the opposite order: the source deletes the slot cells last slot first. */
  function Reversed(q: seq<nat>): (r: seq<nat>)
    ensures |r| == |q| && forall i | 0 <= i < |q| :: r[i] == q[|q| - 1 - i]
  {
    seq(|q|, i requires 0 <= i < |q| => q[|q| - 1 - i])
  }

  function DropSlotsFn(q: seq<nat>): Row -> Result<Row, Error> {
    row => DeleteEach(row, Reversed(q))
  }

  /**
   * The second pass on the table read back, for the column names `names`: they are
   * removed from the header one by one, and every row deletes the cells at the
   * positions the header had before, last name first.
   */
  function DropColumns(m: Table, names: seq<string>): (r: Result<Table, Error>)
    ensures r.Ok? ==> |r.value.rows| == |m.rows|
    ensures r.Ok? ==> |r.value.header| == |m.header| - |names|
    ensures r.Err? ==> r.error == RowTooShort || (r.error.MissingColumn? && r.error.name in names)
  {
    match ColumnIndices(m.header, names)
    case Err(e) => Err(e)
    case Ok(q) =>
      match RemoveEach(m.header, names)
      case Err(e) => Err(e)
      case Ok(header) =>
        RemoveEachLength(m.header, names);
        match MapRows(m.rows, DropSlotsFn(q))
        case Err(e) => Err(e)
        case Ok(rows) => Ok(Table(header, rows))
  }

  /** The second pass of the stage: the six slot columns go. */
  function SecondPass(m: Table): Result<Table, Error> {
    DropColumns(m, SlotColumns)
  }

  /** Each successful `remove` shortens the header by one. */
  lemma {:induction false} RemoveEachLength(s: Row, names: seq<string>)
    ensures RemoveEach(s, names).Ok? ==> |RemoveEach(s, names).value| == |s| - |names|
    decreases |names|
  {
    if names != [] && Remove(s, names[0]).Ok? {
      RemoveEachLength(Remove(s, names[0]).value, names[1..]);
    }
  }

  /** `parse_decisions`: both passes. */
  function ParsedDecisions(t: Table): (r: Result<Table, Error>)
    ensures r.Ok? ==> |r.value.rows| == |t.rows|
    ensures r.Ok? ==> |r.value.header| == |t.header| - 5
    ensures r.Err? ==> r.error == RowTooShort || (r.error.MissingColumn? && r.error.name in Looked)
  {
    match FirstPass(t)
    case Err(e) => Err(e)
    case Ok(m) =>
      var r := DropColumns(m, SlotColumns);
      assert r.Err? && r.error.MissingColumn? ==> r.error.name in Looked by {
        assert Looked == ["shape", "next_step_id"] + SlotColumns;
      }
      r
  }

  // ------------------------------------------------------------------ properties

  /** A header that lacks one of the looked-up columns fails with the first one it lacks. */
  lemma MissingColumnFails(t: Table, k: nat)
    requires k < |Looked| && Looked[k] !in t.header
    requires forall j | 0 <= j < k :: Looked[j] in t.header
    ensures ParsedDecisions(t) == Err(MissingColumn(Looked[k]))
  {
    ColumnIndicesFirstMissing(t.header, Looked, k);
  }

  /**
   * What the first pass writes for one row: a decision row's `next_step_id` holds
   * its compacted slot ids and its `connector_label` its compacted labels; any
   * other row keeps `next_step_id` and gets an empty `connector_label`; every
   * other cell, the appended one included, is as it was.
   */
  lemma CollapsedRow(row: Row, p: seq<nat>, cl: nat)
    requires |p| == 8 && p[1] != cl && CollapseRow(row, p, cl).Ok?
    ensures var cells, out := row + [""], CollapseRow(row, p, cl).value;
      && |out| == |cells|
      && (cells[p[0]] == "decision" ==>
            out[p[1]] == Compact(SlotIds(cells, p)) && out[cl] == Compact(SlotLabels(cells, p)))
      && (cells[p[0]] != "decision" ==> out[cl] == "")
      && forall i | 0 <= i < |cells| && i != cl && (cells[p[0]] == "decision" ==> i != p[1]) :: out[i] == cells[i]
  {
  }

  /**
   * The first pass on row `k` of the table, with `p` the header positions of
   * `shape`, `next_step_id` and the six slot columns.
   */
  lemma FirstPassRow(t: Table, p: seq<nat>, k: nat)
    requires ColumnIndices(t.header, Looked) == Ok(p) && FirstPass(t).Ok? && k < |t.rows|
    ensures |p| == 8 && p[1] != ConnectorIndex(t.header)
    ensures FirstPass(t).value.rows[k] == CollapseRow(t.rows[k], p, ConnectorIndex(t.header)).value
  {
    var cl := ConnectorIndex(t.header);
    assert t.header[p[1]] == "next_step_id" by {
      assert Looked[1] == "next_step_id";
    }
    assert (t.header + ["connector_label"])[cl] == "connector_label";
    assert CollapseFn(p, cl)(t.rows[k]) == Ok(FirstPass(t).value.rows[k]);
  }

  /** Removing the first of the names leaves the others each once in the header. */
  lemma RemoveFirstOnce(s: Row, names: seq<string>)
    requires |names| > 0 && Distinct(names) && OnceEach(s, names)
    ensures Remove(s, names[0]).Ok?
    ensures Remove(s, names[0]).value == Without(s, {names[0]})
    ensures Distinct(names[1..]) && OnceEach(Remove(s, names[0]).value, names[1..])
  {
    var x, rest := names[0], names[1..];
    assert multiset(s)[x] == 1;
    var k := IndexOf(s, x).value;
    DeleteOnly(s, k);
    var t := DeleteAt(s, k);
    forall j | 0 <= j < |rest|
      ensures multiset(t)[rest[j]] == 1
    {
      assert rest[j] == names[j + 1] && names[j + 1] != x;
      WithoutCount(s, {x}, rest[j]);
    }
    assert Distinct(rest) by {
      forall a, b | 0 <= a < b < |rest|
        ensures rest[a] != rest[b]
      {
        assert rest[a] == names[a + 1] && rest[b] == names[b + 1];
      }
    }
  }

  /** `remove` of names the header holds exactly once each is dropping those names. */
  lemma {:induction false} RemoveEachOnce(s: Row, names: seq<string>)
    requires Distinct(names) && OnceEach(s, names)
    ensures RemoveEach(s, names) == Ok(Without(s, set x | x in names))
    decreases |names|
  {
    if names == [] {
      WithoutAbsentAll(s);
      assert (set x | x in names) == {};
    } else {
      var x, rest := names[0], names[1..];
      RemoveFirstOnce(s, names);
      var t := Remove(s, x).value;
      assert t == Without(s, {x});
      RemoveEachOnce(t, rest);
      var tail := set y | y in rest;
      assert RemoveEach(t, rest) == Ok(Without(t, tail));
      assert RemoveEach(s, names) == RemoveEach(t, rest);
      WithoutTwice(s, {x}, tail);
      NameSetCons(names);
    }
  }

  /** The set of a non-empty list of names is its first name and the set of the rest. */
  lemma NameSetCons(names: seq<string>)
    requires names != []
    ensures (set y | y in names) == {names[0]} + (set y | y in names[1..])
  {
    assert names == [names[0]] + names[1..];
  }

  /** Dropping no name at all keeps the header. */
  lemma {:induction false} WithoutAbsentAll(s: Row)
    ensures Without(s, {}) == s
    decreases |s|
  {
    if s != [] {
      WithoutAbsentAll(s[..|s| - 1]);
    }
  }

  /** Names listed in header order: the first occurrences ascend along the list. */
  predicate InHeaderOrder(header: Row, names: seq<string>) {
    forall i, j | 0 <= i < j < |names| ::
      names[i] in header && names[j] in header && IndexOf(header, names[i]).value < IndexOf(header, names[j]).value
  }

  /** Each of the names occurs exactly once in the header. */
  predicate OnceEach(header: Row, names: seq<string>) {
    forall j | 0 <= j < |names| :: multiset(header)[names[j]] == 1
  }

  /** The positions of `h` that hold one of the names. */
  function HeldBy(h: Row, names: seq<string>): set<nat> {
    set i: nat | i < |h| && h[i] in names
  }

  /** When every name occurs once, the second pass leaves the header without them. */
  lemma DropColumnsHeader(m: Table, names: seq<string>)
    requires Distinct(names) && OnceEach(m.header, names) && DropColumns(m, names).Ok?
    ensures DropColumns(m, names).value.header == Without(m.header, set x | x in names)
    ensures DropColumns(m, names).value.header == Drop(m.header, HeldBy(m.header, names))
  {
    RemoveEachOnce(m.header, names);
    var gone := set x | x in names;
    WithoutIsDrop(m.header, gone);
    DropSame(m.header, (set i: nat | i < |m.header| && m.header[i] in gone), HeldBy(m.header, names));
  }

  /** The positions the lookups found are the positions holding one of the names. */
  lemma FoundPositions(h: Row, names: seq<string>, q: seq<nat>)
    requires OnceEach(h, names) && ColumnIndices(h, names) == Ok(q)
    ensures forall i: nat | i < |h| :: i in Members(q) <==> i in HeldBy(h, names)
  {
    forall i: nat | i < |h|
      ensures i in Members(q) <==> i in HeldBy(h, names)
    {
      if i in Members(q) {
        var j :| 0 <= j < |q| && q[j] == i;
        assert h[i] == names[j];
      }
      if i in HeldBy(h, names) {
        var j :| 0 <= j < |names| && names[j] == h[i];
        OnlyOccurrence(h, i);
        assert forall c | 0 <= c < i :: h[c] in h[..i];
        IndexOfIs(h, names[j], i);
        assert q[j] == i;
      }
    }
  }

  /** Reversing the positions does not change which positions they are. */
  lemma ReversedMembers(q: seq<nat>)
    ensures Members(Reversed(q)) == Members(q)
  {
    var r := Reversed(q);
    forall i | i in Members(r)
      ensures i in Members(q)
    {
      var j :| 0 <= j < |r| && r[j] == i;
      assert q[|q| - 1 - j] == i;
    }
    forall i | i in Members(q)
      ensures i in Members(r)
    {
      var j :| 0 <= j < |q| && q[j] == i;
      assert r[|q| - 1 - j] == i;
    }
  }

  /** Positions found in ascending order are deleted highest first. */
  lemma ReversedDescending(h: Row, names: seq<string>, q: seq<nat>)
    requires InHeaderOrder(h, names) && ColumnIndices(h, names) == Ok(q)
    ensures Descending(Reversed(q))
  {
    var r := Reversed(q);
    forall i, j | 0 <= i < j < |r|
      ensures r[i] > r[j]
    {
      var a, b := |q| - 1 - j, |q| - 1 - i;
      assert IndexOf(h, names[a]).value < IndexOf(h, names[b]).value;
    }
  }

  /**
   * When every name occurs once and in header order, the second pass deletes from a
   * full-width row exactly the cells under the removed names.
   */
  lemma DropColumnsRow(m: Table, names: seq<string>, k: nat)
    requires OnceEach(m.header, names) && InHeaderOrder(m.header, names)
    requires DropColumns(m, names).Ok? && k < |m.rows| && |m.rows[k]| == |m.header|
    ensures DropColumns(m, names).value.rows[k] == Drop(m.rows[k], HeldBy(m.header, names))
  {
    var out := DropColumns(m, names).value;
    var q := ColumnIndices(m.header, names).value;
    assert DropSlotsFn(q)(m.rows[k]) == Ok(out.rows[k]);
    ReversedDescending(m.header, names, q);
    if |q| > 0 {
      assert Reversed(q)[0] == q[|q| - 1] == IndexOf(m.header, names[|q| - 1]).value;
    }
    DeleteDescending(m.rows[k], Reversed(q));
    ReversedMembers(q);
    FoundPositions(m.header, names, q);
    DropSame(m.rows[k], Members(q), HeldBy(m.header, names));
  }

  /**
   * When every name occurs once and in header order, the second pass keeps the
   * remaining columns intact: each output cell of a full-width row sits under the
   * header name it sat under before, in a column that was not removed.
   */
  lemma DropColumnsAligned(m: Table, names: seq<string>, k: nat, c: nat)
    requires Distinct(names) && OnceEach(m.header, names) && InHeaderOrder(m.header, names)
    requires DropColumns(m, names).Ok? && k < |m.rows| && |m.rows[k]| == |m.header|
    requires c < |DropColumns(m, names).value.header|
    ensures var out := DropColumns(m, names).value;
      && |out.rows[k]| == |out.header|
      && exists i | 0 <= i < |m.header| && m.header[i] !in names ::
           out.header[c] == m.header[i] && out.rows[k][c] == m.rows[k][i]
  {
    var P := HeldBy(m.header, names);
    DropColumnsHeader(m, names);
    DropColumnsRow(m, names, k);
    DropAligned(m.header, m.rows[k], P);
    var i: nat :| i < |m.header| && i !in P && Drop(m.header, P)[c] == m.header[i] && Drop(m.rows[k], P)[c] == m.rows[k][i];
  }

  /**
   * Deleting by fixed positions relies on the header order: with the two names
   * listed against the header order, the kept column `x` receives the cell of the
   * removed column `a`.
   */
  lemma DropColumnsOutOfOrder()
    ensures DropColumns(Table(["b", "a", "x"], [["B", "A", "X"]]), ["a", "b"]) == Ok(Table(["x"], [["A"]]))
  {
    var m := Table(["b", "a", "x"], [["B", "A", "X"]]);
    IndexOfIs(m.header, "a", 1);
    IndexOfIs(m.header, "b", 0);
    assert ColumnIndex(m.header, "a") == Ok(1);
    assert ColumnIndices(m.header, []) == Ok([]);
    var one := ["a"];
    assert one[..|one| - 1] == [];
    assert one[|one| - 1] == "a";
    var none: seq<nat> := [];
    assert none + [1] == [1];
    assert ColumnIndices(m.header, one) == Ok([1]);
    assert ColumnIndices(m.header, ["a", "b"]) == Ok([1, 0]) by {
      assert ["a", "b"][..1] == ["a"];
      assert ColumnIndex(m.header, "b") == Ok(0);
      assert [1] + [0] == [1, 0];
    }
    IndexOfIs(["b", "x"], "b", 0);
    assert RemoveEach(m.header, ["a", "b"]) == Ok(["x"]) by {
      assert ["a", "b"][1..] == ["b"];
      assert DeleteAt(["b", "a", "x"], 1) == ["b", "x"];
      assert DeleteAt(["b", "x"], 0) == ["x"];
      assert ["b"][1..] == [];
    }
    assert DeleteEach(["B", "A", "X"], [0, 1]) == Ok(["A"]) by {
      assert [0, 1][1..] == [1];
      assert DeleteAt(["B", "A", "X"], 0) == ["A", "X"];
      assert DeleteAt(["A", "X"], 1) == ["A"];
      assert [1][1..] == [];
    }
    assert Reversed([1, 0]) == [0, 1];
    MapRowsIs(m.rows, DropSlotsFn([1, 0]), [["A"]]);
  }

  /** Names absent from the appended cells keep their counts. */
  lemma OnceEachAppend(h: Row, extra: Row, names: seq<string>)
    requires OnceEach(h, names) && forall j | 0 <= j < |names| :: names[j] !in extra
    ensures OnceEach(h + extra, names)
  {
    assert multiset(h + extra) == multiset(h) + multiset(extra);
    forall j | 0 <= j < |names|
      ensures multiset(extra)[names[j]] == 0
    {
    }
  }

  /** Appending cells keeps the first occurrences of names already there. */
  lemma InHeaderOrderAppend(h: Row, extra: Row, names: seq<string>)
    requires InHeaderOrder(h, names)
    ensures InHeaderOrder(h + extra, names)
  {
    forall i, j | 0 <= i < j < |names|
      ensures names[i] in h + extra && names[j] in h + extra
      ensures IndexOf(h + extra, names[i]).value < IndexOf(h + extra, names[j]).value
    {
      var a, b := names[i], names[j];
      assert a in h && b in h && IndexOf(h, a).value < IndexOf(h, b).value;
      IndexOfAppend(h, extra, a);
      IndexOfAppend(h, extra, b);
    }
  }

  /** The six slot names are different names, none of them `connector_label`. */
  lemma SlotColumnsDistinct()
    ensures Distinct(SlotColumns)
    ensures forall j | 0 <= j < |SlotColumns| :: SlotColumns[j] !in ["connector_label"]
  {
  }

  /**
   * When each slot column occurs once, the output header is the input header
   * without the six slot columns, with `connector_label` at the end.
   */
  lemma ParsedHeader(t: Table)
    requires OnceEach(t.header, SlotColumns) && ParsedDecisions(t).Ok?
    ensures ParsedDecisions(t).value.header == Without(t.header, set x | x in SlotColumns) + ["connector_label"]
  {
    var m := FirstPass(t).value;
    SlotColumnsDistinct();
    OnceEachAppend(t.header, ["connector_label"], SlotColumns);
    DropColumnsHeader(m, SlotColumns);
    var gone := set x | x in SlotColumns;
    WithoutAppend(t.header, ["connector_label"], gone);
    assert Without(["connector_label"], gone) == ["connector_label"] by {
      assert ["connector_label"][..0] == [];
      assert "connector_label" !in gone;
    }
  }

  /**
   * When each slot column occurs once and they stand in slot order, every cell of
   * a full-width output row is the cell the first pass wrote under the same name,
   * in a column that is not a slot column. Together with `CollapsedRow` this says
   * that the remaining columns keep their values.
   */
  lemma RemainingColumnsKeepValues(t: Table, k: nat, c: nat)
    requires OnceEach(t.header, SlotColumns) && InHeaderOrder(t.header, SlotColumns)
    requires ParsedDecisions(t).Ok? && k < |t.rows| && |t.rows[k]| == |t.header|
    requires c < |ParsedDecisions(t).value.header|
    ensures var m, out := FirstPass(t).value, ParsedDecisions(t).value;
      && |out.rows[k]| == |out.header|
      && exists i | 0 <= i < |m.header| && m.header[i] !in SlotColumns ::
           out.header[c] == m.header[i] && out.rows[k][c] == m.rows[k][i]
  {
    var m := FirstPass(t).value;
    SlotColumnsDistinct();
    OnceEachAppend(t.header, ["connector_label"], SlotColumns);
    InHeaderOrderAppend(t.header, ["connector_label"], SlotColumns);
    DropColumnsAligned(m, SlotColumns, k, c);
  }

  // ------------------------------------------------------------------ the stage as a program

  /** `headers.index(name)` for each name in turn. */
  method LookUpAll(header: Row, names: seq<string>) returns (r: Result<seq<nat>, Error>)
    ensures r == ColumnIndices(header, names)
  {
    var p: seq<nat> := [];
    var j := 0;
    while j < |names|
      invariant j <= |names| && ColumnIndices(header, names[..j]) == Ok(p)
    {
      assert names[..j + 1][..j] == names[..j];
      var k := IndexOf(header, names[j]);
      if k.None? {
        ColumnIndicesStop(header, names, j + 1);
        return Err(MissingColumn(names[j]));
      }
      p := p + [k.value];
      j := j + 1;
    }
    assert names[..|names|] == names;
    r := Ok(p);
  }

  /** A prefix of the names that already fails makes the whole lookup fail the same way. */
  lemma {:induction false} ColumnIndicesStop(header: Row, names: seq<string>, j: nat)
    requires j <= |names| && ColumnIndices(header, names[..j]).Err?
    ensures ColumnIndices(header, names) == ColumnIndices(header, names[..j])
    decreases |names| - j
  {
    if j < |names| {
      assert names[..j + 1][..j] == names[..j];
      ColumnIndicesStop(header, names, j + 1);
    } else {
      assert names[..j] == names;
    }
  }

  /** `headers.remove(name)` for each name in turn. */
  method RemoveAll(header: Row, names: seq<string>) returns (r: Result<Row, Error>)
    ensures r == RemoveEach(header, names)
  {
    var h := header;
    var j := 0;
    while j < |names|
      invariant j <= |names| && RemoveEach(h, names[j..]) == RemoveEach(header, names)
    {
      var k := IndexOf(h, names[j]);
      assert names[j..][1..] == names[j + 1..];
      if k.None? {
        return Err(MissingColumn(names[j]));
      }
      h := DeleteAt(h, k.value);
      j := j + 1;
    }
    assert RemoveEach(h, names[j..]) == Ok(h);
    r := Ok(h);
  }

  /** `del row[k]` for each position in turn. */
  method DeleteAll(row: Row, ks: seq<nat>) returns (r: Result<Row, Error>)
    ensures r == DeleteEach(row, ks)
  {
    var cells := row;
    var d := 0;
    while d < |ks|
      invariant d <= |ks| && DeleteEach(cells, ks[d..]) == DeleteEach(row, ks)
    {
      assert ks[d..][1..] == ks[d + 1..];
      if ks[d] >= |cells| {
        return Err(RowTooShort);
      }
      cells := DeleteAt(cells, ks[d]);
      d := d + 1;
    }
    assert DeleteEach(cells, ks[d..]) == Ok(cells);
    r := Ok(cells);
  }

  /** The first pass: the header lookups, then the row loop. */
  method CollapsePass(t: Table) returns (r: Result<Table, Error>)
    ensures r == FirstPass(t)
  {
    var found := LookUpAll(t.header, Looked);
    if found.Err? {
      return Err(found.error);
    }
    var p := found.value;
    var header := t.header + ["connector_label"];
    var cl := IndexOf(header, "connector_label").value;
    assert cl == ConnectorIndex(t.header);
    var out: seq<Row> := [];
    var i := 0;
    while i < |t.rows|
      invariant i <= |t.rows| && MapRows(t.rows[..i], CollapseFn(p, cl)) == Ok(out)
    {
      var row := t.rows[i] + [""];
      if p[0] >= |row| {
        MapRowsStop(t.rows, CollapseFn(p, cl), i, out);
        return Err(RowTooShort);
      }
      if row[p[0]] == "decision" {
        if !Covers(row, p) || cl >= |row| {
          MapRowsStop(t.rows, CollapseFn(p, cl), i, out);
          return Err(RowTooShort);
        }
        var ids := [row[p[2]], row[p[4]], row[p[6]]];
        var labels := [row[p[3]], row[p[5]], row[p[7]]];
        row := row[p[1] := Compact(ids)];
        row := row[cl := Compact(labels)];
      } else {
        if cl >= |row| {
          MapRowsStop(t.rows, CollapseFn(p, cl), i, out);
          return Err(RowTooShort);
        }
        row := row[cl := ""];
      }
      MapRowsStep(t.rows, CollapseFn(p, cl), i, out);
      out := out + [row];
      i := i + 1;
    }
    MapRowsDone(t.rows);
    r := Ok(Table(header, out));
  }

  /** The second pass: the lookups, the header removals, then the row loop. */
  method DropPass(m: Table, names: seq<string>) returns (r: Result<Table, Error>)
    ensures r == DropColumns(m, names)
  {
    var found := LookUpAll(m.header, names);
    if found.Err? {
      return Err(found.error);
    }
    var q := found.value;
    var header := RemoveAll(m.header, names);
    if header.Err? {
      return Err(header.error);
    }
    var ks := Reversed(q);
    var out: seq<Row> := [];
    var i := 0;
    while i < |m.rows|
      invariant i <= |m.rows| && MapRows(m.rows[..i], DropSlotsFn(q)) == Ok(out)
    {
      var row := DeleteAll(m.rows[i], ks);
      if row.Err? {
        MapRowsStop(m.rows, DropSlotsFn(q), i, out);
        return Err(row.error);
      }
      MapRowsStep(m.rows, DropSlotsFn(q), i, out);
      out := out + [row.value];
      i := i + 1;
    }
    MapRowsDone(m.rows);
    r := Ok(Table(header.value, out));
  }

  /** `parse_decisions`: the first pass, then the second on what it wrote. */
  method ParseDecisions(t: Table) returns (r: Result<Table, Error>)
    ensures r == ParsedDecisions(t)
  {
    r := CollapsePass(t);
    if r.Ok? {
      r := DropPass(r.value, SlotColumns);
    }
  }
}

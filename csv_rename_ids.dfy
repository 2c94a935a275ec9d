/**
 * `csv_rename_ids.py`: replaces every row's `id` by its `xl_id`, and every id in
 * the comma-separated id lists (`next_step_id`, `decision0_id` .. `decision2_id`)
 * by the `xl_id` of the row that has it, dropping ids no row has.
 */
module CsvRenameIds {
  import opened Wrappers
  import opened Strings
  import opened Tables

  /** The columns holding comma-separated lists of ids, in the order they are rewritten. */
  const IdLists: seq<string> := ["next_step_id", "decision0_id", "decision1_id", "decision2_id"]

  /**
   * The first loop's dictionary from `id` to `xl_id` (columns `a` and `b`): a later
   * row with the same id overrides an earlier one; `IndexError` on a short row.
   */
  function IdMap(rows: seq<Row>, a: nat, b: nat): (r: Result<map<string, string>, Error>)
    ensures r.Ok? <==> forall j | 0 <= j < |rows| :: a < |rows[j]| && b < |rows[j]|
    ensures r.Err? ==> r.error == RowTooShort
    ensures r.Ok? ==> forall j | 0 <= j < |rows| :: rows[j][a] in r.value
    decreases |rows|
  {
    if rows == [] then Ok(map[])
    else
      var front, last := rows[..|rows| - 1], rows[|rows| - 1];
      assert forall j | 0 <= j < |front| :: front[j] == rows[j];
      match IdMap(front, a, b)
      case Err(e) => Err(e)
      case Ok(m) => if a < |last| && b < |last| then Ok(m[last[a] := last[b]]) else Err(RowTooShort)
  }

  /** The dictionary holds only the rows' ids, each mapped to the `xl_id` of a row carrying it. */
  lemma {:induction false} IdMapKeys(rows: seq<Row>, a: nat, b: nat)
    requires IdMap(rows, a, b).Ok?
    ensures var m := IdMap(rows, a, b).value;
      forall x | x in m :: exists j | 0 <= j < |rows| :: rows[j][a] == x && m[x] == rows[j][b]
    decreases |rows|
  {
    if rows != [] {
      var front := rows[..|rows| - 1];
      IdMapKeys(front, a, b);
      assert forall j | 0 <= j < |front| :: front[j] == rows[j];
    }
  }

  /** An id maps to the `xl_id` of the last row carrying it. */
  lemma {:induction false} IdMapLast(rows: seq<Row>, a: nat, b: nat, j: nat)
    requires IdMap(rows, a, b).Ok? && j < |rows|
    requires forall j' | j < j' < |rows| :: rows[j'][a] != rows[j][a]
    ensures IdMap(rows, a, b).value[rows[j][a]] == rows[j][b]
    decreases |rows|
  {
    if j < |rows| - 1 {
      IdMapLast(rows[..|rows| - 1], a, b, j);
    }
  }

  /** The test `id in id_to_xl_id`. */
  function KnownFn(m: map<string, string>): string -> bool {
    x => x in m
  }

  /** `[m[id] for id in ids if id in m]`: the known ids translated, the others dropped. */
  function MapIds(ids: seq<string>, m: map<string, string>): (r: seq<string>)
    ensures |r| <= |ids|
    ensures (forall k | 0 <= k < |ids| :: ids[k] in m) ==> r == seq(|ids|, k requires 0 <= k < |ids| => m[ids[k]])
  {
    var kept := Filter(ids, KnownFn(m));
    FilterMembers(ids, KnownFn(m));
    if forall k | 0 <= k < |ids| :: ids[k] in m then
      FilterAll(ids, KnownFn(m));
      seq(|ids|, k requires 0 <= k < |ids| => m[ids[k]])
    else
      seq(|kept|, i requires 0 <= i < |kept| => assert kept[i] in kept; m[kept[i]])
  }

  /** One id-list cell rewritten: split on `,`, translate the known ids, join with `,`. */
  function TranslateIds(cell: string, m: map<string, string>): string {
    Join(MapIds(Split(cell, ","), m), ",")
  }

  /** With every known id mapped to itself, a list only loses the ids nobody has. */
  lemma TranslateIdentity(cell: string, m: map<string, string>)
    requires forall x | x in m :: m[x] == x
    ensures TranslateIds(cell, m) == Join(Filter(Split(cell, ","), KnownFn(m)), ",")
    ensures (forall x | x in Split(cell, ",") :: x in m) ==> TranslateIds(cell, m) == cell
  {
    var ids := Split(cell, ",");
    var kept := Filter(ids, KnownFn(m));
    FilterMembers(ids, KnownFn(m));
    if forall k | 0 <= k < |ids| :: ids[k] in m {
      FilterAll(ids, KnownFn(m));
      assert MapIds(ids, m) == ids;
      JoinSplit(cell, ",");
    } else {
      assert MapIds(ids, m) == kept by {
        forall i | 0 <= i < |kept| ensures MapIds(ids, m)[i] == kept[i] {
          assert kept[i] in kept;
        }
      }
    }
  }

  /** An empty list stays empty as long as no row has an empty id. */
  lemma TranslateEmpty(m: map<string, string>)
    requires "" !in m
    ensures TranslateIds("", m) == ""
  {
    assert Split("", ",") == [""];
    FilterNone([""], KnownFn(m));
  }

  /** `row[index] = ','.join(...)` for one id-list column, when the header has it. */
  function RewriteList(row: Row, header: Row, name: string, m: map<string, string>): (r: Result<Row, Error>)
    ensures r.Ok? <==> (name in header ==> IndexOf(header, name).value < |row|)
    ensures r.Ok? && name !in header ==> r.value == row
    ensures r.Ok? && name in header ==> r.value == row[IndexOf(header, name).value := TranslateIds(row[IndexOf(header, name).value], m)]
  {
    match IndexOf(header, name)
    case None => Ok(row)
    case Some(k) => if k < |row| then Ok(row[k := TranslateIds(row[k], m)]) else Err(RowTooShort)
  }

  /** The inner loop: the id-list columns rewritten in turn. */
  function RewriteLists(row: Row, header: Row, names: seq<string>, m: map<string, string>): (r: Result<Row, Error>)
    ensures r.Ok? ==> |r.value| == |row|
    decreases |names|
  {
    if names == [] then Ok(row)
    else
      match RewriteLists(row, header, names[..|names| - 1], m)
      case Err(e) => Err(e)
      case Ok(r1) => RewriteList(r1, header, names[|names| - 1], m)
  }

  /** The inner loop can only fail on a short row. */
  lemma {:induction false} RewriteListsErr(row: Row, header: Row, names: seq<string>, m: map<string, string>)
    ensures RewriteLists(row, header, names, m).Err? ==> RewriteLists(row, header, names, m).error == RowTooShort
    decreases |names|
  {
    if names != [] {
      RewriteListsErr(row, header, names[..|names| - 1], m);
    }
  }

  /** Once a prefix of the columns fails, the whole inner loop fails the same way. */
  lemma {:induction false} RewriteListsStop(row: Row, header: Row, names: seq<string>, j: nat, m: map<string, string>)
    requires j <= |names| && RewriteLists(row, header, names[..j], m).Err?
    ensures RewriteLists(row, header, names, m) == RewriteLists(row, header, names[..j], m)
    decreases |names| - j
  {
    if j < |names| {
      assert names[..j + 1][..j] == names[..j];
      RewriteListsStop(row, header, names, j + 1, m);
    } else {
      assert names[..j] == names;
    }
  }

  /** The columns the inner loop rewrites. */
  function ListPositions(header: Row, names: seq<string>): set<nat> {
    set n | n in names && n in header :: IndexOf(header, n).value
  }

  /**
   * What the inner loop does, for distinct names: it succeeds when the row reaches
   * every listed column the header has, rewrites those cells and keeps the others.
   */
  lemma {:induction false} RewriteListsCells(row: Row, header: Row, names: seq<string>, m: map<string, string>)
    requires Distinct(names)
    ensures var r := RewriteLists(row, header, names, m);
      && (r.Ok? <==> forall n | n in names && n in header :: IndexOf(header, n).value < |row|)
      && (r.Ok? ==> forall n | n in names && n in header ::
            r.value[IndexOf(header, n).value] == TranslateIds(row[IndexOf(header, n).value], m))
      && (r.Ok? ==> forall c | 0 <= c < |row| && c !in ListPositions(header, names) :: r.value[c] == row[c])
    decreases |names|
  {
    if names != [] {
      var front, last := names[..|names| - 1], names[|names| - 1];
      assert Distinct(front);
      RewriteListsCells(row, header, front, m);
      assert forall n :: n in names <==> n in front || n == last;
      assert last !in front;
      var r1 := RewriteLists(row, header, front, m);
      if last in header {
        var k := IndexOf(header, last).value;
        forall n | n in front && n in header ensures IndexOf(header, n).value != k {
        }
        assert ListPositions(header, names) == ListPositions(header, front) + {k};
      } else {
        assert ListPositions(header, names) == ListPositions(header, front);
      }
    }
  }

  /** The second loop's body: the id replaced by its `xl_id`, then the id lists rewritten. */
  function RenameRow(row: Row, header: Row, a: nat, m: map<string, string>): (r: Result<Row, Error>) {
    if a >= |row| then Err(RowTooShort)
    else if row[a] !in m then Err(MissingKey(row[a]))
    else RewriteLists(row[a := m[row[a]]], header, IdLists, m)
  }

  function RenameRowFn(header: Row, a: nat, m: map<string, string>): Row -> Result<Row, Error> {
    row => RenameRow(row, header, a, m)
  }

  /** A row whose id is known is rewritten exactly when it reaches every id-list column. */
  lemma RenameRowOk(row: Row, header: Row, a: nat, m: map<string, string>)
    requires a < |row| && row[a] in m
    ensures RenameRow(row, header, a, m).Ok? <==> ReachesLists(row, header)
    ensures RenameRow(row, header, a, m).Err? ==> RenameRow(row, header, a, m).error == RowTooShort
  {
    assert Distinct(IdLists);
    RewriteListsCells(row[a := m[row[a]]], header, IdLists, m);
    RewriteListsErr(row[a := m[row[a]]], header, IdLists, m);
  }

  /** The row has a cell for every id-list column the header names. */
  predicate ReachesLists(row: Row, header: Row) {
    forall n | n in IdLists && n in header :: IndexOf(header, n).value < |row|
  }

  /**
   * The stage: the header as it was and every row rewritten. A header without `id`
   * or `xl_id` raises `ValueError`, a row too short for one of the columns used
   * raises `IndexError`.
   */
  function RenamedIds(t: Table): (r: Result<Table, Error>)
    ensures "id" !in t.header ==> r == Err(MissingColumn("id"))
    ensures "id" in t.header && "xl_id" !in t.header ==> r == Err(MissingColumn("xl_id"))
    ensures r.Ok? ==> r.value.header == t.header && |r.value.rows| == |t.rows|
  {
    match ColumnIndex(t.header, "id")
    case Err(e) => Err(e)
    case Ok(a) =>
      match ColumnIndex(t.header, "xl_id")
      case Err(e) => Err(e)
      case Ok(b) =>
        match IdMap(t.rows, a, b)
        case Err(e) => Err(e)
        case Ok(m) =>
          match MapRows(t.rows, RenameRowFn(t.header, a, m))
          case Err(e) => Err(e)
          case Ok(rows) => Ok(Table(t.header, rows))
  }

  /**
   * With both columns present the stage fails only on a row too short for one of
   * the columns it uses, and then with `IndexError`.
   */
  lemma RenamedIdsOutcome(t: Table)
    requires "id" in t.header && "xl_id" in t.header
    ensures var a, b := IndexOf(t.header, "id").value, IndexOf(t.header, "xl_id").value;
      && (RenamedIds(t).Ok? <==> forall j | 0 <= j < |t.rows| ::
            a < |t.rows[j]| && b < |t.rows[j]| && ReachesLists(t.rows[j], t.header))
      && (RenamedIds(t).Err? ==> RenamedIds(t).error == RowTooShort)
  {
    var a, b := IndexOf(t.header, "id").value, IndexOf(t.header, "xl_id").value;
    var mr := IdMap(t.rows, a, b);
    if mr.Ok? {
      var m := mr.value;
      forall j | 0 <= j < |t.rows| ensures RenameRow(t.rows[j], t.header, a, m).Ok? <==> ReachesLists(t.rows[j], t.header) {
        RenameRowOk(t.rows[j], t.header, a, m);
      }
      forall j | 0 <= j < |t.rows| ensures RenameRow(t.rows[j], t.header, a, m).Err? ==> RenameRow(t.rows[j], t.header, a, m).error == RowTooShort {
        RenameRowOk(t.rows[j], t.header, a, m);
      }
    }
  }

  /** The dictionary the stage builds from a table it succeeds on. */
  function Dictionary(t: Table): (m: map<string, string>)
    requires RenamedIds(t).Ok?
    ensures forall j | 0 <= j < |t.rows| :: t.rows[j][IndexOf(t.header, "id").value] in m
  {
    IdMap(t.rows, IndexOf(t.header, "id").value, IndexOf(t.header, "xl_id").value).value
  }

  /**
   * What happens to one row: its id becomes the id's `xl_id`, each id-list cell is
   * translated, and every other cell is kept.
   */
  lemma RenamedIdsCells(t: Table, j: nat)
    requires RenamedIds(t).Ok? && j < |t.rows|
    ensures var a := IndexOf(t.header, "id").value;
      var m, row, out := Dictionary(t), t.rows[j], RenamedIds(t).value.rows[j];
      && |out| == |row| && a < |row|
      && out[a] == m[row[a]]
      && (forall n | n in IdLists && n in t.header ::
            IndexOf(t.header, n).value < |row| && out[IndexOf(t.header, n).value] == TranslateIds(row[IndexOf(t.header, n).value], m))
      && (forall c | 0 <= c < |row| && c != a && c !in ListPositions(t.header, IdLists) :: out[c] == row[c])
  {
    RenamedRow(t, j);
    RowCells(t.rows[j], t.header, IndexOf(t.header, "id").value, Dictionary(t), RenamedIds(t).value.rows[j]);
  }

  /** The cells of one rewritten row, for any dictionary that knows the row's id. */
  lemma RowCells(row: Row, header: Row, a: nat, m: map<string, string>, out: Row)
    requires a < |row| && row[a] in m && a < |header| && header[a] == "id"
    requires RewriteLists(row[a := m[row[a]]], header, IdLists, m) == Ok(out)
    ensures |out| == |row| && out[a] == m[row[a]]
    ensures forall n | n in IdLists && n in header ::
      IndexOf(header, n).value < |row| && out[IndexOf(header, n).value] == TranslateIds(row[IndexOf(header, n).value], m)
    ensures forall c | 0 <= c < |row| && c != a && c !in ListPositions(header, IdLists) :: out[c] == row[c]
  {
    var start := row[a := m[row[a]]];
    assert Distinct(IdLists);
    RewriteListsCells(start, header, IdLists, m);
    forall n | n in IdLists && n in header
      ensures IndexOf(header, n).value != a
    {
      assert header[IndexOf(header, n).value] == n != "id";
    }
    assert a !in ListPositions(header, IdLists);
    forall c | 0 <= c < |row| && c != a
      ensures start[c] == row[c]
    {
    }
  }

  /** A row of the output is the inner loop run on the row with its id replaced. */
  lemma RenamedRow(t: Table, j: nat)
    requires RenamedIds(t).Ok? && j < |t.rows|
    ensures var a := IndexOf(t.header, "id").value;
      var m, row := Dictionary(t), t.rows[j];
      && a < |row| && row[a] in m
      && RewriteLists(row[a := m[row[a]]], t.header, IdLists, m) == Ok(RenamedIds(t).value.rows[j])
  {
    var a := IndexOf(t.header, "id").value;
    var m := Dictionary(t);
    var rows := MapRows(t.rows, RenameRowFn(t.header, a, m));
    assert RenamedIds(t).value.rows == rows.value;
    assert RenameRowFn(t.header, a, m)(t.rows[j]) == Ok(rows.value[j]);
  }

  /** When ids repeat, every row with the id gets the `xl_id` of the last such row. */
  lemma LastXlIdWins(t: Table, i: nat, j: nat)
    requires RenamedIds(t).Ok? && i < |t.rows| && j < |t.rows|
    requires var a := IndexOf(t.header, "id").value;
      t.rows[i][a] == t.rows[j][a] && forall j' | j < j' < |t.rows| :: t.rows[j'][a] != t.rows[j][a]
    ensures RenamedIds(t).value.rows[i][IndexOf(t.header, "id").value] == t.rows[j][IndexOf(t.header, "xl_id").value]
  {
    var a, b := IndexOf(t.header, "id").value, IndexOf(t.header, "xl_id").value;
    RenamedIdsCells(t, i);
    IdMapLast(t.rows, a, b, j);
  }

  /**
   * When every row's `xl_id` is its own id, the id column is kept and an id list
   * only loses the ids no row has.
   */
  lemma SameIdsKept(t: Table, j: nat)
    requires RenamedIds(t).Ok? && j < |t.rows|
    requires var a, b := IndexOf(t.header, "id").value, IndexOf(t.header, "xl_id").value;
      forall j' | 0 <= j' < |t.rows| :: t.rows[j'][a] == t.rows[j'][b]
    ensures var a := IndexOf(t.header, "id").value;
      var m, row, out := Dictionary(t), t.rows[j], RenamedIds(t).value.rows[j];
      && out[a] == row[a]
      && (forall n | n in IdLists && n in t.header ::
            IndexOf(t.header, n).value < |row| &&
            out[IndexOf(t.header, n).value] == Join(Filter(Split(row[IndexOf(t.header, n).value], ","), KnownFn(m)), ","))
  {
    var a, b := IndexOf(t.header, "id").value, IndexOf(t.header, "xl_id").value;
    var m, row := Dictionary(t), t.rows[j];
    IdMapKeys(t.rows, a, b);
    assert forall x | x in m :: m[x] == x;
    RenamedIdsCells(t, j);
    forall n | n in IdLists && n in t.header
      ensures RenamedIds(t).value.rows[j][IndexOf(t.header, n).value] == Join(Filter(Split(row[IndexOf(t.header, n).value], ","), KnownFn(m)), ",")
    {
      TranslateIdentity(row[IndexOf(t.header, n).value], m);
    }
  }

  /**
   * Each id becomes the `xl_id` of the last row holding it, so a row that is the
   * last with its id and has an empty `xl_id` gets an empty id.
   */
  lemma EmptyXlIdGivesEmptyId(t: Table, j: nat)
    requires RenamedIds(t).Ok? && j < |t.rows|
    requires var a := IndexOf(t.header, "id").value;
      forall j' | j < j' < |t.rows| :: t.rows[j'][a] != t.rows[j][a]
    requires t.rows[j][IndexOf(t.header, "xl_id").value] == ""
    ensures RenamedIds(t).value.rows[j][IndexOf(t.header, "id").value] == ""
  {
    LastXlIdWins(t, j, j);
  }

  /** An empty id-list cell stays empty as long as no row has an empty id. */
  lemma EmptyListStaysEmpty(t: Table, j: nat, n: string)
    requires RenamedIds(t).Ok? && j < |t.rows| && n in IdLists && n in t.header
    requires forall j' | 0 <= j' < |t.rows| :: t.rows[j'][IndexOf(t.header, "id").value] != ""
    requires IndexOf(t.header, n).value < |t.rows[j]| && t.rows[j][IndexOf(t.header, n).value] == ""
    ensures RenamedIds(t).value.rows[j][IndexOf(t.header, n).value] == ""
  {
    var a, b := IndexOf(t.header, "id").value, IndexOf(t.header, "xl_id").value;
    IdMapKeys(t.rows, a, b);
    RenamedIdsCells(t, j);
    TranslateEmpty(Dictionary(t));
  }

  /** The first loop of `rename_ids`: the dictionary, and the rows kept for the second pass. */
  method BuildIdMap(t: Table, a: nat, b: nat) returns (res: Result<map<string, string>, Error>, rows: seq<Row>)
    ensures res == IdMap(t.rows, a, b) && (res.Ok? ==> rows == t.rows)
  {
    var idToXlId: map<string, string> := map[];
    rows := [];
    var i := 0;
    while i < |t.rows|
      invariant i <= |t.rows| && rows == t.rows[..i]
      invariant IdMap(t.rows[..i], a, b) == Ok(idToXlId)
    {
      var row := t.rows[i];
      assert t.rows[..i + 1][..i] == t.rows[..i];
      if a >= |row| || b >= |row| {
        assert !(a < |t.rows[i]| && b < |t.rows[i]|);
        return Err(RowTooShort), rows;
      }
      idToXlId := idToXlId[row[a] := row[b]];
      rows := rows + [row];
      i := i + 1;
    }
    MapRowsDone(t.rows);
    res := Ok(idToXlId);
  }

  /** The per-row body of the second loop: the id, then each id-list column in turn. */
  method RewriteRow(row0: Row, header: Row, a: nat, m: map<string, string>) returns (res: Result<Row, Error>)
    requires a < |row0| && row0[a] in m
    ensures res == RenameRow(row0, header, a, m)
  {
    var row := row0[a := m[row0[a]]];
    ghost var start := row;
    var j := 0;
    while j < |IdLists|
      invariant j <= |IdLists|
      invariant RewriteLists(start, header, IdLists[..j], m) == Ok(row)
    {
      assert IdLists[..j + 1][..j] == IdLists[..j];
      var name := IdLists[j];
      var index := IndexOf(header, name);
      if index.Some? {
        if index.value >= |row| {
          RewriteListsErr(start, header, IdLists[..j + 1], m);
          RewriteListsStop(start, header, IdLists, j + 1, m);
          return Err(RowTooShort);
        }
        var ids := Split(row[index.value], ",");
        var xlIds := MapIds(ids, m);
        row := row[index.value := Join(xlIds, ",")];
      }
      j := j + 1;
    }
    assert IdLists[..|IdLists|] == IdLists;
    res := Ok(row);
  }

  /** `rename_ids`: the first loop builds the dictionary, the second rewrites each row in place. */
  method RenameIds(t: Table) returns (r: Result<Table, Error>)
    ensures r == RenamedIds(t)
  {
    var idIndex := IndexOf(t.header, "id");
    if idIndex.None? {
      return Err(MissingColumn("id"));
    }
    var xlIdIndex := IndexOf(t.header, "xl_id");
    if xlIdIndex.None? {
      return Err(MissingColumn("xl_id"));
    }
    var a, b := idIndex.value, xlIdIndex.value;
    var built, rows := BuildIdMap(t, a, b);
    if built.Err? {
      return Err(built.error);
    }
    var idToXlId := built.value;
    var f := RenameRowFn(t.header, a, idToXlId);
    var out: seq<Row> := [];
    var i := 0;
    while i < |rows|
      invariant i <= |rows|
      invariant MapRows(rows[..i], f) == Ok(out)
    {
      assert rows[i][a] in idToXlId;
      var row := RewriteRow(rows[i], t.header, a, idToXlId);
      assert f(rows[i]) == row;
      if row.Err? {
        MapRowsStop(rows, f, i, out);
        return Err(row.error);
      }
      MapRowsStep(rows, f, i, out);
      out := out + [row.value];
      i := i + 1;
    }
    MapRowsDone(rows);
    r := Ok(Table(t.header, out));
  }
}

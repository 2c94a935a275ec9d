/** `xl_delete_empty_cols.py`: keeps only the columns whose header is not empty. */
module XlDeleteEmptyCols {
  import opened Wrappers
  import opened Tables
  import Utils

  /**
   * `delete_empty_cols`: the kept indices are the non-empty headers' positions; the
   * header and every row are projected onto them, so the header has no empty name
   * and every row is exactly as long as it. A row too short for a kept index raises
   * `IndexError`.
   */
  function DeleteEmptyCols(t: Table): (r: Result<Table, Error>)
    ensures r.Ok? <==> forall j | 0 <= j < |t.rows| :: Covers(t.rows[j], NonEmptyPositions(t.header))
    ensures r.Err? ==> r.error == RowTooShort
    ensures r.Ok? ==> "" !in r.value.header && |r.value.rows| == |t.rows|
    ensures r.Ok? ==> forall j | 0 <= j < |t.rows| :: |r.value.rows[j]| == |r.value.header|
  {
    var indices := NonEmptyPositions(t.header);
    if forall j | 0 <= j < |t.rows| :: Covers(t.rows[j], indices) then
      var header := Project(t.header, indices);
      assert "" !in header by {
        assert forall k | 0 <= k < |header| :: header[k] != "";
      }
      Ok(Table(header, seq(|t.rows|, j requires 0 <= j < |t.rows| => Project(t.rows[j], indices))))
    else Err(RowTooShort)
  }

  /** The stage and `delete_empty_cols` of `drawio_xl/utils.py` give the same output. */
  lemma SameAsLibrary(t: Table)
    ensures DeleteEmptyCols(t) == Utils.DeleteEmptyCols(t)
  {
    var indices := NonEmptyPositions(t.header);
    ProjectNonEmpty(t.header);
    if forall j | 0 <= j < |t.rows| :: Covers(t.rows[j], indices) {
      var rows := DeleteEmptyCols(t).value.rows;
      MapRowsIs(t.rows, ProjectFn(indices), rows);
    }
  }

  /** A second pass deletes nothing. */
  lemma DeleteEmptyColsIdempotent(t: Table)
    requires DeleteEmptyCols(t).Ok?
    ensures DeleteEmptyCols(DeleteEmptyCols(t).value) == DeleteEmptyCols(t)
  {
    SameAsLibrary(t);
    SameAsLibrary(DeleteEmptyCols(t).value);
    Utils.DeleteEmptyColsIdempotent(t);
  }
}

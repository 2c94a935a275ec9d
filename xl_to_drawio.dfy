/**
 * `drawio_xl/xl_to_drawio.py`: the library form of the first spreadsheet-to-diagram
 * stages. Its `delete_empty_cols`, `delete_empty_rows` and `rename_headers` do
 * what the stand-alone stages of the same names do; the remaining functions of
 * the file are empty.
 */
module XlToDrawio {
  import opened Wrappers
  import opened Tables
  import Utils
  import XlDeleteEmptyCols
  import XlDeleteEmptyRows
  import XlRenameHeaders
  import CsvRenameHeaders

  /**
   * `delete_empty_cols`: the header without its empty names, every row projected
   * onto the kept positions; a row too short for a kept position raises `IndexError`.
   */
  function DeleteEmptyCols(t: Table): (r: Result<Table, Error>)
    ensures r.Ok? <==> forall j | 0 <= j < |t.rows| :: Covers(t.rows[j], NonEmptyPositions(t.header))
    ensures r.Ok? ==> r.value.header == Without(t.header, {""}) && |r.value.rows| == |t.rows|
    ensures r.Ok? ==> forall j | 0 <= j < |t.rows| :: |r.value.rows[j]| == |r.value.header|
  {
    Utils.DeleteEmptyCols(t)
  }

  /** The library function and the stand-alone `xl_delete_empty_cols.py` agree on every file. */
  lemma DeleteEmptyColsAsStage(t: Table)
    ensures DeleteEmptyCols(t) == XlDeleteEmptyCols.DeleteEmptyCols(t)
  {
    XlDeleteEmptyCols.SameAsLibrary(t);
  }

  /** A second pass deletes nothing. */
  lemma DeleteEmptyColsIdempotent(t: Table)
    requires DeleteEmptyCols(t).Ok?
    ensures DeleteEmptyCols(DeleteEmptyCols(t).value) == DeleteEmptyCols(t)
  {
    Utils.DeleteEmptyColsIdempotent(t);
  }

  /** `delete_empty_rows`: the records, header included, that have a non-blank cell, in order. */
  function DeleteEmptyRows(records: seq<Row>): (r: seq<Row>)
    ensures forall row :: row in r <==> row in records && Utils.HasContent(row)
    ensures |r| <= |records|
  {
    Utils.DeleteEmptyRows(records)
  }

  /** The library function and the stand-alone `xl_delete_empty_rows.py` agree on every file. */
  lemma DeleteEmptyRowsAsStage(records: seq<Row>)
    ensures DeleteEmptyRows(records) == XlDeleteEmptyRows.DeleteEmptyRows(records)
  {
    XlDeleteEmptyRows.SameAsLibrary(records);
  }

  /** A second pass deletes nothing. */
  lemma DeleteEmptyRowsIdempotent(records: seq<Row>)
    ensures DeleteEmptyRows(DeleteEmptyRows(records)) == DeleteEmptyRows(records)
  {
    Utils.DeleteEmptyRowsIdempotent(records);
  }

  /**
   * `rename_headers`: the four spreadsheet names become `id`, `shape`,
   * `connector_label` and `next_step_id`, every other name is snake-cased, and
   * the data rows pass through; a missing fixed name raises `ValueError`.
   */
  function RenameHeaders(t: Table): (r: Result<Table, Error>)
    ensures r.Ok? <==> forall k | 0 <= k < |XlRenameHeaders.Fixed| :: XlRenameHeaders.Fixed[k] in t.header
    ensures r.Ok? ==> r.value.rows == t.rows && |r.value.header| == |t.header|
  {
    XlRenameHeaders.XlRenamed(t)
  }

  /**
   * Renaming the header of a file whose header came from `csv_rename_headers.py`
   * gives the original file back, when the original names are already snake case.
   */
  lemma RenameHeadersUndoesCsv(t: Table)
    requires CsvRenameHeaders.Restorable(t.header)
    ensures RenameHeaders(CsvRenameHeaders.CsvRenamed(t).value) == Ok(t)
  {
    CsvRenameHeaders.XlUndoesCsv(t.header);
  }

  /** The fixed names take their diagram spellings at their first occurrences. */
  lemma RenameHeadersFixed(t: Table)
    requires RenameHeaders(t).Ok?
    ensures forall k | 0 <= k < |XlRenameHeaders.Fixed| ::
      RenameHeaders(t).value.header[IndexOf(t.header, XlRenameHeaders.Fixed[k]).value] == XlRenameHeaders.Renamed[k]
  {
    XlRenameHeaders.XlHeaderPositions(t.header);
  }
}

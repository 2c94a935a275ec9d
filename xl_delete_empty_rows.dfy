/** `xl_delete_empty_rows.py`: keeps the CSV records, header included, that have some content. */
module XlDeleteEmptyRows {
  import opened Strings
  import opened Tables
  import Utils

  /** `any(field.strip() for field in row)`. */
  predicate AnyContent(row: Row) {
    exists i | 0 <= i < |row| :: Strip(row[i]) != ""
  }

  /** `delete_empty_rows`: the records with content, in order and unmodified. */
  function DeleteEmptyRows(records: seq<Row>): (r: seq<Row>)
    ensures forall row :: row in r <==> row in records && exists i | 0 <= i < |row| :: !Blank(row[i])
    ensures |r| <= |records|
  {
    FilterMembers(records, AnyContent);
    AnyContentIff();
    Filter(records, AnyContent)
  }

  /** A cell has content after stripping exactly when it is not all whitespace. */
  lemma AnyContentIff()
    ensures forall row :: AnyContent(row) <==> exists i | 0 <= i < |row| :: !Blank(row[i])
  {
    forall row ensures AnyContent(row) <==> exists i | 0 <= i < |row| :: !Blank(row[i]) {
      forall k | 0 <= k < |row| ensures (Strip(row[k]) != "") == !Blank(row[k]) {
        StripEmpty(row[k]);
      }
    }
  }

  /** The stage and `delete_empty_rows` of `drawio_xl/utils.py` give the same output. */
  lemma SameAsLibrary(records: seq<Row>)
    ensures DeleteEmptyRows(records) == Utils.DeleteEmptyRows(records)
  {
    AnyContentIff();
    forall i | 0 <= i < |records| ensures AnyContent(records[i]) == Utils.HasContent(records[i]) {
      Utils.HasContentIff(records[i]);
    }
    FilterCongruent(records, AnyContent, Utils.HasContent);
  }

  /** A record with no cell at all is dropped. */
  lemma ZeroCellRecordDropped(front: seq<Row>)
    ensures DeleteEmptyRows(front + [[]]) == DeleteEmptyRows(front)
  {
    FilterSnoc(front, [], AnyContent);
    assert DeleteEmptyRows(front) + [] == DeleteEmptyRows(front);
  }

  /** A second pass deletes nothing. */
  lemma DeleteEmptyRowsIdempotent(records: seq<Row>)
    ensures DeleteEmptyRows(DeleteEmptyRows(records)) == DeleteEmptyRows(records)
  {
    FilterIdempotent(records, AnyContent);
  }
}

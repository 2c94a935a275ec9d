/**
 * `replace_newlines.py`: in every cell of every CSV record, header included,
 * each line feed and each carriage return becomes the HTML break `<br>`.
 */
module ReplaceNewlines {
  import opened Strings
  import opened Tables

  const Break := "<br>"

  /** `cell.replace('\n', '<br>').replace('\r', '<br>')`: no line break is left. */
  function EscapeCell(cell: string): (r: string)
    ensures '\n' !in r && '\r' !in r
  {
    var once := Replace(cell, "\n", Break);
    ReplaceRemovesChar(cell, '\n', Break);
    ReplaceKeepsAbsentChar(once, "\r", Break, '\n');
    ReplaceRemovesChar(once, '\r', Break);
    Replace(once, "\r", Break)
  }

  /** One record rebuilt cell by cell. */
  function EscapeRecord(record: Row): (r: Row)
    ensures |r| == |record|
    ensures forall j | 0 <= j < |r| :: '\n' !in r[j] && '\r' !in r[j]
  {
    seq(|record|, j requires 0 <= j < |record| => EscapeCell(record[j]))
  }

  /**
   * `process_csv`: every record, header included, escaped; as many records as
   * before, each with as many cells, and no line break in any cell.
   */
  function EscapeRecords(records: seq<Row>): (r: seq<Row>)
    ensures |r| == |records|
    ensures forall i | 0 <= i < |r| :: |r[i]| == |records[i]|
    ensures forall i, j | 0 <= i < |r| && 0 <= j < |r[i]| :: '\n' !in r[i][j] && '\r' !in r[i][j]
  {
    seq(|records|, i requires 0 <= i < |records| => EscapeRecord(records[i]))
  }

  /** A cell without line breaks is written as it was. */
  lemma EscapeCellClean(cell: string)
    requires '\n' !in cell && '\r' !in cell
    ensures EscapeCell(cell) == cell
  {
    ContainsChar(cell, '\n');
    ReplaceAbsent(cell, "\n", Break);
    ContainsChar(cell, '\r');
    ReplaceAbsent(cell, "\r", Break);
  }

  /** Escaping twice is escaping once. */
  lemma EscapeRecordsIdempotent(records: seq<Row>)
    ensures EscapeRecords(EscapeRecords(records)) == EscapeRecords(records)
  {
    var once := EscapeRecords(records);
    forall i, j | 0 <= i < |once| && 0 <= j < |once[i]| ensures EscapeCell(once[i][j]) == once[i][j] {
      EscapeCellClean(once[i][j]);
    }
    forall i | 0 <= i < |once| ensures EscapeRecord(once[i]) == once[i] {
    }
  }

  /** A Windows line ending becomes two breaks, one per character. */
  lemma CarriageReturnLineFeed()
    ensures EscapeCell("\r\n") == "<br><br>"
  {
    ContainsChar("\r", '\n');
    ContainsChar("", '\n');
    ContainsChar("<br>", '\r');
    assert "\r" + "\n" + "" == "\r\n";
    SplitAfter("\r", "\n", "");
    SplitWithout("", "\n");
    assert Replace("\r\n", "\n", Break) == "\r<br>";
    assert "" + "\r" + "<br>" == "\r<br>";
    ContainsChar("", '\r');
    SplitAfter("", "\r", "<br>");
    SplitWithout("<br>", "\r");
    assert Split("\r<br>", "\r") == ["", "<br>"];
  }
}

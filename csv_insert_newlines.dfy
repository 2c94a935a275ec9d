/** `csv_insert_newlines.py`: in every cell of every CSV record, each `<br>` becomes a line feed. */
module CsvInsertNewlines {
  import opened Strings
  import opened Tables
  import ReplaceNewlines

  /** `cell.replace('<br>', '\n')`: no `<br>` is left. */
  function UnescapeCell(cell: string): (r: string)
    ensures !Contains(r, ReplaceNewlines.Break)
  {
    ReplaceRemovesPattern(cell, ReplaceNewlines.Break, '\n');
    Replace(cell, ReplaceNewlines.Break, "\n")
  }

  function UnescapeRecord(record: Row): (r: Row)
    ensures |r| == |record|
    ensures forall j | 0 <= j < |r| :: !Contains(r[j], ReplaceNewlines.Break)
  {
    seq(|record|, j requires 0 <= j < |record| => UnescapeCell(record[j]))
  }

  /**
   * `insert_newlines`: every record, header included, unescaped; as many records
   * as before, each with as many cells, and no `<br>` in any cell.
   */
  function UnescapeRecords(records: seq<Row>): (r: seq<Row>)
    ensures |r| == |records|
    ensures forall i | 0 <= i < |r| :: |r[i]| == |records[i]|
    ensures forall i, j | 0 <= i < |r| && 0 <= j < |r[i]| :: !Contains(r[i][j], ReplaceNewlines.Break)
  {
    seq(|records|, i requires 0 <= i < |records| => UnescapeRecord(records[i]))
  }

  /** Two occurrences of `<br>` never overlap. */
  lemma BreakNoBorder()
    ensures NoBorder(ReplaceNewlines.Break)
  {
    var b := ReplaceNewlines.Break;
    assert b[1..] != b[..3] by { assert b[1] != b[0]; }
    assert b[2..] != b[..2] by { assert b[2] != b[0]; }
    assert b[3..] != b[..1] by { assert b[3] != b[0]; }
  }

  /** Unescaping an escaped cell gives it back, unless it held a carriage return or a literal `<br>`. */
  lemma UnescapeEscapeCell(cell: string)
    requires '\r' !in cell && !Contains(cell, ReplaceNewlines.Break)
    ensures UnescapeCell(ReplaceNewlines.EscapeCell(cell)) == cell
  {
    var once := Replace(cell, "\n", ReplaceNewlines.Break);
    ReplaceKeepsAbsentChar(cell, "\n", ReplaceNewlines.Break, '\r');
    ContainsChar(once, '\r');
    ReplaceAbsent(once, "\r", ReplaceNewlines.Break);
    BreakNoBorder();
    ReplaceRoundTrip(cell, '\n', ReplaceNewlines.Break);
  }

  /** On whole files: the records come back when no cell held a carriage return or a literal `<br>`. */
  lemma UnescapeEscapeRecords(records: seq<Row>)
    requires forall i, j | 0 <= i < |records| && 0 <= j < |records[i]| ::
      '\r' !in records[i][j] && !Contains(records[i][j], ReplaceNewlines.Break)
    ensures UnescapeRecords(ReplaceNewlines.EscapeRecords(records)) == records
  {
    var back := UnescapeRecords(ReplaceNewlines.EscapeRecords(records));
    forall i | 0 <= i < |records| ensures back[i] == records[i] {
      forall j | 0 <= j < |records[i]| ensures back[i][j] == records[i][j] {
        UnescapeEscapeCell(records[i][j]);
      }
    }
  }

  /** A carriage return is not restored: a Windows line ending comes back as two line feeds. */
  lemma CarriageReturnLost()
    ensures UnescapeCell(ReplaceNewlines.EscapeCell("\r\n")) == "\n\n"
  {
    ReplaceNewlines.CarriageReturnLineFeed();
    var b := ReplaceNewlines.Break;
    SplitTwoBreaks();
    assert UnescapeCell("<br><br>") == Join(["", "", ""], "\n");
  }

  /** Two literal breaks in a row split into three empty parts. */
  lemma SplitTwoBreaks()
    ensures Split("<br><br>", ReplaceNewlines.Break) == ["", "", ""]
  {
    var b := ReplaceNewlines.Break;
    BreakNoBorder();
    TooShortToContain("", b);
    SplitWithout("", b);
    SplitAfter("", b, "");
    assert "" + b + "" == b;
    assert Split(b, b) == ["", ""];
    SplitAfter("", b, b);
    assert "" + b + b == "<br><br>";
  }
}

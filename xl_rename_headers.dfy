/**
 * `xl_rename_headers.py`: renames the spreadsheet's header row to the column
 * names of the diagram data: four fixed names get their own spelling, every other
 * name is lower-cased with its spaces turned into underscores.
 */
module XlRenameHeaders {
  import opened Wrappers
  import opened Strings
  import opened Tables

  /** The spreadsheet names with a fixed renaming, in the order they are looked up. */
  const Fixed: seq<string> := ["Process Step ID", "Shape Type", "Connector Label", "Next Step ID"]

  /** What each fixed name becomes. */
  const Renamed: seq<string> := ["id", "shape", "connector_label", "next_step_id"]

  /** `header.replace(' ', '_').lower()`: never one of the fixed names, which start upper-case. */
  function SnakeCase(h: string): (r: string)
    ensures r !in Fixed
  {
    var r := Lower(Replace(h, " ", "_"));
    assert forall k | 0 <= k < |Fixed| :: IsUpper(Fixed[k][0]);
    r
  }

  /** The comprehension: fixed names kept, every other name snake-cased. */
  function Normalized(header: Row): (r: Row)
    ensures |r| == |header|
    ensures forall i | 0 <= i < |header| && (r[i] in Fixed || header[i] in Fixed) :: r[i] == header[i]
  {
    seq(|header|, i requires 0 <= i < |header| => if header[i] in Fixed then header[i] else SnakeCase(header[i]))
  }

  /** A name already in snake case, with no upper-case letter and no space, is kept. */
  lemma SnakeCaseKeeps(h: string)
    requires forall i | 0 <= i < |h| :: !IsUpper(h[i]) && h[i] != ' '
    ensures SnakeCase(h) == h
  {
    ReplaceOneChar(h, ' ', '_');
    assert Translate(h, ' ', '_') == h;
    LowerNoUpper(h);
  }

  /** The fixed names are distinct and no renaming is a fixed name. */
  lemma FixedRenamingFresh()
    ensures FreshRenaming(Fixed, Renamed)
  {
  }

  /**
   * The renamed header of `xl_rename_headers.py`: the comprehension, then each fixed
   * name's first occurrence overwritten in turn. Fails on the first fixed name, in
   * lookup order, that the header lacks. `CsvRenameHeaders.CsvHeader` is the same
   * code over the opposite names; both share `Tables.AssignAll`.
   */
  function XlHeader(header: Row): (r: Result<Row, Error>)
    ensures r.Ok? <==> forall k | 0 <= k < |Fixed| :: Fixed[k] in header
    ensures r.Err? ==> exists k | 0 <= k < |Fixed| ::
      r.error == MissingColumn(Fixed[k]) && Fixed[k] !in header && forall m | 0 <= m < k :: Fixed[m] in header
    ensures r.Ok? ==> |r.value| == |header|
  {
    var h0 := Normalized(header);
    forall k | 0 <= k < |Fixed| ensures IndexOf(h0, Fixed[k]) == IndexOf(header, Fixed[k]) {
      IndexOfSamePositions(h0, header, Fixed[k]);
    }
    FixedRenamingFresh();
    AssignAllOutcome(h0, Fixed, Renamed);
    AssignAll(h0, Fixed, Renamed)
  }

  /**
   * Where the names go: the header keeps its length, the first occurrence of each
   * fixed name becomes its renaming, a later repeat of a fixed name stays as it
   * was, and every other name is snake-cased.
   */
  lemma XlHeaderPositions(header: Row)
    requires XlHeader(header).Ok?
    ensures var r := XlHeader(header).value;
      && |r| == |header|
      && (forall k | 0 <= k < |Fixed| :: r[IndexOf(header, Fixed[k]).value] == Renamed[k])
      && (forall i | 0 <= i < |header| && header[i] !in Fixed :: r[i] == SnakeCase(header[i]))
      && (forall i | 0 <= i < |header| && header[i] in Fixed && IndexOf(header, header[i]) != Some(i) :: r[i] == header[i])
  {
    var h0 := Normalized(header);
    forall k | 0 <= k < |Fixed| ensures IndexOf(h0, Fixed[k]) == IndexOf(header, Fixed[k]) {
      IndexOfSamePositions(h0, header, Fixed[k]);
    }
    FixedRenamingFresh();
    AssignAllPositions(h0, Fixed, Renamed);
    forall i | 0 <= i < |header| && header[i] in Fixed && IndexOf(header, header[i]) != Some(i)
      ensures IndexOf(h0, h0[i]) != Some(i)
    {
      var k :| 0 <= k < |Fixed| && Fixed[k] == header[i];
    }
  }

  /** The stage on a whole file: the header renamed, every data row passed through. */
  function XlRenamed(t: Table): (r: Result<Table, Error>)
    ensures r.Ok? <==> forall k | 0 <= k < |Fixed| :: Fixed[k] in t.header
    ensures r.Ok? ==> r.value.rows == t.rows && |r.value.header| == |t.header|
  {
    match XlHeader(t.header)
    case Err(e) => Err(e)
    case Ok(header) => Ok(Table(header, t.rows))
  }

  /** `rename_headers`: the comprehension, then the four assignments in place. */
  method RenameHeaders(t: Table) returns (r: Result<Table, Error>)
    ensures r == XlRenamed(t)
  {
    var headers := Normalized(t.header);
    var k := IndexOf(headers, "Process Step ID");
    if k.None? {
      return Err(MissingColumn("Process Step ID"));
    }
    headers := headers[k.value := "id"];
    k := IndexOf(headers, "Shape Type");
    if k.None? {
      return Err(MissingColumn("Shape Type"));
    }
    headers := headers[k.value := "shape"];
    k := IndexOf(headers, "Connector Label");
    if k.None? {
      return Err(MissingColumn("Connector Label"));
    }
    headers := headers[k.value := "connector_label"];
    k := IndexOf(headers, "Next Step ID");
    if k.None? {
      return Err(MissingColumn("Next Step ID"));
    }
    headers := headers[k.value := "next_step_id"];
    r := Ok(Table(headers, t.rows));
  }
}

/**
 * `csv_rename_headers.py`: renames the diagram data's column names to the
 * spreadsheet's header row: four fixed names get their own spelling, every other
 * name has its underscores turned into spaces and is title-cased.
 */
module CsvRenameHeaders {
  import opened Wrappers
  import opened Strings
  import opened Tables
  import XlRenameHeaders

  /** The diagram column names with a fixed renaming, in the order they are looked up. */
  const Fixed: seq<string> := ["id", "shape", "connector_label", "next_step_id"]

  /** What each fixed name becomes. */
  const Renamed: seq<string> := ["Process Step ID", "Shape Type", "Connector Label", "Next Step ID"]

  /** `header.replace('_', ' ').title()`: never one of the fixed names, which start lower-case. */
  function TitleCase(h: string): (r: string)
    ensures |r| == |h|
    ensures r !in Fixed
  {
    ReplaceOneChar(h, '_', ' ');
    var r := Title(Replace(h, "_", " "));
    assert |r| > 0 ==> !IsLower(r[0]);
    assert forall k | 0 <= k < |Fixed| :: IsLower(Fixed[k][0]);
    r
  }

  /** The comprehension: fixed names kept, every other name title-cased. */
  function Normalized(header: Row): (r: Row)
    ensures |r| == |header|
    ensures forall i | 0 <= i < |header| && (r[i] in Fixed || header[i] in Fixed) :: r[i] == header[i]
  {
    seq(|header|, i requires 0 <= i < |header| => if header[i] in Fixed then header[i] else TitleCase(header[i]))
  }

  /** The fixed names are distinct and no renaming is a fixed name. */
  lemma FixedRenamingFresh()
    ensures FreshRenaming(Fixed, Renamed)
  {
  }

  /**
   * The renamed header of `csv_rename_headers.py`: the comprehension, then each fixed
   * name's first occurrence overwritten in turn. Fails on the first fixed name, in
   * lookup order, that the header lacks. `XlRenameHeaders.XlHeader` is the same
   * code over the opposite names; both share `Tables.AssignAll`.
   */
  function CsvHeader(header: Row): (r: Result<Row, Error>)
    ensures r.Ok? <==> forall k | 0 <= k < |Fixed| :: Fixed[k] in header
    ensures r.Err? ==> exists k | 0 <= k < |Fixed| ::
      r.error == MissingColumn(Fixed[k]) && Fixed[k] !in header && forall m | 0 <= m < k :: Fixed[m] in header
    ensures r.Ok? ==> |r.value| == |header|
  {
    var h0 := Normalized(header);
    forall k | 0 <= k < |Fixed| ensures IndexOf(h0, Fixed[k]) == IndexOf(header, Fixed[k]) {
      IndexOfSamePositions(h0, header, Fixed[k]);
    }
    FixedRenamingFresh();
    AssignAllOutcome(h0, Fixed, Renamed);
    AssignAll(h0, Fixed, Renamed)
  }

  /**
   * Where the names go: the first occurrence of each fixed name becomes its
   * renaming, a later repeat of a fixed name stays as it was, and every other name
   * is title-cased.
   */
  lemma CsvHeaderPositions(header: Row)
    requires CsvHeader(header).Ok?
    ensures var r := CsvHeader(header).value;
      && |r| == |header|
      && (forall k | 0 <= k < |Fixed| :: r[IndexOf(header, Fixed[k]).value] == Renamed[k])
      && (forall i | 0 <= i < |header| && header[i] !in Fixed :: r[i] == TitleCase(header[i]))
      && (forall i | 0 <= i < |header| && header[i] in Fixed && IndexOf(header, header[i]) != Some(i) :: r[i] == header[i])
  {
    var h0 := Normalized(header);
    forall k | 0 <= k < |Fixed| ensures IndexOf(h0, Fixed[k]) == IndexOf(header, Fixed[k]) {
      IndexOfSamePositions(h0, header, Fixed[k]);
    }
    FixedRenamingFresh();
    AssignAllPositions(h0, Fixed, Renamed);
    forall i | 0 <= i < |header| && header[i] in Fixed && IndexOf(header, header[i]) != Some(i)
      ensures IndexOf(h0, h0[i]) != Some(i)
    {
      var k :| 0 <= k < |Fixed| && Fixed[k] == header[i];
    }
  }

  /** The stage on a whole file: the header renamed, every data row passed through. */
  function CsvRenamed(t: Table): (r: Result<Table, Error>)
    ensures r.Ok? <==> forall k | 0 <= k < |Fixed| :: Fixed[k] in t.header
    ensures r.Ok? ==> r.value.rows == t.rows && |r.value.header| == |t.header|
  {
    match CsvHeader(t.header)
    case Err(e) => Err(e)
    case Ok(header) => Ok(Table(header, t.rows))
  }

  /** `rename_headers`: the comprehension, then the four assignments in place. */
  method RenameHeaders(t: Table) returns (r: Result<Table, Error>)
    ensures r == CsvRenamed(t)
  {
    var headers := Normalized(t.header);
    var k := IndexOf(headers, "id");
    if k.None? {
      return Err(MissingColumn("id"));
    }
    headers := headers[k.value := "Process Step ID"];
    k := IndexOf(headers, "shape");
    if k.None? {
      return Err(MissingColumn("shape"));
    }
    headers := headers[k.value := "Shape Type"];
    k := IndexOf(headers, "connector_label");
    if k.None? {
      return Err(MissingColumn("connector_label"));
    }
    headers := headers[k.value := "Connector Label"];
    k := IndexOf(headers, "next_step_id");
    if k.None? {
      return Err(MissingColumn("next_step_id"));
    }
    headers := headers[k.value := "Next Step ID"];
    r := Ok(Table(headers, t.rows));
  }

  /** Title-casing is `Title` after turning underscores into spaces. */
  lemma TitleCaseIs(h: string)
    ensures TitleCase(h) == Title(Translate(h, '_', ' '))
  {
    ReplaceOneChar(h, '_', ' ');
  }

  /** Each word starts with a capital: `wbs` becomes `Wbs`, `x_y` becomes `X Y`. */
  lemma TitleCaseExamples()
    ensures TitleCase("wbs") == "Wbs"
    ensures TitleCase("x_y") == "X Y"
  {
    TitleCaseWbs();
    TitleCaseXY();
  }

  lemma TitleCaseWbs()
    ensures TitleCase("wbs") == "Wbs"
  {
    TitleCaseIs("wbs");
    assert Translate("wbs", '_', ' ') == "wbs";
    assert "wbs"[1..] == "bs" && "bs"[1..] == "s" && "s"[1..] == "";
    assert TitleFrom("s", true) == "s";
    assert TitleFrom("bs", true) == "bs";
  }

  lemma TitleCaseXY()
    ensures TitleCase("x_y") == "X Y"
  {
    TitleCaseIs("x_y");
    assert Translate("x_y", '_', ' ') == "x y";
    assert "x y"[1..] == " y" && " y"[1..] == "y" && "y"[1..] == "";
    assert TitleFrom("y", false) == "Y";
    assert TitleFrom(" y", true) == " Y";
  }

  /** A name without upper-case letters or spaces survives title-casing and snake-casing back. */
  lemma SnakeTitle(h: string)
    requires forall i | 0 <= i < |h| :: !IsUpper(h[i]) && h[i] != ' '
    ensures XlRenameHeaders.SnakeCase(TitleCase(h)) == h
  {
    ReplaceOneChar(h, '_', ' ');
    var u := Translate(h, '_', ' ');
    var v := Title(u);
    TitleKeepsLetters(u, false);
    ReplaceOneChar(v, ' ', '_');
    var w := Translate(v, ' ', '_');
    assert XlRenameHeaders.SnakeCase(TitleCase(h)) == Lower(w);
    forall i | 0 <= i < |h| ensures LowerChar(w[i]) == h[i] {
      if IsLetter(h[i]) {
        assert LowerChar(v[i]) == LowerChar(h[i]);
      }
    }
  }

  /** The header restrictions under which the spreadsheet stage renames back. */
  predicate Restorable(header: Row) {
    && CsvHeader(header).Ok?
    && (forall i | 0 <= i < |header| :: forall j | 0 <= j < |header[i]| :: !IsUpper(header[i][j]) && header[i][j] != ' ')
    && (forall i | 0 <= i < |header| && header[i] !in Fixed :: TitleCase(header[i]) !in Renamed)
  }

  /** Every renaming starts with a capital, so a name without capitals is none of them. */
  lemma NoRenamedName(header: Row)
    requires forall i | 0 <= i < |header| :: forall j | 0 <= j < |header[i]| :: !IsUpper(header[i][j])
    ensures forall i | 0 <= i < |header| :: header[i] !in Renamed
  {
    forall i, k | 0 <= i < |header| && 0 <= k < |Renamed| ensures Renamed[k] != header[i] {
      assert |Renamed[k]| > 0 && IsUpper(Renamed[k][0]);
      if |header[i]| > 0 {
        assert !IsUpper(header[i][0]);
      }
    }
  }

  /** The comprehension's output meets the round trip's setting. */
  lemma RestorableSetup(header: Row)
    requires Restorable(header)
    ensures RenamingSetup(header, Normalized(header), Fixed, Renamed)
  {
    var h0 := Normalized(header);
    FixedRenamingFresh();
    XlRenameHeaders.FixedRenamingFresh();
    assert Renamed == XlRenameHeaders.Fixed && Fixed == XlRenameHeaders.Renamed;
    assert FreshRenaming(Renamed, Fixed);
    NoRenamedName(header);
    forall i | 0 <= i < |header| && header[i] !in Fixed ensures h0[i] !in Fixed && h0[i] !in Renamed {
      assert h0[i] == TitleCase(header[i]);
    }
    assert AssignAll(h0, Fixed, Renamed) == CsvHeader(header);
  }

  /** Snake-casing the renamed header gives back every name that is not a renaming. */
  lemma RestorableMapsBack(header: Row)
    requires Restorable(header)
    ensures MapsBack(header, CsvHeader(header).value, XlRenameHeaders.Normalized(CsvHeader(header).value), Renamed)
  {
    var c := CsvHeader(header).value;
    var c0 := XlRenameHeaders.Normalized(c);
    assert Renamed == XlRenameHeaders.Fixed;
    CsvHeaderPositions(header);
    forall i | 0 <= i < |c| && c[i] !in Renamed ensures c0[i] == header[i] {
      assert c0[i] == XlRenameHeaders.SnakeCase(c[i]);
      if header[i] !in Fixed {
        SnakeTitle(header[i]);
      } else if IndexOf(header, header[i]) != Some(i) {
        XlRenameHeaders.SnakeCaseKeeps(header[i]);
      }
    }
  }

  /**
   * `xl_rename_headers.py` undoes this stage on a header whose names have no
   * upper-case letter and no space, as long as no title-cased name is itself one
   * of the spreadsheet's fixed names.
   */
  lemma XlUndoesCsv(header: Row)
    requires Restorable(header)
    ensures XlRenameHeaders.XlHeader(CsvHeader(header).value) == Ok(header)
  {
    RestorableSetup(header);
    RestorableMapsBack(header);
    AssignAllUndone(header, Normalized(header), XlRenameHeaders.Normalized(CsvHeader(header).value), Fixed, Renamed);
    assert Renamed == XlRenameHeaders.Fixed && Fixed == XlRenameHeaders.Renamed;
  }
}

/**
 * `drawio_xl/drawio_to_xl.py`: the library form of the diagram-to-spreadsheet
 * direction. `convert_to_csv` flattens the diagram into one row per user object
 * under a sorted header; the functions after it are the CSV stages of the same
 * pipeline: dropping the front matter, deleting columns, replacing ids with
 * spreadsheet ids and renaming shapes.
 */
module DrawioToXl {
  import opened Wrappers
  import opened Strings
  import opened Tables
  import opened Shapes
  import opened Diagram
  import Utils
  import StripFrontmatter
  import CsvDeleteHeightWidth
  import CsvStripXlIds
  import CsvRenameIds
  import CsvRenameShapes
  import CsvReorderHeaders

  /** Keys a node sets itself, which no attribute overrides. */
  const Reserved: seq<string> := ["id", "shape", "width", "height", "xl_id"]

  /** `ignored_properties`. */
  const Ignored: seq<string> := ["label", "placeholders"]

  /** The attribute names that are not copied. */
  const Skip: seq<string> := Reserved + Ignored

  /** The field names every flattened diagram has. */
  const Required: seq<string> := [
    "id", "shape", "width", "height", "next_step_id", "xl_id",
    "decision0_id", "decision0_label", "decision1_id", "decision1_label", "decision2_id", "decision2_label"]

  // ------------------------------------------------------------------ convert_to_csv

  /**
   * The `details` of a user object: its id, its shape token, the size of that shape,
   * `xl_id` (the id when there is none), and every attribute outside `Skip`.
   */
  function NodeOf(e: Element): (n: Node)
    requires IsNode(e)
  {
    var shape := ParseShape(e.cellStyle.value);
    var size := DiagramSize(shape);
    var id := Get(e.attrs, "id");
    var details := map["width" := size.width, "height" := size.height, "xl_id" := GetOr(e.attrs, "xl_id", id.GetOr(""))];
    Node(id, shape, CopyAttrs(details, e.attrs, Skip))
  }

  /**
   * The node list of `drawio_to_xl.py`, in document order. It has the same shape
   * as `DrawioToCsv.Nodes` but builds each node with this module's `NodeOf`.
   */
  function Nodes(doc: seq<Element>): (r: seq<Node>)
    ensures |r| <= |doc|
    decreases |doc|
  {
    if doc == [] then []
    else
      var last := doc[|doc| - 1];
      Nodes(doc[..|doc| - 1]) + (if IsNode(last) then [NodeOf(last)] else [])
  }

  /** The attribute names the node loop adds to `fieldnames`. */
  function Discovered(doc: seq<Element>): set<string>
    decreases |doc|
  {
    if doc == [] then {}
    else
      var last := doc[|doc| - 1];
      Discovered(doc[..|doc| - 1]) + (if IsNode(last) then CopiedKeys(last.attrs, Skip) else {})
  }

  /** `fieldnames` once the node loop is done. */
  function Columns(doc: seq<Element>): set<string> {
    (set x | x in Required) + Discovered(doc)
  }

  /** The node loop: the nodes, and the field names with every copied attribute name. */
  method ExtractNodes(doc: seq<Element>) returns (nodes: seq<Node>, fieldnames: set<string>)
    ensures nodes == Nodes(doc) && fieldnames == Columns(doc)
  {
    nodes := [];
    fieldnames := set x | x in Required;
    var i := 0;
    while i < |doc|
      invariant i <= |doc| && nodes == Nodes(doc[..i]) && fieldnames == Columns(doc[..i])
    {
      var element := doc[i];
      NodesStep(doc, i);
      if EndsWith(element.tag, "UserObject") && element.cellStyle.Some? {
        var node, added := ExtractNode(element);
        fieldnames := fieldnames + added;
        nodes := nodes + [node];
      }
      i := i + 1;
    }
    assert doc[..i] == doc;
  }

  /** One more element adds its node and its copied names, if it is a user object (the `drawio_to_xl.py` loop). */
  lemma NodesStep(doc: seq<Element>, i: nat)
    requires i < |doc|
    ensures Nodes(doc[..i + 1]) == Nodes(doc[..i]) + (if IsNode(doc[i]) then [NodeOf(doc[i])] else [])
    ensures Discovered(doc[..i + 1]) == Discovered(doc[..i]) + (if IsNode(doc[i]) then CopiedKeys(doc[i].attrs, Skip) else {})
  {
    var front := doc[..i + 1];
    assert front[..i] == doc[..i] && front[i] == doc[i];
  }

  /** The body of the node loop for one user object. */
  method ExtractNode(element: Element) returns (node: Node, added: set<string>)
    requires IsNode(element)
    ensures node == NodeOf(element) && added == CopiedKeys(element.attrs, Skip)
  {
    var shape := ParseShape(element.cellStyle.value);
    var size := DiagramSize(shape);
    var id := Get(element.attrs, "id");
    var details := map["width" := size.width, "height" := size.height, "xl_id" := GetOr(element.attrs, "xl_id", id.GetOr(""))];
    details, added := CopyProperties(details, element.attrs, Skip);
    node := Node(id, shape, details);
  }

  /**
   * `convert_to_csv`: the TypeError of the relationship loops, if they raise one;
   * otherwise the header is the field names in sorted order, each once, and each
   * node, its edges assigned, gives one row holding its value for every field
   * name, empty where it has none.
   */
  method ConvertToCsv(doc: seq<Element>) returns (res: Result<Table, Error>)
    ensures res.Err? <==> Linked(Nodes(doc), Edges(doc)).Err?
    ensures res.Err? ==> res.error == NoneOperand
    ensures res.Ok? ==> StrictlySorted(res.value.header) && forall x :: x in res.value.header <==> x in Columns(doc)
    ensures res.Ok? ==> res.value.rows == RowsOf(Linked(Nodes(doc), Edges(doc)).value, res.value.header)
  {
    var nodes, fieldnames := ExtractNodes(doc);
    var edges := ExtractEdges(doc);
    var linked := AssignRelationships(nodes, edges);
    if linked.Err? {
      return Err(linked.error);
    }
    var header := SortedList(fieldnames);
    var rows := WriteRows(linked.value, header);
    res := Ok(Table(header, rows));
  }

  /** The sorted header is the only one with those names: the output is determined by the diagram. */
  lemma HeaderDetermined(doc: seq<Element>, a: seq<string>, b: seq<string>)
    requires StrictlySorted(a) && forall x :: x in a <==> x in Columns(doc)
    requires StrictlySorted(b) && forall x :: x in b <==> x in Columns(doc)
    ensures a == b
  {
    SortedUnique(a, b);
  }

  // ------------------------------------------------------------------ properties of the flattening

  /** The names `Skip` holds, one by one, so that membership in it is cheap to decide. */
  lemma SkipNames()
    ensures "width" in Skip && "height" in Skip && "xl_id" in Skip && "id" in Skip && "shape" in Skip
    ensures "label" in Skip && "placeholders" in Skip
    ensures "next_step_id" !in Skip
  {
  }

  /**
   * A node's fields: the size of its shape, its `xl_id` (its id when the element
   * has none), and each attribute outside `Skip` with the element's value; no other
   * key, so in particular no `label` and no `placeholders`.
   */
  lemma NodeDetails(e: Element)
    requires IsNode(e) && KeysDistinct(e.attrs)
    ensures var n := NodeOf(e);
      && n.shape == ParseShape(e.cellStyle.value) && n.id == Get(e.attrs, "id")
      && (forall k :: k in n.fields <==> k in {"width", "height", "xl_id"} || k in CopiedKeys(e.attrs, Skip))
      && "width" in n.fields && "height" in n.fields && "xl_id" in n.fields
      && n.fields["width"] == DiagramSize(n.shape).width && n.fields["height"] == DiagramSize(n.shape).height
      && n.fields["xl_id"] == GetOr(e.attrs, "xl_id", GetOr(e.attrs, "id", ""))
      && (forall i | 0 <= i < |e.attrs| && e.attrs[i].0 !in Skip :: e.attrs[i].0 in CopiedKeys(e.attrs, Skip))
      && (forall i | 0 <= i < |e.attrs| && e.attrs[i].0 !in Skip :: n.fields[e.attrs[i].0] == e.attrs[i].1)
      && "label" !in n.fields && "placeholders" !in n.fields
  {
    var shape := ParseShape(e.cellStyle.value);
    var size := DiagramSize(shape);
    var id := Get(e.attrs, "id");
    var details := map["width" := size.width, "height" := size.height, "xl_id" := GetOr(e.attrs, "xl_id", id.GetOr(""))];
    assert NodeOf(e) == Node(id, shape, CopyAttrs(details, e.attrs, Skip));
    CopiedFields(details, e.attrs, size.width, size.height, GetOr(e.attrs, "xl_id", id.GetOr("")));
  }

  /** `NodeDetails` for any sizes and `xl_id`: the three set fields, then the copied attributes. */
  lemma CopiedFields(details: map<string, string>, attrs: Attrs, w: string, h: string, x: string)
    requires KeysDistinct(attrs) && details == map["width" := w, "height" := h, "xl_id" := x]
    ensures var r := CopyAttrs(details, attrs, Skip);
      && (forall k :: k in r <==> k in {"width", "height", "xl_id"} || k in CopiedKeys(attrs, Skip))
      && "width" in r && "height" in r && "xl_id" in r
      && r["width"] == w && r["height"] == h && r["xl_id"] == x
      && (forall i | 0 <= i < |attrs| && attrs[i].0 !in Skip :: attrs[i].0 in CopiedKeys(attrs, Skip))
      && (forall i | 0 <= i < |attrs| && attrs[i].0 !in Skip :: r[attrs[i].0] == attrs[i].1)
      && "label" !in r && "placeholders" !in r
  {
    CopyAttrsFields(details, attrs, Skip);
    SkippedNotCopied(attrs);
    forall i | 0 <= i < |attrs| && attrs[i].0 !in Skip ensures attrs[i].0 in CopiedKeys(attrs, Skip) {
      assert attrs[i] in attrs;
    }
  }

  /** The names `Skip` holds are never copied from the attributes. */
  lemma SkippedNotCopied(attrs: Attrs)
    ensures forall k | k in CopiedKeys(attrs, Skip) :: k !in {"width", "height", "xl_id", "label", "placeholders"}
  {
    SkipNames();
  }

  /** A copied `next_step_id` attribute starts the node's successor list. */
  lemma NodeStarted(e: Element)
    requires IsNode(e) && KeysDistinct(e.attrs)
    ensures Started(NodeOf(e)) == (if GetOr(e.attrs, NextKey, "") != "" then [GetOr(e.attrs, NextKey, "")] else [])
  {
    NodeDetails(e);
    SkipNames();
    match Get(e.attrs, NextKey)
    case Some(v) =>
      var i :| 0 <= i < |e.attrs| && e.attrs[i] == (NextKey, v);
      assert NextKey in CopiedKeys(e.attrs, Skip);
    case None =>
      assert NextKey !in CopiedKeys(e.attrs, Skip);
  }

  /** Every field name comes from the required list or from an attribute of a node. */
  lemma {:induction false} ColumnsFrom(doc: seq<Element>)
    ensures forall x :: x in Columns(doc) <==>
      x in Required || exists i | 0 <= i < |doc| :: IsNode(doc[i]) && x in CopiedKeys(doc[i].attrs, Skip)
    decreases |doc|
  {
    if doc != [] {
      var front := doc[..|doc| - 1];
      ColumnsFrom(front);
      assert forall i | 0 <= i < |front| :: front[i] == doc[i];
    }
  }

  /** `label` and `placeholders` never become columns. */
  lemma IgnoredNotColumns(doc: seq<Element>)
    ensures "label" !in Columns(doc) && "placeholders" !in Columns(doc)
  {
    ColumnsFrom(doc);
    SkipNames();
  }

  /** One node per user object that has a styled cell, in document order. */
  lemma {:induction false} NodesFrom(doc: seq<Element>)
    ensures forall n :: n in Nodes(doc) <==> exists i | 0 <= i < |doc| :: IsNode(doc[i]) && NodeOf(doc[i]) == n
    decreases |doc|
  {
    if doc != [] {
      var front := doc[..|doc| - 1];
      NodesFrom(front);
      assert forall i | 0 <= i < |front| :: front[i] == doc[i];
    }
  }

  /** The slot and list columns are always in the header. */
  lemma RequiredSlots(doc: seq<Element>, slot: nat)
    requires slot < Arity
    ensures SlotId(slot) in Columns(doc) && SlotLabel(slot) in Columns(doc) && NextKey in Columns(doc)
  {
    assert SlotId(slot) in Required && SlotLabel(slot) in Required by {
      if slot == 0 {
        assert SlotId(0) == Required[6] && SlotLabel(0) == Required[7];
      } else if slot == 1 {
        assert SlotId(1) == Required[8] && SlotLabel(1) == Required[9];
      } else {
        assert SlotId(2) == Required[10] && SlotLabel(2) == Required[11];
      }
    }
    assert NextKey == Required[4];
  }

  /**
   * In the row of a decision node, the columns of slot `slot` hold the target and
   * the label of its `slot`-th outgoing edge.
   */
  lemma DecisionRow(nodes: seq<Node>, edges: seq<Edge>, header: seq<string>, i: nat, slot: nat, p: nat, q: nat)
    requires i < |nodes| && IsDecision(nodes[i]) && Linked(nodes, edges).Ok?
    requires slot < Arity && slot < |Connected(edges, nodes[i].id)|
    requires p < |header| && header[p] == SlotId(slot) && q < |header| && header[q] == SlotLabel(slot)
    ensures var c, row := Connected(edges, nodes[i].id), RowsOf(Linked(nodes, edges).value, header)[i];
      row[p] == c[slot].target.GetOr("") && row[q] == c[slot].text
  {
    var c := Connected(edges, nodes[i].id);
    var r := Link(nodes[i], c, 0).value;
    LinkDecision(nodes[i], c, 0);
    assert SlotId(slot) in r.fields && r.fields[SlotId(slot)] == c[slot].target.GetOr("");
    assert SlotLabel(slot) in r.fields && r.fields[SlotLabel(slot)] == c[slot].text;
    SlotNotFixed(slot);
    var row := RowsOf(Linked(nodes, edges).value, header)[i];
    assert Linked(nodes, edges).value[i] == r;
    assert row == RowOf(r, header);
    assert row[p] == Cell(r, header[p]) && row[q] == Cell(r, header[q]);
  }

  /**
   * In the row of any other node, `next_step_id` holds all its targets joined with
   * `,` after the list it started with, when none of its targets is empty.
   */
  lemma NextStepRow(nodes: seq<Node>, edges: seq<Edge>, header: seq<string>, i: nat, p: nat)
    requires i < |nodes| && !IsDecision(nodes[i]) && Linked(nodes, edges).Ok?
    requires Connected(edges, nodes[i].id) != []
    requires forall e | e in Connected(edges, nodes[i].id) :: Fills(e)
    requires p < |header| && header[p] == NextKey
    ensures var c := Connected(edges, nodes[i].id);
      RowsOf(Linked(nodes, edges).value, header)[i][p] == Join(Started(nodes[i]) + Targets(c), ",")
  {
    var c := Connected(edges, nodes[i].id);
    assert forall k | 0 <= k < |c| :: c[k] in c;
    LinkNext(nodes[i], c, 0);
    assert NextKey[0] == 'n';
  }

  /** A node without outgoing edges keeps the `next_step_id` its element carried. */
  lemma UnlinkedRow(nodes: seq<Node>, edges: seq<Edge>, header: seq<string>, i: nat, k: nat)
    requires i < |nodes| && Connected(edges, nodes[i].id) == [] && k < |header| && Linked(nodes, edges).Ok?
    ensures RowsOf(Linked(nodes, edges).value, header)[i][k] == Cell(nodes[i], header[k])
  {
  }

  // ------------------------------------------------------------------ strip_front_matter

  /** `strip_front_matter`: the lines whose stripped text does not start with `#`, in order. */
  function StripFrontMatter(lines: seq<string>): (r: seq<string>)
    ensures forall x :: x in r <==> x in lines && !StripFrontmatter.IsComment(x)
    ensures |r| <= |lines|
  {
    StripFrontmatter.KeptLines(lines)
  }

  /** A second pass strips nothing. */
  lemma StripFrontMatterIdempotent(lines: seq<string>)
    ensures StripFrontMatter(StripFrontMatter(lines)) == StripFrontMatter(lines)
  {
    StripFrontmatter.KeptLinesIdempotent(lines);
  }

  // ------------------------------------------------------------------ delete_column and its callers

  /**
   * `delete_column`: the content as it was when no column has the name; otherwise
   * one name and the cell at its first index in every row fewer, `IndexError` on a
   * row too short for that index.
   */
  function DeleteColumn(t: Table, name: string): (r: Result<Table, Error>)
    ensures name !in t.header ==> r == Ok(t)
    ensures name in t.header ==>
      var k := IndexOf(t.header, name).value;
      && (r.Ok? <==> forall j | 0 <= j < |t.rows| :: k < |t.rows[j]|)
      && (r.Ok? ==> |r.value.header| == |t.header| - 1 && |r.value.rows| == |t.rows|)
      && (r.Ok? ==> forall j | 0 <= j < |t.rows| :: |r.value.rows[j]| == |t.rows[j]| - 1)
  {
    Utils.DeleteColumnSpec(t, name)
  }

  /** A column named once is gone after the delete, the other names kept in order; a second delete changes nothing. */
  lemma DeleteColumnOnce(t: Table, name: string)
    requires multiset(t.header)[name] == 1 && DeleteColumn(t, name).Ok?
    ensures DeleteColumn(t, name).value.header == Without(t.header, {name})
    ensures DeleteColumn(DeleteColumn(t, name).value, name) == DeleteColumn(t, name)
  {
    Utils.DeleteColumnRemovesName(t, name);
  }

  /** `delete_height_width`: `delete_column` for `height`, then for `width`. */
  function DeleteHeightWidth(t: Table): (r: Result<Table, Error>)
    ensures "height" !in t.header && "width" !in t.header ==> r == Ok(t)
  {
    match DeleteColumn(t, "height")
    case Err(e) => Err(e)
    case Ok(u) => DeleteColumn(u, "width")
  }

  /**
   * With both columns present this is the stand-alone `csv_delete_height_width.py`;
   * with both absent the content passes through, where that stage fails.
   */
  lemma DeleteHeightWidthAsStage(t: Table)
    ensures "height" in t.header && "width" in t.header ==>
      DeleteHeightWidth(t) == CsvDeleteHeightWidth.WithoutDimensions(t)
    ensures "height" !in t.header && "width" !in t.header ==>
      DeleteHeightWidth(t) == Ok(t) && CsvDeleteHeightWidth.WithoutDimensions(t) == Err(MissingColumn("height"))
  {
    if "height" in t.header && "width" in t.header {
      CsvDeleteHeightWidth.WithoutDimensionsIsTwoDeletes(t);
    }
  }

  /** `delete_xl_ids`: `delete_column` for `xl_id`. */
  function DeleteXlIds(t: Table): (r: Result<Table, Error>)
    ensures "xl_id" !in t.header ==> r == Ok(t)
    ensures "xl_id" in t.header ==> r == CsvStripXlIds.WithoutXlId(t)
  {
    CsvStripXlIds.StripMatchesDeleteColumn(t);
    DeleteColumn(t, "xl_id")
  }

  // ------------------------------------------------------------------ replace_ids_with_xl_ids

  /**
   * `replace_ids_with_xl_ids` is, statement for statement, the stage of
   * `csv_rename_ids.py`: every id and every id list rewritten through the
   * id-to-`xl_id` map the rows define.
   */
  method ReplaceIdsWithXlIds(t: Table) returns (r: Result<Table, Error>)
    ensures r == CsvRenameIds.RenamedIds(t)
    ensures "id" !in t.header ==> r == Err(MissingColumn("id"))
    ensures r.Ok? ==> r.value.header == t.header && |r.value.rows| == |t.rows|
  {
    r := CsvRenameIds.RenameIds(t);
  }

  // ------------------------------------------------------------------ rename_shapes

  /** `reader.fieldnames` once `description` has been appended when it was missing. */
  function FieldNames(header: Row): (r: Row)
    ensures "description" in r && |header| <= |r| && r[..|header|] == header
    ensures "description" in header ==> r == header
  {
    if "description" in header then header else header + ["description"]
  }

  /** A record's missing trailing fields read as `None`, which the writer writes as empty. */
  function Padded(row: Row, n: nat): (r: Row)
    requires |row| <= n
    ensures |r| == n && r[..|row|] == row && forall k | |row| <= k < n :: r[k] == ""
  {
    row + seq(n - |row|, _ => "")
  }

  /** The renaming of one record: the shape, and the description of a gate. */
  function RenameRecord(d: map<string, string>): (r: map<string, string>)
    requires "shape" in d
    ensures "shape" in r && (d["shape"] !in CsvRenameShapes.DiagramOnly ==> r == d)
  {
    var shape := d["shape"];
    if shape == "start_1" then d["shape" := "start"]
    else if shape == "terminator" then d["shape" := "end"]
    else if shape == "summing_function" then d["shape" := "process"]["description" := "OR"]
    else if shape == "or" then d["shape" := "process"]["description" := "AND"]
    else d
  }

  /**
   * One record of the `DictReader` and its `DictWriter` line: reading `row['shape']`
   * without a `shape` column raises `KeyError`; a row longer than the field names
   * leaves extra values the writer refuses with `ValueError`.
   */
  function DictRow(row: Row, names: Row): (r: Result<Row, Error>)
    ensures r.Ok? <==> "shape" in names && |row| <= |names|
    ensures r.Ok? ==> |r.value| == |names|
  {
    if "shape" !in names then Err(MissingKey("shape"))
    else if |row| > |names| then Err(ExtraCells)
    else
      Ok(WriteRecord(RenameRecord(CsvReorderHeaders.ZipMap(names, Padded(row, |names|))), names))
  }

  /** `writer.writerow(record)`: the value of each field name, empty when the record lacks it. */
  function WriteRecord(d: map<string, string>, names: Row): (r: Row)
    ensures |r| == |names|
  {
    seq(|names|, k requires 0 <= k < |names| => if names[k] in d then d[names[k]] else "")
  }

  function DictRowFn(names: Row): Row -> Result<Row, Error> {
    row => DictRow(row, names)
  }

  /** The `DictReader` passes over rows with no cell at all. */
  predicate NotBlank(row: Row) {
    row != []
  }

  function NotBlankFn(): Row -> bool {
    row => NotBlank(row)
  }

  /** `rename_shapes`: the field names, then every record that is not blank, renamed. */
  function RenamedShapes(t: Table): (r: Result<Table, Error>)
    ensures r.Ok? ==> r.value.header == FieldNames(t.header)
    ensures r.Ok? ==> forall k | 0 <= k < |r.value.rows| :: |r.value.rows[k]| == |r.value.header|
  {
    var names := FieldNames(t.header);
    match MapRows(Filter(t.rows, NotBlankFn()), DictRowFn(names))
    case Err(e) => Err(e)
    case Ok(rows) =>
      assert forall k | 0 <= k < |rows| :: DictRowFn(names)(Filter(t.rows, NotBlankFn())[k]) == Ok(rows[k]);
      Ok(Table(names, rows))
  }

  /** The stage fails exactly when one of the rows that are not blank fails. */
  lemma RenamedShapesOutcome(t: Table)
    ensures RenamedShapes(t).Ok? <==>
      forall j | 0 <= j < |t.rows| :: t.rows[j] != [] ==> DictRow(t.rows[j], FieldNames(t.header)).Ok?
  {
    var names := FieldNames(t.header);
    var f := DictRowFn(names);
    var kept := Filter(t.rows, NotBlankFn());
    FilterMembers(t.rows, NotBlankFn());
    var res := MapRows(kept, f);
    assert RenamedShapes(t).Ok? <==> res.Ok?;
    if res.Ok? {
      forall j | 0 <= j < |t.rows| && t.rows[j] != [] ensures DictRow(t.rows[j], names).Ok? {
        assert NotBlankFn()(t.rows[j]);
        assert t.rows[j] in kept;
        var k :| 0 <= k < |kept| && kept[k] == t.rows[j];
        assert f(kept[k]).Ok?;
      }
    } else {
      var k :| 0 <= k < |kept| && f(kept[k]).Err?;
      assert kept[k] in t.rows;
      var j :| 0 <= j < |t.rows| && t.rows[j] == kept[k];
      assert t.rows[j] != [] && DictRow(t.rows[j], names).Err?;
    }
  }

  /** One record read, renamed and written, as the loop body does it. */
  method RenameLine(row: Row, names: Row) returns (res: Result<Row, Error>)
    ensures res == DictRow(row, names)
  {
    if "shape" !in names {
      return Err(MissingKey("shape"));
    }
    if |row| > |names| {
      return Err(ExtraCells);
    }
    var record := RenameRecord(CsvReorderHeaders.ZipMap(names, Padded(row, |names|)));
    var line := seq(|names|, k requires 0 <= k < |names| => if names[k] in record then record[names[k]] else "");
    return Ok(line);
  }

  /** The record loop as the source runs it. */
  method RenameShapes(t: Table) returns (r: Result<Table, Error>)
    ensures r == RenamedShapes(t)
  {
    var names := t.header;
    if "description" !in names {
      names := names + ["description"];
    }
    assert names == FieldNames(t.header);
    var f := DictRowFn(names);
    var out: seq<Row> := [];
    var i := 0;
    while i < |t.rows|
      invariant i <= |t.rows| && MapRows(Filter(t.rows[..i], NotBlankFn()), f) == Ok(out)
    {
      var row := t.rows[i];
      if row == [] {
        assert !NotBlankFn()(row);
        FilterMapStep(t.rows, NotBlankFn(), f, i, out);
        i := i + 1;
        continue;
      }
      var res := RenameLine(row, names);
      assert NotBlankFn()(row) && f(row) == res;
      if res.Err? {
        FilterMapStop(t.rows, NotBlankFn(), f, i);
        return Err(res.error);
      }
      FilterMapStep(t.rows, NotBlankFn(), f, i, out);
      out := out + [res.value];
      i := i + 1;
    }
    assert t.rows[..i] == t.rows;
    r := Ok(Table(names, out));
  }

  // ------------------------------------------------------------------ properties of rename_shapes

  /** With distinct field names, `dict(zip(names, row))` gives each name the cell at its position. */
  lemma ZipDistinct(names: Row, p: Row)
    requires Distinct(names) && |p| == |names|
    ensures forall k | 0 <= k < |names| ::
      names[k] in CsvReorderHeaders.ZipMap(names, p) && CsvReorderHeaders.ZipMap(names, p)[names[k]] == p[k]
  {
    forall k | 0 <= k < |names|
      ensures names[k] in CsvReorderHeaders.ZipMap(names, p) && CsvReorderHeaders.ZipMap(names, p)[names[k]] == p[k]
    {
      CsvReorderHeaders.ZipMapLast(names, p, k);
    }
  }

  /** One written field of a renamed record is the cell the row renaming puts at its position. */
  lemma RecordCell(m: map<string, string>, p: Row, names: Row, s: nat, d: nat, k: nat)
    requires Distinct(names) && |p| == |names| && k < |names|
    requires s < |names| && d < |names| && names[s] == "shape" && names[d] == "description"
    requires forall c | 0 <= c < |names| :: names[c] in m && m[names[c]] == p[c]
    ensures s != d && names[k] in RenameRecord(m)
    ensures RenameRecord(m)[names[k]] == CsvRenameShapes.SheetRow(p, s, d).value[k]
  {
    assert names[k] == "shape" <==> k == s;
    assert names[k] == "description" <==> k == d;
    assert m["shape"] == p[s];
  }

  /**
   * With field names that are distinct, a record is a row: the renaming of a
   * record is the renaming of its padded row by `csv_rename_shapes.py`.
   */
  lemma DictRowAt(row: Row, names: Row, s: nat, d: nat)
    requires Distinct(names) && |row| <= |names|
    requires s < |names| && d < |names| && names[s] == "shape" && names[d] == "description"
    ensures s != d && DictRow(row, names) == CsvRenameShapes.SheetRow(Padded(row, |names|), s, d)
  {
    var p := Padded(row, |names|);
    var m := CsvReorderHeaders.ZipMap(names, p);
    ZipDistinct(names, p);
    var out := WriteRecord(RenameRecord(m), names);
    assert DictRow(row, names) == Ok(out);
    var sheet := CsvRenameShapes.SheetRow(p, s, d);
    assert sheet.Ok? && |sheet.value| == |names|;
    forall k | 0 <= k < |names| ensures out[k] == sheet.value[k] {
      RecordCell(m, p, names, s, d, k);
    }
    assert out == sheet.value;
  }

  /** The same, with the positions the header lookup finds. */
  lemma DictRowIsSheetRow(row: Row, names: Row)
    requires Distinct(names) && "shape" in names && "description" in names && |row| <= |names|
    ensures var s, d := IndexOf(names, "shape").value, IndexOf(names, "description").value;
      s != d && DictRow(row, names) == CsvRenameShapes.SheetRow(Padded(row, |names|), s, d)
  {
    DictRowAt(row, names, IndexOf(names, "shape").value, IndexOf(names, "description").value);
  }

  /**
   * On rows that are not blank and not longer than the field names, and with
   * distinct field names, the stage is `csv_rename_shapes.py` on the table whose
   * header has `description` appended when it was missing and whose rows are
   * padded with empty cells.
   */
  lemma RenamedShapesAsStage(t: Table)
    requires Distinct(FieldNames(t.header)) && "shape" in t.header
    requires forall j | 0 <= j < |t.rows| :: t.rows[j] != [] && |t.rows[j]| <= |FieldNames(t.header)|
    ensures var names := FieldNames(t.header);
      RenamedShapes(t) == CsvRenameShapes.SheetShapes(Table(names, seq(|t.rows|, j requires 0 <= j < |t.rows| => Padded(t.rows[j], |names|))))
  {
    var names := FieldNames(t.header);
    var padded := seq(|t.rows|, j requires 0 <= j < |t.rows| => Padded(t.rows[j], |names|));
    var s, d := IndexOf(names, "shape").value, IndexOf(names, "description").value;
    var out := seq(|t.rows|, j requires 0 <= j < |t.rows| => CsvRenameShapes.SheetRow(padded[j], s, d).value);
    forall j | 0 <= j < |t.rows| ensures DictRow(t.rows[j], names) == Ok(out[j]) && CsvRenameShapes.SheetRow(padded[j], s, d) == Ok(out[j]) {
      DictRowAt(t.rows[j], names, s, d);
    }
    RenamedShapesAre(t, out);
    SheetShapesAre(Table(names, padded), s, d, out);
  }

  /** When every row is not blank and renames to the matching output row, the stage gives those rows. */
  lemma RenamedShapesAre(t: Table, out: seq<Row>)
    requires |out| == |t.rows|
    requires forall j | 0 <= j < |t.rows| :: t.rows[j] != [] && DictRow(t.rows[j], FieldNames(t.header)) == Ok(out[j])
    ensures RenamedShapes(t) == Ok(Table(FieldNames(t.header), out))
  {
    var f := DictRowFn(FieldNames(t.header));
    assert forall j | 0 <= j < |t.rows| :: NotBlankFn()(t.rows[j]) && f(t.rows[j]) == Ok(out[j]);
    FilterAll(t.rows, NotBlankFn());
    MapRowsIs(t.rows, f, out);
  }

  /** The same for `csv_rename_shapes.py`, given the positions its header lookups find. */
  lemma SheetShapesAre(u: Table, s: nat, d: nat, out: seq<Row>)
    requires "shape" in u.header && "description" in u.header
    requires s == IndexOf(u.header, "shape").value && d == IndexOf(u.header, "description").value && s != d
    requires |out| == |u.rows| && forall j | 0 <= j < |u.rows| :: CsvRenameShapes.SheetRow(u.rows[j], s, d) == Ok(out[j])
    ensures CsvRenameShapes.SheetShapes(u) == Ok(Table(u.header, out))
  {
    var r := CsvRenameShapes.SheetShapes(u);
    assert r.Ok? && r.value.header == u.header;
    assert r.value.rows == out;
  }

  /** Renaming the shapes of a renamed table changes nothing. */
  lemma RenamedShapesIdempotent(t: Table)
    requires Distinct(FieldNames(t.header)) && "shape" in t.header && RenamedShapes(t).Ok?
    ensures RenamedShapes(RenamedShapes(t).value) == RenamedShapes(t)
  {
    var names := FieldNames(t.header);
    var u := RenamedShapes(t).value;
    var s, d := IndexOf(names, "shape").value, IndexOf(names, "description").value;
    var f := DictRowFn(names);
    var kept := Filter(t.rows, NotBlankFn());
    assert u.header == names && FieldNames(names) == names;
    assert MapRows(kept, f) == Ok(u.rows);
    FilterMembers(t.rows, NotBlankFn());
    forall j | 0 <= j < |u.rows| ensures NotBlankFn()(u.rows[j]) && f(u.rows[j]) == Ok(u.rows[j]) {
      var row := kept[j];
      assert f(row) == Ok(u.rows[j]);
      assert |row| <= |names|;
      var p := Padded(row, |names|);
      DictRowAt(row, names, s, d);
      DictRowAt(u.rows[j], names, s, d);
      assert Padded(u.rows[j], |names|) == u.rows[j];
      CsvRenameShapes.SheetRowIdempotent(p, s, d);
    }
    FilterAll(u.rows, NotBlankFn());
    MapRowsIs(u.rows, f, u.rows);
    assert RenamedShapes(u) == Ok(Table(names, u.rows));
  }

  /** The gates get the descriptions the other renaming stages give them: `summing_function` is `OR`. */
  lemma GateDescriptions(names: Row, row: Row, s: nat, d: nat)
    requires Distinct(names) && s < |names| && d < |names| && names[s] == "shape" && names[d] == "description"
    requires |row| == |names| && row[s] in CsvRenameShapes.Gates
    ensures DictRow(row, names).value[s] == "process"
    ensures DictRow(row, names).value[d] == (if row[s] == "summing_function" then "OR" else "AND")
  {
    IndexOfIs(names, "shape", s);
    IndexOfIs(names, "description", d);
    DictRowIsSheetRow(row, names);
    assert Padded(row, |names|) == row;
  }
}

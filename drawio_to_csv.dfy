/**
 * `drawio_to_csv.py`: the stand-alone flattener at the head of the
 * diagram-to-spreadsheet pipeline. Unlike the library form it lays the header out
 * as four fixed names, then the discovered attribute names in the order the set
 * yields them, then eleven fixed names; it does not copy attributes named in
 * either fixed list, and a missing `xl_id` stays empty.
 */
module DrawioToCsv {
  import opened Wrappers
  import opened Strings
  import opened Tables
  import opened Shapes
  import opened Diagram
  import DrawioToXl

  /** `pre_fixed_fields`. */
  const PreFixed: seq<string> := ["id", "owner", "description", "status"]

  /** `post_fixed_fields`. */
  const PostFixed: seq<string> := [
    "shape", "width", "height", "next_step_id",
    "decision0_id", "decision0_label", "decision1_id", "decision1_label", "decision2_id", "decision2_label", "xl_id"]

  /** `ignored_properties`. */
  const Ignored: seq<string> := ["label", "placeholders"]

  /** The attribute names that are not copied. */
  const Skip: seq<string> := PreFixed + PostFixed + Ignored

  /** The leading fields of a node's `details`: empty where the element has no such attribute. */
  function Base(attrs: Attrs): (m: map<string, string>)
    ensures forall k :: k in m <==> k == "owner" || k == "description" || k == "status"
    ensures m["owner"] == GetOr(attrs, "owner", "") && m["description"] == GetOr(attrs, "description", "")
    ensures m["status"] == GetOr(attrs, "status", "")
  {
    map["owner" := GetOr(attrs, "owner", ""), "description" := GetOr(attrs, "description", ""),
        "status" := GetOr(attrs, "status", "")]
  }

  /** The fields set after the copy: the size of the shape, and `xl_id` (empty when absent). */
  function Finish(m: map<string, string>, shape: string, attrs: Attrs): (r: map<string, string>)
    ensures forall k :: k in r <==> k in m || k == "width" || k == "height" || k == "xl_id"
    ensures r["width"] == DiagramSize(shape).width && r["height"] == DiagramSize(shape).height
    ensures r["xl_id"] == GetOr(attrs, "xl_id", "")
    ensures forall k | k in m && k != "width" && k != "height" && k != "xl_id" :: r[k] == m[k]
  {
    var size := DiagramSize(shape);
    m["width" := size.width]["height" := size.height]["xl_id" := GetOr(attrs, "xl_id", "")]
  }

  /**
   * The `details` of a user object: its id; `owner`, `description` and `status`;
   * every attribute outside `Skip`; then the size of its shape and `xl_id`.
   */
  function NodeOf(e: Element): (n: Node)
    requires IsNode(e)
  {
    var shape := ParseShape(e.cellStyle.value);
    Node(Get(e.attrs, "id"), shape, Finish(CopyAttrs(Base(e.attrs), e.attrs, Skip), shape, e.attrs))
  }

  /**
   * The node list of `drawio_to_csv.py`, in document order. It has the same shape
   * as `DrawioToXl.Nodes` but builds each node with this module's `NodeOf`.
   */
  function Nodes(doc: seq<Element>): (r: seq<Node>)
    ensures |r| <= |doc|
    decreases |doc|
  {
    if doc == [] then []
    else
      var last := doc[|doc| - 1];
      Nodes(doc[..|doc| - 1]) + (if IsNode(last) then [NodeOf(last)] else [])
  }

  /** `arbitrary_fieldnames` once the node loop is done. */
  function Discovered(doc: seq<Element>): set<string>
    decreases |doc|
  {
    if doc == [] then {}
    else
      var last := doc[|doc| - 1];
      Discovered(doc[..|doc| - 1]) + (if IsNode(last) then CopiedKeys(last.attrs, Skip) else {})
  }

  /** The node loop. */
  method ExtractNodes(doc: seq<Element>) returns (nodes: seq<Node>, arbitrary: set<string>)
    ensures nodes == Nodes(doc) && arbitrary == Discovered(doc)
  {
    nodes, arbitrary := [], {};
    var i := 0;
    while i < |doc|
      invariant i <= |doc| && nodes == Nodes(doc[..i]) && arbitrary == Discovered(doc[..i])
    {
      var element := doc[i];
      NodesStep(doc, i);
      if EndsWith(element.tag, "UserObject") && element.cellStyle.Some? {
        var node, added := ExtractNode(element);
        arbitrary := arbitrary + added;
        nodes := nodes + [node];
      }
      i := i + 1;
    }
    assert doc[..i] == doc;
  }

  /** One more element adds its node and its copied names, if it is a user object (the `drawio_to_csv.py` loop). */
  lemma NodesStep(doc: seq<Element>, i: nat)
    requires i < |doc|
    ensures Nodes(doc[..i + 1]) == Nodes(doc[..i]) + (if IsNode(doc[i]) then [NodeOf(doc[i])] else [])
    ensures Discovered(doc[..i + 1]) == Discovered(doc[..i]) + (if IsNode(doc[i]) then CopiedKeys(doc[i].attrs, Skip) else {})
  {
    var front := doc[..i + 1];
    assert front[..i] == doc[..i] && front[i] == doc[i];
  }

  /** The body of the node loop for one user object. */
  method ExtractNode(element: Element) returns (node: Node, added: set<string>)
    requires IsNode(element)
    ensures node == NodeOf(element) && added == CopiedKeys(element.attrs, Skip)
  {
    var shape := ParseShape(element.cellStyle.value);
    var details := Base(element.attrs);
    details, added := CopyProperties(details, element.attrs, Skip);
    details := Finish(details, shape, element.attrs);
    node := Node(Get(element.attrs, "id"), shape, details);
  }

  /** `list(arbitrary_fieldnames)`: each name once, in an order the set does not fix. */
  method ListOf(names: set<string>) returns (r: seq<string>)
    ensures Distinct(r) && forall x :: x in r <==> x in names
  {
    r := [];
    var left := names;
    while left != {}
      invariant left !! (set x | x in r) && left + (set x | x in r) == names
      invariant Distinct(r)
      decreases left
    {
      var x :| x in left;
      r := r + [x];
      left := left - {x};
    }
  }

  /**
   * `convertToCSV`: the TypeError of the relationship loops, if they raise one;
   * otherwise the header is the four leading names, the discovered names in
   * `order`, and the eleven trailing names, and each node, its edges assigned,
   * gives one row holding its value for every name, empty where it has none.
   */
  method ConvertToCsv(doc: seq<Element>) returns (order: seq<string>, res: Result<Table, Error>)
    ensures Distinct(order) && forall x :: x in order <==> x in Discovered(doc)
    ensures res.Err? <==> Linked(Nodes(doc), Edges(doc)).Err?
    ensures res.Err? ==> res.error == NoneOperand
    ensures res.Ok? ==> res.value.header == PreFixed + order + PostFixed
    ensures res.Ok? ==> res.value.rows == RowsOf(Linked(Nodes(doc), Edges(doc)).value, res.value.header)
  {
    var nodes, arbitrary := ExtractNodes(doc);
    order := ListOf(arbitrary);
    var fieldnames := PreFixed + order + PostFixed;
    var edges := ExtractEdges(doc);
    var linked := AssignRelationships(nodes, edges);
    if linked.Err? {
      return order, Err(linked.error);
    }
    var rows := WriteRows(linked.value, fieldnames);
    res := Ok(Table(fieldnames, rows));
  }

  // ------------------------------------------------------------------ properties

  /** No discovered name is one of the fixed or ignored names. */
  lemma {:induction false} DiscoveredOutside(doc: seq<Element>)
    ensures forall x | x in Discovered(doc) :: x !in Skip
    decreases |doc|
  {
    if doc != [] {
      DiscoveredOutside(doc[..|doc| - 1]);
    }
  }

  /** The fixed names are distinct. */
  lemma FixedDistinct()
    ensures Distinct(PreFixed + PostFixed)
  {
  }

  /** So the header names each column once. */
  lemma HeaderDistinct(doc: seq<Element>, order: seq<string>)
    requires Distinct(order) && forall x :: x in order <==> x in Discovered(doc)
    ensures Distinct(PreFixed + order + PostFixed)
  {
    DiscoveredOutside(doc);
    FixedDistinct();
    var h := PreFixed + order + PostFixed;
    forall a, b | 0 <= a < b < |h| ensures h[a] != h[b] {
      if a < 4 && b >= 4 + |order| {
        assert h[a] == (PreFixed + PostFixed)[a] && h[b] == (PreFixed + PostFixed)[b - |order|];
      } else if 4 <= a < 4 + |order| && b < 4 + |order| {
        assert h[a] == order[a - 4] && h[b] == order[b - 4];
      } else if 4 <= a < 4 + |order| {
        assert h[a] in order && h[b] in PostFixed;
      } else if a < 4 && b < 4 + |order| && b >= 4 {
        assert h[a] in PreFixed && h[b] in order;
      }
    }
  }

  /** The names `Skip` holds that the proofs need. */
  lemma SkipNames()
    ensures "owner" in Skip && "description" in Skip && "status" in Skip && "id" in Skip && "shape" in Skip
    ensures "width" in Skip && "height" in Skip && "xl_id" in Skip && NextKey in Skip
    ensures "label" in Skip && "placeholders" in Skip
  {
  }

  /**
   * A node's fields: `owner`, `description` and `status` from the element or empty,
   * the size of its shape, `xl_id` from the element or empty, and each attribute
   * outside `Skip` with the element's value; no other key, so no `next_step_id`.
   */
  lemma NodeDetails(e: Element)
    requires IsNode(e) && KeysDistinct(e.attrs)
    ensures var n := NodeOf(e);
      && n.shape == ParseShape(e.cellStyle.value) && n.id == Get(e.attrs, "id")
      && (forall k :: k in n.fields <==>
            k in {"owner", "description", "status", "width", "height", "xl_id"} || k in CopiedKeys(e.attrs, Skip))
      && "owner" in n.fields && "description" in n.fields && "status" in n.fields
      && "width" in n.fields && "height" in n.fields && "xl_id" in n.fields
      && n.fields["owner"] == GetOr(e.attrs, "owner", "") && n.fields["description"] == GetOr(e.attrs, "description", "")
      && n.fields["status"] == GetOr(e.attrs, "status", "")
      && n.fields["width"] == DiagramSize(n.shape).width && n.fields["height"] == DiagramSize(n.shape).height
      && n.fields["xl_id"] == GetOr(e.attrs, "xl_id", "")
      && (forall i | 0 <= i < |e.attrs| && e.attrs[i].0 !in Skip :: e.attrs[i].0 in CopiedKeys(e.attrs, Skip))
      && (forall i | 0 <= i < |e.attrs| && e.attrs[i].0 !in Skip :: n.fields[e.attrs[i].0] == e.attrs[i].1)
      && NextKey !in n.fields && "label" !in n.fields && "placeholders" !in n.fields
  {
    var shape := ParseShape(e.cellStyle.value);
    var copied := CopyAttrs(Base(e.attrs), e.attrs, Skip);
    assert NodeOf(e) == Node(Get(e.attrs, "id"), shape, Finish(copied, shape, e.attrs));
    CopiedFields(e.attrs);
    FinishedFields(copied, shape, e.attrs);
  }

  /** What `Finish` makes of the copied fields: the size and `xl_id` added, every other field kept. */
  lemma FinishedFields(m: map<string, string>, shape: string, attrs: Attrs)
    requires forall k :: k in m <==> k in {"owner", "description", "status"} || k in CopiedKeys(attrs, Skip)
    requires "owner" in m && "description" in m && "status" in m
    requires m["owner"] == GetOr(attrs, "owner", "") && m["description"] == GetOr(attrs, "description", "")
    requires m["status"] == GetOr(attrs, "status", "")
    requires forall i | 0 <= i < |attrs| && attrs[i].0 !in Skip :: attrs[i].0 in CopiedKeys(attrs, Skip)
    requires forall i | 0 <= i < |attrs| && attrs[i].0 !in Skip :: m[attrs[i].0] == attrs[i].1
    requires forall k | k in CopiedKeys(attrs, Skip) ::
      k !in {"owner", "description", "status", "width", "height", "xl_id", NextKey, "label", "placeholders"}
    ensures var r := Finish(m, shape, attrs);
      && (forall k :: k in r <==>
            k in {"owner", "description", "status", "width", "height", "xl_id"} || k in CopiedKeys(attrs, Skip))
      && "owner" in r && "description" in r && "status" in r
      && r["owner"] == GetOr(attrs, "owner", "") && r["description"] == GetOr(attrs, "description", "")
      && r["status"] == GetOr(attrs, "status", "")
      && (forall i | 0 <= i < |attrs| && attrs[i].0 !in Skip :: r[attrs[i].0] == attrs[i].1)
      && NextKey !in r && "label" !in r && "placeholders" !in r
  {
  }

  /** The copy on top of `Base`: its three fields, then the copied attributes, none of them skipped. */
  lemma CopiedFields(attrs: Attrs)
    requires KeysDistinct(attrs)
    ensures var r := CopyAttrs(Base(attrs), attrs, Skip);
      && (forall k :: k in r <==> k in {"owner", "description", "status"} || k in CopiedKeys(attrs, Skip))
      && "owner" in r && "description" in r && "status" in r
      && r["owner"] == GetOr(attrs, "owner", "") && r["description"] == GetOr(attrs, "description", "")
      && r["status"] == GetOr(attrs, "status", "")
      && (forall i | 0 <= i < |attrs| && attrs[i].0 !in Skip :: attrs[i].0 in CopiedKeys(attrs, Skip))
      && (forall i | 0 <= i < |attrs| && attrs[i].0 !in Skip :: r[attrs[i].0] == attrs[i].1)
      && (forall k | k in CopiedKeys(attrs, Skip) ::
            k !in {"owner", "description", "status", "width", "height", "xl_id", NextKey, "label", "placeholders"})
  {
    CopyAttrsFields(Base(attrs), attrs, Skip);
    SkippedNotCopied(attrs);
    forall i | 0 <= i < |attrs| && attrs[i].0 !in Skip ensures attrs[i].0 in CopiedKeys(attrs, Skip) {
      assert attrs[i] in attrs;
    }
  }

  /** The names `Skip` holds are never copied from the attributes. */
  lemma SkippedNotCopied(attrs: Attrs)
    ensures forall k | k in CopiedKeys(attrs, Skip) ::
      k !in {"owner", "description", "status", "width", "height", "xl_id", NextKey, "label", "placeholders"}
  {
    SkipNames();
  }

  /** A node starts with no successor list: `next_step_id` holds its edges' targets only. */
  lemma NodeNotStarted(e: Element)
    requires IsNode(e) && KeysDistinct(e.attrs)
    ensures Started(NodeOf(e)) == []
  {
    NodeDetails(e);
  }

  /**
   * The two flatteners disagree on a user object without `xl_id`: the library one
   * falls back to its id, this one leaves the cell empty.
   */
  lemma XlIdDefaultsDiffer(e: Element)
    requires IsNode(e) && KeysDistinct(e.attrs)
    requires Get(e.attrs, "xl_id").None? && GetOr(e.attrs, "id", "") != ""
    ensures "xl_id" in NodeOf(e).fields && NodeOf(e).fields["xl_id"] == ""
    ensures "xl_id" in DrawioToXl.NodeOf(e).fields && DrawioToXl.NodeOf(e).fields["xl_id"] == GetOr(e.attrs, "id", "") != ""
  {
    NodeDetails(e);
    DrawioToXl.NodeDetails(e);
  }

  /** Both flatteners find the same shape, size and id for a user object. */
  lemma SameShapeAndSize(e: Element)
    requires IsNode(e) && KeysDistinct(e.attrs)
    ensures NodeOf(e).id == DrawioToXl.NodeOf(e).id && NodeOf(e).shape == DrawioToXl.NodeOf(e).shape
    ensures "width" in NodeOf(e).fields && "width" in DrawioToXl.NodeOf(e).fields
    ensures "height" in NodeOf(e).fields && "height" in DrawioToXl.NodeOf(e).fields
    ensures NodeOf(e).fields["width"] == DrawioToXl.NodeOf(e).fields["width"]
    ensures NodeOf(e).fields["height"] == DrawioToXl.NodeOf(e).fields["height"]
  {
    NodeDetails(e);
    DrawioToXl.NodeDetails(e);
  }

  /** No node of the document starts with a successor list. */
  lemma {:induction false} NodesNotStarted(doc: seq<Element>)
    requires forall j | 0 <= j < |doc| :: KeysDistinct(doc[j].attrs)
    ensures forall n | n in Nodes(doc) :: Started(n) == []
    decreases |doc|
  {
    if doc != [] {
      var front := doc[..|doc| - 1];
      var last := doc[|doc| - 1];
      assert forall j | 0 <= j < |front| :: front[j] == doc[j];
      NodesNotStarted(front);
      if IsNode(last) {
        NodeNotStarted(last);
      }
    }
  }

  /** Where the list and slot columns sit among the trailing names. */
  lemma PostFixedSlots(slot: nat)
    requires slot < Arity
    ensures PostFixed[3] == NextKey
    ensures PostFixed[4 + 2 * slot] == SlotId(slot) && PostFixed[5 + 2 * slot] == SlotLabel(slot)
  {
    if slot == 0 {
      assert SlotId(0) == "decision0_id" && SlotLabel(0) == "decision0_label";
    } else if slot == 1 {
      assert SlotId(1) == "decision1_id" && SlotLabel(1) == "decision1_label";
    } else {
      assert SlotId(2) == "decision2_id" && SlotLabel(2) == "decision2_label";
    }
  }

  /**
   * In the row of a node that is not a decision, from a document whose attribute
   * keys are distinct, the `next_step_id` cell is the `,`-join of its edges'
   * targets, in edge order, when it has edges and none of their targets is empty.
   */
  lemma NextStepRow(doc: seq<Element>, order: seq<string>, i: nat)
    requires forall j | 0 <= j < |doc| :: KeysDistinct(doc[j].attrs)
    requires i < |Nodes(doc)| && !IsDecision(Nodes(doc)[i]) && Linked(Nodes(doc), Edges(doc)).Ok?
    requires var c := Connected(Edges(doc), Nodes(doc)[i].id); c != [] && forall e | e in c :: Fills(e)
    ensures var c := Connected(Edges(doc), Nodes(doc)[i].id);
      RowsOf(Linked(Nodes(doc), Edges(doc)).value, PreFixed + order + PostFixed)[i][|order| + 7] == Join(Targets(c), ",")
  {
    var nodes := Nodes(doc);
    var header := PreFixed + order + PostFixed;
    PostFixedSlots(0);
    assert header[|order| + 7] == PostFixed[3];
    NodesNotStarted(doc);
    assert nodes[i] in nodes;
    DrawioToXl.NextStepRow(nodes, Edges(doc), header, i, |order| + 7);
    assert Started(nodes[i]) + Targets(Connected(Edges(doc), nodes[i].id)) == Targets(Connected(Edges(doc), nodes[i].id));
  }

  /**
   * In the row of a decision node, the two columns of slot `slot` hold the target
   * and the label of its `slot`-th outgoing edge.
   */
  lemma DecisionRow(doc: seq<Element>, order: seq<string>, i: nat, slot: nat)
    requires i < |Nodes(doc)| && IsDecision(Nodes(doc)[i]) && Linked(Nodes(doc), Edges(doc)).Ok?
    requires slot < Arity && slot < |Connected(Edges(doc), Nodes(doc)[i].id)|
    ensures var c := Connected(Edges(doc), Nodes(doc)[i].id);
      var row := RowsOf(Linked(Nodes(doc), Edges(doc)).value, PreFixed + order + PostFixed)[i];
      row[|order| + 8 + 2 * slot] == c[slot].target.GetOr("") && row[|order| + 9 + 2 * slot] == c[slot].text
  {
    PostFixedSlots(slot);
    TrailingAt(order, 4 + 2 * slot);
    TrailingAt(order, 5 + 2 * slot);
    SlotCells(Nodes(doc), Edges(doc), PreFixed + order + PostFixed, i, slot, |order| + 8 + 2 * slot);
  }

  /** `DrawioToXl.DecisionRow` for a slot whose label column follows its id column. */
  lemma SlotCells(nodes: seq<Node>, edges: seq<Edge>, header: seq<string>, i: nat, slot: nat, p: nat)
    requires i < |nodes| && IsDecision(nodes[i]) && Linked(nodes, edges).Ok?
    requires slot < Arity && slot < |Connected(edges, nodes[i].id)|
    requires p + 1 < |header| && header[p] == SlotId(slot) && header[p + 1] == SlotLabel(slot)
    ensures var c, row := Connected(edges, nodes[i].id), RowsOf(Linked(nodes, edges).value, header)[i];
      row[p] == c[slot].target.GetOr("") && row[p + 1] == c[slot].text
  {
    DrawioToXl.DecisionRow(nodes, edges, header, i, slot, p, p + 1);
  }

  /** Where trailing name `k` sits in the header. */
  lemma TrailingAt(order: seq<string>, k: nat)
    requires k < |PostFixed|
    ensures |order| + 4 + k < |PreFixed + order + PostFixed|
    ensures (PreFixed + order + PostFixed)[|order| + 4 + k] == PostFixed[k]
  {
  }
}

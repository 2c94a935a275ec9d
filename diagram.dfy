/**
 * The parsed draw.io document as both flatteners see it (`drawio_xl/drawio_to_xl.py`
 * and `drawio_to_csv.py`): the elements of the XML tree in document order, the
 * user objects that become nodes, the connector cells that become edges, the
 * shape token read from a style string, and the assignment of each node's
 * outgoing edges to its `next_step_id` list or to its decision slots.
 */
module Diagram {
  import opened Wrappers
  import opened Strings
  import opened Tables

  /** An element's attributes in document order; XML gives every key once. */
  type Attrs = seq<(string, string)>

  /**
   * One element of `root.iter()`: its tag, its attributes, and the `style` of the
   * first `mxCell` below it (`None` when there is no such cell or it has no style).
   */
  datatype Element = Element(tag: string, attrs: Attrs, cellStyle: Option<string>)

  /**
   * A connector: its `source` and `target` ids, `None` where the attribute is absent
   * (a dangling connector has no `target`), and its trimmed `value` text (the
   * `label` of the source).
   */
  datatype Edge = Edge(source: Option<string>, target: Option<string>, text: string)

  /** The `details` dictionary of a node: `id` (`None` when absent), `shape`, and every other key. */
  datatype Node = Node(id: Option<string>, shape: string, fields: map<string, string>)

  /** Python's `s.endswith(suffix)`. */
  predicate EndsWith(s: string, suffix: string) {
    |suffix| <= |s| && s[|s| - |suffix|..] == suffix
  }

  /** `element.get(key)`: the value of the attribute named `key`, if there is one. */
  function Get(attrs: Attrs, key: string): (r: Option<string>)
    ensures r.None? <==> forall i | 0 <= i < |attrs| :: attrs[i].0 != key
    ensures r.Some? ==> exists i | 0 <= i < |attrs| :: attrs[i] == (key, r.value)
    decreases |attrs|
  {
    if attrs == [] then None
    else if attrs[0].0 == key then Some(attrs[0].1)
    else
      var r := Get(attrs[1..], key);
      assert forall i | 1 <= i < |attrs| :: attrs[i] == attrs[1..][i - 1];
      r
  }

  /** `element.get(key, default)`. */
  function GetOr(attrs: Attrs, key: string, default: string): string {
    match Get(attrs, key)
    case Some(v) => v
    case None => default
  }

  /** No two attributes share a key, as in any XML element. */
  predicate KeysDistinct(attrs: Attrs) {
    forall i, j | 0 <= i < j < |attrs| :: attrs[i].0 != attrs[j].0
  }

  /** With distinct keys, the value found for a key is the one stored with it. */
  lemma GetFinds(attrs: Attrs, i: nat)
    requires KeysDistinct(attrs) && i < |attrs|
    ensures Get(attrs, attrs[i].0) == Some(attrs[i].1)
  {
    var r := Get(attrs, attrs[i].0);
    var j :| 0 <= j < |attrs| && attrs[j] == (attrs[i].0, r.value);
    assert j == i;
  }

  /** A node candidate: a `UserObject` element whose first `mxCell` has a `style`. */
  predicate IsNode(e: Element) {
    EndsWith(e.tag, "UserObject") && e.cellStyle.Some?
  }

  /** A connector: an `mxCell` element carrying an `edge` attribute. */
  predicate IsEdge(e: Element) {
    EndsWith(e.tag, "mxCell") && Get(e.attrs, "edge").Some?
  }

  /** The edge record of a connector: `source`, `target` and the stripped `value`. */
  function EdgeOf(e: Element): Edge {
    Edge(Get(e.attrs, "source"), Get(e.attrs, "target"), Strip(GetOr(e.attrs, "value", "")))
  }

  /** The edges of the document, in document order. */
  function Edges(doc: seq<Element>): (r: seq<Edge>)
    ensures |r| <= |doc|
    decreases |doc|
  {
    if doc == [] then []
    else
      var last := doc[|doc| - 1];
      Edges(doc[..|doc| - 1]) + (if IsEdge(last) then [EdgeOf(last)] else [])
  }

  /** Every connector of the document gives an edge, and every edge comes from a connector. */
  lemma EdgesMembers(doc: seq<Element>)
    ensures forall e :: e in Edges(doc) <==> exists i | 0 <= i < |doc| :: IsEdge(doc[i]) && EdgeOf(doc[i]) == e
  {
    EdgesFrom(doc);
    forall e | exists i | 0 <= i < |doc| :: IsEdge(doc[i]) && EdgeOf(doc[i]) == e
      ensures e in Edges(doc)
    {
      var i :| 0 <= i < |doc| && IsEdge(doc[i]) && EdgeOf(doc[i]) == e;
      EdgeOfIn(doc, i);
    }
  }

  /** Every edge comes from a connector of the document. */
  lemma {:induction false} EdgesFrom(doc: seq<Element>)
    ensures forall e | e in Edges(doc) :: exists i | 0 <= i < |doc| :: IsEdge(doc[i]) && EdgeOf(doc[i]) == e
    decreases |doc|
  {
    if doc != [] {
      var front, last := doc[..|doc| - 1], doc[|doc| - 1];
      EdgesFrom(front);
      assert Edges(doc) == Edges(front) + (if IsEdge(last) then [EdgeOf(last)] else []);
      forall e | e in Edges(front)
        ensures exists i | 0 <= i < |doc| :: IsEdge(doc[i]) && EdgeOf(doc[i]) == e
      {
        var i :| 0 <= i < |front| && IsEdge(front[i]) && EdgeOf(front[i]) == e;
        assert doc[i] == front[i];
      }
    }
  }

  /** Every connector of the document gives an edge. */
  lemma {:induction false} EdgeOfIn(doc: seq<Element>, i: nat)
    requires i < |doc| && IsEdge(doc[i])
    ensures EdgeOf(doc[i]) in Edges(doc)
    decreases |doc|
  {
    var front, last := doc[..|doc| - 1], doc[|doc| - 1];
    var x := EdgeOf(doc[i]);
    if i < |front| {
      assert doc[i] == front[i];
      EdgeOfIn(front, i);
      InAppended(Edges(front), if IsEdge(last) then [EdgeOf(last)] else [], x);
    } else {
      assert Edges(doc) == Edges(front) + [x];
    }
  }

  /** An element of a sequence is an element of any extension of it. */
  lemma InAppended<T>(a: seq<T>, b: seq<T>, x: T)
    requires x in a
    ensures x in a + b
  {
    var k :| 0 <= k < |a| && a[k] == x;
    assert (a + b)[k] == x;
  }

  /** The edge loop of the flatteners. */
  method ExtractEdges(doc: seq<Element>) returns (edges: seq<Edge>)
    ensures edges == Edges(doc)
  {
    edges := [];
    var i := 0;
    while i < |doc|
      invariant i <= |doc| && edges == Edges(doc[..i])
    {
      assert doc[..i + 1][..i] == doc[..i];
      var element := doc[i];
      if EndsWith(element.tag, "mxCell") && Get(element.attrs, "edge").Some? {
        edges := edges + [Edge(Get(element.attrs, "source"), Get(element.attrs, "target"),
                               Strip(GetOr(element.attrs, "value", "")))];
      }
      i := i + 1;
    }
    assert doc[..i] == doc;
  }

  // ------------------------------------------------------------------ shape token

  /** The marker that precedes the shape token in a style string. */
  const Prefix := "mxgraph.flowchart."

  /**
   * `refined_parse_shape`: `unknown` when the style lacks the marker; otherwise the
   * text after its first occurrence, up to the next `;` or the end of the style.
   */
  function ParseShape(style: string): (r: string)
    ensures ';' !in r
    ensures FindFrom(style, Prefix, 0).None? ==> r == "unknown"
    ensures FindFrom(style, Prefix, 0).Some? ==>
      var start := FindFrom(style, Prefix, 0).value + |Prefix|;
      && start + |r| <= |style| && style[start..start + |r|] == r
      && (start + |r| == |style| || style[start + |r|] == ';')
  {
    match FindFrom(style, Prefix, 0)
    case None => "unknown"
    case Some(i) =>
      var start := i + |Prefix|;
      var end := match FindFrom(style, ";", start) case Some(j) => j case None => |style|;
      assert forall j | start <= j < end :: style[j] != ';' by {
        forall j | start <= j < end ensures style[j] != ';' {
          assert !OccursAt(style, ";", j);
          assert style[j..j + 1] == [style[j]];
        }
      }
      assert end < |style| ==> style[end] == ';' by {
        if end < |style| {
          assert OccursAt(style, ";", end);
          assert style[end..end + 1][0] == style[end];
        }
      }
      style[start..end]
  }

  /** Scanning past characters that cannot start the word finds nothing there. */
  lemma {:induction false} FindFromSkips(s: string, w: string, k: nat, m: nat)
    requires |w| > 0 && k <= m <= |s|
    requires forall j | k <= j < m :: s[j] != w[0]
    ensures FindFrom(s, w, k) == FindFrom(s, w, m)
    decreases m - k
  {
    if k < m {
      if k + |w| <= |s| {
        assert s[k..k + |w|][0] == s[k];
      }
      FindFromSkips(s, w, k + 1, m);
    }
  }

  /**
   * The style templates of `drawio_xl/config.py:9-14`: the token between the marker
   * and the next `;` comes back, whatever precedes the marker as long as it has no
   * `m`, and whatever follows the `;`.
   */
  lemma ParseShapeOfTemplate(before: string, shape: string, after: string)
    requires 'm' !in before && ';' !in shape
    ensures ParseShape(before + Prefix + shape + ";" + after) == shape
  {
    var head := before + Prefix;
    var rest := shape + ";" + after;
    var style := before + Prefix + shape + ";" + after;
    assert style == head + rest;
    MarkerAfter(before, rest);
    assert rest[..|shape|] == shape && rest[|shape|] == ';';
    TokenAfter(head, rest, shape);
  }

  /** A style that ends with the token, with no `;` after it, gives the token too. */
  lemma ParseShapeAtEnd(before: string, shape: string)
    requires 'm' !in before && ';' !in shape
    ensures ParseShape(before + Prefix + shape) == shape
  {
    MarkerAfter(before, shape);
    TokenAfter(before + Prefix, shape, shape);
  }

  /** The marker after text without an `m` is the first occurrence of the marker. */
  lemma MarkerAfter(before: string, rest: string)
    requires 'm' !in before
    ensures FindFrom(before + Prefix + rest, Prefix, 0) == Some(|before|)
  {
    var style := before + Prefix + rest;
    assert style[|before|..|before| + |Prefix|] == Prefix;
    assert forall j | 0 <= j < |before| :: style[j] == before[j];
    FindFromSkips(style, Prefix, 0, |before|);
  }

  /**
   * After the first marker, a token without `;` that ends the style or is
   * followed by `;` is the parsed shape.
   */
  lemma TokenAfter(head: string, rest: string, shape: string)
    requires |Prefix| <= |head| && FindFrom(head + rest, Prefix, 0) == Some(|head| - |Prefix|)
    requires ';' !in shape && |shape| <= |rest| && rest[..|shape|] == shape
    requires |shape| == |rest| || rest[|shape|] == ';'
    ensures ParseShape(head + rest) == shape
  {
    var style := head + rest;
    var r := ParseShape(style);
    var start := |head|;
    assert start + |r| <= |style| && style[start..start + |r|] == r;
    assert style[start..start + |r|] == rest[..|r|];
    assert start + |r| < |style| ==> style[start + |r|] == rest[|r|];
    TokenUnique(rest, r, shape);
  }

  /** Two `;`-free prefixes of a text, each ending the text or followed by `;`, are the same. */
  lemma TokenUnique(rest: string, a: string, b: string)
    requires ';' !in a && |a| <= |rest| && rest[..|a|] == a && (|a| == |rest| || rest[|a|] == ';')
    requires ';' !in b && |b| <= |rest| && rest[..|b|] == b && (|b| == |rest| || rest[|b|] == ';')
    ensures a == b
  {
    assert forall n | 0 <= n < |a| :: rest[n] == a[n];
    assert forall n | 0 <= n < |b| :: rest[n] == b[n];
    assert |a| == |b|;
  }

  /** The plain style template of `drawio_xl/config.py`, around its `%shape%` placeholder. */
  const TemplateHead := "whiteSpace=wrap;shape="
  const TemplateTail := "html=1;"

  /** Filling a shape name into the template and parsing the style gives the name back. */
  lemma ParseTemplate(shape: string)
    requires ';' !in shape
    ensures ParseShape(TemplateHead + Prefix + shape + ";" + TemplateTail) == shape
  {
    assert 'm' !in TemplateHead;
    ParseShapeOfTemplate(TemplateHead, shape, TemplateTail);
  }

  /** A style without the marker, as a plain rectangle has, gives `unknown`. */
  lemma ParseShapeUnknownExample()
    ensures ParseShape("rounded=0;whiteSpace=wrap;") == "unknown"
  {
    var style := "rounded=0;whiteSpace=wrap;";
    FindFromSkips(style, Prefix, 0, |style|);
  }

  // ------------------------------------------------------------------ node details

  /** The attribute names a flattener copies into a node: those not in `skip`. */
  function CopiedKeys(attrs: Attrs, skip: seq<string>): set<string> {
    set kv | kv in attrs && kv.0 !in skip :: kv.0
  }

  /** `for property in element.keys(): if property not in skip: details[property] = element.get(property)`. */
  function CopyAttrs(fields: map<string, string>, attrs: Attrs, skip: seq<string>): (r: map<string, string>)
    decreases |attrs|
  {
    if attrs == [] then fields
    else CopyAttrs(if attrs[0].0 !in skip then fields[attrs[0].0 := attrs[0].1] else fields, attrs[1..], skip)
  }

  /**
   * The copy adds exactly the attribute names outside `skip`; each takes its value
   * from the element, and every other key keeps the value it had.
   */
  lemma {:induction false} CopyAttrsFields(fields: map<string, string>, attrs: Attrs, skip: seq<string>)
    requires KeysDistinct(attrs)
    ensures var r := CopyAttrs(fields, attrs, skip);
      && (forall k :: k in r <==> k in fields || k in CopiedKeys(attrs, skip))
      && (forall i | 0 <= i < |attrs| && attrs[i].0 !in skip :: r[attrs[i].0] == attrs[i].1)
      && (forall k | k in fields && k !in CopiedKeys(attrs, skip) :: r[k] == fields[k])
    decreases |attrs|
  {
    if attrs != [] {
      var kv := attrs[0];
      var fields' := if kv.0 !in skip then fields[kv.0 := kv.1] else fields;
      CopyAttrsFields(fields', attrs[1..], skip);
      assert attrs == [kv] + attrs[1..];
      assert forall i | 1 <= i < |attrs| :: attrs[i] == attrs[1..][i - 1] && attrs[i].0 != kv.0;
      assert CopiedKeys(attrs, skip) == CopiedKeys([kv], skip) + CopiedKeys(attrs[1..], skip);
    }
  }

  /** The copy loop of a flattener; `added` is what it adds to the field names. */
  method CopyProperties(details: map<string, string>, attrs: Attrs, skip: seq<string>)
    returns (out: map<string, string>, added: set<string>)
    ensures out == CopyAttrs(details, attrs, skip) && added == CopiedKeys(attrs, skip)
  {
    out, added := details, {};
    var j := 0;
    while j < |attrs|
      invariant j <= |attrs|
      invariant CopyAttrs(out, attrs[j..], skip) == CopyAttrs(details, attrs, skip)
      invariant added == CopiedKeys(attrs[..j], skip)
    {
      assert attrs[j..][1..] == attrs[j + 1..];
      assert attrs[..j + 1] == attrs[..j] + [attrs[j]];
      var (property, value) := attrs[j];
      if property !in skip {
        out := out[property := value];
        added := added + {property};
      }
      j := j + 1;
    }
    assert attrs[..j] == attrs;
  }

  /** `node.get(key, '')`, with `id` and `shape` kept apart from the other keys; a missing id is written empty. */
  function Cell(node: Node, key: string): string {
    if key == "id" then node.id.GetOr("")
    else if key == "shape" then node.shape
    else if key in node.fields then node.fields[key]
    else ""
  }

  /** `{key: node.get(key, '') for key in fieldnames}`, as the writer lays it out. */
  function RowOf(node: Node, header: seq<string>): (r: Row)
    ensures |r| == |header|
  {
    seq(|header|, k requires 0 <= k < |header| => Cell(node, header[k]))
  }

  /** One row per node, in order. */
  function RowsOf(nodes: seq<Node>, header: seq<string>): (r: seq<Row>)
    ensures |r| == |nodes|
  {
    seq(|nodes|, i requires 0 <= i < |nodes| => RowOf(nodes[i], header))
  }

  /** The writer loop. */
  method WriteRows(nodes: seq<Node>, header: seq<string>) returns (rows: seq<Row>)
    ensures rows == RowsOf(nodes, header)
  {
    rows := [];
    var i := 0;
    while i < |nodes|
      invariant i <= |nodes| && |rows| == i
      invariant forall k | 0 <= k < i :: rows[k] == RowOf(nodes[k], header)
    {
      var node := nodes[i];
      var row := seq(|header|, k requires 0 <= k < |header| => Cell(node, header[k]));
      rows := rows + [row];
      i := i + 1;
    }
  }

  // ------------------------------------------------------------------ relationships

  /** The key that holds a node's comma-separated successors. */
  const NextKey := "next_step_id"

  /** The number of decision slots, `max_decision_count`. */
  const Arity := 3

  /** `f'decision{i}_id'`. */
  function SlotId(i: nat): string
    requires i < Arity
  {
    "decision" + [('0' as int + i) as char] + "_id"
  }

  /** `f'decision{i}_label'`. */
  function SlotLabel(i: nat): string
    requires i < Arity
  {
    "decision" + [('0' as int + i) as char] + "_label"
  }

  /** The slot names are pairwise different and differ from `next_step_id`. */
  lemma SlotNamesDistinct(i: nat, j: nat)
    requires i < Arity && j < Arity
    ensures SlotId(i) != SlotLabel(j)
    ensures SlotId(i) == SlotId(j) || SlotLabel(i) == SlotLabel(j) ==> i == j
    ensures SlotId(i) != NextKey && SlotLabel(i) != NextKey
  {
    assert |SlotId(i)| != |SlotLabel(j)|;
    if SlotId(i) == SlotId(j) {
      assert SlotId(i)[8] == SlotId(j)[8];
    }
    if SlotLabel(i) == SlotLabel(j) {
      assert SlotLabel(i)[8] == SlotLabel(j)[8];
    }
    assert SlotId(i)[0] != NextKey[0];
  }

  /** The slot names are none of the keys a node keeps apart. */
  lemma SlotNotFixed(i: nat)
    requires i < Arity
    ensures SlotId(i) != "id" && SlotId(i) != "shape" && SlotLabel(i) != "id" && SlotLabel(i) != "shape"
  {
    assert |SlotId(i)| == 12 && |SlotLabel(i)| == 15;
  }

  function FromFn(id: Option<string>): Edge -> bool {
    (e: Edge) => e.source == id
  }

  /** `[edge for edge in edges if edge['source'] == node['id']]`; a missing source matches a missing id. */
  function Connected(edges: seq<Edge>, id: Option<string>): (r: seq<Edge>)
    ensures forall e :: e in r <==> e in edges && e.source == id
  {
    FilterMembers(edges, FromFn(id));
    Filter(edges, FromFn(id))
  }

  /** The node's `next_step_id` so far, as a list: empty when the key is absent or empty. */
  function Started(node: Node): seq<string> {
    if NextKey in node.fields && node.fields[NextKey] != "" then [node.fields[NextKey]] else []
  }

  predicate IsDecision(node: Node) {
    node.shape == "decision"
  }

  /** Slot `count` of a decision node takes the edge's target (empty when missing) and label. */
  function FillSlot(node: Node, e: Edge, count: nat): (r: Node)
    requires count < Arity
    ensures r.id == node.id && r.shape == node.shape
  {
    node.(fields := node.fields[SlotId(count) := e.target.GetOr("")][SlotLabel(count) := e.text])
  }

  /**
   * Any other node appends the target to a non-empty `next_step_id`, or starts it
   * with the target when it is empty (a missing target is written empty). Appending
   * a missing target is `str + None`, a TypeError.
   */
  function Extend(node: Node, target: Option<string>): (r: Result<Node, Error>)
    ensures r.Err? <==> Started(node) != [] && target.None?
    ensures r.Err? ==> r.error == NoneOperand
    ensures r.Ok? ==> r.value.id == node.id && r.value.shape == node.shape && NextKey in r.value.fields
    ensures r.Ok? && Started(node) == [] ==> r.value.fields[NextKey] == target.GetOr("")
  {
    if Started(node) == [] then Ok(node.(fields := node.fields[NextKey := target.GetOr("")]))
    else if target.None? then Err(NoneOperand)
    else Ok(node.(fields := node.fields[NextKey := node.fields[NextKey] + "," + target.value]))
  }

  /** The edge loop of one node: `count` decision slots are filled so far. */
  function Link(node: Node, connected: seq<Edge>, count: nat): (r: Result<Node, Error>)
    requires count <= Arity
    ensures r.Ok? ==> r.value.id == node.id && r.value.shape == node.shape
    ensures r.Err? ==> r.error == NoneOperand
    ensures IsDecision(node) ==> r.Ok?
    decreases |connected|
  {
    if connected == [] then Ok(node)
    else if IsDecision(node) && count < Arity then Link(FillSlot(node, connected[0], count), connected[1..], count + 1)
    else if IsDecision(node) then Link(node, connected[1..], count)
    else
      match Extend(node, connected[0].target)
      case Err(e) => Err(e)
      case Ok(next) => Link(next, connected[1..], count)
  }

  /** Node `i` with its edges assigned, or as it was when its edge loop raises. */
  function LinkedAt(nodes: seq<Node>, edges: seq<Edge>, i: nat): Node
    requires i < |nodes|
  {
    match Link(nodes[i], Connected(edges, nodes[i].id), 0)
    case Ok(n) => n
    case Err(_) => nodes[i]
  }

  /**
   * Every node with its outgoing edges assigned, in order, or the TypeError that
   * the first node whose edge loop raises one ends the loops with.
   */
  function Linked(nodes: seq<Node>, edges: seq<Edge>): (r: Result<seq<Node>, Error>)
    ensures r.Ok? <==> forall i | 0 <= i < |nodes| :: Link(nodes[i], Connected(edges, nodes[i].id), 0).Ok?
    ensures r.Err? ==> r.error == NoneOperand
    ensures r.Ok? ==> |r.value| == |nodes|
    ensures r.Ok? ==> forall i | 0 <= i < |nodes| :: Link(nodes[i], Connected(edges, nodes[i].id), 0) == Ok(r.value[i])
  {
    if forall i | 0 <= i < |nodes| :: Link(nodes[i], Connected(edges, nodes[i].id), 0).Ok? then
      Ok(seq(|nodes|, i requires 0 <= i < |nodes| => LinkedAt(nodes, edges, i)))
    else Err(NoneOperand)
  }

  /** The edge loop of one node, as the source runs it. */
  method LinkNode(node0: Node, connected: seq<Edge>) returns (res: Result<Node, Error>)
    ensures res == Link(node0, connected, 0)
  {
    var node := node0;
    var count := 0;
    var j := 0;
    while j < |connected|
      invariant j <= |connected| && count <= Arity
      invariant Link(node, connected[j..], count) == Link(node0, connected, 0)
    {
      assert connected[j..][1..] == connected[j + 1..];
      var edge := connected[j];
      if IsDecision(node) {
        if count < Arity {
          node := FillSlot(node, edge, count);
          count := count + 1;
        }
      } else {
        var next := Extend(node, edge.target);
        if next.Err? {
          return Err(next.error);
        }
        node := next.value;
      }
      j := j + 1;
    }
    res := Ok(node);
  }

  /** The relationship loops: for each node, its connected edges in order; a TypeError ends them. */
  method AssignRelationships(nodes: seq<Node>, edges: seq<Edge>) returns (res: Result<seq<Node>, Error>)
    ensures res == Linked(nodes, edges)
  {
    var out := [];
    var i := 0;
    while i < |nodes|
      invariant i <= |nodes| && |out| == i
      invariant forall k | 0 <= k < i :: Link(nodes[k], Connected(edges, nodes[k].id), 0) == Ok(out[k])
    {
      var node := LinkNode(nodes[i], Connected(edges, nodes[i].id));
      if node.Err? {
        LinkedErr(nodes, edges, i);
        return Err(node.error);
      }
      out := out + [node.value];
      i := i + 1;
    }
    LinkedOk(nodes, edges, out);
    res := Ok(out);
  }

  /** One node whose edge loop raises makes the loops raise. */
  lemma LinkedErr(nodes: seq<Node>, edges: seq<Edge>, i: nat)
    requires i < |nodes| && Link(nodes[i], Connected(edges, nodes[i].id), 0).Err?
    ensures Linked(nodes, edges) == Err(NoneOperand)
  {
  }

  /** Nodes whose edge loops all succeed give the linked nodes. */
  lemma LinkedOk(nodes: seq<Node>, edges: seq<Edge>, out: seq<Node>)
    requires |out| == |nodes|
    requires forall k | 0 <= k < |nodes| :: Link(nodes[k], Connected(edges, nodes[k].id), 0) == Ok(out[k])
    ensures Linked(nodes, edges) == Ok(out)
  {
    assert Linked(nodes, edges).Ok?;
    assert Linked(nodes, edges).value == out;
  }

  // ------------------------------------------------------------------ properties

  /** The target ids of a list of edges, in order, a missing one as empty. */
  function Targets(edges: seq<Edge>): (r: seq<string>)
    ensures |r| == |edges| && forall i | 0 <= i < |edges| :: r[i] == edges[i].target.GetOr("")
  {
    seq(|edges|, i requires 0 <= i < |edges| => edges[i].target.GetOr(""))
  }

  /** An edge whose target is present and non-empty: it leaves `next_step_id` non-empty. */
  predicate Fills(e: Edge) {
    e.target.Some? && e.target.value != ""
  }

  /** Joining a joined list with more parts is joining all the parts. */
  lemma {:induction false} JoinNest(xs: seq<string>, ys: seq<string>, sep: string)
    requires xs != []
    ensures Join([Join(xs, sep)] + ys, sep) == Join(xs + ys, sep)
    decreases |xs|
  {
    if |xs| == 1 {
      assert Join(xs, sep) == xs[0];
      assert xs + ys == [xs[0]] + ys;
    } else {
      var h, tail := xs[0], xs[1..];
      var j := Join(tail, sep);
      assert Join(xs, sep) == h + sep + j;
      var both := [h, j] + ys;
      assert both[0] == h && both[1..] == [j] + ys;
      var all := xs + ys;
      assert |all| >= 2 && all[0] == h && all[1..] == tail + ys;
      calc {
        Join([Join(xs, sep)] + ys, sep);
        Join([h + sep + j] + ys, sep);
        { JoinMergeHead(h, j, ys, sep); }
        Join(both, sep);
        h + sep + Join([j] + ys, sep);
        { JoinNest(tail, ys, sep); }
        h + sep + Join(tail + ys, sep);
        Join(all, sep);
      }
    }
  }

  /**
   * A node that is not a decision gets the `,`-join of all its edges' targets, in
   * order and uncapped, after any `next_step_id` it already had; its other keys keep
   * their values. Targets must be present and non-empty: an empty one does not
   * extend the list, and a missing one may raise.
   */
  lemma {:induction false} LinkNext(node: Node, connected: seq<Edge>, count: nat)
    requires count <= Arity && !IsDecision(node) && connected != []
    requires forall i | 0 <= i < |connected| :: Fills(connected[i])
    ensures Link(node, connected, count).Ok?
    ensures Link(node, connected, count).value.fields == node.fields[NextKey := Join(Started(node) + Targets(connected), ",")]
    decreases |connected|
  {
    var e, rest := connected[0], connected[1..];
    assert Fills(e);
    var t := e.target.value;
    var next := Join(Started(node) + [t], ",");
    ExtendJoins(node, t);
    var node' := node.(fields := node.fields[NextKey := next]);
    LinkExtends(node, connected, count);
    assert Link(node, connected, count) == Link(node', rest, count);
    if rest == [] {
      TargetsCons(connected);
      assert Started(node) + Targets(connected) == Started(node) + [t];
    } else {
      var all := Join(Started(node) + Targets(connected), ",");
      FillsRest(connected);
      LinkNext(node', rest, count);
      JoinedTargets(Started(node), t, connected);
      assert node.fields[NextKey := next][NextKey := all] == node.fields[NextKey := all];
    }
  }

  /** Every edge after the first of a list whose edges all fill the list fills it too. */
  lemma FillsRest(connected: seq<Edge>)
    requires connected != [] && forall i | 0 <= i < |connected| :: Fills(connected[i])
    ensures forall i | 0 <= i < |connected[1..]| :: Fills(connected[1..][i])
  {
    forall i | 0 <= i < |connected[1..]| ensures Fills(connected[1..][i]) {
      assert connected[1..][i] == connected[i + 1];
    }
  }

  /** The list after the first target, joined with the remaining targets, is the list with all of them. */
  lemma JoinedTargets(started: seq<string>, t: string, connected: seq<Edge>)
    requires |connected| > 1 && connected[0].target == Some(t)
    ensures Join([Join(started + [t], ",")] + Targets(connected[1..]), ",") == Join(started + Targets(connected), ",")
  {
    var rest := Targets(connected[1..]);
    TargetsCons(connected);
    assert Targets(connected) == [t] + rest;
    SeqAssoc(started, [t], rest);
    JoinNest(started + [t], rest, ",");
  }

  /** Sequence concatenation is associative. */
  lemma SeqAssoc<T>(a: seq<T>, b: seq<T>, c: seq<T>)
    ensures a + b + c == a + (b + c)
  {
  }

  /** A node that is not a decision takes its first edge by extending its list of targets. */
  lemma LinkExtends(node: Node, connected: seq<Edge>, count: nat)
    requires count <= Arity && !IsDecision(node) && connected != []
    ensures Extend(node, connected[0].target).Err? ==> Link(node, connected, count) == Extend(node, connected[0].target)
    ensures Extend(node, connected[0].target).Ok? ==>
      Link(node, connected, count) == Link(Extend(node, connected[0].target).value, connected[1..], count)
  {
  }

  /** The targets of a non-empty list of edges: the first edge's, then the rest's. */
  lemma TargetsCons(edges: seq<Edge>)
    requires edges != []
    ensures Targets(edges) == [edges[0].target.GetOr("")] + Targets(edges[1..])
  {
  }

  /** Extending with a non-empty target sets `next_step_id` to the joined targets so far. */
  lemma ExtendJoins(node: Node, target: string)
    requires target != ""
    ensures var next := Join(Started(node) + [target], ",");
      && Extend(node, Some(target)) == Ok(node.(fields := node.fields[NextKey := next]))
      && Started(Extend(node, Some(target)).value) == [next]
  {
    if Started(node) != [] {
      assert (Started(node) + [target])[1..] == [target];
    } else {
      assert Started(node) + [target] == [target];
    }
  }

  /** A node without outgoing edges is left as it was. */
  lemma LinkNone(node: Node, count: nat)
    requires count <= Arity
    ensures Link(node, [], count) == Ok(node)
  {
  }

  /** The slot keys filled from slot `count` on, for `n` edges. */
  predicate FilledSlot(key: string, count: nat, n: nat) {
    exists i | count <= i < Arity && i < count + n :: key == SlotId(i) || key == SlotLabel(i)
  }

  /** Filling slot `count` first, then the slots after it, fills the same keys. */
  lemma FilledSlotStep(count: nat, n: nat)
    requires count < Arity && n > 0
    ensures forall key :: FilledSlot(key, count, n) <==>
      key == SlotId(count) || key == SlotLabel(count) || FilledSlot(key, count + 1, n - 1)
    ensures !FilledSlot(SlotId(count), count + 1, n - 1) && !FilledSlot(SlotLabel(count), count + 1, n - 1)
  {
    forall key | FilledSlot(key, count, n)
      ensures key == SlotId(count) || key == SlotLabel(count) || FilledSlot(key, count + 1, n - 1)
    {
      var i :| count <= i < Arity && i < count + n && (key == SlotId(i) || key == SlotLabel(i));
      if i > count {
        assert count + 1 <= i < count + 1 + (n - 1);
      }
    }
    forall key | FilledSlot(key, count + 1, n - 1) ensures FilledSlot(key, count, n) {
      var i :| count + 1 <= i < Arity && i < count + 1 + (n - 1) && (key == SlotId(i) || key == SlotLabel(i));
      assert count <= i < count + n;
    }
    forall i | count + 1 <= i < Arity
      ensures SlotId(count) != SlotId(i) && SlotId(count) != SlotLabel(i)
      ensures SlotLabel(count) != SlotId(i) && SlotLabel(count) != SlotLabel(i)
    {
      SlotNamesDistinct(count, i);
      SlotNamesDistinct(i, count);
    }
    assert SlotId(count) == SlotId(count + 0);
  }

  /** What a decision node's fields hold after its edges from slot `count` on. */
  ghost predicate DecisionLinked(before: map<string, string>, after: map<string, string>, connected: seq<Edge>, count: nat) {
    && (forall i | count <= i < Arity && i < count + |connected| ::
          SlotId(i) in after && after[SlotId(i)] == connected[i - count].target.GetOr("")
          && SlotLabel(i) in after && after[SlotLabel(i)] == connected[i - count].text)
    && (forall key :: key in after <==> key in before || FilledSlot(key, count, |connected|))
    && (forall key | key in before && !FilledSlot(key, count, |connected|) :: after[key] == before[key])
  }

  /** Filling slot `count` and then the later slots gives the fields the whole run describes. */
  lemma DecisionLinkedStep(before: map<string, string>, after: map<string, string>, connected: seq<Edge>, count: nat)
    requires count < Arity && connected != []
    requires DecisionLinked(before[SlotId(count) := connected[0].target.GetOr("")][SlotLabel(count) := connected[0].text],
                            after, connected[1..], count + 1)
    ensures DecisionLinked(before, after, connected, count)
  {
    FilledSlotStep(count, |connected|);
    SlotNamesDistinct(count, count);
    DecisionSlotsStep(before, after, connected, count);
    DecisionKeysStep(before, after, connected, count);
  }

  /** The slots half of `DecisionLinkedStep`: every filled slot holds its edge. */
  lemma DecisionSlotsStep(before: map<string, string>, after: map<string, string>, connected: seq<Edge>, count: nat)
    requires count < Arity && connected != []
    requires DecisionLinked(before[SlotId(count) := connected[0].target.GetOr("")][SlotLabel(count) := connected[0].text],
                            after, connected[1..], count + 1)
    ensures forall i | count <= i < Arity && i < count + |connected| ::
      SlotId(i) in after && after[SlotId(i)] == connected[i - count].target.GetOr("")
      && SlotLabel(i) in after && after[SlotLabel(i)] == connected[i - count].text
  {
    var mid := before[SlotId(count) := connected[0].target.GetOr("")][SlotLabel(count) := connected[0].text];
    FilledSlotStep(count, |connected|);
    SlotNamesDistinct(count, count);
    forall i | count <= i < Arity && i < count + |connected|
      ensures SlotId(i) in after && after[SlotId(i)] == connected[i - count].target.GetOr("")
      ensures SlotLabel(i) in after && after[SlotLabel(i)] == connected[i - count].text
    {
      if i > count {
        assert connected[1..][i - (count + 1)] == connected[i - count];
      } else {
        assert mid[SlotId(count)] == connected[0].target.GetOr("");
        assert !FilledSlot(SlotId(count), count + 1, |connected| - 1);
        assert !FilledSlot(SlotLabel(count), count + 1, |connected| - 1);
      }
    }
  }

  /** The keys half of `DecisionLinkedStep`: which keys exist, and which keep their values. */
  lemma DecisionKeysStep(before: map<string, string>, after: map<string, string>, connected: seq<Edge>, count: nat)
    requires count < Arity && connected != []
    requires DecisionLinked(before[SlotId(count) := connected[0].target.GetOr("")][SlotLabel(count) := connected[0].text],
                            after, connected[1..], count + 1)
    ensures forall key :: key in after <==> key in before || FilledSlot(key, count, |connected|)
    ensures forall key | key in before && !FilledSlot(key, count, |connected|) :: after[key] == before[key]
  {
    FilledSlotStep(count, |connected|);
  }

  /**
   * A decision node gets the target and the label of its `i`-th outgoing edge in
   * slot `count + i`, for as many edges as there are free slots; later edges are
   * ignored, and every key outside the filled slots keeps its value (so
   * `next_step_id` is not set).
   */
  lemma {:induction false} LinkDecision(node: Node, connected: seq<Edge>, count: nat)
    requires count <= Arity && IsDecision(node)
    ensures Link(node, connected, count).Ok?
    ensures DecisionLinked(node.fields, Link(node, connected, count).value.fields, connected, count)
    decreases |connected|
  {
    if connected == [] {
      assert forall key :: !FilledSlot(key, count, 0);
    } else if count == Arity {
      LinkDecision(node, connected[1..], count);
      assert forall key :: !FilledSlot(key, count, |connected|);
    } else {
      LinkDecision(FillSlot(node, connected[0], count), connected[1..], count + 1);
      DecisionLinkedStep(node.fields, Link(node, connected, count).value.fields, connected, count);
    }
  }

  /** A missing target on the first edge restarts the list: the next target overwrites it. */
  lemma MissingTargetRestarts(id: Option<string>, b: string)
    requires b != ""
    ensures Link(Node(id, "process", map[]), [Edge(id, None, ""), Edge(id, Some(b), "")], 0)
      == Ok(Node(id, "process", map[NextKey := b]))
  {
    var n0 := Node(id, "process", map[]);
    var c := [Edge(id, None, ""), Edge(id, Some(b), "")];
    var n1 := Node(id, "process", map[NextKey := ""]);
    assert Extend(n0, None) == Ok(n1);
    assert Started(n1) == [];
    assert c[1..] == [Edge(id, Some(b), "")];
    assert Link(n0, c, 0) == Link(n1, c[1..], 0);
    assert map[NextKey := ""][NextKey := b] == map[NextKey := b];
    var n2 := Node(id, "process", map[NextKey := b]);
    assert Extend(n1, Some(b)) == Ok(n2);
    assert c[1..][1..] == [];
    assert Link(n1, c[1..], 0) == Link(n2, [], 0);
  }

  /** A missing target after a present one raises: the whole conversion fails. */
  lemma MissingTargetFails(id: Option<string>, a: string)
    requires a != ""
    ensures Link(Node(id, "process", map[]), [Edge(id, Some(a), ""), Edge(id, None, "")], 0) == Err(NoneOperand)
  {
    var n0 := Node(id, "process", map[]);
    var c := [Edge(id, Some(a), ""), Edge(id, None, "")];
    var n1 := Node(id, "process", map[NextKey := a]);
    assert Extend(n0, Some(a)) == Ok(n1);
    assert Started(n1) == [a];
    assert c[1..] == [Edge(id, None, "")];
    assert Link(n0, c, 0) == Link(n1, c[1..], 0);
  }

  /**
   * Some edge lacks its target while `next_step_id` is non-empty: the list was
   * `started` before the edges, or an earlier edge filled it.
   */
  predicate MissingAfterStart(started: bool, connected: seq<Edge>) {
    exists i | 0 <= i < |connected| :: connected[i].target.None? && (started || exists j | 0 <= j < i :: Fills(connected[j]))
  }

  /** `MissingAfterStart` on a non-empty list: the first edge, or the rest once the first has been taken. */
  lemma MissingAfterStartCons(started: bool, connected: seq<Edge>)
    requires connected != []
    ensures MissingAfterStart(started, connected) <==>
      (started && connected[0].target.None?) || MissingAfterStart(started || Fills(connected[0]), connected[1..])
  {
    var rest, started' := connected[1..], started || Fills(connected[0]);
    if MissingAfterStart(started, connected) && !(started && connected[0].target.None?) {
      var i :| 0 <= i < |connected| && connected[i].target.None? && (started || exists j | 0 <= j < i :: Fills(connected[j]));
      assert i > 0;
      assert rest[i - 1] == connected[i];
      if !started' {
        var j :| 0 <= j < i && Fills(connected[j]);
        assert j > 0 && rest[j - 1] == connected[j];
      }
    }
    if MissingAfterStart(started', rest) {
      var i :| 0 <= i < |rest| && rest[i].target.None? && (started' || exists j | 0 <= j < i :: Fills(rest[j]));
      assert connected[i + 1] == rest[i];
      if !started && Fills(connected[0]) {
        assert 0 < i + 1;
      } else if !started {
        var j :| 0 <= j < i && Fills(rest[j]);
        assert connected[j + 1] == rest[j];
      }
    }
  }

  /**
   * The edge loop of a node that is not a decision raises exactly when it meets a
   * missing target while `next_step_id` is non-empty.
   */
  lemma {:induction false} LinkFails(node: Node, connected: seq<Edge>, count: nat)
    requires count <= Arity && !IsDecision(node)
    ensures Link(node, connected, count).Err? <==> MissingAfterStart(Started(node) != [], connected)
    decreases |connected|
  {
    if connected != [] {
      var e := connected[0];
      LinkExtends(node, connected, count);
      MissingAfterStartCons(Started(node) != [], connected);
      var next := Extend(node, e.target);
      if next.Ok? {
        assert Started(next.value) != [] <==> Started(node) != [] || Fills(e);
        LinkFails(next.value, connected[1..], count);
      }
    }
  }

  /**
   * The relationship loops raise exactly when some node that is not a decision
   * meets a missing target after its `next_step_id` became non-empty; decision
   * nodes never raise.
   */
  lemma LinkedFails(nodes: seq<Node>, edges: seq<Edge>)
    ensures Linked(nodes, edges).Err? <==>
      exists i | 0 <= i < |nodes| :: !IsDecision(nodes[i]) && MissingAfterStart(Started(nodes[i]) != [], Connected(edges, nodes[i].id))
  {
    forall i | 0 <= i < |nodes| && !IsDecision(nodes[i])
      ensures Link(nodes[i], Connected(edges, nodes[i].id), 0).Err? <==>
        MissingAfterStart(Started(nodes[i]) != [], Connected(edges, nodes[i].id))
    {
      LinkFails(nodes[i], Connected(edges, nodes[i].id), 0);
    }
  }
}

/** `convert_neo4j_to_graph` of graph_utils: turns query records into an
    ordered node list and an ordered edge list for streamlit-agraph.

    The specification is a fold over the records (`Walk`) followed by the
    hub post-pass (`Hub`); `ConvertNeo4jToGraph` is the imperative converter
    with its nested loops, proved to compute exactly `Convert`. */
module GraphUtils {
  import opened Basics
  import opened Neo4jValues
  import opened Agraph

  // ---------------------------------------------------------------- styling

  /** The category colour table. */
  const CategoryColors: map<string, string> := map[
    "User" := "#FF6B6B",
    "Question" := "#4ECDC4",
    "Answer" := "#45B7D1",
    "Tag" := "#FFA62B",
    "Comment" := "#C04CFD"
  ]
  const DefaultColor := "#4ECDC4"

  const EntitySize := 25
  const ResultSize := 30
  const ScalarSize := 25
  const HubSize := 35

  const ResultColor := "#88C0D0"
  const ScalarColor := "#FFA62B"
  const HubColor := "#C04CFD"
  const EdgeColor := "#888"

  const LabelWidth := 20
  const HoverWidth := 200
  const Ellipsis := "..."

  const HubId := "center_node"
  const HubCaption := "Query Results"
  const HubTitle := "Grouped scalar values"
  const HubEdgeCaption := "related"

  /** The text properties the styler reads. Slicing or measuring anything
      but a string there raises, so they are required to be strings. */
  predicate TextProps(props: map<string, Prim>) {
    ("title" in props ==> props["title"].Str?) &&
    ("display_name" in props ==> props["display_name"].Str?) &&
    ("name" in props ==> props["name"].Str?) &&
    ("body_markdown" in props ==> props["body_markdown"].Str?)
  }

  /** `properties.get(key)` as a string, a missing key being as falsy as "". */
  function Text(props: map<string, Prim>, key: string): string
    requires TextProps(props)
    requires key in {"title", "display_name", "name", "body_markdown"}
  {
    if key in props then props[key].s else ""
  }

  /** `get("title") or get("display_name") or get("name") or label`. */
  function DisplayText(props: map<string, Prim>, category: string): string
    requires TextProps(props)
  {
    if Text(props, "title") != "" then Text(props, "title")
    else if Text(props, "display_name") != "" then Text(props, "display_name")
    else if Text(props, "name") != "" then Text(props, "name")
    else category
  }

  /** `s[:width]`. */
  function Prefix(s: string, width: nat): (p: string)
    ensures |p| <= width && p <= s
    ensures |s| <= width ==> p == s
    ensures |s| > width ==> |p| == width
  {
    if |s| <= width then s else s[..width]
  }

  /** `f"{label}: {display_label[:20]}"`. */
  function EntityCaption(labels: seq<string>, props: map<string, Prim>): (c: string)
    requires TextProps(props)
  {
    var category := PrimaryLabel(labels);
    category + ": " + Prefix(DisplayText(props, category), LabelWidth)
  }

  /** `s[:200] + "..." if len(s) > 200 else s`. */
  function Truncate(s: string): (r: string)
    ensures |r| <= HoverWidth + |Ellipsis|
    ensures |s| <= HoverWidth ==> r == s
    ensures |s| > HoverWidth ==>
      |r| == HoverWidth + |Ellipsis| && r[..HoverWidth] == s[..HoverWidth] && r[HoverWidth..] == Ellipsis
  {
    if |s| > HoverWidth then s[..HoverWidth] + Ellipsis else s
  }

  /** `get("body_markdown") or get("title") or ""`, truncated. */
  function Hover(props: map<string, Prim>): string
    requires TextProps(props)
  {
    var text := if Text(props, "body_markdown") != "" then Text(props, "body_markdown")
                else Text(props, "title");
    Truncate(text)
  }

  /** `color_map.get(label, "#4ECDC4")`. */
  function ColorFor(category: string): string {
    if category in CategoryColors then CategoryColors[category] else DefaultColor
  }

  /** The node built for the first entity met with a given id. */
  function EntityNode(v: Value): Node
    requires v.Entity? && TextProps(v.props)
  {
    Node(ShowInt(v.id), EntityCaption(v.labels, v.props), EntitySize,
         ColorFor(PrimaryLabel(v.labels)), Some(Hover(v.props)))
  }

  /** `all(isinstance(v, (str, int, float)) for v in record.values())`,
      true of the empty record. */
  predicate ScalarOnly(r: Record) {
    forall i :: 0 <= i < |r| ==> r[i].1.Scalar?
  }

  /** `f"record_{idx}"`. */
  function RecordKey(idx: nat): string {
    "record_" + ShowNat(idx)
  }

  /** The `f"{k}: {v}"` texts of a scalar-only record, in field order. */
  function FieldTexts(r: Record): (ts: seq<string>)
    requires ScalarOnly(r)
    ensures |ts| == |r|
  {
    seq(|r|, i requires 0 <= i < |r| => r[i].0 + ": " + ShowPrim(r[i].1.p))
  }

  /** The single "Result" node of the scalar-only record at position idx. */
  function ResultNode(idx: nat, r: Record): Node
    requires ScalarOnly(r)
  {
    Node(RecordKey(idx), "Result", ResultSize, ResultColor, Some(Join(FieldTexts(r), ", ")))
  }

  /** `f"{key}_{value}"`. */
  function ScalarKey(key: string, p: Prim): string {
    key + "_" + ShowPrim(p)
  }

  /** The node of a scalar field inside a mixed record. */
  function ScalarNode(key: string, p: Prim): Node {
    Node(ScalarKey(key, p), key + ": " + ShowPrim(p), ScalarSize, ScalarColor, Some(ShowPrim(p)))
  }

  function HubNode(): Node {
    Node(HubId, HubCaption, HubSize, HubColor, Some(HubTitle))
  }

  /** `Edge(source=center_id, target=nid, label="related")`: no colour. */
  function HubEdge(target: string): Edge {
    Edge(HubId, target, HubEdgeCaption, None)
  }

  // ---------------------------------------------------------- specification

  /** A value the styler can handle without raising. */
  predicate Styleable(v: Value) {
    v.Entity? ==> TextProps(v.props)
  }

  predicate FieldsStyleable(fs: seq<Field>) {
    forall i :: 0 <= i < |fs| ==> Styleable(fs[i].1)
  }

  predicate RecordsStyleable(records: seq<Record>) {
    forall i :: 0 <= i < |records| ==> FieldsStyleable(records[i])
  }

  /** One field of a record that is not scalar-only. */
  function StepField(s: Snapshot, f: Field): (r: Snapshot)
    requires Styleable(f.1)
    ensures s.Valid() ==> r.Valid()
    ensures s.Keyed() ==> r.Keyed()
  {
    match f.1
    case Entity(id, _, _) =>
      if ShowInt(id) in s.table then s else s.Put(ShowInt(id), EntityNode(f.1))
    case Rel(_, _, _) =>
      s.AddEdge(EdgeOf(f.1, EdgeColor))
    case Scalar(p) =>
      if ScalarKey(f.0, p) in s.table then s else s.Put(ScalarKey(f.0, p), ScalarNode(f.0, p))
    case Other =>
      s
  }

  /** The fields of a record that is not scalar-only, in order. */
  function StepFields(s: Snapshot, fs: seq<Field>): (r: Snapshot)
    requires FieldsStyleable(fs)
    ensures s.Valid() ==> r.Valid()
    ensures s.Keyed() ==> r.Keyed()
  {
    if fs == [] then s
    else StepField(StepFields(s, fs[..|fs| - 1]), fs[|fs| - 1])
  }

  /** The record at position idx. */
  function StepRecord(s: Snapshot, idx: nat, r: Record): (t: Snapshot)
    requires FieldsStyleable(r)
    ensures s.Valid() ==> t.Valid()
    ensures s.Keyed() ==> t.Keyed()
  {
    if ScalarOnly(r) then s.Put(RecordKey(idx), ResultNode(idx, r))
    else StepFields(s, r)
  }

  /** The state after the main loop over the records. */
  function Walk(records: seq<Record>): (s: Snapshot)
    requires RecordsStyleable(records)
    ensures s.Valid() && s.Keyed()
  {
    if records == [] then Empty
    else StepRecord(Walk(records[..|records| - 1]), |records| - 1, records[|records| - 1])
  }

  /** The hub edges for the dictionary keys `ids`, skipping the hub itself. */
  function HubEdges(ids: seq<string>): seq<Edge> {
    if ids == [] then []
    else
      var nid := ids[|ids| - 1];
      HubEdges(ids[..|ids| - 1]) + (if nid != HubId then [HubEdge(nid)] else [])
  }

  /** `nodes and not edges and len(nodes) > 1`. */
  predicate HubTriggered(s: Snapshot) {
    |s.keys| > 0 && s.edges == [] && |s.keys| > 1
  }

  /** The post-pass: add (or overwrite) the hub and join it to every other
      node. */
  function Hub(s: Snapshot): (r: Snapshot)
    ensures s.Valid() ==> r.Valid()
    ensures s.Keyed() ==> r.Keyed()
  {
    if HubTriggered(s) then
      var withHub := s.Put(HubId, HubNode());
      withHub.(edges := withHub.edges + HubEdges(withHub.keys))
    else s
  }

  /** What `convert_neo4j_to_graph(records)` returns. */
  function Convert(records: seq<Record>): (seq<Node>, seq<Edge>)
    requires RecordsStyleable(records)
  {
    var s := Hub(Walk(records));
    (s.Nodes(), s.edges)
  }

  // ---------------------------------------------------------- implementation

  lemma WalkSnoc(records: seq<Record>, i: nat)
    requires i < |records| && RecordsStyleable(records)
    ensures RecordsStyleable(records[..i]) && RecordsStyleable(records[..i + 1])
    ensures Walk(records[..i + 1]) == StepRecord(Walk(records[..i]), i, records[i])
  {
    assert records[..i + 1][..i] == records[..i];
  }

  lemma StepFieldsSnoc(s: Snapshot, fs: seq<Field>, j: nat)
    requires j < |fs| && FieldsStyleable(fs)
    ensures FieldsStyleable(fs[..j]) && FieldsStyleable(fs[..j + 1])
    ensures StepFields(s, fs[..j + 1]) == StepField(StepFields(s, fs[..j]), fs[j])
  {
    assert fs[..j + 1][..j] == fs[..j];
  }

  lemma HubEdgesSnoc(ids: seq<string>, i: nat)
    requires i < |ids|
    ensures HubEdges(ids[..i + 1]) ==
      HubEdges(ids[..i]) + (if ids[i] != HubId then [HubEdge(ids[i])] else [])
  {
    assert ids[..i + 1][..i] == ids[..i];
  }

  /** The body of the inner loop: a new entity node, one edge, or a new
      scalar node. */
  method AddField(g: GraphBuilder, f: Field)
    requires Styleable(f.1)
    modifies g
    ensures g.State() == StepField(old(g.State()), f)
  {
    var (key, value) := f;
    match value {
      case Entity(id, _, _) =>
        var nodeId := ShowInt(id);
        if nodeId !in g.table {
          g.Put(nodeId, EntityNode(value));
        }
      case Rel(_, _, _) =>
        g.Append(EdgeOf(value, EdgeColor));
      case Scalar(p) =>
        var nodeId := ScalarKey(key, p);
        if nodeId !in g.table {
          g.Put(nodeId, ScalarNode(key, p));
        }
      case Other =>
    }
  }

  /** The inner loop, `for key, value in record.items()`, over a record
      that is not scalar-only. */
  method AddFields(g: GraphBuilder, record: Record)
    requires FieldsStyleable(record)
    modifies g
    ensures g.State() == StepFields(old(g.State()), record)
  {
    ghost var before := g.State();
    var j := 0;
    while j < |record|
      invariant j <= |record|
      invariant g.State() == StepFields(before, record[..j])
    {
      StepFieldsSnoc(before, record, j);
      AddField(g, record[j]);
      j := j + 1;
    }
    assert record[..|record|] == record;
  }

  /** The post-pass: when triggered, write the hub and loop over the keys. */
  method AddHub(g: GraphBuilder)
    modifies g
    ensures g.State() == Hub(old(g.State()))
  {
    if |g.keys| > 0 && g.edges == [] && |g.keys| > 1 {
      g.Put(HubId, HubNode());
      ghost var withHub := g.State();
      var ids := g.keys;
      var i := 0;
      while i < |ids|
        invariant i <= |ids|
        invariant g.State() == withHub.(edges := withHub.edges + HubEdges(ids[..i]))
      {
        HubEdgesSnoc(ids, i);
        if ids[i] != HubId {
          g.Append(HubEdge(ids[i]));
        }
        i := i + 1;
      }
      assert ids[..|ids|] == ids;
    }
  }

  /** One pass of the outer loop: a scalar-only record becomes one result
      node, any other record goes through the inner loop. */
  method AddRecord(g: GraphBuilder, idx: nat, record: Record)
    requires FieldsStyleable(record)
    modifies g
    ensures g.State() == StepRecord(old(g.State()), idx, record)
  {
    if ScalarOnly(record) {
      g.Put(RecordKey(idx), ResultNode(idx, record));
    } else {
      AddFields(g, record);
    }
  }

  /** The converter as the source writes it: a loop over the records, an
      inner loop over the fields of each mixed record, then the hub pass. */
  method ConvertNeo4jToGraph(records: seq<Record>) returns (nodes: seq<Node>, edges: seq<Edge>)
    requires RecordsStyleable(records)
    ensures (nodes, edges) == Convert(records)
  {
    var g := new GraphBuilder();
    var idx := 0;
    while idx < |records|
      invariant idx <= |records|
      invariant RecordsStyleable(records[..idx])
      invariant g.State() == Walk(records[..idx])
    {
      WalkSnoc(records, idx);
      AddRecord(g, idx, records[idx]);
      idx := idx + 1;
    }
    assert records[..|records|] == records;
    AddHub(g);
    nodes := g.State().Nodes();
    edges := g.edges;
  }
}

/** The simpler converter of the chat front end: every entity becomes one
    node (the first one met with a given id wins), every relationship one
    edge, and every other value is ignored. Unlike the styled converter it
    walks the records' values as one flat stream, so it is specified by a
    fold over `Values(records)`. */
module StreamlitApp {
  import opened Basics
  import opened Neo4jValues
  import opened Agraph

  const NodeSize: nat := 25
  const NodeColor := "#4ECDC4"
  const EdgeColor := "#999"

  /** `Node(id=str(id), label=f"{label}:{id}", size=25, color="#4ECDC4")`,
      with no hover text. */
  function NodeFor(v: Value): Node
    requires v.Entity?
  {
    Node(ShowInt(v.id), PrimaryLabel(v.labels) + ":" + ShowInt(v.id), NodeSize, NodeColor, None)
  }

  /** One value of one record. */
  function Step(s: Snapshot, v: Value): Snapshot {
    match v
    case Entity(_, _, _) =>
      if ShowInt(v.id) in s.table then s else s.Put(ShowInt(v.id), NodeFor(v))
    case Rel(_, _, _) => s.AddEdge(EdgeOf(v, EdgeColor))
    case _ => s
  }

  /** The state after a stream of values, starting from `{}` and `[]`. */
  function Walk(vals: seq<Value>): (s: Snapshot)
    ensures s.Valid() && s.Keyed()
  {
    if vals == [] then Empty else Step(Walk(vals[..|vals| - 1]), vals[|vals| - 1])
  }

  lemma WalkSnoc(vals: seq<Value>, v: Value)
    ensures Walk(vals + [v]) == Step(Walk(vals), v)
  {
    assert (vals + [v])[..|vals|] == vals;
  }

  /** `(list(nodes.values()), edges)` after all records. */
  function Convert(records: seq<Record>): (seq<Node>, seq<Edge>) {
    var s := Walk(Values(records));
    (s.Nodes(), s.edges)
  }

  /** The body of the inner loop: `nodes[node_id] = Node(...)` for an entity
      whose id is new, `edges.append(Edge(...))` for a relationship. */
  method AddValue(g: GraphBuilder, value: Value)
    modifies g
    ensures g.State() == Step(old(g.State()), value)
  {
    match value {
      case Entity(_, _, _) =>
        var nodeId := ShowInt(value.id);
        if nodeId !in g.table {
          g.Put(nodeId, NodeFor(value));
        }
      case Rel(_, _, _) =>
        g.Append(EdgeOf(value, EdgeColor));
      case _ =>
    }
  }

  /** The inner loop over one record's values, after the values `done`. */
  method AddRecord(g: GraphBuilder, ghost done: seq<Value>, record: Record)
    requires g.State() == Walk(done)
    modifies g
    ensures g.State() == Walk(done + FieldValues(record))
  {
    assert done + FieldValues(record[..0]) == done;
    for j := 0 to |record|
      invariant g.State() == Walk(done + FieldValues(record[..j]))
    {
      ghost var before := done + FieldValues(record[..j]);
      AddValue(g, record[j].1);
      WalkSnoc(before, record[j].1);
      FieldValuesSnoc(record, j);
      assert before + [record[j].1] == done + FieldValues(record[..j + 1]);
    }
    assert record[..|record|] == record;
  }

  /** The converter as the front end runs it: two nested loops over a node
      dictionary and an edge list. */
  method ConvertNeo4jToGraph(records: seq<Record>) returns (nodes: seq<Node>, edges: seq<Edge>)
    ensures (nodes, edges) == Convert(records)
  {
    var g := new GraphBuilder();
    for i := 0 to |records|
      invariant g.State() == Walk(Values(records[..i]))
    {
      AddRecord(g, Values(records[..i]), records[i]);
      assert records[..i + 1] == records[..i] + [records[i]];
      ValuesSnoc(records[..i], records[i]);
    }
    assert records[..|records|] == records;
    var s := g.State();
    nodes, edges := s.Nodes(), s.edges;
  }
}

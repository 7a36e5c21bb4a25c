/** The visualisation side: the `Node` and `Edge` records of streamlit-agraph,
    and the state both converters build while they walk the records, a
    `nodes` dictionary (insertion-ordered) and an `edges` list. */
module Agraph {
  import opened Basics
  import opened Neo4jValues

  /** `Node(id=..., label=..., size=..., color=..., title=...)`; `caption`
      is agraph's `label` (a Dafny keyword) and `title` is the hover text,
      absent when the caller does not pass it. */
  datatype Node = Node(id: string, caption: string, size: nat, color: string, title: Option<string>)

  /** `Edge(source=..., target=..., label=..., color=...)`; `caption` is
      agraph's `label`, and `color` is absent when the caller does not pass
      it. */
  datatype Edge = Edge(source: string, target: string, caption: string, color: Option<string>)

  /** A value picture of the converter state: the dictionary's keys in
      insertion order, the key-to-node table, and the edge list. */
  datatype Snapshot = Snapshot(keys: seq<string>, table: map<string, Node>, edges: seq<Edge>) {

    /** A Python dict: each key once, and the key list and the table agree. */
    ghost predicate Valid() {
      (forall i, j :: 0 <= i < j < |keys| ==> keys[i] != keys[j]) &&
      (forall k :: k in table <==> k in keys)
    }

    /** Every node is stored under its own id. */
    ghost predicate Keyed() {
      forall k :: k in table ==> table[k].id == k
    }

    /** `nodes[k] = n`: a new key goes to the end, an existing key keeps its
        place and gets the new node. */
    function Put(k: string, n: Node): (r: Snapshot)
      ensures k in r.table && r.table[k] == n
      ensures forall k' :: k' != k ==> (k' in r.table <==> k' in table)
      ensures forall k' :: k' != k && k' in table ==> r.table[k'] == table[k']
      ensures r.edges == edges
      ensures Valid() ==> r.Valid()
      ensures Keyed() && n.id == k ==> r.Keyed()
      ensures Valid() && k in table ==> r.keys == keys
      ensures Valid() && k !in table ==> r.keys == keys + [k]
    {
      if k in table then this.(table := table[k := n])
      else Snapshot(keys + [k], table[k := n], edges)
    }

    /** `edges.append(e)`. */
    function AddEdge(e: Edge): Snapshot {
      this.(edges := edges + [e])
    }

    /** `list(nodes.values())`: the nodes in key-insertion order. */
    function Nodes(): seq<Node>
      requires Valid()
    {
      seq(|keys|, i requires 0 <= i < |keys| => table[keys[i]])
    }
  }

  const Empty := Snapshot([], map[], [])

  /** The ids of a node list, in order. */
  function Ids(ns: seq<Node>): (ids: seq<string>)
    ensures |ids| == |ns|
    ensures forall i :: 0 <= i < |ns| ==> ids[i] == ns[i].id
  {
    seq(|ns|, i requires 0 <= i < |ns| => ns[i].id)
  }

  /** A valid, keyed snapshot lists each key's node exactly once, under that
      key, in insertion order, and nothing else. */
  lemma NodesOfKeyed(s: Snapshot)
    requires s.Valid() && s.Keyed()
    ensures Ids(s.Nodes()) == s.keys
    ensures forall k :: k in s.table ==> s.table[k] in s.Nodes()
    ensures forall i, j :: 0 <= i < j < |s.Nodes()| ==> s.Nodes()[i].id != s.Nodes()[j].id
  {
    var ns := s.Nodes();
    forall k | k in s.table ensures s.table[k] in ns {
      var i :| 0 <= i < |s.keys| && s.keys[i] == k;
      assert ns[i] == s.table[k];
    }
  }

  /** `Edge(source=str(start_node.id), target=str(end_node.id), label=type, color=color)`. */
  function EdgeOf(v: Value, color: string): (e: Edge)
    requires v.Rel?
  {
    Edge(ShowInt(v.startId), ShowInt(v.endId), v.relType, Some(color))
  }

  /** One edge per relationship value, in the order the values come: no
      de-duplication, no self-loop suppression. */
  function RelEdges(vals: seq<Value>, color: string): (es: seq<Edge>)
    ensures |es| == RelCount(vals)
  {
    if vals == [] then []
    else
      var v := vals[|vals| - 1];
      RelEdges(vals[..|vals| - 1], color) + (if v.Rel? then [EdgeOf(v, color)] else [])
  }

  lemma RelEdgesSnoc(vals: seq<Value>, v: Value, color: string)
    ensures RelEdges(vals + [v], color) ==
      RelEdges(vals, color) + (if v.Rel? then [EdgeOf(v, color)] else [])
  {
    assert (vals + [v])[..|vals|] == vals;
  }

  /** Each relationship value at position i, with r relationships before it,
      is rendered as edge r; this is how duplicates and self-loops survive. */
  lemma {:induction false} RelEdgesAt(vals: seq<Value>, color: string, i: nat)
    requires i < |vals| && vals[i].Rel?
    ensures RelCount(vals[..i]) < |RelEdges(vals, color)|
    ensures RelEdges(vals, color)[RelCount(vals[..i])] == EdgeOf(vals[i], color)
    decreases |vals|
  {
    var init := vals[..|vals| - 1];
    if i == |vals| - 1 {
      assert vals[..i] == init;
    } else {
      assert init[..i] == vals[..i];
      RelEdgesAt(init, color, i);
    }
  }

  /** The mutable converter state: `nodes` as an insertion-ordered key list
      and a table, and `edges` as a list. */
  class GraphBuilder {
    var keys: seq<string>
    var table: map<string, Node>
    var edges: seq<Edge>

    function State(): Snapshot
      reads this
    {
      Snapshot(keys, table, edges)
    }

    /** `nodes = {}` and `edges = []`. */
    constructor ()
      ensures State() == Empty
    {
      keys, table, edges := [], map[], [];
    }

    /** `nodes[k] = n`. */
    method Put(k: string, n: Node)
      modifies this
      ensures State() == old(State()).Put(k, n)
    {
      if k !in table {
        keys := keys + [k];
      }
      table := table[k := n];
    }

    /** `edges.append(e)`. */
    method Append(e: Edge)
      modifies this
      ensures State() == old(State()).AddEdge(e)
    {
      edges := edges + [e];
    }
  }
}

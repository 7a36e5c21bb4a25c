/** What the front end's converter guarantees: each entity id yields one
    node, the one built from its first occurrence; nodes come out in the
    order their ids first appear; every relationship yields one edge, in
    order; and scalars and other values leave the result unchanged. */
module StreamlitAppProofs {
  import opened Basics
  import opened Neo4jValues
  import opened Agraph
  import opened StreamlitApp

  /** After a stream of values, the table holds `k` exactly when some entity
      has id `k`, and then the node built from the first such entity. */
  lemma {:induction false} WalkTable(vals: seq<Value>, k: string)
    ensures k in Walk(vals).table <==> FirstEntityIndex(vals, k).Some?
    ensures FirstEntityIndex(vals, k).Some? ==>
      Walk(vals).table[k] == NodeFor(vals[FirstEntityIndex(vals, k).value])
    decreases |vals|
  {
    if vals != [] {
      var init, last := vals[..|vals| - 1], vals[|vals| - 1];
      assert vals == init + [last];
      WalkTable(init, k);
      FirstEntityIndexSnoc(init, last, k);
    }
  }

  /** Entity first-write-wins: a node with id `k` is in the output exactly when
      some entity has id `str(k)`, and it is the node of the first one. */
  lemma EntityFirstWins(records: seq<Record>, k: string)
    ensures var vals := Values(records);
      var first := FirstEntityIndex(vals, k);
      (k in Ids(Convert(records).0) <==> first.Some?) &&
      (first.Some? ==> NodeFor(vals[first.value]) in Convert(records).0)
  {
    var s := Walk(Values(records));
    WalkTable(Values(records), k);
    NodesOfKeyed(s);
  }

  /** No two output nodes share an id. */
  lemma NodeIdsUnique(records: seq<Record>)
    ensures var nodes := Convert(records).0;
      forall i, j :: 0 <= i < j < |nodes| ==> nodes[i].id != nodes[j].id
  {
    NodesOfKeyed(Walk(Values(records)));
  }

  /** Only entities make nodes. */
  lemma {:induction false} WalkKeysBound(vals: seq<Value>)
    ensures |Walk(vals).keys| <= EntityCount(vals)
    decreases |vals|
  {
    if vals != [] {
      WalkKeysBound(vals[..|vals| - 1]);
    }
  }

  lemma NodeCountBound(records: seq<Record>)
    ensures |Convert(records).0| <= EntityCount(Values(records))
  {
    WalkKeysBound(Values(records));
  }

  /** The edge list is one edge per relationship, in order, coloured #999. */
  lemma {:induction false} WalkEdges(vals: seq<Value>)
    ensures Walk(vals).edges == RelEdges(vals, EdgeColor)
    decreases |vals|
  {
    if vals != [] {
      WalkEdges(vals[..|vals| - 1]);
    }
  }

  lemma ConvertEdges(records: seq<Record>)
    ensures Convert(records).1 == RelEdges(Values(records), "#999")
    ensures |Convert(records).1| == RelCount(Values(records))
  {
    WalkEdges(Values(records));
  }

  /** The relationship at position i of the value stream, with r
      relationships before it, is edge r: duplicates and self-loops are kept
      and no endpoint node is created for it. */
  lemma RelationshipEdge(records: seq<Record>, i: nat)
    requires i < |Values(records)| && Values(records)[i].Rel?
    ensures var vals := Values(records);
      var edges := Convert(records).1;
      RelCount(vals[..i]) < |edges| &&
      edges[RelCount(vals[..i])] == Edge(ShowInt(vals[i].startId), ShowInt(vals[i].endId), vals[i].relType, Some("#999"))
  {
    WalkEdges(Values(records));
    RelEdgesAt(Values(records), EdgeColor, i);
  }

  /** Every key is the id of some entity among `vals`, and the keys are in
      the order the ids first appear there. */
  ghost predicate FirstOrdered(vals: seq<Value>, keys: seq<string>) {
    (forall i :: 0 <= i < |keys| ==> FirstEntityIndex(vals, keys[i]).Some?) &&
    (forall i, j :: 0 <= i < j < |keys| ==>
      FirstEntityIndex(vals, keys[i]).value < FirstEntityIndex(vals, keys[j]).value)
  }

  /** Keys whose first occurrence one more value leaves unchanged stay
      ordered. */
  lemma OrderedKeep(init: seq<Value>, vals: seq<Value>, keys: seq<string>)
    requires FirstOrdered(init, keys)
    requires forall x :: 0 <= x < |keys| ==> FirstEntityIndex(vals, keys[x]) == FirstEntityIndex(init, keys[x])
    ensures FirstOrdered(vals, keys)
  {
  }

  /** A new key whose first occurrence comes after every other key's stays
      ordered at the end. */
  lemma OrderedAppend(vals: seq<Value>, keys: seq<string>, k: string)
    requires FirstOrdered(vals, keys) && FirstEntityIndex(vals, k).Some?
    requires forall x :: 0 <= x < |keys| ==>
      FirstEntityIndex(vals, keys[x]).value < FirstEntityIndex(vals, k).value
    ensures FirstOrdered(vals, keys + [k])
  {
    var ks := keys + [k];
    forall i | 0 <= i < |ks|
      ensures FirstEntityIndex(vals, ks[i]).Some?
    {
      if i < |keys| { assert ks[i] == keys[i]; } else { assert ks[i] == k; }
    }
    forall i, j | 0 <= i < j < |ks|
      ensures FirstEntityIndex(vals, ks[i]).value < FirstEntityIndex(vals, ks[j]).value
    {
      assert ks[i] == keys[i];
      if j < |keys| { assert ks[j] == keys[j]; } else { assert ks[j] == k; }
    }
  }

  lemma {:induction false} WalkOrder(vals: seq<Value>)
    ensures FirstOrdered(vals, Walk(vals).keys)
    decreases |vals|
  {
    if vals != [] {
      var init, last := vals[..|vals| - 1], vals[|vals| - 1];
      assert vals == init + [last];
      WalkOrder(init);
      var s0, s := Walk(init), Walk(vals);
      forall x | 0 <= x < |s0.keys|
        ensures FirstEntityIndex(vals, s0.keys[x]) == FirstEntityIndex(init, s0.keys[x])
        ensures FirstEntityIndex(init, s0.keys[x]).value < |init|
      {
        WalkTable(init, s0.keys[x]);
        FirstEntityIndexSnoc(init, last, s0.keys[x]);
      }
      var k := if last.Entity? then ShowInt(last.id) else "";
      if s.keys != s0.keys {
        WalkTable(init, k);
        FirstEntityIndexSnoc(init, last, k);
      }
      OrderedKeep(init, vals, s0.keys);
      if s.keys != s0.keys {
        OrderedAppend(vals, s0.keys, k);
      }
    }
  }

  /** Nodes come out in the order their ids first appear among the values. */
  lemma NodeOrder(records: seq<Record>, i: nat, j: nat)
    requires i < j < |Convert(records).0|
    ensures var vals := Values(records);
      var nodes := Convert(records).0;
      FirstEntityIndex(vals, nodes[i].id).Some? && FirstEntityIndex(vals, nodes[j].id).Some? &&
      FirstEntityIndex(vals, nodes[i].id).value < FirstEntityIndex(vals, nodes[j].id).value
  {
    var s := Walk(Values(records));
    NodesOfKeyed(s);
    WalkOrder(Values(records));
    assert Ids(s.Nodes())[i] == s.keys[i] && Ids(s.Nodes())[j] == s.keys[j];
  }

  /** Values that are neither entities nor relationships change nothing. */
  lemma {:induction false} WalkIgnores(vals: seq<Value>, more: seq<Value>)
    requires forall i :: 0 <= i < |more| ==> !more[i].Entity? && !more[i].Rel?
    ensures Walk(vals + more) == Walk(vals)
    decreases |more|
  {
    if more == [] {
      assert vals + more == vals;
    } else {
      var init := more[..|more| - 1];
      assert vals + more == (vals + init) + [more[|more| - 1]];
      WalkIgnores(vals, init);
      WalkSnoc(vals + init, more[|more| - 1]);
    }
  }

  /** A record made only of scalars and other values adds nothing to the
      graph. */
  lemma RecordWithoutGraphValues(records: seq<Record>, r: Record)
    requires forall j :: 0 <= j < |r| ==> !r[j].1.Entity? && !r[j].1.Rel?
    ensures Convert(records + [r]) == Convert(records)
  {
    ValuesSnoc(records, r);
    WalkIgnores(Values(records), FieldValues(r));
  }
}

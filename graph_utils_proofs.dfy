/** What `convert_neo4j_to_graph` of graph_utils guarantees, proved about
    its specification `GraphUtils.Convert` (and so, through the method's
    postcondition, about `GraphUtils.ConvertNeo4jToGraph`). */
module GraphUtilsProofs {
  import opened Basics
  import opened Neo4jValues
  import opened Agraph
  import opened GraphUtils

  // ------------------------------------------------------------- the keys

  lemma UnderscoreBetween(a: string, b: string)
    ensures '_' in a + "_" + b
  {
    assert (a + "_" + b)[|a|] == '_';
  }

  lemma RecordKeyHasUnderscore(idx: nat)
    ensures '_' in RecordKey(idx)
  {
    assert RecordKey(idx)[6] == '_';
  }

  lemma HubIdHasUnderscore()
    ensures '_' in HubId
  {
    assert HubId[6] == '_';
  }

  /** Two records at different positions never share a "Result" key. */
  lemma RecordKeyInjective(a: nat, b: nat)
    requires RecordKey(a) == RecordKey(b)
    ensures a == b
  {
    assert RecordKey(a)[7..] == ShowNat(a);
    assert RecordKey(b)[7..] == ShowNat(b);
    ShowNatInjective(a, b);
  }

  lemma HubIdIsNoRecordKey(idx: nat)
    ensures HubId != RecordKey(idx)
  {
    assert HubId[0] != RecordKey(idx)[0];
  }

  // ---------------------------------------------- every step keeps entries

  /** `a` is kept inside `b`: its keys are a prefix of `b`'s, and every
      entry it has is still there, unchanged. */
  ghost predicate Kept(a: Snapshot, b: Snapshot) {
    a.keys <= b.keys &&
    forall k :: k in a.table ==> k in b.table && b.table[k] == a.table[k]
  }

  /** Writing a new key keeps every node already there. */
  lemma PutNewKeeps(s: Snapshot, k: string, n: Node)
    requires s.Valid() && k !in s.table
    ensures Kept(s, s.Put(k, n))
  {
    var t := s.Put(k, n);
    assert t.keys == s.keys + [k];
    forall k' | k' in s.table ensures k' in t.table && t.table[k'] == s.table[k'] {
      assert k' != k;
    }
  }

  /** A mixed-record field never removes, moves or rewrites a node. */
  lemma StepFieldKeeps(s: Snapshot, f: Field)
    requires s.Valid() && Styleable(f.1)
    ensures Kept(s, StepField(s, f))
  {
    match f.1
    case Entity(id, _, _) =>
      if ShowInt(id) !in s.table {
        PutNewKeeps(s, ShowInt(id), EntityNode(f.1));
      }
    case Rel(_, _, _) =>
      assert StepField(s, f) == s.AddEdge(EdgeOf(f.1, EdgeColor));
    case Scalar(p) =>
      if ScalarKey(f.0, p) !in s.table {
        PutNewKeeps(s, ScalarKey(f.0, p), ScalarNode(f.0, p));
      }
    case Other =>
  }

  lemma {:induction false} StepFieldsKeeps(s: Snapshot, fs: seq<Field>)
    requires s.Valid() && FieldsStyleable(fs)
    ensures Kept(s, StepFields(s, fs))
    decreases |fs|
  {
    if fs != [] {
      var init := fs[..|fs| - 1];
      assert FieldsStyleable(init);
      StepFieldsKeeps(s, init);
      StepFieldKeeps(StepFields(s, init), fs[|fs| - 1]);
    }
  }

  // ------------------------------------------------------------- entities

  ghost predicate AllStyleable(vals: seq<Value>) {
    forall i :: 0 <= i < |vals| ==> Styleable(vals[i])
  }

  /** The entity part of the state after `vals`: a key without an
      underscore is present exactly when some entity renders to it, and it
      holds the node built from the FIRST such entity. */
  ghost predicate FirstEntitiesShown(s: Snapshot, vals: seq<Value>)
    requires AllStyleable(vals)
  {
    (forall k :: '_' !in k ==> (k in s.table <==> FirstEntityIndex(vals, k).Some?)) &&
    (forall k :: '_' !in k && k in s.table && FirstEntityIndex(vals, k).Some? ==>
       s.table[k] == EntityNode(vals[FirstEntityIndex(vals, k).value]))
  }

  lemma AllStyleableSnoc(vals: seq<Value>, v: Value)
    requires AllStyleable(vals) && Styleable(v)
    ensures AllStyleable(vals + [v])
  {
    var vs := vals + [v];
    forall i | 0 <= i < |vs| ensures Styleable(vs[i]) {
      if i < |vals| { assert vs[i] == vals[i]; }
    }
  }

  lemma ShownStepField(s: Snapshot, vals: seq<Value>, f: Field)
    requires AllStyleable(vals) && Styleable(f.1) && FirstEntitiesShown(s, vals)
    ensures AllStyleable(vals + [f.1]) && FirstEntitiesShown(StepField(s, f), vals + [f.1])
  {
    var v := f.1;
    var vs := vals + [v];
    var t := StepField(s, f);
    AllStyleableSnoc(vals, v);
    forall k | '_' !in k
      ensures (k in t.table <==> FirstEntityIndex(vs, k).Some?)
      ensures k in t.table && FirstEntityIndex(vs, k).Some? ==>
        t.table[k] == EntityNode(vs[FirstEntityIndex(vs, k).value])
    {
      FirstEntityIndexSnoc(vals, v, k);
      var earlier := FirstEntityIndex(vals, k);
      if earlier.Some? {
        assert vs[earlier.value] == vals[earlier.value];
      }
      match v
      case Entity(id, _, _) => ShowIntNoUnderscore(id);
      case Scalar(p) => UnderscoreBetween(f.0, ShowPrim(p));
      case Rel(_, _, _) =>
      case Other =>
    }
  }

  lemma {:induction false} ShownStepFields(s: Snapshot, vals: seq<Value>, fs: seq<Field>)
    requires AllStyleable(vals) && FieldsStyleable(fs) && FirstEntitiesShown(s, vals)
    ensures AllStyleable(vals + FieldValues(fs)) && FirstEntitiesShown(StepFields(s, fs), vals + FieldValues(fs))
    decreases |fs|
  {
    if fs == [] {
      assert vals + FieldValues(fs) == vals;
    } else {
      var n := |fs| - 1;
      var init := fs[..n];
      assert FieldsStyleable(init);
      ShownStepFields(s, vals, init);
      var before := vals + FieldValues(init);
      assert vals + FieldValues(fs) == before + [fs[n].1] by {
        FieldValuesLast(fs);
      }
      ShownStepField(StepFields(s, init), before, fs[n]);
    }
  }

  /** A record's values are styleable when its fields are. */
  lemma StyleableAppend(vals: seq<Value>, r: Record)
    requires AllStyleable(vals) && FieldsStyleable(r)
    ensures AllStyleable(vals + FieldValues(r))
  {
    var vs := vals + FieldValues(r);
    forall i | 0 <= i < |vs| ensures Styleable(vs[i]) {
      if i < |vals| { assert vs[i] == vals[i]; } else { assert vs[i] == r[i - |vals|].1; }
    }
  }

  lemma ShownStepRecord(s: Snapshot, vals: seq<Value>, idx: nat, r: Record)
    requires AllStyleable(vals) && FieldsStyleable(r) && FirstEntitiesShown(s, vals)
    ensures AllStyleable(vals + FieldValues(r)) && FirstEntitiesShown(StepRecord(s, idx, r), vals + FieldValues(r))
  {
    if ScalarOnly(r) {
      var vs := vals + FieldValues(r);
      var t := StepRecord(s, idx, r);
      StyleableAppend(vals, r);
      RecordKeyHasUnderscore(idx);
      forall k | '_' !in k
        ensures (k in t.table <==> FirstEntityIndex(vs, k).Some?)
        ensures k in t.table && FirstEntityIndex(vs, k).Some? ==>
          t.table[k] == EntityNode(vs[FirstEntityIndex(vs, k).value])
      {
        FirstEntityIndexNoEntities(vals, FieldValues(r), k);
        var first := FirstEntityIndex(vals, k);
        if first.Some? {
          assert vs[first.value] == vals[first.value];
        }
      }
    } else {
      ShownStepFields(s, vals, r);
    }
  }

  lemma {:induction false} ShownWalk(records: seq<Record>)
    requires RecordsStyleable(records)
    ensures AllStyleable(Values(records)) && FirstEntitiesShown(Walk(records), Values(records))
    decreases |records|
  {
    if records != [] {
      var n := |records| - 1;
      var init := records[..n];
      ShownWalk(init);
      ShownStepRecord(Walk(init), Values(init), n, records[n]);
    }
  }

  lemma ShownHub(s: Snapshot, vals: seq<Value>)
    requires AllStyleable(vals) && FirstEntitiesShown(s, vals)
    ensures FirstEntitiesShown(Hub(s), vals)
  {
    HubIdHasUnderscore();
  }

  /** One node per entity id, and the first one wins: the output holds a
      node with id `str(e)` exactly when some field value is an entity with
      that id, and that node is the one styled from the FIRST such entity
      (its caption, colour, size and hover text are never recomputed). */
  lemma EntityFirstWins(records: seq<Record>, e: int)
    requires RecordsStyleable(records)
    ensures AllStyleable(Values(records))
    ensures ShowInt(e) in Ids(Convert(records).0) <==> FirstEntityIndex(Values(records), ShowInt(e)).Some?
    ensures FirstEntityIndex(Values(records), ShowInt(e)).Some? ==>
      EntityNode(Values(records)[FirstEntityIndex(Values(records), ShowInt(e)).value]) in Convert(records).0
  {
    ShownWalk(records);
    var s := Hub(Walk(records));
    ShownHub(Walk(records), Values(records));
    NodesOfKeyed(s);
    ShowIntNoUnderscore(e);
  }

  /** No two output nodes share an id. */
  lemma NodeIdsUnique(records: seq<Record>)
    requires RecordsStyleable(records)
    ensures forall i, j :: 0 <= i < j < |Convert(records).0| ==>
      Convert(records).0[i].id != Convert(records).0[j].id
  {
    NodesOfKeyed(Hub(Walk(records)));
  }

  // --------------------------------------------------- scalar-only records

  /** The scalar-only records among `rs` each have their "Result" node. */
  ghost predicate ResultsShown(s: Snapshot, rs: seq<Record>) {
    forall j :: 0 <= j < |rs| && ScalarOnly(rs[j]) ==>
      RecordKey(j) in s.table && s.table[RecordKey(j)] == ResultNode(j, rs[j])
  }

  /** Record n keeps the "Result" nodes of the records before it, and adds
      its own when it is scalar-only. */
  lemma ResultsShownStep(s: Snapshot, rs: seq<Record>, n: nat)
    requires s.Valid() && n < |rs| && FieldsStyleable(rs[n]) && ResultsShown(s, rs[..n])
    ensures ResultsShown(StepRecord(s, n, rs[n]), rs[..n + 1])
  {
    var t := StepRecord(s, n, rs[n]);
    if ScalarOnly(rs[n]) {
      forall j | 0 <= j < n ensures RecordKey(j) != RecordKey(n) {
        if RecordKey(j) == RecordKey(n) { RecordKeyInjective(j, n); }
      }
    } else {
      StepFieldsKeeps(s, rs[n]);
    }
    forall j | 0 <= j < n + 1 && ScalarOnly(rs[..n + 1][j])
      ensures RecordKey(j) in t.table && t.table[RecordKey(j)] == ResultNode(j, rs[..n + 1][j])
    {
      assert rs[..n + 1][j] == rs[j];
      if j < n { assert rs[..n][j] == rs[j]; }
    }
  }

  lemma {:induction false} ResultsShownWalk(records: seq<Record>)
    requires RecordsStyleable(records)
    ensures ResultsShown(Walk(records), records)
    decreases |records|
  {
    if records != [] {
      var n := |records| - 1;
      ResultsShownWalk(records[..n]);
      ResultsShownStep(Walk(records[..n]), records, n);
      assert records[..n + 1] == records;
    }
  }

  /** A scalar-only record at position idx (an empty record included) is
      shown as node `record_{idx}`: caption "Result", size 30, colour
      #88C0D0, hover text the ", "-join of its "key: value" texts in field
      order. Nothing later overwrites it. */
  lemma ScalarRecordShown(records: seq<Record>, idx: nat)
    requires RecordsStyleable(records)
    requires idx < |records| && ScalarOnly(records[idx])
    ensures ResultNode(idx, records[idx]) in Convert(records).0
    ensures ResultNode(idx, records[idx]) ==
      Node("record_" + ShowNat(idx), "Result", 30, "#88C0D0", Some(Join(FieldTexts(records[idx]), ", ")))
  {
    ResultsShownWalk(records);
    HubIdIsNoRecordKey(idx);
    var s := Hub(Walk(records));
    assert RecordKey(idx) in s.table && s.table[RecordKey(idx)] == ResultNode(idx, records[idx]);
    NodesOfKeyed(s);
  }

  /** The text of each field of a scalar-only record, in field order. */
  lemma FieldTextsAt(r: Record, i: nat)
    requires ScalarOnly(r) && i < |r|
    ensures FieldTexts(r)[i] == r[i].0 + ": " + ShowPrim(r[i].1.p)
  {
  }

  // ------------------------------------------------- mixed scalar fields

  /** A scalar field of a mixed record adds node `{key}_{value}` (caption
      "key: value", size 25, colour #FFA62B, hover `str(value)`) only when
      that id is absent; any other shape of value (`Other`) changes
      nothing. */
  lemma ScalarFieldStep(s: Snapshot, key: string, v: Value)
    requires s.Valid() && (v.Scalar? || v.Other?)
    ensures v.Other? ==> StepField(s, (key, v)) == s
    ensures v.Scalar? && ScalarKey(key, v.p) in s.table ==> StepField(s, (key, v)) == s
    ensures v.Scalar? && ScalarKey(key, v.p) !in s.table ==>
      var t := StepField(s, (key, v));
      t.keys == s.keys + [key + "_" + ShowPrim(v.p)] && t.edges == s.edges &&
      t.table == s.table[key + "_" + ShowPrim(v.p) :=
        Node(key + "_" + ShowPrim(v.p), key + ": " + ShowPrim(v.p), 25, "#FFA62B", Some(ShowPrim(v.p)))]
  {
  }

  /** The keys of `a` come first, in order, in `b`, and none is lost. */
  ghost predicate Grows(a: Snapshot, b: Snapshot) {
    a.keys <= b.keys && forall k :: k in a.table ==> k in b.table
  }

  lemma StepRecordGrows(s: Snapshot, idx: nat, r: Record)
    requires s.Valid() && FieldsStyleable(r)
    ensures Grows(s, StepRecord(s, idx, r))
  {
    if !ScalarOnly(r) {
      StepFieldsKeeps(s, r);
    }
  }

  lemma HubGrows(s: Snapshot)
    requires s.Valid()
    ensures Grows(s, Hub(s))
  {
  }

  /** Later records only add keys after the ones already there. */
  lemma {:induction false} WalkGrows(records: seq<Record>, i: nat)
    requires RecordsStyleable(records) && i <= |records|
    ensures RecordsStyleable(records[..i]) && Grows(Walk(records[..i]), Walk(records))
    decreases |records| - i
  {
    if i == |records| {
      assert records[..i] == records;
    } else {
      WalkGrows(records, i + 1);
      WalkSnoc(records, i);
      StepRecordGrows(Walk(records[..i]), i, records[i]);
    }
  }

  /** Later fields of a record keep every node the earlier ones made. */
  lemma {:induction false} StepFieldsPrefixKept(s: Snapshot, fs: seq<Field>, j: nat)
    requires s.Valid() && FieldsStyleable(fs) && j <= |fs|
    ensures FieldsStyleable(fs[..j]) && Kept(StepFields(s, fs[..j]), StepFields(s, fs))
    decreases |fs| - j
  {
    if j == |fs| {
      assert fs[..j] == fs;
    } else {
      StepFieldsPrefixKept(s, fs, j + 1);
      StepFieldsSnoc(s, fs, j);
      StepFieldKeeps(StepFields(s, fs[..j]), fs[j]);
    }
  }

  /** Every scalar field of a record that is not scalar-only leaves a node
      with id `{key}_{value}` in the output. */
  lemma ScalarFieldShown(records: seq<Record>, i: nat, j: nat)
    requires RecordsStyleable(records) && i < |records| && !ScalarOnly(records[i])
    requires j < |records[i]| && records[i][j].1.Scalar?
    ensures records[i][j].0 + "_" + ShowPrim(records[i][j].1.p) in Ids(Convert(records).0)
  {
    WalkSnoc(records, i);
    ScalarFieldInRecord(Walk(records[..i]), records[i], j);
    WalkGrows(records, i + 1);
    HubGrows(Walk(records));
    NodesOfKeyed(Hub(Walk(records)));
  }

  /** Within one mixed record, a scalar field's node survives the rest of
      the record. */
  lemma ScalarFieldInRecord(s: Snapshot, r: Record, j: nat)
    requires s.Valid() && FieldsStyleable(r) && j < |r| && r[j].1.Scalar?
    ensures ScalarKey(r[j].0, r[j].1.p) in StepFields(s, r).table
  {
    StepFieldsSnoc(s, r, j);
    StepFieldsPrefixKept(s, r, j + 1);
  }

  /** Nodes come out in first-insertion order: the node list before the
      records from position i on are processed is a prefix of the output's
      node ids. */
  lemma InsertionOrder(records: seq<Record>, i: nat)
    requires RecordsStyleable(records) && i <= |records|
    ensures RecordsStyleable(records[..i])
    ensures Walk(records[..i]).keys <= Ids(Convert(records).0)
  {
    WalkGrows(records, i);
    HubGrows(Walk(records));
    NodesOfKeyed(Hub(Walk(records)));
  }

  // ------------------------------------------------------------- styling

  /** The entity node's style: id `str(id)`, size 25, the category being
      the first label (or "Node" when there is none), colour from the
      category table (`ColorTable`), caption `"{category}: "` followed by at
      most 20 characters that are a prefix of the first non-empty of title,
      display_name and name (or of the category when all three are empty),
      hover text that of `Hover`. */
  lemma EntityNodeStyle(v: Value)
    requires v.Entity? && TextProps(v.props)
    ensures var n := EntityNode(v);
      var category := if v.labels != [] then v.labels[0] else "Node";
      var shown :=
        if Text(v.props, "title") != "" then Text(v.props, "title")
        else if Text(v.props, "display_name") != "" then Text(v.props, "display_name")
        else if Text(v.props, "name") != "" then Text(v.props, "name")
        else category;
      n.id == ShowInt(v.id) && n.size == 25 && n.color == ColorFor(category) &&
      |category| + 2 <= |n.caption| && n.caption[..|category| + 2] == category + ": " &&
      n.caption[|category| + 2..] <= shown &&
      |n.caption| - (|category| + 2) == (if |shown| <= 20 then |shown| else 20) &&
      n.title == Some(Hover(v.props))
  {
  }

  /** The hover text: the first non-empty of body_markdown and title (or
      ""), kept whole up to 200 characters and otherwise cut to 200 and
      followed by "...", so never longer than 203. */
  lemma HoverShape(props: map<string, Prim>)
    requires TextProps(props)
    ensures var text := if Text(props, "body_markdown") != "" then Text(props, "body_markdown")
                        else Text(props, "title");
      |Hover(props)| <= 203 &&
      (|text| <= 200 ==> Hover(props) == text) &&
      (|text| > 200 ==> Hover(props) == text[..200] + "...")
  {
  }

  /** The colour table: five categories with their colours, #4ECDC4 for any
      other. */
  lemma ColorTable(category: string)
    ensures ColorFor(category) == (
      if category == "User" then "#FF6B6B"
      else if category == "Question" then "#4ECDC4"
      else if category == "Answer" then "#45B7D1"
      else if category == "Tag" then "#FFA62B"
      else if category == "Comment" then "#C04CFD"
      else "#4ECDC4")
  {
  }

  // ---------------------------------------------------------------- edges

  lemma RelEdgesNoRels(vals: seq<Value>, more: seq<Value>, color: string)
    requires forall i :: 0 <= i < |more| ==> !more[i].Rel?
    ensures RelEdges(vals + more, color) == RelEdges(vals, color)
    decreases |more|
  {
    if more == [] {
      assert vals + more == vals;
    } else {
      var init := more[..|more| - 1];
      assert vals + more == (vals + init) + [more[|more| - 1]];
      RelEdgesNoRels(vals, init, color);
      RelEdgesSnoc(vals + init, more[|more| - 1], color);
    }
  }

  /** One field adds an edge exactly when it is a relationship. */
  lemma StepFieldEdges(s: Snapshot, f: Field)
    requires Styleable(f.1)
    ensures StepField(s, f).edges == s.edges + (if f.1.Rel? then [EdgeOf(f.1, EdgeColor)] else [])
  {
    if !f.1.Rel? {
      assert s.edges + [] == s.edges;
    }
  }

  lemma {:induction false} EdgesStepFields(s: Snapshot, fs: seq<Field>, vals: seq<Value>)
    requires FieldsStyleable(fs) && s.edges == RelEdges(vals, EdgeColor)
    ensures StepFields(s, fs).edges == RelEdges(vals + FieldValues(fs), EdgeColor)
    decreases |fs|
  {
    if fs == [] {
      assert vals + FieldValues(fs) == vals;
    } else {
      var n := |fs| - 1;
      var init := fs[..n];
      assert FieldsStyleable(init);
      EdgesStepFields(s, init, vals);
      var before := vals + FieldValues(init);
      assert vals + FieldValues(fs) == before + [fs[n].1] by {
        FieldValuesLast(fs);
      }
      RelEdgesSnoc(before, fs[n].1, EdgeColor);
      StepFieldEdges(StepFields(s, init), fs[n]);
    }
  }

  /** Before the post-pass the edge list is exactly one edge per
      relationship value, in encounter order. */
  lemma {:induction false} WalkEdges(records: seq<Record>)
    requires RecordsStyleable(records)
    ensures Walk(records).edges == RelEdges(Values(records), EdgeColor)
    decreases |records|
  {
    if records != [] {
      var n := |records| - 1;
      var init := records[..n];
      WalkEdges(init);
      if ScalarOnly(records[n]) {
        RelEdgesNoRels(Values(init), FieldValues(records[n]), EdgeColor);
      } else {
        EdgesStepFields(Walk(init), records[n], Values(init));
      }
    }
  }

  /** Every relationship field appends exactly one edge `str(start id) ->
      str(end id)` labelled with its type and coloured #888, in encounter
      order, duplicates and self-loops kept; when there is at least one, the
      hub never runs and these are all the edges. With none, every edge
      there is comes from the hub. */
  lemma ConvertEdges(records: seq<Record>)
    requires RecordsStyleable(records)
    ensures RelCount(Values(records)) > 0 ==>
      Convert(records).1 == RelEdges(Values(records), EdgeColor) &&
      |Convert(records).1| == RelCount(Values(records))
    ensures RelCount(Values(records)) == 0 ==>
      forall i :: 0 <= i < |Convert(records).1| ==>
        Convert(records).1[i].source == HubId && Convert(records).1[i].caption == "related" &&
        Convert(records).1[i].color == None
  {
    WalkEdges(records);
    var s := Walk(records);
    if RelCount(Values(records)) == 0 && HubTriggered(s) {
      var withHub := s.Put(HubId, HubNode());
      HubEdgesShape(withHub.keys);
    }
  }

  /** The relationship at position i of the encounter order is edge number
      RelCount(before it). */
  lemma RelationshipEdge(records: seq<Record>, i: nat)
    requires RecordsStyleable(records)
    requires i < |Values(records)| && Values(records)[i].Rel?
    ensures RelCount(Values(records)[..i]) < |Convert(records).1|
    ensures Convert(records).1[RelCount(Values(records)[..i])] ==
      Edge(ShowInt(Values(records)[i].startId), ShowInt(Values(records)[i].endId),
           Values(records)[i].relType, Some("#888"))
  {
    RelEdgesAt(Values(records), EdgeColor, i);
    ConvertEdges(records);
  }

  // ------------------------------------------------------------------ hub

  lemma HubEdgesAppend(a: seq<string>, b: seq<string>)
    ensures HubEdges(a + b) == HubEdges(a) + HubEdges(b)
    decreases |b|
  {
    if b == [] {
      assert a + b == a;
    } else {
      var init := b[..|b| - 1];
      assert a + b == (a + init) + [b[|b| - 1]];
      assert (a + b)[..|a + b| - 1] == a + init;
      HubEdgesAppend(a, init);
    }
  }

  /** Without the hub among them, each key gets one hub edge, in key order. */
  lemma {:induction false} HubEdgesAll(ids: seq<string>)
    requires HubId !in ids
    ensures |HubEdges(ids)| == |ids|
    ensures forall i :: 0 <= i < |ids| ==> HubEdges(ids)[i] == HubEdge(ids[i])
    decreases |ids|
  {
    if ids != [] {
      HubEdgesAll(ids[..|ids| - 1]);
    }
  }

  /** Every hub edge runs from the hub to a key other than the hub. */
  lemma {:induction false} HubEdgesShape(ids: seq<string>)
    ensures forall i :: 0 <= i < |HubEdges(ids)| ==>
      HubEdges(ids)[i].source == HubId && HubEdges(ids)[i].target in ids &&
      HubEdges(ids)[i].target != HubId && HubEdges(ids)[i].caption == "related" &&
      HubEdges(ids)[i].color == None
    decreases |ids|
  {
    if ids != [] {
      HubEdgesShape(ids[..|ids| - 1]);
    }
  }

  /** The post-pass when no node is keyed `center_node` yet. Not triggered
      (no node, one node, or some edge): nothing changes. Triggered: the n
      nodes become n + 1, the hub last, and there are exactly n edges, one
      from the hub to each earlier node, in node order. */
  lemma HubFresh(s: Snapshot)
    requires s.Valid() && HubId !in s.table
    ensures !HubTriggered(s) ==> Hub(s) == s
    ensures HubTriggered(s) ==>
      Hub(s).keys == s.keys + [HubId] && Hub(s).table == s.table[HubId := HubNode()] &&
      |Hub(s).edges| == |s.keys| &&
      forall i :: 0 <= i < |s.keys| ==> Hub(s).edges[i] == HubEdge(s.keys[i])
  {
    if HubTriggered(s) {
      var withHub := s.Put(HubId, HubNode());
      assert withHub.keys == s.keys + [HubId];
      HubEdgesAppend(s.keys, [HubId]);
      assert HubEdges([HubId]) == [] by { assert [HubId][..0] == []; }
      HubEdgesAll(s.keys);
      assert Hub(s).edges == HubEdges(s.keys);
    }
  }

  /** Dropping the hub key from the key list drops no hub edge. */
  lemma HubEdgesSkipHub(ids: seq<string>, p: nat)
    requires p < |ids| && ids[p] == HubId
    ensures HubEdges(ids) == HubEdges(ids[..p] + ids[p + 1..])
  {
    var a, b := ids[..p], ids[p + 1..];
    assert ids == (a + [HubId]) + b;
    HubEdgesAppend(a + [HubId], b);
    HubEdgesAppend(a, [HubId]);
    assert HubEdges([HubId]) == [] by {
      assert [HubId][..0] == [];
    }
    assert HubEdges(a) + [] == HubEdges(a);
    HubEdgesAppend(a, b);
  }

  /** In a list of distinct keys, the one at p occurs nowhere else. */
  lemma RemovedOnce(ids: seq<string>, p: nat)
    requires p < |ids|
    requires forall i, j :: 0 <= i < j < |ids| ==> ids[i] != ids[j]
    ensures ids[p] !in ids[..p] + ids[p + 1..]
  {
    var rest := ids[..p] + ids[p + 1..];
    forall i | 0 <= i < |rest| ensures rest[i] != ids[p] {
      if i < p { assert rest[i] == ids[i]; } else { assert rest[i] == ids[i + 1]; }
    }
  }

  /** The post-pass when some node (a mixed scalar field named "center"
      with value "node") is already keyed `center_node`, at position p: that
      node is overwritten in place by the hub, the node count stays n, and
      the n - 1 other nodes each get one hub edge, in node order. */
  lemma HubOverwrite(s: Snapshot, p: nat)
    requires s.Valid() && HubTriggered(s) && p < |s.keys| && s.keys[p] == HubId
    ensures var h := Hub(s);
      var others := s.keys[..p] + s.keys[p + 1..];
      h.keys == s.keys && h.table == s.table[HubId := HubNode()] &&
      |others| == |s.keys| - 1 && |h.edges| == |others| &&
      forall i :: 0 <= i < |others| ==> h.edges[i] == HubEdge(others[i])
  {
    var others := s.keys[..p] + s.keys[p + 1..];
    var withHub := s.Put(HubId, HubNode());
    assert withHub.keys == s.keys && withHub.edges == [];
    assert Hub(s) == withHub.(edges := HubEdges(s.keys));
    HubEdgesSkipHub(s.keys, p);
    RemovedOnce(s.keys, p);
    HubEdgesAll(others);
  }

  predicate AllScalarOnly(records: seq<Record>) {
    forall i :: 0 <= i < |records| ==> ScalarOnly(records[i])
  }

  lemma AllScalarStyleable(records: seq<Record>)
    requires AllScalarOnly(records)
    ensures RecordsStyleable(records)
  {
    forall i, j | 0 <= i < |records| && 0 <= j < |records[i]| ensures Styleable(records[i][j].1) {
      assert records[i][j].1.Scalar?;
    }
  }

  /** More than one record, all scalar-only: the output is their "Result"
      nodes in record order followed by the hub, and one hub edge to each of
      them, in order. */
  lemma AllScalarRecordsGrouped(records: seq<Record>)
    requires AllScalarOnly(records) && RecordsStyleable(records) && |records| > 1
    ensures var (nodes, edges) := Convert(records);
      |nodes| == |records| + 1 && |edges| == |records| && nodes[|records|] == HubNode() &&
      forall i :: 0 <= i < |records| ==>
        nodes[i] == ResultNode(i, records[i]) && edges[i] == HubEdge(RecordKey(i))
  {
    var s := Walk(records);
    ResultsShownWalk(records);
    var h := Hub(s);
    ScalarHub(records);
    forall i | 0 <= i < |records| ensures h.Nodes()[i] == ResultNode(i, records[i]) {
      HubIdIsNoRecordKey(i);
      assert h.keys[i] == RecordKey(i);
    }
  }

  /** The hub pass over n > 1 scalar-only records: the keys `record_0` to
      `record_{n-1}` and then the hub, and one hub edge to each Result key,
      in order. */
  lemma ScalarHub(records: seq<Record>)
    requires AllScalarOnly(records) && RecordsStyleable(records) && |records| > 1
    ensures var s := Walk(records);
      Hub(s).keys == ResultKeys(|records|) + [HubId] &&
      Hub(s).table == s.table[HubId := HubNode()] &&
      |Hub(s).edges| == |records| &&
      forall i :: 0 <= i < |records| ==> Hub(s).edges[i] == HubEdge(RecordKey(i))
  {
    ResultKeysWalk(records);
    HubIdNotInResultKeys(|records|);
    HubFresh(Walk(records));
  }

  /** One scalar-only record (or none): no hub and no edges. */
  lemma AllScalarRecordsSingle(records: seq<Record>)
    requires AllScalarOnly(records) && RecordsStyleable(records) && |records| <= 1
    ensures var (nodes, edges) := Convert(records);
      nodes == (if records == [] then [] else [ResultNode(0, records[0])]) && edges == []
  {
    ResultKeysWalk(records);
    ResultsShownWalk(records);
    var s := Walk(records);
    assert !HubTriggered(s);
    if records != [] {
      assert s.keys == [RecordKey(0)];
    }
  }

  /** `record_0`, ..., `record_{n-1}`. */
  function ResultKeys(n: nat): (ks: seq<string>)
    ensures |ks| == n
    ensures forall i :: 0 <= i < n ==> ks[i] == RecordKey(i)
  {
    if n == 0 then [] else ResultKeys(n - 1) + [RecordKey(n - 1)]
  }

  lemma HubIdNotInResultKeys(n: nat)
    ensures HubId !in ResultKeys(n)
  {
    forall i | 0 <= i < n ensures HubId != ResultKeys(n)[i] { HubIdIsNoRecordKey(i); }
  }

  lemma {:induction false} ResultKeysWalk(records: seq<Record>)
    requires forall i :: 0 <= i < |records| ==> ScalarOnly(records[i])
    requires RecordsStyleable(records)
    ensures Walk(records).keys == ResultKeys(|records|)
    ensures Walk(records).edges == []
    decreases |records|
  {
    if records != [] {
      var n := |records| - 1;
      var init := records[..n];
      ResultKeysWalk(init);
      var s := Walk(init);
      assert RecordKey(n) !in s.keys by {
        forall i | 0 <= i < n ensures s.keys[i] != RecordKey(n) {
          if RecordKey(i) == RecordKey(n) { RecordKeyInjective(i, n); }
        }
      }
      assert ScalarOnly(records[n]);
    }
  }
}

/** The values a Neo4j query hands back, as a tagged union in place of the
    driver's duck-typed objects, and the record shape (an ordered list of
    field-name/value pairs). */
module Neo4jValues {
  import opened Basics

  /** A Python primitive: `str`, `int`, `float` or `bool` (a `bool` is an
      `int` in Python). A float carries its own rendering; float arithmetic
      and formatting are not modelled. */
  datatype Prim = Str(s: string) | Int(i: int) | Float(repr: string) | Bool(b: bool)

  /** One field value of a record. `Entity` is a graph node (it has `labels`
      and `id`), `Rel` a relationship (it has `type`, `start_node` and
      `end_node`; only the endpoints' ids are kept), `Scalar` a primitive and
      `Other` any other shape (a path, a list, `None`, ...). The labels are
      listed in the driver's iteration order. */
  datatype Value =
    | Entity(id: int, labels: seq<string>, props: map<string, Prim>)
    | Rel(relType: string, startId: int, endId: int)
    | Scalar(p: Prim)
    | Other

  type Field = (string, Value)
  type Record = seq<Field>

  /** `str(v)` and `f"{v}"` of a primitive. */
  function ShowPrim(p: Prim): string {
    match p
    case Str(s) => s
    case Int(i) => ShowInt(i)
    case Float(repr) => repr
    case Bool(b) => if b then "True" else "False"
  }

  /** `list(value.labels)[0] if value.labels else "Node"`. */
  function PrimaryLabel(labels: seq<string>): string {
    if |labels| > 0 then labels[0] else "Node"
  }

  /** The values of a record, in field order. */
  function FieldValues(r: Record): seq<Value> {
    seq(|r|, i requires 0 <= i < |r| => r[i].1)
  }

  /** Every field value of every record, in the order the converters meet
      them. */
  function Values(records: seq<Record>): seq<Value> {
    if records == [] then []
    else Values(records[..|records| - 1]) + FieldValues(records[|records| - 1])
  }

  lemma ValuesSnoc(records: seq<Record>, r: Record)
    ensures Values(records + [r]) == Values(records) + FieldValues(r)
  {
    assert (records + [r])[..|records|] == records;
  }

  lemma FieldValuesSnoc(r: Record, j: nat)
    requires j < |r|
    ensures FieldValues(r[..j + 1]) == FieldValues(r[..j]) + [r[j].1]
  {
  }

  lemma FieldValuesLast(r: Record)
    requires r != []
    ensures FieldValues(r) == FieldValues(r[..|r| - 1]) + [r[|r| - 1].1]
  {
  }

  /** The node key both converters use for an entity: `str(value.id)`. */
  predicate KeyedBy(v: Value, k: string) {
    v.Entity? && ShowInt(v.id) == k
  }

  /** The position of the first entity in `vals` whose key is `k`, if any. */
  function FirstEntityIndex(vals: seq<Value>, k: string): (r: Option<nat>)
    ensures r.Some? ==> r.value < |vals| && KeyedBy(vals[r.value], k)
  {
    if vals == [] then None
    else
      var earlier := FirstEntityIndex(vals[..|vals| - 1], k);
      if earlier.Some? then earlier
      else if KeyedBy(vals[|vals| - 1], k) then Some(|vals| - 1)
      else None
  }

  /** It is the first: no entity before it is keyed `k`, and there is none
      exactly when no entity is keyed `k`. */
  lemma {:induction false} FirstEntityIndexSpec(vals: seq<Value>, k: string)
    ensures var r := FirstEntityIndex(vals, k);
      (r.Some? ==> forall i :: 0 <= i < r.value ==> !KeyedBy(vals[i], k)) &&
      (r.None? ==> forall i :: 0 <= i < |vals| ==> !KeyedBy(vals[i], k))
    decreases |vals|
  {
    if vals != [] {
      var init := vals[..|vals| - 1];
      FirstEntityIndexSpec(init, k);
      assert forall i :: 0 <= i < |init| ==> init[i] == vals[i];
    }
  }

  /** Values added after the first occurrence of `k`, or values none of which
      is an entity keyed `k`, leave its first occurrence where it was. */
  lemma FirstEntityIndexSnoc(vals: seq<Value>, v: Value, k: string)
    ensures FirstEntityIndex(vals + [v], k) ==
      if FirstEntityIndex(vals, k).Some? then FirstEntityIndex(vals, k)
      else if KeyedBy(v, k) then Some(|vals|)
      else None
  {
    assert (vals + [v])[..|vals|] == vals;
  }

  /** Appending values that are not entities changes no first occurrence. */
  lemma {:induction false} FirstEntityIndexNoEntities(vals: seq<Value>, more: seq<Value>, k: string)
    requires forall i :: 0 <= i < |more| ==> !more[i].Entity?
    ensures FirstEntityIndex(vals + more, k) == FirstEntityIndex(vals, k)
    decreases |more|
  {
    if more != [] {
      var init := more[..|more| - 1];
      assert vals + more == (vals + init) + [more[|more| - 1]];
      FirstEntityIndexNoEntities(vals, init, k);
      FirstEntityIndexSnoc(vals + init, more[|more| - 1], k);
    } else {
      assert vals + more == vals;
    }
  }

  /** The number of entity values in `vals`. */
  function EntityCount(vals: seq<Value>): (n: nat)
    ensures n <= |vals|
  {
    if vals == [] then 0
    else EntityCount(vals[..|vals| - 1]) + (if vals[|vals| - 1].Entity? then 1 else 0)
  }

  /** The number of relationship values in `vals`. */
  function RelCount(vals: seq<Value>): (n: nat)
    ensures n <= |vals|
    ensures n == 0 <==> forall i :: 0 <= i < |vals| ==> !vals[i].Rel?
  {
    if vals == [] then 0
    else RelCount(vals[..|vals| - 1]) + (if vals[|vals| - 1].Rel? then 1 else 0)
  }
}

/**
 * The POST branch of the REST route: the checks on the posted body, the
 * update-or-create decision, the copying of allowed attributes onto the
 * dataset, and the packing of relationship ids into a comma-joined string.
 */
module RestPost {
  import opened Wrappers
  import opened PhpArray
  import opened PhpString
  import opened PhpValue
  import opened ManagerTable
  import opened RestQuery
  import opened RestFields

  /**
   * What the POST branch reads besides the body: the datasets of the table
   * (`getDataset`, `getRawDataset`, which always yields a dataset carrying the
   * given id, and `createDataset`), the model class of a table, the response
   * of the nested POST for a related dataset posted with attributes (given
   * the item and its type), and saving a dataset (its id, or its messages).
   */
  datatype Store = Store(
    find: Json -> Option<Dataset>,
    raw: Json -> Dataset,
    blank: Dataset,
    modelClass: string -> string,
    nested: (Json, Json) -> Json,
    save: Dataset -> Result<int, seq<string>>)

  /**
   * `(array) @$in['data'][$key]`: the posted `attributes` or `relationships`
   * as a PHP array, empty when the body lacks them.
   */
  function PostedMember(body: Json, key: string): (r: Arr<string, Json>)
    ensures r.Valid()
    ensures var v := Lookup(Lookup(body, "data"), key);
      && (!IsSet(v) ==> r.keys == [])
      && (IsSet(v) && !IsArray(v) ==> r.keys == ["0"] && r.vals == map["0" := v])
      && (v.JObj? && v.members.Valid() ==> r == v.members)
  {
    ArrayCast(Lookup(Lookup(body, "data"), key))
  }

  /** `(string) @$in['data']['type']`. */
  function PostedType(body: Json): string
  {
    StringOf(Lookup(Lookup(body, "data"), "type"))
  }

  // ---------------------------------------------------------------------------
  // Checks and the update-or-create decision

  /**
   * The checks on the body, in order: the posted type must (loosely) equal
   * the type name of the table's datasets, and the attributes must not be
   * empty. Both failures are 400 responses.
   */
  function PostChecks(instanceType: string, body: Json): (r: Result<Arr<string, Json>, RouteError>)
    ensures r.Err? <==> !LooseEqualsStr(instanceType, PostedType(body)) || |PostedMember(body, "attributes").keys| == 0
    ensures !LooseEqualsStr(instanceType, PostedType(body)) ==> r == Err(Refused(400, "post-data-type-different", []))
    ensures LooseEqualsStr(instanceType, PostedType(body)) && |PostedMember(body, "attributes").keys| == 0
      ==> r == Err(Refused(400, "post-data-attributes-empty", []))
    ensures r.Ok? ==> r.value == PostedMember(body, "attributes")
  {
    if !LooseEqualsStr(instanceType, PostedType(body)) then Err(Refused(400, "post-data-type-different", []))
    else if |PostedMember(body, "attributes").keys| == 0 then Err(Refused(400, "post-data-attributes-empty", []))
    else Ok(PostedMember(body, "attributes"))
  }

  /** The dataset a POST writes to, and the status it answers with. */
  datatype Target = Target(dataset: Dataset, status: int)

  /**
   * An `id` that names an existing dataset updates it (200); any other POST
   * creates (201): a raw dataset carrying the posted id, or a new one.
   */
  function Upsert(body: Json, store: Store): (t: Target)
    ensures t.status == 200 <==> IsSet(Lookup(body, "id")) && store.find(Lookup(body, "id")).Some?
    ensures t.status == 200 || t.status == 201
    ensures t.status == 200 ==> t.dataset == store.find(Lookup(body, "id")).value
    ensures t.status == 201 && IsSet(Lookup(body, "id")) ==> t.dataset == store.raw(Lookup(body, "id"))
    ensures !IsSet(Lookup(body, "id")) ==> t.dataset == store.blank
  {
    var id := Lookup(body, "id");
    if IsSet(id) && store.find(id).Some? then Target(store.find(id).value, 200)
    else if IsSet(id) then Target(store.raw(id), 201)
    else Target(store.blank, 201)
  }

  // ---------------------------------------------------------------------------
  // Attributes

  /** Field `k` takes posted attributes: it is whitelisted and not a relation. */
  predicate Copyable(fields: Arr<string, Field>, k: string)
  {
    k in fields.vals && fields.vals[k].TypeName() != RelationType
  }

  /** The values after copying the posted attributes `ks` (in order) that are copyable. */
  function CopyAttributes(values: map<string, Json>, ks: seq<string>, data: map<string, Json>, fields: Arr<string, Field>): map<string, Json>
    requires forall k | k in ks :: k in data
  {
    if ks == [] then values
    else
      var prev := CopyAttributes(values, ks[..|ks| - 1], data, fields);
      var k := ks[|ks| - 1];
      if Copyable(fields, k) then prev[k := data[k]] else prev
  }

  /**
   * Only allowed non-relation attributes are copied: a key takes the posted
   * value iff it is posted and copyable; every other value is unchanged.
   */
  lemma {:induction false} CopyAttributesExact(values: map<string, Json>, ks: seq<string>, data: map<string, Json>, fields: Arr<string, Field>, k: string)
    requires forall x | x in ks :: x in data
    ensures var r := CopyAttributes(values, ks, data, fields);
      && (k in ks && Copyable(fields, k) ==> k in r && r[k] == data[k])
      && (!(k in ks && Copyable(fields, k)) ==> (k in r <==> k in values) && (k in r ==> r[k] == values[k]))
  {
    if ks != [] {
      CopyAttributesMembers(ks);
      CopyAttributesExact(values, ks[..|ks| - 1], data, fields, k);
    }
  }

  lemma CopyAttributesMembers(ks: seq<string>)
    requires ks != []
    ensures forall x :: x in ks <==> x in ks[..|ks| - 1] || x == ks[|ks| - 1]
  {
    assert ks == ks[..|ks| - 1] + [ks[|ks| - 1]];
  }

  // ---------------------------------------------------------------------------
  // Relationships

  /** Field `k` takes posted relationships: it is whitelisted and a relation. */
  predicate Linkable(fields: Arr<string, Field>, k: string)
  {
    k in fields.vals && fields.vals[k].TypeName() == RelationType
  }

  /** `@$inValue['data']`, wrapped into a one-element list when it is not an array. */
  function RelationItems(v: Json): (r: seq<Json>)
    ensures !IsArray(Lookup(v, "data")) ==> r == [Lookup(v, "data")]
    ensures IsArray(Lookup(v, "data")) ==> r == Elements(Lookup(v, "data"))
  {
    var d := Lookup(v, "data");
    if IsArray(d) then Elements(d) else [d]
  }

  /**
   * One related item as the loop uses it: posted with a (truthy) type and
   * attributes, it is replaced by the response of the nested POST; otherwise
   * it is used as it is. A missing type is the model class of the relation's
   * target table.
   */
  function ResolveItem(item: Json, field: Field, store: Store): Json
  {
    var t := Lookup(item, "type");
    var itemType := if IsSet(t) then t else JStr(store.modelClass(field.Element("table")));
    if Truthy(itemType) && IsSet(Lookup(item, "attributes")) then store.nested(item, itemType) else item
  }

  /** `(int) @$relation_date['id']` of a resolved item. */
  function ItemId(item: Json, field: Field, store: Store): int
  {
    IntOf(Lookup(ResolveItem(item, field, store), "id"))
  }

  /** The ids kept for a relation field: those of its items that are positive, in order. */
  function RelationIds(items: seq<Json>, field: Field, store: Store): (ids: seq<int>)
  {
    if items == [] then []
    else
      var id := ItemId(items[|items| - 1], field, store);
      RelationIds(items[..|items| - 1], field, store) + (if id > 0 then [id] else [])
  }

  /** `implode(',', $value)`. */
  function RelationValue(ids: seq<int>): string
  {
    Implode(",", seq(|ids|, i requires 0 <= i < |ids| => IntToString(ids[i])))
  }

  /** The values after linking the posted relationships `ks` (in order) of relation fields. */
  function LinkRelations(values: map<string, Json>, ks: seq<string>, rels: map<string, Json>, fields: Arr<string, Field>, store: Store): map<string, Json>
    requires forall k | k in ks :: k in rels
  {
    if ks == [] then values
    else
      var prev := LinkRelations(values, ks[..|ks| - 1], rels, fields, store);
      var k := ks[|ks| - 1];
      if Linkable(fields, k)
      then prev[k := JStr(RelationValue(RelationIds(RelationItems(rels[k]), fields.vals[k], store)))]
      else prev
  }

  /** The kept ids are positive, and there are no more of them than items. */
  lemma {:induction false} RelationIdsPositive(items: seq<Json>, field: Field, store: Store)
    ensures |RelationIds(items, field, store)| <= |items|
    ensures forall x | x in RelationIds(items, field, store) :: x > 0
  {
    if items != [] {
      RelationIdsPositive(items[..|items| - 1], field, store);
    }
  }

  /** The kept ids are exactly the positive ids of the items. */
  lemma {:induction false} RelationIdsMembers(items: seq<Json>, field: Field, store: Store, x: int)
    ensures x in RelationIds(items, field, store) <==> x > 0 && exists i | 0 <= i < |items| :: ItemId(items[i], field, store) == x
  {
    if items != [] {
      var n := |items| - 1;
      RelationIdsMembers(items[..n], field, store, x);
      SomeItemHasIdStep(items, items[..n], field, store, x);
    }
  }

  /** Some item of `items` has id `x`. */
  predicate SomeItemHasId(items: seq<Json>, field: Field, store: Store, x: int)
  {
    exists i | 0 <= i < |items| :: ItemId(items[i], field, store) == x
  }

  lemma SomeItemHasIdStep(items: seq<Json>, init: seq<Json>, field: Field, store: Store, x: int)
    requires |init| + 1 == |items| && init == items[..|init|]
    ensures SomeItemHasId(items, field, store, x) <==>
      SomeItemHasId(init, field, store, x) || ItemId(items[|init|], field, store) == x
  {
    if SomeItemHasId(init, field, store, x) {
      var i :| 0 <= i < |init| && ItemId(init[i], field, store) == x;
      assert ItemId(items[i], field, store) == x;
    }
    if SomeItemHasId(items, field, store, x) {
      var i :| 0 <= i < |items| && ItemId(items[i], field, store) == x;
      if i < |init| {
        assert ItemId(init[i], field, store) == x;
      }
    }
  }

  /** When every item has a positive id, the ids are the items' ids, in input order. */
  lemma {:induction false} RelationIdsAllPositive(items: seq<Json>, field: Field, store: Store)
    requires forall i | 0 <= i < |items| :: ItemId(items[i], field, store) > 0
    ensures |RelationIds(items, field, store)| == |items|
    ensures forall i | 0 <= i < |items| :: RelationIds(items, field, store)[i] == ItemId(items[i], field, store)
  {
    if items != [] {
      var n := |items| - 1;
      assert forall i | 0 <= i < n :: items[..n][i] == items[i];
      RelationIdsAllPositive(items[..n], field, store);
    }
  }

  lemma NoCommaInPositive(n: int)
    requires n > 0
    ensures ',' !in IntToString(n)
  {
    assert AllDigits(NatToString(n));
  }

  /**
   * The stored string decodes back to the ids: splitting it on commas gives
   * one piece per id, and each piece reads back (with `(int)`) as that id;
   * no positive id leaves the field empty.
   */
  lemma RelationValueRoundTrip(ids: seq<int>)
    requires forall i | 0 <= i < |ids| :: ids[i] > 0
    ensures ids == [] ==> RelationValue(ids) == ""
    ensures ids != [] ==>
      var parts := Explode(",", RelationValue(ids));
      |parts| == |ids| && forall i | 0 <= i < |ids| :: IntCast(parts[i]) == ids[i]
  {
    if ids != [] {
      var parts := seq(|ids|, i requires 0 <= i < |ids| => IntToString(ids[i]));
      forall i | 0 <= i < |parts| ensures ',' !in parts[i] {
        NoCommaInPositive(ids[i]);
      }
      ExplodeImplode(',', parts);
      forall i | 0 <= i < |ids| ensures IntCast(parts[i]) == ids[i] {
        IntCastOfIntToString(ids[i]);
      }
    }
  }

  /**
   * Each posted relationship of a relation field sets that field to the
   * comma-joined positive ids of its items; every other value is unchanged.
   */
  lemma {:induction false} LinkRelationsExact(values: map<string, Json>, ks: seq<string>, rels: map<string, Json>, fields: Arr<string, Field>, store: Store, k: string)
    requires forall x | x in ks :: x in rels
    ensures var r := LinkRelations(values, ks, rels, fields, store);
      && (k in ks && Linkable(fields, k) ==>
            k in r && r[k] == JStr(RelationValue(RelationIds(RelationItems(rels[k]), fields.vals[k], store))))
      && (!(k in ks && Linkable(fields, k)) ==> (k in r <==> k in values) && (k in r ==> r[k] == values[k]))
  {
    if ks != [] {
      CopyAttributesMembers(ks);
      LinkRelationsExact(values, ks[..|ks| - 1], rels, fields, store, k);
    }
  }

  // ---------------------------------------------------------------------------
  // The POST branch

  /** The dataset a POST saves: the target with the posted attributes copied and the posted relationships linked. */
  function Written(fields: Arr<string, Field>, body: Json, store: Store): Dataset
  {
    var target := Upsert(body, store);
    var data := PostedMember(body, "attributes");
    var rels := PostedMember(body, "relationships");
    target.dataset.(values := LinkRelations(CopyAttributes(target.dataset.values, data.keys, data.vals, fields), rels.keys, rels.vals, fields, store))
  }

  /**
   * What the saved dataset holds: it is the target with other values; a
   * posted relationship of a relation field holds the joined ids of its
   * items; a posted attribute of a whitelisted non-relation field holds the
   * posted value; every other value is the target's.
   */
  lemma WrittenExact(fields: Arr<string, Field>, body: Json, store: Store, k: string)
    ensures var target := Upsert(body, store);
      var data := PostedMember(body, "attributes");
      var rels := PostedMember(body, "relationships");
      var w := Written(fields, body, store);
      && w == target.dataset.(values := w.values)
      && (k in rels.keys && Linkable(fields, k) ==>
            k in w.values && w.values[k] == JStr(RelationValue(RelationIds(RelationItems(rels.vals[k]), fields.vals[k], store))))
      && (k in data.keys && Copyable(fields, k) ==> k in w.values && w.values[k] == data.vals[k])
      && (!(k in rels.keys && Linkable(fields, k)) && !(k in data.keys && Copyable(fields, k)) ==>
            (k in w.values <==> k in target.dataset.values) && (k in w.values ==> w.values[k] == target.dataset.values[k]))
  {
    var target := Upsert(body, store);
    var data := PostedMember(body, "attributes");
    var rels := PostedMember(body, "relationships");
    CopyAttributesExact(target.dataset.values, data.keys, data.vals, fields, k);
    LinkRelationsExact(CopyAttributes(target.dataset.values, data.keys, data.vals, fields), rels.keys, rels.vals, fields, store, k);
  }

  /** The POST branch as a value: checks, target, attributes, relationships, save. */
  function PostOutcome(fields: Arr<string, Field>, instanceType: string, body: Json, store: Store): Result<Response, RouteError>
  {
    match PostChecks(instanceType, body)
    case Err(e) => Err(e)
    case Ok(_) =>
      var target := Upsert(body, store);
      match store.save(Written(fields, body, store))
      case Ok(id) => Ok(Response(target.status, JObj(Arr(["id"], map["id" := JInt(id)]))))
      case Err(messages) => Err(Refused(target.status, "errors-set", messages))
  }

  /**
   * The outcomes of a POST: a failed check is a 400 error; otherwise the
   * dataset saved is the one `WrittenExact` describes, a successful save
   * answers its id and a failed one its messages, and both carry the
   * target's status (200 for an update, 201 for a creation).
   */
  lemma PostOutcomeExact(fields: Arr<string, Field>, instanceType: string, body: Json, store: Store)
    ensures var r := PostOutcome(fields, instanceType, body, store);
      var target := Upsert(body, store);
      var saved := store.save(Written(fields, body, store));
      && (PostChecks(instanceType, body).Err? ==> r == Err(PostChecks(instanceType, body).error) && r.error.status == 400)
      && (PostChecks(instanceType, body).Ok? ==>
            && (r.Ok? <==> saved.Ok?)
            && (saved.Ok? ==> r.value == Response(target.status, JObj(Arr(["id"], map["id" := JInt(saved.value)]))))
            && (saved.Err? ==> r.error == Refused(target.status, "errors-set", saved.error)))
      && (r.Ok? ==> r.value.status == target.status && (r.value.status == 200 || r.value.status == 201))
      && (r.Err? && r.error.Refused? && r.error.code == "errors-set" ==> r.error.status == target.status)
  {
  }

  /**
   * The POST branch with the loops of the source. It answers what
   * `PostOutcome` describes.
   */
  method HandlePost(fields: Arr<string, Field>, instanceType: string, body: Json, store: Store) returns (r: Result<Response, RouteError>)
    ensures r == PostOutcome(fields, instanceType, body, store)
  {
    var data := PostedMember(body, "attributes");
    if !LooseEqualsStr(instanceType, PostedType(body)) {
      return Err(Refused(400, "post-data-type-different", []));
    }
    if |data.keys| == 0 {
      return Err(Refused(400, "post-data-attributes-empty", []));
    }

    var status := 400;
    var found: Option<Dataset> := None;
    var id := Lookup(body, "id");
    if IsSet(id) {
      found := store.find(id);
      status := 200;
    }
    var dataset: Dataset;
    if found.None? {
      if IsSet(id) {
        dataset := store.raw(id);
      } else {
        dataset := store.blank;
      }
      status := 201;
    } else {
      dataset := found.value;
    }
    ghost var target := Upsert(body, store);
    assert dataset == target.dataset && status == target.status;

    var values := CopyLoop(dataset.values, data, fields);
    var rels := PostedMember(body, "relationships");
    values := LinkLoop(values, rels, fields, store);
    dataset := dataset.(values := values);

    var saved := store.save(dataset);
    if saved.Ok? {
      r := Ok(Response(status, JObj(Arr(["id"], map["id" := JInt(saved.value)]))));
    } else {
      r := Err(Refused(status, "errors-set", saved.error));
    }
  }

  /** The loop copying the posted attributes onto the dataset's values. */
  method CopyLoop(values: map<string, Json>, data: Arr<string, Json>, fields: Arr<string, Field>) returns (r: map<string, Json>)
    requires data.Valid()
    ensures r == CopyAttributes(values, data.keys, data.vals, fields)
  {
    r := values;
    var i := 0;
    while i < |data.keys|
      invariant 0 <= i <= |data.keys|
      invariant r == CopyAttributes(values, data.keys[..i], data.vals, fields)
    {
      var k := data.keys[i];
      if k in fields.vals && fields.vals[k].TypeName() != RelationType {
        r := r[k := data.vals[k]];
      }
      assert data.keys[..i + 1][..i] == data.keys[..i];
      i := i + 1;
    }
    assert data.keys[..i] == data.keys;
  }

  /** The loop over the posted relationships. */
  method LinkLoop(values: map<string, Json>, rels: Arr<string, Json>, fields: Arr<string, Field>, store: Store) returns (r: map<string, Json>)
    requires rels.Valid()
    ensures r == LinkRelations(values, rels.keys, rels.vals, fields, store)
  {
    r := values;
    var j := 0;
    while j < |rels.keys|
      invariant 0 <= j <= |rels.keys|
      invariant r == LinkRelations(values, rels.keys[..j], rels.vals, fields, store)
    {
      var k := rels.keys[j];
      if k in fields.vals && fields.vals[k].TypeName() == RelationType {
        var ids := RelationIdsLoop(RelationItems(rels.vals[k]), fields.vals[k], store);
        r := r[k := JStr(RelationValue(ids))];
      }
      assert rels.keys[..j + 1][..j] == rels.keys[..j];
      j := j + 1;
    }
    assert rels.keys[..j] == rels.keys;
  }

  /** The inner loop over the items of one relation field. */
  method RelationIdsLoop(items: seq<Json>, field: Field, store: Store) returns (ids: seq<int>)
    ensures ids == RelationIds(items, field, store)
  {
    ids := [];
    var n := 0;
    while n < |items|
      invariant 0 <= n <= |items|
      invariant ids == RelationIds(items[..n], field, store)
    {
      var item := items[n];
      var t := Lookup(item, "type");
      var itemType := if IsSet(t) then t else JStr(store.modelClass(field.Element("table")));
      if Truthy(itemType) && IsSet(Lookup(item, "attributes")) {
        item := store.nested(item, itemType);
      }
      var id := IntOf(Lookup(item, "id"));
      if id > 0 {
        ids := ids + [id];
      }
      assert items[..n + 1][..n] == items[..n];
      n := n + 1;
    }
    assert items[..n] == items;
  }
}

/**
 * How the REST route renders a dataset (`getInstanceData`,
 * `getInstanceAttributes`, `getInstanceRelationships`): its id, type name,
 * attributes with their integer coercion, and its relationships, each related
 * dataset rendered in turn - by id only when it belongs to the route's own
 * table.
 */
module RestSerialize {
  import opened Wrappers
  import opened PhpArray
  import opened PhpString
  import opened PhpValue
  import opened ManagerTable
  import opened RestQuery
  import opened RestFields

  /**
   * What rendering reads besides the dataset: the route's path and table, the
   * route configuration and class catalogue behind `getFields`, the related
   * datasets of a relation field (`getRelatedCollection`), and the path of the
   * route registered for a dataset's class, if any (`getRouteByInstance`).
   */
  datatype Host = Host(
    routePath: string,
    routeTable: string,
    methods: map<string, MethodConfig>,
    cat: Catalog,
    related: (Dataset, string) -> seq<Dataset>,
    routeOf: Dataset -> Option<string>)

  /**
   * A link (`getLinkByPath`), written as the path of the route it points into
   * followed by the path segments appended to it; the URL text is not modelled.
   */
  function PathLink(route: string, paths: seq<Json>): Json
  {
    JList([JStr(route)] + paths)
  }

  /** The fields rendered for a dataset: the `get` whitelist of its class, filtered by the includes. */
  function VisibleFields(h: Host, d: Dataset, parents: seq<string>, includes: Arr<string, string>): (r: Result<Arr<string, Field>, RouteError>)
    requires h.cat.Valid()
    ensures r.Ok? ==> r.value.Valid()
  {
    match AllowedFields(h.methods, "get", d.cls, h.cat)
    case Err(e) => Err(e)
    case Ok(fields) => Ok(FilterByInclude(fields, parents, includes))
  }

  // ---------------------------------------------------------------------------
  // Attributes

  /**
   * The rendered value of one attribute. A `number` field is cast to float,
   * which is not modelled (the value passes unchanged); a field whose column
   * type is `int` or whose type is `integer` is cast to int.
   */
  function AttributeValue(f: Field, v: Json): (r: Json)
    ensures f.TypeName() != "number" && (f.Element("db_type") == "int" || f.TypeName() == "integer") ==> r == JInt(IntOf(v))
    ensures f.TypeName() == "number" || (f.Element("db_type") != "int" && f.TypeName() != "integer") ==> r == v
  {
    if f.TypeName() == "number" then v
    else if f.Element("db_type") == "int" || f.TypeName() == "integer" then JInt(IntOf(v))
    else v
  }

  /** The attributes of `d` for the fields `ks` (in order): each non-relation field under its REST name. */
  function AttributesOf(ks: seq<string>, fields: map<string, Field>, d: Dataset): (r: Arr<string, Json>)
    requires forall k | k in ks :: k in fields
    ensures r.Valid()
  {
    if ks == [] then Empty()
    else
      var prev := AttributesOf(ks[..|ks| - 1], fields, d);
      var k := ks[|ks| - 1];
      var f := fields[k];
      if f.TypeName() != RelationType then prev.Put(d.RestName(k), AttributeValue(f, d.Value(f.Name()))) else prev
  }

  /** Field `fk` is a non-relation field whose REST name is `name`. */
  predicate RendersAs(fields: map<string, Field>, d: Dataset, fk: string, name: string)
    requires fk in fields
  {
    fields[fk].TypeName() != RelationType && d.RestName(fk) == name
  }

  /** Field key `fk` is rendered as an attribute under the name `name`. */
  predicate AttributeOf(ks: seq<string>, fields: map<string, Field>, d: Dataset, fk: string, name: string)
    requires forall k | k in ks :: k in fields
  {
    fk in ks && RendersAs(fields, d, fk, name)
  }

  /** `ks[i]` is the last of the fields `ks` rendered under the name `name`. */
  predicate LastRenderedAt(ks: seq<string>, fields: map<string, Field>, d: Dataset, i: int, name: string)
    requires forall k | k in ks :: k in fields
  {
    0 <= i < |ks| && RendersAs(fields, d, ks[i], name)
    && forall j | i < j < |ks| :: !RendersAs(fields, d, ks[j], name)
  }

  /**
   * The attributes: a name is present iff some non-relation field is rendered
   * under it, and its value is that of the last such field, coerced (a later
   * `$data[$fieldName] = $value` overwrites an earlier one).
   */
  lemma {:induction false} AttributesExact(ks: seq<string>, fields: map<string, Field>, d: Dataset, name: string)
    requires forall k | k in ks :: k in fields
    ensures var r := AttributesOf(ks, fields, d);
      && (name in r.vals <==> exists fk :: AttributeOf(ks, fields, d, fk, name))
      && (name in r.vals ==> exists i :: (LastRenderedAt(ks, fields, d, i, name)
            && r.vals[name] == AttributeValue(fields[ks[i]], d.Value(fields[ks[i]].Name()))))
  {
    if ks != [] {
      var ks' := ks[..|ks| - 1];
      var k := ks[|ks| - 1];
      var prev := AttributesOf(ks', fields, d);
      var r := AttributesOf(ks, fields, d);
      AttributesExact(ks', fields, d, name);
      assert forall x :: x in ks <==> x in ks' || x == k;
      if RendersAs(fields, d, k, name) {
        assert name in r.vals;
        assert AttributeOf(ks, fields, d, k, name);
        assert LastRenderedAt(ks, fields, d, |ks| - 1, name);
        assert r.vals[name] == AttributeValue(fields[k], d.Value(fields[k].Name()));
      } else {
        assert name in r.vals <==> name in prev.vals;
        if name in prev.vals {
          var i :| LastRenderedAt(ks', fields, d, i, name)
            && prev.vals[name] == AttributeValue(fields[ks'[i]], d.Value(fields[ks'[i]].Name()));
          LastRenderedExtend(ks, fields, d, i, name);
          assert AttributeOf(ks, fields, d, ks[i], name);
          if fields[k].TypeName() != RelationType {
            assert r == prev.Put(d.RestName(k), AttributeValue(fields[k], d.Value(fields[k].Name())));
            assert d.RestName(k) != name;
          }
          assert r.vals[name] == prev.vals[name];
        }
        if exists fk :: AttributeOf(ks, fields, d, fk, name) {
          var fk :| AttributeOf(ks, fields, d, fk, name);
          assert AttributeOf(ks', fields, d, fk, name);
        }
      }
    }
  }

  /** The last field rendered under a name stays the last when a field not rendered under it follows. */
  lemma LastRenderedExtend(ks: seq<string>, fields: map<string, Field>, d: Dataset, i: int, name: string)
    requires forall k | k in ks :: k in fields
    requires ks != [] && !RendersAs(fields, d, ks[|ks| - 1], name)
    requires LastRenderedAt(ks[..|ks| - 1], fields, d, i, name)
    ensures LastRenderedAt(ks, fields, d, i, name) && ks[i] == ks[..|ks| - 1][i]
  {
    var ks' := ks[..|ks| - 1];
    forall j | i < j < |ks|
      ensures !RendersAs(fields, d, ks[j], name)
    {
      if j < |ks'| {
        assert ks[j] == ks'[j];
      }
    }
  }

  /**
   * The `id` attribute is the dataset's own id, the same as the top-level `id`
   * of its rendering, when it comes from the always-whitelisted `id` field and
   * no other field is renamed onto `id`.
   */
  lemma AttributeIdIsOwnId(ks: seq<string>, fields: map<string, Field>, d: Dataset, types: map<string, string>)
    requires forall k | k in ks :: k in fields
    requires "id" in ks && fields["id"] == IdField(types) && d.RestName("id") == "id"
    requires forall k | k in ks && k != "id" :: !RendersAs(fields, d, k, "id")
    ensures "id" in AttributesOf(ks, fields, d).vals
    ensures AttributesOf(ks, fields, d).vals["id"] == JInt(d.id)
  {
    assert IdField(types).TypeName() == "integer" && IdField(types).Name() == "id";
    assert AttributeOf(ks, fields, d, "id", "id");
    AttributesExact(ks, fields, d, "id");
  }

  /** Without renaming, every non-relation field appears under its own key, with its own coerced value. */
  lemma AttributesUnrenamed(ks: seq<string>, fields: map<string, Field>, d: Dataset, k: string)
    requires forall x | x in ks :: x in fields
    requires forall x | x in ks :: d.RestName(x) == x
    requires k in ks && fields[k].TypeName() != RelationType
    ensures k in AttributesOf(ks, fields, d).vals
    ensures AttributesOf(ks, fields, d).vals[k] == AttributeValue(fields[k], d.Value(fields[k].Name()))
  {
    AttributesExact(ks, fields, d, k);
    assert AttributeOf(ks, fields, d, k, k);
  }

  // ---------------------------------------------------------------------------
  // Instance data and relationships

  /** The rendering of a dataset by id only: `id`, `type` and the `self` link. */
  function IdData(h: Host, d: Dataset, paths: seq<Json>): (r: Json)
    ensures r.JObj? && r.members.keys == ["id", "type", "links"] && "links" in r.members.vals
    ensures r.members.vals == map["id" := JInt(d.id), "type" := JStr(TypeFromClass(d.cls)),
      "links" := JObj(Arr(["self"], map["self" := PathLink(h.routePath, paths)]))]
  {
    JObj(Arr(["id", "type", "links"],
      map["id" := JInt(d.id), "type" := JStr(TypeFromClass(d.cls)),
          "links" := JObj(Arr(["self"], map["self" := PathLink(h.routePath, paths)]))]))
  }

  /**
   * Whether a related dataset is rendered by id only: its table name loosely
   * equals the route's own table name.
   */
  predicate OnlyId(h: Host, rel: Dataset)
  {
    LooseEqualsStr(h.routeTable, rel.tableName)
  }

  /** The path of a related dataset: the parent's id, the relation field, its own id. */
  function RelatedPath(d: Dataset, name: string, rel: Dataset): seq<Json>
  {
    [JInt(d.id), JStr(name), JInt(rel.id)]
  }

  /** The names of the relation fields among `ks`, in order. */
  function RelationNames(ks: seq<string>, fields: map<string, Field>): (r: seq<string>)
    requires forall k | k in ks :: k in fields
  {
    if ks == [] then []
    else
      var f := fields[ks[|ks| - 1]];
      RelationNames(ks[..|ks| - 1], fields) + (if f.TypeName() == RelationType then [f.Name()] else [])
  }

  /**
   * `getInstanceData($instance, $paths, $onlyId, $parents)`. The source
   * recurses without bound through relation fields; `fuel` bounds the depth
   * here, and running out of it is an error. Every related dataset of every
   * visible relation field is rendered (`Rendered`), and the results are
   * assembled in the order of the loops of `getInstanceRelationships`.
   */
  function InstanceData(h: Host, fuel: nat, d: Dataset, paths: seq<Json>, onlyId: bool, parents: seq<string>, includes: Arr<string, string>): (r: Result<Json, RouteError>)
    requires h.cat.Valid()
    decreases fuel, 3
  {
    if onlyId then Ok(IdData(h, d, paths))
    else
      match VisibleFields(h, d, parents, includes)
      case Err(e) => Err(e)
      case Ok(fields) =>
        match RelationsOf(h, fuel, d, fields, parents, includes)
        case Err(e) => Err(e)
        case Ok(rels) => Ok(FullData(h, d, paths, AttributesOf(fields.keys, fields.vals, d), rels.entries))
  }

  /** The relationships of `d` over its visible fields `fields`. */
  function RelationsOf(h: Host, fuel: nat, d: Dataset, fields: Arr<string, Field>, parents: seq<string>, includes: Arr<string, string>): (r: Result<Relations, RouteError>)
    requires h.cat.Valid() && fields.Valid()
    decreases fuel, 2
  {
    var names := RelationNames(fields.keys, fields.vals);
    Relationships(h, d, names, seq(|names|, j requires 0 <= j < |names| => RelatedRenderings(h, fuel, d, names[j], parents, includes)))
  }

  /** The renderings of the related datasets of relation field `name`, in order. */
  function RelatedRenderings(h: Host, fuel: nat, d: Dataset, name: string, parents: seq<string>, includes: Arr<string, string>): (r: seq<Result<Json, RouteError>>)
    requires h.cat.Valid()
    ensures |r| == |h.related(d, name)|
    decreases fuel, 1
  {
    var rels := h.related(d, name);
    seq(|rels|, i requires 0 <= i < |rels| => Rendered(h, fuel, d, name, rels[i], parents + [name], includes))
  }

  /**
   * One related dataset as the loop renders it: by id only when it belongs to
   * the route's table, in full one level deeper otherwise.
   */
  function Rendered(h: Host, fuel: nat, d: Dataset, name: string, rel: Dataset, parents: seq<string>, includes: Arr<string, string>): (r: Result<Json, RouteError>)
    requires h.cat.Valid()
    ensures OnlyId(h, rel) ==> r == Ok(IdData(h, rel, RelatedPath(d, name, rel)))
    ensures !OnlyId(h, rel) && fuel == 0 ==> r.Err?
    ensures !OnlyId(h, rel) && fuel > 0 ==> r == InstanceData(h, fuel - 1, rel, RelatedPath(d, name, rel), false, parents, includes)
    decreases fuel, 0
  {
    if OnlyId(h, rel) then Ok(IdData(h, rel, RelatedPath(d, name, rel)))
    else if fuel == 0 then Err(Thrown("recursion-limit"))
    else InstanceData(h, fuel - 1, rel, RelatedPath(d, name, rel), false, parents, includes)
  }

  /** The full rendering of a dataset from its attributes and relationships. */
  function FullData(h: Host, d: Dataset, paths: seq<Json>, attributes: Arr<string, Json>, relationships: Arr<string, Json>): (r: Json)
    ensures r.JObj? && r.members.keys == ["id", "type", "attributes", "relationships", "links"]
    ensures "id" in r.members.vals && "type" in r.members.vals && "links" in r.members.vals
    ensures r.members.vals["id"] == IdData(h, d, paths).members.vals["id"]
    ensures r.members.vals["type"] == IdData(h, d, paths).members.vals["type"]
    ensures r.members.vals["links"] == IdData(h, d, paths).members.vals["links"]
    ensures "attributes" in r.members.vals && "relationships" in r.members.vals
    ensures r.members.vals["attributes"] == JObj(attributes) && r.members.vals["relationships"] == JObj(relationships)
  {
    JObj(Arr(["id", "type", "attributes", "relationships", "links"],
      map["id" := JInt(d.id), "type" := JStr(TypeFromClass(d.cls)),
          "attributes" := JObj(attributes), "relationships" := JObj(relationships),
          "links" := JObj(Arr(["self"], map["self" := PathLink(h.routePath, paths)]))]))
  }

  /** The rendered items of one relation field, or the first failure among them. */
  function Collect(items: seq<Result<Json, RouteError>>): (r: Result<seq<Json>, RouteError>)
    ensures r.Ok? <==> forall i | 0 <= i < |items| :: items[i].Ok?
    ensures r.Ok? ==> |r.value| == |items| && forall i | 0 <= i < |items| :: r.value[i] == items[i].value
  {
    if items == [] then Ok([])
    else
      match Collect(items[..|items| - 1])
      case Err(e) => Err(e)
      case Ok(prev) =>
        match items[|items| - 1]
        case Err(e) => Err(e)
        case Ok(item) => Ok(prev + [item])
  }

  /** The relationships of a dataset as they are built: the entries so far and the last related dataset met. */
  datatype Relations = Relations(entries: Arr<string, Json>, last: Option<Dataset>)

  /**
   * The loop of `getInstanceRelationships` over the relation fields `names`,
   * `rendered[j]` being the renderings of the related datasets of `names[j]`:
   * each field gets them under `data` and a `self` link; an `absolute` link
   * is added when the last related dataset met so far (in this field or, as
   * the source leaves its loop variable set, an earlier one) has a route.
   */
  function Relationships(h: Host, d: Dataset, names: seq<string>, rendered: seq<seq<Result<Json, RouteError>>>): (r: Result<Relations, RouteError>)
    requires |rendered| == |names|
    ensures r.Ok? ==> r.value.entries.Valid()
  {
    if names == [] then Ok(Relations(Empty(), None))
    else
      var n := |names| - 1;
      match Relationships(h, d, names[..n], rendered[..n])
      case Err(e) => Err(e)
      case Ok(prev) =>
        match Collect(rendered[n])
        case Err(e) => Err(e)
        case Ok(data) =>
          var rels := h.related(d, names[n]);
          var last := if |rels| > 0 then Some(rels[|rels| - 1]) else prev.last;
          Ok(Relations(prev.entries.Put(names[n], RelationEntry(h, d, names[n], data, last)), last))
  }

  /** One entry of the relationships: the rendered related datasets and the links. */
  function RelationEntry(h: Host, d: Dataset, name: string, data: seq<Json>, last: Option<Dataset>): Json
  {
    var self := PathLink(h.routePath, [JInt(d.id), JStr(name)]);
    var links :=
      if last.Some? && h.routeOf(last.value).Some?
      then Arr(["self", "absolute"], map["self" := self, "absolute" := PathLink(h.routeOf(last.value).value, [])])
      else Arr(["self"], map["self" := self]);
    JObj(Arr(["data", "links"], map["data" := JList(data), "links" := JObj(links)]))
  }

  // ---------------------------------------------------------------------------
  // Properties

  /**
   * The shape of a rendered dataset: by id only it is `id`, `type` and the
   * `self` link and never fails; in full it fails when the whitelist does and
   * otherwise adds the attributes of the visible fields and the
   * relationships.
   */
  lemma InstanceDataShape(h: Host, fuel: nat, d: Dataset, paths: seq<Json>, onlyId: bool, parents: seq<string>, includes: Arr<string, string>)
    requires h.cat.Valid()
    ensures var r := InstanceData(h, fuel, d, paths, onlyId, parents, includes);
      && (onlyId ==> r == Ok(IdData(h, d, paths)))
      && (!onlyId && VisibleFields(h, d, parents, includes).Err? ==> r.Err?)
      && (!onlyId && r.Ok? ==>
            var fields := VisibleFields(h, d, parents, includes).value;
            && r.value.members.keys == ["id", "type", "attributes", "relationships", "links"]
            && r.value.members.vals["attributes"] == JObj(AttributesOf(fields.keys, fields.vals, d)))
  {
  }

  lemma {:induction false} RelationNamesExact(ks: seq<string>, fields: map<string, Field>, name: string)
    requires forall k | k in ks :: k in fields
    ensures name in RelationNames(ks, fields) <==> exists fk :: RelationNamed(ks, fields, fk, name)
  {
    if ks != [] {
      var ks' := ks[..|ks| - 1];
      var k := ks[|ks| - 1];
      RelationNamesExact(ks', fields, name);
      assert forall x :: x in ks <==> x in ks' || x == k;
      if fields[k].TypeName() == RelationType && fields[k].Name() == name {
        assert RelationNamed(ks, fields, k, name);
      }
      if exists fk :: RelationNamed(ks', fields, fk, name) {
        var fk :| RelationNamed(ks', fields, fk, name);
        assert RelationNamed(ks, fields, fk, name);
      }
      if exists fk :: RelationNamed(ks, fields, fk, name) {
        var fk :| RelationNamed(ks, fields, fk, name);
        if fk != k {
          assert RelationNamed(ks', fields, fk, name);
        }
      }
    }
  }

  /** Field key `fk` among `ks` is a relation field named `name`. */
  predicate RelationNamed(ks: seq<string>, fields: map<string, Field>, fk: string, name: string)
    requires forall k | k in ks :: k in fields
  {
    fk in ks && fields[fk].TypeName() == RelationType && fields[fk].Name() == name
  }

  /** Relation field `names[j]` has at least one related dataset. */
  predicate HasRelated(h: Host, d: Dataset, names: seq<string>, j: int)
  {
    0 <= j < |names| && |h.related(d, names[j])| > 0
  }

  /** Every rendering of every relation field succeeded. */
  predicate AllRendered(rendered: seq<seq<Result<Json, RouteError>>>)
  {
    forall j, i | 0 <= j < |rendered| && 0 <= i < |rendered[j]| :: rendered[j][i].Ok?
  }

  lemma AllRenderedStep(rendered: seq<seq<Result<Json, RouteError>>>, init: seq<seq<Result<Json, RouteError>>>)
    requires |init| + 1 == |rendered| && init == rendered[..|init|]
    ensures AllRendered(rendered) <==> AllRendered(init) && Collect(rendered[|init|]).Ok?
  {
    assert forall j | 0 <= j < |init| :: init[j] == rendered[j];
  }

  /** The relationships fail exactly when some rendering of a related dataset fails. */
  lemma {:induction false} RelationshipsOk(h: Host, d: Dataset, names: seq<string>, rendered: seq<seq<Result<Json, RouteError>>>)
    requires |rendered| == |names|
    ensures Relationships(h, d, names, rendered).Ok? <==>
      forall j, i | 0 <= j < |names| && 0 <= i < |rendered[j]| :: rendered[j][i].Ok?
  {
    RelationshipsAllRendered(h, d, names, rendered);
  }

  lemma {:induction false} RelationshipsAllRendered(h: Host, d: Dataset, names: seq<string>, rendered: seq<seq<Result<Json, RouteError>>>)
    requires |rendered| == |names|
    ensures Relationships(h, d, names, rendered).Ok? <==> AllRendered(rendered)
  {
    if names != [] {
      var n := |names| - 1;
      var prev := Relationships(h, d, names[..n], rendered[..n]);
      RelationshipsAllRendered(h, d, names[..n], rendered[..n]);
      AllRenderedStep(rendered, rendered[..n]);
      assert Relationships(h, d, names, rendered).Ok? <==> prev.Ok? && Collect(rendered[n]).Ok?;
    }
  }

  /** The relationships hold one entry per relation field name. */
  lemma {:induction false} RelationshipsKeys(h: Host, d: Dataset, names: seq<string>, rendered: seq<seq<Result<Json, RouteError>>>, name: string)
    requires |rendered| == |names|
    ensures var r := Relationships(h, d, names, rendered);
      r.Ok? ==> (name in r.value.entries.vals <==> name in names)
  {
    if names != [] {
      var n := |names| - 1;
      RelationshipsKeys(h, d, names[..n], rendered[..n], name);
      assert forall x :: x in names <==> x in names[..n] || x == names[n];
    }
  }

  /** The last related dataset is set iff some relation field has a related dataset. */
  lemma {:induction false} RelationshipsLast(h: Host, d: Dataset, names: seq<string>, rendered: seq<seq<Result<Json, RouteError>>>)
    requires |rendered| == |names|
    ensures var r := Relationships(h, d, names, rendered);
      r.Ok? ==> (r.value.last.Some? <==> exists j :: HasRelated(h, d, names, j))
  {
    if names != [] {
      var n := |names| - 1;
      var r := Relationships(h, d, names, rendered);
      RelationshipsLast(h, d, names[..n], rendered[..n]);
      if r.Ok? {
        var prev := Relationships(h, d, names[..n], rendered[..n]);
        var rels := h.related(d, names[n]);
        assert r.value.last == if |rels| > 0 then Some(rels[|rels| - 1]) else prev.value.last;
        HasRelatedStep(h, d, names, names[..n]);
      }
    }
  }

  /** A relation field with a related dataset is one of the shorter list or the last one. */
  lemma HasRelatedStep(h: Host, d: Dataset, names: seq<string>, init: seq<string>)
    requires |init| + 1 == |names| && init == names[..|init|]
    ensures (exists j :: HasRelated(h, d, names, j)) <==>
      (exists j :: HasRelated(h, d, init, j)) || HasRelated(h, d, names, |init|)
  {
    if exists j :: HasRelated(h, d, init, j) {
      var j :| HasRelated(h, d, init, j);
      assert HasRelated(h, d, names, j);
    }
    if exists j :: HasRelated(h, d, names, j) {
      var j :| HasRelated(h, d, names, j);
      if j < |init| {
        assert HasRelated(h, d, init, j);
      }
    }
  }

  /**
   * The relationships hold one entry per relation field name; they fail
   * exactly when some rendering fails; and the last related dataset is set
   * iff some relation field has a related dataset.
   */
  lemma RelationshipsExact(h: Host, d: Dataset, names: seq<string>, rendered: seq<seq<Result<Json, RouteError>>>, name: string)
    requires |rendered| == |names|
    ensures var r := Relationships(h, d, names, rendered);
      && (r.Ok? <==> forall j, i | 0 <= j < |names| && 0 <= i < |rendered[j]| :: rendered[j][i].Ok?)
      && (r.Ok? ==> (name in r.value.entries.vals <==> name in names))
      && (r.Ok? ==> (r.value.last.Some? <==> exists j :: HasRelated(h, d, names, j)))
  {
    RelationshipsOk(h, d, names, rendered);
    RelationshipsKeys(h, d, names, rendered, name);
    RelationshipsLast(h, d, names, rendered);
  }

  /**
   * The entry of the last relation field: its `data` are its related datasets
   * rendered in order, each by id only when it belongs to the route's table
   * and in full one level deeper otherwise.
   */
  lemma RelationEntryData(h: Host, fuel: nat, d: Dataset, name: string, parents: seq<string>, includes: Arr<string, string>, i: nat)
    requires h.cat.Valid()
    requires i < |h.related(d, name)|
    ensures var rels := h.related(d, name);
      var items := RelatedRenderings(h, fuel, d, name, parents, includes);
      && (Collect(items).Ok? ==> Collect(items).value[i] == items[i].value)
      && (OnlyId(h, rels[i]) ==> items[i] == Ok(IdData(h, rels[i], RelatedPath(d, name, rels[i]))))
      && (!OnlyId(h, rels[i]) && fuel > 0 ==>
            items[i] == InstanceData(h, fuel - 1, rels[i], RelatedPath(d, name, rels[i]), false, parents + [name], includes))
  {
  }

  /**
   * Datasets of the route's own table are never expanded: their renderings
   * never fail, whatever the fuel.
   */
  lemma OwnTableNeverExpanded(h: Host, fuel: nat, d: Dataset, name: string, parents: seq<string>, includes: Arr<string, string>)
    requires h.cat.Valid()
    requires forall rel | rel in h.related(d, name) :: OnlyId(h, rel)
    ensures Collect(RelatedRenderings(h, fuel, d, name, parents, includes)).Ok?
  {
  }

  /**
   * The absolute link of a relation entry can come from an earlier field: when
   * the field's own collection is empty, the link points at the route of the
   * last dataset met in an earlier relation field.
   */
  lemma AbsoluteLinkCarriesOver(h: Host, d: Dataset, names: seq<string>, rendered: seq<seq<Result<Json, RouteError>>>)
    requires |names| > 0 && |rendered| == |names|
    requires h.related(d, names[|names| - 1]) == [] && rendered[|names| - 1] == []
    requires var prev := Relationships(h, d, names[..|names| - 1], rendered[..|names| - 1]);
      prev.Ok? && prev.value.last.Some? && h.routeOf(prev.value.last.value).Some?
    ensures var r := Relationships(h, d, names, rendered);
      var prev := Relationships(h, d, names[..|names| - 1], rendered[..|names| - 1]);
      && r.Ok? && r.value.last == prev.value.last
      && r.value.entries.vals[names[|names| - 1]] == RelationEntry(h, d, names[|names| - 1], [], prev.value.last)
  {
  }
}

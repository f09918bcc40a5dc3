/**
 * What one request to a REST route (`rex_yform_rest_route::handleRequest`)
 * computes, written as values: the walk along the path segments of a GET
 * request, the query of the list view, the bodies GET answers with, and the
 * selection and tally of DELETE. The route class (module RestRoute) performs
 * these steps on its query object and table and is proved to produce exactly
 * these values.
 */
module RestRequest {
  import opened Wrappers
  import opened PhpArray
  import opened PhpString
  import opened PhpValue
  import opened ManagerTable
  import opened RestQuery
  import opened RestFields
  import opened RestList
  import opened RestSerialize
  import opened RestPost

  /** One request: its method, its path segments below the route, its query parameters, the `include` parameter and the posted body. */
  datatype Request = Request(verb: string, paths: seq<string>, get: Arr<string, Json>, includeParam: string, body: Json)

  /**
   * Everything a request reads or changes outside the route: the class
   * catalogue, the datasets queries select, the related datasets of relation
   * fields, the routes registered for datasets, the value types that have a
   * search filter, the dataset store POST writes to, and the outcome of
   * deleting a dataset.
   */
  datatype World = World(
    cat: Catalog,
    db: Database,
    related: (Dataset, string) -> seq<Dataset>,
    routeOf: Dataset -> Option<string>,
    searchable: set<string>,
    store: Store,
    remove: Dataset -> bool)

  /** The request methods the route knows (`$requestMethods`), in the order it announces them. */
  const RequestMethods: seq<string> := ["get", "post", "delete"]

  /** `strtoupper` of a request method name. */
  function Upper(verb: string): string
  {
    if verb == "get" then "GET" else if verb == "post" then "POST" else if verb == "delete" then "DELETE" else verb
  }

  /** The upper-cased methods among `verbs` that the configuration has an entry for, in order. */
  function Announced(methods: map<string, MethodConfig>, verbs: seq<string>): seq<string>
  {
    if verbs == [] then []
    else
      var v := verbs[|verbs| - 1];
      Announced(methods, verbs[..|verbs| - 1]) + (if v in methods then [Upper(v)] else [])
  }

  /** The list of available methods names exactly the configured ones among `verbs`. */
  lemma {:induction false} AnnouncedExact(methods: map<string, MethodConfig>, verbs: seq<string>, x: string)
    ensures x in Announced(methods, verbs) <==> exists v | v in verbs :: v in methods && x == Upper(v)
  {
    if verbs != [] {
      var verbs' := verbs[..|verbs| - 1];
      AnnouncedExact(methods, verbs', x);
      assert forall v :: v in verbs <==> v in verbs' || v == verbs[|verbs| - 1];
    }
  }

  /** The error of a request method the route does not know: it lists the configured ones. */
  function NoMethod(methods: map<string, MethodConfig>): RouteError
  {
    Refused(404, "no-request-method-found", ["please only use: " + Implode(",", Announced(methods, RequestMethods))])
  }

  // ---------------------------------------------------------------------------
  // The walk along the path segments

  /**
   * Where the walk along the path segments stands: the dataset selected, the
   * related datasets entered, the attribute named, the fields allowed for the
   * dataset, and the state of the route's query.
   */
  datatype Walked = Walked(
    instance: Option<Dataset>,
    instances: Option<seq<Dataset>>,
    attribute: Option<string>,
    fields: Arr<string, Field>,
    query: QueryState)

  /** The id column a segment selects by: qualified by the query's table alias when there is one. */
  function IdColumn(alias: string): string
  {
    if alias != "" then alias + ".id" else "id"
  }

  /**
   * The loop over a collection looking for the id of a segment: the last
   * dataset whose id loosely equals it, or `found` when none does.
   */
  function LastWithId(ds: seq<Dataset>, id: string, found: Option<Dataset>): (r: Option<Dataset>)
    ensures r.Some? <==> found.Some? || exists i | 0 <= i < |ds| :: LooseEqualsInt(id, ds[i].id)
    ensures r != found ==> r.Some? && r.value in ds && LooseEqualsInt(id, r.value.id)
  {
    if ds == [] then found
    else if LooseEqualsInt(id, ds[|ds| - 1].id) then Some(ds[|ds| - 1])
    else
      var r := LastWithId(ds[..|ds| - 1], id, found);
      assert forall i | 0 <= i < |ds| - 1 :: ds[..|ds| - 1][i] == ds[i];
      r
  }

  /** When several datasets of the collection carry the id, the last one wins. */
  lemma {:induction false} LastMatchWins(ds: seq<Dataset>, id: string, found: Option<Dataset>, i: int)
    requires 0 <= i < |ds| && LooseEqualsInt(id, ds[i].id)
    requires forall j | i < j < |ds| :: !LooseEqualsInt(id, ds[j].id)
    ensures LastWithId(ds, id, found) == Some(ds[i])
  {
    if i < |ds| - 1 {
      var ds' := ds[..|ds| - 1];
      assert ds'[i] == ds[i];
      LastMatchWins(ds', id, found, i);
    }
  }

  /**
   * One segment of the walk. Inside a collection it selects the dataset with
   * that id; with no dataset yet it narrows the query to that id and selects
   * the first dataset found; below a dataset it names an attribute, and a
   * relation attribute enters the collection of related datasets, whose first
   * dataset (or, when empty, the parent) decides the allowed fields.
   */
  function Advance(h: Host, db: Database, alias: string, s: Walked, path: string): (r: Result<Walked, RouteError>)
    requires h.cat.Valid() && s.fields.Valid()
    ensures r.Ok? ==> r.value.fields.Valid()
    ensures r.Ok? ==> r.value.instance.Some? || r.value.instances.Some?
    ensures r.Ok? ==> r.value.instance.None? || r.value.instances.None?
    ensures r.Ok? ==> r.value.query.orders == s.query.orders && r.value.query.limit == s.query.limit
    ensures r.Ok? ==> (r.value.query.clauses == s.query.clauses
      || r.value.query.clauses == s.query.clauses + [ColumnIs(IdColumn(alias), JStr(path))])
    ensures s.instances.Some? ==>
      (r.Err? <==> s.instance.None? && !exists i | 0 <= i < |s.instances.value| :: LooseEqualsInt(path, s.instances.value[i].id))
    ensures s.instances.Some? && r.Ok? ==> r.value.instance == LastWithId(s.instances.value, path, s.instance) && r.value.query == s.query
    ensures s.instances.None? && s.instance.None? ==>
      var q := s.query.(clauses := s.query.clauses + [ColumnIs(IdColumn(alias), JStr(path))]);
      (r.Err? <==> FindOne(db, q).None? || AllowedFields(h.methods, "get", FindOne(db, q).value.cls, h.cat).Err?)
      && (r.Ok? ==> r.value.instance == FindOne(db, q) && r.value.query == q)
    ensures s.instances.None? && s.instance.Some? && path !in s.fields.vals ==> r == Err(Refused(400, "attribute-not-found", []))
    ensures s.instances.None? && s.instance.Some? && r.Ok? ==> r.value.attribute == Some(path) && r.value.query == s.query
  {
    if s.instances.Some? then
      match LastWithId(s.instances.value, path, s.instance)
      case None => Err(Refused(400, "dataset-not-found", []))
      case Some(d) => Ok(s.(instance := Some(d), attribute := None, instances := None))
    else if s.instance.None? then
      var q := s.query.(clauses := s.query.clauses + [ColumnIs(IdColumn(alias), JStr(path))]);
      match FindOne(db, q)
      case None => Err(Refused(400, "dataset-not-found", []))
      case Some(d) =>
        match AllowedFields(h.methods, "get", d.cls, h.cat)
        case Err(e) => Err(e)
        case Ok(fields) => Ok(Walked(Some(d), None, None, fields, q))
    else if path !in s.fields.vals then Err(Refused(400, "attribute-not-found", []))
    else if s.fields.vals[path].TypeName() == RelationType then
      var rels := h.related(s.instance.value, path);
      var owner := if |rels| > 0 then rels[0] else s.instance.value;
      match AllowedFields(h.methods, "get", owner.cls, h.cat)
      case Err(e) => Err(e)
      case Ok(fields) => Ok(Walked(None, Some(rels), Some(path), fields, s.query))
    else Ok(s.(attribute := Some(path)))
  }

  /** The walk along all segments, first to last; the first failing segment ends it. */
  function WalkFrom(h: Host, db: Database, alias: string, s: Walked, paths: seq<string>): (r: Result<Walked, RouteError>)
    requires h.cat.Valid() && s.fields.Valid()
    ensures r.Ok? ==> r.value.fields.Valid()
    decreases |paths|
  {
    if paths == [] then Ok(s)
    else
      match Advance(h, db, alias, s, paths[0])
      case Err(e) => Err(e)
      case Ok(t) => WalkFrom(h, db, alias, t, paths[1..])
  }

  /** The clauses of `q` that follow its first `n`, each selecting the id of one of the segments. */
  predicate IdClausesOnly(clauses: seq<Clause>, n: nat, alias: string, paths: seq<string>)
  {
    && n <= |clauses|
    && forall c | c in clauses[n..] :: exists p | p in paths :: c == ColumnIs(IdColumn(alias), JStr(p))
  }

  /**
   * A walk that succeeds never holds both a dataset and a collection, and
   * after at least one segment it holds one of the two.
   */
  lemma {:induction false} WalkModes(h: Host, db: Database, alias: string, s: Walked, paths: seq<string>)
    requires h.cat.Valid() && s.fields.Valid()
    requires s.instance.None? || s.instances.None?
    ensures var r := WalkFrom(h, db, alias, s, paths);
      r.Ok? ==>
        && (r.value.instance.None? || r.value.instances.None?)
        && (paths != [] ==> r.value.instance.Some? || r.value.instances.Some?)
    decreases |paths|
  {
    if paths != [] {
      var a := Advance(h, db, alias, s, paths[0]);
      if a.Ok? {
        WalkModes(h, db, alias, a.value, paths[1..]);
      }
    }
  }

  /**
   * Query `r` is query `s` with only id conditions added, each on one of the
   * segments `paths`: the same orderings and limit, and `s`'s clauses first.
   */
  predicate QueryGrows(s: QueryState, r: QueryState, alias: string, paths: seq<string>)
  {
    && r.orders == s.orders && r.limit == s.limit
    && |s.clauses| <= |r.clauses|
    && r.clauses[..|s.clauses|] == s.clauses
    && IdClausesOnly(r.clauses, |s.clauses|, alias, paths)
  }

  /**
   * A walk that succeeds keeps the query's clauses, orderings and limit and
   * adds only id conditions, each on a segment of the path.
   */
  lemma WalkQuery(h: Host, db: Database, alias: string, s: Walked, paths: seq<string>)
    requires h.cat.Valid() && s.fields.Valid()
    ensures var r := WalkFrom(h, db, alias, s, paths);
      r.Ok? ==> QueryGrows(s.query, r.value.query, alias, paths)
  {
    WalkEndQueryGrows(h, db, alias, s, paths);
  }

  /** One step of the walk that adds at most the id condition on `p0` extends `QueryGrows` to `p0`. */
  lemma QueryGrowsStep(sq: QueryState, tq: QueryState, rq: QueryState, alias: string, p0: string, rest: seq<string>)
    requires tq.orders == sq.orders && tq.limit == sq.limit
    requires tq.clauses == sq.clauses || tq.clauses == sq.clauses + [ColumnIs(IdColumn(alias), JStr(p0))]
    requires QueryGrows(tq, rq, alias, rest)
    ensures QueryGrows(sq, rq, alias, [p0] + rest)
  {
    var rc := rq.clauses;
    assert rc[..|sq.clauses|] == rc[..|tq.clauses|][..|sq.clauses|];
    IdClausesStep(rc, sq.clauses, tq.clauses, alias, p0, rest);
  }

  /**
   * What a walk that succeeds leaves behind: never both a dataset and a
   * collection; after at least one segment one of the two; the query keeps
   * its clauses, orderings and limit and gains only id conditions, each on a
   * segment of the path.
   */
  lemma WalkShape(h: Host, db: Database, alias: string, s: Walked, paths: seq<string>)
    requires h.cat.Valid() && s.fields.Valid()
    requires s.instance.None? || s.instances.None?
    ensures var r := WalkFrom(h, db, alias, s, paths);
      r.Ok? ==>
        && (r.value.instance.None? || r.value.instances.None?)
        && (paths != [] ==> r.value.instance.Some? || r.value.instances.Some?)
        && r.value.query.orders == s.query.orders && r.value.query.limit == s.query.limit
        && |s.query.clauses| <= |r.value.query.clauses|
        && r.value.query.clauses[..|s.query.clauses|] == s.query.clauses
        && IdClausesOnly(r.value.query.clauses, |s.query.clauses|, alias, paths)
  {
    WalkModes(h, db, alias, s, paths);
    WalkQuery(h, db, alias, s, paths);
  }

  /** One more segment in front: the id conditions after the shorter prefix come from the longer path. */
  lemma IdClausesStep(rc: seq<Clause>, sc: seq<Clause>, tc: seq<Clause>, alias: string, p0: string, rest: seq<string>)
    requires |tc| <= |rc| && rc[..|tc|] == tc
    requires tc == sc || tc == sc + [ColumnIs(IdColumn(alias), JStr(p0))]
    requires IdClausesOnly(rc, |tc|, alias, rest)
    ensures IdClausesOnly(rc, |sc|, alias, [p0] + rest)
  {
    var n := |sc|;
    var m := |tc|;
    forall c | c in rc[n..]
      ensures exists p | p in [p0] + rest :: c == ColumnIs(IdColumn(alias), JStr(p))
    {
      var k :| 0 <= k < |rc[n..]| && rc[n..][k] == c;
      if n + k < m {
        assert c == tc[n];
        assert p0 in [p0] + rest;
      } else {
        assert c in rc[m..] by { assert rc[m..][n + k - m] == c; }
        var p :| p in rest && c == ColumnIs(IdColumn(alias), JStr(p));
        assert p in [p0] + rest;
      }
    }
  }

  // ---------------------------------------------------------------------------
  // GET

  /** The clauses the `filter` parameter adds to a query (`getFilterQuery`). */
  function FilterAdded(get: Arr<string, Json>, fields: Arr<string, Field>, searchable: set<string>): seq<Clause>
    requires fields.Valid()
  {
    match FilterParam(get)
    case None => []
    case Some(f) => FilterClauses(f.keys, f.vals, fields, searchable)
  }

  /** A query after `getFilterQuery`. */
  function Filtered(q: QueryState, get: Arr<string, Json>, fields: Arr<string, Field>, searchable: set<string>): QueryState
    requires fields.Valid()
  {
    q.(clauses := q.clauses + FilterAdded(get, fields, searchable))
  }

  /**
   * The page size the table's list uses (`getListAmount`): the stored one
   * unless it is missing or below 1 (PHP 8's comparison), else the default.
   * It casts to a non-negative integer, at least 1 when it is numeric.
   */
  function ListAmountOf(values: Row): (a: string)
    ensures IntCast(a) >= 0 && (IsIntString(a) ==> IntCast(a) >= 1)
  {
    if "list_amount" !in values || LessThanInt(values["list_amount"], 1) then
      DefaultListAmountValue();
      DefaultListAmount
    else
      NotBelowOne(values["list_amount"]);
      values["list_amount"]
  }

  /** The list view's query and figures before the query runs. */
  datatype ListPlan = ListPlan(state: QueryState, perPageValue: Json, page: int, order: Arr<string, string>, total: nat)

  /**
   * The list view: the filtered query is counted, limited to the page and
   * ordered; the page size, the page and the recorded order are reported.
   */
  function PlanList(db: Database, q0: QueryState, fields: Arr<string, Field>, get: Arr<string, Json>, searchable: set<string>,
                    amount: string, sortField: string, sortOrder: string): ListPlan
    requires fields.Valid()
  {
    var filtered := Filtered(q0, get, fields, searchable);
    var ppv := PerPageValue(Param(get, "per_page"), amount);
    var page := CurrentPage(Param(get, "page"));
    var plan := PlanOrder(get, fields, sortField, sortOrder);
    ListPlan(filtered.(limit := Some(PageLimit(page, IntOf(ppv))), orders := filtered.orders + plan.calls),
      ppv, page, plan.recorded, Count(db, filtered))
  }

  /**
   * The list query fails exactly on page 0 with a page size above 0 (its
   * offset is then negative); the limit always takes the page size, and the
   * count ignores the paging and the ordering.
   */
  lemma ListQueryFails(db: Database, q0: QueryState, fields: Arr<string, Field>, get: Arr<string, Json>, searchable: set<string>,
                       amount: string, sortField: string, sortOrder: string)
    requires fields.Valid() && IntCast(amount) >= 0
    ensures var p := PlanList(db, q0, fields, get, searchable, amount, sortField, sortOrder);
      && (Find(db, p.state).Err? <==> p.page == 0 && IntOf(p.perPageValue) > 0)
      && p.state.limit == Some(Limit((p.page - 1) * IntOf(p.perPageValue), IntOf(p.perPageValue)))
      && p.state.clauses == q0.clauses + FilterAdded(get, fields, searchable)
      && p.total == |db.rows(q0.(clauses := p.state.clauses, limit := None))|
  {
    var p := PlanList(db, q0, fields, get, searchable, amount, sortField, sortOrder);
    assert IntOf(p.perPageValue) == PerPage(Param(get, "per_page"), amount);
    NegativeOffset(p.page, IntOf(p.perPageValue));
  }

  /** The renderings of the datasets of a collection, each at the path extended by its id. */
  function Renders(h: Host, fuel: nat, ds: seq<Dataset>, paths: seq<Json>, includes: Arr<string, string>): (r: seq<Result<Json, RouteError>>)
    requires h.cat.Valid()
    ensures |r| == |ds|
  {
    seq(|ds|, i requires 0 <= i < |ds| => InstanceData(h, fuel, ds[i], paths + [JInt(ds[i].id)], false, [], includes))
  }

  /** The path segments as they appear in links. */
  function SegmentsJson(paths: seq<string>): (r: seq<Json>)
    ensures |r| == |paths| && forall i | 0 <= i < |paths| :: r[i] == JStr(paths[i])
  {
    seq(|paths|, i requires 0 <= i < |paths| => JStr(paths[i]))
  }

  /** `$meta['filter']`: the request's filter when it is an array. */
  function FilterEcho(get: Arr<string, Json>): Option<Json>
  {
    if FilterParam(get).Some? then Some(get.vals["filter"]) else None
  }

  /** A GET without path segments: one page of the filtered, ordered datasets in the list document. */
  function ListOutcome(h: Host, db: Database, fuel: nat, q0: QueryState, fields: Arr<string, Field>, get: Arr<string, Json>,
                       searchable: set<string>, amount: string, sortField: string, sortOrder: string,
                       includes: Arr<string, string>): (r: Result<Response, RouteError>)
    requires h.cat.Valid() && fields.Valid()
  {
    var p := PlanList(db, q0, fields, get, searchable, amount, sortField, sortOrder);
    match Find(db, p.state)
    case Err(_) => Err(Thrown("sql-error"))
    case Ok(ds) =>
      match Collect(Renders(h, fuel, ds, [], includes))
      case Err(e) => Err(e)
      case Ok(items) =>
        match ListDocument(Page(FilterEcho(get), p.order, p.total, p.perPageValue, p.page, items))
        case Err(e) => Err(e)
        case Ok(doc) => Ok(Response(200, doc))
  }

  /**
   * The list view answers 200 with the list document of the page's
   * datasets, or fails: on page 0 with a page size above 0, with a page size
   * of 0, or when rendering a dataset fails.
   */
  lemma ListOutcomeShape(h: Host, db: Database, fuel: nat, q0: QueryState, fields: Arr<string, Field>, get: Arr<string, Json>,
                         searchable: set<string>, amount: string, sortField: string, sortOrder: string,
                         includes: Arr<string, string>)
    requires h.cat.Valid() && fields.Valid() && IntCast(amount) >= 0
    ensures var p := PlanList(db, q0, fields, get, searchable, amount, sortField, sortOrder);
      var r := ListOutcome(h, db, fuel, q0, fields, get, searchable, amount, sortField, sortOrder, includes);
      && (p.page == 0 && IntOf(p.perPageValue) > 0 ==> r == Err(Thrown("sql-error")))
      && (IntOf(p.perPageValue) == 0 ==> r.Err?)
      && (r.Ok? ==> r.value.status == 200 && r.value.body.JObj? && r.value.body.members.keys == ["links", "meta", "data"]
                    && "data" in r.value.body.members.vals
                    && r.value.body.members.vals["data"] == JList(Collect(Renders(h, fuel, db.rows(p.state), [], includes)).value))
  {
    ListQueryFails(db, q0, fields, get, searchable, amount, sortField, sortOrder);
  }

  /** The body of a GET after a successful walk. */
  function WalkedBody(h: Host, fuel: nat, paths: seq<string>, s: Walked, includes: Arr<string, string>): (r: Result<Json, RouteError>)
    requires h.cat.Valid()
  {
    if s.instances.Some? then
      match Collect(Renders(h, fuel, s.instances.value, SegmentsJson(paths), includes))
      case Err(e) => Err(e)
      case Ok(items) => Ok(JList(items))
    else if s.instance.Some? then
      if s.attribute.Some? && Truthy(JStr(s.attribute.value)) then Ok(s.instance.value.Value(s.attribute.value))
      else InstanceData(h, fuel, s.instance.value, SegmentsJson(paths), false, [], includes)
    else Ok(JList([]))
  }

  /** A GET with path segments: the walk, then what it ends at. */
  function DetailOutcome(h: Host, db: Database, alias: string, fuel: nat, q0: QueryState, fields: Arr<string, Field>,
                         paths: seq<string>, includes: Arr<string, string>): (r: Result<Response, RouteError>)
    requires h.cat.Valid() && fields.Valid()
  {
    match WalkFrom(h, db, alias, Walked(None, None, None, fields, q0), paths)
    case Err(e) => Err(e)
    case Ok(s) =>
      match WalkedBody(h, fuel, paths, s, includes)
      case Err(e) => Err(e)
      case Ok(body) => Ok(Response(200, body))
  }

  /**
   * The first segment of a GET always selects by id: a walk that succeeds
   * ends at a dataset or at a collection (never both), and its query starts
   * with the route's conditions followed by the id condition of the first
   * segment.
   */
  lemma WalkStartsById(h: Host, db: Database, alias: string, q0: QueryState, fields: Arr<string, Field>, paths: seq<string>)
    requires h.cat.Valid() && fields.Valid() && paths != []
    ensures var w := WalkFrom(h, db, alias, Walked(None, None, None, fields, q0), paths);
      w.Ok? ==>
        && w.value.instance.Some? != w.value.instances.Some?
        && |w.value.query.clauses| > |q0.clauses|
        && w.value.query.clauses[..|q0.clauses|] == q0.clauses
        && w.value.query.clauses[|q0.clauses|] == ColumnIs(IdColumn(alias), JStr(paths[0]))
  {
    var s0 := Walked(None, None, None, fields, q0);
    var w := WalkFrom(h, db, alias, s0, paths);
    WalkShape(h, db, alias, s0, paths);
    var a := Advance(h, db, alias, s0, paths[0]);
    if a.Ok? && w.Ok? {
      WalkShape(h, db, alias, a.value, paths[1..]);
      var rc := w.value.query.clauses;
      var m := |a.value.query.clauses|;
      assert rc[..m] == a.value.query.clauses;
      assert rc[|q0.clauses|] == rc[..m][|q0.clauses|];
    }
  }

  /**
   * What a GET with path segments answers: the walk's error when it fails;
   * otherwise 200 with a list of as many renderings as the collection the
   * walk ends in has datasets, or the raw value of the attribute it names.
   */
  lemma DetailOutcomeShape(h: Host, db: Database, alias: string, fuel: nat, q0: QueryState, fields: Arr<string, Field>,
                           paths: seq<string>, includes: Arr<string, string>)
    requires h.cat.Valid() && fields.Valid()
    ensures var w := WalkFrom(h, db, alias, Walked(None, None, None, fields, q0), paths);
      var r := DetailOutcome(h, db, alias, fuel, q0, fields, paths, includes);
      && (w.Err? ==> r == Err(w.error))
      && (r.Ok? ==> w.Ok? && r.value.status == 200)
      && (w.Ok? && w.value.instances.Some? && r.Ok? ==>
            r.value.body.JList? && |r.value.body.items| == |w.value.instances.value|)
      && (w.Ok? && w.value.instances.None? && w.value.instance.Some? && w.value.attribute.Some?
            && Truthy(JStr(w.value.attribute.value)) ==>
            r == Ok(Response(200, w.value.instance.value.Value(w.value.attribute.value))))
  {
  }

  /** The include set rendering uses: the memo when it is set, the request's otherwise. */
  function Included(memo: Option<Arr<string, string>>, param: string): Arr<string, string>
  {
    if memo.Some? then memo.value else IncludeSet(param)
  }

  /**
   * The GET branch as a value: the `get` whitelist of the route's class,
   * then the list view without path segments or the walk with them. The
   * table's row gives the page size and the default ordering.
   */
  function GetOutcome(h: Host, db: Database, alias: string, searchable: set<string>, fuel: nat, q0: QueryState,
                      typeClass: string, req: Request, tableValues: Row, memo: Option<Arr<string, string>>): Result<Response, RouteError>
    requires h.cat.Valid()
  {
    match AllowedFields(h.methods, "get", typeClass, h.cat)
    case Err(e) => Err(e)
    case Ok(fields) =>
      var includes := Included(memo, req.includeParam);
      if req.paths == [] then
        ListOutcome(h, db, fuel, q0, fields, req.get, searchable, ListAmountOf(tableValues),
          Cell(tableValues, "list_sortfield"), Cell(tableValues, "list_sortorder"), includes)
      else DetailOutcome(h, db, alias, fuel, q0, fields, req.paths, includes)
  }

  /** The POST branch as a value: the `post` whitelist of the route's class, then the posted dataset. */
  function PostRequest(methods: map<string, MethodConfig>, typeClass: string, w: World, req: Request): Result<Response, RouteError>
    requires w.cat.Valid()
  {
    match AllowedFields(methods, "post", typeClass, w.cat)
    case Err(e) => Err(e)
    case Ok(fields) => PostOutcome(fields, TypeFromClass(typeClass), req.body, w.store)
  }

  // ---------------------------------------------------------------------------
  // DELETE

  /**
   * The datasets DELETE selects, as evidently intended: a `filter` that adds
   * no condition is refused; a filter that adds one selects what it matches;
   * without a filter the first segment is the id to delete, and without one
   * the request is refused.
   */
  function DeleteSelection(q0: QueryState, added: seq<Clause>, paths: seq<string>, get: Arr<string, Json>): (r: Result<QueryState, RouteError>)
  {
    var filtered := q0.(clauses := q0.clauses + added);
    if filtered == q0 && IsSet(Param(get, "filter")) then Err(Refused(404, "no-available-filter-set", []))
    else if filtered != q0 then Ok(filtered)
    else if paths == [] then Err(Refused(404, "no-id-set", []))
    else Ok(filtered.(clauses := filtered.clauses + [ColumnIs("id", JStr(paths[0]))]))
  }

  /**
   * A DELETE never runs on the unnarrowed query: a selection always has at
   * least one condition more than the route's query, keeping its own; it is
   * refused exactly when the filter adds nothing and either a filter was
   * given or no id.
   */
  lemma DeleteAlwaysNarrowed(q0: QueryState, added: seq<Clause>, paths: seq<string>, get: Arr<string, Json>)
    ensures var r := DeleteSelection(q0, added, paths, get);
      && (r.Err? <==> added == [] && (IsSet(Param(get, "filter")) || paths == []))
      && (r.Ok? ==> |r.value.clauses| > |q0.clauses| && r.value.clauses[..|q0.clauses|] == q0.clauses
                    && r.value.orders == q0.orders && r.value.limit == q0.limit)
      && (added != [] ==> r == Ok(q0.(clauses := q0.clauses + added)))
      && (added == [] && !IsSet(Param(get, "filter")) && paths != [] ==>
            r == Ok(q0.(clauses := q0.clauses + [ColumnIs("id", JStr(paths[0]))])))
  {
    var filtered := q0.(clauses := q0.clauses + added);
    assert filtered == q0 <==> added == [] by {
      if filtered == q0 { assert |q0.clauses + added| == |q0.clauses|; }
      if added == [] { assert q0.clauses + added == q0.clauses; }
    }
    assert (q0.clauses + added)[..|q0.clauses|] == q0.clauses;
  }

  /** The number of datasets whose deletion succeeded. */
  function DeletedCount(rows: seq<Dataset>, remove: Dataset -> bool): nat
  {
    if rows == [] then 0
    else DeletedCount(rows[..|rows| - 1], remove) + (if remove(rows[|rows| - 1]) then 1 else 0)
  }

  /** The number of datasets whose deletion failed. */
  function FailedCount(rows: seq<Dataset>, remove: Dataset -> bool): nat
  {
    if rows == [] then 0
    else FailedCount(rows[..|rows| - 1], remove) + (if remove(rows[|rows| - 1]) then 0 else 1)
  }

  /** Every selected dataset is counted once, as deleted or as failed. */
  lemma {:induction false} TallyAddsUp(rows: seq<Dataset>, remove: Dataset -> bool)
    ensures DeletedCount(rows, remove) + FailedCount(rows, remove) == |rows|
    ensures DeletedCount(rows, remove) == |rows| <==> forall i | 0 <= i < |rows| :: remove(rows[i])
  {
    if rows != [] {
      var rows' := rows[..|rows| - 1];
      TallyAddsUp(rows', remove);
      assert forall i | 0 <= i < |rows'| :: rows'[i] == rows[i];
      if DeletedCount(rows', remove) < |rows'| {
        var i :| 0 <= i < |rows'| && !remove(rows'[i]);
        assert !remove(rows[i]);
      }
    }
  }

  /** `['id' => ...]` for each selected dataset, in order. */
  function IdEntries(rows: seq<Dataset>): (r: seq<Json>)
    ensures |r| == |rows| && forall i | 0 <= i < |rows| :: r[i] == JObj(Arr(["id"], map["id" := JInt(rows[i].id)]))
  {
    seq(|rows|, i requires 0 <= i < |rows| => JObj(Arr(["id"], map["id" := JInt(rows[i].id)])))
  }

  /** The content DELETE answers with: the counts, and the ids when anything was selected. */
  function Tally(rows: seq<Dataset>, remove: Dataset -> bool): Json
  {
    var counts := map["all" := JInt(|rows|), "deleted" := JInt(DeletedCount(rows, remove)),
                      "failed" := JInt(FailedCount(rows, remove))];
    if rows == [] then JObj(Arr(["all", "deleted", "failed"], counts))
    else JObj(Arr(["all", "deleted", "failed", "dataset"], counts["dataset" := JList(IdEntries(rows))]))
  }

  /** The DELETE branch as a value (with the selection as evidently intended). */
  function DeleteOutcome(db: Database, q0: QueryState, added: seq<Clause>, paths: seq<string>, get: Arr<string, Json>,
                         remove: Dataset -> bool): Result<Response, RouteError>
  {
    match DeleteSelection(q0, added, paths, get)
    case Err(e) => Err(e)
    case Ok(q) =>
      match Find(db, q)
      case Err(_) => Err(Thrown("sql-error"))
      case Ok(rows) => Ok(Response(200, Tally(rows, remove)))
  }

  /**
   * The DELETE answer: `all` is the number of datasets selected, `deleted`
   * and `failed` add up to it, and `dataset` lists their ids in order, being
   * present only when something was selected.
   */
  lemma TallyExact(rows: seq<Dataset>, remove: Dataset -> bool)
    ensures var t := Tally(rows, remove);
      && t.JObj? && "all" in t.members.vals && "deleted" in t.members.vals && "failed" in t.members.vals
      && t.members.vals["all"] == JInt(|rows|)
      && IntOf(t.members.vals["deleted"]) + IntOf(t.members.vals["failed"]) == |rows|
      && IntOf(t.members.vals["deleted"]) >= 0 && IntOf(t.members.vals["failed"]) >= 0
      && ("dataset" in t.members.keys <==> |rows| > 0)
      && ("dataset" in t.members.vals ==> t.members.vals["dataset"] == JList(IdEntries(rows)))
  {
    TallyAddsUp(rows, remove);
  }

  /** The DELETE branch as a value: the `delete` whitelist of the route's class, then the selection and the tally. */
  function DeleteRequest(methods: map<string, MethodConfig>, typeClass: string, w: World, q0: QueryState, req: Request): Result<Response, RouteError>
    requires w.cat.Valid()
  {
    match AllowedFields(methods, "delete", typeClass, w.cat)
    case Err(e) => Err(e)
    case Ok(fields) => DeleteOutcome(w.db, q0, FilterAdded(req.get, fields, w.searchable), req.paths, req.get, w.remove)
  }

  /**
   * The selection as the source writes it takes the filtered query whatever
   * the filter added: with no filter and the segment "5" it selects every
   * dataset of the route's query, where the evidently intended selection
   * adds the condition `id = 5`.
   */
  lemma DeleteByIdIgnored(q0: QueryState, fields: Arr<string, Field>, searchable: set<string>)
    requires fields.Valid()
    ensures var get := Empty<string, Json>();
      && Filtered(q0, get, fields, searchable) == q0
      && DeleteSelection(q0, FilterAdded(get, fields, searchable), ["5"], get)
           == Ok(q0.(clauses := q0.clauses + [ColumnIs("id", JStr("5"))]))
      && DeleteSelection(q0, FilterAdded(get, fields, searchable), ["5"], get) != Ok(Filtered(q0, get, fields, searchable))
  {
    var get := Empty<string, Json>();
    assert FilterParam(get).None?;
    assert q0.clauses + [] == q0.clauses;
    assert |q0.clauses + [ColumnIs("id", JStr("5"))]| != |q0.clauses|;
  }

  // ---------------------------------------------------------------------------
  // What a request leaves on the route

  /** The state of a route that requests change: its query, its table's row and the memo of `getIncludes`. */
  datatype RouteState = RouteState(query: QueryState, row: Row, includes: Option<Arr<string, string>>)

  /**
   * The table's row after `getListAmount`: the default is stored when the
   * list amount is missing or below 1, so the row then holds the amount the
   * call returns; no other entry changes.
   */
  function StoredListAmount(values: Row): (r: Row)
    ensures "list_amount" in r && r["list_amount"] == ListAmountOf(values)
    ensures r.Keys == values.Keys + {"list_amount"}
    ensures forall k | k in values && k != "list_amount" :: r[k] == values[k]
  {
    if "list_amount" !in values || LessThanInt(values["list_amount"], 1) then values["list_amount" := DefaultListAmount]
    else values
  }

  /**
   * The table's row after the page size is chosen: `getListAmount` runs (and
   * may store the default) unless a non-negative `per_page` was requested.
   * A later request reads the same list amount and the same default order.
   */
  function RowAfterPageSize(requested: Json, values: Row): (r: Row)
    ensures ListAmountOf(r) == ListAmountOf(values)
    ensures Cell(r, "list_sortfield") == Cell(values, "list_sortfield")
    ensures Cell(r, "list_sortorder") == Cell(values, "list_sortorder")
  {
    ListAmountKeepsSort(values, DefaultListAmount);
    DefaultListAmountValue();
    if IsSet(requested) && IntOf(requested) >= 0 then values else StoredListAmount(values)
  }

  /**
   * The memo of `getIncludes` after a request that asked for it (`asked`) or
   * not: once asked it is set, and it never changes which includes rendering
   * uses.
   */
  function IncludesAfter(memo: Option<Arr<string, string>>, param: string, asked: bool): (r: Option<Arr<string, string>>)
    ensures Included(r, param) == Included(memo, param)
    ensures memo.Some? ==> r == memo
    ensures asked ==> r.Some?
  {
    if asked then Some(Included(memo, param)) else memo
  }

  /** Whether the list view asks for the includes: when its query finds at least one dataset. */
  predicate ListAsksIncludes(db: Database, p: ListPlan)
  {
    Find(db, p.state).Ok? && |Find(db, p.state).value| > 0
  }

  /**
   * The route after the list view: the query filtered, limited to the page
   * and ordered; the row after the page size is chosen; the memo set when a
   * dataset was found.
   */
  function ListState(db: Database, q0: QueryState, fields: Arr<string, Field>, get: Arr<string, Json>, searchable: set<string>,
                     row: Row, memo: Option<Arr<string, string>>, param: string): (r: RouteState)
    requires fields.Valid()
    ensures r.query.clauses == q0.clauses + FilterAdded(get, fields, searchable)
    ensures |q0.orders| <= |r.query.orders| && r.query.orders[..|q0.orders|] == q0.orders
    ensures ListAmountOf(r.row) == ListAmountOf(row)
    ensures Included(r.includes, param) == Included(memo, param)
  {
    var p := PlanList(db, q0, fields, get, searchable, ListAmountOf(row), Cell(row, "list_sortfield"), Cell(row, "list_sortorder"));
    ListQueryFails(db, q0, fields, get, searchable, ListAmountOf(row), Cell(row, "list_sortfield"), Cell(row, "list_sortorder"));
    RouteState(p.state, RowAfterPageSize(Param(get, "per_page"), row), IncludesAfter(memo, param, ListAsksIncludes(db, p)))
  }

  /**
   * The query after one segment of the walk, whether the segment succeeds or
   * not: with no dataset selected yet the id condition is added before the
   * dataset is looked up; otherwise the query is left alone.
   */
  function AdvanceQuery(alias: string, s: Walked, path: string): QueryState
  {
    if s.instances.None? && s.instance.None? then s.query.(clauses := s.query.clauses + [ColumnIs(IdColumn(alias), JStr(path))])
    else s.query
  }

  /** The query where the walk stops: after its last segment, or after the segment that fails. */
  function WalkEndQuery(h: Host, db: Database, alias: string, s: Walked, paths: seq<string>): QueryState
    requires h.cat.Valid() && s.fields.Valid()
    decreases |paths|
  {
    if paths == [] then s.query
    else
      match Advance(h, db, alias, s, paths[0])
      case Err(_) => AdvanceQuery(alias, s, paths[0])
      case Ok(t) => WalkEndQuery(h, db, alias, t, paths[1..])
  }

  /**
   * Where the walk stops, the query has only gained id conditions, each on a
   * segment of the path, even when a segment fails; when the walk succeeds
   * it is the query the walk reports.
   */
  lemma {:induction false} WalkEndQueryGrows(h: Host, db: Database, alias: string, s: Walked, paths: seq<string>)
    requires h.cat.Valid() && s.fields.Valid()
    ensures QueryGrows(s.query, WalkEndQuery(h, db, alias, s, paths), alias, paths)
    ensures WalkFrom(h, db, alias, s, paths).Ok? ==> WalkFrom(h, db, alias, s, paths).value.query == WalkEndQuery(h, db, alias, s, paths)
    decreases |paths|
  {
    var e := WalkEndQuery(h, db, alias, s, paths);
    if paths == [] {
      assert e.clauses[..|s.query.clauses|] == s.query.clauses;
    } else {
      var rest := paths[1..];
      assert [paths[0]] + rest == paths;
      var a := Advance(h, db, alias, s, paths[0]);
      if a.Ok? {
        WalkEndQueryGrows(h, db, alias, a.value, rest);
        assert e == WalkEndQuery(h, db, alias, a.value, rest);
        QueryGrowsStep(s.query, a.value.query, e, alias, paths[0], rest);
      } else {
        assert e == AdvanceQuery(alias, s, paths[0]);
        assert e.clauses[..|e.clauses|] == e.clauses;
        QueryGrowsStep(s.query, e, e, alias, paths[0], rest);
      }
    }
  }

  /**
   * Whether the output of a walk asks for the includes: a collection that is
   * not empty, or a dataset not reduced to one of its attributes.
   */
  predicate DetailAsksIncludes(w: Result<Walked, RouteError>)
  {
    && w.Ok?
    && if w.value.instances.Some? then |w.value.instances.value| > 0
       else w.value.instance.Some? && !(w.value.attribute.Some? && Truthy(JStr(w.value.attribute.value)))
  }

  /**
   * The route after a GET with path segments: the query where the walk
   * stops, the row untouched, the memo set when the output asked for it.
   */
  function DetailState(h: Host, db: Database, alias: string, q0: QueryState, fields: Arr<string, Field>, paths: seq<string>,
                       row: Row, memo: Option<Arr<string, string>>, param: string): (r: RouteState)
    requires h.cat.Valid() && fields.Valid()
    ensures QueryGrows(q0, r.query, alias, paths)
    ensures r.row == row
    ensures Included(r.includes, param) == Included(memo, param)
  {
    var s := Walked(None, None, None, fields, q0);
    WalkEndQueryGrows(h, db, alias, s, paths);
    RouteState(WalkEndQuery(h, db, alias, s, paths), row, IncludesAfter(memo, param, DetailAsksIncludes(WalkFrom(h, db, alias, s, paths))))
  }

  /** The route after the GET branch: unchanged when the `get` whitelist fails, else after the list view or the walk. */
  function GetState(h: Host, db: Database, alias: string, searchable: set<string>, q0: QueryState,
                    typeClass: string, req: Request, row: Row, memo: Option<Arr<string, string>>): (r: RouteState)
    requires h.cat.Valid()
    ensures ListAmountOf(r.row) == ListAmountOf(row)
    ensures Cell(r.row, "list_sortfield") == Cell(row, "list_sortfield") && Cell(r.row, "list_sortorder") == Cell(row, "list_sortorder")
    ensures Included(r.includes, req.includeParam) == Included(memo, req.includeParam)
    ensures |q0.clauses| <= |r.query.clauses| && r.query.clauses[..|q0.clauses|] == q0.clauses
  {
    match AllowedFields(h.methods, "get", typeClass, h.cat)
    case Err(_) =>
      assert q0.clauses[..|q0.clauses|] == q0.clauses;
      RouteState(q0, row, memo)
    case Ok(fields) =>
      if req.paths == [] then
        var r := ListState(db, q0, fields, req.get, searchable, row, memo, req.includeParam);
        assert r.row == RowAfterPageSize(Param(req.get, "per_page"), row);
        assert (q0.clauses + FilterAdded(req.get, fields, searchable))[..|q0.clauses|] == q0.clauses;
        r
      else DetailState(h, db, alias, q0, fields, req.paths, row, memo, req.includeParam)
  }

  /**
   * The route's query after the DELETE branch: the selection when there is
   * one, else the query as it was, since a refused selection adds nothing.
   * After a DELETE that answers, the query is strictly narrower.
   */
  function DeleteQuery(methods: map<string, MethodConfig>, typeClass: string, w: World, q0: QueryState, req: Request): (r: QueryState)
    requires w.cat.Valid()
    ensures r == q0 || (|r.clauses| > |q0.clauses| && r.clauses[..|q0.clauses|] == q0.clauses)
    ensures DeleteRequest(methods, typeClass, w, q0, req).Ok? ==> |r.clauses| > |q0.clauses| && r.clauses[..|q0.clauses|] == q0.clauses
  {
    match AllowedFields(methods, "delete", typeClass, w.cat)
    case Err(_) => q0
    case Ok(fields) =>
      var added := FilterAdded(req.get, fields, w.searchable);
      DeleteAlwaysNarrowed(q0, added, req.paths, req.get);
      match DeleteSelection(q0, added, req.paths, req.get)
      case Err(_) => q0
      case Ok(q) => q
  }
}

/**
 * The REST route object (rex_yform_rest_route): its configuration, the table
 * and the query it serves, and the memo of the `include` parameter, with
 * `handleRequest` and its helpers written with the loops of the source. Each
 * method is proved to compute the value RestRequest, RestFields, RestList,
 * RestSerialize or RestPost describes.
 */
module RestRoute {
  import opened Wrappers
  import opened PhpArray
  import opened PhpString
  import opened PhpValue
  import opened ManagerTable
  import opened RestQuery
  import opened RestFields
  import opened RestList
  import opened RestSerialize
  import opened RestPost
  import opened RestRequest

  /** A route's configuration: its path, its model class (`type`), the entries of the request methods and `auth`. */
  datatype RouteConfig = RouteConfig(path: string, typeClass: string, methods: map<string, MethodConfig>, auth: Auth)

  /** The loop over a collection looking for the dataset of a segment's id. */
  method FindInCollection(ds: seq<Dataset>, id: string, found: Option<Dataset>) returns (r: Option<Dataset>)
    ensures r == LastWithId(ds, id, found)
  {
    r := found;
    for i := 0 to |ds|
      invariant r == LastWithId(ds[..i], id, found)
    {
      assert ds[..i + 1][..i] == ds[..i];
      if LooseEqualsInt(id, ds[i].id) {
        r := Some(ds[i]);
      }
    }
    assert ds[..|ds|] == ds;
  }

  /** The first `i + 1` elements of a sequence end with its `i`th after the first `i`. */
  lemma PrefixStep<T>(s: seq<T>, i: nat)
    requires i < |s|
    ensures s[..i + 1][..i] == s[..i] && s[..i + 1][i] == s[i]
  {
  }

  /** Extending a list of renderings never undoes a failure among the first ones. */
  lemma {:induction false} CollectErrSticks(items: seq<Result<Json, RouteError>>, j: nat)
    requires j <= |items| && Collect(items[..j]).Err?
    ensures Collect(items) == Collect(items[..j])
    decreases |items| - j
  {
    if j < |items| {
      assert items[..j + 1][..j] == items[..j];
      CollectErrSticks(items, j + 1);
    } else {
      assert items[..j] == items;
    }
  }

  /** The loop rendering the datasets of a collection; the first failure ends it. */
  method RenderAll(h: Host, fuel: nat, ds: seq<Dataset>, paths: seq<Json>, includes: Arr<string, string>)
    returns (r: Result<seq<Json>, RouteError>)
    requires h.cat.Valid()
    ensures r == Collect(Renders(h, fuel, ds, paths, includes))
  {
    ghost var all := Renders(h, fuel, ds, paths, includes);
    var items: seq<Json> := [];
    for i := 0 to |ds|
      invariant Collect(all[..i]) == Ok(items)
    {
      var one := InstanceData(h, fuel, ds[i], paths + [JInt(ds[i].id)], false, [], includes);
      PrefixStep(all, i);
      assert all[i] == one;
      if one.Err? {
        CollectErrSticks(all, i + 1);
        return Err(one.error);
      }
      items := items + [one.value];
    }
    assert all[..|ds|] == all;
    r := Ok(items);
  }

  /** The content DELETE answers with, counted by the loop over the selected datasets. */
  method TallyLoop(rows: seq<Dataset>, remove: Dataset -> bool) returns (content: Json)
    ensures content == Tally(rows, remove)
  {
    var deleted := 0;
    var failed := 0;
    var ids: seq<Json> := [];
    for i := 0 to |rows|
      invariant deleted == DeletedCount(rows[..i], remove) && failed == FailedCount(rows[..i], remove)
      invariant ids == IdEntries(rows[..i])
    {
      assert rows[..i + 1][..i] == rows[..i];
      if remove(rows[i]) {
        deleted := deleted + 1;
      } else {
        failed := failed + 1;
      }
      ids := ids + [JObj(Arr(["id"], map["id" := JInt(rows[i].id)]))];
    }
    assert rows[..|rows|] == rows;
    var counts := map["all" := JInt(|rows|), "deleted" := JInt(deleted), "failed" := JInt(failed)];
    if |rows| == 0 {
      content := JObj(Arr(["all", "deleted", "failed"], counts));
    } else {
      content := JObj(Arr(["all", "deleted", "failed", "dataset"], counts["dataset" := JList(ids)]));
    }
  }

  /** The loop of `getFields`: every available field with a database column that the configuration allows. */
  method WhitelistLoop(base: Arr<string, Field>, avail: Arr<string, Field>, allowed: seq<string>) returns (fields: Arr<string, Field>)
    requires base.Valid() && avail.Valid()
    ensures fields == Whitelist(base, avail.keys, avail.vals, allowed)
  {
    fields := base;
    for i := 0 to |avail.keys|
      invariant fields == Whitelist(base, avail.keys[..i], avail.vals, allowed)
    {
      WhitelistStep(base, avail, i, allowed);
      var k := avail.keys[i];
      if avail.vals[k].dbFieldType != "none" && k in allowed {
        fields := fields.Put(k, avail.vals[k]);
      }
    }
    assert avail.keys[..|avail.keys|] == avail.keys;
  }

  lemma WhitelistStep(base: Arr<string, Field>, avail: Arr<string, Field>, i: nat, allowed: seq<string>)
    requires base.Valid() && avail.Valid() && i < |avail.keys|
    ensures var k := avail.keys[i];
      var prev := Whitelist(base, avail.keys[..i], avail.vals, allowed);
      Whitelist(base, avail.keys[..i + 1], avail.vals, allowed) ==
        if avail.vals[k].dbFieldType != "none" && k in allowed then prev.Put(k, avail.vals[k]) else prev
  {
    assert avail.keys[..i + 1][..i] == avail.keys[..i];
  }

  /** The outer loop of `getFilterQuery`: the clauses of each filter entry, in order. */
  method FilterLoop(q: Query, f: Arr<string, Json>, fields: Arr<string, Field>, searchable: set<string>)
    requires f.Valid() && fields.Valid()
    modifies q
    ensures q.state == old(q.state).(clauses := old(q.state).clauses + FilterClauses(f.keys, f.vals, fields, searchable))
  {
    ghost var q0 := q.state;
    ghost var added: seq<Clause> := [];
    for i := 0 to |f.keys|
      invariant added == FilterClauses(f.keys[..i], f.vals, fields, searchable)
      invariant q.state == q0.(clauses := q0.clauses + added)
    {
      FilterClausesStep(f, i, fields, searchable);
      var fk := f.keys[i];
      ghost var more := ClausesForKey(fk, f.vals[fk], fields.keys, fields.vals, searchable);
      assert q0.clauses + (added + more) == q0.clauses + added + more;
      AddKeyClauses(q, fk, f.vals[fk], fields.keys, fields.vals, searchable);
      added := added + more;
    }
    assert f.keys[..|f.keys|] == f.keys;
  }

  /** One more filter entry adds its clauses after those of the entries before it. */
  lemma FilterClausesStep(f: Arr<string, Json>, i: nat, fields: Arr<string, Field>, searchable: set<string>)
    requires f.Valid() && fields.Valid() && i < |f.keys|
    ensures FilterClauses(f.keys[..i + 1], f.vals, fields, searchable) ==
      FilterClauses(f.keys[..i], f.vals, fields, searchable) + ClausesForKey(f.keys[i], f.vals[f.keys[i]], fields.keys, fields.vals, searchable)
  {
    assert f.keys[..i + 1][..i] == f.keys[..i];
  }

  /** The inner loop of `getFilterQuery`: one filter entry against every allowed field. */
  method AddKeyClauses(q: Query, fk: string, fv: Json, fks: seq<string>, fields: map<string, Field>, searchable: set<string>)
    requires forall k | k in fks :: k in fields
    modifies q
    ensures q.state == old(q.state).(clauses := old(q.state).clauses + ClausesForKey(fk, fv, fks, fields, searchable))
  {
    ghost var q0 := q.state;
    ghost var added: seq<Clause> := [];
    for j := 0 to |fks|
      invariant added == ClausesForKey(fk, fv, fks[..j], fields, searchable)
      invariant q.state == q0.(clauses := q0.clauses + added)
    {
      ClausesForKeyStep(fk, fv, fks, j, fields, searchable);
      var name := fks[j];
      ghost var more := FieldClauses(name, fields[name], fk, fv, searchable);
      assert q0.clauses + (added + more) == q0.clauses + added + more;
      AddIfNamed(q, name, fields[name], fk, fv, searchable);
      added := added + more;
    }
    assert fks[..|fks|] == fks;
  }

  /** The clauses one filter entry adds for one allowed field: one when the entry names the field. */
  function FieldClauses(name: string, field: Field, fk: string, fv: Json, searchable: set<string>): seq<Clause>
  {
    if LooseEqualsStr(name, fk) then [ClauseFor(name, field, fk, fv, searchable)] else []
  }

  /**
   * One field against one filter entry: when the entry names the field, a
   * search filter or a plain `where` on the entry's key.
   */
  method AddIfNamed(q: Query, name: string, field: Field, fk: string, fv: Json, searchable: set<string>)
    modifies q
    ensures q.state == old(q.state).(clauses := old(q.state).clauses + FieldClauses(name, field, fk, fv, searchable))
  {
    if LooseEqualsStr(name, fk) {
      if field.TypeName() in searchable {
        q.WhereSearch(name, fv);
      } else {
        q.Where(fk, fv);
      }
    } else {
      assert q.state.clauses + [] == q.state.clauses;
    }
  }

  /** One more field adds its clause, when the filter entry names it. */
  lemma ClausesForKeyStep(fk: string, fv: Json, fks: seq<string>, j: nat, fields: map<string, Field>, searchable: set<string>)
    requires j < |fks| && forall k | k in fks :: k in fields
    ensures ClausesForKey(fk, fv, fks[..j + 1], fields, searchable) ==
      ClausesForKey(fk, fv, fks[..j], fields, searchable) + FieldClauses(fks[j], fields[fks[j]], fk, fv, searchable)
  {
    assert fks[..j + 1][..j] == fks[..j];
  }

  /** The loop over the `order` entries: each one naming an allowed field is recorded and ordered by. */
  method OrderLoop(q: Query, entries: Arr<string, Json>, fields: Arr<string, Field>) returns (order: Arr<string, string>)
    requires entries.Valid()
    modifies q
    ensures q.state == old(q.state).(orders := old(q.state).orders + RequestedOrders(entries.keys, entries.vals, fields))
    ensures order == Recorded(RequestedOrders(entries.keys, entries.vals, fields))
  {
    order := Empty();
    ghost var q0 := q.state;
    ghost var kept: seq<Order> := [];
    for i := 0 to |entries.keys|
      invariant kept == RequestedOrders(entries.keys[..i], entries.vals, fields)
      invariant q.state == q0.(orders := q0.orders + kept)
      invariant order == Recorded(kept)
    {
      RequestedOrdersStep(entries.keys, i, entries.vals, fields);
      var k := entries.keys[i];
      if k in fields.vals {
        var d := Direction(entries.vals[k]);
        assert (kept + [Order(k, d)])[..|kept|] == kept;
        assert q0.orders + (kept + [Order(k, d)]) == q0.orders + kept + [Order(k, d)];
        order := order.Put(k, d);
        q.OrderBy(k, d);
        kept := kept + [Order(k, d)];
      }
    }
    assert entries.keys[..|entries.keys|] == entries.keys;
  }

  /** One more `order` entry adds its ordering, when it names an allowed field. */
  lemma RequestedOrdersStep(ks: seq<string>, i: nat, param: map<string, Json>, fields: Arr<string, Field>)
    requires i < |ks| && forall k | k in ks :: k in param
    ensures RequestedOrders(ks[..i + 1], param, fields) ==
      RequestedOrders(ks[..i], param, fields) + (if ks[i] in fields.vals then [Order(ks[i], Direction(param[ks[i]]))] else [])
  {
    assert ks[..i + 1][..i] == ks[..i];
  }

  /** A recorded order is empty exactly when no ordering was kept. */
  lemma RecordedEmpty(orders: seq<Order>)
    ensures |Recorded(orders).keys| == 0 <==> orders == []
  {
    if orders != [] {
      var prev := Recorded(orders[..|orders| - 1]);
      var c := orders[|orders| - 1].column;
      if c in prev.vals {
        assert c in prev.keys;
      }
    }
  }

  /** The loop of `getIncludes` over the comma-separated pieces of `include`. */
  method IncludesLoop(pieces: seq<string>) returns (acc: Arr<string, string>)
    ensures acc == IncludesOf(pieces)
  {
    acc := Empty();
    for i := 0 to |pieces|
      invariant acc == IncludesOf(pieces[..i])
    {
      assert pieces[..i + 1][..i] == pieces[..i];
      acc := AddPiece(acc, pieces[i]);
    }
    assert pieces[..|pieces|] == pieces;
  }

  /** One piece of `include`: the piece itself, then the `while` loop cutting it before its last dot. */
  method AddPiece(acc0: Arr<string, string>, piece: string) returns (acc: Arr<string, string>)
    requires acc0.Valid()
    ensures acc == WithPrefixes(acc0, piece)
  {
    var inc := piece;
    acc := acc0.Put(inc, inc);
    while LastIndexOf(inc, '.') >= 0
      invariant acc.Valid() && PrefixesAfter(acc, inc) == WithPrefixes(acc0, piece)
      decreases |inc|
    {
      inc := inc[..LastIndexOf(inc, '.')];
      acc := acc.Put(inc, inc);
    }
  }

  class Route {
    const config: RouteConfig
    /** The configured path without its trailing slash. */
    const path: string
    /** `$config['table']`: the table of the configured class, null when it has none. */
    const table: Table?
    /** `$config['query']`: the query requests start from; they change it in place. */
    const query: Query
    /** The memo of `getIncludes`, unset until first asked for. */
    var includes: Option<Arr<string, string>>

    ghost predicate Valid()
      reads table
    {
      table != null ==> table.Valid()
    }

    constructor (config: RouteConfig, table: Table?, query: Query)
      requires table != null ==> table.Valid()
      ensures Valid()
      ensures this.config == config && this.table == table && this.query == query
      ensures path == TrimPath(config.path) && includes == None
    {
      this.config := config;
      this.path := TrimPath(config.path);
      this.table := table;
      this.query := query;
      this.includes := None;
    }

    /** What rendering reads about this route. */
    function HostFor(w: World): Host
      requires table != null
    {
      Host(path, table.TableName(), config.methods, w.cat, w.related, w.routeOf)
    }

    /** `getFields($type, $instance)` with its loop over the available fields. */
    method GetFields(verb: string, cls: string, cat: Catalog) returns (r: Result<Arr<string, Field>, RouteError>)
      requires cat.Valid()
      ensures r == AllowedFields(config.methods, verb, cls, cat)
    {
      var c := TypeFromClass(cls);
      var fields := IdOnly(cat.types);
      if !(verb in config.methods && c in config.methods[verb].fields) {
        return Ok(fields);
      }
      if c !in cat.valueFields {
        return Err(Thrown("config-table-missing"));
      }
      var avail := AvailableFields(cat, c);
      fields := WhitelistLoop(fields, avail, config.methods[verb].fields[c]);
      return Ok(fields);
    }

    /** `getFilterQuery`: every filter entry against every allowed field, adding the clauses to `q` in place. */
    method GetFilterQuery(q: Query, fields: Arr<string, Field>, get: Arr<string, Json>, searchable: set<string>)
      requires fields.Valid()
      modifies q
      ensures q.state == Filtered(old(q.state), get, fields, searchable)
    {
      var filter := FilterParam(get);
      if filter.None? {
        assert q.state.clauses + [] == q.state.clauses;
        return;
      }
      FilterLoop(q, filter.value, fields, searchable);
    }

    /** `getIncludes()`: computed from the request's `include` parameter once, then remembered. */
    method GetIncludes(param: string) returns (r: Arr<string, string>)
      modifies this`includes
      ensures old(includes).Some? ==> includes == old(includes) && r == old(includes).value
      ensures old(includes).None? ==> r == IncludeSet(param) && includes == Some(r)
    {
      if includes.None? {
        if param == "" {
          includes := Some(Empty());
        } else {
          var acc := IncludesLoop(Explode(",", param));
          includes := Some(acc);
        }
      }
      r := includes.value;
    }

    /** The `order` loop of the list view, with the table's default ordering after it. */
    method ApplyOrder(q: Query, get: Arr<string, Json>, fields: Arr<string, Field>, sortField: string, sortOrder: string)
      returns (order: Arr<string, string>)
      modifies q
      ensures q.state == old(q.state).(orders := old(q.state).orders + PlanOrder(get, fields, sortField, sortOrder).calls)
      ensures order == PlanOrder(get, fields, sortField, sortOrder).recorded
    {
      order := Empty();
      var param := OrderParam(get);
      if param.None? {
        assert q.state.orders + [] == q.state.orders;
        return;
      }
      var entries := param.value;
      ghost var q0 := q.state;
      ghost var kept := RequestedOrders(entries.keys, entries.vals, fields);
      order := OrderLoop(q, entries, fields);
      RecordedEmpty(kept);
      if |order.keys| == 0 {
        order := Empty<string, string>().Put(sortField, sortOrder);
      }
      assert q0.orders + (kept + [Order(sortField, sortOrder)]) == q0.orders + kept + [Order(sortField, sortOrder)];
      q.OrderBy(sortField, sortOrder);
    }

    /** One step of the loop over the path segments. */
    method Segment(s: Walked, p: string, w: World) returns (r: Result<Walked, RouteError>)
      requires table != null && w.cat.Valid() && s.fields.Valid() && query.state == s.query
      modifies query
      ensures r == Advance(HostFor(w), w.db, query.alias, s, p)
      ensures r.Ok? ==> query.state == r.value.query
      ensures query.state == AdvanceQuery(query.alias, s, p)
    {
      if s.instances.Some? {
        var found := FindInCollection(s.instances.value, p, s.instance);
        if found.None? {
          return Err(Refused(400, "dataset-not-found", []));
        }
        return Ok(s.(instance := found, attribute := None, instances := None));
      } else if s.instance.None? {
        var column := "id";
        if query.alias != "" {
          column := query.alias + ".id";
        }
        query.Where(column, JStr(p));
        var found := FindOne(w.db, query.state);
        if found.None? {
          return Err(Refused(400, "dataset-not-found", []));
        }
        var fields := GetFields("get", found.value.cls, w.cat);
        if fields.Err? {
          return Err(fields.error);
        }
        return Ok(Walked(found, None, None, fields.value, query.state));
      } else {
        if p !in s.fields.vals {
          return Err(Refused(400, "attribute-not-found", []));
        }
        if s.fields.vals[p].TypeName() == RelationType {
          var rels := w.related(s.instance.value, p);
          var owner := s.instance.value;
          if |rels| > 0 {
            owner := rels[0];
          }
          var fields := GetFields("get", owner.cls, w.cat);
          if fields.Err? {
            return Err(fields.error);
          }
          return Ok(Walked(None, Some(rels), Some(p), fields.value, query.state));
        }
        return Ok(s.(attribute := Some(p)));
      }
    }

    /** The loop over the path segments of a GET. */
    method Walk(paths: seq<string>, fields: Arr<string, Field>, w: World) returns (r: Result<Walked, RouteError>)
      requires table != null && w.cat.Valid() && fields.Valid()
      modifies query
      ensures r == WalkFrom(HostFor(w), w.db, query.alias, Walked(None, None, None, fields, old(query.state)), paths)
      ensures r.Ok? ==> query.state == r.value.query
      ensures query.state == WalkEndQuery(HostFor(w), w.db, query.alias, Walked(None, None, None, fields, old(query.state)), paths)
    {
      var s := Walked(None, None, None, fields, query.state);
      ghost var s0 := s;
      for i := 0 to |paths|
        invariant s.fields.Valid() && query.state == s.query
        invariant WalkFrom(HostFor(w), w.db, query.alias, s0, paths) == WalkFrom(HostFor(w), w.db, query.alias, s, paths[i..])
        invariant WalkEndQuery(HostFor(w), w.db, query.alias, s0, paths) == WalkEndQuery(HostFor(w), w.db, query.alias, s, paths[i..])
      {
        assert paths[i..][0] == paths[i] && paths[i..][1..] == paths[i + 1..];
        var step := Segment(s, paths[i], w);
        if step.Err? {
          return Err(step.error);
        }
        s := step.value;
      }
      return Ok(s);
    }

    /**
     * `$per_page`: the requested size cast to an integer, or the table's list
     * amount; a negative size is replaced by the list amount as stored.
     * Asking the table for its list amount may store the default in its row,
     * which leaves the sort columns as they are.
     */
    method PageSize(requested: Json) returns (perPage: Json)
      requires table != null && Valid()
      modifies table`values
      ensures Valid()
      ensures perPage == PerPageValue(requested, ListAmountOf(old(table.values)))
      ensures table.values == RowAfterPageSize(requested, old(table.values))
      ensures Cell(table.values, "list_sortfield") == Cell(old(table.values), "list_sortfield")
      ensures Cell(table.values, "list_sortorder") == Cell(old(table.values), "list_sortorder")
    {
      ListAmountKeepsSort(table.values, DefaultListAmount);
      if IsSet(requested) {
        perPage := JInt(IntOf(requested));
      } else {
        var a := table.GetListAmount();
        perPage := JInt(IntCast(a));
      }
      if IntOf(perPage) < 0 {
        var a := table.GetListAmount();
        perPage := JStr(a);
      }
    }

    /**
     * The list view's preparation: the filter, the count, the page size and
     * page, the limit and the ordering, applied to the query in place.
     */
    method PlanListView(req: Request, fields: Arr<string, Field>, w: World) returns (plan: ListPlan)
      requires table != null && Valid() && fields.Valid()
      modifies query, table`values
      ensures Valid()
      ensures plan == PlanList(w.db, old(query.state), fields, req.get, w.searchable,
        ListAmountOf(old(table.values)), Cell(old(table.values), "list_sortfield"), Cell(old(table.values), "list_sortorder"))
      ensures query.state == plan.state
      ensures table.values == RowAfterPageSize(Param(req.get, "per_page"), old(table.values))
    {
      GetFilterQuery(query, fields, req.get, w.searchable);
      var total := Count(w.db, query.state);
      var perPage := PageSize(Param(req.get, "per_page"));
      var page := CurrentPage(Param(req.get, "page"));
      var limit := PageLimit(page, IntOf(perPage));
      query.SetLimit(limit.offset, limit.count);
      var order := ApplyOrder(query, req.get, fields, table.SortFieldName(), table.SortOrderName());
      plan := ListPlan(query.state, perPage, page, order, total);
    }

    /** The list view of a GET without path segments. */
    method ListGet(req: Request, fields: Arr<string, Field>, w: World, fuel: nat) returns (r: Result<Response, RouteError>)
      requires table != null && Valid() && w.cat.Valid() && fields.Valid()
      modifies query, table`values, this`includes
      ensures Valid()
      ensures r == ListOutcome(HostFor(w), w.db, fuel, old(query.state), fields, req.get, w.searchable,
        ListAmountOf(old(table.values)), Cell(old(table.values), "list_sortfield"), Cell(old(table.values), "list_sortorder"),
        Included(old(includes), req.includeParam))
      ensures RouteState(query.state, table.values, includes)
        == ListState(w.db, old(query.state), fields, req.get, w.searchable, old(table.values), old(includes), req.includeParam)
    {
      var plan := PlanListView(req, fields, w);
      var found := Find(w.db, query.state);
      if found.Err? {
        return Err(Thrown("sql-error"));
      }
      var incs: Arr<string, string> := Included(includes, req.includeParam);
      if |found.value| > 0 {
        incs := GetIncludes(req.includeParam);
      }
      var items := RenderAll(HostFor(w), fuel, found.value, [], incs);
      if items.Err? {
        return Err(items.error);
      }
      var doc := ListDocument(Page(FilterEcho(req.get), plan.order, plan.total, plan.perPageValue, plan.page, items.value));
      if doc.Err? {
        return Err(doc.error);
      }
      return Ok(Response(200, doc.value));
    }

    /** A GET with path segments: the walk, then the output for where it ends. */
    method DetailGet(req: Request, fields: Arr<string, Field>, w: World, fuel: nat) returns (r: Result<Response, RouteError>)
      requires table != null && w.cat.Valid() && fields.Valid()
      modifies query, this`includes
      ensures r == DetailOutcome(HostFor(w), w.db, query.alias, fuel, old(query.state), fields, req.paths,
        Included(old(includes), req.includeParam))
      ensures RouteState(query.state, table.values, includes)
        == DetailState(HostFor(w), w.db, query.alias, old(query.state), fields, req.paths, table.values, old(includes), req.includeParam)
    {
      var incs0 := Included(includes, req.includeParam);
      var walked := Walk(req.paths, fields, w);
      if walked.Err? {
        return Err(walked.error);
      }
      var s := walked.value;
      var body: Json;
      if s.instances.Some? {
        var incs := incs0;
        if |s.instances.value| > 0 {
          incs := GetIncludes(req.includeParam);
        }
        var items := RenderAll(HostFor(w), fuel, s.instances.value, SegmentsJson(req.paths), incs);
        if items.Err? {
          return Err(items.error);
        }
        body := JList(items.value);
      } else if s.instance.Some? {
        if s.attribute.Some? && Truthy(JStr(s.attribute.value)) {
          body := s.instance.value.Value(s.attribute.value);
        } else {
          var incs := GetIncludes(req.includeParam);
          var one := InstanceData(HostFor(w), fuel, s.instance.value, SegmentsJson(req.paths), false, [], incs);
          if one.Err? {
            return Err(one.error);
          }
          body := one.value;
        }
      } else {
        body := JList([]);
      }
      return Ok(Response(200, body));
    }

    /**
     * The selection of the DELETE branch as the source writes it: the clone
     * is a new object, so the identity test always finds it different from
     * the query and the request proceeds with the filtered query whatever the
     * filter added; the refusals and the id condition are unreachable.
     */
    method SelectForDeleteAsWritten(fields: Arr<string, Field>, get: Arr<string, Json>, searchable: set<string>)
      returns (r: Result<QueryState, RouteError>)
      requires fields.Valid()
      modifies query
      ensures query.state == Filtered(old(query.state), get, fields, searchable)
      ensures r == Ok(query.state)
    {
      var clone := query.Clone();
      GetFilterQuery(query, fields, get, searchable);
      if clone == query && IsSet(Param(get, "filter")) {
        assert false;
      } else if clone != query {
        r := Ok(query.state);
      } else {
        assert false;
      }
    }

    /**
     * The selection of the DELETE branch as evidently intended: the clone's
     * state is compared with the filtered query's, so a filter that adds
     * nothing is refused and a request without a filter deletes by the id of
     * its first segment.
     */
    method SelectForDelete(fields: Arr<string, Field>, get: Arr<string, Json>, paths: seq<string>, searchable: set<string>)
      returns (r: Result<QueryState, RouteError>)
      requires fields.Valid()
      modifies query
      ensures r == DeleteSelection(old(query.state), FilterAdded(get, fields, searchable), paths, get)
      ensures r.Ok? ==> query.state == r.value
      ensures r.Err? ==> query.state == old(query.state)
    {
      var clone := query.Clone();
      GetFilterQuery(query, fields, get, searchable);
      if clone.state == query.state && IsSet(Param(get, "filter")) {
        return Err(Refused(404, "no-available-filter-set", []));
      } else if clone.state != query.state {
        return Ok(query.state);
      } else if |paths| == 0 {
        return Err(Refused(404, "no-id-set", []));
      }
      query.Where("id", JStr(paths[0]));
      return Ok(query.state);
    }

    /** The DELETE branch: select, delete each selected dataset, report the tally. */
    method HandleDelete(req: Request, w: World) returns (r: Result<Response, RouteError>)
      requires w.cat.Valid()
      modifies query
      ensures r == DeleteRequest(config.methods, config.typeClass, w, old(query.state), req)
      ensures query.state == DeleteQuery(config.methods, config.typeClass, w, old(query.state), req)
    {
      var fields := GetFields("delete", config.typeClass, w.cat);
      if fields.Err? {
        return Err(fields.error);
      }
      var selected := SelectForDelete(fields.value, req.get, req.paths, w.searchable);
      if selected.Err? {
        return Err(selected.error);
      }
      var found := Find(w.db, query.state);
      if found.Err? {
        return Err(Thrown("sql-error"));
      }
      var content := TallyLoop(found.value, w.remove);
      return Ok(Response(200, content));
    }

    /** The request methods the configuration has entries for, upper-cased, for the error of an unknown method. */
    method AvailableMethods() returns (r: seq<string>)
      ensures r == Announced(config.methods, RequestMethods)
    {
      r := [];
      for i := 0 to |RequestMethods|
        invariant r == Announced(config.methods, RequestMethods[..i])
      {
        assert RequestMethods[..i + 1][..i] == RequestMethods[..i];
        var v := RequestMethods[i];
        if v in config.methods {
          r := r + [Upper(v)];
        }
      }
      assert RequestMethods[..|RequestMethods|] == RequestMethods;
    }

    /** The GET branch: the `get` whitelist, then the list or the walk down the path. */
    method HandleGet(req: Request, w: World, fuel: nat) returns (r: Result<Response, RouteError>)
      requires table != null && Valid() && w.cat.Valid()
      modifies query, table`values, this`includes
      ensures Valid()
      ensures r == GetOutcome(HostFor(w), w.db, query.alias, w.searchable, fuel, old(query.state), config.typeClass, req,
        old(table.values), old(includes))
      ensures RouteState(query.state, table.values, includes) == GetState(HostFor(w), w.db, query.alias, w.searchable, old(query.state),
        config.typeClass, req, old(table.values), old(includes))
    {
      var fields := GetFields("get", config.typeClass, w.cat);
      if fields.Err? {
        return Err(fields.error);
      }
      if |req.paths| == 0 {
        r := ListGet(req, fields.value, w, fuel);
      } else {
        r := DetailGet(req, fields.value, w, fuel);
      }
    }

    /** The POST branch: the `post` whitelist, then the posted dataset. */
    method PostBranch(req: Request, w: World) returns (r: Result<Response, RouteError>)
      requires w.cat.Valid()
      ensures r == PostRequest(config.methods, config.typeClass, w, req)
    {
      var fields := GetFields("post", config.typeClass, w.cat);
      if fields.Err? {
        return Err(fields.error);
      }
      r := HandlePost(fields.value, TypeFromClass(config.typeClass), req.body, w.store);
    }

    /**
     * `handleRequest`: without a table the route refuses; a known method
     * without an entry in the configuration is refused; GET, POST and DELETE
     * answer what their branches describe; any other method is refused with
     * the list of available ones.
     */
    method HandleRequest(req: Request, w: World, fuel: nat) returns (r: Result<Response, RouteError>)
      requires Valid() && w.cat.Valid()
      modifies this, query, table
      ensures Valid()
      ensures table == null ==> r == Err(Refused(400, "table-not-available", []))
      ensures table != null && req.verb in RequestMethods && req.verb !in config.methods ==>
        r == Err(Refused(400, "request-method-not-available", []))
      ensures table != null && req.verb !in RequestMethods ==> r == Err(NoMethod(config.methods))
      ensures table != null && req.verb == "get" && "get" in config.methods ==>
        r == GetOutcome(HostFor(w), w.db, query.alias, w.searchable, fuel, old(query.state), config.typeClass, req,
          old(table.values), old(includes))
      ensures table != null && req.verb == "post" && "post" in config.methods ==>
        r == PostRequest(config.methods, config.typeClass, w, req)
      ensures table != null && req.verb == "delete" && "delete" in config.methods ==>
        r == DeleteRequest(config.methods, config.typeClass, w, old(query.state), req)
      ensures table != null && req.verb == "get" && "get" in config.methods ==>
        RouteState(query.state, table.values, includes) == GetState(HostFor(w), w.db, query.alias, w.searchable, old(query.state),
          config.typeClass, req, old(table.values), old(includes))
      ensures table != null && req.verb == "delete" && "delete" in config.methods ==>
        RouteState(query.state, table.values, includes)
          == RouteState(DeleteQuery(config.methods, config.typeClass, w, old(query.state), req), old(table.values), old(includes))
      ensures table == null || !(req.verb in config.methods && (req.verb == "get" || req.verb == "delete")) ==>
        query.state == old(query.state) && includes == old(includes) && (table != null ==> table.values == old(table.values))
    {
      if table == null {
        return Err(Refused(400, "table-not-available", []));
      }
      if req.verb in RequestMethods && req.verb !in config.methods {
        return Err(Refused(400, "request-method-not-available", []));
      }
      if req.verb == "get" {
        r := HandleGet(req, w, fuel);
      } else if req.verb == "post" {
        r := PostBranch(req, w);
      } else if req.verb == "delete" {
        r := HandleDelete(req, w);
      } else {
        var available := AvailableMethods();
        r := Err(Refused(404, "no-request-method-found", ["please only use: " + Implode(",", available)]));
      }
    }
  }
}

/**
 * The list view of the REST route (a GET request without a path): how
 * `per_page`, `page` and `order` are resolved, the limit the query gets, and
 * the `links`/`meta`/`data` document wrapped around one page of datasets.
 */
module RestList {
  import opened Wrappers
  import opened PhpArray
  import opened PhpString
  import opened PhpValue
  import opened ManagerTable
  import opened RestQuery
  import opened RestFields

  /** `$get[$name]`, null when the parameter is missing. */
  function Param(get: Arr<string, Json>, name: string): Json
  {
    if name in get.vals then get.vals[name] else JNull
  }

  // ---------------------------------------------------------------------------
  // Page size, page, limit

  /**
   * `$per_page` as the route leaves it: the requested value cast to an integer,
   * or the table's list amount cast to one; a negative value is replaced by
   * the list amount itself, which stays the stored string.
   */
  function PerPageValue(requested: Json, amount: string): (r: Json)
    ensures r.JInt? || r == JStr(amount)
  {
    var first := if IsSet(requested) then IntOf(requested) else IntCast(amount);
    if first < 0 then JStr(amount) else JInt(first)
  }

  /**
   * The page size the arithmetic uses. With a list amount that casts to a
   * non-negative integer (which `getListAmount` guarantees) it is never
   * negative: the requested size when one is given and not negative, the
   * list amount otherwise; with a list amount of at least one it is zero only
   * when zero is asked for.
   */
  function PerPage(requested: Json, amount: string): (n: int)
    ensures IntCast(amount) >= 0 ==> n >= 0
    ensures IsSet(requested) && IntOf(requested) >= 0 ==> n == IntOf(requested)
    ensures !(IsSet(requested) && IntOf(requested) >= 0) && IntCast(amount) >= 0 ==> n == IntCast(amount)
    ensures IntCast(amount) >= 1 ==> (n == 0 <==> IsSet(requested) && IntOf(requested) == 0)
  {
    IntOf(PerPageValue(requested, amount))
  }

  /** The current page: the requested page cast to an integer, 1 by default; a negative page becomes 1, page 0 stays. */
  function CurrentPage(requested: Json): (p: int)
    ensures p >= 0
    ensures p == 0 <==> IsSet(requested) && IntOf(requested) == 0
    ensures IsSet(requested) && IntOf(requested) >= 0 ==> p == IntOf(requested)
    ensures !IsSet(requested) || IntOf(requested) < 0 ==> p == 1
  {
    var p := if IsSet(requested) then IntOf(requested) else 1;
    if p < 0 then 1 else p
  }

  /** The limit the list query gets: offset `(page - 1) * per_page`, `per_page` datasets. */
  function PageLimit(page: int, perPage: int): Limit
  {
    Limit((page - 1) * perPage, perPage)
  }

  /** Only page 0 (with a positive page size) gives the query a negative offset. */
  lemma NegativeOffset(page: int, perPage: int)
    requires page >= 0 && perPage >= 0
    ensures PageLimit(page, perPage).offset < 0 <==> page == 0 && perPage > 0
  {
    if page >= 1 {
      assert (page - 1) * perPage >= 0;
    }
  }

  // ---------------------------------------------------------------------------
  // Page count and neighbour links

  /** `ceil($a / $b)` for an integer division that does not divide by zero. */
  function CeilDiv(a: nat, b: int): int
    requires b != 0
  {
    if b > 0 then (a + b - 1) / b else -(a / -b)
  }

  /** For a positive divisor, `CeilDiv` is the least page count whose pages hold all items. */
  lemma CeilDivBounds(a: nat, b: int)
    requires b > 0
    ensures CeilDiv(a, b) >= 0
    ensures CeilDiv(a, b) * b >= a
    ensures a > 0 ==> (CeilDiv(a, b) - 1) * b < a
    ensures a == 0 ==> CeilDiv(a, b) == 0
  {
    var q := (a + b - 1) / b;
    var m := (a + b - 1) % b;
    assert a + b - 1 == q * b + m && 0 <= m < b;
    assert (q - 1) * b == q * b - b;
  }

  /** `totalPages`: the page count; a page size of zero divides by zero, which throws. */
  function TotalPages(items: nat, perPage: int): (r: Result<int, RouteError>)
    ensures r.Err? <==> perPage == 0
  {
    if perPage == 0 then Err(Thrown("division-by-zero")) else Ok(CeilDiv(items, perPage))
  }

  predicate HasPrev(page: int)
  {
    page - 1 > 0
  }

  predicate HasNext(page: int, perPage: int, items: nat)
  {
    page * perPage < items
  }

  lemma MulMonotone(x: int, y: int, c: int)
    requires x <= y && c >= 0
    ensures x * c <= y * c
  {
  }

  /**
   * The `next` link and the page count agree: for a positive page size there
   * is a next page exactly when the current page comes before the last one.
   */
  lemma NextIffBeforeLast(page: int, perPage: int, items: nat)
    requires page >= 0 && perPage > 0
    ensures HasNext(page, perPage, items) <==> page < CeilDiv(items, perPage)
  {
    var t := CeilDiv(items, perPage);
    CeilDivBounds(items, perPage);
    if page >= t {
      MulMonotone(t, page, perPage);
    } else if items > 0 {
      MulMonotone(page, t - 1, perPage);
    }
  }

  // ---------------------------------------------------------------------------
  // Ordering

  /** `('desc' != $v) ? 'asc' : 'desc'`, with PHP's loose comparison of a string and `$v`. */
  function Direction(v: Json): (d: string)
    ensures d == "desc" || d == "asc"
    ensures d == "desc" <==> v == JStr("desc") || v == JBool(true)
  {
    match v
    case JStr(s) => if s == "desc" then "desc" else "asc"
    case JBool(b) => if b then "desc" else "asc"
    case _ => "asc"
  }

  /** The orderings requested by the entries `ks` of `order` that name an allowed field, in order. */
  function RequestedOrders(ks: seq<string>, param: map<string, Json>, fields: Arr<string, Field>): seq<Order>
    requires forall k | k in ks :: k in param
  {
    if ks == [] then []
    else
      var k := ks[|ks| - 1];
      RequestedOrders(ks[..|ks| - 1], param, fields) + (if k in fields.vals then [Order(k, Direction(param[k]))] else [])
  }

  /** The `$order` array recorded for a sequence of orderings. */
  function Recorded(orders: seq<Order>): (r: Arr<string, string>)
    ensures r.Valid()
  {
    if orders == [] then Empty()
    else Recorded(orders[..|orders| - 1]).Put(orders[|orders| - 1].column, orders[|orders| - 1].direction)
  }

  /** The `orderBy` calls the list view makes, in order, and the `$order` array it reports. */
  datatype OrderPlan = OrderPlan(calls: seq<Order>, recorded: Arr<string, string>)

  /** The `order[...]` entries of the request, when the parameter is set and an array. */
  function OrderParam(get: Arr<string, Json>): (r: Option<Arr<string, Json>>)
    ensures r.Some? ==> r.value.Valid()
  {
    var p := Param(get, "order");
    if IsSet(p) && IsArray(p) then Some(ArrayCast(p)) else None
  }

  /**
   * The ordering of the list view: without an `order` array nothing at all;
   * with one, the requested orderings of allowed fields and then the table's
   * default, the default being recorded only when no request survived.
   */
  function PlanOrder(get: Arr<string, Json>, fields: Arr<string, Field>, sortField: string, sortOrder: string): OrderPlan
  {
    match OrderParam(get)
    case None => OrderPlan([], Empty())
    case Some(entries) =>
      var kept := RequestedOrders(entries.keys, entries.vals, fields);
      OrderPlan(kept + [Order(sortField, sortOrder)],
        if |kept| == 0 then Empty<string, string>().Put(sortField, sortOrder) else Recorded(kept))
  }

  lemma {:induction false} RequestedOrdersExact(ks: seq<string>, param: map<string, Json>, fields: Arr<string, Field>, o: Order)
    requires forall k | k in ks :: k in param
    ensures o in RequestedOrders(ks, param, fields) <==>
      o.column in ks && o.column in fields.vals && o.direction == Direction(param[o.column])
  {
    if ks != [] {
      var ks' := ks[..|ks| - 1];
      RequestedOrdersExact(ks', param, fields, o);
      assert forall x :: x in ks <==> x in ks' || x == ks[|ks| - 1];
    }
  }

  lemma {:induction false} RecordedExact(orders: seq<Order>, k: string)
    ensures k in Recorded(orders).vals <==> exists o | o in orders :: o.column == k
    ensures forall o | o in orders && o.column == k :: k in Recorded(orders).vals
    ensures k in Recorded(orders).vals ==> Order(k, Recorded(orders).vals[k]) in orders
  {
    if orders != [] {
      var prev := orders[..|orders| - 1];
      RecordedExact(prev, k);
      assert forall x :: x in orders <==> x in prev || x == orders[|orders| - 1];
    }
  }

  /**
   * The ordering rules of the list view. Without an `order` array no ordering
   * is applied and none is recorded. With one, every ordering but the last is
   * a requested one for an allowed field, "desc" exactly when "desc" was
   * asked for; the table's default always comes last; and the recorded order
   * is the requested one, or the default alone when no request survived.
   */
  lemma PlanOrderExact(get: Arr<string, Json>, fields: Arr<string, Field>, sortField: string, sortOrder: string, k: string)
    ensures var plan := PlanOrder(get, fields, sortField, sortOrder);
      && (OrderParam(get).None? ==> plan.calls == [] && plan.recorded.keys == [])
      && (OrderParam(get).Some? ==>
        var entries := OrderParam(get).value;
        && |plan.calls| >= 1 && plan.calls[|plan.calls| - 1] == Order(sortField, sortOrder)
        && (forall i | 0 <= i < |plan.calls| - 1 ::
              plan.calls[i].column in entries.vals && plan.calls[i].column in fields.vals
              && plan.calls[i].direction == Direction(entries.vals[plan.calls[i].column]))
        && (k in plan.recorded.vals <==>
              if |plan.calls| == 1 then k == sortField else k in entries.vals && k in fields.vals)
        && (k in plan.recorded.vals && |plan.calls| > 1 ==> plan.recorded.vals[k] == Direction(entries.vals[k])))
  {
    var plan := PlanOrder(get, fields, sortField, sortOrder);
    if OrderParam(get).Some? {
      var entries := OrderParam(get).value;
      assert forall x | x in entries.keys :: x in entries.vals;
      var kept := RequestedOrders(entries.keys, entries.vals, fields);
      forall i | 0 <= i < |plan.calls| - 1
        ensures plan.calls[i].column in entries.vals && plan.calls[i].column in fields.vals
          && plan.calls[i].direction == Direction(entries.vals[plan.calls[i].column])
      {
        assert plan.calls[i] == kept[i];
        RequestedOrdersExact(entries.keys, entries.vals, fields, kept[i]);
      }
      if |kept| > 0 {
        RecordedExact(kept, k);
        if k in entries.vals && k in fields.vals {
          RequestedOrdersExact(entries.keys, entries.vals, fields, Order(k, Direction(entries.vals[k])));
        }
        if k in plan.recorded.vals {
          RequestedOrdersExact(entries.keys, entries.vals, fields, Order(k, plan.recorded.vals[k]));
        }
        if exists o | o in kept :: o.column == k {
          var o :| o in kept && o.column == k;
          RequestedOrdersExact(entries.keys, entries.vals, fields, o);
        }
      }
    }
  }

  // ---------------------------------------------------------------------------
  // The list document

  /** `array_merge($linkParams, ['page' => $page])`. */
  function WithPage(params: Arr<string, Json>, page: int): Arr<string, Json>
    requires params.Valid()
  {
    params.Put("page", JInt(page))
  }

  /** An array of strings as a JSON object. */
  function StringsObject(a: Arr<string, string>): Json
  {
    JObj(Arr(a.keys, map k | k in a.vals :: JStr(a.vals[k])))
  }

  /**
   * The figures of one page of the list view: the request's filter (when an
   * array), the recorded order, the count before the limit and the datasets of
   * the page.
   */
  datatype Page = Page(
    filter: Option<Json>,
    order: Arr<string, string>,
    totalItems: nat,
    perPageValue: Json,
    page: int,
    items: seq<Json>)

  /** The link parameters: page, page size and order, and the filter when there is one. */
  function LinkParams(p: Page): (r: Arr<string, Json>)
    ensures r.Valid()
  {
    var base := Empty<string, Json>().Put("page", JInt(p.page)).Put("per_page", p.perPageValue).Put("order", StringsObject(p.order));
    if p.filter.Some? then base.Put("filter", p.filter.value) else base
  }

  /**
   * The `meta` object; it divides by the page size, which fails for zero.
   * It reports the count before the limit, the size of the page and the
   * rounded-up page count, and the order and filter only when there are some.
   */
  function Meta(p: Page): (r: Result<Arr<string, Json>, RouteError>)
    ensures r.Err? <==> IntOf(p.perPageValue) == 0
    ensures r.Ok? ==>
      && "totalItems" in r.value.vals && "currentItems" in r.value.vals && "totalPages" in r.value.vals
      && "itemsPerPage" in r.value.vals && "currentPage" in r.value.vals
      && r.value.vals["totalItems"] == JInt(p.totalItems)
      && r.value.vals["currentItems"] == JInt(|p.items|)
      && r.value.vals["totalPages"] == JInt(CeilDiv(p.totalItems, IntOf(p.perPageValue)))
      && r.value.vals["itemsPerPage"] == p.perPageValue
      && r.value.vals["currentPage"] == JInt(p.page)
      && ("order" in r.value.vals <==> |p.order.keys| > 0)
      && ("filter" in r.value.vals <==> p.filter.Some?)
  {
    var perPage := IntOf(p.perPageValue);
    if perPage == 0 then Err(Thrown("division-by-zero"))
    else
      var m0: map<string, Json> := if p.filter.Some? then map["filter" := p.filter.value] else map[];
      var m1 := if |p.order.keys| > 0 then m0["order" := StringsObject(p.order)] else m0;
      Ok(Arr((if p.filter.Some? then ["filter"] else []) + (if |p.order.keys| > 0 then ["order"] else [])
          + ["totalItems", "currentItems", "itemsPerPage", "currentPage", "totalPages"],
        m1["totalItems" := JInt(p.totalItems)]["currentItems" := JInt(|p.items|)]
          ["itemsPerPage" := p.perPageValue]["currentPage" := JInt(p.page)]
          ["totalPages" := JInt(CeilDiv(p.totalItems, perPage))]))
  }

  /**
   * The `links` object. A link is written as the query parameters of the URL
   * the route builds for it: `self` and `first` (page 1) always, `prev`
   * exactly when the page is beyond the first, `next` exactly when the pages
   * so far hold fewer than all items.
   */
  function Links(p: Page): (r: Arr<string, Json>)
    ensures "self" in r.vals && "first" in r.vals
    ensures r.vals["self"] == JObj(LinkParams(p))
    ensures r.vals["first"] == JObj(WithPage(LinkParams(p), 1))
    ensures "prev" in r.vals <==> HasPrev(p.page)
    ensures "next" in r.vals <==> HasNext(p.page, IntOf(p.perPageValue), p.totalItems)
    ensures "prev" in r.vals ==> r.vals["prev"] == JObj(WithPage(LinkParams(p), p.page - 1))
    ensures "next" in r.vals ==> r.vals["next"] == JObj(WithPage(LinkParams(p), p.page + 1))
  {
    var params := LinkParams(p);
    var next := HasNext(p.page, IntOf(p.perPageValue), p.totalItems);
    var r := LinksFor(params, p.page, HasPrev(p.page), next);
    assert "next" in r.vals ==> next && r.vals["next"] == JObj(WithPage(params, p.page + 1));
    r
  }

  /** The links of page `page` whose parameters are `params`, given whether it has neighbours. */
  function LinksFor(params: Arr<string, Json>, page: int, prev: bool, next: bool): (r: Arr<string, Json>)
    requires params.Valid()
    ensures "self" in r.vals && "first" in r.vals
    ensures r.vals["self"] == JObj(params)
    ensures r.vals["first"] == JObj(WithPage(params, 1))
    ensures "prev" in r.vals <==> prev
    ensures "next" in r.vals <==> next
    ensures prev ==> r.vals["prev"] == JObj(WithPage(params, page - 1))
    ensures next ==> r.vals["next"] == JObj(WithPage(params, page + 1))
  {
    var l0 := map["self" := JObj(params), "first" := JObj(WithPage(params, 1))];
    var l1 := if prev then l0["prev" := JObj(WithPage(params, page - 1))] else l0;
    Arr(["self", "first"] + (if prev then ["prev"] else []) + (if next then ["next"] else []),
      if next then l1["next" := JObj(WithPage(params, page + 1))] else l1)
  }

  /** The list document: `links`, `meta` and `data`, in that order; it fails exactly when `meta` does. */
  function ListDocument(p: Page): (r: Result<Json, RouteError>)
    ensures r.Err? <==> IntOf(p.perPageValue) == 0
    ensures r.Ok? ==> (r.value.JObj? && r.value.members.keys == ["links", "meta", "data"]
      && "links" in r.value.members.vals && "meta" in r.value.members.vals && "data" in r.value.members.vals
      && r.value.members.vals["links"] == JObj(Links(p))
      && r.value.members.vals["meta"] == JObj(Meta(p).value)
      && r.value.members.vals["data"] == JList(p.items))
  {
    match Meta(p)
    case Err(e) => Err(e)
    case Ok(meta) =>
      Ok(JObj(Arr(["links", "meta", "data"],
        map["links" := JObj(Links(p)), "meta" := JObj(meta), "data" := JList(p.items)])))
  }
}

/**
 * The query builder and the datasets the REST route works with, reduced to
 * what the route does with them: it adds `where` clauses, raw search filters,
 * orderings and a limit to a query object in place, clones it, and hands it to
 * the database, which is outside the model.
 */
module RestQuery {
  import opened Wrappers
  import opened PhpValue

  /**
   * A dataset (rex_yform_manager_dataset): its model class, its table, its id,
   * its values, and the REST field names its class maps field names to.
   */
  datatype Dataset = Dataset(
    cls: string,
    tableName: string,
    id: int,
    values: map<string, Json>,
    restNames: map<string, string>)
  {
    /**
     * `getValue($name)`: the dataset's own id for "id", otherwise the stored
     * value, null for a value that was never set.
     */
    function Value(name: string): Json
    {
      if name == "id" then JInt(id)
      else if name in values then values[name] else JNull
    }

    /** `getRestFieldname($name)`: the mapped name, or the name itself. */
    function RestName(name: string): string
    {
      if name in restNames then restNames[name] else name
    }
  }

  /** One condition of a query: `where(column, value)` or a field's raw search filter. */
  datatype Clause =
    | ColumnIs(column: string, value: Json)
    | SearchFilter(field: string, value: Json)

  datatype Order = Order(column: string, direction: string)

  datatype Limit = Limit(offset: int, count: int)

  /** What a query selects: its conditions, its orderings in call order, and its limit. */
  datatype QueryState = QueryState(clauses: seq<Clause>, orders: seq<Order>, limit: Option<Limit>)

  /** A query object (rex_yform_manager_query); its builder methods change it in place. */
  class Query {
    const tableName: string
    /** The alias of the table in the query, "" for none. */
    const alias: string
    var state: QueryState

    constructor (tableName: string, alias: string, state: QueryState)
      ensures this.tableName == tableName && this.alias == alias && this.state == state
    {
      this.tableName := tableName;
      this.alias := alias;
      this.state := state;
    }

    method Where(column: string, value: Json)
      modifies this
      ensures state == old(state).(clauses := old(state).clauses + [ColumnIs(column, value)])
    {
      state := state.(clauses := state.clauses + [ColumnIs(column, value)]);
    }

    /** `whereRaw` with the search filter of field `field` for `value`. */
    method WhereSearch(field: string, value: Json)
      modifies this
      ensures state == old(state).(clauses := old(state).clauses + [SearchFilter(field, value)])
    {
      state := state.(clauses := state.clauses + [SearchFilter(field, value)]);
    }

    method OrderBy(column: string, direction: string)
      modifies this
      ensures state == old(state).(orders := old(state).orders + [Order(column, direction)])
    {
      state := state.(orders := state.orders + [Order(column, direction)]);
    }

    /** `limit($offset, $count)`: replaces any earlier limit. */
    method SetLimit(offset: int, count: int)
      modifies this
      ensures state == old(state).(limit := Some(Limit(offset, count)))
    {
      state := state.(limit := Some(Limit(offset, count)));
    }

    /** `clone $query`: a new object in the same state. */
    method Clone() returns (c: Query)
      ensures fresh(c) && c.tableName == tableName && c.alias == alias && c.state == state
    {
      c := new Query(tableName, alias, state);
    }
  }

  /**
   * The database as the route sees it: the datasets a query selects, in the
   * query's order and within its limit.
   */
  datatype Database = Database(rows: QueryState -> seq<Dataset>)

  /** `$query->count()`: the number of datasets the query selects without its limit. */
  function Count(db: Database, q: QueryState): nat
  {
    |db.rows(q.(limit := None))|
  }

  /** `$query->find()`; a negative offset or count makes the generated SQL invalid. */
  function Find(db: Database, q: QueryState): (r: Result<seq<Dataset>, string>)
    ensures r.Err? <==> q.limit.Some? && (q.limit.value.offset < 0 || q.limit.value.count < 0)
    ensures r.Ok? ==> r.value == db.rows(q)
  {
    if q.limit.Some? && (q.limit.value.offset < 0 || q.limit.value.count < 0) then Err("sql-error")
    else Ok(db.rows(q))
  }

  /** `$query->findOne()`: the first dataset the query selects, or null. */
  function FindOne(db: Database, q: QueryState): (r: Option<Dataset>)
    ensures r.Some? <==> |db.rows(q.(limit := Some(Limit(0, 1))))| > 0
  {
    var rows := db.rows(q.(limit := Some(Limit(0, 1))));
    if |rows| > 0 then Some(rows[0]) else None
  }
}

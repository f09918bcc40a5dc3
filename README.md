# yform REST route, table manager, "empty" validator and "showtext" action in Dafny

This project models four parts of the yform add-on for REDAXO and proves
properties of the model.

- **The REST route** (`rex_yform_rest_route`). A route is configured with a
  path, a model class, per-method field whitelists and an `auth` entry, and
  it answers one request:
  - GET lists one page of the filtered, ordered datasets, or walks down the
    path segments to a dataset, an attribute or a collection of related
    datasets, and renders what it reaches.
  - POST updates or creates a dataset from the posted attributes and
    relationships.
  - DELETE selects datasets by filter or id, deletes them and reports a
    tally.
- **The table manager** (`rex_yform_manager_table`). It holds a snapshot of
  the table rows, the column listings and the field rows, queries over a
  table's fields and relations, and a process-wide registry of table
  instances built from the snapshot.
- **The "empty" validator** (`rex_yform_validate_empty`). At least one of
  the fields it names must be filled in. When none is, every named field is
  marked with the error class and given the message.
- **The "showtext" action** (`rex_yform_action_showtext`). It appends a
  translated, optionally escaped, wrapped text to the form's output, after
  replacing every `###name###` placeholder with the submitted value.

The code keeps the source's shape:
- Pure decisions are functions over values, with lemmas about them. These
  cover the whitelist, the filter clauses, the include closure, the page
  arithmetic, the links and meta of the list document, the rendering of a
  dataset, the POST steps and the DELETE tally.
- Objects whose state the source changes in place are classes. Their
  methods are proved to produce exactly what those functions describe:
  - the route (`RestRoute.Route`);
  - the query object (`RestQuery.Query`);
  - a table (`ManagerTable.Table`) and the static registry
    (`ManagerTable.Registry`);
  - the validator and the action;
  - the form's shared `$params` (`FormParams.Params`).

Modules:
- Shared models of PHP values: `Wrappers`, `PhpArray`, `PhpString` and
  `PhpValue`.
- `RestQuery`: the query builder and the database, which is an oracle.
- The REST route's logic: `RestFields`, `RestList`, `RestSerialize`,
  `RestPost`, `RestRequest` and `RestRoute`.
- `ManagerTable`, `FormParams`, `ValidateEmpty` and `ActionShowtext`.

How PHP values are represented:
- A PHP array is an ordered map `Arr(keys, vals)`. Its keys are distinct,
  `keys` lists exactly the keys of `vals`, and assigning to an existing key
  keeps that key's position.
- `(int)` casts read an optional sign (`-` or `+`) and then the leading
  decimal digits; "## Left out" lists what PHP's cast does beyond that.
- A loose comparison between a number and a string treats only plain
  decimal integer strings as numeric.
- Where PHP 7 and PHP 8 differ, the model follows PHP 8: an integer
  division by zero fails, and an integer compared with a non-numeric string
  is compared as a string.

## Model

| member | source | states |
|---|---|---|
| RestFields.TrimPath | plugins/rest/lib/rest/route.php:31 | the stored path is the configured one with exactly one trailing slash removed, or unchanged when it has none |
| RestFields.HasAuth | plugins/rest/lib/rest/route.php:76-86 | no `auth` entry (or a null one) allows; a callback decides; any other value is converted to bool by truthiness, and an array cannot be converted and throws |
| RestFields.TypeFromClass | plugins/rest/lib/rest/route.php:774-782 | the type name is the dataset's class, except that the generic dataset class and falsy class names read as "not-defined" |
| RestFields.IdOnly | plugins/rest/lib/rest/route.php:523-525 | without configuration for the class, the whitelist is exactly the `id` field |
| RestFields.AvailableFields | plugins/rest/lib/rest/route.php:538-541 | the offered fields form a well-formed array: the additional API fields merged with the table's value fields |
| RestFields.WhitelistExact | plugins/rest/lib/rest/route.php:543-550 | a field is added iff it is offered, has a database column and is listed; added fields keep their definition, and the earlier entries keep their position and value |
| RestFields.AllowedFieldsExact | plugins/rest/lib/rest/route.php:510-553 | `getFields`: `id` comes first; another field is present iff whitelisted; a whitelisted field has the offered definition, so a whitelisted value field keyed `id` replaces the synthetic integer `id` in place, which otherwise stays; no configuration gives `id` alone; the only error is a configured class without a table |
| RestFields.FilterParam | plugins/rest/lib/rest/route.php:565 | the filter entries are used iff `filter` is set and is an array |
| RestFields.ClausesForKeyExact | plugins/rest/lib/rest/route.php:567-591 | one filter entry adds a clause iff an allowed field's name loosely equals the entry's key: that field's search filter when its value class has one, an exact `where` otherwise |
| RestFields.FilterClausesExact | plugins/rest/lib/rest/route.php:560-599 | `getFilterQuery` adds a clause iff some filter key loosely names an allowed field; keys naming no allowed field add nothing |
| RestFields.PrefixesAfterKeys | plugins/rest/lib/rest/route.php:671-674 | the inner include loop adds exactly the cuts of a piece before each of its dots, each mapped to itself |
| RestFields.WithPrefixesKeys | plugins/rest/lib/rest/route.php:669-675 | one include piece contributes itself and all its dot-prefixes, and nothing else |
| RestFields.IncludesOfKeys | plugins/rest/lib/rest/route.php:662-679 | the include set holds exactly the comma-separated pieces and their dot-prefixes |
| RestFields.IncludesOfClosed | plugins/rest/lib/rest/route.php:662-679 | the include set is closed under dot-prefixes (with `a.b.c` come `a.b` and `a`) |
| RestFields.IncludeSetExact | plugins/rest/lib/rest/route.php:662-679 | an empty `include` gives the empty set; otherwise every piece is in it, every entry is a piece or a piece's dot-prefix, and the set is self-keyed and prefix-closed |
| RestFields.KeepIncludedExact | plugins/rest/lib/rest/route.php:687-693 | with includes, a field is kept, unchanged, iff its compare key is one of them |
| RestFields.FilterByIncludeExact | plugins/rest/lib/rest/route.php:681-696 | without includes the fields come back unchanged; otherwise a field is kept iff the parents joined with dots, then the key, form an include |
| RestList.PerPageValue | plugins/rest/lib/rest/route.php:152-153 | `$per_page` is an integer cast, or the stored list amount string when the cast value is negative |
| RestList.PerPage | plugins/rest/lib/rest/route.php:152-153 | with a list amount that casts to a non-negative integer the page size is never negative: the requested size when given and non-negative, else the list amount; with a list amount of at least 1 it is 0 only when 0 is asked for |
| RestList.CurrentPage | plugins/rest/lib/rest/route.php:155-156 | the page is the requested one, 1 when missing or negative; page 0 is kept and is the only way to get 0 |
| RestList.NegativeOffset | plugins/rest/lib/rest/route.php:158 | the limit's offset is negative exactly on page 0 with a positive page size |
| RestList.CeilDivBounds | plugins/rest/lib/rest/route.php:298 | the rounded-up page count is the least count whose pages hold all items |
| RestList.TotalPages | plugins/rest/lib/rest/route.php:298 | the page count fails exactly on a page size of 0 (a division by zero) |
| RestList.NextIffBeforeLast | plugins/rest/lib/rest/route.php:311-316 | for a positive page size, a `next` link exists exactly when the current page comes before the last one |
| RestList.Direction | plugins/rest/lib/rest/route.php:164 | the direction is "desc" exactly when the value loosely equals "desc" (the string itself or `true`), otherwise "asc" |
| RestList.RequestedOrdersExact | plugins/rest/lib/rest/route.php:161-167 | an ordering is requested iff its column is an `order` entry naming an allowed field, with the direction that entry asks for |
| RestList.RecordedExact | plugins/rest/lib/rest/route.php:165 | the recorded order has a column iff some ordering uses it, and records one of that column's orderings |
| RestList.PlanOrderExact | plugins/rest/lib/rest/route.php:160-172 | without an `order` array nothing is ordered or recorded; with one, the requested orderings come first and the table default last, and the default is recorded only when no request survived |
| RestList.Meta | plugins/rest/lib/rest/route.php:285-298 | `meta` fails exactly on page size 0; it reports the total, the page's item count, the rounded-up page count, the page size and the page; order and filter appear only when present |
| RestList.LinksFor | plugins/rest/lib/rest/route.php:300-316 | `self` and `first` always; `prev` and `next` exactly when asked for, each pointing at the neighbouring page with the same parameters |
| RestList.Links | plugins/rest/lib/rest/route.php:277-316 | `prev` exists exactly when the page is beyond the first, and `next` exactly when the pages so far hold fewer than all items |
| RestList.ListDocument | plugins/rest/lib/rest/route.php:318-322 | the list document is `links`, `meta` and `data`, in that order, and fails exactly when `meta` does |
| RestQuery.Query.Where | plugins/rest/lib/rest/route.php:464 | a `where` appends one condition and leaves the orderings and the limit alone |
| RestQuery.Query.OrderBy | plugins/rest/lib/rest/route.php:166 | an `orderBy` appends one ordering and changes nothing else |
| RestQuery.Query.SetLimit | plugins/rest/lib/rest/route.php:158 | `limit` replaces the limit and changes nothing else |
| RestQuery.Query.Clone | plugins/rest/lib/rest/route.php:452 | a clone is a new object with the same table, alias and state |
| RestQuery.Find | plugins/rest/lib/rest/route.php:175 | `find` fails exactly on a negative offset or count, and otherwise returns the selected datasets |
| RestQuery.FindOne | plugins/rest/lib/rest/route.php:213-215 | `findOne` returns a dataset iff the query limited to one row selects any |
| RestSerialize.AttributeValue | plugins/rest/lib/rest/route.php:648-654 | an `int` column or an `integer` field is cast to int; a `number` field and every other field pass unchanged |
| RestSerialize.AttributesExact | plugins/rest/lib/rest/route.php:636-660 | an attribute name is present iff some non-relation field is rendered under it, and its value is the coerced value of the last such field, since a later assignment overwrites an earlier one |
| RestSerialize.AttributeIdIsOwnId | plugins/rest/lib/rest/route.php:619-655 | the `id` attribute, rendered from the always-whitelisted `id` field, equals the dataset's own id, as the top-level `id` does |
| RestSerialize.AttributesUnrenamed | plugins/rest/lib/rest/route.php:636-660 | without renaming, every non-relation field appears under its own key with its own coerced value |
| RestSerialize.IdData | plugins/rest/lib/rest/route.php:611-618 | rendering by id only gives `id`, `type` and the `self` link, in that order |
| RestSerialize.FullData | plugins/rest/lib/rest/route.php:619-630 | the full rendering adds `attributes` and `relationships` between `type` and `links`, sharing `id`, `type` and `links` with the by-id rendering |
| RestSerialize.Rendered | plugins/rest/lib/rest/route.php:718-729 | a related dataset whose table name loosely equals the route's own is rendered by id only; any other is rendered in full one level deeper |
| RestSerialize.Collect | plugins/rest/lib/rest/route.php:717-729 | the renderings succeed iff every item does, and they keep the items' order |
| RestSerialize.InstanceDataShape | plugins/rest/lib/rest/route.php:606-631 | by id only, the rendering never fails; in full, it fails when the whitelist does and otherwise holds the attributes of the visible fields |
| RestSerialize.RelationNamesExact | plugins/rest/lib/rest/route.php:710-711 | the relationships loop visits exactly the visible relation fields |
| RestSerialize.RelationshipsAllRendered | plugins/rest/lib/rest/route.php:701-750 | the relationships fail exactly when some related rendering fails |
| RestSerialize.RelationshipsExact | plugins/rest/lib/rest/route.php:701-750 | one entry per relation field; failure exactly when a rendering fails; the last related dataset is set iff some field has a related dataset |
| RestSerialize.RelationEntryData | plugins/rest/lib/rest/route.php:717-732 | a relation entry's data are its related datasets rendered in order: by id only for the own table, in full one level deeper otherwise |
| RestSerialize.OwnTableNeverExpanded | plugins/rest/lib/rest/route.php:718-722 | datasets of the route's own table are never expanded, so their renderings never fail |
| RestSerialize.AbsoluteLinkCarriesOver | plugins/rest/lib/rest/route.php:737-743 | a field without related datasets gets the `absolute` link of the last dataset met in an earlier field |
| RestPost.PostedMember | plugins/rest/lib/rest/route.php:357-390 | the posted `attributes` (line 357) or `relationships` (line 390) are a well-formed array: empty when missing, a scalar wrapped under key "0", an object taken as it is |
| RestPost.PostChecks | plugins/rest/lib/rest/route.php:357-366 | a POST is refused with 400 iff the posted type differs loosely from the table's type or the attributes are empty, in that order |
| RestPost.Upsert | plugins/rest/lib/rest/route.php:368-382 | an `id` naming an existing dataset updates it with 200; any other POST creates with 201, using the raw dataset for a posted id and a new one otherwise |
| RestPost.CopyAttributesExact | plugins/rest/lib/rest/route.php:384-388 | a value takes the posted attribute iff that attribute is posted and whitelisted and not a relation; every other value is unchanged |
| RestPost.RelationItems | plugins/rest/lib/rest/route.php:394-397 | a relationship's `data` is used as a list, and a non-array value is wrapped into a one-element list |
| RestPost.RelationIdsPositive | plugins/rest/lib/rest/route.php:399-426 | the kept ids are positive and no more numerous than the items |
| RestPost.RelationIdsMembers | plugins/rest/lib/rest/route.php:399-426 | the kept ids are exactly the items' positive ids |
| RestPost.RelationIdsAllPositive | plugins/rest/lib/rest/route.php:399-426 | when every item has a positive id, the ids are the items' ids in input order |
| RestPost.RelationValueRoundTrip | plugins/rest/lib/rest/route.php:422-427 | the comma-joined ids split back into one piece per id, and each piece casts back to that id |
| RestPost.LinkRelationsExact | plugins/rest/lib/rest/route.php:390-429 | a posted relationship of a relation field sets the field to its comma-joined positive ids; every other value is unchanged |
| RestPost.PostOutcomeExact | plugins/rest/lib/rest/route.php:344-443 | a failed check is a 400 error; otherwise the dataset described by WrittenExact is saved, a successful save answers `{id}` with the saved id and a failed one 'errors-set' with its messages, and both carry the target's status, 200 or 201 |
| RestPost.WrittenExact | plugins/rest/lib/rest/route.php:369-432 | the saved dataset is the update-or-create target with only its values changed: a posted relationship of a whitelisted relation field holds the comma-joined positive ids, a posted attribute of a whitelisted non-relation field holds the posted value, and every other value is the target's |
| RestPost.HandlePost | plugins/rest/lib/rest/route.php:344-443 | the POST branch, with its loops, answers what the POST outcome describes |
| RestPost.CopyLoop | plugins/rest/lib/rest/route.php:384-388 | the attribute loop computes the copied values |
| RestPost.LinkLoop | plugins/rest/lib/rest/route.php:390-429 | the relationships loop computes the linked values |
| RestPost.RelationIdsLoop | plugins/rest/lib/rest/route.php:400-426 | the loop over one field's items computes its kept ids |
| RestRequest.AnnouncedExact | plugins/rest/lib/rest/route.php:494-501 | the unknown-method error lists exactly the upper-cased methods that have a configuration entry |
| RestRequest.LastWithId | plugins/rest/lib/rest/route.php:193-203 | inside a collection a segment finds a dataset iff some dataset's id loosely equals it, and what it finds has that id |
| RestRequest.LastMatchWins | plugins/rest/lib/rest/route.php:195-199 | when several datasets carry the id, the last one wins |
| RestRequest.Advance | plugins/rest/lib/rest/route.php:192-262 | one segment selects by id in a collection, narrows the query by id when no dataset is selected yet, or names an attribute below a dataset (a relation enters its collection); a missing dataset or attribute is a 400 |
| RestRequest.WalkShape | plugins/rest/lib/rest/route.php:192-262 | a successful walk never holds both a dataset and a collection, keeps the query's orderings and limit, and adds only id conditions, each on one of the segments |
| RestRequest.WalkStartsById | plugins/rest/lib/rest/route.php:206-215 | the first segment always narrows the query by id, and a successful walk ends at exactly one of a dataset or a collection |
| RestRequest.ListAmountOf | plugins/manager/lib/yform/manager/table.php:196-202 | the list's page size casts to a non-negative integer, and to at least 1 when it is numeric |
| RestRequest.ListQueryFails | plugins/rest/lib/rest/route.php:144-175 | the list query fails exactly on page 0 with a positive page size; the limit takes the page size; the count ignores the paging and the ordering |
| RestRequest.ListOutcomeShape | plugins/rest/lib/rest/route.php:144-323 | the list view answers 200 with `links`, `meta` and `data`, the page's datasets rendered; page 0 is an SQL error and page size 0 fails |
| RestRequest.DetailOutcomeShape | plugins/rest/lib/rest/route.php:264-333 | a walk's error is the answer; a collection gives one rendering per dataset; an attribute gives its raw value with 200 |
| RestRequest.DeleteAlwaysNarrowed | plugins/rest/lib/rest/route.php:447-466 | the corrected DELETE selection always has a condition beyond the route's query; it is refused iff the filter adds nothing and either a filter was given or no id |
| RestRequest.DeleteByIdIgnored | plugins/rest/lib/rest/route.php:452-466 | with no filter and the segment "5", the selection as written keeps the unnarrowed query, while the corrected one adds `id = 5` |
| RestRequest.StoredListAmount | plugins/manager/lib/yform/manager/table.php:196-202 | `getListAmount`'s write-back: `list_amount` afterwards holds the amount the call returns; no other entry of the row changes |
| RestRequest.RowAfterPageSize | plugins/rest/lib/rest/route.php:152-153 | after `$per_page` is chosen the row gives the same list amount and the same default sort column and direction as before, so a later request sees the same defaults |
| RestRequest.IncludesAfter | plugins/rest/lib/rest/route.php:662-679 | once `getIncludes` has run its memo is set, an existing memo is kept, and the include set used for rendering never changes |
| RestRequest.ListState | plugins/rest/lib/rest/route.php:144-323 | after the list view the query holds the route's clauses followed by exactly the filter's clauses and keeps its earlier orderings; the list amount and the include set are unchanged |
| RestRequest.WalkEndQueryGrows | plugins/rest/lib/rest/route.php:192-262 | where the walk stops, even on a failing segment, the query has only gained id conditions on the path's segments, and on success it is the query the walk reports |
| RestRequest.DetailState | plugins/rest/lib/rest/route.php:192-333 | after a GET with path segments the query has gained only id conditions on the segments, the table row is untouched, and the include set is unchanged |
| RestRequest.GetState | plugins/rest/lib/rest/route.php:126-340 | after the GET branch the query keeps the route's clauses as a prefix, and the list amount, the default order and the include set are as before |
| RestRequest.DeleteQuery | plugins/rest/lib/rest/route.php:447-466 | after the DELETE branch the query is unchanged or strictly narrowed, and strictly narrowed whenever DELETE answers |
| RestRequest.TallyAddsUp | plugins/rest/lib/rest/route.php:470-485 | every selected dataset is counted once, as deleted or as failed |
| RestRequest.TallyExact | plugins/rest/lib/rest/route.php:470-485 | `all` is the number selected, `deleted + failed = all`, and `dataset` lists the ids in order and is present only when something was selected |
| RestRoute.FindInCollection | plugins/rest/lib/rest/route.php:195-203 | the loop over a collection finds what LastWithId describes |
| RestRoute.RenderAll | plugins/rest/lib/rest/route.php:266-271 | the rendering loop computes the collected renderings, and the first failure ends it |
| RestRoute.TallyLoop | plugins/rest/lib/rest/route.php:470-485 | the deletion loop computes the tally |
| RestRoute.WhitelistLoop | plugins/rest/lib/rest/route.php:543-550 | the `getFields` loop computes the whitelist |
| RestRoute.FilterLoop | plugins/rest/lib/rest/route.php:565-593 | the outer filter loop appends exactly the filter's clauses to the query, in place |
| RestRoute.AddKeyClauses | plugins/rest/lib/rest/route.php:567-591 | the inner filter loop appends exactly one entry's clauses |
| RestRoute.AddIfNamed | plugins/rest/lib/rest/route.php:570-590 | one field gets a search filter or a `where` exactly when the entry names it |
| RestRoute.OrderLoop | plugins/rest/lib/rest/route.php:161-167 | the `order` loop orders the query by the requested orderings and returns the recorded order |
| RestRoute.RecordedEmpty | plugins/rest/lib/rest/route.php:169-171 | the recorded order is empty exactly when no ordering was kept |
| RestRoute.Route.constructor | plugins/rest/lib/rest/route.php:23-33 | a new route keeps its configuration, table and query, trims its path and has no include memo |
| RestRoute.Route.GetFields | plugins/rest/lib/rest/route.php:510-553 | `getFields` returns the allowed fields |
| RestRoute.Route.GetFilterQuery | plugins/rest/lib/rest/route.php:560-599 | `getFilterQuery` changes the query in place to the filtered query |
| RestRoute.IncludesLoop | plugins/rest/lib/rest/route.php:669-675 | the `foreach` over the comma-separated pieces builds exactly the include set of those pieces |
| RestRoute.AddPiece | plugins/rest/lib/rest/route.php:670-674 | one piece is added with all its dot-prefixes, each keyed by itself, by the `strrpos`/`substr` loop |
| RestRoute.Route.GetIncludes | plugins/rest/lib/rest/route.php:662-679 | the include set is computed on first use and served from the memo afterwards |
| RestRoute.Route.ApplyOrder | plugins/rest/lib/rest/route.php:160-172 | the list ordering appends the planned orderings to the query and returns the planned recorded order |
| RestRoute.Route.Segment | plugins/rest/lib/rest/route.php:192-262 | one step of the path loop computes Advance and leaves the query in the state it describes |
| RestRoute.Route.Walk | plugins/rest/lib/rest/route.php:192-262 | the loop over the segments computes the walk |
| RestRoute.Route.PageSize | plugins/rest/lib/rest/route.php:152-153 | `$per_page` is computed as described; the table's row afterwards is RowAfterPageSize: the default 30 is stored in `list_amount` when `getListAmount` runs and finds it missing or below 1, and the sort column and direction are unchanged |
| RestRoute.Route.PlanListView | plugins/rest/lib/rest/route.php:149-173 | preparing the list view puts the query in the planned state, leaves the table row as RowAfterPageSize describes, and reports the planned figures |
| RestRoute.Route.ListGet | plugins/rest/lib/rest/route.php:144-323 | the list view answers the list outcome and leaves the query, the table row and the include memo as ListState describes |
| RestRoute.Route.DetailGet | plugins/rest/lib/rest/route.php:192-333 | a GET with path segments answers the detail outcome and leaves the query and the include memo as DetailState describes |
| RestRoute.Route.SelectForDeleteAsWritten | plugins/rest/lib/rest/route.php:452-466 | as written, the clone never equals the query, so DELETE always proceeds with the filtered query |
| RestRoute.Route.SelectForDelete | plugins/rest/lib/rest/route.php:452-466 | the corrected DELETE selection computes DeleteSelection, and on success the query is left in the selected state |
| RestRoute.Route.HandleDelete | plugins/rest/lib/rest/route.php:447-492 | the DELETE branch (with the corrected selection) answers the DELETE outcome and leaves the query in the state DeleteQuery describes |
| RestRoute.Route.AvailableMethods | plugins/rest/lib/rest/route.php:495-500 | the loop over request methods collects the configured ones, upper-cased, in order |
| RestRoute.Route.HandleGet | plugins/rest/lib/rest/route.php:126-340 | the GET branch answers the GET outcome and leaves the query, the table row and the include memo as GetState describes |
| RestRoute.Route.PostBranch | plugins/rest/lib/rest/route.php:344-443 | the POST branch answers the POST outcome |
| RestRoute.Route.HandleRequest | plugins/rest/lib/rest/route.php:100-503 | no table is a 400; a known method without configuration is a 400; GET and POST answer their branch's outcome; DELETE answers the outcome of the corrected selection (see "## Findings"), not the as-written one of route.php:452-466; any other method is a 404 listing the available methods; GET leaves the route as GetState describes, DELETE leaves the query as DeleteQuery describes, and every other answer leaves the query, the table row and the include memo unchanged |
| ManagerTable.ColumnMapExact | plugins/manager/lib/yform/manager/table.php:477-485 | a table's columns are exactly the listed ones other than `id`, each keyed by its name |
| ManagerTable.TablesPassNames | plugins/manager/lib/yform/manager/table.php:472-488 | the snapshot has an entry for a table iff some table row names it |
| ManagerTable.TablesPassEntry | plugins/manager/lib/yform/manager/table.php:472-488 | a table's entry holds its last table row and its introspected columns, and starts with no fields |
| ManagerTable.TablesPassOrder | plugins/manager/lib/yform/manager/table.php:472-488 | tables appear in the order of their first table row |
| ManagerTable.FieldsPassExact | plugins/manager/lib/yform/manager/table.php:490-495 | distributing the field rows keeps the tables and appends to each exactly its own rows, in order |
| ManagerTable.SnapshotEntry | plugins/manager/lib/yform/manager/table.php:456-500 | the snapshot holds a table iff a table row names it, with its last row, its non-id columns and exactly its field rows in prio order; fields of unknown tables are dropped |
| ManagerTable.SnapshotOrder | plugins/manager/lib/yform/manager/table.php:456-500 | the snapshot lists tables in the order their first rows were read |
| ManagerTable.RowsOfTableExact | plugins/manager/lib/yform/manager/table.php:490-495 | a table's field rows are exactly the rows naming it |
| ManagerTable.BuildSnapshot | plugins/manager/lib/yform/manager/table.php:467-495 | building the cache computes the snapshot |
| ManagerTable.ReadTables | plugins/manager/lib/yform/manager/table.php:472-488 | the table-row loop computes the tables pass |
| ManagerTable.ReadColumns | plugins/manager/lib/yform/manager/table.php:477-485 | the column loop computes the column map |
| ManagerTable.DistributeFields | plugins/manager/lib/yform/manager/table.php:490-495 | the field-row loop computes the fields pass |
| ManagerTable.FilterFieldsExact | plugins/manager/lib/yform/manager/table.php:216-231 | a field is returned iff it is one of the table's fields and matches every filter key loosely |
| ManagerTable.FilterFieldsAppend | plugins/manager/lib/yform/manager/table.php:216-231 | filtering keeps the fields' order |
| ManagerTable.FilterFieldsEmpty | plugins/manager/lib/yform/manager/table.php:218-220 | an empty filter returns all fields in stored order |
| ManagerTable.ValueFieldsExact | plugins/manager/lib/yform/manager/table.php:238-253 | `getValueFields`: a name is a key iff some matching value field has that name, and it maps to the last such field |
| ManagerTable.ValueFieldsOrder | plugins/manager/lib/yform/manager/table.php:240-252 | the keys of `getValueFields` come in the order in which each name first occurs among the matching value fields, each once |
| ManagerTable.ValueFieldsFirst | plugins/manager/lib/yform/manager/table.php:240-252 | the first key is the name of the first matching value field, and there is no key iff no value field matches |
| ManagerTable.ValueFieldsEntries | plugins/manager/lib/yform/manager/table.php:238-253 | every entry is a matching value field of the table under its own name |
| ManagerTable.RelationTypeLoose | plugins/manager/lib/yform/manager/table.php:267 | loose equality with the relation type name is plain equality |
| ManagerTable.RelationToMatch | plugins/manager/lib/yform/manager/table.php:278-281 | a field matching the relation-to filter is a relation field whose target loosely equals the table |
| ManagerTable.RelationsToAreRelations | plugins/manager/lib/yform/manager/table.php:264-281 | the relations to a table are among the table's relations, and each points at that table |
| ManagerTable.JunctionColumns | plugins/manager/lib/yform/manager/table.php:294-310 | the join columns fail exactly when the junction lacks a relation to either side; otherwise they name the first such relations |
| ManagerTable.JunctionColumnsFirst | plugins/manager/lib/yform/manager/table.php:294-310 | the join columns are the names of the first relation fields of the junction, in its field order, pointing back at the source and at the target (what `reset` reads); the lookup fails iff a side has no such field |
| ManagerTable.JunctionColumnsPointBack | plugins/manager/lib/yform/manager/table.php:294-310 | the join columns found are relation fields of the junction pointing back at the source and at the target |
| ManagerTable.MissingFields | plugins/manager/lib/yform/manager/table.php:318-330 | the missing fields are exactly the columns no value field describes, each mapped to itself |
| ManagerTable.RelationOf | plugins/manager/lib/yform/manager/table.php:288-292 | a relation is found iff a relation value field has that name, and the one found is such a field |
| ManagerTable.SelectedRelation | plugins/manager/lib/yform/manager/table.php:264-271 | the relation filter selects exactly the relation value fields |
| ManagerTable.PermKeyInjective | plugins/manager/lib/yform/manager/table.php:332-335 | distinct tables have distinct permission keys |
| ManagerTable.FindById | plugins/manager/lib/yform/manager/table.php:70-81 | the `getById` loop finds the first table whose id loosely equals the given one, or none; a null entry met first is a call on null |
| ManagerTable.ListAmountKeepsSort | plugins/manager/lib/yform/manager/table.php:196-202 | writing the page size back keeps the sort column and direction |
| ManagerTable.Table.constructor | plugins/manager/lib/yform/manager/table.php:30-43 | an instance keeps its row and columns, holds as fields exactly the definition rows whose field object can be constructed, in order (a row whose construction throws is skipped), takes its name from the row, and has no relation memo |
| ManagerTable.FieldsOf | plugins/manager/lib/yform/manager/table.php:35-42 | the fields are at most as many as the rows, and a field is present exactly when some row that constructs yields it |
| ManagerTable.FieldsOfAllConstruct | plugins/manager/lib/yform/manager/table.php:35-42 | when every row constructs, there is one field per row, in the rows' order |
| ManagerTable.FieldsOfSkips | plugins/manager/lib/yform/manager/table.php:37-41 | a row whose construction throws leaves the fields as if it were absent |
| ManagerTable.Table.HasFlag | plugins/manager/lib/yform/manager/table.php:136-184 | a flag is set iff its column holds a value loosely equal to 1 |
| ManagerTable.Table.GetListAmount | plugins/manager/lib/yform/manager/table.php:196-202 | the page size is the stored one unless it is missing or below 1 under PHP 8's comparison, else 30, which is then stored; it casts to a non-negative integer, at least 1 when numeric |
| PhpString.NotBelowOne | plugins/manager/lib/yform/manager/table.php:198 | a string PHP 8 does not find below 1 casts to a non-negative integer, and to at least 1 when it is a plain decimal integer |
| PhpString.NonNumericNotBelowOne | plugins/manager/lib/yform/manager/table.php:198 | the stored amount "abc" is not below 1 under PHP 8, so it is kept, and it casts to a page size of 0 |
| ManagerTable.Table.GetFields | plugins/manager/lib/yform/manager/table.php:216-231 | the matching fields, and all of them without a filter |
| ManagerTable.Table.GetValueFields | plugins/manager/lib/yform/manager/table.php:238-253 | every entry is a selected value field of the table under its own name, and the keys come in the order of each name's first matching field |
| ManagerTable.Table.GetValueField | plugins/manager/lib/yform/manager/table.php:255-259 | a value field is found iff one has that name |
| ManagerTable.Table.GetRelations | plugins/manager/lib/yform/manager/table.php:264-271 | the relation fields, computed once and then memoised |
| ManagerTable.Table.GetRelationsTo | plugins/manager/lib/yform/manager/table.php:278-281 | every relation returned points at the table |
| ManagerTable.Table.GetRelation | plugins/manager/lib/yform/manager/table.php:288-292 | the memoised relations' entry for the column |
| ManagerTable.Table.GetRelationTableColumns | plugins/manager/lib/yform/manager/table.php:294-310 | the junction table is looked up in the registry; a missing one is a call on null; otherwise its join columns |
| ManagerTable.Registry.constructor | plugins/manager/lib/yform/manager/table.php:24-28 | the registry starts with no cache, no instances and nothing loaded |
| ManagerTable.Registry.GetCache | plugins/manager/lib/yform/manager/table.php:456-500 | the snapshot is built on first use and kept afterwards |
| ManagerTable.Registry.Get | plugins/manager/lib/yform/manager/table.php:50-63 | the instance handed out before, or a new one built from the snapshot and recorded; null is also recorded, for an unknown name |
| ManagerTable.Registry.NewInstance | plugins/manager/lib/yform/manager/table.php:58-62 | a new instance exists iff the snapshot has the table, and it is built from that table's entry |
| ManagerTable.Registry.Record | plugins/manager/lib/yform/manager/table.php:58-62 | recording an instance keeps the registry consistent and adds exactly that entry |
| ManagerTable.Registry.GetAll | plugins/manager/lib/yform/manager/table.php:86-101 | once loaded, the recorded instances; otherwise one instance per snapshot table in snapshot order, reusing those handed out before |
| ManagerTable.Registry.Instantiate | plugins/manager/lib/yform/manager/table.php:94-98 | one non-null instance per snapshot table, named after it: the earlier one when there is one, else a new one |
| ManagerTable.Registry.Reuse | plugins/manager/lib/yform/manager/table.php:97 | the kept instance is the earlier one when there is one, else a new one built from the table's data |
| ManagerTable.Registry.GetById | plugins/manager/lib/yform/manager/table.php:70-81 | after loading all tables, the first whose id loosely equals the given one, or null; a null entry met first is a call on null |
| ManagerTable.Registry.SearchLoaded | plugins/manager/lib/yform/manager/table.php:72-80 | the found table is returned through `get` unchanged; without null entries the search cannot fail |
| ManagerTable.Registry.DeleteCache | plugins/manager/lib/yform/manager/table.php:448-454 | deleting the cache forgets the snapshot, every instance and the loaded flag |
| ValidateEmpty.Flagged | lib/yform/validate/empty.php:23-30 | the objects looked at are exactly the value objects whose name is loosely among the names |
| ValidateEmpty.Validate | lib/yform/validate/empty.php:11-37 | nothing changes unless the name list is non-empty and no listed value object is filled in |
| ValidateEmpty.MarkEffect | lib/yform/validate/empty.php:32-36 | after marking, exactly the marked ids are added, they carry the value, and every other entry is unchanged |
| ValidateEmpty.MarkFlagged | lib/yform/validate/empty.php:32-36 | marking the objects looked at adds exactly their ids, each carrying the value, and leaves every other entry alone |
| ValidateEmpty.ValidateEffect | lib/yform/validate/empty.php:11-37 | when the rule fires, every listed value object gets the error class and the message, exactly their ids are added, and other entries are unchanged |
| ValidateEmpty.ValidateIdempotent | lib/yform/validate/empty.php:11-37 | running the rule a second time changes nothing more |
| ValidateEmpty.CollectWarningObjects | lib/yform/validate/empty.php:23-30 | the first loop stops exactly when a considered object is filled in, and otherwise collects the considered objects in order |
| ValidateEmpty.EmptyValidator.EnterObject | lib/yform/validate/empty.php:11-37 | `enterObject` leaves the warning arrays as the rule describes |
| ValidateEmpty.EmptyValidator.MarkWarnings | lib/yform/validate/empty.php:32-36 | the second loop marks each collected id with the error class and the message with the label filled in |
| ActionShowtext.SubstituteSplit | lib/yform/action/showtext.php:24-26 | substituting two runs of keys is substituting the first run, then the second |
| ActionShowtext.SubstituteAbsent | lib/yform/action/showtext.php:24-26 | a text with none of the placeholders comes through unchanged |
| ActionShowtext.AssembledWithoutPlaceholders | lib/yform/action/showtext.php:12-29 | without placeholders to fill, the output is prefix, body and suffix, and the body is escaped iff element 5 selects plain text |
| ActionShowtext.SubstitutePool | lib/yform/action/showtext.php:24-26 | the pool loop replaces each placeholder in pool order |
| ActionShowtext.ShowtextAction.ExecuteAction | lib/yform/action/showtext.php:12-29 | `executeAction` appends the assembled text to the form's output and leaves the rest of the output alone |
| PhpString.IntCastOfIntToString | plugins/rest/lib/rest/route.php:422-427 | casting the decimal rendering of an integer gives the integer back |
| PhpString.ExplodeImplode | plugins/rest/lib/rest/route.php:427 | splitting a comma-joined list of comma-free pieces gives the pieces back |
| PhpString.ReplaceIsImplodeOfExplode | lib/yform/validate/empty.php:35 | `str_replace` is splitting on the search string and joining with the replacement |
| PhpString.ReplaceAbsent | lib/yform/action/showtext.php:25 | where the search string does not occur, `str_replace` changes nothing |
| PhpString.LooseEqualsOwnRendering | plugins/rest/lib/rest/route.php:196 | every integer loosely equals its own decimal rendering |

## Left out

- I/O and transport are left out: the HTTP request, `getRequestMethod`, `getRequestData` and JSON decoding of the body, `sendContent`/`sendError` with `exit`, and `setHeader`. The request is an input value, and the error responses are the `Err` results.
- The extension points (`rex_extension::registerPoint`) are left out: each hook is treated as returning its subject unchanged.
- RestRoute.Route.constructor: the throw of route.php:29 is not modelled. There `createDataset()` is called on the table, which fails when the class has no table; the model builds the route with a null `table`. A null `table` stands for a later write of null to the public `$config['table']` (route.php:5), which is how the 400 'table-not-available' of route.php:106-108 is reached in PHP; the model's `table` is a `const`, so the write itself, and the `$this->table` that PHP keeps beside it, are not shown.
- `returnResponse` is left out. Only the DELETE branch reads it (route.php:486-489), and it returns there the tally that the model returns; GET (route.php:338) and POST (route.php:436) send their answer whatever the flag says.
- The debug `echo` of a relation attribute's name while walking the path of a GET is left out.
- RestFields.ClauseFor and RestRoute.Route.GetFilterQuery: building a field's search filter never fails here. The 400 'field-class-not-found' answer with the field's name (route.php:581-584), sent when `getSearchFilter` throws an `Error`, is not modelled, because the search filter itself is outside the model.
- The query engine and the database are an oracle (`Database.rows`): SQL generation, search filter SQL and the semantics of conditions are left out, and a negative limit is modelled as an SQL error.
- Dataset persistence is left out: `save`, `delete` and the nested POST of a related dataset with attributes are given as functions of the request (`Store`, `World.remove`). The nested POST (route.php:405-419, `handleRequest([], $_GET, true)`) is the `nested` oracle of the store, whose answer replaces the related item and is read for its `id`. Whether that inner request ends the process through `sendContent` (so the outer dataset is never saved) or yields null (whose id then casts to 0) depends on `rex_yform_rest`, which is not part of this model, and is abstracted away.
- The link URLs are left out. A list link (`RestList.Links`) is modelled by its link parameters only; the route's path, which every list link shares, is omitted. A dataset or relationship link (`RestSerialize.PathLink`) is modelled as the route path followed by the path segments. No URL text is built.
- RestSerialize.InstanceData: the source recurses through relation fields without bound; here a `fuel` depth bounds the recursion and running out of it is an error. Cyclic data that loops forever in the source is therefore not modelled.
- RestSerialize.AttributeValue: the `(float)` cast of `number` fields is left out, and the value passes unchanged.
- RestList.Meta: `totalPages` is the result of `ceil`, a float in PHP, but it is modelled as an integer, because JSON numbers are integers in this model (`PhpValue.Json`).
- RestList.PerPageValue: after a negative `per_page`, the default list amount 30 that `getListAmount` stores is the integer 30 in PHP. Here it is the string "30", because a table row holds strings.
- PhpString.IntCast: PHP's `(int)` cast also skips leading whitespace (`(int)" 5"` is 5), reads an exponent (`(int)"1e3"` is 1000) and saturates at `PHP_INT_MAX`. The model reads only a sign and the leading digits, on unbounded integers. This affects `per_page`, `page` and the posted relationship ids.
- The error details of the path walk are left out: 'dataset-not-found' and 'attribute-not-found' carry the paths and the table name in PHP (route.php:202, 225, 231, 248), and an empty detail list in the model.
- PhpArray.Arr: every key is a string. PHP turns a numeric-string key into an integer, so `json_encode` prints an array whose only key is "0" (a scalar `attributes` value) as a list, and an include piece "5" becomes the key 5; the model keeps the string keys and renders such arrays as objects.
- PhpValue.Lookup: PHP's string offsets are left out. Indexing a string value yields null, where PHP yields the character at that offset or an error.
- ValidateEmpty.FormObject: a form object's value is a string. Array values returned by `getValue` are not modelled.
- Loose comparison is only modelled between strings and integers (`PhpString.LooseEqualsInt`, `LooseEqualsStr`): only plain decimal integer strings count as numeric. Leading whitespace, exponents, floats and version-specific PHP 7 and PHP 8 differences are left out. A stored non-numeric `list_amount` (say "abc") reached through a negative `per_page` stays a string in PHP, and PHP 8 throws a `TypeError` at the multiplication of route.php:158, before `find()`; the model casts it to 0, runs the query and fails later, with the division by zero of `totalPages` in `RestList.Meta`. Both end the request with an uncaught error, but at a different point and for a different reason.
- `hasAuth` is modelled as a function of the `auth` entry; its caller, which decides whether a request is answered at all, is not part of this model.
- The route's trivial accessors `getPath` and `getInstanceValue` are left out; the path is the `path` field of `RestRoute.Route`.
- `rex_i18n::translate`, `htmlspecialchars` and `nl2br` in the showtext action, and `Wildcard::parse` in the empty validator, are functions passed in as parameters.
- `isObject` and the form object list are taken as a flag and a value on each `ValidateEmpty.FormObject`.
- The cache file of the table manager (`cachePath`, reading and writing it) is left out; the snapshot is kept in the registry object only.
- Field construction is left out: a field is its definition row plus the column type its value class declares. Whether `new rex_yform_manager_field` throws for a row is the `constructs` predicate given to the registry, because the field class is not part of this model.
- The other members of `rex_yform_manager_table` are not part of this model: `getMaximumTablePrio`, `getMaximumPrio`, `createDataset`, `getDataset`, `getRawDataset` (which POST reads through `RestPost.Store`), `query`, `table`, `getName`, `hasId`, `getColumns`, `toArray`, `removeRelationTableRelicts`, `getDescription`, the `ArrayAccess` methods and `__toString`.
- ManagerTable.Table.GetListAmount: a stored list amount is compared with 1 as PHP 8 does (`PhpString.LessThanInt`). Only plain decimal integer strings count as numeric, so a stored " 5" or "5.0" is compared as a string.
- ManagerTable.Registry.GetAll: the order of the instances and their reuse are stated; the identity of new instances across two registries is not.

## Findings

| source | as written | input that shows it | evidently intended | confidence | as-written member | corrected member |
|---|---|---|---|---|---|---|
| plugins/rest/lib/rest/route.php:452-466 | DELETE compares `$queryClone === $query` by object identity. `getFilterQuery` returns the same query object and `clone` makes a new one, so the comparison is always false. Every DELETE then proceeds with the filtered query, whatever the filter added. | DELETE `/route/5` with no `filter`: no `id = 5` condition is added, and every dataset the route's query selects is deleted | compare the query's state before and after filtering: refuse a filter that adds nothing, and without a filter delete by the id of the first segment | not executed | RestRoute.Route.SelectForDeleteAsWritten, RestRequest.DeleteByIdIgnored | RestRoute.Route.SelectForDelete, RestRequest.DeleteSelection, RestRequest.DeleteAlwaysNarrowed |

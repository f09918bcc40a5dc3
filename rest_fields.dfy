/**
 * The decision rules of the REST route (rex_yform_rest_route) that do not
 * depend on request state: the route path, the authorisation rule, the type
 * name of a dataset, the per-method field whitelist, the clauses a `filter`
 * parameter turns into, the `include` parameter's dot-prefix closure and the
 * field filter built on it.
 */
module RestFields {
  import opened Wrappers
  import opened PhpArray
  import opened PhpString
  import opened PhpValue
  import opened ManagerTable
  import opened RestQuery

  /**
   * Why a request ends without a regular response: an error response
   * (`rex_yform_rest::sendError`, which ends the request) or an exception.
   */
  datatype RouteError =
    | Refused(status: int, code: string, detail: seq<string>)
    | Thrown(reason: string)

  /** A regular response (`sendContent`): its status and its JSON body. */
  datatype Response = Response(status: int, body: Json)

  // ---------------------------------------------------------------------------
  // Route path, authorisation, type names

  /** The route path as the constructor stores it: one trailing slash removed. */
  function TrimPath(p: string): (r: string)
    ensures p == r + "/" || (p == r && (p == "" || p[|p| - 1] != '/'))
  {
    if |p| > 0 && p[|p| - 1] == '/' then p[..|p| - 1] else p
  }

  /** The `auth` entry of a route's configuration. */
  datatype Auth =
    | AuthUnset
    | AuthValue(v: Json)
    | AuthCallback(decide: seq<string> -> bool)

  /**
   * `hasAuth($paths)`: true without an `auth` entry (a null entry is not set),
   * the callback's answer for a callable, otherwise the entry converted to the
   * declared `bool` return type; an array cannot be converted and throws.
   */
  function HasAuth(auth: Auth, paths: seq<string>): (r: Result<bool, RouteError>)
    ensures auth.AuthUnset? || (auth.AuthValue? && auth.v.JNull?) ==> r == Ok(true)
    ensures auth.AuthCallback? ==> r == Ok(auth.decide(paths))
    ensures auth.AuthValue? && !auth.v.JNull? ==> (r.Err? <==> IsArray(auth.v))
    ensures auth.AuthValue? && !auth.v.JNull? && r.Ok? ==> r.value == Truthy(auth.v)
  {
    match auth
    case AuthUnset => Ok(true)
    case AuthCallback(decide) => Ok(decide(paths))
    case AuthValue(v) =>
      if v.JNull? then Ok(true)
      else if IsArray(v) then Err(Thrown("type-error"))
      else Ok(Truthy(v))
  }

  const NotDefined: string := "not-defined"
  const BaseDatasetClass: string := "rex_yform_manager_dataset"

  /**
   * `getTypeFromInstance($instance)`: the class of the dataset, except that the
   * generic dataset class (and a falsy class name) reads as "not-defined".
   */
  function TypeFromClass(cls: string): (t: string)
    ensures t == cls || t == NotDefined
    ensures t == NotDefined <==> cls == BaseDatasetClass || cls == "" || cls == "0" || cls == NotDefined
  {
    if cls == BaseDatasetClass || cls == "" || cls == "0" then NotDefined else cls
  }

  // ---------------------------------------------------------------------------
  // The field whitelist

  /** The configuration of one request method: model class -> the field names it allows. */
  datatype MethodConfig = MethodConfig(fields: map<string, seq<string>>)

  /**
   * What the route reads about model classes: the value-class catalogue (type
   * name -> column type), the value fields of each class's table (a class
   * without an entry is one whose `table()` is not an object) and the
   * additional API fields of the classes that declare some.
   */
  datatype Catalog = Catalog(
    types: map<string, string>,
    valueFields: map<string, Arr<string, Field>>,
    additional: map<string, Arr<string, Field>>)
  {
    predicate Valid()
    {
      && (forall c | c in valueFields :: valueFields[c].Valid())
      && (forall c | c in additional :: additional[c].Valid())
    }
  }

  /** The definition of the `id` field every whitelist starts with. */
  const IdRow: Row := map["name" := "id", "type_id" := "value", "type_name" := "integer"]

  function IdField(types: map<string, string>): Field
  {
    MakeField(IdRow, types)
  }

  /** The whitelist of a request the configuration says nothing about: `id` alone. */
  function IdOnly(types: map<string, string>): (r: Arr<string, Field>)
    ensures r.Valid() && r.keys == ["id"] && r.vals == map["id" := IdField(types)]
  {
    Empty<string, Field>().Put("id", IdField(types))
  }

  /** The fields class `c` offers: its additional API fields merged with its table's value fields. */
  function AvailableFields(cat: Catalog, c: string): (r: Arr<string, Field>)
    requires cat.Valid() && c in cat.valueFields
    ensures r.Valid()
  {
    if c in cat.additional then Merge(cat.additional[c], cat.valueFields[c]) else cat.valueFields[c]
  }

  /** `base` extended, in the order of `ks`, by the fields that have a column and are listed in `allowed`. */
  function Whitelist(base: Arr<string, Field>, ks: seq<string>, avail: map<string, Field>, allowed: seq<string>): (r: Arr<string, Field>)
    requires base.Valid()
    requires forall k | k in ks :: k in avail
    ensures r.Valid()
  {
    if ks == [] then base
    else
      var prev := Whitelist(base, ks[..|ks| - 1], avail, allowed);
      var k := ks[|ks| - 1];
      if avail[k].dbFieldType != "none" && k in allowed then prev.Put(k, avail[k]) else prev
  }

  /** The configuration lists fields for the (type name of the) class under `verb`. */
  predicate Configured(methods: map<string, MethodConfig>, verb: string, cls: string)
  {
    verb in methods && TypeFromClass(cls) in methods[verb].fields
  }

  /**
   * `getFields($type, $instance)` as a value: `id` first, then every field the
   * class offers that has a column and is listed for the class; an error when
   * the class is listed but has no table.
   */
  function AllowedFields(methods: map<string, MethodConfig>, verb: string, cls: string, cat: Catalog): (r: Result<Arr<string, Field>, RouteError>)
    requires cat.Valid()
    ensures r.Ok? ==> r.value.Valid()
  {
    var c := TypeFromClass(cls);
    if !Configured(methods, verb, cls) then Ok(IdOnly(cat.types))
    else if c !in cat.valueFields then Err(Thrown("config-table-missing"))
    else
      var avail := AvailableFields(cat, c);
      Ok(Whitelist(IdOnly(cat.types), avail.keys, avail.vals, methods[verb].fields[c]))
  }

  /** Field `k` of the class passes the whitelist: offered, with a column, and listed. */
  predicate Whitelisted(methods: map<string, MethodConfig>, verb: string, cls: string, cat: Catalog, k: string)
    requires cat.Valid()
  {
    && Configured(methods, verb, cls)
    && TypeFromClass(cls) in cat.valueFields
    && k in AvailableFields(cat, TypeFromClass(cls)).vals
    && AvailableFields(cat, TypeFromClass(cls)).vals[k].dbFieldType != "none"
    && k in methods[verb].fields[TypeFromClass(cls)]
  }

  lemma {:induction false} WhitelistExact(base: Arr<string, Field>, ks: seq<string>, avail: map<string, Field>, allowed: seq<string>, k: string)
    requires base.Valid()
    requires forall x | x in ks :: x in avail
    ensures var r := Whitelist(base, ks, avail, allowed);
      && (k in r.vals <==> k in base.vals || (k in ks && avail[k].dbFieldType != "none" && k in allowed))
      && (k in ks && avail[k].dbFieldType != "none" && k in allowed ==> r.vals[k] == avail[k])
      && (k in base.vals && !(k in ks && avail[k].dbFieldType != "none" && k in allowed) ==> r.vals[k] == base.vals[k])
      && |base.keys| <= |r.keys| && r.keys[..|base.keys|] == base.keys
  {
    if ks != [] {
      var ks' := ks[..|ks| - 1];
      WhitelistExact(base, ks', avail, allowed, k);
      assert forall x :: x in ks <==> x in ks' || x == ks[|ks| - 1];
    }
  }

  /**
   * The whitelist of `getFields`: `id` always comes first; any other field is
   * returned iff it is whitelisted; a whitelisted field (even one keyed `id`,
   * which replaces the synthetic one in place) is returned as the class
   * offers it, and an `id` not whitelisted is the synthetic integer; without
   * configuration for the class the result is exactly `id`; the only error is
   * a configured class without a table.
   */
  lemma AllowedFieldsExact(methods: map<string, MethodConfig>, verb: string, cls: string, cat: Catalog, k: string)
    requires cat.Valid()
    ensures var r := AllowedFields(methods, verb, cls, cat);
      && (r.Err? <==> Configured(methods, verb, cls) && TypeFromClass(cls) !in cat.valueFields)
      && (!Configured(methods, verb, cls) ==> r == Ok(IdOnly(cat.types)))
      && (r.Ok? ==> "id" in r.value.vals && r.value.keys[0] == "id")
      && (r.Ok? ==> (k in r.value.vals <==> k == "id" || Whitelisted(methods, verb, cls, cat, k)))
      && (r.Ok? && k in r.value.vals ==>
            r.value.vals[k] == (if Whitelisted(methods, verb, cls, cat, k) then AvailableFields(cat, TypeFromClass(cls)).vals[k] else IdField(cat.types)))
  {
    var c := TypeFromClass(cls);
    if Configured(methods, verb, cls) && c in cat.valueFields {
      var avail := AvailableFields(cat, c);
      WhitelistExact(IdOnly(cat.types), avail.keys, avail.vals, methods[verb].fields[c], k);
      WhitelistExact(IdOnly(cat.types), avail.keys, avail.vals, methods[verb].fields[c], "id");
      assert k in avail.keys <==> k in avail.vals;
    }
  }

  // ---------------------------------------------------------------------------
  // The filter parameter

  /** `$get['filter']` when it is set and an array: its entries. */
  function FilterParam(get: Arr<string, Json>): (r: Option<Arr<string, Json>>)
    ensures r.Some? ==> r.value.Valid()
    ensures r.Some? <==> "filter" in get.vals && IsArray(get.vals["filter"])
  {
    if "filter" in get.vals && IsArray(get.vals["filter"]) then Some(ArrayCast(get.vals["filter"])) else None
  }

  /**
   * The clause a filter entry adds for an allowed field whose name loosely
   * equals its key: the raw search filter when the field's value class has
   * one, otherwise an exact `where` on the filter key.
   */
  function ClauseFor(fieldName: string, field: Field, filterKey: string, value: Json, searchable: set<string>): Clause
  {
    if field.TypeName() in searchable then SearchFilter(fieldName, value) else ColumnIs(filterKey, value)
  }

  /** The clauses one filter entry adds, one per field of `fks` (in order) that it names. */
  function ClausesForKey(fk: string, fv: Json, fks: seq<string>, fields: map<string, Field>, searchable: set<string>): seq<Clause>
    requires forall k | k in fks :: k in fields
  {
    if fks == [] then []
    else
      var fn := fks[|fks| - 1];
      ClausesForKey(fk, fv, fks[..|fks| - 1], fields, searchable)
        + (if LooseEqualsStr(fn, fk) then [ClauseFor(fn, fields[fn], fk, fv, searchable)] else [])
  }

  /** The clauses the filter entries `keys` (in order) add. */
  function FilterClauses(keys: seq<string>, filter: map<string, Json>, fields: Arr<string, Field>, searchable: set<string>): seq<Clause>
    requires fields.Valid()
    requires forall k | k in keys :: k in filter
  {
    if keys == [] then []
    else
      var fk := keys[|keys| - 1];
      FilterClauses(keys[..|keys| - 1], filter, fields, searchable)
        + ClausesForKey(fk, filter[fk], fields.keys, fields.vals, searchable)
  }

  /** A clause `c` is one that filter key `fk` adds for an allowed field named loosely like it. */
  predicate ClauseOfKey(c: Clause, fk: string, fv: Json, fields: map<string, Field>, searchable: set<string>)
  {
    exists fn | fn in fields :: LooseEqualsStr(fn, fk) && c == ClauseFor(fn, fields[fn], fk, fv, searchable)
  }

  lemma {:induction false} ClausesForKeyExact(fk: string, fv: Json, fks: seq<string>, fields: map<string, Field>, searchable: set<string>, c: Clause)
    requires forall k | k in fks :: k in fields
    ensures c in ClausesForKey(fk, fv, fks, fields, searchable) <==>
      exists fn | fn in fks :: LooseEqualsStr(fn, fk) && c == ClauseFor(fn, fields[fn], fk, fv, searchable)
  {
    if fks != [] {
      var fks' := fks[..|fks| - 1];
      ClausesForKeyExact(fk, fv, fks', fields, searchable, c);
      assert forall x :: x in fks <==> x in fks' || x == fks[|fks| - 1];
    }
  }

  /**
   * `getFilterQuery`: a clause is added iff some filter key loosely names an
   * allowed field, and it is that field's search filter or an exact match on
   * the key; filter keys that name no allowed field add nothing.
   */
  lemma {:induction false} FilterClausesExact(keys: seq<string>, filter: map<string, Json>, fields: Arr<string, Field>, searchable: set<string>, c: Clause)
    requires fields.Valid()
    requires forall k | k in keys :: k in filter
    ensures c in FilterClauses(keys, filter, fields, searchable) <==>
      exists fk | fk in keys :: ClauseOfKey(c, fk, filter[fk], fields.vals, searchable)
  {
    if keys != [] {
      var keys' := keys[..|keys| - 1];
      var fk := keys[|keys| - 1];
      FilterClausesExact(keys', filter, fields, searchable, c);
      ClausesForKeyExact(fk, filter[fk], fields.keys, fields.vals, searchable, c);
      assert forall x :: x in keys <==> x in keys' || x == fk;
      if c in ClausesForKey(fk, filter[fk], fields.keys, fields.vals, searchable) {
        var fn :| fn in fields.keys && LooseEqualsStr(fn, fk) && c == ClauseFor(fn, fields.vals[fn], fk, filter[fk], searchable);
        assert ClauseOfKey(c, fk, filter[fk], fields.vals, searchable);
      }
      if ClauseOfKey(c, fk, filter[fk], fields.vals, searchable) {
        var fn :| fn in fields.vals && LooseEqualsStr(fn, fk) && c == ClauseFor(fn, fields.vals[fn], fk, filter[fk], searchable);
        assert fn in fields.keys;
      }
    }
  }

  // ---------------------------------------------------------------------------
  // The include parameter

  /**
   * `include` and, one after another, the prefixes that end before each of its
   * dots, from the last dot to the first, recorded as keys mapping to
   * themselves.
   */
  function WithPrefixes(acc: Arr<string, string>, inc: string): (r: Arr<string, string>)
    requires acc.Valid()
    ensures r.Valid()
    decreases |inc|, 1
  {
    PrefixesAfter(acc.Put(inc, inc), inc)
  }

  /** The prefixes of `cur` that end before its dots, from the last dot to the first. */
  function PrefixesAfter(acc: Arr<string, string>, cur: string): (r: Arr<string, string>)
    requires acc.Valid()
    ensures r.Valid()
    decreases |cur|, 0
  {
    var p := LastIndexOf(cur, '.');
    if p < 0 then acc else WithPrefixes(acc, cur[..p])
  }

  /** The includes recorded for the comma-separated pieces `pieces`. */
  function IncludesOf(pieces: seq<string>): (r: Arr<string, string>)
    ensures r.Valid()
  {
    if pieces == [] then Empty() else WithPrefixes(IncludesOf(pieces[..|pieces| - 1]), pieces[|pieces| - 1])
  }

  /** The include set of the request parameter `include` ("" when it is absent). */
  function IncludeSet(param: string): (r: Arr<string, string>)
    ensures r.Valid()
  {
    if param == "" then Empty() else IncludesOf(Explode(",", param))
  }

  /** `k` is `inc` cut just before one of its dots. */
  predicate DotPrefix(k: string, inc: string)
  {
    exists i | 0 <= i < |inc| :: inc[i] == '.' && k == inc[..i]
  }

  /** Every key maps to itself (so `in_array` over the values is key membership). */
  predicate SelfKeyed(a: Arr<string, string>)
  {
    forall k | k in a.vals :: a.vals[k] == k
  }

  /** With every key, the keys' cuts before each of their dots are keys too. */
  predicate PrefixClosed(a: Arr<string, string>)
  {
    forall k | k in a.vals :: forall i | 0 <= i < |k| && k[i] == '.' :: k[..i] in a.vals
  }

  lemma {:induction false} PrefixesAfterKeys(acc: Arr<string, string>, cur: string, k: string)
    requires acc.Valid()
    ensures k in PrefixesAfter(acc, cur).vals <==> k in acc.vals || DotPrefix(k, cur)
    ensures SelfKeyed(acc) ==> SelfKeyed(PrefixesAfter(acc, cur))
    decreases |cur|, 0
  {
    var p := LastIndexOf(cur, '.');
    if p >= 0 {
      var pre := cur[..p];
      WithPrefixesKeys(acc, pre, k);
      if DotPrefix(k, cur) {
        var i :| 0 <= i < |cur| && cur[i] == '.' && k == cur[..i];
        assert i <= p;
        if i < p {
          assert pre[i] == '.' && k == pre[..i];
        }
      }
      if DotPrefix(k, pre) {
        var i :| 0 <= i < |pre| && pre[i] == '.' && k == pre[..i];
        assert cur[i] == '.' && k == cur[..i];
      }
      if k == pre {
        assert cur[p] == '.';
      }
    }
  }

  lemma {:induction false} WithPrefixesKeys(acc: Arr<string, string>, inc: string, k: string)
    requires acc.Valid()
    ensures k in WithPrefixes(acc, inc).vals <==> k in acc.vals || k == inc || DotPrefix(k, inc)
    ensures SelfKeyed(acc) ==> SelfKeyed(WithPrefixes(acc, inc))
    decreases |inc|, 1
  {
    PrefixesAfterKeys(acc.Put(inc, inc), inc, k);
  }

  /** The cuts of a piece, and the piece itself, are closed under cutting. */
  lemma DotPrefixOfDotPrefix(k: string, inc: string, i: nat)
    requires k == inc || DotPrefix(k, inc)
    requires i < |k| && k[i] == '.'
    ensures DotPrefix(k[..i], inc)
  {
    if k != inc {
      var j :| 0 <= j < |inc| && inc[j] == '.' && k == inc[..j];
      assert inc[i] == '.' && k[..i] == inc[..i];
    }
  }

  /** `k` is one of the pieces or a cut of one. */
  predicate Covered(pieces: seq<string>, k: string)
  {
    exists inc | inc in pieces :: k == inc || DotPrefix(k, inc)
  }

  lemma {:induction false} IncludesOfKeys(pieces: seq<string>, k: string)
    ensures k in IncludesOf(pieces).vals <==> Covered(pieces, k)
  {
    if pieces != [] {
      var prev := pieces[..|pieces| - 1];
      var inc := pieces[|pieces| - 1];
      assert IncludesOf(pieces) == WithPrefixes(IncludesOf(prev), inc);
      IncludesOfKeys(prev, k);
      WithPrefixesKeys(IncludesOf(prev), inc, k);
      var here := k == inc || DotPrefix(k, inc);
      assert Covered(pieces, k) <==> Covered(prev, k) || here by {
        if Covered(pieces, k) && !here {
          var x :| x in pieces && (k == x || DotPrefix(k, x));
          assert x in prev;
          assert Covered(prev, k);
        }
        if here {
          assert inc in pieces;
        }
        if Covered(prev, k) {
          var x :| x in prev && (k == x || DotPrefix(k, x));
          assert x in pieces;
        }
      }
    }
  }

  lemma {:induction false} IncludesOfSelfKeyed(pieces: seq<string>)
    ensures SelfKeyed(IncludesOf(pieces))
  {
    if pieces != [] {
      IncludesOfSelfKeyed(pieces[..|pieces| - 1]);
      WithPrefixesKeys(IncludesOf(pieces[..|pieces| - 1]), pieces[|pieces| - 1], "");
    }
  }

  lemma IncludesOfClosed(pieces: seq<string>)
    ensures PrefixClosed(IncludesOf(pieces))
  {
    var r := IncludesOf(pieces);
    forall x, i | x in r.vals && 0 <= i < |x| && x[i] == '.'
      ensures x[..i] in r.vals
    {
      IncludesOfKeys(pieces, x);
      var inc :| inc in pieces && (x == inc || DotPrefix(x, inc));
      assert Covered(pieces, x[..i]) by {
        DotPrefixOfDotPrefix(x, inc, i);
      }
      IncludesOfKeys(pieces, x[..i]);
    }
  }

  /**
   * The include set: every comma-separated piece of the parameter is in it,
   * every entry is a piece or a piece cut before one of its dots, it is closed
   * under those cuts (with `a.b.c` come `a.b` and `a`), and every entry maps
   * to itself. An empty parameter gives the empty set.
   */
  lemma IncludeSetExact(param: string, k: string)
    ensures param == "" ==> IncludeSet(param).keys == []
    ensures param != "" ==>
      (k in IncludeSet(param).vals <==> Covered(Explode(",", param), k))
    ensures SelfKeyed(IncludeSet(param)) && PrefixClosed(IncludeSet(param))
  {
    if param != "" {
      IncludesOfKeys(Explode(",", param), k);
      IncludesOfSelfKeyed(Explode(",", param));
      IncludesOfClosed(Explode(",", param));
    }
  }

  /** The key a field is looked up under: the dotted path of its parents and its own key. */
  function CompareKey(parents: seq<string>, key: string): string
  {
    if |parents| == 0 then key else Implode(".", parents) + "." + key
  }

  /** The fields among `ks` (in order) whose compare key is one of the includes. */
  function KeepIncluded(ks: seq<string>, fields: map<string, Field>, parents: seq<string>, includes: set<string>): (r: Arr<string, Field>)
    requires forall k | k in ks :: k in fields
    ensures r.Valid()
  {
    if ks == [] then Empty()
    else
      var prev := KeepIncluded(ks[..|ks| - 1], fields, parents, includes);
      var k := ks[|ks| - 1];
      if CompareKey(parents, k) in includes then prev.Put(k, fields[k]) else prev
  }

  /** `filterFieldsByInclude($fields, $parents)` with the include set `includes`. */
  function FilterByInclude(fields: Arr<string, Field>, parents: seq<string>, includes: Arr<string, string>): (r: Arr<string, Field>)
    requires fields.Valid()
    ensures r.Valid()
  {
    if |includes.keys| == 0 then fields else KeepIncluded(fields.keys, fields.vals, parents, includes.vals.Values)
  }

  lemma {:induction false} KeepIncludedExact(ks: seq<string>, fields: map<string, Field>, parents: seq<string>, includes: set<string>, k: string)
    requires forall x | x in ks :: x in fields
    ensures var r := KeepIncluded(ks, fields, parents, includes);
      && (k in r.vals <==> k in ks && CompareKey(parents, k) in includes)
      && (k in r.vals ==> r.vals[k] == fields[k])
  {
    if ks != [] {
      var ks' := ks[..|ks| - 1];
      KeepIncludedExact(ks', fields, parents, includes, k);
      assert forall x :: x in ks <==> x in ks' || x == ks[|ks| - 1];
    }
  }

  /**
   * `filterFieldsByInclude`: without includes the fields come back unchanged;
   * otherwise a field is kept, unchanged, iff its compare key (the bare key at
   * the top level, else the parents joined with dots, a dot and the key) is
   * one of the includes.
   */
  lemma FilterByIncludeExact(fields: Arr<string, Field>, parents: seq<string>, includes: Arr<string, string>, k: string)
    requires fields.Valid()
    ensures includes.keys == [] ==> FilterByInclude(fields, parents, includes) == fields
    ensures includes.keys != [] ==>
      var r := FilterByInclude(fields, parents, includes);
      && (k in r.vals <==> k in fields.vals && CompareKey(parents, k) in includes.vals.Values)
      && (k in r.vals ==> r.vals[k] == fields.vals[k])
  {
    if includes.keys != [] {
      KeepIncludedExact(fields.keys, fields.vals, parents, includes.vals.Values, k);
    }
  }
}

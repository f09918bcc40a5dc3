/**
 * The table metadata of the form manager (rex_yform_manager_table): the
 * snapshot of table rows, column lists and field rows it loads, the per-table
 * queries over its fields and relations, and the process-wide registry of
 * table instances built from that snapshot.
 */
module ManagerTable {
  import opened Wrappers
  import opened PhpArray
  import opened PhpString

  /** A row of the metadata store (or of a column listing): column name -> value. */
  type Row = map<string, string>

  /** PHP `$row[$k]` for a stored cell; a missing key reads as null, i.e. "". */
  function Cell(row: Row, k: string): string
  {
    if k in row then row[k] else ""
  }

  /** The type name of relation fields managed by the table manager. */
  const RelationType: string := "be_manager_relation"

  /** The page size a table falls back to when none (or one below 1) is stored. */
  const DefaultListAmount: string := "30"

  /** The default page size is the plain decimal integer 30. */
  lemma DefaultListAmountValue()
    ensures IsIntString(DefaultListAmount) && IntCast(DefaultListAmount) == 30
  {
    IntCastOfIntToString(30);
    assert IntToString(30) == DefaultListAmount;
  }

  /**
   * One field definition (rex_yform_manager_field): its definition row and the
   * column type its value class declares ("none" for a field without a column).
   */
  datatype Field = Field(elements: Row, dbFieldType: string) {

    /** `$field->getElement($k)`. */
    function Element(k: string): string
    {
      Cell(elements, k)
    }

    function Name(): string
    {
      Element("name")
    }

    /** `getType()`: "value", "validate" or "action". */
    function Type(): string
    {
      Element("type_id")
    }

    function TypeName(): string
    {
      Element("type_name")
    }
  }

  /**
   * The metadata store as read when the snapshot is built: table rows and field
   * rows ordered by prio, and the column listing of each table (a table
   * without an entry is one whose column introspection failed).
   */
  datatype SchemaStore = SchemaStore(
    tableRows: seq<Row>,
    fieldRows: seq<Row>,
    columnsOf: map<string, seq<Row>>)

  /** One table of the snapshot: its table row, its columns other than `id`, its field rows. */
  datatype TableData = TableData(table: Row, columns: Arr<string, Row>, fields: seq<Row>)

  /** The snapshot: table name -> table data, in the order the tables were first read. */
  type Snapshot = Arr<string, TableData>

  // ---------------------------------------------------------------------------
  // The snapshot, as a function of the store

  /** The column map of one table: every listed column except `id`, keyed by its name. */
  function ColumnMap(cols: seq<Row>): (r: Arr<string, Row>)
    ensures r.Valid()
  {
    if cols == [] then Empty()
    else
      var prev := ColumnMap(cols[..|cols| - 1]);
      var c := cols[|cols| - 1];
      if Cell(c, "name") != "id" then prev.Put(Cell(c, "name"), c) else prev
  }

  /** The columns recorded for table `name`; empty when its introspection failed. */
  function IntrospectedColumns(db: SchemaStore, name: string): (r: Arr<string, Row>)
    ensures r.Valid()
  {
    if name in db.columnsOf then ColumnMap(db.columnsOf[name]) else Empty()
  }

  /** The snapshot after the table rows `rows` have been read. */
  function TablesPass(db: SchemaStore, rows: seq<Row>): (r: Snapshot)
    ensures r.Valid()
  {
    if rows == [] then Empty()
    else
      var prev := TablesPass(db, rows[..|rows| - 1]);
      var name := Cell(rows[|rows| - 1], "table_name");
      prev.Put(name, TableData(rows[|rows| - 1], IntrospectedColumns(db, name), []))
  }

  /** The snapshot `base` after the field rows `rows` have been distributed to their tables. */
  function FieldsPass(base: Snapshot, rows: seq<Row>): (r: Snapshot)
    requires base.Valid()
    ensures r.Valid() && r.keys == base.keys
  {
    if rows == [] then base
    else
      var prev := FieldsPass(base, rows[..|rows| - 1]);
      var row := rows[|rows| - 1];
      var name := Cell(row, "table_name");
      if name in prev.vals then prev.Put(name, prev.vals[name].(fields := prev.vals[name].fields + [row])) else prev
  }

  /** The snapshot the store yields. */
  function SnapshotOf(db: SchemaStore): (r: Snapshot)
    ensures r.Valid()
  {
    FieldsPass(TablesPass(db, db.tableRows), db.fieldRows)
  }

  /** The field rows, in order, that belong to table `name`. */
  function RowsOfTable(rows: seq<Row>, name: string): seq<Row>
  {
    if rows == [] then []
    else RowsOfTable(rows[..|rows| - 1], name) + (if Cell(rows[|rows| - 1], "table_name") == name then [rows[|rows| - 1]] else [])
  }

  /** Some row of `rows` names table `name`. */
  predicate Names(rows: seq<Row>, name: string)
  {
    exists i :: 0 <= i < |rows| && Cell(rows[i], "table_name") == name
  }

  /**
   * Builds the snapshot from the store (`getCache` on a cold cache): the tables
   * in row order, each with its non-id columns, then the field rows appended to
   * the tables already present.
   */
  method BuildSnapshot(db: SchemaStore) returns (snap: Snapshot)
    ensures snap == SnapshotOf(db)
  {
    var tables := ReadTables(db);
    snap := DistributeFields(tables, db.fieldRows);
  }

  /** The loop over the table rows: one entry per table name, with its introspected columns. */
  method ReadTables(db: SchemaStore) returns (snap: Snapshot)
    ensures snap == TablesPass(db, db.tableRows)
  {
    snap := Empty();
    var i := 0;
    while i < |db.tableRows|
      invariant 0 <= i <= |db.tableRows|
      invariant snap == TablesPass(db, db.tableRows[..i])
    {
      var row := db.tableRows[i];
      var name := Cell(row, "table_name");
      var columns: Arr<string, Row> := Empty();
      if name in db.columnsOf {
        columns := ReadColumns(db.columnsOf[name]);
      }
      TablesPassStep(db, i);
      snap := snap.Put(name, TableData(row, columns, []));
      i := i + 1;
    }
    assert db.tableRows[..i] == db.tableRows;
  }

  /** Reading one more table row puts its entry last-written into the snapshot. */
  lemma TablesPassStep(db: SchemaStore, i: nat)
    requires i < |db.tableRows|
    ensures TablesPass(db, db.tableRows[..i + 1]) == TablesPass(db, db.tableRows[..i]).Put(
      Cell(db.tableRows[i], "table_name"),
      TableData(db.tableRows[i], IntrospectedColumns(db, Cell(db.tableRows[i], "table_name")), []))
  {
    assert db.tableRows[..i + 1][..i] == db.tableRows[..i];
  }

  /** The loop over one table's introspected columns, skipping `id`. */
  method ReadColumns(listed: seq<Row>) returns (columns: Arr<string, Row>)
    ensures columns == ColumnMap(listed)
  {
    columns := Empty();
    var j := 0;
    while j < |listed|
      invariant 0 <= j <= |listed|
      invariant columns == ColumnMap(listed[..j])
    {
      if Cell(listed[j], "name") != "id" {
        columns := columns.Put(Cell(listed[j], "name"), listed[j]);
      }
      assert listed[..j + 1][..j] == listed[..j];
      j := j + 1;
    }
    assert listed[..j] == listed;
  }

  /** The loop over the field rows: each is appended to its table when the snapshot has it. */
  method DistributeFields(tables: Snapshot, rows: seq<Row>) returns (snap: Snapshot)
    requires tables.Valid()
    ensures snap == FieldsPass(tables, rows)
  {
    snap := tables;
    var k := 0;
    while k < |rows|
      invariant 0 <= k <= |rows|
      invariant snap == FieldsPass(tables, rows[..k])
    {
      var row := rows[k];
      var name := Cell(row, "table_name");
      if name in snap.vals {
        snap := snap.Put(name, snap.vals[name].(fields := snap.vals[name].fields + [row]));
      }
      assert rows[..k + 1][..k] == rows[..k];
      k := k + 1;
    }
    assert rows[..k] == rows;
  }

  // ---------------------------------------------------------------------------
  // What the snapshot holds

  /** A column map holds exactly the listed columns other than `id`. */
  lemma {:induction false} ColumnMapExact(cols: seq<Row>, name: string)
    ensures name in ColumnMap(cols).vals <==> name != "id" && exists i :: 0 <= i < |cols| && Cell(cols[i], "name") == name
    ensures name in ColumnMap(cols).vals ==> Cell(ColumnMap(cols).vals[name], "name") == name
  {
    if cols != [] {
      var n := |cols| - 1;
      var prefix := cols[..n];
      var c := cols[n];
      ColumnMapExact(prefix, name);
      ColumnStep(cols, prefix, name);
      if Cell(c, "name") != "id" {
        assert ColumnMap(cols) == ColumnMap(prefix).Put(Cell(c, "name"), c);
      } else {
        assert ColumnMap(cols) == ColumnMap(prefix);
      }
    }
  }

  /** A column named `name` is one of the shorter list or the last one. */
  lemma ColumnStep(cols: seq<Row>, prefix: seq<Row>, name: string)
    requires |prefix| + 1 == |cols| && prefix == cols[..|prefix|]
    ensures (exists i :: 0 <= i < |cols| && Cell(cols[i], "name") == name) <==>
      (exists i :: 0 <= i < |prefix| && Cell(prefix[i], "name") == name) || Cell(cols[|prefix|], "name") == name
  {
    if exists i :: 0 <= i < |prefix| && Cell(prefix[i], "name") == name {
      var i :| 0 <= i < |prefix| && Cell(prefix[i], "name") == name;
      assert cols[i] == prefix[i];
    }
    if exists i :: 0 <= i < |cols| && Cell(cols[i], "name") == name {
      var i :| 0 <= i < |cols| && Cell(cols[i], "name") == name;
      if i < |prefix| {
        assert prefix[i] == cols[i];
      }
    }
  }

  lemma {:induction false} TablesPassNames(db: SchemaStore, rows: seq<Row>, name: string)
    ensures name in TablesPass(db, rows).vals <==> Names(rows, name)
  {
    if rows != [] {
      var prefix := rows[..|rows| - 1];
      var last := rows[|rows| - 1];
      TablesPassNames(db, prefix, name);
      NamesStep(rows, name);
      var prev := TablesPass(db, prefix);
      var t := Cell(last, "table_name");
      assert TablesPass(db, rows).vals == prev.vals[t := TableData(last, IntrospectedColumns(db, t), [])];
    }
  }

  /** A table is named by some row iff it is named by an earlier row or by the last. */
  lemma NamesStep(rows: seq<Row>, name: string)
    requires rows != []
    ensures Names(rows, name) <==> Names(rows[..|rows| - 1], name) || Cell(rows[|rows| - 1], "table_name") == name
  {
    var prefix := rows[..|rows| - 1];
    if Names(prefix, name) {
      var i :| 0 <= i < |prefix| && Cell(prefix[i], "table_name") == name;
      assert rows[i] == prefix[i];
    }
    if Names(rows, name) && Cell(rows[|rows| - 1], "table_name") != name {
      var i :| 0 <= i < |rows| && Cell(rows[i], "table_name") == name;
      assert prefix[i] == rows[i];
    }
  }

  /** `row` is the last of `rows` naming table `name`. */
  predicate LastNamed(rows: seq<Row>, name: string, row: Row)
  {
    exists i :: 0 <= i < |rows| && rows[i] == row && Cell(row, "table_name") == name
      && forall j :: i < j < |rows| ==> Cell(rows[j], "table_name") != name
  }

  lemma {:induction false} TablesPassEntry(db: SchemaStore, rows: seq<Row>, name: string)
    requires name in TablesPass(db, rows).vals
    ensures var e := TablesPass(db, rows).vals[name];
      && e.columns == IntrospectedColumns(db, name)
      && e.fields == []
      && LastNamed(rows, name, e.table)
  {
    var n := |rows| - 1;
    var prefix := rows[..n];
    var last := rows[n];
    var prev := TablesPass(db, prefix);
    var e := TablesPass(db, rows).vals[name];
    if Cell(last, "table_name") == name {
      assert e == TableData(last, IntrospectedColumns(db, name), []);
      assert LastNamed(rows, name, e.table) by {
        assert rows[n] == e.table;
      }
    } else {
      assert name in prev.vals && e == prev.vals[name];
      TablesPassEntry(db, prefix, name);
      LastNamedExtend(rows, name, e.table);
    }
  }

  /** A row that is the last naming `name` stays so when a row naming another table follows. */
  lemma LastNamedExtend(rows: seq<Row>, name: string, row: Row)
    requires |rows| > 0 && Cell(rows[|rows| - 1], "table_name") != name
    requires LastNamed(rows[..|rows| - 1], name, row)
    ensures LastNamed(rows, name, row)
  {
    var prefix := rows[..|rows| - 1];
    var i :| 0 <= i < |prefix| && prefix[i] == row && Cell(row, "table_name") == name
      && forall j :: i < j < |prefix| ==> Cell(prefix[j], "table_name") != name;
    assert rows[i] == prefix[i];
    forall j | i < j < |rows| ensures Cell(rows[j], "table_name") != name {
      if j < |rows| - 1 {
        assert rows[j] == prefix[j];
      }
    }
  }

  /** Every row of `rows` naming table `b` comes after some row naming table `a`. */
  predicate Precedes(rows: seq<Row>, a: string, b: string)
  {
    forall j :: 0 <= j < |rows| && Cell(rows[j], "table_name") == b ==>
      exists i :: 0 <= i < j && Cell(rows[i], "table_name") == a
  }

  lemma PrecedesExtend(rows: seq<Row>, a: string, b: string)
    requires |rows| > 0
    requires Precedes(rows[..|rows| - 1], a, b) && Names(rows[..|rows| - 1], a)
    ensures Precedes(rows, a, b)
  {
    var prefix := rows[..|rows| - 1];
    forall j | 0 <= j < |rows| && Cell(rows[j], "table_name") == b
      ensures exists i :: 0 <= i < j && Cell(rows[i], "table_name") == a
    {
      if j < |rows| - 1 {
        assert prefix[j] == rows[j];
        var i :| 0 <= i < j && Cell(prefix[i], "table_name") == a;
        assert rows[i] == prefix[i];
      } else {
        var i :| 0 <= i < |prefix| && Cell(prefix[i], "table_name") == a;
        assert rows[i] == prefix[i];
      }
    }
  }

  /**
   * Table order: the snapshot lists tables in the order of their first table
   * row, so every row naming a later table comes after a row naming each
   * earlier one.
   */
  lemma {:induction false} TablesPassOrder(db: SchemaStore, rows: seq<Row>, a: nat, b: nat)
    requires a < b < |TablesPass(db, rows).keys|
    ensures Precedes(rows, TablesPass(db, rows).keys[a], TablesPass(db, rows).keys[b])
  {
    var prefix := rows[..|rows| - 1];
    var prev := TablesPass(db, prefix);
    var ks := TablesPass(db, rows).keys;
    assert ks[a] == prev.keys[a];
    TablesPassNames(db, prefix, ks[a]);
    TablesPassNames(db, prefix, ks[b]);
    if b < |prev.keys| {
      TablesPassOrder(db, prefix, a, b);
    } else {
      assert ks[b] !in prev.vals;
    }
    PrecedesExtend(rows, ks[a], ks[b]);
  }

  lemma {:induction false} FieldsPassExact(base: Snapshot, rows: seq<Row>, name: string)
    requires base.Valid()
    ensures name in FieldsPass(base, rows).vals <==> name in base.vals
    ensures name in base.vals ==>
      FieldsPass(base, rows).vals[name] == base.vals[name].(fields := base.vals[name].fields + RowsOfTable(rows, name))
  {
    if rows != [] {
      FieldsPassExact(base, rows[..|rows| - 1], name);
    }
  }

  /**
   * What one table of the snapshot holds: its last table row, the columns its
   * introspection listed (without `id`, none if it failed), and exactly its
   * field rows in prio order. Field rows of tables without a table row are dropped.
   */
  lemma SnapshotEntry(db: SchemaStore, name: string)
    ensures name in SnapshotOf(db).vals <==> Names(db.tableRows, name)
    ensures name in SnapshotOf(db).vals ==>
      var e := SnapshotOf(db).vals[name];
      && Cell(e.table, "table_name") == name
      && e.columns == IntrospectedColumns(db, name)
      && e.fields == RowsOfTable(db.fieldRows, name)
      && LastNamed(db.tableRows, name, e.table)
  {
    TablesPassNames(db, db.tableRows, name);
    if name in SnapshotOf(db).vals {
      FieldsPassExact(TablesPass(db, db.tableRows), db.fieldRows, name);
      TablesPassEntry(db, db.tableRows, name);
    }
  }

  /** The snapshot lists tables in the order their first rows were read. */
  lemma SnapshotOrder(db: SchemaStore)
    ensures forall a, b :: 0 <= a < b < |SnapshotOf(db).keys| ==>
      Precedes(db.tableRows, SnapshotOf(db).keys[a], SnapshotOf(db).keys[b])
  {
    var ks := TablesPass(db, db.tableRows).keys;
    assert SnapshotOf(db).keys == ks;
    forall a, b | 0 <= a < b < |ks| ensures Precedes(db.tableRows, ks[a], ks[b]) {
      TablesPassOrder(db, db.tableRows, a, b);
    }
  }

  /** RowsOfTable keeps exactly the rows naming the table, in order. */
  lemma {:induction false} RowsOfTableExact(rows: seq<Row>, name: string, row: Row)
    ensures row in RowsOfTable(rows, name) <==> row in rows && Cell(row, "table_name") == name
  {
    if rows != [] {
      var prefix := rows[..|rows| - 1];
      RowsOfTableExact(prefix, name, row);
      assert rows == prefix + [rows[|rows| - 1]];
    }
  }

  // ---------------------------------------------------------------------------
  // Field filters

  /** Every key of `filter` has a loosely equal value among the field's elements. */
  predicate Matches(f: Field, filter: Arr<string, string>)
  {
    forall k | k in filter.vals :: LooseEqualsStr(filter.vals[k], f.Element(k))
  }

  /** The fields, in order, that match `filter`. */
  function FilterFields(fields: seq<Field>, filter: Arr<string, string>): seq<Field>
  {
    if fields == [] then []
    else FilterFields(fields[..|fields| - 1], filter) + (if Matches(fields[|fields| - 1], filter) then [fields[|fields| - 1]] else [])
  }

  /** A value field (not a validation or action) that matches `filter`. */
  predicate Selected(f: Field, filter: Arr<string, string>)
  {
    f.Type() == "value" && Matches(f, filter)
  }

  /** The value fields matching `filter`, keyed by name; of two fields with one name the later wins. */
  function ValueFields(fields: seq<Field>, filter: Arr<string, string>): (r: Arr<string, Field>)
    ensures r.Valid()
  {
    if fields == [] then Empty()
    else
      var prev := ValueFields(fields[..|fields| - 1], filter);
      var f := fields[|fields| - 1];
      if Selected(f, filter) then prev.Put(f.Name(), f) else prev
  }

  /** The relation fields of a table: value fields of type be_manager_relation. */
  function RelationFilter(): (r: Arr<string, string>)
    ensures r.Valid() && r.vals == map["type_name" := RelationType]
  {
    Empty<string, string>().Put("type_name", RelationType)
  }

  /** The relation type name is not numeric, so loose equality with it is plain equality. */
  lemma RelationTypeLoose(x: string)
    ensures LooseEqualsStr(RelationType, x) <==> x == RelationType
  {
    assert !IsDigit(RelationType[0]);
  }

  /** The relation fields that point at table `target`. */
  function RelationToFilter(target: string): (r: Arr<string, string>)
    ensures r.Valid() && r.vals == map["type_name" := RelationType, "table" := target]
  {
    RelationFilter().Put("table", target)
  }

  /** Filtering distributes over concatenation: the order of the fields is kept. */
  lemma {:induction false} FilterFieldsAppend(a: seq<Field>, b: seq<Field>, filter: Arr<string, string>)
    ensures FilterFields(a + b, filter) == FilterFields(a, filter) + FilterFields(b, filter)
    decreases |b|
  {
    if b == [] {
      assert a + b == a;
    } else {
      var b' := b[..|b| - 1];
      FilterFieldsAppend(a, b', filter);
      assert (a + b)[..|a + b| - 1] == a + b';
    }
  }

  /** A field is returned iff it is one of the table's fields and matches every filter key. */
  lemma {:induction false} FilterFieldsExact(fields: seq<Field>, filter: Arr<string, string>, f: Field)
    ensures f in FilterFields(fields, filter) <==> f in fields && Matches(f, filter)
  {
    if fields != [] {
      FilterFieldsExact(fields[..|fields| - 1], filter, f);
      assert fields == fields[..|fields| - 1] + [fields[|fields| - 1]];
    }
  }

  /** With no filter key every field matches, so all fields come back in stored order. */
  lemma {:induction false} FilterFieldsEmpty(fields: seq<Field>, filter: Arr<string, string>)
    requires filter.vals == map[]
    ensures FilterFields(fields, filter) == fields
  {
    if fields != [] {
      FilterFieldsEmpty(fields[..|fields| - 1], filter);
      assert fields == fields[..|fields| - 1] + [fields[|fields| - 1]];
    }
  }

  /** `getValueFields`: a name is a key iff some value field with that name matches the filter. */
  lemma {:induction false} ValueFieldsKeys(fields: seq<Field>, filter: Arr<string, string>, name: string)
    ensures name in ValueFields(fields, filter).vals <==>
      exists i :: 0 <= i < |fields| && Selected(fields[i], filter) && fields[i].Name() == name
  {
    if fields != [] {
      var prefix := fields[..|fields| - 1];
      ValueFieldsKeys(prefix, filter, name);
      if exists i :: 0 <= i < |prefix| && Selected(prefix[i], filter) && prefix[i].Name() == name {
        var i :| 0 <= i < |prefix| && Selected(prefix[i], filter) && prefix[i].Name() == name;
        assert fields[i] == prefix[i];
      }
      if exists i :: 0 <= i < |fields| && Selected(fields[i], filter) && fields[i].Name() == name {
        var i :| 0 <= i < |fields| && Selected(fields[i], filter) && fields[i].Name() == name;
        if i < |fields| - 1 {
          assert prefix[i] == fields[i];
        }
      }
    }
  }

  /** `getValueFields`: a name maps to the last matching value field of that name. */
  lemma {:induction false} ValueFieldsLast(fields: seq<Field>, filter: Arr<string, string>, name: string)
    ensures name in ValueFields(fields, filter).vals ==>
      exists i :: 0 <= i < |fields| && ValueFields(fields, filter).vals[name] == fields[i]
        && Selected(fields[i], filter) && fields[i].Name() == name
        && forall j :: i < j < |fields| ==> !(Selected(fields[j], filter) && fields[j].Name() == name)
  {
    if fields != [] {
      var prefix := fields[..|fields| - 1];
      var last := fields[|fields| - 1];
      ValueFieldsLast(prefix, filter, name);
      if name in ValueFields(fields, filter).vals && !(Selected(last, filter) && last.Name() == name) {
        var i :| 0 <= i < |prefix| && ValueFields(prefix, filter).vals[name] == prefix[i]
          && Selected(prefix[i], filter) && prefix[i].Name() == name
          && forall j :: i < j < |prefix| ==> !(Selected(prefix[j], filter) && prefix[j].Name() == name);
        assert fields[i] == prefix[i];
        forall j | i < j < |fields| ensures !(Selected(fields[j], filter) && fields[j].Name() == name) {
          if j < |fields| - 1 {
            assert fields[j] == prefix[j];
          }
        }
      }
    }
  }

  /**
   * `getValueFields`: a name is a key iff some value field with that name
   * matches the filter, and it maps to the last such field.
   */
  lemma ValueFieldsExact(fields: seq<Field>, filter: Arr<string, string>, name: string)
    ensures name in ValueFields(fields, filter).vals <==>
      exists i :: 0 <= i < |fields| && Selected(fields[i], filter) && fields[i].Name() == name
    ensures name in ValueFields(fields, filter).vals ==>
      exists i :: 0 <= i < |fields| && ValueFields(fields, filter).vals[name] == fields[i]
        && Selected(fields[i], filter) && fields[i].Name() == name
        && forall j :: i < j < |fields| ==> !(Selected(fields[j], filter) && fields[j].Name() == name)
  {
    ValueFieldsKeys(fields, filter, name);
    ValueFieldsLast(fields, filter, name);
  }

  /** Every entry of `getValueFields` is a value field, matches the filter and sits under its own name. */
  lemma ValueFieldsEntries(fields: seq<Field>, filter: Arr<string, string>)
    ensures forall name | name in ValueFields(fields, filter).vals ::
      var f := ValueFields(fields, filter).vals[name];
      f in fields && Selected(f, filter) && f.Name() == name
  {
    forall name | name in ValueFields(fields, filter).vals
      ensures var f := ValueFields(fields, filter).vals[name]; f in fields && Selected(f, filter) && f.Name() == name
    {
      ValueFieldsExact(fields, filter, name);
    }
  }

  /** The names of the value fields matching `filter`, in stored order, repeats included. */
  function SelectedNames(fields: seq<Field>, filter: Arr<string, string>): seq<string>
  {
    if fields == [] then []
    else
      var f := fields[|fields| - 1];
      SelectedNames(fields[..|fields| - 1], filter) + (if Selected(f, filter) then [f.Name()] else [])
  }

  /** The elements of `s`, each once, in the order of their first occurrence. */
  function FirstOccurrences(s: seq<string>): (r: seq<string>)
    ensures forall x :: x in r <==> x in s
    ensures forall i, j | 0 <= i < j < |r| :: r[i] != r[j]
  {
    if s == [] then []
    else
      var d := FirstOccurrences(s[..|s| - 1]);
      var x := s[|s| - 1];
      assert forall y :: y in s <==> y in s[..|s| - 1] || y == x by {
        assert s == s[..|s| - 1] + [x];
      }
      if x in d then d else d + [x]
  }

  /**
   * `getValueFields` lists its keys in the order in which each name first
   * occurs among the matching value fields: assigning to a name already
   * present keeps its place.
   */
  lemma {:induction false} ValueFieldsOrder(fields: seq<Field>, filter: Arr<string, string>)
    ensures ValueFields(fields, filter).keys == FirstOccurrences(SelectedNames(fields, filter))
  {
    if fields != [] {
      var prefix := fields[..|fields| - 1];
      var f := fields[|fields| - 1];
      ValueFieldsOrder(prefix, filter);
      var prev := ValueFields(prefix, filter);
      if Selected(f, filter) {
        var names := SelectedNames(fields, filter);
        assert names == SelectedNames(prefix, filter) + [f.Name()];
        assert names[..|names| - 1] == SelectedNames(prefix, filter);
        assert f.Name() in prev.vals <==> f.Name() in prev.keys;
      } else {
        assert ValueFields(fields, filter) == prev;
        assert SelectedNames(fields, filter) == SelectedNames(prefix, filter) + [] == SelectedNames(prefix, filter);
      }
    }
  }

  /**
   * The first key of `getValueFields` (what `reset` reads) is the name of the
   * first matching value field; there is none iff no value field matches.
   */
  lemma {:induction false} ValueFieldsFirst(fields: seq<Field>, filter: Arr<string, string>)
    ensures ValueFields(fields, filter).keys == [] <==> forall i | 0 <= i < |fields| :: !Selected(fields[i], filter)
    ensures forall i | 0 <= i < |fields| && Selected(fields[i], filter) && (forall j | 0 <= j < i :: !Selected(fields[j], filter)) ::
      ValueFields(fields, filter).keys[0] == fields[i].Name()
  {
    if fields != [] {
      var prefix := fields[..|fields| - 1];
      var f := fields[|fields| - 1];
      ValueFieldsFirst(prefix, filter);
      assert forall i | 0 <= i < |prefix| :: prefix[i] == fields[i];
    }
  }

  /** A field matching a filter loosely equals each filter value at that key. */
  lemma MatchesAt(f: Field, filter: Arr<string, string>, k: string)
    requires Matches(f, filter) && k in filter.vals
    ensures LooseEqualsStr(filter.vals[k], f.Element(k))
  {
  }

  /** A field matching the relation-to filter is a relation field pointing at `target`. */
  lemma RelationToMatch(f: Field, target: string)
    requires Matches(f, RelationToFilter(target))
    ensures Matches(f, RelationFilter())
    ensures f.TypeName() == RelationType && LooseEqualsStr(target, f.Element("table"))
  {
    var flt := RelationToFilter(target);
    assert flt.vals["table"] == target && flt.vals["type_name"] == RelationType;
    MatchesAt(f, flt, "table");
    MatchesAt(f, flt, "type_name");
    RelationTypeLoose(f.Element("type_name"));
    var rf := RelationFilter();
    assert rf.vals.Keys == {"type_name"} && rf.vals["type_name"] == RelationType;
  }

  /** The fields pointing at `target` are among the table's relations, and each points at `target`. */
  lemma RelationsToAreRelations(fields: seq<Field>, target: string)
    ensures forall name | name in ValueFields(fields, RelationToFilter(target)).vals ::
      && name in ValueFields(fields, RelationFilter()).vals
      && LooseEqualsStr(target, ValueFields(fields, RelationToFilter(target)).vals[name].Element("table"))
      && ValueFields(fields, RelationToFilter(target)).vals[name].TypeName() == RelationType
  {
    var to := ValueFields(fields, RelationToFilter(target));
    forall name | name in to.vals
      ensures name in ValueFields(fields, RelationFilter()).vals
      ensures LooseEqualsStr(target, to.vals[name].Element("table")) && to.vals[name].TypeName() == RelationType
    {
      ValueFieldsExact(fields, RelationToFilter(target), name);
      var i :| 0 <= i < |fields| && Selected(fields[i], RelationToFilter(target)) && fields[i].Name() == name;
      RelationToMatch(fields[i], target);
      ValueFieldsExact(fields, RelationFilter(), name);
      ValueFieldsEntries(fields, RelationToFilter(target));
      RelationToMatch(to.vals[name], target);
    }
  }

  /** The join columns of a junction table: the column pointing back at the source and the one pointing at the target. */
  datatype JoinColumns = JoinColumns(source: string, target: string)

  datatype TableError =
    | MissingRelationColumn(relationTable: string)  // RuntimeException
    | CallOnNull                                    // a method called on a missing table

  /**
   * The join columns of a junction table with fields `junction` between tables
   * `source` and `target`: the names of its first relation field back to each;
   * an error when either is missing.
   */
  function JunctionColumns(junction: seq<Field>, relationTable: string, source: string, target: string): (r: Result<JoinColumns, TableError>)
    ensures r.Err? <==> ValueFields(junction, RelationToFilter(source)).keys == [] || ValueFields(junction, RelationToFilter(target)).keys == []
    ensures r.Err? ==> r.error == MissingRelationColumn(relationTable)
    ensures r.Ok? ==>
      && r.value.source == ValueFields(junction, RelationToFilter(source)).keys[0]
      && r.value.target == ValueFields(junction, RelationToFilter(target)).keys[0]
  {
    var sources := ValueFields(junction, RelationToFilter(source));
    var targets := ValueFields(junction, RelationToFilter(target));
    ValueFieldsEntries(junction, RelationToFilter(source));
    ValueFieldsEntries(junction, RelationToFilter(target));
    if sources.keys == [] || targets.keys == [] then Err(MissingRelationColumn(relationTable))
    else Ok(JoinColumns(sources.vals[sources.keys[0]].Name(), targets.vals[targets.keys[0]].Name()))
  }

  /** The join columns found are relation fields of the junction pointing back at the source and at the target. */
  lemma JunctionColumnsPointBack(junction: seq<Field>, relationTable: string, source: string, target: string)
    requires JunctionColumns(junction, relationTable, source, target).Ok?
    ensures var cols := JunctionColumns(junction, relationTable, source, target).value;
      && (exists f :: f in junction && f.Type() == "value" && f.TypeName() == RelationType && f.Name() == cols.source && LooseEqualsStr(source, f.Element("table")))
      && (exists f :: f in junction && f.Type() == "value" && f.TypeName() == RelationType && f.Name() == cols.target && LooseEqualsStr(target, f.Element("table")))
  {
    var cols := JunctionColumns(junction, relationTable, source, target).value;
    var sources := ValueFields(junction, RelationToFilter(source));
    var targets := ValueFields(junction, RelationToFilter(target));
    ValueFieldsEntries(junction, RelationToFilter(source));
    ValueFieldsEntries(junction, RelationToFilter(target));
    var fs := sources.vals[sources.keys[0]];
    var ft := targets.vals[targets.keys[0]];
    RelationToMatch(fs, source);
    RelationToMatch(ft, target);
  }

  /**
   * The join columns are the names of the first relation fields of the
   * junction, in its field order, that point back at the source and at the
   * target; the lookup fails iff the junction has no such field on a side.
   */
  lemma JunctionColumnsFirst(junction: seq<Field>, relationTable: string, source: string, target: string)
    ensures var r := JunctionColumns(junction, relationTable, source, target);
      && (r.Err? <==>
            || (forall i | 0 <= i < |junction| :: !Selected(junction[i], RelationToFilter(source)))
            || (forall i | 0 <= i < |junction| :: !Selected(junction[i], RelationToFilter(target))))
      && (r.Ok? ==> forall i | 0 <= i < |junction| && Selected(junction[i], RelationToFilter(source))
                       && (forall j | 0 <= j < i :: !Selected(junction[j], RelationToFilter(source))) ::
                     r.value.source == junction[i].Name())
      && (r.Ok? ==> forall i | 0 <= i < |junction| && Selected(junction[i], RelationToFilter(target))
                       && (forall j | 0 <= j < i :: !Selected(junction[j], RelationToFilter(target))) ::
                     r.value.target == junction[i].Name())
  {
    ValueFieldsFirst(junction, RelationToFilter(source));
    ValueFieldsFirst(junction, RelationToFilter(target));
  }

  /**
   * The columns of the table that no value field describes, each mapped to
   * itself, in column order.
   */
  function MissingFields(columns: Arr<string, Row>, fields: seq<Field>): (r: Arr<string, string>)
    ensures r.Valid()
    ensures forall k :: k in r.vals <==> k in columns.keys && forall f :: f in fields ==> !(f.Type() == "value" && f.Name() == k)
    ensures forall k | k in r.vals :: r.vals[k] == k
  {
    var described := ValueFields(fields, Empty()).vals.Keys;
    forall k ensures k in described <==> exists f :: f in fields && f.Type() == "value" && f.Name() == k {
      ValueFieldsExact(fields, Empty(), k);
      if exists f :: f in fields && f.Type() == "value" && f.Name() == k {
        var f :| f in fields && f.Type() == "value" && f.Name() == k;
        var i :| 0 <= i < |fields| && fields[i] == f;
        assert Selected(fields[i], Empty());
      }
    }
    MissingAmong(columns.keys, described)
  }

  function MissingAmong(ks: seq<string>, described: set<string>): (r: Arr<string, string>)
    ensures r.Valid()
    ensures forall k :: k in r.vals <==> k in ks && k !in described
    ensures forall k | k in r.vals :: r.vals[k] == k
  {
    if ks == [] then Empty()
    else
      var prev := MissingAmong(ks[..|ks| - 1], described);
      var k := ks[|ks| - 1];
      assert forall x :: x in ks <==> x in ks[..|ks| - 1] || x == k;
      if k !in described then prev.Put(k, k) else prev
  }

  /** The relation field called `column`, if any: the entry of the relation map for that name. */
  function RelationOf(fields: seq<Field>, column: string): (r: Option<Field>)
    ensures r.Some? ==> r.value in fields && r.value.Name() == column && r.value.TypeName() == RelationType && r.value.Type() == "value"
    ensures r.None? <==> forall f :: f in fields ==> !(f.Type() == "value" && f.TypeName() == RelationType && f.Name() == column)
  {
    var rels := ValueFields(fields, RelationFilter());
    ValueFieldsExact(fields, RelationFilter(), column);
    if column in rels.vals then
      SelectedRelation(rels.vals[column]);
      Some(rels.vals[column])
    else
      assert forall f | f in fields :: !(f.Type() == "value" && f.TypeName() == RelationType && f.Name() == column) by {
        forall f | f in fields ensures !(f.Type() == "value" && f.TypeName() == RelationType && f.Name() == column) {
          var i :| 0 <= i < |fields| && fields[i] == f;
          SelectedRelation(f);
        }
      }
      None
  }

  /** A field is selected by the relation filter exactly when it is a relation value field. */
  lemma SelectedRelation(f: Field)
    ensures Selected(f, RelationFilter()) <==> f.Type() == "value" && f.TypeName() == RelationType
  {
    RelationTypeLoose(f.TypeName());
    assert RelationFilter().vals.Keys == {"type_name"};
  }

  /** The permission key of a table. */
  function PermKey(tableName: string): string
  {
    "yform[table:" + tableName + "]"
  }

  /** Distinct tables have distinct permission keys. */
  lemma PermKeyInjective(a: string, b: string)
    requires PermKey(a) == PermKey(b)
    ensures a == b
  {
    var pa := PermKey(a);
    assert a == pa[12..|pa| - 1];
    assert b == PermKey(b)[12..|PermKey(b)| - 1];
  }

  /** A field built from its definition row, with the column type its value class declares. */
  function MakeField(row: Row, catalogue: map<string, string>): Field
  {
    var t := Cell(row, "type_name");
    Field(row, if t in catalogue then catalogue[t] else "none")
  }

  /**
   * The fields the constructor builds from the snapshot's field rows, in
   * order. A row for which `constructs` is false stands for one whose
   * `new rex_yform_manager_field` throws; the constructor catches that and
   * skips the row.
   */
  function FieldsOf(rows: seq<Row>, catalogue: map<string, string>, constructs: Row -> bool): (r: seq<Field>)
    ensures |r| <= |rows|
    ensures forall f :: f in r <==> exists i | 0 <= i < |rows| :: constructs(rows[i]) && f == MakeField(rows[i], catalogue)
  {
    if rows == [] then []
    else
      var prev := rows[..|rows| - 1];
      var last := rows[|rows| - 1];
      var r := FieldsOf(prev, catalogue, constructs) + (if constructs(last) then [MakeField(last, catalogue)] else []);
      assert forall i | 0 <= i < |prev| :: rows[i] == prev[i];
      r
  }

  /** When every row constructs, the fields are exactly the rows' fields, one per row, in order. */
  lemma {:induction false} FieldsOfAllConstruct(rows: seq<Row>, catalogue: map<string, string>, constructs: Row -> bool)
    requires forall i | 0 <= i < |rows| :: constructs(rows[i])
    ensures var r := FieldsOf(rows, catalogue, constructs);
      |r| == |rows| && forall i | 0 <= i < |rows| :: r[i] == MakeField(rows[i], catalogue)
  {
    if rows != [] {
      var prev := rows[..|rows| - 1];
      FieldsOfAllConstruct(prev, catalogue, constructs);
    }
  }

  /** A row that does not construct adds no field: the fields are those of the other rows. */
  lemma FieldsOfSkips(prev: seq<Row>, row: Row, rest: seq<Row>, catalogue: map<string, string>, constructs: Row -> bool)
    requires !constructs(row)
    ensures FieldsOf(prev + [row] + rest, catalogue, constructs) == FieldsOf(prev + rest, catalogue, constructs)
    decreases |rest|
  {
    if rest == [] {
      assert (prev + [row])[..|prev + [row]| - 1] == prev;
      assert prev + [row] + rest == prev + [row];
      assert prev + rest == prev;
    } else {
      var rest' := rest[..|rest| - 1];
      FieldsOfSkips(prev, row, rest', catalogue, constructs);
      assert (prev + [row] + rest)[..|prev + [row] + rest| - 1] == prev + [row] + rest';
      assert (prev + rest)[..|prev + rest| - 1] == prev + rest';
    }
  }

  /**
   * The first `i` entries of `all` are tables, none of whose ids loosely
   * equals `id`.
   */
  ghost predicate NoIdBefore(all: Arr<string, Table?>, id: int, i: nat)
    reads all.vals.Values
  {
    forall j :: 0 <= j < i && j < |all.keys| ==>
      all.keys[j] in all.vals && all.vals[all.keys[j]] != null && !LooseEqualsInt(all.vals[all.keys[j]].Id(), id)
  }

  /** `t` is the first table of `all` whose id loosely equals `id`. */
  ghost predicate FirstWithId(all: Arr<string, Table?>, id: int, t: Table)
    reads all.vals.Values, t
  {
    exists i :: 0 <= i < |all.keys| && all.keys[i] in all.vals && all.vals[all.keys[i]] == t
      && LooseEqualsInt(t.Id(), id) && NoIdBefore(all, id, i)
  }

  /**
   * The loop of `getById`: the position of the first table whose id loosely
   * equals `id`, or none; a null entry met first is a method called on null.
   */
  method FindById(all: Arr<string, Table?>, id: int) returns (r: Result<Option<nat>, TableError>)
    ensures r.Ok? && r.value.Some? ==>
      var i := r.value.value;
      && i < |all.keys| && all.keys[i] in all.vals
      && all.vals[all.keys[i]] != null && LooseEqualsInt(all.vals[all.keys[i]].Id(), id)
      && NoIdBefore(all, id, i)
    ensures r.Ok? && r.value.None? ==> NoIdBefore(all, id, |all.keys|)
    ensures r.Err? ==> r.error == CallOnNull
    ensures r.Err? ==>
      exists i :: 0 <= i < |all.keys| && (all.keys[i] !in all.vals || all.vals[all.keys[i]] == null)
    ensures r.Err? && all.Valid() ==> exists k :: k in all.vals && all.vals[k] == null
  {
    var i := 0;
    while i < |all.keys|
      invariant 0 <= i <= |all.keys|
      invariant NoIdBefore(all, id, i)
    {
      if all.keys[i] !in all.vals || all.vals[all.keys[i]] == null {
        assert all.Valid() ==> all.vals[all.keys[i]] == null;
        return Err(CallOnNull);
      }
      var t := all.vals[all.keys[i]];
      if LooseEqualsInt(t.Id(), id) {
        return Ok(Some(i));
      }
      i := i + 1;
    }
    return Ok(None);
  }

  /** Writing the page size back leaves the sort column and direction of the row as they were. */
  lemma ListAmountKeepsSort(values: Row, amount: string)
    ensures Cell(values["list_amount" := amount], "list_sortfield") == Cell(values, "list_sortfield")
    ensures Cell(values["list_amount" := amount], "list_sortorder") == Cell(values, "list_sortorder")
  {
    assert "list_amount"[5] != "list_sortfield"[5] && "list_amount"[5] != "list_sortorder"[5];
  }

  // ---------------------------------------------------------------------------
  // A table instance

  class Table {
    /** The table row; `getListAmount` may write the default page size back into it. */
    var values: Row
    /** The table name read from the row at construction; nothing reassigns it. */
    const tableName: string
    const columns: Arr<string, Row>
    const fields: seq<Field>
    /** The memo of `getRelations`, absent until first asked for. */
    var relations: Option<Arr<string, Field>>

    ghost predicate Valid()
      reads this
    {
      && Cell(values, "table_name") == tableName
      && (relations.Some? ==> relations.value == ValueFields(fields, RelationFilter()))
    }

    constructor (data: TableData, catalogue: map<string, string>, constructs: Row -> bool)
      ensures Valid()
      ensures values == data.table && columns == data.columns && fields == FieldsOf(data.fields, catalogue, constructs)
      ensures tableName == Cell(data.table, "table_name") && relations == None
    {
      values := data.table;
      tableName := Cell(data.table, "table_name");
      columns := data.columns;
      fields := FieldsOf(data.fields, catalogue, constructs);
      relations := None;
    }

    /** `getTableName()`: the row's table_name, which `Valid` ties to `tableName`. */
    function TableName(): string
    {
      tableName
    }

    function Id(): string
      reads this
    {
      Cell(values, "id")
    }

    /** A flag column holds the integer 1 (`$this->values[$column] == 1`). */
    function HasFlag(column: string): (r: bool)
      reads this
      ensures r <==> column in values && IsIntString(values[column]) && IntCast(values[column]) == 1
    {
      LooseEqualsInt(Cell(values, column), 1)
    }

    predicate IsActive() reads this { HasFlag("status") }
    predicate IsHidden() reads this { HasFlag("hidden") }
    predicate IsSearchable() reads this { HasFlag("search") }
    predicate IsImportable() reads this { HasFlag("import") }
    predicate IsExportable() reads this { HasFlag("export") }
    predicate IsAddable() reads this { HasFlag("add_new") }
    predicate IsMassDeletionAllowed() reads this { HasFlag("mass_deletion") }
    predicate IsMassEditAllowed() reads this { HasFlag("mass_edit") }
    predicate OverwriteSchema() reads this { HasFlag("schema_overwrite") }
    predicate HasHistory() reads this { HasFlag("history") }

    function SortFieldName(): string
      reads this
    {
      Cell(values, "list_sortfield")
    }

    function SortOrderName(): string
      reads this
    {
      Cell(values, "list_sortorder")
    }

    /** `getPermKey()`. */
    function PermissionKey(): string
    {
      PermKey(TableName())
    }

    /**
     * The page size of the table's list: the stored value unless it is
     * missing or below 1 under PHP 8's comparison, else 30, which is then
     * stored. A stored non-numeric string that is not below 1 is kept.
     */
    method GetListAmount() returns (amount: string)
      requires Valid()
      modifies this`values
      ensures Valid()
      ensures IntCast(amount) >= 0 && (IsIntString(amount) ==> IntCast(amount) >= 1)
      ensures if "list_amount" !in old(values) || LessThanInt(old(values)["list_amount"], 1)
        then amount == DefaultListAmount && values == old(values)["list_amount" := DefaultListAmount]
        else amount == old(values)["list_amount"] && values == old(values)
    {
      if "list_amount" !in values || LessThanInt(values["list_amount"], 1) {
        values := values["list_amount" := DefaultListAmount];
      }
      amount := values["list_amount"];
      if amount != DefaultListAmount {
        NotBelowOne(amount);
      } else {
        DefaultListAmountValue();
      }
    }

    /** `getFields($filter)`: the fields matching every filter key, in stored order; all fields without a filter. */
    function GetFields(filter: Arr<string, string>): (r: seq<Field>)
      requires filter.Valid()
      ensures forall f :: f in r <==> f in fields && Matches(f, filter)
      ensures filter.keys == [] ==> r == fields
    {
      FilterFieldsMembership(filter);
      if filter.keys == [] then
        FilterFieldsEmpty(fields, filter);
        fields
      else
        FilterFields(fields, filter)
    }

    lemma FilterFieldsMembership(filter: Arr<string, string>)
      ensures forall f :: f in FilterFields(fields, filter) <==> f in fields && Matches(f, filter)
    {
      forall f ensures f in FilterFields(fields, filter) <==> f in fields && Matches(f, filter) {
        FilterFieldsExact(fields, filter, f);
      }
    }

    /** `getValueFields($filter)`. */
    function GetValueFields(filter: Arr<string, string>): (r: Arr<string, Field>)
      ensures r.Valid()
      ensures forall name | name in r.vals :: r.vals[name] in fields && Selected(r.vals[name], filter) && r.vals[name].Name() == name
      ensures r.keys == FirstOccurrences(SelectedNames(fields, filter))
    {
      ValueFieldsEntries(fields, filter);
      ValueFieldsOrder(fields, filter);
      ValueFields(fields, filter)
    }

    /** `getValueField($name)`: the value field called `name`, if any. */
    function GetValueField(name: string): (r: Option<Field>)
      ensures r.Some? ==> r.value in fields && r.value.Type() == "value" && r.value.Name() == name
      ensures r.None? <==> forall f :: f in fields ==> !(f.Type() == "value" && f.Name() == name)
    {
      var byName := Empty<string, string>().Put("name", name);
      var found := ValueFields(fields, byName);
      ValueFieldsExact(fields, byName, name);
      ValueFieldsEntries(fields, byName);
      if name in found.vals then
        Some(found.vals[name])
      else
        assert forall i :: 0 <= i < |fields| ==> !(Selected(fields[i], byName) && fields[i].Name() == name);
        None
    }

    /** `getRelations()`: computed once, then served from the memo. */
    method GetRelations() returns (r: Arr<string, Field>)
      requires Valid()
      modifies this`relations
      ensures Valid()
      ensures r == ValueFields(fields, RelationFilter()) && relations == Some(r)
    {
      if relations.None? {
        relations := Some(ValueFields(fields, RelationFilter()));
      }
      r := relations.value;
    }

    /** `getRelationsTo($table)`. */
    function GetRelationsTo(target: string): (r: Arr<string, Field>)
      ensures r.Valid()
      ensures forall name | name in r.vals ::
        name in ValueFields(fields, RelationFilter()).vals && LooseEqualsStr(target, r.vals[name].Element("table"))
    {
      RelationsToAreRelations(fields, target);
      ValueFields(fields, RelationToFilter(target))
    }

    /** `getRelation($column)`: the memoised relations' entry for `column`. */
    method GetRelation(column: string) returns (r: Option<Field>)
      requires Valid()
      modifies this`relations
      ensures Valid()
      ensures r == RelationOf(fields, column)
    {
      var rels := GetRelations();
      r := if column in rels.vals then Some(rels.vals[column]) else None;
    }

    /** `getMissingFields()`. */
    function GetMissingFields(): Arr<string, string>
    {
      MissingFields(columns, fields)
    }

    /**
     * `getRelationTableColumns($column)`: the join columns of the junction
     * table of relation `column`, looked up through the registry. Without such
     * a relation, or without such a junction table, a method is called on null.
     */
    method GetRelationTableColumns(column: string, registry: Registry, db: SchemaStore) returns (r: Result<JoinColumns, TableError>)
      requires Valid() && registry.Valid()
      modifies this`relations, registry
      ensures Valid() && registry.Valid()
      ensures var rel := RelationOf(fields, column);
        var junction := if rel.Some? then rel.value.Element("relation_table") else "";
        var target := if rel.Some? then rel.value.Element("table") else "";
        && junction in registry.tables.vals
        && r == if registry.tables.vals[junction] == null then Err(CallOnNull)
                else JunctionColumns(registry.tables.vals[junction].fields, junction, TableName(), target)
    {
      var relation := GetRelation(column);
      assert registry.Valid();
      var junction := if relation.Some? then relation.value.Element("relation_table") else "";
      var target := if relation.Some? then relation.value.Element("table") else "";
      var table := registry.Get(junction, db);
      if table == null {
        return Err(CallOnNull);
      }
      r := JunctionColumns(table.fields, junction, TableName(), target);
    }
  }

  /** Every entry of the snapshot is keyed by its table name. */
  ghost predicate SnapshotKeyed(snap: Snapshot)
  {
    snap.Valid() && forall k | k in snap.vals :: Cell(snap.vals[k].table, "table_name") == k
  }

  /** An instance of table `name` is recorded in `tables`. */
  predicate LoadedIn(tables: Arr<string, Table?>, name: string)
  {
    name in tables.vals && tables.vals[name] != null
  }

  /** Every recorded instance belongs to a table of the snapshot and carries its key as name. */
  ghost predicate InstancesKnown(tables: Arr<string, Table?>, cache: Option<Snapshot>)
  {
    forall k | LoadedIn(tables, k) :: cache.Some? && k in cache.value.vals && tables.vals[k].TableName() == k
  }

  /** Every table of the snapshot has a recorded instance. */
  ghost predicate AllLoaded(tables: Arr<string, Table?>, snap: Snapshot)
  {
    forall k | k in snap.vals :: LoadedIn(tables, k)
  }

  /**
   * The process-wide table registry: the static state of the table class
   * (the snapshot cache, the instances handed out so far, and whether all
   * tables have been loaded), with the value classes known to the process.
   */
  class Registry {
    /** Value class catalogue: type name -> the column type the class declares. */
    const catalogue: map<string, string>
    /**
     * Whether `new rex_yform_manager_field($row)` succeeds for a field row;
     * the field class is not part of this model.
     */
    const constructs: Row -> bool
    var cache: Option<Snapshot>
    /** Instances by table name; null records a name found in no table row. */
    var tables: Arr<string, Table?>
    var loadedAllTables: bool

    /** The snapshot's entries are keyed by their table names. */
    ghost predicate CacheValid()
      reads this
    {
      cache.Some? ==> SnapshotKeyed(cache.value)
    }

    ghost predicate Valid()
      reads this
    {
      && tables.Valid()
      && CacheValid()
      && InstancesKnown(tables, cache)
      && (loadedAllTables ==> cache.Some? && AllLoaded(tables, cache.value))
    }

    /** An instance of table `name` has been handed out. */
    predicate Loaded(name: string)
      reads this
    {
      LoadedIn(tables, name)
    }

    constructor (catalogue: map<string, string>, constructs: Row -> bool)
      ensures Valid()
      ensures this.catalogue == catalogue && this.constructs == constructs
      ensures cache == None && tables == Empty() && !loadedAllTables
    {
      this.catalogue := catalogue;
      this.constructs := constructs;
      cache := None;
      tables := Empty();
      loadedAllTables := false;
    }

    /** `getCache()`: the snapshot, built from the store on first use and kept afterwards. */
    method GetCache(db: SchemaStore) returns (snap: Snapshot)
      requires Valid()
      modifies this`cache
      ensures Valid()
      ensures snap == (if old(cache).Some? then old(cache).value else SnapshotOf(db))
      ensures cache == Some(snap)
    {
      if cache.Some? {
        return cache.value;
      }
      snap := BuildSnapshot(db);
      forall k | k in snap.vals
        ensures Cell(snap.vals[k].table, "table_name") == k
      {
        SnapshotEntry(db, k);
      }
      cache := Some(snap);
    }

    /**
     * `get($tableName)`: the instance handed out before, or a new one built
     * from the snapshot and recorded; null, also recorded, for an unknown name.
     */
    method Get(name: string, db: SchemaStore) returns (t: Table?)
      requires Valid()
      modifies this`cache, this`tables
      ensures Valid()
      ensures name in tables.vals && tables.vals[name] == t
      ensures old(Loaded(name)) ==> t == old(tables.vals[name]) && tables == old(tables) && cache == old(cache)
      ensures !old(Loaded(name)) ==>
        && cache.Some? && (old(cache).Some? ==> cache == old(cache))
        && tables == old(tables).Put(name, t)
        && (t != null <==> name in cache.value.vals)
        && (t != null ==> fresh(t) && Built(t, cache.value.vals[name]))
    {
      if Loaded(name) {
        return tables.vals[name];
      }
      var snap := GetCache(db);
      t := NewInstance(snap, name);
      Record(name, t, snap);
    }

    /** `new self($data)` for the snapshot entry of `name`, or null when the snapshot has none. */
    method NewInstance(snap: Snapshot, name: string) returns (t: Table?)
      ensures t != null <==> name in snap.vals
      ensures t != null ==> fresh(t) && Built(t, snap.vals[name])
    {
      if name !in snap.vals {
        t := null;
      } else {
        t := new Table(snap.vals[name], catalogue, constructs);
      }
    }

    /** `self::$tables[$tableName] = ...` for a name not handed out before. */
    method Record(name: string, t: Table?, snap: Snapshot)
      requires Valid() && cache == Some(snap) && !Loaded(name)
      requires t != null ==> name in snap.vals && Built(t, snap.vals[name])
      modifies this`tables
      ensures Valid() && tables == old(tables).Put(name, t)
    {
      ghost var before := tables;
      tables := tables.Put(name, t);
      forall k | k in tables.vals && tables.vals[k] != null
        ensures k in snap.vals && tables.vals[k].TableName() == k
      {
        if k != name {
          assert tables.vals[k] == before.vals[k];
        }
      }
      if loadedAllTables {
        forall k | k in snap.vals
          ensures Loaded(k)
        {
          assert tables.vals[k] == before.vals[k];
        }
      }
    }

    /**
     * `t` was made by `new self($data)` from the snapshot entry `data`: its
     * name, columns and fields are those of the entry.
     */
    ghost predicate Built(t: Table?, data: TableData)
    {
      t != null && t.columns == data.columns
        && t.tableName == Cell(data.table, "table_name") && t.fields == FieldsOf(data.fields, catalogue, constructs)
    }

    /**
     * `getAll()`: once loaded, the recorded instances; otherwise one instance
     * per snapshot table in snapshot order, reusing those handed out before.
     */
    method GetAll(db: SchemaStore) returns (all: Arr<string, Table?>)
      requires Valid()
      modifies this`cache, this`tables, this`loadedAllTables
      ensures Valid() && loadedAllTables && all == tables
      ensures old(loadedAllTables) ==> tables == old(tables) && cache == old(cache)
      ensures !old(loadedAllTables) ==>
        && cache.Some? && (old(cache).Some? ==> cache == old(cache))
        && tables.keys == cache.value.keys
        && forall k | k in tables.vals ::
             && tables.vals[k] != null
             && (old(Loaded(k)) ==> tables.vals[k] == old(tables.vals[k]))
             && (!old(Loaded(k)) ==> fresh(tables.vals[k]) && Built(tables.vals[k], cache.value.vals[k]))
    {
      if loadedAllTables {
        return tables;
      }
      var snap := GetCache(db);
      var result := Instantiate(snap, tables);
      assert InstancesKnown(result, Some(snap));
      assert AllLoaded(result, snap);
      tables := result;
      loadedAllTables := true;
      all := tables;
    }

    /**
     * The loop of `getAll()`: one instance per snapshot table, in snapshot
     * order, taking the one in `previous` when there is one.
     */
    method Instantiate(snap: Snapshot, previous: Arr<string, Table?>) returns (result: Arr<string, Table?>)
      requires snap.Valid()
      requires forall k | k in previous.vals && previous.vals[k] != null :: previous.vals[k].TableName() == k
      requires forall k | k in snap.vals :: Cell(snap.vals[k].table, "table_name") == k
      ensures result.Valid() && result.keys == snap.keys && result.vals.Keys == snap.vals.Keys
      ensures forall k | k in result.vals :: result.vals[k] != null && result.vals[k].TableName() == k
      ensures forall k | k in result.vals && k in previous.vals && previous.vals[k] != null :: result.vals[k] == previous.vals[k]
      ensures forall k | k in result.vals && !(k in previous.vals && previous.vals[k] != null) ::
        fresh(result.vals[k]) && Built(result.vals[k], snap.vals[k])
    {
      var built: map<string, Table> := map[];
      var i := 0;
      while i < |snap.keys|
        invariant 0 <= i <= |snap.keys|
        invariant forall j :: 0 <= j < i ==> snap.keys[j] in built
        invariant forall k | k in built :: k in snap.vals && Instance(previous, snap.vals[k], k, built[k])
        invariant forall k | k in built && !(k in previous.vals && previous.vals[k] != null) :: fresh(built[k])
      {
        var k := snap.keys[i];
        var t := Reuse(previous, snap.vals[k], k);
        built := built[k := t];
        i := i + 1;
      }
      result := Arr(snap.keys, built);
    }

    /** The instance `getAll()` keeps for table `k`: the one handed out before, or `new self($data)`. */
    method Reuse(previous: Arr<string, Table?>, data: TableData, k: string) returns (t: Table)
      requires k in previous.vals && previous.vals[k] != null ==> previous.vals[k].TableName() == k
      requires Cell(data.table, "table_name") == k
      ensures Instance(previous, data, k, t)
      ensures !(k in previous.vals && previous.vals[k] != null) ==> fresh(t)
    {
      if k in previous.vals && previous.vals[k] != null {
        t := previous.vals[k];
      } else {
        t := new Table(data, catalogue, constructs);
      }
    }

    /** `t` is the instance `getAll()` keeps for table `k`: the one handed out before, or one built from `data`. */
    ghost predicate Instance(previous: Arr<string, Table?>, data: TableData, k: string, t: Table)
    {
      && t.TableName() == k
      && (k in previous.vals && previous.vals[k] != null ==> t == previous.vals[k])
      && (!(k in previous.vals && previous.vals[k] != null) ==> Built(t, data))
    }

    /**
     * `getById($tableID)`: the first loaded table whose id loosely equals
     * `id`, as `get` returns it, or null. Meeting a null entry (a name asked
     * for with `get` after all tables were loaded) calls a method on null.
     */
    method GetById(id: int, db: SchemaStore) returns (r: Result<Table?, TableError>)
      requires Valid()
      modifies this`cache, this`tables, this`loadedAllTables
      ensures Valid() && loadedAllTables
      ensures !old(loadedAllTables) ==> r.Ok?
      ensures r.Ok? && r.value != null ==> FirstWithId(tables, id, r.value)
      ensures r.Ok? && r.value == null ==> NoIdBefore(tables, id, |tables.keys|)
      ensures r.Err? ==> r.error == CallOnNull && exists k :: k in tables.vals && tables.vals[k] == null
    {
      var all := GetAll(db);
      r := SearchLoaded(id, db);
    }

    /** The body of `getById()` once every table is loaded. */
    method SearchLoaded(id: int, db: SchemaStore) returns (r: Result<Table?, TableError>)
      requires Valid() && loadedAllTables
      modifies this`cache, this`tables
      ensures Valid() && loadedAllTables
      ensures (forall k | k in old(tables.vals) :: old(tables.vals[k]) != null) ==> r.Ok?
      ensures r.Ok? && r.value != null ==> FirstWithId(tables, id, r.value)
      ensures r.Ok? && r.value == null ==> NoIdBefore(tables, id, |tables.keys|)
      ensures r.Err? ==> r.error == CallOnNull && exists k :: k in tables.vals && tables.vals[k] == null
    {
      var found := FindById(tables, id);
      if found.Err? {
        return Err(found.error);
      }
      if found.value.None? {
        return Ok(null);
      }
      var i := found.value.value;
      var t := tables.vals[tables.keys[i]];
      assert Loaded(t.TableName());
      assert FirstWithId(tables, id, t);
      ghost var before := tables;
      var same := Get(t.TableName(), db);
      assert tables == before && same == t;
      return Ok(same);
    }

    /** `deleteCache()`: forgets the snapshot, every instance and the loaded flag. */
    method DeleteCache()
      modifies this`cache, this`tables, this`loadedAllTables
      ensures Valid()
      ensures cache == None && tables == Empty() && !loadedAllTables
    {
      cache := None;
      tables := Empty();
      loadedAllTables := false;
    }
  }
}

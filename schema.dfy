/**
 * Schema construction: for every table of a base's metadata, the Tableau
 * table descriptor (one column per field whose type is not excluded, then the
 * record-id column) and the side table of field metadata that data fetching
 * reads later.
 *
 * `GetSchema` is the connector's loop: it maps every field to a column or to
 * nothing, appends the record-id column, filters, and fills the side table in
 * place.  It is proved against `TableSchemaOf` and `SideTableOf`, which filter
 * the fields first and map them afterwards; the lemmas state what those give.
 */
module Schema {
  import opened Wrappers
  import opened Seqs
  import opened TableauId
  import opened ColumnTypes
  import opened Airtable

  /** Field types that get no column. */
  const EXCLUDED_FIELD_TYPES: seq<string> := ["button", "multipleAttachments"]

  predicate Excluded(f: FieldMeta) {
    f.fieldType in EXCLUDED_FIELD_TYPES
  }

  /**
   * A Tableau column descriptor.  Field columns have an alias and a role; the
   * record-id column has neither.
   */
  datatype Column = Column(
    id: string,
    alias: Option<string>,
    description: string,
    role: Option<Role>,
    dataType: DataType)

  /** A Tableau table descriptor. */
  datatype TableSchema = TableSchema(id: string, alias: string, description: string, columns: seq<Column>)

  /** Field metadata of one table, keyed by field name. */
  type FieldTable = map<string, FieldMeta>

  /** Field metadata of every table, keyed by table name and then field name. */
  type SideTable = map<string, FieldTable>

  /** The column for a field that is not excluded. */
  function FieldColumn(f: FieldMeta): Column {
    var t := ColumnType(f.fieldType);
    Column(ReplaceSpecialChars(f.name), Some(f.name), f.name, Some(RoleOf(t)), t)
  }

  /** The synthetic column holding the record id, last in every table. */
  function RecordIdColumn(tableName: string, recordIdField: string): Column {
    Column(ReplaceSpecialChars(recordIdField), None, "Airtable Record ID from table " + tableName, None, String)
  }

  function TableDescription(t: TableMeta, baseId: string): string {
    "Airtable '" + t.name + "' (" + t.id + ") from base " + baseId + "."
  }

  /** The fields that are not excluded, in field order. */
  function KeptFields(fields: seq<FieldMeta>): seq<FieldMeta> {
    if fields == [] then []
    else
      var last := fields[|fields| - 1];
      KeptFields(fields[..|fields| - 1]) + (if Excluded(last) then [] else [last])
  }

  function FieldColumns(fields: seq<FieldMeta>): seq<Column>
  {
    seq(|fields|, k requires 0 <= k < |fields| => FieldColumn(fields[k]))
  }

  /** The descriptor of one table. */
  function TableSchemaOf(t: TableMeta, baseId: string, recordIdField: string): TableSchema {
    TableSchema(
      ReplaceSpecialChars(t.name), t.name, TableDescription(t, baseId),
      FieldColumns(KeptFields(t.fields)) + [RecordIdColumn(t.name, recordIdField)])
  }

  /** The side-table entry of one table: its kept fields by name, a later field winning. */
  function FieldTableOf(fields: seq<FieldMeta>): FieldTable {
    if fields == [] then map[]
    else
      var last := fields[|fields| - 1];
      var before := FieldTableOf(fields[..|fields| - 1]);
      if Excluded(last) then before else before[last.name := last]
  }

  /** The whole side table, a later table of the same name winning. */
  function SideTableOf(tables: seq<TableMeta>): SideTable {
    if tables == [] then map[]
    else
      var last := tables[|tables| - 1];
      SideTableOf(tables[..|tables| - 1])[last.name := FieldTableOf(last.fields)]
  }

  /** `entries.filter(Boolean)`: the columns, without the `false` left for excluded fields. */
  function Present(entries: seq<Option<Column>>): seq<Column> {
    if entries == [] then []
    else
      var last := entries[|entries| - 1];
      Present(entries[..|entries| - 1]) + (if last.Some? then [last.value] else [])
  }

  lemma PresentSnoc(entries: seq<Option<Column>>, e: Option<Column>)
    ensures Present(entries + [e]) == Present(entries) + (if e.Some? then [e.value] else [])
  {
    SnocTake(entries, e);
  }

  lemma KeptColumnsSnoc(fields: seq<FieldMeta>, f: FieldMeta)
    ensures FieldColumns(KeptFields(fields + [f]))
         == FieldColumns(KeptFields(fields)) + (if Excluded(f) then [] else [FieldColumn(f)])
  {
    SnocTake(fields, f);
  }

  lemma FieldTableSnoc(fields: seq<FieldMeta>, f: FieldMeta)
    ensures FieldTableOf(fields + [f])
         == if Excluded(f) then FieldTableOf(fields) else FieldTableOf(fields)[f.name := f]
  {
    SnocTake(fields, f);
  }

  lemma UpdateTwice(m: SideTable, k: string, a: FieldTable, b: FieldTable)
    ensures m[k := a][k := b] == m[k := b]
    ensures m[k := a][k] == a
  {
  }

  lemma SideTableSnoc(tables: seq<TableMeta>, t: TableMeta)
    ensures SideTableOf(tables + [t]) == SideTableOf(tables)[t.name := FieldTableOf(t.fields)]
  {
    SnocTake(tables, t);
  }

  /**
   * One step of the handler's outer map: the descriptor of table `t`, while
   * `t`'s entry of the side table is reset and filled in place.
   */
  method DescribeTable(t: TableMeta, baseId: string, recordIdField: string, side: SideTable)
    returns (schema: TableSchema, side': SideTable)
    ensures schema == TableSchemaOf(t, baseId, recordIdField)
    ensures side' == side[t.name := FieldTableOf(t.fields)]
  {
    side' := side[t.name := map[]];
    var entries: seq<Option<Column>> := [];
    for j := 0 to |t.fields|
      invariant side' == side[t.name := FieldTableOf(t.fields[..j])]
      invariant Present(entries) == FieldColumns(KeptFields(t.fields[..j]))
    {
      var f := t.fields[j];
      TakeSnoc(t.fields, j);
      KeptColumnsSnoc(t.fields[..j], f);
      FieldTableSnoc(t.fields[..j], f);
      PresentSnoc(entries, if Excluded(f) then None else Some(FieldColumn(f)));
      if f.fieldType !in EXCLUDED_FIELD_TYPES {
        ghost var before := FieldTableOf(t.fields[..j]);
        UpdateTwice(side, t.name, before, before[f.name := f]);
        side' := side'[t.name := side'[t.name][f.name := f]];
        entries := entries + [Some(FieldColumn(f))];
      } else {
        entries := entries + [None];
      }
    }
    TakeAll(t.fields);
    PresentSnoc(entries, Some(RecordIdColumn(t.name, recordIdField)));
    entries := entries + [Some(RecordIdColumn(t.name, recordIdField))];
    schema := TableSchema(ReplaceSpecialChars(t.name), t.name, TableDescription(t, baseId), Present(entries));
  }

  /**
   * The body of the schema handler, given the already fetched metadata: one
   * descriptor per table, in order, and the side table it fills in place.
   */
  method GetSchema(tables: seq<TableMeta>, baseId: string, recordIdField: string)
    returns (schemas: seq<TableSchema>, side: SideTable)
    ensures |schemas| == |tables|
    ensures forall i :: 0 <= i < |tables| ==> schemas[i] == TableSchemaOf(tables[i], baseId, recordIdField)
    ensures side == SideTableOf(tables)
  {
    schemas, side := [], map[];
    ghost var expected := seq(|tables|, k requires 0 <= k < |tables| => TableSchemaOf(tables[k], baseId, recordIdField));
    for i := 0 to |tables|
      invariant schemas == expected[..i]
      invariant side == SideTableOf(tables[..i])
    {
      var schema;
      schema, side := DescribeTable(tables[i], baseId, recordIdField, side);
      TakeSnoc(expected, i);
      schemas := schemas + [schema];
      TakeSnoc(tables, i);
      SideTableSnoc(tables[..i], tables[i]);
    }
    TakeAll(expected);
    TakeAll(tables);
  }

  /** Filtering distributes over concatenation, so it keeps the fields' order. */
  lemma {:induction false} KeptFieldsAppend(a: seq<FieldMeta>, b: seq<FieldMeta>)
    ensures KeptFields(a + b) == KeptFields(a) + KeptFields(b)
    decreases |b|
  {
    if b == [] {
      assert a + b == a;
    } else {
      var b' := b[..|b| - 1];
      assert (a + b)[..|a + b| - 1] == a + b';
      KeptFieldsAppend(a, b');
    }
  }

  /** The kept fields are exactly the fields whose type is not excluded. */
  lemma {:induction false} KeptFieldsMembers(fields: seq<FieldMeta>)
    ensures forall f :: f in KeptFields(fields) <==> f in fields && !Excluded(f)
    ensures |KeptFields(fields)| <= |fields|
  {
    if fields != [] {
      var before := fields[..|fields| - 1];
      KeptFieldsMembers(before);
      assert fields == before + [fields[|fields| - 1]];
    }
  }

  /** When nothing is excluded, every field gets a column. */
  lemma {:induction false} KeptFieldsAll(fields: seq<FieldMeta>)
    requires forall k :: 0 <= k < |fields| ==> !Excluded(fields[k])
    ensures KeptFields(fields) == fields
  {
    if fields != [] {
      KeptFieldsAll(fields[..|fields| - 1]);
      assert fields == fields[..|fields| - 1] + [fields[|fields| - 1]];
    }
  }

  /**
   * The shape of a table descriptor: its id is the sanitised table name and
   * its alias the name; one column per kept field, in field order, then the
   * record-id column, of type string.
   */
  lemma TableShape(t: TableMeta, baseId: string, recordIdField: string)
    ensures var s := TableSchemaOf(t, baseId, recordIdField);
      && s.id == ReplaceSpecialChars(t.name) && s.alias == t.name
      && |s.columns| == |KeptFields(t.fields)| + 1
      && s.columns[|s.columns| - 1] == RecordIdColumn(t.name, recordIdField)
      && s.columns[|s.columns| - 1].id == ReplaceSpecialChars(recordIdField)
      && s.columns[|s.columns| - 1].dataType == String
      && forall k :: 0 <= k < |s.columns| - 1 ==>
            var f := KeptFields(t.fields)[k];
            && s.columns[k].id == ReplaceSpecialChars(f.name)
            && s.columns[k].alias == Some(f.name)
            && s.columns[k].description == f.name
            && s.columns[k].dataType == ColumnType(f.fieldType)
            && s.columns[k].role == Some(RoleOf(s.columns[k].dataType))
  {
  }

  /** Every kept field has its column among the field columns. */
  lemma KeptFieldsHaveColumns(fields: seq<FieldMeta>)
    ensures forall f :: f in fields && !Excluded(f) ==> FieldColumn(f) in FieldColumns(KeptFields(fields))
  {
    var kept := KeptFields(fields);
    var fc := FieldColumns(kept);
    KeptFieldsMembers(fields);
    forall f | f in fields && !Excluded(f) ensures FieldColumn(f) in fc {
      var k :| 0 <= k < |kept| && kept[k] == f;
      assert fc[k] == FieldColumn(f);
    }
  }

  /** The two directions below, for the field columns followed by any last column. */
  lemma FieldColumnsThen(fields: seq<FieldMeta>, last: Column)
    ensures var cols := FieldColumns(KeptFields(fields)) + [last];
      && (forall k :: 0 <= k < |cols| - 1 ==> exists f :: f in fields && !Excluded(f) && cols[k] == FieldColumn(f))
      && (forall f :: f in fields && !Excluded(f) ==> FieldColumn(f) in cols)
  {
    var kept := KeptFields(fields);
    var fc := FieldColumns(kept);
    var cols := fc + [last];
    KeptFieldsMembers(fields);
    KeptFieldsHaveColumns(fields);
    assert |fc| == |kept| && |cols| - 1 == |kept|;
    forall k | 0 <= k < |cols| - 1 ensures exists f :: f in fields && !Excluded(f) && cols[k] == FieldColumn(f) {
      var f := kept[k];
      assert f in kept;
      assert cols[k] == fc[k] == FieldColumn(f);
      assert f in fields && !Excluded(f) && cols[k] == FieldColumn(f);
    }
    forall f | f in fields && !Excluded(f) ensures FieldColumn(f) in cols {
      assert FieldColumn(f) in fc;
    }
  }

  /**
   * Every field column comes from a field whose type is not excluded, and
   * every such field has its column.
   */
  lemma ColumnsFromKeptFields(t: TableMeta, baseId: string, recordIdField: string)
    ensures var cols := TableSchemaOf(t, baseId, recordIdField).columns;
      && (forall k :: 0 <= k < |cols| - 1 ==> exists f :: f in t.fields && !Excluded(f) && cols[k] == FieldColumn(f))
      && (forall f :: f in t.fields && !Excluded(f) ==> FieldColumn(f) in cols)
  {
    FieldColumnsThen(t.fields, RecordIdColumn(t.name, recordIdField));
  }

  /** The position of a kept field's column in its table's descriptor. */
  lemma ColumnOfField(t: TableMeta, baseId: string, recordIdField: string, x: nat) returns (k: nat)
    requires x < |t.fields| && !Excluded(t.fields[x])
    ensures var cols := TableSchemaOf(t, baseId, recordIdField).columns;
      k < |cols| - 1 && cols[k] == FieldColumn(t.fields[x])
  {
    var kept := KeptFields(t.fields);
    KeptFieldsMembers(t.fields);
    assert t.fields[x] in kept;
    k :| 0 <= k < |kept| && kept[k] == t.fields[x];
    var cols := TableSchemaOf(t, baseId, recordIdField).columns;
    assert cols == FieldColumns(kept) + [RecordIdColumn(t.name, recordIdField)];
    assert cols[k] == FieldColumns(kept)[k];
  }

  /** Field names within a table are distinct, as Airtable guarantees. */
  predicate DistinctFieldNames(fields: seq<FieldMeta>) {
    forall a, b :: 0 <= a < b < |fields| ==> fields[a].name != fields[b].name
  }

  /** A field of an excluded type is described by no column of its table. */
  lemma NoExcludedColumn(t: TableMeta, baseId: string, recordIdField: string, x: nat)
    requires x < |t.fields| && Excluded(t.fields[x]) && DistinctFieldNames(t.fields)
    ensures var cols := TableSchemaOf(t, baseId, recordIdField).columns;
      forall k :: 0 <= k < |cols| - 1 ==> cols[k].description != t.fields[x].name
  {
    var kept := KeptFields(t.fields);
    KeptFieldsMembers(t.fields);
    var cols := TableSchemaOf(t, baseId, recordIdField).columns;
    assert cols == FieldColumns(kept) + [RecordIdColumn(t.name, recordIdField)];
    forall k | 0 <= k < |cols| - 1 ensures cols[k].description != t.fields[x].name {
      assert cols[k] == FieldColumns(kept)[k];
      assert kept[k] in kept;
      var y :| 0 <= y < |t.fields| && t.fields[y] == kept[k];
      assert y != x;
    }
  }

  /** Every id in a table descriptor is a legal Tableau id. */
  lemma IdsAreLegal(t: TableMeta, baseId: string, recordIdField: string)
    ensures var s := TableSchemaOf(t, baseId, recordIdField);
      IsIdString(s.id) && forall k :: 0 <= k < |s.columns| ==> IsIdString(s.columns[k].id)
  {
    var s := TableSchemaOf(t, baseId, recordIdField);
    var kept := KeptFields(t.fields);
    Alphabet(t.name);
    forall k | 0 <= k < |s.columns| ensures IsIdString(s.columns[k].id) {
      if k < |s.columns| - 1 {
        Alphabet(kept[k].name);
      } else {
        Alphabet(recordIdField);
      }
    }
  }

  /**
   * A table's side-table entry holds exactly its kept fields, each under its
   * own name.
   */
  lemma {:induction false} FieldTableContents(fields: seq<FieldMeta>)
    ensures forall n :: n in FieldTableOf(fields) <==> exists f :: f in fields && !Excluded(f) && f.name == n
    ensures forall n :: n in FieldTableOf(fields) ==>
      FieldTableOf(fields)[n] in fields && FieldTableOf(fields)[n].name == n && !Excluded(FieldTableOf(fields)[n])
  {
    if fields != [] {
      var before := fields[..|fields| - 1];
      FieldTableContents(before);
      assert fields == before + [fields[|fields| - 1]];
    }
  }

  /** With distinct field names, a kept field is found in the side table under its name. */
  lemma {:induction false} FieldTableFinds(fields: seq<FieldMeta>, k: nat)
    requires k < |fields| && !Excluded(fields[k])
    requires DistinctFieldNames(fields)
    ensures fields[k].name in FieldTableOf(fields) && FieldTableOf(fields)[fields[k].name] == fields[k]
  {
    var before := fields[..|fields| - 1];
    if k < |fields| - 1 {
      FieldTableFinds(before, k);
    }
  }

  /**
   * The side table has one entry per table name, and a table that no later
   * table shares its name with finds its own fields there.
   */
  lemma {:induction false} SideTableContents(tables: seq<TableMeta>, i: nat)
    requires i < |tables|
    requires forall j :: i < j < |tables| ==> tables[j].name != tables[i].name
    ensures tables[i].name in SideTableOf(tables)
    ensures SideTableOf(tables)[tables[i].name] == FieldTableOf(tables[i].fields)
  {
    if i < |tables| - 1 {
      SideTableContents(tables[..|tables| - 1], i);
    }
  }

  lemma {:induction false} SideTableKeys(tables: seq<TableMeta>)
    ensures forall n :: n in SideTableOf(tables) <==> exists t :: t in tables && t.name == n
  {
    if tables != [] {
      var before := tables[..|tables| - 1];
      SideTableKeys(before);
      assert tables == before + [tables[|tables| - 1]];
    }
  }
}

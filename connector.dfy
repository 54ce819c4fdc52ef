/**
 * The two handlers together: the descriptors and side table that schema
 * construction produces are what row materialisation reads back.
 */
module Connector {
  import opened Wrappers
  import opened JsValues
  import opened Airtable
  import opened Coercion
  import opened TableauId
  import opened ColumnTypes
  import opened Schema
  import opened Rows

  /** The record-id field name the connection form stores in the connection data. */
  const RECORD_ID_FIELD: string := "_airtableRecordId"

  /** The column ids of a table descriptor are pairwise distinct. */
  predicate DistinctIds(cols: seq<Column>) {
    forall a, b :: 0 <= a < b < |cols| ==> cols[a].id != cols[b].id
  }

  /**
   * A field that gets a column is found again when its rows are fetched: the
   * cell under its column id is its own value coerced with its own metadata,
   * and the record-id column holds the record's id.  This needs the table's
   * name to be unique in the base, its field names to be unique, and its
   * column ids to be distinct (no two names sanitised alike, and no field
   * sanitised like the record-id field).
   */
  lemma SchemaThenData(tables: seq<TableMeta>, baseId: string, recordIdField: string, i: nat, x: nat, record: AirtableRecord)
    requires i < |tables| && forall j :: i < j < |tables| ==> tables[j].name != tables[i].name
    requires x < |tables[i].fields| && !Excluded(tables[i].fields[x])
    requires DistinctFieldNames(tables[i].fields)
    requires DistinctIds(TableSchemaOf(tables[i], baseId, recordIdField).columns)
    ensures var schema := TableSchemaOf(tables[i], baseId, recordIdField);
      var side := SideTableOf(tables);
      var row := RowOf(record, schema.columns, ReplaceSpecialChars(recordIdField),
                       if schema.alias in side then Some(side[schema.alias]) else None);
      var f := tables[i].fields[x];
      && ReplaceSpecialChars(f.name) in row
      && row[ReplaceSpecialChars(f.name)] == Cell(Coerce(record.Get(f.name), Some(f)))
      && ReplaceSpecialChars(recordIdField) in row
      && row[ReplaceSpecialChars(recordIdField)] == Str(record.id)
  {
    var t := tables[i];
    var f := t.fields[x];
    var schema := TableSchemaOf(t, baseId, recordIdField);
    var cols := schema.columns;
    var rid := ReplaceSpecialChars(recordIdField);
    SideTableContents(tables, i);
    FieldTableFinds(t.fields, x);
    var fields := Some(FieldTableOf(t.fields));
    var k := ColumnOfField(t, baseId, recordIdField, x);
    assert cols[|cols| - 1].id == rid;
    RowCell(record, cols, rid, fields, k);
    RowCell(record, cols, rid, fields, |cols| - 1);
  }

  /**
   * A field whose name sanitises to the record-id column's id, such as
   * " airtableRecordId", shows the record's id instead of its own value.
   */
  lemma RecordIdShadowsField(record: AirtableRecord, fields: Option<FieldTable>)
    ensures var col := FieldColumn(FieldMeta("fld", " airtableRecordId", "singleLineText"));
      CellValue(record, col, ReplaceSpecialChars(RECORD_ID_FIELD), fields) == Str(record.id)
  {
    var name := " airtableRecordId";
    assert name == [' '] + "airtableRecordId";
    assert RECORD_ID_FIELD == ['_'] + "airtableRecordId";
    Concatenation([' '], "airtableRecordId");
    Concatenation(['_'], "airtableRecordId");
    ChainOnChar(' ');
    ChainOnChar('_');
  }

  /**
   * A table whose name, field names and record-id field name are already
   * legal ids, and none of whose fields is excluded, is described column for
   * column under its own names: one column per field in order, with the
   * field's own name as id and the type its field type maps to, then the
   * record-id column under the record-id field name.
   */
  lemma PlainNamesPassThrough(t: TableMeta, baseId: string, recordIdField: string)
    requires IsIdString(t.name) && IsIdString(recordIdField)
    requires forall k :: 0 <= k < |t.fields| ==> IsIdString(t.fields[k].name) && !Excluded(t.fields[k])
    ensures var s := TableSchemaOf(t, baseId, recordIdField);
      && s.id == t.name
      && |s.columns| == |t.fields| + 1
      && s.columns[|t.fields|].id == recordIdField
      && forall k :: 0 <= k < |t.fields| ==>
            s.columns[k].id == t.fields[k].name && s.columns[k].dataType == ColumnType(t.fields[k].fieldType)
  {
    KeptFieldsAll(t.fields);
    TableShape(t, baseId, recordIdField);
    FixedPoints(t.name);
    FixedPoints(recordIdField);
    forall k | 0 <= k < |t.fields|
      ensures ReplaceSpecialChars(t.fields[k].name) == t.fields[k].name
    {
      FixedPoints(t.fields[k].name);
    }
  }
}

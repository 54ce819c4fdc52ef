/**
 * Row materialisation: for the table Tableau asks for, one row per fetched
 * record, keyed by column id.  The record-id column gets the record's id;
 * every other column is looked up by its description (the Airtable field
 * name) and coerced; a lookup or coercion that throws leaves the cell
 * undefined.
 */
module Rows {
  import opened Wrappers
  import opened Seqs
  import opened JsValues
  import opened Airtable
  import opened Coercion
  import opened TableauId
  import opened Schema

  /** A row handed to Tableau: cell values by column id. */
  type Row = map<string, Value>

  /** `fields[name]` on the side-table entry of a table: undefined when absent. */
  function Lookup(fields: FieldTable, name: string): Option<FieldMeta>
  {
    if name in fields then Some(fields[name]) else None
  }

  /** The cell a coercion result leaves: its value, or undefined when it threw. */
  function Cell(r: Result<Value, TypeError>): Value {
    match r
    case Success(v) => v
    case Failure(_) => Undefined
  }

  /**
   * The value of column `col` for `record`.  `fields` is the table's entry of
   * the side table, None when the side table has no entry for the table (then
   * reading a field's metadata throws).
   */
  function CellValue(record: AirtableRecord, col: Column, recordIdColumnId: string, fields: Option<FieldTable>): Value
  {
    if col.id == recordIdColumnId then Str(record.id)
    else match fields
      case None => Undefined
      case Some(ft) =>
        Cell(Coerce(record.Get(col.description), Lookup(ft, col.description)))
  }

  /** The row of one record: the columns assigned in order, a later column of the same id winning. */
  function RowOf(record: AirtableRecord, cols: seq<Column>, recordIdColumnId: string, fields: Option<FieldTable>): Row {
    if cols == [] then map[]
    else
      var last := cols[|cols| - 1];
      RowOf(record, cols[..|cols| - 1], recordIdColumnId, fields)[last.id := CellValue(record, last, recordIdColumnId, fields)]
  }

  lemma RowOfSnoc(record: AirtableRecord, cols: seq<Column>, col: Column, recordIdColumnId: string, fields: Option<FieldTable>)
    ensures RowOf(record, cols + [col], recordIdColumnId, fields)
         == RowOf(record, cols, recordIdColumnId, fields)[col.id := CellValue(record, col, recordIdColumnId, fields)]
  {
    SnocTake(cols, col);
  }

  /** The inner loop of the data handler: the row of one record. */
  method MaterializeRow(record: AirtableRecord, cols: seq<Column>, recordIdField: string, fields: Option<FieldTable>)
    returns (row: Row)
    ensures row == RowOf(record, cols, ReplaceSpecialChars(recordIdField), fields)
  {
    row := map[];
    for c := 0 to |cols|
      invariant row == RowOf(record, cols[..c], ReplaceSpecialChars(recordIdField), fields)
    {
      var col := cols[c];
      var value: Value := Undefined;
      if col.id == ReplaceSpecialChars(recordIdField) {
        value := Str(record.id);
      } else if fields.Some? {
        var meta := Lookup(fields.value, col.description);
        var raw := record.Get(col.description);
        var coerced := Coerce(raw, meta);
        if coerced.Success? {
          value := coerced.value;
        }
      }
      assert value == CellValue(record, col, ReplaceSpecialChars(recordIdField), fields);
      TakeSnoc(cols, c);
      RowOfSnoc(record, cols[..c], col, ReplaceSpecialChars(recordIdField), fields);
      row := row[col.id := value];
    }
    TakeAll(cols);
  }

  /**
   * The body of the data handler, given the already fetched records: the
   * rows of the table `table` that Tableau asks for, one per record, in order.
   */
  method GetData(table: TableSchema, records: seq<AirtableRecord>, recordIdField: string, side: SideTable)
    returns (rows: seq<Row>)
    ensures |rows| == |records|
    ensures forall i :: 0 <= i < |records| ==>
      rows[i] == RowOf(records[i], table.columns, ReplaceSpecialChars(recordIdField),
                       if table.alias in side then Some(side[table.alias]) else None)
  {
    var fields := if table.alias in side then Some(side[table.alias]) else None;
    rows := [];
    for r := 0 to |records|
      invariant |rows| == r
      invariant forall i :: 0 <= i < r ==> rows[i] == RowOf(records[i], table.columns, ReplaceSpecialChars(recordIdField), fields)
    {
      var row := MaterializeRow(records[r], table.columns, recordIdField, fields);
      rows := rows + [row];
    }
  }

  /** A row has exactly one key per distinct column id. */
  lemma {:induction false} RowKeys(record: AirtableRecord, cols: seq<Column>, recordIdColumnId: string, fields: Option<FieldTable>)
    ensures RowOf(record, cols, recordIdColumnId, fields).Keys == set c | c in cols :: c.id
  {
    if cols != [] {
      var before := cols[..|cols| - 1];
      RowKeys(record, before, recordIdColumnId, fields);
      assert cols == before + [cols[|cols| - 1]];
    }
  }

  /** The cell of a column that no later column shares its id with is that column's value. */
  lemma {:induction false} RowCell(record: AirtableRecord, cols: seq<Column>, recordIdColumnId: string, fields: Option<FieldTable>, j: nat)
    requires j < |cols|
    requires forall k :: j < k < |cols| ==> cols[k].id != cols[j].id
    ensures cols[j].id in RowOf(record, cols, recordIdColumnId, fields)
    ensures RowOf(record, cols, recordIdColumnId, fields)[cols[j].id] == CellValue(record, cols[j], recordIdColumnId, fields)
  {
    if j < |cols| - 1 {
      RowCell(record, cols[..|cols| - 1], recordIdColumnId, fields, j);
    }
  }
}

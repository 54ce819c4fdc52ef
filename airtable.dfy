/** The shapes Airtable's metadata and records APIs return, as far as the connector reads them. */
module Airtable {
  import opened JsValues

  /** A field of a table: its id, its name and its Airtable field type. */
  datatype FieldMeta = FieldMeta(id: string, name: string, fieldType: string)

  /** A table of a base, with its fields in the order the metadata API lists them. */
  datatype TableMeta = TableMeta(id: string, name: string, fields: seq<FieldMeta>)

  /** A record: its opaque id and its cell values keyed by field name. */
  datatype AirtableRecord = AirtableRecord(id: string, cells: map<string, Value>) {

    /** `record.get(name)`: the cell value, or undefined when the record has none. */
    function Get(name: string): Value
    {
      if name in cells then cells[name] else Undefined
    }
  }
}

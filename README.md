# Airtable → Tableau web data connector: a Dafny model of its core

The connector (`index.js`) lets Tableau read every table of an Airtable base.
It has two handlers:

- The schema handler turns the base's metadata into one Tableau table
  descriptor per Airtable table.
  - Each field that is not of an excluded type (`button`, `multipleAttachments`)
    becomes a column. The column id is the sanitised field name. The field
    name is kept as alias and description. The Tableau data type is mapped
    from the Airtable field type, and the role follows from the data type.
  - A synthetic record-id column comes last.
  - The handler also fills a side table, kept in the connection data: table
    name → field name → field metadata.
- The data handler turns each record into one row: cell values keyed by
  column id.
  - The record-id column gets the record's id.
  - Every other column reads its field's value by the column description.
  - That value is coerced with the field's metadata taken from the side table.
  - A coercion that throws leaves the cell undefined.

Modules, one per part of the core:

| file | module | models |
|---|---|---|
| `tableau_id.dfy` | `TableauId` | `replaceSpecialCharsForTableauID`: the chain of eight global replaces exactly as written, and a per-character reference definition proved equal to it |
| `column_types.dfy` | `ColumnTypes` | `determineTableauColumnType` and the measure/dimension choice |
| `js_values.dfy` | `JsValues` | the JavaScript values a record holds, and the parts of JavaScript coercion uses: `toString`, reading `.email`, `map(e => e.email)`, `join`; and `split`, as the inverse of `join` |
| `airtable.dfy` | `Airtable` | field and table metadata, records and `record.get` |
| `coercion.dfy` | `Coercion` | `airtableFieldValueToTableauColumnValue`, with its thrown TypeErrors as `Failure` |
| `schema.dfy` | `Schema` | the body of `getSchema`: an imperative method over the tables and, inside it, over each table's fields, proved against specification functions |
| `rows.dfy` | `Rows` | the nested loops of `getData`: an imperative method over records and columns, proved against a specification function |
| `connector.dfy` | `Connector` | the two handlers together: what the schema handler stores is what the data handler reads back |
| `wrappers.dfy`, `seqs.dfy` | `Wrappers`, `Seqs` | `Option`/`Result`, and prefix facts about sequences |

Modelling choices:

- JavaScript objects become values.
  - The row object becomes a `map`. Assigning an id twice keeps the later
    value, as JavaScript property assignment does.
  - The side table becomes a map of maps. A later table or field with the
    same name replaces the earlier one, as the source's assignments do.
- `Array.prototype.map` in the schema handler becomes a loop that appends
  to a sequence. Skipped fields leave a `false`-like `None` entry, and
  `filter(Boolean)` then drops it.

## Model

| member | source | states |
|---|---|---|
| TableauId.SanitizeChar | index.js:15-25 | what the replace chain turns one character into is never empty and is a legal id; it is the character itself exactly when that character is a letter, digit or underscore |
| TableauId.ChainIsPerChar | index.js:15-25 | the eight replaces in source order equal replacing each character on its own (space → `_`, `"` → `_doublequote_`, `,` → `_comma_`, `=` → `_equal_`, `/` → `_fslash_`, `-` → `_dash_`, `.` → `_dot_`, anything else outside `[A-Za-z0-9_]` → `_`) |
| TableauId.Alphabet | index.js:15-25 | every sanitised string contains only letters, digits and underscores |
| TableauId.FixedPoints | index.js:15-25 | sanitising leaves a string unchanged if and only if it is already a legal id |
| TableauId.Idempotent | index.js:15-25 | sanitising twice gives what sanitising once gives |
| TableauId.Concatenation | index.js:15-25 | sanitising distributes over concatenation, and the empty string stays empty |
| TableauId.NeverShorter | index.js:15-25 | a sanitised string is at least as long as its input |
| TableauId.SpacedWords | index.js:15-25 | two legal ids joined by a space become the same ids joined by an underscore |
| TableauId.DueDate | index.js:15-25 | a field named "Due Date" gets the column id "Due_Date" |
| TableauId.ApplyOnChar | index.js:16-23 | a table of single-character replaces whose patterns are all outside `[A-Za-z0-9_]` and whose replacements are all legal ids, followed by the catch-all, maps a character to its first matching replacement, or else to itself or `_` (without those conditions a later replace could rewrite an earlier one's output) |
| TableauId.ApplyAppend | index.js:16-23 | each stage of the chain distributes over concatenation |
| TableauId.ApplyFixesIds | index.js:16-23 | a chain whose patterns are not id characters leaves a legal id alone |
| TableauId.ChainOnChar | index.js:15-25 | the chain on one character is `SanitizeChar` of it |
| TableauId.SanitizedIsId | index.js:15-25 | the per-character reference definition yields only id characters |
| TableauId.SanitizedFixesIds | index.js:15-25 | the reference definition leaves legal ids alone |
| TableauId.SanitizedLength | index.js:15-25 | the reference definition never shortens |
| TableauId.ReplaceAllAppend | index.js:16-22 | one global single-character replace distributes over concatenation |
| TableauId.ReplaceDisallowedAppend | index.js:23 | the catch-all replace distributes over concatenation |
| TableauId.ReplaceAllAbsent | index.js:16-22 | a replace whose character does not occur changes nothing |
| TableauId.ReplaceDisallowedOfId | index.js:23 | the catch-all replace leaves a legal id alone |
| TableauId.ReplaceAllSingle | index.js:16-22 | a replace on a one-character string gives the replacement or the character |
| ColumnTypes.ColumnType | index.js:28-59 | `checkbox` is the only bool type and `date` the only date type; `createdTime`, `lastModifiedTime` and `dateTime` are exactly the datetime types; `number`, `currency` and `percent` exactly the float types; `count`, `rating` and `duration` exactly the int types; every other type is a string |
| ColumnTypes.MeasureFields | index.js:128-134 | a field's column gets the measure role exactly when its field type is one of the float types (`number`, `currency`, `percent`) or int types (`count`, `rating`, `duration`), and the dimension role for every other type |
| JsValues.Emails | index.js:69 | mapping `e => e.email` over an array throws exactly when some element is undefined or null; otherwise it keeps the length and each element's `email` |
| JsValues.Split | index.js:69 | splitting a text on a separator gives at least one part, and no part contains the separator |
| JsValues.SplitJoin | index.js:69 | joining a non-empty list of parts that do not contain the separator and splitting the result again gives the parts back |
| JsValues.SplitNoSep | index.js:69 | a text without the separator splits into itself alone |
| JsValues.SplitAfterPart | index.js:69 | splitting a part, the separator and a rest gives the part followed by the rest's split |
| Coercion.Coerce | index.js:62-79 | an undefined raw value passes through unchanged; missing field metadata throws; a checkbox gives true only for the value `true`; the three single-collaborator types read `.email`; `multipleCollaborators` succeeds exactly on an array none of whose elements is nullish, and gives the emails joined with `,`; every other type throws exactly on null and otherwise gives the value's text |
| Coercion.Collaborator | index.js:67 | a collaborator object's `.email` is its email |
| Coercion.CollaboratorList | index.js:68-69 | a multiple-collaborator value coerces to its emails joined with commas |
| Coercion.CollaboratorListRoundTrip | index.js:68-69 | for a non-empty list of emails none of which contains a comma, splitting that text on commas gives the emails back |
| Coercion.EmptyListIsAmbiguous | index.js:68-69 | the empty list does not round-trip: no collaborators and one collaborator with an empty email both coerce to the empty text, which splits into one empty part |
| Coercion.CheckboxIsStrict | index.js:72-73 | a checkbox holding the number 1 or the string "true" coerces to false; only `true` gives true |
| Schema.DescribeTable | index.js:119-154 | one pass of the table loop gives the table's descriptor, and replaces the table's side-table entry with its kept fields by name |
| Schema.GetSchema | index.js:119-155 | one descriptor per table, in order, each the table's descriptor; the side table is the one the tables fill in order |
| Schema.TableShape | index.js:119-154 | the descriptor's id is the sanitised table name and its alias the table name; it has one column per kept field, then the record-id column with the sanitised record-id field name and type string; each field column has the sanitised field name as id, the field name as alias and description, the mapped type and the role that follows from it |
| Schema.ColumnsFromKeptFields | index.js:123-153 | every column but the last is the column of a field whose type is not excluded, and every such field has its column |
| Schema.FieldColumnsThen | index.js:123-153 | the same two directions for the field columns followed by any last column |
| Schema.KeptFieldsHaveColumns | index.js:123-140 | every field that is not excluded has its column among the field columns |
| Schema.ColumnOfField | index.js:123-153 | a kept field's column sits among the field columns, before the record-id column |
| Schema.NoExcludedColumn | index.js:125 | when field names are distinct, no field column describes a field of an excluded type |
| Schema.IdsAreLegal | index.js:130-150 | the table id and every column id of a descriptor are legal ids |
| Schema.KeptFieldsAppend | index.js:123-153 | filtering out excluded fields distributes over concatenation, so field order is kept |
| Schema.KeptFieldsMembers | index.js:123-153 | the kept fields are exactly the fields of a type that is not excluded, and there are at most as many |
| Schema.KeptFieldsAll | index.js:123-153 | when no field is excluded, every field is kept |
| Schema.FieldTableContents | index.js:120-127 | a table's side-table entry holds exactly the names of its kept fields, and each name maps to a kept field of that name |
| Schema.FieldTableFinds | index.js:127 | when field names are distinct, each kept field is found under its own name |
| Schema.SideTableContents | index.js:120-127 | a table whose name no later table shares finds its own entry in the side table |
| Schema.SideTableKeys | index.js:120 | the side table has an entry exactly for each table name |
| Rows.RowOfSnoc | index.js:191-208 | one more column assigns its cell over the row so far |
| Rows.MaterializeRow | index.js:188-208 | the inner loop builds the record's row: every column assigned in order, each cell by the rule stated for `RowCell`, a later column of the same id overwriting |
| Rows.GetData | index.js:176-212 | one row per record, in order, each the record's row under the table's side-table entry |
| Rows.RowKeys | index.js:191-208 | a row has exactly one key per distinct column id |
| Rows.RowCell | index.js:191-208 | the cell of a column that no later column shares its id with is that column's value: the record's id for the record-id column; undefined when the table has no side-table entry (reading its metadata throws); otherwise the value the record holds under the column description, coerced with the metadata stored under that name, or undefined when coercion throws |
| Connector.SchemaThenData | index.js:119-212 | for a table whose name is unique, whose field names are distinct and whose column ids are distinct, each kept field's cell in every row is the field's own value coerced with its own metadata, and the record-id cell is the record's id |
| Connector.RecordIdShadowsField | index.js:130-195 | a field named " airtableRecordId" sanitises to the record-id column's id, so its cell shows the record's id instead of its own value |
| Connector.PlainNamesPassThrough | index.js:119-154 | a table whose names are already legal ids and none of whose fields is excluded keeps its names as ids: one column per field, in order, with the mapped type, then the record-id column |

## Left out

- Network calls are not modelled: the Airtable metadata API, the records
  API client, paging, the list of bases and their sort. Metadata and
  records enter as parameters.
- Tableau's own side is not modelled: the form, `tableau.connectionData`
  and its JSON round trip, the callbacks, `appendRows` and
  `abortWithError`. The handlers' results are returned instead.
- `Number.prototype.toString` formatting is not modelled: a number value
  carries its own text.
- JavaScript strings are UTF-16 code-unit sequences; here they are
  sequences of `char`, and surrogate pairs are not modelled.
- Property reads and writes that reach `Object.prototype` are not
  modelled. Here every map holds exactly what was stored, under its own key.
  - Reads: in the source, a field or table named like an inherited property
    (say `constructor`) would find that property.
  - Writes: a table named `__proto__` makes `TABLE_FIELD_METADATA[name] = {}`
    (index.js:120) set the object's prototype instead of adding a key. Its
    entry then never reaches `JSON.stringify`, and every data cell of that
    table would be undefined.
  - Writes: a field whose id is `__proto__` adds no key to the row at
    index.js:207.
- Logging, the version banner and the UI wiring are not modelled.
- Errors that abort a whole handler are not modelled: a failed fetch and
  the final `catch` in either handler.
- JsValues.Split: models only the one-character separator that
  `CollaboratorListRoundTrip` needs, not general `String.prototype.split`.
- Coercion.CollaboratorListRoundTrip: holds only for a non-empty list,
  because the coerced text of `[]` and of `[""]` is the same empty string
  (`EmptyListIsAmbiguous`).

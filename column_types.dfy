/**
 * The type mapper: an Airtable field type (a string) becomes one of Tableau's
 * data types, and the data type decides the column's role.
 */
module ColumnTypes {

  /** Tableau's data types, as used by the connector. */
  datatype DataType = Bool | Date | DateTime | Float | Int | String

  /** Tableau's column roles. */
  datatype Role = Dimension | Measure

  /** The data types whose columns are measures. */
  const METRIC_TYPES: seq<DataType> := [Int, Float]

  /** The Airtable field types whose columns hold a date and a time. */
  predicate IsDateTimeType(fieldType: string) {
    fieldType == "createdTime" || fieldType == "lastModifiedTime" || fieldType == "dateTime"
  }

  /** The Airtable field types whose columns hold fractional numbers. */
  predicate IsFloatType(fieldType: string) {
    fieldType == "number" || fieldType == "currency" || fieldType == "percent"
  }

  /** The Airtable field types whose columns hold whole numbers. */
  predicate IsIntType(fieldType: string) {
    fieldType == "count" || fieldType == "rating" || fieldType == "duration"
  }

  /** Every Airtable field type the mapper names; any other type is text. */
  predicate IsMappedType(fieldType: string) {
    fieldType == "checkbox" || fieldType == "date"
    || IsDateTimeType(fieldType) || IsFloatType(fieldType) || IsIntType(fieldType)
  }

  /** The Tableau data type of a column holding an Airtable field of type `fieldType`. */
  function ColumnType(fieldType: string): (t: DataType)
    ensures t == Bool <==> fieldType == "checkbox"
    ensures t == Date <==> fieldType == "date"
    ensures t == DateTime <==> IsDateTimeType(fieldType)
    ensures t == Float <==> IsFloatType(fieldType)
    ensures t == Int <==> IsIntType(fieldType)
    ensures t == String <==> !IsMappedType(fieldType)
  {
    match fieldType
    case "checkbox" => Bool
    case "createdTime" => DateTime
    case "lastModifiedTime" => DateTime
    case "date" => Date
    case "dateTime" => DateTime
    case "number" => Float
    case "currency" => Float
    case "percent" => Float
    case "count" => Int
    case "rating" => Int
    case "duration" => Int
    case _ => String
  }

  /** A column is a measure when its data type is a metric type, a dimension otherwise. */
  function RoleOf(t: DataType): Role
  {
    if t in METRIC_TYPES then Measure else Dimension
  }

  /** A field's column is a measure exactly when the field holds numbers. */
  lemma MeasureFields(fieldType: string)
    ensures RoleOf(ColumnType(fieldType)) == Measure
        <==> IsFloatType(fieldType) || IsIntType(fieldType)
  {
  }
}

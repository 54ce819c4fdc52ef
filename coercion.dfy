/**
 * Value coercion: an Airtable cell value, with the metadata of its field,
 * becomes the value handed to Tableau.  Undefined passes through, collaborator
 * fields are projected to their email, checkboxes become strict booleans, and
 * everything else is converted with `toString`.  A thrown TypeError is a
 * `Failure`.
 */
module Coercion {
  import opened Wrappers
  import opened JsValues
  import opened Airtable

  /** The field types whose value is a single collaborator object. */
  const COLLABORATOR_FIELD_TYPES: set<string> := {"singleCollaborator", "createdBy", "lastModifiedBy"}

  /** The field types coercion treats specially; the rest are stringified. */
  const SPECIAL_FIELD_TYPES: set<string> :=
    COLLABORATOR_FIELD_TYPES + {"multipleCollaborators", "checkbox"}

  /** The texts of collaborators' emails, as `join` sees them. */
  function EmailTexts(emails: seq<Value>): seq<string>
  {
    seq(|emails|, i requires 0 <= i < |emails| => Text(emails[i]))
  }

  /**
   * The value Tableau receives for the raw value `raw` of a field whose
   * metadata is `meta` (None when the side table has no entry for the field).
   */
  function Coerce(raw: Value, meta: Option<FieldMeta>): (r: Result<Value, TypeError>)
    ensures raw == Undefined ==> r == Success(Undefined)
    ensures raw != Undefined && meta.None? ==> r.Failure?
    ensures raw != Undefined && meta.Some? && meta.value.fieldType == "checkbox"
        ==> r == Success(Boolean(raw == Boolean(true)))
    ensures raw != Undefined && meta.Some? && meta.value.fieldType in COLLABORATOR_FIELD_TYPES
        ==> r == Email(raw)
    ensures raw != Undefined && meta.Some? && meta.value.fieldType == "multipleCollaborators"
        ==> (r.Success? <==> raw.Array? && Emails(raw.items).Success?)
    ensures raw.Array? && meta.Some? && meta.value.fieldType == "multipleCollaborators" && r.Success?
        ==> r.value == Str(Join(EmailTexts(Emails(raw.items).value), ","))
    ensures raw != Undefined && meta.Some? && meta.value.fieldType !in SPECIAL_FIELD_TYPES
        ==> (r.Failure? <==> raw == Null) && (r.Success? ==> r.value == Str(Text(raw)))
  {
    if raw == Undefined then Success(Undefined)
    else match meta
      case None => Failure(ReadOfNullish("type"))
      case Some(m) =>
        match m.fieldType
        case "singleCollaborator" => Email(raw)
        case "multipleCollaborators" =>
          if raw == Null then Failure(ReadOfNullish("map"))
          else if !raw.Array? then Failure(NotAFunction("map"))
          else (match Emails(raw.items)
            case Failure(e) => Failure(e)
            case Success(emails) => Success(Str(Join(EmailTexts(emails), ","))))
        case "createdBy" => Email(raw)
        case "checkbox" => Success(Boolean(raw == Boolean(true)))
        case "lastModifiedBy" => Email(raw)
        case _ =>
          match ToString(raw)
          case Failure(e) => Failure(e)
          case Success(s) => Success(Str(s))
  }

  /** A collaborator object as Airtable returns it, reduced to its email. */
  function Collaborator(email: string): (v: Value)
    ensures Email(v) == Success(Str(email))
  {
    Object(map["email" := Str(email)])
  }

  /** The value of a multiple-collaborator field listing the collaborators with these emails. */
  function Collaborators(emails: seq<string>): Value
  {
    Array(seq(|emails|, i requires 0 <= i < |emails| => Collaborator(emails[i])))
  }

  /**
   * A list of collaborators coerces to their emails joined by ",", in order;
   * an empty list gives "".
   */
  lemma CollaboratorList(emails: seq<string>, m: FieldMeta)
    requires m.fieldType == "multipleCollaborators"
    ensures Coerce(Collaborators(emails), Some(m)) == Success(Str(Join(emails, ",")))
  {
    var items := Collaborators(emails).items;
    assert forall i :: 0 <= i < |items| ==> !items[i].IsNullish();
    var got := Emails(items);
    assert got.Success?;
    forall i | 0 <= i < |items| ensures got.value[i] == Str(emails[i]) {
      assert Email(items[i]) == Success(Str(emails[i]));
    }
    assert EmailTexts(got.value) == emails;
  }

  /**
   * When no email contains a comma, splitting the coerced list at "," gives
   * the emails back in their order.
   */
  lemma CollaboratorListRoundTrip(emails: seq<string>, m: FieldMeta)
    requires m.fieldType == "multipleCollaborators"
    requires |emails| > 0 && forall i :: 0 <= i < |emails| ==> ',' !in emails[i]
    ensures var r := Coerce(Collaborators(emails), Some(m));
            r.Success? && r.value.Str? && Split(r.value.s, ',') == emails
  {
    CollaboratorList(emails, m);
    SplitJoin(emails, ',');
  }

  /**
   * The round trip needs a non-empty list: no collaborators and a single
   * collaborator with an empty email both coerce to the empty text, which
   * splits into one empty part.
   */
  lemma EmptyListIsAmbiguous(m: FieldMeta)
    requires m.fieldType == "multipleCollaborators"
    ensures Coerce(Collaborators([]), Some(m)) == Success(Str(""))
    ensures Coerce(Collaborators([""]), Some(m)) == Success(Str(""))
    ensures Split("", ',') == [""]
  {
  }

  /** A truthy checkbox value that is not strictly `true`, such as the number 1, coerces to false. */
  lemma CheckboxIsStrict(m: FieldMeta)
    requires m.fieldType == "checkbox"
    ensures Coerce(Number("1"), Some(m)) == Success(Boolean(false))
    ensures Coerce(Str("true"), Some(m)) == Success(Boolean(false))
    ensures Coerce(Boolean(true), Some(m)) == Success(Boolean(true))
  {
  }
}

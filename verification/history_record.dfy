/**
  The `HistoryRecord` dataclass and its two conversions: `asdict`, which turns
  a record into the JSON object written to its file, and `HistoryRecord(**data)`,
  which builds a record back from the object read from a file.
 */
module HistoryRecords {
  import opened Wrappers
  import opened JsonValues

  /** The free-form `metadata` mapping. */
  type Metadata = map<string, Json>

  /** One analysis job. `status` is free text ("running", "completed",
      "failed" by convention); the store never checks it. */
  datatype HistoryRecord = HistoryRecord(
    id: string,
    query: string,
    status: string,
    createdAt: string,
    updatedAt: string,
    reportFilePath: Option<string>,
    reportHtml: Option<string>,
    errorMessage: Option<string>,
    metadata: Option<Metadata>)

  /** The dataclass fields, in declaration order. */
  datatype Field =
    | Id | Query | Status | CreatedAt | UpdatedAt
    | ReportFilePath | ReportHtml | ErrorMessage | MetadataField

  /** The Python attribute name of a field, which is also its JSON key. */
  function FieldName(f: Field): string
  {
    match f
    case Id => "id"
    case Query => "query"
    case Status => "status"
    case CreatedAt => "created_at"
    case UpdatedAt => "updated_at"
    case ReportFilePath => "report_file_path"
    case ReportHtml => "report_html"
    case ErrorMessage => "error_message"
    case MetadataField => "metadata"
  }

  /** Fields without a default: `HistoryRecord(**data)` needs them. */
  predicate IsRequired(f: Field)
  {
    f in {Id, Query, Status, CreatedAt, UpdatedAt}
  }

  const FieldNames: set<string> :=
    {"id", "query", "status", "created_at", "updated_at",
     "report_file_path", "report_html", "error_message", "metadata"}

  /** `getattr(record, name)` for a field name; `None` stands for the
      `AttributeError` raised for any other name. */
  function FieldNamed(name: string): (r: Option<Field>)
    ensures r.Some? <==> name in FieldNames
    ensures r.Some? ==> FieldName(r.value) == name
  {
    match name
    case "id" => Some(Id)
    case "query" => Some(Query)
    case "status" => Some(Status)
    case "created_at" => Some(CreatedAt)
    case "updated_at" => Some(UpdatedAt)
    case "report_file_path" => Some(ReportFilePath)
    case "report_html" => Some(ReportHtml)
    case "error_message" => Some(ErrorMessage)
    case "metadata" => Some(MetadataField)
    case _ => None
  }

  lemma FieldNamesAreDistinct(f: Field, g: Field)
    ensures FieldName(f) == FieldName(g) <==> f == g
    ensures FieldName(f) in FieldNames
  {
  }

  function TextOrNull(v: Option<string>): Json
  {
    match v
    case None => Null
    case Some(s) => Text(s)
  }

  /** The value of a field as `asdict` puts it into JSON (`None` becomes `null`). */
  function Attr(r: HistoryRecord, f: Field): Json
  {
    match f
    case Id => Text(r.id)
    case Query => Text(r.query)
    case Status => Text(r.status)
    case CreatedAt => Text(r.createdAt)
    case UpdatedAt => Text(r.updatedAt)
    case ReportFilePath => TextOrNull(r.reportFilePath)
    case ReportHtml => TextOrNull(r.reportHtml)
    case ErrorMessage => TextOrNull(r.errorMessage)
    case MetadataField =>
      match r.metadata
      case None => Null
      case Some(m) => Object(m)
  }

  /** `asdict(record)`: one key per field, holding that field's value. */
  function AsDict(r: HistoryRecord): (d: map<string, Json>)
    ensures d.Keys == FieldNames
    ensures forall f: Field :: d[FieldName(f)] == Attr(r, f)
  {
    var d := map[
      "id" := Attr(r, Id),
      "query" := Attr(r, Query),
      "status" := Attr(r, Status),
      "created_at" := Attr(r, CreatedAt),
      "updated_at" := Attr(r, UpdatedAt),
      "report_file_path" := Attr(r, ReportFilePath),
      "report_html" := Attr(r, ReportHtml),
      "error_message" := Attr(r, ErrorMessage),
      "metadata" := Attr(r, MetadataField)];
    assert forall f: Field :: d[FieldName(f)] == Attr(r, f) by {
      forall f: Field ensures FieldName(f) in d && d[FieldName(f)] == Attr(r, f) {
        if f.Id? {
        } else if f.Query? {
        } else if f.Status? {
        } else if f.CreatedAt? {
        } else if f.UpdatedAt? {
        } else if f.ReportFilePath? {
        } else if f.ReportHtml? {
        } else if f.ErrorMessage? {
        }
      }
    }
    d
  }

  /** What a field of this model accepts from JSON: text for a required field,
      text or `null` for an optional text field, an object or `null` for `metadata`. */
  predicate Admissible(f: Field, v: Json)
  {
    if IsRequired(f) then v.Text?
    else if f == MetadataField then v.Null? || v.Object?
    else v.Null? || v.Text?
  }

  /** One field's demand on an object: a required field is present, and a
      present value fits the field. */
  predicate FieldFits(d: map<string, Json>, f: Field)
  {
    && (IsRequired(f) ==> FieldName(f) in d)
    && (FieldName(f) in d ==> Admissible(f, d[FieldName(f)]))
  }

  /** Reference definition of the objects `HistoryRecord(**data)` accepts: every
      key names a field, and every field's demand is met. */
  ghost predicate IsRecordDict(d: map<string, Json>)
  {
    d.Keys <= FieldNames && forall f: Field :: FieldFits(d, f)
  }

  lemma IsRecordDictByField(d: map<string, Json>)
    ensures IsRecordDict(d) <==>
      && d.Keys <= FieldNames
      && FieldFits(d, Id) && FieldFits(d, Query) && FieldFits(d, Status)
      && FieldFits(d, CreatedAt) && FieldFits(d, UpdatedAt)
      && FieldFits(d, ReportFilePath) && FieldFits(d, ReportHtml)
      && FieldFits(d, ErrorMessage) && FieldFits(d, MetadataField)
  {
    if && FieldFits(d, Id) && FieldFits(d, Query) && FieldFits(d, Status)
       && FieldFits(d, CreatedAt) && FieldFits(d, UpdatedAt)
       && FieldFits(d, ReportFilePath) && FieldFits(d, ReportHtml)
       && FieldFits(d, ErrorMessage) && FieldFits(d, MetadataField)
    {
      forall f: Field ensures FieldFits(d, f) {
        match f
        case Id =>
        case Query =>
        case Status =>
        case CreatedAt =>
        case UpdatedAt =>
        case ReportFilePath =>
        case ReportHtml =>
        case ErrorMessage =>
        case MetadataField =>
      }
    }
  }

  /** Two records whose fields all hold the same values are the same record. */
  lemma AttrsDetermineRecord(a: HistoryRecord, b: HistoryRecord)
    requires forall f: Field :: Attr(a, f) == Attr(b, f)
    ensures a == b
  {
    assert Attr(a, Id) == Attr(b, Id);
    assert Attr(a, Query) == Attr(b, Query);
    assert Attr(a, Status) == Attr(b, Status);
    assert Attr(a, CreatedAt) == Attr(b, CreatedAt);
    assert Attr(a, UpdatedAt) == Attr(b, UpdatedAt);
    assert Attr(a, ReportFilePath) == Attr(b, ReportFilePath);
    assert Attr(a, ReportHtml) == Attr(b, ReportHtml);
    assert Attr(a, ErrorMessage) == Attr(b, ErrorMessage);
    assert Attr(a, MetadataField) == Attr(b, MetadataField);
  }

  function RequiredText(d: map<string, Json>, name: string): Option<string>
  {
    if name in d && d[name].Text? then Some(d[name].s) else None
  }

  function OptionalText(d: map<string, Json>, name: string): Option<Option<string>>
  {
    if name !in d then Some(None)
    else match d[name]
      case Null => Some(None)
      case Text(s) => Some(Some(s))
      case _ => None
  }

  function OptionalMetadata(d: map<string, Json>): Option<Option<Metadata>>
  {
    if "metadata" !in d then Some(None)
    else match d["metadata"]
      case Null => Some(None)
      case Object(m) => Some(Some(m))
      case _ => None
  }

  /** `HistoryRecord(**data)`: fails on an unexpected key or a missing required
      field; an absent optional field takes its default `None`. */
  function FromDict(d: map<string, Json>): (r: Option<HistoryRecord>)
    ensures r.Some? <==> IsRecordDict(d)
  {
    IsRecordDictByField(d);
    if !(d.Keys <= FieldNames) then None
    else
      var id :- RequiredText(d, "id");
      var query :- RequiredText(d, "query");
      var status :- RequiredText(d, "status");
      var createdAt :- RequiredText(d, "created_at");
      var updatedAt :- RequiredText(d, "updated_at");
      var reportFilePath :- OptionalText(d, "report_file_path");
      var reportHtml :- OptionalText(d, "report_html");
      var errorMessage :- OptionalText(d, "error_message");
      var metadata :- OptionalMetadata(d);
      Some(HistoryRecord(id, query, status, createdAt, updatedAt,
                         reportFilePath, reportHtml, errorMessage, metadata))
  }

  /** Every field of the built record holds the object's value under the
      field's name, or `null` (the default) when the name is absent. */
  lemma FromDictFields(d: map<string, Json>)
    requires FromDict(d).Some?
    ensures forall f: Field ::
      Attr(FromDict(d).value, f) == (if FieldName(f) in d then d[FieldName(f)] else Null)
  {
    var r := FromDict(d).value;
    forall f: Field ensures Attr(r, f) == (if FieldName(f) in d then d[FieldName(f)] else Null) {
      if f.Id? {
      } else if f.Query? {
      } else if f.Status? {
      } else if f.CreatedAt? {
      } else if f.UpdatedAt? {
      } else if f.ReportFilePath? {
      } else if f.ReportHtml? {
      } else if f.ErrorMessage? {
      }
    }
  }

  lemma AsDictRoundTrip(r: HistoryRecord)
    ensures FromDict(AsDict(r)) == Some(r)
  {
    var d := AsDict(r);
    forall f: Field ensures FieldFits(d, f) {
      FieldNamesAreDistinct(f, f);
      assert d[FieldName(f)] == Attr(r, f);
    }
    IsRecordDictByField(d);
    var r' := FromDict(d).value;
    FromDictFields(d);
    forall f: Field ensures Attr(r', f) == Attr(r, f) {
      FieldNamesAreDistinct(f, f);
      assert d[FieldName(f)] == Attr(r, f);
    }
    AttrsDetermineRecord(r', r);
  }

  /** The document written for a record: `json.dump(asdict(record))`. */
  function Encode(r: HistoryRecord): (doc: Json)
    ensures Decode(doc) == Some(r)
  {
    AsDictRoundTrip(r);
    Object(AsDict(r))
  }

  /** The record read back from a document: `HistoryRecord(**json.load(f))`;
      a document that is not an object fails like a malformed one. */
  function Decode(doc: Json): (r: Option<HistoryRecord>)
    ensures r.Some? <==> doc.Object? && IsRecordDict(doc.members)
  {
    match doc
    case Object(d) => FromDict(d)
    case _ => None
  }

  /** Distinct records are written as distinct documents. */
  lemma EncodeInjective(a: HistoryRecord, b: HistoryRecord)
    requires Encode(a) == Encode(b)
    ensures a == b
  {
    assert Decode(Encode(a)) == Some(a);
  }
}

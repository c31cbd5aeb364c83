/**
  Event records and the `EventResponse` shape the API exposes for them:
  `EventResponse.from_event`, which turns the stored file keys into CDN URLs,
  and the `to_dict` / `from_dict` conversions.
*/
module EventResponses {
  import opened Wrappers

  /** An event row, with the fields `from_event` reads. The three file keys are nullable. */
  datatype Event = Event(
    id: int,
    name: string,
    initialDate: string,
    finalDate: string,
    s3FolderName: string,
    summaryFilename: Option<string>,
    mergedPapersFilename: Option<string>,
    analFilename: Option<string>)

  /** The response record: the same scalars, and a CDN URL (or null) per file key. */
  datatype EventResponse = EventResponse(
    id: int,
    name: string,
    initialDate: string,
    finalDate: string,
    s3FolderName: string,
    summaryFilename: Option<string>,
    mergedPapersFilename: Option<string>,
    analFilename: Option<string>)

  /** The three artifacts an event records a file key for. */
  datatype FileField = SummaryFile | MergedPapersFile | AnalFile

  function StoredFile(e: Event, f: FileField): Option<string>
  {
    match f
    case SummaryFile => e.summaryFilename
    case MergedPapersFile => e.mergedPapersFilename
    case AnalFile => e.analFilename
  }

  /** The event with the key of artifact f replaced by v. */
  function WithStoredFile(e: Event, f: FileField, v: Option<string>): (e': Event)
    ensures StoredFile(e', f) == v
    ensures forall g :: g != f ==> StoredFile(e', g) == StoredFile(e, g)
    ensures e'.id == e.id && e'.name == e.name && e'.initialDate == e.initialDate
    ensures e'.finalDate == e.finalDate && e'.s3FolderName == e.s3FolderName
  {
    match f
    case SummaryFile => e.(summaryFilename := v)
    case MergedPapersFile => e.(mergedPapersFilename := v)
    case AnalFile => e.(analFilename := v)
  }

  function ResponseFile(r: EventResponse, f: FileField): Option<string>
  {
    match f
    case SummaryFile => r.summaryFilename
    case MergedPapersFile => r.mergedPapersFilename
    case AnalFile => r.analFilename
  }

  /** Python truthiness of a nullable string: present and non-empty. */
  predicate Truthy(v: Option<string>)
  {
    v.Some? && v.value != []
  }

  /** The CDN URL of a stored key, or null when the key is null or empty. */
  function CdnUrl(domain: string, stored: Option<string>): (url: Option<string>)
    ensures url.Some? <==> Truthy(stored)
    ensures url.Some? ==> domain <= url.value && url.value[|domain|..] == stored.value
  {
    if Truthy(stored) then Some(domain + stored.value) else None
  }

  /** The stored key behind a URL that starts with the CDN domain. */
  function KeyOfUrl(domain: string, url: Option<string>): Option<string>
  {
    match url
    case None => None
    case Some(u) => if domain <= u then Some(u[|domain|..]) else None
  }

  /**
    `EventResponse.from_event`, with `settings.CLOUDFRONT_DOMAIN` as the
    parameter `domain`: the scalars are copied, and each file key that is set
    and non-empty becomes the domain followed by the key.
  */
  function FromEvent(domain: string, e: Event): (r: EventResponse)
    ensures r.id == e.id && r.name == e.name && r.initialDate == e.initialDate
    ensures r.finalDate == e.finalDate && r.s3FolderName == e.s3FolderName
    ensures forall f :: ResponseFile(r, f).Some? <==> Truthy(StoredFile(e, f))
    ensures forall f :: Truthy(StoredFile(e, f)) ==>
      ResponseFile(r, f).Some? && domain <= ResponseFile(r, f).value &&
      ResponseFile(r, f).value[|domain|..] == StoredFile(e, f).value
  {
    EventResponse(
      e.id, e.name, e.initialDate, e.finalDate, e.s3FolderName,
      CdnUrl(domain, e.summaryFilename),
      CdnUrl(domain, e.mergedPapersFilename),
      CdnUrl(domain, e.analFilename))
  }

  /** Stripping the domain from a response URL gives back the stored key (nothing for a falsy key). */
  lemma {:induction false} FromEventKeyRecoverable(domain: string, e: Event, f: FileField)
    ensures KeyOfUrl(domain, ResponseFile(FromEvent(domain, e), f)) ==
      if Truthy(StoredFile(e, f)) then StoredFile(e, f) else None
  {
    var url := ResponseFile(FromEvent(domain, e), f);
    if url.Some? {
      assert url.value == domain + StoredFile(e, f).value;
    }
  }

  /** Changing the key of one artifact changes only that artifact's URL in the response. */
  lemma FromEventFieldsIndependent(domain: string, e: Event, f: FileField, v: Option<string>)
    ensures var before := FromEvent(domain, e);
      var after := FromEvent(domain, WithStoredFile(e, f, v));
      after.id == before.id && after.name == before.name &&
      after.initialDate == before.initialDate && after.finalDate == before.finalDate &&
      after.s3FolderName == before.s3FolderName &&
      ResponseFile(after, f) == CdnUrl(domain, v) &&
      forall g :: g != f ==> ResponseFile(after, g) == ResponseFile(before, g)
  {
  }

  // ---------------------------------------------------------------------------
  // to_dict / from_dict
  // ---------------------------------------------------------------------------

  /** A dictionary value: an int, a str or None. */
  datatype Value = IntValue(i: int) | StrValue(s: string) | NoneValue

  type Dict = map<string, Value>

  /** The model's keys, in declaration order. */
  const FIELDS: seq<string> := [
    "id", "name", "initial_date", "final_date", "s3_folder_name",
    "summary_filename", "merged_papers_filename", "anal_filename"]

  function OptionalValue(v: Option<string>): Value
  {
    match v
    case None => NoneValue
    case Some(s) => StrValue(s)
  }

  /** `to_dict`: one entry per field, keyed by the field's name. */
  function ToDict(r: EventResponse): Dict
  {
    map[
      "id" := IntValue(r.id),
      "name" := StrValue(r.name),
      "initial_date" := StrValue(r.initialDate),
      "final_date" := StrValue(r.finalDate),
      "s3_folder_name" := StrValue(r.s3FolderName),
      "summary_filename" := OptionalValue(r.summaryFilename),
      "merged_papers_filename" := OptionalValue(r.mergedPapersFilename),
      "anal_filename" := OptionalValue(r.analFilename)]
  }

  /** What a field accepts: `id` an int, the other scalars a string, the file keys a string or None. */
  datatype Kind = IntKind | StrKind | OptionalStrKind

  /** Whether the dictionary holds an acceptable value of the given kind for a field; an optional field may be absent. */
  predicate FieldValid(d: Dict, key: string, kind: Kind)
  {
    match kind
    case IntKind => key in d && d[key].IntValue?
    case StrKind => key in d && d[key].StrValue?
    case OptionalStrKind => key !in d || !d[key].IntValue?
  }

  /** Every field holds an acceptable value. */
  predicate Accepted(d: Dict)
  {
    FieldValid(d, "id", IntKind) && FieldValid(d, "name", StrKind) &&
    FieldValid(d, "initial_date", StrKind) && FieldValid(d, "final_date", StrKind) &&
    FieldValid(d, "s3_folder_name", StrKind) &&
    FieldValid(d, "summary_filename", OptionalStrKind) &&
    FieldValid(d, "merged_papers_filename", OptionalStrKind) &&
    FieldValid(d, "anal_filename", OptionalStrKind)
  }

  /** The fields whose value is missing or mistyped, in declaration order. */
  function InvalidFields(d: Dict): (bad: seq<string>)
    ensures bad == [] <==> Accepted(d)
  {
    (if FieldValid(d, "id", IntKind) then [] else ["id"]) +
    (if FieldValid(d, "name", StrKind) then [] else ["name"]) +
    (if FieldValid(d, "initial_date", StrKind) then [] else ["initial_date"]) +
    (if FieldValid(d, "final_date", StrKind) then [] else ["final_date"]) +
    (if FieldValid(d, "s3_folder_name", StrKind) then [] else ["s3_folder_name"]) +
    (if FieldValid(d, "summary_filename", OptionalStrKind) then [] else ["summary_filename"]) +
    (if FieldValid(d, "merged_papers_filename", OptionalStrKind) then [] else ["merged_papers_filename"]) +
    (if FieldValid(d, "anal_filename", OptionalStrKind) then [] else ["anal_filename"])
  }

  /** An optional field's value: absent and None read as None. */
  function OptionalField(d: Dict, key: string): Option<string>
  {
    if key in d && d[key].StrValue? then Some(d[key].s) else None
  }

  /**
    `from_dict`: builds the record from the fields it names (other keys are
    ignored), or fails listing the fields whose value is missing or mistyped.
  */
  function FromDict(d: Dict): (r: Result<EventResponse, seq<string>>)
    ensures r.Ok? <==> Accepted(d)
    ensures r.Err? ==> r.error == InvalidFields(d) && r.error != []
  {
    if Accepted(d) then
      Ok(EventResponse(
        d["id"].i, d["name"].s, d["initial_date"].s, d["final_date"].s, d["s3_folder_name"].s,
        OptionalField(d, "summary_filename"),
        OptionalField(d, "merged_papers_filename"),
        OptionalField(d, "anal_filename")))
    else
      Err(InvalidFields(d))
  }

  /** `to_dict` has exactly the model's field names as keys. */
  lemma ToDictKeys(r: EventResponse)
    ensures forall k :: k in ToDict(r) <==> k in FIELDS
  {
  }

  /** The eight entries of `to_dict`. */
  lemma ToDictEntries(r: EventResponse)
    ensures var d := ToDict(r);
      d["id"] == IntValue(r.id) && d["name"] == StrValue(r.name) &&
      d["initial_date"] == StrValue(r.initialDate) && d["final_date"] == StrValue(r.finalDate) &&
      d["s3_folder_name"] == StrValue(r.s3FolderName) &&
      d["summary_filename"] == OptionalValue(r.summaryFilename) &&
      d["merged_papers_filename"] == OptionalValue(r.mergedPapersFilename) &&
      d["anal_filename"] == OptionalValue(r.analFilename)
  {
  }

  /** `from_dict(to_dict(r)) == r`. */
  lemma DictRoundTrip(r: EventResponse)
    ensures FromDict(ToDict(r)) == Ok(r)
  {
    ToDictEntries(r);
  }

  /** A dictionary that `from_dict` accepts is reproduced by `to_dict`, field by field. */
  lemma DictAccepted(d: Dict)
    requires FromDict(d).Ok?
    ensures forall k :: k in FIELDS ==>
      ToDict(FromDict(d).value)[k] == if k in d then d[k] else NoneValue
  {
    ToDictEntries(FromDict(d).value);
  }
}

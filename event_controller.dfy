/**
  The handlers of the events router: the three by-field lookups, creation,
  the paginated listing, and the three PATCH endpoints that produce an
  artifact, store it and record its key on the event.

  The services the handlers delegate to are given by their outcome: a lookup
  is a function from the query string to the events found, `create_event`
  and `get_events` are functions of their arguments, and the summary and
  anal services are the result (or the exception) they return for the call.
*/
module EventController {
  import opened Wrappers
  import opened Http
  import opened EventResponses
  import opened Repositories
  import opened MergedPapers

  // ---------------------------------------------------------------------------
  // Lookups
  // ---------------------------------------------------------------------------

  /** The by-field lookups of `EventService`. */
  datatype EventQueries = EventQueries(
    byName: string -> seq<EventResponse>,
    byInitialDate: string -> seq<EventResponse>,
    byFinalDate: string -> seq<EventResponse>)

  /** The 404 the lookups raise when nothing matches. */
  function EventNotFound(): (e: HttpError)
    ensures e.StatusCode() == NOT_FOUND
  {
    HttpException(NOT_FOUND, "Event not found")
  }

  /** `if not events: raise HTTPException(404, ...)`, else the events with status 200. */
  function FoundOrNotFound(events: seq<EventResponse>): (r: Result<Reply<seq<EventResponse>>, HttpError>)
    ensures r.Ok? <==> events != []
    ensures r.Ok? ==> r.value == Reply(OK, events)
    ensures r.Err? ==> r.error == EventNotFound()
  {
    if events == [] then Err(EventNotFound()) else Ok(Reply(OK, events))
  }

  /** `get_events_by_name`: the events of that name, unchanged, or a 404 when there are none. */
  function GetEventsByName(queries: EventQueries, name: string): (r: Result<Reply<seq<EventResponse>>, HttpError>)
    ensures r.Ok? <==> queries.byName(name) != []
    ensures r.Ok? ==> r.value.status == OK && r.value.body == queries.byName(name)
    ensures r.Err? ==> r.error == HttpException(NOT_FOUND, "Event not found")
  {
    FoundOrNotFound(queries.byName(name))
  }

  /** `get_event_by_initial_date`: the events starting on that date, or a 404 when there are none. */
  function GetEventByInitialDate(queries: EventQueries, initialDate: string): (r: Result<Reply<seq<EventResponse>>, HttpError>)
    ensures r.Ok? <==> queries.byInitialDate(initialDate) != []
    ensures r.Ok? ==> r.value.status == OK && r.value.body == queries.byInitialDate(initialDate)
    ensures r.Err? ==> r.error == HttpException(NOT_FOUND, "Event not found")
  {
    FoundOrNotFound(queries.byInitialDate(initialDate))
  }

  /** `get_event_by_final_date`: the events ending on that date, or a 404 when there are none. */
  function GetEventByFinalDate(queries: EventQueries, finalDate: string): (r: Result<Reply<seq<EventResponse>>, HttpError>)
    ensures r.Ok? <==> queries.byFinalDate(finalDate) != []
    ensures r.Ok? ==> r.value.status == OK && r.value.body == queries.byFinalDate(finalDate)
    ensures r.Err? ==> r.error == HttpException(NOT_FOUND, "Event not found")
  {
    FoundOrNotFound(queries.byFinalDate(finalDate))
  }

  // ---------------------------------------------------------------------------
  // Creation and listing
  // ---------------------------------------------------------------------------

  /** `create_event`: whatever the service creates, answered with status 201. */
  function CreateEvent<D>(create: D -> EventResponse, eventData: D): (r: Reply<EventResponse>)
    ensures r.status == CREATED && r.body == create(eventData)
  {
    Reply(CREATED, create(eventData))
  }

  /** `page: int = Query(default=1, ge=1)`. */
  predicate PageAccepted(page: Option<int>)
  {
    page.None? || 1 <= page.value
  }

  /** `page_size: int = Query(default=10, ge=1, le=100)`. */
  predicate PageSizeAccepted(pageSize: Option<int>)
  {
    pageSize.None? || 1 <= pageSize.value <= 100
  }

  function ValueOr(v: Option<int>, default: int): int
  {
    if v.Some? then v.value else default
  }

  /**
    The framework's handling of the listing's query parameters: the values
    given, or the defaults 1 and 10, when both are within bounds; otherwise a
    validation error naming each parameter out of bounds.
  */
  function PagingParams(page: Option<int>, pageSize: Option<int>): (r: Result<(int, int), HttpError>)
    ensures r.Ok? <==> PageAccepted(page) && PageSizeAccepted(pageSize)
    ensures r.Ok? ==> 1 <= r.value.0 && 1 <= r.value.1 <= 100
    ensures r.Ok? ==> (page.Some? ==> r.value.0 == page.value) && (page.None? ==> r.value.0 == 1)
    ensures r.Ok? ==> (pageSize.Some? ==> r.value.1 == pageSize.value) && (pageSize.None? ==> r.value.1 == 10)
    ensures r.Err? ==> r.error.RequestValidationError? && r.error.StatusCode() == UNPROCESSABLE_ENTITY
    ensures r.Err? ==> r.error.RequestValidationError? && ("page" in r.error.params <==> !PageAccepted(page))
    ensures r.Err? ==> r.error.RequestValidationError? && ("page_size" in r.error.params <==> !PageSizeAccepted(pageSize))
  {
    var invalid := (if PageAccepted(page) then [] else ["page"]) +
                   (if PageSizeAccepted(pageSize) then [] else ["page_size"]);
    if invalid != [] then Err(RequestValidationError(invalid))
    else Ok((ValueOr(page, 1), ValueOr(pageSize, 10)))
  }

  /** `get_events`: the service's page for the accepted parameters, with status 200. */
  function GetEvents<P>(list: (int, int) -> P, page: Option<int>, pageSize: Option<int>): (r: Result<Reply<P>, HttpError>)
    ensures r.Ok? <==> PagingParams(page, pageSize).Ok?
    ensures r.Ok? ==> r.value.status == OK
    ensures r.Ok? ==> r.value.body == list(PagingParams(page, pageSize).value.0, PagingParams(page, pageSize).value.1)
    ensures r.Err? ==> r.error == PagingParams(page, pageSize).error
  {
    match PagingParams(page, pageSize)
    case Err(e) => Err(e)
    case Ok((p, s)) => Ok(Reply(OK, list(p, s)))
  }

  /** With no parameters the listing asks for the first page of ten. */
  lemma DefaultListing<P>(list: (int, int) -> P)
    ensures GetEvents(list, None, None) == Ok(Reply(OK, list(1, 10)))
  {
  }

  /** A page size is accepted exactly when it lies in 1..100, whatever the page. */
  lemma PageSizeBounds<P>(list: (int, int) -> P, pageSize: int)
    ensures GetEvents(list, None, Some(pageSize)).Ok? <==> 1 <= pageSize <= 100
    ensures pageSize > 100 ==> GetEvents(list, None, Some(pageSize)) == Err(RequestValidationError(["page_size"]))
  {
    assert [] + ["page_size"] == ["page_size"];
  }

  // ---------------------------------------------------------------------------
  // The PATCH endpoints
  // ---------------------------------------------------------------------------

  /** What `SummaryService.create_summary_pdf` returns: the document and where to store it. */
  datatype SummaryPdf = SummaryPdf(summaryPdf: seq<Page>, summaryPdfFolder: string, summaryPdfFilename: string)

  /**
    `update_summary_filename`: the summary is built, stored under its folder
    and filename, and exactly the key the store answers is recorded on the
    event. An exception of the summary service propagates and nothing is
    stored; a failed write is not caught and the event is left unchanged.
  */
  method UpdateSummaryFilename(events: EventRepository, store: FileHandler, eventId: int,
                               summary: Result<SummaryPdf, HttpError>)
    returns (r: Result<EventResponse, HttpError>)
    modifies events, store
    ensures summary.Err? ==>
      r == Err(summary.error) && events.events == old(events.events) && store.uploads == old(store.uploads)
    ensures summary.Ok? ==>
      var s := summary.value;
      var put := store.PutOutcome(s.summaryPdfFolder, s.summaryPdfFilename);
      store.uploads == old(store.uploads) +
        (if put.Ok? then [StoredObject(s.summaryPdf, s.summaryPdfFolder, s.summaryPdfFilename)] else []) &&
      (put.Err? ==> r == Err(UnhandledException()) && events.events == old(events.events)) &&
      (put.Ok? && eventId in old(events.events) ==>
        events.events == old(events.events)[eventId := WithStoredFile(old(events.events)[eventId], SummaryFile, Some(put.value.keyFilename))] &&
        r == Ok(FromEvent(events.cloudfrontDomain, events.events[eventId]))) &&
      (put.Ok? && eventId !in old(events.events) ==>
        events.events == old(events.events) && r == Err(EventNotFound()))
  {
    if summary.Err? {
      return Err(summary.error);
    }
    var s := summary.value;
    var put := store.PutObject(s.summaryPdf, s.summaryPdfFolder, s.summaryPdfFilename);
    if put.Err? {
      return Err(UnhandledException());
    }
    r := events.UpdateFilename(eventId, SummaryFile, put.value.keyFilename);
  }

  /**
    `update_merged_papers_filename`: the merge runs first; only when it
    succeeds is the key it stored recorded on the event. A failed merge
    leaves the event as it was and its error is the answer.
  */
  method UpdateMergedPapersFilename(merger: MergedPapersService, eventId: int, upload: Upload)
    returns (r: Result<EventResponse, HttpError>)
    modifies merger, merger.paperRepo, merger.fileHandler, merger.eventRepo
    ensures var m := Merge(eventId, old(merger.eventRepo.GetEventById(eventId)),
                           old(merger.paperRepo.CountPapersByEventId(eventId)), old(merger.papersRegistered),
                           upload, merger.fileHandler);
      merger.paperRepo.papers == old(merger.paperRepo.papers) + m.created &&
      merger.progress == old(merger.progress) + m.progress && merger.papersRegistered == m.registered &&
      merger.fileHandler.uploads == old(merger.fileHandler.uploads) + m.uploads &&
      (m.result.Err? ==> r == Err(m.result.error) && merger.eventRepo.events == old(merger.eventRepo.events)) &&
      (m.result.Ok? ==>
        eventId in old(merger.eventRepo.events) &&
        merger.eventRepo.events == old(merger.eventRepo.events)[eventId :=
          WithStoredFile(old(merger.eventRepo.events)[eventId], MergedPapersFile, Some(m.result.value.keyFilename))] &&
        r == Ok(FromEvent(merger.eventRepo.cloudfrontDomain, merger.eventRepo.events[eventId])))
  {
    var merged := merger.MergePdfFiles(eventId, upload);
    if merged.Err? {
      return Err(merged.error);
    }
    r := merger.eventRepo.UpdateFilename(eventId, MergedPapersFile, merged.value.keyFilename);
  }

  /**
    `update_anal_filename`: the key the anal service stored is recorded on
    the event; an exception of the service propagates and the event is left
    unchanged.
  */
  method UpdateAnalFilename(events: EventRepository, eventId: int, anal: Result<PutObjectResponse, HttpError>)
    returns (r: Result<EventResponse, HttpError>)
    modifies events
    ensures anal.Err? ==> r == Err(anal.error) && events.events == old(events.events)
    ensures anal.Ok? && eventId in old(events.events) ==>
      events.events == old(events.events)[eventId := WithStoredFile(old(events.events)[eventId], AnalFile, Some(anal.value.keyFilename))] &&
      r == Ok(FromEvent(events.cloudfrontDomain, events.events[eventId]))
    ensures anal.Ok? && eventId !in old(events.events) ==>
      events.events == old(events.events) && r == Err(EventNotFound())
  {
    if anal.Err? {
      return Err(anal.error);
    }
    r := events.UpdateFilename(eventId, AnalFile, anal.value.keyFilename);
  }

  // ---------------------------------------------------------------------------
  // Across requests
  // ---------------------------------------------------------------------------

  /**
    Once a non-empty merged-papers key is recorded on an event, every later
    merge for it is a 400 that creates, registers and stores nothing,
    whatever the upload.
  */
  lemma MergedEventRejectsNextMerge(eventId: int, e: Event, key: string, paperCount: nat, registered: seq<string>,
                                    upload: Upload, store: FileHandler)
    requires key != []
    ensures Merge(eventId, Some(WithStoredFile(e, MergedPapersFile, Some(key))), paperCount, registered, upload, store) ==
      MergeEffect(Err(HttpException(BAD_REQUEST, "Papers already merged for this event")), [], [], registered, [])
  {
  }

  /**
    An empty key from the store does not mark the event as merged: a later
    merge for an event whose papers were created is a 409, not a 400.
  */
  lemma EmptyMergedKeyIsNotAMerge(eventId: int, e: Event, paperCount: nat, registered: seq<string>,
                                  upload: Upload, store: FileHandler)
    requires paperCount > 0
    ensures Merge(eventId, Some(WithStoredFile(e, MergedPapersFile, Some([]))), paperCount, registered, upload, store) ==
      MergeEffect(Err(HttpException(CONFLICT, "Papers already created for this event")), [], [], registered, [])
  {
  }

  /**
    A merge that created papers leaves the event with papers, so a later merge
    of the event is a 409 even when the recorded merged-papers key is empty.
  */
  lemma PaperCreatingMergeBlocksNext(eventId: int, e: Event, paperCount: nat, registered: seq<string>,
                                     upload: Upload, store: FileHandler, papers: seq<Paper>,
                                     later: Event, registered': seq<string>, upload': Upload, store': FileHandler)
    requires Merge(eventId, Some(e), paperCount, registered, upload, store).created != []
    ensures var count := CountFor(papers + Merge(eventId, Some(e), paperCount, registered, upload, store).created, eventId);
      Merge(eventId, Some(WithStoredFile(later, MergedPapersFile, Some([]))), count, registered', upload', store') ==
      MergeEffect(Err(HttpException(CONFLICT, "Papers already created for this event")), [], [], registered', [])
  {
    var created := Merge(eventId, Some(e), paperCount, registered, upload, store).created;
    MergeCreatesForEvent(eventId, Some(e), paperCount, registered, upload, store);
    CountAfterAdding(papers, created, eventId, 0);
    EmptyMergedKeyIsNotAMerge(eventId, later, CountFor(papers + created, eventId), registered', upload', store');
  }

  /** Recording a key on one artifact leaves the response's other two URLs as they were. */
  lemma RecordedKeyIsServed(domain: string, e: Event, field: FileField, key: string)
    requires key != []
    ensures var r := FromEvent(domain, WithStoredFile(e, field, Some(key)));
      ResponseFile(r, field) == Some(domain + key) &&
      forall g :: g != field ==> ResponseFile(r, g) == ResponseFile(FromEvent(domain, e), g)
  {
    FromEventFieldsIndependent(domain, e, field, Some(key));
  }
}

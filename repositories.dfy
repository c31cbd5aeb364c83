/**
  The collaborators the services talk to, reduced to the state they keep:
  the object store behind `FileHandlerService.put_object`, the event table
  and the paper table.
*/
module Repositories {
  import opened Wrappers
  import opened Http
  import opened EventResponses

  /** One page of a PDF document; its content is opaque. */
  datatype Page = Page(id: nat)

  /** A paper row as `create_paper` receives it (the fields of PaperDTO). */
  datatype Paper = Paper(
    pdfId: string,
    area: Option<string>,
    title: Option<string>,
    authors: Option<string>,
    isIgnored: Option<bool>,
    totalPages: nat,
    eventId: int)

  /** What `put_object` answers: the key under which the object was stored. */
  datatype PutObjectResponse = PutObjectResponse(keyFilename: string)

  /** One object written to the store: a PDF document, its folder and its filename. */
  datatype StoredObject = StoredObject(document: seq<Page>, folder: string, filename: string)

  /**
    The object store. `keyFor` is how the store names an object written under
    a folder and filename; `outage`, when set, is the message of the error
    every write raises.
  */
  class FileHandler {
    var uploads: seq<StoredObject>
    const keyFor: (string, string) -> string
    const outage: Option<string>

    constructor (keyFor: (string, string) -> string, outage: Option<string>)
      ensures uploads == [] && this.keyFor == keyFor && this.outage == outage
    {
      this.keyFor := keyFor;
      this.outage := outage;
      uploads := [];
    }

    /** What a write under folder/filename answers. */
    function PutOutcome(folder: string, filename: string): (r: Result<PutObjectResponse, string>)
      ensures r.Ok? <==> outage.None?
      ensures r.Ok? ==> r.value.keyFilename == keyFor(folder, filename)
    {
      if outage.Some? then Err(outage.value) else Ok(PutObjectResponse(keyFor(folder, filename)))
    }

    /** `put_object(bytes, folder, filename)`: stores the document, or raises and stores nothing. */
    method PutObject(document: seq<Page>, folder: string, filename: string)
      returns (r: Result<PutObjectResponse, string>)
      modifies this
      ensures r == PutOutcome(folder, filename)
      ensures uploads == old(uploads) + (if r.Ok? then [StoredObject(document, folder, filename)] else [])
    {
      r := PutOutcome(folder, filename);
      if r.Ok? {
        uploads := uploads + [StoredObject(document, folder, filename)];
      }
    }
  }

  /** The event table, keyed by event id, and the CDN domain used to render responses. */
  class EventRepository {
    var events: map<int, Event>
    const cloudfrontDomain: string

    constructor (events: map<int, Event>, cloudfrontDomain: string)
      ensures this.events == events && this.cloudfrontDomain == cloudfrontDomain
    {
      this.events := events;
      this.cloudfrontDomain := cloudfrontDomain;
    }

    /** `get_event_by_id`: the event, or None. */
    function GetEventById(id: int): (e: Option<Event>)
      reads this
      ensures e.Some? <==> id in events
      ensures e.Some? ==> e.value == events[id]
    {
      if id in events then Some(events[id]) else None
    }

    /**
      `update_summary_filename` / `update_merged_papers_filename` /
      `update_anal_filename`: records the key on the event and answers the
      updated event's response; an unknown id changes nothing.
    */
    method UpdateFilename(id: int, field: FileField, key: string)
      returns (r: Result<EventResponse, HttpError>)
      modifies this
      ensures id in old(events) ==>
        events == old(events)[id := WithStoredFile(old(events)[id], field, Some(key))] &&
        r == Ok(FromEvent(cloudfrontDomain, events[id]))
      ensures id !in old(events) ==>
        events == old(events) && r == Err(HttpException(NOT_FOUND, "Event not found"))
    {
      if id in events {
        events := events[id := WithStoredFile(events[id], field, Some(key))];
        r := Ok(FromEvent(cloudfrontDomain, events[id]));
      } else {
        r := Err(HttpException(NOT_FOUND, "Event not found"));
      }
    }
  }

  /** The number of papers belonging to an event. */
  function CountFor(papers: seq<Paper>, eventId: int): (n: nat)
    ensures n <= |papers|
    ensures n == 0 <==> forall i :: 0 <= i < |papers| ==> papers[i].eventId != eventId
    decreases |papers|
  {
    if papers == [] then 0
    else CountFor(papers[..|papers| - 1], eventId) + (if papers[|papers| - 1].eventId == eventId then 1 else 0)
  }

  lemma {:induction false} CountForAppend(a: seq<Paper>, b: seq<Paper>, eventId: int)
    ensures CountFor(a + b, eventId) == CountFor(a, eventId) + CountFor(b, eventId)
    decreases |b|
  {
    if b == [] {
      assert a + b == a;
    } else {
      CountForAppend(a, b[..|b| - 1], eventId);
      assert (a + b)[..|a + b| - 1] == a + b[..|b| - 1];
    }
  }

  /** Adding rows of which one belongs to the event leaves the event with papers. */
  lemma CountAfterAdding(papers: seq<Paper>, added: seq<Paper>, eventId: int, j: nat)
    requires j < |added| && added[j].eventId == eventId
    ensures CountFor(papers + added, eventId) > 0
  {
    CountForAppend(papers, added, eventId);
  }

  /** The paper table. */
  class PaperRepository {
    var papers: seq<Paper>

    constructor (papers: seq<Paper>)
      ensures this.papers == papers
    {
      this.papers := papers;
    }

    /** `count_papers_by_event_id`. */
    function CountPapersByEventId(eventId: int): nat
      reads this
    {
      CountFor(papers, eventId)
    }

    /** `create_paper`: adds one row. */
    method CreatePaper(paper: Paper)
      modifies this
      ensures papers == old(papers) + [paper]
    {
      papers := papers + [paper];
    }
  }
}

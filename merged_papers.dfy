/**
  `MergedPapersService.merge_pdf_files`: the guarded transition that turns an
  uploaded zip archive of papers into one merged PDF stored in the event's
  folder, registering one paper row per PDF entry on the way.

  The archive is a sequence of named entries and a PDF a sequence of pages;
  `Scan` states, entry by entry, what the loop over `namelist()` produces,
  and the methods of `MergedPapersService` are proved to follow it.
*/
module MergedPapers {
  import opened Wrappers
  import opened Text
  import opened Http
  import opened EventResponses
  import opened Repositories

  // ---------------------------------------------------------------------------
  // Uploads, archives and the exceptions raised while processing them
  // ---------------------------------------------------------------------------

  /** What `PdfReader` makes of an extracted file: its pages, or the read error. */
  datatype PdfContent = Pages(pages: seq<Page>) | Corrupt(message: string)

  /** An archive member, under the name `namelist()` reports for it. */
  datatype Entry = Entry(name: string, content: PdfContent)

  /** What `zipfile.ZipFile` makes of the uploaded bytes. */
  datatype Archive = NotAZip | Zip(entries: seq<Entry>)

  /** The uploaded file: its client-supplied filename (maybe missing) and its content. */
  datatype Upload = Upload(filename: Option<string>, archive: Archive)

  /** The exceptions the processing block can raise. */
  datatype Exception =
    | Raised(status: nat, detail: string)   // an HTTPException
    | IndexOutOfRange                       // `pdf_id.split()[0]` on a blank id
    | BadZipFile                            // the upload is not a zip archive
    | PdfReadError(message: string)         // an entry that is not a readable PDF
    | StorageError(message: string)         // `put_object` failed

  /** `str(e)`. */
  function Describe(e: Exception): string
  {
    match e
    case Raised(status, detail) => NatToString(status) + ": " + detail
    case IndexOutOfRange => "list index out of range"
    case BadZipFile => "File is not a zip file"
    case PdfReadError(message) => message
    case StorageError(message) => message
  }

  const PROCESSING_ERROR: string := "An error occurred while processing the file: "
  const MERGED_PAPERS_FILENAME: string := "merged_papers.pdf"

  /** The 500 every exception of the processing block is turned into. */
  function ProcessingError(e: Exception): (err: HttpError)
    ensures err.HttpException? && err.StatusCode() == INTERNAL_SERVER_ERROR
    ensures PROCESSING_ERROR <= err.detail && err.detail[|PROCESSING_ERROR|..] == Describe(e)
  {
    HttpException(INTERNAL_SERVER_ERROR, PROCESSING_ERROR + Describe(e))
  }

  predicate IsPdfName(name: string)
  {
    EndsWithIgnoringCase(name, ".pdf")
  }

  predicate IsZipName(name: string)
  {
    EndsWithIgnoringCase(name, ".zip")
  }

  /** `os.path.splitext(os.path.basename(filename))[0]`. */
  function PdfId(filename: string): string
  {
    SplitExt(Basename(filename)).0
  }

  /**
    The checks of `_add_zip_file_to_temp_dir`: a missing or empty filename is
    a 404, a filename not ending in ".zip" (in any case) a 415.
  */
  function AddZipFileToTempDir(filename: Option<string>): (r: Option<Exception>)
    ensures !Truthy(filename) ==> r == Some(Raised(NOT_FOUND, "The file must have a name"))
    ensures Truthy(filename) && !IsZipName(filename.value) ==>
      r == Some(Raised(UNSUPPORTED_MEDIA_TYPE, "The file must be a zip file"))
    ensures r.None? <==> Truthy(filename) && IsZipName(filename.value)
  {
    if !Truthy(filename) then Some(Raised(NOT_FOUND, "The file must have a name"))
    else if !IsZipName(filename.value) then Some(Raised(UNSUPPORTED_MEDIA_TYPE, "The file must be a zip file"))
    else None
  }

  // ---------------------------------------------------------------------------
  // Reading a member by name
  // ---------------------------------------------------------------------------

  predicate HasEntry(entries: seq<Entry>, name: string)
  {
    exists k :: 0 <= k < |entries| && entries[k].name == name
  }

  /** The last index below n of a member named `name`, or -1. */
  function LastEntryBefore(entries: seq<Entry>, name: string, n: nat): (k: int)
    requires n <= |entries|
    ensures -1 <= k < n
    ensures 0 <= k ==> entries[k].name == name
    ensures forall j :: k < j < n ==> entries[j].name != name
    decreases n
  {
    if n == 0 then -1
    else if entries[n - 1].name == name then n - 1
    else LastEntryBefore(entries, name, n - 1)
  }

  /**
    What `zip_ref.extract(name)` writes: the content of the LAST member with
    that name, the one a zip's name lookup resolves to.
  */
  function ContentOf(entries: seq<Entry>, name: string): PdfContent
    requires HasEntry(entries, name)
  {
    var k := LastEntryBefore(entries, name, |entries|);
    assert 0 <= k by {
      var w :| 0 <= w < |entries| && entries[w].name == name;
    }
    entries[k].content
  }

  /** The extracted content is that of a member with the name, and no later member has it. */
  lemma ContentOfIsLastMember(entries: seq<Entry>, name: string)
    requires HasEntry(entries, name)
    ensures exists k :: 0 <= k < |entries| && entries[k].name == name && entries[k].content == ContentOf(entries, name) &&
                        (forall j :: k < j < |entries| ==> entries[j].name != name)
  {
    var k := LastEntryBefore(entries, name, |entries|);
    assert 0 <= k by {
      var w :| 0 <= w < |entries| && entries[w].name == name;
    }
    assert entries[k].content == ContentOf(entries, name);
  }

  predicate DistinctNames(entries: seq<Entry>)
  {
    forall i, j :: 0 <= i < j < |entries| ==> entries[i].name != entries[j].name
  }

  /** With distinct names, every member is read back as itself. */
  lemma ContentOfDistinct(entries: seq<Entry>, k: nat)
    requires DistinctNames(entries) && k < |entries|
    ensures HasEntry(entries, entries[k].name)
    ensures ContentOf(entries, entries[k].name) == entries[k].content
  {
    assert entries[k].name == entries[k].name;
    var last := LastEntryBefore(entries, entries[k].name, |entries|);
    assert last == k;
  }

  // ---------------------------------------------------------------------------
  // The archive as the loop sees it
  // ---------------------------------------------------------------------------

  /** What the loop learns from an extracted PDF: its pages or read error, its id, and the id's first token. */
  datatype PdfFile = PdfFile(content: PdfContent, pdfId: string, firstToken: Option<string>)

  /** `pdf_id.split()[0]`, or None where that raises IndexError. */
  function FirstTokenOf(pdfId: string): (t: Option<string>)
    ensures t.None? <==> AllSpace(pdfId)
  {
    var tokens := Split(pdfId);
    if tokens == [] then None else Some(tokens[0])
  }

  function ReadPdfFile(entries: seq<Entry>, filename: string): PdfFile
    requires HasEntry(entries, filename)
  {
    PdfFile(ContentOf(entries, filename), PdfId(filename), FirstTokenOf(PdfId(filename)))
  }

  function ListingAt(entries: seq<Entry>, k: nat): Option<PdfFile>
    requires k < |entries|
  {
    var name := entries[k].name;
    if IsPdfName(name) then
      assert HasEntry(entries, name) by { assert entries[k].name == name; }
      Some(ReadPdfFile(entries, name))
    else None
  }

  /**
    The members in archive order: for each, the PDF file it extracts to, or
    None when its name does not end in ".pdf" (in any case).
  */
  function Listing(entries: seq<Entry>): seq<Option<PdfFile>>
  {
    seq(|entries|, k requires 0 <= k < |entries| => ListingAt(entries, k))
  }

  /** One file per member, present exactly for the PDF members, and read under the member's name. */
  lemma ListingMembers(entries: seq<Entry>)
    ensures |Listing(entries)| == |entries|
    ensures forall k :: 0 <= k < |entries| ==> (Listing(entries)[k].Some? <==> IsPdfName(entries[k].name))
    ensures forall k :: 0 <= k < |entries| && IsPdfName(entries[k].name) ==>
      HasEntry(entries, entries[k].name) && Listing(entries)[k] == Some(ReadPdfFile(entries, entries[k].name))
  {
    forall k | 0 <= k < |entries| && IsPdfName(entries[k].name)
      ensures HasEntry(entries, entries[k].name)
    {
      assert entries[k].name == entries[k].name;
    }
  }

  // ---------------------------------------------------------------------------
  // The specification of the loop over the archive
  // ---------------------------------------------------------------------------

  /** One call of `ProgressChecker.get_progress(current_file, total)`. */
  datatype Progress = Progress(current: nat, total: nat)

  /**
    The state the loop has built after some members: the merged pages, the
    papers created, the `_papers_registered` list, the progress reports, and
    the exception that stopped it, if any.
  */
  datatype ScanState = ScanState(
    pages: seq<Page>,
    created: seq<Paper>,
    registered: seq<string>,
    progress: seq<Progress>,
    failure: Option<Exception>)

  /** The paper `_create_paper_from_pdf` creates: only the id, page count and event are set. */
  function NewPaper(pdfId: string, totalPages: nat, eventId: int): Paper
  {
    Paper(pdfId, None, None, None, None, totalPages, eventId)
  }

  /** What processing one PDF member adds. */
  datatype PdfEffect = PdfEffect(
    pages: seq<Page>,
    paper: Option<Paper>,
    report: Option<Progress>,
    failure: Option<Exception>)

  /**
    `_proccess_pdf_file`: the file's pages are appended; a paper is created
    unless the first whitespace token of the id is already registered; an
    unreadable PDF or a blank id raises.
  */
  function ProcessPdf(registered: seq<string>, file: PdfFile, eventId: int, currentFile: nat, total: nat): PdfEffect
  {
    match file.content
    case Corrupt(message) => PdfEffect([], None, None, Some(PdfReadError(message)))
    case Pages(pages) =>
      if file.firstToken.None? then PdfEffect(pages, None, None, Some(IndexOutOfRange))
      else
        var paper := if file.firstToken.value in registered then None else Some(NewPaper(file.pdfId, |pages|, eventId));
        PdfEffect(pages, paper, Some(Progress(currentFile, total)), None)
  }

  function OptionToSeq<T>(o: Option<T>): seq<T>
  {
    if o.Some? then [o.value] else []
  }

  function Ids(papers: seq<Paper>): (ids: seq<string>)
    ensures |ids| == |papers| && forall i :: 0 <= i < |papers| ==> ids[i] == papers[i].pdfId
  {
    seq(|papers|, i requires 0 <= i < |papers| => papers[i].pdfId)
  }

  lemma IdsOfAppend(a: seq<Paper>, b: seq<Paper>)
    ensures Ids(a + b) == Ids(a) + Ids(b)
  {
    assert forall i :: 0 <= i < |a + b| ==> Ids(a + b)[i] == (Ids(a) + Ids(b))[i];
  }

  function Apply(st: ScanState, eff: PdfEffect): ScanState
  {
    ScanState(
      st.pages + eff.pages,
      st.created + OptionToSeq(eff.paper),
      st.registered + Ids(OptionToSeq(eff.paper)),
      st.progress + OptionToSeq(eff.report),
      eff.failure)
  }

  /** The state after the first n members, starting from `registered`; member k is reported as file k + 1. */
  function Scan(registered: seq<string>, files: seq<Option<PdfFile>>, n: nat, eventId: int): ScanState
    requires n <= |files|
    decreases n
  {
    if n == 0 then ScanState([], [], registered, [], None)
    else
      var st := Scan(registered, files, n - 1, eventId);
      if st.failure.Some? || files[n - 1].None? then st
      else Apply(st, ProcessPdf(st.registered, files[n - 1].value, eventId, n, |files|))
  }

  /** `_process_zip_file` as a whole: the upload checks, the archive, then every member in order. */
  function ProcessZip(registered: seq<string>, upload: Upload, eventId: int): ScanState
  {
    var nameError := AddZipFileToTempDir(upload.filename);
    if nameError.Some? then ScanState([], [], registered, [], nameError)
    else match upload.archive
      case NotAZip => ScanState([], [], registered, [], Some(BadZipFile))
      case Zip(entries) => Scan(registered, Listing(entries), |entries|, eventId)
  }

  /**
    The checks of `merge_pdf_files`, in order: an unknown event is a 404, an
    event whose merged-papers key is set and non-empty a 400, an event that
    already has papers a 409.
  */
  function MergeGuard(eventId: int, event: Option<Event>, paperCount: nat): (r: Option<HttpError>)
    ensures event.None? ==>
      r == Some(HttpException(NOT_FOUND, "Event with id " + IntToString(eventId) + " not found"))
    ensures event.Some? && Truthy(event.value.mergedPapersFilename) ==>
      r == Some(HttpException(BAD_REQUEST, "Papers already merged for this event"))
    ensures event.Some? && !Truthy(event.value.mergedPapersFilename) && paperCount > 0 ==>
      r == Some(HttpException(CONFLICT, "Papers already created for this event"))
    ensures r.None? <==> event.Some? && !Truthy(event.value.mergedPapersFilename) && paperCount == 0
  {
    if event.None? then Some(HttpException(NOT_FOUND, "Event with id " + IntToString(eventId) + " not found"))
    else if Truthy(event.value.mergedPapersFilename) then
      Some(HttpException(BAD_REQUEST, "Papers already merged for this event"))
    else if paperCount > 0 then Some(HttpException(CONFLICT, "Papers already created for this event"))
    else None
  }

  /**
    What `merge_pdf_files` leaves behind: its result, the papers it created,
    the progress it reported, the `_papers_registered` list it ends with, and
    the objects it stored.
  */
  datatype MergeEffect = MergeEffect(
    result: Result<PutObjectResponse, HttpError>,
    created: seq<Paper>,
    progress: seq<Progress>,
    registered: seq<string>,
    uploads: seq<StoredObject>)

  /**
    `merge_pdf_files` from the event found for the id, the event's paper
    count and the registry it starts with: the guard, then the archive, then
    one write of the merged document to the event's folder.
  */
  function Merge(eventId: int, event: Option<Event>, paperCount: nat, registered: seq<string>,
                 upload: Upload, store: FileHandler): (m: MergeEffect)
    ensures MergeGuard(eventId, event, paperCount).Some? ==>
      m == MergeEffect(Err(MergeGuard(eventId, event, paperCount).value), [], [], registered, [])
    ensures m.result.Ok? ==>
      event.Some? && m.registered == [] &&
      m.result.value.keyFilename == store.keyFor(event.value.s3FolderName, MERGED_PAPERS_FILENAME) &&
      m.uploads == [StoredObject(ProcessZip(registered, upload, eventId).pages,
                                 event.value.s3FolderName, MERGED_PAPERS_FILENAME)]
    ensures m.result.Err? ==> m.uploads == []
    ensures m.result.Err? && MergeGuard(eventId, event, paperCount).None? ==>
      m.result.error.HttpException? && m.result.error.status == INTERNAL_SERVER_ERROR &&
      PROCESSING_ERROR <= m.result.error.detail
  {
    var guard := MergeGuard(eventId, event, paperCount);
    if guard.Some? then MergeEffect(Err(guard.value), [], [], registered, [])
    else
      var scan := ProcessZip(registered, upload, eventId);
      if scan.failure.Some? then
        MergeEffect(Err(ProcessingError(scan.failure.value)), scan.created, scan.progress, scan.registered, [])
      else
        var folder := event.value.s3FolderName;
        match store.PutOutcome(folder, MERGED_PAPERS_FILENAME)
        case Ok(put) => MergeEffect(Ok(put), scan.created, scan.progress, [], [StoredObject(scan.pages, folder, MERGED_PAPERS_FILENAME)])
        case Err(message) => MergeEffect(Err(ProcessingError(StorageError(message))), scan.created, scan.progress, [], [])
  }

  /** Every paper a merge creates belongs to the event being merged. */
  lemma MergeCreatesForEvent(eventId: int, event: Option<Event>, paperCount: nat, registered: seq<string>,
                             upload: Upload, store: FileHandler)
    ensures forall j :: 0 <= j < |Merge(eventId, event, paperCount, registered, upload, store).created| ==>
      Merge(eventId, event, paperCount, registered, upload, store).created[j].eventId == eventId
  {
    if MergeGuard(eventId, event, paperCount).None? && AddZipFileToTempDir(upload.filename).None? && upload.archive.Zip? {
      var entries := upload.archive.entries;
      ScanCreatesFromFiles(registered, Listing(entries), |entries|, eventId);
    }
  }

  // ---------------------------------------------------------------------------
  // The service
  // ---------------------------------------------------------------------------

  /** The output document `PdfWriter`, which pages are appended to. */
  class PdfWriter {
    var pages: seq<Page>

    constructor ()
      ensures pages == []
    {
      pages := [];
    }

    method AddPage(page: Page)
      modifies this
      ensures pages == old(pages) + [page]
    {
      pages := pages + [page];
    }
  }

  class MergedPapersService {
    const fileHandler: FileHandler
    const eventRepo: EventRepository
    const paperRepo: PaperRepository
    /** `_papers_registered`: the ids registered during the current archive. */
    var papersRegistered: seq<string>
    /** The reports made to `ProgressChecker.get_progress`, oldest first. */
    var progress: seq<Progress>

    constructor (fileHandler: FileHandler, eventRepo: EventRepository, paperRepo: PaperRepository)
      ensures this.fileHandler == fileHandler && this.eventRepo == eventRepo && this.paperRepo == paperRepo
      ensures papersRegistered == [] && progress == []
    {
      this.fileHandler := fileHandler;
      this.eventRepo := eventRepo;
      this.paperRepo := paperRepo;
      papersRegistered := [];
      progress := [];
    }

    /**
      `merge_pdf_files`: the guard first, changing nothing when it fails; then
      the archive is processed and the merged document stored under the
      event's folder as "merged_papers.pdf". Any exception of that block is a
      500, and the papers created before it stay created.
    */
    method MergePdfFiles(eventId: int, upload: Upload) returns (r: Result<PutObjectResponse, HttpError>)
      modifies this, paperRepo, fileHandler
      ensures var m := Merge(eventId, old(eventRepo.GetEventById(eventId)),
                             old(paperRepo.CountPapersByEventId(eventId)), old(papersRegistered), upload, fileHandler);
        r == m.result && paperRepo.papers == old(paperRepo.papers) + m.created &&
        progress == old(progress) + m.progress && papersRegistered == m.registered &&
        fileHandler.uploads == old(fileHandler.uploads) + m.uploads
    {
      var event := eventRepo.GetEventById(eventId);
      var guard := MergeGuard(eventId, event, paperRepo.CountPapersByEventId(eventId));
      if guard.Some? {
        return Err(guard.value);
      }
      var s3FolderName := event.value.s3FolderName;
      var processed := ProcessZipFile(upload, eventId);
      if processed.Err? {
        return Err(ProcessingError(processed.error));
      }
      r := UploadMergedPapersToS3EventFolder(processed.value, s3FolderName);
    }

    /**
      `_process_zip_file`: checks the upload, then walks the archive's members
      in order, processing the PDF ones; `_papers_registered` is cleared only
      when the walk completes.
    */
    method ProcessZipFile(upload: Upload, eventId: int) returns (r: Result<PdfWriter, Exception>)
      modifies this, paperRepo
      ensures var scan := ProcessZip(old(papersRegistered), upload, eventId);
        paperRepo.papers == old(paperRepo.papers) + scan.created &&
        progress == old(progress) + scan.progress &&
        (scan.failure.Some? ==> r == Err(scan.failure.value) && papersRegistered == scan.registered) &&
        (scan.failure.None? ==> r.Ok? && fresh(r.value) && r.value.pages == scan.pages && papersRegistered == [])
    {
      var nameError := AddZipFileToTempDir(upload.filename);
      if nameError.Some? {
        return Err(nameError.value);
      }
      if upload.archive.NotAZip? {
        return Err(BadZipFile);
      }
      r := MergeMembers(upload.archive.entries, eventId);
    }

    /** `_process_zip_file` after the checks: every member in archive order, then the registry is cleared. */
    method MergeMembers(entries: seq<Entry>, eventId: int) returns (r: Result<PdfWriter, Exception>)
      modifies this, paperRepo
      ensures var scan := Scan(old(papersRegistered), Listing(entries), |entries|, eventId);
        paperRepo.papers == old(paperRepo.papers) + scan.created &&
        progress == old(progress) + scan.progress &&
        (scan.failure.Some? ==> r == Err(scan.failure.value) && papersRegistered == scan.registered) &&
        (scan.failure.None? ==> r.Ok? && fresh(r.value) && r.value.pages == scan.pages && papersRegistered == [])
    {
      ghost var registered0 := papersRegistered;
      var writer := new PdfWriter();
      var failure;
      ghost var n;
      ListingMembers(entries);
      failure, n := MergeLoop(writer, entries, eventId, Listing(entries));
      ScanStopsAt(registered0, Listing(entries), n, eventId, Scan(registered0, Listing(entries), n, eventId));
      if failure.Some? {
        return Err(failure.value);
      }
      papersRegistered := [];
      return Ok(writer);
    }

    /**
      The loop over the members, which extract to `files`: it stops after the
      last one, or at the first that raised, having done what the scan up to
      there describes.
    */
    method MergeLoop(writer: PdfWriter, entries: seq<Entry>, eventId: int, ghost files: seq<Option<PdfFile>>)
      returns (failure: Option<Exception>, ghost n: nat)
      requires writer.pages == [] && |files| == |entries|
      requires forall k {:trigger ListingAt(entries, k)} :: 0 <= k < |entries| ==> files[k] == ListingAt(entries, k)
      modifies this, writer, paperRepo
      ensures n <= |entries|
      ensures var st := Scan(old(papersRegistered), files, n, eventId);
        (n == |entries| || st.failure.Some?) && failure == st.failure &&
        writer.pages == st.pages && papersRegistered == st.registered &&
        paperRepo.papers == old(paperRepo.papers) + st.created && progress == old(progress) + st.progress
    {
      ghost var registered0, papers0, progress0 := papersRegistered, paperRepo.papers, progress;
      ghost var st := Scan(registered0, files, 0, eventId);
      var currentFile := 1;
      var i := 0;
      failure := None;
      while i < |entries| && failure.None?
        invariant 0 <= i <= |entries| && currentFile == i + 1
        invariant st == Scan(registered0, files, i, eventId) && st.failure == failure
        invariant writer.pages == st.pages && papersRegistered == st.registered
        invariant paperRepo.papers == papers0 + st.created && progress == progress0 + st.progress
      {
        failure := MergeMember(writer, entries, i, currentFile, eventId, files, registered0, papers0, progress0);
        st := Scan(registered0, files, i + 1, eventId);
        currentFile := currentFile + 1;
        i := i + 1;
      }
      n := i;
    }

    /**
      One pass of the loop body: member i, reported as file i + 1, is
      processed when its name ends in ".pdf" in any case and skipped otherwise.
    */
    method MergeMember(writer: PdfWriter, entries: seq<Entry>, i: nat, currentFile: nat, eventId: int,
                       ghost files: seq<Option<PdfFile>>,
                       ghost registered0: seq<string>, ghost papers0: seq<Paper>, ghost progress0: seq<Progress>)
      returns (failure: Option<Exception>)
      requires i < |entries| && currentFile == i + 1 && |files| == |entries|
      requires forall k {:trigger ListingAt(entries, k)} :: 0 <= k < |entries| ==> files[k] == ListingAt(entries, k)
      requires var st := Scan(registered0, files, i, eventId);
        st.failure.None? && writer.pages == st.pages && papersRegistered == st.registered &&
        paperRepo.papers == papers0 + st.created && progress == progress0 + st.progress
      modifies this, writer, paperRepo
      ensures var st := Scan(registered0, files, i + 1, eventId);
        failure == st.failure && writer.pages == st.pages && papersRegistered == st.registered &&
        paperRepo.papers == papers0 + st.created && progress == progress0 + st.progress
    {
      ghost var st := Scan(registered0, files, i, eventId);
      var filename := entries[i].name;
      if IsPdfName(filename) {
        assert HasEntry(entries, filename) by { assert entries[i].name == filename; }
        ghost var eff := ProcessPdf(papersRegistered, ReadPdfFile(entries, filename), eventId, currentFile, |entries|);
        ScanStepPdfState(registered0, entries, files, i, eventId, st, filename, eff);
        ApplyParts(st, eff, papers0, progress0);
        failure := ProcessPdfFile(writer, entries, filename, eventId, currentFile);
      } else {
        ScanStepOther(registered0, entries, files, i, eventId);
        failure := None;
      }
    }

    /** `_proccess_pdf_file`: pages, then the paper, then the progress report. */
    method ProcessPdfFile(writer: PdfWriter, entries: seq<Entry>, filename: string,
                          eventId: int, currentFile: nat) returns (failure: Option<Exception>)
      requires HasEntry(entries, filename)
      modifies this, writer, paperRepo
      ensures var eff := ProcessPdf(old(papersRegistered), ReadPdfFile(entries, filename), eventId, currentFile, |entries|);
        writer.pages == old(writer.pages) + eff.pages &&
        paperRepo.papers == old(paperRepo.papers) + OptionToSeq(eff.paper) &&
        papersRegistered == old(papersRegistered) + Ids(OptionToSeq(eff.paper)) &&
        progress == old(progress) + OptionToSeq(eff.report) &&
        failure == eff.failure
    {
      failure := AddPaperPagesToPdfWriter(writer, entries, filename);
      if failure.Some? {
        return;
      }
      failure := CreatePaperFromPdf(entries, filename, eventId);
      if failure.Some? {
        return;
      }
      progress := progress + [Progress(currentFile, |entries|)];
    }

    /** `_add_paper_pages_to_pdf_writer`: appends the member's pages one by one. */
    method AddPaperPagesToPdfWriter(writer: PdfWriter, entries: seq<Entry>, filename: string)
      returns (failure: Option<Exception>)
      requires HasEntry(entries, filename)
      modifies writer
      ensures match ContentOf(entries, filename)
        case Corrupt(message) => failure == Some(PdfReadError(message)) && writer.pages == old(writer.pages)
        case Pages(pages) => failure.None? && writer.pages == old(writer.pages) + pages
    {
      var reader := ContentOf(entries, filename);
      if reader.Corrupt? {
        return Some(PdfReadError(reader.message));
      }
      var pages := reader.pages;
      for pageNum := 0 to |pages|
        invariant writer.pages == old(writer.pages) + pages[..pageNum]
      {
        writer.AddPage(pages[pageNum]);
      }
      return None;
    }

    /**
      `_create_paper_from_pdf`: the membership test looks at the first
      whitespace token of the id, while the full id is what gets registered.
    */
    method CreatePaperFromPdf(entries: seq<Entry>, filename: string, eventId: int)
      returns (failure: Option<Exception>)
      requires HasEntry(entries, filename)
      modifies this, paperRepo
      ensures progress == old(progress)
      ensures var file := ReadPdfFile(entries, filename);
        match file.content
        case Corrupt(message) =>
          failure == Some(PdfReadError(message)) &&
          paperRepo.papers == old(paperRepo.papers) && papersRegistered == old(papersRegistered)
        case Pages(pages) =>
          if file.firstToken.None? then
            failure == Some(IndexOutOfRange) &&
            paperRepo.papers == old(paperRepo.papers) && papersRegistered == old(papersRegistered)
          else if file.firstToken.value in old(papersRegistered) then
            failure.None? &&
            paperRepo.papers == old(paperRepo.papers) && papersRegistered == old(papersRegistered)
          else
            failure.None? &&
            paperRepo.papers == old(paperRepo.papers) + [NewPaper(file.pdfId, |pages|, eventId)] &&
            papersRegistered == old(papersRegistered) + [file.pdfId]
    {
      var pdfId := PdfId(filename);
      var reader := ContentOf(entries, filename);
      if reader.Corrupt? {
        return Some(PdfReadError(reader.message));
      }
      var totalPages := |reader.pages|;
      var tokens := Split(pdfId);
      if tokens == [] {
        return Some(IndexOutOfRange);
      }
      if tokens[0] !in papersRegistered {
        paperRepo.CreatePaper(NewPaper(pdfId, totalPages, eventId));
        papersRegistered := papersRegistered + [pdfId];
      }
      return None;
    }

    /** `_upload_merged_papers_to_s3_event_folder`: one write of the merged document. */
    method UploadMergedPapersToS3EventFolder(writer: PdfWriter, eventFolder: string)
      returns (r: Result<PutObjectResponse, HttpError>)
      modifies fileHandler
      ensures var put := fileHandler.PutOutcome(eventFolder, MERGED_PAPERS_FILENAME);
        fileHandler.uploads == old(fileHandler.uploads) +
          (if put.Ok? then [StoredObject(writer.pages, eventFolder, MERGED_PAPERS_FILENAME)] else []) &&
        r == if put.Ok? then Ok(put.value) else Err(ProcessingError(StorageError(put.error)))
    {
      var put := fileHandler.PutObject(writer.pages, eventFolder, MERGED_PAPERS_FILENAME);
      if put.Err? {
        return Err(ProcessingError(StorageError(put.error)));
      }
      return Ok(put.value);
    }
  }

  // ---------------------------------------------------------------------------
  // Properties of the scan
  // ---------------------------------------------------------------------------

  /** Once a member has raised, the later members change nothing. */
  lemma {:induction false} FailureSticks(registered: seq<string>, files: seq<Option<PdfFile>>, n: nat, m: nat, eventId: int)
    requires n <= m <= |files|
    requires Scan(registered, files, n, eventId).failure.Some?
    ensures Scan(registered, files, m, eventId) == Scan(registered, files, n, eventId)
    decreases m
  {
    if m > n {
      FailureSticks(registered, files, n, m - 1, eventId);
    }
  }

  lemma AppendAssociates<T>(a: seq<T>, b: seq<T>, c: seq<T>)
    ensures (a + b) + c == a + (b + c)
  {
  }

  /**
    The step of a PDF member as the loop sees it: the effect of processing
    the file it extracts to, computed from the state before it, is applied.
  */
  lemma ScanStepPdfState(registered: seq<string>, entries: seq<Entry>, files: seq<Option<PdfFile>>, i: nat,
                         eventId: int, st: ScanState, filename: string, eff: PdfEffect)
    requires i < |entries| == |files| && files[i] == ListingAt(entries, i)
    requires filename == entries[i].name && IsPdfName(filename)
    requires st == Scan(registered, files, i, eventId) && st.failure.None?
    requires HasEntry(entries, filename)
    requires eff == ProcessPdf(st.registered, ReadPdfFile(entries, filename), eventId, i + 1, |entries|)
    ensures Scan(registered, files, i + 1, eventId) == Apply(st, eff)
  {
  }

  /** The loop stops at the last member or at one that raised; either way its state is the outcome of the whole scan. */
  lemma ScanStopsAt(registered: seq<string>, files: seq<Option<PdfFile>>, n: nat, eventId: int, st: ScanState)
    requires n <= |files| && st == Scan(registered, files, n, eventId) && (n == |files| || st.failure.Some?)
    ensures Scan(registered, files, |files|, eventId) == st
  {
    if n < |files| {
      FailureSticks(registered, files, n, |files|, eventId);
    }
  }

  /** Applying an effect, field by field, with the service's earlier papers and reports in front. */
  lemma ApplyParts(st: ScanState, eff: PdfEffect, papers0: seq<Paper>, progress0: seq<Progress>)
    ensures var st' := Apply(st, eff);
      st'.pages == st.pages + eff.pages &&
      papers0 + st'.created == (papers0 + st.created) + OptionToSeq(eff.paper) &&
      st'.registered == st.registered + Ids(OptionToSeq(eff.paper)) &&
      progress0 + st'.progress == (progress0 + st.progress) + OptionToSeq(eff.report) &&
      st'.failure == eff.failure
  {
    AppendAssociates(papers0, st.created, OptionToSeq(eff.paper));
    AppendAssociates(progress0, st.progress, OptionToSeq(eff.report));
  }

  lemma ScanStepOther(registered: seq<string>, entries: seq<Entry>, files: seq<Option<PdfFile>>, i: nat, eventId: int)
    requires i < |entries| == |files| && files[i] == ListingAt(entries, i) && !IsPdfName(entries[i].name)
    ensures Scan(registered, files, i + 1, eventId) == Scan(registered, files, i, eventId)
  {
  }

  // ---------------------------------------------------------------------------
  // What the scan produces
  // ---------------------------------------------------------------------------

  function PagesOf(file: Option<PdfFile>): seq<Page>
  {
    if file.Some? && file.value.content.Pages? then file.value.content.pages else []
  }

  /** The pages of the readable PDF files, in order. */
  function PdfPages(files: seq<Option<PdfFile>>): seq<Page>
    decreases |files|
  {
    if files == [] then [] else PdfPages(files[..|files| - 1]) + PagesOf(files[|files| - 1])
  }

  /** A scan that raised nothing has merged the pages of every PDF member, in archive order. */
  lemma {:induction false} ScanMergesPages(registered: seq<string>, files: seq<Option<PdfFile>>, n: nat, eventId: int)
    requires n <= |files|
    requires Scan(registered, files, n, eventId).failure.None?
    ensures Scan(registered, files, n, eventId).pages == PdfPages(files[..n])
    decreases n
  {
    if n > 0 {
      ScanMergesPages(registered, files, n - 1, eventId);
      assert files[..n][..n - 1] == files[..n - 1];
    }
  }

  /** The positions below n of the PDF members, in order. */
  function PdfPositions(files: seq<Option<PdfFile>>, n: nat): seq<nat>
    requires n <= |files|
    decreases n
  {
    if n == 0 then [] else PdfPositions(files, n - 1) + (if files[n - 1].Some? then [n - 1] else [])
  }

  /** PdfPositions lists exactly the PDF members below n, in increasing order. */
  lemma {:induction false} PdfPositionsAre(files: seq<Option<PdfFile>>, n: nat)
    requires n <= |files|
    ensures forall j :: 0 <= j < |PdfPositions(files, n)| ==>
      PdfPositions(files, n)[j] < n && files[PdfPositions(files, n)[j]].Some?
    ensures forall k :: 0 <= k < n && files[k].Some? ==> k in PdfPositions(files, n)
    ensures forall i, j :: 0 <= i < j < |PdfPositions(files, n)| ==>
      PdfPositions(files, n)[i] < PdfPositions(files, n)[j]
    decreases n
  {
    if n > 0 {
      PdfPositionsAre(files, n - 1);
      var ps, ps' := PdfPositions(files, n - 1), PdfPositions(files, n);
      if files[n - 1].Some? {
        assert ps' == ps + [n - 1];
        forall j | 0 <= j < |ps'| ensures ps'[j] < n && files[ps'[j]].Some? {
          if j < |ps| {
            assert ps'[j] == ps[j];
          } else {
            assert ps'[j] == n - 1;
          }
        }
        forall i, j | 0 <= i < j < |ps'| ensures ps'[i] < ps'[j] {
          assert ps'[i] == ps[i] && ps[i] < n - 1;
        }
        forall k | 0 <= k < n && files[k].Some? ensures k in ps' {
          if k < n - 1 {
            assert k in ps;
          } else {
            assert ps'[|ps|] == k;
          }
        }
      } else {
        assert ps' == ps;
      }
    }
  }

  /** The progress reports for members at the given positions: position k is file k + 1. */
  function Reports(positions: seq<nat>, total: nat): (reports: seq<Progress>)
    ensures |reports| == |positions|
    ensures forall j :: 0 <= j < |positions| ==> reports[j] == Progress(positions[j] + 1, total)
  {
    seq(|positions|, j requires 0 <= j < |positions| => Progress(positions[j] + 1, total))
  }

  /**
    A scan that raised nothing has reported every PDF member once, in order,
    as its 1-based position among all members, out of the number of members.
  */
  lemma {:induction false} ScanReportsProgress(registered: seq<string>, files: seq<Option<PdfFile>>, n: nat, eventId: int)
    requires n <= |files|
    requires Scan(registered, files, n, eventId).failure.None?
    ensures Scan(registered, files, n, eventId).progress == Reports(PdfPositions(files, n), |files|)
    decreases n
  {
    if n > 0 {
      var st := Scan(registered, files, n - 1, eventId);
      assert st.failure.None?;
      ScanReportsProgress(registered, files, n - 1, eventId);
      var before := Reports(PdfPositions(files, n - 1), |files|);
      if files[n - 1].Some? {
        var eff := ProcessPdf(st.registered, files[n - 1].value, eventId, n, |files|);
        assert eff.report == Some(Progress(n, |files|));
        assert Reports(PdfPositions(files, n), |files|) == before + [Progress(n, |files|)];
      }
    }
  }

  /** A paper made from one of the first n members: its id, its page count and the event. */
  predicate CreatedFrom(paper: Paper, files: seq<Option<PdfFile>>, n: nat, eventId: int)
    requires n <= |files|
  {
    exists k :: 0 <= k < n && files[k].Some? && files[k].value.content.Pages? &&
      paper == NewPaper(files[k].value.pdfId, |files[k].value.content.pages|, eventId)
  }

  /**
    The registry is the starting one followed by the ids of the papers created,
    and every paper created comes from a PDF member, with its page count and
    the event's id.
  */
  lemma ScanRegistersCreatedPapers(registered: seq<string>, files: seq<Option<PdfFile>>, n: nat, eventId: int)
    requires n <= |files|
    ensures var st := Scan(registered, files, n, eventId);
      st.registered == registered + Ids(st.created) &&
      forall j :: 0 <= j < |st.created| ==> CreatedFrom(st.created[j], files, n, eventId)
  {
    ScanRegistry(registered, files, n, eventId);
    ScanCreatesFromFiles(registered, files, n, eventId);
  }

  /** The registry is the starting one followed by the ids of the papers created. */
  lemma {:induction false} ScanRegistry(registered: seq<string>, files: seq<Option<PdfFile>>, n: nat, eventId: int)
    requires n <= |files|
    ensures var st := Scan(registered, files, n, eventId); st.registered == registered + Ids(st.created)
    decreases n
  {
    if n > 0 {
      ScanRegistry(registered, files, n - 1, eventId);
      var st := Scan(registered, files, n - 1, eventId);
      if st.failure.None? && files[n - 1].Some? {
        var eff := ProcessPdf(st.registered, files[n - 1].value, eventId, n, |files|);
        IdsOfAppend(st.created, OptionToSeq(eff.paper));
        AppendAssociates(registered, Ids(st.created), Ids(OptionToSeq(eff.paper)));
      }
    }
  }

  /** Every paper created comes from a PDF member, with its page count and the event's id. */
  lemma {:induction false} ScanCreatesFromFiles(registered: seq<string>, files: seq<Option<PdfFile>>, n: nat, eventId: int)
    requires n <= |files|
    ensures forall j :: 0 <= j < |Scan(registered, files, n, eventId).created| ==>
      CreatedFrom(Scan(registered, files, n, eventId).created[j], files, n, eventId)
    decreases n
  {
    if n > 0 {
      ScanCreatesFromFiles(registered, files, n - 1, eventId);
      var st := Scan(registered, files, n - 1, eventId);
      forall j | 0 <= j < |st.created|
        ensures CreatedFrom(st.created[j], files, n, eventId)
      {
        assert CreatedFrom(st.created[j], files, n - 1, eventId);
        var k :| 0 <= k < n - 1 && files[k].Some? && files[k].value.content.Pages? &&
          st.created[j] == NewPaper(files[k].value.pdfId, |files[k].value.content.pages|, eventId);
      }
      if st.failure.None? && files[n - 1].Some? {
        var eff := ProcessPdf(st.registered, files[n - 1].value, eventId, n, |files|);
        if eff.paper.Some? {
          assert CreatedFrom(eff.paper.value, files, n, eventId);
          assert Apply(st, eff).created[|st.created|] == eff.paper.value;
        }
      }
    }
  }

  /**
    Every PDF member's id is one word with no whitespace, so that the test
    (its first token) and the registration (the whole id) use the same string.
  */
  predicate PlainIds(files: seq<Option<PdfFile>>)
  {
    forall k :: 0 <= k < |files| && files[k].Some? ==> files[k].value.firstToken == Some(files[k].value.pdfId)
  }

  /** With plain ids, no id is created twice, nor when it was registered before the scan. */
  lemma {:induction false} PlainIdsCreatedOnce(registered: seq<string>, files: seq<Option<PdfFile>>, n: nat, eventId: int)
    requires n <= |files| && PlainIds(files)
    ensures var st := Scan(registered, files, n, eventId);
      (forall i, j :: 0 <= i < j < |st.created| ==> st.created[i].pdfId != st.created[j].pdfId) &&
      (forall j :: 0 <= j < |st.created| ==> st.created[j].pdfId !in registered)
    decreases n
  {
    if n > 0 {
      PlainIdsCreatedOnce(registered, files, n - 1, eventId);
      ScanRegistry(registered, files, n - 1, eventId);
      var st := Scan(registered, files, n - 1, eventId);
      if st.failure.None? && files[n - 1].Some? {
        var file := files[n - 1].value;
        var eff := ProcessPdf(st.registered, file, eventId, n, |files|);
        if eff.paper.Some? {
          var id := file.pdfId;
          assert eff.paper.value.pdfId == id;
          assert id !in registered + Ids(st.created);
          forall j | 0 <= j < |st.created|
            ensures st.created[j].pdfId != id
          {
            assert (registered + Ids(st.created))[|registered| + j] == st.created[j].pdfId;
          }
          assert Scan(registered, files, n, eventId).created == st.created + [eff.paper.value];
        }
      }
    }
  }

  /** With plain ids, a scan that raised nothing has registered the id of every PDF member. */
  lemma {:induction false} PlainIdsAllRegistered(registered: seq<string>, files: seq<Option<PdfFile>>, n: nat, eventId: int)
    requires n <= |files| && PlainIds(files)
    requires Scan(registered, files, n, eventId).failure.None?
    ensures forall k :: 0 <= k < n && files[k].Some? ==>
      files[k].value.pdfId in Scan(registered, files, n, eventId).registered
    decreases n
  {
    if n > 0 {
      var st := Scan(registered, files, n - 1, eventId);
      assert st.failure.None?;
      PlainIdsAllRegistered(registered, files, n - 1, eventId);
      var st' := Scan(registered, files, n, eventId);
      if files[n - 1].Some? {
        var file := files[n - 1].value;
        var eff := ProcessPdf(st.registered, file, eventId, n, |files|);
        assert st'.registered == st.registered + Ids(OptionToSeq(eff.paper));
        if eff.paper.Some? {
          assert Ids(OptionToSeq(eff.paper)) == [file.pdfId];
          assert st'.registered[|st.registered|] == file.pdfId;
        }
      }
    }
  }

  // ---------------------------------------------------------------------------
  // From the archive's members to the files the scan sees
  // ---------------------------------------------------------------------------

  /** With distinct names, every PDF member is read as its own content, under its own id. */
  lemma ListingOfDistinctNames(entries: seq<Entry>, k: nat)
    requires DistinctNames(entries) && k < |entries| && IsPdfName(entries[k].name)
    ensures Listing(entries)[k] ==
      Some(PdfFile(entries[k].content, PdfId(entries[k].name), FirstTokenOf(PdfId(entries[k].name))))
  {
    ContentOfDistinct(entries, k);
  }

  /** The pages one member contributes: its own pages when it is a readable PDF. */
  function MemberPages(entry: Entry): seq<Page>
  {
    if IsPdfName(entry.name) && entry.content.Pages? then entry.content.pages else []
  }

  /** The pages of the PDF members, in archive order. */
  function EntryPages(entries: seq<Entry>): seq<Page>
    decreases |entries|
  {
    if entries == [] then [] else EntryPages(entries[..|entries| - 1]) + MemberPages(entries[|entries| - 1])
  }

  /** Every member's file contributes exactly that member's own pages. */
  predicate MembersReadAsThemselves(entries: seq<Entry>)
  {
    forall k :: 0 <= k < |entries| ==> PagesOf(Listing(entries)[k]) == MemberPages(entries[k])
  }

  /** With distinct names, the pages the scan sees are those of the PDF members, in archive order. */
  lemma PdfPagesOfDistinctNames(entries: seq<Entry>, n: nat)
    requires DistinctNames(entries) && n <= |entries|
    ensures PdfPages(Listing(entries)[..n]) == EntryPages(entries[..n])
  {
    forall k | 0 <= k < |entries|
      ensures PagesOf(Listing(entries)[k]) == MemberPages(entries[k])
    {
      PagesOfDistinctMember(entries, k);
    }
    PdfPagesOfMembers(entries, n);
  }

  lemma {:induction false} PdfPagesOfMembers(entries: seq<Entry>, n: nat)
    requires MembersReadAsThemselves(entries) && n <= |entries|
    ensures PdfPages(Listing(entries)[..n]) == EntryPages(entries[..n])
    decreases n
  {
    if n > 0 {
      PdfPagesOfMembers(entries, n - 1);
      PagesOfPrefixes(entries, n);
    }
  }

  /** Both page lists of the first n members grow by the pages of member n - 1. */
  lemma PagesOfPrefixes(entries: seq<Entry>, n: nat)
    requires 0 < n <= |entries|
    ensures PdfPages(Listing(entries)[..n]) == PdfPages(Listing(entries)[..n - 1]) + PagesOf(Listing(entries)[n - 1])
    ensures EntryPages(entries[..n]) == EntryPages(entries[..n - 1]) + MemberPages(entries[n - 1])
  {
    var files, es := Listing(entries)[..n], entries[..n];
    assert files[..n - 1] == Listing(entries)[..n - 1];
    assert es[..n - 1] == entries[..n - 1];
  }

  /** With distinct names, the file of member k contributes exactly that member's own pages. */
  lemma PagesOfDistinctMember(entries: seq<Entry>, k: nat)
    requires DistinctNames(entries) && k < |entries|
    ensures PagesOf(Listing(entries)[k]) == MemberPages(entries[k])
  {
    if IsPdfName(entries[k].name) {
      ListingOfDistinctNames(entries, k);
    } else {
      assert Listing(entries)[k] == ListingAt(entries, k);
    }
  }

  /** A member name whose id is one non-empty word without whitespace. */
  predicate PlainName(name: string)
  {
    PdfId(name) != [] && NoSpace(PdfId(name))
  }

  lemma ListingOfPlainNames(entries: seq<Entry>)
    requires forall k :: 0 <= k < |entries| && IsPdfName(entries[k].name) ==> PlainName(entries[k].name)
    ensures PlainIds(Listing(entries))
  {
    forall k | 0 <= k < |entries| && IsPdfName(entries[k].name)
      ensures FirstTokenOf(PdfId(entries[k].name)) == Some(PdfId(entries[k].name))
    {
      FirstTokenOfWord(PdfId(entries[k].name));
    }
  }

  /**
    A scan of an archive with distinct member names that raised nothing has
    merged the pages of the PDF members in archive order and reported every
    PDF member as its position among all the members, out of their number.
  */
  lemma ScanOfDistinctMembers(registered: seq<string>, entries: seq<Entry>, eventId: int)
    requires DistinctNames(entries)
    requires Scan(registered, Listing(entries), |entries|, eventId).failure.None?
    ensures var scan := Scan(registered, Listing(entries), |entries|, eventId);
      scan.pages == EntryPages(entries) &&
      scan.progress == Reports(PdfPositions(Listing(entries), |entries|), |entries|)
  {
    var files := Listing(entries);
    assert files[..|entries|] == files;
    assert entries[..|entries|] == entries;
    ScanMergesPages(registered, files, |entries|, eventId);
    PdfPagesOfDistinctNames(entries, |entries|);
    ScanReportsProgress(registered, files, |entries|, eventId);
  }

  /**
    A merge that succeeds on an archive with distinct member names stores one
    document, the pages of the PDF members in archive order, in the event's
    folder as "merged_papers.pdf", and ends with an empty registry.
  */
  lemma MergeOfDistinctMembers(eventId: int, event: Option<Event>, paperCount: nat, registered: seq<string>,
                               name: string, entries: seq<Entry>, store: FileHandler)
    requires DistinctNames(entries)
    requires Merge(eventId, event, paperCount, registered, Upload(Some(name), Zip(entries)), store).result.Ok?
    ensures var m := Merge(eventId, event, paperCount, registered, Upload(Some(name), Zip(entries)), store);
      event.Some? && m.registered == [] &&
      m.uploads == [StoredObject(EntryPages(entries), event.value.s3FolderName, MERGED_PAPERS_FILENAME)]
  {
    var scan := ProcessZip(registered, Upload(Some(name), Zip(entries)), eventId);
    assert MergeGuard(eventId, event, paperCount).None? && scan.failure.None?;
    assert scan == Scan(registered, Listing(entries), |entries|, eventId);
    ScanOfDistinctMembers(registered, entries, eventId);
  }

  // ---------------------------------------------------------------------------
  // The first-token test, on concrete archives
  // ---------------------------------------------------------------------------

  /** The id of `dir + stem + ".pdf"` is the stem. */
  lemma PdfIdOfName(dir: string, stem: string)
    requires dir == [] || dir[|dir| - 1] == '/'
    requires '/' !in stem && exists k :: 0 <= k < |stem| && stem[k] != '.'
    ensures PdfId(dir + stem + ".pdf") == stem
  {
    var ext := ".pdf";
    assert ext[1..] == "pdf";
    StemOfPath(dir, stem, ext);
  }

  /** A name ending in ".pdf" written in lower case is a PDF name. */
  lemma LowerCasePdfSuffix(name: string)
    requires EndsWith(name, ".pdf")
    ensures IsPdfName(name)
  {
    assert Lower(".pdf") == ".pdf" by {
      assert LowerChar('.') == '.' && LowerChar('p') == 'p' && LowerChar('d') == 'd' && LowerChar('f') == 'f';
    }
    EndsWithCaseFolded(name, ".pdf");
  }

  /** A name ending in ".zip" written in lower case is a zip name. */
  lemma LowerCaseZipSuffix(name: string)
    requires EndsWith(name, ".zip")
    ensures IsZipName(name)
  {
    assert Lower(".zip") == ".zip" by {
      assert LowerChar('.') == '.' && LowerChar('z') == 'z' && LowerChar('i') == 'i' && LowerChar('p') == 'p';
    }
    EndsWithCaseFolded(name, ".zip");
  }

  /** A name `dir + stem + ".pdf"` is a PDF name whose id is the stem. */
  lemma PdfNameOf(dir: string, stem: string)
    requires dir == [] || dir[|dir| - 1] == '/'
    requires '/' !in stem && exists k :: 0 <= k < |stem| && stem[k] != '.'
    ensures IsPdfName(dir + stem + ".pdf") && PdfId(dir + stem + ".pdf") == stem
  {
    PdfIdOfName(dir, stem);
    EndsWithAppended(dir + stem, ".pdf");
    LowerCasePdfSuffix(dir + stem + ".pdf");
  }

  /** Two PDF members with different names are read as themselves. */
  lemma ListingOfTwo(name1: string, content1: PdfContent, name2: string, content2: PdfContent)
    requires name1 != name2 && IsPdfName(name1) && IsPdfName(name2)
    ensures Listing([Entry(name1, content1), Entry(name2, content2)]) ==
      [Some(PdfFile(content1, PdfId(name1), FirstTokenOf(PdfId(name1)))),
       Some(PdfFile(content2, PdfId(name2), FirstTokenOf(PdfId(name2))))]
  {
    var entries := [Entry(name1, content1), Entry(name2, content2)];
    assert DistinctNames(entries);
    ListingOfDistinctNames(entries, 0);
    ListingOfDistinctNames(entries, 1);
    var files := Listing(entries);
    assert |files| == 2;
    assert files == [files[0], files[1]];
  }

  /** A name `stem + ".pdf"` with no directory is a PDF name whose id is the stem. */
  lemma PdfNameOfStem(stem: string)
    requires '/' !in stem && exists k :: 0 <= k < |stem| && stem[k] != '.'
    ensures IsPdfName(stem + ".pdf") && PdfId(stem + ".pdf") == stem
  {
    var ext := ".pdf";
    assert ext[1..] == "pdf";
    RootOfName(stem, ext);
    BasenameAfterSlash([], stem + ext);
    assert [] + (stem + ext) == stem + ext;
    EndsWithAppended(stem, ext);
    LowerCasePdfSuffix(stem + ext);
  }

  /** An id made of a word and then whitespace: its first token is the word, and it names a PDF member. */
  lemma SpacedStem(word: string, rest: string)
    requires word != [] && NoSpace(word) && rest != [] && IsSpace(rest[0]) && '/' !in word + rest
    ensures FirstTokenOf(word + rest) == Some(word)
    ensures exists k :: 0 <= k < |word + rest| && (word + rest)[k] != '.'
    ensures IsPdfName(word + rest + ".pdf") && PdfId(word + rest + ".pdf") == word + rest
  {
    FirstToken([], word, rest);
    assert [] + word + rest == word + rest;
    assert (word + rest)[|word|] == rest[0];
    PdfNameOfStem(word + rest);
  }

  /** A one-word id: its first token is itself, and it names a PDF member. */
  lemma PlainStem(word: string)
    requires word != [] && NoSpace(word) && '/' !in word && exists k :: 0 <= k < |word| && word[k] != '.'
    ensures FirstTokenOf(word) == Some(word)
    ensures IsPdfName(word + ".pdf") && PdfId(word + ".pdf") == word
  {
    FirstTokenOfWord(word);
    PdfNameOfStem(word);
  }

  /** A zip upload of two distinct PDF members is scanned as the two files they extract to. */
  lemma ZipOfTwo(registered: seq<string>, zipName: string, name1: string, content1: PdfContent,
                 name2: string, content2: PdfContent, eventId: int)
    requires zipName != [] && IsZipName(zipName)
    requires name1 != name2 && IsPdfName(name1) && IsPdfName(name2)
    ensures ProcessZip(registered, Upload(Some(zipName), Zip([Entry(name1, content1), Entry(name2, content2)])), eventId) ==
      Scan(registered, [Some(PdfFile(content1, PdfId(name1), FirstTokenOf(PdfId(name1)))),
                        Some(PdfFile(content2, PdfId(name2), FirstTokenOf(PdfId(name2))))], 2, eventId)
  {
    ListingOfTwo(name1, content1, name2, content2);
  }

  /**
    The scan of two readable PDFs from an empty registry: the first creates
    its paper; the second creates one exactly when its first token is not the
    first one's id.
  */
  lemma ScanOfTwo(id1: string, token1: string, pages1: seq<Page>, id2: string, token2: string, pages2: seq<Page>,
                  eventId: int)
    ensures var scan := Scan([], [Some(PdfFile(Pages(pages1), id1, Some(token1))),
                                  Some(PdfFile(Pages(pages2), id2, Some(token2)))], 2, eventId);
      scan.failure.None? && scan.pages == pages1 + pages2 &&
      scan.progress == [Progress(1, 2), Progress(2, 2)] &&
      (token2 == id1 ==> scan.created == [NewPaper(id1, |pages1|, eventId)] && scan.registered == [id1]) &&
      (token2 != id1 ==> scan.created == [NewPaper(id1, |pages1|, eventId), NewPaper(id2, |pages2|, eventId)] &&
                         scan.registered == [id1, id2])
  {
    var files := [Some(PdfFile(Pages(pages1), id1, Some(token1))), Some(PdfFile(Pages(pages2), id2, Some(token2)))];
    var first := Scan([], files, 1, eventId);
    assert first == ScanState(pages1, [NewPaper(id1, |pages1|, eventId)], [id1], [Progress(1, 2)], None);
    assert token2 in first.registered <==> token2 == id1;
  }

  /**
    Two members whose id is the same word followed by whitespace, such as
    "A x.pdf" and "copy/A x.pdf", both create a paper with that id: the test
    asks whether the first word is registered, but the whole id is what gets
    registered.
  */
  lemma SpacedIdsAreNotDeduplicated(word: string, rest: string, dir: string, zipName: string,
                                    pages1: seq<Page>, pages2: seq<Page>, eventId: int)
    requires word != [] && NoSpace(word) && rest != [] && IsSpace(rest[0]) && '/' !in word + rest
    requires dir != [] && dir[|dir| - 1] == '/'
    requires zipName != [] && IsZipName(zipName)
    ensures var entries := [Entry(word + rest + ".pdf", Pages(pages1)), Entry(dir + (word + rest) + ".pdf", Pages(pages2))];
      var scan := ProcessZip([], Upload(Some(zipName), Zip(entries)), eventId);
      scan.failure.None? &&
      scan.created == [NewPaper(word + rest, |pages1|, eventId), NewPaper(word + rest, |pages2|, eventId)] &&
      scan.registered == [word + rest, word + rest]
  {
    var id := word + rest;
    SpacedStem(word, rest);
    PdfNameOf(dir, id);
    assert |id + ".pdf"| != |dir + id + ".pdf"|;
    ZipOfTwo([], zipName, id + ".pdf", Pages(pages1), dir + id + ".pdf", Pages(pages2), eventId);
    assert word != id by { assert |word| != |id|; }
    ScanOfTwo(id, word, pages1, id, word, pages2, eventId);
  }

  /**
    A member "A.pdf" followed by a member "A x.pdf" creates one paper only:
    the first word of "A x" is the already registered "A".
  */
  lemma FirstWordCollision(word: string, rest: string, zipName: string,
                           pages1: seq<Page>, pages2: seq<Page>, eventId: int)
    requires word != [] && NoSpace(word) && rest != [] && IsSpace(rest[0]) && '/' !in word + rest
    requires exists k :: 0 <= k < |word| && word[k] != '.'
    requires zipName != [] && IsZipName(zipName)
    ensures var entries := [Entry(word + ".pdf", Pages(pages1)), Entry(word + rest + ".pdf", Pages(pages2))];
      var scan := ProcessZip([], Upload(Some(zipName), Zip(entries)), eventId);
      scan.failure.None? && scan.created == [NewPaper(word, |pages1|, eventId)] && scan.registered == [word] &&
      scan.pages == pages1 + pages2
  {
    assert '/' !in word by { assert forall i :: 0 <= i < |word| ==> (word + rest)[i] == word[i]; }
    PlainStem(word);
    SpacedStem(word, rest);
    assert |word + ".pdf"| != |word + rest + ".pdf"|;
    ZipOfTwo([], zipName, word + ".pdf", Pages(pages1), word + rest + ".pdf", Pages(pages2), eventId);
    ScanOfTwo(word, word, pages1, word + rest, word, pages2, eventId);
  }

  /** A blank id (whitespace only) names a PDF member and has no first token. */
  lemma BlankStem(blank: string)
    requires blank != [] && AllSpace(blank)
    ensures FirstTokenOf(blank).None?
    ensures IsPdfName(blank + ".pdf") && PdfId(blank + ".pdf") == blank
  {
    assert forall i :: 0 <= i < |blank| ==> blank[i] != '/';
    assert blank[0] != '.';
    PdfNameOfStem(blank);
  }

  /** A readable PDF with a first token followed by a readable PDF with a blank id: the second raises. */
  lemma ScanOfBlankSecond(id1: string, token1: string, pages1: seq<Page>, id2: string, pages2: seq<Page>, eventId: int)
    ensures Scan([], [Some(PdfFile(Pages(pages1), id1, Some(token1))), Some(PdfFile(Pages(pages2), id2, None))], 2, eventId) ==
      ScanState(pages1 + pages2, [NewPaper(id1, |pages1|, eventId)], [id1], [Progress(1, 2)], Some(IndexOutOfRange))
  {
    var files := [Some(PdfFile(Pages(pages1), id1, Some(token1))), Some(PdfFile(Pages(pages2), id2, None))];
    var first := Scan([], files, 1, eventId);
    assert first == ScanState(pages1, [NewPaper(id1, |pages1|, eventId)], [id1], [Progress(1, 2)], None);
  }

  /**
    A member whose id is blank, such as " .pdf", raises IndexError after its
    pages were merged and after the papers before it were created; the
    registry keeps their ids.
  */
  lemma BlankIdRaises(word: string, blank: string, zipName: string, pages1: seq<Page>, pages2: seq<Page>, eventId: int)
    requires word != [] && NoSpace(word) && '/' !in word && exists k :: 0 <= k < |word| && word[k] != '.'
    requires blank != [] && AllSpace(blank)
    requires zipName != [] && IsZipName(zipName)
    ensures ProcessZip([], Upload(Some(zipName), Zip([Entry(word + ".pdf", Pages(pages1)), Entry(blank + ".pdf", Pages(pages2))])), eventId) ==
      ScanState(pages1 + pages2, [NewPaper(word, |pages1|, eventId)], [word], [Progress(1, 2)], Some(IndexOutOfRange))
  {
    PlainStem(word);
    BlankStem(blank);
    assert (word + ".pdf")[0] != (blank + ".pdf")[0];
    ZipOfTwo([], zipName, word + ".pdf", Pages(pages1), blank + ".pdf", Pages(pages2), eventId);
    ScanOfBlankSecond(word, word, pages1, blank, pages2, eventId);
  }

  /**
    A merge that fails while processing the archive keeps the papers created
    so far and does not clear the registry: it ends as the starting registry
    followed by the ids of those papers.
  */
  lemma FailedMergeKeepsRegistry(eventId: int, event: Option<Event>, paperCount: nat, registered: seq<string>,
                                 name: string, entries: seq<Entry>, store: FileHandler)
    requires MergeGuard(eventId, event, paperCount).None?
    requires ProcessZip(registered, Upload(Some(name), Zip(entries)), eventId).failure.Some?
    ensures var m := Merge(eventId, event, paperCount, registered, Upload(Some(name), Zip(entries)), store);
      m.result.Err? && m.uploads == [] && m.registered == registered + Ids(m.created) &&
      forall j :: 0 <= j < |m.created| ==> CreatedFrom(m.created[j], Listing(entries), |entries|, eventId)
  {
    if AddZipFileToTempDir(Some(name)).None? {
      ScanRegistersCreatedPapers(registered, Listing(entries), |entries|, eventId);
    }
  }

  /**
    The merge of an archive with a blank id is a 500 "list index out of
    range" that leaves the first paper created and its id registered.
  */
  lemma BlankIdLeaksRegistry(eventId: int, event: Option<Event>, paperCount: nat, word: string, blank: string,
                             zipName: string, pages1: seq<Page>, pages2: seq<Page>, store: FileHandler)
    requires MergeGuard(eventId, event, paperCount).None?
    requires word != [] && NoSpace(word) && '/' !in word && exists k :: 0 <= k < |word| && word[k] != '.'
    requires blank != [] && AllSpace(blank)
    requires zipName != [] && IsZipName(zipName)
    ensures var m := Merge(eventId, event, paperCount, [],
                           Upload(Some(zipName), Zip([Entry(word + ".pdf", Pages(pages1)), Entry(blank + ".pdf", Pages(pages2))])), store);
      m.result == Err(HttpException(INTERNAL_SERVER_ERROR, PROCESSING_ERROR + "list index out of range")) &&
      m.created == [NewPaper(word, |pages1|, eventId)] && m.registered == [word] && m.uploads == []
  {
    BlankIdRaises(word, blank, zipName, pages1, pages2, eventId);
  }

  /** A one-member archive is scanned as the file its member extracts to. */
  lemma ZipOfOne(registered: seq<string>, zipName: string, name: string, content: PdfContent, eventId: int)
    requires zipName != [] && IsZipName(zipName) && IsPdfName(name)
    ensures ProcessZip(registered, Upload(Some(zipName), Zip([Entry(name, content)])), eventId) ==
      Scan(registered, [Some(PdfFile(content, PdfId(name), FirstTokenOf(PdfId(name))))], 1, eventId)
  {
    var entries := [Entry(name, content)];
    ListingOfDistinctNames(entries, 0);
    var files := Listing(entries);
    assert files == [files[0]];
  }

  /**
    A later merge, on the same service, of an archive holding a member with
    a leaked id creates no paper for it, although its pages are merged.
  */
  lemma LeakedIdIsSkipped(registered: seq<string>, word: string, zipName: string, pages: seq<Page>, eventId: int)
    requires word in registered
    requires word != [] && NoSpace(word) && '/' !in word && exists k :: 0 <= k < |word| && word[k] != '.'
    requires zipName != [] && IsZipName(zipName)
    ensures var scan := ProcessZip(registered, Upload(Some(zipName), Zip([Entry(word + ".pdf", Pages(pages))])), eventId);
      scan.failure.None? && scan.created == [] && scan.registered == registered &&
      scan.pages == pages && scan.progress == [Progress(1, 1)]
  {
    PlainStem(word);
    ZipOfOne(registered, zipName, word + ".pdf", Pages(pages), eventId);
  }

  /** `str()` of the statuses 404 and 415. */
  lemma StatusTexts()
    ensures NatToString(NOT_FOUND) == "404" && NatToString(UNSUPPORTED_MEDIA_TYPE) == "415"
  {
    assert NatToString(4) == "4" && NatToString(40) == "40" && NatToString(41) == "41";
  }

  /** A status and a detail joined by ": ". */
  lemma JoinedText(status: string, detail: string, text: string)
    requires |text| == |status| + 2 + |detail| && text[..|status|] == status
    requires text[|status|] == ':' && text[|status| + 1] == ' ' && text[|status| + 2..] == detail
    ensures status + ": " + detail == text
  {
    assert text == text[..|status|] + text[|status|..|status| + 2] + text[|status| + 2..];
  }

  /** `str()` of the exception a missing filename raises. */
  lemma MissingNameText()
    ensures Describe(Raised(NOT_FOUND, "The file must have a name")) == "404: The file must have a name"
  {
    StatusTexts();
    JoinedText("404", "The file must have a name", "404: The file must have a name");
  }

  /** `str()` of the exception a filename without ".zip" raises. */
  lemma NotZipNameText()
    ensures Describe(Raised(UNSUPPORTED_MEDIA_TYPE, "The file must be a zip file")) == "415: The file must be a zip file"
  {
    StatusTexts();
    JoinedText("415", "The file must be a zip file", "415: The file must be a zip file");
  }

  /**
    Past the guard, the upload checks of `_add_zip_file_to_temp_dir` and the
    zip reader surface as 500s whose detail carries `str()` of the exception,
    and nothing is created, registered or stored.
  */
  lemma UploadErrorsAreInternalErrors(eventId: int, event: Option<Event>, paperCount: nat, registered: seq<string>,
                                      upload: Upload, store: FileHandler)
    requires MergeGuard(eventId, event, paperCount).None?
    ensures var m := Merge(eventId, event, paperCount, registered, upload, store);
      !Truthy(upload.filename) ==>
        m == MergeEffect(Err(HttpException(INTERNAL_SERVER_ERROR, PROCESSING_ERROR + "404: The file must have a name")),
                         [], [], registered, [])
    ensures var m := Merge(eventId, event, paperCount, registered, upload, store);
      Truthy(upload.filename) && !IsZipName(upload.filename.value) ==>
        m == MergeEffect(Err(HttpException(INTERNAL_SERVER_ERROR, PROCESSING_ERROR + "415: The file must be a zip file")),
                         [], [], registered, [])
    ensures var m := Merge(eventId, event, paperCount, registered, upload, store);
      Truthy(upload.filename) && IsZipName(upload.filename.value) && upload.archive.NotAZip? ==>
        m == MergeEffect(Err(HttpException(INTERNAL_SERVER_ERROR, PROCESSING_ERROR + "File is not a zip file")),
                         [], [], registered, [])
  {
    MissingNameText();
    NotZipNameText();
  }
}

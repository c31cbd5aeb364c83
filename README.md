# Events manager: merged papers, event responses and the events router

This project models three parts of the events manager of a conference
paper-management API, and proves properties of the model.

- **`MergedPapersService.merge_pdf_files`** turns an uploaded zip archive of
  papers into one merged PDF, stored in the event's folder as
  `merged_papers.pdf`. On the way it creates one paper row per PDF member
  whose id's first word is not yet registered.
  The service is a class: its `_papers_registered` list is a `seq<string>`
  field, the paper table and the object store are classes with `seq`
  fields, and the loop over the archive's members is a `while` loop. Its
  invariants tie the loop to `Scan`, a function stating member by member
  what the loop has produced. `Merge` states the whole request: the guard,
  the archive, then the one write to the store. `MergePdfFiles` is proved
  to follow `Merge`, and the lemmas after the class state what `Scan` and
  `Merge` produce.
- **`EventResponse`** covers `from_event` and the `to_dict` / `from_dict` pair.
  `from_event` turns the event's three stored file keys into CDN URLs, and
  the CDN domain is a parameter.
- **The events router** covers three lookups, creation, the paginated
  listing and three PATCH endpoints. Each PATCH produces an artifact,
  stores it and records its key on the event. The services behind the
  handlers are given by their outcome: a lookup is a function of the query
  string, and the summary and anal services are the result or exception
  they return.

Modules:

- `Wrappers` holds the Option and Result types.
- `Text` models the parts of the Python standard library the code relies
  on: `str.lower`, `str.endswith`, `str.split()`, `os.path.basename`,
  `os.path.splitext` and `str(int)`.
- `Http` holds HTTP errors and status codes.
- `EventResponses`.
- `Repositories` holds the object store, the event table and the paper
  table, reduced to the state they keep.
- `MergedPapers`.
- `EventController`.

Behaviour of the code that the model keeps, as written:

- **The first-token test.** `_create_paper_from_pdf` tests whether the first
  whitespace-separated word of the id is registered, but it registers the
  whole id. So two members "A x.pdf" and "dir/A x.pdf" both create a paper
  `A x` (`SpacedIdsAreNotDeduplicated`). "A.pdf" followed by "A x.pdf"
  creates only one paper, `A` (`FirstWordCollision`). Both cases are the
  code as written.
- **Blank ids.** A member whose id is blank, such as " .pdf", makes
  `split()[0]` raise IndexError. By then its pages are already merged and
  the papers before it are already created. The registry is not cleared,
  because line 89 is never reached (`BlankIdRaises`,
  `FailedMergeKeepsRegistry`).
- **The registry outlives the request.** The service is a module-level
  singleton (api/controllers/event.py:28-30), so the ids left behind by a
  failed merge make later merges skip members with the same first word
  (`LeakedIdIsSkipped`).
- **Duplicate member names.** `zip_ref.extract(name)` resolves a name that
  occurs several times in the archive to its last member. That member's
  pages are merged once for each occurrence of the name (`ContentOfIsLastMember`).
- **Upload errors become 500s.** The 404 "The file must have a name" and
  the 415 "The file must be a zip file" are raised inside the `try` block
  of `merge_pdf_files`. The request therefore answers 500 with detail
  "An error occurred while processing the file: 404: The file must have a
  name" (or "415: …") (`UploadErrorsAreInternalErrors`). The route declares a
  415 response (api/controllers/event.py:122), but the code as written
  answers 500, and the model follows the code. The check is also on a
  ".zip" filename, not on the content of the upload.
- **Empty merged-papers key.** A merge whose store answers an empty key
  does not mark the event as merged, so the next merge passes the 400
  check. It is a 409 when the earlier merge created papers
  (`EmptyMergedKeyIsNotAMerge`, `PaperCreatingMergeBlocksNext`). When it created none, for example for an
  archive with no PDF member, the next merge passes the guard and merges
  again.

## Model

| member | source | states |
|---|---|---|
| Text.Lower | api/services/merged_papers.py:77 | no contract; defines `str.lower` character by character, folding ASCII capitals; `LowerFolds` states its properties |
| Text.EndsWith | api/services/merged_papers.py:77 | no contract; defines `str.endswith`: the suffix is no longer than the string and matches its last characters |
| Text.LowerFolds | api/services/merged_papers.py:77 | `lower()` keeps the length and folds every character on its own (ASCII letters to lower case) |
| Text.SuffixTestByCharacters | api/services/merged_papers.py:77 | for a lower-case suffix, the case-insensitive test holds iff the name is long enough and each of its last characters folds to the suffix's character |
| Text.SuffixTestIgnoresCase | api/services/merged_papers.py:100 | lower-casing the name first does not change the outcome of the suffix test |
| Text.EndsWithCaseFolded | api/services/merged_papers.py:77 | a name ending in a lower-case suffix passes the case-insensitive test |
| Text.SkipSpace | api/services/merged_papers.py:163 | answers the first non-whitespace index at or after i, and every character skipped is whitespace |
| Text.WordEnd | api/services/merged_papers.py:163 | answers the end of the word starting at i: no whitespace inside, whitespace or end of string after |
| Text.SplitFrom | api/services/merged_papers.py:163 | the split from i yields no token exactly when everything from i on is whitespace |
| Text.Split | api/services/merged_papers.py:163 | `split()` yields no token exactly when the string is all whitespace |
| Text.SplitFromTokensAreWords | api/services/merged_papers.py:163 | every token of the split from i is a non-empty whitespace-free substring |
| Text.SplitTokensAreWords | api/services/merged_papers.py:163 | every token of `split()` is a non-empty whitespace-free word |
| Text.FirstToken | api/services/merged_papers.py:163 | after leading whitespace, the first token is the word that follows, up to the next whitespace |
| Text.FirstTokenOfWord | api/services/merged_papers.py:163 | a non-empty id without whitespace is its own first token |
| Text.LastIndexOf | api/services/merged_papers.py:159 | the last index holding the character, or -1 when there is none |
| Text.LastIndexBefore | api/services/merged_papers.py:159 | the last index below n holding the character, or -1 |
| Text.LastIndexOfIs | api/services/merged_papers.py:159 | an index holding the character with none after it is the last index |
| Text.Basename | api/services/merged_papers.py:159 | no contract; defines `os.path.basename` as what follows the last '/'; `BasenameIsLastComponent` states its properties |
| Text.BasenameIsLastComponent | api/services/merged_papers.py:159 | `basename` has no '/', is a suffix of the path, and is the whole path or follows a '/' |
| Text.SplitExt | api/services/merged_papers.py:159 | no contract; defines `os.path.splitext` as CPython's `_splitext` computes it; `SplitExtParts` states its properties |
| Text.SplitExtParts | api/services/merged_papers.py:159 | `splitext` splits the name into root and extension that concatenate back; the extension is empty or a '.' followed by no '.' or '/' |
| Text.StemOfPath | api/services/merged_papers.py:159 | the id of `dir + stem + ext` is the stem, for a directory part ending in '/', a stem without '/' and not all dots, and an extension that is a '.' followed by no '.' or '/' |
| Text.BasenameAfterSlash | api/services/merged_papers.py:159 | the basename of `dir + name` is the name when dir ends in '/' and the name has no '/' |
| Text.EndsWithAppended | api/services/merged_papers.py:77 | a string followed by a suffix ends with that suffix |
| Text.RootOfName | api/services/merged_papers.py:159 | the root of `stem + ext` is the stem when the stem is not all dots |
| Text.DigitChar | api/services/merged_papers.py:34 | a decimal digit character with the given value |
| Text.NatToString | api/services/merged_papers.py:64 | `str(n)` is a non-empty digit string without a leading zero |
| Text.ParseNatToString | api/services/merged_papers.py:64 | parsing `str(n)` gives n back |
| Text.IntToString | api/services/merged_papers.py:34 | `str(i)` starts with '-' exactly for negative i, and the rest is digits |
| Text.IntRoundTrip | api/services/merged_papers.py:34 | parsing `str(i)` gives i back |
| Text.IntToStringInjective | api/services/merged_papers.py:34 | distinct integers render differently, so the 404 detail identifies the event id |
| Http.UnhandledException | api/controllers/event.py:103-107 | an exception the handler does not catch is answered with status 500 |
| EventResponses.WithStoredFile | api/controllers/event.py:109-111 | replacing one artifact's key sets that key, and leaves the other two keys and all scalars unchanged |
| EventResponses.Truthy | api/models/responses/event.py:25-39 | no contract; defines Python truthiness of a nullable key, the `if event.<key>` tests: present and non-empty |
| EventResponses.CdnUrl | api/models/responses/event.py:25-29 | a URL is present iff the stored key is truthy, and it is the domain followed by exactly the key |
| EventResponses.FromEvent | api/models/responses/event.py:17-40 | the scalars are copied; each artifact's URL is present iff its key is truthy, and it is the domain followed by the key |
| EventResponses.FromEventKeyRecoverable | api/models/responses/event.py:25-39 | stripping the domain from an artifact's URL gives back the stored key, or nothing for a falsy key |
| EventResponses.FromEventFieldsIndependent | api/models/responses/event.py:25-39 | changing one artifact's key changes only that artifact's URL, to the URL of the new key |
| EventResponses.InvalidFields | api/models/responses/event.py:7-15 | the list of offending fields is empty iff every field holds a value exactly of its declared type (no coercion) |
| EventResponses.FromDict | api/models/responses/event.py:42-44 | `from_dict` succeeds iff every field is exactly typed (no coercion); otherwise it fails naming the offending fields |
| EventResponses.ToDict | api/models/responses/event.py:46-47 | no contract; defines `to_dict` as one entry per field; `ToDictKeys`, `ToDictEntries` and `DictRoundTrip` state its properties |
| EventResponses.ToDictKeys | api/models/responses/event.py:46-47 | `to_dict` has exactly the eight field names as keys |
| EventResponses.ToDictEntries | api/models/responses/event.py:46-47 | each entry of `to_dict` is the corresponding field's value, None for a null file key |
| EventResponses.DictRoundTrip | api/models/responses/event.py:42-47 | `from_dict(to_dict(r)) == r` for every response r |
| EventResponses.DictAccepted | api/models/responses/event.py:42-47 | an exactly typed dictionary the model accepts is reproduced by `to_dict` field by field, absent optional keys as None |
| Repositories.FileHandler.PutOutcome | api/services/merged_papers.py:188-192 | a write succeeds iff the store has no outage, and then answers the store's key for the folder and filename |
| Repositories.FileHandler.PutObject | api/services/merged_papers.py:188-192 | answers the write's outcome and stores the object exactly when it succeeds |
| Repositories.EventRepository.GetEventById | api/services/merged_papers.py:30 | the event is found iff its id is in the table, and it is that row |
| Repositories.EventRepository.UpdateFilename | api/controllers/event.py:109-111 | a known event gets exactly the given key for that artifact and is answered as its response; an unknown id changes nothing and is a 404 |
| Repositories.PaperRepository.CountPapersByEventId | api/services/merged_papers.py:43 | no contract; defines `count_papers_by_event_id` as `CountFor` over the paper table |
| Repositories.CountFor | api/services/merged_papers.py:43 | at most the table's size, and 0 iff no row belongs to the event |
| Repositories.CountForAppend | api/services/merged_papers.py:43 | the count over two parts of the table is the sum of their counts |
| Repositories.CountAfterAdding | api/services/merged_papers.py:43 | adding rows, one of which belongs to the event, makes the event's count positive |
| Repositories.PaperRepository.CreatePaper | api/services/merged_papers.py:164-174 | appends exactly the given row |
| MergedPapers.Describe | api/services/merged_papers.py:64 | no contract; defines `str(e)` for each exception the processing block can meet, an `HTTPException` as "<status>: <detail>" |
| MergedPapers.ProcessingError | api/services/merged_papers.py:61-65 | a 500 whose detail is the processing prefix followed by `str()` of the exception |
| MergedPapers.AddZipFileToTempDir | api/services/merged_papers.py:93-104 | a missing or empty filename is a 404, a filename not ending in ".zip" (in any case) a 415, and the upload passes iff neither applies |
| MergedPapers.IsPdfName | api/services/merged_papers.py:77 | no contract; defines the PDF test `filename.lower().endswith(".pdf")`; `LowerCasePdfSuffix` and `Text.SuffixTestByCharacters` state its properties |
| MergedPapers.IsZipName | api/services/merged_papers.py:100 | no contract; defines the zip test `file.filename.lower().endswith(".zip")`; `LowerCaseZipSuffix` and `Text.SuffixTestByCharacters` state its properties |
| MergedPapers.PdfId | api/services/merged_papers.py:159 | no contract; defines the id as the root of the basename; `PdfIdOfName` and `Text.StemOfPath` state its value |
| MergedPapers.ContentOf | api/services/merged_papers.py:122 | no contract; defines what `extract(name)` writes as the content of the member `LastEntryBefore` finds; `ContentOfIsLastMember` states its properties |
| MergedPapers.LastEntryBefore | api/services/merged_papers.py:122 | the last index below n carrying the name, or -1 when none does |
| MergedPapers.ContentOfIsLastMember | api/services/merged_papers.py:122 | extraction yields the content of a member with that name, and no later member has the name |
| MergedPapers.ContentOfDistinct | api/services/merged_papers.py:122 | with distinct names every member is extracted as itself |
| MergedPapers.FirstTokenOf | api/services/merged_papers.py:163 | the first token is missing (IndexError) exactly when the id is blank |
| MergedPapers.ListingMembers | api/services/merged_papers.py:76-77 | one file per member, present exactly for names ending in ".pdf" (in any case), read under the member's name |
| MergedPapers.NewPaper | api/services/merged_papers.py:164-174 | no contract; defines the `PaperDTO` row: the id, the page count and the event set, the other fields None |
| MergedPapers.ProcessPdf | api/services/merged_papers.py:112-136 | no contract; defines one PDF member's effect (lines 122-144 and 156-175): its pages, the paper created unless the id's first word is registered, the progress report, or the read error or IndexError; `ProcessPdfFile` is proved to follow it |
| MergedPapers.Scan | api/services/merged_papers.py:74-87 | no contract; defines the loop member by member, member k as file k + 1, stopping at the first exception; `MergeLoop` is proved to follow it and the lemmas on `Scan` state its properties |
| MergedPapers.ProcessZip | api/services/merged_papers.py:67-91 | no contract; defines `_process_zip_file`: the upload checks, a non-zip upload as BadZipFile, then `Scan` of every member; `ProcessZipFile` is proved to follow it |
| MergedPapers.ReadPdfFile | api/services/merged_papers.py:138-161 | no contract; defines what the `PdfReader` opens at `os.path.join(temp_dir, filename)` (lines 141 and 160) after `extract` (line 122): the extracted content, the id of line 159 and its first token |
| MergedPapers.ListingAt | api/services/merged_papers.py:76-77 | no contract; defines member k of `namelist()`: its extracted file when the name passes the PDF test, nothing otherwise; `ListingMembers` states its properties |
| MergedPapers.Listing | api/services/merged_papers.py:76 | no contract; defines the files of `namelist()` in archive order, one per member; `ListingMembers` states its properties |
| MergedPapers.Ids | api/services/merged_papers.py:175 | the registered ids are the created papers' ids, one for one |
| MergedPapers.MergeGuard | api/services/merged_papers.py:30-47 | an unknown event is a 404 naming the id, a set merged-papers key a 400, existing papers a 409, in that order; the guard passes iff none applies |
| MergedPapers.Merge | api/services/merged_papers.py:27-65 | a failed guard changes nothing; success means the registry ends empty and exactly one document, the merged pages, is stored under the event's folder as "merged_papers.pdf" with the store's key answered; any other failure is a 500 with the processing prefix and stores nothing |
| MergedPapers.MergedPapersService.constructor | api/services/merged_papers.py:16-25 | keeps the three collaborators and starts with an empty registry and no progress reports |
| MergedPapers.MergeCreatesForEvent | api/services/merged_papers.py:164-174 | every paper a merge creates carries the merged event's id |
| MergedPapers.PdfWriter.AddPage | api/services/merged_papers.py:144 | appends exactly the page |
| MergedPapers.MergedPapersService.MergePdfFiles | api/services/merged_papers.py:27-65 | the answer, the papers created, the progress reports, the final registry and the stored objects are those of `Merge` for the event, paper count and registry found at the call |
| MergedPapers.MergedPapersService.ProcessZipFile | api/services/merged_papers.py:67-91 | papers and progress grow by those of `ProcessZip`; a failure is returned with the registry as it stood, success returns a fresh writer holding the merged pages and clears the registry |
| MergedPapers.MergedPapersService.MergeMembers | api/services/merged_papers.py:72-91 | papers and progress grow by exactly what `Scan` of the whole archive states; an exception is returned with the registry as the scan left it, and success returns a fresh writer holding the scan's pages and clears the registry |
| MergedPapers.MergedPapersService.MergeLoop | api/services/merged_papers.py:74-87 | the loop over the members in archive order stops after the last one or at the first exception, having produced exactly the pages, papers, registry and progress of `Scan` up to there |
| MergedPapers.MergedPapersService.MergeMember | api/services/merged_papers.py:77-87 | member i, as file i + 1, takes the state of `Scan` after i members to the state after i + 1 |
| MergedPapers.MergedPapersService.ProcessPdfFile | api/services/merged_papers.py:112-136 | the writer, papers, registry and progress grow by exactly the effect `ProcessPdf` states for the member, and its exception is returned |
| MergedPapers.MergedPapersService.AddPaperPagesToPdfWriter | api/services/merged_papers.py:138-144 | an unreadable PDF raises and adds nothing; otherwise all its pages are appended in order |
| MergedPapers.MergedPapersService.CreatePaperFromPdf | api/services/merged_papers.py:156-175 | a blank id raises IndexError; a paper with the full id, its page count and the event is created and the full id registered exactly when the id's first word is not registered |
| MergedPapers.MergedPapersService.UploadMergedPapersToS3EventFolder | api/services/merged_papers.py:177-192 | the merged pages are stored under the folder as "merged_papers.pdf" exactly when the write succeeds; its failure is a 500 |
| MergedPapers.FailureSticks | api/services/merged_papers.py:76-87 | once a member has raised, later members change nothing |
| MergedPapers.ScanStepOther | api/services/merged_papers.py:77 | a member whose name does not end in ".pdf" changes nothing |
| MergedPapers.ScanStepPdfState | api/services/merged_papers.py:77-86 | a PDF member extends the scan by the effect of processing its extracted file as file i + 1 of all members, computed from the state before it |
| MergedPapers.ScanStopsAt | api/services/merged_papers.py:76-87 | a scan stopped after the last member, or at one that raised, is the outcome of scanning the whole archive |
| MergedPapers.ApplyParts | api/services/merged_papers.py:122-136 | applying one member's effect appends its pages, its paper (if created) to the papers and its id to the registry, its progress report to the reports, and replaces the failure |
| MergedPapers.ScanMergesPages | api/services/merged_papers.py:76-87 | the merged pages are the concatenation, in archive order, of the PDF members' pages |
| MergedPapers.PdfPositionsAre | api/services/merged_papers.py:76-87 | the PDF positions are exactly the PDF members' indices, increasing |
| MergedPapers.Reports | api/services/merged_papers.py:131-136 | one report per PDF position: the position plus one, out of the number of members |
| MergedPapers.ScanReportsProgress | api/services/merged_papers.py:74-87 | `current_file` counts every member and the total is the member count, so each PDF member is reported as its position among all members |
| MergedPapers.ScanRegistersCreatedPapers | api/services/merged_papers.py:163-175 | the registry is the starting one followed by the created papers' ids, and every created paper comes from a PDF member with its page count and the event |
| MergedPapers.ScanRegistry | api/services/merged_papers.py:163-175 | the registry is the starting one followed by the ids of the papers created, in order |
| MergedPapers.ScanCreatesFromFiles | api/services/merged_papers.py:164-174 | every paper created comes from a readable PDF member, with that member's id, its page count and the event |
| MergedPapers.IdsOfAppend | api/services/merged_papers.py:175 | the ids of two runs of papers are the ids of the first followed by those of the second |
| MergedPapers.PlainIdsCreatedOnce | api/services/merged_papers.py:163-175 | when every id is one word, no id is created twice, nor one registered before |
| MergedPapers.PlainIdsAllRegistered | api/services/merged_papers.py:163-175 | when every id is one word, each PDF member's id ends up registered |
| MergedPapers.ListingOfDistinctNames | api/services/merged_papers.py:122-130 | with distinct names each PDF member is read as its own content under its own id |
| MergedPapers.PdfPagesOfDistinctNames | api/services/merged_papers.py:76-87 | with distinct names the pages of the extracted files are the PDF members' own pages in order |
| MergedPapers.PdfPagesOfMembers | api/services/merged_papers.py:76-87 | when every member's file contributes that member's own pages, the pages of the files are the PDF members' pages in archive order |
| MergedPapers.PagesOfPrefixes | api/services/merged_papers.py:76-87 | both page lists of the first n members grow by what member n - 1 contributes |
| MergedPapers.PagesOfDistinctMember | api/services/merged_papers.py:122-144 | with distinct names, the file of a member contributes exactly that member's pages, and nothing for a non-PDF name or an unreadable PDF |
| MergedPapers.ListingOfPlainNames | api/services/merged_papers.py:159-163 | members whose ids are single words give files whose first token is the whole id |
| MergedPapers.ScanOfDistinctMembers | api/services/merged_papers.py:67-91 | with distinct names a successful scan merges the PDF members' pages in archive order and reports each at its position |
| MergedPapers.MergeOfDistinctMembers | api/services/merged_papers.py:27-91 | with distinct names a successful merge stores exactly the PDF members' pages, in archive order, as "merged_papers.pdf" and clears the registry |
| MergedPapers.PdfIdOfName | api/services/merged_papers.py:159 | the id of `dir + stem + ".pdf"` is the stem |
| MergedPapers.LowerCasePdfSuffix | api/services/merged_papers.py:77 | a name ending in ".pdf" passes the PDF test |
| MergedPapers.LowerCaseZipSuffix | api/services/merged_papers.py:100 | a name ending in ".zip" passes the zip test |
| MergedPapers.PdfNameOf | api/services/merged_papers.py:77-159 | `dir + stem + ".pdf"` is a PDF name whose id is the stem |
| MergedPapers.PdfNameOfStem | api/services/merged_papers.py:77-159 | `stem + ".pdf"` is a PDF name whose id is the stem |
| MergedPapers.ListingOfTwo | api/services/merged_papers.py:76-130 | two differently named PDF members are read as themselves |
| MergedPapers.SpacedStem | api/services/merged_papers.py:159-163 | an id of a word then whitespace has the word as first token and names a PDF member |
| MergedPapers.PlainStem | api/services/merged_papers.py:159-163 | a one-word id is its own first token and names a PDF member |
| MergedPapers.ZipOfTwo | api/services/merged_papers.py:67-91 | a valid zip of two distinct PDF members is scanned as their two extracted files |
| MergedPapers.ScanOfTwo | api/services/merged_papers.py:156-175 | of two readable PDFs the second creates a paper exactly when its first token is not the first one's id |
| MergedPapers.SpacedIdsAreNotDeduplicated | api/services/merged_papers.py:163-175 | "A x.pdf" and "dir/A x.pdf" both create a paper with id "A x", and the registry holds it twice |
| MergedPapers.FirstWordCollision | api/services/merged_papers.py:163-175 | "A.pdf" then "A x.pdf" creates only the paper "A", while both members' pages are merged |
| MergedPapers.BlankStem | api/services/merged_papers.py:159-163 | a blank id names a PDF member and has no first token |
| MergedPapers.ScanOfBlankSecond | api/services/merged_papers.py:122-163 | a blank second id raises IndexError after its pages were merged, with the first paper created |
| MergedPapers.BlankIdRaises | api/services/merged_papers.py:76-163 | an archive "A.pdf", " .pdf" stops with IndexError, having merged both members' pages, created "A" and registered it |
| MergedPapers.FailedMergeKeepsRegistry | api/services/merged_papers.py:51-89 | a merge failing in the archive stores nothing, keeps the papers created, and leaves the starting registry followed by their ids |
| MergedPapers.BlankIdLeaksRegistry | api/services/merged_papers.py:51-89 | the blank-id archive answers 500 "…: list index out of range" and leaves "A" created and registered |
| MergedPapers.ZipOfOne | api/services/merged_papers.py:67-91 | a valid zip of one PDF member is scanned as its extracted file |
| MergedPapers.LeakedIdIsSkipped | api/services/merged_papers.py:163 | with a leaked id registered, a later archive holding that member merges its pages but creates no paper |
| MergedPapers.StatusTexts | api/services/merged_papers.py:64 | helper for `MissingNameText` and `NotZipNameText`: `str()` of 404 and 415 |
| MergedPapers.JoinedText | api/services/merged_papers.py:64 | helper for `MissingNameText` and `NotZipNameText`: a status and a detail joined by ": " |
| MergedPapers.MissingNameText | api/services/merged_papers.py:94-98 | `str()` of the missing-filename exception is "404: The file must have a name" |
| MergedPapers.NotZipNameText | api/services/merged_papers.py:100-104 | `str()` of the non-zip exception is "415: The file must be a zip file" |
| MergedPapers.UploadErrorsAreInternalErrors | api/services/merged_papers.py:51-65 | past the guard, a missing name, a non-zip name or a non-zip archive is a 500 carrying `str()` of the exception, with nothing created, registered or stored |
| EventController.EventNotFound | api/controllers/event.py:41 | the lookups' error is a 404 |
| EventController.FoundOrNotFound | api/controllers/event.py:40-42 | the events are answered with 200 iff there are some; none is the 404 "Event not found" |
| EventController.GetEventsByName | api/controllers/event.py:34-42 | the service's events of that name unchanged with 200 iff there are some; otherwise 404 "Event not found" |
| EventController.GetEventByInitialDate | api/controllers/event.py:44-52 | the service's events of that initial date unchanged with 200 iff there are some; otherwise 404 "Event not found" |
| EventController.GetEventByFinalDate | api/controllers/event.py:54-62 | the service's events of that final date unchanged with 200 iff there are some; otherwise 404 "Event not found" |
| EventController.CreateEvent | api/controllers/event.py:69-76 | the service's created event, unchanged, with status 201 |
| EventController.PagingParams | api/controllers/event.py:79-83 | parameters are accepted iff page ≥ 1 and 1 ≤ page_size ≤ 100, each defaulting to 1 and 10 and otherwise passed through unchanged; a rejection is a 422 naming exactly the parameters out of bounds |
| EventController.GetEvents | api/controllers/event.py:79-85 | the service's page for exactly the accepted parameters with 200, or the validation error |
| EventController.DefaultListing | api/controllers/event.py:81-85 | with no parameters the service is asked for page 1 of size 10 |
| EventController.PageSizeBounds | api/controllers/event.py:82 | a page size is accepted iff it lies in 1..100, and 101 or more is rejected naming page_size |
| EventController.UpdateSummaryFilename | api/controllers/event.py:88-111 | a summary-service exception propagates and nothing is stored or changed; otherwise the summary is stored under its folder and filename and exactly the key answered is recorded on the event; a failed write is a 500 with the event unchanged |
| EventController.UpdateMergedPapersFilename | api/controllers/event.py:114-136 | the merge's effects are those of `Merge`; the event's merged-papers key becomes exactly the stored key only when the merge succeeds; otherwise the event is unchanged and the merge's error is the answer |
| EventController.UpdateAnalFilename | api/controllers/event.py:139-156 | an anal-service exception propagates with the event unchanged; otherwise exactly the answered key is recorded on the event |
| EventController.MergedEventRejectsNextMerge | api/controllers/event.py:132-136 | once a non-empty merged-papers key is recorded, every later merge is a 400 that creates, registers and stores nothing |
| EventController.EmptyMergedKeyIsNotAMerge | api/services/merged_papers.py:37-47 | an empty recorded key does not block a later merge: with papers present it is a 409 |
| EventController.PaperCreatingMergeBlocksNext | api/services/merged_papers.py:37-47 | after a merge that created papers, a later merge of the event with an empty recorded key is a 409 that changes nothing |
| EventController.RecordedKeyIsServed | api/controllers/event.py:109-111 | after recording a non-empty key the response serves the domain followed by it, and the other URLs are unchanged |

## Left out

- The summary, anal and event services' internals are not part of this model. The summary and anal services are given by their outcome. A lookup, creation and listing are functions of their arguments.
- Repositories.EventRepository.UpdateFilename: the event service's `update_*_filename` is not part of this model. It is modelled as recording the key on the event row and answering its response. An unknown id is assumed to be a 404 "Event not found".
- PyPDF2: page content, `PdfWriter.write`/`close` and the re-read of the written file are not modelled. A PDF is a sequence of opaque pages or a read error.
- zipfile and tempfile: `namelist()` is the sequence of entries. Writing the upload and extracting members to disk are not modelled. The model assumes that the file read back at `os.path.join(temp_dir, filename)` (lines 141 and 160) is the member `extract` wrote. That fails for a member name with a leading '/' or a '..' component: `extract` strips those and the join does not, so the code then reads another file or raises. The model also assumes that writing the upload at lines 106-108 succeeds. A filename whose directory part does not exist under the temporary directory (such as `a/b.zip`) makes that write raise, a 500 the model never produces; an absolute filename is written outside the temporary directory.
- Timing and console output (`time.time`, `sys.stdout.write`): not modelled. Each `ProgressChecker.get_progress` call is recorded only as its current and total arguments.
- `_upload_paper_to_s3_event_folder`: its one call is commented out, so it is never called.
- async/await, concurrent requests and dependency injection: the handlers are run one at a time on explicit service objects.
- The framework's validation of the `EventDTO` body and of non-integer query values: only the declared bounds of `page` and `page_size` are modelled.
- api/controllers/auth.py and api/controllers/paper.py are not part of this model.
- Text.LowerFolds: folds only ASCII letters and keeps the length, while Python's `str.lower` also folds other letters and can lengthen the string: 'İ' (U+0130) lower-cases to 'i' followed by U+0307. Apart from the ASCII capitals, only 'K' (the Kelvin sign, to 'k') and 'İ' lower-case to text holding an ASCII character. 'k' is in neither ".pdf" nor ".zip", and the 'i' from 'İ' is always followed by U+0307, which is in neither suffix. So the suffix tests agree with Python's.
- Text.IntToString: formats the event id as Python's `str(int)` does. The `int()`/`str()` conversions in `from_event` are identities on the modelled field types.
- EventResponses.FromDict: accepts only exactly typed values: an int for `id`, a string for the other scalars, a string or None for the file keys. pydantic's coercion in `cls(**event_dict)` is not modelled, so `{"id": "5", ...}`, which pydantic builds with id 5, is rejected here, and under pydantic v1 so is an int given for a string field. An absent file-key field reads as None, as in pydantic v1; under pydantic v2 an `Optional[str]` field without a default is required.
- EventResponses.InvalidFields: names as offending every value that is not exactly of its field's type, including values pydantic would coerce, such as "5" for `id`.
- EventResponses.DictAccepted: is stated for the exactly typed dictionaries the model accepts. A dictionary that pydantic accepts only by coercion is not covered; its `to_dict` shows the coerced values, not the given ones.
- EventController.UpdateSummaryFilename: the exception the store raises on a failed write is not visible, so it is answered as the server's generic 500.

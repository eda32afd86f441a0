# Course outline generator — a verified model of its core

The course outline generator takes a course plan (a word document whose
first matching table lists modules and their blocks), slide files and
assignment files. From them it builds a course outline of modules, blocks and
learning segments.

1. The backend reads the plan's tables into module and block entries. It
   parses each slide file into titled records, choosing the parser by the
   file's extension (.pptx, .pdf or .docx). It accepts the assignment files
   but never reads them.
2. It structures the segments chosen for each block. At most seven are kept,
   and learning types and video types are assigned round-robin. It also
   writes a review spreadsheet per block.
3. It groups the per-block results into modules, in first-seen order, and
   returns them to the browser page.
4. On the page the user checks segments and re-tags them. The page enforces
   a limit of seven Video selections per module, but only when a box is
   checked.
5. The page submits a pruned outline. The backend flattens it into the final
   spreadsheet rows.

This project models that logic in Dafny. Each piece takes the form of its
source:

- The page's selection updates are functions on a sequence of entries. They
  sit beside a `Page` class that holds the outline and the selection.
- The submission's grouping loop is a method over maps, proved equal to a
  specification of the pruned outline.
- Every Python loop is a method with its loop invariants, proved equal to a
  specification function. Lemmas then prove the promised properties of those
  functions.

Files:

| file | module | contents |
|---|---|---|
| `wrappers.dfy` | `Wrappers` | `Option`, `Result` |
| `text.dfy` | `Text` | the string operations the parsers use: strip, slice, join, `startswith`, substring test, lower-case, decimal rendering |
| `outline.dfy` | `Outline` | Segment / Block / Module, the final-row record, the type lists, segment and block counts |
| `upload_page.dfy` | `UploadPage` | selection entries, toggle, the two drop-downs, the submission's reduction, the `Page` state |
| `outline_service.dfy` | `OutlineService` | grouping block results into modules, and flattening the finalised outline into rows |
| `structuring.dfy` | `Structuring` | structuring a block's segments, and the rows of the review and final spreadsheets |
| `parsers.dfy` | `Parsers` | the presentation, PDF, word-document and plan-table parsers |
| `seqs.dfy` | `Seqs` | a fact about sequence prefixes used by the list-building loops |

Points of the code's behaviour worth knowing:

- **Order of the submitted outline.** The page groups entries in plain
  objects keyed by integer indices and reads them back with `Object.values`.
  ECMA-262 (section 10.1.11.1, OrdinaryOwnPropertyKeys) lists integer keys in
  ascending order. So the submitted outline is ordered by module index, then
  by block index, and segments keep their selection order.
- **Toggle twice.** From an unselected segment, checking then unchecking
  restores the selection (`ToggleTwiceFromAbsent`). From a selected one,
  unchecking then re-checking drops the user's overrides and moves the entry
  to the end (`ToggleTwiceFromPresent`, `ToggleTwiceLosesOverride`).
- **Cap test.** A Video segment is refused when its module already has seven
  or more Video entries: the test is `>=`.
- **Video type and learning type.** The learning-type drop-down (`Retype`)
  makes `customVideoType` non-empty exactly when the learning type is Video.
  Checking a box does not: a new entry copies the segment's own types, so a
  Video segment without a video type gets "".

## Model

| member | source | states |
|---|---|---|
| `UploadPage.IsSelected` | course-outline-generator/src/UploadPage.js:50-55 | a segment is selected exactly when some entry names its coordinate |
| `UploadPage.DeselectMembers` | course-outline-generator/src/UploadPage.js:58-67 | unchecking keeps exactly the entries that do not name the coordinate |
| `UploadPage.NewEntry` | course-outline-generator/src/UploadPage.js:80-87 | a new entry names the coordinate, copies the segment, takes its learning type and its video type or "" |
| `UploadPage.DeselectUnique` | course-outline-generator/src/UploadPage.js:58-67 | without duplicates, unchecking removes exactly the one entry and keeps the others in order |
| `UploadPage.ToggleRemovesSelected` | course-outline-generator/src/UploadPage.js:57-67 | toggling a selected coordinate removes exactly its entry, nothing else changes or moves |
| `UploadPage.ToggleRefusesOverCap` | course-outline-generator/src/UploadPage.js:69-76 | checking a Video segment of a module with 7 or more Video entries is refused and changes nothing |
| `UploadPage.ToggleAddsUnselected` | course-outline-generator/src/UploadPage.js:78-88 | checking any other unselected segment appends one seeded entry after the unchanged entries, and no coordinate appears twice |
| `UploadPage.ToggleTwiceFromAbsent` | course-outline-generator/src/UploadPage.js:57-88 | checking then unchecking an unselected segment restores the selection |
| `UploadPage.ToggleTwiceFromPresent` | course-outline-generator/src/UploadPage.js:57-88 | unchecking then re-checking a selected segment puts a freshly seeded entry at the end (or is refused by the cap) |
| `UploadPage.ToggleTwiceLosesOverride` | course-outline-generator/src/UploadPage.js:57-88 | a concrete selection where unchecking and re-checking loses the user's override |
| `UploadPage.ToggleKeepsVideoCap` | course-outline-generator/src/UploadPage.js:69-88 | if no module is over the Video limit, toggling keeps it so |
| `UploadPage.ToggleKeepsValid` | course-outline-generator/src/UploadPage.js:48-90 | toggling keeps every entry pointing into the outline and keeps coordinates unique |
| `UploadPage.Retype` | course-outline-generator/src/UploadPage.js:237-244 | the new learning type is set; video type "" for non-Video, kept if non-empty, else "Talking head"; nothing else changes |
| `UploadPage.SetLearningType` | course-outline-generator/src/UploadPage.js:230-247 | exactly the entry naming the coordinate is retyped, all others and the order are kept |
| `UploadPage.SetLearningTypeKeepsSelection` | course-outline-generator/src/UploadPage.js:230-247 | the drop-down keeps the coordinates, the segment copies, validity and uniqueness |
| `UploadPage.SetLearningTypeAbsent` | course-outline-generator/src/UploadPage.js:232-246 | the drop-down of an unselected coordinate changes nothing |
| `UploadPage.SetLearningTypeBypassesCap` | course-outline-generator/src/UploadPage.js:230-247 | retyping a non-Video entry of a module already at the limit to Video breaks the limit |
| `UploadPage.SetVideoType` | course-outline-generator/src/UploadPage.js:264-274 | only the chosen video type of the matching entry changes |
| `UploadPage.SetVideoTypeKeepsSelection` | course-outline-generator/src/UploadPage.js:264-274 | the video drop-down keeps coordinates, learning types, validity, uniqueness and the Video limit |
| `UploadPage.VideoCountSetVideoType` | course-outline-generator/src/UploadPage.js:266-273 | the video drop-down leaves every module's Video count unchanged |
| `UploadPage.Project` | course-outline-generator/src/UploadPage.js:116-120 | a submitted segment is the selected copy with the chosen learning type, and video type "" unless it is a Video |
| `UploadPage.Bucket` | course-outline-generator/src/UploadPage.js:109-120 | a block's submitted segments are empty exactly when no entry belongs to the block, and non-Videos carry video type "" |
| `UploadPage.ModuleIndices` | course-outline-generator/src/UploadPage.js:123-126 | the module indices read back are ascending and are exactly those with entries |
| `UploadPage.BlockIndices` | course-outline-generator/src/UploadPage.js:123-126 | a module's block indices read back are ascending and are exactly those with entries |
| `UploadPage.ValuesBelow` | course-outline-generator/src/UploadPage.js:123-126 | `Object.values` on integer keys: values in ascending key order |
| `UploadPage.ValuesBelowPastKeys` | course-outline-generator/src/UploadPage.js:123-126 | the values read back do not depend on the bound once it is above every key |
| `UploadPage.AddEntry` | course-outline-generator/src/UploadPage.js:102-121 | one turn of the `forEach`: the entry's module and block are created if missing and its segment is pushed |
| `UploadPage.ReduceSelection` | course-outline-generator/src/UploadPage.js:100-126 | the grouping loop builds exactly the specified pruned outline |
| `UploadPage.ReducedShape` | course-outline-generator/src/UploadPage.js:100-126 | one module per module index with entries and one block per (module, block) with entries, ascending, with titles from the outline and segments in selection order |
| `UploadPage.ReducedEmpty` | course-outline-generator/src/UploadPage.js:93-96 | an empty selection reduces to an empty outline |
| `UploadPage.ReducedVideoTypes` | course-outline-generator/src/UploadPage.js:119 | every submitted non-Video segment has video type "" |
| `UploadPage.ReducedSegmentCount` | course-outline-generator/src/UploadPage.js:100-126 | the submitted outline holds exactly one segment per entry |
| `UploadPage.Page.constructor` | course-outline-generator/src/UploadPage.js:9-10 | the page starts with no outline and no selection |
| `UploadPage.Page.ToggleSegmentSelection` | course-outline-generator/src/UploadPage.js:48-90 | the selection becomes the toggle's result, or stays unchanged when the cap notice is shown |
| `UploadPage.Page.ChangeLearningType` | course-outline-generator/src/UploadPage.js:230-247 | the selection becomes the retyped selection, keeping the page valid |
| `UploadPage.Page.ChangeVideoType` | course-outline-generator/src/UploadPage.js:264-274 | the selection becomes the re-video-typed selection, keeping the page valid |
| `UploadPage.Page.HandleUploadResponse` | course-outline-generator/src/UploadPage.js:35-45 | an error reply or failed request changes nothing; otherwise the outline becomes the reply's modules or [] and the selection is cleared |
| `UploadPage.Page.SubmitFinal` | course-outline-generator/src/UploadPage.js:92-126 | nothing is sent exactly when nothing is selected; otherwise the pruned outline, holding one segment per entry |
| `OutlineService.ModuleTitlesFacts` | course-outline-generator/backend/main.py:84-93 | the module titles are distinct and are exactly those of the block results |
| `OutlineService.FindModule` | course-outline-generator/backend/main.py:86 | the lookup finds the first module with the title, or reports that none has it |
| `OutlineService.GroupedSnoc` | course-outline-generator/backend/main.py:85-93 | one more block result is appended to its module, or a new module is created at the end |
| `OutlineService.GroupModules` | course-outline-generator/backend/main.py:84-93 | the grouping loop builds the grouped outline, and the block count equals the number of results |
| `OutlineService.AddBlockOutput` | course-outline-generator/backend/main.py:86-93 | one turn of the loop appends the block result to its module or opens a new module, adding one block |
| `OutlineService.GroupedDistinct` | course-outline-generator/backend/main.py:84-93 | no module title appears twice; each module holds its title's blocks in input order with their segments unchanged |
| `OutlineService.GroupedCovers` | course-outline-generator/backend/main.py:84-93 | every result's module title has a module, and every module comes from some result |
| `OutlineService.GroupedOrder` | course-outline-generator/backend/main.py:84-93 | modules appear in the order their titles first occur |
| `OutlineService.ModuleTitlesFirstSeen` | course-outline-generator/backend/main.py:84-89 | the title list is ordered by first occurrence |
| `OutlineService.FinalizeRow` | course-outline-generator/backend/main.py:107-114 | a row carries the module, block and segment titles and the learning type, the video type or "", and an empty link |
| `OutlineService.FinalizeRows` | course-outline-generator/backend/main.py:101-114 | the rows loop builds the module → block → segment rows |
| `OutlineService.AppendModuleRows` | course-outline-generator/backend/main.py:104-114 | the block loop of one module appends that module's rows |
| `OutlineService.AppendBlockRows` | course-outline-generator/backend/main.py:106-114 | the segment loop of one block appends one row per segment |
| `OutlineService.FinalizeRowsFacts` | course-outline-generator/backend/main.py:101-114 | there are as many rows as segments, and every video link is "" |
| `OutlineService.SegmentRowsFacts` | course-outline-generator/backend/main.py:106-114 | a block's rows follow its segments one to one |
| `OutlineService.BlockRowsFacts` | course-outline-generator/backend/main.py:104-114 | a module's rows number its segments and have empty links |
| `OutlineService.FinalizeRowsAppend` | course-outline-generator/backend/main.py:102-114 | the rows of two module lists are the first's rows followed by the second's |
| `OutlineService.FinalizeRowsOfOneBlock` | course-outline-generator/backend/main.py:102-114 | a one-block outline gives its segments' rows in order |
| `OutlineService.SubmittedRows` | course-outline-generator/backend/main.py:101-114 | the final spreadsheet of the page's submission has one row per selected entry |
| `Structuring.StructureBlockSegments` | course-outline-generator/backend/utils.py:7-24 | `min(n, 7)` entries, entry i typed `types[i mod 5]` with its own title as includes, video type only on Videos, and the Video at 5k gets video type k mod 4: "Talking head" at 0 and "Light Board" at 5 |
| `Structuring.VideoEntriesRoundRobin` | course-outline-generator/backend/utils.py:20-22 | under round-robin typing exactly k Videos precede position 5k, so the counter is the Video's rank |
| `Structuring.BlockExcelRows` | course-outline-generator/backend/utils.py:29-39 | the nested row loops build the review rows segment by segment, item by item |
| `Structuring.ReviewRowsShape` | course-outline-generator/backend/utils.py:31-39 | one review row per included item; only the very first row carries the module and block |
| `Structuring.ReviewRowsOfStructured` | course-outline-generator/backend/utils.py:31-39 | for structured segments the review rows list the segments in order with their types |
| `Structuring.FinalExcelRows` | course-outline-generator/backend/utils.py:56-68 | the row loops build the final rows, entry by entry |
| `Structuring.AppendIncludeRows` | course-outline-generator/backend/utils.py:59-68 | the segment and item loops of one entry append its rows |
| `Structuring.IncludeRowsFacts` | course-outline-generator/backend/utils.py:59-68 | one row per included item, each with the entry's module and block and an empty link |
| `Structuring.FinalExcelRowsFacts` | course-outline-generator/backend/utils.py:56-68 | the total row count is the sum of the include counts, and every video link is "" |
| `Structuring.IncludeRowsOfStructured` | course-outline-generator/backend/utils.py:59-68 | for structured segments these rows equal the finalisation rows of the same block |
| `Parsers.FrameTextsStripped` | course-outline-generator/backend/parsers.py:10-12 | there is one text per text-frame shape, and each is unchanged by stripping again |
| `Parsers.FirstNonEmpty` | course-outline-generator/backend/parsers.py:13-14 | the first non-empty text's position: all earlier texts are empty |
| `Parsers.SlideTextsSplit` | course-outline-generator/backend/parsers.py:12-16 | the title is the first non-empty text, or "" when all are empty; only the texts after it form the body |
| `Parsers.SlideTextsSnoc` | course-outline-generator/backend/parsers.py:12-16 | one more text becomes the title if there is none yet, else it is appended to the body |
| `Parsers.ParseSlide` | course-outline-generator/backend/parsers.py:9-16 | the shape loop yields that title and the body texts each preceded by a space |
| `Parsers.ParsePptx` | course-outline-generator/backend/parsers.py:5-22 | one record per slide numbered i+1, titled by the first non-empty text, with a summary of at most `max_len` |
| `Parsers.SlideRecord` | course-outline-generator/backend/parsers.py:9-21 | one slide's shape loop and record build give that slide's record |
| `Parsers.PptxRecordFacts` | course-outline-generator/backend/parsers.py:17-21 | a slide record is numbered i+1, titled by the slide title, and its summary is at most `max_len` long |
| `Parsers.PageLabelClean` | course-outline-generator/backend/parsers.py:29 | the "Page n" fallback title is unchanged by stripping |
| `Parsers.ParsePdf` | course-outline-generator/backend/parsers.py:24-36 | one record per page numbered i+1, titled by the stripped first line or "Page i+1", summary = later lines joined and cut to `max_len` |
| `Parsers.PdfRecordFacts` | course-outline-generator/backend/parsers.py:29-34 | a page record is numbered i+1, an empty page is titled "Page i+1", and the summary is at most `max_len` long |
| `Parsers.AddParagraph` | course-outline-generator/backend/parsers.py:44-57 | a blank paragraph is skipped, a heading starts a section, other text joins the current section |
| `Parsers.SectionsHeadings` | course-outline-generator/backend/parsers.py:43-57 | every section of a document has a non-empty heading, taken from a heading paragraph of the document |
| `Parsers.SectionRecordsNumbered` | course-outline-generator/backend/parsers.py:47-63 | the section records are numbered 1..n consecutively, and every summary is at most `max_len` long |
| `Parsers.SectionRecordsTitles` | course-outline-generator/backend/parsers.py:47-63 | every record is titled by the heading of a section that has a body |
| `Parsers.SectionRecordsCount` | course-outline-generator/backend/parsers.py:47-63 | there are exactly as many records as sections with a body |
| `Parsers.ParseDocx` | course-outline-generator/backend/parsers.py:38-64 | the paragraph loop with its flushes yields the section records, numbered 1..n, summaries at most `max_len` |
| `Parsers.ReadParagraph` | course-outline-generator/backend/parsers.py:43-57 | one turn of the paragraph loop keeps the state equal to the sections read so far and the records they flushed |
| `Parsers.PreambleDiscarded` | course-outline-generator/backend/parsers.py:46-57 | text before the first heading has no effect |
| `Parsers.BlankSkipped` | course-outline-generator/backend/parsers.py:44-45 | a blank paragraph anywhere has no effect |
| `Parsers.HeadingAddsNoRecord` | course-outline-generator/backend/parsers.py:46-55 | a heading only flushes; it adds no record of its own |
| `Parsers.HeaderCells` | course-outline-generator/backend/parsers.py:70 | headers are the stripped, lower-cased cell texts |
| `Parsers.HeaderMatch` | course-outline-generator/backend/parsers.py:70-71 | a table matches exactly when its first header contains "module" and its second "mvasc"; it is an error exactly when there is no row, no header cell, or only one header cell after a "module" match; a first header without "module" is no match whatever the rest holds |
| `Parsers.BlockCellsMembers` | course-outline-generator/backend/parsers.py:74 | the block list holds exactly non-empty stripped cells, and every such cell is in it |
| `Parsers.RowsPlanFacts` | course-outline-generator/backend/parsers.py:72-75 | reading the data rows fails exactly when some row has no cells |
| `Parsers.RowsPlanEntries` | course-outline-generator/backend/parsers.py:72-75 | one entry per data row: module = stripped first cell, blocks = the non-empty other cells |
| `Parsers.ExtractModulesBlocks` | course-outline-generator/backend/parsers.py:66-77 | the table loop with its `break` yields the plan of the first matching table |
| `Parsers.ReadRows` | course-outline-generator/backend/parsers.py:72-76 | the row loop of the matching table yields its plan, or the error of its first empty row |
| `Parsers.FirstMatchOnly` | course-outline-generator/backend/parsers.py:69-76 | only the first matching table is read, whatever follows it |
| `Parsers.NoMatchEmpty` | course-outline-generator/backend/parsers.py:69-77 | with no matching table the plan is empty |
| `Text.StripEnds` | course-outline-generator/backend/parsers.py:12 | the strip neither starts nor ends with whitespace |
| `Text.StripIdempotent` | course-outline-generator/backend/parsers.py:19 | stripping an already stripped title changes nothing |
| `Text.StripEmpty` | course-outline-generator/backend/parsers.py:44 | a paragraph strips to "" exactly when all its characters are whitespace |
| `Text.Truncate` | course-outline-generator/backend/parsers.py:20 | `s[:n]` is the prefix of length `min(len(s), n)` |
| `Text.SpacePrefixedIsJoin` | course-outline-generator/backend/parsers.py:16 | appending `" " + t` piece by piece gives a space before the space-joined pieces |
| `Text.ContainsAt` | course-outline-generator/backend/parsers.py:71 | the substring test holds exactly when the substring occurs at some position |
| `Text.Lower` | course-outline-generator/backend/parsers.py:70 | lower-casing keeps the length and maps each character |
| `Text.NatToStringRoundTrip` | course-outline-generator/backend/parsers.py:29 | the decimal rendering of the page number reads back as that number |

## Left out

- The `fetch` calls, `alert` notices, the `isLoading` and `downloadUrl` state, the file inputs and all rendering of the page are browser and network plumbing. The upload reply is a parameter. A failed request or unreadable body is `TransportFailure`.
- The checkbox `disabled` flag only mirrors the toggle's cap test, so it is not modelled separately.
- `UploadPage.Page.ToggleSegmentSelection` requires a coordinate of the outline shown. The page only renders check boxes for such coordinates. With a bad module or block index the segment lookup itself fails; with a bad segment index the lookup yields `undefined`, and the toggle fails only when it reads that segment's learning type on the not-yet-selected path.
- The JSON shape of the upload reply is reduced to an optional error text and an optional module list. A truthy non-list `modules` value is not represented.
- FastAPI routing, CORS, saving uploaded files, the download endpoint and `HTTPException` in the backend are I/O.
- The sentence-embedding model, the cosine similarity and the top-15 sort by score are a floating-point call into a foreign library. The segments chosen for a block are an input list of `StructureBlockSegments`.
- The spreadsheet writing (pandas, openpyxl), `os.makedirs` and the file path built from the module and block names are left out. Only the row lists are modelled.
- `validate_edited_excel` reads a file through pandas and is not modelled.
- Opening presentations, PDFs and word documents is not modelled, nor is the libraries' text extraction or `splitlines`. Their outputs are the given sequences: shapes per slide, lines per page, (text, style name) paragraphs, and cell texts per table row.
- `Text.StripEnds`: `Text.Strip` trims the ASCII characters Python's `str.isspace` accepts (space, tab, line feed, vertical tab, form feed, carriage return, U+001C to U+001F), but not the non-ASCII whitespace characters (such as U+0085, U+00A0 or U+2028) that `str.strip` also removes.
- `Text.Lower`: lower-cases ASCII letters only, not the full Unicode mapping of `str.lower`.
- `Parsers.ParsePptx`: `max_len` is a natural number. Python's negative slice bounds are not modelled, as every caller uses the default 800. The same holds for `Parsers.ParsePdf` and `Parsers.ParseDocx`.
- `Parsers.ExtractModulesBlocks`: a failed index into a table (no rows, no header cells, one header cell after a "module" match, an empty data row) is an `Err` result instead of a raised exception. The entries gathered before the failure are discarded, as they are when the exception propagates.
- The `prev` of the page's state updaters is the selection at the time of the event. Batched React updates are not modelled.

# Excel keyword search: a Dafny model

The system indexes uploaded Excel workbooks row by row in a database. It
searches the rows for all of a list of keywords and shows a workbook with
the keywords highlighted. This project models its logic as pure functions
over immutable datatypes and proves what that logic promises.

- **Upload** (`Routes.HandleUpload`, `Cells`, `Indexer`). The duplicate
  check on client name and byte size comes first. The file record is
  created next. Each cell is normalised (empty, date, date-serial number,
  anything else). Blank rows are dropped. Kept rows carry their 1-based
  position, gaps included, as row number. The rows are inserted in batches.
- **Search** (`Routes.ParseTerms`, `Storage.SearchRows`, `Like`). The `terms`
  parameter is parsed, blank terms are dropped and the rest lower-cased.
  The rows whose search text satisfies `ILIKE '%term%'` for every term are
  joined with their file, at most 100 of them.
- **File view** (`Routes.GetFileView`, `Storage.GetRows`, `Viewer`). The
  file's rows are fetched in row-number order and regrouped into one grid
  per sheet. The viewer picks the sheet, splits off the header, labels the
  rows, marks the target row of a search hit and renders the cells.
- **Client helpers**:
  - `Url.BuildUrl`: path templating with JavaScript's first-occurrence
    `replace`.
  - `TermList`: the home page's term list as a state machine.
  - `Highlight`: the highlighter's split of a cell's text on the terms, with
    the case-insensitive `RegExp` split of ECMA-262 section 22.2.6.14 written
    out.
  - `Uploader`: the upload box's extension check.

The workbook parser, the date and number formatters and `JSON.parse` are
parameters: the `Formats` datatype, the `workbook` argument and a
`string -> Option<Json>` function. The database is a pair of sequences with
serial counters (`Storage.Store`). The file sizes on disk are a map.

Four behaviours of the code differ from what a reader of its documentation
might expect. The model follows the code in each case:

- Search terms are lower-cased but not trimmed on the server.
- Search hits carry the stored `filename`, not the client's `originalName`.
- `%`, `_` and `\` in a term act as `ILIKE` wildcards and escapes.
- The viewer labels body row `i` as `i + 2` whatever its stored row number.
  For a freshly uploaded workbook with distinct sheet names, body row `i`
  shows the sheet's kept row `i + 1`, so a search hit's link marks the row
  showing the hit exactly when no blank row precedes it in its sheet
  (`Viewer.UploadedRowLabel`).

## Model

| member | source | states |
|---|---|---|
| Schema.SheetGrid | shared/schema.ts:32-37 | a sheet's grid is found exactly when the name is a key of the sheets record |
| Cells.CleanRow | server/routes.ts:58-73 | normalising a row maps each raw cell on its own, keeping the row's length and cell positions |
| Cells.CleanCell | server/routes.ts:58-73 | a text cell is kept verbatim; a number shown other than as its number text is a date serial strictly inside the window whose rendering contains `/` |
| Cells.SearchTextHasEachCell | server/routes.ts:74 | each normalised cell, lower-cased, occurs in the row's search text |
| Cells.NonNumericCells | server/routes.ts:59-62 | a missing (null or undefined) cell becomes the empty string, a date its locale date text, a string itself and a boolean `true`/`false` |
| Cells.DateSerialHeuristic | server/routes.ts:64-72 | a number becomes the `mm/dd/yy` rendering exactly when it lies strictly between 20000 and 60000 and the rendering contains `/`; otherwise it becomes its number text |
| Cells.WindowBoundsArePlainNumbers | server/routes.ts:65 | 20000 and 60000 themselves are never read as dates |
| Cells.KeptIffSomeCellNonBlank | server/routes.ts:74-76 | a row is indexed exactly when some normalised cell is not blank, even though the test is on the joined, lower-cased text |
| Indexer.Prepared | server/routes.ts:55-83 | each position of the sheet yields a row with its 1-based position as row number, its normalised cells, its search text, and the decision to keep it |
| Indexer.IndexSheet | server/routes.ts:55-84 | a sheet yields no more rows than it has, each carrying the file id and the sheet's name |
| Indexer.IndexWorkbook | server/routes.ts:50-86 | every row carries the file id and the name of one of the workbook's sheets |
| Indexer.KeptRowsComeFromTheirPosition | server/routes.ts:76-80 | every emitted row is the kept row prepared at position `rowNumber - 1` |
| Indexer.KeptPositionsAreEmitted | server/routes.ts:76-84 | every kept position is emitted |
| Indexer.RowNumbersKeepGaps | server/routes.ts:76-80 | the k-th emitted row is numbered k + 1 plus the number of blank rows dropped before it |
| Indexer.RowNumbersIncrease | server/routes.ts:55-84 | row numbers strictly increase within a sheet |
| Indexer.KeptCount | server/routes.ts:76 | the emitted rows number the sheet's rows minus the dropped blank rows |
| Indexer.IndexSheetSpec | server/routes.ts:55-84 | every emitted row carries the file id, the sheet name, a row number within the sheet, the normalised cells of that row, their space-joined lower-cased text, and a non-blank trimmed text; a position is emitted exactly when its row is kept |
| Indexer.IndexSheetNumbering | server/routes.ts:55-84 | within a sheet, row numbers strictly increase, exceed their position by the blank rows skipped, and the count is rows minus blanks |
| Indexer.KeepFromNumbering | server/routes.ts:76-80 | for rows numbered by position, the kept ones have increasing numbers, each its place plus the blank rows before it, and number the rows minus the blanks |
| Indexer.WorkbookOrder | server/routes.ts:50-86 | every emitted row carries the new file's id and the name of a sheet of the workbook, and rows come in sheet order, then row order |
| Indexer.LaterSheetPositions | server/routes.ts:50 | with distinct sheet names, rows of later sheets are not of the first sheet and sit one sheet further on in the whole workbook |
| Indexer.OrderOfConcat | server/routes.ts:50-86 | the first sheet's rows in row order followed by the later sheets' rows in workbook order are in workbook order |
| Indexer.SheetPositionFound | server/routes.ts:50 | the position found for a sheet name holds a sheet of that name |
| Like.TokenizePlainThenAny | server/storage.ts:40 | a term free of `%`, `_` and `\` followed by `%` is read as its literal characters then one any-run wildcard |
| Like.AnyStringMatchesAll | server/storage.ts:40 | a lone `%` matches every text |
| Like.LitsThenAnyIsPrefix | server/storage.ts:40 | literals followed by `%` match exactly the texts they begin |
| Like.LeadingAnyString | server/storage.ts:40 | a leading `%` matches when the rest of the pattern matches some suffix |
| Like.PlainTermIsContainment | server/storage.ts:40 | for a term free of `%`, `_` and `\`, the `ILIKE '%term%'` condition is case-insensitive containment |
| Like.UnderscoreIsWildcard | server/storage.ts:40 | the term `_` matches `abc`, which does not contain an underscore |
| Like.PercentMatchesEverything | server/storage.ts:40 | the term `%` matches every text |
| Like.TrailingBackslashAnchorsAtEnd | server/storage.ts:40 | a term ending in a backslash escapes the closing `%`, so it only matches at the end of the text |
| Like.TrailingBackslashTokens | server/storage.ts:40 | the pattern built from a term ending in a backslash reads as any string, the term, then a literal `%` |
| Like.FiveThenPercentNowhere | server/storage.ts:40 | `5` followed by a literal `%` matches no suffix of `5% off`, where more text follows the `%` |
| Like.TokenizeRender | server/storage.ts:40 | reading a pattern back from its rendering, with `%`, `_` and `\` escaped where literal, gives the same tokens |
| Like.LitsMatchExactly | server/storage.ts:40 | a pattern of literal characters matches exactly the text it spells |
| Like.TokenizePlain | server/storage.ts:40 | a pattern free of `%`, `_` and `\` reads as its literal characters |
| Like.PlainPatternIsEquality | server/storage.ts:40 | a pattern free of `%`, `_` and `\` matches a text exactly when the two are equal ignoring case |
| Like.CellContainingTermMatches | server/storage.ts:40 | a row one of whose cells contains a plain term, ignoring case, meets that term's `ILIKE` condition |
| Storage.EmptyStoreValid | server/storage.ts:15-18 | the empty database satisfies the serial-id invariant |
| Storage.CreateFile | server/storage.ts:15-18 | the new file record gets the next serial id and the given columns, is appended, leaves the rows alone and keeps the invariant; its id was not in use |
| Storage.GetFile | server/storage.ts:28-31 | a file is found exactly when one has the id, and it is a stored record with that id, the first such |
| Storage.FindFile | server/storage.ts:29 | the lookup succeeds exactly when some record has the id, and returns the first such record |
| Storage.CreateRows | server/storage.ts:20-26 | the batches concatenate to the input, none is empty, none exceeds 1000 rows, all but the last are full, no rows means no insert, and the result is one insert of all rows |
| Storage.InsertBatchValid | server/storage.ts:24 | inserting rows that name issued file ids keeps the serial-id invariant |
| Storage.InsertBatch | server/storage.ts:24 | inserting a batch appends its rows stamped with consecutive serial ids from the next row id, advances that counter by the batch size and leaves the files alone |
| Storage.BatchStep | server/storage.ts:23-24 | inserting the rows up to one batch boundary and then the next batch equals inserting the rows up to the next boundary |
| Storage.InsertBatchTwice | server/storage.ts:23-25 | two consecutive inserts equal one insert of both batches |
| Storage.JoinRow | server/storage.ts:43-54 | the inner join of a row yields exactly its projection with each file of the id it names |
| Storage.JoinMatchesAreHits | server/storage.ts:40-55 | the joined matches are exactly the rows satisfying every term's ILIKE condition, joined with a file of their id |
| Storage.JoinedFromCons | server/storage.ts:40-55 | a joined result comes from the first row, when it satisfies the terms, or from the rows after it |
| Storage.SearchRowsSpec | server/storage.ts:37-59 | no terms gives no results; at most 100 results come back; each satisfies every term and is joined with a file of its id, carrying that file's stored `filename`; with at most 100 matches, every match is returned |
| Storage.SearchRows | server/storage.ts:37-59 | no terms give nothing; otherwise the result is the first min(matches, 100) of the joined matches |
| Storage.RowsOf | server/storage.ts:62 | the selected rows are exactly the stored rows of the file |
| Storage.InsertByRowNumber | server/storage.ts:62 | inserting one row into a row-number-sorted list keeps it sorted and adds exactly that row |
| Storage.SortByRowNumber | server/storage.ts:62 | ordering by row number yields a sorted permutation of the input |
| Storage.GetRows | server/storage.ts:61-63 | the file's rows come back each as often as stored and in non-decreasing row-number order; nothing else comes back |
| Routes.DuplicateCheck | server/routes.ts:29-33 | the check answers no exactly when no same-named file has the same size or is missing from disk; a yes names a same-named file of the same size; scanning in storage order, a failure names a same-named file missing from disk before any duplicate |
| Routes.DuplicateCheckTail | server/routes.ts:29-33 | a first file that is neither a duplicate nor missing leaves the answer, and its witnesses, to the files after it |
| Routes.DuplicateIffSameNameAndSize | server/routes.ts:29-35 | with every same-named file on disk, an upload is a duplicate exactly when some file has the same original name and byte size |
| Routes.HandleUpload | server/routes.ts:22-95 | no file gives "No file uploaded"; a duplicate is rejected and changes nothing; otherwise the file record is appended, and the indexed rows follow when the workbook parses, or the record is orphaned when it does not; the new id was not in use; the store invariant is kept |
| Routes.WorkbookFileIds | server/routes.ts:78 | every indexed row carries the new file's id |
| Routes.Strings | server/routes.ts:106 | an array of JSON strings gives their texts in order |
| Routes.KeepTerms | server/routes.ts:113 | the kept terms are never more than the input terms |
| Routes.KeepTermsSpec | server/routes.ts:113 | the kept terms are exactly the lower-cased forms of the non-blank inputs; each is non-blank and lower-case |
| Routes.KeepTermsAppend | server/routes.ts:113 | the filter keeps term order: it distributes over concatenation |
| Routes.ParseTerms | server/routes.ts:99-113 | a missing or empty parameter gives no terms; non-JSON text gives the raw text as one term when non-blank; JSON is accepted exactly when it is an array of strings; every resulting term is non-blank and lower-case |
| Routes.KeepTermsSingle | server/routes.ts:109-113 | a single term survives exactly when non-blank, lower-cased |
| Routes.TermsAreNotTrimmed | server/routes.ts:113 | a kept term keeps its length and the positions of its white space: it is not trimmed |
| Routes.SearchEndpoint | server/routes.ts:97-121 | the search fails exactly when parsing fails, and otherwise returns the store's search of the parsed terms; no parameter gives no results |
| Routes.AddToSheet | server/routes.ts:153-163 | adding a row grows the record by at most one key |
| Routes.AddToSheetNames | server/routes.ts:153-155 | adding keeps the keys and their order and appends an absent key |
| Routes.AddToSheetGrid | server/routes.ts:153-163 | adding appends the data to that sheet's grid, or starts a grid of it, and leaves every other grid unchanged |
| Routes.AddToSheetTotal | server/routes.ts:163 | adding adds one grid row in all |
| Routes.AddToSheetDistinct | server/routes.ts:153-155 | adding never creates a second key of the same name |
| Routes.GroupBySheet | server/routes.ts:149-164 | there are never more sheets than rows, and some sheet exactly when some row |
| Routes.DataOfAbsent | server/routes.ts:152-164 | a sheet with no rows has no data |
| Routes.GroupBySheetGrid | server/routes.ts:149-164 | each sheet name that occurs maps to exactly the data of that sheet's rows in input order; no other name is a key |
| Routes.GroupBySheetDistinct | server/routes.ts:149-164 | each sheet name is a key at most once |
| Routes.GroupBySheetTotal | server/routes.ts:149-164 | the grids hold as many rows in all as there are stored rows |
| Routes.GroupKeysInFirstAppearanceOrder | server/routes.ts:152-155 | the keys appear in the order of the sheets' first rows |
| Routes.GetFileView | server/routes.ts:138-171 | the view fails with not-found exactly when no file has the id; otherwise it carries the file's id and names and the grouping of its rows |
| Routes.DownloadTarget | server/routes.ts:178-187 | the download fails with not-found exactly when no file has the id; otherwise it sends that file's stored path under its original name |
| Routes.DownloadAgreesWithView | server/routes.ts:138-187 | a file can be downloaded exactly when it can be viewed, under the name the view shows |
| Routes.FileViewRows | server/routes.ts:146-164 | the grids of a file view hold as many rows as the file has stored rows, each the data of a stored row of that file and sheet |
| Routes.GroupedRowsStored | server/routes.ts:149-164 | regrouping rows taken from storage for one file puts only the data of stored rows of that file, under their own sheet, in the grids |
| Routes.GridRowStored | server/routes.ts:163 | each grid row is the data of a stored row of the file and sheet |
| Routes.GetRowsLength | server/storage.ts:61-63 | the file's rows are fetched as the same rows with the same multiplicities (equal multisets), hence as many of them |
| Routes.DataOfFromRows | server/routes.ts:163 | each data entry of a sheet comes from an input row of that sheet |
| Routes.OfSheetMembers | server/routes.ts:152-163 | a sheet's rows are exactly the input rows carrying its name |
| Routes.DataOfIsOfSheet | server/routes.ts:152-163 | a sheet's grid data is the data of that sheet's rows, in input order |
| Routes.OfSheetAppend | server/routes.ts:152-163 | the rows of a sheet distribute over concatenation |
| Routes.OfSheetCount | server/routes.ts:152-163 | a row occurs among a sheet's rows as often as in the input when it is of that sheet, and never otherwise |
| Routes.OfSheetSorted | server/storage.ts:62 | the rows of one sheet taken from input sorted by row number are sorted too |
| Routes.SortedSheetRows | server/storage.ts:62 | sorting a file's rows by row number gives back one sheet's rows unchanged when their numbers are all different |
| Routes.WorkbookAppend | server/routes.ts:50-86 | the rows of a workbook are the rows of its first sheets followed by the rows of the rest |
| Routes.WorkbookSheetRows | server/routes.ts:50-86 | with distinct sheet names, the inserted rows of one sheet are exactly that sheet's indexed rows, with consecutive ids starting after the earlier sheets' rows |
| Routes.UploadedFileRows | server/routes.ts:76-88 | after an upload the new file's stored rows are exactly the workbook's indexed rows, stamped from the next row id |
| Routes.UploadedSheetRows | server/storage.ts:61-63 | with distinct sheet names, the file's rows read back in row-number order hold one sheet's indexed rows unchanged and in order |
| Routes.GridOfSheetRows | server/routes.ts:149-164 | a sheet's grid is the data of its rows, and it is a key exactly when it has a row |
| Routes.UploadedSheetGrid | server/routes.ts:146-164 | after an upload with distinct sheet names, a sheet's grid in the file view is exactly that sheet's kept rows' data in order, and the sheet is a key exactly when it kept a row |
| Url.SubstitutePlain | shared/routes.ts:64 | a replacement text without `$` is inserted as it is |
| Url.ReplaceFirst | shared/routes.ts:64 | a pattern that does not occur leaves the text unchanged |
| Url.ReplaceFirstOnlyFirst | shared/routes.ts:64 | only the first occurrence is replaced: the text before it holds no occurrence and the text after it is kept |
| Url.ApplyParam | shared/routes.ts:63-65 | a key whose placeholder does not occur leaves the URL unchanged |
| Url.BuildUrl | shared/routes.ts:59-69 | no parameters, or an empty set of them, return the path unchanged |
| Url.AbsentKeysChangeNothing | shared/routes.ts:62-66 | parameters whose placeholders do not occur leave the path unchanged |
| Url.OneParamReplacesFirst | shared/routes.ts:62-66 | one parameter replaces only the first occurrence of its placeholder with its text |
| Url.FirstColon | shared/routes.ts:63 | no placeholder occurs before the path's first colon |
| Url.FileUrlExample | shared/routes.ts:37 | `/api/files/:id` with id 5 becomes `/api/files/5` |
| Url.PrefixPlaceholderExample | shared/routes.ts:63-64 | key `id` also rewrites the start of a `:idx` placeholder |
| Url.DollarPatternInValue | shared/routes.ts:64 | a value `$&` is a replacement pattern and puts the placeholder back |
| TermList.Init | client/src/pages/Home.tsx:16-30 | the URL's terms start active, checked and queried, with an empty input, and checked terms are active |
| TermList.SetInput | client/src/pages/Home.tsx:21 | typing changes only the input |
| TermList.AddTerm | client/src/pages/Home.tsx:48-55 | a new non-blank trimmed input is appended, checked and the input cleared; otherwise nothing changes; the query stays |
| TermList.RemoveAll | client/src/pages/Home.tsx:58 | the filter keeps exactly the other terms |
| TermList.RemoveAllAppend | client/src/pages/Home.tsx:58 | the filter keeps the order of the remaining terms |
| TermList.RemoveAllAbsent | client/src/pages/Home.tsx:58 | removing an absent term changes nothing |
| TermList.RemoveTerm | client/src/pages/Home.tsx:57-64 | every copy of the term leaves the active list and the checked set, other terms stay, and the input and query stay |
| TermList.ToggleTerm | client/src/pages/Home.tsx:66-73 | exactly the term's checked membership flips |
| TermList.ToggleTwice | client/src/pages/Home.tsx:66-73 | toggling twice restores the state |
| TermList.CheckedInOrder | client/src/pages/Home.tsx:77 | the selected terms are exactly the active terms that are checked |
| TermList.CheckedInOrderAppend | client/src/pages/Home.tsx:77 | the selected terms keep active order |
| TermList.HandleSearch | client/src/pages/Home.tsx:75-90 | the query becomes the checked active terms in order, plus a new trimmed input, which is also added, checked and cleared; an input already active changes nothing but the query |
| TermList.SearchQueriesCheckedTerms | client/src/pages/Home.tsx:75-90 | after a search the query holds exactly the terms that are active and checked |
| TermList.UncheckedDuplicateNotSearched | client/src/pages/Home.tsx:79-87 | typing an unchecked active term and searching neither queries it nor clears the input |
| TermList.HandlersKeepInv | client/src/pages/Home.tsx:24-90 | every handler, toggling on an active term, keeps the checked terms among the active ones |
| TermList.HandlersKeepDistinct | client/src/pages/Home.tsx:48-90 | no handler makes a term active twice |
| TermList.RemoveAllDistinct | client/src/pages/Home.tsx:58 | filtering a list without repeats gives a list without repeats |
| Viewer.ChooseSheet | client/src/pages/ViewFile.tsx:25-35 | a chosen sheet stays; otherwise the URL's sheet when it is a key, else the first key, else nothing; a new choice is always a key |
| Viewer.SheetView | client/src/pages/ViewFile.tsx:66-68 | header followed by body is the sheet's grid; an absent or empty sheet gives empty header and body |
| Viewer.TargetIsUnique | client/src/pages/ViewFile.tsx:129-131 | at most one body row is the target, and one is exactly when the URL names the shown sheet and a label in range |
| Viewer.LabelsAreGridPositions | client/src/pages/ViewFile.tsx:66-131 | the caption counts the grid's rows, header included, and body row `i`'s label is its position in the grid counted from 1; an absent or empty sheet shows no rows and the caption 1 |
| Viewer.ColumnCount | client/src/pages/ViewFile.tsx:146 | the column count is the larger of the header's and the row's widths |
| Viewer.RenderRow | client/src/pages/ViewFile.tsx:146-154 | a row renders as many cells as the column count; a cell shows a dash exactly when the value is missing or empty, and otherwise its text |
| Viewer.LabelIsRowNumberIffNoBlankRowsBefore | client/src/pages/ViewFile.tsx:129-130 | a body row's label is at most its stored row number, and equals it exactly when no blank row was dropped before it |
| Viewer.HitLinkMarksItsRowIffNoBlankRowsBefore | client/src/pages/ViewFile.tsx:129-131 | a search hit's link marks the row showing that hit exactly when no blank row precedes it in its sheet |
| Viewer.UploadedBodyRow | client/src/pages/ViewFile.tsx:66-68 | after an upload with distinct sheet names, body row `i` of a sheet shows that sheet's kept row `i + 1` |
| Viewer.UploadedRowLabel | client/src/pages/ViewFile.tsx:129-131 | after an upload, body row `i` shows kept row `i + 1`; its label equals that row's stored number, and a search hit's link marks it, exactly when no blank row was dropped before it |
| Highlight.Escape | client/src/components/Highlighter.tsx:17 | escaping never shortens a term, and changes it exactly when it holds one of the regular-expression special characters |
| Highlight.EscapedTermIsLiteral | client/src/components/Highlighter.tsx:17 | reading an escaped term back gives the term: the pattern matches it literally |
| Highlight.Alternatives | client/src/components/Highlighter.tsx:15-16 | the alternatives are exactly the non-blank terms, in order |
| Highlight.AlternativesAppend | client/src/components/Highlighter.tsx:15-16 | the alternatives of two term lists in a row are the alternatives of each, in order |
| Highlight.AlternativesSingle | client/src/components/Highlighter.tsx:15 | one term is an alternative exactly when it is not blank |
| Highlight.FirstAlt | client/src/components/Highlighter.tsx:21 | the first alternative that matches at a position is chosen |
| Highlight.MatchEnd | client/src/components/Highlighter.tsx:21-22 | a match found at a position ends after it and within the text |
| Highlight.MatchEndSpec | client/src/components/Highlighter.tsx:21-22 | a match at a position ends after the first alternative matching there, case-insensitively; no match means no alternative matches there |
| Highlight.SplitFromReassembles | client/src/components/Highlighter.tsx:22 | the split pieces concatenate back to the text and are odd in number |
| Highlight.SplitFrom | client/src/components/Highlighter.tsx:22 | the split from a position yields at least one piece and at most two per remaining character plus one |
| Highlight.Split | client/src/components/Highlighter.tsx:22 | the pieces of a split join back to the text, and a non-empty text gives an odd number of them |
| Highlight.SplitFromConcat | client/src/components/Highlighter.tsx:22 | the pieces split from a position concatenate to the text from there |
| Highlight.SplitFromOdd | client/src/components/Highlighter.tsx:22 | a split always yields an odd number of pieces |
| Highlight.SplitFromShape | client/src/components/Highlighter.tsx:21-22 | the pieces alternate between text holding no match and matched text |
| Highlight.AlternatingCons | client/src/components/Highlighter.tsx:22 | a match-free piece then a matched piece in front of alternating pieces still alternate |
| Highlight.SplitShape | client/src/components/Highlighter.tsx:21-22 | a split of non-empty text has an odd number of pieces, alternating unmatched and matched |
| Highlight.UnmatchedPiece | client/src/components/Highlighter.tsx:22 | the text between matches holds no alternative |
| Highlight.BlankNamesNothing | client/src/components/Highlighter.tsx:35-37 | a blank term names no non-empty part |
| Highlight.FindIndex | client/src/components/Highlighter.tsx:35 | the first index of a key is found |
| Highlight.FindTerm | client/src/components/Highlighter.tsx:35-37 | the first term whose trimmed lower-case form equals the lower-cased part is found, or none when there is none |
| Highlight.Label | client/src/components/Highlighter.tsx:33-40 | a part keeps its text, is marked exactly when some term names it, takes the colour of the first such term modulo 6, and has no colour when unmarked |
| Highlight.Labels | client/src/components/Highlighter.tsx:33-41 | labelling keeps the pieces' texts |
| Highlight.Parts | client/src/components/Highlighter.tsx:10-42 | empty text, no terms or only blank terms give one unmarked part of the whole text; there is always a part |
| Highlight.PartsReassemble | client/src/components/Highlighter.tsx:21-22 | the parts' texts concatenate back to the text |
| Highlight.PartMarking | client/src/components/Highlighter.tsx:11-40 | a part is marked exactly when some term, trimmed and lower-cased, equals the lower-cased part; its colour is that of the first such term modulo 6, always one of the six; unmarked parts have none |
| Highlight.AlternativesNonEmpty | client/src/components/Highlighter.tsx:15-19 | a non-blank term leaves a non-empty alternative list |
| Highlight.PartsAreSplitPieces | client/src/components/Highlighter.tsx:19-33 | with a non-blank term, the parts are the labelled pieces of the split |
| Highlight.PartsAlternate | client/src/components/Highlighter.tsx:19-22 | the parts alternate between text holding no term and text equal, up to case, to a non-blank term |
| Highlight.AltMatchIsTerm | client/src/components/Highlighter.tsx:15-22 | text matching an alternative equals, up to case, a non-blank term |
| Highlight.NoAltInHasNoTerm | client/src/components/Highlighter.tsx:15-22 | text holding no alternative holds no non-blank term anywhere |
| Highlight.TrimmedTermsMarkEveryMatch | client/src/components/Highlighter.tsx:21-38 | when no term has surrounding white space, every matched part is marked |
| Highlight.PaddedTermLeavesMatchUnmarked | client/src/components/Highlighter.tsx:21-38 | a term with surrounding white space splits the text at its matches but marks none of them |
| Highlight.PaddedPartUnmarked | client/src/components/Highlighter.tsx:35-38 | a part naming only a term with surrounding white space is never marked |
| Highlight.PaddedTermNamesNoMatch | client/src/components/Highlighter.tsx:35-37 | a padded term never names text equal to the padded term itself |
| Uploader.ProcessFile | client/src/components/FileUploader.tsx:26-51 | a file is sent to the upload exactly when its name passes the check; a refused file shows the invalid-type toast; the toast is destructive exactly on refusal or failure, and a failure shows the error's message |
| Uploader.HandleFiles | client/src/components/FileUploader.tsx:14-24 | nothing happens exactly when no file was chosen |
| Uploader.AcceptsIffExcelSuffix | client/src/components/FileUploader.tsx:27 | a name passes exactly when it is some stem followed by `.xls` or `.xlsx` |
| Uploader.OtherExtensionsRejected | client/src/components/FileUploader.tsx:27-33 | `.XLSX`, `.XLS`, `.xlsm` and `.xlsx.bak` are refused |
| Uploader.RejectedNeverSent | client/src/components/FileUploader.tsx:27-37 | a refused first file never reaches the upload and shows the invalid-type toast |
| Uploader.OnlyFirstFileHandled | client/src/components/FileUploader.tsx:14-24 | only the first file is processed: the rest change nothing |

## Left out

- Parsing and formatting: the workbook reader, `sheet_to_json`, `format_cell`, `toLocaleDateString` and number-to-string are parameters. Date-serial arithmetic and floating point are not modelled; a numeric cell is a `real` compared with the two bounds.
- I/O: multer, `fs.statSync`, `fs.unlinkSync`, `res.download`, HTTP transport and logging are not modelled. The uploaded file's size is a field of `Upload` and the stored files' sizes are a map. The removal of a duplicate's temporary file is not modelled.
- Database: the tables are in-memory sequences. No atomicity is claimed, and a failed insert part-way through the batches is not modelled.
- The list-files and delete-file routes are not modelled. The delete route calls a storage method that server/storage.ts does not declare.
- Numeric ids and parameters: `parseInt` of the route id and of the `row` parameter is not modelled. Ids are natural numbers; a `row` that does not parse is `None`.
- `Routes.ParseTerms`: a `terms` query parameter given several times, which arrives as an array, is not modelled.
- Sheet records: the `sheets` record keeps first-insertion key order. JavaScript lists integer-like keys first in ascending order, and that reordering is not modelled. Keys that collide with `Object.prototype` names are not modelled either.
- `Routes.DuplicateCheck`: `getAllFiles` (server/storage.ts:33) has no ORDER BY, so `.some` may visit the files in any order. The model scans them in storage order. When one same-named file is missing from disk and another has the same size, the source may answer either the stat failure or the duplicate rejection. The model always gives the earlier record's outcome, and so does `Routes.HandleUpload`. `Routes.DuplicateIffSameNameAndSize` is the statement that holds in any order.
- `Storage.SearchRowsSpec`: the query has no ORDER BY, so the database may return any 100 matches. The model takes the first 100 in storage order. The contract states only membership, the bound and completeness when there are at most 100 matches; the exact count, min(matches, 100), is stated by `Storage.SearchRows`.
- `Storage.GetRows`: rows with equal row numbers may come back in any order. The model keeps storage order among them. The contract states sortedness and the multiset only.
- Case mapping: `toLowerCase`, `ILIKE` and the `i` flag of the highlighter's regular expression fold only ASCII letters here. Unicode case mapping is not modelled.
- White space: `trim` removes the ECMAScript white-space and line-terminator characters as listed in `Text.IsWhite`. Characters that later Unicode versions add to the space category are not modelled.
- `Highlight.Parts`: the regular-expression engine is not modelled. Each escaped term is read as the literal it denotes (`Highlight.EscapedTermIsLiteral`), and the split scans the alternatives in order at each position.
- `Highlight.Parts`: the early-return parts of the source carry no `colorClass`; here they carry the empty class.
- Home page encodings: `JSON.parse` of the URL's initial terms, `encodeURIComponent`, `URLSearchParams` and the URL-sync effect are not modelled. The initial terms are a parameter of `TermList.Init`.
- The react-query hooks, toasts other than the upload box's, the drag-over styling, the file input's `accept` attribute, its reset after upload, scrolling, timeouts and rendering are not modelled.
- `Cells.CleanRow`: a cell the reader leaves out of a sparse row, like a null or undefined one, is read as `Missing` and normalised to the empty string. In the source `rowData.map` skips such holes, so they stay holes, not `""`, in the stored `data`; the model does not distinguish them.
- `Viewer.ChooseSheet`: the tab buttons that switch the sheet afterwards are plain assignments and are not modelled.

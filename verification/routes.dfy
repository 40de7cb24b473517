/** The request handlers of server/routes.ts that carry logic: upload and
    indexing, search-term parsing, and the sheet reconstruction of the
    get-file endpoint. The disk, the workbook parser and `JSON.parse` are
    parameters. */
module Routes {
  import opened Wrappers
  import opened Text
  import opened Schema
  import opened Cells
  import opened Indexer
  import opened Storage

  // ---------------------------------------------------------------------
  // Upload
  // ---------------------------------------------------------------------

  /** The file multer stored: its generated name, the client's name, its
      path and its byte size on disk. */
  datatype Upload = Upload(filename: string, originalName: string, path: string, size: nat)

  /** Byte sizes of the files on disk; `fs.statSync` throws for a path that
      is not a key. */
  type Disk = map<string, nat>

  /** An existing file that the upload duplicates: same client name, and a
      stored copy of the same byte size. */
  predicate SameUpload(f: FileRecord, up: Upload, disk: Disk) {
    f.originalName == up.originalName && f.path in disk && disk[f.path] == up.size
  }

  /** An existing file whose size the check must read but cannot. */
  predicate Unreadable(f: FileRecord, up: Upload, disk: Disk) {
    f.originalName == up.originalName && f.path !in disk
  }

  /** `existingFiles.some(...)`: `Some(b)` for the answer, `None` when a
      `statSync` throws first. The size is read only for files whose name
      matches, and the scan stops at the first duplicate. */
  function DuplicateCheck(files: seq<FileRecord>, up: Upload, disk: Disk): (r: Option<bool>)
    ensures r == Some(false) <==>
      forall i :: 0 <= i < |files| ==> !SameUpload(files[i], up, disk) && !Unreadable(files[i], up, disk)
    ensures r == Some(true) ==> exists i :: (0 <= i < |files| && SameUpload(files[i], up, disk)
      && forall j :: 0 <= j < i ==> !Unreadable(files[j], up, disk))
    ensures r == None ==> exists i :: (0 <= i < |files| && Unreadable(files[i], up, disk)
      && forall j :: 0 <= j < i ==> !SameUpload(files[j], up, disk))
  {
    if |files| == 0 then Some(false)
    else if files[0].originalName == up.originalName && files[0].path !in disk then None
    else if files[0].originalName == up.originalName && disk[files[0].path] == up.size then Some(true)
    else
      var rest := DuplicateCheck(files[1..], up, disk);
      DuplicateCheckTail(files, up, disk, rest);
      rest
  }

  /** A first file that is neither a duplicate nor unreadable leaves the
      answer to the files after it. */
  lemma DuplicateCheckTail(files: seq<FileRecord>, up: Upload, disk: Disk, rest: Option<bool>)
    requires |files| > 0 && !SameUpload(files[0], up, disk) && !Unreadable(files[0], up, disk)
    requires rest == Some(false) <==>
      forall i :: 0 <= i < |files| - 1 ==> !SameUpload(files[1..][i], up, disk) && !Unreadable(files[1..][i], up, disk)
    requires rest == Some(true) ==> exists i :: (0 <= i < |files| - 1 && SameUpload(files[1..][i], up, disk)
      && forall j :: 0 <= j < i ==> !Unreadable(files[1..][j], up, disk))
    requires rest == None ==> exists i :: (0 <= i < |files| - 1 && Unreadable(files[1..][i], up, disk)
      && forall j :: 0 <= j < i ==> !SameUpload(files[1..][j], up, disk))
    ensures rest == Some(false) <==>
      forall i :: 0 <= i < |files| ==> !SameUpload(files[i], up, disk) && !Unreadable(files[i], up, disk)
    ensures rest == Some(true) ==> exists i :: (0 <= i < |files| && SameUpload(files[i], up, disk)
      && forall j :: 0 <= j < i ==> !Unreadable(files[j], up, disk))
    ensures rest == None ==> exists i :: (0 <= i < |files| && Unreadable(files[i], up, disk)
      && forall j :: 0 <= j < i ==> !SameUpload(files[j], up, disk))
  {
    assert forall i :: 0 < i < |files| ==> files[1..][i - 1] == files[i];
    if rest == Some(true) {
      var i :| 0 <= i < |files| - 1 && SameUpload(files[1..][i], up, disk)
        && forall j :: 0 <= j < i ==> !Unreadable(files[1..][j], up, disk);
      assert SameUpload(files[i + 1], up, disk);
    } else if rest == None {
      var i :| 0 <= i < |files| - 1 && Unreadable(files[1..][i], up, disk)
        && forall j :: 0 <= j < i ==> !SameUpload(files[1..][j], up, disk);
      assert Unreadable(files[i + 1], up, disk);
    }
  }

  /** When every file of the same name is still on disk, the check answers
      whether some file has the same name and size. */
  lemma DuplicateIffSameNameAndSize(files: seq<FileRecord>, up: Upload, disk: Disk)
    requires forall i :: 0 <= i < |files| ==> !Unreadable(files[i], up, disk)
    ensures DuplicateCheck(files, up, disk) == Some(exists i :: 0 <= i < |files| && SameUpload(files[i], up, disk))
  {
  }

  /** The response of the upload handler: 400 with "No file uploaded", 400
      with "already been uploaded", 200 with the new file's id, or 500. */
  datatype UploadOutcome = NoFile | Duplicate | Indexed(fileId: nat) | Failed

  /** The upload handler. `workbook` is the parser's reading of the stored
      file, one sequence of raw rows per sheet, or `None` when reading
      throws. The file record is created before the workbook is read, so a
      workbook that fails to parse leaves a file record without rows. */
  method HandleUpload(s: Store, disk: Disk, up: Option<Upload>, workbook: Option<seq<Sheet>>,
                      fmt: Formats, now: int)
    returns (t: Store, o: UploadOutcome)
    ensures up.None? ==> t == s && o == NoFile
    ensures up.Some? ==>
      (o == Duplicate <==> DuplicateCheck(s.files, up.value, disk) == Some(true))
    ensures up.Some? && (forall i :: 0 <= i < |s.files| ==> !Unreadable(s.files[i], up.value, disk)) ==>
      (o == Duplicate <==> exists i :: 0 <= i < |s.files| && SameUpload(s.files[i], up.value, disk))
    ensures o == Duplicate ==> t == s
    ensures up.Some? && DuplicateCheck(s.files, up.value, disk).None? ==> t == s && o == Failed
    ensures up.Some? && DuplicateCheck(s.files, up.value, disk) == Some(false) ==>
      var rec := FileRecord(s.nextFileId, up.value.filename, up.value.originalName, up.value.path, now);
      && t.files == s.files + [rec]
      && t.nextFileId == s.nextFileId + 1
      && (workbook.None? ==> o == Failed && t.rows == s.rows)
      && (workbook.Some? ==> (o == Indexed(rec.id)
            && t.rows == s.rows + Stamp(IndexWorkbook(rec.id, fmt, workbook.value), s.nextRowId)))
    ensures o.Indexed? ==> up.Some? && HasFileId(t, o.fileId)
    ensures o.Indexed? && Valid(s) ==> !HasFileId(s, o.fileId)
    ensures Valid(s) ==> Valid(t)
  {
    if up.None? {
      return s, NoFile;
    }
    var u := up.value;
    var dup := DuplicateCheck(s.files, u, disk);
    if dup.None? {
      return s, Failed;
    }
    if dup.value {
      return s, Duplicate;
    }
    var created := CreateFile(s, NewFile(u.filename, u.originalName, u.path), now);
    var s1 := created.0;
    var rec := created.1;
    assert s1.files[|s.files|] == rec;
    if workbook.None? {
      return s1, Failed;
    }
    var rows := IndexWorkbook(rec.id, fmt, workbook.value);
    WorkbookFileIds(rec.id, fmt, workbook.value);
    var batches;
    t, batches := CreateRows(s1, rows);
    assert t.files == s1.files;
    if Valid(s) {
      InsertBatchValid(s1, rows);
    }
    o := Indexed(rec.id);
  }

  /** Every row of the workbook carries the given file id. */
  lemma {:induction false} WorkbookFileIds(fileId: nat, fmt: Formats, sheets: seq<Sheet>)
    ensures forall r :: r in IndexWorkbook(fileId, fmt, sheets) ==> r.fileId == fileId
  {
    if |sheets| > 0 {
      IndexSheetSpec(fileId, fmt, sheets[0]);
      WorkbookFileIds(fileId, fmt, sheets[1..]);
    }
  }

  // ---------------------------------------------------------------------
  // Search
  // ---------------------------------------------------------------------

  /** What `JSON.parse` can return, as far as the handler inspects it. */
  datatype Json = JString(s: string) | JArray(items: seq<Json>) | JOther

  /** The handler's failure: a 500 with "Search failed". */
  datatype SearchError = SearchFailed

  predicate AllStrings(items: seq<Json>) {
    forall i :: 0 <= i < |items| ==> items[i].JString?
  }

  function Strings(items: seq<Json>): (r: seq<string>)
    requires AllStrings(items)
    ensures |r| == |items|
    ensures forall i :: 0 <= i < |items| ==> items[i] == JString(r[i])
  {
    seq(|items|, i requires 0 <= i < |items| => items[i].s)
  }

  /** `terms.filter(t => t.trim().length > 0).map(t => t.toLowerCase())`:
      blank terms are dropped and the others lower-cased, but not trimmed. */
  function KeepTerms(ts: seq<string>): (r: seq<string>)
    ensures |r| <= |ts|
  {
    if |ts| == 0 then []
    else (if NonBlank(ts[0]) then [Lower(ts[0])] else []) + KeepTerms(ts[1..])
  }

  /** The kept terms are exactly the lower-cased forms of the non-blank input
      terms, and none of them is blank or has an upper-case letter. */
  lemma {:induction false} KeepTermsSpec(ts: seq<string>)
    ensures forall x :: x in KeepTerms(ts) ==> NonBlank(x) && Lower(x) == x
    ensures forall x :: x in KeepTerms(ts) <==> exists i :: 0 <= i < |ts| && NonBlank(ts[i]) && x == Lower(ts[i])
  {
    if |ts| > 0 {
      var rest := KeepTerms(ts[1..]);
      KeepTermsSpec(ts[1..]);
      var head: seq<string> := if NonBlank(ts[0]) then [Lower(ts[0])] else [];
      assert KeepTerms(ts) == head + rest;
      LowerKeepsBlankness(ts[0]);
      LowerIdempotent(ts[0]);
      forall x ensures x in head + rest <==> exists i :: 0 <= i < |ts| && NonBlank(ts[i]) && x == Lower(ts[i]) {
        if x in rest {
          var i :| 0 <= i < |ts[1..]| && NonBlank(ts[1..][i]) && x == Lower(ts[1..][i]);
          assert ts[i + 1] == ts[1..][i];
        }
        if exists i :: 0 <= i < |ts| && NonBlank(ts[i]) && x == Lower(ts[i]) {
          var i :| 0 <= i < |ts| && NonBlank(ts[i]) && x == Lower(ts[i]);
          if i > 0 {
            assert ts[1..][i - 1] == ts[i];
          }
        }
      }
    }
  }

  /** The filter keeps the order of the terms: it distributes over
      concatenation. */
  lemma {:induction false} KeepTermsAppend(a: seq<string>, b: seq<string>)
    ensures KeepTerms(a + b) == KeepTerms(a) + KeepTerms(b)
  {
    if |a| > 0 {
      var ab := a + b;
      assert ab[0] == a[0];
      assert ab[1..] == a[1..] + b;
      KeepTermsAppend(a[1..], b);
      var head: seq<string> := if NonBlank(a[0]) then [Lower(a[0])] else [];
      assert KeepTerms(ab) == head + KeepTerms(ab[1..]);
      assert KeepTerms(a) == head + KeepTerms(a[1..]);
      assert head + (KeepTerms(a[1..]) + KeepTerms(b)) == (head + KeepTerms(a[1..])) + KeepTerms(b);
    } else {
      assert a + b == b;
    }
  }

  /** The term list of the search handler. A missing or empty parameter gives
      no terms; text that is not JSON is one raw term; a JSON array of
      strings gives its kept terms; any other JSON value, or an array with a
      non-string element, makes the handler throw. */
  function ParseTerms(raw: Option<string>, parse: string -> Option<Json>): (r: Result<seq<string>, SearchError>)
    ensures raw.None? || raw == Some("") ==> r == Ok([])
    ensures raw.Some? && raw.value != "" && parse(raw.value).None? ==>
      r == Ok(if NonBlank(raw.value) then [Lower(raw.value)] else [])
    ensures raw.Some? && raw.value != "" && parse(raw.value).Some? ==>
      (r.Ok? <==> parse(raw.value).value.JArray? && AllStrings(parse(raw.value).value.items))
    ensures (raw.Some? && raw.value != "" && parse(raw.value).Some? && parse(raw.value).value.JArray?
             && AllStrings(parse(raw.value).value.items))
      ==> r == Ok(KeepTerms(Strings(parse(raw.value).value.items)))
    ensures r.Ok? ==> forall x :: x in r.value ==> NonBlank(x) && Lower(x) == x
  {
    if raw.None? || raw.value == "" then Ok([])
    else match parse(raw.value)
      case None =>
        KeepTermsSingle(raw.value);
        KeepTermsSpec([raw.value]);
        Ok(KeepTerms([raw.value]))
      case Some(JArray(items)) =>
        if AllStrings(items) then
          KeepTermsSpec(Strings(items));
          Ok(KeepTerms(Strings(items)))
        else Err(SearchFailed)
      case Some(_) => Err(SearchFailed)
  }

  lemma KeepTermsSingle(t: string)
    ensures KeepTerms([t]) == if NonBlank(t) then [Lower(t)] else []
  {
    var one := [t];
    var none: seq<string> := [];
    assert one[1..] == none;
    var head: seq<string> := if NonBlank(t) then [Lower(t)] else [];
    assert KeepTerms(one) == head + KeepTerms(none);
    assert head + none == head;
  }

  /** A kept term is lower-cased but not trimmed: it has the input's length
      and white space at the same places, so the search looks for the
      surrounding spaces too. */
  lemma TermsAreNotTrimmed(t: string)
    requires NonBlank(t)
    ensures KeepTerms([t]) == [Lower(t)]
    ensures |Lower(t)| == |t|
    ensures forall i :: 0 <= i < |t| ==> (IsWhite(Lower(t)[i]) <==> IsWhite(t[i]))
  {
    KeepTermsSingle(t);
    forall i | 0 <= i < |t| ensures IsWhite(Lower(t)[i]) <==> IsWhite(t[i]) {
      LowerChangesNoWhiteSpace(t[i]);
    }
  }

  /** The search handler: the parsed terms searched in the store. */
  function SearchEndpoint(s: Store, raw: Option<string>, parse: string -> Option<Json>)
    : (r: Result<seq<SearchResult>, SearchError>)
    ensures r.Ok? <==> ParseTerms(raw, parse).Ok?
    ensures r.Ok? ==> r.value == SearchRows(s, ParseTerms(raw, parse).value)
    ensures raw.None? || raw == Some("") ==> r == Ok([])
  {
    match ParseTerms(raw, parse)
    case Ok(terms) => Ok(SearchRows(s, terms))
    case Err(e) => Err(e)
  }

  // ---------------------------------------------------------------------
  // Get file
  // ---------------------------------------------------------------------

  predicate DistinctKeys(sheets: Sheets) {
    forall a, b :: 0 <= a < b < |sheets| ==> sheets[a].0 != sheets[b].0
  }

  /** The number of grid rows over all sheets. */
  function TotalRows(sheets: Sheets): nat {
    if |sheets| == 0 then 0 else |sheets[0].1| + TotalRows(sheets[1..])
  }

  /** `sheets[name].push(data)`, creating the key at the end when absent. */
  function AddToSheet(sheets: Sheets, name: string, data: seq<string>): (r: Sheets)
    ensures |r| == |sheets| || |r| == |sheets| + 1
  {
    if |sheets| == 0 then [(name, [data])]
    else if sheets[0].0 == name then [(name, sheets[0].1 + [data])] + sheets[1..]
    else [sheets[0]] + AddToSheet(sheets[1..], name, data)
  }

  lemma HasSheetCons(sheets: Sheets, name: string)
    requires |sheets| > 0
    ensures HasSheet(sheets, name) <==> sheets[0].0 == name || HasSheet(sheets[1..], name)
  {
    if HasSheet(sheets, name) && sheets[0].0 != name {
      var i :| 0 <= i < |sheets| && sheets[i].0 == name;
      assert sheets[1..][i - 1].0 == name;
    }
    if HasSheet(sheets[1..], name) {
      var i :| 0 <= i < |sheets[1..]| && sheets[1..][i].0 == name;
      assert sheets[i + 1].0 == name;
    }
  }

  lemma SheetNamesCons(sheets: Sheets)
    requires |sheets| > 0
    ensures SheetNames(sheets) == [sheets[0].0] + SheetNames(sheets[1..])
  {
  }

  /** Adding to a sheet keeps the keys and their order; an absent key is
      appended. */
  lemma {:induction false} AddToSheetNames(sheets: Sheets, name: string, data: seq<string>)
    ensures SheetNames(AddToSheet(sheets, name, data))
      == SheetNames(sheets) + (if HasSheet(sheets, name) then [] else [name])
  {
    if |sheets| > 0 {
      var r := AddToSheet(sheets, name, data);
      HasSheetCons(sheets, name);
      SheetNamesCons(sheets);
      SheetNamesCons(r);
      if sheets[0].0 == name {
        assert r[1..] == sheets[1..];
      } else {
        AddToSheetNames(sheets[1..], name, data);
        assert r[1..] == AddToSheet(sheets[1..], name, data);
      }
    }
  }

  /** Adding to a sheet appends the data to that sheet's grid, or starts a
      grid holding only it, and leaves every other grid alone. */
  lemma {:induction false} AddToSheetGrid(sheets: Sheets, name: string, data: seq<string>, k: string)
    ensures SheetGrid(AddToSheet(sheets, name, data), k) ==
      if k == name then Some(match SheetGrid(sheets, name)
                             case Some(g) => g + [data]
                             case None => [data])
      else SheetGrid(sheets, k)
  {
    if |sheets| > 0 && sheets[0].0 != name {
      AddToSheetGrid(sheets[1..], name, data, k);
      var r := AddToSheet(sheets, name, data);
      assert r[0] == sheets[0] && r[1..] == AddToSheet(sheets[1..], name, data);
    } else if |sheets| > 0 {
      var r := AddToSheet(sheets, name, data);
      assert r[1..] == sheets[1..];
    }
  }

  /** Adding to a sheet adds one grid row in all. */
  lemma {:induction false} AddToSheetTotal(sheets: Sheets, name: string, data: seq<string>)
    ensures TotalRows(AddToSheet(sheets, name, data)) == TotalRows(sheets) + 1
  {
    if |sheets| > 0 {
      var r := AddToSheet(sheets, name, data);
      if sheets[0].0 == name {
        assert r[1..] == sheets[1..];
      } else {
        AddToSheetTotal(sheets[1..], name, data);
        assert r[1..] == AddToSheet(sheets[1..], name, data);
      }
    }
  }

  /** Adding to a sheet never creates a second key of the same name. */
  lemma AddToSheetDistinct(sheets: Sheets, name: string, data: seq<string>)
    requires DistinctKeys(sheets)
    ensures DistinctKeys(AddToSheet(sheets, name, data))
  {
    var r := AddToSheet(sheets, name, data);
    AddToSheetNames(sheets, name, data);
    var names := SheetNames(r);
    forall a, b | 0 <= a < b < |r| ensures r[a].0 != r[b].0 {
      assert r[a].0 == names[a] && r[b].0 == names[b];
      assert names[a] == SheetNames(sheets)[a];
      if b < |sheets| {
        assert names[b] == SheetNames(sheets)[b];
      } else {
        assert names[b] == name && !HasSheet(sheets, name);
      }
    }
  }

  /** The stored data of the rows of one sheet, in input order: the
      reference the reconstruction is checked against. */
  function DataOf(rows: seq<Row>, name: string): seq<seq<string>> {
    if |rows| == 0 then []
    else DataOf(rows[..|rows| - 1], name)
         + (if rows[|rows| - 1].sheetName == name then [rows[|rows| - 1].data] else [])
  }

  predicate HasRowOf(rows: seq<Row>, name: string) {
    exists i :: 0 <= i < |rows| && rows[i].sheetName == name
  }

  lemma HasRowOfSnoc(rows: seq<Row>, name: string)
    requires |rows| > 0
    ensures HasRowOf(rows, name) <==> HasRowOf(rows[..|rows| - 1], name) || rows[|rows| - 1].sheetName == name
  {
    var init := rows[..|rows| - 1];
    if HasRowOf(rows, name) && rows[|rows| - 1].sheetName != name {
      var i :| 0 <= i < |rows| && rows[i].sheetName == name;
      assert init[i] == rows[i];
    }
    if HasRowOf(init, name) {
      var i :| 0 <= i < |init| && init[i].sheetName == name;
      assert rows[i] == init[i];
    }
  }

  lemma {:induction false} DataOfAbsent(rows: seq<Row>, name: string)
    requires !HasRowOf(rows, name)
    ensures DataOf(rows, name) == []
  {
    if |rows| > 0 {
      HasRowOfSnoc(rows, name);
      DataOfAbsent(rows[..|rows| - 1], name);
    }
  }

  /** The grouping loop of the get-file handler, over the rows in the order
      `getRows` returns them. */
  function GroupBySheet(rows: seq<Row>): (r: Sheets)
    ensures |r| <= |rows|
    ensures |r| > 0 <==> |rows| > 0
  {
    if |rows| == 0 then []
    else AddToSheet(GroupBySheet(rows[..|rows| - 1]), rows[|rows| - 1].sheetName, rows[|rows| - 1].data)
  }

  /** Under each sheet name that occurs, exactly the data of that sheet's
      rows in input order; no key for any other name. */
  lemma {:induction false} GroupBySheetGrid(rows: seq<Row>, name: string)
    ensures SheetGrid(GroupBySheet(rows), name) ==
      if HasRowOf(rows, name) then Some(DataOf(rows, name)) else None
  {
    if |rows| > 0 {
      var init := rows[..|rows| - 1];
      var last := rows[|rows| - 1];
      var g0 := GroupBySheet(init);
      GroupBySheetGrid(init, name);
      HasRowOfSnoc(rows, name);
      AddToSheetGrid(g0, last.sheetName, last.data, name);
      assert GroupBySheet(rows) == AddToSheet(g0, last.sheetName, last.data);
      assert DataOf(rows, name) == DataOf(init, name) + (if last.sheetName == name then [last.data] else []);
      if name == last.sheetName {
        if !HasRowOf(init, name) {
          DataOfAbsent(init, name);
          assert DataOf(rows, name) == [last.data];
        }
      } else {
        assert DataOf(rows, name) == DataOf(init, name);
      }
    }
  }

  /** Each sheet name is a key at most once. */
  lemma {:induction false} GroupBySheetDistinct(rows: seq<Row>)
    ensures DistinctKeys(GroupBySheet(rows))
  {
    if |rows| > 0 {
      GroupBySheetDistinct(rows[..|rows| - 1]);
      AddToSheetDistinct(GroupBySheet(rows[..|rows| - 1]), rows[|rows| - 1].sheetName, rows[|rows| - 1].data);
    }
  }

  /** The grids hold as many rows in all as there are input rows: blank
      rows that were never stored leave no trace, so the grid collapses. */
  lemma {:induction false} GroupBySheetTotal(rows: seq<Row>)
    ensures TotalRows(GroupBySheet(rows)) == |rows|
  {
    if |rows| > 0 {
      GroupBySheetTotal(rows[..|rows| - 1]);
      AddToSheetTotal(GroupBySheet(rows[..|rows| - 1]), rows[|rows| - 1].sheetName, rows[|rows| - 1].data);
    }
  }

  /** Growing the input only appends keys: the sheets appear in the order of
      their first row. */
  lemma {:induction false} GroupKeysInFirstAppearanceOrder(rows: seq<Row>, n: nat)
    requires n <= |rows|
    ensures IsPrefixSeq(SheetNames(GroupBySheet(rows[..n])), SheetNames(GroupBySheet(rows)))
    decreases |rows| - n
  {
    if n < |rows| {
      GroupKeysInFirstAppearanceOrder(rows, n + 1);
      GroupBySheetStep(rows, n);
      var g := GroupBySheet(rows[..n]);
      AddToSheetNames(g, rows[n].sheetName, rows[n].data);
      PrefixOfExtension(SheetNames(g), if HasSheet(g, rows[n].sheetName) then [] else [rows[n].sheetName],
        SheetNames(GroupBySheet(rows)));
    } else {
      assert rows[..n] == rows;
    }
  }

  predicate IsPrefixSeq(a: seq<string>, b: seq<string>) {
    |a| <= |b| && b[..|a|] == a
  }

  /** Grouping one more row adds that row to the grouping of the rows before
      it. */
  lemma GroupBySheetStep(rows: seq<Row>, n: nat)
    requires n < |rows|
    ensures GroupBySheet(rows[..n + 1]) == AddToSheet(GroupBySheet(rows[..n]), rows[n].sheetName, rows[n].data)
  {
    assert rows[..n + 1][..n] == rows[..n];
    assert rows[..n + 1][n] == rows[n];
  }

  lemma PrefixOfExtension(a: seq<string>, x: seq<string>, b: seq<string>)
    requires IsPrefixSeq(a + x, b)
    ensures IsPrefixSeq(a, b)
  {
    assert b[..|a|] == (a + x)[..|a|];
  }

  /** `404 File not found`. */
  datatype GetFileError = NotFound

  /** The get-file handler: the file's columns and its rows regrouped by
      sheet. */
  function GetFileView(s: Store, id: nat): (r: Result<FileData, GetFileError>)
    ensures r.Err? <==> !HasFileId(s, id)
    ensures r.Ok? ==> (r.value.id == id
      && (exists f :: f in s.files && f.id == id
            && r.value.filename == f.filename && r.value.originalName == f.originalName)
      && r.value.sheets == GroupBySheet(GetRows(s, id)))
  {
    match GetFile(s, id)
    case None => Err(NotFound)
    case Some(f) => Ok(FileData(f.id, f.filename, f.originalName, GroupBySheet(GetRows(s, id))))
  }

  /** The download handler: the stored path of the file and the client's
      original name to send it under, or `404 File not found`. */
  function DownloadTarget(s: Store, id: nat): (r: Result<(string, string), GetFileError>)
    ensures r.Err? <==> !HasFileId(s, id)
    ensures r.Ok? ==> exists f :: f in s.files && f.id == id && r.value == (f.path, f.originalName)
  {
    match GetFile(s, id)
    case None => Err(NotFound)
    case Some(f) => Ok((f.path, f.originalName))
  }

  /** The download is offered for exactly the files the viewer can open,
      under the name the viewer shows. */
  lemma DownloadAgreesWithView(s: Store, id: nat)
    ensures DownloadTarget(s, id).Ok? <==> GetFileView(s, id).Ok?
    ensures DownloadTarget(s, id).Ok? ==> DownloadTarget(s, id).value.1 == GetFileView(s, id).value.originalName
  {
  }

  /** Every grid row is the data of a stored row of the file and sheet. */
  ghost predicate GridRowsStored(s: Store, id: nat, sheets: Sheets) {
    forall name: string, k: int :: GridRowStoredAt(s, id, sheets, name, k)
  }

  /** Row `k` of sheet `name`, when there is one, is the data of a stored
      row of the file and sheet. */
  ghost predicate GridRowStoredAt(s: Store, id: nat, sheets: Sheets, name: string, k: int) {
    SheetGrid(sheets, name).Some? && 0 <= k < |SheetGrid(sheets, name).value| ==>
      exists r :: r in s.rows && r.fileId == id && r.sheetName == name && r.data == SheetGrid(sheets, name).value[k]
  }

  /** Every grid row of the file view is the data of a stored row of that
      file and sheet, and the grids hold as many rows as the file has. */
  lemma FileViewRows(s: Store, id: nat)
    requires HasFileId(s, id)
    ensures TotalRows(GetFileView(s, id).value.sheets) == |RowsOf(s.rows, id)|
    ensures GridRowsStored(s, id, GetFileView(s, id).value.sheets)
  {
    var rows := GetRows(s, id);
    assert GetFileView(s, id).value.sheets == GroupBySheet(rows);
    GroupBySheetTotal(rows);
    GetRowsLength(s, id);
    GroupedRowsStored(s, id, rows);
  }

  /** Regrouping rows of the file taken from storage puts only stored rows
      of the file in the grids. */
  lemma GroupedRowsStored(s: Store, id: nat, rows: seq<Row>)
    requires forall r :: r in rows ==> r in s.rows && r.fileId == id
    ensures GridRowsStored(s, id, GroupBySheet(rows))
  {
    forall name: string, k: int ensures GridRowStoredAt(s, id, GroupBySheet(rows), name, k) {
      GridRowStored(s, id, rows, name, k);
    }
  }

  lemma GridRowStored(s: Store, id: nat, rows: seq<Row>, name: string, k: int)
    requires forall r :: r in rows ==> r in s.rows && r.fileId == id
    ensures GridRowStoredAt(s, id, GroupBySheet(rows), name, k)
  {
    if SheetGrid(GroupBySheet(rows), name).Some? && 0 <= k < |SheetGrid(GroupBySheet(rows), name).value| {
      GridRowFound(s, id, rows, name, k);
    }
  }

  lemma GridRowFound(s: Store, id: nat, rows: seq<Row>, name: string, k: nat)
    requires forall r :: r in rows ==> r in s.rows && r.fileId == id
    requires SheetGrid(GroupBySheet(rows), name).Some?
    requires k < |SheetGrid(GroupBySheet(rows), name).value|
    ensures exists r :: (r in s.rows && r.fileId == id && r.sheetName == name
      && r.data == SheetGrid(GroupBySheet(rows), name).value[k])
  {
    GroupBySheetGrid(rows, name);
    DataOfFromRows(rows, name, k);
    var r :| r in rows && r.sheetName == name && r.data == DataOf(rows, name)[k];
    assert r in s.rows && r.fileId == id;
  }

  lemma GetRowsLength(s: Store, id: nat)
    ensures multiset(GetRows(s, id)) == multiset(RowsOf(s.rows, id))
    ensures |GetRows(s, id)| == |RowsOf(s.rows, id)|
  {
    assert |multiset(GetRows(s, id))| == |multiset(RowsOf(s.rows, id))|;
  }

  /** Each entry of `DataOf` is the data of an input row of that sheet. */
  lemma {:induction false} DataOfFromRows(rows: seq<Row>, name: string, k: nat)
    requires k < |DataOf(rows, name)|
    ensures exists r :: r in rows && r.sheetName == name && r.data == DataOf(rows, name)[k]
  {
    var init := rows[..|rows| - 1];
    var last := rows[|rows| - 1];
    if k < |DataOf(init, name)| {
      DataOfFromRows(init, name, k);
      var r :| r in init && r.sheetName == name && r.data == DataOf(init, name)[k];
      assert r in rows;
    } else {
      assert last in rows;
    }
  }

  // ---------------------------------------------------------------------
  // The rows of one sheet, as the viewer receives them
  // ---------------------------------------------------------------------

  /** The rows of one sheet, in input order. */
  function OfSheet(rows: seq<Row>, name: string): seq<Row>
  {
    if |rows| == 0 then []
    else
      assert rows == rows[..|rows| - 1] + [rows[|rows| - 1]];
      OfSheet(rows[..|rows| - 1], name) + (if rows[|rows| - 1].sheetName == name then [rows[|rows| - 1]] else [])
  }

  /** A sheet's rows are exactly the input rows that carry its name. */
  lemma {:induction false} OfSheetMembers(rows: seq<Row>, name: string)
    ensures forall x :: x in OfSheet(rows, name) <==> x in rows && x.sheetName == name
  {
    if |rows| > 0 {
      var init := rows[..|rows| - 1];
      OfSheetMembers(init, name);
      assert rows == init + [rows[|rows| - 1]];
    }
  }

  function Datas(rows: seq<Row>): (r: seq<seq<string>>)
    ensures |r| == |rows| && forall i :: 0 <= i < |rows| ==> r[i] == rows[i].data
  {
    seq(|rows|, i requires 0 <= i < |rows| => rows[i].data)
  }

  /** The grid data of a sheet is the data of that sheet's rows. */
  lemma {:induction false} DataOfIsOfSheet(rows: seq<Row>, name: string)
    ensures DataOf(rows, name) == Datas(OfSheet(rows, name))
  {
    if |rows| > 0 {
      var init := rows[..|rows| - 1];
      DataOfIsOfSheet(init, name);
      var last := rows[|rows| - 1];
      if last.sheetName == name {
        assert Datas(OfSheet(init, name) + [last]) == Datas(OfSheet(init, name)) + [last.data];
      } else {
        assert OfSheet(rows, name) == OfSheet(init, name);
      }
    }
  }

  lemma {:induction false} OfSheetAppend(a: seq<Row>, b: seq<Row>, name: string)
    ensures OfSheet(a + b, name) == OfSheet(a, name) + OfSheet(b, name)
    decreases |b|
  {
    if |b| == 0 {
      assert a + b == a;
    } else {
      var ab := a + b;
      var init := b[..|b| - 1];
      assert ab[..|ab| - 1] == a + init && ab[|ab| - 1] == b[|b| - 1];
      OfSheetAppend(a, init, name);
      var tail: seq<Row> := if b[|b| - 1].sheetName == name then [b[|b| - 1]] else [];
      assert OfSheet(a, name) + OfSheet(init, name) + tail == OfSheet(a, name) + (OfSheet(init, name) + tail);
    }
  }

  lemma {:induction false} OfSheetOnly(rows: seq<Row>, name: string)
    requires forall i :: 0 <= i < |rows| ==> rows[i].sheetName == name
    ensures OfSheet(rows, name) == rows
  {
    if |rows| > 0 {
      var init, last := rows[..|rows| - 1], rows[|rows| - 1];
      assert forall i :: 0 <= i < |init| ==> init[i] == rows[i];
      OfSheetOnly(init, name);
      assert rows == init + [last];
    }
  }

  lemma OfSheetNone(rows: seq<Row>, name: string)
    requires forall x :: x in rows ==> x.sheetName != name
    ensures OfSheet(rows, name) == []
  {
    OfSheetMembers(rows, name);
    if OfSheet(rows, name) != [] {
      assert OfSheet(rows, name)[0] in OfSheet(rows, name);
    }
  }

  /** How often a row occurs among a sheet's rows depends only on how often
      it occurs in the input. */
  lemma {:induction false} OfSheetCount(rows: seq<Row>, name: string, x: Row)
    ensures multiset(OfSheet(rows, name))[x] == if x.sheetName == name then multiset(rows)[x] else 0
  {
    if |rows| > 0 {
      var init := rows[..|rows| - 1];
      var last := rows[|rows| - 1];
      OfSheetCount(init, name, x);
      assert rows == init + [last];
      assert multiset(rows) == multiset(init) + multiset{last};
      var tail: seq<Row> := if last.sheetName == name then [last] else [];
      assert multiset(OfSheet(rows, name)) == multiset(OfSheet(init, name)) + multiset(tail);
    }
  }

  lemma OfSheetSameMultiset(a: seq<Row>, b: seq<Row>, name: string)
    requires multiset(a) == multiset(b)
    ensures multiset(OfSheet(a, name)) == multiset(OfSheet(b, name))
  {
    forall x ensures multiset(OfSheet(a, name))[x] == multiset(OfSheet(b, name))[x] {
      OfSheetCount(a, name, x);
      OfSheetCount(b, name, x);
    }
  }

  /** The rows of one sheet keep the order of sorted input. */
  lemma {:induction false} OfSheetSorted(rows: seq<Row>, name: string)
    requires SortedByRowNumber(rows)
    ensures SortedByRowNumber(OfSheet(rows, name))
  {
    if |rows| > 0 {
      var init := rows[..|rows| - 1];
      var last := rows[|rows| - 1];
      assert SortedByRowNumber(init) by {
        forall a, b | 0 <= a < b < |init| ensures init[a].rowNumber <= init[b].rowNumber {
          assert init[a] == rows[a] && init[b] == rows[b];
        }
      }
      OfSheetSorted(init, name);
      if last.sheetName == name {
        var o := OfSheet(init, name);
        OfSheetMembers(init, name);
        forall y | y in o ensures y.rowNumber <= last.rowNumber {
          var j :| 0 <= j < |init| && init[j] == y;
          assert rows[j] == y;
        }
        SnocSorted(o, last);
      }
    }
  }

  lemma SnocSorted(o: seq<Row>, last: Row)
    requires SortedByRowNumber(o)
    requires forall y :: y in o ==> y.rowNumber <= last.rowNumber
    ensures SortedByRowNumber(o + [last])
  {
    var r := o + [last];
    forall a, b | 0 <= a < b < |r| ensures r[a].rowNumber <= r[b].rowNumber {
      assert r[a] == o[a] && o[a] in o;
      if b < |o| {
        assert r[b] == o[b];
      }
    }
  }

  /** Stamped rows keep the names of the rows they stamp. */
  lemma StampedNames(w: seq<NewRow>, first: nat, name: string)
    ensures (forall x :: x in w ==> x.sheetName != name) ==>
      forall r :: r in Stamp(w, first) ==> r.sheetName != name
  {
    forall r | r in Stamp(w, first) ensures exists k :: 0 <= k < |w| && r.sheetName == w[k].sheetName {
      var k :| 0 <= k < |Stamp(w, first)| && Stamp(w, first)[k] == r;
    }
  }

  lemma StampedSheet(w: seq<NewRow>, first: nat, name: string)
    requires forall x :: x in w ==> x.sheetName == name
    ensures forall i :: 0 <= i < |Stamp(w, first)| ==> Stamp(w, first)[i].sheetName == name
  {
    forall i | 0 <= i < |Stamp(w, first)| ensures Stamp(w, first)[i].sheetName == name {
      assert w[i] in w;
    }
  }

  /** Within an uploaded workbook with distinct sheet names, the stored rows
      of one sheet are exactly the indexed rows of that sheet, stamped with
      consecutive ids. */
  lemma {:induction false} WorkbookSheetRows(fileId: nat, fmt: Formats, sheets: seq<Sheet>, first: nat, si: nat, off: nat)
    requires DistinctSheetNames(sheets) && si < |sheets|
    requires off == first + |IndexWorkbook(fileId, fmt, sheets[..si])|
    ensures OfSheet(Stamp(IndexWorkbook(fileId, fmt, sheets), first), sheets[si].name)
      == Stamp(IndexSheet(fileId, fmt, sheets[si]), off)
  {
    WorkbookAroundSheet(fileId, fmt, sheets, si);
    MiddleSheetRows(IndexWorkbook(fileId, fmt, sheets), IndexWorkbook(fileId, fmt, sheets[..si]),
      IndexSheet(fileId, fmt, sheets[si]), IndexWorkbook(fileId, fmt, sheets[si + 1..]),
      first, off, sheets[si].name);
  }

  /** The rows of an uploaded workbook around one of its sheets. */
  lemma WorkbookAroundSheet(fileId: nat, fmt: Formats, sheets: seq<Sheet>, si: nat)
    requires DistinctSheetNames(sheets) && si < |sheets|
    ensures IndexWorkbook(fileId, fmt, sheets)
      == IndexWorkbook(fileId, fmt, sheets[..si]) + IndexSheet(fileId, fmt, sheets[si]) + IndexWorkbook(fileId, fmt, sheets[si + 1..])
    ensures forall r :: r in IndexWorkbook(fileId, fmt, sheets[..si]) ==> r.sheetName != sheets[si].name
    ensures forall r :: r in IndexSheet(fileId, fmt, sheets[si]) ==> r.sheetName == sheets[si].name
    ensures forall r :: r in IndexWorkbook(fileId, fmt, sheets[si + 1..]) ==> r.sheetName != sheets[si].name
  {
    WorkbookSplit(fileId, fmt, sheets, si);
    OtherSheetsNamedOtherwise(fileId, fmt, sheets, si);
  }

  /** Rows of other sheets, then one sheet's rows, then rows of other sheets
      again: once stamped, the sheet's rows are the middle part. */
  lemma {:induction false} MiddleSheetRows(w: seq<NewRow>, x: seq<NewRow>, y: seq<NewRow>, z: seq<NewRow>, first: nat, off: nat, name: string)
    requires w == x + y + z && off == first + |x|
    requires forall r :: r in x ==> r.sheetName != name
    requires forall r :: r in y ==> r.sheetName == name
    requires forall r :: r in z ==> r.sheetName != name
    ensures OfSheet(Stamp(w, first), name) == Stamp(y, off)
  {
    var o3 := off + |y|;
    StampThree(x, y, z, first, off, o3);
    StampedNames(x, first, name);
    StampedSheet(y, off, name);
    StampedNames(z, o3, name);
    MiddleRows(Stamp(x, first), Stamp(y, off), Stamp(z, o3), name);
  }

  lemma StampThree(x: seq<NewRow>, y: seq<NewRow>, z: seq<NewRow>, first: nat, o2: nat, o3: nat)
    requires o2 == first + |x| && o3 == o2 + |y|
    ensures Stamp(x + y + z, first) == Stamp(x, first) + Stamp(y, o2) + Stamp(z, o3)
  {
    StampAppend(x + y, z, first);
    StampAppend(x, y, first);
  }

  /** Rows of other sheets around one sheet's rows: the sheet's rows are the
      middle part. */
  lemma MiddleRows(a: seq<Row>, b: seq<Row>, c: seq<Row>, name: string)
    requires forall r :: r in a ==> r.sheetName != name
    requires forall i :: 0 <= i < |b| ==> b[i].sheetName == name
    requires forall r :: r in c ==> r.sheetName != name
    ensures OfSheet(a + b + c, name) == b
  {
    OfSheetAppend(a + b, c, name);
    OfSheetAppend(a, b, name);
    OfSheetNone(a, name);
    OfSheetOnly(b, name);
    OfSheetNone(c, name);
    assert [] + b + [] == b;
  }

  /** A workbook's rows split around any one sheet. */
  lemma WorkbookSplit(fileId: nat, fmt: Formats, sheets: seq<Sheet>, si: nat)
    requires si < |sheets|
    ensures IndexWorkbook(fileId, fmt, sheets)
      == IndexWorkbook(fileId, fmt, sheets[..si]) + IndexSheet(fileId, fmt, sheets[si])
        + IndexWorkbook(fileId, fmt, sheets[si + 1..])
  {
    assert sheets == sheets[..si] + ([sheets[si]] + sheets[si + 1..]);
    WorkbookAppend(fileId, fmt, sheets[..si], [sheets[si]] + sheets[si + 1..]);
    assert ([sheets[si]] + sheets[si + 1..])[1..] == sheets[si + 1..];
  }

  lemma {:induction false} WorkbookAppend(fileId: nat, fmt: Formats, xs: seq<Sheet>, ys: seq<Sheet>)
    ensures IndexWorkbook(fileId, fmt, xs + ys) == IndexWorkbook(fileId, fmt, xs) + IndexWorkbook(fileId, fmt, ys)
  {
    SheetsCons(xs, ys);
    if |xs| > 0 {
      var zs := xs + ys;
      WorkbookCons(fileId, fmt, zs);
      WorkbookCons(fileId, fmt, xs);
      WorkbookAppend(fileId, fmt, xs[1..], ys);
      AppendStep(IndexWorkbook(fileId, fmt, zs), IndexSheet(fileId, fmt, zs[0]),
        IndexWorkbook(fileId, fmt, zs[1..]), IndexWorkbook(fileId, fmt, xs),
        IndexWorkbook(fileId, fmt, xs[1..]), IndexWorkbook(fileId, fmt, ys));
    }
  }

  lemma SheetsCons(xs: seq<Sheet>, ys: seq<Sheet>)
    ensures |xs| == 0 ==> xs + ys == ys
    ensures |xs| > 0 ==> (xs + ys)[0] == xs[0] && (xs + ys)[1..] == xs[1..] + ys
  {
  }

  /** The step of `WorkbookAppend` on plain row sequences. */
  lemma AppendStep(wz: seq<NewRow>, h: seq<NewRow>, wz1: seq<NewRow>, wx: seq<NewRow>, wx1: seq<NewRow>, wy: seq<NewRow>)
    requires wz == h + wz1 && wx == h + wx1 && wz1 == wx1 + wy
    ensures wz == wx + wy
  {
  }

  lemma WorkbookCons(fileId: nat, fmt: Formats, sheets: seq<Sheet>)
    requires |sheets| > 0
    ensures IndexWorkbook(fileId, fmt, sheets)
      == IndexSheet(fileId, fmt, sheets[0]) + IndexWorkbook(fileId, fmt, sheets[1..])
  {
  }

  /** With distinct sheet names, no row of another sheet carries sheet `si`'s name. */
  lemma OtherSheetsNamedOtherwise(fileId: nat, fmt: Formats, sheets: seq<Sheet>, si: nat)
    requires DistinctSheetNames(sheets) && si < |sheets|
    ensures forall x :: x in IndexWorkbook(fileId, fmt, sheets[..si]) ==> x.sheetName != sheets[si].name
    ensures forall x :: x in IndexWorkbook(fileId, fmt, sheets[si + 1..]) ==> x.sheetName != sheets[si].name
  {
    forall x | x in IndexWorkbook(fileId, fmt, sheets[..si]) ensures x.sheetName != sheets[si].name {
      var k :| 0 <= k < |sheets[..si]| && sheets[..si][k].name == x.sheetName;
      assert sheets[k] == sheets[..si][k];
    }
    forall x | x in IndexWorkbook(fileId, fmt, sheets[si + 1..]) ensures x.sheetName != sheets[si].name {
      var k :| 0 <= k < |sheets[si + 1..]| && sheets[si + 1..][k].name == x.sheetName;
      assert sheets[si + 1 + k] == sheets[si + 1..][k];
    }
  }

  /** After an upload, the file's stored rows are the workbook's indexed rows,
      stamped from the store's next row id. */
  lemma UploadedFileRows(s: Store, t: Store, fmt: Formats, sheets: seq<Sheet>)
    requires Valid(s)
    requires t.rows == s.rows + Stamp(IndexWorkbook(s.nextFileId, fmt, sheets), s.nextRowId)
    ensures RowsOf(t.rows, s.nextFileId) == Stamp(IndexWorkbook(s.nextFileId, fmt, sheets), s.nextRowId)
  {
    WorkbookFileIds(s.nextFileId, fmt, sheets);
    NewFileRows(s, IndexWorkbook(s.nextFileId, fmt, sheets));
  }

  /** The stored rows of one sheet of an uploaded workbook (with distinct
      sheet names), as the file's rows are read back in row-number order, are
      exactly that sheet's indexed rows, stamped. */
  lemma UploadedSheetRows(t: Store, id: nat, fmt: Formats, sheets: seq<Sheet>, first: nat, si: nat, off: nat)
    requires DistinctSheetNames(sheets) && si < |sheets|
    requires RowsOf(t.rows, id) == Stamp(IndexWorkbook(id, fmt, sheets), first)
    requires off == first + |IndexWorkbook(id, fmt, sheets[..si])|
    ensures OfSheet(GetRows(t, id), sheets[si].name) == Stamp(IndexSheet(id, fmt, sheets[si]), off)
  {
    WorkbookSheetRows(id, fmt, sheets, first, si, off);
    SheetRowsStrict(id, fmt, sheets[si], off);
    assert OfSheet(RowsOf(t.rows, id), sheets[si].name) == Stamp(IndexSheet(id, fmt, sheets[si]), off);
    SortedSheetRows(GetRows(t, id), RowsOf(t.rows, id), OfSheet(RowsOf(t.rows, id), sheets[si].name), sheets[si].name);
  }

  /** A sheet's stamped rows have strictly increasing row numbers. */
  lemma SheetRowsStrict(id: nat, fmt: Formats, sheet: Sheet, off: nat)
    ensures StrictlyByRowNumber(Stamp(IndexSheet(id, fmt, sheet), off))
  {
    IndexSheetNumbering(id, fmt, sheet);
  }

  /** Sorting by row number does not change a sheet's rows when their
      numbers are all different. */
  lemma SortedSheetRows(g: seq<Row>, all: seq<Row>, st: seq<Row>, name: string)
    requires SortedByRowNumber(g) && multiset(g) == multiset(all)
    requires OfSheet(all, name) == st && StrictlyByRowNumber(st)
    ensures OfSheet(g, name) == st
  {
    OfSheetSameMultiset(g, all, name);
    OfSheetSorted(g, name);
    SortedMatchesStrict(OfSheet(g, name), st);
  }

  /** A sheet's grid is the data of its rows, and the sheet has a key exactly
      when it has a row. */
  lemma GridOfSheetRows(rows: seq<Row>, name: string)
    ensures SheetGrid(GroupBySheet(rows), name)
      == if |OfSheet(rows, name)| > 0 then Some(Datas(OfSheet(rows, name))) else None
  {
    GroupBySheetGrid(rows, name);
    DataOfIsOfSheet(rows, name);
    OfSheetMembers(rows, name);
    if |OfSheet(rows, name)| > 0 {
      var x := OfSheet(rows, name)[0];
      assert x in OfSheet(rows, name);
      var j :| 0 <= j < |rows| && rows[j] == x;
      assert HasRowOf(rows, name);
    }
  }

  /** The grid the get-file response holds for one sheet of an uploaded
      workbook (with distinct sheet names) is exactly that sheet's indexed
      rows, in order: blank rows are gone, and the first kept row is the
      grid's first row. A sheet with no kept row has no key. */
  lemma UploadedSheetGrid(t: Store, id: nat, fmt: Formats, sheets: seq<Sheet>, first: nat, si: nat)
    requires DistinctSheetNames(sheets) && si < |sheets|
    requires RowsOf(t.rows, id) == Stamp(IndexWorkbook(id, fmt, sheets), first)
    ensures var grid := SheetGrid(GroupBySheet(GetRows(t, id)), sheets[si].name);
      var own := IndexSheet(id, fmt, sheets[si]);
      && (grid.Some? <==> |own| > 0)
      && (grid.Some? ==> |grid.value| == |own| && forall k :: 0 <= k < |own| ==> grid.value[k] == own[k].data)
  {
    UploadedSheetData(t, id, fmt, sheets, first, si, first + |IndexWorkbook(id, fmt, sheets[..si])|);
    GridOfSheetRows(GetRows(t, id), sheets[si].name);
  }

  /** The data of a sheet's rows in the file's listing are the indexed rows' data. */
  lemma UploadedSheetData(t: Store, id: nat, fmt: Formats, sheets: seq<Sheet>, first: nat, si: nat, off: nat)
    requires DistinctSheetNames(sheets) && si < |sheets|
    requires RowsOf(t.rows, id) == Stamp(IndexWorkbook(id, fmt, sheets), first)
    requires off == first + |IndexWorkbook(id, fmt, sheets[..si])|
    ensures |Datas(OfSheet(GetRows(t, id), sheets[si].name))| == |IndexSheet(id, fmt, sheets[si])|
    ensures forall k :: 0 <= k < |IndexSheet(id, fmt, sheets[si])| ==>
      Datas(OfSheet(GetRows(t, id), sheets[si].name))[k] == IndexSheet(id, fmt, sheets[si])[k].data
  {
    UploadedSheetRows(t, id, fmt, sheets, first, si, off);
    StampData(IndexSheet(id, fmt, sheets[si]), off);
  }

  /** Stamping rows leaves their cell data untouched. */
  lemma StampData(own: seq<NewRow>, off: nat)
    ensures |Datas(Stamp(own, off))| == |own|
    ensures forall k :: 0 <= k < |own| ==> Datas(Stamp(own, off))[k] == own[k].data
  {
  }
}

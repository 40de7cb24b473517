/** The records of shared/schema.ts: uploaded files, indexed rows, search
    results and the file view sent to the viewer. */
module Schema {
  import opened Wrappers

  /** A row of the `files` table; `createdAt` is the database clock at
      insertion. The table keeps no size: the server reads sizes from disk. */
  datatype FileRecord = FileRecord(
    id: nat,
    filename: string,
    originalName: string,
    path: string,
    createdAt: int)

  /** The columns of a `files` row supplied by the caller (`InsertFile`). */
  datatype NewFile = NewFile(filename: string, originalName: string, path: string)

  /** A row of the `rows` table: one non-blank spreadsheet row. */
  datatype Row = Row(
    id: nat,
    fileId: nat,
    sheetName: string,
    rowNumber: int,
    data: seq<string>,
    searchText: string)

  /** The columns of a `rows` row supplied by the caller (`InsertRow`). */
  datatype NewRow = NewRow(
    fileId: nat,
    sheetName: string,
    rowNumber: int,
    data: seq<string>,
    searchText: string)

  /** A search hit: the row's columns plus the owning file's stored `filename`. */
  datatype SearchResult = SearchResult(
    id: nat,
    fileId: nat,
    filename: string,
    sheetName: string,
    rowNumber: int,
    data: seq<string>,
    searchText: string)

  /** A `Record<string, any[][]>` whose keys keep first-insertion order. */
  type Sheets = seq<(string, seq<seq<string>>)>

  /** The body of the get-file response (`FileData`). */
  datatype FileData = FileData(id: nat, filename: string, originalName: string, sheets: Sheets)

  function SheetNames(sheets: Sheets): seq<string> {
    seq(|sheets|, i requires 0 <= i < |sheets| => sheets[i].0)
  }

  predicate HasSheet(sheets: Sheets, name: string) {
    exists i :: 0 <= i < |sheets| && sheets[i].0 == name
  }

  /** `sheets[name]`, absent when no key is `name`. */
  function SheetGrid(sheets: Sheets, name: string): (r: Option<seq<seq<string>>>)
    ensures r.Some? <==> HasSheet(sheets, name)
    ensures r.Some? ==> exists i :: 0 <= i < |sheets| && sheets[i] == (name, r.value)
  {
    if |sheets| == 0 then None
    else if sheets[0].0 == name then Some(sheets[0].1)
    else SheetGrid(sheets[1..], name)
  }
}

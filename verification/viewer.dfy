/** The spreadsheet viewer (client/src/pages/ViewFile.tsx): which sheet it
    opens, how a sheet's grid splits into header and body, the row labels it
    shows, which row it marks as the search target, and what each cell
    displays. */
module Viewer {
  import opened Wrappers
  import opened Schema
  import opened Cells
  import opened Indexer
  import opened Storage
  import opened Routes

  /** The sheet the viewer shows once the file has loaded. A sheet already
      chosen stays. Otherwise the `sheet` URL parameter is taken when it is
      non-empty and names a key, else the first key when it is non-empty;
      failing both, nothing is chosen (`""`). */
  function ChooseSheet(active: string, target: Option<string>, sheets: Sheets): (r: string)
    ensures active != "" ==> r == active
    ensures active == "" && target.Some? && target.value != "" && HasSheet(sheets, target.value)
      ==> r == target.value
    ensures active == "" && !(target.Some? && target.value != "" && HasSheet(sheets, target.value))
      ==> r == (if |sheets| > 0 then sheets[0].0 else "")
    ensures active == "" && r != "" ==> HasSheet(sheets, r)
  {
    if active != "" then active
    else if target.Some? && target.value != "" && SheetGrid(sheets, target.value).Some? then target.value
    else if |sheets| > 0 && sheets[0].0 != "" then sheets[0].0
    else active
  }

  /** `file.sheets[activeSheet] || []` split into its first row, the column
      headers, and the rest, the body. */
  function SheetView(sheets: Sheets, active: string): (r: (seq<string>, seq<seq<string>>))
    ensures SheetGrid(sheets, active).None? ==> r == ([], [])
    ensures SheetGrid(sheets, active).Some? && |SheetGrid(sheets, active).value| > 0 ==>
      [r.0] + r.1 == SheetGrid(sheets, active).value
    ensures SheetGrid(sheets, active) == Some([]) ==> r == ([], [])
  {
    var grid := match SheetGrid(sheets, active) case Some(g) => g case None => [];
    if |grid| > 0 then
      assert grid == [grid[0]] + grid[1..];
      (grid[0], grid[1..])
    else ([], [])
  }

  /** The number shown beside body row `i` (0-based): one for the header,
      one for counting from 1. */
  function RowLabel(i: nat): nat {
    i + 2
  }

  /** The "N rows" caption: the body rows plus the header, also for an empty
      or absent sheet. */
  function RowCountLabel(body: seq<seq<string>>): nat {
    |body| + 1
  }

  /** The labels number the rows of the sheet's grid from 1, the header
      being row 1: body row `i` is grid row `RowLabel(i)`, and the caption
      counts the grid's rows. An absent or empty sheet shows no body rows
      and the caption 1. */
  lemma LabelsAreGridPositions(sheets: Sheets, active: string)
    ensures var body := SheetView(sheets, active).1;
      SheetGrid(sheets, active).Some? && |SheetGrid(sheets, active).value| > 0 ==>
        && RowCountLabel(body) == |SheetGrid(sheets, active).value|
        && forall i :: 0 <= i < |body| ==>
             RowLabel(i) <= |SheetGrid(sheets, active).value|
             && SheetGrid(sheets, active).value[RowLabel(i) - 1] == body[i]
    ensures var body := SheetView(sheets, active).1;
      (SheetGrid(sheets, active).None? || SheetGrid(sheets, active) == Some([])) ==>
        body == [] && RowCountLabel(body) == 1
  {
    var v := SheetView(sheets, active);
    if SheetGrid(sheets, active).Some? && |SheetGrid(sheets, active).value| > 0 {
      var grid := SheetGrid(sheets, active).value;
      assert [v.0] + v.1 == grid;
      forall i | 0 <= i < |v.1| ensures grid[RowLabel(i) - 1] == v.1[i] {
        assert grid[i + 1] == ([v.0] + v.1)[i + 1];
      }
    }
  }

  /** Whether body row `i` is marked and scrolled to: its label equals the
      `row` URL parameter (`None` when it does not parse as a number) and
      the shown sheet is the `sheet` URL parameter. */
  predicate IsTarget(i: nat, active: string, targetRow: Option<int>, targetSheet: Option<string>) {
    targetRow == Some(RowLabel(i)) && targetSheet == Some(active)
  }

  /** Exactly one body row is the target when the parameters name the shown
      sheet and a label in range, and none otherwise. */
  lemma TargetIsUnique(body: seq<seq<string>>, active: string, targetRow: Option<int>, targetSheet: Option<string>)
    ensures forall i, j :: 0 <= i < j < |body| ==>
      !(IsTarget(i, active, targetRow, targetSheet) && IsTarget(j, active, targetRow, targetSheet))
    ensures (exists i :: 0 <= i < |body| && IsTarget(i, active, targetRow, targetSheet)) <==>
      targetSheet == Some(active) && targetRow.Some? && 2 <= targetRow.value < |body| + 2
  {
    if targetSheet == Some(active) && targetRow.Some? && 2 <= targetRow.value < |body| + 2 {
      var i := targetRow.value - 2;
      assert IsTarget(i, active, targetRow, targetSheet);
    }
  }

  /** What a cell shows: a dash for a missing or empty value, else its text
      (highlighted). */
  datatype Shown = Dash | Text(s: string)

  function ColumnCount(header: seq<string>, row: seq<string>): (n: nat)
    ensures n >= |header| && n >= |row|
    ensures n == |header| || n == |row|
  {
    if |header| >= |row| then |header| else |row|
  }

  /** The cells of one body row: as many as the wider of header and row. */
  function RenderRow(header: seq<string>, row: seq<string>): (r: seq<Shown>)
    ensures |r| == ColumnCount(header, row)
    ensures forall c :: 0 <= c < |r| ==>
      (r[c] == Dash <==> c >= |row| || row[c] == "")
    ensures forall c :: 0 <= c < |r| && r[c].Text? ==> r[c].s == row[c]
  {
    seq(ColumnCount(header, row), c requires 0 <= c =>
      if c < |row| && row[c] != "" then Text(row[c]) else Dash)
  }

  /** The viewer labels body rows by position, not by stored row number. For
      one indexed sheet, whose grid holds the kept rows in order with the
      first as header, body row `i` shows kept row `i + 1`: its label is at
      most that row's number, and equals it exactly when no blank row was
      dropped before it. */
  lemma LabelIsRowNumberIffNoBlankRowsBefore(fileId: nat, fmt: Formats, sheet: Sheet, i: nat)
    requires i + 1 < |IndexSheet(fileId, fmt, sheet)|
    ensures var out := IndexSheet(fileId, fmt, sheet);
      var ps := Prepared(fileId, fmt, sheet);
      && 0 < out[i + 1].rowNumber <= |sheet.rows|
      && RowLabel(i) <= out[i + 1].rowNumber
      && (RowLabel(i) == out[i + 1].rowNumber <==> DroppedBetween(ps, 0, out[i + 1].rowNumber - 1) == 0)
  {
    IndexSheetNumbering(fileId, fmt, sheet);
  }

  /** Consequently the link of a search hit, which carries the stored row
      number and sheet, marks the row showing that hit only when no blank
      row precedes it. */
  lemma HitLinkMarksItsRowIffNoBlankRowsBefore(fileId: nat, fmt: Formats, sheet: Sheet, i: nat)
    requires i + 1 < |IndexSheet(fileId, fmt, sheet)|
    ensures var out := IndexSheet(fileId, fmt, sheet);
      var ps := Prepared(fileId, fmt, sheet);
      && 0 < out[i + 1].rowNumber <= |sheet.rows|
      && var target := IsTarget(i, sheet.name, Some(out[i + 1].rowNumber), Some(sheet.name));
      (target <==> DroppedBetween(ps, 0, out[i + 1].rowNumber - 1) == 0)
  {
    LabelIsRowNumberIffNoBlankRowsBefore(fileId, fmt, sheet, i);
  }

  /** After an upload, the viewer's grid for one of the workbook's sheets is
      that sheet's kept rows in order: body row `i` shows kept row `i + 1`. */
  lemma UploadedBodyRow(t: Store, id: nat, fmt: Formats, sheets: seq<Sheet>, first: nat, si: nat, i: nat)
    requires DistinctSheetNames(sheets) && si < |sheets|
    requires RowsOf(t.rows, id) == Stamp(IndexWorkbook(id, fmt, sheets), first)
    requires i + 1 < |IndexSheet(id, fmt, sheets[si])|
    ensures var body := SheetView(GroupBySheet(GetRows(t, id)), sheets[si].name).1;
      i < |body| && body[i] == IndexSheet(id, fmt, sheets[si])[i + 1].data
  {
    UploadedSheetGrid(t, id, fmt, sheets, first, si);
  }

  /** Putting it together for a file just uploaded with distinct sheet names:
      body row `i` of a sheet shows that sheet's kept row `i + 1`, whose
      stored row number equals the row's label, and whose search hit link
      marks it, exactly when no blank row was dropped before it. */
  lemma UploadedRowLabel(s: Store, t: Store, fmt: Formats, sheets: seq<Sheet>, si: nat, i: nat)
    requires Valid(s)
    requires t.rows == s.rows + Stamp(IndexWorkbook(s.nextFileId, fmt, sheets), s.nextRowId)
    requires DistinctSheetNames(sheets) && si < |sheets|
    requires i + 1 < |IndexSheet(s.nextFileId, fmt, sheets[si])|
    ensures var out := IndexSheet(s.nextFileId, fmt, sheets[si]);
      var ps := Prepared(s.nextFileId, fmt, sheets[si]);
      var body := SheetView(GroupBySheet(GetRows(t, s.nextFileId)), sheets[si].name).1;
      && i < |body| && body[i] == out[i + 1].data
      && 0 < out[i + 1].rowNumber <= |sheets[si].rows|
      && (RowLabel(i) == out[i + 1].rowNumber <==> DroppedBetween(ps, 0, out[i + 1].rowNumber - 1) == 0)
      && (IsTarget(i, sheets[si].name, Some(out[i + 1].rowNumber), Some(sheets[si].name))
          <==> DroppedBetween(ps, 0, out[i + 1].rowNumber - 1) == 0)
  {
    UploadedFileRows(s, t, fmt, sheets);
    UploadedBodyRow(t, s.nextFileId, fmt, sheets, s.nextRowId, si, i);
    HitLinkMarksItsRowIffNoBlankRowsBefore(s.nextFileId, fmt, sheets[si], i);
  }
}

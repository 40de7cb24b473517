/** The row indexer of the upload handler (server/routes.ts): every sheet of
    the parsed workbook, in workbook order, and every row of it, in sheet
    order, is normalised; rows whose search text trims to nothing are dropped
    and the others are emitted with their 1-based position in the sheet. */
module Indexer {
  import opened Text
  import opened Schema
  import opened Cells

  /** One sheet as `sheet_to_json(sheet, { header: 1 })` yields it. */
  datatype Sheet = Sheet(name: string, rows: seq<seq<Cell>>)

  /** The record emitted for the row at 0-based position `i`. */
  function RowAt(fileId: nat, fmt: Formats, sheet: Sheet, i: nat): NewRow
    requires i < |sheet.rows|
  {
    var clean := CleanRow(fmt, sheet.rows[i]);
    NewRow(fileId, sheet.name, i + 1, clean, SearchText(clean))
  }

  predicate KeptAt(fmt: Formats, sheet: Sheet, i: nat)
    requires i < |sheet.rows|
  {
    IsKept(CleanRow(fmt, sheet.rows[i]))
  }

  /** Every row of the sheet, normalised, paired with the keep decision. */
  function Prepared(fileId: nat, fmt: Formats, sheet: Sheet): (ps: seq<(NewRow, bool)>)
    ensures |ps| == |sheet.rows|
    ensures forall i :: 0 <= i < |ps| ==>
      ps[i] == (RowAt(fileId, fmt, sheet, i), KeptAt(fmt, sheet, i))
  {
    seq(|sheet.rows|, i requires 0 <= i < |sheet.rows| =>
      (RowAt(fileId, fmt, sheet, i), KeptAt(fmt, sheet, i)))
  }

  /** Prepared rows carry their 1-based position as row number. */
  predicate Positional(ps: seq<(NewRow, bool)>) {
    forall i :: 0 <= i < |ps| ==> ps[i].0.rowNumber == i + 1
  }

  /** The kept rows among positions `i` onwards, in order. */
  function KeepFrom(ps: seq<(NewRow, bool)>, i: nat): seq<NewRow>
    requires i <= |ps|
    decreases |ps| - i
  {
    if i == |ps| then []
    else (if ps[i].1 then [ps[i].0] else []) + KeepFrom(ps, i + 1)
  }

  /** The rows the upload handler pushes for one sheet. */
  function IndexSheet(fileId: nat, fmt: Formats, sheet: Sheet): (out: seq<NewRow>)
    ensures |out| <= |sheet.rows|
    ensures forall r :: r in out ==> r.fileId == fileId && r.sheetName == sheet.name
  {
    var ps := Prepared(fileId, fmt, sheet);
    PreparedPositional(fileId, fmt, sheet);
    KeptCount(ps, 0);
    KeptRowsComeFromTheirPosition(ps, 0);
    KeepFrom(ps, 0)
  }

  /** `allRows`: the sheets' rows, sheet after sheet. */
  function IndexWorkbook(fileId: nat, fmt: Formats, sheets: seq<Sheet>): (out: seq<NewRow>)
    ensures forall r :: r in out ==>
      r.fileId == fileId && exists k :: 0 <= k < |sheets| && sheets[k].name == r.sheetName
  {
    if |sheets| == 0 then []
    else
      var rest := IndexWorkbook(fileId, fmt, sheets[1..]);
      assert forall k :: 0 <= k < |sheets| - 1 ==> sheets[1..][k] == sheets[k + 1];
      IndexSheet(fileId, fmt, sheets[0]) + rest
  }

  /** The number of dropped (blank) rows at positions `lo` up to `hi`, exclusive. */
  function DroppedBetween(ps: seq<(NewRow, bool)>, lo: nat, hi: nat): nat
    requires lo <= hi <= |ps|
    decreases hi - lo
  {
    if lo == hi then 0
    else (if ps[lo].1 then 0 else 1) + DroppedBetween(ps, lo + 1, hi)
  }

  /** Every row kept from position `i` onwards is a kept prepared row, found at
      the position its row number names. */
  lemma {:induction false} KeptRowsComeFromTheirPosition(ps: seq<(NewRow, bool)>, i: nat)
    requires i <= |ps| && Positional(ps)
    ensures forall r :: r in KeepFrom(ps, i) ==>
      i + 1 <= r.rowNumber <= |ps| && ps[r.rowNumber - 1] == (r, true)
    decreases |ps| - i
  {
    if i < |ps| {
      KeptRowsComeFromTheirPosition(ps, i + 1);
      var rest := KeepFrom(ps, i + 1);
      var head: seq<NewRow> := if ps[i].1 then [ps[i].0] else [];
      assert KeepFrom(ps, i) == head + rest;
      forall r: NewRow | r in head + rest
        ensures i + 1 <= r.rowNumber <= |ps| && ps[r.rowNumber - 1] == (r, true)
      {
        if r !in rest {
          assert r == ps[i].0;
        }
      }
    }
  }

  /** Conversely, every kept prepared row at or after `i` is in the output. */
  lemma {:induction false} KeptPositionsAreEmitted(ps: seq<(NewRow, bool)>, i: nat)
    requires i <= |ps|
    ensures forall j :: i <= j < |ps| && ps[j].1 ==> ps[j].0 in KeepFrom(ps, i)
    decreases |ps| - i
  {
    if i < |ps| {
      KeptPositionsAreEmitted(ps, i + 1);
      var rest := KeepFrom(ps, i + 1);
      var head: seq<NewRow> := if ps[i].1 then [ps[i].0] else [];
      assert KeepFrom(ps, i) == head + rest;
      forall j | i <= j < |ps| && ps[j].1 ensures ps[j].0 in head + rest {
        if j == i {
          assert ps[j].0 in head;
        } else {
          assert ps[j].0 in rest;
        }
      }
    }
  }

  /** Each row of `out` exceeds its place in `out` by exactly the dropped rows
      between position `i` and its own position. */
  predicate GapNumbered(ps: seq<(NewRow, bool)>, i: nat, out: seq<NewRow>)
    requires i <= |ps|
  {
    forall k :: 0 <= k < |out| ==>
      && i < out[k].rowNumber <= |ps|
      && out[k].rowNumber == i + k + 1 + DroppedBetween(ps, i, out[k].rowNumber - 1)
  }

  predicate StrictlyIncreasing(out: seq<NewRow>) {
    forall a, b :: 0 <= a < b < |out| ==> out[a].rowNumber < out[b].rowNumber
  }

  /** Each kept row's number exceeds its place among the kept rows by exactly
      the blank rows dropped before it: numbering keeps the gaps of dropped
      rows rather than renumbering. */
  lemma {:induction false} RowNumbersKeepGaps(ps: seq<(NewRow, bool)>, i: nat)
    requires i <= |ps| && Positional(ps)
    ensures GapNumbered(ps, i, KeepFrom(ps, i))
    decreases |ps| - i
  {
    if i < |ps| {
      RowNumbersKeepGaps(ps, i + 1);
      var rest := KeepFrom(ps, i + 1);
      var head: seq<NewRow> := if ps[i].1 then [ps[i].0] else [];
      var out := head + rest;
      assert KeepFrom(ps, i) == out;
      forall k | 0 <= k < |out|
        ensures i < out[k].rowNumber <= |ps|
        ensures out[k].rowNumber == i + k + 1 + DroppedBetween(ps, i, out[k].rowNumber - 1)
      {
        if k >= |head| {
          var j := k - |head|;
          assert out[k] == rest[j];
          var n := rest[j].rowNumber;
          assert i + 1 < n <= |ps|;
          assert DroppedBetween(ps, i, n - 1)
              == (if ps[i].1 then 0 else 1) + DroppedBetween(ps, i + 1, n - 1);
        }
      }
    }
  }

  /** Row numbers of one sheet strictly increase. */
  lemma {:induction false} RowNumbersIncrease(ps: seq<(NewRow, bool)>, i: nat)
    requires i <= |ps| && Positional(ps)
    ensures StrictlyIncreasing(KeepFrom(ps, i))
    decreases |ps| - i
  {
    if i < |ps| {
      RowNumbersIncrease(ps, i + 1);
      RowNumbersKeepGaps(ps, i + 1);
      var rest := KeepFrom(ps, i + 1);
      var head: seq<NewRow> := if ps[i].1 then [ps[i].0] else [];
      var out := head + rest;
      assert KeepFrom(ps, i) == out;
      forall a, b | 0 <= a < b < |out| ensures out[a].rowNumber < out[b].rowNumber {
        assert out[b] == rest[b - |head|];
        assert i + 1 < rest[b - |head|].rowNumber;
        if a >= |head| {
          assert out[a] == rest[a - |head|];
        }
      }
    }
  }

  /** The number of kept rows is the number of rows minus the dropped ones. */
  lemma {:induction false} KeptCount(ps: seq<(NewRow, bool)>, i: nat)
    requires i <= |ps|
    ensures |KeepFrom(ps, i)| == |ps| - i - DroppedBetween(ps, i, |ps|)
    decreases |ps| - i
  {
    if i < |ps| {
      KeptCount(ps, i + 1);
      var head: seq<NewRow> := if ps[i].1 then [ps[i].0] else [];
      assert KeepFrom(ps, i) == head + KeepFrom(ps, i + 1);
      assert DroppedBetween(ps, i, |ps|) == (if ps[i].1 then 0 else 1) + DroppedBetween(ps, i + 1, |ps|);
    }
  }

  /** The rows of one sheet: each carries the file id, the sheet's name, its
      1-based position as row number, the normalised cells and their joined,
      lower-cased, non-blank search text; and a position is emitted exactly
      when its row is kept. */
  lemma IndexSheetSpec(fileId: nat, fmt: Formats, sheet: Sheet)
    ensures var out := IndexSheet(fileId, fmt, sheet);
      forall r :: r in out ==>
        && r.fileId == fileId && r.sheetName == sheet.name
        && 1 <= r.rowNumber <= |sheet.rows|
        && r.data == CleanRow(fmt, sheet.rows[r.rowNumber - 1])
        && r.searchText == Lower(Join(r.data, " "))
        && Trim(r.searchText) != ""
    ensures forall j :: 0 <= j < |sheet.rows| ==>
      (KeptAt(fmt, sheet, j) <==> RowAt(fileId, fmt, sheet, j) in IndexSheet(fileId, fmt, sheet))
  {
    var ps := Prepared(fileId, fmt, sheet);
    KeptRowsComeFromTheirPosition(ps, 0);
    KeptPositionsAreEmitted(ps, 0);
  }

  /** Within one sheet, row numbers strictly increase, and the k-th emitted
      row is numbered k + 1 plus the number of blank rows dropped before it. */
  lemma IndexSheetNumbering(fileId: nat, fmt: Formats, sheet: Sheet)
    ensures StrictlyIncreasing(IndexSheet(fileId, fmt, sheet))
    ensures var ps := Prepared(fileId, fmt, sheet);
      var out := IndexSheet(fileId, fmt, sheet);
      forall k :: 0 <= k < |out| ==>
        && 0 < out[k].rowNumber <= |sheet.rows|
        && out[k].rowNumber == k + 1 + DroppedBetween(ps, 0, out[k].rowNumber - 1)
    ensures var ps := Prepared(fileId, fmt, sheet);
      |IndexSheet(fileId, fmt, sheet)| == |sheet.rows| - DroppedBetween(ps, 0, |sheet.rows|)
  {
    var ps := Prepared(fileId, fmt, sheet);
    PreparedPositional(fileId, fmt, sheet);
    KeepFromNumbering(ps);
    var out := IndexSheet(fileId, fmt, sheet);
    assert out == KeepFrom(ps, 0) && |ps| == |sheet.rows|;
  }

  lemma PreparedPositional(fileId: nat, fmt: Formats, sheet: Sheet)
    ensures Positional(Prepared(fileId, fmt, sheet))
  {
  }

  /** The numbering facts for any positional rows, kept from the first. */
  lemma KeepFromNumbering(ps: seq<(NewRow, bool)>)
    requires Positional(ps)
    ensures StrictlyIncreasing(KeepFrom(ps, 0))
    ensures forall k :: 0 <= k < |KeepFrom(ps, 0)| ==>
      && 0 < KeepFrom(ps, 0)[k].rowNumber <= |ps|
      && KeepFrom(ps, 0)[k].rowNumber == k + 1 + DroppedBetween(ps, 0, KeepFrom(ps, 0)[k].rowNumber - 1)
    ensures |KeepFrom(ps, 0)| == |ps| - DroppedBetween(ps, 0, |ps|)
  {
    RowNumbersIncrease(ps, 0);
    RowNumbersKeepGaps(ps, 0);
    KeptCount(ps, 0);
  }

  /** Position of a sheet name in the workbook's sheet list. */
  function SheetPosition(sheets: seq<Sheet>, name: string): nat
  {
    if |sheets| == 0 || sheets[0].name == name then 0 else 1 + SheetPosition(sheets[1..], name)
  }

  predicate DistinctSheetNames(sheets: seq<Sheet>) {
    forall a, b :: 0 <= a < b < |sheets| ==> sheets[a].name != sheets[b].name
  }

  /** Workbook order: a row precedes another when its sheet comes first in the
      workbook, or when both are in one sheet and its row number is smaller. */
  predicate Precedes(sheets: seq<Sheet>, x: NewRow, y: NewRow) {
    SheetPosition(sheets, x.sheetName) < SheetPosition(sheets, y.sheetName)
    || (x.sheetName == y.sheetName && x.rowNumber < y.rowNumber)
  }

  /** Every emitted row carries the new file's id and the name of the sheet it
      came from, and the rows follow sheet order, then row order. */
  lemma {:induction false} WorkbookOrder(fileId: nat, fmt: Formats, sheets: seq<Sheet>)
    requires DistinctSheetNames(sheets)
    ensures var out := IndexWorkbook(fileId, fmt, sheets);
      forall r :: r in out ==>
        r.fileId == fileId && SheetPosition(sheets, r.sheetName) < |sheets|
    ensures var out := IndexWorkbook(fileId, fmt, sheets);
      forall a, b :: 0 <= a < b < |out| ==> Precedes(sheets, out[a], out[b])
  {
    if |sheets| > 0 {
      var first := IndexSheet(fileId, fmt, sheets[0]);
      var rest := IndexWorkbook(fileId, fmt, sheets[1..]);
      DistinctTail(sheets);
      WorkbookOrder(fileId, fmt, sheets[1..]);
      IndexSheetSpec(fileId, fmt, sheets[0]);
      IndexSheetNumbering(fileId, fmt, sheets[0]);
      LaterSheetPositions(sheets, rest);
      OrderOfConcat(sheets, first, rest);
      assert IndexWorkbook(fileId, fmt, sheets) == first + rest;
    }
  }

  lemma DistinctTail(sheets: seq<Sheet>)
    requires |sheets| > 0 && DistinctSheetNames(sheets)
    ensures DistinctSheetNames(sheets[1..])
  {
    forall a, b | 0 <= a < b < |sheets[1..]| ensures sheets[1..][a].name != sheets[1..][b].name {
      assert sheets[1..][a] == sheets[a + 1] && sheets[1..][b] == sheets[b + 1];
    }
  }

  /** The rows of the later sheets are not in the first sheet, and their
      sheets sit one place further on in the whole workbook. */
  lemma LaterSheetPositions(sheets: seq<Sheet>, rest: seq<NewRow>)
    requires |sheets| > 0 && DistinctSheetNames(sheets)
    requires forall r :: r in rest ==> SheetPosition(sheets[1..], r.sheetName) < |sheets| - 1
    ensures forall r :: r in rest ==>
      r.sheetName != sheets[0].name && SheetPosition(sheets, r.sheetName) == 1 + SheetPosition(sheets[1..], r.sheetName)
  {
    forall r | r in rest
      ensures r.sheetName != sheets[0].name
      ensures SheetPosition(sheets, r.sheetName) == 1 + SheetPosition(sheets[1..], r.sheetName)
    {
      var p := SheetPosition(sheets[1..], r.sheetName);
      SheetPositionFound(sheets[1..], r.sheetName);
      assert sheets[p + 1] == sheets[1..][p];
    }
  }

  /** The first sheet's rows in row order, then the later sheets' rows in
      workbook order, are in workbook order. */
  lemma OrderOfConcat(sheets: seq<Sheet>, first: seq<NewRow>, rest: seq<NewRow>)
    requires |sheets| > 0
    requires forall r :: r in first ==> r.sheetName == sheets[0].name
    requires StrictlyIncreasing(first)
    requires forall r :: r in rest ==>
      r.sheetName != sheets[0].name && SheetPosition(sheets, r.sheetName) == 1 + SheetPosition(sheets[1..], r.sheetName)
    requires forall a, b :: 0 <= a < b < |rest| ==> Precedes(sheets[1..], rest[a], rest[b])
    ensures forall a, b :: 0 <= a < b < |first + rest| ==> Precedes(sheets, (first + rest)[a], (first + rest)[b])
  {
    var out := first + rest;
    forall a, b | 0 <= a < b < |out| ensures Precedes(sheets, out[a], out[b]) {
      if b < |first| {
        assert out[a] == first[a] && out[b] == first[b];
      } else if a < |first| {
        assert out[a] == first[a] && out[a] in first;
        assert out[b] == rest[b - |first|] && out[b] in rest;
      } else {
        assert out[a] == rest[a - |first|] && out[b] == rest[b - |first|];
        assert Precedes(sheets[1..], rest[a - |first|], rest[b - |first|]);
        assert out[a] in rest && out[b] in rest;
      }
    }
  }

  /** A name found by `SheetPosition` really is the name of that sheet. */
  lemma {:induction false} SheetPositionFound(sheets: seq<Sheet>, name: string)
    requires SheetPosition(sheets, name) < |sheets|
    ensures sheets[SheetPosition(sheets, name)].name == name
  {
    if sheets[0].name != name {
      SheetPositionFound(sheets[1..], name);
    }
  }
}

/** The cell normaliser of the upload handler (server/routes.ts): every raw
    cell that the workbook parser yields becomes a display string, and a row's
    search text is its normalised cells joined by single spaces and lowercased. */
module Cells {
  import opened Wrappers
  import opened Text

  /** A JavaScript `Date` produced by the workbook parser, kept abstract. */
  datatype CalendarDate = CalendarDate(epochMillis: int)

  /** The values `sheet_to_json` puts in a row: `null`/`undefined`, a `Date`,
      a number, a string or a boolean. Numbers are kept as reals; only their
      order against the date-serial window matters here. */
  datatype Cell =
    | Missing
    | DateValue(date: CalendarDate)
    | Number(n: real)
    | Str(s: string)
    | Boolean(b: bool)

  /** The formatting services the normaliser calls but does not define:
      `Date.prototype.toLocaleDateString`, the parser's `format_cell` with the
      `mm/dd/yy` format (`None` when it throws) and `String(number)`. */
  datatype Formats = Formats(
    localeDate: CalendarDate -> string,
    serialDate: real -> Option<string>,
    numberText: real -> string)

  /** The open window in which a number is read as a spreadsheet date serial. */
  const DateSerialLow: real := 20000.0
  const DateSerialHigh: real := 60000.0

  predicate InSerialWindow(n: real) {
    DateSerialLow < n < DateSerialHigh
  }

  /** The date-serial reading of `n`, when the window admits it and the
      formatted result contains a `/`. */
  function SerialReading(fmt: Formats, n: real): Option<string> {
    if InSerialWindow(n) then
      match fmt.serialDate(n)
      case Some(d) => if '/' in d then Some(d) else None
      case None => None
    else None
  }

  /** One cell of `cleanRow`. Text is kept verbatim, untrimmed; a number
      shown as anything but its number text is a date serial inside the
      window whose rendering contains a `/`. */
  function CleanCell(fmt: Formats, c: Cell): (r: string)
    ensures c.Str? ==> r == c.s
    ensures c.Number? && r != fmt.numberText(c.n) ==>
      InSerialWindow(c.n) && fmt.serialDate(c.n) == Some(r) && '/' in r
  {
    match c
    case Missing => ""
    case DateValue(d) => fmt.localeDate(d)
    case Number(n) =>
      (match SerialReading(fmt, n)
       case Some(d) => d
       case None => fmt.numberText(n))
    case Str(s) => s
    case Boolean(b) => if b then "true" else "false"
  }

  function CleanRow(fmt: Formats, raw: seq<Cell>): (r: seq<string>)
    ensures |r| == |raw|
    ensures forall i :: 0 <= i < |raw| ==> r[i] == CleanCell(fmt, raw[i])
  {
    seq(|raw|, i requires 0 <= i < |raw| => CleanCell(fmt, raw[i]))
  }

  /** `cleanRow.join(" ").toLowerCase()`. */
  function SearchText(cells: seq<string>): string {
    Lower(Join(cells, " "))
  }

  /** The guard `searchText.trim()` that decides whether a row is indexed. */
  predicate IsKept(cells: seq<string>) {
    Trim(SearchText(cells)) != ""
  }

  /** Each normalised cell, lower-cased, occurs in the row's search text. */
  lemma SearchTextHasEachCell(cells: seq<string>, i: nat)
    requires i < |cells|
    ensures IsInfix(Lower(cells[i]), SearchText(cells))
  {
    JoinHasEach(cells, " ", i);
    LowerInfix(cells[i], Join(cells, " "));
  }

  /** A missing cell normalises to the empty string, a date to its locale
      date string, text to itself and a boolean to its literal. */
  lemma NonNumericCells(fmt: Formats, d: CalendarDate, s: string, b: bool)
    ensures CleanCell(fmt, Missing) == ""
    ensures CleanCell(fmt, DateValue(d)) == fmt.localeDate(d)
    ensures CleanCell(fmt, Str(s)) == s
    ensures CleanCell(fmt, Boolean(b)) == (if b then "true" else "false")
  {
  }

  /** A number becomes its date-serial rendering exactly when it lies strictly
      inside the window and that rendering contains a `/`; otherwise it
      becomes its plain numeric text. */
  lemma DateSerialHeuristic(fmt: Formats, n: real)
    ensures (InSerialWindow(n) && fmt.serialDate(n).Some? && '/' in fmt.serialDate(n).value)
            ==> CleanCell(fmt, Number(n)) == fmt.serialDate(n).value
    ensures !(InSerialWindow(n) && fmt.serialDate(n).Some? && '/' in fmt.serialDate(n).value)
            ==> CleanCell(fmt, Number(n)) == fmt.numberText(n)
  {
  }

  /** The window is open: its bounds themselves are never read as dates. */
  lemma WindowBoundsArePlainNumbers(fmt: Formats)
    ensures CleanCell(fmt, Number(DateSerialLow)) == fmt.numberText(DateSerialLow)
    ensures CleanCell(fmt, Number(DateSerialHigh)) == fmt.numberText(DateSerialHigh)
  {
  }

  /** A row is indexed exactly when at least one normalised cell is not blank:
      rows of empty or white-space-only cells are dropped. */
  lemma {:induction false} KeptIffSomeCellNonBlank(cells: seq<string>)
    ensures IsKept(cells) <==> exists i :: 0 <= i < |cells| && !IsBlank(cells[i])
  {
    var j := Join(cells, " ");
    JoinBlank(cells, " ");
    TrimEmptyIffBlank(SearchText(cells));
    forall i | 0 <= i < |j| ensures IsWhite(SearchText(cells)[i]) <==> IsWhite(j[i]) {
      LowerChangesNoWhiteSpace(j[i]);
    }
  }
}

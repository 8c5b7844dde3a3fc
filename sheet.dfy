/**
  XLSX post-processing: the first worksheet as `sheet_to_json(..., {header: 1})`
  returns it (an array of rows, each an array of cell values, a missing cell
  undefined) becomes a table whose headers are row 0 and whose rows are the
  rest, each cell `String(c ?? "")`.
 */
module SheetTable {
  import opened Wrappers
  import opened Text
  import opened Tables

  /** A decoded cell value (numbers are integers here). */
  datatype CellValue = CText(text: string) | CNumber(n: int) | CBool(b: bool)

  /** Rows of cells; None is an empty (undefined or null) cell. */
  type Sheet = seq<seq<Option<CellValue>>>

  /** `String(c ?? "")`. */
  function CellString(c: Option<CellValue>): (r: string)
    ensures c == None ==> r == ""
    ensures c.Some? && c.value.CText? ==> r == c.value.text
  {
    match c
    case None => ""
    case Some(CText(t)) => t
    case Some(CNumber(n)) => IntToString(n)
    case Some(CBool(b)) => if b then "true" else "false"
  }

  /** `r.map((c) => String(c ?? ""))`. */
  function RowStrings(r: seq<Option<CellValue>>): (out: seq<string>)
    ensures |out| == |r|
    ensures forall j :: 0 <= j < |r| ==> out[j] == CellString(r[j])
  {
    if r == [] then []
    else
      var rest := RowStrings(r[1..]);
      assert forall j :: 1 <= j < |r| ==> rest[j - 1] == CellString(r[j]);
      [CellString(r[0])] + rest
  }

  /** Every row of the sheet, stringified. */
  function SheetRows(rows: Sheet): (out: seq<seq<string>>)
    ensures |out| == |rows|
    ensures forall i :: 0 <= i < |rows| ==> out[i] == RowStrings(rows[i])
  {
    if rows == [] then []
    else
      var rest := SheetRows(rows[1..]);
      assert forall i :: 1 <= i < |rows| ==> rest[i - 1] == RowStrings(rows[i]);
      [RowStrings(rows[0])] + rest
  }

  /** `parseXLSXFile` after decoding: row 0 (or nothing) as headers, the rest as rows. */
  function SheetGrid(sheet: Sheet): (g: Grid)
  {
    if sheet == [] then Grid([], [])
    else Grid(RowStrings(sheet[0]), SheetRows(sheet[1..]))
  }

  /**
    The table keeps the shape of the sheet: one header per cell of row 0, one
    row per later row with as many cells as it had, each cell its value printed
    and an empty cell "".
   */
  lemma SheetGridShape(sheet: Sheet)
    ensures var g := SheetGrid(sheet);
      && |g.headers| == (if sheet == [] then 0 else |sheet[0]|)
      && |g.rows| == (if sheet == [] then 0 else |sheet| - 1)
      && (forall i :: 0 <= i < |g.rows| ==> |g.rows[i]| == |sheet[i + 1]|)
      && (forall i, j :: 0 <= i < |g.rows| && 0 <= j < |g.rows[i]| ==>
            g.rows[i][j] == CellString(sheet[i + 1][j]))
      && (forall j :: 0 <= j < |g.headers| ==> g.headers[j] == CellString(sheet[0][j]))
  {
  }

  /** A sheet of text cells only: reading it back gives exactly those texts. */
  lemma TextSheetRoundTrip(texts: seq<seq<string>>)
    requires texts != []
    ensures var sheet := seq(|texts|, i requires 0 <= i < |texts| =>
                              seq(|texts[i]|, j requires 0 <= j < |texts[i]| => Some(CText(texts[i][j]))));
      SheetGrid(sheet) == Grid(texts[0], texts[1..])
  {
    var sheet := seq(|texts|, i requires 0 <= i < |texts| =>
                      seq(|texts[i]|, j requires 0 <= j < |texts[i]| => Some(CText(texts[i][j]))));
    SheetGridShape(sheet);
    var g := SheetGrid(sheet);
    assert g.headers == texts[0];
    forall i | 0 <= i < |g.rows|
      ensures g.rows[i] == texts[1..][i]
    {
      assert |g.rows[i]| == |texts[i + 1]|;
    }
  }
}

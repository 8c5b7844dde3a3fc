/**
  The upload coordinator (`handleFileUpload`): the batch gate on file names,
  the dispatch of each file to its parser by extension, and the batch result
  in selection order.
 */
module Ingest {
  import opened Wrappers
  import opened Tables
  import Extension
  import TextParsers
  import JsonTable
  import SheetTable
  import PdfText

  /**
    A selected file with what the browser and the libraries make of it: the
    text `FileReader` reads (None when it fails), `JSON.parse` of that text
    (None when it throws), the first worksheet (None when the workbook cannot
    be read) and the first PDF page (None when the file cannot be read).
   */
  datatype SelectedFile = SelectedFile(
    name: string,
    text: Option<string>,
    json: Option<JsonTable.Json>,
    sheet: Option<SheetTable.Sheet>,
    pdf: Option<PdfText.PdfPage>)

  /** Table of a file whose extension passed the gate but has no parser. */
  const Unprocessed: string := "Formato não processado"

  /** The batch gate: every name ends (case-insensitively) with a valid extension. */
  predicate AllValid(files: seq<SelectedFile>)
  {
    forall i :: 0 <= i < |files| ==> Extension.HasValidSuffix(files[i].name)
  }

  /** The parser output for one file; None when its promise never resolves. */
  function ParseGrid(f: SelectedFile): (r: Option<Grid>)
  {
    match Extension.KindOf(Extension.GetExtension(f.name))
    case Xlsx => if f.sheet.Some? then Some(SheetTable.SheetGrid(f.sheet.value)) else None
    case Pdf => if f.pdf.Some? then Some(PdfText.PdfGrid(f.pdf.value)) else None
    case Csv => if f.text.Some? then Some(TextParsers.ParseCsv(f.text.value)) else None
    case Json => if f.text.Some? then Some(JsonTable.JsonFileGrid(f.text.value, f.json)) else None
    case Txt => if f.text.Some? then Some(TextParsers.ParseTxt(f.text.value)) else None
    case Unknown => if f.text.Some? then Some(Notice(Unprocessed)) else None
  }

  /** One promise of the batch: `{name, headers, rows}`. */
  function ParseFile(f: SelectedFile): (t: Option<Table>)
    ensures t.Some? ==> t.value.name == f.name
  {
    match ParseGrid(f)
    case Some(g) => Some(Table(f.name, g.headers, g.rows))
    case None => None
  }

  /** `Promise.all`: the tables in selection order, or None when some promise never resolves. */
  function ParseAll(files: seq<SelectedFile>): (r: Option<seq<Table>>)
    ensures r.Some? <==> forall i :: 0 <= i < |files| ==> ParseFile(files[i]).Some?
    ensures r.Some? ==>
              && |r.value| == |files|
              && forall i :: 0 <= i < |files| ==> r.value[i] == ParseFile(files[i]).value
  {
    if files == [] then Some([])
    else
      match (ParseFile(files[0]), ParseAll(files[1..]))
      case (Some(t), Some(rest)) => Some([t] + rest)
      case _ => None
  }

  /**
    An accepted batch yields exactly one table per file, in selection order and
    named after it, and no file falls through to the "Formato não processado"
    branch.
   */
  lemma AcceptedBatch(files: seq<SelectedFile>)
    requires AllValid(files)
    requires ParseAll(files).Some?
    ensures |ParseAll(files).value| == |files|
    ensures forall i :: 0 <= i < |files| ==> ParseAll(files).value[i].name == files[i].name
    ensures forall i :: 0 <= i < |files| ==>
      Extension.KindOf(Extension.GetExtension(files[i].name)) != Extension.Unknown
  {
    forall i | 0 <= i < |files|
      ensures Extension.KindOf(Extension.GetExtension(files[i].name)) != Extension.Unknown
    {
      Extension.GateMatchesDispatch(files[i].name);
    }
  }
}

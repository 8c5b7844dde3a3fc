/**
  The state of the page and the handlers that replace it: the uploaded tables,
  the pasted-JSON table, the discovered relations, the manual mapping and the
  upload message.
 */
module SessionState {
  import opened Wrappers
  import opened Tables
  import JsonTable
  import Relate
  import Ingest
  import Extension

  /** Upload message before any selection, and after a rejected batch. */
  const NoSelection: string := "Nenhum ficheiro selecionado"
  const Unsupported: string := "Ficheiro não suportado"

  /** `prev.filter((ff) => ff.name !== name)`. */
  function Without(tables: seq<Table>, name: string): (r: seq<Table>)
    ensures |r| <= |tables|
    ensures forall t :: t in r <==> t in tables && t.name != name
  {
    if tables == [] then []
    else if tables[0].name == name then Without(tables[1..], name)
    else [tables[0]] + Without(tables[1..], name)
  }

  /** Filtering commutes with concatenation, so the kept tables stay in their order. */
  lemma {:induction false} WithoutConcat(a: seq<Table>, b: seq<Table>, name: string)
    ensures Without(a + b, name) == Without(a, name) + Without(b, name)
  {
    if a == [] {
      assert a + b == b;
    } else {
      assert (a + b)[1..] == a[1..] + b;
      WithoutConcat(a[1..], b, name);
    }
  }

  /** Deleting twice is deleting once; a table of another name is never removed. */
  lemma {:induction false} WithoutIdempotent(tables: seq<Table>, name: string)
    ensures Without(Without(tables, name), name) == Without(tables, name)
  {
    if tables != [] {
      WithoutIdempotent(tables[1..], name);
    }
  }

  /** A list with no table of that name is left exactly as it is. */
  lemma {:induction false} WithoutAbsent(tables: seq<Table>, name: string)
    requires forall i :: 0 <= i < |tables| ==> tables[i].name != name
    ensures Without(tables, name) == tables
  {
    if tables != [] {
      WithoutAbsent(tables[1..], name);
    }
  }

  /** Index of the last table named `name`, or -1. */
  function LastWith(tables: seq<Table>, name: string): (i: int)
    ensures -1 <= i < |tables|
    ensures i >= 0 ==> tables[i].name == name
    ensures forall j :: i < j < |tables| ==> tables[j].name != name
  {
    if tables == [] then -1
    else if tables[|tables| - 1].name == name then |tables| - 1
    else LastWith(tables[..|tables| - 1], name)
  }

  /**
    `fileColumns`: every name of `[...filesData, ...previewJson]` mapped to the
    headers of the last table with that name.
   */
  method ColumnsByName(tables: seq<Table>) returns (cols: map<string, seq<string>>)
    ensures forall n :: n in cols <==> exists i :: 0 <= i < |tables| && tables[i].name == n
    ensures forall n :: n in cols ==> LastWith(tables, n) >= 0 && cols[n] == tables[LastWith(tables, n)].headers
  {
    cols := map[];
    var i := 0;
    while i < |tables|
      invariant 0 <= i <= |tables|
      invariant forall n :: n in cols <==> exists j :: 0 <= j < i && tables[j].name == n
      invariant forall n :: n in cols ==>
        LastWith(tables[..i], n) >= 0 && cols[n] == tables[LastWith(tables[..i], n)].headers
    {
      var f := tables[i];
      cols := cols[f.name := f.headers];
      assert tables[..i + 1][..i] == tables[..i];
      i := i + 1;
    }
    assert tables[..i] == tables;
  }

  class Session {
    var filesData: seq<Table>
    var previewJson: seq<Table>
    var relations: seq<Relation>
    var manualMapping: map<string, string>
    var uploadMessage: string
    var jsonData: string

    constructor()
      ensures filesData == [] && previewJson == [] && relations == []
      ensures manualMapping == map[] && uploadMessage == NoSelection && jsonData == ""
    {
      filesData := [];
      previewJson := [];
      relations := [];
      manualMapping := map[];
      uploadMessage := NoSelection;
      jsonData := "";
    }

    /**
      `handleFileUpload`: an empty selection changes nothing; a batch with an
      unsupported name only sets the message; otherwise the message is cleared
      and, once every file is parsed, the batch is appended after the existing
      tables (nothing is appended while a promise never resolves).
     */
    method Upload(files: seq<Ingest.SelectedFile>)
      modifies this
      ensures previewJson == old(previewJson) && relations == old(relations)
      ensures manualMapping == old(manualMapping) && jsonData == old(jsonData)
      ensures files == [] ==> filesData == old(filesData) && uploadMessage == old(uploadMessage)
      ensures files != [] && !Ingest.AllValid(files) ==>
        filesData == old(filesData) && uploadMessage == Unsupported
      ensures files != [] && Ingest.AllValid(files) ==>
        && uploadMessage == ""
        && filesData == old(filesData) + (match Ingest.ParseAll(files) case Some(ts) => ts case None => [])
    {
      if |files| == 0 {
        return;
      }
      if !Ingest.AllValid(files) {
        uploadMessage := Unsupported;
        return;
      }
      uploadMessage := "";
      var parsed := Ingest.ParseAll(files);
      if parsed.Some? {
        filesData := filesData + parsed.value;
      }
    }

    /** The "Apagar todos" button: `setFilesData([])`. */
    method ClearTables()
      modifies this
      ensures filesData == []
      ensures previewJson == old(previewJson) && relations == old(relations)
      ensures manualMapping == old(manualMapping) && uploadMessage == old(uploadMessage) && jsonData == old(jsonData)
    {
      filesData := [];
    }

    /** The remove button of a block: every uploaded table with that name goes, the mapping stays. */
    method DeleteTable(name: string)
      modifies this
      ensures filesData == Without(old(filesData), name)
      ensures previewJson == old(previewJson) && relations == old(relations)
      ensures manualMapping == old(manualMapping) && uploadMessage == old(uploadMessage) && jsonData == old(jsonData)
    {
      filesData := Without(filesData, name);
    }

    /** Choosing a column for a file: `{...prev, [fname]: value}`. */
    method SetMapping(fname: string, column: string)
      modifies this
      ensures manualMapping == old(manualMapping)[fname := column]
      ensures filesData == old(filesData) && previewJson == old(previewJson) && relations == old(relations)
      ensures uploadMessage == old(uploadMessage) && jsonData == old(jsonData)
    {
      manualMapping := manualMapping[fname := column];
    }

    /** `clearAllRelations`: relations and mapping emptied, tables untouched. */
    method ClearAllRelations()
      modifies this
      ensures relations == [] && manualMapping == map[]
      ensures filesData == old(filesData) && previewJson == old(previewJson)
      ensures uploadMessage == old(uploadMessage) && jsonData == old(jsonData)
    {
      relations := [];
      manualMapping := map[];
    }

    /** The JSON text area: `setJsonData(e.target.value)`. */
    method SetJsonData(text: string)
      modifies this
      ensures jsonData == text
      ensures filesData == old(filesData) && previewJson == old(previewJson) && relations == old(relations)
      ensures manualMapping == old(manualMapping) && uploadMessage == old(uploadMessage)
    {
      jsonData := text;
    }

    /** `handleJsonPreview`, given what `JSON.parse(jsonData)` returns: one pasted table replaces the last. */
    method PreviewPastedJson(parsed: Option<JsonTable.Json>)
      modifies this
      ensures previewJson == [JsonTable.PastedJsonTable(jsonData, parsed)]
      ensures filesData == old(filesData) && relations == old(relations) && jsonData == old(jsonData)
      ensures manualMapping == old(manualMapping) && uploadMessage == old(uploadMessage)
    {
      previewJson := [JsonTable.PastedJsonTable(jsonData, parsed)];
    }

    /**
      `handleAutoRelate` as written: the relations of every table, uploaded and
      pasted; when a header is named like an `Object.prototype` member the
      handler throws before `setRelations` and the relations stay as they were.
     */
    method AutoRelate()
      modifies this
      ensures Relate.HasPrototypeHeader(filesData + previewJson) ==> relations == old(relations)
      ensures !Relate.HasPrototypeHeader(filesData + previewJson) ==>
        && Relate.SortedByColumn(relations)
        && forall r :: r in relations <==>
             && r.column in Relate.Columns(Relate.Occurrences(filesData + previewJson))
             && r.files == Relate.Holders(Relate.Occurrences(filesData + previewJson), r.column)
             && |r.files| >= Relate.MinFiles
      ensures filesData == old(filesData) && previewJson == old(previewJson)
      ensures manualMapping == old(manualMapping) && uploadMessage == old(uploadMessage) && jsonData == old(jsonData)
    {
      var outcome := Relate.AutoRelateAsWritten(filesData + previewJson);
      if outcome.Some? {
        relations := outcome.value;
      }
    }

    /** `handleAutoRelate` with `colMap` keyed safely: every shared column is related, whatever its name. */
    method AutoRelateCorrected()
      modifies this
      ensures Relate.SortedByColumn(relations)
      ensures forall r :: r in relations <==>
        && r.column in Relate.Columns(Relate.Occurrences(filesData + previewJson))
        && r.files == Relate.Holders(Relate.Occurrences(filesData + previewJson), r.column)
        && |r.files| >= Relate.MinFiles
      ensures filesData == old(filesData) && previewJson == old(previewJson)
      ensures manualMapping == old(manualMapping) && uploadMessage == old(uploadMessage) && jsonData == old(jsonData)
    {
      var rels := Relate.AutoRelate(filesData + previewJson);
      relations := rels;
    }

    /** `fileColumns` of the current state. */
    method FileColumns() returns (cols: map<string, seq<string>>)
      ensures forall n :: n in cols <==>
        exists i :: 0 <= i < |filesData + previewJson| && (filesData + previewJson)[i].name == n
      ensures forall n :: n in cols ==>
        var all := filesData + previewJson;
        LastWith(all, n) >= 0 && cols[n] == all[LastWith(all, n)].headers
    {
      cols := ColumnsByName(filesData + previewJson);
    }
  }
}

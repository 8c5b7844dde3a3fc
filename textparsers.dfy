/** `parseCSVText` and `parseTXTText`: text files to `{headers, rows}`. */
module TextParsers {
  import opened Text
  import opened Split
  import opened Tables

  /** `text.split(/\r\n|\n/).filter((l) => l.length)`: the non-empty lines. */
  function NonEmptyLines(text: string): (lines: seq<string>)
  {
    DropEmpty(Split.Split(LineBreak, text))
  }

  /**
    Every kept line is non-empty and holds no line break, and every non-empty
    piece of the split is kept.
   */
  lemma NonEmptyLinesSound(text: string)
    ensures forall i :: 0 <= i < |NonEmptyLines(text)| ==>
      NonEmptyLines(text)[i] != "" && '\n' !in NonEmptyLines(text)[i]
    ensures forall l :: l in Split.Split(LineBreak, text) && l != "" ==> l in NonEmptyLines(text)
  {
    SplitLinesSound(text);
    var pieces := Split.Split(LineBreak, text);
    assert pieces == Cut(LineBreak, text).fields;
    var lines := DropEmpty(pieces);
    forall i | 0 <= i < |lines|
      ensures lines[i] != "" && '\n' !in lines[i]
    {
      var l := lines[i];
      assert l in lines;
      assert l in pieces;
      var j :| 0 <= j < |pieces| && pieces[j] == l;
    }
  }

  /** `line.split(",").map((c) => c.trim())`. */
  function CsvCells(line: string): (cells: seq<string>)
  {
    TrimAll(Split.Split(Comma, line))
  }

  /** Number of occurrences of `c` in `s`. */
  function Count(s: string, c: char): (r: nat) {
    if s == [] then 0 else (if s[0] == c then 1 else 0) + Count(s[1..], c)
  }

  lemma {:induction false} CountConcat(a: string, b: string, c: char)
    ensures Count(a + b, c) == Count(a, c) + Count(b, c)
  {
    if a != [] {
      assert (a + b)[0] == a[0];
      assert (a + b)[1..] == a[1..] + b;
      CountConcat(a[1..], b, c);
    } else {
      assert a + b == b;
    }
  }

  lemma {:induction false} CountAbsent(s: string, c: char)
    requires c !in s
    ensures Count(s, c) == 0
  {
    if s != [] {
      CountAbsent(s[1..], c);
    }
  }

  /** Joining comma-free fields with commas puts exactly one comma between neighbours. */
  lemma {:induction false} CountJoin(fields: seq<string>)
    requires |fields| >= 1
    requires forall i :: 0 <= i < |fields| ==> ',' !in fields[i]
    ensures Count(Join(fields, ","), ',') == |fields| - 1
  {
    CountAbsent(fields[0], ',');
    if |fields| > 1 {
      CountJoin(fields[1..]);
      CountConcat(fields[0] + ",", Join(fields[1..], ","), ',');
      CountConcat(fields[0], ",", ',');
    }
  }

  /**
    A CSV line has one cell more than it has commas; no cell holds a comma or
    begins or ends with whitespace.
   */
  lemma CsvCellsSound(line: string)
    ensures |CsvCells(line)| == Count(line, ',') + 1
    ensures forall j :: 0 <= j < |CsvCells(line)| ==>
      ',' !in CsvCells(line)[j] && Trim(CsvCells(line)[j]) == CsvCells(line)[j]
  {
    var raw := Split.Split(Comma, line);
    CommaSplitJoin(line);
    CountJoin(raw);
    forall j | 0 <= j < |raw|
      ensures ',' !in CsvCells(line)[j] && Trim(CsvCells(line)[j]) == CsvCells(line)[j]
    {
      TrimFixpoint(raw[j]);
      TrimKeepsMiddle(raw[j]);
    }
  }

  /** `lines.map((line) => line.split(",").map((c) => c.trim()))`. */
  function CsvRows(lines: seq<string>): (rows: seq<seq<string>>)
    ensures |rows| == |lines|
    ensures forall i :: 0 <= i < |lines| ==> rows[i] == CsvCells(lines[i])
  {
    if lines == [] then []
    else
      var rest := CsvRows(lines[1..]);
      assert forall i :: 1 <= i < |lines| ==> rest[i - 1] == CsvCells(lines[i]);
      [CsvCells(lines[0])] + rest
  }

  /** `parseCSVText`. */
  function ParseCsv(text: string): (g: Grid)
  {
    var lines := NonEmptyLines(text);
    if lines == [] then Grid([], [])
    else Grid(CsvCells(lines[0]), CsvRows(lines[1..]))
  }

  /**
    Text without a non-empty line gives an empty table; otherwise the first
    non-empty line gives the headers and each later one a row, cell for cell.
   */
  lemma ParseCsvSpec(text: string)
    ensures NonEmptyLines(text) == [] <==> ParseCsv(text) == Grid([], [])
    ensures NonEmptyLines(text) != [] ==>
      && ParseCsv(text).headers == CsvCells(NonEmptyLines(text)[0])
      && |ParseCsv(text).rows| == |NonEmptyLines(text)| - 1
      && (forall i :: 0 <= i < |ParseCsv(text).rows| ==>
            ParseCsv(text).rows[i] == CsvCells(NonEmptyLines(text)[i + 1]))
  {
    var lines := NonEmptyLines(text);
    if lines != [] {
      assert |CsvCells(lines[0])| >= 1;
    }
  }

  /** A three-line CSV example: "a,b\n1,2\n3,4". */
  lemma ParseCsvExample()
    ensures ParseCsv("a,b\n1,2\n3,4") == Grid(["a", "b"], [["1", "2"], ["3", "4"]])
  {
    ExampleLines();
    var lines := ["a,b", "1,2", "3,4"];
    CsvExampleCells("a,b", 'a', 'b');
    ExampleRows();
    assert lines[1..] == ["1,2", "3,4"];
  }

  lemma ExampleRows()
    ensures CsvRows(["1,2", "3,4"]) == [["1", "2"], ["3", "4"]]
  {
    CsvExampleCells("1,2", '1', '2');
    CsvExampleCells("3,4", '3', '4');
  }

  lemma ExampleLines()
    ensures NonEmptyLines("a,b\n1,2\n3,4") == ["a,b", "1,2", "3,4"]
  {
    var text := "a,b\n1,2\n3,4";
    ExampleSplit(text);
    assert DropEmpty(["a,b", "1,2", "3,4"]) == ["a,b", "1,2", "3,4"];
  }

  lemma ExampleSplit(text: string)
    requires text == "a,b\n1,2\n3,4"
    ensures Split.Split(LineBreak, text) == ["a,b", "1,2", "3,4"]
  {
    ExampleLinesTail(text);
    ExampleFirstCut(text);
  }

  lemma ExampleFirstCut(text: string)
    requires text == "a,b\n1,2\n3,4"
    ensures SplitFrom(LineBreak, text, 0, 0).fields == ["a,b"] + SplitFrom(LineBreak, text, 4, 4).fields
  {
    SplitFromSkip(LineBreak, text, 0, 0, 3);
    SplitFromCutAt(LineBreak, text, 0, 3);
    assert text[0..3] == "a,b";
  }

  lemma ExampleLinesTail(text: string)
    requires text == "a,b\n1,2\n3,4"
    ensures SplitFrom(LineBreak, text, 4, 4).fields == ["1,2", "3,4"]
  {
    ExampleLastLine(text);
    SplitFromSkip(LineBreak, text, 4, 4, 7);
    SplitFromCutAt(LineBreak, text, 4, 7);
    assert text[4..7] == "1,2";
  }

  lemma ExampleLastLine(text: string)
    requires text == "a,b\n1,2\n3,4"
    ensures SplitFrom(LineBreak, text, 8, 8).fields == ["3,4"]
  {
    SplitFromSkip(LineBreak, text, 8, 8, 11);
    assert text[8..] == "3,4";
  }

  /** A line `x,y` of two one-character cells splits into `[x, y]`. */
  lemma CsvExampleCells(line: string, x: char, y: char)
    requires x != ',' && y != ',' && !IsSpace(x) && !IsSpace(y)
    requires line == [x, ',', y]
    ensures CsvCells(line) == [[x], [y]]
  {
    CommaPair(line, x, y);
    TrimAllPair([x], [y]);
  }

  lemma TrimAllPair(a: string, b: string)
    requires a == Trim(a) && b == Trim(b)
    ensures TrimAll([a, b]) == [a, b]
  {
  }

  lemma CommaPair(line: string, x: char, y: char)
    requires x != ',' && y != ','
    requires line == [x, ',', y]
    ensures Split.Split(Comma, line) == [[x], [y]]
  {
    SplitFromSkip(Comma, line, 2, 2, 3);
    assert SplitFrom(Comma, line, 2, 2).fields == [[y]];
    SplitFromSkip(Comma, line, 0, 0, 1);
    SplitFromCutAt(Comma, line, 0, 1);
    assert line[0..1] == [x];
  }

  /** `line.split(/[;,|\t]+|\s{2,}/).map((s) => s.trim())`. */
  function TxtCells(line: string): (cells: seq<string>)
  {
    TrimAll(Split.Split(TxtDelims, line))
  }

  /** `lines.map((line) => line.split(/[;,|\t]+|\s{2,}/).map((s) => s.trim()))`. */
  function TxtRows(lines: seq<string>): (rows: seq<seq<string>>)
    ensures |rows| == |lines|
    ensures forall i :: 0 <= i < |lines| ==> rows[i] == TxtCells(lines[i])
  {
    if lines == [] then []
    else
      var rest := TxtRows(lines[1..]);
      assert forall i :: 1 <= i < |lines| ==> rest[i - 1] == TxtCells(lines[i]);
      [TxtCells(lines[0])] + rest
  }

  /** `lines.map((l) => [l])`. */
  function Singletons(lines: seq<string>): (rows: seq<seq<string>>)
    ensures |rows| == |lines|
    ensures forall i :: 0 <= i < |lines| ==> rows[i] == [lines[i]]
  {
    if lines == [] then [] else [[lines[0]]] + Singletons(lines[1..])
  }

  /** `parseTXTText`: delimited when the first line has two or more non-empty cells, else one "Conteúdo" column. */
  function ParseTxt(text: string): (g: Grid)
    ensures |g.headers| >= 1
  {
    var lines := NonEmptyLines(text);
    if lines == [] then Grid([Content], [])
    else
      var candidate := DropEmpty(TxtCells(lines[0]));
      if |candidate| > 1 then
        Grid(candidate, TxtRows(lines[1..]))
      else
        Grid([Content], Singletons(lines))
  }

  /**
    The TXT heuristic: when the first line yields at most one non-empty cell the
    result is the "Conteúdo" column with one row per non-empty line, holding the
    line itself; otherwise the headers are the first line's non-empty cells and
    every later line gives one row (its cells trimmed, empty ones kept).
   */
  lemma ParseTxtSpec(text: string)
    ensures var g := ParseTxt(text); var lines := NonEmptyLines(text);
      && g.headers != []
      && (|g.headers| == 1 <==> lines == [] || |DropEmpty(TxtCells(lines[0]))| <= 1)
      && (|g.headers| == 1 ==>
            && g.headers == [Content]
            && |g.rows| == |lines|
            && (forall i :: 0 <= i < |lines| ==> g.rows[i] == [lines[i]]))
      && (|g.headers| > 1 ==>
            && g.headers == DropEmpty(TxtCells(lines[0]))
            && |g.rows| == |lines| - 1
            && (forall i :: 0 <= i < |g.rows| ==> g.rows[i] == TxtCells(lines[i + 1])))
  {
  }

  /** Trimming a cell free of delimiters keeps it free of delimiters. */
  lemma TrimmedCellClean(pat: Pattern, raw: string)
    requires forall k :: 0 <= k < |raw| ==> !IsDelimiter(pat, raw[k])
    ensures Trim(Trim(raw)) == Trim(raw)
    ensures forall k :: 0 <= k < |Trim(raw)| ==> !IsDelimiter(pat, Trim(raw)[k])
  {
    TrimFixpoint(raw);
    TrimKeepsMiddle(raw);
    forall k | 0 <= k < |Trim(raw)|
      ensures !IsDelimiter(pat, Trim(raw)[k])
    {
      assert Trim(raw)[k] in Trim(raw);
    }
  }

  /**
    Each cell `split(/[;,|\t]+|\s{2,}/).map(trim)` yields is trimmed and free of
    the delimiters `; , | tab`, so the TXT headers (the non-empty ones) are too.
   */
  lemma TxtCellsClean(line: string)
    ensures forall j :: 0 <= j < |TxtCells(line)| ==>
      && Trim(TxtCells(line)[j]) == TxtCells(line)[j]
      && (forall k :: 0 <= k < |TxtCells(line)[j]| ==> !IsDelimiter(TxtDelims, TxtCells(line)[j][k]))
  {
    var raw := Split.Split(TxtDelims, line);
    assert raw == Cut(TxtDelims, line).fields;
    DelimitedSplitSound(TxtDelims, line);
    forall j | 0 <= j < |raw|
      ensures Trim(TxtCells(line)[j]) == TxtCells(line)[j]
      ensures forall k :: 0 <= k < |TxtCells(line)[j]| ==> !IsDelimiter(TxtDelims, TxtCells(line)[j][k])
    {
      TrimmedCellClean(TxtDelims, raw[j]);
    }
  }
}

/**
  PDF post-processing: the text fragments of the first page are grouped into
  lines by their vertical position, and the lines are split into columns when
  the first one looks tabular.
 */
module PdfText {
  import opened Text
  import opened Split
  import opened Tables
  import TextParsers

  /** A text fragment: its string and the vertical translation of its transform (`transform[5]`). */
  datatype TextItem = TextItem(str: string, y: int)

  /** Vertical distance beyond which the next fragment starts a new line. */
  const LineGap: int := 5

  function Abs(x: int): (r: nat) { if x < 0 then -x else x }

  /** `Math.abs(y - currentY) > 5`, with `currentY` the position of the previous fragment. */
  predicate Break(prev: TextItem, next: TextItem)
  {
    Abs(next.y - prev.y) > LineGap
  }

  /**
    The lines from fragment `start` on, the current one being `items[start..i]`:
    a break before fragment `i` closes it, the end of the fragments flushes it.
   */
  function GroupsFrom(items: seq<TextItem>, start: nat, i: nat): (gs: seq<seq<TextItem>>)
    requires start < i <= |items|
    ensures gs != [] && gs[0] != [] && gs[0][0] == items[start]
    decreases |items| - i
  {
    if i == |items| then [items[start..]]
    else if Break(items[i - 1], items[i]) then [items[start..i]] + GroupsFrom(items, i, i + 1)
    else GroupsFrom(items, start, i + 1)
  }

  /** The grouping of all the fragments of the page. */
  function Groups(items: seq<TextItem>): (r: seq<seq<TextItem>>)
  {
    if items == [] then [] else GroupsFrom(items, 0, 1)
  }

  /** The strings of a group of fragments. */
  function Strs(g: seq<TextItem>): (r: seq<string>)
  {
    if g == [] then [] else [g[0].str] + Strs(g[1..])
  }

  /** Each group as a line: `currentLine.join(" ")`. */
  function JoinGroups(gs: seq<seq<TextItem>>): (r: seq<string>)
  {
    if gs == [] then [] else [Join(Strs(gs[0]), " ")] + JoinGroups(gs[1..])
  }

  lemma {:induction false} StrsSnoc(g: seq<TextItem>, x: TextItem)
    ensures Strs(g + [x]) == Strs(g) + [x.str]
  {
    if g == [] {
      assert [x][1..] == [];
    } else {
      assert (g + [x])[1..] == g[1..] + [x];
      StrsSnoc(g[1..], x);
    }
  }

  /** Each page line is the strings of its group's fragments joined by a space. */
  lemma {:induction false} JoinGroupsSpec(gs: seq<seq<TextItem>>)
    ensures |JoinGroups(gs)| == |gs|
    ensures forall k :: 0 <= k < |gs| ==> JoinGroups(gs)[k] == Join(Strs(gs[k]), " ")
  {
    if gs != [] {
      JoinGroupsSpec(gs[1..]);
      var lines := JoinGroups(gs);
      forall k | 0 <= k < |gs|
        ensures lines[k] == Join(Strs(gs[k]), " ")
      {
        if k > 0 {
          assert lines[k] == JoinGroups(gs[1..])[k - 1];
          assert gs[k] == gs[1..][k - 1];
        }
      }
    }
  }

  /** The concatenation of the groups. */
  function Flatten(gs: seq<seq<TextItem>>): (r: seq<TextItem>)
  {
    if gs == [] then [] else gs[0] + Flatten(gs[1..])
  }

  /** No two neighbouring fragments of `g` are a break apart. */
  predicate NoBreakWithin(g: seq<TextItem>)
  {
    forall m :: 1 <= m < |g| ==> !Break(g[m - 1], g[m])
  }

  /** Group `k` ends a break away from the start of group `k + 1`. */
  predicate BreakAfter(gs: seq<seq<TextItem>>, k: nat)
    requires k + 1 < |gs|
  {
    gs[k] != [] && gs[k + 1] != [] && Break(gs[k][|gs[k]| - 1], gs[k + 1][0])
  }

  /** Every group but the last ends a break away from the start of the next. */
  predicate BreaksBetween(gs: seq<seq<TextItem>>)
  {
    forall k: nat :: k + 1 < |gs| ==> BreakAfter(gs, k)
  }

  /**
    `gs` cuts `items` into non-empty runs: concatenated they give `items`, no
    break separates two neighbours of a run, and a break separates every run
    from the next.
   */
  predicate IsLineGrouping(gs: seq<seq<TextItem>>, items: seq<TextItem>)
  {
    && Flatten(gs) == items
    && (forall k :: 0 <= k < |gs| ==> gs[k] != [] && NoBreakWithin(gs[k]))
    && BreaksBetween(gs)
  }

  lemma {:induction false} GroupsFromNonEmpty(items: seq<TextItem>, start: nat, i: nat)
    requires start < i <= |items|
    ensures forall k :: 0 <= k < |GroupsFrom(items, start, i)| ==> GroupsFrom(items, start, i)[k] != []
    decreases |items| - i
  {
    var gs := GroupsFrom(items, start, i);
    if i == |items| {
    } else if Break(items[i - 1], items[i]) {
      var rest := GroupsFrom(items, i, i + 1);
      GroupsFromNonEmpty(items, i, i + 1);
      assert gs == [items[start..i]] + rest;
      forall k | 0 <= k < |gs|
        ensures gs[k] != []
      {
        if k > 0 {
          assert gs[k] == rest[k - 1];
        }
      }
    } else {
      GroupsFromNonEmpty(items, start, i + 1);
    }
  }

  lemma {:induction false} FlattenGroupsFrom(items: seq<TextItem>, start: nat, i: nat)
    requires start < i <= |items|
    ensures Flatten(GroupsFrom(items, start, i)) == items[start..]
    decreases |items| - i
  {
    var gs := GroupsFrom(items, start, i);
    if i == |items| {
      assert gs[1..] == [];
    } else if Break(items[i - 1], items[i]) {
      FlattenGroupsFrom(items, i, i + 1);
      assert gs[1..] == GroupsFrom(items, i, i + 1);
      assert items[start..] == items[start..i] + items[i..];
    } else {
      FlattenGroupsFrom(items, start, i + 1);
    }
  }

  lemma {:induction false} GroupsFromNoBreakWithin(items: seq<TextItem>, start: nat, i: nat)
    requires start < i <= |items|
    requires NoBreakWithin(items[start..i])
    ensures forall k :: 0 <= k < |GroupsFrom(items, start, i)| ==> NoBreakWithin(GroupsFrom(items, start, i)[k])
    decreases |items| - i
  {
    var gs := GroupsFrom(items, start, i);
    if i == |items| {
    } else if Break(items[i - 1], items[i]) {
      var rest := GroupsFrom(items, i, i + 1);
      assert NoBreakWithin(items[i..i + 1]);
      GroupsFromNoBreakWithin(items, i, i + 1);
      assert gs == [items[start..i]] + rest;
      forall k | 0 <= k < |gs|
        ensures NoBreakWithin(gs[k])
      {
        if k > 0 {
          assert NoBreakWithin(rest[k - 1]);
          assert gs[k] == rest[k - 1];
        }
      }
    } else {
      var g := items[start..i + 1];
      forall m | 1 <= m < |g|
        ensures !Break(g[m - 1], g[m])
      {
        if m < i - start {
          assert g[m - 1] == items[start..i][m - 1] && g[m] == items[start..i][m];
        }
      }
      GroupsFromNoBreakWithin(items, start, i + 1);
      assert gs == GroupsFrom(items, start, i + 1);
    }
  }

  lemma {:induction false} GroupsFromBreaksBetween(items: seq<TextItem>, start: nat, i: nat)
    requires start < i <= |items|
    ensures BreaksBetween(GroupsFrom(items, start, i))
    decreases |items| - i
  {
    var gs := GroupsFrom(items, start, i);
    if i == |items| {
    } else if Break(items[i - 1], items[i]) {
      var rest := GroupsFrom(items, i, i + 1);
      GroupsFromBreaksBetween(items, i, i + 1);
      assert gs == [items[start..i]] + rest;
      forall k: nat | k + 1 < |gs|
        ensures BreakAfter(gs, k)
      {
        if k > 0 {
          assert BreakAfter(rest, k - 1);
          assert gs[k] == rest[k - 1] && gs[k + 1] == rest[k];
        }
      }
    } else {
      GroupsFromBreaksBetween(items, start, i + 1);
    }
  }

  /** The loop's grouping is exactly a cut of the fragments at the breaks. */
  lemma GroupsAreLineGrouping(items: seq<TextItem>)
    ensures IsLineGrouping(Groups(items), items)
  {
    if items != [] {
      assert NoBreakWithin(items[0..1]);
      FlattenGroupsFrom(items, 0, 1);
      GroupsFromNonEmpty(items, 0, 1);
      GroupsFromNoBreakWithin(items, 0, 1);
      GroupsFromBreaksBetween(items, 0, 1);
      assert items[0..] == items;
    }
  }

  /** The lines of the page: one per group, its fragments joined by a space. */
  function PageLines(items: seq<TextItem>): (r: seq<string>)
  {
    JoinGroups(Groups(items))
  }

  lemma JoinGroupsCons(g: seq<TextItem>, rest: seq<seq<TextItem>>)
    ensures JoinGroups([g] + rest) == [Join(Strs(g), " ")] + JoinGroups(rest)
  {
    assert ([g] + rest)[1..] == rest;
  }

  /** A break before fragment `i` closes the current line. */
  lemma BreakStep(items: seq<TextItem>, start: nat, i: nat)
    requires start < i < |items| && Break(items[i - 1], items[i])
    ensures JoinGroups(GroupsFrom(items, start, i))
            == [Join(Strs(items[start..i]), " ")] + JoinGroups(GroupsFrom(items, i, i + 1))
  {
    JoinGroupsCons(items[start..i], GroupsFrom(items, i, i + 1));
  }

  /** Without a break, fragment `i` joins the current line. */
  lemma ContinueStep(items: seq<TextItem>, start: nat, i: nat)
    requires start < i < |items| && !Break(items[i - 1], items[i])
    ensures GroupsFrom(items, start, i) == GroupsFrom(items, start, i + 1)
  {
  }

  /** At the end of the fragments the current line is the last one. */
  lemma FlushStep(items: seq<TextItem>, start: nat)
    requires start < |items|
    ensures JoinGroups(GroupsFrom(items, start, |items|)) == [Join(Strs(items[start..]), " ")]
  {
    JoinGroupsCons(items[start..], []);
  }

  lemma StrsExtend(items: seq<TextItem>, start: nat, i: nat)
    requires start <= i < |items|
    ensures Strs(items[start..i + 1]) == Strs(items[start..i]) + [items[i].str]
  {
    assert items[start..i + 1] == items[start..i] + [items[i]];
    StrsSnoc(items[start..i], items[i]);
  }

  /** The grouping loop of `parsePDFFile`, followed by the final flush of `currentLine`. */
  method GroupLines(items: seq<TextItem>) returns (lines: seq<string>)
    ensures lines == PageLines(items)
  {
    lines := [];
    var currentLine: seq<string> := [];
    var currentY: int := 0;
    var started := false;
    var start := 0;
    var i := 0;
    ghost var pending := PageLines(items);
    while i < |items|
      invariant 0 <= i <= |items|
      invariant started <==> i > 0
      invariant start <= i
      invariant PageLines(items) == lines + pending
      invariant i == 0 ==> lines == [] && currentLine == [] && start == 0
      invariant i > 0 ==> start < i
      invariant i > 0 ==> currentY == items[i - 1].y
      invariant i > 0 ==> currentLine == Strs(items[start..i])
      invariant i > 0 ==> pending == JoinGroups(GroupsFrom(items, start, i))
    {
      var item := items[i];
      if started && Abs(item.y - currentY) > LineGap {
        BreakStep(items, start, i);
        var closed := Join(currentLine, " ");
        ghost var later := JoinGroups(GroupsFrom(items, i, i + 1));
        assert lines + ([closed] + later) == (lines + [closed]) + later;
        lines := lines + [closed];
        pending := later;
        currentLine := [];
        start := i;
      } else if started {
        ContinueStep(items, start, i);
      } else {
        assert pending == JoinGroups(GroupsFrom(items, 0, 1));
      }
      StrsExtend(items, start, i);
      currentLine := currentLine + [item.str];
      currentY := item.y;
      started := true;
      i := i + 1;
    }
    if |currentLine| > 0 {
      assert items[start..i] == items[start..];
      FlushStep(items, start);
      lines := lines + [Join(currentLine, " ")];
    }
  }

  /** `l.split(/[|;]+|\t+|\s{2,}/).map((s) => s.trim()).filter(Boolean)`. */
  function PdfCells(line: string): (r: seq<string>)
  {
    DropEmpty(TrimAll(Split.Split(PdfDelims, line)))
  }

  /** Every line split into its cells. */
  function PdfRows(lines: seq<string>): (rows: seq<seq<string>>)
    ensures |rows| == |lines|
    ensures forall i :: 0 <= i < |lines| ==> rows[i] == PdfCells(lines[i])
  {
    if lines == [] then []
    else
      var rest := PdfRows(lines[1..]);
      assert forall i :: 1 <= i < |lines| ==> rest[i - 1] == PdfCells(lines[i]);
      [PdfCells(lines[0])] + rest
  }

  /** `split.map((arr) => [arr.join(" ")])`: each line's cells as one cell. */
  function RejoinedRows(split: seq<seq<string>>): (rows: seq<seq<string>>)
    ensures |rows| == |split|
    ensures forall i :: 0 <= i < |split| ==> rows[i] == [Join(split[i], " ")]
  {
    if split == [] then []
    else
      var rest := RejoinedRows(split[1..]);
      assert forall i :: 1 <= i < |split| ==> rest[i - 1] == [Join(split[i], " ")];
      [[Join(split[0], " ")]] + rest
  }

  /** The table of the page lines: tabular when the first line has more than one cell. */
  function LinesGrid(lines: seq<string>): (r: Grid)
  {
    var split := PdfRows(lines);
    var firstRow := if split == [] then [] else split[0];
    if |firstRow| > 1 then Grid(firstRow, split[1..])
    else Grid([Content], RejoinedRows(split))
  }

  /** What the PDF library gives for the first page: its text fragments, or an exception. */
  datatype PdfPage = PageText(items: seq<TextItem>) | PageUnreadable

  /** Text of the one cell shown when the page cannot be read. */
  const PdfUnavailable: string := "Pré-visualização indisponível para este PDF"

  /**
    `parsePDFFile` once the file is read: the grouped lines as a table, or,
    when the library throws, the one-cell notice.
   */
  function PdfGrid(page: PdfPage): (g: Grid)
    ensures page.PageUnreadable? ==> g.headers == [Content] && g.rows == [[PdfUnavailable]]
  {
    match page
    case PageText(items) => LinesGrid(PageLines(items))
    case PageUnreadable => Notice(PdfUnavailable)
  }

  /** A PDF cell is non-empty, trimmed and free of `|`, `;` and tab. */
  lemma PdfCellsClean(line: string)
    ensures forall c :: c in PdfCells(line) ==>
      && c != ""
      && Trim(c) == c
      && (forall k :: 0 <= k < |c| ==> !IsDelimiter(PdfDelims, c[k]))
  {
    var raw := Split.Split(PdfDelims, line);
    assert raw == Cut(PdfDelims, line).fields;
    DelimitedSplitSound(PdfDelims, line);
    forall c | c in PdfCells(line)
      ensures c != "" && Trim(c) == c && (forall k :: 0 <= k < |c| ==> !IsDelimiter(PdfDelims, c[k]))
    {
      var j :| 0 <= j < |raw| && TrimAll(raw)[j] == c;
      TextParsers.TrimmedCellClean(PdfDelims, raw[j]);
    }
  }

  /**
    The page table: when the first line has at least two cells they are the
    headers and every later line is a row of its cells; otherwise the single
    header is "Conteúdo" and every line is one row of one cell, its cells
    joined by a space.
   */
  lemma LinesGridSpec(lines: seq<string>)
    ensures var g := LinesGrid(lines);
      && g.headers != []
      && (|g.headers| > 1 <==> lines != [] && |PdfCells(lines[0])| > 1)
      && (|g.headers| > 1 ==>
            && g.headers == PdfCells(lines[0])
            && |g.rows| == |lines| - 1
            && (forall i :: 0 <= i < |g.rows| ==> g.rows[i] == PdfCells(lines[i + 1])))
      && (|g.headers| <= 1 ==>
            && g.headers == [Content]
            && |g.rows| == |lines|
            && (forall i :: 0 <= i < |lines| ==> g.rows[i] == [Join(PdfCells(lines[i]), " ")]))
  {
  }

  /**
    The table of a readable page, in terms of its line grouping: a page with no
    fragments gives the "Conteúdo" header and no rows; otherwise the first
    group's text decides, and every later group (or every group) becomes a row.
   */
  lemma PdfPageGrid(items: seq<TextItem>)
    ensures IsLineGrouping(Groups(items), items)
    ensures var g := PdfGrid(PageText(items)); var gs := Groups(items);
      && (items == [] ==> g.headers == [Content] && g.rows == [])
      && g.headers != []
      && (|g.headers| > 1 <==> gs != [] && |PdfCells(Join(Strs(gs[0]), " "))| > 1)
      && (|g.headers| > 1 ==>
            && g.headers == PdfCells(Join(Strs(gs[0]), " "))
            && |g.rows| == |gs| - 1
            && (forall i :: 0 <= i < |g.rows| ==> g.rows[i] == PdfCells(Join(Strs(gs[i + 1]), " "))))
      && (|g.headers| <= 1 ==>
            && g.headers == [Content]
            && |g.rows| == |gs|
            && (forall i :: 0 <= i < |gs| ==> g.rows[i] == [Join(PdfCells(Join(Strs(gs[i]), " ")), " ")]))
  {
    GroupsAreLineGrouping(items);
    JoinGroupsSpec(Groups(items));
    LinesGridSpec(PageLines(items));
  }
}

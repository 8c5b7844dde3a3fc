/**
  The `String.prototype.split` calls of App.jsx, with the regular expressions
  written out by hand. At every position the alternatives of a pattern are tried
  left to right and the first that matches wins; `+` and `{2,}` are greedy. None
  of the patterns matches the empty string, so JavaScript's split reduces to:
  scan left to right, cut at every match, keep the text between the cuts.
 */
module Split {
  import opened Text

  /** The separators App.jsx splits on. */
  datatype Pattern =
    | LineBreak   // /\r\n|\n/
    | Comma       // ","
    | TxtDelims   // /[;,|\t]+|\s{2,}/
    | PdfDelims   // /[|;]+|\t+|\s{2,}/

  /** The character classes the patterns repeat. */
  datatype CharClass = TxtDelim | PipeSemi | Tab | Space

  predicate InClass(cls: CharClass, c: char) {
    match cls
    case TxtDelim => c == ';' || c == ',' || c == '|' || c == '\t'
    case PipeSemi => c == '|' || c == ';'
    case Tab => c == '\t'
    case Space => IsSpace(c)
  }

  /** Length of the longest run of `cls` characters of `s` starting at `i`. */
  function Run(cls: CharClass, s: string, i: nat): (n: nat)
    requires i <= |s|
    ensures n <= |s| - i
    decreases |s| - i
  {
    if i < |s| && InClass(cls, s[i]) then 1 + Run(cls, s, i + 1) else 0
  }

  /** A run consists of `cls` characters and stops before the first other one. */
  lemma {:induction false} RunChars(cls: CharClass, s: string, i: nat)
    requires i <= |s|
    ensures forall k :: i <= k < i + Run(cls, s, i) ==> InClass(cls, s[k])
    ensures i + Run(cls, s, i) < |s| ==> !InClass(cls, s[i + Run(cls, s, i)])
    decreases |s| - i
  {
    if i < |s| && InClass(cls, s[i]) {
      RunChars(cls, s, i + 1);
    }
  }

  /** `\s{2,}` at `i`: the whole run of `\s` when it has at least two characters. */
  function SpaceRun(s: string, i: nat): (m: nat)
    requires i <= |s|
    ensures m <= |s| - i
  {
    var w := Run(Space, s, i);
    if w >= 2 then w else 0
  }

  /** Length of the separator `pat` matches at position `i` of `s`; 0 when it matches none. */
  function MatchAt(pat: Pattern, s: string, i: nat): (m: nat)
    requires i < |s|
    ensures m <= |s| - i
  {
    match pat
    case LineBreak =>
      if s[i] == '\r' && i + 1 < |s| && s[i + 1] == '\n' then 2
      else if s[i] == '\n' then 1
      else 0
    case Comma => if s[i] == ',' then 1 else 0
    case TxtDelims =>
      var d := Run(TxtDelim, s, i);
      if d > 0 then d else SpaceRun(s, i)
    case PdfDelims =>
      var d := Run(PipeSemi, s, i);
      if d > 0 then d
      else
        var t := Run(Tab, s, i);
        if t > 0 then t else SpaceRun(s, i)
  }

  /** The fields of a split together with the separators that were cut out between them. */
  datatype Pieces = Pieces(fields: seq<string>, seps: seq<string>)

  /**
    Splits `s[p..]`; positions `p` up to `q` have already been scanned without
    finding a separator.
   */
  function SplitFrom(pat: Pattern, s: string, p: nat, q: nat): (r: Pieces)
    requires p <= q <= |s|
    ensures |r.fields| == |r.seps| + 1
    decreases |s| - q
  {
    if q == |s| then Pieces([s[p..]], [])
    else
      var m := MatchAt(pat, s, q);
      if m == 0 then SplitFrom(pat, s, p, q + 1)
      else
        var rest := SplitFrom(pat, s, q + m, q + m);
        Pieces([s[p..q]] + rest.fields, [s[q..q + m]] + rest.seps)
  }

  /** `s.split(pat)` with its separators. */
  function Cut(pat: Pattern, s: string): (r: Pieces)
    ensures |r.fields| == |r.seps| + 1
  {
    SplitFrom(pat, s, 0, 0)
  }

  /** `s.split(pat)`. */
  function Split(pat: Pattern, s: string): (r: seq<string>)
    ensures |r| >= 1
  {
    Cut(pat, s).fields
  }

  /** fields[0] + seps[0] + fields[1] + ... + fields[n]. */
  function Interleave(fields: seq<string>, seps: seq<string>): (r: string)
    requires |fields| == |seps| + 1
  {
    if seps == [] then fields[0]
    else fields[0] + seps[0] + Interleave(fields[1..], seps[1..])
  }

  /** `t` is one whole match of `pat`. */
  predicate IsSeparator(pat: Pattern, t: string) {
    |t| > 0 && MatchAt(pat, t, 0) == |t|
  }

  /** No match of `pat` starts anywhere inside `f`. */
  predicate NoSeparatorIn(pat: Pattern, f: string) {
    forall k :: 0 <= k < |f| ==> MatchAt(pat, f, k) == 0
  }

  predicate Scanned(pat: Pattern, s: string, p: nat, q: nat)
    requires p <= q <= |s|
  {
    forall k :: p <= k < q ==> MatchAt(pat, s, k) == 0
  }

  /** A run measured inside a slice is the run in the whole string, cut at the slice's end. */
  lemma {:induction false} RunSlice(cls: CharClass, s: string, a: nat, b: nat, k: nat)
    requires a <= b <= |s| && k <= b - a
    ensures Run(cls, s[a..b], k) == if Run(cls, s, a + k) < b - a - k then Run(cls, s, a + k) else b - a - k
    decreases b - a - k
  {
    if k < b - a {
      assert s[a..b][k] == s[a + k];
      if InClass(cls, s[a + k]) {
        RunSlice(cls, s, a, b, k + 1);
      }
    }
  }

  /** A separator found inside a slice is (the start of) a separator of the whole string. */
  lemma SliceMatchImpliesMatch(pat: Pattern, s: string, a: nat, b: nat, k: nat)
    requires a <= b <= |s| && k < b - a
    requires MatchAt(pat, s[a..b], k) > 0
    ensures MatchAt(pat, s, a + k) > 0
  {
    var t := s[a..b];
    assert t[k] == s[a + k];
    RunSlice(TxtDelim, s, a, b, k);
    RunSlice(PipeSemi, s, a, b, k);
    RunSlice(Tab, s, a, b, k);
    RunSlice(Space, s, a, b, k);
    if pat == LineBreak && k + 1 < |t| {
      assert t[k + 1] == s[a + k + 1];
    }
  }

  /** The text a match covers is, on its own, one whole match. */
  lemma MatchIsSeparator(pat: Pattern, s: string, q: nat)
    requires q < |s| && MatchAt(pat, s, q) > 0
    ensures IsSeparator(pat, s[q..q + MatchAt(pat, s, q)])
  {
    var m := MatchAt(pat, s, q);
    var t := s[q..q + m];
    assert t[0] == s[q];
    RunSlice(TxtDelim, s, q, q + m, 0);
    RunSlice(PipeSemi, s, q, q + m, 0);
    RunSlice(Tab, s, q, q + m, 0);
    RunSlice(Space, s, q, q + m, 0);
    if pat == LineBreak && m == 2 {
      assert t[1] == s[q + 1];
    }
  }

  /** A field holds no separator when the positions it spans were scanned without a match. */
  lemma FieldHasNoSeparator(pat: Pattern, s: string, p: nat, q: nat)
    requires p <= q <= |s| && Scanned(pat, s, p, q)
    ensures NoSeparatorIn(pat, s[p..q])
  {
    forall k | 0 <= k < q - p
      ensures MatchAt(pat, s[p..q], k) == 0
    {
      if MatchAt(pat, s[p..q], k) > 0 {
        SliceMatchImpliesMatch(pat, s, p, q, k);
      }
    }
  }

  /** Where nothing matches, the scan moves on by one position. */
  lemma SplitFromNoMatch(pat: Pattern, s: string, p: nat, q: nat)
    requires p <= q < |s| && MatchAt(pat, s, q) == 0
    ensures SplitFrom(pat, s, p, q) == SplitFrom(pat, s, p, q + 1)
  {
  }

  lemma InterleaveCons(f: string, fs: seq<string>, x: string, xs: seq<string>)
    requires |fs| == |xs| + 1
    ensures Interleave([f] + fs, [x] + xs) == f + x + Interleave(fs, xs)
  {
    assert ([f] + fs)[1..] == fs && ([x] + xs)[1..] == xs;
  }

  lemma SliceThree(s: string, a: nat, b: nat, c: nat)
    requires a <= b <= c <= |s|
    ensures s[a..] == s[a..b] + s[b..c] + s[c..]
  {
  }

  /** Interleaving the fields with the separators gives back the input. */
  lemma {:induction false} SplitFromJoins(pat: Pattern, s: string, p: nat, q: nat)
    requires p <= q <= |s|
    ensures Interleave(SplitFrom(pat, s, p, q).fields, SplitFrom(pat, s, p, q).seps) == s[p..]
    decreases |s| - q
  {
    if q < |s| {
      var m := MatchAt(pat, s, q);
      if m == 0 {
        SplitFromNoMatch(pat, s, p, q);
        SplitFromJoins(pat, s, p, q + 1);
      } else {
        SplitFromJoins(pat, s, q + m, q + m);
        JoinsAtCut(pat, s, p, q);
      }
    }
  }

  /** The joining step at a match, given that the rest after the separator joins back. */
  lemma JoinsAtCut(pat: Pattern, s: string, p: nat, q: nat)
    requires p <= q < |s| && MatchAt(pat, s, q) > 0
    requires var e := q + MatchAt(pat, s, q);
      Interleave(SplitFrom(pat, s, e, e).fields, SplitFrom(pat, s, e, e).seps) == s[e..]
    ensures Interleave(SplitFrom(pat, s, p, q).fields, SplitFrom(pat, s, p, q).seps) == s[p..]
  {
    var m := MatchAt(pat, s, q);
    var r := SplitFrom(pat, s, p, q);
    var rest := SplitFrom(pat, s, q + m, q + m);
    SplitFromCutAt(pat, s, p, q);
    assert r == Pieces([s[p..q]] + rest.fields, [s[q..q + m]] + rest.seps);
    InterleaveCons(s[p..q], rest.fields, s[q..q + m], rest.seps);
    SliceThree(s, p, q, q + m);
  }

  /** Every separator cut out is one whole match of the pattern. */
  lemma {:induction false} SplitFromSeparators(pat: Pattern, s: string, p: nat, q: nat)
    requires p <= q <= |s|
    ensures forall i :: 0 <= i < |SplitFrom(pat, s, p, q).seps| ==> IsSeparator(pat, SplitFrom(pat, s, p, q).seps[i])
    decreases |s| - q
  {
    if q < |s| {
      var m := MatchAt(pat, s, q);
      if m == 0 {
        SplitFromNoMatch(pat, s, p, q);
        SplitFromSeparators(pat, s, p, q + 1);
      } else {
        SplitFromSeparators(pat, s, q + m, q + m);
        SeparatorsAtCut(pat, s, p, q);
      }
    }
  }

  /** The separator step at a match, given that the separators after it are whole matches. */
  lemma SeparatorsAtCut(pat: Pattern, s: string, p: nat, q: nat)
    requires p <= q < |s| && MatchAt(pat, s, q) > 0
    requires var e := q + MatchAt(pat, s, q);
      forall i :: 0 <= i < |SplitFrom(pat, s, e, e).seps| ==> IsSeparator(pat, SplitFrom(pat, s, e, e).seps[i])
    ensures forall i :: 0 <= i < |SplitFrom(pat, s, p, q).seps| ==> IsSeparator(pat, SplitFrom(pat, s, p, q).seps[i])
  {
    var m := MatchAt(pat, s, q);
    var rest := SplitFrom(pat, s, q + m, q + m).seps;
    MatchIsSeparator(pat, s, q);
    SplitFromCutAt(pat, s, p, q);
    var seps := [s[q..q + m]] + rest;
    assert SplitFrom(pat, s, p, q).seps == seps;
    forall i | 0 <= i < |seps|
      ensures IsSeparator(pat, seps[i])
    {
      if i > 0 {
        assert seps[i] == rest[i - 1];
      }
    }
  }

  /** No field contains a separator. */
  lemma {:induction false} SplitFromFields(pat: Pattern, s: string, p: nat, q: nat)
    requires p <= q <= |s| && Scanned(pat, s, p, q)
    ensures forall i :: 0 <= i < |SplitFrom(pat, s, p, q).fields| ==> NoSeparatorIn(pat, SplitFrom(pat, s, p, q).fields[i])
    decreases |s| - q
  {
    if q == |s| {
      FieldHasNoSeparator(pat, s, p, q);
      assert s[p..q] == s[p..];
      assert SplitFrom(pat, s, p, q).fields == [s[p..]];
    } else {
      var m := MatchAt(pat, s, q);
      if m == 0 {
        ScannedStep(pat, s, p, q);
        SplitFromNoMatch(pat, s, p, q);
        SplitFromFields(pat, s, p, q + 1);
      } else {
        SplitFromFields(pat, s, q + m, q + m);
        FieldsAtCut(pat, s, p, q);
      }
    }
  }

  /** The field step at a match, given that the fields after the separator hold no separator. */
  lemma FieldsAtCut(pat: Pattern, s: string, p: nat, q: nat)
    requires p <= q < |s| && MatchAt(pat, s, q) > 0 && Scanned(pat, s, p, q)
    requires var e := q + MatchAt(pat, s, q);
      forall i :: 0 <= i < |SplitFrom(pat, s, e, e).fields| ==> NoSeparatorIn(pat, SplitFrom(pat, s, e, e).fields[i])
    ensures forall i :: 0 <= i < |SplitFrom(pat, s, p, q).fields| ==> NoSeparatorIn(pat, SplitFrom(pat, s, p, q).fields[i])
  {
    var m := MatchAt(pat, s, q);
    var rest := SplitFrom(pat, s, q + m, q + m).fields;
    FieldHasNoSeparator(pat, s, p, q);
    SplitFromCutAt(pat, s, p, q);
    var fields := [s[p..q]] + rest;
    assert SplitFrom(pat, s, p, q).fields == fields;
    forall i | 0 <= i < |fields|
      ensures NoSeparatorIn(pat, fields[i])
    {
      if i > 0 {
        assert fields[i] == rest[i - 1];
      }
    }
  }

  lemma ScannedStep(pat: Pattern, s: string, p: nat, q: nat)
    requires p <= q < |s| && Scanned(pat, s, p, q) && MatchAt(pat, s, q) == 0
    ensures Scanned(pat, s, p, q + 1)
  {
  }

  /** Scanning past positions where nothing matches does not change the split. */
  lemma {:induction false} SplitFromSkip(pat: Pattern, s: string, p: nat, q: nat, q': nat)
    requires p <= q <= q' <= |s|
    requires forall k :: q <= k < q' ==> MatchAt(pat, s, k) == 0
    ensures SplitFrom(pat, s, p, q) == SplitFrom(pat, s, p, q')
    decreases q' - q
  {
    if q < q' {
      SplitFromSkip(pat, s, p, q + 1, q');
    }
  }

  /** At a match the split closes the current field and restarts after the separator. */
  lemma SplitFromCutAt(pat: Pattern, s: string, p: nat, q: nat)
    requires p <= q < |s| && MatchAt(pat, s, q) > 0
    ensures var m := MatchAt(pat, s, q); var rest := SplitFrom(pat, s, q + m, q + m);
      SplitFrom(pat, s, p, q) == Pieces([s[p..q]] + rest.fields, [s[q..q + m]] + rest.seps)
  {
  }

  /**
    `fields` and `seps` cut `s[p..]` the way JavaScript's split does: each field
    runs up to the first position where the pattern matches, the separator is
    exactly what the pattern matches there (its longest alternative run), and
    the last field runs to the end without any match in it.
   */
  predicate LeftmostCut(pat: Pattern, s: string, p: nat, fields: seq<string>, seps: seq<string>)
    requires p <= |s| && |fields| == |seps| + 1
    decreases |seps|
  {
    if seps == [] then fields[0] == s[p..] && Scanned(pat, s, p, |s|)
    else
      var q := p + |fields[0]|;
      var e := q + |seps[0]|;
      && q < |s| && e <= |s|
      && s[p..q] == fields[0]
      && Scanned(pat, s, p, q)
      && MatchAt(pat, s, q) == |seps[0]| > 0
      && s[q..e] == seps[0]
      && LeftmostCut(pat, s, e, fields[1..], seps[1..])
  }

  /** The scan from `q` on, with `p..q` already scanned, cuts leftmost. */
  lemma {:induction false} SplitFromLeftmost(pat: Pattern, s: string, p: nat, q: nat)
    requires p <= q <= |s| && Scanned(pat, s, p, q)
    ensures LeftmostCut(pat, s, p, SplitFrom(pat, s, p, q).fields, SplitFrom(pat, s, p, q).seps)
    decreases |s| - q
  {
    if q == |s| {
      assert SplitFrom(pat, s, p, q) == Pieces([s[p..]], []);
    } else if MatchAt(pat, s, q) == 0 {
      ScannedStep(pat, s, p, q);
      SplitFromNoMatch(pat, s, p, q);
      SplitFromLeftmost(pat, s, p, q + 1);
    } else {
      var e := q + MatchAt(pat, s, q);
      SplitFromLeftmost(pat, s, e, e);
      LeftmostAtCut(pat, s, p, q);
    }
  }

  /** The cutting step, given that the rest after the separator is cut leftmost. */
  lemma LeftmostAtCut(pat: Pattern, s: string, p: nat, q: nat)
    requires p <= q < |s| && Scanned(pat, s, p, q) && MatchAt(pat, s, q) > 0
    requires var e := q + MatchAt(pat, s, q);
      LeftmostCut(pat, s, e, SplitFrom(pat, s, e, e).fields, SplitFrom(pat, s, e, e).seps)
    ensures LeftmostCut(pat, s, p, SplitFrom(pat, s, p, q).fields, SplitFrom(pat, s, p, q).seps)
  {
    var m := MatchAt(pat, s, q);
    var rest := SplitFrom(pat, s, q + m, q + m);
    SplitFromCutAt(pat, s, p, q);
    var fields := [s[p..q]] + rest.fields;
    var seps := [s[q..q + m]] + rest.seps;
    assert SplitFrom(pat, s, p, q) == Pieces(fields, seps);
    assert fields[1..] == rest.fields && seps[1..] == rest.seps;
  }

  /** A leftmost cut of `s[p..]` is the one the scan from `p` produces. */
  lemma {:induction false} LeftmostUnique(pat: Pattern, s: string, p: nat, fields: seq<string>, seps: seq<string>)
    requires p <= |s| && |fields| == |seps| + 1
    requires LeftmostCut(pat, s, p, fields, seps)
    ensures SplitFrom(pat, s, p, p) == Pieces(fields, seps)
    decreases |seps|
  {
    if seps == [] {
      SplitFromSkip(pat, s, p, p, |s|);
      assert fields == [fields[0]];
    } else {
      var e := p + |fields[0]| + |seps[0]|;
      LeftmostUnique(pat, s, e, fields[1..], seps[1..]);
      UniqueAtCut(pat, s, p, fields, seps);
    }
  }

  /** The first cut of a leftmost cut, given that the rest is the scan after its separator. */
  lemma UniqueAtCut(pat: Pattern, s: string, p: nat, fields: seq<string>, seps: seq<string>)
    requires p <= |s| && |fields| == |seps| + 1 && seps != []
    requires LeftmostCut(pat, s, p, fields, seps)
    requires var e := p + |fields[0]| + |seps[0]|;
      SplitFrom(pat, s, e, e) == Pieces(fields[1..], seps[1..])
    ensures SplitFrom(pat, s, p, p) == Pieces(fields, seps)
  {
    var q := p + |fields[0]|;
    SplitFromSkip(pat, s, p, p, q);
    SplitFromCutAt(pat, s, p, q);
    assert fields == [fields[0]] + fields[1..] && seps == [seps[0]] + seps[1..];
  }

  /**
    `Cut` is characterised by the leftmost, longest-match rule: it is the one
    pair of fields and separators that cuts `s` that way.
   */
  lemma CutCharacterised(pat: Pattern, s: string, fields: seq<string>, seps: seq<string>)
    requires |fields| == |seps| + 1
    ensures Cut(pat, s) == Pieces(fields, seps) <==> LeftmostCut(pat, s, 0, fields, seps)
  {
    SplitFromLeftmost(pat, s, 0, 0);
    if LeftmostCut(pat, s, 0, fields, seps) {
      LeftmostUnique(pat, s, 0, fields, seps);
    }
  }

  /** In a leftmost line cut, a field followed by a bare "\n" never ends in "\r". */
  lemma {:induction false} LeftmostLinesNoCR(s: string, p: nat, fields: seq<string>, seps: seq<string>)
    requires p <= |s| && |fields| == |seps| + 1
    requires LeftmostCut(LineBreak, s, p, fields, seps)
    ensures forall i :: 0 <= i < |seps| && seps[i] == "\n" && fields[i] != [] ==>
      fields[i][|fields[i]| - 1] != '\r'
    decreases |seps|
  {
    if seps != [] {
      var q := p + |fields[0]|;
      var e := q + |seps[0]|;
      LeftmostLinesNoCR(s, e, fields[1..], seps[1..]);
      if seps[0] == "\n" && fields[0] != [] {
        assert s[q] == seps[0][0] == '\n';
        assert MatchAt(LineBreak, s, q - 1) == 0;
        assert fields[0][|fields[0]| - 1] == s[q - 1];
      }
      forall i | 1 <= i < |seps| && seps[i] == "\n" && fields[i] != []
        ensures fields[i][|fields[i]| - 1] != '\r'
      {
        assert seps[i] == seps[1..][i - 1] && fields[i] == fields[1..][i - 1];
      }
    }
  }

  /**
    Line splitting prefers "\r\n" to "\n": a line cut off by a bare "\n" does
    not end in "\r", so no carriage return of a "\r\n" stays in a line.
   */
  lemma LinesDropCR(s: string)
    ensures var r := Cut(LineBreak, s);
      forall i :: 0 <= i < |r.seps| && r.seps[i] == "\n" && r.fields[i] != [] ==>
        r.fields[i][|r.fields[i]| - 1] != '\r'
  {
    var r := Cut(LineBreak, s);
    CutCharacterised(LineBreak, s, r.fields, r.seps);
    LeftmostLinesNoCR(s, 0, r.fields, r.seps);
  }

  /** `Cut` is a faithful split of the whole string. */
  lemma CutSound(pat: Pattern, s: string)
    ensures var r := Cut(pat, s);
      && Interleave(r.fields, r.seps) == s
      && (forall i :: 0 <= i < |r.seps| ==> IsSeparator(pat, r.seps[i]))
      && (forall i :: 0 <= i < |r.fields| ==> NoSeparatorIn(pat, r.fields[i]))
  {
    SplitFromJoins(pat, s, 0, 0);
    SplitFromSeparators(pat, s, 0, 0);
    SplitFromFields(pat, s, 0, 0);
  }

  /** Line splitting cuts exactly at "\r\n" and "\n": no line keeps a "\n". */
  lemma SplitLinesSound(s: string)
    ensures var r := Cut(LineBreak, s);
      && Interleave(r.fields, r.seps) == s
      && (forall i :: 0 <= i < |r.seps| ==> r.seps[i] == "\n" || r.seps[i] == "\r\n")
      && (forall i :: 0 <= i < |r.fields| ==> '\n' !in r.fields[i])
  {
    CutSound(LineBreak, s);
    var r := Cut(LineBreak, s);
    forall i | 0 <= i < |r.fields|
      ensures '\n' !in r.fields[i]
    {
      var f := r.fields[i];
      forall k | 0 <= k < |f|
        ensures f[k] != '\n'
      {
        assert MatchAt(LineBreak, f, k) == 0;
      }
    }
  }

  /** Joining separator-free fields with single commas. */
  lemma {:induction false} InterleaveCommas(fields: seq<string>, seps: seq<string>)
    requires |fields| == |seps| + 1
    requires forall i :: 0 <= i < |seps| ==> seps[i] == ","
    ensures Interleave(fields, seps) == Join(fields, ",")
  {
    if seps != [] {
      InterleaveCommas(fields[1..], seps[1..]);
    }
  }

  /** `split(",")` and `join(",")` are inverse: no field holds a comma, and joining gives back the text. */
  lemma CommaSplitJoin(s: string)
    ensures Join(Split(Comma, s), ",") == s
    ensures forall i :: 0 <= i < |Split(Comma, s)| ==> ',' !in Split(Comma, s)[i]
  {
    CutSound(Comma, s);
    var r := Cut(Comma, s);
    forall i | 0 <= i < |r.seps|
      ensures r.seps[i] == ","
    {
      assert r.seps[i][0] == ',';
    }
    InterleaveCommas(r.fields, r.seps);
    forall i | 0 <= i < |r.fields|
      ensures ',' !in r.fields[i]
    {
      var f := r.fields[i];
      forall k | 0 <= k < |f|
        ensures f[k] != ','
      {
        assert MatchAt(Comma, f, k) == 0;
      }
    }
  }

  /** The single-character delimiters of a pattern (the `[...]` alternatives). */
  predicate IsDelimiter(pat: Pattern, c: char) {
    match pat
    case LineBreak => c == '\n'
    case Comma => c == ','
    case TxtDelims => InClass(TxtDelim, c)
    case PdfDelims => InClass(PipeSemi, c) || c == '\t'
  }

  /**
    For the TXT and PDF patterns: a field holds no delimiter character and no two
    consecutive `\s` characters; a separator is either a run of delimiters or a run
    of at least two `\s` characters.
   */
  lemma DelimitedSplitSound(pat: Pattern, s: string)
    requires pat == TxtDelims || pat == PdfDelims
    ensures var r := Cut(pat, s);
      && Interleave(r.fields, r.seps) == s
      && (forall i :: 0 <= i < |r.seps| ==>
            (forall k :: 0 <= k < |r.seps[i]| ==> IsDelimiter(pat, r.seps[i][k]))
            || (|r.seps[i]| >= 2 && forall k :: 0 <= k < |r.seps[i]| ==> IsSpace(r.seps[i][k])))
      && (forall i :: 0 <= i < |r.fields| ==>
            && (forall k :: 0 <= k < |r.fields[i]| ==> !IsDelimiter(pat, r.fields[i][k]))
            && (forall k :: 0 <= k < |r.fields[i]| - 1 ==> !(IsSpace(r.fields[i][k]) && IsSpace(r.fields[i][k + 1]))))
  {
    CutSound(pat, s);
    var r := Cut(pat, s);
    forall i | 0 <= i < |r.seps|
      ensures (forall k :: 0 <= k < |r.seps[i]| ==> IsDelimiter(pat, r.seps[i][k]))
              || (|r.seps[i]| >= 2 && forall k :: 0 <= k < |r.seps[i]| ==> IsSpace(r.seps[i][k]))
    {
      var t := r.seps[i];
      assert MatchAt(pat, t, 0) == |t| > 0;
      RunChars(TxtDelim, t, 0);
      RunChars(PipeSemi, t, 0);
      RunChars(Tab, t, 0);
      RunChars(Space, t, 0);
    }
    forall i | 0 <= i < |r.fields|
      ensures forall k :: 0 <= k < |r.fields[i]| ==> !IsDelimiter(pat, r.fields[i][k])
      ensures forall k :: 0 <= k < |r.fields[i]| - 1 ==> !(IsSpace(r.fields[i][k]) && IsSpace(r.fields[i][k + 1]))
    {
      var f := r.fields[i];
      forall k | 0 <= k < |f|
        ensures !IsDelimiter(pat, f[k])
        ensures k < |f| - 1 ==> !(IsSpace(f[k]) && IsSpace(f[k + 1]))
      {
        assert MatchAt(pat, f, k) == 0;
        if k < |f| - 1 && IsSpace(f[k]) {
          assert Run(Space, f, k) == 1 + Run(Space, f, k + 1);
        }
      }
    }
  }
}

/**
  Relationship discovery (`handleAutoRelate`): every header is mapped to the
  set of names of the tables that carry it, the headers held by at least two
  names become relations, and the relations are sorted by column.
 */
module Relate {
  import opened Wrappers
  import opened Tables

  // ---------- string order ----------

  /** Lexicographic order on code points (stands for `localeCompare`). */
  predicate StrLess(a: string, b: string)
  {
    if a == [] then b != []
    else if b == [] then false
    else a[0] < b[0] || (a[0] == b[0] && StrLess(a[1..], b[1..]))
  }

  lemma {:induction false} StrLessIrreflexive(a: string)
    ensures !StrLess(a, a)
  {
    if a != [] {
      StrLessIrreflexive(a[1..]);
    }
  }

  lemma {:induction false} StrLessTransitive(a: string, b: string, c: string)
    requires StrLess(a, b) && StrLess(b, c)
    ensures StrLess(a, c)
  {
    if a != [] && b != [] && c != [] && a[0] == b[0] && b[0] == c[0] {
      StrLessTransitive(a[1..], b[1..], c[1..]);
    }
  }

  lemma {:induction false} StrLessTotal(a: string, b: string)
    requires a != b
    ensures StrLess(a, b) || StrLess(b, a)
  {
    if a != [] && b != [] && a[0] == b[0] {
      assert a == [a[0]] + a[1..] && b == [b[0]] + b[1..];
      StrLessTotal(a[1..], b[1..]);
    }
  }

  /** Relations in strictly increasing column order (so no column twice). */
  predicate SortedByColumn(rels: seq<Relation>)
  {
    forall i, j :: 0 <= i < j < |rels| ==> StrLess(rels[i].column, rels[j].column)
  }

  // ---------- what the column map holds ----------

  /** One header of one table: `colMap[h].add(f.name)`. */
  datatype Occurrence = Occurrence(column: string, file: string)

  /** The occurrences of one table, in header order. */
  function TableOccurrences(t: Table): (occ: seq<Occurrence>)
    ensures |occ| == |t.headers|
    ensures forall j :: 0 <= j < |occ| ==> occ[j] == Occurrence(t.headers[j], t.name)
  {
    HeaderOccurrences(t.name, t.headers)
  }

  function HeaderOccurrences(name: string, headers: seq<string>): (occ: seq<Occurrence>)
    ensures |occ| == |headers|
    ensures forall j :: 0 <= j < |occ| ==> occ[j] == Occurrence(headers[j], name)
  {
    if headers == [] then []
    else HeaderOccurrences(name, headers[..|headers| - 1]) + [Occurrence(headers[|headers| - 1], name)]
  }

  /** Every occurrence of the tables, in the order the two `forEach` loops visit them. */
  function Occurrences(tables: seq<Table>): (r: seq<Occurrence>)
  {
    if tables == [] then []
    else Occurrences(tables[..|tables| - 1]) + TableOccurrences(tables[|tables| - 1])
  }

  /** Whether some table in `tables` is named `name` and has header `column`. */
  lemma {:induction false} OccurrenceOfTable(tables: seq<Table>, o: Occurrence)
    ensures o in Occurrences(tables) <==>
      exists i :: 0 <= i < |tables| && tables[i].name == o.file && o.column in tables[i].headers
  {
    if tables != [] {
      var pre := tables[..|tables| - 1];
      var t := tables[|tables| - 1];
      OccurrenceOfTable(pre, o);
      OccurrenceInTable(t, o);
      assert Occurrences(tables) == Occurrences(pre) + TableOccurrences(t);
      if o in Occurrences(tables) {
        if o in Occurrences(pre) {
          var i :| 0 <= i < |pre| && pre[i].name == o.file && o.column in pre[i].headers;
          assert tables[i] == pre[i];
        } else {
          assert tables[|tables| - 1].name == o.file && o.column in tables[|tables| - 1].headers;
        }
      }
      if exists i :: 0 <= i < |tables| && tables[i].name == o.file && o.column in tables[i].headers {
        var i :| 0 <= i < |tables| && tables[i].name == o.file && o.column in tables[i].headers;
        if i < |pre| {
          assert pre[i] == tables[i];
        }
      }
    }
  }

  lemma OccurrenceInTable(t: Table, o: Occurrence)
    ensures o in TableOccurrences(t) <==> t.name == o.file && o.column in t.headers
  {
    var occ := TableOccurrences(t);
    if o in occ {
      var j :| 0 <= j < |occ| && occ[j] == o;
      assert t.headers[j] == o.column;
    }
    if t.name == o.file && o.column in t.headers {
      var j :| 0 <= j < |t.headers| && t.headers[j] == o.column;
      assert occ[j] == o;
    }
  }

  /** No name twice. */
  predicate Distinct(names: seq<string>)
  {
    forall i, j :: 0 <= i < j < |names| ==> names[i] != names[j]
  }

  /** `Array.from(colMap[c])`: the names holding `c`, each once, in the order first added. */
  function Holders(occ: seq<Occurrence>, c: string): (r: seq<string>)
  {
    if occ == [] then []
    else
      var pre := Holders(occ[..|occ| - 1], c);
      var o := occ[|occ| - 1];
      if o.column == c && o.file !in pre then pre + [o.file] else pre
  }

  /** The holders of `c` are distinct, and are exactly the names met with `c`. */
  lemma {:induction false} HoldersSpec(occ: seq<Occurrence>, c: string)
    ensures Distinct(Holders(occ, c))
    ensures forall n :: n in Holders(occ, c) <==> Occurrence(c, n) in occ
  {
    if occ != [] {
      var pre := occ[..|occ| - 1];
      HoldersSpec(pre, c);
      assert occ == pre + [occ[|occ| - 1]];
    }
  }

  /** A header never met has no holders. */
  lemma {:induction false} HoldersOfUnseen(occ: seq<Occurrence>, c: string)
    requires forall k :: 0 <= k < |occ| ==> occ[k].column != c
    ensures Holders(occ, c) == []
  {
    if occ != [] {
      HoldersOfUnseen(occ[..|occ| - 1], c);
    }
  }

  /** `Object.keys(colMap)` before sorting: each header once, in the order first seen. */
  function Columns(occ: seq<Occurrence>): (r: seq<string>)
  {
    if occ == [] then []
    else
      var pre := Columns(occ[..|occ| - 1]);
      var o := occ[|occ| - 1];
      if o.column in pre then pre else pre + [o.column]
  }

  /** The keys are distinct, and are exactly the headers met. */
  lemma {:induction false} ColumnsSpec(occ: seq<Occurrence>)
    ensures Distinct(Columns(occ))
    ensures forall c :: c in Columns(occ) <==> exists k :: 0 <= k < |occ| && occ[k].column == c
  {
    if occ != [] {
      var pre := occ[..|occ| - 1];
      ColumnsSpec(pre);
      assert forall k :: 0 <= k < |pre| ==> pre[k] == occ[k];
    }
  }

  /** `colMap` as the list of its entries, in key order. */
  predicate IsColumnMap(colMap: seq<Relation>, occ: seq<Occurrence>)
  {
    && |colMap| == |Columns(occ)|
    && forall k :: 0 <= k < |colMap| ==> colMap[k] == Relation(Columns(occ)[k], Holders(occ, Columns(occ)[k]))
  }

  // ---------- the handler ----------

  /** Adding one occurrence: a new key gets `new Set([name])`, an old one `add(name)`. */
  method AddOccurrence(colMap: seq<Relation>, ghost occ: seq<Occurrence>, o: Occurrence)
    returns (next: seq<Relation>)
    requires IsColumnMap(colMap, occ)
    ensures IsColumnMap(next, occ + [o])
  {
    var occ' := occ + [o];
    assert occ'[..|occ'| - 1] == occ;
    var k := 0;
    while k < |colMap| && colMap[k].column != o.column
      invariant 0 <= k <= |colMap|
      invariant forall m :: 0 <= m < k ==> colMap[m].column != o.column
    {
      k := k + 1;
    }
    ColumnsSpec(occ);
    if k == |colMap| {
      assert o.column !in Columns(occ);
      next := colMap + [Relation(o.column, [o.file])];
      assert Columns(occ') == Columns(occ) + [o.column];
      forall m | 0 <= m < |next|
        ensures next[m] == Relation(Columns(occ')[m], Holders(occ', Columns(occ')[m]))
      {
        if m < |colMap| {
          assert Columns(occ')[m] == Columns(occ)[m] != o.column;
        } else {
          HoldersOfUnseen(occ, o.column);
        }
      }
    } else {
      var files := colMap[k].files;
      if o.file !in files {
        files := files + [o.file];
      }
      next := colMap[k := Relation(o.column, files)];
      assert Columns(occ') == Columns(occ);
      forall m | 0 <= m < |next|
        ensures next[m] == Relation(Columns(occ')[m], Holders(occ', Columns(occ')[m]))
      {
        if m != k {
          assert Columns(occ)[m] != o.column;
        }
      }
    }
  }

  /** Places `r` in a sorted list of relations, after every smaller column. */
  method InsertSorted(sorted: seq<Relation>, r: Relation) returns (out: seq<Relation>)
    requires SortedByColumn(sorted)
    requires forall x :: x in sorted ==> x.column != r.column
    ensures SortedByColumn(out)
    ensures forall x :: x in out <==> x in sorted || x == r
  {
    var i := 0;
    while i < |sorted| && StrLess(sorted[i].column, r.column)
      invariant 0 <= i <= |sorted|
      invariant forall m :: 0 <= m < i ==> StrLess(sorted[m].column, r.column)
    {
      i := i + 1;
    }
    out := sorted[..i] + [r] + sorted[i..];
    if i < |sorted| {
      StrLessTotal(sorted[i].column, r.column);
    }
    forall a, b | 0 <= a < b < |out|
      ensures StrLess(out[a].column, out[b].column)
    {
      if a < i && b == i {
      } else if a < i && b > i {
        assert out[b] == sorted[b - 1];
        StrLessTotal(sorted[i].column, r.column);
        if b - 1 > i {
          StrLessTransitive(r.column, sorted[i].column, sorted[b - 1].column);
        }
        StrLessTransitive(out[a].column, r.column, out[b].column);
      } else if a == i {
        assert out[b] == sorted[b - 1];
        if b - 1 > i {
          StrLessTransitive(r.column, sorted[i].column, sorted[b - 1].column);
        }
      } else if a > i {
        assert out[a] == sorted[a - 1] && out[b] == sorted[b - 1];
      }
    }
    assert sorted == sorted[..i] + sorted[i..];
  }

  /** Relations need at least this many distinct table names. */
  const MinFiles: nat := 2

  /** The two `forEach` loops filling `colMap`. */
  method BuildColumnMap(tables: seq<Table>) returns (colMap: seq<Relation>)
    ensures IsColumnMap(colMap, Occurrences(tables))
  {
    colMap := [];
    ghost var occ: seq<Occurrence> := [];
    var i := 0;
    while i < |tables|
      invariant 0 <= i <= |tables|
      invariant occ == Occurrences(tables[..i])
      invariant IsColumnMap(colMap, occ)
    {
      var t := tables[i];
      var j := 0;
      while j < |t.headers|
        invariant 0 <= j <= |t.headers|
        invariant occ == Occurrences(tables[..i]) + HeaderOccurrences(t.name, t.headers[..j])
        invariant IsColumnMap(colMap, occ)
      {
        colMap := AddOccurrence(colMap, occ, Occurrence(t.headers[j], t.name));
        HeaderStep(t.name, t.headers, j);
        occ := occ + [Occurrence(t.headers[j], t.name)];
        j := j + 1;
      }
      TableStep(tables, i);
      i := i + 1;
    }
    assert tables[..i] == tables;
  }

  lemma HeaderStep(name: string, headers: seq<string>, j: nat)
    requires j < |headers|
    ensures HeaderOccurrences(name, headers[..j + 1])
            == HeaderOccurrences(name, headers[..j]) + [Occurrence(headers[j], name)]
  {
    assert headers[..j + 1][..j] == headers[..j];
  }

  lemma TableStep(tables: seq<Table>, i: nat)
    requires i < |tables|
    ensures Occurrences(tables[..i + 1])
            == Occurrences(tables[..i]) + HeaderOccurrences(tables[i].name, tables[i].headers[..|tables[i].headers|])
  {
    assert tables[..i + 1][..i] == tables[..i];
    assert tables[i].headers[..|tables[i].headers|] == tables[i].headers;
  }

  /** `.filter((g) => g.files.length >= 2).sort(...)` over the entries of `colMap`. */
  method UsefulSorted(colMap: seq<Relation>, ghost occ: seq<Occurrence>) returns (rels: seq<Relation>)
    requires IsColumnMap(colMap, occ)
    ensures SortedByColumn(rels)
    ensures forall r :: r in rels <==> r in colMap && |r.files| >= MinFiles
    ensures (forall k :: 0 <= k < |colMap| ==> |colMap[k].files| < MinFiles) ==> rels == []
  {
    rels := [];
    var k := 0;
    while k < |colMap|
      invariant 0 <= k <= |colMap|
      invariant SortedByColumn(rels)
      invariant forall r :: r in rels <==> r in colMap[..k] && |r.files| >= MinFiles
      invariant (forall m :: 0 <= m < k ==> |colMap[m].files| < MinFiles) ==> rels == []
    {
      if |colMap[k].files| >= MinFiles {
        forall x | x in rels
          ensures x.column != colMap[k].column
        {
          var m :| 0 <= m < k && colMap[..k][m] == x;
          ColumnsSpec(occ);
        }
        rels := InsertSorted(rels, colMap[k]);
      }
      assert colMap[..k + 1] == colMap[..k] + [colMap[k]];
      k := k + 1;
    }
    assert colMap[..k] == colMap;
  }

  /** Some table named `name` has header `column`. */
  predicate HeldBy(tables: seq<Table>, column: string, name: string)
  {
    exists i :: 0 <= i < |tables| && tables[i].name == name && column in tables[i].headers
  }

  /** Every name holding a column holds it in some table, and no name is listed twice. */
  lemma HoldersAreHolders(tables: seq<Table>, c: string)
    ensures Distinct(Holders(Occurrences(tables), c))
    ensures forall n :: n in Holders(Occurrences(tables), c) <==> HeldBy(tables, c, n)
  {
    HoldersSpec(Occurrences(tables), c);
    forall n
      ensures Occurrence(c, n) in Occurrences(tables) <==> HeldBy(tables, c, n)
    {
      OccurrenceOfTable(tables, Occurrence(c, n));
    }
  }

  /** When every occurrence is of one name, a column has at most that one holder. */
  lemma {:induction false} OneNameOneHolder(occ: seq<Occurrence>, c: string, name: string)
    requires forall k :: 0 <= k < |occ| ==> occ[k].file == name
    ensures Holders(occ, c) == [] || Holders(occ, c) == [name]
  {
    if occ != [] {
      var pre := occ[..|occ| - 1];
      assert forall k :: 0 <= k < |pre| ==> pre[k] == occ[k];
      OneNameOneHolder(pre, c, name);
      assert occ[|occ| - 1].file == name;
      if Holders(pre, c) == [name] {
        assert name in Holders(pre, c);
      }
    }
  }

  /** Every occurrence of tables that all share one name is of that name. */
  lemma OccurrencesOfOneName(tables: seq<Table>, name: string)
    requires forall i :: 0 <= i < |tables| ==> tables[i].name == name
    ensures forall k :: 0 <= k < |Occurrences(tables)| ==> Occurrences(tables)[k].file == name
  {
    var occ := Occurrences(tables);
    forall k | 0 <= k < |occ|
      ensures occ[k].file == name
    {
      assert occ[k] in occ;
      OccurrenceOfTable(tables, occ[k]);
    }
  }

  /**
    `handleAutoRelate` over `[...filesData, ...previewJson]`: exactly the headers
    held by at least two distinct names, each with those names in the order
    first met, sorted by column with no column twice.
   */
  method AutoRelate(tables: seq<Table>) returns (rels: seq<Relation>)
    ensures SortedByColumn(rels)
    ensures forall r :: r in rels <==>
      && r.column in Columns(Occurrences(tables))
      && r.files == Holders(Occurrences(tables), r.column)
      && |r.files| >= MinFiles
    ensures forall r :: r in rels ==>
      && |r.files| >= MinFiles
      && Distinct(r.files)
      && forall n :: n in r.files ==> HeldBy(tables, r.column, n)
    ensures forall c, n1, n2 :: HeldBy(tables, c, n1) && HeldBy(tables, c, n2) && n1 != n2 ==>
      exists r :: r in rels && r.column == c
    ensures (forall i, j :: 0 <= i < |tables| && 0 <= j < |tables| ==> tables[i].name == tables[j].name) ==>
      rels == []
  {
    ghost var occ := Occurrences(tables);
    var colMap := BuildColumnMap(tables);
    rels := UsefulSorted(colMap, occ);
    forall r
      ensures r in rels <==> r.column in Columns(occ) && r.files == Holders(occ, r.column) && |r.files| >= MinFiles
    {
      if r.column in Columns(occ) && r.files == Holders(occ, r.column) {
        var m :| 0 <= m < |Columns(occ)| && Columns(occ)[m] == r.column;
        assert colMap[m] == r;
      }
    }
    forall r | r in rels
      ensures Distinct(r.files) && forall n :: n in r.files ==> HeldBy(tables, r.column, n)
    {
      HoldersAreHolders(tables, r.column);
    }
    forall c, n1, n2 | HeldBy(tables, c, n1) && HeldBy(tables, c, n2) && n1 != n2
      ensures exists r :: r in rels && r.column == c
    {
      HoldersAreHolders(tables, c);
      HoldersSpec(occ, c);
      var h := Holders(occ, c);
      assert n1 in h && n2 in h;
      var k1 :| 0 <= k1 < |h| && h[k1] == n1;
      var k2 :| 0 <= k2 < |h| && h[k2] == n2;
      assert |h| >= 2;
      ColumnsSpec(occ);
      assert Occurrence(c, n1) in occ;
      var k :| 0 <= k < |occ| && occ[k] == Occurrence(c, n1);
      assert Relation(c, h) in rels;
    }
    if tables != [] && forall i, j :: 0 <= i < |tables| && 0 <= j < |tables| ==> tables[i].name == tables[j].name {
      var name := tables[0].name;
      OccurrencesOfOneName(tables, name);
      forall k | 0 <= k < |colMap|
        ensures |colMap[k].files| < MinFiles
      {
        OneNameOneHolder(occ, Columns(occ)[k], name);
      }
    }
  }

  // ---------- the handler as written ----------

  /** Names `Object.prototype` gives every plain object, such as `colMap`. */
  const PrototypeKeys: seq<string> := [
    "constructor", "__proto__", "toString", "toLocaleString", "valueOf", "hasOwnProperty",
    "isPrototypeOf", "propertyIsEnumerable", "__defineGetter__", "__defineSetter__",
    "__lookupGetter__", "__lookupSetter__"]

  /** Some table has a header named like an `Object.prototype` member. */
  predicate HasPrototypeHeader(tables: seq<Table>)
  {
    exists i, j :: 0 <= i < |tables| && 0 <= j < |tables[i].headers| && tables[i].headers[j] in PrototypeKeys
  }

  /**
    The handler as written, with `colMap` a plain object: for a header named
    like an `Object.prototype` property `colMap[key]` is already truthy (the
    inherited member), `colMap[key].add` is undefined and the call throws a
    TypeError, so `setRelations` is never reached (None).
   */
  method AutoRelateAsWritten(tables: seq<Table>) returns (outcome: Option<seq<Relation>>)
    ensures outcome.None? <==> HasPrototypeHeader(tables)
    ensures outcome.Some? ==>
              && SortedByColumn(outcome.value)
              && forall r :: r in outcome.value <==>
                   && r.column in Columns(Occurrences(tables))
                   && r.files == Holders(Occurrences(tables), r.column)
                   && |r.files| >= MinFiles
  {
    var i := 0;
    while i < |tables|
      invariant 0 <= i <= |tables|
      invariant forall i', j :: 0 <= i' < i && 0 <= j < |tables[i'].headers| ==> tables[i'].headers[j] !in PrototypeKeys
    {
      var j := 0;
      while j < |tables[i].headers|
        invariant 0 <= j <= |tables[i].headers|
        invariant forall j' :: 0 <= j' < j ==> tables[i].headers[j'] !in PrototypeKeys
      {
        if tables[i].headers[j] in PrototypeKeys {
          return None;
        }
        j := j + 1;
      }
      i := i + 1;
    }
    var rels := AutoRelate(tables);
    outcome := Some(rels);
  }

  /** Two tables sharing the header "constructor": the handler as written throws, the corrected one relates them. */
  method ConstructorHeader() returns (asWritten: Option<seq<Relation>>, corrected: seq<Relation>)
    ensures asWritten == None
    ensures Relation("constructor", ["a.csv", "b.csv"]) in corrected
  {
    var tables := [Table("a.csv", ["constructor"], []), Table("b.csv", ["constructor"], [])];
    assert tables[0].headers[0] in PrototypeKeys;
    asWritten := AutoRelateAsWritten(tables);
    corrected := AutoRelate(tables);
    SharedHeaderHolders(tables[0], tables[1], "constructor");
    var occ := Occurrences(tables);
    assert "constructor" in Columns(occ) && Holders(occ, "constructor") == ["a.csv", "b.csv"];
  }

  lemma TwoTableOccurrences(t0: Table, t1: Table)
    ensures Occurrences([t0, t1]) == TableOccurrences(t0) + TableOccurrences(t1)
  {
    assert [t0, t1][..1] == [t0];
    assert [t0][..0] == [];
    assert Occurrences([t0]) == [] + TableOccurrences(t0) == TableOccurrences(t0);
  }

  lemma SingleHeaderOccurrences(t: Table, c: string)
    requires t.headers == [c]
    ensures TableOccurrences(t) == [Occurrence(c, t.name)]
  {
    var occ := TableOccurrences(t);
    assert |occ| == 1 && occ[0] == Occurrence(c, t.name);
  }

  lemma TwoHolders(a: Occurrence, b: Occurrence, c: string)
    requires a.column == c && b.column == c && a.file != b.file
    ensures Holders([a, b], c) == [a.file, b.file]
    ensures c in Columns([a, b])
  {
    assert [a, b][..1] == [a];
    assert [a][..0] == [];
    assert Holders([a], c) == [a.file];
    assert Columns([a]) == [c];
  }

  /** Two differently named tables whose only header is `c` both hold `c`. */
  lemma SharedHeaderHolders(t0: Table, t1: Table, c: string)
    requires t0.headers == [c] && t1.headers == [c] && t0.name != t1.name
    ensures Holders(Occurrences([t0, t1]), c) == [t0.name, t1.name]
    ensures c in Columns(Occurrences([t0, t1]))
  {
    TwoTableOccurrences(t0, t1);
    SingleHeaderOccurrences(t0, c);
    SingleHeaderOccurrences(t1, c);
    assert Occurrences([t0, t1]) == [Occurrence(c, t0.name), Occurrence(c, t1.name)];
    TwoHolders(Occurrence(c, t0.name), Occurrence(c, t1.name), c);
  }
}

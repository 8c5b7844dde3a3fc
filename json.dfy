/**
  JSON to table (the JSON branch of the upload and the pasted-JSON preview):
  headers are `Object.keys(data[0] || {})`, and when the root is an array each
  element becomes the row `headers.map((h) => String(row?.[h] ?? ""))`. Parsing
  itself (`JSON.parse`) happens before: the input is its result, None when it
  threw.
 */
module JsonTable {
  import opened Wrappers
  import opened Text
  import opened Tables

  /** A value as `JSON.parse` returns it; object members in `Object.keys` order. */
  datatype Json =
    | JNull
    | JBool(b: bool)
    | JNum(n: int)
    | JStr(s: string)
    | JArr(items: seq<Json>)
    | JObj(members: seq<Member>)

  datatype Member = Member(key: string, value: Json)

  /** The own property `key` of an object's members. */
  function Lookup(members: seq<Member>, key: string): (r: Option<Json>)
    ensures r.Some? <==> exists i :: 0 <= i < |members| && members[i].key == key
  {
    if members == [] then None
    else if members[0].key == key then Some(members[0].value)
    else Lookup(members[1..], key)
  }

  /** The member names, in order. */
  function MemberKeys(members: seq<Member>): (keys: seq<string>)
    ensures |keys| == |members|
    ensures forall i :: 0 <= i < |members| ==> keys[i] == members[i].key
  {
    if members == [] then [] else [members[0].key] + MemberKeys(members[1..])
  }

  /** The property keys of an array or string of length `n`: "0", "1", ..., n - 1 in decimal. */
  function Indices(n: nat): (keys: seq<string>)
    ensures |keys| == n
    ensures forall i :: 0 <= i < n ==> keys[i] == NatToString(i)
  {
    if n == 0 then [] else Indices(n - 1) + [NatToString(n - 1)]
  }

  /** `Object.keys(v || {})`, with None standing for `undefined`. */
  function KeysOf(v: Option<Json>): (keys: seq<string>)
  {
    match v
    case Some(JObj(members)) => MemberKeys(members)
    case Some(JArr(items)) => Indices(|items|)
    case Some(JStr(s)) => Indices(|s|)
    case _ => []
  }

  /**
    `v[key]` for a value that is not null: own members of objects, the elements
    and `length` of arrays, the characters and `length` of strings.
   */
  function Property(v: Json, key: string): (r: Option<Json>)
  {
    match v
    case JObj(members) => Lookup(members, key)
    case JArr(items) => (
      match ParseIndex(key)
      case Some(i) => if i < |items| then Some(items[i]) else None
      case None => if key == "length" then Some(JNum(|items|)) else None)
    case JStr(s) => (
      match ParseIndex(key)
      case Some(i) => if i < |s| then Some(JStr([s[i]])) else None
      case None => if key == "length" then Some(JNum(|s|)) else None)
    case _ => None
  }

  /**
    `String(v)`; None when it throws a TypeError, which happens for an object
    with an own `toString` member (a JSON value is never callable).
   */
  function ToJsString(v: Json): (r: Option<string>)
    decreases v, if v.JArr? then |v.items| + 1 else 0
  {
    match v
    case JNull => Some("null")
    case JBool(b) => Some(if b then "true" else "false")
    case JNum(n) => Some(IntToString(n))
    case JStr(s) => Some(s)
    case JArr(items) => (
      match ItemStrings(v, 0)
      case Some(parts) => Some(Join(parts, ","))
      case None => None)
    case JObj(members) => if Lookup(members, "toString").Some? then None else Some("[object Object]")
  }

  /** The strings `Array.prototype.join` makes of the elements from `i` on: null gives "". */
  function ItemStrings(arr: Json, i: nat): (r: Option<seq<string>>)
    requires arr.JArr? && i <= |arr.items|
    ensures r.Some? ==> |r.value| == |arr.items| - i
    decreases arr, |arr.items| - i
  {
    if i == |arr.items| then Some([])
    else
      var head := if arr.items[i] == JNull then Some("") else ToJsString(arr.items[i]);
      match (head, ItemStrings(arr, i + 1))
      case (Some(h), Some(t)) => Some([h] + t)
      case _ => None
  }

  /** One cell: `String(row?.[h] ?? "")`. */
  function Cell(row: Json, h: string): (r: Option<string>)
  {
    match Property(row, h)
    case None => Some("")
    case Some(JNull) => Some("")
    case Some(v) => ToJsString(v)
  }

  /** One row: `headers.map((h) => String(row?.[h] ?? ""))`; None when a cell throws. */
  function RowCells(row: Json, headers: seq<string>): (r: Option<seq<string>>)
    ensures r.Some? <==> forall j :: 0 <= j < |headers| ==> Cell(row, headers[j]).Some?
    ensures r.Some? ==>
              && |r.value| == |headers|
              && forall j :: 0 <= j < |headers| ==> r.value[j] == Cell(row, headers[j]).value
  {
    if headers == [] then Some([])
    else
      match (Cell(row, headers[0]), RowCells(row, headers[1..]))
      case (Some(c), Some(rest)) => Some([c] + rest)
      case _ => None
  }

  /** Every element of the array as a row; None when some cell throws. */
  function ArrayRows(items: seq<Json>, headers: seq<string>): (r: Option<seq<seq<string>>>)
    ensures r.Some? <==> forall i :: 0 <= i < |items| ==> RowCells(items[i], headers).Some?
    ensures r.Some? ==>
              && |r.value| == |items|
              && forall i :: 0 <= i < |items| ==> r.value[i] == RowCells(items[i], headers).value
  {
    if items == [] then Some([])
    else
      match (RowCells(items[0], headers), ArrayRows(items[1..], headers))
      case (Some(c), Some(rest)) => Some([c] + rest)
      case _ => None
  }

  /**
    The body of the `try`: None when `JSON.parse` threw, when `data[0]` threw
    (a null root) or when stringifying a cell threw.
   */
  function Normalize(parsed: Option<Json>): (r: Option<Grid>)
  {
    match parsed
    case None => None
    case Some(JNull) => None
    case Some(data) =>
      var headers := KeysOf(Property(data, "0"));
      if data.JArr? then (
        match ArrayRows(data.items, headers)
        case Some(rows) => Some(Grid(headers, rows))
        case None => None)
      else Some(Grid(headers, []))
  }

  /** Maximum length of the text the file fallback keeps (`text.slice(0, 1000)`). */
  const FallbackLength: nat := 1000

  /** The JSON branch of the upload: the table, or one "Conteúdo" cell with the start of the text. */
  function JsonFileGrid(text: string, parsed: Option<Json>): (g: Grid)
  {
    match Normalize(parsed)
    case Some(g) => g
    case None => Notice(if |text| <= FallbackLength then text else text[..FallbackLength])
  }

  /** Name of the pasted table when it parses, and when it does not. */
  const PastedName: string := "JSON Colado"
  const InvalidName: string := "JSON Inválido"

  /** `handleJsonPreview`: the pasted text as a table, or the whole text in one "Conteúdo" cell. */
  function PastedJsonTable(jsonData: string, parsed: Option<Json>): (t: Table)
  {
    match Normalize(parsed)
    case Some(g) => Table(PastedName, g.headers, g.rows)
    case None => Table(InvalidName, [Content], [[jsonData]])
  }

  /**
    With an array root every element gives one row of exactly |headers| cells,
    a missing or null property giving ""; the headers are the keys of element 0.
   */
  lemma ArrayRootRows(items: seq<Json>)
    requires Normalize(Some(JArr(items))).Some?
    ensures var g := Normalize(Some(JArr(items))).value;
      && g.headers == (if items == [] then [] else KeysOf(Some(items[0])))
      && |g.rows| == |items|
      && (forall i :: 0 <= i < |items| ==> |g.rows[i]| == |g.headers|)
      && (forall i, j :: 0 <= i < |items| && 0 <= j < |g.headers| ==>
            (Property(items[i], g.headers[j]) in {None, Some(JNull)} ==> g.rows[i][j] == ""))
  {
    var g := Normalize(Some(JArr(items))).value;
    if items != [] {
      IndexRoundTrip(0);
      assert ParseIndex("0") == Some(0);
    }
  }

  /** With an object, string, number or boolean root there are no rows (and nothing throws). */
  lemma NonArrayRootHasNoRows(data: Json)
    requires !data.JArr? && data != JNull
    ensures Normalize(Some(data)).Some? && Normalize(Some(data)).value.rows == []
  {
  }

  /**
    A file whose `try` body throws (see `NormalizeFails`) yields the one-row
    "Conteúdo" fallback of its first 1000 characters.
   */
  lemma FileFailureFallback(text: string, parsed: Option<Json>)
    requires Normalize(parsed).None?
    ensures JsonFileGrid(text, parsed).headers == [Content]
    ensures |JsonFileGrid(text, parsed).rows| == 1
    ensures JsonFileGrid(text, parsed).rows[0] == [text[..if |text| <= 1000 then |text| else 1000]]
  {
    assert text[..|text|] == text;
  }

  /** Pasted text whose `try` body throws yields "JSON Inválido" holding the whole text. */
  lemma PastedFailureFallback(text: string, parsed: Option<Json>)
    requires Normalize(parsed).None?
    ensures PastedJsonTable(text, parsed) == Table(InvalidName, [Content], [[text]])
  {
  }

  /** No object anywhere inside `v` has an own `toString` member. */
  predicate NoOwnToString(v: Json)
  {
    match v
    case JArr(items) => forall i :: 0 <= i < |items| ==> NoOwnToString(items[i])
    case JObj(members) => Lookup(members, "toString").None?
    case _ => true
  }

  /** `String(v)` throws exactly when some object inside `v` has an own `toString` member. */
  lemma {:induction false} ToJsStringTotal(v: Json)
    ensures ToJsString(v).Some? <==> NoOwnToString(v)
    decreases v, if v.JArr? then |v.items| + 1 else 0
  {
    if v.JArr? {
      ItemStringsTotal(v, 0);
    }
  }

  lemma {:induction false} ItemStringsTotal(arr: Json, i: nat)
    requires arr.JArr? && i <= |arr.items|
    ensures ItemStrings(arr, i).Some? <==> forall k :: i <= k < |arr.items| ==> NoOwnToString(arr.items[k])
    decreases arr, |arr.items| - i
  {
    if i < |arr.items| {
      ToJsStringTotal(arr.items[i]);
      ItemStringsTotal(arr, i + 1);
    }
  }

  /** Element 0 of a non-empty array root is the property "0". */
  lemma FirstElement(items: seq<Json>)
    requires items != []
    ensures Property(JArr(items), "0") == Some(items[0])
  {
    IndexRoundTrip(0);
    assert NatToString(0) == "0";
  }

  /** A cell throws exactly when the property is present, not null, and holds an object with an own `toString`. */
  lemma CellThrows(row: Json, h: string)
    ensures Cell(row, h).None? <==>
      Property(row, h).Some? && Property(row, h).value != JNull && !NoOwnToString(Property(row, h).value)
  {
    if Property(row, h).Some? {
      ToJsStringTotal(Property(row, h).value);
    }
  }

  /**
    The `try` falls to the `catch` exactly when `JSON.parse` throws, when the
    root is null (`data[0]` throws), or when the root is an array and some cell
    under the keys of element 0 throws.
   */
  lemma NormalizeFails(parsed: Option<Json>)
    ensures Normalize(parsed).None? <==>
      || parsed == None
      || parsed == Some(JNull)
      || (parsed.value.JArr? &&
          var items := parsed.value.items;
          var headers := if items == [] then [] else KeysOf(Some(items[0]));
          exists i, j :: 0 <= i < |items| && 0 <= j < |headers| && Cell(items[i], headers[j]).None?)
  {
    if parsed.Some? && parsed.value.JArr? {
      var items := parsed.value.items;
      if items != [] {
        FirstElement(items);
      }
    }
  }

  /** A cell holding an object with an own `toString` sends the whole file to the fallback. */
  lemma ThrowingCellFallback()
    ensures JsonFileGrid("t", Some(JArr([JObj([Member("a", JObj([Member("toString", JNum(1))]))])]))) == Notice("t")
  {
    var inner := JObj([Member("toString", JNum(1))]);
    var row := JObj([Member("a", inner)]);
    FirstElement([row]);
    assert KeysOf(Some(row)) == ["a"];
    assert Cell(row, "a").None?;
    NormalizeFails(Some(JArr([row])));
  }

  /**
    An array of arrays: the headers are "0", ..., "n-1" for the length n of the
    first element, and cell j of an array row is its element j printed, or ""
    past its end or for null.
   */
  lemma ArrayOfArrays(items: seq<Json>, i: nat, j: nat)
    requires items != [] && items[0].JArr?
    requires Normalize(Some(JArr(items))).Some?
    requires i < |items| && items[i].JArr? && j < |items[0].items|
    ensures var g := Normalize(Some(JArr(items))).value;
      && g.headers == Indices(|items[0].items|)
      && Some(g.rows[i][j]) == (if j < |items[i].items| && items[i].items[j] != JNull
                                then ToJsString(items[i].items[j]) else Some(""))
  {
    FirstElement(items);
    var headers := Indices(|items[0].items|);
    assert KeysOf(Property(JArr(items), "0")) == headers;
    var rows := ArrayRows(items, headers);
    assert Normalize(Some(JArr(items))) == Some(Grid(headers, rows.value));
    GridCell(items, headers, i, j);
    ArrayCell(items[i], j);
  }

  /** A cell of the rows is the `Cell` of its element under its header. */
  lemma GridCell(items: seq<Json>, headers: seq<string>, i: nat, j: nat)
    requires ArrayRows(items, headers).Some? && i < |items| && j < |headers|
    ensures Some(ArrayRows(items, headers).value[i][j]) == Cell(items[i], headers[j])
  {
    var row := RowCells(items[i], headers);
    assert ArrayRows(items, headers).value[i] == row.value;
    assert row.value[j] == Cell(items[i], headers[j]).value;
  }

  /** The cell of an array element under the numeral of `j`: its element `j`, "" past the end or for null. */
  lemma ArrayCell(row: Json, j: nat)
    requires row.JArr?
    ensures Cell(row, NatToString(j)) == (if j < |row.items| && row.items[j] != JNull
                                          then ToJsString(row.items[j]) else Some(""))
  {
    IndexRoundTrip(j);
  }

  /** An object row: the cell under a header it has (not null) is that member printed. */
  lemma ObjectRowCell(items: seq<Json>, g: Grid, i: nat, j: nat)
    requires Normalize(Some(JArr(items))) == Some(g)
    requires i < |items| && items[i].JObj? && j < |g.headers|
    requires Lookup(items[i].members, g.headers[j]).Some? && Lookup(items[i].members, g.headers[j]).value != JNull
    ensures i < |g.rows| && j < |g.rows[i]|
    ensures Some(g.rows[i][j]) == ToJsString(Lookup(items[i].members, g.headers[j]).value)
  {
    ArrayRootGrid(items);
    GridCell(items, g.headers, i, j);
    var h := g.headers[j];
    assert Property(items[i], h) == Lookup(items[i].members, h);
  }

  /** An array root that normalises gives its element rows under the keys of element 0. */
  lemma ArrayRootGrid(items: seq<Json>)
    requires Normalize(Some(JArr(items))).Some?
    ensures var headers := KeysOf(Property(JArr(items), "0"));
      && ArrayRows(items, headers).Some?
      && Normalize(Some(JArr(items))) == Some(Grid(headers, ArrayRows(items, headers).value))
  {
  }

  /** The array `[{"x":1,"y":2},{"x":3}]` gives headers x, y and rows [1, 2], [3, ""]. */
  lemma ObjectsExample()
    ensures Normalize(Some(JArr([JObj([Member("x", JNum(1)), Member("y", JNum(2))]),
                                 JObj([Member("x", JNum(3))])])))
         == Some(Grid(["x", "y"], [["1", "2"], ["3", ""]]))
  {
    var items := [JObj([Member("x", JNum(1)), Member("y", JNum(2))]), JObj([Member("x", JNum(3))])];
    FirstElement(items);
    assert KeysOf(Some(items[0])) == ["x", "y"];
    assert IntToString(1) == "1" && IntToString(2) == "2" && IntToString(3) == "3";
    assert Cell(items[0], "x") == Some("1") && Cell(items[0], "y") == Some("2");
    assert Cell(items[1], "x") == Some("3") && Cell(items[1], "y") == Some("");
    RowOfTwo(items[0], "x", "y");
    RowOfTwo(items[1], "x", "y");
    RowsOfTwo(items[0], items[1], ["x", "y"]);
    assert items == [items[0], items[1]];
  }

  lemma RowOfTwo(row: Json, a: string, b: string)
    requires Cell(row, a).Some? && Cell(row, b).Some?
    ensures RowCells(row, [a, b]) == Some([Cell(row, a).value, Cell(row, b).value])
  {
    var r := RowCells(row, [a, b]);
    assert [a, b][0] == a && [a, b][1] == b;
    assert r.Some?;
    assert r.value[0] == Cell(row, a).value && r.value[1] == Cell(row, b).value;
    assert r.value == [Cell(row, a).value, Cell(row, b).value];
  }

  lemma RowsOfTwo(x: Json, y: Json, headers: seq<string>)
    requires RowCells(x, headers).Some? && RowCells(y, headers).Some?
    ensures ArrayRows([x, y], headers) == Some([RowCells(x, headers).value, RowCells(y, headers).value])
  {
    var r := ArrayRows([x, y], headers);
    assert [x, y][0] == x && [x, y][1] == y;
    assert r.Some?;
    assert r.value[0] == RowCells(x, headers).value && r.value[1] == RowCells(y, headers).value;
    assert r.value == [RowCells(x, headers).value, RowCells(y, headers).value];
  }
}

/** The extension helper and the upload gate of App.jsx. */
module Extension {
  import opened Text

  /** The suffixes the upload gate accepts. */
  const ValidExtensions: seq<string> := [".csv", ".txt", ".json", ".xlsx", ".pdf"]

  /** The last position before `n` that holds `c`: -1 when there is none. */
  function LastIndexBefore(s: string, c: char, n: nat): (i: int)
    requires n <= |s|
    ensures -1 <= i < n
    ensures i >= 0 ==> s[i] == c
    ensures forall k :: i < k < n ==> s[k] != c
  {
    if n == 0 then -1
    else if s[n - 1] == c then n - 1
    else LastIndexBefore(s, c, n - 1)
  }

  /** `String.prototype.lastIndexOf` for one character: -1 when absent. */
  function LastIndexOf(s: string, c: char): (i: int)
    ensures -1 <= i < |s|
    ensures i >= 0 ==> s[i] == c
    ensures forall k :: i < k < |s| ==> s[k] != c
  {
    LastIndexBefore(s, c, |s|)
  }

  /** `getExtension`: the lower-cased text after the last `.`, or "" without one. */
  function GetExtension(name: string): (r: string)
  {
    var i := LastIndexOf(name, '.');
    if i >= 0 then ToLower(name[i + 1..]) else ""
  }

  /** The extension is the lower-cased tail after a `.` that has no `.` in it; "" when there is no `.`. */
  lemma GetExtensionSpec(name: string)
    ensures '.' !in name ==> GetExtension(name) == ""
    ensures '.' in name ==>
      var r := GetExtension(name);
      && |r| < |name| && name[|name| - |r| - 1] == '.'
      && r == ToLower(name[|name| - |r|..])
      && '.' !in r
  {
    if '.' in name {
      DottedExtension(name);
    }
  }

  lemma DottedExtension(name: string)
    requires '.' in name
    ensures var r := GetExtension(name);
      && |r| < |name| && name[|name| - |r| - 1] == '.'
      && r == ToLower(name[|name| - |r|..])
      && '.' !in r
  {
    LastDotTail(name);
    var i := LastIndexOf(name, '.');
    var tail := name[i + 1..];
    assert GetExtension(name) == ToLower(tail);
    NoDotLowered(tail);
    assert name[|name| - |tail|..] == tail;
  }

  lemma LastDotTail(name: string)
    requires '.' in name
    ensures 0 <= LastIndexOf(name, '.') && '.' !in name[LastIndexOf(name, '.') + 1..]
  {
    var i := LastIndexOf(name, '.');
    var k :| 0 <= k < |name| && name[k] == '.';
    assert i >= k;
    var tail := name[i + 1..];
    forall j | 0 <= j < |tail| ensures tail[j] != '.' {
      assert tail[j] == name[i + 1 + j];
    }
  }

  lemma NoDotLowered(s: string)
    requires '.' !in s
    ensures '.' !in ToLower(s)
  {
    forall j | 0 <= j < |s|
      ensures ToLower(s)[j] != '.'
    {
      LowerCharDot(s[j]);
    }
  }

  predicate EndsWith(s: string, suffix: string) {
    |suffix| <= |s| && s[|s| - |suffix|..] == suffix
  }

  /** The upload gate: `validExtensions.some((ext) => f.name.toLowerCase().endsWith(ext))`. */
  predicate HasValidSuffix(name: string) {
    exists ext :: ext in ValidExtensions && EndsWith(ToLower(name), ext)
  }

  /** The parser the coordinator dispatches to. */
  datatype FileKind = Csv | Txt | Json | Xlsx | Pdf | Unknown

  function KindOf(ext: string): (r: FileKind) {
    if ext == "xlsx" then Xlsx
    else if ext == "pdf" then Pdf
    else if ext == "csv" then Csv
    else if ext == "json" then Json
    else if ext == "txt" then Txt
    else Unknown
  }

  lemma ToLowerSuffix(s: string, a: nat)
    requires a <= |s|
    ensures ToLower(s[a..]) == ToLower(s)[a..]
  {
  }

  /** The last `.` is at `d` when `d` holds one and nothing after it does. */
  lemma LastDotAt(name: string, d: nat)
    requires d < |name| && name[d] == '.'
    requires forall j :: d < j < |name| ==> name[j] != '.'
    ensures LastIndexOf(name, '.') == d
  {
  }

  lemma NoDotInLoweredTail(name: string, a: nat)
    requires a <= |name| && '.' !in ToLower(name)[a..]
    ensures forall j :: a <= j < |name| ==> name[j] != '.'
  {
    forall j | a <= j < |name|
      ensures name[j] != '.'
    {
      assert ToLower(name)[a..][j - a] == LowerChar(name[j]);
      LowerCharDot(name[j]);
    }
  }

  lemma DotBeforeSuffix(low: string, ext: string)
    requires |ext| + 1 <= |low| && '.' !in ext
    requires EndsWith(low, "." + ext)
    ensures low[|low| - |ext| - 1] == '.' && low[|low| - |ext|..] == ext
  {
    var d := |low| - |ext| - 1;
    assert low[d..] == "." + ext;
    assert low[d] == low[d..][0];
    assert low[d + 1..] == low[d..][1..];
  }

  /** In a name whose lower case ends in `.ext`, with no dot in ext, the last dot is the one before ext. */
  lemma LastDotOfSuffix(name: string, ext: string)
    requires |ext| + 1 <= |name| && '.' !in ext
    requires EndsWith(ToLower(name), "." + ext)
    ensures LastIndexOf(name, '.') == |name| - |ext| - 1
  {
    var d := |name| - |ext| - 1;
    DotBeforeSuffix(ToLower(name), ext);
    LowerCharDot(name[d]);
    NoDotInLoweredTail(name, d + 1);
    LastDotAt(name, d);
  }

  /** A name ending in `.ext` (any case, ext without a dot) has extension `ext` in lower case. */
  lemma ExtensionOfSuffix(name: string, ext: string)
    requires |ext| + 1 <= |name| && '.' !in ext
    requires EndsWith(ToLower(name), "." + ext)
    ensures GetExtension(name) == ToLower(ext)
  {
    var low := ToLower(name);
    var d := |name| - |ext| - 1;
    var tail := name[d + 1..];
    LastDotOfSuffix(name, ext);
    assert GetExtension(name) == ToLower(tail);
    DotBeforeSuffix(low, ext);
    ToLowerSuffix(name, d + 1);
    assert ToLower(tail) == ext;
    LowerIdempotent(tail);
  }

  lemma KnownExtensionListed(r: string)
    requires KindOf(r) != Unknown
    ensures "." + r in ValidExtensions
  {
    if r == "csv" { assert "." + r == ValidExtensions[0]; }
    else if r == "txt" { assert "." + r == ValidExtensions[1]; }
    else if r == "json" { assert "." + r == ValidExtensions[2]; }
    else if r == "xlsx" { assert "." + r == ValidExtensions[3]; }
    else { assert "." + r == ValidExtensions[4]; }
  }

  lemma ListedExtensionKnown(bare: string)
    requires "." + bare in ValidExtensions
    ensures '.' !in bare && ToLower(bare) == bare && KindOf(bare) != Unknown
  {
    var ext := "." + bare;
    assert bare == ext[1..];
    if ext == ValidExtensions[0] { assert bare == "csv"; }
    else if ext == ValidExtensions[1] { assert bare == "txt"; }
    else if ext == ValidExtensions[2] { assert bare == "json"; }
    else if ext == ValidExtensions[3] { assert bare == "xlsx"; }
    else { assert bare == "pdf"; }
  }

  /** An accepted name has one of the five known extensions. */
  lemma ValidSuffixHasKnownExtension(name: string)
    requires HasValidSuffix(name)
    ensures KindOf(GetExtension(name)) != Unknown
  {
    var ext :| ext in ValidExtensions && EndsWith(ToLower(name), ext);
    var bare := ext[1..];
    assert ext == "." + bare;
    ListedExtensionKnown(bare);
    ExtensionOfSuffix(name, bare);
  }

  /** The gate accepts a name whose extension is one of the five kinds. */
  lemma KnownExtensionPassesGate(name: string)
    requires KindOf(GetExtension(name)) != Unknown
    ensures HasValidSuffix(name)
  {
    var low := ToLower(name);
    var r := GetExtension(name);
    GetExtensionSpec(name);
    var d := |name| - |r| - 1;
    LowerCharDot(name[d]);
    assert low[d] == '.';
    ToLowerSuffix(name, d + 1);
    DotThenTail(low, d);
    assert low[d + 1..] == r;
    var ext := "." + r;
    KnownExtensionListed(r);
    assert ext in ValidExtensions && EndsWith(low, ext);
  }

  lemma DotThenTail(low: string, d: nat)
    requires d < |low| && low[d] == '.'
    ensures EndsWith(low, "." + low[d + 1..])
  {
    assert low[d..] == [low[d]] + low[d + 1..];
  }

  /**
    A name passes the upload gate exactly when `getExtension` yields one of the
    five known kinds, so the "Formato não processado" branch of the dispatch is
    unreachable for accepted files.
   */
  lemma GateMatchesDispatch(name: string)
    ensures HasValidSuffix(name) <==> KindOf(GetExtension(name)) != Unknown
  {
    if HasValidSuffix(name) {
      ValidSuffixHasKnownExtension(name);
    }
    if KindOf(GetExtension(name)) != Unknown {
      KnownExtensionPassesGate(name);
    }
  }
}

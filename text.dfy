/**
  String helpers with JavaScript's semantics: the `\s` character class (which is
  also the set `String.prototype.trim` strips), `trim`, ASCII `toLowerCase`,
  `filter(Boolean)` on strings, `Array.prototype.join` and decimal numerals.
 */
module Text {
  import opened Wrappers

  /** JavaScript's `\s`: WhiteSpace and LineTerminator code points. */
  predicate IsSpace(c: char) {
    || c == '\t' || c == '\n' || c == '\U{B}' || c == '\U{C}' || c == '\r' || c == ' '
    || c == '\U{A0}' || c == '\U{1680}' || ('\U{2000}' <= c <= '\U{200A}')
    || c == '\U{2028}' || c == '\U{2029}' || c == '\U{202F}' || c == '\U{205F}'
    || c == '\U{3000}' || c == '\U{FEFF}'
  }

  /** How many `\s` characters follow position `i` before the first other one. */
  function SpacesFrom(s: string, i: nat): (n: nat)
    requires i <= |s|
    ensures i + n <= |s|
    decreases |s| - i
  {
    if i < |s| && IsSpace(s[i]) then 1 + SpacesFrom(s, i + 1) else 0
  }

  /** How many `\s` characters come just before position `j`. */
  function SpacesBefore(s: string, j: nat): (n: nat)
    requires j <= |s|
    ensures n <= j
  {
    if j > 0 && IsSpace(s[j - 1]) then 1 + SpacesBefore(s, j - 1) else 0
  }

  lemma {:induction false} SpacesFromChars(s: string, i: nat)
    requires i <= |s|
    ensures forall k :: i <= k < i + SpacesFrom(s, i) ==> IsSpace(s[k])
    ensures i + SpacesFrom(s, i) < |s| ==> !IsSpace(s[i + SpacesFrom(s, i)])
    decreases |s| - i
  {
    if i < |s| && IsSpace(s[i]) {
      SpacesFromChars(s, i + 1);
    }
  }

  lemma {:induction false} SpacesBeforeChars(s: string, j: nat)
    requires j <= |s|
    ensures forall k :: j - SpacesBefore(s, j) <= k < j ==> IsSpace(s[k])
    ensures j - SpacesBefore(s, j) > 0 ==> !IsSpace(s[j - SpacesBefore(s, j) - 1])
  {
    if j > 0 && IsSpace(s[j - 1]) {
      SpacesBeforeChars(s, j - 1);
    }
  }

  /** `String.prototype.trim`: drops the leading and the trailing `\s` characters. */
  function Trim(s: string): (r: string)
    ensures |r| <= |s|
    ensures r == [] || (!IsSpace(r[0]) && !IsSpace(r[|r| - 1]))
  {
    var a := SpacesFrom(s, 0);
    if a == |s| then []
    else
      SpacesFromChars(s, 0);
      SpacesBeforeChars(s, |s|);
      s[a..|s| - SpacesBefore(s, |s|)]
  }

  /** A string with no `\s` at either end is left alone by `trim`, so `trim` is idempotent. */
  lemma TrimFixpoint(s: string)
    ensures Trim(s) == s <==> (s == [] || (!IsSpace(s[0]) && !IsSpace(s[|s| - 1])))
    ensures Trim(Trim(s)) == Trim(s)
  {
    TrimOfClean(s);
    TrimOfClean(Trim(s));
  }

  lemma TrimOfClean(s: string)
    ensures (s == [] || (!IsSpace(s[0]) && !IsSpace(s[|s| - 1]))) ==> Trim(s) == s
  {
    if s != [] && !IsSpace(s[0]) && !IsSpace(s[|s| - 1]) {
      assert SpacesFrom(s, 0) == 0;
      assert SpacesBefore(s, |s|) == 0;
      assert s[0..|s|] == s;
    }
  }

  /**
    `trim` keeps a contiguous middle part of `s` and what it drops on either
    side is `\s`; in particular it only removes characters.
   */
  lemma TrimKeepsMiddle(s: string)
    ensures var a := SpacesFrom(s, 0);
      && a + |Trim(s)| <= |s|
      && Trim(s) == s[a..a + |Trim(s)|]
      && (forall k :: 0 <= k < a ==> IsSpace(s[k]))
      && (forall k :: a + |Trim(s)| <= k < |s| ==> IsSpace(s[k]))
    ensures forall c :: c in Trim(s) ==> c in s
  {
    TrimSlice(s);
    var a := SpacesFrom(s, 0);
    var t := Trim(s);
    forall c | c in t ensures c in s {
      var k :| 0 <= k < |t| && t[k] == c;
      assert s[a + k] == c;
    }
  }

  lemma TrimSlice(s: string)
    ensures var a := SpacesFrom(s, 0);
      && a + |Trim(s)| <= |s|
      && Trim(s) == s[a..a + |Trim(s)|]
      && (forall k :: 0 <= k < a ==> IsSpace(s[k]))
      && (forall k :: a + |Trim(s)| <= k < |s| ==> IsSpace(s[k]))
  {
    SpacesFromChars(s, 0);
    SpacesBeforeChars(s, |s|);
  }

  /** ASCII `toLowerCase` of one character. */
  function LowerChar(c: char): (r: char) {
    if 'A' <= c <= 'Z' then (c as int - 'A' as int + 'a' as int) as char else c
  }

  /** `String.prototype.toLowerCase`, restricted to ASCII letters. */
  function ToLower(s: string): (r: string)
    ensures |r| == |s|
    ensures forall i :: 0 <= i < |s| ==> r[i] == LowerChar(s[i])
  {
    seq(|s|, i requires 0 <= i < |s| => LowerChar(s[i]))
  }

  /** Lowering never creates or removes a `.`. */
  lemma LowerCharDot(c: char)
    ensures LowerChar(c) == '.' <==> c == '.'
  {
  }

  /** Lowering twice changes nothing. */
  lemma LowerIdempotent(s: string)
    ensures ToLower(ToLower(s)) == ToLower(s)
  {
  }

  /** `filter(Boolean)` (equivalently `filter(l => l.length)`) on a list of strings. */
  function DropEmpty(ss: seq<string>): (r: seq<string>)
    ensures |r| <= |ss|
    ensures forall x :: x in r <==> x in ss && x != ""
  {
    if ss == [] then []
    else if ss[0] == "" then DropEmpty(ss[1..])
    else [ss[0]] + DropEmpty(ss[1..])
  }

  /** `filter(Boolean)` keeps one string as it is when it is non-empty and drops it otherwise. */
  lemma DropEmptySingle(x: string)
    ensures DropEmpty([x]) == if x == "" then [] else [x]
  {
    assert [x][1..] == [];
  }

  /** `filter(Boolean)` works piecewise, so it keeps the order and the repetitions of what it keeps. */
  lemma {:induction false} DropEmptyConcat(a: seq<string>, b: seq<string>)
    ensures DropEmpty(a + b) == DropEmpty(a) + DropEmpty(b)
  {
    if a == [] {
      assert a + b == b;
    } else {
      assert (a + b)[0] == a[0];
      assert (a + b)[1..] == a[1..] + b;
      DropEmptyConcat(a[1..], b);
    }
  }

  /** `Array.prototype.join(sep)` on strings. */
  function Join(ss: seq<string>, sep: string): (r: string)
  {
    if ss == [] then ""
    else if |ss| == 1 then ss[0]
    else ss[0] + sep + Join(ss[1..], sep)
  }

  /** Trims every string of a list (`.map((s) => s.trim())`). */
  function TrimAll(ss: seq<string>): (r: seq<string>)
    ensures |r| == |ss|
    ensures forall i :: 0 <= i < |ss| ==> r[i] == Trim(ss[i])
  {
    if ss == [] then [] else [Trim(ss[0])] + TrimAll(ss[1..])
  }

  predicate IsDigit(c: char) {
    '0' <= c <= '9'
  }

  function DigitChar(d: nat): (c: char)
    requires d < 10
    ensures IsDigit(c)
  {
    ('0' as int + d) as char
  }

  function DigitValue(c: char): (r: nat)
    requires IsDigit(c)
  {
    c as int - '0' as int
  }

  /** The decimal numeral JavaScript prints for a non-negative integer. */
  function NatToString(n: nat): (r: string)
    ensures |r| >= 1 && (forall i :: 0 <= i < |r| ==> IsDigit(r[i]))
    ensures r[0] == '0' ==> r == "0"
  {
    if n < 10 then [DigitChar(n)] else NatToString(n / 10) + [DigitChar(n % 10)]
  }

  /** `String(i)` for an integer `i` (magnitudes JavaScript prints without an exponent). */
  function IntToString(i: int): (r: string)
    ensures |r| >= 1
    ensures (r[0] == '-') == (i < 0)
  {
    if i < 0 then "-" + NatToString(-i) else NatToString(i)
  }

  /** The value of a string of decimal digits. */
  function DigitsValue(s: string): (r: nat)
    requires forall i :: 0 <= i < |s| ==> IsDigit(s[i])
  {
    if s == [] then 0 else DigitsValue(s[..|s| - 1]) * 10 + DigitValue(s[|s| - 1])
  }

  /**
    The array index a property key denotes: a canonical decimal numeral (no sign,
    no leading zero other than "0" itself), else None.
   */
  function ParseIndex(key: string): (r: Option<nat>)
  {
    if key != [] && (forall i :: 0 <= i < |key| ==> IsDigit(key[i])) && (key[0] != '0' || key == "0")
    then Some(DigitsValue(key))
    else None
  }

  /** Printing an index and reading it back gives the index: the two are inverse. */
  lemma {:induction false} IndexRoundTrip(n: nat)
    ensures ParseIndex(NatToString(n)) == Some(n)
  {
    var s := NatToString(n);
    if n >= 10 {
      IndexRoundTrip(n / 10);
      var init := NatToString(n / 10);
      assert s == init + [DigitChar(n % 10)];
      assert s[..|s| - 1] == init;
      assert s[0] == init[0];
      assert DigitsValue(s) == DigitsValue(init) * 10 + n % 10;
    } else {
      assert DigitsValue(s) == DigitsValue([]) * 10 + n;
    }
    assert DigitsValue(s) == n;
  }

  /** A key that reads as index `n` is exactly the numeral of `n`. */
  lemma {:induction false} IndexCanonical(key: string, n: nat)
    requires ParseIndex(key) == Some(n)
    ensures NatToString(n) == key
  {
    DigitsCanonical(key);
  }

  lemma {:induction false} DigitsCanonical(s: string)
    requires s != [] && forall i :: 0 <= i < |s| ==> IsDigit(s[i])
    requires s[0] != '0' || s == "0"
    ensures NatToString(DigitsValue(s)) == s
  {
    var init := s[..|s| - 1];
    var c := s[|s| - 1];
    var d := DigitValue(c);
    assert DigitChar(d) == c;
    if |s| > 1 {
      DigitsCanonical(init);
      LeadingDigitPositive(init);
      var n := DigitsValue(s);
      assert n == DigitsValue(init) * 10 + d;
      DivMod10(DigitsValue(init), d);
      assert NatToString(n) == NatToString(DigitsValue(init)) + [DigitChar(d)];
      assert s == init + [c];
    } else {
      assert DigitsValue(init) == 0;
      assert s == [c];
    }
  }

  lemma DivMod10(a: nat, d: nat)
    requires 1 <= a && d < 10
    ensures (a * 10 + d) / 10 == a && (a * 10 + d) % 10 == d && a * 10 + d >= 10
  {
  }

  lemma {:induction false} LeadingDigitPositive(s: string)
    requires s != [] && forall i :: 0 <= i < |s| ==> IsDigit(s[i])
    requires s[0] != '0'
    ensures DigitsValue(s) >= 1
  {
    if |s| > 1 {
      LeadingDigitPositive(s[..|s| - 1]);
    }
  }
}

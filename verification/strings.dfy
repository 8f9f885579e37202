/**
 * The string primitives the survey relies on, in the two flavours the code
 * mixes: JavaScript's `String.prototype.trim`/`toLowerCase`/`length` and
 * SQL's `TRIM(x)`/`LOWER(x)` as SQLite evaluates them.
 */
module Strings {

  /** The characters JavaScript's `trim` removes: WhiteSpace and LineTerminator. */
  predicate IsJsWhitespace(c: char) {
    c == ' ' || c == '\t' || c == '\n' || c == '\r' || c == '\U{B}' || c == '\U{C}'
    || c == '\U{A0}' || c == '\U{1680}' || ('\U{2000}' <= c <= '\U{200A}')
    || c == '\U{2028}' || c == '\U{2029}' || c == '\U{202F}' || c == '\U{205F}'
    || c == '\U{3000}' || c == '\U{FEFF}'
  }

  /** The only character SQL's one-argument `TRIM` removes. */
  predicate IsSqlSpace(c: char) {
    c == ' '
  }

  /** The number of leading characters of `s` satisfying `ws`. */
  function Lead(s: string, ws: char -> bool): (i: nat)
    ensures i <= |s| && forall k :: 0 <= k < i ==> ws(s[k])
    ensures i < |s| ==> !ws(s[i])
  {
    if s != [] && ws(s[0]) then 1 + Lead(s[1..], ws) else 0
  }

  /** The length of `s` once its trailing characters satisfying `ws` are cut off. */
  function Tail(s: string, ws: char -> bool): (j: nat)
    ensures j <= |s| && forall k :: j <= k < |s| ==> ws(s[k])
    ensures 0 < j ==> !ws(s[j - 1])
  {
    if s != [] && ws(s[|s| - 1]) then Tail(s[..|s| - 1], ws) else |s|
  }

  /** Whether `[i, j)` is what is left of `s` once both borders of `ws` characters are cut off. */
  ghost predicate Borders(s: string, ws: char -> bool, i: nat, j: nat) {
    && i <= j <= |s|
    && (forall k :: 0 <= k < i ==> ws(s[k]))
    && (forall k :: j <= k < |s| ==> ws(s[k]))
    && (i < j ==> !ws(s[i]) && !ws(s[j - 1]))
  }

  /**
   * Drops the leading and trailing characters satisfying `ws`: the result is
   * empty exactly when every character is whitespace, and otherwise starts
   * and ends with a non-whitespace character.
   */
  function Trim(s: string, ws: char -> bool): (r: string)
    ensures |r| <= |s|
    ensures r == [] <==> forall k :: 0 <= k < |s| ==> ws(s[k])
    ensures r != [] ==> !ws(r[0]) && !ws(r[|r| - 1])
  {
    var i, j := Lead(s, ws), Tail(s, ws);
    if i < j then s[i..j] else []
  }

  /** `s.trim()` in JavaScript. */
  function JsTrim(s: string): string {
    Trim(s, IsJsWhitespace)
  }

  /** `TRIM(s)` in SQL. */
  function SqlTrim(s: string): string {
    Trim(s, IsSqlSpace)
  }

  /** The trim is the one slice whose borders are whitespace and whose ends are not. */
  lemma TrimIsSlice(s: string, ws: char -> bool, i: nat, j: nat)
    requires Borders(s, ws, i, j)
    ensures Trim(s, ws) == s[i..j]
  {
    var i', j' := Lead(s, ws), Tail(s, ws);
    if i < j {
      assert i' == i;
      assert j' == j;
    } else {
      assert forall k :: 0 <= k < |s| ==> ws(s[k]);
    }
  }

  /** A string with no trimmable border is its own trim. */
  lemma TrimOfTrimmed(s: string, ws: char -> bool)
    requires s != [] ==> !ws(s[0]) && !ws(s[|s| - 1])
    ensures Trim(s, ws) == s
  {
    TrimIsSlice(s, ws, 0, |s|);
  }

  /** Trimming twice is trimming once. */
  lemma TrimIdempotent(s: string, ws: char -> bool)
    ensures Trim(Trim(s, ws), ws) == Trim(s, ws)
  {
    TrimOfTrimmed(Trim(s, ws), ws);
  }

  /** Two whitespace predicates that agree on every character of `s` trim it alike. */
  lemma TrimAgrees(s: string, ws1: char -> bool, ws2: char -> bool)
    requires forall k :: 0 <= k < |s| ==> ws1(s[k]) == ws2(s[k])
    ensures Trim(s, ws1) == Trim(s, ws2)
  {
    var i, j := Lead(s, ws1), Tail(s, ws1);
    if i < j {
      TrimIsSlice(s, ws2, i, j);
    } else {
      TrimIsSlice(s, ws2, 0, 0);
    }
  }

  // ---------------------------------------------------------------- lowercase

  /** ASCII capital letter. */
  predicate IsAsciiUpper(c: char) {
    'A' <= c <= 'Z'
  }

  /** Latin-1 capital letter (U+00C0 to U+00DE except the multiplication sign U+00D7). */
  predicate IsLatin1Upper(c: char) {
    '\U{C0}' <= c <= '\U{DE}' && c != '\U{D7}'
  }

  /** Per-character lowering of SQLite's `LOWER`: ASCII letters only. */
  function SqlLowerChar(c: char): (d: char)
    ensures IsAsciiUpper(c) ==> d as int == c as int + 32
    ensures !IsAsciiUpper(c) ==> d == c
    ensures !IsAsciiUpper(d)
  {
    if IsAsciiUpper(c) then (c as int + 32) as char else c
  }

  /** Per-character lowering of JavaScript's `toLowerCase` on ASCII and Latin-1. */
  function JsLowerChar(c: char): (d: char)
    ensures IsAsciiUpper(c) || IsLatin1Upper(c) ==> d as int == c as int + 32
    ensures !IsAsciiUpper(c) && !IsLatin1Upper(c) ==> d == c
    ensures !IsAsciiUpper(d) && !IsLatin1Upper(d)
  {
    if IsAsciiUpper(c) || IsLatin1Upper(c) then (c as int + 32) as char else c
  }

  /** `LOWER(s)` in SQLite. */
  function SqlLower(s: string): (r: string)
    ensures |r| == |s| && forall k :: 0 <= k < |s| ==> r[k] == SqlLowerChar(s[k])
  {
    seq(|s|, k requires 0 <= k < |s| => SqlLowerChar(s[k]))
  }

  /** `s.toLowerCase()` in JavaScript. */
  function JsLower(s: string): (r: string)
    ensures |r| == |s| && forall k :: 0 <= k < |s| ==> r[k] == JsLowerChar(s[k])
  {
    seq(|s|, k requires 0 <= k < |s| => JsLowerChar(s[k]))
  }

  /**
   * The grouping key of a stored answer: `LOWER(TRIM(text))` in SQL. It has
   * no space at either end and no ASCII capital, and is empty exactly when
   * the text is only spaces.
   */
  function SqlKey(text: string): (r: string)
    ensures |r| <= |text|
    ensures r == [] <==> forall k :: 0 <= k < |text| ==> IsSqlSpace(text[k])
    ensures r != [] ==> !IsSqlSpace(r[0]) && !IsSqlSpace(r[|r| - 1])
    ensures forall k :: 0 <= k < |r| ==> !IsAsciiUpper(r[k])
  {
    SqlLower(SqlTrim(text))
  }

  /**
   * The key the merge code builds from a selected text: `t.toLowerCase().trim()`.
   * It has no JavaScript whitespace at either end and no ASCII or Latin-1
   * capital.
   */
  function JsKey(text: string): (r: string)
    ensures |r| <= |text|
    ensures r != [] ==> !IsJsWhitespace(r[0]) && !IsJsWhitespace(r[|r| - 1])
    ensures forall k :: 0 <= k < |r| ==> !IsAsciiUpper(r[k]) && !IsLatin1Upper(r[k])
  {
    var low := JsLower(text);
    var i, j := Lead(low, IsJsWhitespace), Tail(low, IsJsWhitespace);
    assert i < j ==> JsTrim(low) == low[i..j];
    JsTrim(low)
  }

  /** The SQL grouping key is already its own key, so a group's `normalized` value selects that group. */
  lemma SqlKeyIdempotent(text: string)
    ensures SqlKey(SqlKey(text)) == SqlKey(text)
  {
    var l := SqlKey(text);
    TrimOfTrimmed(l, IsSqlSpace);
    assert SqlLower(l) == l;
  }

  /** Printable ASCII, where the JavaScript and SQL primitives coincide. */
  predicate IsPrintableAscii(c: char) {
    ' ' <= c <= '~'
  }

  /** Two strings with whitespace at the same places have the same borders. */
  lemma {:induction false} SameBorders(a: string, b: string, ws: char -> bool)
    requires |a| == |b| && forall k :: 0 <= k < |a| ==> ws(a[k]) == ws(b[k])
    ensures Lead(a, ws) == Lead(b, ws) && Tail(a, ws) == Tail(b, ws)
  {
    if a != [] {
      SameBorders(a[1..], b[1..], ws);
      SameBorders(a[..|a| - 1], b[..|b| - 1], ws);
    }
  }

  /** SQL's lowering keeps spaces and non-spaces apart, so it commutes with trimming. */
  lemma SqlLowerCommutesWithTrim(s: string)
    ensures SqlTrim(SqlLower(s)) == SqlLower(SqlTrim(s))
  {
    var low := SqlLower(s);
    SameBorders(low, s, IsSqlSpace);
    var i, j := Lead(s, IsSqlSpace), Tail(s, IsSqlSpace);
    if i < j {
      var mid := s[i..j];
      assert |SqlLower(mid)| == |low[i..j]|;
      forall k | 0 <= k < |mid| ensures SqlLower(mid)[k] == low[i..j][k] {
        assert mid[k] == s[i + k];
      }
      assert SqlLower(mid) == low[i..j];
    }
  }

  /** On printable ASCII text, the merge code's key and SQL's key agree. */
  lemma KeysAgreeOnAscii(text: string)
    requires forall k :: 0 <= k < |text| ==> IsPrintableAscii(text[k])
    ensures JsKey(text) == SqlKey(text)
  {
    var low := JsLower(text);
    assert low == SqlLower(text);
    assert forall k :: 0 <= k < |low| ==> IsPrintableAscii(low[k]);
    TrimAgrees(low, IsJsWhitespace, IsSqlSpace);
    SqlLowerCommutesWithTrim(text);
  }

  // ---------------------------------------------------------------- length

  /** `s.length` in JavaScript: UTF-16 code units, two for a character beyond U+FFFF. */
  function Utf16Length(s: string): (n: nat)
    ensures |s| <= n <= 2 * |s|
    ensures n == 0 <==> s == []
  {
    if s == [] then 0
    else (if s[0] as int > 0xFFFF then 2 else 1) + Utf16Length(s[1..])
  }
}

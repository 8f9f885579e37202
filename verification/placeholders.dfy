/**
 * The query helpers `all`, `run` and `runNoReturn` of db.js write their SQL
 * with PostgreSQL's numbered placeholders (`$1`, `$2`, ...) and, on SQLite,
 * rewrite every `$` followed by digits into SQLite's positional `?`.
 */
module Placeholders {
  import opened Wrappers

  /** `\d` in a JavaScript regular expression: an ASCII digit. */
  predicate IsDigit(c: char) {
    '0' <= c <= '9'
  }

  /** The length of the longest prefix of `s` made of digits. */
  function DigitRun(s: string): (n: nat)
    ensures n <= |s| && forall k :: 0 <= k < n ==> IsDigit(s[k])
    ensures n < |s| ==> !IsDigit(s[n])
  {
    if s != [] && IsDigit(s[0]) then 1 + DigitRun(s[1..]) else 0
  }

  /** Whether a match of `/\$\d+/` starts at the beginning of `s`. */
  predicate AtPlaceholder(s: string) {
    2 <= |s| && s[0] == '$' && IsDigit(s[1])
  }

  /** The length of the match: the `$` and every digit after it (the `+` is greedy). */
  function PlaceholderLength(s: string): (n: nat)
    requires AtPlaceholder(s)
    ensures 2 <= n <= |s|
    ensures forall k :: 1 <= k < n ==> IsDigit(s[k])
    ensures n < |s| ==> !IsDigit(s[n])
  {
    1 + DigitRun(s[1..])
  }

  /** `sql.replace(/\$\d+/g, '?')`: each maximal `$`-digits run becomes one `?`. */
  function Rewrite(sql: string): (r: string)
    ensures |r| <= |sql|
    ensures forall k :: 0 <= k < |r| ==> r[k] == '?' || r[k] in sql
    decreases |sql|
  {
    if sql == [] then []
    else if AtPlaceholder(sql) then "?" + Rewrite(sql[PlaceholderLength(sql)..])
    else [sql[0]] + Rewrite(sql[1..])
  }

  /** The decimal value of a string of digits. */
  function DigitsValue(d: string): nat
    requires forall k :: 0 <= k < |d| ==> IsDigit(d[k])
  {
    if d == [] then 0
    else
      assert IsDigit(d[|d| - 1]);
      10 * DigitsValue(d[..|d| - 1]) + (d[|d| - 1] as int - '0' as int)
  }

  /** The number `n` of the placeholder `$n` at the start of `s`. */
  function PlaceholderNumber(s: string): nat
    requires AtPlaceholder(s)
  {
    DigitsValue(s[1..PlaceholderLength(s)])
  }

  /** The numbers of the placeholders of `sql`, in order of appearance. */
  function Numbers(sql: string): seq<nat>
    decreases |sql|
  {
    if sql == [] then []
    else if AtPlaceholder(sql) then [PlaceholderNumber(sql)] + Numbers(sql[PlaceholderLength(sql)..])
    else Numbers(sql[1..])
  }

  /** Puts `prefix` in front of a bound text, or keeps the failure. */
  function Prepend(prefix: string, rest: Option<string>): Option<string> {
    match rest
    case Some(t) => Some(prefix + t)
    case None => None
  }

  /**
   * The statement PostgreSQL executes: `$n` stands for `params[n - 1]`; a
   * placeholder without a parameter is an error (`None`).
   */
  function BindNumbered(sql: string, params: seq<string>): Option<string>
    decreases |sql|
  {
    if sql == [] then Some([])
    else if AtPlaceholder(sql) then
      var n := PlaceholderNumber(sql);
      if 1 <= n <= |params| then Prepend(params[n - 1], BindNumbered(sql[PlaceholderLength(sql)..], params))
      else None
    else Prepend([sql[0]], BindNumbered(sql[1..], params))
  }

  /**
   * The statement SQLite executes: the `?` met after `next` others stands for
   * `params[next]`; a `?` without a parameter is an error (`None`).
   */
  function BindPositional(sql: string, params: seq<string>, next: nat): Option<string>
    decreases |sql|
  {
    if sql == [] then Some([])
    else if sql[0] == '?' then
      if next < |params| then Prepend(params[next], BindPositional(sql[1..], params, next + 1))
      else None
    else Prepend([sql[0]], BindPositional(sql[1..], params, next))
  }

  /** The first character of a rewrite: `?` for a placeholder, the input's first character otherwise. */
  lemma {:induction false} RewriteHead(sql: string)
    requires sql != []
    ensures Rewrite(sql) != []
    ensures Rewrite(sql)[0] == if AtPlaceholder(sql) then '?' else sql[0]
  {
  }

  /** No `$` followed by a digit survives the rewrite. */
  lemma {:induction false} NoPlaceholderLeft(sql: string)
    ensures forall i :: 0 <= i < |Rewrite(sql)| ==> !AtPlaceholder(Rewrite(sql)[i..])
    decreases |sql|
  {
    var r := Rewrite(sql);
    if sql == [] {
    } else if AtPlaceholder(sql) {
      var rest := sql[PlaceholderLength(sql)..];
      NoPlaceholderLeft(rest);
      forall i | 0 <= i < |r| ensures !AtPlaceholder(r[i..]) {
        if 0 < i {
          assert r[i..] == Rewrite(rest)[i - 1..];
        }
      }
    } else {
      NoPlaceholderLeft(sql[1..]);
      forall i | 0 <= i < |r| ensures !AtPlaceholder(r[i..]) {
        if 0 < i {
          assert r[i..] == Rewrite(sql[1..])[i - 1..];
        } else if sql[0] == '$' && 1 < |r| {
          // The `$` is kept only because no digit follows it in the input.
          RewriteHead(sql[1..]);
        }
      }
    }
  }

  /** SQL without a `$` is passed through unchanged. */
  lemma {:induction false} RewriteWithoutDollar(sql: string)
    requires '$' !in sql
    ensures Rewrite(sql) == sql
  {
    if sql != [] {
      RewriteWithoutDollar(sql[1..]);
    }
  }

  /**
   * The rewrite is sound when the placeholders appear numbered in order
   * (`$k+1`, `$k+2`, ... with `k` = `next`) and the SQL has no `?` of its own:
   * SQLite then binds every parameter where PostgreSQL would.
   */
  lemma {:induction false} RewriteBindsAlike(sql: string, params: seq<string>, next: nat)
    requires '?' !in sql
    requires forall i :: 0 <= i < |Numbers(sql)| ==> Numbers(sql)[i] == next + i + 1
    ensures BindPositional(Rewrite(sql), params, next) == BindNumbered(sql, params)
    decreases |sql|
  {
    if sql == [] {
    } else if AtPlaceholder(sql) {
      var rest := sql[PlaceholderLength(sql)..];
      var r := Rewrite(rest);
      assert ("?" + r)[0] == '?' && ("?" + r)[1..] == r;
      assert Numbers(sql)[0] == next + 1;
      assert forall i :: 0 <= i < |Numbers(rest)| ==> Numbers(rest)[i] == Numbers(sql)[i + 1];
      RewriteBindsAlike(rest, params, next + 1);
    } else {
      var r := Rewrite(sql[1..]);
      assert ([sql[0]] + r)[0] == sql[0] && ([sql[0]] + r)[1..] == r;
      RewriteBindsAlike(sql[1..], params, next);
    }
  }
}

/**
 * The CSV export of the admin (`GET /api/admin/export`): one line per
 * answer group of each question, its fields quoted and separated by `;`,
 * with the share of the group among the answers of its question.
 */
module Csv {
  import opened Wrappers
  import opened Placeholders
  import opened Coverage

  /** A row of the export query: one answer group (by normalised text) of one question. */
  datatype ExportRow = ExportRow(questionId: int, category: string, question: string, answer: string, count: nat)

  /** The first line: a byte-order mark, then the five quoted column titles. */
  const Header := "\U{FEFF}\"Cat\U{E9}gorie\";\"Question\";\"R\U{E9}ponse\";\"Nombre\";\"Pourcentage\"\n"

  // ---------------------------------------------------------------- quoting

  /** `String(s).replace(/"/g, '""')`: every double quote doubled. */
  function DoubleQuotes(s: string): (r: string)
    ensures |r| >= |s|
  {
    if s == [] then [] else (if s[0] == '"' then "\"\"" else [s[0]]) + DoubleQuotes(s[1..])
  }

  /** `escape`: the text between double quotes, its own double quotes doubled. */
  function Escape(s: string): (r: string)
    ensures |r| >= 2 && r[0] == '"' && r[|r| - 1] == '"'
  {
    "\"" + DoubleQuotes(s) + "\""
  }

  /** Puts `c` in front of the text read, or keeps the failure. */
  function Cons(c: char, read: Option<(string, string)>): Option<(string, string)> {
    match read
    case None => None
    case Some(p) => Some(([c] + p.0, p.1))
  }

  /**
   * How a CSV reader reads the inside of a quoted field: a doubled quote
   * stands for one quote and a single quote closes the field. Gives the
   * text and what follows the closing quote; `None` when it never closes.
   */
  function Unquote(s: string): Option<(string, string)>
    decreases |s|
  {
    if s == [] then None
    else if s[0] == '"' then
      if |s| >= 2 && s[1] == '"' then Cons('"', Unquote(s[2..]))
      else Some(([], s[1..]))
    else Cons(s[0], Unquote(s[1..]))
  }

  /** Reads the quoted field at the start of `s`. */
  function ReadField(s: string): Option<(string, string)> {
    if s != [] && s[0] == '"' then Unquote(s[1..]) else None
  }

  lemma {:induction false} UnquoteDoubled(x: string, closed: string)
    requires |closed| > 0 && closed[0] == '"' && (|closed| == 1 || closed[1] != '"')
    ensures Unquote(DoubleQuotes(x) + closed) == Some((x, closed[1..]))
    decreases |x|
  {
    if x != [] {
      var tail := DoubleQuotes(x[1..]) + closed;
      UnquoteDoubled(x[1..], closed);
      assert [x[0]] + x[1..] == x;
      if x[0] == '"' {
        assert DoubleQuotes(x) + closed == "\"\"" + tail;
        assert ("\"\"" + tail)[2..] == tail;
      } else {
        assert DoubleQuotes(x) + closed == [x[0]] + tail;
        assert ([x[0]] + tail)[1..] == tail;
      }
    } else {
      assert DoubleQuotes(x) + closed == closed;
    }
  }

  /**
   * An escaped field reads back as exactly the text it escapes, and the
   * reader stops right after it, whatever follows (but a quote).
   */
  lemma EscapeRoundTrip(x: string, rest: string)
    requires rest == [] || rest[0] != '"'
    ensures ReadField(Escape(x) + rest) == Some((x, rest))
  {
    var closed := "\"" + rest;
    assert Escape(x) + rest == "\"" + (DoubleQuotes(x) + closed);
    UnquoteDoubled(x, closed);
    assert closed[1..] == rest;
  }

  // ---------------------------------------------------------------- numbers

  function Digit(d: nat): (c: char)
    requires d < 10
    ensures IsDigit(c) && c as int - '0' as int == d
  {
    ('0' as int + d) as char
  }

  /** `${n}` for a whole number: its decimal digits. */
  function NatString(n: nat): (r: string)
    ensures r != [] && forall k :: 0 <= k < |r| ==> IsDigit(r[k])
  {
    if n < 10 then [Digit(n)] else NatString(n / 10) + [Digit(n % 10)]
  }

  /** The digits written for a number read back as that number. */
  lemma {:induction false} NatStringValue(n: nat)
    ensures DigitsValue(NatString(n)) == n
  {
    if n >= 10 {
      var s := NatString(n);
      NatStringValue(n / 10);
      assert s[..|s| - 1] == NatString(n / 10);
    }
  }

  // ---------------------------------------------------------------- totals

  /** The answers of question `id` among the rows. */
  function SumFor(rows: seq<ExportRow>, id: int): nat
    decreases |rows|
  {
    if rows == [] then 0
    else
      var last := rows[|rows| - 1];
      SumFor(rows[..|rows| - 1], id) + (if last.questionId == id then last.count else 0)
  }

  /** The answers of every question whose text is `text` among the rows. */
  function SumForText(rows: seq<ExportRow>, text: string): nat
    decreases |rows|
  {
    if rows == [] then 0
    else
      var last := rows[|rows| - 1];
      SumForText(rows[..|rows| - 1], text) + (if last.question == text then last.count else 0)
  }

  /** Adds `count` to the total kept under `key`, starting from nothing (`(totals[key] || 0) + count`). */
  function AddTo<K>(totals: map<K, nat>, key: K, count: nat): map<K, nat> {
    totals[key := (if key in totals then totals[key] else 0) + count]
  }

  /** The totals per question id: what `totalByQuestion` is meant to hold. */
  function TotalsById(rows: seq<ExportRow>): (m: map<int, nat>)
    ensures forall id :: id in m ==> m[id] == SumFor(rows, id)
    ensures forall id :: id !in m ==> SumFor(rows, id) == 0
    ensures forall i :: 0 <= i < |rows| ==> rows[i].questionId in m
    decreases |rows|
  {
    if rows == [] then map[]
    else
      var last := rows[|rows| - 1];
      var m := TotalsById(rows[..|rows| - 1]);
      assert forall i :: 0 <= i < |rows| - 1 ==> rows[..|rows| - 1][i] == rows[i];
      AddTo(m, last.questionId, last.count)
  }

  /**
   * `totalByQuestion` as written: the totals are keyed by the question's
   * text, each the sum of the counts of the rows with that text, so
   * questions with the same text share one total.
   */
  function TotalsByText(rows: seq<ExportRow>): (m: map<string, nat>)
    ensures forall t :: t in m ==> m[t] == SumForText(rows, t)
    ensures forall t :: t !in m ==> SumForText(rows, t) == 0
    ensures forall i :: 0 <= i < |rows| ==> rows[i].question in m
    decreases |rows|
  {
    if rows == [] then map[]
    else
      var last := rows[|rows| - 1];
      var m := TotalsByText(rows[..|rows| - 1]);
      assert forall i :: 0 <= i < |rows| - 1 ==> rows[..|rows| - 1][i] == rows[i];
      AddTo(m, last.question, last.count)
  }

  /** A row's count is part of its question's total. */
  lemma {:induction false} RowWithinSum(rows: seq<ExportRow>, i: nat)
    requires i < |rows|
    ensures rows[i].count <= SumFor(rows, rows[i].questionId)
    decreases |rows|
  {
    if i < |rows| - 1 {
      var init := rows[..|rows| - 1];
      assert init[i] == rows[i];
      RowWithinSum(init, i);
    }
  }

  /** The only row of its question holds all of that question's answers. */
  lemma {:induction false} LoneRowIsSum(rows: seq<ExportRow>, i: nat)
    requires i < |rows|
    requires forall j :: 0 <= j < |rows| && j != i ==> rows[j].questionId != rows[i].questionId
    ensures SumFor(rows, rows[i].questionId) == rows[i].count
    decreases |rows|
  {
    var id := rows[i].questionId;
    var init := rows[..|rows| - 1];
    if i < |rows| - 1 {
      assert init[i] == rows[i];
      LoneRowIsSum(init, i);
    } else {
      NoRowNoSum(init, id);
    }
  }

  lemma {:induction false} NoRowNoSum(rows: seq<ExportRow>, id: int)
    requires forall j :: 0 <= j < |rows| ==> rows[j].questionId != id
    ensures SumFor(rows, id) == 0
    decreases |rows|
  {
    if rows != [] {
      var init := rows[..|rows| - 1];
      assert forall j :: 0 <= j < |init| ==> init[j] == rows[j];
      NoRowNoSum(init, id);
    }
  }

  /** `rows.forEach(...)` building the totals, keyed by question id. */
  method Totals(rows: seq<ExportRow>) returns (totals: map<int, nat>)
    ensures totals == TotalsById(rows)
  {
    totals := map[];
    for i := 0 to |rows|
      invariant totals == TotalsById(rows[..i])
    {
      assert rows[..i + 1][..i] == rows[..i];
      totals := AddTo(totals, rows[i].questionId, rows[i].count);
    }
    assert rows[..|rows|] == rows;
  }

  // ---------------------------------------------------------------- lines

  /** The total found for a question, `undefined` (so a share of 0) when there is none. */
  function TotalOf(totals: map<int, nat>, id: int): nat {
    if id in totals then totals[id] else 0
  }

  /**
   * One line: `category;question;answer;count;pct%`, the three texts
   * escaped; it opens with the category's quote and ends with `%` and a
   * newline (`LineFields` reads its fields back).
   */
  function Line(r: ExportRow, total: nat): (line: string)
    ensures 2 <= |line| && line[0] == '"' && line[|line| - 2..] == "%\n"
  {
    Escape(r.category) + (";" + (Escape(r.question) + (";" + (Escape(r.answer) + (";"
      + (NatString(r.count) + (";" + (NatString(Percent(r.count, total)) + "%\n"))))))))
  }

  /**
   * The lines of the rows, in order, each with its question's total: empty
   * exactly when there are no rows, and otherwise ending with a newline.
   */
  function Lines(rows: seq<ExportRow>, totals: map<int, nat>): (r: string)
    ensures r == [] <==> rows == []
    ensures r != [] ==> r[|r| - 1] == '\n'
    decreases |rows|
  {
    if rows == [] then []
    else
      var last := rows[|rows| - 1];
      Lines(rows[..|rows| - 1], totals) + Line(last, TotalOf(totals, last.questionId))
  }

  lemma AppendAssoc(a: string, b: string, c: string)
    ensures (a + b) + c == a + (b + c)
  {
  }

  lemma LinesSnoc(rows: seq<ExportRow>, i: nat, totals: map<int, nat>)
    requires i < |rows|
    ensures Lines(rows[..i + 1], totals) == Lines(rows[..i], totals) + Line(rows[i], TotalOf(totals, rows[i].questionId))
  {
    assert rows[..i + 1][..i] == rows[..i];
  }

  /** The whole export: the header, then one line per row with the share of its question's answers. */
  method Export(rows: seq<ExportRow>) returns (csv: string)
    ensures csv == Header + Lines(rows, TotalsById(rows))
  {
    var totals := Totals(rows);
    csv := Header;
    assert Lines(rows[..0], totals) == [];
    assert csv == Header + [];
    for i := 0 to |rows|
      invariant csv == Header + Lines(rows[..i], totals)
    {
      var line := Line(rows[i], TotalOf(totals, rows[i].questionId));
      LinesSnoc(rows, i, totals);
      AppendAssoc(Header, Lines(rows[..i], totals), line);
      csv := csv + line;
    }
    assert rows[..|rows|] == rows;
  }

  /**
   * Every share in the export lies in 0..100, and a group alone in its
   * question is 100 percent of it.
   */
  lemma ExportShares(rows: seq<ExportRow>, i: nat)
    requires i < |rows|
    ensures Percent(rows[i].count, TotalOf(TotalsById(rows), rows[i].questionId)) <= 100
    ensures (forall j :: 0 <= j < |rows| && j != i ==> rows[j].questionId != rows[i].questionId) && rows[i].count > 0 ==>
              Percent(rows[i].count, TotalOf(TotalsById(rows), rows[i].questionId)) == 100
  {
    RowWithinSum(rows, i);
    if forall j :: 0 <= j < |rows| && j != i ==> rows[j].questionId != rows[i].questionId {
      LoneRowIsSum(rows, i);
      PercentOfWhole(rows[i].count);
    }
  }

  /** Two questions with the same text, one answer each: as written each gets 50 percent, not 100. */
  lemma TotalsByTextMixesQuestions()
    ensures var rows := [ExportRow(1, "C", "Q", "a", 1), ExportRow(2, "C", "Q", "b", 1)];
            && Percent(rows[0].count, TotalsByText(rows)[rows[0].question]) == 50
            && Percent(rows[0].count, TotalOf(TotalsById(rows), rows[0].questionId)) == 100
  {
    var rows := [ExportRow(1, "C", "Q", "a", 1), ExportRow(2, "C", "Q", "b", 1)];
    assert rows[..1] == [rows[0]];
    assert rows[..1][..0] == [];
    assert TotalsByText(rows)["Q"] == 2;
    ExportShares(rows, 0);
  }

  /** The quoted fields at the head of a line: category, question and answer, each followed by `;`. */
  function ReadThree(line: string): Option<(string, string, string)> {
    match ReadField(line)
    case None => None
    case Some(p1) =>
      if p1.1 == [] || p1.1[0] != ';' then None
      else
        match ReadField(p1.1[1..])
        case None => None
        case Some(p2) =>
          if p2.1 == [] || p2.1[0] != ';' then None
          else
            match ReadField(p2.1[1..])
            case None => None
            case Some(p3) => if p3.1 == [] || p3.1[0] != ';' then None else Some((p1.0, p2.0, p3.0))
  }

  /** A reader of the export gets back the category, question and answer of each line, whatever they contain. */
  lemma LineFields(r: ExportRow, total: nat)
    ensures ReadThree(Line(r, total)) == Some((r.category, r.question, r.answer))
  {
    var rest3 := ";" + (NatString(r.count) + (";" + (NatString(Percent(r.count, total)) + "%\n")));
    var rest2 := ";" + (Escape(r.answer) + rest3);
    var rest1 := ";" + (Escape(r.question) + rest2);
    EscapeRoundTrip(r.category, rest1);
    assert rest1[1..] == Escape(r.question) + rest2;
    EscapeRoundTrip(r.question, rest2);
    assert rest2[1..] == Escape(r.answer) + rest3;
    EscapeRoundTrip(r.answer, rest3);
  }
}

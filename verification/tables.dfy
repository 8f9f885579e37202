/**
 * The rows of the survey database and the row-level effect of the SQL
 * statements db.js issues: which rows a statement keeps, rewrites or adds.
 */
module Tables {
  import opened Wrappers
  import opened Strings

  datatype Category = Category(id: nat, name: string)
  datatype Question = Question(id: nat, categoryId: nat, text: string, active: bool, skipCount: nat, rejectedCount: nat)
  datatype Answer = Answer(id: nat, questionId: int, text: string, responseTime: Option<int>)
  datatype BannedWord = BannedWord(id: nat, word: string)
  datatype Correction = Correction(id: nat, wrong: string, correct: string)

  /** `get`: the first row of a query's result, or `null` when it returned none. */
  function First<T>(rows: seq<T>): (r: Option<T>)
    ensures r.None? <==> rows == []
    ensures r.Some? ==> r.value == rows[0]
  {
    if rows == [] then None else Some(rows[0])
  }

  /** Whether a question has this id: what `REFERENCES questions(id)` demands of an answer. */
  predicate HasQuestion(questions: seq<Question>, id: int) {
    exists q :: q in questions && q.id == id
  }

  // ---------------------------------------------------------------- answers of one question

  /** The texts of the answers to question `qid`, in table order (`WHERE question_id = qid`). */
  function TextsOf(answers: seq<Answer>, qid: int): (r: seq<string>)
    ensures |r| <= |answers|
  {
    if answers == [] then []
    else
      var last := answers[|answers| - 1];
      TextsOf(answers[..|answers| - 1], qid) + (if last.questionId == qid then [last.text] else [])
  }

  /** `SELECT COUNT(*) FROM answers WHERE question_id = qid`. */
  function CountFor(answers: seq<Answer>, qid: int): (n: nat)
    ensures n <= |answers|
  {
    |TextsOf(answers, qid)|
  }

  /** A question has no answers exactly when no row refers to it. */
  lemma {:induction false} CountZero(answers: seq<Answer>, qid: int)
    ensures CountFor(answers, qid) == 0 <==> forall i :: 0 <= i < |answers| ==> answers[i].questionId != qid
  {
    if answers != [] {
      var init := answers[..|answers| - 1];
      CountZero(init, qid);
      assert forall i :: 0 <= i < |init| ==> init[i] == answers[i];
    }
  }

  /** An inserted answer adds one to its own question's count and to no other. */
  lemma CountAfterInsert(answers: seq<Answer>, a: Answer, qid: int)
    ensures CountFor(answers + [a], qid) == CountFor(answers, qid) + (if a.questionId == qid then 1 else 0)
  {
    assert (answers + [a])[..|answers|] == answers;
  }

  // ---------------------------------------------------------------- mergeAnswers

  /** Whether the merge UPDATE rewrites `a`: it answers `qid` and its `LOWER(TRIM(text))` is among `keys`. */
  predicate Selected(a: Answer, qid: int, keys: seq<string>) {
    a.questionId == qid && SqlKey(a.text) in keys
  }

  /**
   * `UPDATE answers SET text = canonical WHERE question_id = qid AND
   * LOWER(TRIM(text)) IN keys`: every selected row gets the canonical text,
   * every other row is left as it was.
   */
  function MergeUpdate(answers: seq<Answer>, qid: int, keys: seq<string>, canonical: string): (r: seq<Answer>)
    ensures |r| == |answers|
    ensures forall i :: 0 <= i < |answers| ==>
              r[i] == if Selected(answers[i], qid, keys) then answers[i].(text := canonical) else answers[i]
  {
    seq(|answers|, i requires 0 <= i < |answers| =>
      if Selected(answers[i], qid, keys) then answers[i].(text := canonical) else answers[i])
  }

  /** The keys the merge code builds from the selected texts: `texts.map(t => t.toLowerCase().trim())`. */
  function JsKeys(texts: seq<string>): (r: seq<string>)
    ensures |r| == |texts| && forall i :: 0 <= i < |texts| ==> r[i] == JsKey(texts[i])
  {
    seq(|texts|, i requires 0 <= i < |texts| => JsKey(texts[i]))
  }

  /** The selected texts normalised the way SQL normalises the stored ones. */
  function SqlKeys(texts: seq<string>): (r: seq<string>)
    ensures |r| == |texts| && forall i :: 0 <= i < |texts| ==> r[i] == SqlKey(texts[i])
  {
    seq(|texts|, i requires 0 <= i < |texts| => SqlKey(texts[i]))
  }

  /**
   * `mergeAnswers` as written: JavaScript lowering of the selection against
   * SQLite's `LOWER`. Only answers of `qid` change, and only their text,
   * which becomes the canonical one.
   */
  function MergeAsWritten(answers: seq<Answer>, qid: int, texts: seq<string>, canonical: string): (r: seq<Answer>)
    ensures |r| == |answers|
    ensures forall i :: 0 <= i < |answers| ==>
              r[i].(text := answers[i].text) == answers[i] && (r[i] != answers[i] ==> answers[i].questionId == qid && r[i].text == canonical)
  {
    MergeUpdate(answers, qid, JsKeys(texts), canonical)
  }

  /**
   * `mergeAnswers` with the selection normalised exactly as the stored texts
   * are. Only answers of `qid` change, and only their text, which becomes
   * the canonical one.
   */
  function Merge(answers: seq<Answer>, qid: int, texts: seq<string>, canonical: string): (r: seq<Answer>)
    ensures |r| == |answers|
    ensures forall i :: 0 <= i < |answers| ==>
              r[i].(text := answers[i].text) == answers[i] && (r[i] != answers[i] ==> answers[i].questionId == qid && r[i].text == canonical)
  {
    MergeUpdate(answers, qid, SqlKeys(texts), canonical)
  }

  /**
   * Selecting a group by its `normalized` key (as the admin page does) rewrites
   * every answer of that group; answers of other questions never change.
   */
  lemma MergeRewritesGroup(answers: seq<Answer>, qid: int, texts: seq<string>, canonical: string, i: nat)
    requires i < |answers|
    ensures answers[i].questionId == qid && SqlKey(answers[i].text) in texts ==>
              Merge(answers, qid, texts, canonical)[i].text == canonical
    ensures answers[i].questionId != qid ==> Merge(answers, qid, texts, canonical)[i] == answers[i]
  {
    var k := SqlKey(answers[i].text);
    if answers[i].questionId == qid && k in texts {
      var j :| 0 <= j < |texts| && texts[j] == k;
      SqlKeyIdempotent(answers[i].text);
      assert SqlKeys(texts)[j] == k;
    }
  }

  /**
   * As written, a group whose key holds a non-ASCII capital is never merged on
   * SQLite: the stored answer "Été" has the key "Été" (SQLite lowers ASCII only),
   * the merge code lowers the selected "Été" to "été", and the row is left alone.
   */
  lemma MergeAsWrittenMissesGroup()
    ensures var answers := [Answer(1, 1, "\U{C9}t\U{E9}", None)];
            var texts := [SqlKey(answers[0].text)];
            && MergeAsWritten(answers, 1, texts, "ete")[0].text == "\U{C9}t\U{E9}"
            && Merge(answers, 1, texts, "ete")[0].text == "ete"
  {
    var s := "\U{C9}t\U{E9}";
    TrimOfTrimmed(s, IsSqlSpace);
    assert SqlLower(s) == s;
    var low := JsLower(s);
    assert low == "\U{E9}t\U{E9}";
    TrimOfTrimmed(low, IsJsWhitespace);
    assert JsKey(s) != s by { assert JsKey(s)[0] != s[0]; }
    assert JsKeys([s]) == [JsKey(s)];
    MergeRewritesGroup([Answer(1, 1, s, None)], 1, [s], "ete", 0);
  }

  /** On printable ASCII selections the merge as written and the corrected merge coincide. */
  lemma MergeAgreesOnAscii(answers: seq<Answer>, qid: int, texts: seq<string>, canonical: string)
    requires forall t, k :: t in texts && 0 <= k < |t| ==> IsPrintableAscii(t[k])
    ensures MergeAsWritten(answers, qid, texts, canonical) == Merge(answers, qid, texts, canonical)
  {
    forall i | 0 <= i < |texts| ensures JsKeys(texts)[i] == SqlKeys(texts)[i] {
      KeysAgreeOnAscii(texts[i]);
    }
    assert JsKeys(texts) == SqlKeys(texts);
  }

  /** A merge only rewrites texts: every question keeps its number of answers. */
  lemma {:induction false} MergeKeepsCounts(answers: seq<Answer>, qid: int, keys: seq<string>, canonical: string, q: int)
    ensures CountFor(MergeUpdate(answers, qid, keys, canonical), q) == CountFor(answers, q)
  {
    if answers != [] {
      var n := |answers|;
      var r := MergeUpdate(answers, qid, keys, canonical);
      assert r[..n - 1] == MergeUpdate(answers[..n - 1], qid, keys, canonical);
      MergeKeepsCounts(answers[..n - 1], qid, keys, canonical, q);
    }
  }

  /** Merging the same selection twice is merging it once. */
  lemma MergeIdempotent(answers: seq<Answer>, qid: int, keys: seq<string>, canonical: string)
    ensures MergeUpdate(MergeUpdate(answers, qid, keys, canonical), qid, keys, canonical)
            == MergeUpdate(answers, qid, keys, canonical)
  {
  }

  // ---------------------------------------------------------------- deleteQuestion

  /** `DELETE FROM answers WHERE question_id = id`: keeps the other answers, in order. */
  function AnswersNotOf(answers: seq<Answer>, id: int): (r: seq<Answer>)
    ensures forall a :: a in r <==> a in answers && a.questionId != id
  {
    if answers == [] then []
    else
      var last := answers[|answers| - 1];
      AnswersNotOf(answers[..|answers| - 1], id) + (if last.questionId != id then [last] else [])
  }

  /** `DELETE FROM questions WHERE id = id`: keeps the other questions, in order. */
  function QuestionsExcept(questions: seq<Question>, id: int): (r: seq<Question>)
    ensures forall q :: q in r <==> q in questions && q.id != id
  {
    if questions == [] then []
    else
      var last := questions[|questions| - 1];
      QuestionsExcept(questions[..|questions| - 1], id) + (if last.id != id then [last] else [])
  }

  /** After the cascade the deleted question has no answers and every other question keeps all of its own. */
  lemma {:induction false} DeleteKeepsOtherCounts(answers: seq<Answer>, id: int, q: int)
    ensures CountFor(AnswersNotOf(answers, id), q) == if q == id then 0 else CountFor(answers, q)
  {
    if answers != [] {
      var init, last := answers[..|answers| - 1], answers[|answers| - 1];
      var rest := AnswersNotOf(init, id);
      DeleteKeepsOtherCounts(init, id, q);
      assert CountFor(answers, q) == CountFor(init, q) + (if last.questionId == q then 1 else 0) by {
        SplitLast(answers);
        CountAfterInsert(init, last, q);
      }
      if last.questionId != id {
        assert AnswersNotOf(answers, id) == rest + [last];
        CountAfterInsert(rest, last, q);
      } else {
        assert AnswersNotOf(answers, id) == rest;
      }
    }
  }

  // ---------------------------------------------------------------- lookups by key

  /** The keys of `rows`. */
  function KeySet<T(==)>(rows: seq<T>, key: T -> string): set<string> {
    set x | x in rows :: key(x)
  }

  /**
   * `SELECT ... FROM t WHERE column = k` read through `get`: the index of the
   * first row whose key is `k`, or `|rows|` when there is none.
   */
  function Lookup<T>(rows: seq<T>, key: T -> string, k: string): (i: nat)
    ensures i <= |rows|
    ensures i < |rows| ==> key(rows[i]) == k
    ensures forall j :: 0 <= j < i ==> key(rows[j]) != k
  {
    if rows == [] then 0
    else if key(rows[0]) == k then 0
    else 1 + Lookup(rows[1..], key, k)
  }

  /** A lookup finds a row exactly when the key is among the table's keys. */
  lemma LookupFound<T>(rows: seq<T>, key: T -> string, k: string)
    ensures Lookup(rows, key, k) < |rows| <==> k in KeySet(rows, key)
  {
    var i := Lookup(rows, key, k);
    if i < |rows| {
      assert rows[i] in rows;
    } else {
      forall x | x in rows ensures key(x) != k {
        var j :| 0 <= j < |rows| && rows[j] == x;
      }
    }
  }

  /** The keys of two tables put end to end. */
  lemma KeySetAppend<T>(a: seq<T>, b: seq<T>, key: T -> string)
    ensures KeySet(a + b, key) == KeySet(a, key) + KeySet(b, key)
  {
    forall x | x in a + b ensures x in a || x in b {
    }
  }

  // ---------------------------------------------------------------- idempotent seeding

  /**
   * The seeds that a loop `for (s of seeds) if (!exists(key(s))) insert(s)`
   * inserts, in order, when the keys in `present` are already in the table.
   */
  function ToInsert<T(==)>(present: set<string>, seeds: seq<T>, key: T -> string): (r: seq<T>)
    ensures forall x :: x in r ==> x in seeds && key(x) !in present
    decreases |seeds|
  {
    if seeds == [] then []
    else if key(seeds[0]) in present then ToInsert(present, seeds[1..], key)
    else [seeds[0]] + ToInsert(present + {key(seeds[0])}, seeds[1..], key)
  }

  /** After seeding, the key of every seed is in the table. */
  lemma {:induction false} SeedingCovers<T>(present: set<string>, seeds: seq<T>, key: T -> string)
    ensures forall s :: s in seeds ==> key(s) in present + KeySet(ToInsert(present, seeds, key), key)
    decreases |seeds|
  {
    if seeds != [] {
      var k := key(seeds[0]);
      if k in present {
        SeedingCovers(present, seeds[1..], key);
      } else {
        var rest := ToInsert(present + {k}, seeds[1..], key);
        SeedingCovers(present + {k}, seeds[1..], key);
        assert KeySet([seeds[0]] + rest, key) == {k} + KeySet(rest, key);
      }
      assert forall s :: s in seeds ==> s == seeds[0] || s in seeds[1..];
    }
  }

  /** No two of `rows` share a key. */
  ghost predicate KeysDistinct<T>(rows: seq<T>, key: T -> string) {
    forall i, j :: 0 <= i < j < |rows| ==> key(rows[i]) != key(rows[j])
  }

  /** Seeding never inserts two rows with one key. */
  lemma {:induction false} SeedingDistinct<T>(present: set<string>, seeds: seq<T>, key: T -> string)
    ensures KeysDistinct(ToInsert(present, seeds, key), key)
    decreases |seeds|
  {
    if seeds != [] {
      var k := key(seeds[0]);
      if k in present {
        SeedingDistinct(present, seeds[1..], key);
        assert ToInsert(present, seeds, key) == ToInsert(present, seeds[1..], key);
      } else {
        SeedingDistinct(present + {k}, seeds[1..], key);
        var rest := ToInsert(present + {k}, seeds[1..], key);
        assert forall j :: 0 <= j < |rest| ==> key(rest[j]) != k by {
          forall j | 0 <= j < |rest| ensures key(rest[j]) != k {
            assert rest[j] in rest;
          }
        }
      }
    }
  }

  /** Seeding a second time inserts nothing. */
  lemma {:induction false} SeedingIdempotent<T>(present: set<string>, seeds: seq<T>, key: T -> string)
    ensures ToInsert(present + KeySet(ToInsert(present, seeds, key), key), seeds, key) == []
  {
    SeedingCovers(present, seeds, key);
    NothingToInsert(present + KeySet(ToInsert(present, seeds, key), key), seeds, key);
  }

  /** The first seed of a loop is either skipped or inserted before the rest. */
  lemma SeedCons<T>(present: set<string>, s: T, rest: seq<T>, key: T -> string)
    ensures key(s) in present ==> ToInsert(present, [s] + rest, key) == ToInsert(present, rest, key)
    ensures key(s) !in present ==> ToInsert(present, [s] + rest, key) == [s] + ToInsert(present + {key(s)}, rest, key)
  {
    assert ([s] + rest)[0] == s && ([s] + rest)[1..] == rest;
  }

  /** When every seed's key is present, seeding inserts nothing. */
  lemma {:induction false} NothingToInsert<T>(present: set<string>, seeds: seq<T>, key: T -> string)
    requires forall s :: s in seeds ==> key(s) in present
    ensures ToInsert(present, seeds, key) == []
  {
    if seeds != [] {
      assert forall s :: s in seeds[1..] ==> s in seeds;
      NothingToInsert(present, seeds[1..], key);
    }
  }

  /** The rows a seed loop appends for `seeds`: the `i`-th gets the id `next + i`. */
  function NewRows<T, R>(next: nat, seeds: seq<T>, mk: (nat, T) -> R): (r: seq<R>)
    ensures |r| == |seeds|
    ensures forall i :: 0 <= i < |seeds| ==> r[i] == mk(next + i, seeds[i])
    decreases |seeds|
  {
    if seeds == [] then [] else [mk(next, seeds[0])] + NewRows(next + 1, seeds[1..], mk)
  }

  /** The table a seed loop leaves behind when it starts on `rows` with the id counter at `next`. */
  function Seeded<T(==), R(==)>(rows: seq<R>, next: nat, seeds: seq<T>, key: T -> string,
                                rowKey: R -> string, mk: (nat, T) -> R): seq<R>
  {
    rows + NewRows(next, ToInsert(KeySet(rows, rowKey), seeds, key), mk)
  }

  /** The id counter a seed loop leaves behind. */
  function SeededNext<T(==), R(==)>(rows: seq<R>, next: nat, seeds: seq<T>, key: T -> string,
                                    rowKey: R -> string): nat
  {
    next + |ToInsert(KeySet(rows, rowKey), seeds, key)|
  }

  /** One turn of a seed loop on a present key: the seed is skipped. */
  lemma SeedTurnSkip<T, R>(rows: seq<R>, next: nat, s: T, rest: seq<T>, key: T -> string,
                           rowKey: R -> string, mk: (nat, T) -> R)
    requires key(s) in KeySet(rows, rowKey)
    ensures Seeded(rows, next, [s] + rest, key, rowKey, mk) == Seeded(rows, next, rest, key, rowKey, mk)
    ensures SeededNext(rows, next, [s] + rest, key, rowKey) == SeededNext(rows, next, rest, key, rowKey)
  {
    SeedCons(KeySet(rows, rowKey), s, rest, key);
  }

  /** One turn of a seed loop on an absent key: the seed's row is appended with the next id. */
  lemma SeedTurnAppend<T, R>(rows: seq<R>, next: nat, s: T, rest: seq<T>, key: T -> string,
                             rowKey: R -> string, mk: (nat, T) -> R)
    requires rowKey(mk(next, s)) == key(s)
    requires key(s) !in KeySet(rows, rowKey)
    ensures Seeded(rows, next, [s] + rest, key, rowKey, mk) == Seeded(rows + [mk(next, s)], next + 1, rest, key, rowKey, mk)
    ensures SeededNext(rows, next, [s] + rest, key, rowKey) == SeededNext(rows + [mk(next, s)], next + 1, rest, key, rowKey)
  {
    var present := KeySet(rows, rowKey);
    var row := mk(next, s);
    var more := ToInsert(present + {key(s)}, rest, key);
    SeedCons(present, s, rest, key);
    KeySetSnoc(rows, row, rowKey);
    AppendAfter(rows, row, NewRows(next, [s] + more, mk), NewRows(next + 1, more, mk)) by {
      NewRowsCons(next, s, more, mk);
    }
  }

  /** Moving the first appended row into the table. */
  lemma AppendAfter<R>(rows: seq<R>, row: R, appended: seq<R>, tail: seq<R>)
    requires appended == [row] + tail
    ensures rows + appended == (rows + [row]) + tail
  {
  }

  /** A row appended to a table adds its key. */
  lemma KeySetSnoc<R>(rows: seq<R>, row: R, rowKey: R -> string)
    ensures KeySet(rows + [row], rowKey) == KeySet(rows, rowKey) + {rowKey(row)}
  {
    KeySetAppend(rows, [row], rowKey);
    assert row in [row];
  }

  /** The first appended row gets the first id. */
  lemma NewRowsCons<T, R>(next: nat, s: T, more: seq<T>, mk: (nat, T) -> R)
    ensures NewRows(next, [s] + more, mk) == [mk(next, s)] + NewRows(next + 1, more, mk)
  {
    assert ([s] + more)[0] == s && ([s] + more)[1..] == more;
  }

  /** After a seed loop, the key of every seed is in the table. */
  lemma SeededCovers<T(!new), R>(rows: seq<R>, next: nat, seeds: seq<T>, key: T -> string,
                           rowKey: R -> string, mk: (nat, T) -> R)
    requires KeepsKey(key, rowKey, mk)
    ensures forall s :: s in seeds ==> key(s) in KeySet(Seeded(rows, next, seeds, key, rowKey, mk), rowKey)
  {
    var present := KeySet(rows, rowKey);
    var added := ToInsert(present, seeds, key);
    var appended := NewRows(next, added, mk);
    SeedingCovers(present, seeds, key);
    KeySetAppend(rows, appended, rowKey);
    forall x | x in added ensures key(x) in KeySet(appended, rowKey) {
      var j :| 0 <= j < |added| && added[j] == x;
      assert appended[j] in appended;
    }
  }

  /** A seed loop over keys that are all present leaves the table and its counter alone. */
  lemma SeededNothing<T, R>(rows: seq<R>, next: nat, seeds: seq<T>, key: T -> string,
                            rowKey: R -> string, mk: (nat, T) -> R)
    requires forall s :: s in seeds ==> key(s) in KeySet(rows, rowKey)
    ensures Seeded(rows, next, seeds, key, rowKey, mk) == rows
    ensures SeededNext(rows, next, seeds, key, rowKey) == next
  {
    NothingToInsert(KeySet(rows, rowKey), seeds, key);
  }

  /** Whether the row built from a seed always carries the seed's key. */
  ghost predicate KeepsKey<T(!new), R>(key: T -> string, rowKey: R -> string, mk: (nat, T) -> R) {
    forall n, s :: rowKey(mk(n, s)) == key(s)
  }

  /** A seed loop keeps the keys of a table distinct. */
  lemma SeededDistinct<T(!new), R>(rows: seq<R>, next: nat, seeds: seq<T>, key: T -> string,
                             rowKey: R -> string, mk: (nat, T) -> R)
    requires KeepsKey(key, rowKey, mk)
    requires KeysDistinct(rows, rowKey)
    ensures KeysDistinct(Seeded(rows, next, seeds, key, rowKey, mk), rowKey)
  {
    var present := KeySet(rows, rowKey);
    var added := ToInsert(present, seeds, key);
    var appended := NewRows(next, added, mk);
    var all := rows + appended;
    SeedingDistinct(present, seeds, key);
    forall i, j | 0 <= i < j < |all| ensures rowKey(all[i]) != rowKey(all[j]) {
      if |rows| <= j {
        var x := added[j - |rows|];
        assert rowKey(all[j]) == key(x);
        assert x in added;
        if i < |rows| {
          assert rows[i] in rows;
        }
      }
    }
  }

  /**
   * A seed loop of init: each seed's key is looked up in the table, and a row
   * with the next id is appended only when the lookup finds none.
   */
  method SeedRows<T(==,!new), R(==)>(rows: seq<R>, next: nat, seeds: seq<T>, key: T -> string,
                                rowKey: R -> string, mk: (nat, T) -> R)
    returns (table: seq<R>, counter: nat)
    requires KeepsKey(key, rowKey, mk)
    ensures table == Seeded(rows, next, seeds, key, rowKey, mk)
    ensures counter == SeededNext(rows, next, seeds, key, rowKey)
    ensures forall s :: s in seeds ==> key(s) in KeySet(table, rowKey)
    ensures KeysDistinct(rows, rowKey) ==> KeysDistinct(table, rowKey)
    ensures (forall s :: s in seeds ==> key(s) in KeySet(rows, rowKey)) ==> table == rows && counter == next
  {
    table, counter := rows, next;
    for i := 0 to |seeds|
      invariant Seeded(table, counter, seeds[i..], key, rowKey, mk) == Seeded(rows, next, seeds, key, rowKey, mk)
      invariant SeededNext(table, counter, seeds[i..], key, rowKey) == SeededNext(rows, next, seeds, key, rowKey)
    {
      var s := seeds[i];
      assert seeds[i..] == [s] + seeds[i + 1..];
      LookupFound(table, rowKey, key(s));
      if Lookup(table, rowKey, key(s)) < |table| {
        SeedTurnSkip(table, counter, s, seeds[i + 1..], key, rowKey, mk);
      } else {
        SeedTurnAppend(table, counter, s, seeds[i + 1..], key, rowKey, mk);
        table := table + [mk(counter, s)];
        counter := counter + 1;
      }
    }
    assert seeds[|seeds|..] == [];
    SeededCovers(rows, next, seeds, key, rowKey, mk);
    if KeysDistinct(rows, rowKey) {
      SeededDistinct(rows, next, seeds, key, rowKey, mk);
    }
    if forall s :: s in seeds ==> key(s) in KeySet(rows, rowKey) {
      SeededNothing(rows, next, seeds, key, rowKey, mk);
    }
  }
}

/**
 * db.js as an in-memory store. Each table is a sequence of rows in rowid
 * order; the settings table, keyed by its primary key, is a map. Each query
 * the core uses is a member stating the row-level effect of its SQL, as
 * SQLite runs it.
 */
module Store {
  import opened Wrappers
  import opened Strings
  import opened Grouping
  import opened Tables

  // ---------------------------------------------------------------- seed data of init

  /** The category whose presence triggers the one-time migration. */
  const LegacyCategory := "ann\U{E9}es 2000"

  /** The seeded questions, by category name. */
  const QuestionSeeds: seq<(string, string)> := [
    ("vacances", "Tu es au bar en vacances, qu'est-ce que tu commandes ?"),
    ("vacances", "Quel est LE pays o\U{F9} tu r\U{EA}ves d'aller ?"),
    ("vacances", "Quel est LE truc que tu oublies toujours dans ta valise ?"),
    ("vacances", "Quel est LE truc le plus \U{E9}nervant en avion ?"),
    ("nourriture", "Quel est L'aliment que tu manges en cachette dans le frigo ?"),
    ("nourriture", "Qu'est ce que tu commandes en livraison quand t'as la flemme de faire a manger ?"),
    ("nourriture", "Quel est LE truc que tu grignotes devant la t\U{E9}l\U{E9} ?"),
    ("cin\U{E9}ma", "Quel est LE m\U{E9}chant de film que tout le monde conna\U{EE}t ?"),
    ("cin\U{E9}ma", "Quel est ton genre de film pr\U{E9}f\U{E9}r\U{E9} ? (horreur, com\U{E9}die, science fiction, etc...)"),
    ("cin\U{E9}ma", "Quel est LE Disney que tu pr\U{E9}f\U{E8}res ?")
  ]

  const BannedSeeds: seq<string> := [
    "jsp", "je sais pas", "aucune id\U{E9}e", "j'\U{E9}tais pas n\U{E9}", "pas n\U{E9}e",
    "caca", "hitler", "pornhub", "n'importe quoi"
  ]

  const CorrectionSeeds: seq<(string, string)> := [
    ("fesbook", "facebook"), ("face book", "facebook"), ("youtybe", "youtube"),
    ("youtunes", "youtube"), ("googel", "google"), ("formage", "fromage"),
    ("chocolay", "chocolat"), ("saucision", "saucisson"), ("sky blog", "skyblog"),
    ("slyblog", "skyblog")
  ]

  // ---------------------------------------------------------------- key columns

  function Name(c: Category): string { c.name }
  function QuestionText(q: Question): string { q.text }
  function Word(b: BannedWord): string { b.word }
  function Wrong(c: Correction): string { c.wrong }
  function SeedWord(s: string): string { s }
  function SeedText(s: (nat, string)): string { s.1 }
  function SeedWrong(s: (string, string)): string { s.0 }

  /**
   * `cats.forEach(c => { catMap[c.name] = c.id; })`: every name is a key,
   * and a later row overwrites an earlier one, so the last row's id wins.
   */
  function CatIds(cats: seq<Category>): (m: map<string, nat>)
    ensures forall i :: 0 <= i < |cats| ==> cats[i].name in m
    ensures cats != [] ==> m[cats[|cats| - 1].name] == cats[|cats| - 1].id
  {
    if cats == [] then map[]
    else
      var init, last := cats[..|cats| - 1], cats[|cats| - 1];
      assert forall i :: 0 <= i < |init| ==> init[i] == cats[i];
      CatIds(init)[last.name := last.id]
  }

  /** The map has exactly the categories' names as keys. */
  lemma {:induction false} CatIdsKeys(cats: seq<Category>)
    ensures CatIds(cats).Keys == KeySet(cats, Name)
  {
    if cats != [] {
      var n := |cats|;
      CatIdsKeys(cats[..n - 1]);
      assert cats == cats[..n - 1] + [cats[n - 1]];
      KeySetSnoc(cats[..n - 1], cats[n - 1], Name);
    }
  }

  /** With unique names, the map sends each category's name to its id. */
  lemma {:induction false} CatIdsOfUniqueNames(cats: seq<Category>)
    requires KeysDistinct(cats, Name)
    ensures forall i :: 0 <= i < |cats| ==> cats[i].name in CatIds(cats) && CatIds(cats)[cats[i].name] == cats[i].id
  {
    if cats != [] {
      var n := |cats|;
      var init, last := cats[..n - 1], cats[n - 1];
      assert KeysDistinct(init, Name) by {
        forall i, j | 0 <= i < j < |init| ensures Name(init[i]) != Name(init[j]) {
          assert init[i] == cats[i] && init[j] == cats[j];
        }
      }
      CatIdsOfUniqueNames(init);
      var m := CatIds(init);
      forall i | 0 <= i < n - 1 ensures cats[i].name != last.name && cats[i].name in m && m[cats[i].name] == cats[i].id {
        assert init[i] == cats[i];
        assert Name(cats[i]) != Name(cats[n - 1]);
      }
    }
  }

  /** The `seedQuestions` array: each category name looked up in `catMap` (`undefined` when absent). */
  function Resolve(catMap: map<string, nat>, named: seq<(string, string)>): (r: seq<(Option<nat>, string)>)
    ensures |r| == |named|
    ensures forall i :: 0 <= i < |named| ==>
              && r[i].1 == named[i].1
              && (r[i].0.Some? <==> named[i].0 in catMap)
              && (r[i].0.Some? ==> r[i].0.value == catMap[named[i].0])
  {
    seq(|named|, i requires 0 <= i < |named| =>
      (if named[i].0 in catMap then Some(catMap[named[i].0]) else None, named[i].1))
  }

  /** Whether the seed loop goes on with a seed: `if (!catId) continue` skips a missing or zero id. */
  predicate Usable(s: (Option<nat>, string)) {
    s.0.Some? && s.0.value != 0
  }

  /**
   * The seeds the question loop does not skip, with their category ids, in
   * the seeds' order: the usable ones and nothing else, a usable first seed
   * coming first.
   */
  function UsableSeeds(seeds: seq<(Option<nat>, string)>): (r: seq<(nat, string)>)
    ensures forall s :: s in seeds && Usable(s) ==> (s.0.value, s.1) in r
    ensures forall x :: x in r ==> exists s :: s in seeds && Usable(s) && x == (s.0.value, s.1)
    ensures forall k :: 0 <= k < |r| ==> r[k].0 != 0
    ensures |r| <= |seeds|
    ensures seeds != [] && Usable(seeds[0]) ==> r[0] == (seeds[0].0.value, seeds[0].1)
  {
    if seeds == [] then []
    else
      (if Usable(seeds[0]) then [(seeds[0].0.value, seeds[0].1)] else []) + UsableSeeds(seeds[1..])
  }

  /** The row the question seed loop inserts: active, never skipped, never rejected. */
  function NewQuestion(id: nat, s: (nat, string)): Question {
    Question(id, s.0, s.1, true, 0, 0)
  }

  function NewBannedWord(id: nat, word: string): BannedWord {
    BannedWord(id, word)
  }

  function NewCorrection(id: nat, pair: (string, string)): Correction {
    Correction(id, pair.0, pair.1)
  }

  /** A seeded question has its seed's text. */
  lemma NewQuestionKeepsText()
    ensures KeepsKey(SeedText, QuestionText, NewQuestion)
  {
  }

  /** A seeded banned word has its seed's word. */
  lemma NewBannedWordKeepsWord()
    ensures KeepsKey(SeedWord, Word, NewBannedWord)
  {
  }

  /** A seeded correction has its seed's `wrong`. */
  lemma NewCorrectionKeepsWrong()
    ensures KeepsKey(SeedWrong, Wrong, NewCorrection)
  {
  }

  /** `DELETE FROM corrections WHERE wrong = w`, the first half of SQLite's `INSERT OR REPLACE`. */
  function CorrectionsWithout(rows: seq<Correction>, wrong: string): (r: seq<Correction>)
    ensures forall c :: c in r <==> c in rows && c.wrong != wrong
  {
    if rows == [] then []
    else (if rows[0].wrong != wrong then [rows[0]] else []) + CorrectionsWithout(rows[1..], wrong)
  }

  /** Deleting the rows with one `wrong` keeps the others' `wrong` values distinct and their ids. */
  lemma {:induction false} WithoutKeepsDistinct(rows: seq<Correction>, wrong: string)
    requires KeysDistinct(rows, Wrong)
    ensures KeysDistinct(CorrectionsWithout(rows, wrong), Wrong)
  {
    if rows != [] {
      WithoutKeepsDistinct(rows[1..], wrong);
      var rest := CorrectionsWithout(rows[1..], wrong);
      forall j | 0 <= j < |rest| ensures rest[j].wrong != rows[0].wrong {
        assert rest[j] in rows[1..];
        var m :| 0 <= m < |rows[1..]| && rows[1..][m] == rest[j];
        assert rows[m + 1] == rest[j];
      }
    }
  }

  /** `responseTime || null`: a missing or zero response time is stored as NULL. */
  function StoredTime(responseTime: Option<int>): (r: Option<int>)
    ensures r.None? <==> responseTime.None? || responseTime.value == 0
    ensures r.Some? ==> r == responseTime
  {
    if responseTime.Some? && responseTime.value != 0 then responseTime else None
  }

  /** AUTOINCREMENT ids: every category id is positive and below the next one handed out. */
  ghost predicate IdsBelow(categories: seq<Category>, next: nat) {
    && 0 < next
    && forall i :: 0 <= i < |categories| ==> 0 < categories[i].id < next
  }

  /** The whole content of the store at one moment: its tables, its settings and its id counters. */
  datatype Snapshot = Snapshot(
    categories: seq<Category>, questions: seq<Question>, answers: seq<Answer>,
    bannedWords: seq<BannedWord>, corrections: seq<Correction>, settings: map<string, string>,
    nextCategoryId: nat, nextQuestionId: nat, nextAnswerId: nat, nextBannedWordId: nat, nextCorrectionId: nat)
  {
    /**
     * The UNIQUE constraints of the schema, and the AUTOINCREMENT ids of the
     * categories: from 1 and below the counter.
     */
    ghost predicate Consistent() {
      && KeysDistinct(categories, Name)
      && KeysDistinct(bannedWords, Word)
      && KeysDistinct(corrections, Wrong)
      && IdsBelow(categories, nextCategoryId)
    }

    /** Everything init guarantees: no legacy category, some categories, every seed present, `auto_merge` set. */
    ghost predicate Initialised() {
      && LegacyCategory !in KeySet(categories, Name)
      && categories != []
      && (forall s :: s in UsableSeeds(Resolve(CatIds(categories), QuestionSeeds)) ==>
            SeedText(s) in KeySet(questions, QuestionText))
      && (forall w :: w in BannedSeeds ==> SeedWord(w) in KeySet(bannedWords, Word))
      && (forall p :: p in CorrectionSeeds ==> SeedWrong(p) in KeySet(corrections, Wrong))
      && "auto_merge" in settings
    }
  }

  /** The three categories init creates in an empty table. */
  function DefaultCategories(next: nat): seq<Category> {
    [Category(next, "vacances"), Category(next + 1, "nourriture"), Category(next + 2, "cin\U{E9}ma")]
  }

  /** The default categories have distinct names, fresh ids, and none is the legacy one. */
  lemma DefaultsFit(next: nat)
    requires 0 < next
    ensures KeysDistinct(DefaultCategories(next), Name)
    ensures IdsBelow(DefaultCategories(next), next + 3)
    ensures LegacyCategory !in KeySet(DefaultCategories(next), Name)
  {
    var d := DefaultCategories(next);
    assert KeySet(d, Name) == {"vacances", "nourriture", "cin\U{E9}ma"} by {
      assert d[0] in d && d[1] in d && d[2] in d;
    }
    assert "vacances"[0] != LegacyCategory[0] && "nourriture"[0] != LegacyCategory[0];
    assert "cin\U{E9}ma"[0] != LegacyCategory[0];
  }

  class Database {
    var categories: seq<Category>
    var questions: seq<Question>
    var answers: seq<Answer>
    var bannedWords: seq<BannedWord>
    var corrections: seq<Correction>
    var settings: map<string, string>
    var nextCategoryId: nat
    var nextQuestionId: nat
    var nextAnswerId: nat
    var nextBannedWordId: nat
    var nextCorrectionId: nat

    /**
     * The UNIQUE constraints of the schema, and the AUTOINCREMENT ids of the
     * categories: from 1 and below the counter.
     */
    ghost predicate Valid()
      reads this
    {
      Rows().Consistent()
    }

    /** The current content of the store. */
    ghost function Rows(): Snapshot
      reads this
    {
      Snapshot(categories, questions, answers, bannedWords, corrections, settings,
               nextCategoryId, nextQuestionId, nextAnswerId, nextBannedWordId, nextCorrectionId)
    }

    /** A freshly created database: empty tables, no settings. */
    constructor ()
      ensures Valid()
      ensures categories == [] && questions == [] && answers == []
      ensures bannedWords == [] && corrections == []
      ensures forall key :: GetSetting(key) == None
    {
      categories, questions, answers := [], [], [];
      bannedWords, corrections := [], [];
      settings := map[];
      nextCategoryId, nextQuestionId, nextAnswerId := 1, 1, 1;
      nextBannedWordId, nextCorrectionId := 1, 1;
    }

    /** `getAnswerCount(qid)`. */
    function AnswerCount(qid: int): nat
      reads this
    {
      CountFor(answers, qid)
    }

    /** `getSetting(key)`: the stored value, or `null`. */
    function GetSetting(key: string): (r: Option<string>)
      reads this
      ensures r.Some? <==> key in settings
      ensures r.Some? ==> r.value == settings[key]
    {
      if key in settings then Some(settings[key]) else None
    }

    /**
     * `getAnswersGrouped(qid)`: one group per `LOWER(TRIM(text))` among the
     * question's answers, counts summing to its answer count, by count descending.
     */
    function GetAnswersGrouped(qid: int): (r: seq<Group>)
      reads this
      ensures GroupsOf(r, TextsOf(answers, qid)) && SortedDesc(r)
      ensures Total(r) == AnswerCount(qid)
    {
      Grouped(TextsOf(answers, qid))
    }

    /**
     * `insertAnswer`: appends one row for `qid`. The foreign key on
     * `question_id` makes the statement throw when no question has that id;
     * `stored` is false then, and the failed statement leaves the store as
     * it was.
     */
    method InsertAnswer(qid: int, text: string, responseTime: Option<int>) returns (stored: bool)
      requires Valid()
      modifies this
      ensures Valid()
      ensures stored <==> HasQuestion(old(questions), qid)
      ensures !stored ==> Rows() == old(Rows())
      ensures stored ==> answers == old(answers) + [Answer(old(nextAnswerId), qid, text, StoredTime(responseTime))]
      ensures stored ==> nextAnswerId == old(nextAnswerId) + 1
      ensures forall q :: AnswerCount(q) == old(AnswerCount(q)) + (if stored && q == qid then 1 else 0)
      ensures stored ==> Rows() == old(Rows()).(answers := answers, nextAnswerId := nextAnswerId)
    {
      stored := exists q :: q in questions && q.id == qid;
      if !stored {
        return;
      }
      var a := Answer(nextAnswerId, qid, text, StoredTime(responseTime));
      forall q ensures CountFor(answers + [a], q) == CountFor(answers, q) + (if q == qid then 1 else 0) {
        CountAfterInsert(answers, a, q);
      }
      answers := answers + [a];
      nextAnswerId := nextAnswerId + 1;
    }

    /**
     * `mergeAnswers(qid, texts, canonical)`: the answers of `qid` whose key is
     * the key of a selected text get the canonical text; nothing else changes.
     */
    method MergeAnswers(qid: int, texts: seq<string>, canonical: string)
      requires Valid()
      modifies this
      ensures Valid()
      ensures answers == Merge(old(answers), qid, texts, canonical)
      ensures forall q :: AnswerCount(q) == old(AnswerCount(q))
      ensures Rows() == old(Rows()).(answers := answers)
    {
      forall q ensures CountFor(Merge(answers, qid, texts, canonical), q) == CountFor(answers, q) {
        MergeKeepsCounts(answers, qid, SqlKeys(texts), canonical, q);
      }
      answers := Merge(answers, qid, texts, canonical);
    }

    /** `deleteQuestion(id)`: its answers first, then the question itself. */
    method DeleteQuestion(id: int)
      requires Valid()
      modifies this
      ensures Valid()
      ensures answers == AnswersNotOf(old(answers), id)
      ensures questions == QuestionsExcept(old(questions), id)
      ensures forall a :: a in answers ==> a.questionId != id
      ensures forall q :: q in questions ==> q.id != id
      ensures forall q :: AnswerCount(q) == if q == id then 0 else old(AnswerCount(q))
      ensures Rows() == old(Rows()).(answers := answers, questions := questions)
    {
      forall q ensures CountFor(AnswersNotOf(answers, id), q) == if q == id then 0 else CountFor(answers, q) {
        DeleteKeepsOtherCounts(answers, id, q);
      }
      answers := AnswersNotOf(answers, id);
      questions := QuestionsExcept(questions, id);
    }

    /**
     * `addBannedWord(word)`: `INSERT OR IGNORE`, then the row read back. The
     * table ends with exactly one row for the word; a word already present
     * leaves the table as it was.
     */
    method AddBannedWord(word: string) returns (row: BannedWord)
      requires Valid()
      modifies this
      ensures Valid()
      ensures row.word == word && row in bannedWords
      ensures forall b :: b in bannedWords && b.word == word ==> b == row
      ensures word in KeySet(old(bannedWords), Word) ==>
                bannedWords == old(bannedWords) && nextBannedWordId == old(nextBannedWordId)
      ensures word !in KeySet(old(bannedWords), Word) ==>
                && row == BannedWord(old(nextBannedWordId), word)
                && bannedWords == old(bannedWords) + [row]
                && nextBannedWordId == old(nextBannedWordId) + 1
      ensures Rows() == old(Rows()).(bannedWords := bannedWords, nextBannedWordId := nextBannedWordId)
    {
      var i := Lookup(bannedWords, Word, word);
      LookupFound(bannedWords, Word, word);
      if i == |bannedWords| {
        bannedWords := bannedWords + [BannedWord(nextBannedWordId, word)];
        nextBannedWordId := nextBannedWordId + 1;
      }
      row := bannedWords[i];
      forall b | b in bannedWords && b.word == word ensures b == row {
        var j :| 0 <= j < |bannedWords| && bannedWords[j] == b;
        assert !(i < j) && !(j < i);
      }
    }

    /**
     * `addCorrection(wrong, correct)`: SQLite's `INSERT OR REPLACE` deletes the
     * row with the same `wrong` and appends a new row with a fresh id; the
     * row is read back. Exactly one correction then has that `wrong`.
     */
    method AddCorrection(wrong: string, correct: string) returns (row: Correction)
      requires Valid()
      modifies this
      ensures Valid()
      ensures row == Correction(old(nextCorrectionId), wrong, correct)
      ensures corrections == CorrectionsWithout(old(corrections), wrong) + [row]
      ensures forall c :: c in corrections && c.wrong == wrong ==> c == row
      ensures forall c :: c in old(corrections) && c.wrong != wrong ==> c in corrections
      ensures nextCorrectionId == old(nextCorrectionId) + 1
      ensures Rows() == old(Rows()).(corrections := corrections, nextCorrectionId := nextCorrectionId)
    {
      var kept := CorrectionsWithout(corrections, wrong);
      row := Correction(nextCorrectionId, wrong, correct);
      WithoutKeepsDistinct(corrections, wrong);
      forall i | 0 <= i < |kept| ensures kept[i].wrong != wrong {
        assert kept[i] in kept;
        var j :| 0 <= j < |corrections| && corrections[j] == kept[i];
      }
      corrections := kept + [row];
      nextCorrectionId := nextCorrectionId + 1;
    }

    /** `setSetting(key, value)`: an upsert on the primary key. */
    method SetSetting(key: string, value: string)
      requires Valid()
      modifies this
      ensures Valid()
      ensures GetSetting(key) == Some(value)
      ensures forall k :: k != key ==> GetSetting(k) == old(GetSetting(k))
      ensures settings == old(settings)[key := value]
      ensures Rows() == old(Rows()).(settings := settings)
    {
      settings := settings[key := value];
    }

    /** The `catMap` of init, built by one pass over the categories. */
    method CategoryMap() returns (m: map<string, nat>)
      requires Valid()
      ensures m == CatIds(categories)
      ensures m.Keys == KeySet(categories, Name)
      ensures forall i :: 0 <= i < |categories| ==> m[categories[i].name] == categories[i].id
    {
      m := map[];
      for i := 0 to |categories|
        invariant m == CatIds(categories[..i])
      {
        assert categories[..i + 1][..i] == categories[..i];
        m := m[categories[i].name := categories[i].id];
      }
      assert categories[..|categories|] == categories;
      CatIdsOfUniqueNames(categories);
      CatIdsKeys(categories);
    }

    /**
     * The question seed loop of init: a seed is skipped when its category is
     * missing, and inserted only when no question has its text yet.
     */
    method SeedQuestions(seeds: seq<(Option<nat>, string)>)
      requires Valid()
      modifies this
      ensures Valid()
      ensures questions == Seeded(old(questions), old(nextQuestionId), UsableSeeds(seeds), SeedText, QuestionText, NewQuestion)
      ensures nextQuestionId == SeededNext(old(questions), old(nextQuestionId), UsableSeeds(seeds), SeedText, QuestionText)
      ensures forall s :: s in UsableSeeds(seeds) ==> SeedText(s) in KeySet(questions, QuestionText)
      ensures (forall s :: s in UsableSeeds(seeds) ==> SeedText(s) in KeySet(old(questions), QuestionText)) ==>
                questions == old(questions) && nextQuestionId == old(nextQuestionId)
      ensures Rows() == old(Rows()).(questions := questions, nextQuestionId := nextQuestionId)
    {
      NewQuestionKeepsText();
      var rows, next := SeedRows(questions, nextQuestionId, UsableSeeds(seeds), SeedText, QuestionText, NewQuestion);
      questions, nextQuestionId := rows, next;
    }

    /** The banned-word seed loop of init: a word is inserted only when absent. */
    method SeedBannedWords(seeds: seq<string>)
      requires Valid()
      modifies this
      ensures Valid()
      ensures bannedWords == Seeded(old(bannedWords), old(nextBannedWordId), seeds, SeedWord, Word, NewBannedWord)
      ensures nextBannedWordId == SeededNext(old(bannedWords), old(nextBannedWordId), seeds, SeedWord, Word)
      ensures forall w :: w in seeds ==> SeedWord(w) in KeySet(bannedWords, Word)
      ensures (forall w :: w in seeds ==> SeedWord(w) in KeySet(old(bannedWords), Word)) ==>
                bannedWords == old(bannedWords) && nextBannedWordId == old(nextBannedWordId)
      ensures Rows() == old(Rows()).(bannedWords := bannedWords, nextBannedWordId := nextBannedWordId)
    {
      NewBannedWordKeepsWord();
      var rows, next := SeedRows(bannedWords, nextBannedWordId, seeds, SeedWord, Word, NewBannedWord);
      bannedWords, nextBannedWordId := rows, next;
      assert Rows() == old(Rows()).(bannedWords := rows, nextBannedWordId := next);
    }

    /** The correction seed loop of init: a pair is inserted only when its `wrong` is absent. */
    method SeedCorrections(seeds: seq<(string, string)>)
      requires Valid()
      modifies this
      ensures Valid()
      ensures corrections == Seeded(old(corrections), old(nextCorrectionId), seeds, SeedWrong, Wrong, NewCorrection)
      ensures nextCorrectionId == SeededNext(old(corrections), old(nextCorrectionId), seeds, SeedWrong, Wrong)
      ensures forall p :: p in seeds ==> SeedWrong(p) in KeySet(corrections, Wrong)
      ensures (forall p :: p in seeds ==> SeedWrong(p) in KeySet(old(corrections), Wrong)) ==>
                corrections == old(corrections) && nextCorrectionId == old(nextCorrectionId)
      ensures Rows() == old(Rows()).(corrections := corrections, nextCorrectionId := nextCorrectionId)
    {
      NewCorrectionKeepsWrong();
      var rows, next := SeedRows(corrections, nextCorrectionId, seeds, SeedWrong, Wrong, NewCorrection);
      corrections, nextCorrectionId := rows, next;
    }

    /** Whether the store holds everything init guarantees. */
    ghost predicate Initialised()
      reads this
    {
      Rows().Initialised()
    }

    /**
     * The first steps of init: when the legacy category exists, the one-time
     * migration deletes every answer, question and category; an empty
     * category table then gets the three default categories.
     */
    method Migrate()
      requires Valid()
      modifies this
      ensures Valid()
      ensures LegacyCategory !in KeySet(categories, Name) && categories != []
      ensures old(LegacyCategory in KeySet(categories, Name)) ==> answers == [] && questions == []
      ensures old(LegacyCategory !in KeySet(categories, Name)) ==> answers == old(answers) && questions == old(questions)
      ensures old(LegacyCategory in KeySet(categories, Name) || categories == []) ==>
                categories == DefaultCategories(old(nextCategoryId)) && nextCategoryId == old(nextCategoryId) + 3
      ensures old(LegacyCategory !in KeySet(categories, Name) && categories != []) ==>
                categories == old(categories) && nextCategoryId == old(nextCategoryId)
      ensures Rows() == old(Rows()).(categories := categories, questions := questions, answers := answers,
                                     nextCategoryId := nextCategoryId)
    {
      LookupFound(categories, Name, LegacyCategory);
      if Lookup(categories, Name, LegacyCategory) < |categories| {
        answers, questions, categories := [], [], [];
      }
      if |categories| == 0 {
        DefaultsFit(nextCategoryId);
        categories, nextCategoryId := DefaultCategories(nextCategoryId), nextCategoryId + 3;
      }
    }

    /**
     * The seeding half of init, once the categories are settled: the
     * questions whose category exists, the banned words and the corrections
     * that are missing are inserted, and `auto_merge` is set when absent.
     */
    method Seed()
      requires Valid() && LegacyCategory !in KeySet(categories, Name) && categories != []
      modifies this
      ensures Valid() && Initialised()
      ensures old(Initialised()) ==> Rows() == old(Rows())
    {
      ghost var wasInitialised := Initialised();
      var catMap := CategoryMap();
      SeedQuestions(Resolve(catMap, QuestionSeeds));
      assert wasInitialised ==> Rows() == old(Rows());
      SeedBannedWords(BannedSeeds);
      assert wasInitialised ==> Rows() == old(Rows());
      SeedCorrections(CorrectionSeeds);
      assert wasInitialised ==> Rows() == old(Rows());
      if GetSetting("auto_merge") == None {
        SetSetting("auto_merge", "1");
      }
    }

    /**
     * `init` once the schema exists: the migration, the default categories
     * and the seed loops. Afterwards the store is initialised, and init on an
     * initialised store changes nothing: running it twice adds no duplicates.
     */
    method Init()
      requires Valid()
      modifies this
      ensures Valid() && Initialised()
      ensures old(Initialised()) ==> Rows() == old(Rows())
    {
      Migrate();
      Seed();
    }
  }
}

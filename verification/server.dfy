/**
 * The request handlers of server.js that decide something: the per-address
 * rate limiter and its sweep, the admission of an answer (length limits and
 * the cap of a hundred answers per question), the validation of a merge,
 * the deletion of a question and the per-question report.
 */
module Server {
  import opened Wrappers
  import opened Strings
  import opened Tables
  import opened Grouping
  import opened Coverage
  import opened Store

  /** `ANSWER_THRESHOLD`: a question takes no more answers once it has this many. */
  const AnswerThreshold: nat := 100
  /** The longest answer accepted, in UTF-16 code units once trimmed. */
  const MaxAnswerLength: nat := 200
  /** `RATE_LIMIT_MS`: the least delay between two requests from one address. */
  const RateLimitMs: int := 800
  /** The sweep forgets an address last seen more than this many milliseconds ago. */
  const StaleAfterMs: int := 60000

  const TooFast := "Trop rapide, attends un peu."
  const InvalidAnswer := "R\U{E9}ponse invalide"
  const BadLength := "R\U{E9}ponse trop courte ou trop longue"
  const QuestionFull := "Cette question a d\U{E9}j\U{E0} assez de r\U{E9}ponses"
  const InvalidMerge := "Donn\U{E9}es invalides"
  const InvalidMergeError := Error(400, InvalidMerge)
  const UnknownQuestion := "Question introuvable"

  /** A value of a parsed JSON request body; `Undefined` stands for a missing key. */
  datatype JsValue = Undefined | Null | Bool(b: bool) | Number(n: int) | Str(s: string) | Array(items: seq<JsValue>) | Object

  /** JavaScript truthiness. */
  predicate Truthy(v: JsValue) {
    match v
    case Undefined => false
    case Null => false
    case Bool(b) => b
    case Number(n) => n != 0
    case Str(s) => s != []
    case Array(_) => true
    case Object => true
  }

  /**
   * What a handler sends: `{ ok: true }`, or an error status with its
   * message; an exception the handler throws becomes Express's 500 page,
   * whose text is not modelled (an empty message).
   */
  datatype Response = Ok | Error(status: nat, message: string)

  /** The outcome of checking a request body: the cleaned data, or the error refusing it. */
  datatype Checked<T> = Accepted(value: T) | Refused(status: nat, message: string)

  const Crash := Error(500, "")

  // ---------------------------------------------------------------- rate limiter

  /** `rateLimit`'s test: `ip` was last seen, at a non-zero time, less than 800 ms before `now`. */
  predicate Throttled(lastSeen: map<string, int>, ip: string, now: int) {
    ip in lastSeen && lastSeen[ip] != 0 && now - lastSeen[ip] < RateLimitMs
  }

  /**
   * An address never seen, or recorded at time 0, is never throttled; one
   * recorded at `t` is throttled from `t` exactly until `t + 800` ms, and
   * also at any earlier time (a clock that went back).
   */
  lemma ThrottleWindow(lastSeen: map<string, int>, ip: string, now: int)
    ensures ip !in lastSeen || lastSeen[ip] == 0 ==> !Throttled(lastSeen, ip, now)
    ensures ip in lastSeen && lastSeen[ip] != 0 ==>
              (Throttled(lastSeen, ip, now) <==> now < lastSeen[ip] + RateLimitMs)
  {
  }

  /** The map as `rateLimit` leaves it after a request from `ip` at `now`. */
  function AfterRequest(lastSeen: map<string, int>, ip: string, now: int): (r: map<string, int>)
    ensures Throttled(lastSeen, ip, now) ==> r == lastSeen
    ensures !Throttled(lastSeen, ip, now) ==> r == lastSeen[ip := now]
  {
    if Throttled(lastSeen, ip, now) then lastSeen else lastSeen[ip := now]
  }

  /** The entries the minute sweep keeps: those seen at most a minute before `now`. */
  function Fresh(lastSeen: map<string, int>, now: int): (r: map<string, int>)
    ensures r.Keys <= lastSeen.Keys
    ensures forall ip :: ip in r ==> r[ip] == lastSeen[ip]
    ensures forall ip :: ip in lastSeen ==> (ip in r <==> now - lastSeen[ip] <= StaleAfterMs)
  {
    map ip | ip in lastSeen && now - lastSeen[ip] <= StaleAfterMs :: lastSeen[ip]
  }

  /**
   * The sweep forgets no address that could still be throttled: at `now`
   * and later, every verdict is the same with or without it.
   */
  lemma SweepKeepsVerdicts(lastSeen: map<string, int>, now: int, ip: string, t: int)
    requires now <= t
    ensures Throttled(Fresh(lastSeen, now), ip, t) <==> Throttled(lastSeen, ip, t)
  {
    if ip in lastSeen && ip !in Fresh(lastSeen, now) {
      assert t - lastSeen[ip] > StaleAfterMs;
    }
  }

  /** Whether admitted times are at least `RATE_LIMIT_MS` apart. */
  predicate Spaced(times: seq<int>) {
    forall k :: 0 < k < |times| ==> times[k - 1] + RateLimitMs <= times[k]
  }

  /** The times of the requests from `ip`, in arrival order, that the limiter lets through. */
  function Admitted(lastSeen: map<string, int>, ip: string, times: seq<int>): (r: seq<int>)
    ensures |r| <= |times|
    decreases |times|
  {
    if times == [] then []
    else
      var rest := Admitted(AfterRequest(lastSeen, ip, times[0]), ip, times[1..]);
      if Throttled(lastSeen, ip, times[0]) then rest else [times[0]] + rest
  }

  /**
   * Requests from one address, at positive times that never go back, are
   * let through at least 800 ms apart, and no sooner than 800 ms after the
   * time already recorded for that address.
   */
  lemma {:induction false} AdmittedSpaced(lastSeen: map<string, int>, ip: string, times: seq<int>)
    requires forall k :: 0 <= k < |times| ==> 0 < times[k]
    requires forall k :: 0 < k < |times| ==> times[k - 1] <= times[k]
    requires ip in lastSeen && times != [] ==> lastSeen[ip] <= times[0]
    ensures Spaced(Admitted(lastSeen, ip, times))
    ensures ip in lastSeen && lastSeen[ip] != 0 ==>
              forall k :: 0 <= k < |Admitted(lastSeen, ip, times)| ==> lastSeen[ip] + RateLimitMs <= Admitted(lastSeen, ip, times)[k]
    decreases |times|
  {
    if times != [] {
      var next := AfterRequest(lastSeen, ip, times[0]);
      var rest := Admitted(next, ip, times[1..]);
      if Throttled(lastSeen, ip, times[0]) {
        assert next == lastSeen;
        AdmittedSpaced(next, ip, times[1..]);
        assert Admitted(lastSeen, ip, times) == rest;
      } else {
        assert next[ip] == times[0] && times[0] != 0;
        AdmittedSpaced(next, ip, times[1..]);
        var r := [times[0]] + rest;
        assert Admitted(lastSeen, ip, times) == r;
        assert forall k :: 0 < k < |r| ==> r[k] == rest[k - 1];
      }
    }
  }

  /** The addresses seen by `rateLimit`, with the time each was last let through. */
  class RateLimiter {
    var lastSeen: map<string, int>

    constructor()
      ensures lastSeen == map[]
    {
      lastSeen := map[];
    }

    /**
     * `rateLimit`: refuses a request that comes too soon and leaves the map
     * alone; otherwise records `now` for `ip` and lets the request through.
     */
    method Admit(ip: string, now: int) returns (allowed: bool)
      modifies this
      ensures allowed <==> !Throttled(old(lastSeen), ip, now)
      ensures lastSeen == AfterRequest(old(lastSeen), ip, now)
    {
      allowed := !(ip in lastSeen && lastSeen[ip] != 0 && now - lastSeen[ip] < RateLimitMs);
      if allowed {
        lastSeen := lastSeen[ip := now];
      }
    }

    /** The minute sweep: deletes, one entry at a time, every address older than a minute. */
    method Sweep(now: int)
      modifies this
      ensures lastSeen == Fresh(old(lastSeen), now)
    {
      ghost var start := lastSeen;
      var pending := lastSeen.Keys;
      while pending != {}
        invariant pending <= start.Keys
        invariant lastSeen.Keys <= start.Keys
        invariant forall ip :: ip in start ==> (ip in lastSeen <==> ip in pending || now - start[ip] <= StaleAfterMs)
        invariant forall ip :: ip in lastSeen ==> lastSeen[ip] == start[ip]
        decreases pending
      {
        var ip :| ip in pending;
        if now - lastSeen[ip] > StaleAfterMs {
          lastSeen := lastSeen - {ip};
        }
        pending := pending - {ip};
      }
    }
  }

  // ---------------------------------------------------------------- answers

  /** A string with no JavaScript whitespace at either end. */
  predicate Trimmed(s: string) {
    s != [] ==> !IsJsWhitespace(s[0]) && !IsJsWhitespace(s[|s| - 1])
  }

  /**
   * The checks of `POST /api/answers` on its body: a question id and a
   * non-empty string are required (400, invalid answer); the trimmed text
   * must hold 1 to 200 UTF-16 code units (400, bad length). An accepted
   * text is trimmed, not empty and at most 200 characters long.
   */
  function CheckAnswer(questionId: int, text: JsValue): (r: Checked<string>)
    ensures r.Accepted? <==> questionId != 0 && text.Str? && 0 < Utf16Length(JsTrim(text.s)) <= MaxAnswerLength
    ensures r.Accepted? ==> r.value == JsTrim(text.s) && Trimmed(r.value) && 1 <= |r.value| <= MaxAnswerLength
    ensures r.Refused? ==> r.status == 400
    ensures r.Refused? ==> (r.message == InvalidAnswer <==> !Truthy(text) || !text.Str? || questionId == 0)
  {
    if questionId == 0 || !Truthy(text) || !text.Str? then Refused(400, InvalidAnswer)
    else
      var cleaned := JsTrim(text.s);
      var n := Utf16Length(cleaned);
      if n == 0 || n > MaxAnswerLength then Refused(400, BadLength)
      else Accepted(cleaned)
  }

  /** An accepted answer, sent again as it was stored, is accepted unchanged. */
  lemma CheckAnswerStable(questionId: int, text: JsValue)
    requires CheckAnswer(questionId, text).Accepted?
    ensures CheckAnswer(questionId, Str(CheckAnswer(questionId, text).value)) == CheckAnswer(questionId, text)
  {
    TrimIdempotent(text.s, IsJsWhitespace);
  }

  /** Whitespace around a text never changes whether it is accepted, nor what is stored. */
  lemma CheckAnswerIgnoresPadding(questionId: int, pad: string, s: string)
    requires forall k :: 0 <= k < |pad| ==> IsJsWhitespace(pad[k])
    requires s != [] ==> !IsJsWhitespace(s[0]) && !IsJsWhitespace(s[|s| - 1])
    ensures s != [] ==> CheckAnswer(questionId, Str(pad + s + pad)) == CheckAnswer(questionId, Str(s))
  {
    if s != [] {
      var t := pad + s + pad;
      assert JsTrim(t) == JsTrim(s) by {
        assert Borders(t, IsJsWhitespace, |pad|, |pad| + |s|);
        TrimIsSlice(t, IsJsWhitespace, |pad|, |pad| + |s|);
        assert t[|pad|..|pad| + |s|] == s;
        TrimOfTrimmed(s, IsJsWhitespace);
      }
    }
  }

  /**
   * The response of `POST /api/answers` from the limiter's verdict, the
   * checks, the current count and whether a question has the id: the insert
   * into `answers` throws for an unknown question (its foreign key), which
   * Express turns into a 500.
   */
  function AnswerResponse(throttled: bool, check: Checked<string>, count: nat, known: bool): (r: Response)
    ensures r.Ok? <==> !throttled && check.Accepted? && count < AnswerThreshold && known
    ensures throttled ==> r == Error(429, TooFast)
    ensures !throttled && check.Refused? ==> r == Error(check.status, check.message)
    ensures !throttled && check.Accepted? && count >= AnswerThreshold ==> r == Error(410, QuestionFull)
    ensures !throttled && check.Accepted? && count < AnswerThreshold && !known ==> r == Crash
  {
    if throttled then Error(429, TooFast)
    else if check.Refused? then Error(check.status, check.message)
    else if count >= AnswerThreshold then Error(410, QuestionFull)
    else if !known then Crash
    else Ok
  }

  /**
   * `POST /api/answers` behind `rateLimit`. A request let through by the
   * limiter is recorded even when the body is then refused; only a
   * response `Ok` stores the cleaned answer, so a question never goes past
   * a hundred answers and no answer is stored for an unknown question.
   */
  method PostAnswer(db: Database, limiter: RateLimiter, ip: string, now: int, questionId: int, text: JsValue)
    returns (res: Response)
    requires db.Valid()
    modifies db, limiter
    ensures db.Valid()
    ensures limiter.lastSeen == AfterRequest(old(limiter.lastSeen), ip, now)
    ensures res == AnswerResponse(old(Throttled(limiter.lastSeen, ip, now)), CheckAnswer(questionId, text),
                                  old(db.AnswerCount(questionId)), HasQuestion(old(db.questions), questionId))
    ensures res.Ok? ==> HasQuestion(db.questions, questionId)
    ensures res.Ok? ==> db.answers == old(db.answers) + [Answer(old(db.nextAnswerId), questionId, CheckAnswer(questionId, text).value, None)]
    ensures res.Ok? ==> db.Rows() == old(db.Rows()).(answers := db.answers, nextAnswerId := db.nextAnswerId)
    ensures !res.Ok? ==> db.Rows() == old(db.Rows())
    ensures old(db.AnswerCount(questionId)) <= AnswerThreshold ==> db.AnswerCount(questionId) <= AnswerThreshold
  {
    var allowed := limiter.Admit(ip, now);
    if !allowed {
      return Error(429, TooFast);
    }
    var check := CheckAnswer(questionId, text);
    if check.Refused? {
      return Error(check.status, check.message);
    }
    var count := db.AnswerCount(questionId);
    if count >= AnswerThreshold {
      return Error(410, QuestionFull);
    }
    var stored := db.InsertAnswer(questionId, check.value, None);
    res := if stored then Ok else Crash;
  }

  // ---------------------------------------------------------------- admin

  /** A merge request once checked: the selected texts and the trimmed canonical text. */
  datatype MergeRequest = MergeRequest(questionId: int, texts: seq<string>, canonical: string)

  /** Whether every item is a string: `t.toLowerCase()` throws on anything else. */
  predicate AllStrings(items: seq<JsValue>) {
    forall k :: 0 <= k < |items| ==> items[k].Str?
  }

  /** The strings of a list of string values. */
  function StringItems(items: seq<JsValue>): (r: seq<string>)
    requires AllStrings(items)
    ensures |r| == |items| && forall k :: 0 <= k < |items| ==> r[k] == items[k].s
  {
    seq(|items|, k requires 0 <= k < |items| => items[k].s)
  }

  /**
   * The checks of `POST /api/admin/merge`: a question id, an array of texts
   * and a canonical text are required (400); a text that is not a string,
   * or a canonical text that is not one, makes the handler throw (500).
   * An accepted request carries the texts as sent and the canonical text
   * trimmed.
   */
  function CheckMerge(questionId: int, answerTexts: JsValue, canonicalText: JsValue): (r: Checked<MergeRequest>)
    ensures r.Accepted? <==> questionId != 0 && answerTexts.Array? && AllStrings(answerTexts.items) && canonicalText.Str? && canonicalText.s != []
    ensures r.Accepted? ==> r.value.questionId == questionId && r.value.canonical == JsTrim(canonicalText.s)
    ensures r.Accepted? ==> |r.value.texts| == |answerTexts.items| && forall k :: 0 <= k < |r.value.texts| ==> answerTexts.items[k] == Str(r.value.texts[k])
    ensures r.Refused? ==> (r.status == 400 <==> questionId == 0 || !answerTexts.Array? || !Truthy(canonicalText))
    ensures r.Refused? ==> Error(r.status, r.message) == InvalidMergeError || Error(r.status, r.message) == Crash
  {
    if questionId == 0 || !Truthy(answerTexts) || !answerTexts.Array? || !Truthy(canonicalText) then
      Refused(400, InvalidMerge)
    else if !AllStrings(answerTexts.items) || !canonicalText.Str? then
      Refused(Crash.status, Crash.message)
    else
      Accepted(MergeRequest(questionId, StringItems(answerTexts.items), JsTrim(canonicalText.s)))
  }

  /**
   * `POST /api/admin/merge`: a checked request gives its selected answers
   * the canonical text; no answer moves to another question, and a refused
   * request changes nothing.
   */
  method PostMerge(db: Database, questionId: int, answerTexts: JsValue, canonicalText: JsValue) returns (res: Response)
    requires db.Valid()
    modifies db
    ensures db.Valid()
    ensures CheckMerge(questionId, answerTexts, canonicalText).Refused? ==>
              var c := CheckMerge(questionId, answerTexts, canonicalText);
              res == Error(c.status, c.message) && db.Rows() == old(db.Rows())
    ensures CheckMerge(questionId, answerTexts, canonicalText).Accepted? ==>
              var m := CheckMerge(questionId, answerTexts, canonicalText).value;
              res == Ok && db.answers == Merge(old(db.answers), m.questionId, m.texts, m.canonical)
    ensures db.Rows() == old(db.Rows()).(answers := db.answers)
    ensures forall q :: db.AnswerCount(q) == old(db.AnswerCount(q))
  {
    var check := CheckMerge(questionId, answerTexts, canonicalText);
    if check.Refused? {
      return Error(check.status, check.message);
    }
    db.MergeAnswers(check.value.questionId, check.value.texts, check.value.canonical);
    res := Ok;
  }

  /** `DELETE /api/admin/questions/:id`: the answers of the question, then the question, in one transaction. */
  method DeleteQuestionRoute(db: Database, id: int) returns (res: Response)
    requires db.Valid()
    modifies db
    ensures db.Valid() && res == Ok
    ensures forall a :: a in db.answers ==> a.questionId != id
    ensures forall q :: q in db.questions ==> q.id != id
    ensures forall a :: a in old(db.answers) && a.questionId != id ==> a in db.answers
    ensures forall q :: q in old(db.questions) && q.id != id ==> q in db.questions
    ensures db.Rows() == old(db.Rows()).(answers := db.answers, questions := db.questions)
  {
    db.DeleteQuestion(id);
    res := Ok;
  }

  /** Whether a category with this id exists. */
  predicate HasCategory(categories: seq<Category>, id: int) {
    exists c :: c in categories && c.id == id
  }

  /** `getQuestionById`: the first question with this id whose category exists (an inner join). */
  function QuestionById(questions: seq<Question>, categories: seq<Category>, id: int): (r: Option<Question>)
    ensures r.Some? ==> r.value in questions && r.value.id == id && HasCategory(categories, r.value.categoryId)
    ensures r.None? ==> forall q :: q in questions && q.id == id ==> !HasCategory(categories, q.categoryId)
  {
    if questions == [] then None
    else if questions[0].id == id && HasCategory(categories, questions[0].categoryId) then Some(questions[0])
    else QuestionById(questions[1..], categories, id)
  }

  datatype ReportResponse = Found(question: Question, report: Report) | NotFound

  /**
   * `GET /api/admin/questions/:id/answers`: 404 unless the question exists
   * with its category; otherwise its answer groups, most frequent first,
   * accounting for every answer of the question.
   */
  function QuestionReport(db: Database, id: int): (r: ReportResponse)
    reads db
    ensures r.NotFound? <==> QuestionById(db.questions, db.categories, id).None?
    ensures r.Found? ==> r.question.id == id && r.question in db.questions
    ensures r.Found? ==> r.report.totalCount == db.AnswerCount(id)
    ensures r.Found? ==> SortedDesc(Groups(r.report)) && GroupsOf(Groups(r.report), TextsOf(db.answers, id))
    ensures r.Found? ==> r.report == ReportOf(db.GetAnswersGrouped(id))
    ensures r.Found? ==> forall i :: 0 <= i < |r.report.answers| ==>
              r.report.answers[i].percentage == Percent(r.report.answers[i].group.count, db.AnswerCount(id))
    ensures r.Found? ==> r.report.top5Pct == Percent(Top5Count(Groups(r.report)), db.AnswerCount(id))
    ensures r.Found? ==> r.report.top5Pct <= 100 && (r.report.totalCount > 0 && |r.report.answers| <= 5 ==> r.report.top5Pct == 100)
  {
    match QuestionById(db.questions, db.categories, id)
    case None => NotFound
    case Some(q) =>
      var gs := db.GetAnswersGrouped(id);
      var report := ReportOf(gs);
      assert Groups(report) == gs;
      Found(q, report)
  }

  /** The groups of a report, without their shares. */
  function Groups(report: Report): (gs: seq<Group>)
    ensures |gs| == |report.answers| && forall i :: 0 <= i < |gs| ==> gs[i] == report.answers[i].group
  {
    seq(|report.answers|, i requires 0 <= i < |report.answers| => report.answers[i].group)
  }
}

# Grand sondage — a verified model of the survey core

Grand sondage is a crowd survey. Players answer short questions against a
30-second countdown. The server caps each question at a hundred answers and
throttles every address to one request per 800 ms. The admin pages show, for
each question, how the answers group once lowercased and trimmed, how much of
them the five biggest groups cover, let the admin merge groups under one
canonical text, and export everything as CSV.

This project models, in Dafny, the parts of the three core files that decide
something:

- **server.js** (module `Server`, plus `Coverage` and `Csv`):
  - the admission of an answer (`POST /api/answers`: validation, the 200-character limit, the 100-answer cap);
  - the per-address rate limiter and its minute sweep, as a class over a map;
  - the merge request's validation;
  - the question deletion route;
  - the per-question report: percentages, top-5 coverage and its status;
  - the CSV export: quoting, per-question totals and lines.
- **db.js** (modules `Store`, `Tables`, `Grouping`, `Placeholders`, `Strings`):
  - the store as a class whose tables are sequences of rows (settings is a map), with one method per query and the row-level effect of its SQL as SQLite runs it;
  - the `$n` → `?` placeholder rewrite;
  - `get`;
  - the grouped-answers query;
  - the merge;
  - the banned-word and correction upserts;
  - the settings;
  - the cascade delete;
  - `init`: the one-time migration, the default categories and the three idempotent seed loops.
- **public/js/survey.js** (module `Survey`): the player's page as a state machine (`View`, `Step`, `Run`) and as a class whose methods update the page's variables. Each awaited request is given by its reply. The interval's handle is an input.

Behaviour of the code worth knowing:

- A merge whose canonical text is only whitespace is accepted. It gives the merged answers an empty text.
- On the page, every reply to a submission other than the "incoherent answer" error marks the question as answered. This includes the 429 of the rate limiter, the 410 of a full question and a network failure. The server.js handler never sends that error message, so with this server the branch that asks again is never taken.
- The sweep keeps an entry seen exactly 60 000 ms ago. It forgets only entries that could no longer throttle anything (`Server.SweepKeepsVerdicts`).

## Model

| member | source | states |
|---|---|---|
| Strings.Trim | server.js:178 | the trim is empty exactly when every character is whitespace; otherwise it starts and ends with a non-whitespace character and is no longer than the input |
| Strings.TrimIsSlice | server.js:178 | the trim is the one slice whose borders are whitespace and whose ends are not |
| Strings.TrimIdempotent | server.js:178 | trimming twice is trimming once |
| Strings.SqlLower | db.js:240 | SQLite's `LOWER` lowers the ASCII capitals, by 32 code points each, and nothing else, keeping the length |
| Strings.JsLower | db.js:232 | `toLowerCase` lowers ASCII and Latin-1 capitals and keeps the length |
| Strings.SqlKeyIdempotent | db.js:203 | a group's `normalized` key is its own key, so selecting it selects that group |
| Strings.SqlLowerCommutesWithTrim | db.js:240 | SQL's `LOWER` and `TRIM` commute |
| Strings.KeysAgreeOnAscii | db.js:231-243 | on printable ASCII, the merge code's `t.toLowerCase().trim()` equals SQL's `LOWER(TRIM(t))` |
| Strings.SqlKey | db.js:203 | the SQL key `LOWER(TRIM(text))` is no longer than the text, has no space at either end and no ASCII capital, and is empty exactly when the text is only spaces |
| Strings.JsKey | db.js:232 | the merge code's key `t.toLowerCase().trim()` is no longer than the text, has no JavaScript whitespace at either end and no ASCII or Latin-1 capital |
| Strings.Utf16Length | server.js:179 | `length` counts UTF-16 code units: between one and two per character, zero only for the empty string |
| Placeholders.DigitRun | db.js:36 | the longest run of digits at the start of a string |
| Placeholders.PlaceholderLength | db.js:36 | a match of `/\$\d+/` takes the `$` and every digit after it, stopping at the first non-digit |
| Placeholders.Rewrite | db.js:36 | the rewrite never lengthens the SQL, and each of its characters is a `?` or a character of the input (its meaning is in the lemmas below) |
| Placeholders.RewriteHead | db.js:36 | a rewrite starts with `?` at a placeholder, and with the input's first character otherwise |
| Placeholders.NoPlaceholderLeft | db.js:36 | after the rewrite, no `$` is followed by a digit anywhere |
| Placeholders.RewriteWithoutDollar | db.js:36 | SQL without `$` passes through unchanged |
| Placeholders.RewriteBindsAlike | db.js:31-58 | with placeholders numbered `$1`, `$2`, ... in order and no `?` of its own, SQLite binds the rewritten statement exactly as PostgreSQL binds the original |
| Tables.First | db.js:40-43 | `get`: the first row, and `null` exactly when there are no rows |
| Tables.TextsOf | db.js:203 | the texts of a question's answers are at most all the answers |
| Tables.CountFor | db.js:182-184 | a question's answer count is at most the number of answers |
| Tables.CountZero | db.js:182-184 | a question has no answers exactly when no answer refers to it |
| Tables.CountAfterInsert | db.js:174-176 | an inserted answer adds one to its own question's count and nothing to any other |
| Tables.MergeUpdate | db.js:239-241 | each row is rewritten to the canonical text exactly when it answers the question and its `LOWER(TRIM(text))` is a selected key; every other row is left unchanged |
| Tables.JsKeys | db.js:232 | the selection's keys, each `t.toLowerCase().trim()` |
| Tables.SqlKeys | db.js:231-243 | the selection's keys, each normalised as SQL normalises stored texts |
| Tables.MergeAsWritten | db.js:231-243 | the merge as written (JavaScript-lowered selection): keeps every row in place, changes only the text, and only of answers of the question, which then have the canonical text |
| Tables.Merge | db.js:231-243 | the corrected merge (selection normalised as SQL normalises): the same guarantees, and `MergeRewritesGroup` shows it rewrites a selected group |
| Tables.MergeRewritesGroup | db.js:231-243 | selecting a group by its key rewrites every answer of that group; answers of other questions never change |
| Tables.MergeAsWrittenMissesGroup | db.js:232-241 | counterexample: the group "Été" is left unmerged as written, and merged by the corrected merge |
| Tables.MergeAgreesOnAscii | db.js:232-241 | on printable ASCII selections, the merge as written equals the corrected one |
| Tables.MergeKeepsCounts | db.js:239-241 | a merge keeps every question's answer count |
| Tables.MergeIdempotent | db.js:239-241 | merging the same selection twice is merging it once |
| Tables.AnswersNotOf | db.js:227 | keeps exactly the answers of other questions |
| Tables.QuestionsExcept | db.js:228 | keeps exactly the questions with another id |
| Tables.DeleteKeepsOtherCounts | db.js:226-229 | after the cascade the deleted question has no answers, and every other question keeps its count |
| Tables.Lookup | db.js:126 | `SELECT id ... WHERE key = k` via `get`: the first row with the key, else none |
| Tables.LookupFound | db.js:126 | the lookup finds a row exactly when the key is among the table's keys |
| Tables.ToInsert | db.js:124-130 | a seed loop inserts only seeds whose key is not yet present |
| Tables.SeedingCovers | db.js:124-149 | after a seed loop, every seed's key is present |
| Tables.SeedingDistinct | db.js:124-149 | a seed loop never inserts two rows with one key |
| Tables.SeedingIdempotent | db.js:124-149 | a second run of a seed loop inserts nothing |
| Tables.NewRows | db.js:128 | the appended rows get consecutive ids from the counter |
| Tables.SeededCovers | db.js:124-149 | every seed's key is in the seeded table |
| Tables.SeededNothing | db.js:124-149 | when every key is present, the table and its counter are unchanged |
| Tables.SeededDistinct | db.js:124-149 | seeding keeps the keys of a table distinct |
| Tables.SeedRows | db.js:134-137 | the loop itself: its result is the seeded table; every seed is present, keys stay distinct, and nothing changes when all were present |
| Grouping.MinText | db.js:203 | `MIN(text)`: one of the two texts, and not above either |
| Grouping.Occurrences | db.js:203 | the number of texts with a key is at most the number of texts |
| Grouping.Find | db.js:203 | the first group with a key, or none, and no earlier group has it |
| Grouping.AddRow | db.js:203 | one more row bumps its key's group, or opens a new group at the end; the total grows by one |
| Grouping.AddRowGroups | db.js:203 | adding a row keeps the groups exactly those of the texts seen |
| Grouping.GroupAll | db.js:203 | `GROUP BY LOWER(TRIM(text))`: one group per key, with its exact count and smallest text, totalling the rows |
| Grouping.Insert | db.js:203 | insertion keeps every group and adds the new one |
| Grouping.InsertSorted | db.js:203 | insertion keeps the counts in descending order |
| Grouping.SortDesc | db.js:203 | `ORDER BY count DESC`: the same groups, counts descending |
| Grouping.SortDescDistinct | db.js:203 | sorting keeps the keys distinct |
| Grouping.ReorderedGroups | db.js:203 | any reordering of the groups is still the grouping of the texts |
| Grouping.Grouped | db.js:201-207 | the grouped query: one group per distinct key, exact counts summing to the number of texts, largest first |
| Store.CatIds | db.js:107-109 | every category's name is a key of `catMap`, and the last category's id wins for its name |
| Store.CatIdsKeys | db.js:107-109 | `catMap` has exactly the categories' names as keys |
| Store.CatIdsOfUniqueNames | db.js:107-109 | with unique names, `catMap` sends each name to its category's id |
| Store.Resolve | db.js:111-122 | each seed's category name is resolved through `catMap`, and is `undefined` exactly when the name is missing |
| Store.UsableSeeds | db.js:124-125 | `if (!catId) continue`: exactly the seeds with a non-zero id are kept, with their ids; never more than the seeds, and a usable first seed stays first |
| Store.CorrectionsWithout | db.js:301 | `INSERT OR REPLACE` first deletes exactly the rows with the same `wrong` |
| Store.WithoutKeepsDistinct | db.js:301 | that deletion keeps the `wrong` values distinct |
| Store.StoredTime | db.js:175 | `responseTime \|\| null`: a missing or zero time is stored as NULL, any other as given |
| Store.DefaultsFit | db.js:99-104 | the three default categories have distinct names and fresh ids, and none is the legacy category |
| Store.Database.constructor | db.js:77-85 | a fresh database has empty tables and no settings |
| Store.Database.GetSetting | db.js:252-255 | the stored value, or `null` exactly when the key was never set |
| Store.Database.GetAnswersGrouped | db.js:201-207 | the groups of the question's answers by `LOWER(TRIM(text))`, counts descending and summing to its answer count |
| Store.Database.InsertAnswer | db.js:174-176 | stores exactly when a question has the id (the foreign key of db.js:80): then appends one row, the question's count grows by one and nothing else changes; otherwise the store is unchanged |
| Store.Database.MergeAnswers | db.js:231-243 | the answers become the corrected merge of the old ones; every count and every other table is unchanged |
| Store.Database.DeleteQuestion | db.js:226-229 | no answer or question with the id remains; other questions keep their answers and counts; nothing else changes |
| Store.Database.AddBannedWord | db.js:278-286 | exactly one row has the word, and it is returned; a present word leaves the table as it was; an absent one is appended with the next id |
| Store.Database.AddCorrection | db.js:296-304 | the row with that `wrong` is replaced by one with the new `correct` and a fresh id; exactly one row has that `wrong`; other corrections are kept |
| Store.Database.SetSetting | db.js:257-263 | afterwards `getSetting` gives the new value for the key and the old one for every other key |
| Store.Database.CategoryMap | db.js:107-109 | `catMap` sends each category's name to its id and has no other keys |
| Store.Database.SeedQuestions | db.js:124-130 | inserts each usable seed whose text is missing; afterwards every usable seed's text is present; a second run changes nothing |
| Store.Database.SeedBannedWords | db.js:133-137 | inserts each missing word; afterwards every seed word is present; a second run changes nothing |
| Store.Database.SeedCorrections | db.js:140-149 | inserts each missing `wrong`; afterwards every seed `wrong` is present; a second run changes nothing |
| Store.Database.Migrate | db.js:91-104 | with the legacy category, every answer, question and category is deleted; an empty category table gets the defaults; afterwards there is no legacy category and some category exists |
| Store.Database.Seed | db.js:106-153 | the seed loops and `auto_merge`: afterwards the store is initialised, and on an initialised store nothing changes |
| Store.Database.Init | db.js:62-154 | afterwards every seed is present and `auto_merge` is set; running init on an initialised store changes nothing, so two runs add no duplicates |
| Coverage.Percent | server.js:274 | `Math.round(part / whole * 100)`: 0 for no answers, at most 100 for a part of the whole |
| Coverage.PercentNearest | server.js:274 | the percentage is the integer nearest to `100 * part / whole`, with a half rounded up |
| Coverage.PercentOfWhole | server.js:274 | the whole of the answers is 100 percent |
| Coverage.Top5Count | server.js:272-273 | the first five groups cover at most every answer, and all of them when there are five groups or fewer |
| Coverage.StatusOf | server.js:276-281 | neutral exactly under 20 answers; otherwise exactly one of good (60 to 85), concentrated (above 85) or scattered (below 60) |
| Coverage.Shares | server.js:285-288 | each group keeps its place and gets `Math.round(count / totalCount * 100)` |
| Coverage.ReportOf | server.js:268-292 | the total is the sum of the counts; the shares are each group's rounded percentage of it, and the top-5 share is the rounded percentage of the first five groups' answers; all lie in 0..100; no answers gives 0 and neutral; five groups or fewer give 100; the status follows the thresholds |
| Coverage.SharesWithinHundred | server.js:283-288 | no group's share exceeds 100 |
| Coverage.SingleGroupIsEverything | server.js:283-292 | a single group is 100 percent, and so is the top 5 |
| Server.ThrottleWindow | server.js:127-130 | an address never seen, or recorded at 0, is never throttled; one recorded at `t` is throttled exactly before `t + 800` ms |
| Server.AfterRequest | server.js:125-133 | a throttled request leaves the map alone; any other records `now` for the address |
| Server.Fresh | server.js:118-123 | the sweep keeps exactly the entries seen at most 60 000 ms before `now`, with their times |
| Server.SweepKeepsVerdicts | server.js:118-133 | at `now` and later, the sweep changes no verdict of the limiter |
| Server.Admitted | server.js:125-133 | the limiter lets through at most the requests made |
| Server.AdmittedSpaced | server.js:116-133 | requests at positive non-decreasing times are let through at least 800 ms apart, and at least 800 ms after the recorded time |
| Server.RateLimiter.constructor | server.js:115 | the map starts empty |
| Server.RateLimiter.Admit | server.js:125-133 | a request is refused exactly when the address was seen less than 800 ms ago; a refused request keeps the old timestamp, an allowed one records `now` |
| Server.RateLimiter.Sweep | server.js:118-123 | the loop deletes exactly the entries older than a minute and leaves the others unchanged |
| Server.CheckAnswer | server.js:173-181 | accepted exactly with a non-zero id and a string whose trim has 1 to 200 UTF-16 units; the value is that trim; every refusal is a 400, "invalid answer" exactly for a falsy id or a missing or non-string text |
| Server.CheckAnswerStable | server.js:178-189 | an accepted answer sent again as it was stored is accepted unchanged |
| Server.CheckAnswerIgnoresPadding | server.js:178-181 | whitespace around a text changes neither the verdict nor the stored text |
| Server.AnswerResponse | server.js:172-191 | the 429 comes first, then the 400s, then the 410 at 100 answers, then the 500 of the failed insert for an unknown question; `ok` exactly when none applies |
| Server.PostAnswer | server.js:172-191 | only an `ok` response stores the trimmed answer, and only for an existing question (an unknown id makes the insert throw: 500); any refusal leaves the store unchanged; a question never goes past 100 answers; an allowed request is recorded by the limiter even when refused later |
| Server.StringItems | server.js:300 | the strings of the array, in order |
| Server.CheckMerge | server.js:296-301 | 400 exactly for a falsy id, a missing or non-array list, or a falsy canonical text; a non-string item or canonical text throws (500); an accepted request keeps the texts and trims the canonical text |
| Server.PostMerge | server.js:295-303 | a refused merge changes nothing; an accepted one merges the selected answers under the trimmed canonical text; every count and every other table is unchanged |
| Server.DeleteQuestionRoute | server.js:255-262 | no answer and no question with the id remain; every other answer and question is kept |
| Server.QuestionById | server.js:83 | `getQuestionById`: a question with the id whose category exists, and `undefined` exactly when there is none |
| Server.QuestionReport | server.js:264-293 | 404 exactly when the question is missing; otherwise the report of its grouped answers: most frequent first, totalling its answer count, each share the rounded percentage of that count, the top-5 share the rounded percentage of the first five groups' answers, in 0..100 |
| Server.Groups | server.js:285-286 | the groups of a report, in order |
| Csv.DoubleQuotes | server.js:317 | `replace(/"/g, '""')` never shortens the text |
| Csv.Escape | server.js:317 | `escape` gives a text between double quotes |
| Csv.UnquoteDoubled | server.js:317 | a CSV reader turns the doubled text back into the original and stops at the closing quote |
| Csv.EscapeRoundTrip | server.js:317 | an escaped field reads back as exactly the original text, followed by whatever came after it |
| Csv.NatString | server.js:318 | a count is written as a non-empty string of decimal digits |
| Csv.NatStringValue | server.js:318 | those digits read back as the count |
| Csv.TotalsById | server.js:307-311 | the corrected totals: each question's total is the sum of its rows' counts, and every row's question has one |
| Csv.TotalsByText | server.js:307-311 | the totals as written, keyed by question text: every row's text has one, and it is the sum of the counts of all rows with that text, whatever their question |
| Csv.RowWithinSum | server.js:315-316 | a row's count is part of its question's total |
| Csv.LoneRowIsSum | server.js:315-316 | the only row of its question holds that question's total |
| Csv.NoRowNoSum | server.js:315-316 | a question without rows totals zero |
| Csv.Totals | server.js:307-311 | the `forEach` loop, keyed by question id as corrected (not by text as written): its result is `TotalsById`, each id's total the sum of its rows' counts |
| Csv.Export | server.js:305-324 | the export is the header followed by one line per row, each with its share of its own question's answers (the corrected totals) |
| Csv.ExportShares | server.js:315-316 | every exported share lies in 0..100, and a group alone in its question is 100 |
| Csv.TotalsByTextMixesQuestions | server.js:307-316 | counterexample: with two questions of the same text and one answer each, each line shows 50 percent as written and 100 percent once corrected |
| Csv.Line | server.js:317-318 | a line opens with the category's quote and ends with `%` and a newline; `LineFields` reads its fields back |
| Csv.Lines | server.js:312-319 | the lines are empty exactly when there are no rows, and otherwise end with a newline |
| Csv.LineFields | server.js:317-318 | a reader recovers the category, question and answer of each line, whatever they contain |
| Survey.TimerColor | public/js/survey.js:22 | green exactly above 15 seconds, orange exactly from 9 to 15, red exactly from 8 down |
| Survey.Started | public/js/survey.js:24-33 | `startTimer`: 30 seconds left in their colour, running under the new interval |
| Survey.Stopped | public/js/survey.js:44 | `stopTimer` always leaves no interval |
| Survey.StopIdempotent | public/js/survey.js:44 | stopping twice is stopping once |
| Survey.Ticked | public/js/survey.js:33-41 | a second less, in its colour; at zero or below, the interval stops and the timeout screen shows; answered ids and question unchanged |
| Survey.Countdown | public/js/survey.js:33-41 | before zero, `n` ticks only lower the seconds by `n` and recolour them |
| Survey.TimeoutAfterDuration | public/js/survey.js:24-41 | an unanswered question runs for 29 ticks and times out on the thirtieth, at zero, in red |
| Survey.Remember | public/js/survey.js:99-100 | the current question joins the answered ids, which are stored; with no question nothing changes |
| Survey.Loaded | public/js/survey.js:54-78 | `loadNext`: a new question with an empty usable input and a full countdown; `done` with no question left or on failure; the answered ids are unchanged |
| Survey.AnswerBody | public/js/survey.js:82-87 | a body exactly when a question is shown and the input is not blank: the question's id and the trimmed input, non-empty and with no whitespace at either end |
| Survey.Replied | public/js/survey.js:88-102 | on "incoherent" the question is asked again with an empty enabled input, the hint and a full countdown, not answered; after any other reply it is answered, stored, and "registered" shows |
| Survey.Submitted | public/js/survey.js:81-103 | nothing happens with a blank input or no question; on "incoherent" the question is asked again with an empty enabled input and a full countdown, not answered; after any other reply, failures included, the timer is stopped, the input disabled, the question answered and "registered" shows |
| Survey.Skipped | public/js/survey.js:106-110 | `skip`: stop, remember the current question, then load the next one |
| Survey.InitialInv | public/js/survey.js:2-4 | the page starts in the invariant |
| Survey.StepKeepsInv | public/js/survey.js:112-118 | every handler keeps the invariant, and no id leaves the answered set |
| Survey.RunKeepsInv | public/js/survey.js:112-118 | along any run of events the invariant holds and `answeredIds` only grows |
| Survey.ServerTakesBody | public/js/survey.js:82-87 | the body the page posts is never the server's "invalid answer", and is stored exactly as sent when it fits in 200 UTF-16 units |
| Survey.Client.constructor | public/js/survey.js:2-4 | the script starts from the stored ids on the welcome screen |
| Survey.Client.StartTimer | public/js/survey.js:24-42 | the page after `startTimer` is `Started` |
| Survey.Client.Tick | public/js/survey.js:33-41 | the interval's callback is `Ticked` |
| Survey.Client.StopTimer | public/js/survey.js:44 | the page after `stopTimer` is `Stopped` |
| Survey.Client.LoadNext | public/js/survey.js:54-78 | the page after `loadNext` is `Loaded` |
| Survey.Client.Submit | public/js/survey.js:81-103 | the page after `submit` is `Submitted` |
| Survey.Client.Reply | public/js/survey.js:88-102 | the page once the reply is in is `Replied`: asked again after "incoherent", answered after anything else |
| Survey.Client.Skip | public/js/survey.js:106-110 | the page after `skip` is `Skipped` |
| Survey.Client.Handle | public/js/survey.js:112-118 | each wired handler changes the page as `Step` does |

## Left out

- Other routes and queries are not part of this model:
  - server.js: the next-question route, statistics, question and category CRUD, login, reset;
  - db.js: `getAvailableQuestion`, `incrementSkip`, `incrementRejected`, `getExistingAnswers`, the getters of lists.
- server.js's own schema and first seed (server.js:20-61) are not modelled. The store, its schema and its init are those of db.js.
- Setting up the database driver and its connection is not modelled. So is the PostgreSQL path, except that `Placeholders.BindNumbered` is the reference for the placeholder rewrite. Where the drivers differ, the model follows SQLite: `INSERT OR REPLACE` gives a replaced correction a fresh id.
- The SQL engine is not modelled. Each statement is its row-level effect.
- The schema DDL and the `ALTER TABLE` steps of init are not modelled.
- Floating point is not modelled. Percentages are rounded exactly on rationals, as the integer nearest to `100 * a / b` with a half going up. Doubles can differ from this at exact halves.
- Server.CheckAnswer: the question id is an integer, and 0 stands for every falsy id (missing, `null`, `0`, `""`). A non-numeric id, and SQLite's type affinity when comparing it, are not modelled.
- Server.CheckMerge: for the same reason, an id that is a string is not modelled.
- Server.PostAnswer: the rate limiter reads `Date.now()` twice; the model uses one `now` for both. The answer is inserted through the store's `insertAnswer` with no response time, which has the same row-level effect as server.js's own statement. The foreign key on `question_id` is taken as enforced, as PostgreSQL and better-sqlite3 do by default.
- Server.PostMerge: it implements the corrected merge of "## Findings" (`Tables.Merge`), not the JavaScript lowering of server.js:300 as written (`Tables.MergeAsWritten`). The two agree on printable ASCII selections (`Tables.MergeAgreesOnAscii`).
- Store.Database.MergeAnswers: it implements the corrected merge of "## Findings" (`Tables.Merge`), not the JavaScript lowering of db.js:232 as written (`Tables.MergeAsWritten`). The two agree on printable ASCII selections.
- Store.Database: the invariant `Valid` holds the UNIQUE constraints and the category ids. That every stored answer refers to an existing question is not part of it; only new answers are checked, by `InsertAnswer`.
- Server.RateLimiter.Sweep: the minute `setInterval` is not modelled. `Sweep(now)` is its body.
- Server.QuestionReport: server.js's grouped statement (server.js:84-89) reads a bare `text as sample_text`, for which SQLite picks any text of the group. The model uses db.js's `MIN(text)` (db.js:203).
- Grouping.Grouped: SQL leaves the order of groups with equal counts unspecified. The model fixes one order, and its contract promises only what SQL promises.
- Strings.JsLower: `toLowerCase` is modelled for ASCII and Latin-1 capitals only. Other scripts are left unchanged, where JavaScript would lower them.
- Strings.SqlLower: this is SQLite without ICU, which lowers ASCII only.
- Strings.Utf16Length: a Dafny string holds Unicode scalar values, so a JavaScript string with a lone surrogate cannot be represented. The length is that of well-formed text.
- Placeholders.BindNumbered: like `Placeholders.BindPositional`, it accepts parameters beyond those the statement uses, which both drivers would reject. Both accept them alike, so `RewriteBindsAlike` is unaffected.
- The text of Express's 500 page is not modelled. A thrown handler is `Error(500, "")`.
- Store.Database.Init: the seed loop's `continue` on a missing category is a filter of the seeds (`Store.UsableSeeds`).
- Survey.Client: the DOM is not modelled:
  - the bar width, the texts, the fire counter, `updateAlready`, focus and the `dim` class.
- Survey.Client: the `localStorage` write is the `saved` copy of the ids. A stored list that fails to parse is not modelled; it would stop the script at start.
- Survey.Client: each `await` is treated as atomic, and a fetch's outcome is an input. Clicks during a pending request are not modelled.
- Survey.Client.StartTimer: `startTimer` overwrites `timer` without clearing a previous interval. With atomic awaits it only runs after `stopTimer`, so the leak this allows under overlapping loads is not modelled.
- Csv.Export: it computes the corrected shares of "## Findings", each of its own question's answers (`Csv.TotalsById`), not the shares by question text of server.js:313-315 as written (`Csv.TotalsByText`). The two agree when question texts are distinct. Each row carries its question id, as db.js's export selects it (db.js:247); server.js's own export statement (server.js:103-110) selects none.
- Csv.Totals: it keys the totals by question id, the correction of "## Findings", where server.js:307-311 keys them by question text (`Csv.TotalsByText` models that).
- Csv.Export: the export query (joins, grouping, order) is not modelled. Its rows are the input. The response headers are not modelled.
- Sessions, `requireAdmin`, static files and `app.listen` are not modelled.

## Findings

| source | as written | input that shows it | evidently intended | confidence | as-written member | corrected member |
|---|---|---|---|---|---|---|
| db.js:231-243 | the selected texts are lowered by JavaScript's `toLowerCase`, but compared against SQLite's `LOWER(TRIM(text))`, which lowers ASCII letters only; server.js:300-301 does the same | an answer "Été" of question 1, selected by its group key "Été": the merge code looks for "été" and the row is never rewritten | every answer of a selected group takes the canonical text | not executed; holds for SQLite built without ICU, the default | Tables.MergeAsWrittenMissesGroup | Tables.MergeRewritesGroup |
| server.js:307-316 | `totalByQuestion` is keyed by the question's text, so questions with the same text share one total | two questions with the text "Q", one answer each: each line shows 50% | each share is of its own question's answers; the export query groups by question id, which db.js's export selects as `question_id` (db.js:247) | not executed | Csv.TotalsByTextMixesQuestions | Csv.ExportShares |

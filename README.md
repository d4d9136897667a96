# quizAPI data access, modelled in Dafny

This project models the data-access core of quizAPI, an Express and MySQL
quiz question bank. It covers:

- **The generic repository** (`BaseRepository`). This is the SQL text and
  bound parameters that `findAll`, `findById`, `create`, `update`, `delete`
  and the paginated queries build. It also covers the pagination arithmetic
  and the `{data, pagination}` envelope.
- **The pool wrapper** (`DBConnection`). `query` runs a statement straight on
  the pool. `transaction(callback)` borrows a connection, begins, runs the
  callback, commits or rolls back, and releases. `ping` reports whether
  `SELECT 1` resolves.
- **The question repository** (`QuestionRepository`). This is the list query
  (questions LEFT JOIN users, newest first, one page) and the single-question
  lookup.
- **The `/questions` router**:
  - the paginated list;
  - the lookup by id;
  - question creation: a question row, then its choices or its text answer,
    then its explanation.
- **The handlers in `main.js` that hold logic**:
  - `validateRequest` and `errorHandler`;
  - the `/correct_choices` check;
  - `DELETE /questions/delete/:id`, which deletes a question's answers, then
    its choices, then the question row.

The store is four tables (plus `users`) held as sequences of rows
(`Store.Tables`). Each write statement has the effect its SQL text states:
- an `INSERT` appends one row and advances the AUTO_INCREMENT counter;
- `DELETE ... WHERE question_id = ?` removes exactly the matching rows.

JavaScript values are `Values.Value`: `undefined`, `null`, integers, strings
and booleans, with `===` and truthiness written out.

Anything the program learns from outside is a parameter of the model:
- whether the pool, a statement, `beginTransaction`, `commit` or `rollback`
  rejects;
- the clock that fills `create_at`.

Where the code state changes step by step, the model is imperative:
- `DBConnection.Database` holds the committed tables.
- `DBConnection.Connection` holds the transaction phase, its uncommitted
  writes and the calls made on it.
- The create route, its choice loop and the delete route are methods proved
  against specification functions (`CreateTables`, `CreateResponse`,
  `DeleteTables`, `DeleteResponse`). Lemmas state what those functions
  promise.

Files:

| file | module | covers |
|---|---|---|
| values.dfy | Values | JavaScript values, errors, results, responses |
| sql_text.dfy | SqlText | `join`, `?` counting, decimal rendering, reading lists back |
| base_repository.dfy | BaseRepository | database/BaseRepository.js |
| store.dfy | Store | rows, tables, and the effect of each write statement |
| db_connection.dfy | DBConnection | database/DBConnection.js |
| question_repository.dfy | QuestionRepository | repositories/QuestionRepository.js |
| question_routes.dfy | QuestionRoutes | routes/questions.js |
| main_routes.dfy | MainRoutes | main.js |

Where the code differs from the documented design, the model follows the
code:

- **List filter.** The list route chooses the type-filtered lookup when
  `type` is *truthy*, not merely present. So `?type=` (an empty string) is
  answered like a request with no `type`: the plain listing, first page of
  ten rows by default (`QuestionRoutes.ListDefaults`).
- **Missing fields.** The create route checks none of its body fields.
  mysql2's `execute` rejects any statement that binds `undefined`, so a
  missing title, text, type, userId, answer or explanation, or a choice
  without `text` or `isCorrect`, makes that statement reject and the route
  answer 500 (`QuestionRoutes.CreateSucceedsIffWritable`).
- **Choices.** `choices` is walked with `for...of`. A value that cannot be
  iterated throws before any choice is inserted. A `null` element throws on
  `.text`. A string iterates its characters, which have no `text`
  (`QuestionRoutes.StringChoicesOutcome`).
- **Atomicity.** Creation is not atomic (first finding below).
- **Delete.** The delete route never deletes explanations.
- **Lookup ordering.** Neither `get_correct_choices` nor the
  `JSON_ARRAYAGG` of `findAllWithDetailsPaginated` orders choices.
  `ChoiceRepository.findByQuestionId` does (`ORDER BY id`), but it is not
  part of this model.
- **Aggregation placeholders.** No query strips the placeholder entry that
  `JSON_ARRAYAGG` yields for a question without choices.

## Model

| member | source | states |
|---|---|---|
| Values.StrictEqualsIsIdentity | main.js:88 | `===` on the modelled values holds exactly for equal values of the same type |
| SqlText.SplitJoin | database/BaseRepository.js:19 | a `", "`-joined list of comma-free column names splits back into the same names |
| SqlText.IntToDecimalRoundTrip | database/BaseRepository.js:57-60 | an integer written into a template literal reads back as the same integer, and its text has no `?`, comma or space |
| BaseRepository.KeyedStatementsBindId | database/BaseRepository.js:11-16 | `findById` and `delete` each have exactly one `?` and bind exactly `[id]` |
| BaseRepository.CreateBindsEachValue | database/BaseRepository.js:18-26 | `create` has one `?` per key and binds the values in key order, unchanged |
| BaseRepository.CreateReadsBack | database/BaseRepository.js:19-24 | the INSERT text names exactly the keys of `data` in order, against one `?` each |
| BaseRepository.UpdateBindsValuesThenId | database/BaseRepository.js:30-39 | `update` has one `key = ?` per key plus `id = ?`, and binds the values in key order followed by the id |
| BaseRepository.UpdateReadsBack | database/BaseRepository.js:31-37 | the SET clause names exactly the keys of `data`, in order |
| BaseRepository.TotalPagesIsCeiling | database/BaseRepository.js:74 | `totalPages` is the least page count whose pages hold `total` rows; it is 0 iff `total` is 0 |
| BaseRepository.DefaultOffsetIsZero | database/BaseRepository.js:51-54 | the defaults `page = 1, limit = 10` start at offset 0 |
| BaseRepository.PagesPartitionRows | database/BaseRepository.js:51-60 | pages 1..totalPages of LIMIT/OFFSET cover every row once, in order, and there are exactly `totalPages` of them |
| BaseRepository.PageBounds | database/BaseRepository.js:54-59 | a page holds at most `limit` rows, and is non-empty iff `page <= totalPages` |
| BaseRepository.DataQueryCarriesLimitAndOffset | database/BaseRepository.js:52-60 | the data query carries `numLimit` and `(page - 1) * limit` in its text and has no `?` |
| BaseRepository.DataQueryReadsBack | database/BaseRepository.js:57-60 | the LIMIT and OFFSET numbers read back out of the data query are the ones written in |
| BaseRepository.DataQueryHasNoMarks | database/BaseRepository.js:57-60 | the data query binds nothing: its text has no `?` |
| BaseRepository.FindAllPaginated | database/BaseRepository.js:62-80 | resolves iff both queries resolve; a rejection is rethrown unchanged; the envelope carries the rows, the count, page, limit and `totalPages = TotalPages(count, limit)`, the ceiling of count/limit, 0 iff the count is 0 |
| BaseRepository.ConsistentEnvelope | database/BaseRepository.js:51-76 | with the count and page taken from the same rows, the page is at most `limit` long and non-empty iff `page <= totalPages` |
| BaseRepository.DetailsBindsLimitThenOffset | database/BaseRepository.js:84-110 | binds `[limit, (page - 1) * limit]`, in that order, and its text has exactly two `?`, one per bound value |
| BaseRepository.DetailsSelectHasNoMarks | database/BaseRepository.js:86-104 | the select, joins and grouping before ` LIMIT ? OFFSET ?` contain no `?` |
| Store.FilterKeepsExactly | mysql.js:105-115 | a row is in the result of the filter behind each DELETE iff it was in the table and does not match, and the table comes back whole when nothing matches |
| Store.FilterCounts | mysql.js:105-115 | the filter keeps each non-matching row as many times as it occurs and drops every matching one |
| Store.FilterAppend | mysql.js:105-115 | filtering a concatenation is concatenating the filters, so the surviving rows keep their order |
| Store.ApplyAllAppend | database/DBConnection.js:34-48 | running two batches of statements in turn is running them as one batch |
| Store.DeleteAnswersRemovesExactlyMatching | mysql.js:105-107 | `DELETE FROM answers WHERE question_id = ?` removes exactly that question's answers; every other answer stays, with its multiplicity and in its order; no other table changes; the header reports 0 rows iff nothing changed |
| Store.DeleteChoicesRemovesExactlyMatching | mysql.js:109-111 | the same for choices |
| Store.DeleteQuestionRemovesExactlyMatching | mysql.js:113-115 | the same for the question row with that id |
| Store.FilterLengthEqual | mysql.js:105-115 | a DELETE that affects no rows leaves its table unchanged |
| Store.InsertsAppendOneRow | routes/questions.js:41-68 | each INSERT reports one affected row and appends exactly one row, holding the bound values, to its own table; a question or choice row gets the reported `insertId`, and only that table's counter moves; every other table is unchanged |
| Store.ApplyKeepsIdsBelowCounters | routes/questions.js:41-53 | every write keeps stored ids below the AUTO_INCREMENT counters, so the `insertId` an INSERT reports is new to its table |
| Store.BindsUndefinedExactly | routes/questions.js:41-67 | the driver refuses a write exactly when one of the values it binds is `undefined` |
| Store.QuestionInsertStatement | routes/questions.js:41-46 | the question row is `create` on `questions` with columns title, text, type and user_id, one `?` each, bound to the request values in that order |
| DBConnection.Database.Execute | database/DBConnection.js:24-32 | `query` on the pool commits its statement at once, or leaves the tables unchanged when it rejects |
| DBConnection.Connection.BeginTransaction | database/DBConnection.js:36 | `beginTransaction` opens the transaction, or rejects and leaves the connection borrowed but not open |
| DBConnection.Connection.Execute | database/DBConnection.js:39 | a statement on the connection is pending (seen by the connection, not yet committed); a rejection adds nothing |
| DBConnection.Connection.Commit | database/DBConnection.js:40 | commit writes every pending statement to the tables, or rejects and changes nothing |
| DBConnection.Connection.Rollback | database/DBConnection.js:43 | rollback discards every pending statement, or rejects and leaves them pending |
| DBConnection.Connection.Release | database/DBConnection.js:46 | release marks the connection returned and records the call |
| DBConnection.Begin | database/DBConnection.js:34-36 | borrowing rejects with no connection; otherwise a fresh connection whose begin either opened it or rejected, with no release made |
| DBConnection.Settle | database/DBConnection.js:38-47 | after the callback: commit on success, rollback on any rejection, always release; the result is the callback's value or the rethrown error, and the tables change by the pending writes only on commit |
| DBConnection.RunBody | database/DBConnection.js:39 | the callback's statements are executed on the connection, in order, each recorded as a call |
| DBConnection.Transaction | database/DBConnection.js:34-48 | `transaction` returns `TxResult`, makes the calls `TxCalls`, and changes the tables by the whole callback body or not at all |
| DBConnection.ExecCallsAt | database/DBConnection.js:39 | the i-th statement call is the i-th write |
| DBConnection.ReleaseExactlyOnceInsideTry | database/DBConnection.js:34-48 | once begin succeeds the connection is released exactly once; if borrowing or begin rejects, it is never released |
| DBConnection.CallbackOnlyAfterBegin | database/DBConnection.js:35-39 | every statement call comes after a successful begin, in body order |
| DBConnection.CommitOnlyAfterCallbackCompletes | database/DBConnection.js:39-40 | commit is called iff begin succeeded and the callback completed, and then right after its last statement |
| DBConnection.RollbackIffCallbackOrCommitFails | database/DBConnection.js:42-43 | rollback is called iff begin succeeded and the callback or the commit rejected |
| DBConnection.TxResultRethrows | database/DBConnection.js:34-45 | the result is the callback's value iff nothing rejects; a callback error is rethrown unchanged; a rejected commit rethrows the commit's error; a rejected rollback's error replaces either; a failed acquire or begin rejects with its own error |
| DBConnection.QueryRows | database/DBConnection.js:24-32 | `query` resolves to the rows of what the pool resolves and rethrows its error |
| DBConnection.Ping | database/DBConnection.js:54-62 | `ping` is true iff `SELECT 1` resolves |
| QuestionRepository.AuthorNullIffNoUser | repositories/QuestionRepository.js:38-40 | the join finds no user name iff no user has the question's `user_id`, and then `author_name` is NULL; a matching user whose name is NULL gives NULL too, so when no user's name is NULL, `author_name` is NULL iff no user matches |
| QuestionRepository.AuthorIsFirstMatchingUser | repositories/QuestionRepository.js:38-40 | otherwise it is the name of the first matching user |
| QuestionRepository.AtMostOneAuthor | repositories/QuestionRepository.js:40 | with unique user ids a question joins at most one user |
| QuestionRepository.LeftJoinOneRowPerQuestion | repositories/QuestionRepository.js:31-40 | with unique user ids the LEFT JOIN yields one row per question, in table order, with that question's author |
| QuestionRepository.InsertByDatePermutes | repositories/QuestionRepository.js:41 | inserting a row into the ordering adds exactly that row |
| QuestionRepository.InsertByDateKeepsOrder | repositories/QuestionRepository.js:41 | inserting a row into a newest-first sequence keeps it newest first |
| QuestionRepository.SortNewestFirstIsSortedPermutation | repositories/QuestionRepository.js:41 | `ORDER BY q.create_at DESC` returns the same rows, newest first |
| QuestionRepository.DataQueryBindsLimitThenOffset | repositories/QuestionRepository.js:42-47 | the data query binds `[limit, (page - 1) * limit]`, in that order, and its text has exactly two `?`, one per bound value |
| QuestionRepository.ListOrderedHasNoMarks | repositories/QuestionRepository.js:31-41 | the select, join and ordering before `LIMIT ? OFFSET ?` contain no `?` |
| QuestionRepository.FindAllPaginated | repositories/QuestionRepository.js:27-59 | as written (`executeQuery` undefined) it rejects with a TypeError; with a working executor it resolves iff both queries resolve, with the pagination of the question count |
| QuestionRepository.ListingIsNewestFirstPage | repositories/QuestionRepository.js:27-59 | with a working executor a page is newest first, holds at most `limit` joined rows, and is non-empty iff `page <= totalPages` |
| QuestionRepository.ListPageRows | repositories/QuestionRepository.js:31-42 | the selected page is newest first and holds only joined rows |
| QuestionRepository.ListingAsWrittenAlwaysFails | repositories/QuestionRepository.js:45-48 | as written listing rejects for every page and limit |
| QuestionRepository.FindQuestionWithDetails | repositories/QuestionRepository.js:22-23 | the first row of `[rows, fields]`, nothing when there are no rows, and the rejection passed on |
| QuestionRepository.DetailsFirstMatch | repositories/QuestionRepository.js:9-24 | run on the tables, the lookup finds nothing iff no question has the id, and otherwise returns that question's row with its author |
| QuestionRoutes.ListQuestions | routes/questions.js:6-16 | a truthy `type` answers 500; otherwise 200 with the envelope iff the listing resolves, else 500 "Internal server error" |
| QuestionRoutes.ListDefaults | routes/questions.js:7-11 | without page and limit, and with `type` absent or empty, the first ten newest rows are listed with page 1 and limit 10 |
| QuestionRoutes.ListAsWrittenAlwaysFails | routes/questions.js:6-16 | as written GET / answers 500 for every query |
| QuestionRoutes.GetQuestion | routes/questions.js:19-31 | 500 iff the lookup rejects, 404 iff it resolves to nothing, otherwise 200 with the question |
| QuestionRoutes.GetQuestionAsWritten | routes/questions.js:21-23 | as written the lookup is undefined, so GET /:id answers 500 and never 404 |
| QuestionRoutes.ChoiceInsertsInOrder | routes/questions.js:50-55 | the i-th choice insert names the question id and binds the i-th choice's `text` and `isCorrect` |
| QuestionRoutes.StringChoices | routes/questions.js:50 | a string `choices` yields one element per character, none with `text` or `isCorrect` |
| QuestionRoutes.LeadingItemsStopAtMissing | routes/questions.js:50-53 | the loop reads the elements in order, each choice being the element at its position, and stops early only at a `null` or `undefined` element, whose `.text` throws |
| QuestionRoutes.DependentsShape | routes/questions.js:48-68 | a `choice` question gets its choice inserts in order up to the first unreadable element and no answer, then the explanation iff every element was readable; a non-iterable `choices` gets nothing; any other type gets exactly its answer then its explanation; only the last statement can be the explanation |
| QuestionRoutes.FirstRejectedIsFirst | routes/questions.js:50-68 | the statement found rejects (the server refuses it or it binds `undefined`) and no statement before it rejects; when none is found, none rejects |
| QuestionRoutes.AttemptedThenLast | routes/questions.js:48-68 | a rejection inside the choices or answer skips the explanation; otherwise the explanation is attempted last and written unless it rejects |
| QuestionRoutes.RunChoices | routes/questions.js:50-55 | the choice loop completes iff every element is readable and no insert rejects; it executes the inserts in order and stops at the first rejection or unreadable element; pending writes and calls are exactly those written or attempted |
| QuestionRoutes.RunAnswer | routes/questions.js:57-61 | the answer insert is executed once; it completes and is pending iff it does not reject |
| QuestionRoutes.RunLead | routes/questions.js:48-62 | the choice loop or the answer insert; it completes iff its statements run through without a throw; a `choice` question whose `choices` cannot be iterated throws before any statement |
| QuestionRoutes.RunDependents | routes/questions.js:48-68 | the callback after the question row completes iff every dependent statement resolves; exactly the attempted statements are called and the resolved ones pending |
| QuestionRoutes.CreateQuestion | routes/questions.js:34-75 | POST / as written answers `CreateResponse` and leaves `CreateTables` |
| QuestionRoutes.CreateQuestionAtomic | routes/questions.js:34-75 | POST / with the question row on the transaction connection answers the same and leaves `AtomicCreateTables` |
| QuestionRoutes.ApplyChoiceInserts | routes/questions.js:50-55 | the choice inserts append one row per choice, in order, with consecutive ids, all naming the question |
| QuestionRoutes.CreateSuccessRows | routes/questions.js:34-71 | a 201 adds exactly the question row with the next id, its choices (or its one answer) and one explanation, all naming that id |
| QuestionRoutes.OrphanQuestionOnRollback | routes/questions.js:39-46 | as written, a failure after the question row answers 500 but leaves that question row with none of its dependents |
| QuestionRoutes.OrphanQuestionExample | routes/questions.js:39-55 | a `choice` question whose second choice insert rejects keeps its question row |
| QuestionRoutes.CreateSucceedsIffWritable | routes/questions.js:34-75 | a create answers 201 only when every value it binds is defined and every choice element is readable; with no rejection from the server or the transaction, every such create answers 201 |
| QuestionRoutes.StringChoicesOutcome | routes/questions.js:48-68 | a `choice` question whose `choices` is a non-empty string answers 500; an empty string, with the other fields defined and nothing rejecting, creates the question and its explanation with no choice |
| QuestionRoutes.AtomicCreateAllOrNothing | routes/questions.js:39-73 | the corrected create leaves the tables unchanged on 500, and on 201 leaves the same rows as the create as written |
| MainRoutes.ErrorHandler | main.js:25-28 | every caught error becomes 500 `{error: 'Database error'}` |
| MainRoutes.MissingFieldsExactly | main.js:32-34 | the missing fields are exactly the required fields that read as `undefined` |
| MainRoutes.ValidateRequest | main.js:31-41 | null iff every required field is not `undefined` in the query (when `useQuery`) or the body; otherwise 400 with the fixed message |
| MainRoutes.OnlyUndefinedIsMissing | main.js:33 | `null`, `""`, `0` and `false` count as present, and a field in the other part of the request does not count |
| MainRoutes.CorrectChoices | main.js:79-94 | 400 iff `question_id` or `choice_id` is `undefined`; otherwise 200 with a verdict, or 500 |
| MainRoutes.FilterFirst | main.js:85-89 | `correct_choice[0]` is the first row that matches the query, and a row exists iff some row matches |
| MainRoutes.CorrectChoicesVerdict | main.js:85-90 | a 200 names the question's first correct choice, and `is_correct` holds iff `choice_id` is that id as a number |
| MainRoutes.NoCorrectChoiceIsServerError | main.js:85-93 | for a valid request whose query resolves, the answer is 500 iff the question has no correct choice |
| MainRoutes.StringChoiceIdNeverCorrect | main.js:88 | a `choice_id` sent as a string is never correct |
| MainRoutes.ValidationPrecedesLookup | main.js:80-81 | an invalid request is answered 400 without the database: the answer depends on neither the tables nor the query outcome |
| MainRoutes.DeleteQuestionRoute | main.js:188-197 | the route runs answers, choices, question in order, stops at the first rejection, and leaves `DeleteTables` with `DeleteResponse` |
| MainRoutes.DeleteRemovesQuestionWithAnswersAndChoices | main.js:188-193 | a completed delete answers 200 and removes exactly the question row and its answers and choices; every other row stays, with its multiplicity; explanations and users are left as they were |
| MainRoutes.DeleteStopsAtFirstFailure | main.js:189-195 | after a rejection the question row is still there, exactly the earlier deletes stay applied (none, the answers, or the answers and the choices), and the answer is 500 |
| MainRoutes.ExplanationsNeverDeleted | main.js:190-192 | explanations are never deleted, whichever statement rejects |
| MainRoutes.DeleteOfAbsentQuestionSucceeds | main.js:190-193 | deleting an id with no rows changes nothing and still answers 200 |

## Left out

- Express wiring, CORS, body parsing and server start (main.js:1-22, 209-212) are not modelled: they hold no logic.
- The other `main.js` routes are not modelled. Each passes its request to one `mysql.js` function: `/tables`, `/questions`, `/questions/:id`, `/choices`, `/answer_text`, the create and update routes, and `DELETE /choices/:id`.
- `mysql.js` is modelled only by the SQL text of its three DELETE statements and by `get_correct_choices`. Its single global connection is modelled as the same autocommitting `Database` as the pool. Its `connectDB` and logging are I/O.
- routes/health.js, routes/statistics.js, app.js and config are outside this model. So are the entity repositories for choices, explanations, answers and users.
- The methods that routes/questions.js calls but the repository does not define (`findByTypePaginated`, `findWithAllRelations`) are modelled only as the TypeError that calling them throws.
- The PUT and DELETE stubs of routes/questions.js:78-85 have empty bodies; they are not modelled.
- Concurrency is not modelled. The count and data queries of a listing run under `Promise.all`; they are modelled as two reads of the same tables, each with its own outcome, and nothing ties them to concurrent writers. Where both reject, the model allows either error.
- Logging (`console.error`), pool sizing and the `mysql2` driver itself are not modelled. Only the outcomes the code observes are: resolve or reject, rows and `insertId`/`affectedRows`.
- Path parameters, `page` and `limit` are modelled as integers. `parseInt`/`Number` of non-numeric text (NaN), `limit = 0` (Infinity pages) and floating-point `Math.ceil` are out; `totalPages` is integer ceiling division.
- BaseRepository.FindAllPaginated: requires `limit >= 1`, because the integer model has no Infinity for `Math.ceil(total / 0)` and no negative LIMIT.
- QuestionRepository.FindAllPaginated: requires `limit >= 1` for the same reason, but only when the executor runs; as written it rejects for every limit. A negative OFFSET (page < 1) is modelled as the data query rejecting.
- QuestionRoutes.ListQuestions: requires `limit >= 1` for the same reason, only when the plain listing runs with a working executor.
- The engine semantics of `JSON_ARRAYAGG`/`GROUP BY` in `findAllWithDetailsPaginated` are not modelled; only its SQL text and parameters are.
- The order of rows with equal `create_at` is left open by the database; the model keeps their join order.
- The list and detail queries' `update_at` column is not carried in `ListRow`, because nothing in the core reads it.
- Store.InsertsAppendOneRow: a row holds the bound values exactly as bound. MySQL's conversion of a bound value to its column type (a string into an INT column, a boolean into TINYINT, truncation, strict-mode rejections) is not modelled.
- DBConnection.Connection.Rollback: the AUTO_INCREMENT counters are part of the pending writes, so a rollback restores them. InnoDB does not hand ids back on rollback; after a rolled-back create the next question and choice ids are higher than the model says.
- QuestionRoutes.AtomicCreateAllOrNothing: "unchanged on 500" includes the AUTO_INCREMENT counters, which InnoDB would have advanced for every row inserted before the rollback; the rows themselves are as stated.
- MainRoutes.FilterFirst: `correct_choice[0]` is taken as the first matching row in table order. The query has no ORDER BY, so for a question with several correct choices MySQL may return them in another order.
- A statement the driver refuses for an `undefined` bind rejects with a TypeError in mysql2; the model reports it as the same driver rejection as a server error. Every caller turns both into the same 500.
- MainRoutes.BindsTo: MySQL's comparison of a bound value with `question_id` is modelled only for a number, its canonical decimal string and a boolean. Other string forms that MySQL coerces (such as `"05"` or `" 5"`) never match.
- A rollback that itself rejects leaves the connection's transaction open when it is released. The model records the release but not what the pool does with such a connection.
- The server clock is the `now` field of the tables; every insert of one request uses it.

## Findings

| source | as written | input that shows it | evidently intended | confidence | as-written member | corrected member |
|---|---|---|---|---|---|---|
| routes/questions.js:39-46 | the question row is inserted with `QuestionRepository.create`, which runs on the pool rather than the transaction's `connection`, so a rollback cannot remove it | a `choice` question with two choices whose second choice insert rejects: 500, and the question row stays with no explanation | every statement on the transaction connection, so a failure leaves no row of the question | not executed | QuestionRoutes.OrphanQuestionOnRollback | QuestionRoutes.AtomicCreateAllOrNothing |
| database/DBConnection.js:34-36 | `beginTransaction` is awaited before the `try`, so its `finally` never runs when begin rejects | borrowing succeeds and `beginTransaction` rejects: the borrowed connection is never released | every borrowed connection released exactly once | not executed | DBConnection.BeginFailureLeaksConnection | DBConnection.ReleasingReleasesEveryBorrowed |
| repositories/QuestionRepository.js:22,45-48 | `this.executeQuery` is called but `BaseRepository` defines only `this.db.query` | any call of `findAllPaginated` or `findQuestionWithDetails`: TypeError, so GET / answers 500 | each method's statements run through an executor whose result matches its destructuring: `findAllPaginated` gets the rows, as `this.db.query` returns them; `findQuestionWithDetails` gets `[rows, fields]`, as `pool.execute` returns them (with `this.db.query`, its `const [rows]` would bind the first row, and `rows[0]` would read that row's property `0`) | not executed | QuestionRepository.ListingAsWrittenAlwaysFails | QuestionRepository.ListingIsNewestFirstPage |

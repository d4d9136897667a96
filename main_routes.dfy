/** The handlers of `main.js` that hold logic: the shared request validator
    and error responder, the `/correct_choices` check, and the
    `/questions/delete/:id` route, which deletes a question's answers, its
    choices and then the question row, one autocommitted statement at a time. */
module MainRoutes {
  import opened Values
  import opened SqlText
  import opened Store
  import DBConnection

  // ---------------------------------------------------------------------------
  // errorHandler

  const DatabaseError := "Database error"

  /** Every error a handler catches becomes the same 500 response; the error
      itself is only logged. */
  function ErrorHandler<T>(error: Error): (r: Response<T>)
    ensures r.status == 500 && r.body == ErrorMessage(DatabaseError)
  {
    Response(500, ErrorMessage(DatabaseError))
  }

  // ---------------------------------------------------------------------------
  // validateRequest

  /** The parts of a request the handlers read: `req.query` and `req.body`. */
  datatype Request = Request(query: map<string, Value>, body: map<string, Value>)

  /** `obj[name]`: a key the object does not hold reads as `undefined`. */
  function Get(obj: map<string, Value>, name: string): Value
  {
    if name in obj then obj[name] else Undefined
  }

  /** The object `validateRequest` looks in. */
  function Source(req: Request, useQuery: bool): map<string, Value>
  {
    if useQuery then req.query else req.body
  }

  /** `requiredFields.filter(field => obj[field] === undefined)`. */
  function MissingFields(obj: map<string, Value>, required: seq<string>): (r: seq<string>)
    ensures |r| <= |required|
  {
    if |required| == 0 then []
    else (if Get(obj, required[0]) == Undefined then [required[0]] else []) + MissingFields(obj, required[1..])
  }

  lemma {:induction false} MissingFieldsExactly(obj: map<string, Value>, required: seq<string>)
    ensures forall f :: f in MissingFields(obj, required) <==> f in required && Get(obj, f) == Undefined
    decreases |required|
  {
    if |required| > 0 {
      MissingFieldsExactly(obj, required[1..]);
      assert forall f :: f in required <==> f == required[0] || f in required[1..];
    }
  }

  const MissingDataMessage := "必要なデータが不足しています。"

  /** `validateRequest`: `None` (the source's `null`) when the request may
      proceed, otherwise the 400 response the handler returns at once. */
  function ValidateRequest<T>(req: Request, required: seq<string>, useQuery: bool): (r: Option<Response<T>>)
    ensures r.None? <==> forall i :: 0 <= i < |required| ==> Get(Source(req, useQuery), required[i]) != Undefined
    ensures r.Some? ==> r.value == Response(400, ErrorMessage(MissingDataMessage))
  {
    var missing := MissingFields(Source(req, useQuery), required);
    MissingFieldsExactly(Source(req, useQuery), required);
    if |missing| > 0 then
      assert missing[0] in missing;
      Some(Response(400, ErrorMessage(MissingDataMessage)))
    else
      assert forall i :: 0 <= i < |required| ==> required[i] !in missing;
      None
  }

  /** Only `undefined` is missing: `null`, `""`, `0` and `false` all pass,
      and a key given in the other part of the request does not count. */
  lemma OnlyUndefinedIsMissing(req: Request, name: string, useQuery: bool)
    requires Get(Source(req, useQuery), name) != Undefined
    ensures ValidateRequest<()>(req, [name], useQuery).None?
    ensures ValidateRequest<()>(Request(req.query, map[]), [name], false).Some?
    ensures ValidateRequest<()>(Request(map[], req.body), [name], true).Some?
  {
  }

  // ---------------------------------------------------------------------------
  // POST /correct_choices

  /** `SELECT * FROM choices WHERE question_id = ? AND is_correct = 1`: how
      MySQL compares the bound `question_id` with the column (a number, its
      decimal string, or a boolean as 0 or 1; `null` matches nothing). */
  predicate BindsTo(v: Value, id: int) {
    match v
    case Num(n) => n == id
    case Str(s) => s == IntToDecimal(id)
    case Bool(b) => (if b then 1 else 0) == id
    case _ => false
  }

  /** `is_correct = 1` on the stored flag. */
  predicate IsCorrectFlag(v: Value) {
    v == Num(1) || v == Bool(true) || v == Str("1")
  }

  /** A row `get_correct_choices(question_id)` returns. */
  predicate CorrectFor(questionId: Value, c: ChoiceRow) {
    BindsTo(questionId, c.questionId) && IsCorrectFlag(c.isCorrect)
  }

  /** The rows of `get_correct_choices(question_id)`, in table order. */
  function CorrectChoiceRows(t: Tables, questionId: Value): seq<ChoiceRow>
  {
    Filter(t.choices, c => CorrectFor(questionId, c))
  }

  /** The JSON `{ is_correct, correct_choice_id }`. */
  datatype Verdict = Verdict(isCorrect: bool, correctChoiceId: int)

  const CorrectChoicesFields := ["question_id", "choice_id"]

  /** `correct_choice[0]` of an empty result is `undefined`; reading `.id`
      from it throws. */
  const NoFirstRow := TypeError("Cannot read properties of undefined (reading 'id')")

  /** POST `/correct_choices`; `lookupFails` is whether the query rejects. */
  function CorrectChoices(t: Tables, req: Request, lookupFails: bool): (r: Response<Verdict>)
    ensures r.status == 400 <==> Get(req.body, "question_id") == Undefined || Get(req.body, "choice_id") == Undefined
    ensures r.status in {200, 400, 500}
    ensures r.status == 200 <==> r.body.Payload?
  {
    var validation := ValidateRequest<Verdict>(req, CorrectChoicesFields, false);
    assert CorrectChoicesFields[0] == "question_id" && CorrectChoicesFields[1] == "choice_id";
    if validation.Some? then validation.value
    else
      if lookupFails then ErrorHandler(DriverError(PoolQuery))
      else
        var rows := CorrectChoiceRows(t, Get(req.body, "question_id"));
        if |rows| == 0 then ErrorHandler(NoFirstRow)
        else Response(200, Payload(Verdict(StrictEquals(Num(rows[0].id), Get(req.body, "choice_id")), rows[0].id)))
  }

  /** The first row `Filter` keeps is the first element of `s` that passes. */
  lemma {:induction false} FilterFirst<T>(s: seq<T>, keep: T -> bool)
    ensures |Filter(s, keep)| > 0 <==> exists i :: 0 <= i < |s| && keep(s[i])
    ensures |Filter(s, keep)| > 0 ==>
      exists i :: 0 <= i < |s| && s[i] == Filter(s, keep)[0] && keep(s[i]) &&
        forall j :: 0 <= j < i ==> !keep(s[j])
    decreases |s|
  {
    if |s| > 0 {
      FilterFirst(s[1..], keep);
      if !keep(s[0]) {
        assert Filter(s, keep) == Filter(s[1..], keep);
        if exists i :: 0 <= i < |s| && keep(s[i]) {
          var i :| 0 <= i < |s| && keep(s[i]);
          assert keep(s[1..][i - 1]);
        }
        if |Filter(s, keep)| > 0 {
          var i :| 0 <= i < |s[1..]| && s[1..][i] == Filter(s[1..], keep)[0] && keep(s[1..][i]) &&
            forall j :: 0 <= j < i ==> !keep(s[1..][j]);
          assert forall j :: 1 <= j < i + 1 ==> s[j] == s[1..][j - 1];
          assert s[i + 1] == Filter(s, keep)[0];
        }
      } else {
        assert Filter(s, keep)[0] == s[0];
      }
    }
  }

  /** A 200 names the first correct choice of the question in table order,
      and `is_correct` holds exactly when the submitted `choice_id` is that
      id as a number. */
  lemma CorrectChoicesVerdict(t: Tables, req: Request, lookupFails: bool)
    requires CorrectChoices(t, req, lookupFails).status == 200
    ensures var v := CorrectChoices(t, req, lookupFails).body.data;
      var q := Get(req.body, "question_id");
      !lookupFails &&
      (exists i :: 0 <= i < |t.choices| && t.choices[i].id == v.correctChoiceId && CorrectFor(q, t.choices[i]) &&
        forall j :: 0 <= j < i ==> !CorrectFor(q, t.choices[j])) &&
      (v.isCorrect <==> Get(req.body, "choice_id") == Num(v.correctChoiceId))
  {
    var q := Get(req.body, "question_id");
    FilterFirst(t.choices, c => CorrectFor(q, c));
  }

  /** Once the request is valid and the query succeeds, the route fails with
      500 exactly when the question has no correct choice. */
  lemma NoCorrectChoiceIsServerError(t: Tables, req: Request)
    requires Get(req.body, "question_id") != Undefined && Get(req.body, "choice_id") != Undefined
    ensures CorrectChoices(t, req, false).status == 500
      <==> forall i :: 0 <= i < |t.choices| ==> !CorrectFor(Get(req.body, "question_id"), t.choices[i])
  {
    var q := Get(req.body, "question_id");
    FilterFirst(t.choices, c => CorrectFor(q, c));
  }

  /** `===` does not convert: a `choice_id` sent as a string is never
      correct, whatever its digits. */
  lemma StringChoiceIdNeverCorrect(t: Tables, req: Request, lookupFails: bool)
    requires Get(req.body, "choice_id").Str?
    requires CorrectChoices(t, req, lookupFails).status == 200
    ensures !CorrectChoices(t, req, lookupFails).body.data.isCorrect
  {
  }

  /** An invalid request is answered without the database: the response does
      not depend on the tables or on the query's outcome. */
  lemma ValidationPrecedesLookup(t1: Tables, t2: Tables, req: Request, fails1: bool, fails2: bool)
    requires Get(req.body, "question_id") == Undefined || Get(req.body, "choice_id") == Undefined
    ensures CorrectChoices(t1, req, fails1) == CorrectChoices(t2, req, fails2)
    ensures CorrectChoices(t1, req, fails1) == Response(400, ErrorMessage(MissingDataMessage))
  {
  }

  // ---------------------------------------------------------------------------
  // DELETE /questions/delete/:id

  const Deleted := "問題が削除されました"

  /** The three statements, in the order the route awaits them. */
  function DeleteWrites(id: int): (r: seq<Write>)
    ensures |r| == 3
  {
    [DeleteAnswersOf(id), DeleteChoicesOf(id), DeleteQuestionRow(id)]
  }

  /** How many statements ran before one rejected (`failing` is the index of
      the statement that rejects, if any). */
  function DeleteDone(failing: Option<nat>): (n: nat)
    ensures n <= 3
    ensures n == 3 <==> failing.None? || failing.value >= 3
  {
    if failing.Some? && failing.value < 3 then failing.value else 3
  }

  /** The tables after the route. */
  function DeleteTables(t: Tables, id: int, failing: Option<nat>): Tables
  {
    ApplyAll(t, DeleteWrites(id)[..DeleteDone(failing)])
  }

  /** The response of the route: 200 once all three statements resolved,
      whatever they affected. */
  function DeleteResponse(failing: Option<nat>): (r: Response<()>)
    ensures r.status == 200 <==> DeleteDone(failing) == 3
  {
    if DeleteDone(failing) == 3 then Response(200, Message(Deleted))
    else ErrorHandler(DriverError(PoolQuery))
  }

  /** DELETE `/questions/delete/:id`: each statement autocommits on the
      shared connection, so the ones before a rejection stay done. */
  method DeleteQuestionRoute(db: DBConnection.Database, id: int, failing: Option<nat>) returns (res: Response<()>)
    modifies db
    ensures db.tables == DeleteTables(old(db.tables), id, failing)
    ensures res == DeleteResponse(failing)
  {
    ghost var t := db.tables;
    var ws := DeleteWrites(id);
    var answers := db.Execute(ws[0], failing == Some(0));
    if answers.Err? {
      assert ws[..0] == [];
      return ErrorHandler(answers.error);
    }
    assert db.tables == ApplyAll(t, ws[..1]);
    var choices := db.Execute(ws[1], failing == Some(1));
    if choices.Err? {
      return ErrorHandler(choices.error);
    }
    ApplyAllAppend(t, ws[..1], [ws[1]]);
    assert ws[..1] + [ws[1]] == ws[..2];
    var question := db.Execute(ws[2], failing == Some(2));
    if question.Err? {
      return ErrorHandler(question.error);
    }
    ApplyAllAppend(t, ws[..2], [ws[2]]);
    assert ws[..2] + [ws[2]] == ws[..3];
    res := Response(200, Message(Deleted));
  }

  /** A completed delete removes exactly the question row and the answer and
      choice rows that name it: every other row stays, as many times as it
      occurred and in its order; explanations and users are left as they
      were. */
  lemma DeleteRemovesQuestionWithAnswersAndChoices(t: Tables, id: int)
    ensures var r := DeleteTables(t, id, None);
      DeleteResponse(None).status == 200 &&
      r.answers == AnswersNotOf(t.answers, id) &&
      r.choices == ChoicesNotOf(t.choices, id) &&
      r.questions == QuestionsNot(t.questions, id) &&
      r.explanations == t.explanations && r.users == t.users
    ensures forall a :: multiset(DeleteTables(t, id, None).answers)[a] ==
                  (if a.questionId != id then multiset(t.answers)[a] else 0)
    ensures forall c :: multiset(DeleteTables(t, id, None).choices)[c] ==
                  (if c.questionId != id then multiset(t.choices)[c] else 0)
    ensures forall q :: multiset(DeleteTables(t, id, None).questions)[q] ==
                  (if q.id != id then multiset(t.questions)[q] else 0)
  {
    var t1 := Apply(t, DeleteAnswersOf(id));
    var t2 := Apply(t1, DeleteChoicesOf(id));
    var t3 := Apply(t2, DeleteQuestionRow(id));
    assert DeleteTables(t, id, None) == t3 by {
      var ws := DeleteWrites(id);
      assert ws[..3] == ws;
      assert ApplyAll(t, ws) == ApplyAll(t1, ws[1..]);
      assert ApplyAll(t1, ws[1..]) == ApplyAll(t2, ws[2..]);
      assert ApplyAll(t2, ws[2..]) == ApplyAll(t3, ws[3..]);
    }
    assert t3.answers == AnswersNotOf(t.answers, id) && t3.choices == ChoicesNotOf(t.choices, id)
      && t3.questions == QuestionsNot(t.questions, id);
    AnswersNotOfSurvivors(t.answers, id);
    ChoicesNotOfSurvivors(t.choices, id);
    QuestionsNotSurvivors(t.questions, id);
  }

  /** A rejection stops the route: the question row is never removed, the
      statements before the rejected one stay applied, and the response is
      500. */
  lemma DeleteStopsAtFirstFailure(t: Tables, id: int, k: nat)
    requires k < 3
    ensures DeleteResponse(Some(k)).status == 500
    ensures DeleteTables(t, id, Some(k)).questions == t.questions
    ensures k == 0 ==> DeleteTables(t, id, Some(k)) == t
    ensures k == 1 ==> DeleteTables(t, id, Some(k)) == Apply(t, DeleteAnswersOf(id))
    ensures k == 2 ==> DeleteTables(t, id, Some(k)) == Apply(Apply(t, DeleteAnswersOf(id)), DeleteChoicesOf(id))
  {
    var ws := DeleteWrites(id);
    var t1 := Apply(t, DeleteAnswersOf(id));
    if k == 1 {
      assert ApplyAll(t, ws[..1]) == ApplyAll(t1, ws[..1][1..]);
    } else if k == 2 {
      var t2 := Apply(t1, DeleteChoicesOf(id));
      assert ApplyAll(t, ws[..2]) == ApplyAll(t1, ws[..2][1..]);
      assert ApplyAll(t1, ws[..2][1..]) == ApplyAll(t2, ws[..2][2..]);
    }
  }

  /** Explanations are never deleted, whichever statement rejects. */
  lemma ExplanationsNeverDeleted(t: Tables, id: int, failing: Option<nat>)
    ensures DeleteTables(t, id, failing).explanations == t.explanations
  {
    var ws := DeleteWrites(id);
    var t1 := Apply(t, DeleteAnswersOf(id));
    var t2 := Apply(t1, DeleteChoicesOf(id));
    var t3 := Apply(t2, DeleteQuestionRow(id));
    assert ApplyAll(t, ws[..3]) == ApplyAll(t1, ws[..3][1..]);
    assert ApplyAll(t1, ws[..3][1..]) == ApplyAll(t2, ws[..3][2..]);
    assert ApplyAll(t2, ws[..3][2..]) == ApplyAll(t3, ws[..3][3..]);
    assert ApplyAll(t, ws[..1]) == ApplyAll(t1, ws[..1][1..]);
    assert ApplyAll(t, ws[..2]) == ApplyAll(t1, ws[..2][1..]);
    assert ApplyAll(t1, ws[..2][1..]) == ApplyAll(t2, ws[..2][2..]);
  }

  /** Deleting a question that does not exist, and has no answers or
      choices, changes nothing and still answers 200. */
  lemma DeleteOfAbsentQuestionSucceeds(t: Tables, id: int)
    requires forall i :: 0 <= i < |t.questions| ==> t.questions[i].id != id
    requires forall i :: 0 <= i < |t.answers| ==> t.answers[i].questionId != id
    requires forall i :: 0 <= i < |t.choices| ==> t.choices[i].questionId != id
    ensures DeleteResponse(None).status == 200
    ensures DeleteTables(t, id, None) == t
  {
    var ws := DeleteWrites(id);
    assert Apply(t, DeleteAnswersOf(id)) == t by {
      FilterKeepsExactly(t.answers, AnswerNotOf(id));
    }
    assert Apply(t, DeleteChoicesOf(id)) == t by {
      FilterKeepsExactly(t.choices, ChoiceNotOf(id));
    }
    assert Apply(t, DeleteQuestionRow(id)) == t by {
      FilterKeepsExactly(t.questions, QuestionNot(id));
    }
    assert ApplyAll(t, ws[..3]) == ApplyAll(t, ws[..3][1..]);
    assert ApplyAll(t, ws[..3][1..]) == ApplyAll(t, ws[..3][2..]);
    assert ApplyAll(t, ws[..3][2..]) == ApplyAll(t, ws[..3][3..]);
  }
}

/** The four question tables (and `users`) as in-memory sequences of rows,
    and the effect of each write statement the modelled code issues, as its
    SQL text states it: an INSERT appends one row, a
    `DELETE ... WHERE question_id = ?` removes exactly the matching rows. */
module Store {
  import opened Values
  import opened SqlText
  import BaseRepository

  datatype QuestionRow = QuestionRow(id: int, title: Value, text: Value, qtype: Value, userId: Value, createAt: int)
  datatype ChoiceRow = ChoiceRow(id: int, questionId: int, text: Value, isCorrect: Value)
  datatype AnswerRow = AnswerRow(questionId: int, answerText: Value)
  datatype ExplanationRow = ExplanationRow(questionId: int, explanationText: Value)
  datatype UserRow = UserRow(id: int, name: Value)

  /** The committed contents of the database. `nextQuestionId` and
      `nextChoiceId` are the AUTO_INCREMENT counters; `now` is the server
      clock that fills `create_at`. */
  datatype Tables = Tables(
    questions: seq<QuestionRow>,
    choices: seq<ChoiceRow>,
    answers: seq<AnswerRow>,
    explanations: seq<ExplanationRow>,
    users: seq<UserRow>,
    nextQuestionId: int,
    nextChoiceId: int,
    now: int)

  /** A write statement, by the effect its SQL text has. */
  datatype Write =
    | InsertQuestion(title: Value, text: Value, qtype: Value, userId: Value)
    | InsertChoice(questionId: int, choiceText: Value, isCorrect: Value)
    | InsertAnswer(questionId: int, answerText: Value)
    | InsertExplanation(questionId: int, explanationText: Value)
    | DeleteAnswersOf(questionId: int)
    | DeleteChoicesOf(questionId: int)
    | DeleteQuestionRow(id: int)

  /** What the driver reports for a write: the generated identifier and the
      number of rows affected. Tables without a modelled AUTO_INCREMENT
      report 0. */
  datatype Header = Header(insertId: int, affectedRows: nat)

  /** The fields `QuestionRepository.create` is given by the create route. */
  function QuestionFields(title: Value, text: Value, qtype: Value, userId: Value): seq<BaseRepository.Field>
  {
    [BaseRepository.Field("title", title), BaseRepository.Field("text", text),
     BaseRepository.Field("type", qtype), BaseRepository.Field("user_id", userId)]
  }

  /** The SQL text and parameters of each write. */
  const ChoiceInsertSql := "INSERT INTO choices (question_id, choice_text, is_correct) VALUES (?, ?, ?)"
  const AnswerInsertSql := "INSERT INTO answers (question_id, answer_text) VALUES (?, ?)"
  const ExplanationInsertSql := "INSERT INTO explanations (question_id, explanation_text) VALUES (?, ?)"
  const AnswersDeleteSql := "DELETE FROM answers WHERE question_id = ?"
  const ChoicesDeleteSql := "DELETE FROM choices WHERE question_id = ?"
  const QuestionDeleteSql := "DELETE FROM questions WHERE id = ?"

  function StatementOf(w: Write): BaseRepository.Statement
  {
    match w
    case InsertQuestion(ti, te, ty, u) => BaseRepository.Create("questions", QuestionFields(ti, te, ty, u))
    case InsertChoice(q, te, c) => BaseRepository.Statement(ChoiceInsertSql, [Num(q), te, c])
    case InsertAnswer(q, a) => BaseRepository.Statement(AnswerInsertSql, [Num(q), a])
    case InsertExplanation(q, e) => BaseRepository.Statement(ExplanationInsertSql, [Num(q), e])
    case DeleteAnswersOf(q) => BaseRepository.Statement(AnswersDeleteSql, [Num(q)])
    case DeleteChoicesOf(q) => BaseRepository.Statement(ChoicesDeleteSql, [Num(q)])
    case DeleteQuestionRow(id) => BaseRepository.Statement(QuestionDeleteSql, [Num(id)])
  }

  /** The rows of `s` that `keep` accepts, in their order. */
  function Filter<T>(s: seq<T>, keep: T -> bool): (r: seq<T>)
    ensures |r| <= |s|
  {
    if |s| == 0 then [] else (if keep(s[0]) then [s[0]] else []) + Filter(s[1..], keep)
  }

  /** A filter keeps exactly the accepted rows, in order, and never adds one. */
  lemma {:induction false} FilterKeepsExactly<T>(s: seq<T>, keep: T -> bool)
    ensures forall x :: x in Filter(s, keep) <==> x in s && keep(x)
    ensures (forall i :: 0 <= i < |s| ==> keep(s[i])) ==> Filter(s, keep) == s
    decreases |s|
  {
    if |s| > 0 {
      FilterKeepsExactly(s[1..], keep);
      assert s == [s[0]] + s[1..];
      if forall i :: 0 <= i < |s| ==> keep(s[i]) {
        assert forall i :: 0 <= i < |s[1..]| ==> keep(s[1..][i]) by {
          forall i | 0 <= i < |s[1..]| ensures keep(s[1..][i]) {
            assert s[1..][i] == s[i + 1];
          }
        }
      }
    }
  }

  /** The rows each DELETE keeps: those its WHERE clause does not match. */
  function AnswerNotOf(q: int): AnswerRow -> bool { (a: AnswerRow) => a.questionId != q }

  function ChoiceNotOf(q: int): ChoiceRow -> bool { (c: ChoiceRow) => c.questionId != q }

  function QuestionNot(id: int): QuestionRow -> bool { (x: QuestionRow) => x.id != id }

  function AnswersNotOf(rows: seq<AnswerRow>, q: int): seq<AnswerRow>
  {
    Filter(rows, AnswerNotOf(q))
  }

  function ChoicesNotOf(rows: seq<ChoiceRow>, q: int): seq<ChoiceRow>
  {
    Filter(rows, ChoiceNotOf(q))
  }

  function QuestionsNot(rows: seq<QuestionRow>, id: int): seq<QuestionRow>
  {
    Filter(rows, QuestionNot(id))
  }

  /** The new contents after one statement. */
  function Apply(t: Tables, w: Write): Tables
  {
    match w
    case InsertQuestion(ti, te, ty, u) =>
      t.(questions := t.questions + [QuestionRow(t.nextQuestionId, ti, te, ty, u, t.now)],
         nextQuestionId := t.nextQuestionId + 1)
    case InsertChoice(q, te, c) =>
      t.(choices := t.choices + [ChoiceRow(t.nextChoiceId, q, te, c)], nextChoiceId := t.nextChoiceId + 1)
    case InsertAnswer(q, a) => t.(answers := t.answers + [AnswerRow(q, a)])
    case InsertExplanation(q, e) => t.(explanations := t.explanations + [ExplanationRow(q, e)])
    case DeleteAnswersOf(q) => t.(answers := AnswersNotOf(t.answers, q))
    case DeleteChoicesOf(q) => t.(choices := ChoicesNotOf(t.choices, q))
    case DeleteQuestionRow(id) => t.(questions := QuestionsNot(t.questions, id))
  }

  /** The driver's report for one statement run on `t`. */
  function HeaderOf(t: Tables, w: Write): Header
  {
    match w
    case InsertQuestion(_, _, _, _) => Header(t.nextQuestionId, 1)
    case InsertChoice(_, _, _) => Header(t.nextChoiceId, 1)
    case InsertAnswer(_, _) => Header(0, 1)
    case InsertExplanation(_, _) => Header(0, 1)
    case DeleteAnswersOf(q) => Header(0, |t.answers| - |AnswersNotOf(t.answers, q)|)
    case DeleteChoicesOf(q) => Header(0, |t.choices| - |ChoicesNotOf(t.choices, q)|)
    case DeleteQuestionRow(id) => Header(0, |t.questions| - |QuestionsNot(t.questions, id)|)
  }

  /** The contents after a sequence of statements, in order. */
  function ApplyAll(t: Tables, ws: seq<Write>): Tables
    decreases |ws|
  {
    if |ws| == 0 then t else ApplyAll(Apply(t, ws[0]), ws[1..])
  }

  /** Running two batches one after the other is running their
      concatenation. */
  lemma {:induction false} ApplyAllAppend(t: Tables, a: seq<Write>, b: seq<Write>)
    ensures ApplyAll(t, a + b) == ApplyAll(ApplyAll(t, a), b)
    decreases |a|
  {
    if |a| == 0 {
      assert a + b == b;
    } else {
      assert (a + b)[0] == a[0];
      assert (a + b)[1..] == a[1..] + b;
      ApplyAllAppend(Apply(t, a[0]), a[1..], b);
    }
  }

  /** `DELETE FROM answers WHERE question_id = ?` removes exactly the matching rows: every
      other row stays, as many times as it occurred and in its order; no
      other table changes, and the header reports 0 rows exactly when
      nothing changed. */
  lemma DeleteAnswersRemovesExactlyMatching(t: Tables, q: int)
    ensures var r := Apply(t, DeleteAnswersOf(q));
      r == t.(answers := AnswersNotOf(t.answers, q)) &&
      (HeaderOf(t, DeleteAnswersOf(q)).affectedRows == 0 <==> r == t)
    ensures forall a :: a in AnswersNotOf(t.answers, q) <==> a in t.answers && a.questionId != q
    ensures forall a :: multiset(AnswersNotOf(t.answers, q))[a] == if a.questionId != q then multiset(t.answers)[a] else 0
    ensures forall i :: 0 <= i <= |t.answers| ==>
      AnswersNotOf(t.answers, q) == AnswersNotOf(t.answers[..i], q) + AnswersNotOf(t.answers[i..], q)
  {
    var rows := AnswersNotOf(t.answers, q);
    assert Apply(t, DeleteAnswersOf(q)) == t.(answers := rows);
    assert HeaderOf(t, DeleteAnswersOf(q)).affectedRows == 0 <==> |rows| == |t.answers|;
    FilterLengthEqual(t.answers, AnswerNotOf(q));
    assert t.(answers := rows) == t <==> rows == t.answers;
    AnswersNotOfSurvivors(t.answers, q);
  }

  lemma AnswersNotOfSurvivors(rows: seq<AnswerRow>, q: int)
    ensures forall a :: a in AnswersNotOf(rows, q) <==> a in rows && a.questionId != q
    ensures forall a :: multiset(AnswersNotOf(rows, q))[a] == if a.questionId != q then multiset(rows)[a] else 0
    ensures forall i :: 0 <= i <= |rows| ==> AnswersNotOf(rows, q) == AnswersNotOf(rows[..i], q) + AnswersNotOf(rows[i..], q)
  {
    FilterFacts(rows, AnswerNotOf(q));
  }

  /** `DELETE FROM choices WHERE question_id = ?` removes exactly the matching rows: every
      other row stays, as many times as it occurred and in its order; no
      other table changes, and the header reports 0 rows exactly when
      nothing changed. */
  lemma DeleteChoicesRemovesExactlyMatching(t: Tables, q: int)
    ensures var r := Apply(t, DeleteChoicesOf(q));
      r == t.(choices := ChoicesNotOf(t.choices, q)) &&
      (HeaderOf(t, DeleteChoicesOf(q)).affectedRows == 0 <==> r == t)
    ensures forall c :: c in ChoicesNotOf(t.choices, q) <==> c in t.choices && c.questionId != q
    ensures forall c :: multiset(ChoicesNotOf(t.choices, q))[c] == if c.questionId != q then multiset(t.choices)[c] else 0
    ensures forall i :: 0 <= i <= |t.choices| ==>
      ChoicesNotOf(t.choices, q) == ChoicesNotOf(t.choices[..i], q) + ChoicesNotOf(t.choices[i..], q)
  {
    var rows := ChoicesNotOf(t.choices, q);
    assert Apply(t, DeleteChoicesOf(q)) == t.(choices := rows);
    assert HeaderOf(t, DeleteChoicesOf(q)).affectedRows == 0 <==> |rows| == |t.choices|;
    FilterLengthEqual(t.choices, ChoiceNotOf(q));
    assert t.(choices := rows) == t <==> rows == t.choices;
    ChoicesNotOfSurvivors(t.choices, q);
  }

  lemma ChoicesNotOfSurvivors(rows: seq<ChoiceRow>, q: int)
    ensures forall c :: c in ChoicesNotOf(rows, q) <==> c in rows && c.questionId != q
    ensures forall c :: multiset(ChoicesNotOf(rows, q))[c] == if c.questionId != q then multiset(rows)[c] else 0
    ensures forall i :: 0 <= i <= |rows| ==> ChoicesNotOf(rows, q) == ChoicesNotOf(rows[..i], q) + ChoicesNotOf(rows[i..], q)
  {
    FilterFacts(rows, ChoiceNotOf(q));
  }

  /** `DELETE FROM questions WHERE id = ?` removes exactly the matching rows: every
      other row stays, as many times as it occurred and in its order; no
      other table changes, and the header reports 0 rows exactly when
      nothing changed. */
  lemma DeleteQuestionRemovesExactlyMatching(t: Tables, id: int)
    ensures var r := Apply(t, DeleteQuestionRow(id));
      r == t.(questions := QuestionsNot(t.questions, id)) &&
      (HeaderOf(t, DeleteQuestionRow(id)).affectedRows == 0 <==> r == t)
    ensures forall x :: x in QuestionsNot(t.questions, id) <==> x in t.questions && x.id != id
    ensures forall x :: multiset(QuestionsNot(t.questions, id))[x] == if x.id != id then multiset(t.questions)[x] else 0
    ensures forall i :: 0 <= i <= |t.questions| ==>
      QuestionsNot(t.questions, id) == QuestionsNot(t.questions[..i], id) + QuestionsNot(t.questions[i..], id)
  {
    var rows := QuestionsNot(t.questions, id);
    assert Apply(t, DeleteQuestionRow(id)) == t.(questions := rows);
    assert HeaderOf(t, DeleteQuestionRow(id)).affectedRows == 0 <==> |rows| == |t.questions|;
    FilterLengthEqual(t.questions, QuestionNot(id));
    assert t.(questions := rows) == t <==> rows == t.questions;
    QuestionsNotSurvivors(t.questions, id);
  }

  lemma QuestionsNotSurvivors(rows: seq<QuestionRow>, id: int)
    ensures forall x :: x in QuestionsNot(rows, id) <==> x in rows && x.id != id
    ensures forall x :: multiset(QuestionsNot(rows, id))[x] == if x.id != id then multiset(rows)[x] else 0
    ensures forall i :: 0 <= i <= |rows| ==> QuestionsNot(rows, id) == QuestionsNot(rows[..i], id) + QuestionsNot(rows[i..], id)
  {
    FilterFacts(rows, QuestionNot(id));
  }

  /** Everything the delete lemmas use about one filter. */
  lemma FilterFacts<T>(s: seq<T>, keep: T -> bool)
    ensures forall x :: x in Filter(s, keep) <==> x in s && keep(x)
    ensures forall x :: multiset(Filter(s, keep))[x] == if keep(x) then multiset(s)[x] else 0
    ensures forall i :: 0 <= i <= |s| ==> Filter(s, keep) == Filter(s[..i], keep) + Filter(s[i..], keep)
  {
    FilterKeepsExactly(s, keep);
    FilterCounts(s, keep);
    FilterSplits(s, keep);
  }

  /** A filter that drops nothing returns its input. */
  lemma {:induction false} FilterLengthEqual<T>(s: seq<T>, keep: T -> bool)
    ensures |Filter(s, keep)| == |s| <==> Filter(s, keep) == s
    decreases |s|
  {
    if |s| > 0 {
      FilterLengthEqual(s[1..], keep);
      assert s == [s[0]] + s[1..];
    }
  }

  /** A filter keeps every accepted row as many times as it occurs and
      drops every other row. */
  lemma {:induction false} FilterCounts<T>(s: seq<T>, keep: T -> bool)
    ensures forall x :: multiset(Filter(s, keep))[x] == if keep(x) then multiset(s)[x] else 0
    decreases |s|
  {
    if |s| > 0 {
      FilterCounts(s[1..], keep);
      assert s == [s[0]] + s[1..];
      assert multiset(s) == multiset{s[0]} + multiset(s[1..]);
    }
  }

  /** Filtering works row by row and keeps the order: the filter of a
      concatenation is the concatenation of the filters. */
  lemma {:induction false} FilterAppend<T>(a: seq<T>, b: seq<T>, keep: T -> bool)
    ensures Filter(a + b, keep) == Filter(a, keep) + Filter(b, keep)
    decreases |a|
  {
    if |a| == 0 {
      assert a + b == b;
    } else {
      var head := if keep(a[0]) then [a[0]] else [];
      FilterAppend(a[1..], b, keep);
      assert (a + b)[0] == a[0] && (a + b)[1..] == a[1..] + b;
      calc {
        Filter(a + b, keep);
        head + Filter(a[1..] + b, keep);
        head + (Filter(a[1..], keep) + Filter(b, keep));
        (head + Filter(a[1..], keep)) + Filter(b, keep);
      }
    }
  }

  /** A single row survives exactly when it is accepted. */
  lemma FilterSingle<T>(x: T, keep: T -> bool)
    ensures Filter([x], keep) == if keep(x) then [x] else []
  {
    assert [x][1..] == [];
  }

  /** The survivors among the first `i` rows come before those among the
      rest, wherever the table is cut. */
  lemma FilterSplits<T>(s: seq<T>, keep: T -> bool)
    ensures forall i :: 0 <= i <= |s| ==> Filter(s, keep) == Filter(s[..i], keep) + Filter(s[i..], keep)
  {
    forall i | 0 <= i <= |s|
      ensures Filter(s, keep) == Filter(s[..i], keep) + Filter(s[i..], keep)
    {
      FilterSplitAt(s, keep, i);
    }
  }

  lemma FilterSplitAt<T>(s: seq<T>, keep: T -> bool, i: nat)
    requires i <= |s|
    ensures Filter(s, keep) == Filter(s[..i], keep) + Filter(s[i..], keep)
  {
    assert s[..i] + s[i..] == s;
    FilterAppend(s[..i], s[i..], keep);
  }

  /** An INSERT adds exactly one row, at the end of its own table, holding
      the bound values; a question or choice row gets the identifier the
      header reports, and only that table's counter moves. Every other table
      stays as it was. */
  lemma InsertsAppendOneRow(t: Tables, w: Write)
    requires w.InsertQuestion? || w.InsertChoice? || w.InsertAnswer? || w.InsertExplanation?
    ensures HeaderOf(t, w).affectedRows == 1 && Apply(t, w).users == t.users && Apply(t, w).now == t.now
    ensures w.InsertQuestion? ==> var r := Apply(t, w);
      r.questions[..|t.questions|] == t.questions && |r.questions| == |t.questions| + 1 &&
      r.questions[|t.questions|] == QuestionRow(HeaderOf(t, w).insertId, w.title, w.text, w.qtype, w.userId, t.now) &&
      r.choices == t.choices && r.answers == t.answers && r.explanations == t.explanations &&
      r.nextQuestionId > HeaderOf(t, w).insertId && r.nextChoiceId == t.nextChoiceId
    ensures w.InsertChoice? ==> var r := Apply(t, w);
      r.choices[..|t.choices|] == t.choices && |r.choices| == |t.choices| + 1 &&
      r.choices[|t.choices|] == ChoiceRow(HeaderOf(t, w).insertId, w.questionId, w.choiceText, w.isCorrect) &&
      r.questions == t.questions && r.answers == t.answers && r.explanations == t.explanations &&
      r.nextChoiceId > HeaderOf(t, w).insertId && r.nextQuestionId == t.nextQuestionId
    ensures w.InsertAnswer? ==> var r := Apply(t, w);
      r.answers == t.answers + [AnswerRow(w.questionId, w.answerText)] &&
      r.questions == t.questions && r.choices == t.choices && r.explanations == t.explanations &&
      r.nextQuestionId == t.nextQuestionId && r.nextChoiceId == t.nextChoiceId
    ensures w.InsertExplanation? ==> var r := Apply(t, w);
      r.explanations == t.explanations + [ExplanationRow(w.questionId, w.explanationText)] &&
      r.questions == t.questions && r.choices == t.choices && r.answers == t.answers &&
      r.nextQuestionId == t.nextQuestionId && r.nextChoiceId == t.nextChoiceId
  {
  }

  /** Every stored identifier lies below its AUTO_INCREMENT counter. */
  predicate IdsBelowCounters(t: Tables) {
    (forall i :: 0 <= i < |t.questions| ==> t.questions[i].id < t.nextQuestionId) &&
    (forall i :: 0 <= i < |t.choices| ==> t.choices[i].id < t.nextChoiceId)
  }

  /** Every write keeps the identifiers below the counters, so the
      identifier an INSERT reports is new to its table. */
  lemma ApplyKeepsIdsBelowCounters(t: Tables, w: Write)
    requires IdsBelowCounters(t)
    ensures IdsBelowCounters(Apply(t, w))
    ensures w.InsertQuestion? ==> forall i :: 0 <= i < |t.questions| ==> t.questions[i].id != HeaderOf(t, w).insertId
    ensures w.InsertChoice? ==> forall i :: 0 <= i < |t.choices| ==> t.choices[i].id != HeaderOf(t, w).insertId
  {
    match w
    case DeleteChoicesOf(q) =>
      FilterKeepsExactly(t.choices, ChoiceNotOf(q));
      var r := Apply(t, w).choices;
      forall i | 0 <= i < |r| ensures r[i].id < t.nextChoiceId {
        assert r[i] in r;
      }
    case DeleteQuestionRow(id) =>
      FilterKeepsExactly(t.questions, QuestionNot(id));
      var r := Apply(t, w).questions;
      forall i | 0 <= i < |r| ensures r[i].id < t.nextQuestionId {
        assert r[i] in r;
      }
    case _ =>
  }

  /** The writes mysql2's `execute` refuses: it rejects with a TypeError,
      before the statement reaches the server, any statement one of whose
      bound values is `undefined`. A value is `undefined` here exactly when
      the request body lacks it (or, for a choice, the element lacks it). */
  predicate BindsUndefined(w: Write) {
    match w
    case InsertQuestion(ti, te, ty, u) => ti == Undefined || te == Undefined || ty == Undefined || u == Undefined
    case InsertChoice(_, te, c) => te == Undefined || c == Undefined
    case InsertAnswer(_, a) => a == Undefined
    case InsertExplanation(_, e) => e == Undefined
    case _ => false
  }

  /** A write is refused exactly when the statement it sends binds
      `undefined`. */
  lemma BindsUndefinedExactly(w: Write)
    ensures BindsUndefined(w) <==> Undefined in StatementOf(w).params
  {
    match w
    case InsertQuestion(ti, te, ty, u) => QuestionInsertParams(ti, te, ty, u);
    case _ =>
  }

  lemma QuestionColumnsMarks()
    ensures Free("title", '?') && Free("text", '?') && Free("type", '?') && Free("user_id", '?')
  {
  }

  lemma QuestionColumnsPlain()
    ensures Free("title", ',') && Free("text", ',') && Free("type", ',') && Free("user_id", ',')
    ensures Free("title", ')') && Free("text", ')') && Free("type", ')') && Free("user_id", ')')
  {
  }

  /** The question row goes through `BaseRepository.create` on `questions`:
      four columns title, text, type and user_id, one `?` each, bound to the
      request's values in that order. */
  lemma QuestionInsertStatement(title: Value, text: Value, qtype: Value, userId: Value)
    ensures var st := StatementOf(InsertQuestion(title, text, qtype, userId));
      st.params == [title, text, qtype, userId] &&
      CountChar(st.sql, '?') == 4 &&
      BaseRepository.ParseInsert("questions", st.sql)
        == Some((["title", "text", "type", "user_id"], ["?", "?", "?", "?"]))
  {
    QuestionInsertParams(title, text, qtype, userId);
    QuestionInsertText(title, text, qtype, userId);
  }

  lemma QuestionInsertParams(title: Value, text: Value, qtype: Value, userId: Value)
    ensures StatementOf(InsertQuestion(title, text, qtype, userId)).params == [title, text, qtype, userId]
  {
    var data := QuestionFields(title, text, qtype, userId);
    assert BaseRepository.ValuesOf(data) == [title, text, qtype, userId];
  }

  lemma QuestionInsertText(title: Value, text: Value, qtype: Value, userId: Value)
    ensures var st := StatementOf(InsertQuestion(title, text, qtype, userId));
      CountChar(st.sql, '?') == 4 &&
      BaseRepository.ParseInsert("questions", st.sql)
        == Some((["title", "text", "type", "user_id"], ["?", "?", "?", "?"]))
  {
    QuestionInsertMarks(title, text, qtype, userId);
    QuestionInsertParses(title, text, qtype, userId);
  }

  lemma QuestionInsertMarks(title: Value, text: Value, qtype: Value, userId: Value)
    ensures CountChar(BaseRepository.Create("questions", QuestionFields(title, text, qtype, userId)).sql, '?') == 4
  {
    var data := QuestionFields(title, text, qtype, userId);
    QuestionColumnsMarks();
    assert BaseRepository.PlainColumns(data);
    assert Free("questions", '?');
    BaseRepository.CreateBindsEachValue("questions", data);
  }

  lemma QuestionInsertParses(title: Value, text: Value, qtype: Value, userId: Value)
    ensures BaseRepository.ParseInsert("questions", BaseRepository.Create("questions", QuestionFields(title, text, qtype, userId)).sql)
      == Some((["title", "text", "type", "user_id"], ["?", "?", "?", "?"]))
  {
    var data := QuestionFields(title, text, qtype, userId);
    QuestionColumnsMarks();
    QuestionColumnsPlain();
    assert BaseRepository.PlainColumns(data);
    BaseRepository.CreateReadsBack("questions", data);
    assert BaseRepository.Columns(data) == ["title", "text", "type", "user_id"];
    assert BaseRepository.Placeholders(4) == ["?", "?", "?", "?"];
  }
}

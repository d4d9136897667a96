/** The `/questions` router: the paginated list, the single-question
    lookup, and question creation inside a transaction. */
module QuestionRoutes {
  import opened Values
  import opened Store
  import opened DBConnection
  import BaseRepository
  import QuestionRepository

  const InternalError: string := "Internal server error"

  // ---------------------------------------------------------------------------
  // GET /

  /** The query string of GET /: `page` and `limit` as integers when given,
      and `type` as sent. */
  datatype ListQuery = ListQuery(page: Option<int>, limit: Option<int>, qtype: Value)

  function PageOf(q: ListQuery): int { if q.page.Some? then q.page.value else 1 }

  function LimitOf(q: ListQuery): int { if q.limit.Some? then q.limit.value else 10 }

  /** What calling the type-filtered lookup throws: the repository does not
      define it. */
  const FindByTypeMissing: Error := TypeError("QuestionRepository.findByTypePaginated is not a function")

  /** GET /: a truthy `type` selects the type-filtered lookup, anything else
      the plain listing; a rejection becomes 500. */
  function ListQuestions(t: Tables, q: ListQuery, exec: QuestionRepository.Executor)
    : (res: Response<BaseRepository.Envelope<QuestionRepository.ListRow>>)
    requires !Truthy(q.qtype) && exec.Runs? ==> LimitOf(q) >= 1
    ensures Truthy(q.qtype) ==> res == Response(500, ErrorMessage(InternalError))
    ensures !Truthy(q.qtype) ==>
      (res.status == 200 <==> QuestionRepository.FindAllPaginated(t, PageOf(q), LimitOf(q), exec).Ok?)
    ensures res.status == 200 ==>
      res.body == Payload(QuestionRepository.FindAllPaginated(t, PageOf(q), LimitOf(q), exec).value)
    ensures res.status == 200 || res == Response(500, ErrorMessage(InternalError))
  {
    var r := if Truthy(q.qtype) then Err(FindByTypeMissing)
             else QuestionRepository.FindAllPaginated(t, PageOf(q), LimitOf(q), exec);
    match r
    case Ok(envelope) => Response(200, Payload(envelope))
    case Err(_) => Response(500, ErrorMessage(InternalError))
  }

  /** With a working executor and without `page` and `limit`, the first
      page of ten rows is listed. An empty `type` is falsy, so `?type=` is
      answered as if no type were given. */
  lemma ListDefaults(t: Tables, qtype: Value)
    requires qtype == Undefined || qtype == Str("")
    requires QuestionRepository.UniqueUserIds(t.users)
    ensures var res := ListQuestions(t, ListQuery(None, None, qtype), QuestionRepository.Runs(false, false));
      res.status == 200 && res.body.data.pagination.page == 1 && res.body.data.pagination.limit == 10 &&
      |res.body.data.data| <= 10 &&
      res.body.data.data == QuestionRepository.ListPage(t, 1, 10)
  {
    QuestionRepository.ListingIsNewestFirstPage(t, 1, 10);
  }

  /** As written the endpoint answers 500 whatever it is asked: both
      lookups it can reach are undefined. */
  lemma ListAsWrittenAlwaysFails(t: Tables, q: ListQuery)
    ensures ListQuestions(t, q, QuestionRepository.AsWritten) == Response(500, ErrorMessage(InternalError))
  {
  }

  // ---------------------------------------------------------------------------
  // GET /:id

  const NotFound: string := "問題が見つかりません"

  /** What calling the full lookup throws: the repository does not define it. */
  const FindWithAllRelationsMissing: Error := TypeError("QuestionRepository.findWithAllRelations is not a function")

  /** GET /:id given what the lookup resolves to: nothing found is 404, a
      rejection 500, a question 200. */
  function GetQuestion<Q>(lookup: Result<Option<Q>>): (res: Response<Q>)
    ensures lookup.Err? <==> res == Response(500, ErrorMessage(InternalError))
    ensures lookup == Ok(None) <==> res == Response(404, ErrorMessage(NotFound))
    ensures res.status == 200 <==> lookup.Ok? && lookup.value.Some?
    ensures res.status == 200 ==> res.body == Payload(lookup.value.value)
  {
    match lookup
    case Err(_) => Response(500, ErrorMessage(InternalError))
    case Ok(None) => Response(404, ErrorMessage(NotFound))
    case Ok(Some(question)) => Response(200, Payload(question))
  }

  /** As written the lookup is undefined, so the endpoint answers 500 and
      never 404. */
  lemma GetQuestionAsWritten<Q>()
    ensures GetQuestion<Q>(Err(FindWithAllRelationsMissing)).status == 500
  {
  }

  // ---------------------------------------------------------------------------
  // POST /

  const Created: string := "問題が作成されました"

  /** What `choice.text` and `choice.isCorrect` read from one element;
      `undefined` when the element has no such property. */
  datatype ChoiceInput = ChoiceInput(text: Value, isCorrect: Value)

  /** One element met by `for (const choice of choices)`: `null` or
      `undefined`, whose property read throws, or any other value, read as a
      text and a flag. */
  datatype Element = Missing | Present(choice: ChoiceInput)

  /** `choices` as `for...of` sees it: a value it cannot iterate (absent,
      `null`, a number, a plain object) throws before the first pass; an
      array or a string yields its elements in order. */
  datatype Choices = NotIterable | Elements(items: seq<Element>)

  /** A string iterates its characters; a character has neither `text` nor
      `isCorrect`. */
  function StringChoices(s: string): (c: Choices)
    ensures c.Elements? && |c.items| == |s|
    ensures forall i :: 0 <= i < |s| ==> c.items[i] == Present(ChoiceInput(Undefined, Undefined))
  {
    Elements(seq(|s|, _ => Present(ChoiceInput(Undefined, Undefined))))
  }

  /** The request body fields the route reads. */
  datatype CreateBody = CreateBody(
    title: Value, text: Value, qtype: Value, choices: Choices,
    answer: Value, explanation: Value, userId: Value)

  /** Which calls of one create the server or the pool rejects: the
      transaction's own calls, and the index of a statement of the callback
      (0 is the question row, then the dependent rows in order). A statement
      that binds `undefined` is rejected by the driver whatever this says. */
  datatype CreateFaults = CreateFaults(tx: TxFaults, failing: Option<nat>)

  const NoFaults: CreateFaults := CreateFaults(TxFaults(false, false, false, false), None)

  function QuestionInsert(b: CreateBody): Write
  {
    InsertQuestion(b.title, b.text, b.qtype, b.userId)
  }

  function ChoiceInsert(qid: int, c: ChoiceInput): Write
  {
    InsertChoice(qid, c.text, c.isCorrect)
  }

  /** One choice insert per choice. */
  function ChoiceInserts(qid: int, cs: seq<ChoiceInput>): (r: seq<Write>)
    ensures |r| == |cs|
  {
    if |cs| == 0 then [] else ChoiceInserts(qid, cs[..|cs| - 1]) + [ChoiceInsert(qid, cs[|cs| - 1])]
  }

  /** The inserts follow the choices' order, each naming the question. */
  lemma {:induction false} ChoiceInsertsInOrder(qid: int, cs: seq<ChoiceInput>)
    ensures forall i :: 0 <= i < |cs| ==> ChoiceInserts(qid, cs)[i] == InsertChoice(qid, cs[i].text, cs[i].isCorrect)
    decreases |cs|
  {
    if |cs| > 0 {
      var init := cs[..|cs| - 1];
      ChoiceInsertsInOrder(qid, init);
      assert forall i :: 0 <= i < |init| ==> init[i] == cs[i];
    }
  }

  /** The choices the loop reads before it meets a `null` or `undefined`
      element, where it throws. */
  function LeadingItems(es: seq<Element>): (r: seq<ChoiceInput>)
    ensures |r| <= |es|
  {
    if |es| == 0 || es[0].Missing? then [] else [es[0].choice] + LeadingItems(es[1..])
  }

  /** Each choice read is the element at its position, and reading stops
      only at a `null` or `undefined` element or at the end. */
  lemma {:induction false} LeadingItemsStopAtMissing(es: seq<Element>)
    ensures var r := LeadingItems(es);
      (forall i :: 0 <= i < |r| ==> es[i] == Present(r[i])) &&
      (|r| < |es| ==> es[|r|].Missing?)
    decreases |es|
  {
    if |es| > 0 && es[0].Present? {
      LeadingItemsStopAtMissing(es[1..]);
    }
  }

  predicate IsChoiceType(b: CreateBody) {
    StrictEquals(b.qtype, Str("choice"))
  }

  /** The statements the callback reaches before the explanation, and
      whether it throws after them instead of going on. */
  datatype Lead = Lead(writes: seq<Write>, throws: bool)

  /** The choices of a `choice` question up to the first unreadable element
      (or none, and a throw, when `choices` is not iterable); the answer of
      any other question. */
  function LeadOf(b: CreateBody, qid: int): Lead
  {
    if IsChoiceType(b) then
      match b.choices
      case NotIterable => Lead([], true)
      case Elements(es) => Lead(ChoiceInserts(qid, LeadingItems(es)), |LeadingItems(es)| < |es|)
    else Lead([InsertAnswer(qid, b.answer)], false)
  }

  /** The statements the callback runs on the transaction connection after
      the question row, if none rejects: the lead statements, then the
      explanation unless the lead throws. */
  function Dependents(b: CreateBody, qid: int): seq<Write>
  {
    var lead := LeadOf(b, qid);
    if lead.throws then lead.writes else lead.writes + [InsertExplanation(qid, b.explanation)]
  }

  /** Every field a create binds is defined and every choice can be read:
      the inputs for which the create can commit. */
  predicate Writable(b: CreateBody) {
    b.title != Undefined && b.text != Undefined && b.qtype != Undefined && b.userId != Undefined
    && b.explanation != Undefined
    && if IsChoiceType(b) then
         b.choices.Elements? &&
         forall i :: 0 <= i < |b.choices.items| ==>
           b.choices.items[i].Present? &&
           b.choices.items[i].choice.text != Undefined && b.choices.items[i].choice.isCorrect != Undefined
       else b.answer != Undefined
  }

  /** The dependents of a `choice` question: its choice inserts, in order,
      up to the first unreadable element, then the explanation exactly when
      every element is readable; those of any other question: its answer and
      its explanation. No answer is written for a `choice` question and no
      choice for any other. */
  lemma DependentsShape(b: CreateBody, qid: int)
    ensures var d := Dependents(b, qid);
      (forall i :: 0 <= i < |d| - 1 ==> !d[i].InsertExplanation?) &&
      (IsChoiceType(b) && b.choices.NotIterable? ==> d == []) &&
      (IsChoiceType(b) && b.choices.Elements? ==>
        var cs := LeadingItems(b.choices.items);
        |cs| <= |d| <= |cs| + 1 &&
        (forall i :: 0 <= i < |cs| ==> b.choices.items[i] == Present(cs[i]) && d[i] == InsertChoice(qid, cs[i].text, cs[i].isCorrect)) &&
        (|d| == |cs| + 1 <==> |cs| == |b.choices.items|) &&
        (|d| == |cs| + 1 ==> d[|cs|] == InsertExplanation(qid, b.explanation))) &&
      (!IsChoiceType(b) ==> d == [InsertAnswer(qid, b.answer), InsertExplanation(qid, b.explanation)])
  {
    if IsChoiceType(b) && b.choices.Elements? {
      LeadingItemsStopAtMissing(b.choices.items);
      ChoiceInsertsInOrder(qid, LeadingItems(b.choices.items));
    }
  }

  /** Whether `ws[i]`, statement `i + 1`, rejects: the server rejects it,
      or it binds `undefined`. */
  predicate Rejects(ws: seq<Write>, failing: Option<nat>, i: nat)
    requires i < |ws|
  {
    failing == Some(i + 1) || BindsUndefined(ws[i])
  }

  /** The position in `ws` of the first statement that rejects, if any. */
  function FirstRejected(ws: seq<Write>, failing: Option<nat>): (r: Option<nat>)
    ensures r.Some? ==> r.value < |ws|
  {
    if |ws| == 0 then None
    else
      var p := FirstRejected(ws[..|ws| - 1], failing);
      if p.Some? then p
      else if Rejects(ws, failing, |ws| - 1) then Some(|ws| - 1)
      else None
  }

  /** `FirstRejected` finds a statement that rejects, and no statement
      before it rejects. */
  lemma {:induction false} FirstRejectedIsFirst(ws: seq<Write>, failing: Option<nat>)
    ensures var r := FirstRejected(ws, failing);
      (r.Some? ==> Rejects(ws, failing, r.value)) &&
      forall i :: 0 <= i < |ws| && (r.None? || i < r.value) ==> !Rejects(ws, failing, i)
    decreases |ws|
  {
    if |ws| > 0 {
      RejectsInPrefix(ws, |ws| - 1, failing);
      FirstRejectedIsFirst(ws[..|ws| - 1], failing);
    }
  }

  /** A statement rejects in a prefix of `ws` iff it rejects in `ws`. */
  lemma RejectsInPrefix(ws: seq<Write>, k: nat, failing: Option<nat>)
    requires k <= |ws|
    ensures forall i :: 0 <= i < k ==> Rejects(ws[..k], failing, i) == Rejects(ws, failing, i)
  {
    assert forall i :: 0 <= i < k ==> ws[..k][i] == ws[i];
  }

  /** The statements of `ws` attempted: up to and including the first that
      rejects. */
  function Attempted(ws: seq<Write>, failing: Option<nat>): seq<Write>
  {
    var k := FirstRejected(ws, failing);
    if k.Some? then ws[..k.value + 1] else ws
  }

  /** Those of them that succeeded. */
  function Written(ws: seq<Write>, failing: Option<nat>): seq<Write>
  {
    var k := FirstRejected(ws, failing);
    if k.Some? then ws[..k.value] else ws
  }

  /** The callback runs every dependent statement without a rejection and
      does not throw. */
  predicate DependentsComplete(b: CreateBody, qid: int, failing: Option<nat>) {
    !LeadOf(b, qid).throws && FirstRejected(Dependents(b, qid), failing).None?
  }

  /** Attempting `lead` and then `last`: a rejection within `lead` stops
      there; otherwise `last` is attempted, and written unless it rejects. */
  lemma AttemptedThenLast(lead: seq<Write>, last: Write, failing: Option<nat>)
    ensures FirstRejected(lead, failing).Some? ==>
      FirstRejected(lead + [last], failing) == FirstRejected(lead, failing) &&
      Attempted(lead + [last], failing) == Attempted(lead, failing) && Written(lead + [last], failing) == Written(lead, failing)
    ensures FirstRejected(lead, failing).None? ==>
      (FirstRejected(lead + [last], failing).Some? <==> failing == Some(|lead| + 1) || BindsUndefined(last)) &&
      Attempted(lead + [last], failing) == lead + [last] &&
      Written(lead + [last], failing) == (if failing == Some(|lead| + 1) || BindsUndefined(last) then lead else lead + [last])
  {
    var ws := lead + [last];
    assert ws[..|ws| - 1] == lead;
    var k := FirstRejected(lead, failing);
    if k.Some? {
      assert ws[..k.value + 1] == lead[..k.value + 1];
      assert ws[..k.value] == lead[..k.value];
    }
  }

  /** Statement `i + 1` of `ws` after statements `1..i` ran through: the
      prefix grows by that statement, and when it rejects it is the last
      one attempted. */
  lemma StatementStep(ws: seq<Write>, i: nat, failing: Option<nat>)
    requires i < |ws| && FirstRejected(ws[..i], failing).None?
    ensures ws[..i + 1] == ws[..i] + [ws[i]]
    ensures ExecCalls(ws[..i + 1]) == ExecCalls(ws[..i]) + [ExecCall(ws[i])]
    ensures Rejects(ws, failing, i) ==> Written(ws, failing) == ws[..i] && Attempted(ws, failing) == ws[..i + 1]
    ensures !Rejects(ws, failing, i) ==> FirstRejected(ws[..i + 1], failing).None?
  {
    var p := ws[..i + 1];
    assert p[..i] == ws[..i];
    RejectsInPrefix(ws, i, failing);
    RejectsInPrefix(ws, i + 1, failing);
    FirstRejectedIsFirst(ws[..i], failing);
    FirstRejectedIsFirst(ws, failing);
    if Rejects(ws, failing, i) {
      assert FirstRejected(ws, failing) == Some(i);
    }
  }

  /** Every statement of `ws` ran through. */
  lemma StatementsDone(ws: seq<Write>, failing: Option<nat>)
    requires FirstRejected(ws[..|ws|], failing).None?
    ensures Written(ws, failing) == ws && Attempted(ws, failing) == ws
  {
    assert ws[..|ws|] == ws;
  }

  /** The create commits: the transaction opens, the question row and every
      dependent row are written, nothing throws and the commit succeeds. */
  predicate Succeeds(t: Tables, b: CreateBody, f: CreateFaults) {
    !f.tx.acquireFails && !f.tx.beginFails && !QuestionRejects(b, f)
    && DependentsComplete(b, t.nextQuestionId, f.failing) && !f.tx.commitFails
  }

  /** The pool rejects the question row: the server refuses it, or it binds
      `undefined`. */
  predicate QuestionRejects(b: CreateBody, f: CreateFaults) {
    f.failing == Some(0) || BindsUndefined(QuestionInsert(b))
  }

  function CreateResponse(t: Tables, b: CreateBody, f: CreateFaults): Response<()>
  {
    if Succeeds(t, b, f) then Response(201, Message(Created)) else Response(500, ErrorMessage(InternalError))
  }

  /** The tables after POST / as written: the question row goes through the
      pool and stays whenever it was written, the dependent rows only when the
      transaction commits. */
  function CreateTables(t: Tables, b: CreateBody, f: CreateFaults): Tables
  {
    if f.tx.acquireFails || f.tx.beginFails || QuestionRejects(b, f) then t
    else if Succeeds(t, b, f) then ApplyAll(Apply(t, QuestionInsert(b)), Dependents(b, t.nextQuestionId))
    else Apply(t, QuestionInsert(b))
  }

  /** The tables after the corrected create: everything or nothing. */
  function AtomicCreateTables(t: Tables, b: CreateBody, f: CreateFaults): Tables
  {
    if Succeeds(t, b, f) then ApplyAll(t, [QuestionInsert(b)] + Dependents(b, t.nextQuestionId)) else t
  }

  /** The `for (const choice of choices)` loop over an iterable: one insert
      per element, in order, stopping at the first rejection, and throwing at
      the first `null` or `undefined` element. Statement `1 + i` inserts
      element `i`. */
  method RunChoices(conn: Connection, qid: int, es: seq<Element>, failing: Option<nat>) returns (r: Result<()>)
    requires conn.phase == Open && !conn.released
    modifies conn
    ensures conn.phase == Open && !conn.released
    ensures r.Ok? <==> |LeadingItems(es)| == |es| && FirstRejected(ChoiceInserts(qid, LeadingItems(es)), failing).None?
    ensures conn.pending == old(conn.pending) + Written(ChoiceInserts(qid, LeadingItems(es)), failing)
    ensures conn.calls == old(conn.calls) + ExecCalls(Attempted(ChoiceInserts(qid, LeadingItems(es)), failing))
  {
    ghost var all := ChoiceInserts(qid, LeadingItems(es));
    var i := 0;
    while i < |es|
      invariant 0 <= i <= |LeadingItems(es)|
      invariant conn.phase == Open && !conn.released
      invariant conn.pending == old(conn.pending) + all[..i]
      invariant conn.calls == old(conn.calls) + ExecCalls(all[..i])
      invariant FirstRejected(all[..i], failing).None?
    {
      ElementStep(qid, es, i);
      if es[i].Missing? {
        StatementsDone(all, failing);
        return Err(TypeError("Cannot read properties of null (reading 'text')"));
      }
      var w := ChoiceInsert(qid, es[i].choice);
      StatementStep(all, i, failing);
      var h := conn.Execute(w, 1 + i, failing == Some(1 + i) || BindsUndefined(w));
      if h.Err? {
        return Err(h.error);
      }
      i := i + 1;
    }
    ElementsDone(qid, es, i);
    StatementsDone(all, failing);
    r := Ok(());
  }

  /** Element `i` of the loop, all before it readable: a `null` or
      `undefined` element ends the choices read; any other is the next
      choice insert. */
  lemma ElementStep(qid: int, es: seq<Element>, i: nat)
    requires i <= |LeadingItems(es)| && i < |es|
    ensures es[i].Missing? ==> i == |LeadingItems(es)| && ChoiceInserts(qid, LeadingItems(es))[..i] == ChoiceInserts(qid, LeadingItems(es))
    ensures es[i].Present? ==> i < |LeadingItems(es)| && ChoiceInserts(qid, LeadingItems(es))[i] == ChoiceInsert(qid, es[i].choice)
  {
    LeadingItemsStopAtMissing(es);
    ChoiceInsertsInOrder(qid, LeadingItems(es));
  }

  /** Every element was read. */
  lemma ElementsDone(qid: int, es: seq<Element>, i: nat)
    requires i <= |LeadingItems(es)| && i == |es|
    ensures i == |LeadingItems(es)| && ChoiceInserts(qid, LeadingItems(es))[..i] == ChoiceInserts(qid, LeadingItems(es))
  {
  }

  /** The text-answer insert, statement 1. */
  method RunAnswer(conn: Connection, qid: int, answer: Value, failing: Option<nat>) returns (r: Result<()>)
    requires conn.phase == Open && !conn.released
    modifies conn
    ensures conn.phase == Open && !conn.released
    ensures r.Ok? <==> FirstRejected([InsertAnswer(qid, answer)], failing).None?
    ensures conn.pending == old(conn.pending) + Written([InsertAnswer(qid, answer)], failing)
    ensures conn.calls == old(conn.calls) + ExecCalls(Attempted([InsertAnswer(qid, answer)], failing))
  {
    var w := InsertAnswer(qid, answer);
    assert [w][..0] == [] && [w][..1] == [w];
    StatementStep([w], 0, failing);
    var h := conn.Execute(w, 1, failing == Some(1) || BindsUndefined(w));
    if h.Err? {
      r := Err(h.error);
    } else {
      r := Ok(());
    }
  }

  /** The choice loop or the answer insert. */
  method RunLead(conn: Connection, b: CreateBody, qid: int, failing: Option<nat>) returns (r: Result<()>)
    requires conn.phase == Open && !conn.released
    modifies conn
    ensures conn.phase == Open && !conn.released
    ensures r.Ok? <==> !LeadOf(b, qid).throws && FirstRejected(LeadOf(b, qid).writes, failing).None?
    ensures conn.pending == old(conn.pending) + Written(LeadOf(b, qid).writes, failing)
    ensures conn.calls == old(conn.calls) + ExecCalls(Attempted(LeadOf(b, qid).writes, failing))
  {
    if IsChoiceType(b) {
      match b.choices
      case NotIterable =>
        assert conn.pending == old(conn.pending) + [];
        assert conn.calls == old(conn.calls) + ExecCalls([]);
        r := Err(TypeError("choices is not iterable"));
      case Elements(es) =>
        r := RunChoices(conn, qid, es, failing);
    } else {
      r := RunAnswer(conn, qid, b.answer, failing);
    }
  }

  /** The callback after the question row: the choice loop or the answer,
      then the explanation, on the transaction connection, stopping at the
      first rejection or throw. */
  method RunDependents(conn: Connection, b: CreateBody, qid: int, failing: Option<nat>) returns (cb: Result<()>)
    requires conn.phase == Open && !conn.released
    modifies conn
    ensures conn.phase == Open && !conn.released
    ensures cb.Ok? <==> DependentsComplete(b, qid, failing)
    ensures conn.pending == old(conn.pending) + Written(Dependents(b, qid), failing)
    ensures conn.calls == old(conn.calls) + ExecCalls(Attempted(Dependents(b, qid), failing))
  {
    var r := RunLead(conn, b, qid, failing);
    var lead := LeadOf(b, qid);
    var last := InsertExplanation(qid, b.explanation);
    AttemptedThenLast(lead.writes, last, failing);
    if r.Err? {
      return r;
    }
    ExecCallsAppend(lead.writes, [last]);
    assert ExecCalls([last]) == [ExecCall(last)];
    var next := |lead.writes| + 1;
    var h := conn.Execute(last, next, failing == Some(next) || BindsUndefined(last));
    if h.Err? {
      cb := Err(h.error);
    } else {
      cb := Ok(());
    }
  }

  /** POST / as written: the question row through `QuestionRepository.create`
      (the pool), the dependent rows through the transaction connection. */
  method CreateQuestion(db: Database, b: CreateBody, f: CreateFaults) returns (res: Response<()>)
    modifies db
    ensures res == CreateResponse(old(db.tables), b, f)
    ensures db.tables == CreateTables(old(db.tables), b, f)
  {
    var conn, began := Begin(db, f.tx.acquireFails, f.tx.beginFails);
    if began.Err? {
      return Response(500, ErrorMessage(InternalError));
    }
    var cb: Result<()>;
    ghost var t := db.tables;
    var question := db.Execute(QuestionInsert(b), f.failing == Some(0) || BindsUndefined(QuestionInsert(b)));
    if question.Err? {
      cb := Err(question.error);
    } else {
      assert question.value.insertId == t.nextQuestionId;
      cb := RunDependents(conn, b, question.value.insertId, f.failing);
      assert cb.Ok? ==> conn.pending == Dependents(b, t.nextQuestionId);
    }
    var r := Settle(conn, cb, f.tx.commitFails, f.tx.rollbackFails);
    res := if r.Ok? then Response(201, Message(Created)) else Response(500, ErrorMessage(InternalError));
  }

  /** POST / with every statement on the transaction connection and the
      connection released when begin rejects. */
  method CreateQuestionAtomic(db: Database, b: CreateBody, f: CreateFaults) returns (res: Response<()>)
    modifies db
    ensures res == CreateResponse(old(db.tables), b, f)
    ensures db.tables == AtomicCreateTables(old(db.tables), b, f)
  {
    var conn, began := BeginReleasing(db, f.tx.acquireFails, f.tx.beginFails);
    if began.Err? {
      return Response(500, ErrorMessage(InternalError));
    }
    var cb: Result<()>;
    assert conn.View() == db.tables;
    var question := conn.Execute(QuestionInsert(b), 0, f.failing == Some(0) || BindsUndefined(QuestionInsert(b)));
    if question.Err? {
      cb := Err(question.error);
    } else {
      cb := RunDependents(conn, b, question.value.insertId, f.failing);
    }
    var r := Settle(conn, cb, f.tx.commitFails, f.tx.rollbackFails);
    res := if r.Ok? then Response(201, Message(Created)) else Response(500, ErrorMessage(InternalError));
  }

  // ---------------------------------------------------------------------------
  // What a create leaves in the tables

  /** The choice rows the inserts add, with consecutive ids from `start`. */
  function ChoiceRows(start: int, qid: int, cs: seq<ChoiceInput>): (r: seq<ChoiceRow>)
    ensures |r| == |cs|
  {
    seq(|cs|, i requires 0 <= i < |cs| => ChoiceRow(start + i, qid, cs[i].text, cs[i].isCorrect))
  }

  /** The choice inserts append one row per choice, in order, each naming
      the question, and advance the choice counter by their number. */
  lemma {:induction false} ApplyChoiceInserts(t: Tables, qid: int, cs: seq<ChoiceInput>)
    ensures ApplyAll(t, ChoiceInserts(qid, cs))
      == t.(choices := t.choices + ChoiceRows(t.nextChoiceId, qid, cs), nextChoiceId := t.nextChoiceId + |cs|)
    decreases |cs|
  {
    if |cs| == 0 {
      assert t.choices + ChoiceRows(t.nextChoiceId, qid, cs) == t.choices;
    } else {
      var init := cs[..|cs| - 1];
      var last := cs[|cs| - 1];
      ApplyChoiceInserts(t, qid, init);
      ApplyAllAppend(t, ChoiceInserts(qid, init), [ChoiceInsert(qid, last)]);
      var mid := ApplyAll(t, ChoiceInserts(qid, init));
      assert ApplyAll(mid, [ChoiceInsert(qid, last)]) == Apply(mid, ChoiceInsert(qid, last));
      assert ChoiceRows(t.nextChoiceId, qid, init) + [ChoiceRow(t.nextChoiceId + |init|, qid, last.text, last.isCorrect)]
        == ChoiceRows(t.nextChoiceId, qid, cs);
    }
  }

  /** A create that succeeds adds exactly: the question row with the next
      id, one choice row per choice (for a `choice` question, whose every
      element was readable) or one answer row (otherwise), and one
      explanation row, all naming that id. */
  lemma CreateSuccessRows(t: Tables, b: CreateBody, f: CreateFaults)
    requires Succeeds(t, b, f)
    ensures var qid := t.nextQuestionId;
      var r := CreateTables(t, b, f);
      CreateResponse(t, b, f).status == 201 &&
      r.questions == t.questions + [QuestionRow(qid, b.title, b.text, b.qtype, b.userId, t.now)] &&
      r.explanations == t.explanations + [ExplanationRow(qid, b.explanation)] &&
      r.users == t.users &&
      (IsChoiceType(b) ==>
        (b.choices.Elements? && |LeadingItems(b.choices.items)| == |b.choices.items| &&
         r.choices == t.choices + ChoiceRows(t.nextChoiceId, qid, LeadingItems(b.choices.items)) && r.answers == t.answers)) &&
      (!IsChoiceType(b) ==> r.answers == t.answers + [AnswerRow(qid, b.answer)] && r.choices == t.choices)
  {
    var qid := t.nextQuestionId;
    var t1 := Apply(t, QuestionInsert(b));
    var lead := LeadOf(b, qid).writes;
    var last := InsertExplanation(qid, b.explanation);
    assert Dependents(b, qid) == lead + [last];
    ApplyAllAppend(t1, lead, [last]);
    var t2 := ApplyAll(t1, lead);
    assert ApplyAll(t2, [last]) == Apply(t2, last);
    if IsChoiceType(b) {
      ApplyChoiceInserts(t1, qid, LeadingItems(b.choices.items));
    } else {
      assert ApplyAll(t1, lead) == Apply(t1, InsertAnswer(qid, b.answer));
    }
  }

  /** A create can commit only when every field it binds is defined and
      every choice can be read; with no rejection from the server such a
      create always commits. */
  lemma CreateSucceedsIffWritable(t: Tables, b: CreateBody, f: CreateFaults)
    ensures Succeeds(t, b, f) ==> Writable(b)
    ensures Writable(b) && f == NoFaults ==> Succeeds(t, b, f)
  {
    if Succeeds(t, b, f) {
      SucceedsOnlyWhenWritable(t, b, f);
    }
    if Writable(b) && f == NoFaults {
      WritableSucceeds(t, b);
    }
  }

  lemma SucceedsOnlyWhenWritable(t: Tables, b: CreateBody, f: CreateFaults)
    requires Succeeds(t, b, f)
    ensures Writable(b)
  {
    var qid := t.nextQuestionId;
    var d := Dependents(b, qid);
    DependentsShape(b, qid);
    FirstRejectedIsFirst(d, f.failing);
    if IsChoiceType(b) {
      var es := b.choices.items;
      var cs := LeadingItems(es);
      forall i | 0 <= i < |es|
        ensures es[i].Present? && es[i].choice.text != Undefined && es[i].choice.isCorrect != Undefined
      {
        assert es[i] == Present(cs[i]) && d[i] == InsertChoice(qid, cs[i].text, cs[i].isCorrect);
        assert !Rejects(d, f.failing, i);
      }
    }
    assert !Rejects(d, f.failing, |d| - 1);
  }

  lemma WritableSucceeds(t: Tables, b: CreateBody)
    requires Writable(b)
    ensures Succeeds(t, b, NoFaults)
  {
    var qid := t.nextQuestionId;
    var d := Dependents(b, qid);
    DependentsShape(b, qid);
    if IsChoiceType(b) {
      LeadingItemsStopAtMissing(b.choices.items);
    }
    assert !LeadOf(b, qid).throws;
    forall j | 0 <= j < |d| ensures !Rejects(d, None, j) {
    }
    FirstRejectedIsFirst(d, None);
  }

  /** A `choice` question whose `choices` is a string: the empty string
      iterates nothing, so the question is created with its explanation and
      no choice; any other string yields characters, whose `text` is
      `undefined`, so the create answers 500. */
  lemma StringChoicesOutcome(t: Tables, b: CreateBody, s: string, f: CreateFaults)
    requires IsChoiceType(b) && b.choices == StringChoices(s)
    ensures |s| > 0 ==> CreateResponse(t, b, f).status == 500
    ensures (|s| == 0 && f == NoFaults &&
             b.title != Undefined && b.text != Undefined && b.userId != Undefined && b.explanation != Undefined) ==>
      CreateResponse(t, b, f).status == 201 &&
      CreateTables(t, b, f).choices == t.choices &&
      CreateTables(t, b, f).explanations == t.explanations + [ExplanationRow(t.nextQuestionId, b.explanation)]
  {
    CreateSucceedsIffWritable(t, b, f);
    if |s| > 0 {
      assert b.choices.items[0].choice.text == Undefined;
    } else if f == NoFaults && b.title != Undefined && b.text != Undefined && b.userId != Undefined && b.explanation != Undefined {
      assert Writable(b);
      CreateSuccessRows(t, b, f);
      assert t.choices + ChoiceRows(t.nextChoiceId, t.nextQuestionId, []) == t.choices;
    }
  }

  /** As written, once the question row is in, any later rejection or throw
      (a dependent insert, a `choices` that cannot be iterated or read, an
      undefined answer or explanation, the commit) answers 500 yet leaves
      that question row behind, with none of its dependents. */
  lemma OrphanQuestionOnRollback(t: Tables, b: CreateBody, f: CreateFaults)
    requires !f.tx.acquireFails && !f.tx.beginFails && !QuestionRejects(b, f) && !Succeeds(t, b, f)
    ensures CreateResponse(t, b, f).status == 500
    ensures CreateTables(t, b, f).questions
      == t.questions + [QuestionRow(t.nextQuestionId, b.title, b.text, b.qtype, b.userId, t.now)]
    ensures CreateTables(t, b, f) == Apply(t, QuestionInsert(b))
  {
  }

  /** A concrete case: a `choice` question with choices A (correct) and B
      whose second choice insert (statement 2) rejects keeps its question
      row. */
  lemma OrphanQuestionExample(t: Tables)
    ensures var b := CreateBody(Str("t"), Str("q"), Str("choice"),
                                Elements([Present(ChoiceInput(Str("A"), Bool(true))), Present(ChoiceInput(Str("B"), Bool(false)))]),
                                Undefined, Str("e"), Num(1));
      var f := CreateFaults(TxFaults(false, false, false, false), Some(2));
      CreateResponse(t, b, f).status == 500 && |CreateTables(t, b, f).questions| == |t.questions| + 1
  {
    var b := CreateBody(Str("t"), Str("q"), Str("choice"),
                        Elements([Present(ChoiceInput(Str("A"), Bool(true))), Present(ChoiceInput(Str("B"), Bool(false)))]),
                        Undefined, Str("e"), Num(1));
    var f := CreateFaults(TxFaults(false, false, false, false), Some(2));
    var d := Dependents(b, t.nextQuestionId);
    assert |LeadingItems(b.choices.items)| == 2;
    assert Rejects(d, f.failing, 1);
    FirstRejectedIsFirst(d, f.failing);
    OrphanQuestionOnRollback(t, b, f);
  }

  /** With every statement on the transaction connection the create is all
      or nothing: a 500 leaves the tables as they were, a 201 leaves the same
      rows as the create as written. */
  lemma AtomicCreateAllOrNothing(t: Tables, b: CreateBody, f: CreateFaults)
    ensures CreateResponse(t, b, f).status == 500 ==> AtomicCreateTables(t, b, f) == t
    ensures CreateResponse(t, b, f).status == 201 ==> AtomicCreateTables(t, b, f) == CreateTables(t, b, f)
  {
    if Succeeds(t, b, f) {
      var ws := [QuestionInsert(b)] + Dependents(b, t.nextQuestionId);
      assert ws[0] == QuestionInsert(b) && ws[1..] == Dependents(b, t.nextQuestionId);
    }
  }
}

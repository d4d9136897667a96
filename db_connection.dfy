/** The pool wrapper: autocommit statements on the pool, the transaction
    protocol on one borrowed connection (acquire, begin, callback, commit or
    rollback, release), the rows-only `query` and `ping`. Driver calls are
    steps that succeed or fail as their `fails` argument says. */
module DBConnection {
  import opened Values
  import opened Store

  /** Where a borrowed connection stands in the transaction protocol. */
  datatype Phase = Acquired | Open | Committed | RolledBack

  /** A driver call made on a borrowed connection, in the order made. */
  datatype Call = BeginCall | ExecCall(w: Write) | CommitCall | RollbackCall | ReleaseCall

  /** Which driver calls of one `transaction` reject. */
  datatype TxFaults = TxFaults(acquireFails: bool, beginFails: bool, commitFails: bool, rollbackFails: bool)

  /** What `pool.execute` resolves to: the rows and the column metadata. */
  datatype Execution<R> = Execution(rows: R, fields: seq<string>)

  /** The database behind the pool: its committed tables, which every
      autocommit statement and every other connection sees. */
  class Database {
    var tables: Tables

    constructor (initial: Tables)
      ensures tables == initial
    {
      tables := initial;
    }

    /** A write through `pool.execute` (the path of `query`): it commits on
        its own, whatever transaction another connection has open. */
    method Execute(w: Write, fails: bool) returns (r: Result<Header>)
      modifies this
      ensures r == (if fails then Err(DriverError(PoolQuery)) else Ok(HeaderOf(old(tables), w)))
      ensures tables == (if fails then old(tables) else Apply(old(tables), w))
    {
      if fails {
        r := Err(DriverError(PoolQuery));
      } else {
        r := Ok(HeaderOf(tables, w));
        tables := Apply(tables, w);
      }
    }
  }

  /** A connection borrowed from the pool. Writes executed inside its open
      transaction stay `pending` until a commit applies them to the
      database. */
  class Connection {
    const db: Database
    var phase: Phase
    var pending: seq<Write>
    var released: bool
    var calls: seq<Call>

    constructor (db: Database)
      ensures this.db == db && phase == Acquired && pending == [] && !released && calls == []
    {
      this.db := db;
      phase := Acquired;
      pending := [];
      released := false;
      calls := [];
    }

    /** The tables as this connection sees them: committed contents plus its
        own uncommitted writes. */
    function View(): Tables
      reads this, db
    {
      ApplyAll(db.tables, pending)
    }

    method BeginTransaction(fails: bool) returns (r: Result<()>)
      requires phase == Acquired && !released
      modifies this
      ensures calls == old(calls) + [BeginCall] && pending == old(pending) && released == old(released)
      ensures fails ==> r == Err(DriverError(Step.BeginTransaction)) && phase == Acquired
      ensures !fails ==> r == Ok(()) && phase == Open
    {
      calls := calls + [BeginCall];
      if fails {
        r := Err(DriverError(Step.BeginTransaction));
      } else {
        r := Ok(());
        phase := Open;
      }
    }

    /** `connection.execute` inside the open transaction; `index` numbers
        the statement within the callback. */
    method Execute(w: Write, index: nat, fails: bool) returns (r: Result<Header>)
      requires phase == Open && !released
      modifies this
      ensures calls == old(calls) + [ExecCall(w)] && phase == Open && released == old(released)
      ensures fails ==> r == Err(DriverError(Step.Execute(index))) && pending == old(pending)
      ensures !fails ==> r == Ok(HeaderOf(old(View()), w)) && pending == old(pending) + [w]
    {
      calls := calls + [ExecCall(w)];
      if fails {
        r := Err(DriverError(Step.Execute(index)));
      } else {
        r := Ok(HeaderOf(View(), w));
        pending := pending + [w];
      }
    }

    method Commit(fails: bool) returns (r: Result<()>)
      requires phase == Open && !released
      modifies this, db
      ensures calls == old(calls) + [CommitCall] && released == old(released)
      ensures fails ==> (r == Err(DriverError(Step.Commit)) && phase == Open && pending == old(pending)
        && db.tables == old(db.tables))
      ensures !fails ==> (r == Ok(()) && phase == Committed && pending == []
        && db.tables == ApplyAll(old(db.tables), old(pending)))
    {
      calls := calls + [CommitCall];
      if fails {
        r := Err(DriverError(Step.Commit));
      } else {
        r := Ok(());
        db.tables := ApplyAll(db.tables, pending);
        pending := [];
        phase := Committed;
      }
    }

    method Rollback(fails: bool) returns (r: Result<()>)
      requires phase == Open && !released
      modifies this
      ensures calls == old(calls) + [RollbackCall] && released == old(released)
      ensures fails ==> r == Err(DriverError(Step.Rollback)) && phase == Open && pending == old(pending)
      ensures !fails ==> r == Ok(()) && phase == RolledBack && pending == []
    {
      calls := calls + [RollbackCall];
      if fails {
        r := Err(DriverError(Step.Rollback));
      } else {
        r := Ok(());
        pending := [];
        phase := RolledBack;
      }
    }

    method Release()
      requires !released
      modifies this
      ensures released && calls == old(calls) + [ReleaseCall]
      ensures phase == old(phase) && pending == old(pending)
    {
      released := true;
      calls := calls + [ReleaseCall];
    }
  }

  /** The two awaited calls before `transaction`'s `try`: borrow a
      connection, then begin. A begin that rejects leaves the borrowed
      connection unreleased. */
  method Begin(db: Database, acquireFails: bool, beginFails: bool) returns (conn: Connection?, r: Result<()>)
    ensures acquireFails ==> conn == null && r == Err(DriverError(GetConnection))
    ensures !acquireFails ==> (conn != null && fresh(conn) && conn.db == db && conn.pending == []
      && !conn.released && conn.calls == [BeginCall])
    ensures !acquireFails && beginFails ==> r == Err(DriverError(Step.BeginTransaction)) && conn.phase == Acquired
    ensures !acquireFails && !beginFails ==> r == Ok(()) && conn.phase == Open
  {
    if acquireFails {
      conn := null;
      r := Err(DriverError(GetConnection));
      return;
    }
    conn := new Connection(db);
    r := conn.BeginTransaction(beginFails);
  }

  /** `Begin` with the release the `finally` would have made: a connection
      whose begin rejects goes back to the pool. */
  method BeginReleasing(db: Database, acquireFails: bool, beginFails: bool) returns (conn: Connection?, r: Result<()>)
    ensures acquireFails ==> conn == null && r == Err(DriverError(GetConnection))
    ensures !acquireFails ==> conn != null && fresh(conn) && conn.db == db && conn.pending == []
    ensures !acquireFails && beginFails ==> (r == Err(DriverError(Step.BeginTransaction))
      && conn.released && conn.calls == [BeginCall, ReleaseCall])
    ensures !acquireFails && !beginFails ==> (r == Ok(()) && conn.phase == Open
      && !conn.released && conn.calls == [BeginCall])
  {
    conn, r := Begin(db, acquireFails, beginFails);
    if conn != null && r.Err? {
      conn.Release();
    }
  }

  /** The result of the `try`/`catch` once the callback has produced
      `outcome`: its value when the callback and the commit succeed;
      otherwise the error rethrown, unless the rollback itself rejects, in
      which case the rollback's error replaces it. */
  function Settled<T>(outcome: Result<T>, commitFails: bool, rollbackFails: bool): Result<T>
  {
    if outcome.Ok? && !commitFails then outcome
    else if rollbackFails then Err(DriverError(Step.Rollback))
    else if outcome.Err? then Err(outcome.error)
    else Err(DriverError(Step.Commit))
  }

  /** The calls the `try`/`catch`/`finally` makes. */
  function SettleCalls(callbackOk: bool, commitFails: bool): seq<Call>
  {
    (if callbackOk then [CommitCall] else [])
    + (if !callbackOk || commitFails then [RollbackCall] else [])
    + [ReleaseCall]
  }

  /** The `try`/`catch`/`finally` of `transaction`, after the callback. */
  method Settle<T>(conn: Connection, outcome: Result<T>, commitFails: bool, rollbackFails: bool) returns (r: Result<T>)
    requires conn.phase == Open && !conn.released
    modifies conn, conn.db
    ensures r == Settled(outcome, commitFails, rollbackFails)
    ensures conn.released
    ensures conn.calls == old(conn.calls) + SettleCalls(outcome.Ok?, commitFails)
    ensures conn.db.tables == (if r.Ok? then ApplyAll(old(conn.db.tables), old(conn.pending)) else old(conn.db.tables))
  {
    if outcome.Ok? {
      var c := conn.Commit(commitFails);
      if c.Ok? {
        conn.Release();
        r := outcome;
        return;
      }
      var rb := conn.Rollback(rollbackFails);
      conn.Release();
      r := if rb.Err? then Err(rb.error) else Err(c.error);
    } else {
      var rb := conn.Rollback(rollbackFails);
      conn.Release();
      r := if rb.Err? then Err(rb.error) else Err(outcome.error);
    }
  }

  /** One statement call per write, in order. */
  function ExecCalls(ws: seq<Write>): (r: seq<Call>)
    ensures |r| == |ws|
  {
    if |ws| == 0 then [] else ExecCalls(ws[..|ws| - 1]) + [ExecCall(ws[|ws| - 1])]
  }

  lemma {:induction false} ExecCallsAt(ws: seq<Write>)
    ensures forall i :: 0 <= i < |ws| ==> ExecCalls(ws)[i] == ExecCall(ws[i])
    decreases |ws|
  {
    if |ws| > 0 {
      var init := ws[..|ws| - 1];
      ExecCallsAt(init);
      assert forall i :: 0 <= i < |init| ==> init[i] == ws[i];
    }
  }

  lemma ExecCallsAppend(a: seq<Write>, b: seq<Write>)
    ensures ExecCalls(a + b) == ExecCalls(a) + ExecCalls(b)
  {
    ExecCallsAt(a + b);
    ExecCallsAt(a);
    ExecCallsAt(b);
    assert forall i :: 0 <= i < |a + b| ==> ExecCalls(a + b)[i] == (ExecCalls(a) + ExecCalls(b))[i];
  }

  /** What `transaction(callback)` returns or throws, for a callback that
      ends with `outcome`. */
  function TxResult<T>(f: TxFaults, outcome: Result<T>): Result<T>
  {
    if f.acquireFails then Err(DriverError(GetConnection))
    else if f.beginFails then Err(DriverError(Step.BeginTransaction))
    else Settled(outcome, f.commitFails, f.rollbackFails)
  }

  /** The calls `transaction` makes on its connection, for a callback that
      executes `body` and then succeeds (`callbackOk`) or throws. */
  function TxCalls(f: TxFaults, body: seq<Write>, callbackOk: bool): seq<Call>
  {
    if f.acquireFails then []
    else if f.beginFails then [BeginCall]
    else [BeginCall] + ExecCalls(body) + SettleCalls(callbackOk, f.commitFails)
  }

  /** The same, with the release on a failed begin. */
  function TxCallsReleasing(f: TxFaults, body: seq<Write>, callbackOk: bool): seq<Call>
  {
    if f.acquireFails then []
    else if f.beginFails then [BeginCall, ReleaseCall]
    else [BeginCall] + ExecCalls(body) + SettleCalls(callbackOk, f.commitFails)
  }

  /** `transaction(callback)` where the callback executes `body` on the
      connection it is given and then ends with `outcome`. The database
      changes by the whole body or not at all. */
  method Transaction<T>(db: Database, f: TxFaults, body: seq<Write>, outcome: Result<T>)
    returns (r: Result<T>, ghost trace: seq<Call>)
    modifies db
    ensures r == TxResult(f, outcome)
    ensures trace == TxCalls(f, body, outcome.Ok?)
    ensures db.tables == (if r.Ok? then ApplyAll(old(db.tables), body) else old(db.tables))
  {
    var conn, b := Begin(db, f.acquireFails, f.beginFails);
    if b.Err? {
      r := Err(b.error);
      trace := if conn == null then [] else conn.calls;
      return;
    }
    RunBody(conn, body);
    assert conn.pending == body && db.tables == old(db.tables);
    r := Settle(conn, outcome, f.commitFails, f.rollbackFails);
    trace := conn.calls;
  }

  /** `Transaction` built on `BeginReleasing`. */
  method TransactionReleasing<T>(db: Database, f: TxFaults, body: seq<Write>, outcome: Result<T>)
    returns (r: Result<T>, ghost trace: seq<Call>)
    modifies db
    ensures r == TxResult(f, outcome)
    ensures trace == TxCallsReleasing(f, body, outcome.Ok?)
    ensures db.tables == (if r.Ok? then ApplyAll(old(db.tables), body) else old(db.tables))
  {
    var conn, b := BeginReleasing(db, f.acquireFails, f.beginFails);
    if b.Err? {
      r := Err(b.error);
      trace := if conn == null then [] else conn.calls;
      return;
    }
    RunBody(conn, body);
    assert conn.pending == body && db.tables == old(db.tables);
    r := Settle(conn, outcome, f.commitFails, f.rollbackFails);
    trace := conn.calls;
  }

  /** The callback: each write of `body`, in order, on the given connection. */
  method RunBody(conn: Connection, body: seq<Write>)
    requires conn.phase == Open && !conn.released
    modifies conn
    ensures conn.phase == Open && !conn.released
    ensures conn.pending == old(conn.pending) + body
    ensures conn.calls == old(conn.calls) + ExecCalls(body)
  {
    var i := 0;
    while i < |body|
      invariant 0 <= i <= |body|
      invariant conn.phase == Open && !conn.released
      invariant conn.pending == old(conn.pending) + body[..i]
      invariant conn.calls == old(conn.calls) + ExecCalls(body[..i])
    {
      var h := conn.Execute(body[i], i, false);
      assert body[..i + 1] == body[..i] + [body[i]];
      assert body[..i + 1][..i] == body[..i];
      assert ExecCalls(body[..i + 1]) == ExecCalls(body[..i]) + [ExecCall(body[i])];
      i := i + 1;
    }
    assert body[..i] == body;
  }

  /** Occurrences of `x` in `s`. */
  function Count<T(==)>(s: seq<T>, x: T): nat
  {
    if |s| == 0 then 0 else (if s[0] == x then 1 else 0) + Count(s[1..], x)
  }

  lemma {:induction false} CountAppend<T>(a: seq<T>, b: seq<T>, x: T)
    ensures Count(a + b, x) == Count(a, x) + Count(b, x)
    decreases |a|
  {
    if |a| == 0 {
      assert a + b == b;
    } else {
      assert (a + b)[1..] == a[1..] + b;
      CountAppend(a[1..], b, x);
    }
  }

  lemma {:induction false} CountAbsent<T>(s: seq<T>, x: T)
    requires x !in s
    ensures Count(s, x) == 0
    decreases |s|
  {
    if |s| > 0 {
      CountAbsent(s[1..], x);
    }
  }

  /** Once the `try` is entered the connection is released exactly once;
      when borrowing or beginning rejects it is never released. */
  lemma ReleaseExactlyOnceInsideTry(f: TxFaults, body: seq<Write>, callbackOk: bool)
    ensures Count(TxCalls(f, body, callbackOk), ReleaseCall) == (if !f.acquireFails && !f.beginFails then 1 else 0)
  {
    var e := ExecCalls(body);
    ExecCallsAt(body);
    var s := SettleCalls(callbackOk, f.commitFails);
    CountAbsent(e, ReleaseCall);
    CountAppend([BeginCall], e, ReleaseCall);
    CountAppend([BeginCall] + e, s, ReleaseCall);
    CountAppend((if callbackOk then [CommitCall] else []) + (if !callbackOk || f.commitFails then [RollbackCall] else []), [ReleaseCall], ReleaseCall);
    CountAppend(if callbackOk then [CommitCall] else [], if !callbackOk || f.commitFails then [RollbackCall] else [], ReleaseCall);
  }

  /** A failed `beginTransaction` leaves a borrowed connection that is
      never released. */
  lemma BeginFailureLeaksConnection(f: TxFaults, body: seq<Write>, callbackOk: bool)
    requires !f.acquireFails && f.beginFails
    ensures BeginCall in TxCalls(f, body, callbackOk)
    ensures Count(TxCalls(f, body, callbackOk), ReleaseCall) == 0
  {
    ReleaseExactlyOnceInsideTry(f, body, callbackOk);
  }

  /** With the release on a failed begin, every borrowed connection goes
      back to the pool exactly once. */
  lemma ReleasingReleasesEveryBorrowed(f: TxFaults, body: seq<Write>, callbackOk: bool)
    ensures Count(TxCallsReleasing(f, body, callbackOk), ReleaseCall) == (if f.acquireFails then 0 else 1)
  {
    ReleaseExactlyOnceInsideTry(f, body, callbackOk);
    if !f.acquireFails && f.beginFails {
      assert Count([ReleaseCall], ReleaseCall) == 1;
      assert [BeginCall, ReleaseCall][1..] == [ReleaseCall];
    }
  }

  /** The callback runs only after a successful begin, on that connection:
      every statement call comes after `BeginCall`, and none happens when
      borrowing or beginning rejects. */
  lemma CallbackOnlyAfterBegin(f: TxFaults, body: seq<Write>, callbackOk: bool)
    ensures var t := TxCalls(f, body, callbackOk);
      forall i :: 0 <= i < |t| && t[i].ExecCall? ==>
        !f.acquireFails && !f.beginFails && 1 <= i <= |body| && t[0] == BeginCall && t[i] == ExecCall(body[i - 1])
  {
    ExecCallsAt(body);
  }

  /** `commit` is called iff begin succeeded and the callback completed, and
      then right after the callback's last statement. */
  lemma CommitOnlyAfterCallbackCompletes(f: TxFaults, body: seq<Write>, callbackOk: bool)
    ensures var t := TxCalls(f, body, callbackOk);
      (CommitCall in t <==> !f.acquireFails && !f.beginFails && callbackOk) &&
      (CommitCall in t ==> t[|body| + 1] == CommitCall)
  {
    var t := TxCalls(f, body, callbackOk);
    ExecCallsAt(body);
    if CommitCall in t {
      var i :| 0 <= i < |t| && t[i] == CommitCall;
      assert !f.acquireFails && !f.beginFails;
      assert i >= 1 + |body|;
    }
    if !f.acquireFails && !f.beginFails && callbackOk {
      assert t[|body| + 1] == CommitCall;
    }
  }

  /** `rollback` is called iff begin succeeded and the callback or the commit
      rejected. */
  lemma RollbackIffCallbackOrCommitFails(f: TxFaults, body: seq<Write>, callbackOk: bool)
    ensures RollbackCall in TxCalls(f, body, callbackOk)
      <==> !f.acquireFails && !f.beginFails && (!callbackOk || f.commitFails)
  {
    var t := TxCalls(f, body, callbackOk);
    ExecCallsAt(body);
    if RollbackCall in t {
      var i :| 0 <= i < |t| && t[i] == RollbackCall;
      assert !f.acquireFails && !f.beginFails;
    }
    if !f.acquireFails && !f.beginFails && (!callbackOk || f.commitFails) {
      assert t[|t| - 2] == RollbackCall;
    }
  }

  /** The transaction returns the callback's own value iff nothing rejects;
      a callback error is rethrown unchanged unless the rollback rejects, a
      rejected commit rethrows the commit's error after a successful rollback,
      and a rejected rollback's error replaces whatever was thrown. A failed
      acquire or begin rejects with its own error before the callback runs. */
  lemma TxResultRethrows<T>(f: TxFaults, outcome: Result<T>)
    ensures TxResult(f, outcome).Ok? <==> !f.acquireFails && !f.beginFails && outcome.Ok? && !f.commitFails
    ensures TxResult(f, outcome).Ok? ==> TxResult(f, outcome) == outcome
    ensures !f.acquireFails && !f.beginFails && outcome.Err? && !f.rollbackFails ==> TxResult(f, outcome) == outcome
    ensures !f.acquireFails && !f.beginFails && (outcome.Err? || f.commitFails) && f.rollbackFails
      ==> TxResult(f, outcome) == Err(DriverError(Step.Rollback))
    ensures !f.acquireFails && !f.beginFails && outcome.Ok? && f.commitFails && !f.rollbackFails
      ==> TxResult(f, outcome) == Err(DriverError(Step.Commit))
    ensures f.acquireFails ==> TxResult(f, outcome) == Err(DriverError(GetConnection))
    ensures !f.acquireFails && f.beginFails ==> TxResult(f, outcome) == Err(DriverError(Step.BeginTransaction))
  {
  }

  /** `query`: only the rows of what the pool resolves, and the driver's own
      error when it rejects. */
  function QueryRows<R>(executed: Result<Execution<R>>): (r: Result<R>)
    ensures r.Ok? <==> executed.Ok?
    ensures executed.Ok? ==> r.value == executed.value.rows
    ensures executed.Err? ==> r.error == executed.error
  {
    match executed
    case Ok(e) => Ok(e.rows)
    case Err(err) => Err(err)
  }

  /** `ping`: true iff `SELECT 1` resolves; it never rejects. */
  function Ping(selectOne: Result<Execution<seq<Value>>>): (alive: bool)
    ensures alive <==> selectOne.Ok?
  {
    QueryRows(selectOne).Ok?
  }
}

/** The question repository: the list query (questions LEFT JOIN users,
    newest first, one page) with its pagination envelope, and the
    single-question lookup. Both run their statements through
    `this.executeQuery`, which the base repository does not define. */
module QuestionRepository {
  import opened Values
  import opened SqlText
  import opened Store
  import DBConnection
  import BaseRepository

  /** A row of the list and detail queries: question id, text, type,
      creation time and `u.name AS author_name`. */
  datatype ListRow = ListRow(id: int, text: Value, qtype: Value, createAt: int, authorName: Value)

  /** How `this.executeQuery(sql, params)` behaves on this repository: not a
      function (as the base repository stands), or a call that runs the
      statement and rejects as its flags say. */
  datatype Executor = NotAFunction | Runs(countFails: bool, dataFails: bool)

  /** The repository as written. */
  const AsWritten: Executor := NotAFunction

  /** What calling an undefined method throws. */
  const ExecuteQueryMissing: Error := TypeError("this.executeQuery is not a function")

  // ---------------------------------------------------------------------------
  // LEFT JOIN users u ON q.user_id = u.id

  /** The names of the users whose id equals the question's `user_id`, in
      table order; a NULL or undefined `user_id` matches no one. */
  function MatchingNames(q: QuestionRow, users: seq<UserRow>): seq<Value>
  {
    if |users| == 0 then []
    else (if q.userId == Num(users[0].id) then [users[0].name] else []) + MatchingNames(q, users[1..])
  }

  predicate UserMatches(q: QuestionRow, u: UserRow) {
    q.userId == Num(u.id)
  }

  /** The `author_name` of the question's first joined row. */
  function AuthorOf(q: QuestionRow, users: seq<UserRow>): Value
  {
    var names := MatchingNames(q, users);
    if |names| == 0 then Null else names[0]
  }

  function RowOf(q: QuestionRow, author: Value): ListRow
  {
    ListRow(q.id, q.text, q.qtype, q.createAt, author)
  }

  /** The joined rows of one question: one per matching user, or a single
      row with a NULL author when no user matches. */
  function RowsOf(q: QuestionRow, users: seq<UserRow>): (r: seq<ListRow>)
    ensures |r| > 0 && r[0] == RowOf(q, AuthorOf(q, users))
  {
    var names := MatchingNames(q, users);
    if |names| == 0 then [RowOf(q, Null)]
    else seq(|names|, i requires 0 <= i < |names| => RowOf(q, names[i]))
  }

  function LeftJoin(questions: seq<QuestionRow>, users: seq<UserRow>): seq<ListRow>
  {
    if |questions| == 0 then [] else RowsOf(questions[0], users) + LeftJoin(questions[1..], users)
  }

  /** `users.id` is a key. */
  predicate UniqueUserIds(users: seq<UserRow>) {
    forall i, j :: 0 <= i < j < |users| ==> users[i].id != users[j].id
  }

  /** The join finds no name iff no user matches, and then the author is
      NULL. A matching user whose name is NULL gives a NULL author as well,
      so when no user's name is NULL the author is NULL iff no user
      matches. */
  lemma {:induction false} AuthorNullIffNoUser(q: QuestionRow, users: seq<UserRow>)
    ensures |MatchingNames(q, users)| == 0 <==> forall i :: 0 <= i < |users| ==> !UserMatches(q, users[i])
    ensures (forall i :: 0 <= i < |users| ==> !UserMatches(q, users[i])) ==> AuthorOf(q, users) == Null
    ensures (forall i :: 0 <= i < |users| ==> users[i].name != Null) ==>
      (AuthorOf(q, users) == Null <==> forall i :: 0 <= i < |users| ==> !UserMatches(q, users[i]))
    decreases |users|
  {
    if |users| > 0 {
      AuthorNullIffNoUser(q, users[1..]);
      assert AuthorOf(q, users) == if UserMatches(q, users[0]) then users[0].name else AuthorOf(q, users[1..]);
      if forall i :: 0 <= i < |users| ==> users[i].name != Null {
        assert forall i :: 0 <= i < |users[1..]| ==> users[1..][i].name != Null by {
          forall i | 0 <= i < |users[1..]| ensures users[1..][i].name != Null {
            assert users[1..][i] == users[i + 1];
          }
        }
      }
      if forall i :: 0 <= i < |users| ==> !UserMatches(q, users[i]) {
        assert forall i :: 0 <= i < |users[1..]| ==> !UserMatches(q, users[1..][i]) by {
          forall i | 0 <= i < |users[1..]| ensures !UserMatches(q, users[1..][i]) {
            assert users[1..][i] == users[i + 1];
          }
        }
      }
      if |MatchingNames(q, users)| == 0 {
        forall i | 0 <= i < |users| ensures !UserMatches(q, users[i]) {
          if i > 0 {
            assert users[1..][i - 1] == users[i];
          }
        }
      }
    }
  }

  /** Otherwise the author is the name of the first user that matches. */
  lemma {:induction false} AuthorIsFirstMatchingUser(q: QuestionRow, users: seq<UserRow>)
    ensures forall j :: (0 <= j < |users| && UserMatches(q, users[j]) && (forall i :: 0 <= i < j ==> !UserMatches(q, users[i]))
      ==> AuthorOf(q, users) == users[j].name)
    decreases |users|
  {
    if |users| > 0 {
      AuthorIsFirstMatchingUser(q, users[1..]);
      forall j | 0 <= j < |users| && UserMatches(q, users[j]) && (forall i :: 0 <= i < j ==> !UserMatches(q, users[i]))
        ensures AuthorOf(q, users) == users[j].name
      {
        if j > 0 {
          assert !UserMatches(q, users[0]);
          assert users[1..][j - 1] == users[j];
          assert forall i :: 0 <= i < j - 1 ==> !UserMatches(q, users[1..][i]) by {
            forall i | 0 <= i < j - 1 ensures !UserMatches(q, users[1..][i]) {
              assert users[1..][i] == users[i + 1];
            }
          }
        }
      }
    }
  }

  /** With unique user ids each question matches at most one user. */
  lemma {:induction false} AtMostOneAuthor(q: QuestionRow, users: seq<UserRow>)
    requires UniqueUserIds(users)
    ensures |MatchingNames(q, users)| <= 1
    decreases |users|
  {
    if |users| > 0 {
      AtMostOneAuthor(q, users[1..]);
      if UserMatches(q, users[0]) {
        assert forall i :: 0 <= i < |users[1..]| ==> !UserMatches(q, users[1..][i]) by {
          forall i | 0 <= i < |users[1..]| ensures !UserMatches(q, users[1..][i]) {
            assert users[1..][i] == users[i + 1];
          }
        }
        AuthorNullIffNoUser(q, users[1..]);
      }
    }
  }

  /** With unique user ids the join yields exactly one row per question, in
      table order, carrying that question's author (NULL when no user
      matches). */
  lemma {:induction false} LeftJoinOneRowPerQuestion(questions: seq<QuestionRow>, users: seq<UserRow>)
    requires UniqueUserIds(users)
    ensures |LeftJoin(questions, users)| == |questions|
    ensures forall i :: 0 <= i < |questions| ==>
      LeftJoin(questions, users)[i] == RowOf(questions[i], AuthorOf(questions[i], users))
    decreases |questions|
  {
    if |questions| > 0 {
      AtMostOneAuthor(questions[0], users);
      LeftJoinOneRowPerQuestion(questions[1..], users);
      var head := RowsOf(questions[0], users);
      assert |head| == 1;
      forall i | 0 <= i < |questions|
        ensures LeftJoin(questions, users)[i] == RowOf(questions[i], AuthorOf(questions[i], users))
      {
        if i > 0 {
          assert questions[1..][i - 1] == questions[i];
        }
      }
    }
  }

  // ---------------------------------------------------------------------------
  // ORDER BY q.create_at DESC

  predicate NewestFirst(rows: seq<ListRow>) {
    forall i, j :: 0 <= i < j < |rows| ==> rows[i].createAt >= rows[j].createAt
  }

  function InsertByDate(r: ListRow, rows: seq<ListRow>): seq<ListRow>
    decreases |rows|
  {
    if |rows| == 0 || r.createAt >= rows[0].createAt then [r] + rows
    else [rows[0]] + InsertByDate(r, rows[1..])
  }

  /** The rows in `create_at` descending order. Rows with equal timestamps
      keep their join order here; the database leaves their order open. */
  function SortNewestFirst(rows: seq<ListRow>): seq<ListRow>
  {
    if |rows| == 0 then [] else InsertByDate(rows[0], SortNewestFirst(rows[1..]))
  }

  lemma {:induction false} InsertByDatePermutes(r: ListRow, rows: seq<ListRow>)
    ensures multiset(InsertByDate(r, rows)) == multiset(rows) + multiset{r}
    decreases |rows|
  {
    if |rows| > 0 && r.createAt < rows[0].createAt {
      InsertByDatePermutes(r, rows[1..]);
      assert rows == [rows[0]] + rows[1..];
    }
  }

  /** Inserting a row no newer than `top` among rows no newer than `top`
      yields rows no newer than `top`. */
  lemma {:induction false} InsertByDateBelow(r: ListRow, rows: seq<ListRow>, top: int)
    requires r.createAt <= top
    requires forall i :: 0 <= i < |rows| ==> rows[i].createAt <= top
    ensures forall i :: 0 <= i < |InsertByDate(r, rows)| ==> InsertByDate(r, rows)[i].createAt <= top
    decreases |rows|
  {
    if |rows| > 0 && r.createAt < rows[0].createAt {
      InsertByDateBelow(r, rows[1..], top);
    }
  }

  lemma {:induction false} InsertByDateKeepsOrder(r: ListRow, rows: seq<ListRow>)
    requires NewestFirst(rows)
    ensures NewestFirst(InsertByDate(r, rows))
    decreases |rows|
  {
    if |rows| == 0 || r.createAt >= rows[0].createAt {
      var res := [r] + rows;
      forall i, j | 0 <= i < j < |res| ensures res[i].createAt >= res[j].createAt {
        if i == 0 && j > 1 {
          assert rows[0].createAt >= rows[j - 1].createAt;
        }
      }
    } else {
      var tail := InsertByDate(r, rows[1..]);
      InsertByDateKeepsOrder(r, rows[1..]);
      InsertByDateBelow(r, rows[1..], rows[0].createAt);
      var res := [rows[0]] + tail;
      forall i, j | 0 <= i < j < |res| ensures res[i].createAt >= res[j].createAt {
        if i == 0 {
          assert res[j] == tail[j - 1];
        } else {
          assert res[i] == tail[i - 1] && res[j] == tail[j - 1];
        }
      }
    }
  }

  /** The ordering step returns the same rows, newest first. */
  lemma {:induction false} SortNewestFirstIsSortedPermutation(rows: seq<ListRow>)
    ensures NewestFirst(SortNewestFirst(rows))
    ensures multiset(SortNewestFirst(rows)) == multiset(rows)
    decreases |rows|
  {
    if |rows| > 0 {
      SortNewestFirstIsSortedPermutation(rows[1..]);
      InsertByDateKeepsOrder(rows[0], SortNewestFirst(rows[1..]));
      InsertByDatePermutes(rows[0], SortNewestFirst(rows[1..]));
      assert rows == [rows[0]] + rows[1..];
    }
  }

  // ---------------------------------------------------------------------------
  // findAllPaginated

  /** The list query up to its ORDER BY clause. */
  const ListSelect: string :=
    "SELECT q.id, q.text, q.type, " + "q.create_at, q.update_at, " + "u.name as author_name "
    + "FROM questions q " + "LEFT JOIN users u " + "ON q.user_id = u.id"

  const ListOrdered: string := ListSelect + " ORDER BY q.create_at DESC"

  /** The data query: limit and offset are bound, in that order. */
  function DataQuery(page: int, limit: int): BaseRepository.Statement
  {
    BaseRepository.Statement(ListOrdered + BaseRepository.LimitOffset, [Num(limit), Num(BaseRepository.Offset(page, limit))])
  }

  /** The list query binds the limit and then `(page - 1) * limit`, one
      value per placeholder, and its text holds no other placeholder. */
  lemma DataQueryBindsLimitThenOffset(page: int, limit: int)
    ensures DataQuery(page, limit).params == [Num(limit), Num((page - 1) * limit)]
    ensures CountChar(DataQuery(page, limit).sql, '?') == 2 == |DataQuery(page, limit).params|
  {
    BaseRepository.LimitOffsetMarks();
    ListOrderedHasNoMarks();
    CountCharAppend(ListOrdered, BaseRepository.LimitOffset, '?');
  }

  lemma ListOrderedHasNoMarks()
    ensures CountChar(ListOrdered, '?') == 0
  {
    var a, b, d := "SELECT q.id, q.text, q.type, ", "q.create_at, q.update_at, ", "u.name as author_name ";
    var e, f, g := "FROM questions q ", "LEFT JOIN users u ", "ON q.user_id = u.id";
    var h := " ORDER BY q.create_at DESC";
    assert Free(a, '?');
    assert Free(b, '?');
    assert Free(d, '?');
    assert Free(e, '?');
    assert Free(f, '?');
    assert Free(g, '?');
    assert Free(h, '?');
    FreeAppend(a, b, '?');
    FreeAppend(a + b, d, '?');
    FreeAppend(a + b + d, e, '?');
    FreeAppend(a + b + d + e, f, '?');
    FreeAppend(a + b + d + e + f, g, '?');
    FreeAppend(a + b + d + e + f + g, h, '?');
    CountCharFree(ListOrdered, '?');
  }

  /** The rows the data query selects from `t`. */
  function ListPage(t: Tables, page: int, limit: int): seq<ListRow>
    requires page >= 1 && limit >= 1
  {
    assert (page - 1) * limit >= 0 by { BaseRepository.MulMonotone(page - 1, 0, limit); }
    BaseRepository.Page(SortNewestFirst(LeftJoin(t.questions, t.users)), limit, BaseRepository.Offset(page, limit))
  }

  /** `findAllPaginated(page, limit)` on tables `t`. The count and data
      queries each reject when the executor says so; the data query also
      rejects a negative OFFSET. */
  function FindAllPaginated(t: Tables, page: int, limit: int, exec: Executor): (r: Result<BaseRepository.Envelope<ListRow>>)
    requires exec.Runs? ==> limit >= 1
    ensures exec.NotAFunction? ==> r == Err(ExecuteQueryMissing)
    ensures exec.Runs? ==> (r.Ok? <==> !exec.countFails && !exec.dataFails && page >= 1)
    ensures r.Ok? ==> (r.value.pagination
      == BaseRepository.Pagination(|t.questions|, page, limit, BaseRepository.TotalPages(|t.questions|, limit)))
  {
    match exec
    case NotAFunction => Err(ExecuteQueryMissing)
    case Runs(countFails, dataFails) =>
      var count: Result<nat> := if countFails then Err(DriverError(PoolQuery)) else Ok(|t.questions|);
      var rows := if dataFails || page < 1 then Err(DriverError(PoolQuery)) else Ok(ListPage(t, page, limit));
      BaseRepository.FindAllPaginated(page, limit, count, rows)
  }

  /** When both queries succeed the page holds at most `limit` joined rows,
      newest first, and (with unique user ids) is empty exactly when the page
      lies past `totalPages`. */
  lemma ListingIsNewestFirstPage(t: Tables, page: int, limit: int)
    requires page >= 1 && limit >= 1 && UniqueUserIds(t.users)
    ensures var r := FindAllPaginated(t, page, limit, Runs(false, false));
      r.Ok? && NewestFirst(r.value.data) && |r.value.data| <= limit &&
      (forall x :: x in r.value.data ==> x in LeftJoin(t.questions, t.users)) &&
      (|r.value.data| > 0 <==> page <= r.value.pagination.totalPages)
  {
    var sorted := SortNewestFirst(LeftJoin(t.questions, t.users));
    ListPageRows(t, page, limit);
    LeftJoinOneRowPerQuestion(t.questions, t.users);
    BaseRepository.ConsistentEnvelope(sorted, page, limit);
    assert FindAllPaginated(t, page, limit, Runs(false, false))
      == BaseRepository.FindAllPaginated(page, limit, Ok(|sorted|), Ok(ListPage(t, page, limit)));
  }

  /** The selected page is a run of the ordered join. */
  lemma ListPageRows(t: Tables, page: int, limit: int)
    requires page >= 1 && limit >= 1
    ensures NewestFirst(ListPage(t, page, limit))
    ensures forall x :: x in ListPage(t, page, limit) ==> x in LeftJoin(t.questions, t.users)
    ensures |SortNewestFirst(LeftJoin(t.questions, t.users))| == |LeftJoin(t.questions, t.users)|
  {
    var joined := LeftJoin(t.questions, t.users);
    var sorted := SortNewestFirst(joined);
    SortKeepsRows(joined);
    BaseRepository.MulMonotone(page - 1, 0, limit);
    var off: nat := BaseRepository.Offset(page, limit);
    assert ListPage(t, page, limit) == BaseRepository.Page(sorted, limit, off);
    PageOfNewestFirst(sorted, limit, off);
  }

  /** Ordering keeps the rows and their number. */
  lemma SortKeepsRows(rows: seq<ListRow>)
    ensures NewestFirst(SortNewestFirst(rows))
    ensures |SortNewestFirst(rows)| == |rows|
    ensures forall x :: x in SortNewestFirst(rows) ==> x in rows
  {
    var sorted := SortNewestFirst(rows);
    SortNewestFirstIsSortedPermutation(rows);
    assert |sorted| == |multiset(sorted)| == |multiset(rows)| == |rows|;
    forall x | x in sorted ensures x in rows {
      assert x in multiset(sorted);
    }
  }

  /** A page of newest-first rows is newest first and holds only those rows. */
  lemma PageOfNewestFirst(rows: seq<ListRow>, limit: nat, offset: nat)
    requires NewestFirst(rows)
    ensures NewestFirst(BaseRepository.Page(rows, limit, offset))
    ensures forall x :: x in BaseRepository.Page(rows, limit, offset) ==> x in rows
  {
    var p := BaseRepository.Page(rows, limit, offset);
    if offset < |rows| {
      var e := BaseRepository.Min(offset + limit, |rows|);
      assert p == rows[offset..e];
      forall i, j | 0 <= i < j < |p| ensures p[i].createAt >= p[j].createAt {
        assert p[i] == rows[offset + i] && p[j] == rows[offset + j];
      }
    }
  }

  /** As written, listing rejects for every input: the statements are never
      run. */
  lemma ListingAsWrittenAlwaysFails(t: Tables, page: int, limit: int)
    ensures FindAllPaginated(t, page, limit, AsWritten) == Err(ExecuteQueryMissing)
  {
  }

  // ---------------------------------------------------------------------------
  // findQuestionWithDetails

  /** The rows `... WHERE q.id = ?` selects. */
  function DetailRows(t: Tables, id: int): seq<ListRow>
  {
    LeftJoin(Filter(t.questions, (q: QuestionRow) => q.id == id), t.users)
  }

  /** `findQuestionWithDetails(id)`: `rows[0]` of the executor's
      `[rows, fields]`, or nothing when there is no row; a rejection is
      passed on. */
  function FindQuestionWithDetails(executed: Result<DBConnection.Execution<seq<ListRow>>>): (r: Result<Option<ListRow>>)
    ensures r.Err? <==> executed.Err?
    ensures executed.Err? ==> r.error == executed.error
    ensures executed.Ok? ==> (r.value.None? <==> |executed.value.rows| == 0)
    ensures executed.Ok? && |executed.value.rows| > 0 ==> r.value == Some(executed.value.rows[0])
  {
    match executed
    case Err(e) => Err(e)
    case Ok(ex) => if |ex.rows| == 0 then Ok(None) else Ok(Some(ex.rows[0]))
  }

  /** Run on `t`, the lookup finds nothing iff no question has the id;
      otherwise it returns the first such question's row, whose author is
      NULL iff no user matches that question. */
  lemma DetailsFirstMatch(t: Tables, id: int, fields: seq<string>)
    ensures var r := FindQuestionWithDetails(Ok(DBConnection.Execution(DetailRows(t, id), fields)));
      r.Ok? &&
      (r.value.None? <==> forall i :: 0 <= i < |t.questions| ==> t.questions[i].id != id) &&
      (r.value.Some? ==> exists i :: (0 <= i < |t.questions| && t.questions[i].id == id &&
        r.value.value == RowOf(t.questions[i], AuthorOf(t.questions[i], t.users)) &&
        (r.value.value.authorName == Null <== forall j :: 0 <= j < |t.users| ==> !UserMatches(t.questions[i], t.users[j]))))
  {
    var keep := (q: QuestionRow) => q.id == id;
    var matching := Filter(t.questions, keep);
    FilterKeepsExactly(t.questions, keep);
    if |matching| == 0 {
      forall i | 0 <= i < |t.questions| ensures t.questions[i].id != id {
        assert t.questions[i] !in matching;
      }
    } else {
      var q := matching[0];
      assert q in matching;
      var i :| 0 <= i < |t.questions| && t.questions[i] == q;
      AuthorNullIffNoUser(q, t.users);
      assert t.questions[i].id == id;
    }
  }
}

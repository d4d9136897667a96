/** The generic repository of database/BaseRepository.js: one table name, and
    for each operation the SQL text and parameter list it hands to
    `db.query`, plus the pagination arithmetic and envelope. The call into the
    driver is not part of this module; its outcome is a parameter. */
module BaseRepository {
  import opened Values
  import opened SqlText

  /** One entry of the object passed to `create` or `update`, in the order
      `Object.keys` lists it. */
  datatype Field = Field(column: string, value: Value)

  /** A SQL text and the values bound to its `?` placeholders. */
  datatype Statement = Statement(sql: string, params: seq<Value>)

  /** `Object.keys(data)`. */
  function Columns(data: seq<Field>): seq<string>
  {
    seq(|data|, i requires 0 <= i < |data| => data[i].column)
  }

  /** `Object.values(data)`. */
  function ValuesOf(data: seq<Field>): seq<Value>
  {
    seq(|data|, i requires 0 <= i < |data| => data[i].value)
  }

  /** `values.map(() => '?')`. */
  function Placeholders(n: nat): seq<string>
  {
    seq(n, _ => "?")
  }

  /** `Object.keys(data).map((key) => `${key} = ?`)`. */
  function Assignments(data: seq<Field>): seq<string>
  {
    seq(|data|, i requires 0 <= i < |data| => data[i].column + " = ?")
  }

  /** Column names that can be read back out of a statement: no comma, no
      closing parenthesis, no placeholder mark. */
  predicate PlainColumns(data: seq<Field>) {
    forall i :: 0 <= i < |data| ==>
      Free(data[i].column, ',') && Free(data[i].column, ')') && Free(data[i].column, '?')
  }

  function FindAll(table: string): Statement
  {
    Statement("SELECT * FROM " + table, [])
  }

  /** The key filter of `findById`, `update` and `delete`. */
  const WhereId: string := " WHERE id = ?"

  function FindById(table: string, id: Value): Statement
  {
    Statement("SELECT * FROM " + table + WhereId, [id])
  }

  function Create(table: string, data: seq<Field>): Statement
  {
    Statement(
      "INSERT INTO " + table + " (" + Join(Columns(data), ", ") + ") VALUES ("
        + Join(Placeholders(|data|), ", ") + ")",
      ValuesOf(data))
  }

  function Update(table: string, id: Value, data: seq<Field>): Statement
  {
    Statement(
      "UPDATE " + table + " SET " + Join(Assignments(data), ", ") + WhereId,
      ValuesOf(data) + [id])
  }

  function Delete(table: string, id: Value): Statement
  {
    Statement("DELETE FROM " + table + WhereId, [id])
  }

  // Placeholder marks in the fixed parts of the statement templates, one
  // literal per lemma, counted through `Free` so that each stays cheap.

  lemma SelectMarks()
    ensures CountChar("SELECT * FROM ", '?') == 0
  {
    var s := "SELECT * FROM ";
    assert Free(s, '?');
    CountCharFree(s, '?');
  }

  lemma DeleteMarks()
    ensures CountChar("DELETE FROM ", '?') == 0
  {
    var s := "DELETE FROM ";
    assert Free(s, '?');
    CountCharFree(s, '?');
  }

  lemma WhereIdMarks()
    ensures CountChar(WhereId, '?') == 1
  {
    CountCharLast(WhereId, '?');
  }

  lemma InsertMarks()
    ensures CountChar("INSERT INTO ", '?') == 0
  {
    var s := "INSERT INTO ";
    assert Free(s, '?');
    CountCharFree(s, '?');
  }

  lemma OpenMarks()
    ensures CountChar(" (", '?') == 0
  {
    var s := " (";
    assert Free(s, '?');
    CountCharFree(s, '?');
  }

  lemma ValuesMarks()
    ensures CountChar(") VALUES (", '?') == 0
  {
    var s := ") VALUES (";
    assert Free(s, '?');
    CountCharFree(s, '?');
  }

  lemma CloseMarks()
    ensures CountChar(")", '?') == 0
  {
    var s := ")";
    assert Free(s, '?');
    CountCharFree(s, '?');
  }

  lemma CommaMarks()
    ensures CountChar(", ", '?') == 0
  {
    var s := ", ";
    assert Free(s, '?');
    CountCharFree(s, '?');
  }

  lemma MarkMarks()
    ensures CountChar("?", '?') == 1
  {
    CountCharLast("?", '?');
  }

  lemma UpdateMarks()
    ensures CountChar("UPDATE ", '?') == 0
  {
    var s := "UPDATE ";
    assert Free(s, '?');
    CountCharFree(s, '?');
  }

  lemma SetMarks()
    ensures CountChar(" SET ", '?') == 0
  {
    var s := " SET ";
    assert Free(s, '?');
    CountCharFree(s, '?');
  }

  lemma AssignMarks()
    ensures CountChar(" = ?", '?') == 1
  {
    CountCharLast(" = ?", '?');
  }

  lemma LimitMarks()
    ensures CountChar(" LIMIT ", '?') == 0
  {
    var s := " LIMIT ";
    assert Free(s, '?');
    CountCharFree(s, '?');
  }

  lemma OffsetMarks()
    ensures CountChar(" OFFSET ", '?') == 0
  {
    var s := " OFFSET ";
    assert Free(s, '?');
    CountCharFree(s, '?');
  }

  lemma LimitMarkMarks()
    ensures CountChar(" LIMIT ?", '?') == 1
  {
    CountCharLast(" LIMIT ?", '?');
  }

  lemma OffsetMarkMarks()
    ensures CountChar(" OFFSET ?", '?') == 1
  {
    CountCharLast(" OFFSET ?", '?');
  }

  /** The clause ` LIMIT ? OFFSET ?` the paginated queries end with. */
  const LimitOffset: string := " LIMIT ?" + " OFFSET ?"

  lemma LimitOffsetMarks()
    ensures CountChar(LimitOffset, '?') == 2
  {
    LimitMarkMarks();
    OffsetMarkMarks();
    CountCharAppend(" LIMIT ?", " OFFSET ?", '?');
  }

  /** `findById` and `delete` bind exactly the identifier, to their one `?`. */
  lemma KeyedStatementsBindId(table: string, id: Value)
    requires Free(table, '?')
    ensures FindById(table, id).params == [id] && CountChar(FindById(table, id).sql, '?') == 1
    ensures Delete(table, id).params == [id] && CountChar(Delete(table, id).sql, '?') == 1
  {
    KeyedMarks("SELECT * FROM ", table);
    KeyedMarks("DELETE FROM ", table);
    assert FindById(table, id).sql == "SELECT * FROM " + table + WhereId;
    assert Delete(table, id).sql == "DELETE FROM " + table + WhereId;
  }

  lemma KeyedMarks(verb: string, table: string)
    requires Free(verb, '?') && Free(table, '?')
    ensures CountChar(verb + table + WhereId, '?') == 1
  {
    CountCharFree(verb, '?');
    CountCharFree(table, '?');
    WhereIdMarks();
    CountCharConcat3(verb, table, WhereId, '?');
  }

  /** `create` emits one `?` per value and binds the values unchanged, in
      key order. */
  lemma CreateBindsEachValue(table: string, data: seq<Field>)
    requires Free(table, '?') && PlainColumns(data)
    ensures CountChar(Create(table, data).sql, '?') == |Create(table, data).params| == |data|
    ensures forall i :: 0 <= i < |data| ==> Create(table, data).params[i] == data[i].value
  {
    var cols := Join(Columns(data), ", ");
    var marks := Join(Placeholders(|data|), ", ");
    InsertMarks(); OpenMarks(); ValuesMarks(); CloseMarks();
    ColumnListMarks(data);
    PlaceholderListMarks(|data|);
    CountCharFree(table, '?');
    CountCharConcat7("INSERT INTO ", table, " (", cols, ") VALUES (", marks, ")", '?');
  }

  lemma ColumnListMarks(data: seq<Field>)
    requires PlainColumns(data)
    ensures CountChar(Join(Columns(data), ", "), '?') == 0
  {
    CommaMarks();
    forall i | 0 <= i < |data| ensures CountChar(Columns(data)[i], '?') == 0 {
      CountCharFree(data[i].column, '?');
    }
    CountCharJoin(Columns(data), ", ", '?', 0);
  }

  lemma PlaceholderListMarks(n: nat)
    ensures CountChar(Join(Placeholders(n), ", "), '?') == n
  {
    CommaMarks(); MarkMarks();
    CountCharJoin(Placeholders(n), ", ", '?', 1);
  }

  /** `update` emits one `key = ?` per key and a final `id = ?`; it binds the
      values in key order and the identifier last. */
  lemma UpdateBindsValuesThenId(table: string, id: Value, data: seq<Field>)
    requires Free(table, '?') && PlainColumns(data)
    ensures CountChar(Update(table, id, data).sql, '?') == |Update(table, id, data).params| == |data| + 1
    ensures Update(table, id, data).params[..|data|] == ValuesOf(data)
    ensures Update(table, id, data).params[|data|] == id
  {
    var set_ := Join(Assignments(data), ", ");
    UpdateMarks(); SetMarks(); WhereIdMarks();
    AssignmentListMarks(data);
    CountCharFree(table, '?');
    CountCharConcat4("UPDATE " + table, " SET ", set_, WhereId, '?');
    CountCharAppend("UPDATE ", table, '?');
    assert (ValuesOf(data) + [id])[..|data|] == ValuesOf(data);
  }

  lemma AssignmentListMarks(data: seq<Field>)
    requires PlainColumns(data)
    ensures CountChar(Join(Assignments(data), ", "), '?') == |data|
  {
    AssignMarks(); CommaMarks();
    forall i | 0 <= i < |data| ensures CountChar(Assignments(data)[i], '?') == 1 {
      CountCharFree(data[i].column, '?');
      CountCharAppend(data[i].column, " = ?", '?');
    }
    CountCharJoin(Assignments(data), ", ", '?', 1);
  }

  /** Position of the first `c` in `s`, or `|s|`. */
  function IndexOf(s: string, c: char): (k: nat)
    ensures k <= |s|
    decreases |s|
  {
    if |s| == 0 || s[0] == c then 0 else 1 + IndexOf(s[1..], c)
  }

  lemma {:induction false} IndexOfAfter(a: string, b: string, c: char)
    requires Free(a, c) && |b| > 0 && b[0] == c
    ensures IndexOf(a + b, c) == |a|
    decreases |a|
  {
    if |a| > 0 {
      assert (a + b)[1..] == a[1..] + b;
      IndexOfAfter(a[1..], b, c);
    }
  }

  lemma {:induction false} JoinFree(parts: seq<string>, sep: string, c: char)
    requires forall i :: 0 <= i < |parts| ==> Free(parts[i], c)
    requires Free(sep, c)
    ensures Free(Join(parts, sep), c)
    decreases |parts|
  {
    if |parts| > 1 {
      JoinFree(parts[1..], sep, c);
    }
  }

  /** Reads an INSERT on `table` back into its column list and its list of
      value markers. */
  function ParseInsert(table: string, sql: string): Option<(seq<string>, seq<string>)>
  {
    var pre := "INSERT INTO " + table + " (";
    var mid := ") VALUES (";
    if |pre| <= |sql| && sql[..|pre|] == pre then
      var body := sql[|pre|..];
      var k := IndexOf(body, ')');
      var rest := body[k..];
      if |mid| < |rest| && rest[..|mid|] == mid && rest[|rest| - 1] == ')' then
        Some((SplitList(body[..k]), SplitList(rest[|mid|..|rest| - 1])))
      else None
    else None
  }

  /** Reading the text `create` builds gives back the keys, in order, and one
      `?` for each of them; with CreateBindsEachValue, the i-th column is
      bound to the i-th value. */
  lemma CreateReadsBack(table: string, data: seq<Field>)
    requires |data| > 0 && PlainColumns(data)
    ensures ParseInsert(table, Create(table, data).sql) == Some((Columns(data), Placeholders(|data|)))
  {
    var cols := Join(Columns(data), ", ");
    var marks := Join(Placeholders(|data|), ", ");
    assert Create(table, data).sql == "INSERT INTO " + table + " (" + (cols + (") VALUES (" + (marks + ")"))) by {
      Assoc5("INSERT INTO " + table + " (", cols, ") VALUES (", marks, ")");
    }
    JoinFree(Columns(data), ", ", ')');
    ParseInsertOf(table, cols, marks);
    SplitJoin(Columns(data));
    SplitJoin(Placeholders(|data|));
  }

  /** ParseInsert splits an INSERT text at the first `)`, so it reads back
      any column list without one. */
  lemma ParseInsertOf(table: string, cols: string, marks: string)
    requires Free(cols, ')')
    ensures ParseInsert(table, "INSERT INTO " + table + " (" + (cols + (") VALUES (" + (marks + ")"))))
      == Some((SplitList(cols), SplitList(marks)))
  {
    var pre := "INSERT INTO " + table + " (";
    var mid := ") VALUES (";
    var rest := mid + (marks + ")");
    DropPrefix(pre, cols + rest);
    IndexOfAfter(cols, rest, ')');
    DropPrefix(cols, rest);
    DropPrefix(mid, marks + ")");
    assert rest[|mid|..|rest| - 1] == marks by {
      DropPrefix(marks, ")");
    }
  }

  /** Reads an UPDATE on `table` back into the columns it assigns. */
  function ParseUpdate(table: string, sql: string): Option<seq<string>>
  {
    var pre := "UPDATE " + table + " SET ";
    var suf := WhereId;
    if |pre| + |suf| <= |sql| && sql[..|pre|] == pre && sql[|sql| - |suf|..] == suf then
      var parts := SplitList(sql[|pre|..|sql| - |suf|]);
      if forall i :: 0 <= i < |parts| ==> |parts[i]| >= 4 && parts[i][|parts[i]| - 4..] == " = ?" then
        Some(seq(|parts|, i requires 0 <= i < |parts| => parts[i][..|parts[i]| - 4]))
      else None
    else None
  }

  /** Reading the text `update` builds gives back the keys, in order. */
  lemma UpdateReadsBack(table: string, id: Value, data: seq<Field>)
    requires |data| > 0 && PlainColumns(data)
    ensures ParseUpdate(table, Update(table, id, data).sql) == Some(Columns(data))
  {
    var pre := "UPDATE " + table + " SET ";
    var suf := WhereId;
    var clause := Join(Assignments(data), ", ");
    var sql := Update(table, id, data).sql;
    assert sql == pre + clause + suf;
    assert sql[|pre|..|sql| - |suf|] == clause;
    assert sql[|sql| - |suf|..] == suf;
    forall i | 0 <= i < |data| ensures Free(Assignments(data)[i], ',') {
      assert Assignments(data)[i] == data[i].column + " = ?";
    }
    SplitJoin(Assignments(data));
    var parts := Assignments(data);
    assert SplitList(sql[|pre|..|sql| - |suf|]) == parts;
    forall i | 0 <= i < |parts|
      ensures |parts[i]| >= 4 && parts[i][|parts[i]| - 4..] == " = ?"
      ensures parts[i][..|parts[i]| - 4] == data[i].column
    {
      assert parts[i] == data[i].column + " = ?";
    }
    var cols := seq(|parts|, i requires 0 <= i < |parts| => parts[i][..|parts[i]| - 4]);
    assert cols == Columns(data);
  }

  // ---------------------------------------------------------------------------
  // Pagination

  datatype Pagination = Pagination(total: nat, page: int, limit: int, totalPages: nat)

  /** The `{data, pagination}` envelope. */
  datatype Envelope<R> = Envelope(data: seq<R>, pagination: Pagination)

  /** `(page - 1) * limit`. */
  function Offset(page: int, limit: int): int
  {
    (page - 1) * limit
  }

  /** `Math.ceil(total / limit)`, in integer arithmetic. */
  function TotalPages(total: nat, limit: int): nat
    requires limit >= 1
  {
    (total + limit - 1) / limit
  }

  /** `totalPages` is the least number of pages of `limit` rows that hold
      `total` rows. */
  lemma TotalPagesIsCeiling(total: nat, limit: int)
    requires limit >= 1
    ensures TotalPages(total, limit) * limit >= total
    ensures total > 0 ==> (TotalPages(total, limit) - 1) * limit < total
    ensures total == 0 <==> TotalPages(total, limit) == 0
  {
    var q := TotalPages(total, limit);
    var r := (total + limit - 1) % limit;
    assert total + limit - 1 == q * limit + r;
    assert 0 <= r < limit;
    assert q * limit == total + limit - 1 - r;
    assert (q - 1) * limit == total - 1 - r;
  }

  /** With the default page 1 and limit 10 the first row is row 0. */
  lemma DefaultOffsetIsZero()
    ensures Offset(1, 10) == 0
  {
  }

  function Min(a: int, b: int): int { if a <= b then a else b }

  /** The rows `LIMIT limit OFFSET offset` selects from `rows`. */
  function Page<R>(rows: seq<R>, limit: nat, offset: nat): seq<R>
  {
    if offset >= |rows| then [] else rows[offset..Min(offset + limit, |rows|)]
  }

  /** Consecutive slices of `limit` rows. */
  function Chunks<R>(rows: seq<R>, limit: nat): seq<seq<R>>
    requires limit >= 1
    decreases |rows|
  {
    if |rows| == 0 then [] else [rows[..Min(limit, |rows|)]] + Chunks(rows[Min(limit, |rows|)..], limit)
  }

  function Flatten<R>(chunks: seq<seq<R>>): seq<R>
  {
    if |chunks| == 0 then [] else chunks[0] + Flatten(chunks[1..])
  }

  /** One full page less leaves one page less to go. */
  lemma TotalPagesStep(n: nat, limit: nat)
    requires limit >= 1 && n > 0
    ensures n <= limit ==> TotalPages(n, limit) == 1
    ensures n > limit ==> TotalPages(n, limit) == TotalPages(n - limit, limit) + 1
  {
    var q1 := TotalPages(n, limit);
    TotalPagesIsCeiling(n, limit);
    if n <= limit {
      MulBelow(q1 - 1, 1, limit);
      MulBelow(0, q1, limit);
    } else {
      var q2 := TotalPages(n - limit, limit);
      TotalPagesIsCeiling(n - limit, limit);
      assert (q1 - 1) * limit < n <= (q2 + 1) * limit;
      MulBelow(q1 - 1, q2 + 1, limit);
      assert q2 * limit < n <= q1 * limit;
      MulBelow(q2, q1, limit);
    }
  }

  lemma MulBelow(x: int, y: int, limit: nat)
    requires limit >= 1 && x * limit < y * limit
    ensures x < y
  {
    MulMonotone(x, y, limit);
  }

  lemma MulMonotone(x: int, y: int, limit: nat)
    ensures x >= y ==> x * limit >= y * limit
  {
    assert x * limit - y * limit == (x - y) * limit;
  }

  lemma {:induction false} ChunksCount<R>(rows: seq<R>, limit: nat)
    requires limit >= 1
    ensures |Chunks(rows, limit)| == TotalPages(|rows|, limit)
    ensures Flatten(Chunks(rows, limit)) == rows
    decreases |rows|
  {
    if |rows| > 0 {
      var m := Min(limit, |rows|);
      var head, tail := rows[..m], rows[m..];
      assert Chunks(rows, limit) == [head] + Chunks(tail, limit);
      ChunksCount(tail, limit);
      assert Flatten(Chunks(rows, limit)) == head + Flatten(Chunks(tail, limit));
      assert head + tail == rows;
      TotalPagesStep(|rows|, limit);
      if |rows| <= limit {
        assert |tail| == 0;
      }
    }
  }

  lemma MulStep(k: nat, limit: nat)
    requires k > 0
    ensures k * limit == (k - 1) * limit + limit
  {
  }

  lemma {:induction false} ChunkIsPage<R>(rows: seq<R>, limit: nat, k: nat)
    requires limit >= 1 && k < |Chunks(rows, limit)|
    ensures Chunks(rows, limit)[k] == Page(rows, limit, k * limit)
    decreases k
  {
    var m := Min(limit, |rows|);
    var tail := rows[m..];
    assert Chunks(rows, limit) == [rows[..m]] + Chunks(tail, limit);
    if k == 0 {
      assert Page(rows, limit, 0) == rows[..m];
    } else {
      assert m == limit;
      assert Chunks(rows, limit)[k] == Chunks(tail, limit)[k - 1];
      ChunkIsPage(tail, limit, k - 1);
      MulStep(k, limit);
      PageAfterDrop(rows, limit, m, (k - 1) * limit);
    }
  }

  /** Paging past the first `m` rows is paging the rest. */
  lemma PageAfterDrop<R>(rows: seq<R>, limit: nat, m: nat, offset: nat)
    requires m <= |rows|
    ensures Page(rows[m..], limit, offset) == Page(rows, limit, offset + m)
  {
    if offset + m < |rows| {
      assert rows[m..][offset..Min(offset + limit, |rows| - m)] == rows[offset + m..Min(offset + m + limit, |rows|)];
    }
  }

  /** The pages 1..totalPages are the consecutive slices of the table; they
      list every row exactly once and each holds at most `limit` rows. */
  lemma PagesPartitionRows<R>(rows: seq<R>, limit: nat)
    requires limit >= 1
    ensures |Chunks(rows, limit)| == TotalPages(|rows|, limit)
    ensures Flatten(Chunks(rows, limit)) == rows
    ensures forall p :: 1 <= p <= TotalPages(|rows|, limit) ==>
      Chunks(rows, limit)[p - 1] == Page(rows, limit, Offset(p, limit))
  {
    ChunksCount(rows, limit);
    forall p | 1 <= p <= TotalPages(|rows|, limit)
      ensures Chunks(rows, limit)[p - 1] == Page(rows, limit, Offset(p, limit))
    {
      ChunkIsPage(rows, limit, p - 1);
    }
  }

  /** A page holds at most `limit` rows, and is empty exactly when it starts
      past the last row. */
  lemma PageBounds<R>(rows: seq<R>, limit: nat, page: int)
    requires limit >= 1 && page >= 1
    ensures |Page(rows, limit, Offset(page, limit))| <= limit
    ensures |Page(rows, limit, Offset(page, limit))| > 0 <==> page <= TotalPages(|rows|, limit)
  {
    TotalPagesIsCeiling(|rows|, limit);
    var t := TotalPages(|rows|, limit);
    if page <= t {
      MulMonotone(t - 1, page - 1, limit);
    } else {
      MulMonotone(page - 1, t, limit);
    }
  }

  /** The count query of `findAllPaginated`. */
  function CountQuery(table: string): Statement
  {
    Statement("SELECT COUNT(*) as total FROM " + table, [])
  }

  /** The data query of `findAllPaginated`: limit and offset are written into
      the text, nothing is bound. */
  function DataQuery(table: string, limit: int, offset: int): Statement
  {
    Statement("SELECT * FROM " + table + " LIMIT " + IntToDecimal(limit) + " OFFSET " + IntToDecimal(offset), [])
  }

  /** Reads the LIMIT and OFFSET numbers back out of a data query on `table`. */
  function ParseLimitOffset(table: string, sql: string): Option<(int, int)>
  {
    var pre := "SELECT * FROM " + table + " LIMIT ";
    if |pre| <= |sql| && sql[..|pre|] == pre then
      var rest := sql[|pre|..];
      var k := IndexOf(rest, ' ');
      var tail := rest[k..];
      if |" OFFSET "| <= |tail| && tail[..|" OFFSET "|] == " OFFSET " then
        Some((ParseInt(rest[..k]), ParseInt(tail[|" OFFSET "|..])))
      else None
    else None
  }

  /** The data query carries exactly the parsed limit and the computed offset
      and has no placeholder left unbound. */
  lemma DataQueryCarriesLimitAndOffset(table: string, page: int, limit: int)
    requires Free(table, '?')
    ensures ParseLimitOffset(table, DataQuery(table, limit, Offset(page, limit)).sql) == Some((limit, Offset(page, limit)))
    ensures CountChar(DataQuery(table, limit, Offset(page, limit)).sql, '?') == 0
  {
    DataQueryReadsBack(table, limit, Offset(page, limit));
    DataQueryHasNoMarks(table, limit, Offset(page, limit));
  }

  lemma DataQueryReadsBack(table: string, limit: int, offset: int)
    ensures ParseLimitOffset(table, DataQuery(table, limit, offset).sql) == Some((limit, offset))
  {
    var pre := "SELECT * FROM " + table + " LIMIT ";
    var ow := " OFFSET ";
    var l := IntToDecimal(limit);
    var o := IntToDecimal(offset);
    var tail := ow + o;
    IntToDecimalRoundTrip(limit);
    IntToDecimalRoundTrip(offset);
    assert DataQuery(table, limit, offset).sql == pre + (l + tail) by {
      Assoc4(pre, l, ow, o);
    }
    DropPrefix(pre, l + tail);
    DropPrefix(l, tail);
    DropPrefix(ow, o);
    IndexOfAfter(l, tail, ' ');
  }

  lemma DataQueryHasNoMarks(table: string, limit: int, offset: int)
    requires Free(table, '?')
    ensures CountChar(DataQuery(table, limit, offset).sql, '?') == 0
  {
    var l := IntToDecimal(limit);
    var o := IntToDecimal(offset);
    IntToDecimalRoundTrip(limit);
    IntToDecimalRoundTrip(offset);
    CountCharFree(table, '?');
    CountCharFree(l, '?');
    CountCharFree(o, '?');
    SelectMarks(); LimitMarks(); OffsetMarks();
    CountCharAppend("SELECT * FROM ", table, '?');
    CountCharAppend("SELECT * FROM " + table, " LIMIT ", '?');
    CountCharAppend("SELECT * FROM " + table + " LIMIT ", l, '?');
    CountCharAppend("SELECT * FROM " + table + " LIMIT " + l, " OFFSET ", '?');
    CountCharAppend("SELECT * FROM " + table + " LIMIT " + l + " OFFSET ", o, '?');
  }

  /** `findAllPaginated` given the outcomes of its count query and its data
      query, which run concurrently and may disagree: an error of either is
      rethrown, never swallowed; otherwise the envelope echoes the parsed page
      and limit and the counted total, with `totalPages = ceil(total / limit)`. */
  function FindAllPaginated<R>(page: int, limit: int, count: Result<nat>, data: Result<seq<R>>): (r: Result<Envelope<R>>)
    requires limit >= 1
    ensures r.Ok? <==> count.Ok? && data.Ok?
    ensures r.Err? ==> (count.Err? && r.error == count.error) || (data.Err? && r.error == data.error)
    ensures r.Ok? ==> r.value.data == data.value && r.value.pagination.total == count.value
    ensures r.Ok? ==> r.value.pagination.page == page && r.value.pagination.limit == limit
    ensures r.Ok? ==> r.value.pagination.totalPages * limit >= count.value
    ensures r.Ok? && count.value > 0 ==> (r.value.pagination.totalPages - 1) * limit < count.value
    ensures r.Ok? ==> r.value.pagination.totalPages == TotalPages(count.value, limit)
    ensures r.Ok? ==> (r.value.pagination.totalPages == 0 <==> count.value == 0)
  {
    TotalPagesIsCeiling(if count.Ok? then count.value else 0, limit);
    if count.Err? then Err(count.error)
    else if data.Err? then Err(data.error)
    else Ok(Envelope(data.value, Pagination(count.value, page, limit, TotalPages(count.value, limit))))
  }

  /** When both queries see the same rows, the envelope holds the page's rows,
      no more than `limit` of them, and is empty exactly when the page lies
      past `totalPages`. */
  lemma ConsistentEnvelope<R>(rows: seq<R>, page: int, limit: int)
    requires limit >= 1 && page >= 1
    ensures var r := FindAllPaginated(page, limit, Ok(|rows|), Ok(Page(rows, limit, Offset(page, limit))));
      r.Ok? && |r.value.data| <= limit &&
      (|r.value.data| > 0 <==> page <= r.value.pagination.totalPages)
  {
    PageBounds(rows, limit, page);
  }

  /** The text of `findAllWithDetailsPaginated` up to its LIMIT clause, in
      three parts: the question columns, the aggregated choices and the
      explanation column, and the joins with their grouping. */
  const DetailsSelect: string := DetailsColumns + DetailsAggregate + DetailsJoins

  const DetailsColumns: string :=
    "SELECT q.id, q.text, q.type, " + "q.create_at, q.update_at, "

  const DetailsAggregate: string :=
    "JSON_ARRAYAGG(JSON_OBJECT(" + "'id', c.id, 'text', c.text, " + "'is_correct', c.is_correct)) "
    + "as choices, " + "e.explanation_text as explanation "

  const DetailsJoins: string :=
    "FROM questions q " + "LEFT JOIN choices c " + "ON q.id = c.question_id "
    + "LEFT JOIN explanations e " + "ON q.id = e.question_id "
    + "GROUP BY q.id, q.text, q.type, " + "q.create_at, q.update_at, " + "e.explanation_text"

  function FindAllWithDetailsPaginated(page: int, limit: int): Statement
  {
    Statement(DetailsSelect + LimitOffset, [Num(limit), Num(Offset(page, limit))])
  }

  /** `findAllWithDetailsPaginated` binds the limit and then the offset, in
      the order its LIMIT and OFFSET markers appear, and its text holds no
      other placeholder. */
  lemma DetailsBindsLimitThenOffset(page: int, limit: int)
    ensures FindAllWithDetailsPaginated(page, limit).params == [Num(limit), Num((page - 1) * limit)]
    ensures CountChar(FindAllWithDetailsPaginated(page, limit).sql, '?') == 2
         == |FindAllWithDetailsPaginated(page, limit).params|
  {
    LimitOffsetMarks();
    DetailsSelectHasNoMarks();
    CountCharAppend(DetailsSelect, LimitOffset, '?');
  }

  lemma DetailsSelectHasNoMarks()
    ensures CountChar(DetailsSelect, '?') == 0
  {
    DetailsColumnsAreFree();
    DetailsAggregateIsFree();
    DetailsJoinsAreFree();
    FreeAppend(DetailsColumns, DetailsAggregate, '?');
    FreeAppend(DetailsColumns + DetailsAggregate, DetailsJoins, '?');
    CountCharFree(DetailsSelect, '?');
  }

  lemma DetailsColumnsAreFree()
    ensures Free(DetailsColumns, '?')
  {
    var a, b := "SELECT q.id, q.text, q.type, ", "q.create_at, q.update_at, ";
    assert Free(a, '?');
    assert Free(b, '?');
    FreeAppend(a, b, '?');
  }

  lemma DetailsAggregateIsFree()
    ensures Free(DetailsAggregate, '?')
  {
    var a, b, d := "JSON_ARRAYAGG(JSON_OBJECT(", "'id', c.id, 'text', c.text, ", "'is_correct', c.is_correct)) ";
    var e, f := "as choices, ", "e.explanation_text as explanation ";
    assert Free(a, '?');
    assert Free(b, '?');
    assert Free(d, '?');
    assert Free(e, '?');
    assert Free(f, '?');
    FreeAppend(a, b, '?');
    FreeAppend(a + b, d, '?');
    FreeAppend(a + b + d, e, '?');
    FreeAppend(a + b + d + e, f, '?');
  }

  lemma DetailsJoinsAreFree()
    ensures Free(DetailsJoins, '?')
  {
    var a, b, d := "FROM questions q ", "LEFT JOIN choices c ", "ON q.id = c.question_id ";
    var e, f := "LEFT JOIN explanations e ", "ON q.id = e.question_id ";
    var g, h, k := "GROUP BY q.id, q.text, q.type, ", "q.create_at, q.update_at, ", "e.explanation_text";
    assert Free(a, '?');
    assert Free(b, '?');
    assert Free(d, '?');
    assert Free(e, '?');
    assert Free(f, '?');
    assert Free(g, '?');
    assert Free(h, '?');
    assert Free(k, '?');
    FreeAppend(a, b, '?');
    FreeAppend(a + b, d, '?');
    FreeAppend(a + b + d, e, '?');
    FreeAppend(a + b + d + e, f, '?');
    FreeAppend(a + b + d + e + f, g, '?');
    FreeAppend(a + b + d + e + f + g, h, '?');
    FreeAppend(a + b + d + e + f + g + h, k, '?');
  }
}

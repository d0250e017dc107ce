/**
 * The database service's query construction and result handling: the text and
 * parameters of the INSERT, SELECT, UPDATE and DELETE statements it builds,
 * the SELECT / non-SELECT split of execute_query, and the row loop of
 * bulk_insert. The database itself is a parameter: whether it connects, whether
 * it accepts a statement, and what it returns.
 */
module DatabaseService {
  import opened Wrappers
  import opened Text

  /** A column value as the service passes it through to the driver. */
  datatype Value = Null | Str(s: string) | Number(n: int) | Flag(b: bool) | Strs(items: seq<string>)

  /** A Python dict of column to value, in insertion order. */
  type Record = seq<(string, Value)>

  /** A statement and the parameter tuple bound to its "%s" placeholders. */
  datatype Query = Query(text: string, params: seq<Value>)

  /** A dict has each key once. */
  predicate DistinctKeys(d: Record) {
    forall i, j | 0 <= i < j < |d| :: d[i].0 != d[j].0
  }

  /** d[key], or None where Python raises KeyError. */
  function Lookup(d: Record, key: string): Option<Value>
    decreases |d|
  {
    if d == [] then None else if d[0].0 == key then Some(d[0].1) else Lookup(d[1..], key)
  }

  lemma {:induction false} LookupAt(d: Record, i: nat)
    requires DistinctKeys(d) && i < |d|
    ensures Lookup(d, d[i].0) == Some(d[i].1)
    decreases i
  {
    if i > 0 {
      assert d[0].0 != d[i].0;
      assert d[1..][i - 1] == d[i];
      LookupAt(d[1..], i - 1);
    }
  }

  // ---------------------------------------------------------------- statement text

  const Placeholder := "%s"
  const ListSeparator := ", "

  function Placeholders(n: nat): (r: seq<string>)
    ensures |r| == n && forall i | 0 <= i < n :: r[i] == Placeholder
  {
    seq(n, i => Placeholder)
  }

  /** The statement text insert and bulk_insert build for these columns. */
  function InsertText(table: string, columns: seq<string>): string {
    "INSERT INTO " + table + " (" + Join(columns, ListSeparator) + ") VALUES ("
      + Join(Placeholders(|columns|), ListSeparator) + ")"
  }

  /** insert: the dict's keys as the column list, its values as the parameters, in key order. */
  function InsertQuery(table: string, data: Record): (r: Query)
    ensures |r.params| == |data| && forall i | 0 <= i < |data| :: r.params[i] == data[i].1
    ensures StartsWith(r.text, "INSERT INTO " + table + " (")
  {
    Query(InsertText(table, Keys(data)), Values(data))
  }

  /** select: "*" for no fields or an empty list, " WHERE ..." only for a non-empty condition. */
  function SelectQuery(table: string, conditions: Option<string>, fields: Option<seq<string>>): (r: Query)
    ensures r.params == [] && StartsWith(r.text, "SELECT ")
    ensures fields.None? || fields.value == [] ==> StartsWith(r.text, "SELECT * FROM " + table)
    ensures fields.Some? && fields.value != [] ==> StartsWith(r.text, "SELECT " + Join(fields.value, ListSeparator) + " FROM " + table)
    ensures conditions.Some? && conditions.value != "" ==> EndsWith(r.text, " WHERE " + conditions.value)
  {
    var fieldList := if fields.None? || fields.value == [] then "*" else Join(fields.value, ListSeparator);
    var clause := if conditions.Some? && conditions.value != "" then " WHERE " + conditions.value else "";
    Query("SELECT " + fieldList + " FROM " + table + clause, [])
  }

  function Assignments(columns: seq<string>): (r: seq<string>)
    ensures |r| == |columns| && forall i | 0 <= i < |columns| :: r[i] == columns[i] + " = " + Placeholder
  {
    seq(|columns|, i requires 0 <= i < |columns| => columns[i] + " = " + Placeholder)
  }

  /** update: "k = %s" per key, always with a WHERE clause; the values are the parameters in key order. */
  function UpdateQuery(table: string, values: Record, conditions: string): (r: Query)
    ensures |r.params| == |values| && forall i | 0 <= i < |values| :: r.params[i] == values[i].1
    ensures StartsWith(r.text, "UPDATE " + table + " SET ") && EndsWith(r.text, " WHERE " + conditions)
  {
    Query("UPDATE " + table + " SET " + Join(Assignments(Keys(values)), ListSeparator) + " WHERE " + conditions, Values(values))
  }

  /** delete: always with a WHERE clause, and no parameters. */
  function DeleteQuery(table: string, conditions: string): (r: Query)
    ensures r.params == [] && StartsWith(r.text, "DELETE FROM " + table) && EndsWith(r.text, " WHERE " + conditions)
  {
    Query("DELETE FROM " + table + " WHERE " + conditions, [])
  }

  // ---------------------------------------------------------------- one placeholder per parameter

  lemma {:induction false} CountJoin(parts: seq<string>, sep: string, c: char, per: nat)
    requires c !in sep && forall i | 0 <= i < |parts| :: CountChar(parts[i], c) == per
    ensures CountChar(Join(parts, sep), c) == per * |parts|
    decreases |parts|
  {
    if |parts| == 1 {
    } else if |parts| > 1 {
      var rest := Join(parts[1..], sep);
      assert Join(parts, sep) == parts[0] + sep + rest;
      CountJoin(parts[1..], sep, c, per);
      CountCharAppend(parts[0] + sep, rest, c);
      CountCharAppend(parts[0], sep, c);
      CountCharAbsent(sep, c);
      Distribute(|parts| - 1, per);
    }
  }

  /** Appending a text without the character leaves its count alone. */
  lemma CountAppendFree(a: string, b: string, c: char)
    requires c !in b
    ensures CountChar(a + b, c) == CountChar(a, c)
  {
    CountCharAppend(a, b, c);
    CountCharAbsent(b, c);
  }

  /** The joined names hold no '%' when no name does. */
  lemma NamesFree(names: seq<string>)
    requires forall i | 0 <= i < |names| :: '%' !in names[i]
    ensures CountChar(Join(names, ListSeparator), '%') == 0
  {
    forall i | 0 <= i < |names| ensures CountChar(names[i], '%') == 0 {
      CountCharAbsent(names[i], '%');
    }
    CountJoin(names, ListSeparator, '%', 0);
  }

  /** n joined placeholders hold n '%' signs. */
  lemma PlaceholderCount(n: nat)
    ensures CountChar(Join(Placeholders(n), ListSeparator), '%') == n
  {
    assert CountChar(Placeholder, '%') == 1 by {
      assert Placeholder[1..] == "s";
    }
    CountJoin(Placeholders(n), ListSeparator, '%', 1);
  }

  /** Only the two middle pieces of p + x + m + y + e can hold c, when the others do not. */
  lemma CountBetween(p: string, x: string, m: string, y: string, e: string, c: char)
    requires c !in p && c !in m && c !in e
    ensures CountChar(p + x + m + y + e, c) == CountChar(x, c) + CountChar(y, c)
  {
    CountAppendFree(p + x + m + y, e, c);
    CountCharAppend(p + x + m, y, c);
    CountAppendFree(p + x, m, c);
    CountCharAppend(p, x, c);
    CountCharAbsent(p, c);
  }

  lemma InsertTextCount(table: string, columns: seq<string>)
    requires '%' !in table && forall i | 0 <= i < |columns| :: '%' !in columns[i]
    ensures CountChar(InsertText(table, columns), '%') == |columns|
  {
    NamesFree(columns);
    PlaceholderCount(|columns|);
    var cols, phs := Join(columns, ListSeparator), Join(Placeholders(|columns|), ListSeparator);
    var p := "INSERT INTO " + table + " (";
    assert '%' !in p;
    assert InsertText(table, columns) == p + cols + ") VALUES (" + phs + ")";
    CountBetween(p, cols, ") VALUES (", phs, ")", '%');
  }

  /** A statement insert builds has exactly one placeholder per parameter, when no name holds a '%'. */
  lemma InsertPlaceholders(table: string, data: Record)
    requires '%' !in table && forall i | 0 <= i < |data| :: '%' !in data[i].0
    ensures CountChar(InsertQuery(table, data).text, '%') == |InsertQuery(table, data).params|
  {
    InsertTextCount(table, Keys(data));
  }

  /** A statement update builds has exactly one placeholder per parameter, when no name or condition holds a '%'. */
  lemma UpdatePlaceholders(table: string, values: Record, conditions: string)
    requires '%' !in table && '%' !in conditions && forall i | 0 <= i < |values| :: '%' !in values[i].0
    ensures CountChar(UpdateQuery(table, values, conditions).text, '%') == |UpdateQuery(table, values, conditions).params|
  {
    var sets := Assignments(Keys(values));
    forall i | 0 <= i < |sets| ensures CountChar(sets[i], '%') == 1 {
      AssignmentCount(values[i].0);
    }
    CountJoin(sets, ListSeparator, '%', 1);
    var assigns := Join(sets, ListSeparator);
    var p, m := "UPDATE " + table + " SET ", " WHERE " + conditions;
    assert '%' !in p && '%' !in m;
    assert UpdateQuery(table, values, conditions).text == p + assigns + m + "" + "";
    CountBetween(p, assigns, m, "", "", '%');
  }

  /** "k = %s" holds one '%' when k holds none. */
  lemma AssignmentCount(k: string)
    requires '%' !in k
    ensures CountChar(k + " = " + Placeholder, '%') == 1
  {
    CountCharAppend(k + " = ", Placeholder, '%');
    CountAppendFree(k, " = ", '%');
    CountCharAbsent(k, '%');
    assert Placeholder[1..] == "s";
  }

  /**
   * The column list of an insert statement, the text between "table (" and
   * ") VALUES (", splits back into the dict's keys, when no key holds a ','.
   */
  lemma InsertColumns(table: string, data: Record)
    requires |data| >= 1 && forall i | 0 <= i < |data| :: ',' !in data[i].0
    ensures var text, start, columns := InsertQuery(table, data).text, |"INSERT INTO " + table + " ("|, Join(Keys(data), ListSeparator);
      start + |columns| <= |text|
      && Split(text[start..start + |columns|], ListSeparator) == Keys(data)
      && StartsWith(text[start + |columns|..], ") VALUES (")
  {
    var head, columns := "INSERT INTO " + table + " (", Join(Keys(data), ListSeparator);
    var tail := ") VALUES (" + Join(Placeholders(|data|), ListSeparator) + ")";
    var text := InsertQuery(table, data).text;
    assert text == head + columns + tail;
    assert text[|head|..|head| + |columns|] == columns;
    assert text[|head| + |columns|..] == tail;
    SplitJoin(Keys(data), ListSeparator);
  }

  // ---------------------------------------------------------------- execute_query

  /** execute_query's test: the stripped, upper-cased text starts with "SELECT". */
  predicate IsSelect(query: string) {
    StartsWith(Upper(Strip(query)), "SELECT")
  }

  /**
   * select's optional parts: an empty condition is no condition, an empty field
   * list is no field list, and a condition only appends " WHERE ..." to the
   * statement without it. A select binds no parameters.
   */
  lemma SelectClauses(table: string, conditions: Option<string>, fields: Option<seq<string>>)
    ensures SelectQuery(table, Some(""), fields) == SelectQuery(table, None, fields)
    ensures SelectQuery(table, conditions, Some([])) == SelectQuery(table, conditions, None)
    ensures conditions.Some? && conditions.value != "" ==>
      SelectQuery(table, conditions, fields).text == SelectQuery(table, None, fields).text + " WHERE " + conditions.value
    ensures SelectQuery(table, conditions, fields).params == []
  {
    var fieldList := if fields.None? || fields.value == [] then "*" else Join(fields.value, ListSeparator);
    var bare := "SELECT " + fieldList + " FROM " + table;
    assert SelectQuery(table, None, fields).text == bare + "";
    assert bare + "" == bare;
    if conditions.Some? && conditions.value != "" {
      assert SelectQuery(table, conditions, fields).text == bare + (" WHERE " + conditions.value);
      assert bare + (" WHERE " + conditions.value) == bare + " WHERE " + conditions.value;
    }
  }

  /**
   * Without a condition the statement is exactly "SELECT <fields> FROM <table>":
   * '*' when no fields or an empty list is given, else the fields joined by ", ".
   */
  lemma SelectFieldList(table: string, fields: Option<seq<string>>)
    ensures SelectQuery(table, None, None).text == "SELECT * FROM " + table
    ensures SelectQuery(table, None, Some([])).text == "SELECT * FROM " + table
    ensures fields.Some? && fields.value != [] ==>
      SelectQuery(table, None, fields).text == "SELECT " + Join(fields.value, ListSeparator) + " FROM " + table
  {
    var star := "SELECT " + "*" + " FROM " + table;
    assert SelectQuery(table, None, None).text == star + "" == star;
    assert SelectQuery(table, None, Some([])).text == star + "" == star;
    if fields.Some? && fields.value != [] {
      var listed := "SELECT " + Join(fields.value, ListSeparator) + " FROM " + table;
      assert SelectQuery(table, None, fields).text == listed + "" == listed;
    }
  }

  /** An upper-case keyword at the very start of a statement survives strip() and upper(). */
  lemma {:induction false} KeywordPrefix(keyword: string, rest: string)
    requires keyword != [] && !IsSpace(keyword[0]) && !IsSpace(keyword[|keyword| - 1])
    requires forall i | 0 <= i < |keyword| :: UpperChar(keyword[i]) == keyword[i]
    ensures |Upper(Strip(keyword + rest))| >= |keyword|
    ensures Upper(Strip(keyword + rest))[..|keyword|] == keyword
  {
    var s := keyword + rest;
    assert StripLeft(s) == s;
    var r := StripRight(s);
    StripRightShape(s);
    assert forall k | |r| <= k < |s| :: IsSpace(s[k]) by {
      forall k | |r| <= k < |s| ensures IsSpace(s[k]) {
        assert s[k] == s[|r|..][k - |r|];
      }
    }
    assert !IsSpace(s[|keyword| - 1]);
    assert |r| >= |keyword|;
    assert forall i | 0 <= i < |keyword| :: r[i] == s[i] == keyword[i];
  }

  /** Every statement select builds is classified as a SELECT. */
  lemma SelectIsSelect(table: string, conditions: Option<string>, fields: Option<seq<string>>)
    ensures IsSelect(SelectQuery(table, conditions, fields).text)
  {
    var q := SelectQuery(table, conditions, fields).text;
    assert q == "SELECT" + q[6..];
    KeywordPrefix("SELECT", q[6..]);
  }

  /** Statements starting with another upper-case keyword are not. */
  lemma OtherKeywordNotSelect(keyword: string, rest: string)
    requires |keyword| == 6 && keyword != "SELECT" && !IsSpace(keyword[0]) && !IsSpace(keyword[5])
    requires forall i | 0 <= i < |keyword| :: UpperChar(keyword[i]) == keyword[i]
    ensures !IsSelect(keyword + rest)
  {
    KeywordPrefix(keyword, rest);
  }

  /** A statement opening with INSERT, UPDATE or DELETE is not a SELECT. */
  lemma OpensWithWrite(q: string, keyword: string)
    requires keyword == "INSERT" || keyword == "UPDATE" || keyword == "DELETE"
    requires |q| >= 6 && q[..6] == keyword
    ensures !IsSelect(q)
  {
    assert q == keyword + q[6..];
    assert forall i | 0 <= i < |keyword| :: UpperChar(keyword[i]) == keyword[i];
    OtherKeywordNotSelect(keyword, q[6..]);
  }

  /** No statement insert, update or delete builds is classified as a SELECT. */
  lemma WritesAreNotSelect(table: string, data: Record, conditions: string)
    ensures !IsSelect(InsertQuery(table, data).text)
    ensures !IsSelect(UpdateQuery(table, data, conditions).text)
    ensures !IsSelect(DeleteQuery(table, conditions).text)
  {
    var i, u, d := InsertQuery(table, data).text, UpdateQuery(table, data, conditions).text, DeleteQuery(table, conditions).text;
    assert i[..6] == "INSERT";
    assert u[..6] == "UPDATE";
    assert d[..6] == "DELETE";
    OpensWithWrite(i, "INSERT");
    OpensWithWrite(u, "UPDATE");
    OpensWithWrite(d, "DELETE");
  }

  /** The two ways a call can fail: a dict without a column, or the database refusing. */
  datatype DbError = MissingKey(key: string) | DatabaseError(message: string)

  /** The "error" text of a failed reply, str(e): the quoted column of a KeyError, or the driver's message. */
  function ErrorText(e: DbError): string {
    match e
    case MissingKey(key) => "'" + key + "'"
    case DatabaseError(message) => message
  }

  /** The dict a call returns: rows for a SELECT, an affected-row count otherwise, or the error. */
  datatype Response = Rows(data: seq<Record>) | Affected(count: int) | Failed(error: DbError)

  /** What the database does with one statement: connect, accept it, and what it returns. */
  datatype Database = Database(connects: bool, accepts: bool, message: string, fetched: seq<Record>, rowcount: int)

  /** The outcome of a call as written: a returned dict, or an exception that escapes. */
  datatype Outcome = Returned(response: Response) | Raised(exception: string)

  /**
   * The UnboundLocalError (a NameError) the finally block raises when the
   * connection was never opened, worded as Python up to 3.10 words it; 3.11 and
   * later say "cannot access local variable 'cur' where it is not associated
   * with a value". The text never reaches a client.
   */
  const UnboundCursor := "local variable 'cur' referenced before assignment"

  /** execute_query as its documentation describes it: every failure becomes success=False. */
  function ExecuteQuery(query: Query, db: Database): (r: Response)
    ensures r.Failed? <==> !db.connects || !db.accepts
    ensures r.Rows? ==> IsSelect(query.text) && r.data == db.fetched
    ensures r.Affected? ==> !IsSelect(query.text) && r.count == db.rowcount
  {
    if !db.connects || !db.accepts then Failed(DatabaseError(db.message))
    else if IsSelect(query.text) then Rows(db.fetched)
    else Affected(db.rowcount)
  }

  /**
   * The finally block closes `cur` and `conn`. When the connection was never made
   * neither name is bound, so the NameError it raises replaces the dict the
   * except clause was returning.
   */
  function Closed(connects: bool, response: Response): Outcome {
    if !connects then Raised(UnboundCursor) else Returned(response)
  }

  /** execute_query as written. */
  function ExecuteQueryAsWritten(query: Query, db: Database): (r: Outcome)
    ensures r.Raised? <==> !db.connects
    ensures r.Returned? ==> r.response.Failed? == !db.accepts
  {
    Closed(db.connects, ExecuteQuery(query, db))
  }

  /** As written, a refused connection raises instead of returning success=False; otherwise the two agree. */
  lemma ConnectFailureEscapes(query: Query, db: Database)
    ensures !db.connects ==>
      (ExecuteQueryAsWritten(query, db) == Raised(UnboundCursor)
       && ExecuteQuery(query, db) == Failed(DatabaseError(db.message)))
    ensures db.connects ==> ExecuteQueryAsWritten(query, db) == Returned(ExecuteQuery(query, db))
  {
  }

  /** The statements the builders produce get the reply their kind calls for. */
  lemma BuiltQueriesClassified(table: string, data: Record, conditions: string, db: Database)
    requires db.connects && db.accepts
    ensures ExecuteQuery(SelectQuery(table, Some(conditions), None), db) == Rows(db.fetched)
    ensures ExecuteQuery(InsertQuery(table, data), db) == Affected(db.rowcount)
    ensures ExecuteQuery(UpdateQuery(table, data, conditions), db) == Affected(db.rowcount)
    ensures ExecuteQuery(DeleteQuery(table, conditions), db) == Affected(db.rowcount)
  {
    SelectIsSelect(table, Some(conditions), None);
    WritesAreNotSelect(table, data, conditions);
  }

  // ---------------------------------------------------------------- bulk_insert

  /** tuple(item[col] for col in columns), or the first missing column. */
  function RowValues(item: Record, columns: seq<string>): (r: Result<seq<Value>, string>)
    ensures r.Ok? ==> |r.value| == |columns|
    ensures r.Err? ==> r.error in columns
    decreases |columns|
  {
    if columns == [] then Ok([])
    else
      match Lookup(item, columns[0])
      case None => Err(columns[0])
      case Some(v) =>
        match RowValues(item, columns[1..])
        case Err(k) => Err(k)
        case Ok(vs) => Ok([v] + vs)
  }

  /** The tuple is every column's value in column order; the error names a column the dict lacks. */
  lemma {:induction false} RowValuesExact(item: Record, columns: seq<string>)
    ensures RowValues(item, columns).Ok? <==> forall i | 0 <= i < |columns| :: Lookup(item, columns[i]).Some?
    ensures RowValues(item, columns).Ok? ==>
      forall i | 0 <= i < |columns| :: RowValues(item, columns).value[i] == Lookup(item, columns[i]).value
    ensures RowValues(item, columns).Err? ==>
      RowValues(item, columns).error in columns && Lookup(item, RowValues(item, columns).error).None?
    decreases |columns|
  {
    if columns != [] {
      RowValuesExact(item, columns[1..]);
      if Lookup(item, columns[0]).Some? {
        assert forall i | 1 <= i < |columns| :: columns[i] == columns[1..][i - 1];
      }
    }
  }

  /** A dict's own keys pick out its values in order: its parameters are those insert would bind. */
  lemma RowValuesOwnKeys(d: Record)
    requires DistinctKeys(d)
    ensures RowValues(d, Keys(d)) == Ok(Values(d))
  {
    forall i | 0 <= i < |d| ensures Lookup(d, Keys(d)[i]) == Some(d[i].1) {
      LookupAt(d, i);
    }
    RowValuesExact(d, Keys(d));
    var r := RowValues(d, Keys(d));
    assert r.Ok?;
    assert forall i | 0 <= i < |d| :: r.value[i] == Values(d)[i];
    assert r.value == Values(d);
  }

  /**
   * The rows bulk_insert has handled: the sum of their row counts and the
   * parameter tuples executed, or the first error. `accepted(i)` is the row count
   * the database reports for row i, None when it refuses it.
   */
  function BulkRun(data: seq<Record>, columns: seq<string>, accepted: nat -> Option<int>, message: string)
    : (r: Result<(int, seq<seq<Value>>), DbError>)
    ensures r.Ok? ==> |r.value.1| == |data|
    ensures r.Ok? ==> forall i | 0 <= i < |data| :: RowValues(data[i], columns).Ok? && accepted(i).Some?
    ensures r.Err? && r.error.MissingKey? ==> r.error.key in columns
    decreases |data|
  {
    if data == [] then Ok((0, []))
    else
      var n := |data| - 1;
      match BulkRun(data[..n], columns, accepted, message)
      case Err(e) => Err(e)
      case Ok((total, executed)) =>
        match RowValues(data[n], columns)
        case Err(k) => Err(MissingKey(k))
        case Ok(values) =>
          match accepted(n)
          case None => Err(DatabaseError(message))
          case Some(count) => Ok((total + count, executed + [values]))
  }

  /** bulk_insert's reply: 0 for no rows without touching the database, else the run over the first row's columns. */
  function BulkResponse(data: seq<Record>, connects: bool, accepted: nat -> Option<int>, message: string): Response {
    if data == [] then Affected(0)
    else if !connects then Failed(DatabaseError(message))
    else
      match BulkRun(data, Keys(data[0]), accepted, message)
      case Err(e) => Failed(e)
      case Ok((total, _)) => Affected(total)
  }

  /** Once a prefix of the rows fails, the whole run fails the same way. */
  lemma {:induction false} BulkRunStops(data: seq<Record>, k: nat, columns: seq<string>, accepted: nat -> Option<int>, message: string)
    requires k <= |data| && BulkRun(data[..k], columns, accepted, message).Err?
    ensures BulkRun(data, columns, accepted, message) == BulkRun(data[..k], columns, accepted, message)
    decreases |data|
  {
    if k < |data| {
      var n := |data| - 1;
      assert data[..n][..k] == data[..k];
      BulkRunStops(data[..n], k, columns, accepted, message);
    } else {
      assert data[..k] == data;
    }
  }

  /**
   * When every row has the first row's columns and the database takes each one
   * as a single row, the count is the number of rows and the executed tuples are
   * the rows' values in column order.
   */
  lemma {:induction false} BulkAllAccepted(data: seq<Record>, columns: seq<string>, accepted: nat -> Option<int>, message: string)
    requires forall i | 0 <= i < |data| :: RowValues(data[i], columns).Ok? && accepted(i) == Some(1)
    ensures BulkRun(data, columns, accepted, message).Ok?
    ensures BulkRun(data, columns, accepted, message).value.0 == |data|
    ensures |BulkRun(data, columns, accepted, message).value.1| == |data|
    ensures forall i | 0 <= i < |data| :: BulkRun(data, columns, accepted, message).value.1[i] == RowValues(data[i], columns).value
    decreases |data|
  {
    if data != [] {
      var n := |data| - 1;
      assert forall i | 0 <= i < n :: data[..n][i] == data[i];
      BulkAllAccepted(data[..n], columns, accepted, message);
      var prev := BulkRun(data[..n], columns, accepted, message).value;
      assert BulkRun(data, columns, accepted, message) == Ok((prev.0 + 1, prev.1 + [RowValues(data[n], columns).value]));
    }
  }

  /**
   * bulk_insert: one INSERT text from the first row's keys, then a loop that binds
   * each row's values for those columns and adds up the row counts; nothing is
   * committed unless every row went in.
   */
  method BulkInsert(table: string, data: seq<Record>, connects: bool, accepted: nat -> Option<int>, message: string)
    returns (r: Response, query: string, executed: seq<seq<Value>>)
    ensures r == BulkResponse(data, connects, accepted, message)
    ensures data != [] ==> query == InsertText(table, Keys(data[0]))
    ensures r.Affected? && data != [] ==> BulkRun(data, Keys(data[0]), accepted, message) == Ok((r.count, executed))
  {
    if data == [] {
      return Affected(0), "", [];
    }
    var columns := Keys(data[0]);
    query := InsertText(table, columns);
    if !connects {
      return Failed(DatabaseError(message)), query, [];
    }
    var affected := 0;
    executed := [];
    for i := 0 to |data|
      invariant BulkRun(data[..i], columns, accepted, message) == Ok((affected, executed))
    {
      assert data[..i + 1][..i] == data[..i] && data[..i + 1][i] == data[i];
      var values := RowValues(data[i], columns);
      if values.Err? {
        BulkRunStops(data, i + 1, columns, accepted, message);
        return Failed(MissingKey(values.error)), query, executed;
      }
      var count := accepted(i);
      if count.None? {
        BulkRunStops(data, i + 1, columns, accepted, message);
        return Failed(DatabaseError(message)), query, executed;
      }
      affected := affected + count.value;
      executed := executed + [values.value];
    }
    assert data[..|data|] == data;
    r := Affected(affected);
  }

  /** bulk_insert as written: a refused connection raises from the finally block, as in execute_query. */
  lemma BulkConnectFailureEscapes(data: seq<Record>, accepted: nat -> Option<int>, message: string)
    requires data != []
    ensures Closed(false, BulkResponse(data, false, accepted, message)) == Raised(UnboundCursor)
    ensures BulkResponse([], false, accepted, message) == Affected(0)
  {
  }
}

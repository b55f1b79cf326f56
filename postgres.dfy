/**
 * `PostgresDB`: the `ca_articles` store behind a psycopg2 connection.
 * The table is a map from `source_url` (its UNIQUE column) to the row.
 * Every statement either runs or fails; the outcome of each call is a
 * `Fault` input, since the server and the network are outside the model.
 * psycopg2 semantics kept here: a server-side error leaves the transaction
 * aborted until a rollback, so later statements fail too; a call on a
 * connection that is absent or closed fails on the client side; and
 * `rollback` itself raises on such a connection.
 */
module Postgres {
  import opened Wrappers
  import opened Calendar
  import opened Documents

  /** `self.conn`: never opened (`None`), open, or closed by `disconnect`. */
  datatype Conn = NoConn | Open | Closed

  /** What happens to one statement: it runs, the server rejects it, or the connection drops. */
  datatype Fault = Healthy | Fails | Drops

  /** A row of `ca_articles`, without its generated `id` and `created_at`. */
  datatype Row = Row(publishedDate: Date, sourceUrl: string, article: ArticleJson, attachments: Option<Attachments>)

  /** The connection, whether its transaction is aborted, and the table (`None` before `CREATE TABLE`). */
  datatype DbState = DbState(conn: Conn, aborted: bool, table: Option<map<string, Row>>)

  /** A Python call either returns a value or raises. */
  datatype Outcome<+T> = Returned(value: T) | Raised

  /** A call's outcome together with the state it leaves. */
  datatype Step<+T> = Step(out: T, state: DbState)

  /** A statement on `ca_articles` can run. */
  predicate Ready(s: DbState) {
    s.conn == Open && !s.aborted && s.table.Some?
  }

  /** Every row sits under its own `source_url`, the table's UNIQUE column. */
  predicate KeyedTable(m: map<string, Row>) {
    forall u :: u in m ==> m[u].sourceUrl == u
  }

  /** The table's invariant, once it exists. */
  predicate KeyedByUrl(s: DbState) {
    s.table.Some? ==> KeyedTable(s.table.value)
  }

  /** The state a failed statement leaves: a drop closes the connection, a server error aborts the transaction. */
  function Failed(s: DbState, fault: Fault): (r: DbState)
    ensures r.table == s.table
    ensures s.conn != Open ==> r == s
  {
    if s.conn != Open then s
    else if fault == Drops then s.(conn := Closed)
    else s.(aborted := true)
  }

  /** `self.conn.rollback()` in an `except` block: clears the abort, or raises without an open connection. */
  function Rollback(s: DbState): Step<Outcome<bool>> {
    if s.conn == Open then Step(Returned(false), s.(aborted := false)) else Step(Raised, s)
  }

  // ---------------------------------------------------------------------
  // The operations as functions of the state
  // ---------------------------------------------------------------------

  /** `connect`: opens a fresh connection, or raises and leaves `self.conn` as it was. */
  function ConnectStep(s: DbState, ok: bool): (r: Step<Outcome<()>>)
    ensures r.state.table == s.table
    ensures r.out.Returned? <==> ok
    ensures ok ==> r.state.conn == Open && !r.state.aborted
  {
    if ok then Step(Returned(()), s.(conn := Open, aborted := false)) else Step(Raised, s)
  }

  /** `disconnect`: closes any connection it ever opened; never raises. */
  function DisconnectStep(s: DbState): (r: DbState)
    ensures r.table == s.table
    ensures r.conn != Open
  {
    if s.conn == NoConn then s else s.(conn := Closed)
  }

  /** `init_schema`: creates `ca_articles` if missing, keeping any rows; any failure re-raises. */
  function InitSchemaStep(s: DbState, fault: Fault): (r: Step<Outcome<()>>)
    ensures r.out.Returned? <==> s.conn == Open && !s.aborted && fault == Healthy
    ensures r.out.Returned? ==> Ready(r.state) && (s.table.Some? ==> r.state.table == s.table)
    ensures r.out.Raised? ==> r.state.table == s.table
  {
    if s.conn == Open && !s.aborted && fault == Healthy then
      Step(Returned(()), s.(table := Some(if s.table.Some? then s.table.value else map[])))
    else
      var f := Failed(s, fault);
      Step(Raised, if f.conn == Open then f.(aborted := false) else f)
  }

  /** `article_exists`: the `SELECT EXISTS`, or `False` when the query fails. */
  function ExistsStep(s: DbState, url: string, fault: Fault): (r: Step<bool>)
    ensures r.out <==> Ready(s) && fault == Healthy && url in s.table.value
    ensures r.state.table == s.table
  {
    if Ready(s) && fault == Healthy then Step(url in s.table.value, s) else Step(false, Failed(s, fault))
  }

  /**
   * `insert_article`: the existence check, then the `INSERT ... ON CONFLICT
   * DO NOTHING RETURNING id` and its commit (`write` is their fault). A
   * failure rolls back and returns `False`; a date string that
   * `ParseIsoDate` cannot read counts as one the `DATE` column rejects.
   */
  function InsertStep(s: DbState, date: string, url: string, article: ArticleJson,
                      attachments: Option<Attachments>, check: Fault, write: Fault): Step<Outcome<bool>>
  {
    var c := ExistsStep(s, url, check);
    if c.out then Step(Returned(false), c.state)
    else
      var t := c.state;
      if Ready(t) && write == Healthy && ParseIsoDate(date).Some? then
        if url in t.table.value then Step(Returned(false), t)
        else Step(Returned(true), t.(table := Some(t.table.value[url := Row(ParseIsoDate(date).value, url, article, attachments)])))
      else Rollback(Failed(t, write))
  }

  /** The rows `WHERE article->>'source' = %s` keeps; an empty or absent source keeps all. */
  predicate Selects(source: Option<string>, r: Row) {
    source.None? || source.value == [] || r.article.source == source.value
  }

  function Matching(table: map<string, Row>, source: Option<string>): set<Row> {
    set u | u in table && Selects(source, table[u]) :: table[u]
  }

  /**
   * In a table keyed by URL, the rows the `WHERE` keeps are exactly the
   * stored rows that pass the filter, each found under its own URL; so no
   * two stored rows collapse into one.
   */
  lemma MatchingIsStoredRows(table: map<string, Row>, source: Option<string>, r: Row)
    requires KeyedTable(table)
    ensures r in Matching(table, source) <==> r.sourceUrl in table && table[r.sourceUrl] == r && Selects(source, r)
  {
    if r in Matching(table, source) {
      var u :| u in table && Selects(source, table[u]) && table[u] == r;
      assert u == r.sourceUrl;
    }
  }

  /**
   * `ORDER BY published_date DESC LIMIT n` over `pool`: `min(n, |pool|)`
   * distinct rows of the pool, latest first, and no row left out is later
   * than one returned. Rows of equal date may come in any order.
   */
  predicate TopRows(result: seq<Row>, pool: set<Row>, limit: int) {
    |result| == (if limit < |pool| then limit else |pool|)
    && (forall i :: 0 <= i < |result| ==> result[i] in pool)
    && (forall i, j :: 0 <= i < j < |result| ==> result[i] != result[j])
    && (forall i, j :: 0 <= i < j < |result| ==> DateLe(result[j].publishedDate, result[i].publishedDate))
    && (forall r, i :: r in pool && r !in result && 0 <= i < |result| ==> DateLe(r.publishedDate, result[i].publishedDate))
  }

  /** `get_articles` runs when the table is usable and the limit is not negative. */
  predicate QueryRuns(s: DbState, limit: int, fault: Fault) {
    Ready(s) && fault == Healthy && limit >= 0
  }

  function QueryState(s: DbState, limit: int, fault: Fault): DbState {
    if QueryRuns(s, limit, fault) then s else Failed(s, fault)
  }

  // ---------------------------------------------------------------------
  // The handler
  // ---------------------------------------------------------------------

  class PostgresDB {
    var conn: Conn
    var aborted: bool
    var table: Option<map<string, Row>>

    function State(): DbState
      reads this
    {
      DbState(conn, aborted, table)
    }

    /** The UNIQUE `source_url` column: every row stored under its own URL. */
    predicate Valid()
      reads this
    {
      KeyedByUrl(State())
    }

    /** `PostgresDB()`: no connection yet; `server` is what the database already holds. */
    constructor(server: Option<map<string, Row>>)
      requires server.Some? ==> KeyedTable(server.value)
      ensures State() == DbState(NoConn, false, server)
      ensures Valid()
    {
      conn := NoConn;
      aborted := false;
      table := server;
    }

    /** `connect`; `ok` is whether `psycopg2.connect` succeeds. */
    method Connect(ok: bool) returns (r: Outcome<()>)
      requires Valid()
      modifies this
      ensures Valid()
      ensures Step(r, State()) == ConnectStep(old(State()), ok)
    {
      if !ok {
        return Raised;
      }
      conn := Open;
      aborted := false;
      r := Returned(());
    }

    method Disconnect()
      requires Valid()
      modifies this
      ensures Valid()
      ensures State() == DisconnectStep(old(State()))
    {
      if conn != NoConn {
        conn := Closed;
      }
    }

    method InitSchema(fault: Fault) returns (r: Outcome<()>)
      requires Valid()
      modifies this
      ensures Valid()
      ensures Step(r, State()) == InitSchemaStep(old(State()), fault)
    {
      if conn == Open && !aborted && fault == Healthy {
        if table.None? {
          table := Some(map[]);
        }
        return Returned(());
      }
      Fail(fault);
      if conn == Open {
        aborted := false;
      }
      r := Raised;
    }

    /** A statement fails. */
    method Fail(fault: Fault)
      requires Valid()
      modifies this
      ensures Valid()
      ensures State() == Failed(old(State()), fault)
    {
      if conn == Open {
        if fault == Drops {
          conn := Closed;
        } else {
          aborted := true;
        }
      }
    }

    method ArticleExists(url: string, fault: Fault) returns (r: bool)
      requires Valid()
      modifies this
      ensures Valid()
      ensures Step(r, State()) == ExistsStep(old(State()), url, fault)
    {
      if conn == Open && !aborted && table.Some? && fault == Healthy {
        return url in table.value;
      }
      Fail(fault);
      r := false;
    }

    method InsertArticle(date: string, url: string, article: ArticleJson,
                         attachments: Option<Attachments>, check: Fault, write: Fault) returns (r: Outcome<bool>)
      requires Valid()
      modifies this
      ensures Valid()
      ensures Step(r, State()) == InsertStep(old(State()), date, url, article, attachments, check, write)
    {
      var found := ArticleExists(url, check);
      if found {
        return Returned(false);
      }
      var day := ParseIsoDate(date);
      if conn == Open && !aborted && table.Some? && write == Healthy && day.Some? {
        if url in table.value {
          return Returned(false);
        }
        table := Some(table.value[url := Row(day.value, url, article, attachments)]);
        return Returned(true);
      }
      Fail(write);
      if conn != Open {
        return Raised;
      }
      aborted := false;
      r := Returned(false);
    }

    /** `get_articles`: at most `limit` rows, latest first, filtered by source; `[]` on failure. */
    method GetArticles(limit: int, source: Option<string>, fault: Fault) returns (rows: seq<Row>)
      requires Valid()
      modifies this
      ensures Valid()
      ensures State() == QueryState(old(State()), limit, fault)
      ensures QueryRuns(old(State()), limit, fault) ==> TopRows(rows, Matching(old(table).value, source), limit)
      ensures !QueryRuns(old(State()), limit, fault) ==> rows == []
      ensures QueryRuns(old(State()), limit, fault) ==>
                forall i :: 0 <= i < |rows| ==> rows[i].sourceUrl in old(table).value && old(table).value[rows[i].sourceUrl] == rows[i]
    {
      if !(conn == Open && !aborted && table.Some? && fault == Healthy && limit >= 0) {
        Fail(fault);
        return [];
      }
      rows := Latest(Matching(table.value, source), limit);
      forall i | 0 <= i < |rows|
        ensures rows[i].sourceUrl in table.value && table.value[rows[i].sourceUrl] == rows[i]
      {
        MatchingIsStoredRows(table.value, source, rows[i]);
      }
    }
  }

  /** The latest row of a non-empty set. */
  method LatestRow(pool: set<Row>) returns (best: Row)
    requires pool != {}
    ensures best in pool
    ensures forall r :: r in pool ==> DateLe(r.publishedDate, best.publishedDate)
  {
    best :| best in pool;
    var todo := pool - {best};
    while todo != {}
      invariant todo <= pool && best in pool
      invariant forall r :: r in pool && r !in todo ==> DateLe(r.publishedDate, best.publishedDate)
      decreases |todo|
    {
      var r :| r in todo;
      if !DateLe(r.publishedDate, best.publishedDate) {
        best := r;
      }
      todo := todo - {r};
    }
  }

  /** `ORDER BY published_date DESC LIMIT limit`, by repeated selection of the latest row. */
  method Latest(pool: set<Row>, limit: nat) returns (result: seq<Row>)
    ensures TopRows(result, pool, limit)
  {
    result := [];
    var rest := pool;
    while |result| < limit && rest != {}
      invariant rest <= pool
      invariant |result| + |rest| == |pool| && |result| <= limit
      invariant forall r :: r in pool ==> r in rest || r in result
      invariant forall i :: 0 <= i < |result| ==> result[i] in pool && result[i] !in rest
      invariant forall i, j :: 0 <= i < j < |result| ==> result[i] != result[j]
      invariant forall i, j :: 0 <= i < j < |result| ==> DateLe(result[j].publishedDate, result[i].publishedDate)
      invariant forall r, i :: r in rest && 0 <= i < |result| ==> DateLe(r.publishedDate, result[i].publishedDate)
      decreases |rest|
    {
      var best := LatestRow(rest);
      LatestStaysOrdered(result, rest, best);
      result := result + [best];
      rest := rest - {best};
    }
  }

  /** Appending the latest of the remaining rows keeps the selection ordered. */
  lemma LatestStaysOrdered(result: seq<Row>, rest: set<Row>, best: Row)
    requires best in rest && forall r :: r in rest ==> DateLe(r.publishedDate, best.publishedDate)
    requires forall i :: 0 <= i < |result| ==> result[i] !in rest
    requires forall i, j :: 0 <= i < j < |result| ==> DateLe(result[j].publishedDate, result[i].publishedDate)
    requires forall r, i :: r in rest && 0 <= i < |result| ==> DateLe(r.publishedDate, result[i].publishedDate)
    ensures forall i, j :: 0 <= i < j < |result + [best]| ==>
              DateLe((result + [best])[j].publishedDate, (result + [best])[i].publishedDate)
    ensures forall r, i :: r in rest - {best} && 0 <= i < |result + [best]| ==>
              DateLe(r.publishedDate, (result + [best])[i].publishedDate)
  {
  }

  // ---------------------------------------------------------------------
  // What an insert does to the table
  // ---------------------------------------------------------------------

  /** The row `insert_article` stores. */
  function NewRow(date: string, url: string, article: ArticleJson, attachments: Option<Attachments>): Row
    requires ParseIsoDate(date).Some?
  {
    Row(ParseIsoDate(date).value, url, article, attachments)
  }

  /** `True` exactly when a row for a URL not yet stored was added; otherwise the table is untouched. */
  lemma InsertTrueIffRowAdded(s: DbState, date: string, url: string, article: ArticleJson,
                              attachments: Option<Attachments>, check: Fault, write: Fault)
    ensures var r := InsertStep(s, date, url, article, attachments, check, write);
      r.out == Returned(true) <==>
        (Ready(s) && check == Healthy && write == Healthy && ParseIsoDate(date).Some? && url !in s.table.value)
    ensures var r := InsertStep(s, date, url, article, attachments, check, write);
      r.out == Returned(true) ==> r.state.table == Some(s.table.value[url := NewRow(date, url, article, attachments)])
    ensures var r := InsertStep(s, date, url, article, attachments, check, write);
      r.out != Returned(true) ==> r.state.table == s.table
  {
  }

  /** The table stays keyed by URL across an insert. */
  lemma InsertKeepsKeyedByUrl(s: DbState, date: string, url: string, article: ArticleJson,
                              attachments: Option<Attachments>, check: Fault, write: Fault)
    requires KeyedByUrl(s)
    ensures KeyedByUrl(InsertStep(s, date, url, article, attachments, check, write).state)
  {
  }

  /** A URL already stored is refused with `False` and nothing changes. */
  lemma DuplicateIsRefused(s: DbState, date: string, url: string, article: ArticleJson,
                           attachments: Option<Attachments>, write: Fault)
    requires Ready(s) && url in s.table.value
    ensures InsertStep(s, date, url, article, attachments, Healthy, write) == Step(Returned(false), s)
  {
  }

  /** Inserting the same URL twice: `True`, then `False`, and one row for it. */
  lemma InsertTwice(s: DbState, date: string, url: string, article: ArticleJson, attachments: Option<Attachments>,
                    date2: string, article2: ArticleJson, attachments2: Option<Attachments>, write2: Fault)
    requires Ready(s) && url !in s.table.value && ParseIsoDate(date).Some?
    ensures var first := InsertStep(s, date, url, article, attachments, Healthy, Healthy);
      var second := InsertStep(first.state, date2, url, article2, attachments2, Healthy, write2);
      first.out == Returned(true) && second.out == Returned(false)
      && second.state.table == Some(s.table.value[url := NewRow(date, url, article, attachments)])
      && ExistsStep(first.state, url, Healthy).out
  {
    var first := InsertStep(s, date, url, article, attachments, Healthy, Healthy);
    assert Ready(first.state) && url in first.state.table.value;
    DuplicateIsRefused(first.state, date2, url, article2, attachments2, write2);
  }

  /**
   * A failed existence check aborts the transaction, so the `INSERT` that
   * follows fails as well and is rolled back: the call returns `False`, as
   * for a duplicate, and the article is not stored even when its URL is new.
   */
  lemma FailedCheckReadsAsDuplicate(s: DbState, date: string, url: string, article: ArticleJson,
                                    attachments: Option<Attachments>, write: Fault)
    requires Ready(s) && write != Drops
    ensures InsertStep(s, date, url, article, attachments, Fails, write) == Step(Returned(false), s)
  {
  }

  /** A server error in the `INSERT` or the commit is rolled back: `False`, table and transaction restored. */
  lemma WriteErrorRollsBack(s: DbState, date: string, url: string, article: ArticleJson, attachments: Option<Attachments>)
    requires Ready(s) && url !in s.table.value
    ensures InsertStep(s, date, url, article, attachments, Healthy, Fails) == Step(Returned(false), s)
  {
  }

  /** A connection lost during the `INSERT` makes the rollback raise: the call raises. */
  lemma DroppedWriteRaises(s: DbState, date: string, url: string, article: ArticleJson, attachments: Option<Attachments>)
    requires Ready(s) && url !in s.table.value
    ensures InsertStep(s, date, url, article, attachments, Healthy, Drops) == Step(Raised, s.(conn := Closed))
  {
  }

  /**
   * After a check that ran and found no row, the `ON CONFLICT DO NOTHING`
   * branch cannot be taken by this session alone: only a concurrent writer
   * could add the URL in between.
   */
  lemma NoConflictAfterCleanCheck(s: DbState, url: string)
    requires Ready(s)
    ensures !ExistsStep(s, url, Healthy).out ==> url !in ExistsStep(s, url, Healthy).state.table.value
  {
  }
}

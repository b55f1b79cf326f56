/**
 * `sync_sanskriti_ias`: connect, create the schema, fetch the articles of the
 * window, insert them one by one while counting the outcomes, query a sample
 * when something was inserted, and disconnect on every path.
 * The run returns nothing; `Report` stands for what it logs.
 */
module SyncSanskriti {
  import opened Wrappers
  import opened Calendar
  import opened Documents
  import opened Postgres
  import SanskritiSource

  /** The faults of the two statements of one `insert_article` call. */
  datatype InsertFaults = InsertFaults(check: Fault, write: Fault)

  /** `inserted_count`, `duplicate_count` and `error_count`. */
  datatype Counts = Counts(inserted: nat, duplicates: nat, errors: nat)

  /** What the run logs: where it stopped, or the totals and the sample of recent rows. */
  datatype Report =
    | ConnectFailed
    | SchemaFailed
    | NoArticles
    | Completed(total: nat, counts: Counts, sample: Option<seq<Row>>)

  /** The counters and the database after a prefix of the insert loop. */
  datatype Tally = Tally(counts: Counts, state: DbState)

  /** A `True` result counts as inserted, `False` as a duplicate, an exception as an error. */
  function Count(c: Counts, out: Outcome<bool>): Counts {
    match out
    case Returned(true) => c.(inserted := c.inserted + 1)
    case Returned(false) => c.(duplicates := c.duplicates + 1)
    case Raised => c.(errors := c.errors + 1)
  }

  function InsertOne(s: DbState, a: ArticleRecord, f: InsertFaults): Step<Outcome<bool>> {
    InsertStep(s, a.publishedDate, a.sourceUrl, a.article, a.attachments, f.check, f.write)
  }

  /** The loop over `articles[..k]`; `faults(i)` is what happens to the `i`-th insert. */
  function InsertRun(s: DbState, articles: seq<ArticleRecord>, faults: nat -> InsertFaults, k: nat): Tally
    requires k <= |articles|
    decreases k
  {
    if k == 0 then Tally(Counts(0, 0, 0), s)
    else
      var t := InsertRun(s, articles, faults, k - 1);
      var r := InsertOne(t.state, articles[k - 1], faults(k - 1));
      Tally(Count(t.counts, r.out), r.state)
  }

  /** The window the run fetches. */
  function Fetched(fetch: string -> SanskritiSource.Page, now: Date, daysBack: int): seq<ArticleRecord>
    requires ValidDate(now)
  {
    SanskritiSource.ArticlesOverWindow(fetch, now, daysBack)
  }

  /** The state before the articles are fetched: after `connect` and `init_schema`. */
  function Prepared(s: DbState, connectOk: bool, schemaFault: Fault): DbState {
    InitSchemaStep(ConnectStep(s, connectOk).state, schemaFault).state
  }

  /** The `try` body ran up to the insert loop. */
  predicate ReachesLoop(s: DbState, connectOk: bool, schemaFault: Fault) {
    connectOk && InitSchemaStep(ConnectStep(s, connectOk).state, schemaFault).out.Returned?
  }

  /** `sync_sanskriti_ias(days_back)`. */
  method Sync(db: PostgresDB, fetch: string -> SanskritiSource.Page, now: Date, daysBack: int, connectOk: bool,
              schemaFault: Fault, faults: nat -> InsertFaults, sampleFault: Fault) returns (report: Report)
    requires ValidDate(now) && db.Valid()
    modifies db
    ensures !connectOk ==> report == ConnectFailed && db.State() == DisconnectStep(old(db.State()))
    ensures connectOk && !ReachesLoop(old(db.State()), connectOk, schemaFault) ==>
              report == SchemaFailed && db.State() == DisconnectStep(Prepared(old(db.State()), connectOk, schemaFault))
    ensures ReachesLoop(old(db.State()), connectOk, schemaFault) && Fetched(fetch, now, daysBack) == [] ==>
              report == NoArticles && db.State() == DisconnectStep(Prepared(old(db.State()), connectOk, schemaFault))
    ensures ReachesLoop(old(db.State()), connectOk, schemaFault) && Fetched(fetch, now, daysBack) != [] ==>
              var articles := Fetched(fetch, now, daysBack);
              var run := InsertRun(Prepared(old(db.State()), connectOk, schemaFault), articles, faults, |articles|);
              report.Completed? && report.total == |articles| && report.counts == run.counts
              && (report.sample.Some? <==> run.counts.inserted > 0)
              && (report.sample.Some? && QueryRuns(run.state, 5, sampleFault) ==>
                    TopRows(report.sample.value, Matching(run.state.table.value, Some(SanskritiSource.SourceName)), 5))
              && (report.sample.Some? && !QueryRuns(run.state, 5, sampleFault) ==> report.sample.value == [])
              && db.State() == DisconnectStep(if run.counts.inserted > 0 then QueryState(run.state, 5, sampleFault) else run.state)
  {
    var connected := db.Connect(connectOk);
    if connected.Raised? {
      db.Disconnect();
      return ConnectFailed;
    }
    var schema := db.InitSchema(schemaFault);
    if schema.Raised? {
      db.Disconnect();
      return SchemaFailed;
    }
    var articles := SanskritiSource.FetchArticles(fetch, now, daysBack);
    if articles == [] {
      db.Disconnect();
      return NoArticles;
    }
    var counts := InsertAll(db, articles, faults);
    var sample: Option<seq<Row>> := None;
    if counts.inserted > 0 {
      var recent := db.GetArticles(5, Some(SanskritiSource.SourceName), sampleFault);
      sample := Some(recent);
    }
    db.Disconnect();
    report := Completed(|articles|, counts, sample);
  }

  /** The `for article in articles` loop and its counters. */
  method InsertAll(db: PostgresDB, articles: seq<ArticleRecord>, faults: nat -> InsertFaults) returns (counts: Counts)
    requires db.Valid()
    modifies db
    ensures db.Valid()
    ensures Tally(counts, db.State()) == InsertRun(old(db.State()), articles, faults, |articles|)
  {
    ghost var start := db.State();
    var inserted, duplicates, errors := 0, 0, 0;
    var k := 0;
    while k < |articles|
      invariant 0 <= k <= |articles| && db.Valid()
      invariant Tally(Counts(inserted, duplicates, errors), db.State()) == InsertRun(start, articles, faults, k)
    {
      var a := articles[k];
      var success := db.InsertArticle(a.publishedDate, a.sourceUrl, a.article, a.attachments, faults(k).check, faults(k).write);
      if success.Raised? {
        errors := errors + 1;
      } else if success.value {
        inserted := inserted + 1;
      } else {
        duplicates := duplicates + 1;
      }
      k := k + 1;
    }
    counts := Counts(inserted, duplicates, errors);
  }

  // ---------------------------------------------------------------------
  // The counters
  // ---------------------------------------------------------------------

  /** Every article is counted exactly once. */
  lemma {:induction false} CountsAddUp(s: DbState, articles: seq<ArticleRecord>, faults: nat -> InsertFaults, k: nat)
    requires k <= |articles|
    ensures var c := InsertRun(s, articles, faults, k).counts; c.inserted + c.duplicates + c.errors == k
    decreases k
  {
    if k > 0 {
      CountsAddUp(s, articles, faults, k - 1);
    }
  }

  /** The table grows by exactly the inserted count, and only ever gains rows. */
  lemma {:induction false} InsertedCountIsNewRows(s: DbState, articles: seq<ArticleRecord>, faults: nat -> InsertFaults, k: nat)
    requires k <= |articles| && s.table.Some?
    ensures var run := InsertRun(s, articles, faults, k);
      run.state.table.Some? && |run.state.table.value| == |s.table.value| + run.counts.inserted
      && s.table.value.Keys <= run.state.table.value.Keys
    decreases k
  {
    if k > 0 {
      InsertedCountIsNewRows(s, articles, faults, k - 1);
      var t := InsertRun(s, articles, faults, k - 1);
      var a := articles[k - 1];
      var f := faults(k - 1);
      InsertTrueIffRowAdded(t.state, a.publishedDate, a.sourceUrl, a.article, a.attachments, f.check, f.write);
      var r := InsertOne(t.state, a, f);
      if r.out == Returned(true) {
        var m := t.state.table.value;
        assert r.state.table.value.Keys == m.Keys + {a.sourceUrl};
      }
    }
  }

  /** The URLs of `articles[..k]`. */
  function Urls(articles: seq<ArticleRecord>, k: nat): set<string>
    requires k <= |articles|
    decreases k
  {
    if k == 0 then {} else Urls(articles, k - 1) + {articles[k - 1].sourceUrl}
  }

  /** Without faults and with well-formed dates, nothing errs and every fetched URL ends up stored. */
  lemma {:induction false} HealthyRunStoresAll(s: DbState, articles: seq<ArticleRecord>, faults: nat -> InsertFaults, k: nat)
    requires k <= |articles| && Ready(s)
    requires forall i :: 0 <= i < k ==> faults(i) == InsertFaults(Healthy, Healthy)
    requires forall i :: 0 <= i < k ==> ParseIsoDate(articles[i].publishedDate).Some?
    ensures var run := InsertRun(s, articles, faults, k);
      Ready(run.state) && run.counts.errors == 0 && Urls(articles, k) <= run.state.table.value.Keys
    decreases k
  {
    if k > 0 {
      HealthyRunStoresAll(s, articles, faults, k - 1);
      var t := InsertRun(s, articles, faults, k - 1);
      var a := articles[k - 1];
      InsertTrueIffRowAdded(t.state, a.publishedDate, a.sourceUrl, a.article, a.attachments, Healthy, Healthy);
      if a.sourceUrl in t.state.table.value {
        DuplicateIsRefused(t.state, a.publishedDate, a.sourceUrl, a.article, a.attachments, Healthy);
      }
    }
  }
}

/**
 * `SanskritiIASSource`: the daily-page URL, the assembly of one article from
 * its container, the per-date page walk and the walk over a window of days.
 * The HTTP fetch is a parameter `fetch` from URL to page; the clock reading
 * `datetime.now()` is a parameter `now`.
 */
module SanskritiSource {
  import opened Wrappers
  import opened Text
  import opened Calendar
  import opened Dom
  import opened Documents
  import SanskritiContent
  import SanskritiFaqs
  import SanskritiMetadata
  import SanskritiImages

  const SourceName := "Sanskriti IAS"
  const BaseUrl := "https://www.sanskritiias.com/current-affairs/date/"

  // ---------------------------------------------------------------------
  // generate_date_url
  // ---------------------------------------------------------------------

  /** `{day}-{month}-{year}`: unpadded day, full English month name, `%Y` year. */
  function DateSlug(d: Date): string
    requires ValidDate(d)
  {
    NatToString(d.day) + "-" + MonthName(d.month) + "-" + YearText(d.year)
  }

  function GenerateDateUrl(d: Date): string
    requires ValidDate(d)
  {
    BaseUrl + DateSlug(d)
  }

  /** Reads a daily-page URL back into its date. */
  function ParseDateUrl(url: string): (r: Option<Date>)
    ensures r.Some? ==> ValidDate(r.value) && StartsWith(url, BaseUrl)
  {
    if !StartsWith(url, BaseUrl) then None
    else
      var parts := Split(url[|BaseUrl|..], '-');
      if |parts| != 3 then None
      else
        match (ParseNat(parts[0]), MonthNumber(parts[1]), ParseNat(parts[2]))
        case (Some(day), Some(month), Some(year)) =>
          var d := Date(year, month, day);
          if ValidDate(d) then Some(d) else None
        case _ => None
  }

  lemma NoDashInNumber(n: nat)
    ensures '-' !in NatToString(n)
  {
    var s := NatToString(n);
    forall i | 0 <= i < |s| ensures s[i] != '-' {
      assert IsDigit(s[i]);
    }
  }

  /** Distinct days have distinct URLs: the URL names its day exactly. */
  lemma DateUrlRoundTrip(d: Date)
    requires ValidDate(d) && d.year >= 0
    ensures ParseDateUrl(GenerateDateUrl(d)) == Some(d)
  {
    var day := NatToString(d.day);
    var month := MonthName(d.month);
    var year := NatToString(d.year);
    var url := GenerateDateUrl(d);
    assert url[..|BaseUrl|] == BaseUrl;
    assert url[|BaseUrl|..] == day + "-" + month + "-" + year;
    NoDashInNumber(d.day);
    NoDashInNumber(d.year);
    MonthNumberOfName(d.month);
    assert day + "-" + month + "-" + year == day + ['-'] + (month + ['-'] + year);
    SplitAtSep(day, '-', month + ['-'] + year);
    SplitAtSep(month, '-', year);
    SplitNoSep(year, '-');
    ParseNatToString(d.day);
    ParseNatToString(d.year);
  }

  /** The URL format quoted in the code: 20 December 2025. */
  lemma DateUrlExample()
    ensures GenerateDateUrl(Date(2025, 12, 20))
         == "https://www.sanskritiias.com/current-affairs/date/20-December-2025"
  {
  }

  // ---------------------------------------------------------------------
  // _extract_article
  // ---------------------------------------------------------------------

  /** What `_extract_article` returns for the nodes of one article container. */
  function ArticleOf(nodes: seq<Node>, d: Date): (r: Option<ArticleRecord>)
    requires ValidDate(d)
    ensures r.Some? ==> r.value.publishedDate == IsoDate(d)
  {
    match FindFirst(nodes, IsH4)
    case None => None
    case Some(i) =>
      match nodes[i].titleLink
      case None => None
      case Some(link) =>
        var title := Strip(link.text);
        if title == [] || link.href == [] then None
        else
          var images := SanskritiImages.Images(nodes);
          var json := ArticleJson(title, SourceName, SanskritiMetadata.MetadataOf(nodes),
                                  SanskritiContent.Content(nodes), SanskritiFaqs.Faqs(nodes), images);
          Some(ArticleRecord(IsoDate(d), link.href, json, if images != [] then Some(Attachments(images)) else None))
  }

  /**
   * The fields of an extracted article: the title link's stripped text as
   * title, its `href` as `source_url`, the source name, the four
   * extractors' results, and attachments exactly when there are images.
   */
  lemma ArticleFields(nodes: seq<Node>, d: Date)
    requires ValidDate(d) && ArticleOf(nodes, d).Some?
    ensures FindFirst(nodes, IsH4).Some? && nodes[FindFirst(nodes, IsH4).value].titleLink.Some?
    ensures var a := ArticleOf(nodes, d).value;
            var link := nodes[FindFirst(nodes, IsH4).value].titleLink.value;
              a.sourceUrl == link.href && a.article.title == Strip(link.text) &&
              a.article.title != [] && IsStripped(a.article.title) && a.sourceUrl != [] &&
              a.article.source == SourceName &&
              a.article.metadata == SanskritiMetadata.MetadataOf(nodes) &&
              a.article.content == SanskritiContent.Content(nodes) &&
              a.article.faqs == SanskritiFaqs.Faqs(nodes) &&
              a.article.images == SanskritiImages.Images(nodes) &&
              (a.attachments.None? <==> a.article.images == []) &&
              (a.attachments.Some? ==> a.attachments.value.images == a.article.images)
  {
  }

  /** An article is produced exactly when the first `h4` has a titled, linked `a.text-danger`. */
  lemma ArticleNeedsTitleLink(nodes: seq<Node>, d: Date)
    requires ValidDate(d)
    ensures ArticleOf(nodes, d).Some? <==>
              var h := FindFirst(nodes, IsH4);
              h.Some? && nodes[h.value].titleLink.Some? &&
              Strip(nodes[h.value].titleLink.value.text) != [] && nodes[h.value].titleLink.value.href != []
  {
  }

  /** `_extract_article`: the title checks, then the four extractors. */
  method ExtractArticle(nodes: seq<Node>, d: Date) returns (r: Option<ArticleRecord>)
    requires ValidDate(d)
    ensures r == ArticleOf(nodes, d)
  {
    var h4 := FindFirst(nodes, IsH4);
    if h4.None? {
      return None;
    }
    var titleLink := nodes[h4.value].titleLink;
    if titleLink.None? {
      return None;
    }
    var title := Strip(titleLink.value.text);
    var articleUrl := titleLink.value.href;
    if title == [] || articleUrl == [] {
      return None;
    }
    var metadata := SanskritiMetadata.ExtractMetadata(nodes);
    var content := SanskritiContent.ExtractContent(nodes);
    var faqs := SanskritiFaqs.ExtractFaqs(nodes);
    var images := SanskritiImages.ExtractImages(nodes);
    var json := ArticleJson(title, SourceName, metadata, content, faqs, images);
    var attachments := if images != [] then Some(Attachments(images)) else None;
    r := Some(ArticleRecord(IsoDate(d), articleUrl, json, attachments));
  }

  // ---------------------------------------------------------------------
  // fetch_articles_for_date
  // ---------------------------------------------------------------------

  /** A `div.blog` container: its nodes, or one whose extraction raises. */
  datatype Container = Div(nodes: seq<Node>) | BrokenDiv

  /** The outcome of fetching and parsing one daily page. */
  datatype Page = FetchFailed | Page(containers: seq<Container>)

  /** The articles of the containers, in page order, skipping failures and `None`s. */
  function ArticlesOf(cs: seq<Container>, d: Date): (r: seq<ArticleRecord>)
    requires ValidDate(d)
    ensures |r| <= |cs|
    ensures forall j :: 0 <= j < |r| ==> r[j].publishedDate == IsoDate(d)
    decreases |cs|
  {
    if cs == [] then []
    else
      var c := cs[|cs| - 1];
      var tail := if c.Div? && ArticleOf(c.nodes, d).Some? then [ArticleOf(c.nodes, d).value] else [];
      ArticlesOf(cs[..|cs| - 1], d) + tail
  }

  /** One more container adds its article, if any, at the end. */
  lemma ArticlesOfStep(cs: seq<Container>, d: Date, k: nat)
    requires ValidDate(d) && k < |cs|
    ensures ArticlesOf(cs[..k + 1], d)
         == ArticlesOf(cs[..k], d) + (if cs[k].Div? && ArticleOf(cs[k].nodes, d).Some? then [ArticleOf(cs[k].nodes, d).value] else [])
  {
    assert cs[..k + 1][..k] == cs[..k];
  }

  /** The articles of two runs of containers are those of each, in page order. */
  lemma {:induction false} ArticlesOfConcat(a: seq<Container>, b: seq<Container>, d: Date)
    requires ValidDate(d)
    ensures ArticlesOf(a + b, d) == ArticlesOf(a, d) + ArticlesOf(b, d)
    decreases |b|
  {
    if b == [] {
      assert a + b == a;
    } else {
      ArticlesOfConcat(a, b[..|b| - 1], d);
      ArticlesOfConcatStep(a, b, d);
    }
  }

  /** The step of `ArticlesOfConcat`, given the claim for all of `b` but its last container. */
  lemma ArticlesOfConcatStep(a: seq<Container>, b: seq<Container>, d: Date)
    requires ValidDate(d) && b != []
    requires ArticlesOf(a + b[..|b| - 1], d) == ArticlesOf(a, d) + ArticlesOf(b[..|b| - 1], d)
    ensures ArticlesOf(a + b, d) == ArticlesOf(a, d) + ArticlesOf(b, d)
  {
    var c := b[|b| - 1];
    var tail := if c.Div? && ArticleOf(c.nodes, d).Some? then [ArticleOf(c.nodes, d).value] else [];
    InitConcat(a, b);
    assert ArticlesOf(a + b, d) == ArticlesOf(a + b[..|b| - 1], d) + tail;
    assert ArticlesOf(b, d) == ArticlesOf(b[..|b| - 1], d) + tail;
    ConcatAssoc(ArticlesOf(a, d), ArticlesOf(b[..|b| - 1], d), tail);
  }

  /**
   * Container `k` contributes its article exactly when it is a `div` whose
   * article parses, between the articles of the containers before and
   * after it.
   */
  lemma ArticlesOfAt(cs: seq<Container>, d: Date, k: int)
    requires ValidDate(d) && 0 <= k < |cs|
    ensures ArticlesOf(cs, d)
            == ArticlesOf(cs[..k], d)
               + (if cs[k].Div? && ArticleOf(cs[k].nodes, d).Some? then [ArticleOf(cs[k].nodes, d).value] else [])
               + ArticlesOf(cs[k + 1..], d)
  {
    var before, x, after := cs[..k], cs[k], cs[k + 1..];
    SplitAround(cs, k);
    ArticlesOfConcat(before + [x], after, d);
    ArticlesOfConcat(before, [x], d);
    assert [x][..0] == [];
  }

  /** What `fetch_articles_for_date` returns: nothing when the page cannot be fetched. */
  function ArticlesForDate(fetch: string -> Page, d: Date): seq<ArticleRecord>
    requires ValidDate(d)
  {
    match fetch(GenerateDateUrl(d))
    case FetchFailed => []
    case Page(cs) => ArticlesOf(cs, d)
  }

  method FetchArticlesForDate(fetch: string -> Page, d: Date) returns (articles: seq<ArticleRecord>)
    requires ValidDate(d)
    ensures articles == ArticlesForDate(fetch, d)
  {
    var url := GenerateDateUrl(d);
    var page := fetch(url);
    if page.FetchFailed? || page.containers == [] {
      return [];
    }
    var divs := page.containers;
    articles := [];
    var k := 0;
    while k < |divs|
      invariant 0 <= k <= |divs|
      invariant articles == ArticlesOf(divs[..k], d)
    {
      ArticlesOfStep(divs, d, k);
      if divs[k].Div? {
        var data := ExtractArticle(divs[k].nodes, d);
        if data.Some? {
          articles := articles + [data.value];
        }
      }
      k := k + 1;
    }
    assert divs[..|divs|] == divs;
  }

  // ---------------------------------------------------------------------
  // fetch_articles
  // ---------------------------------------------------------------------

  /** The number of days visited: `days_back + 1`, or none when `days_back` is negative. */
  function WindowLength(daysBack: int): nat {
    if daysBack >= 0 then daysBack + 1 else 0
  }

  /** `fetch_articles_for_date` as one function of the day. */
  function DayArticles(fetch: string -> Page): Date -> seq<ArticleRecord> {
    d => if ValidDate(d) then ArticlesForDate(fetch, d) else []
  }

  /** The results of `perDay` for the `n` days from `d` on, one day after another. */
  function OverDays(perDay: Date -> seq<ArticleRecord>, d: Date, n: nat): seq<ArticleRecord>
    requires ValidDate(d)
  {
    if n == 0 then [] else OverDays(perDay, d, n - 1) + perDay(DayAfter(d, n - 1))
  }

  /** What `fetch_articles` returns: every day from `now - days_back` to `now` in turn. */
  function ArticlesOverWindow(fetch: string -> Page, now: Date, daysBack: int): seq<ArticleRecord>
    requires ValidDate(now)
  {
    OverDays(DayArticles(fetch), Shift(now, -daysBack), WindowLength(daysBack))
  }

  /**
   * The loop test `current_date <= end_date` holds on the `k`-th day after
   * `now - days_back` exactly while `k` is inside the window.
   */
  lemma WindowGuard(now: Date, daysBack: int, k: nat)
    requires ValidDate(now) && k <= WindowLength(daysBack)
    ensures DateLe(DayAfter(Shift(now, -daysBack), k), now) <==> k < WindowLength(daysBack)
  {
    var start := Shift(now, -daysBack);
    DayAfterIsShift(start, k);
    DateLeIsOrdinalLe(DayAfter(start, k), now);
  }

  /** `fetch_articles`: one daily page per day of the window, results concatenated. */
  method FetchArticles(fetch: string -> Page, now: Date, daysBack: int) returns (all: seq<ArticleRecord>)
    requires ValidDate(now)
    ensures all == ArticlesOverWindow(fetch, now, daysBack)
  {
    all := [];
    var current := Shift(now, -daysBack);
    ghost var start := current;
    ghost var n := WindowLength(daysBack);
    ghost var k := 0;
    WindowGuard(now, daysBack, k);
    while DateLe(current, now)
      invariant 0 <= k <= n && current == DayAfter(start, k)
      invariant all == OverDays(DayArticles(fetch), start, k)
      invariant DateLe(current, now) <==> k < n
      decreases n - k
    {
      var articles := FetchArticlesForDate(fetch, current);
      all := all + articles;
      current := NextDay(current);
      k := k + 1;
      WindowGuard(now, daysBack, k);
    }
  }

  /** The days of the window run from `now - days_back` to `now`, one per day. */
  lemma WindowDays(now: Date, daysBack: int, j: nat)
    requires ValidDate(now) && j < WindowLength(daysBack)
    ensures Ordinal(DayAfter(Shift(now, -daysBack), j)) == Ordinal(now) - daysBack + j <= Ordinal(now)
  {
    DayAfterIsShift(Shift(now, -daysBack), j);
  }

  /** Every article of one daily page carries that day's ISO date. */
  lemma DayArticlesDated(fetch: string -> Page, d: Date)
    requires ValidDate(d)
    ensures forall a :: a in ArticlesForDate(fetch, d) ==> a.publishedDate == IsoDate(d)
  {
    match fetch(GenerateDateUrl(d))
    case FetchFailed =>
    case Page(cs) =>
      var r := ArticlesOf(cs, d);
      assert forall i :: 0 <= i < |r| ==> r[i].publishedDate == IsoDate(d);
  }

  /** The ISO date of a day; the window only ever holds valid days. */
  function DayLabel(e: Date): string {
    if ValidDate(e) then IsoDate(e) else ""
  }

  /** `label` of each of the `n` days from `d` on. */
  function LabelsOver(tag: Date -> string, d: Date, n: nat): (r: seq<string>)
    requires ValidDate(d)
    ensures |r| == n
  {
    if n == 0 then [] else LabelsOver(tag, d, n - 1) + [tag(DayAfter(d, n - 1))]
  }

  /** When each day's results carry that day's label, so do the results over `n` days. */
  lemma {:induction false} OverDaysLabelled(perDay: Date -> seq<ArticleRecord>, tag: Date -> string, d: Date, n: nat)
    requires ValidDate(d)
    requires forall e, a :: ValidDate(e) && a in perDay(e) ==> a.publishedDate == tag(e)
    ensures forall a :: a in OverDays(perDay, d, n) ==> a.publishedDate in LabelsOver(tag, d, n)
  {
    if n > 0 {
      var earlier := OverDays(perDay, d, n - 1);
      var e := DayAfter(d, n - 1);
      var labels := LabelsOver(tag, d, n);
      OverDaysLabelled(perDay, tag, d, n - 1);
      forall a | a in OverDays(perDay, d, n)
        ensures a.publishedDate in labels
      {
        if a in earlier {
          assert a.publishedDate in LabelsOver(tag, d, n - 1);
        } else {
          assert a in perDay(e);
          assert labels[n - 1] == tag(e);
        }
      }
    }
  }

  /** Every article fetched over the window carries the ISO date of one of its days. */
  lemma ArticlesCarryWindowDates(fetch: string -> Page, now: Date, daysBack: int)
    requires ValidDate(now)
    ensures forall a :: a in ArticlesOverWindow(fetch, now, daysBack) ==>
              a.publishedDate in LabelsOver(DayLabel, Shift(now, -daysBack), WindowLength(daysBack))
  {
    forall e, a | ValidDate(e) && a in DayArticles(fetch)(e)
      ensures a.publishedDate == DayLabel(e)
    {
      DayArticlesDated(fetch, e);
    }
    OverDaysLabelled(DayArticles(fetch), DayLabel, Shift(now, -daysBack), WindowLength(daysBack));
  }
}

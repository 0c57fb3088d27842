/** The scrape-and-save runs: `scrape_ksat` with `scrape_and_save_ksat_news`
    (scrapping/new_scrapping.py) and `scrape_and_save_local_news`
    (scrapping/scrape_local_news.py). One `LinkCrawler` holds the run's shared
    `visited` set. */
module Ingest {
  import opened Wrappers
  import opened Site
  import opened LinkRules
  import opened Crawl
  import opened Nav
  import opened Extract
  import opened Sentiment
  import opened NewsDb

  // ---------------------------------------------------------------------------
  // Scraping the article pages

  /** The values of those calls of `page` on `links` that gave one, in order. */
  function Collect<A, B>(page: A -> Option<B>, links: seq<A>): (r: seq<B>)
    ensures |r| <= |links|
  {
    if links == [] then []
    else
      var rest := Collect(page, links[..|links| - 1]);
      match page(links[|links| - 1])
      case None => rest
      case Some(x) => rest + [x]
  }

  /** A value is collected exactly when some link's call gives it. */
  lemma {:induction false} CollectFrom<A, B>(page: A -> Option<B>, links: seq<A>, x: B)
    ensures x in Collect(page, links) <==> exists k :: 0 <= k < |links| && page(links[k]) == Some(x)
  {
    if links != [] {
      var n := |links| - 1;
      var init := links[..n];
      var rest := Collect(page, init);
      var last := page(links[n]);
      assert Collect(page, links) == if last.Some? then rest + [last.value] else rest;
      CollectFrom(page, init, x);
      if x in Collect(page, links) {
        if x in rest {
          var k :| 0 <= k < n && page(init[k]) == Some(x);
          assert init[k] == links[k];
        } else {
          assert last == Some(x);
        }
      }
      if k :| 0 <= k < |links| && page(links[k]) == Some(x) {
        if k < n {
          assert init[k] == links[k];
          assert x in rest;
        } else {
          assert last == Some(x);
        }
      }
    }
  }

  /** The page of one article link. */
  function ScrapeLink(site: SiteMap, category: string): ArticleLink -> Option<ArticleRecord> {
    (l: ArticleLink) => ScrapeArticle(site, l.url, category, l.relativeTime)
  }

  /** The records of a list of article links, in link order; a page that gives no
      record is skipped. */
  function ScrapeAll(site: SiteMap, links: seq<ArticleLink>, category: string): (r: seq<ArticleRecord>)
    ensures |r| <= |links|
    ensures forall x :: x in r ==> x.category == category
  {
    var r := Collect(ScrapeLink(site, category), links);
    assert forall x :: x in r ==> x.category == category by {
      forall x | x in r ensures x.category == category {
        CollectFrom(ScrapeLink(site, category), links, x);
      }
    }
    r
  }

  /** A record is in the result exactly when some link's page gives it. */
  lemma ScrapeAllFrom(site: SiteMap, links: seq<ArticleLink>, category: string, x: ArticleRecord)
    ensures x in ScrapeAll(site, links, category)
      <==> exists k :: 0 <= k < |links| && ScrapeArticle(site, links[k].url, category, links[k].relativeTime) == Some(x)
  {
    CollectFrom(ScrapeLink(site, category), links, x);
  }

  /** One pass of the category loop: crawl from the category URL with the shared
      `visited` set, then scrape its article links; a crawl that raises gives no
      record. */
  method ScrapeCategory(crawler: LinkCrawler, name: string, url: Url) returns (own: seq<ArticleRecord>)
    modifies crawler
    ensures var c := Discover(crawler.variant, crawler.site, url, old(crawler.visited));
      && own == (if c.links.Ok? then ScrapeAll(crawler.site, c.links.value, name) else [])
      && crawler.visited == c.visited
      && crawler.navigated == old(crawler.navigated) + c.navigated
  {
    var articleLinks := crawler.GetArticleLinks(url);
    own := [];
    if articleLinks.Ok? {
      own := ScrapeLinks(crawler.site, articleLinks.value, name);
    }
  }

  /** The loop over one category's links. */
  method ScrapeLinks(site: SiteMap, links: seq<ArticleLink>, category: string) returns (records: seq<ArticleRecord>)
    ensures records == ScrapeAll(site, links, category)
  {
    records := [];
    var i := 0;
    while i < |links|
      invariant 0 <= i <= |links|
      invariant records == ScrapeAll(site, links[..i], category)
    {
      assert links[..i + 1][..i] == links[..i];
      var data := ScrapeArticle(site, links[i].url, category, links[i].relativeTime);
      if data.Some? {
        records := records + [data.value];
      }
      i := i + 1;
    }
    assert links[..|links|] == links;
  }

  // ---------------------------------------------------------------------------
  // scrape_ksat

  /** The outcome of the category loop: the records, the shared `visited` set after
      it, and every listing URL navigated to. */
  datatype Run = Run(records: seq<ArticleRecord>, visited: set<Url>, navigated: seq<Url>)

  /** The categories in dict order, each crawled with the `visited` set the previous
      one left; a category whose crawl raises contributes no record, and the next
      category still runs. */
  function RunCategories(site: SiteMap, cats: Entries, visited: set<Url>): (r: Run)
    ensures visited <= r.visited
    ensures forall x :: x in r.records ==> x.category in Keys(cats)
  {
    if cats == [] then Run([], visited, [])
    else
      var c := Discover(General, site, cats[0].1, visited);
      var own := if c.links.Ok? then ScrapeAll(site, c.links.value, cats[0].0) else [];
      var rest := RunCategories(site, cats[1..], c.visited);
      assert forall k :: k in Keys(cats[1..]) ==> k in Keys(cats) by {
        forall k | k in Keys(cats[1..]) ensures k in Keys(cats) {
          var i :| 0 <= i < |cats[1..]| && Keys(cats[1..])[i] == k;
          assert Keys(cats)[i + 1] == k;
        }
      }
      assert Keys(cats)[0] == cats[0].0;
      Run(own + rest.records, rest.visited, c.navigated + rest.navigated)
  }

  /** One pass of the category loop keeps the loop's invariant. */
  lemma CategoryStep(site: SiteMap, cats: Entries, i: nat, before: set<Url>, allData: seq<ArticleRecord>,
                     gatheredNav: seq<Url>, own: seq<ArticleRecord>, whole: Run)
    requires i < |cats|
    requires whole == Prepend(allData, gatheredNav, RunCategories(site, cats[i..], before))
    requires var c := Discover(General, site, cats[i].1, before);
      own == if c.links.Ok? then ScrapeAll(site, c.links.value, cats[i].0) else []
    ensures var c := Discover(General, site, cats[i].1, before);
      whole == Prepend(allData + own, gatheredNav + c.navigated, RunCategories(site, cats[i + 1..], c.visited))
  {
    var c := Discover(General, site, cats[i].1, before);
    assert cats[i..][0] == cats[i] && cats[i..][1..] == cats[i + 1..];
    RunCategoriesStep(site, cats[i..], before);
    PrependPrepend(allData, gatheredNav, own, c.navigated, RunCategories(site, cats[i + 1..], c.visited));
  }

  /** One category off the front of the loop. */
  lemma RunCategoriesStep(site: SiteMap, cats: Entries, visited: set<Url>)
    requires cats != []
    ensures var c := Discover(General, site, cats[0].1, visited);
      var own := if c.links.Ok? then ScrapeAll(site, c.links.value, cats[0].0) else [];
      RunCategories(site, cats, visited) == Prepend(own, c.navigated, RunCategories(site, cats[1..], c.visited))
  {
  }

  function Prepend(records: seq<ArticleRecord>, navigated: seq<Url>, r: Run): Run {
    Run(records + r.records, r.visited, navigated + r.navigated)
  }

  lemma PrependEmpty(r: Run)
    ensures Prepend([], [], r) == r
  {
    assert [] + r.records == r.records && [] + r.navigated == r.navigated;
  }

  lemma PrependPrepend(a: seq<ArticleRecord>, an: seq<Url>, b: seq<ArticleRecord>, bn: seq<Url>, r: Run)
    ensures Prepend(a, an, Prepend(b, bn, r)) == Prepend(a + b, an + bn, r)
  {
    assert a + (b + r.records) == (a + b) + r.records;
    assert an + (bn + r.navigated) == (an + bn) + r.navigated;
  }

  /** The categories `get_nav_links` yields for the home page. */
  function HomeCategories(site: SiteMap): Entries
    requires BASE_URL in site
  {
    match site[BASE_URL].nav
    case None => []
    case Some(anchors) => NavLinks(anchors)
  }

  /** `scrape_ksat()`: a home page that does not load raises out of the run;
      otherwise the records of every category, crawled with one shared `visited`
      set. */
  method ScrapeKsat(site: SiteMap) returns (r: Result<seq<ArticleRecord>, CrawlError>)
    ensures BASE_URL !in site ==> r == Err(FetchFailed(BASE_URL))
    ensures BASE_URL in site ==> r == Ok(RunCategories(site, HomeCategories(site), {}).records)
  {
    var navLinks := GetNavLinks(site);
    if navLinks.Err? {
      return Err(navLinks.error);
    }
    var crawler := new LinkCrawler(site, General);
    var allData := CategoryLoop(crawler, navLinks.value);
    r := Ok(allData);
  }

  /** The loop of `scrape_ksat` over the categories, with the crawler's shared
      `visited` set. */
  method CategoryLoop(crawler: LinkCrawler, cats: Entries) returns (allData: seq<ArticleRecord>)
    requires crawler.variant == General
    modifies crawler
    ensures var run := RunCategories(crawler.site, cats, old(crawler.visited));
      && allData == run.records
      && crawler.visited == run.visited
      && crawler.navigated == old(crawler.navigated) + run.navigated
  {
    var site := crawler.site;
    allData := [];
    ghost var nav0 := crawler.navigated;
    ghost var gatheredNav: seq<Url> := [];
    ghost var whole := RunCategories(site, cats, crawler.visited);
    assert cats[0..] == cats;
    PrependEmpty(whole);
    var i := 0;
    while i < |cats|
      invariant 0 <= i <= |cats|
      invariant crawler.navigated == nav0 + gatheredNav
      invariant whole == Prepend(allData, gatheredNav, RunCategories(site, cats[i..], crawler.visited))
    {
      ghost var before := crawler.visited;
      var own := ScrapeCategory(crawler, cats[i].0, cats[i].1);
      ghost var c := Discover(General, site, cats[i].1, before);
      CategoryStep(site, cats, i, before, allData, gatheredNav, own, whole);
      ConcatAssoc(nav0, gatheredNav, c.navigated);
      allData := allData + own;
      gatheredNav := gatheredNav + c.navigated;
      i := i + 1;
    }
    assert cats[i..] == [];
    assert allData + [] == allData;
    assert gatheredNav + [] == gatheredNav;
  }

  /** Across a whole run no listing URL is navigated to twice: the shared `visited`
      set grows by exactly the URLs navigated to, each once. */
  lemma {:induction false} RunNavigatesOnce(site: SiteMap, cats: Entries, visited: set<Url>)
    ensures var r := RunCategories(site, cats, visited);
      Frugal(visited, Discovery(Ok([]), r.visited, r.navigated))
  {
    if cats != [] {
      var c := Discover(General, site, cats[0].1, visited);
      var rest := RunCategories(site, cats[1..], c.visited);
      DiscoverFrugal(General, site, cats[0].1, visited);
      RunNavigatesOnce(site, cats[1..], c.visited);
      var t := Discovery(Ok([]), rest.visited, rest.navigated);
      FrugalGlue(visited, c, [], t);
      assert Glue([], c.navigated, t).navigated == c.navigated + rest.navigated;
    }
  }

  /** Every record of a run is in one of the target categories. */
  lemma KsatCategories(site: SiteMap)
    requires BASE_URL in site
    ensures forall x :: x in RunCategories(site, HomeCategories(site), {}).records ==>
      x.category in TARGET_CATEGORIES
  {
    if site[BASE_URL].nav.Some? {
      NavLinksKeys(site[BASE_URL].nav.value);
    }
  }

  // ---------------------------------------------------------------------------
  // Saving

  /** A record and the `defaults` it is saved with. */
  type Item = (string, Defaults)

  /** The table after `get_or_create` of each item in turn; an item whose save
      raises leaves the table as it was, and the loop goes on. */
  ghost function SaveRows(rows: map<NewsId, News>, nextId: NewsId, items: seq<Item>): (map<NewsId, News>, NewsId)
    decreases |items|
  {
    if items == [] then (rows, nextId)
    else
      var s := AfterGetOrCreate(rows, nextId, items[0].0, items[0].1);
      SaveRows(s.0, s.1, items[1..])
  }

  function KsatDefaults(x: ArticleRecord): Defaults {
    Defaults(x.description, x.category, x.relativeTime, x.publishedDatetime, x.image, None)
  }

  /** The general feed saves no sentiment. */
  function KsatItems(records: seq<ArticleRecord>): (r: seq<Item>)
    ensures |r| == |records|
    ensures forall i :: 0 <= i < |r| ==> r[i] == (records[i].headline, KsatDefaults(records[i]))
  {
    if records == [] then [] else [(records[0].headline, KsatDefaults(records[0]))] + KsatItems(records[1..])
  }

  /** `scrape_and_save_ksat_news()`: the scrape, then the save loop over its records. */
  method ScrapeAndSaveKsat(site: SiteMap, db: NewsTable) returns (r: Result<(), CrawlError>)
    requires db.Valid()
    modifies db
    ensures db.Valid()
    ensures db.reactions == old(db.reactions)
    ensures BASE_URL !in site ==> r == Err(FetchFailed(BASE_URL)) && db.rows == old(db.rows) && db.nextId == old(db.nextId)
    ensures BASE_URL in site ==> r == Ok(()) && (db.rows, db.nextId) == KsatSave(old(db.rows), old(db.nextId), site)
  {
    var scraped := ScrapeKsat(site);
    if scraped.Err? {
      return Err(scraped.error);
    }
    var records := scraped.value;
    assert KsatSave(db.rows, db.nextId, site) == SaveRows(db.rows, db.nextId, KsatItems(records));
    var i := 0;
    assert records[0..] == records;
    while i < |records|
      invariant 0 <= i <= |records|
      invariant db.Valid()
      invariant db.reactions == old(db.reactions)
      invariant SaveRows(old(db.rows), old(db.nextId), KsatItems(records))
        == SaveRows(db.rows, db.nextId, KsatItems(records[i..]))
    {
      var x := records[i];
      assert records[i..][1..] == records[i + 1..];
      assert KsatItems(records[i..]) == [(x.headline, KsatDefaults(x))] + KsatItems(records[i + 1..]);
      var saved := db.GetOrCreateNews(x.headline, KsatDefaults(x));
      i := i + 1;
    }
    r := Ok(());
  }

  /** The table after `scrape_and_save_ksat_news`, when the home page loads. */
  ghost function KsatSave(rows: map<NewsId, News>, nextId: NewsId, site: SiteMap): (map<NewsId, News>, NewsId)
    requires BASE_URL in site
  {
    SaveRows(rows, nextId, KsatItems(RunCategories(site, HomeCategories(site), {}).records))
  }

  /** The table after `scrape_and_save_local_news`. */
  ghost function LocalSave(rows: map<NewsId, News>, nextId: NewsId, site: SiteMap, oracle: Oracle): (map<NewsId, News>, NewsId) {
    SaveRows(rows, nextId, LocalItems(LocalRecords(site), oracle))
  }

  const CATEGORY_NAME := "Local"
  const CATEGORY_URL: Url := BASE_URL + "/news/local/"

  /** The badge a local record is saved with: the label's name, or NULL when the
      analysis gave `None`. */
  function Badge(x: ArticleRecord, oracle: Oracle): (r: Option<string>)
    ensures r.Some? ==> r.value in {"positive", "negative", "neutral"}
  {
    match AnalyzeNewsItemSentiment(Dict(Some(x.headline), Some(x.description)), oracle).verdict
    case None => None
    case Some(l) => Some(Name(l))
  }

  /** A record with neither headline nor description is badged "neutral" without a
      call; otherwise the badge is the name of the mapped reply to the text sent, and
      NULL exactly when that call fails. */
  lemma BadgeFollowsReply(x: ArticleRecord, oracle: Oracle)
    ensures x.headline == "" && x.description == "" ==> Badge(x, oracle) == Some("neutral")
    ensures x.headline != "" || x.description != "" ==>
      var reply := oracle(Prompt(x.headline, x.description));
      && (Badge(x, oracle).None? <==> reply.Fail?)
      && (reply.Content? ==> Badge(x, oracle) == Some(Name(MapReply(reply.text))))
  {
    if x.headline != "" || x.description != "" {
      AnalyzeVerdict(x.headline, x.description, oracle);
    }
  }

  function LocalDefaults(x: ArticleRecord, oracle: Oracle): Defaults {
    Defaults(x.description, x.category, x.relativeTime, x.publishedDatetime, x.image, Badge(x, oracle))
  }

  function LocalItems(records: seq<ArticleRecord>, oracle: Oracle): (r: seq<Item>)
    ensures |r| == |records|
    ensures forall i :: 0 <= i < |r| ==> r[i] == (records[i].headline, LocalDefaults(records[i], oracle))
  {
    if records == [] then [] else [(records[0].headline, LocalDefaults(records[0], oracle))] + LocalItems(records[1..], oracle)
  }

  /** The records of the local run: the crawl from the fixed local listing, and none
      at all when the crawl raises. */
  function LocalRecords(site: SiteMap): (r: seq<ArticleRecord>)
    ensures forall x :: x in r ==> x.category == CATEGORY_NAME
  {
    var c := Discover(Local, site, CATEGORY_URL, {});
    if c.links.Ok? then ScrapeAll(site, c.links.value, CATEGORY_NAME) else []
  }

  /** The scraping half of `scrape_and_save_local_news()`: a crawl that raises
      leaves no record. */
  method ScrapeLocal(site: SiteMap) returns (allData: seq<ArticleRecord>)
    ensures allData == LocalRecords(site)
  {
    var crawler := new LinkCrawler(site, Local);
    allData := ScrapeCategory(crawler, CATEGORY_NAME, CATEGORY_URL);
  }

  /** `scrape_and_save_local_news()`: nothing in it raises past its own handlers. */
  method ScrapeAndSaveLocal(site: SiteMap, db: NewsTable, oracle: Oracle)
    requires db.Valid()
    modifies db
    ensures db.Valid()
    ensures db.reactions == old(db.reactions)
    ensures (db.rows, db.nextId) == LocalSave(old(db.rows), old(db.nextId), site, oracle)
  {
    var allData := ScrapeLocal(site);
    SaveLocalRecords(db, allData, oracle);
  }

  /** The save loop of `scrape_and_save_local_news()`: the sentiment of each record,
      then `get_or_create` with it as the badge. */
  method SaveLocalRecords(db: NewsTable, allData: seq<ArticleRecord>, oracle: Oracle)
    requires db.Valid()
    modifies db
    ensures db.Valid()
    ensures db.reactions == old(db.reactions)
    ensures (db.rows, db.nextId) == SaveRows(old(db.rows), old(db.nextId), LocalItems(allData, oracle))
  {
    var i := 0;
    assert allData[0..] == allData;
    while i < |allData|
      invariant 0 <= i <= |allData|
      invariant db.Valid()
      invariant db.reactions == old(db.reactions)
      invariant SaveRows(old(db.rows), old(db.nextId), LocalItems(allData, oracle))
        == SaveRows(db.rows, db.nextId, LocalItems(allData[i..], oracle))
    {
      var x := allData[i];
      var sentiment := AnalyzeNewsItemSentiment(Dict(Some(x.headline), Some(x.description)), oracle);
      var badge := if sentiment.verdict.Some? then Some(Name(sentiment.verdict.value)) else None;
      var defaults := Defaults(x.description, x.category, x.relativeTime, x.publishedDatetime, x.image, badge);
      assert defaults == LocalDefaults(x, oracle);
      assert allData[i..][1..] == allData[i + 1..];
      assert LocalItems(allData[i..], oracle) == [(x.headline, defaults)] + LocalItems(allData[i + 1..], oracle);
      var saved := db.GetOrCreateNews(x.headline, defaults);
      i := i + 1;
    }
  }

  // ---------------------------------------------------------------------------
  // First write wins

  ghost predicate KeysBelow(rows: map<NewsId, News>, nextId: NewsId) {
    forall id :: id in rows ==> id < nextId
  }

  /** Saving never changes a row that was already there: a repeated headline keeps
      its first row, whatever the later item carries. */
  lemma {:induction false} SaveKeepsRows(rows: map<NewsId, News>, nextId: NewsId, items: seq<Item>)
    requires KeysBelow(rows, nextId)
    decreases |items|
    ensures var s := SaveRows(rows, nextId, items);
      KeysBelow(s.0, s.1) && forall id :: id in rows ==> id in s.0 && s.0[id] == rows[id]
  {
    if items != [] {
      var s := AfterGetOrCreate(rows, nextId, items[0].0, items[0].1);
      SaveKeepsRows(s.0, s.1, items[1..]);
    }
  }

  /** Once a title matches exactly one row, later saves keep it that way. */
  lemma {:induction false} SaveKeepsMatch(rows: map<NewsId, News>, nextId: NewsId, items: seq<Item>, title: string, id: NewsId)
    requires KeysBelow(rows, nextId) && MatchTitle(rows, title) == One(id)
    decreases |items|
    ensures MatchTitle(SaveRows(rows, nextId, items).0, title) == One(id)
  {
    if items != [] {
      var s := AfterGetOrCreate(rows, nextId, items[0].0, items[0].1);
      if s.0 != rows {
        InsertOtherTitle(rows, nextId, title, NewRow(items[0].0, items[0].1));
      }
      SaveKeepsMatch(s.0, s.1, items[1..], title, id);
    }
  }

  /** The first item carrying a title the table did not have creates its row, and
      that row (with that item's description, image, badge ...) is the one the title
      finds after the whole loop. */
  lemma {:induction false} SaveFirstWins(rows: map<NewsId, News>, nextId: NewsId, items: seq<Item>, k: nat)
    requires KeysBelow(rows, nextId)
    requires k < |items| && MatchTitle(rows, items[k].0).Missing?
    requires forall j :: 0 <= j < k ==> items[j].0 != items[k].0
    requires FitsColumns(NewRow(items[k].0, items[k].1))
    decreases |items|
    ensures var s := SaveRows(rows, nextId, items);
      var m := MatchTitle(s.0, items[k].0);
      m.One? && s.0[m.id] == NewRow(items[k].0, items[k].1)
  {
    var s := AfterGetOrCreate(rows, nextId, items[0].0, items[0].1);
    var title := items[k].0;
    if k == 0 {
      InsertedIsFound(rows, nextId, title, NewRow(title, items[0].1));
      SaveKeepsMatch(s.0, s.1, items[1..], title, nextId);
      SaveKeepsRows(s.0, s.1, items[1..]);
    } else {
      if s.0 != rows {
        InsertOtherTitle(rows, nextId, title, NewRow(items[0].0, items[0].1));
      }
      assert items[1..][k - 1] == items[k];
      forall j | 0 <= j < k - 1 ensures items[1..][j].0 != items[1..][k - 1].0 {
        assert items[1..][j] == items[j + 1];
      }
      SaveFirstWins(s.0, s.1, items[1..], k - 1);
    }
  }
}

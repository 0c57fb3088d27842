/** Recursive link discovery, `get_article_links`, in both variants. The shared
    `visited` set is the crawler's state; `Discover` is the specification the crawler
    method is proved against, and the lemmas below state what it guarantees. */
module Crawl {
  import opened Wrappers
  import opened Text
  import opened Site
  import opened LinkRules
  import opened FirstSeen
  import opened Sets

  predicate NoDuplicates<T(==)>(s: seq<T>) {
    forall i, j :: 0 <= i < j < |s| ==> s[i] != s[j]
  }

  function Elements<T>(s: seq<T>): set<T> {
    set x | x in s
  }

  lemma DiffShrinks<T>(k: set<T>, a: set<T>, b: set<T>)
    requires a <= b
    ensures |k - b| <= |k - a|
  {
    SubsetCard(k - b, k - a);
  }

  lemma DiffDrops<T>(k: set<T>, a: set<T>, x: T)
    requires x in k && x !in a
    ensures |k - (a + {x})| < |k - a|
  {
    assert k - (a + {x}) == (k - a) - {x};
  }

  /** The outcome of one call: what it returns (or raises), the `visited` set after
      it, and every listing URL it navigated to, in order. */
  datatype Discovery = Discovery(links: Result<seq<ArticleLink>, CrawlError>, visited: set<Url>, navigated: seq<Url>)

  /** The guarantees every call keeps: `visited` only grows, by exactly the URLs
      navigated to, and no URL is navigated to twice or after it was visited. */
  ghost predicate Frugal(visited: set<Url>, c: Discovery) {
    && c.visited == visited + Elements(c.navigated)
    && NoDuplicates(c.navigated)
    && (forall u :: u in c.navigated ==> u !in visited)
  }

  /** `get_article_links(page, url, visited)`. */
  function Discover(v: Variant, site: SiteMap, url: Url, visited: set<Url>): (c: Discovery)
    decreases |site.Keys - visited|, 0, 0
    ensures visited <= c.visited
    ensures url in visited ==> c == Discovery(Ok([]), visited, [])
    ensures url !in visited ==> c.navigated != [] && c.navigated[0] == url
  {
    if url in visited then Discovery(Ok([]), visited, [])
    else
      var v1 := visited + {url};
      match Fetch(site, url)
      case None => Discovery(Err(FetchFailed(url)), v1, [url])
      case Some(page) =>
        match ScanSpans(v, url, v1, page.timeSpans)
        case Err(e) => Discovery(Err(e), v1, [url])
        case Ok(sc) =>
          DiffDrops(site.Keys, visited, url);
          Assemble(url, sc.articles, DiscoverAll(v, site, sc.subcategories, v1))
  }

  /** The outcome of a listing page that scanned: its own article links followed by
      the subcategories' links, de-duplicated, unless a subcategory raised. */
  function Assemble(url: Url, own: seq<ArticleLink>, rest: Discovery): Discovery {
    var links := match rest.links
      case Err(e) => Err(e)
      case Ok(sub) => Ok(Dedup(own + sub));
    Discovery(links, rest.visited, [url] + rest.navigated)
  }

  /** The loop over the subcategory URLs: each is crawled with the `visited` set the
      previous one left behind, and the first one that raises ends the loop. */
  function DiscoverAll(v: Variant, site: SiteMap, subs: seq<Url>, visited: set<Url>): (c: Discovery)
    decreases |site.Keys - visited|, 1, |subs|
    ensures visited <= c.visited
  {
    if subs == [] then Discovery(Ok([]), visited, [])
    else
      var h := Discover(v, site, subs[0], visited);
      match h.links
      case Err(_) => h
      case Ok(hl) =>
        DiffShrinks(site.Keys, visited, h.visited);
        var t := DiscoverAll(v, site, subs[1..], h.visited);
        Glue(hl, h.navigated, t)
  }

  /** Put the links and navigations of earlier steps in front of a later outcome. */
  function Glue(links: seq<ArticleLink>, navigated: seq<Url>, c: Discovery): Discovery {
    Discovery(match c.links case Err(e) => Err(e) case Ok(l) => Ok(links + l), c.visited, navigated + c.navigated)
  }

  lemma FrugalCons(visited: set<Url>, url: Url, own: seq<ArticleLink>, rest: Discovery)
    requires url !in visited && Frugal(visited + {url}, rest)
    ensures Frugal(visited, Assemble(url, own, rest))
  {
    var n := [url] + rest.navigated;
    assert Elements(n) == {url} + Elements(rest.navigated);
    forall i, j | 0 <= i < j < |n| ensures n[i] != n[j] {
      if i == 0 {
        assert n[j] == rest.navigated[j - 1];
      } else {
        assert n[i] == rest.navigated[i - 1] && n[j] == rest.navigated[j - 1];
      }
    }
  }

  lemma FrugalGlue(visited: set<Url>, h: Discovery, links: seq<ArticleLink>, t: Discovery)
    requires Frugal(visited, h) && Frugal(h.visited, t)
    ensures Frugal(visited, Glue(links, h.navigated, t))
  {
    var n := h.navigated + t.navigated;
    assert Elements(n) == Elements(h.navigated) + Elements(t.navigated);
    forall i, j | 0 <= i < j < |n| ensures n[i] != n[j] {
      if j < |h.navigated| {
        assert n[i] == h.navigated[i] && n[j] == h.navigated[j];
      } else if i < |h.navigated| {
        assert n[i] == h.navigated[i] && n[j] == t.navigated[j - |h.navigated|];
        assert n[i] in Elements(h.navigated);
      } else {
        assert n[i] == t.navigated[i - |h.navigated|] && n[j] == t.navigated[j - |h.navigated|];
      }
    }
  }

  /** One step of `DiscoverAll`: the first URL's outcome, glued in front of the rest. */
  lemma DiscoverAllStep(v: Variant, site: SiteMap, subs: seq<Url>, visited: set<Url>)
    requires subs != []
    ensures var h := Discover(v, site, subs[0], visited);
      && (h.links.Err? ==> DiscoverAll(v, site, subs, visited) == h)
      && (h.links.Ok? ==>
            DiscoverAll(v, site, subs, visited)
            == Glue(h.links.value, h.navigated, DiscoverAll(v, site, subs[1..], h.visited)))
  {
  }

  /** The cases of `Discover` that navigate to the URL and stop there. */
  lemma DiscoverStops(v: Variant, site: SiteMap, url: Url, visited: set<Url>)
    requires url !in visited
    ensures url !in site ==> Discover(v, site, url, visited) == Discovery(Err(FetchFailed(url)), visited + {url}, [url])
    ensures url in site && ScanSpans(v, url, visited + {url}, site[url].timeSpans).Err? ==>
      Discover(v, site, url, visited)
      == Discovery(Err(ScanSpans(v, url, visited + {url}, site[url].timeSpans).error), visited + {url}, [url])
  {
  }

  /** The case of `Discover` whose listing page scanned. */
  lemma DiscoverScanned(v: Variant, site: SiteMap, url: Url, visited: set<Url>)
    requires url !in visited && url in site
    requires ScanSpans(v, url, visited + {url}, site[url].timeSpans).Ok?
    ensures var sc := ScanSpans(v, url, visited + {url}, site[url].timeSpans).value;
      Discover(v, site, url, visited) == Assemble(url, sc.articles, DiscoverAll(v, site, sc.subcategories, visited + {url}))
  {
  }

  lemma ConcatAssoc<T>(a: seq<T>, b: seq<T>, c: seq<T>)
    ensures a + (b + c) == (a + b) + c
  {
  }

  lemma GlueEmpty(c: Discovery)
    ensures Glue([], [], c) == c
  {
    assert [] + c.navigated == c.navigated;
    if c.links.Ok? {
      assert [] + c.links.value == c.links.value;
    }
  }

  lemma GlueGlue(a: seq<ArticleLink>, an: seq<Url>, b: seq<ArticleLink>, bn: seq<Url>, c: Discovery)
    ensures Glue(a, an, Glue(b, bn, c)) == Glue(a + b, an + bn, c)
  {
    assert an + (bn + c.navigated) == (an + bn) + c.navigated;
    if c.links.Ok? {
      assert a + (b + c.links.value) == (a + b) + c.links.value;
    }
  }

  /** Each listing URL is navigated to at most once per shared `visited` set: a call
      adds to `visited` exactly the URLs it navigates to, never navigates to a URL
      twice, and never to one that was visited before it started. */
  lemma FrugalStop(visited: set<Url>, url: Url, e: CrawlError)
    requires url !in visited
    ensures Frugal(visited, Discovery(Err(e), visited + {url}, [url]))
  {
    assert Elements([url]) == {url};
  }

  lemma {:induction false} DiscoverFrugal(v: Variant, site: SiteMap, url: Url, visited: set<Url>)
    decreases |site.Keys - visited|, 0, 1
    ensures Frugal(visited, Discover(v, site, url, visited))
  {
    if url in visited {
      assert Elements<Url>([]) == {};
    } else if url !in site {
      assert Discover(v, site, url, visited) == Discovery(Err(FetchFailed(url)), visited + {url}, [url]);
      FrugalStop(visited, url, FetchFailed(url));
    } else {
      var v1 := visited + {url};
      match ScanSpans(v, url, v1, site[url].timeSpans)
      case Err(e) =>
        assert Discover(v, site, url, visited) == Discovery(Err(e), v1, [url]);
        FrugalStop(visited, url, e);
      case Ok(sc) =>
        ScannedFrugal(v, site, url, visited);
    }
  }

  /** The case of a listing page that scanned: its own navigation, then the
      subcategories'. */
  lemma {:induction false} ScannedFrugal(v: Variant, site: SiteMap, url: Url, visited: set<Url>)
    requires url !in visited && url in site
    requires ScanSpans(v, url, visited + {url}, site[url].timeSpans).Ok?
    decreases |site.Keys - visited|, 0, 0
    ensures Frugal(visited, Discover(v, site, url, visited))
  {
    var v1 := visited + {url};
    var sc := ScanSpans(v, url, v1, site[url].timeSpans).value;
    DiffDrops(site.Keys, visited, url);
    DiscoverAllFrugal(v, site, sc.subcategories, v1);
    var rest := DiscoverAll(v, site, sc.subcategories, v1);
    assert Discover(v, site, url, visited) == Assemble(url, sc.articles, rest);
    FrugalCons(visited, url, sc.articles, rest);
  }

  lemma {:induction false} DiscoverAllFrugal(v: Variant, site: SiteMap, subs: seq<Url>, visited: set<Url>)
    decreases |site.Keys - visited|, 1, |subs|
    ensures Frugal(visited, DiscoverAll(v, site, subs, visited))
  {
    if subs != [] {
      var h := Discover(v, site, subs[0], visited);
      DiscoverFrugal(v, site, subs[0], visited);
      if h.links.Ok? {
        DiffShrinks(site.Keys, visited, h.visited);
        DiscoverAllFrugal(v, site, subs[1..], h.visited);
        FrugalGlue(visited, h, h.links.value, DiscoverAll(v, site, subs[1..], h.visited));
      }
    }
  }

  /** Every link `get_article_links` returns is on the site, passed the filters, was
      not a visited listing when the call started and passes the article test. */
  lemma {:induction false} DiscoverFindsArticles(v: Variant, site: SiteMap, url: Url, visited: set<Url>)
    decreases |site.Keys - visited|, 0, 0
    ensures var c := Discover(v, site, url, visited);
      c.links.Ok? ==> forall l :: l in c.links.value ==> GoodArticle(v, visited, l)
  {
    var c := Discover(v, site, url, visited);
    if url !in visited && url in site && c.links.Ok? {
      var v1 := visited + {url};
      var sc := ScanSpans(v, url, v1, site[url].timeSpans).value;
      DiffDrops(site.Keys, visited, url);
      var rest := DiscoverAll(v, site, sc.subcategories, v1);
      DiscoverAllFindsArticles(v, site, sc.subcategories, v1);
      ScanArticlesGood(v, url, v1, site[url].timeSpans);
      forall l | l in c.links.value ensures GoodArticle(v, visited, l) {
        var all := sc.articles + rest.links.value;
        assert l.url in Urls(all) by {
          assert l in Dedup(all);
        }
        var m :| m in all && m.url == l.url;
        assert GoodArticle(v, v1, m);
        var k :| 0 <= k < |Dedup(all)| && Dedup(all)[k] == l;
        DedupKeepsFirst(all, k);
        assert all[FirstIndex(all, l.url)] == l;
        assert l in all;
      }
    }
  }

  lemma {:induction false} DiscoverAllFindsArticles(v: Variant, site: SiteMap, subs: seq<Url>, visited: set<Url>)
    decreases |site.Keys - visited|, 1, |subs|
    ensures var c := DiscoverAll(v, site, subs, visited);
      c.links.Ok? ==> forall l :: l in c.links.value ==> GoodArticle(v, visited, l)
  {
    if subs != [] {
      var h := Discover(v, site, subs[0], visited);
      DiscoverFindsArticles(v, site, subs[0], visited);
      if h.links.Ok? {
        DiffShrinks(site.Keys, visited, h.visited);
        DiscoverAllFindsArticles(v, site, subs[1..], h.visited);
      }
    }
  }

  /** The result of a call that returns has pairwise distinct URLs and begins with
      the page's own article links, de-duplicated, before anything a subcategory
      contributed. */
  lemma DiscoverOwnFirst(v: Variant, site: SiteMap, url: Url, visited: set<Url>)
    requires url !in visited && url in site
    requires ScanSpans(v, url, visited + {url}, site[url].timeSpans).Ok?
    ensures var c := Discover(v, site, url, visited);
      var own := ScanSpans(v, url, visited + {url}, site[url].timeSpans).value.articles;
      c.links.Ok? ==>
        && DistinctUrls(c.links.value)
        && |Dedup(own)| <= |c.links.value|
        && c.links.value[..|Dedup(own)|] == Dedup(own)
  {
    var v1 := visited + {url};
    var sc := ScanSpans(v, url, v1, site[url].timeSpans).value;
    DiffDrops(site.Keys, visited, url);
    var rest := DiscoverAll(v, site, sc.subcategories, v1);
    if rest.links.Ok? {
      DedupPrefix(sc.articles, rest.links.value);
    }
  }

  /** The crawler: the shared `visited` set of one run, over one site. */
  class LinkCrawler {
    const site: SiteMap
    const variant: Variant
    var visited: set<Url>
    /** every listing URL navigated to, in order (not part of the source's state) */
    ghost var navigated: seq<Url>

    constructor (site: SiteMap, variant: Variant)
      ensures this.site == site && this.variant == variant
      ensures visited == {} && navigated == []
    {
      this.site := site;
      this.variant := variant;
      visited := {};
      navigated := [];
    }

    /** `get_article_links(page, url, visited)`: navigate to a listing page, scan its
        timestamp spans, crawl every subcategory with the shared `visited` set, then
        drop repeated URLs keeping the first occurrence. */
    method GetArticleLinks(categoryUrl: Url) returns (r: Result<seq<ArticleLink>, CrawlError>)
      modifies this
      decreases |site.Keys - visited|, 0
      ensures var c := Discover(variant, site, categoryUrl, old(visited));
        r == c.links && visited == c.visited && navigated == old(navigated) + c.navigated
    {
      if categoryUrl in visited {
        return Ok([]);
      }
      ghost var v0 := visited;
      visited := visited + {categoryUrl};
      navigated := navigated + [categoryUrl];
      if categoryUrl !in site {
        DiscoverStops(variant, site, categoryUrl, v0);
        return Err(FetchFailed(categoryUrl));
      }
      var scan := ScanListing(categoryUrl, site[categoryUrl].timeSpans);
      if scan.Err? {
        DiscoverStops(variant, site, categoryUrl, v0);
        return Err(scan.error);
      }
      DiffDrops(site.Keys, v0, categoryUrl);
      var sub := CrawlSubcategories(scan.value.subcategories);
      ghost var rest := DiscoverAll(variant, site, scan.value.subcategories, v0 + {categoryUrl});
      ConcatAssoc(old(navigated), [categoryUrl], rest.navigated);
      DiscoverScanned(variant, site, categoryUrl, v0);
      if sub.Err? {
        return sub;
      }
      var deduped := DedupLinks(scan.value.articles + sub.value);
      r := Ok(deduped);
    }

    /** The loop of `get_article_links` over the subcategory URLs: each is crawled in
        turn with the shared `visited` set, and the first one that raises ends the call. */
    method CrawlSubcategories(subs: seq<Url>) returns (r: Result<seq<ArticleLink>, CrawlError>)
      modifies this
      decreases |site.Keys - visited|, 1
      ensures var c := DiscoverAll(variant, site, subs, old(visited));
        r == c.links && visited == c.visited && navigated == old(navigated) + c.navigated
    {
      ghost var v1 := visited;
      ghost var nav1 := navigated;
      var gathered: seq<ArticleLink> := [];
      ghost var gatheredNav: seq<Url> := [];
      assert subs[0..] == subs;
      GlueEmpty(DiscoverAll(variant, site, subs, v1));
      var j := 0;
      while j < |subs|
        invariant 0 <= j <= |subs|
        invariant v1 <= visited
        invariant navigated == nav1 + gatheredNav
        invariant DiscoverAll(variant, site, subs, v1)
          == Glue(gathered, gatheredNav, DiscoverAll(variant, site, subs[j..], visited))
      {
        ghost var before := visited;
        ghost var navBefore := navigated;
        DiffShrinks(site.Keys, v1, visited);
        var subArticles := GetArticleLinks(subs[j]);
        ghost var h := Discover(variant, site, subs[j], before);
        assert navigated == navBefore + h.navigated;
        assert subs[j..][0] == subs[j] && subs[j..][1..] == subs[j + 1..];
        DiscoverAllStep(variant, site, subs[j..], before);
        ConcatAssoc(nav1, gatheredNav, h.navigated);
        if subArticles.Err? {
          return subArticles;
        }
        GlueGlue(gathered, gatheredNav, h.links.value, h.navigated, DiscoverAll(variant, site, subs[j + 1..], visited));
        gathered := gathered + subArticles.value;
        gatheredNav := gatheredNav + h.navigated;
        j := j + 1;
      }
      assert subs[j..] == [];
      assert gatheredNav + [] == gatheredNav && gathered + [] == gathered;
      r := Ok(gathered);
    }

    /** The loop over the timestamp spans of one listing page, against the current
        `visited` set. */
    method ScanListing(listing: Url, spans: seq<TimeSpan>) returns (r: Result<Scan, CrawlError>)
      ensures r == ScanSpans(variant, listing, visited, spans)
    {
      var articleLinks: seq<ArticleLink> := [];
      var subcategoryLinks: seq<Url> := [];
      var i := 0;
      while i < |spans|
        invariant 0 <= i <= |spans|
        invariant ScanSpans(variant, listing, visited, spans[..i]) == Ok(Scan(articleLinks, subcategoryLinks))
      {
        ghost var acc := Scan(articleLinks, subcategoryLinks);
        ghost var verdict := Judge(variant, listing, visited, spans[i]);
        ScanSpansNext(variant, listing, visited, spans, i, acc);
        var anchor := spans[i].anchor;
        if anchor.None? {
          if variant == General {
            ScanRaiseExtends(variant, listing, visited, spans, i + 1);
            return Err(MissingAnchor(listing));
          }
        } else {
          var a := anchor.value;
          var href := a.href;
          var fullUrl: Option<Url>;
          if variant == General {
            if StartsWith(href, "http") {
              fullUrl := Some(href);
            } else if StartsWith(href, "/") {
              fullUrl := Some(JoinBase(href));
            } else {
              fullUrl := None;
            }
          } else {
            fullUrl := Some(if StartsWith(href, "/") then JoinBase(href) else href);
          }
          if fullUrl.Some? {
            var u := fullUrl.value;
            var keep := StartsWith(u, BASE_URL) && u !in visited;
            if variant == General && (u == BASE_URL || u == PRIVACY_URL) {
              keep := false;
            }
            if keep {
              var relativeTime := "N/A";
              if a.innerSpan.Some? {
                relativeTime := a.innerSpan.value;
              }
              if IsArticleUrl(u) {
                articleLinks := articleLinks + [ArticleLink(u, relativeTime)];
              } else if IsSubcategoryOf(u, listing) {
                subcategoryLinks := subcategoryLinks + [u];
              }
            }
          }
        }
        assert Scan(articleLinks, subcategoryLinks) == ScanStep(acc, verdict);
        i := i + 1;
      }
      assert spans[..|spans|] == spans;
      r := Ok(Scan(articleLinks, subcategoryLinks));
    }
  }

  /** The final loop of `get_article_links`: keep each link whose URL has not been
      seen yet. */
  method DedupLinks(links: seq<ArticleLink>) returns (deduped: seq<ArticleLink>)
    ensures deduped == Dedup(links)
  {
    var seen: set<Url> := {};
    deduped := [];
    var k := 0;
    while k < |links|
      invariant 0 <= k <= |links|
      invariant deduped == Dedup(links[..k])
      invariant seen == Urls(deduped)
    {
      var article := links[k];
      assert links[..k + 1][..k] == links[..k];
      if article.url !in seen {
        UrlsAppend(deduped, article);
        deduped := deduped + [article];
        seen := seen + {article.url};
      }
      k := k + 1;
    }
    assert links[..|links|] == links;
  }

  /** One more span: the scan of the longer prefix is the step of its verdict. */
  lemma ScanSpansNext(v: Variant, listing: Url, visited: set<Url>, spans: seq<TimeSpan>, i: nat, acc: Scan)
    requires i < |spans| && ScanSpans(v, listing, visited, spans[..i]) == Ok(acc)
    ensures var verdict := Judge(v, listing, visited, spans[i]);
      ScanSpans(v, listing, visited, spans[..i + 1])
        == if verdict.Raise? then Err(MissingAnchor(listing)) else Ok(ScanStep(acc, verdict))
  {
    assert spans[..i + 1][..i] == spans[..i];
  }

  /** Once a prefix of the spans raises, the whole scan raises. */
  lemma {:induction false} ScanRaiseExtends(v: Variant, listing: Url, visited: set<Url>, spans: seq<TimeSpan>, n: nat)
    requires n <= |spans| && ScanSpans(v, listing, visited, spans[..n]).Err?
    ensures ScanSpans(v, listing, visited, spans) == Err(MissingAnchor(listing))
    decreases |spans| - n
  {
    if n < |spans| {
      assert spans[..n + 1][..n] == spans[..n];
      ScanRaiseExtends(v, listing, visited, spans, n + 1);
    } else {
      assert spans[..n] == spans;
    }
  }
}

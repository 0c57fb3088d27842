/** How one listing page's timestamp spans become article links and subcategory
    URLs, in the two variants of `get_article_links`: the general feed
    (scrapping/new_scrapping.py) and the local feed (scrapping/scrape_local_news.py). */
module LinkRules {
  import opened Wrappers
  import opened Text
  import opened Site
  import UrlParse

  datatype Variant = General | Local

  datatype ArticleLink = ArticleLink(url: Url, relativeTime: string)

  /** Why a crawl raised: a listing page failed to load, or (general variant only)
      a timestamp span had no anchor, so that `a["href"]` failed on `None`. */
  datatype CrawlError = FetchFailed(url: Url) | MissingAnchor(listing: Url)

  const PRIVACY_URL: Url := BASE_URL + "/privacy/"

  /** A protocol-relative href whose network location is empty: nothing, or a
      '/', '?' or '#', follows the "//". */
  predicate EmptyHost(href: string) {
    StartsWith(href, "//") && (|href| == 2 || UrlParse.IsNetlocDelim(href[2]))
  }

  /** `urljoin(BASE_URL, href)` for an href starting with "/": a root-relative path
      is appended to the site root; a protocol-relative "//host..." takes the base's
      scheme, and when its host is empty, the base's host as well. Dot segments are
      not resolved. */
  function JoinBase(href: string): (r: Url)
    requires StartsWith(href, "/")
    ensures !StartsWith(href, "//") ==> r == BASE_URL + href
    ensures EmptyHost(href) ==> r == BASE_URL + href[2..]
    ensures StartsWith(href, "//") && !EmptyHost(href) ==> r == "https:" + href
    ensures !StartsWith(href, "//") || EmptyHost(href) ==> StartsWith(r, BASE_URL)
  {
    if EmptyHost(href) then BASE_URL + href[2..]
    else if StartsWith(href, "//") then "https:" + href
    else BASE_URL + href
  }

  /** The path segment after a '/' is "." or "..". */
  predicate DotSegmentAfter(s: string) {
    s == "." || s == ".." || StartsWith(s, "./") || StartsWith(s, "../")
  }

  /** No segment of the path is "." or "..", so `urljoin` has none to remove. */
  predicate NoDotSegment(p: string) {
    forall i :: 0 <= i < |p| && p[i] == '/' ==> !DotSegmentAfter(p[i + 1..])
  }

  /** A root-relative href with a clean path and no dot segment joins to a URL on the
      site root whose path is the href's; a query or fragment after it is left out of
      the path. */
  lemma JoinRootParsed(p: string, tail: string)
    requires UrlParse.CleanPath(p) && NoDotSegment(p) && !StartsWith(p, "//")
    requires tail == [] || tail[0] == '?' || tail[0] == '#'
    ensures var r := UrlParse.Parse(JoinBase(p + tail));
      r.Some? && r.value.scheme == "https" && r.value.netloc == "www.ksat.com" && r.value.path == p
  {
    var h := p + tail;
    assert h[0] == '/';
    assert !StartsWith(h, "//") by {
      if |p| == 1 {
        assert tail != [] ==> h[1] == tail[0];
      } else {
        assert h[1] == p[1];
      }
    }
    SiteRootSplit();
    assert JoinBase(h) == "https" + "://" + "www.ksat.com" + p + tail;
    UrlParse.CleanUrlParsed("https", "www.ksat.com", p, tail);
  }

  /** A protocol-relative href with an empty host joins like the root-relative path
      after its "//": the site's scheme and host, and the href's clean path. */
  lemma JoinEmptyHostParsed(p: string, tail: string)
    requires UrlParse.CleanPath(p) && NoDotSegment(p)
    requires tail == [] || tail[0] == '?' || tail[0] == '#'
    ensures var r := UrlParse.Parse(JoinBase("//" + p + tail));
      r.Some? && r.value.scheme == "https" && r.value.netloc == "www.ksat.com" && r.value.path == p
  {
    var h := "//" + p + tail;
    assert EmptyHost(h) by { assert h[2] == p[0]; }
    assert h[2..] == p + tail;
    SiteRootSplit();
    assert JoinBase(h) == "https" + "://" + "www.ksat.com" + p + tail;
    UrlParse.CleanUrlParsed("https", "www.ksat.com", p, tail);
  }

  lemma SiteRootSplit()
    ensures BASE_URL == "https" + "://" + "www.ksat.com"
    ensures UrlParse.CleanScheme("https") && UrlParse.CleanNetloc("www.ksat.com")
  {
  }

  /** A protocol-relative href with a clean, non-empty ASCII host and a clean path
      keeps that host and path and takes the base's scheme. */
  lemma JoinProtocolRelativeParsed(n: string, p: string, tail: string)
    requires UrlParse.CleanNetloc(n) && n != [] && forall i :: 0 <= i < |n| ==> n[i] as int < 128
    requires UrlParse.CleanPath(p)
    requires tail == [] || tail[0] == '?' || tail[0] == '#'
    ensures var r := UrlParse.Parse(JoinBase("//" + n + p + tail));
      r.Some? && r.value.scheme == "https" && r.value.netloc == n && r.value.path == p
  {
    var h := "//" + n + p + tail;
    assert StartsWith(h, "//");
    assert !EmptyHost(h) by { assert h[2] == n[0]; }
    SiteRootSplit();
    assert JoinBase(h) == "https" + "://" + n + p + tail;
    UrlParse.CleanUrlParsed("https", n, p, tail);
  }

  /** The absolute URL a listing href stands for, or `None` when the href is skipped.
      General: "http..." as is, "/..." joined, anything else skipped.
      Local: "/..." joined, anything else as is. */
  function Resolve(v: Variant, href: string): (r: Option<Url>)
    ensures v == Local ==> r.Some?
    ensures r.Some? && !StartsWith(href, "/") ==> r.value == href
    ensures StartsWith(href, "/") ==> r == Some(JoinBase(href))
    ensures v == General ==> (r.Some? <==> StartsWith(href, "http") || StartsWith(href, "/"))
  {
    if v == General && StartsWith(href, "http") then
      assert href[0] == 'h';
      Some(href)
    else if StartsWith(href, "/") then Some(JoinBase(href))
    else if v == General then None
    else Some(href)
  }

  /** The filters a resolved link must pass: same site, not an already visited
      listing, and (general variant only) neither the home page nor the privacy page. */
  predicate Admissible(v: Variant, visited: set<Url>, url: Url) {
    && StartsWith(url, BASE_URL)
    && url !in visited
    && (v == General ==> url != BASE_URL && url != PRIVACY_URL)
  }

  /** `/\d{4}/\d{2}/\d{2}/` occurs at position `i`. */
  predicate DatedSegmentAt(u: string, i: int) {
    && 0 <= i && i + 12 <= |u|
    && u[i] == '/' && Digits(u[i + 1..i + 5])
    && u[i + 5] == '/' && Digits(u[i + 6..i + 8])
    && u[i + 8] == '/' && Digits(u[i + 9..i + 11])
    && u[i + 11] == '/'
  }

  predicate HasDatedSegment(u: string) {
    exists i | 0 <= i <= |u| - 12 :: DatedSegmentAt(u, i)
  }

  /** `/news/[^/]+/` occurs at position `j` and reaches the end of `u`. */
  predicate NewsSlugEndAt(u: string, j: int) {
    && 0 <= j && j + 7 < |u|
    && u[j..j + 6] == "/news/"
    && u[|u| - 1] == '/'
    && '/' !in u[j + 6..|u| - 1]
  }

  predicate NewsSlugEnd(u: string) {
    exists j | 0 <= j < |u| :: NewsSlugEndAt(u, j)
  }

  /** `re.search(r'/news/[^/]+/$', u)`: `$` matches at the end or before a final newline. */
  predicate NewsSlugPath(u: string) {
    || NewsSlugEnd(u)
    || (u != [] && u[|u| - 1] == '\n' && NewsSlugEnd(u[..|u| - 1]))
  }

  /** The article test: a dated path, an "/article" segment, or a trailing
      "/news/<slug>/". */
  predicate IsArticleUrl(u: Url) {
    HasDatedSegment(u) || Contains(u, "/article") || NewsSlugPath(u)
  }

  /** The subcategory test: the link contains the listing URL without its trailing "/". */
  predicate IsSubcategoryOf(u: Url, listing: Url) {
    Contains(u, RStripChar(listing, '/'))
  }

  /** What the scan loop does with one timestamp span. */
  datatype Verdict = Raise | Skip | KeepArticle(link: ArticleLink) | KeepSubcategory(url: Url)

  function Judge(v: Variant, listing: Url, visited: set<Url>, span: TimeSpan): (r: Verdict)
    ensures r.Raise? <==> v == General && span.anchor.None?
    ensures r.KeepArticle? ==>
      && span.anchor.Some?
      && Resolve(v, span.anchor.value.href) == Some(r.link.url)
      && Admissible(v, visited, r.link.url)
      && IsArticleUrl(r.link.url)
      && r.link.relativeTime == span.anchor.value.innerSpan.GetOr("N/A")
    ensures r.KeepSubcategory? ==>
      && span.anchor.Some?
      && Resolve(v, span.anchor.value.href) == Some(r.url)
      && Admissible(v, visited, r.url)
      && !IsArticleUrl(r.url)
      && IsSubcategoryOf(r.url, listing)
    ensures r.Skip? ==>
      span.anchor.None? || Resolve(v, span.anchor.value.href).None? ||
      var u := Resolve(v, span.anchor.value.href).value;
      !Admissible(v, visited, u) || (!IsArticleUrl(u) && !IsSubcategoryOf(u, listing))
  {
    match span.anchor
    case None => if v == General then Raise else Skip
    case Some(a) =>
      match Resolve(v, a.href)
      case None => Skip
      case Some(u) =>
        if !Admissible(v, visited, u) then Skip
        else if IsArticleUrl(u) then KeepArticle(ArticleLink(u, a.innerSpan.GetOr("N/A")))
        else if IsSubcategoryOf(u, listing) then KeepSubcategory(u)
        else Skip
  }

  /** The article links and subcategory URLs one listing page contributes, in order. */
  datatype Scan = Scan(articles: seq<ArticleLink>, subcategories: seq<Url>)

  function ScanStep(acc: Scan, verdict: Verdict): Scan {
    match verdict
    case KeepArticle(l) => acc.(articles := acc.articles + [l])
    case KeepSubcategory(u) => acc.(subcategories := acc.subcategories + [u])
    case _ => acc
  }

  /** The first loop of `get_article_links` over the spans, as a function of the
      spans seen so far; the first span that raises ends the scan. */
  function ScanSpans(v: Variant, listing: Url, visited: set<Url>, spans: seq<TimeSpan>): (r: Result<Scan, CrawlError>)
    ensures r.Err? ==> r.error == MissingAnchor(listing)
  {
    if spans == [] then Ok(Scan([], []))
    else
      match ScanSpans(v, listing, visited, spans[..|spans| - 1])
      case Err(e) => Err(e)
      case Ok(acc) =>
        var verdict := Judge(v, listing, visited, spans[|spans| - 1]);
        if verdict.Raise? then Err(MissingAnchor(listing)) else Ok(ScanStep(acc, verdict))
  }

  /** A scan raises exactly when some span's verdict is to raise. */
  lemma {:induction false} ScanRaisesExactly(v: Variant, listing: Url, visited: set<Url>, spans: seq<TimeSpan>)
    ensures ScanSpans(v, listing, visited, spans).Err? <==>
      exists k :: 0 <= k < |spans| && Judge(v, listing, visited, spans[k]).Raise?
  {
    if spans != [] {
      var init := spans[..|spans| - 1];
      ScanRaisesExactly(v, listing, visited, init);
      assert forall k :: 0 <= k < |init| ==> init[k] == spans[k];
    }
  }

  /** A successful scan keeps exactly the links whose verdict is to keep them as articles. */
  lemma {:induction false} ScanKeepsArticles(v: Variant, listing: Url, visited: set<Url>, spans: seq<TimeSpan>, l: ArticleLink)
    requires ScanSpans(v, listing, visited, spans).Ok?
    ensures l in ScanSpans(v, listing, visited, spans).value.articles <==>
      exists k :: 0 <= k < |spans| && Judge(v, listing, visited, spans[k]) == KeepArticle(l)
  {
    if spans != [] {
      var init := spans[..|spans| - 1];
      var acc := ScanSpans(v, listing, visited, init).value;
      var verdict := Judge(v, listing, visited, spans[|spans| - 1]);
      assert ScanSpans(v, listing, visited, spans).value == ScanStep(acc, verdict);
      assert l in ScanStep(acc, verdict).articles <==> l in acc.articles || verdict == KeepArticle(l);
      ScanKeepsArticles(v, listing, visited, init, l);
      if l in acc.articles {
        var k :| 0 <= k < |init| && Judge(v, listing, visited, init[k]) == KeepArticle(l);
        assert init[k] == spans[k];
      }
      if k :| 0 <= k < |spans| - 1 && Judge(v, listing, visited, spans[k]) == KeepArticle(l) {
        assert init[k] == spans[k];
      }
    }
  }

  /** A successful scan keeps exactly the URLs whose verdict is to keep them as subcategories. */
  lemma {:induction false} ScanKeepsSubcategories(v: Variant, listing: Url, visited: set<Url>, spans: seq<TimeSpan>, u: Url)
    requires ScanSpans(v, listing, visited, spans).Ok?
    ensures u in ScanSpans(v, listing, visited, spans).value.subcategories <==>
      exists k :: 0 <= k < |spans| && Judge(v, listing, visited, spans[k]) == KeepSubcategory(u)
  {
    if spans != [] {
      var init := spans[..|spans| - 1];
      var acc := ScanSpans(v, listing, visited, init).value;
      var verdict := Judge(v, listing, visited, spans[|spans| - 1]);
      assert ScanSpans(v, listing, visited, spans).value == ScanStep(acc, verdict);
      assert u in ScanStep(acc, verdict).subcategories <==> u in acc.subcategories || verdict == KeepSubcategory(u);
      ScanKeepsSubcategories(v, listing, visited, init, u);
      if u in acc.subcategories {
        var k :| 0 <= k < |init| && Judge(v, listing, visited, init[k]) == KeepSubcategory(u);
        assert init[k] == spans[k];
      }
      if k :| 0 <= k < |spans| - 1 && Judge(v, listing, visited, spans[k]) == KeepSubcategory(u) {
        assert init[k] == spans[k];
      }
    }
  }


  /** Every article link a scan keeps passes the filters and the article test. */
  ghost predicate GoodArticle(v: Variant, visited: set<Url>, l: ArticleLink) {
    Admissible(v, visited, l.url) && IsArticleUrl(l.url)
  }

  lemma ScanArticlesGood(v: Variant, listing: Url, visited: set<Url>, spans: seq<TimeSpan>)
    requires ScanSpans(v, listing, visited, spans).Ok?
    ensures forall l :: l in ScanSpans(v, listing, visited, spans).value.articles ==> GoodArticle(v, visited, l)
  {
    var sc := ScanSpans(v, listing, visited, spans).value;
    forall l | l in sc.articles ensures GoodArticle(v, visited, l) {
      ScanKeepsArticles(v, listing, visited, spans, l);
      var k :| 0 <= k < |spans| && Judge(v, listing, visited, spans[k]) == KeepArticle(l);
    }
  }

  /** The local variant never raises while scanning. */
  lemma LocalScanNeverRaises(listing: Url, visited: set<Url>, spans: seq<TimeSpan>)
    ensures ScanSpans(Local, listing, visited, spans).Ok?
  {
    ScanRaisesExactly(Local, listing, visited, spans);
  }
}

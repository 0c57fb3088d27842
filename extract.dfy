/** `scrape_article`: the record read from one article page (scrapping/new_scrapping.py
    and the identical function in scrapping/scrape_local_news.py). */
module Extract {
  import opened Wrappers
  import opened Text
  import opened Site
  import opened UrlParse
  import opened DateFormat

  /** The dict `scrape_article` returns. */
  datatype ArticleRecord = ArticleRecord(
    url: Url,
    headline: string,
    image: string,
    description: string,
    category: string,
    publishedDatetime: string,
    publishedText: string,
    postDate: Option<Date>,
    relativeTime: string)

  /** A paragraph goes into the description when its text is non-empty and it holds
      no `<b>`. */
  predicate IsKept(p: Paragraph) {
    p.text != "" && !p.hasBold
  }

  /** The texts of the kept paragraphs, in page order. */
  function Kept(ps: seq<Paragraph>): (r: seq<string>)
    ensures |r| <= |ps|
    ensures forall t :: t in r <==> exists p :: p in ps && IsKept(p) && p.text == t
  {
    if ps == [] then []
    else
      var rest := Kept(ps[1..]);
      assert forall p :: p in ps[1..] ==> p in ps;
      assert forall p :: p in ps ==> p == ps[0] || p in ps[1..];
      if IsKept(ps[0]) then [ps[0].text] + rest else rest
  }

  /** The kept texts joined by single spaces. */
  function Description(ps: seq<Paragraph>): string {
    Join(Kept(ps), " ")
  }

  /** `scrape_article(page, url, category, relative_time)`: `None` when the page does
      not load, when the story image or its `src` is missing or its URL does not
      parse, or when there is no `<time datetime>`; the post date is `None` when the
      timestamp does not parse. */
  function ScrapeArticle(site: SiteMap, url: Url, category: string, relativeTime: string): (r: Option<ArticleRecord>)
    ensures r.Some? <==>
      && url in site
      && site[url].article.imageSrc.Some?
      && ImageUrl(site[url].article.imageSrc.value).Some?
      && site[url].article.time.Some?
    ensures r.Some? ==>
      var v := site[url].article;
      && r.value.url == url && r.value.category == category && r.value.relativeTime == relativeTime
      && r.value.image == ImageUrl(v.imageSrc.value).value
      && r.value.publishedDatetime == v.time.value.datetime
      && r.value.publishedText == v.time.value.text
      && r.value.headline == v.h1.GetOr("N/A")
      && r.value.description == Description(v.paragraphs)
      && r.value.postDate == ParseIsoDate(v.time.value.datetime)
  {
    match Fetch(site, url)
    case None => None
    case Some(page) =>
      var v := page.article;
      var headline := v.h1.GetOr("N/A");
      var image := if v.imageSrc.Some? then ImageUrl(v.imageSrc.value) else None;
      if image.None? then None
      else
        var description := Description(v.paragraphs);
        match v.time
        case None => None
        case Some(t) =>
          Some(ArticleRecord(url, headline, image.value, description, category,
            t.datetime, t.text, ParseIsoDate(t.datetime), relativeTime))
  }

  // ---------------------------------------------------------------------------

  /** The description is empty exactly when no paragraph is kept, and otherwise
      holds every kept paragraph's text. */
  lemma DescriptionContents(ps: seq<Paragraph>)
    ensures Description(ps) == "" <==> forall p :: p in ps ==> !IsKept(p)
    ensures forall p :: p in ps && IsKept(p) ==> Contains(Description(ps), p.text)
  {
    var kept := Kept(ps);
    forall p | p in ps && IsKept(p) ensures Contains(Description(ps), p.text) {
      assert p.text in kept;
      var k :| 0 <= k < |kept| && kept[k] == p.text;
      JoinContains(kept, " ", k);
    }
    if kept != [] {
      assert kept[0] in kept;
      var p :| p in ps && IsKept(p) && p.text == kept[0];
      assert Contains(Description(ps), p.text);
    }
  }

  /** What a scraped record promises about its fields: the headline is the `<h1>`
      text, and "N/A" only without an `<h1>` (or with one reading "N/A"), the image URL has no query or
      fragment, the description is built from the kept paragraphs, and a post date
      is a real calendar date. */
  lemma ScrapedRecord(site: SiteMap, url: Url, category: string, relativeTime: string)
    requires ScrapeArticle(site, url, category, relativeTime).Some?
    ensures var r := ScrapeArticle(site, url, category, relativeTime).value;
      var v := site[url].article;
      && r.headline == v.h1.GetOr("N/A")
      && (r.headline == "N/A" <==> v.h1.None? || v.h1.value == "N/A")
      && '?' !in r.image && '#' !in r.image
      && r.description == Description(v.paragraphs)
      && (r.postDate.Some? ==> ValidDate(r.postDate.value))
      && r.postDate == ParseIsoDate(r.publishedDatetime)
  {
    var r := ScrapeArticle(site, url, category, relativeTime).value;
    var v := site[url].article;
    ImageUrlHasNoQueryOrFragment(v.imageSrc.value);
    if r.postDate.Some? {
      ParsedDateValid(r.publishedDatetime);
    }
  }

  /** An image `src` with a clean scheme, host and path keeps exactly those three,
      whatever query or fragment follows. */
  lemma ScrapedImageDropsQuery(site: SiteMap, url: Url, category: string, relativeTime: string,
                               s: string, n: string, p: string, tail: string)
    requires url in site && site[url].article.imageSrc == Some(s + "://" + n + p + tail)
    requires site[url].article.time.Some?
    requires CleanScheme(s) && CleanNetloc(n) && CleanPath(p)
    requires tail == [] || tail[0] == '?' || tail[0] == '#'
    ensures ScrapeArticle(site, url, category, relativeTime).Some?
    ensures ScrapeArticle(site, url, category, relativeTime).value.image == s + "://" + n + p
  {
    CleanUrlKept(s, n, p, tail);
  }
}

/** The news site as the crawler sees it. A page is what the HTML parser would hand
    back from the rendered document: the main-navigation anchors, the listing
    timestamp spans and the fields of an article page. Rendering and parsing are
    not modelled; the browser's `page.goto` becomes a lookup in a finite map. */
module Site {
  import opened Wrappers

  type Url = string

  const BASE_URL: Url := "https://www.ksat.com"

  /** An `<a href>` inside the "Main Navigation" `<nav>`: its raw text and href. */
  datatype NavAnchor = NavAnchor(text: string, href: string)

  /** The first `<a href>` inside a listing timestamp span, with the stripped text of
      its first inner `<span>` when it has one. */
  datatype TimeAnchor = TimeAnchor(href: string, innerSpan: Option<string>)

  /** A listing timestamp span; `anchor` is `None` when it holds no `<a href>`. */
  datatype TimeSpan = TimeSpan(anchor: Option<TimeAnchor>)

  /** A `<p class="article-text">`: its stripped text and whether it contains a `<b>`. */
  datatype Paragraph = Paragraph(text: string, hasBold: bool)

  /** The first `<time datetime=...>`: the attribute and the element's stripped text. */
  datatype TimeElement = TimeElement(datetime: string, text: string)

  /** The article-page fields: stripped text of the first `<h1>`, the `src` of the
      `<img>` in the story's image wrapper (`None` when the container, the wrapper, the
      image or its `src` is missing), the article paragraphs, and the time element. */
  datatype ArticleView = ArticleView(
    h1: Option<string>,
    imageSrc: Option<string>,
    paragraphs: seq<Paragraph>,
    time: Option<TimeElement>)

  /** A rendered page; `nav` is `None` when the page has no main navigation. */
  datatype Page = Page(nav: Option<seq<NavAnchor>>, timeSpans: seq<TimeSpan>, article: ArticleView)

  /** Every page that can be navigated to; any other URL fails to load. */
  type SiteMap = map<Url, Page>

  /** `page.goto(url)` followed by `page.content()`: `None` stands for the navigation
      error (timeout, network error) that the browser raises. */
  function Fetch(site: SiteMap, url: Url): (r: Option<Page>)
    ensures r.Some? <==> url in site
    ensures r.Some? ==> r.value == site[url]
  {
    if url in site then Some(site[url]) else None
  }
}

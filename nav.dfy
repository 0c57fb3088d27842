/** `get_nav_links`: the category links of the site's main navigation, as a Python
    dict from category name to absolute URL (scrapping/new_scrapping.py). */
module Nav {
  import opened Wrappers
  import opened Text
  import opened Site
  import opened LinkRules

  const TARGET_CATEGORIES: set<string> := {"Entertainment", "Sports", "News"}

  /** A Python dict from names to URLs: its items in insertion order. */
  type Entries = seq<(string, Url)>

  function Keys(d: Entries): (r: seq<string>)
    ensures |r| == |d|
    ensures forall i :: 0 <= i < |d| ==> r[i] == d[i].0
  {
    if d == [] then [] else [d[0].0] + Keys(d[1..])
  }

  predicate DistinctKeys(d: Entries) {
    forall i, j :: 0 <= i < j < |d| ==> d[i].0 != d[j].0
  }

  /** `d.get(k)` */
  function Lookup(d: Entries, k: string): (r: Option<Url>)
    ensures r.None? <==> k !in Keys(d)
    ensures r.Some? ==> (k, r.value) in d
  {
    if d == [] then None
    else if d[0].0 == k then Some(d[0].1)
    else Lookup(d[1..], k)
  }

  /** `d[k] = v`: an existing key keeps its position and takes the new value, a new
      key goes last. */
  function Put(d: Entries, k: string, v: Url): (r: Entries)
    ensures k in Keys(d) ==> Keys(r) == Keys(d)
    ensures k !in Keys(d) ==> Keys(r) == Keys(d) + [k]
  {
    if d == [] then [(k, v)]
    else if d[0].0 == k then [(k, v)] + d[1..]
    else [d[0]] + Put(d[1..], k, v)
  }

  /** After `d[k] = v`, `k` maps to `v` and every other key to what it mapped to before. */
  lemma {:induction false} PutLookup(d: Entries, k: string, v: Url, k': string)
    ensures Lookup(Put(d, k, v), k') == if k' == k then Some(v) else Lookup(d, k')
  {
    if d != [] && d[0].0 != k {
      PutLookup(d[1..], k, v, k');
    }
  }

  lemma PutDistinct(d: Entries, k: string, v: Url)
    requires DistinctKeys(d)
    ensures DistinctKeys(Put(d, k, v))
  {
    var r := Put(d, k, v);
    assert forall i :: 0 <= i < |r| ==> r[i].0 == Keys(r)[i];
    assert forall i :: 0 <= i < |d| ==> d[i].0 == Keys(d)[i];
  }

  /** The loop's test: the anchor's stripped text names a target category and its
      href is root-relative. */
  predicate Qualifies(a: NavAnchor) {
    Strip(a.text) in TARGET_CATEGORIES && StartsWith(a.href, "/")
  }

  /** The anchor qualifies and its stripped text is `name`. */
  predicate QualifiesAs(a: NavAnchor, name: string) {
    Qualifies(a) && Strip(a.text) == name
  }

  /** The dict the loop builds from the anchors seen so far. */
  function NavLinks(anchors: seq<NavAnchor>): Entries {
    if anchors == [] then []
    else
      var d := NavLinks(anchors[..|anchors| - 1]);
      var a := anchors[|anchors| - 1];
      if Qualifies(a) then Put(d, Strip(a.text), JoinBase(a.href)) else d
  }

  /** Reference definition: the URL of the last qualifying anchor carrying a name. */
  function LastLinkFor(anchors: seq<NavAnchor>, name: string): Option<Url> {
    if anchors == [] then None
    else
      var a := anchors[|anchors| - 1];
      if QualifiesAs(a, name) then Some(JoinBase(a.href))
      else LastLinkFor(anchors[..|anchors| - 1], name)
  }

  /** `get_nav_links(page)`: a failed load of the home page raises; a home page
      without the main navigation gives the empty dict. */
  method GetNavLinks(site: SiteMap) returns (r: Result<Entries, CrawlError>)
    ensures BASE_URL !in site ==> r == Err(FetchFailed(BASE_URL))
    ensures BASE_URL in site && site[BASE_URL].nav.None? ==> r == Ok([])
    ensures BASE_URL in site && site[BASE_URL].nav.Some? ==> r == Ok(NavLinks(site[BASE_URL].nav.value))
  {
    if BASE_URL !in site {
      return Err(FetchFailed(BASE_URL));
    }
    var nav := site[BASE_URL].nav;
    var links: Entries := [];
    if nav.Some? {
      var anchors := nav.value;
      var i := 0;
      while i < |anchors|
        invariant 0 <= i <= |anchors|
        invariant links == NavLinks(anchors[..i])
      {
        NavLinksStep(anchors, i);
        var name := Strip(anchors[i].text);
        var href := anchors[i].href;
        if name in TARGET_CATEGORIES && StartsWith(href, "/") {
          links := Put(links, name, JoinBase(href));
        }
        i := i + 1;
      }
      assert anchors[..|anchors|] == anchors;
    }
    r := Ok(links);
  }

  lemma NavLinksStep(anchors: seq<NavAnchor>, i: nat)
    requires i < |anchors|
    ensures var a := anchors[i];
      NavLinks(anchors[..i + 1]) ==
        if Qualifies(a) then Put(NavLinks(anchors[..i]), Strip(a.text), JoinBase(a.href))
        else NavLinks(anchors[..i])
  {
    assert anchors[..i + 1][..i] == anchors[..i];
  }

  /** The dict has one entry per name, and every name is a target category. */
  lemma {:induction false} NavLinksKeys(anchors: seq<NavAnchor>)
    ensures DistinctKeys(NavLinks(anchors))
    ensures forall k :: k in Keys(NavLinks(anchors)) ==> k in TARGET_CATEGORIES
  {
    if anchors != [] {
      var init := anchors[..|anchors| - 1];
      var a := anchors[|anchors| - 1];
      NavLinksKeys(init);
      if Qualifies(a) {
        PutDistinct(NavLinks(init), Strip(a.text), JoinBase(a.href));
      }
    }
  }

  /** A name maps to the URL of the last qualifying anchor with that name: a later
      anchor overwrites an earlier one, and a name no anchor qualifies for is absent. */
  lemma {:induction false} NavLinksLastWins(anchors: seq<NavAnchor>, name: string)
    ensures Lookup(NavLinks(anchors), name) == LastLinkFor(anchors, name)
  {
    if anchors != [] {
      var init := anchors[..|anchors| - 1];
      var a := anchors[|anchors| - 1];
      NavLinksLastWins(init, name);
      if Qualifies(a) {
        PutLookup(NavLinks(init), Strip(a.text), JoinBase(a.href), name);
      }
    }
  }

  /** A name is present when some anchor qualifies with it ... */
  lemma {:induction false} LastLinkForSome(anchors: seq<NavAnchor>, name: string, k: nat)
    requires k < |anchors| && QualifiesAs(anchors[k], name)
    ensures LastLinkFor(anchors, name).Some?
  {
    var last := |anchors| - 1;
    var init := anchors[..last];
    if QualifiesAs(anchors[last], name) {
      assert LastLinkFor(anchors, name) == Some(JoinBase(anchors[last].href));
    } else {
      assert LastLinkFor(anchors, name) == LastLinkFor(init, name);
      assert k != last;
      assert init[k] == anchors[k];
      LastLinkForSome(init, name, k);
    }
  }

  /** ... and only then: the URL it maps to is that of a qualifying anchor. */
  lemma {:induction false} LastLinkForWitness(anchors: seq<NavAnchor>, name: string)
    requires LastLinkFor(anchors, name).Some?
    ensures exists k ::
      && 0 <= k < |anchors| && QualifiesAs(anchors[k], name)
      && LastLinkFor(anchors, name) == Some(JoinBase(anchors[k].href))
  {
    var last := |anchors| - 1;
    if !QualifiesAs(anchors[last], name) {
      var init := anchors[..last];
      LastLinkForWitness(init, name);
      var k :| 0 <= k < |init| && QualifiesAs(init[k], name) &&
        LastLinkFor(init, name) == Some(JoinBase(init[k].href));
      assert anchors[k] == init[k];
    }
  }
}

/** The `seen`-set loop at the end of `get_article_links`: drop every article link
    whose URL already occurred, keeping the first occurrence and the order. */
module FirstSeen {
  import opened Site
  import opened LinkRules

  function Urls(s: seq<ArticleLink>): set<Url> {
    set l | l in s :: l.url
  }

  predicate DistinctUrls(s: seq<ArticleLink>) {
    forall i, j :: 0 <= i < j < |s| ==> s[i].url != s[j].url
  }

  lemma UrlsAppend(s: seq<ArticleLink>, l: ArticleLink)
    ensures Urls(s + [l]) == Urls(s) + {l.url}
  {
    assert l in s + [l];
    forall u | u in Urls(s) ensures u in Urls(s + [l]) {
      var m :| m in s && m.url == u;
      assert m in s + [l];
    }
  }

  /** The links of `s` with an already seen URL dropped, as a function of the prefix
      processed so far. */
  function Dedup(s: seq<ArticleLink>): (r: seq<ArticleLink>)
    ensures Urls(r) == Urls(s)
    ensures DistinctUrls(r)
    ensures |r| <= |s|
  {
    if s == [] then []
    else
      var d := Dedup(s[..|s| - 1]);
      var l := s[|s| - 1];
      assert s == s[..|s| - 1] + [l];
      UrlsAppend(s[..|s| - 1], l);
      UrlsAppend(d, l);
      if l.url in Urls(d) then d else d + [l]
  }

  /** The position of the first link in `s` with URL `u`. */
  function FirstIndex(s: seq<ArticleLink>, u: Url): (i: nat)
    requires u in Urls(s)
    ensures i < |s| && s[i].url == u
    ensures forall j :: 0 <= j < i ==> s[j].url != u
  {
    if s[0].url == u then 0
    else
      assert u in Urls(s[1..]) by {
        var m :| m in s && m.url == u;
        var k :| 0 <= k < |s| && s[k] == m;
        assert s[1..][k - 1] == m;
      }
      1 + FirstIndex(s[1..], u)
  }

  lemma FirstIndexExtend(s: seq<ArticleLink>, l: ArticleLink, u: Url)
    requires u in Urls(s)
    ensures u in Urls(s + [l]) && FirstIndex(s + [l], u) == FirstIndex(s, u)
  {
    UrlsAppend(s, l);
    var i := FirstIndex(s, u);
    assert (s + [l])[i] == s[i];
  }

  lemma FirstIndexLast(s: seq<ArticleLink>, l: ArticleLink)
    requires l.url !in Urls(s)
    ensures l.url in Urls(s + [l]) && FirstIndex(s + [l], l.url) == |s|
  {
    UrlsAppend(s, l);
  }

  /** Every kept link is the first link of `s` with its URL. */
  lemma {:induction false} DedupKeepsFirst(s: seq<ArticleLink>, k: nat)
    requires k < |Dedup(s)|
    ensures Dedup(s)[k].url in Urls(s)
    ensures Dedup(s)[k] == s[FirstIndex(s, Dedup(s)[k].url)]
  {
    var d := Dedup(s);
    assert d[k] in d;
    var init := s[..|s| - 1];
    var l := s[|s| - 1];
    assert s == init + [l];
    var di := Dedup(init);
    if k < |di| {
      DedupKeepsFirst(init, k);
      assert d[k] == di[k];
      FirstIndexExtend(init, l, di[k].url);
      assert s[FirstIndex(init, di[k].url)] == init[FirstIndex(init, di[k].url)];
    } else {
      assert d == di + [l] && d[k] == l && l.url !in Urls(init);
    }
  }

  /** The kept links appear in the order of their first occurrences in `s`. */
  lemma {:induction false} DedupKeepsOrder(s: seq<ArticleLink>, k1: nat, k2: nat)
    requires k1 < k2 < |Dedup(s)|
    ensures Dedup(s)[k1].url in Urls(s) && Dedup(s)[k2].url in Urls(s)
    ensures FirstIndex(s, Dedup(s)[k1].url) < FirstIndex(s, Dedup(s)[k2].url)
  {
    var d := Dedup(s);
    assert d[k1] in d && d[k2] in d;
    var init := s[..|s| - 1];
    var l := s[|s| - 1];
    assert s == init + [l];
    var di := Dedup(init);
    if k2 < |di| {
      assert d[k1] == di[k1] && d[k2] == di[k2];
      DedupKeepsOrder(init, k1, k2);
      FirstIndexExtend(init, l, di[k1].url);
      FirstIndexExtend(init, l, di[k2].url);
    } else {
      assert d == di + [l];
      assert d[k2] == l && d[k1] == di[k1];
      assert di[k1] in di;
      FirstIndexExtend(init, l, di[k1].url);
      FirstIndexLast(init, l);
    }
  }

  /** De-duplicating a longer list never reorders or drops what the shorter list
      kept: the page's own articles come first in the result. */
  lemma {:induction false} DedupPrefix(a: seq<ArticleLink>, b: seq<ArticleLink>)
    ensures |Dedup(a)| <= |Dedup(a + b)| && Dedup(a + b)[..|Dedup(a)|] == Dedup(a)
  {
    if b == [] {
      assert a + b == a;
    } else {
      var b' := b[..|b| - 1];
      DedupPrefix(a, b');
      assert (a + b)[..|a + b| - 1] == a + b';
    }
  }
}

/** Python's `urllib.parse.urlparse`, to the extent that `scrape_article` uses it:
    the image URL is rebuilt as `scheme://netloc + path`, which drops the query, the
    fragment and any `;params` (the URI components of section 3 of RFC 3986, split
    the way Python splits them). */
module UrlParse {
  import opened Wrappers
  import opened Text

  datatype ParseResult = ParseResult(
    scheme: string, netloc: string, path: string, params: string, query: string, fragment: string)

  /** The schemes whose last path segment may carry `;params`. */
  const USES_PARAMS: set<string> := {"", "ftp", "hdl", "prospero", "http", "imap", "https", "shttp",
    "rtsp", "rtsps", "rtspu", "sip", "sips", "mms", "sftp", "tel"}

  /** C0 control characters and space, stripped from the front of the URL. */
  predicate IsC0OrSpace(c: char) {
    c <= ' '
  }

  function LStripC0(s: string): (r: string)
    ensures |r| <= |s| && r == s[|s| - |r|..]
    ensures r == [] || !IsC0OrSpace(r[0])
    ensures s != [] && !IsC0OrSpace(s[0]) ==> r == s
  {
    if s != [] && IsC0OrSpace(s[0]) then LStripC0(s[1..]) else s
  }

  /** Tab, carriage return and line feed are deleted wherever they occur. */
  predicate IsUnsafe(c: char) {
    c == '\t' || c == '\r' || c == '\n'
  }

  predicate NoUnsafe(s: string) {
    forall i :: 0 <= i < |s| ==> !IsUnsafe(s[i])
  }

  function RemoveUnsafe(s: string): (r: string)
    ensures NoUnsafe(r)
    ensures NoUnsafe(s) ==> r == s
  {
    if s == [] then []
    else (if IsUnsafe(s[0]) then [] else [s[0]]) + RemoveUnsafe(s[1..])
  }

  predicate IsAsciiLetter(c: char) {
    'a' <= c <= 'z' || 'A' <= c <= 'Z'
  }

  predicate IsSchemeChar(c: char) {
    IsAsciiLetter(c) || '0' <= c <= '9' || c == '+' || c == '-' || c == '.'
  }

  /** A scheme is the text before the first ':' when it starts with an ASCII letter
      and has only scheme characters; it is lower-cased. Otherwise there is none. */
  function SplitScheme(url: string): (r: (string, string))
    ensures forall i :: 0 <= i < |r.0| ==> IsSchemeChar(r.0[i])
  {
    match Find(url, ':')
    case Some(i) =>
      if i > 0 && IsAsciiLetter(url[0]) && forall j :: 0 <= j < i ==> IsSchemeChar(url[j])
      then (Lower(url[..i]), url[i + 1..])
      else ("", url)
    case None => ("", url)
  }

  predicate IsNetlocDelim(c: char) {
    c == '/' || c == '?' || c == '#'
  }

  /** The index of the first '/', '?' or '#', or the length when there is none. */
  function DelimIndex(s: string): (r: nat)
    ensures r <= |s|
    ensures forall j :: 0 <= j < r ==> !IsNetlocDelim(s[j])
    ensures r < |s| ==> IsNetlocDelim(s[r])
  {
    if s == [] || IsNetlocDelim(s[0]) then 0 else 1 + DelimIndex(s[1..])
  }

  /** After "//", the network location runs up to the first '/', '?' or '#'. */
  function SplitNetloc(url: string): (r: (string, string))
    ensures forall i :: 0 <= i < |r.0| ==> !IsNetlocDelim(r.0[i])
  {
    if StartsWith(url, "//") then
      var t := url[2..];
      var d := DelimIndex(t);
      (t[..d], t[d..])
    else ("", url)
  }

  /** A network location with an opening bracket but no closing one, or the other way
      round, is an invalid IPv6 address and raises `ValueError`. */
  predicate MismatchedBrackets(netloc: string) {
    ('[' in netloc) != (']' in netloc)
  }

  /** `s.split(c, 1)`: the text before the first `c`, and the text after it if any. */
  function SplitAt(s: string, c: char): (r: (string, Option<string>))
    ensures c !in r.0
    ensures |r.0| <= |s| && r.0 == s[..|r.0|]
    ensures r.1.None? <==> c !in s
    ensures c !in s ==> r.0 == s
  {
    if s == [] then ([], None)
    else if s[0] == c then ([], Some(s[1..]))
    else
      var rest := SplitAt(s[1..], c);
      ([s[0]] + rest.0, rest.1)
  }

  /** The index of the last occurrence of `c`. */
  function LastIndex(s: string, c: char): (r: nat)
    requires c in s
    ensures r < |s| && s[r] == c && c !in s[r + 1..]
  {
    if s[|s| - 1] == c then |s| - 1 else LastIndex(s[..|s| - 1], c)
  }

  /** `_splitparams`: the `;params` start at the first ';' of the last path segment
      (of the whole path when it has no '/'). */
  function SplitParams(path: string): (r: (string, string))
    requires ';' in path
    ensures |r.0| <= |path| && r.0 == path[..|r.0|]
  {
    if '/' in path then
      var k := LastIndex(path, '/');
      match Find(path[k..], ';')
      case None => (path, "")
      case Some(j) => (path[..k + j], path[k + j + 1..])
    else
      var i := Find(path, ';').value;
      (path[..i], path[i + 1..])
  }

  /** `urlparse(url)`, with `None` for the one `ValueError` modelled: a network
      location whose brackets do not match. */
  function Parse(url: string): Option<ParseResult> {
    var u := RemoveUnsafe(LStripC0(url));
    var (scheme, afterScheme) := SplitScheme(u);
    var (netloc, afterNetloc) := SplitNetloc(afterScheme);
    if MismatchedBrackets(netloc) then None
    else
      var (beforeHash, fragment) := SplitAt(afterNetloc, '#');
      var (beforeQuery, query) := SplitAt(beforeHash, '?');
      var (path, params) :=
        if scheme in USES_PARAMS && ';' in beforeQuery then SplitParams(beforeQuery) else (beforeQuery, "");
      Some(ParseResult(scheme, netloc, path, params, query.GetOr(""), fragment.GetOr("")))
  }

  /** `f"{p.scheme}://{p.netloc}{p.path}"` for `p = urlparse(raw)`. */
  function ImageUrl(raw: string): Option<string> {
    match Parse(raw)
    case None => None
    case Some(p) => Some(p.scheme + "://" + p.netloc + p.path)
  }

  // ---------------------------------------------------------------------------
  // What the normalised image URL is

  /** The path of a parse holds no '?' or '#', and neither does the network location. */
  lemma ParseComponents(url: string)
    requires Parse(url).Some?
    ensures var p := Parse(url).value;
      && '?' !in p.netloc && '#' !in p.netloc
      && '?' !in p.path && '#' !in p.path
      && forall i :: 0 <= i < |p.scheme| ==> IsSchemeChar(p.scheme[i])
  {
    var u := RemoveUnsafe(LStripC0(url));
    var (scheme, afterScheme) := SplitScheme(u);
    var (netloc, afterNetloc) := SplitNetloc(afterScheme);
    var (beforeHash, fragment) := SplitAt(afterNetloc, '#');
    var (beforeQuery, query) := SplitAt(beforeHash, '?');
    assert '#' !in beforeQuery by {
      assert beforeQuery == beforeHash[..|beforeQuery|];
    }
    if scheme in USES_PARAMS && ';' in beforeQuery {
      var path := SplitParams(beforeQuery).0;
      assert path == beforeQuery[..|path|];
    }
  }

  /** The rebuilt image URL never carries a query or a fragment. */
  lemma ImageUrlHasNoQueryOrFragment(raw: string)
    requires ImageUrl(raw).Some?
    ensures '?' !in ImageUrl(raw).value && '#' !in ImageUrl(raw).value
  {
    var p := Parse(raw).value;
    ParseComponents(raw);
    var r := p.scheme + "://" + p.netloc + p.path;
    forall i | 0 <= i < |r| ensures r[i] != '?' && r[i] != '#' {
      if i < |p.scheme| {
        assert r[i] == p.scheme[i];
      } else if i < |p.scheme| + 3 {
      } else if i < |p.scheme| + 3 + |p.netloc| {
        assert r[i] == p.netloc[i - |p.scheme| - 3];
      } else {
        assert r[i] == p.path[i - |p.scheme| - 3 - |p.netloc|];
      }
    }
  }

  // ---------------------------------------------------------------------------
  // A clean absolute URL is kept, and a query or fragment after it is dropped

  /** A lower-case scheme: an ASCII letter first, then scheme characters. */
  predicate CleanScheme(s: string) {
    && s != [] && 'a' <= s[0] <= 'z'
    && forall i :: 0 <= i < |s| ==> IsSchemeChar(s[i]) && !('A' <= s[i] <= 'Z')
  }

  /** A host (and port) with no delimiter or deleted character. */
  predicate HostText(n: string) {
    forall i :: 0 <= i < |n| ==> !IsNetlocDelim(n[i]) && !IsUnsafe(n[i])
  }

  /** ... and without brackets. */
  predicate CleanNetloc(n: string) {
    HostText(n) && '[' !in n && ']' !in n
  }

  /** An absolute path with no query, fragment, parameter or deleted character. */
  predicate CleanPath(p: string) {
    && StartsWith(p, "/")
    && forall i :: 0 <= i < |p| ==> p[i] != '?' && p[i] != '#' && p[i] != ';' && !IsUnsafe(p[i])
  }

  lemma RemoveUnsafeAppend(a: string, b: string)
    ensures RemoveUnsafe(a + b) == RemoveUnsafe(a) + RemoveUnsafe(b)
  {
    if a == [] {
      assert a + b == b;
    } else {
      assert (a + b)[0] == a[0] && (a + b)[1..] == a[1..] + b;
      RemoveUnsafeAppend(a[1..], b);
      var h := if IsUnsafe(a[0]) then [] else [a[0]];
      assert h + (RemoveUnsafe(a[1..]) + RemoveUnsafe(b)) == (h + RemoveUnsafe(a[1..])) + RemoveUnsafe(b);
    }
  }

  lemma {:induction false} SplitAtAppend(a: string, b: string, c: char)
    requires c !in a
    ensures SplitAt(a + b, c).0 == a + SplitAt(b, c).0
    ensures SplitAt(a + b, c).1 == SplitAt(b, c).1
  {
    if a == [] {
      assert a + b == b;
    } else {
      var ab := a + b;
      assert ab[0] == a[0] && ab[1..] == a[1..] + b;
      SplitAtAppend(a[1..], b, c);
      var rest := SplitAt(ab[1..], c);
      assert SplitAt(ab, c) == ([a[0]] + rest.0, rest.1);
      assert [a[0]] + (a[1..] + SplitAt(b, c).0) == a + SplitAt(b, c).0;
    }
  }

  lemma DelimIndexAppend(a: string, b: string)
    requires forall i :: 0 <= i < |a| ==> !IsNetlocDelim(a[i])
    requires b != [] && IsNetlocDelim(b[0])
    ensures DelimIndex(a + b) == |a|
  {
    if a != [] {
      assert (a + b)[1..] == a[1..] + b;
      DelimIndexAppend(a[1..], b);
    }
  }

  lemma LowerClean(s: string)
    requires CleanScheme(s)
    ensures Lower(s) == s
  {
  }

  /** The text the splitting starts from: nothing is stripped or deleted from the
      clean part, and the tail keeps its first character. */
  lemma CleanPrepared(s: string, n: string, p: string, tail: string)
    requires CleanScheme(s) && HostText(n) && CleanPath(p)
    ensures var t' := RemoveUnsafe(tail);
      && RemoveUnsafe(LStripC0(s + "://" + n + p + tail)) == s + ":" + ("//" + n + (p + t'))
      && (tail != [] && !IsUnsafe(tail[0]) ==> t' != [] && t'[0] == tail[0])
  {
    var clean := s + "://" + n + p;
    assert (clean + tail)[0] == s[0];
    assert LStripC0(clean + tail) == clean + tail;
    RemoveUnsafeAppend(clean, tail);
    CleanNoUnsafe(s, n, p);
    if tail != [] && !IsUnsafe(tail[0]) {
      RemoveUnsafeHead(tail);
    }
    RegroupUrl(s, n, p, RemoveUnsafe(tail));
  }

  lemma CleanNoUnsafe(s: string, n: string, p: string)
    requires CleanScheme(s) && HostText(n) && CleanPath(p)
    ensures NoUnsafe(s + "://" + n + p)
  {
    var clean := s + "://" + n + p;
    forall i | 0 <= i < |clean| ensures !IsUnsafe(clean[i]) {
      if i < |s| {
        assert clean[i] == s[i];
      } else if i < |s| + 3 {
      } else if i < |s| + 3 + |n| {
        assert clean[i] == n[i - |s| - 3];
      } else {
        assert clean[i] == p[i - |s| - 3 - |n|];
      }
    }
  }

  lemma RemoveUnsafeHead(t: string)
    requires t != [] && !IsUnsafe(t[0])
    ensures RemoveUnsafe(t) != [] && RemoveUnsafe(t)[0] == t[0]
  {
    assert RemoveUnsafe(t) == [t[0]] + RemoveUnsafe(t[1..]);
  }

  lemma RegroupUrl(s: string, n: string, p: string, t: string)
    ensures s + "://" + n + p + t == s + ":" + ("//" + n + (p + t))
  {
    assert "://" == ":" + "//";
  }

  /** A clean scheme followed by "://" is taken as the scheme, unchanged. */
  lemma CleanSchemeSplit(s: string, rest: string)
    requires CleanScheme(s)
    ensures SplitScheme(s + ":" + rest) == (s, rest)
  {
    var u := s + ":" + rest;
    assert u[|s|] == ':';
    assert forall i :: 0 <= i < |s| ==> u[i] == s[i];
    var k := Find(u, ':').value;
    assert k >= |s| by {
      assert forall i :: 0 <= i < |s| ==> u[i] != ':';
    }
    assert k <= |s| by {
      assert ':' !in u[..k];
      assert forall m :: |s| < m <= |u| ==> u[..m][|s|] == ':';
    }
    assert u[..|s|] == s;
    assert u[|s| + 1..] == rest;
    LowerClean(s);
  }

  /** After "//", a clean host is the network location. */
  lemma CleanNetlocSplit(n: string, p: string, t: string)
    requires HostText(n) && CleanPath(p)
    ensures SplitNetloc("//" + n + (p + t)) == (n, p + t)
  {
    var rest := p + t;
    assert rest[0] == p[0] == '/';
    var u := "//" + n + rest;
    assert StartsWith(u, "//");
    assert u[2..] == n + rest;
    DelimIndexAppend(n, rest);
    assert (n + rest)[..|n|] == n && (n + rest)[|n|..] == rest;
  }

  /** A clean path followed by nothing, a query or a fragment is the path. */
  lemma CleanPathSplit(p: string, t: string)
    requires CleanPath(p)
    requires t == [] || t[0] == '?' || t[0] == '#'
    ensures var beforeHash := SplitAt(p + t, '#').0;
      && SplitAt(beforeHash, '?').0 == p
      && ';' !in p
  {
    assert '#' !in p && '?' !in p && ';' !in p;
    SplitAtAppend(p, t, '#');
    var h := SplitAt(t, '#').0;
    SplitAtAppend(p, h, '?');
    if t != [] && t[0] == '?' {
      assert h != [] && h[0] == '?';
    }
    if t != [] && t[0] == '#' {
      assert h == [];
    }
    if t == [] {
      assert h == [];
    }
    assert SplitAt(h, '?').0 == [];
    assert p + [] == p;
  }

  /** The URL the scrape would store for `scheme://netloc/path` followed by nothing,
      by a query, or by a fragment, is `scheme://netloc/path`. */
  lemma CleanUrlKept(s: string, n: string, p: string, tail: string)
    requires CleanScheme(s) && CleanNetloc(n) && CleanPath(p)
    requires tail == [] || tail[0] == '?' || tail[0] == '#'
    ensures ImageUrl(s + "://" + n + p + tail) == Some(s + "://" + n + p)
  {
    CleanPrepared(s, n, p, tail);
    var t' := RemoveUnsafe(tail);
    CleanSchemeSplit(s, "//" + n + (p + t'));
    CleanNetlocSplit(n, p, t');
    CleanPathSplit(p, t');
  }

  /** `scheme://netloc/path` followed by nothing, a query or a fragment parses into
      that scheme, network location and path. */
  lemma CleanUrlParsed(s: string, n: string, p: string, tail: string)
    requires CleanScheme(s) && CleanNetloc(n) && CleanPath(p)
    requires tail == [] || tail[0] == '?' || tail[0] == '#'
    ensures var r := Parse(s + "://" + n + p + tail);
      r.Some? && r.value.scheme == s && r.value.netloc == n && r.value.path == p
  {
    CleanPrepared(s, n, p, tail);
    var t' := RemoveUnsafe(tail);
    CleanSchemeSplit(s, "//" + n + (p + t'));
    CleanNetlocSplit(n, p, t');
    CleanPathSplit(p, t');
  }

  /** With a scheme that takes parameters, `;params` after the last '/' are dropped
      as well. */
  lemma CleanUrlParamsDropped(s: string, n: string, p: string, params: string)
    requires CleanScheme(s) && CleanNetloc(n) && CleanPath(p) && s in USES_PARAMS
    requires forall i :: 0 <= i < |params| ==> params[i] != '/' && params[i] != '?' && params[i] != '#' && !IsUnsafe(params[i])
    ensures ImageUrl(s + "://" + n + p + (";" + params)) == Some(s + "://" + n + p)
  {
    var q := ";" + params;
    assert NoUnsafe(q);
    CleanPrepared(s, n, p, q);
    CleanSchemeSplit(s, "//" + n + (p + q));
    CleanNetlocSplit(n, p, q);
    assert '#' !in p + q && '?' !in p + q;
    assert SplitAt(p + q, '#').0 == p + q;
    assert SplitAt(p + q, '?').0 == p + q;
    assert (p + q)[|p|] == ';';
    ParamsAfterLastSlash(p, q);
  }

  lemma ParamsAfterLastSlash(p: string, q: string)
    requires CleanPath(p) && q != [] && q[0] == ';' && '/' !in q
    ensures ';' in p + q && SplitParams(p + q).0 == p
  {
    var pq := p + q;
    assert pq[0] == '/' && pq[|p|] == ';';
    var k := LastIndex(pq, '/');
    LastSlashInPath(p, q);
    assert pq[k..] == p[k..] + q;
    FirstSemicolon(p[k..], q);
    assert pq[..k + (|p| - k)] == p;
  }

  lemma LastSlashInPath(p: string, q: string)
    requires '/' in p && '/' !in q
    ensures LastIndex(p + q, '/') < |p|
  {
    var pq := p + q;
    var k := LastIndex(pq, '/');
    assert forall i :: |p| <= i < |pq| ==> pq[i] == q[i - |p|];
  }

  lemma FirstSemicolon(a: string, q: string)
    requires ';' !in a && q != [] && q[0] == ';'
    ensures Find(a + q, ';') == Some(|a|)
  {
    var s := a + q;
    assert s[|a|] == ';';
    var j := Find(s, ';').value;
    assert j >= |a| by {
      assert forall i :: 0 <= i < |a| ==> s[i] == a[i];
    }
    assert j <= |a| by {
      assert ';' !in s[..j];
      assert forall m :: |a| < m <= |s| ==> s[..m][|a|] == ';';
    }
  }

  /** A host with an unmatched bracket makes the parse raise, and the article is dropped. */
  lemma UnmatchedBracketRaises(s: string, n: string, p: string)
    requires CleanScheme(s) && HostText(n) && CleanPath(p) && MismatchedBrackets(n)
    ensures ImageUrl(s + "://" + n + p) == None
  {
    var url := s + "://" + n + p;
    var e: string := [];
    CleanPrepared(s, n, p, e);
    assert url + e == url && p + e == p && RemoveUnsafe(e) == e;
    var rest := "//" + n + p;
    assert RemoveUnsafe(LStripC0(url)) == s + ":" + rest;
    CleanSchemeSplit(s, rest);
    CleanNetlocSplit(n, p, e);
    assert SplitNetloc(rest).0 == n;
  }
}

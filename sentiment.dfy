/** Sentiment of a news item (scrapping/ai_views.py): the text sent to the
    classifier is assembled from the headline and a truncated description, and the
    classifier's free-text reply is mapped to a verdict. The chat-completion call is an
    oracle from the text sent to its reply. */
module Sentiment {
  import opened Wrappers
  import opened Text

  /** What the classifier call gives back: `Fail` when the call raises, or when the
      reply has no text to strip. */
  datatype Reply = Fail | Content(text: string)

  type Oracle = string -> Reply

  datatype Label = Positive | Negative | Neutral

  /** The string the verdict is returned (and stored) as. */
  function Name(l: Label): string {
    match l
    case Positive => "positive"
    case Negative => "negative"
    case Neutral => "neutral"
  }

  /** A call's answer, `None` for the error the source reports as `None`, together
      with every text that was sent to the classifier. */
  datatype Outcome = Outcome(verdict: Option<Label>, sent: seq<string>)

  /** The reply mapping: the stripped, lower-cased reply is taken as is when it is
      exactly "positive" or "negative"; otherwise it is "positive" if it mentions
      positive, else "negative" if it mentions negative, else "neutral". */
  function MapReply(reply: string): (r: Label)
    ensures var s := Lower(Strip(reply));
      && (r == Positive <==> Contains(s, "positive"))
      && (r == Negative <==> !Contains(s, "positive") && Contains(s, "negative"))
      && (r == Neutral <==> !Contains(s, "positive") && !Contains(s, "negative"))
  {
    var s := Lower(Strip(reply));
    if s == "positive" then (StartsWithContains(s, "positive"); Positive)
    else if s == "negative" then
      (StartsWithContains(s, "negative"); NotPositiveWhenNegative(s); Negative)
    else if Contains(s, "positive") then Positive
    else if Contains(s, "negative") then Negative
    else Neutral
  }

  lemma NotPositiveWhenNegative(s: string)
    requires s == "negative"
    ensures !Contains(s, "positive")
  {
    forall i | 0 <= i <= |s| - |"positive"| ensures !OccursAt(s, "positive", i) {
      assert i == 0;
      assert s[0] != "positive"[0];
    }
  }

  /** `get_openai_sentiment(text)`: empty or all-whitespace text is "neutral" without
      a call; otherwise the text is sent once and the reply mapped, a failed call
      giving `None`. */
  function GetOpenAISentiment(text: string, oracle: Oracle): (r: Outcome)
    ensures IsBlank(text) ==> r == Outcome(Some(Neutral), [])
    ensures !IsBlank(text) ==> r.sent == [text]
    ensures r.verdict.None? <==> !IsBlank(text) && oracle(text).Fail?
    ensures !IsBlank(text) && oracle(text).Content? ==> r.verdict == Some(MapReply(oracle(text).text))
  {
    if text == [] || IsBlank(text) then Outcome(Some(Neutral), [])
    else
      match oracle(text)
      case Fail => Outcome(None, [text])
      case Content(reply) => Outcome(Some(MapReply(reply)), [text])
  }

  const MAX_DESC_CHARS := 3000

  /** The description cut to its first 3000 characters, with "..." after it when
      something was cut. */
  function Truncate(d: string): (r: string)
    ensures |d| <= MAX_DESC_CHARS ==> r == d
    ensures |d| > MAX_DESC_CHARS ==> r == d[..MAX_DESC_CHARS] + "..."
  {
    var t := if |d| <= MAX_DESC_CHARS then d else d[..MAX_DESC_CHARS];
    if |d| > MAX_DESC_CHARS then t + "..." else t
  }

  /** The argument of `analyze_news_item_sentiment`: anything that is not a dict, or
      a dict with (perhaps) a "Headline" and a "Description". */
  datatype NewsData = NotADict | Dict(headline: Option<string>, description: Option<string>)

  /** The parts of the text, in order: "Headline: h" when the headline is non-empty,
      "Description: d" (truncated) when the description is. */
  function Parts(headline: string, description: string): (r: seq<string>)
    ensures |r| <= 2
    ensures r == [] <==> headline == "" && description == ""
  {
    (if headline != "" then ["Headline: " + headline] else [])
      + (if description != "" then ["Description: " + Truncate(description)] else [])
  }

  /** The text sent for a headline and a description: the parts joined by a blank line. */
  function Prompt(headline: string, description: string): string {
    Join(Parts(headline, description), "\n\n")
  }

  /** `analyze_news_item_sentiment(news_data)` */
  function AnalyzeNewsItemSentiment(news: NewsData, oracle: Oracle): Outcome {
    match news
    case NotADict => Outcome(None, [])
    case Dict(h, d) =>
      var headline, description := h.GetOr(""), d.GetOr("");
      if Parts(headline, description) == [] then Outcome(Some(Neutral), [])
      else GetOpenAISentiment(Prompt(headline, description), oracle)
  }

  // ---------------------------------------------------------------------------

  lemma RegroupPrompt(a: string, b: string, c: string, d: string, e: string)
    ensures (a + b) + c + (d + e) == a + (b + c + d + e)
    ensures a + (b + c + d + e) == a + b + c + d + e
  {
    assert (a + b) + c + (d + e) == a + (b + c + d + e);
  }

  lemma PrefixedNotBlank(p: string, s: string)
    requires p != [] && !IsSpace(p[0])
    ensures !IsBlank(p + s)
  {
    assert (p + s)[0] == p[0];
  }

  /** The text sent for a dict with a non-empty headline or description: the
      headline part, the description part, or both joined by a blank line. */
  lemma {:induction false} AnalyzeSends(h: string, d: string, oracle: Oracle)
    requires h != "" || d != ""
    ensures var sent := AnalyzeNewsItemSentiment(Dict(Some(h), Some(d)), oracle).sent;
      && (h != "" && d != "" ==> sent == ["Headline: " + h + "\n\n" + "Description: " + Truncate(d)])
      && (h != "" && d == "" ==> sent == ["Headline: " + h])
      && (h == "" && d != "" ==> sent == ["Description: " + Truncate(d)])
  {
    var parts := Parts(h, d);
    if h != "" && d != "" {
      assert parts == ["Headline: " + h, "Description: " + Truncate(d)];
      JoinTwo("Headline: " + h, "Description: " + Truncate(d), "\n\n");
      RegroupPrompt("Headline: ", h, "\n\n", "Description: ", Truncate(d));
      PrefixedNotBlank("Headline: ", h + "\n\n" + "Description: " + Truncate(d));
    } else if h != "" {
      assert parts == ["Headline: " + h];
      PrefixedNotBlank("Headline: ", h);
    } else {
      assert parts == ["Description: " + Truncate(d)];
      PrefixedNotBlank("Description: ", Truncate(d));
    }
  }

  /** A dict with a non-empty field sends a text that is not blank, so the call is made. */
  lemma PromptNotBlank(h: string, d: string)
    requires h != "" || d != ""
    ensures !IsBlank(Prompt(h, d))
  {
    var parts := Parts(h, d);
    if h != "" && d != "" {
      assert parts == ["Headline: " + h, "Description: " + Truncate(d)];
      JoinTwo("Headline: " + h, "Description: " + Truncate(d), "\n\n");
      RegroupPrompt("Headline: ", h, "\n\n", "Description: ", Truncate(d));
      PrefixedNotBlank("Headline: ", h + "\n\n" + "Description: " + Truncate(d));
      assert Prompt(h, d) == "Headline: " + (h + "\n\n" + "Description: " + Truncate(d));
    } else if h != "" {
      assert parts == ["Headline: " + h];
      PrefixedNotBlank("Headline: ", h);
    } else {
      assert parts == ["Description: " + Truncate(d)];
      PrefixedNotBlank("Description: ", Truncate(d));
    }
  }

  /** The outcome is `None` only for a non-dict argument or a failed call; a dict
      with neither field gives "neutral" without a call. */
  lemma {:induction false} AnalyzeNone(news: NewsData, oracle: Oracle)
    ensures var o := AnalyzeNewsItemSentiment(news, oracle);
      && (news.NotADict? ==> o == Outcome(None, []))
      && (news.Dict? && news.headline.GetOr("") == "" && news.description.GetOr("") == "" ==>
            o == Outcome(Some(Neutral), []))
      && (o.verdict.None? <==> news.NotADict? || (|o.sent| == 1 && oracle(o.sent[0]).Fail?))
  {
    if news.Dict? {
      var h, d := news.headline.GetOr(""), news.description.GetOr("");
      if h != "" || d != "" {
        PromptNotBlank(h, d);
      }
    }
  }

  /** For a dict with a non-empty field, the verdict is the mapped reply to the one
      text sent, and `None` exactly when that call fails. */
  lemma AnalyzeVerdict(h: string, d: string, oracle: Oracle)
    requires h != "" || d != ""
    ensures var o := AnalyzeNewsItemSentiment(Dict(Some(h), Some(d)), oracle);
      && o.sent == [Prompt(h, d)]
      && (o.verdict.None? <==> oracle(Prompt(h, d)).Fail?)
      && (oracle(Prompt(h, d)).Content? ==> o.verdict == Some(MapReply(oracle(Prompt(h, d)).text)))
  {
    PromptNotBlank(h, d);
  }
}

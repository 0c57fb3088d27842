# KSAT news back end — a Dafny model

This project models the core of a Django back end. The core has five parts:

- **The KSAT scraper.** It reads the main navigation of https://www.ksat.com and keeps the
  Entertainment, Sports and News categories. It crawls each category's listing pages and
  their subcategories for article links, then scrapes each article for its headline,
  image, description and publication time.
- **The local-news scraper.** It does the same for the Local category. It also asks a
  language model to classify each article before saving it.
- **The news and reactions tables.** Articles are stored with `get_or_create` on their
  title. Users react to an article with a "love" flag and a comment.
- **The `scrape_news` command.** A lock file keeps two of its runs from overlapping.
- **Subscriptions and advertisements.** A periodic job expires subscriptions. Ads get a
  five-character serial number, and their owners or staff update, delete and approve
  them.

Web pages are values: a `SiteMap` maps a URL to what the parser would find on that page.
Fetching a URL that is not in the map fails, as a navigation error does. The database
tables and the host's files are fields of classes that the operations update.
Randomness and the sentiment service come in as parameters: a list of draws and a
function from prompt to reply.

Module layout:

| module | what it models |
|---|---|
| `Wrappers` | `Option` and `Result` |
| `Sets` | a cardinality fact about finite sets |
| `Text` | `str.strip`, `lower`, `startswith`, `in`, `find`, `" ".join` |
| `Site` | the pages the scraper can reach |
| `LinkRules` | how one listing span is judged (resolve, filter, classify) |
| `Nav` | `get_nav_links` |
| `FirstSeen` | the keep-the-first-occurrence pass over article links |
| `Crawl` | `get_article_links` (both variants) and its recursion through subcategories |
| `UrlParse` | `urllib.parse.urlparse`, as far as the image URL needs it |
| `DateFormat` | `datetime.strptime(s, "%Y-%m-%dT%H:%M:%S.%fZ").date()` |
| `Extract` | `scrape_article` |
| `Sentiment` | `get_openai_sentiment`, `analyze_news_item_sentiment` |
| `NewsDb` | the `News` and `Reaction` tables and the reaction/delete views |
| `Ingest` | `scrape_ksat`, `scrape_and_save_ksat_news`, `scrape_and_save_local_news` |
| `ScrapeCommand` | the `scrape_news` management command |
| `Subscriptions` | `check_expired_subscriptions` |
| `HttpStatus` | the status codes the views answer with |
| `Ads` | the advertisement models, serializer and views; the update and delete views come in two readings of their refusing branch, as written and as evidently intended (see Findings) |

## Model

| member | source | states |
|---|---|---|
| Text.JoinContains | scrapping/new_scrapping.py:121-125 | every part of a `sep.join` occurs in the joined text |
| LinkRules.JoinBase | scrapping/new_scrapping.py:59-60 | `urljoin(BASE_URL, href)` for the hrefs it is given: a path-absolute href is appended to the base; a `//` href with a host takes the base's scheme; a `//` href with an empty host (`///news`, `//?x`) takes the base's scheme and host, so the URL stays on the site root (what it does not do is listed under Left out) |
| LinkRules.JoinRootParsed | scrapping/new_scrapping.py:59-60 | a root-relative href with a clean path and no `.` or `..` segment joins to a URL that `urlparse` splits into scheme `https`, host `www.ksat.com` and the href's path, without its query or fragment |
| LinkRules.JoinProtocolRelativeParsed | scrapping/scrape_local_news.py:54 | a `//host/path` href with a non-empty, clean ASCII host joins to a URL that `urlparse` splits into scheme `https`, that host and that path |
| LinkRules.JoinEmptyHostParsed | scrapping/scrape_local_news.py:54 | a `///path` href (empty host) with a clean path and no `.` or `..` segment joins to a URL that `urlparse` splits into scheme `https`, host `www.ksat.com` and that path |
| UrlParse.CleanUrlParsed | scrapping/new_scrapping.py:114-115 | a clean `scheme://netloc/path` URL, with any query or fragment, parses into that scheme, netloc and path |
| LinkRules.Resolve | scrapping/new_scrapping.py:57-62 | a `/…` href is joined to the base in both variants; the general variant keeps an `http…` href as it is and skips any other (iff); the local variant keeps every other href as it is |
| LinkRules.Judge | scrapping/new_scrapping.py:53-79 | a span with no anchor raises in the general variant (iff) and is skipped in the local one; off-site, visited and excluded URLs are skipped; a dated path, `/article` or a `/news/<slug>/` ending makes an article; otherwise a URL containing the listing's URL without its trailing slash makes a subcategory |
| LinkRules.ScanSpans | scrapping/new_scrapping.py:53-79 | the first loop of `get_article_links` over the spans, in order: every span's `Judge` verdict is added to the articles or subcategories, and the first raising span ends the scan; its ensures states that such an error is `MissingAnchor(listing)`, and `ScanRaisesExactly`, `ScanKeepsArticles` and `ScanKeepsSubcategories` state what it keeps |
| LinkRules.ScanRaisesExactly | scrapping/new_scrapping.py:53-55 | the scan of a listing fails iff some span raises |
| LinkRules.ScanKeepsArticles | scrapping/new_scrapping.py:76-77 | a link is among the scan's articles iff some span is judged an article with that URL and time |
| LinkRules.ScanKeepsSubcategories | scrapping/new_scrapping.py:78-79 | a URL is among the scan's subcategories iff some span is judged a subcategory with that URL |
| LinkRules.LocalScanNeverRaises | scrapping/scrape_local_news.py:51-52 | the local variant's scan never fails, since it skips a span without an anchor |
| Nav.GetNavLinks | scrapping/new_scrapping.py:14-29 | no home page is a fetch error; no main navigation gives an empty result; otherwise the result is the filtered anchors, each later one replacing an earlier one of the same name |
| Nav.NavLinks | scrapping/new_scrapping.py:20-28 | the dict the loop builds: each qualifying anchor (a target name, an href starting with `/`) sets its stripped text to its joined href; a name seen again keeps its place and takes the new URL (`Nav.Put`); `Nav.NavLinksKeys` and `Nav.NavLinksLastWins` state what it holds |
| Nav.NavLinksKeys | scrapping/new_scrapping.py:20-28 | the result has one entry per name, and every name is a target category |
| Nav.NavLinksLastWins | scrapping/new_scrapping.py:28 | the URL kept for a name is the last qualifying anchor's |
| Nav.LastLinkForSome | scrapping/new_scrapping.py:26-28 | a name is kept when some anchor qualifies with it |
| Nav.LastLinkForWitness | scrapping/new_scrapping.py:26-28 | a name is kept only when some anchor qualifies with it, and its URL is that anchor's href joined to the base |
| FirstSeen.Dedup | scrapping/new_scrapping.py:85-92 | same set of URLs, no URL twice, no longer than the input |
| FirstSeen.DedupKeepsFirst | scrapping/new_scrapping.py:88-90 | the link kept for a URL is its first occurrence |
| FirstSeen.DedupKeepsOrder | scrapping/new_scrapping.py:87-89 | kept links appear in the order of their first occurrences |
| FirstSeen.DedupPrefix | scrapping/scrape_local_news.py:72-79 | deduplicating a concatenation starts with the deduplicated first part |
| Crawl.Discover | scrapping/new_scrapping.py:31-92 | the visited set only grows; an already visited listing gives no links and no fetch; otherwise the listing is the first page fetched |
| Crawl.DiscoverFrugal | scrapping/new_scrapping.py:35-37 | the visited set grows by exactly the listings fetched, none fetched twice and none that was visited before |
| Crawl.DiscoverFindsArticles | scrapping/new_scrapping.py:76-83 | every returned link is an on-site article link that was not visited before the call |
| Crawl.DiscoverOwnFirst | scrapping/new_scrapping.py:81-92 | the result has distinct URLs and starts with the listing's own deduplicated articles, ahead of the subcategories' |
| Crawl.DiscoverAll | scrapping/new_scrapping.py:81-83 | the recursive crawl of the subcategory URLs in order: each is crawled with the visited set the previous one left, the results are concatenated, and the first one that raises ends the loop; its ensures states that the visited set only grows |
| Crawl.LinkCrawler.GetArticleLinks | scrapping/new_scrapping.py:31-92 | the method returns the links of `Crawl.Discover` and leaves the shared visited set as it defines |
| Crawl.LinkCrawler.CrawlSubcategories | scrapping/new_scrapping.py:81-83 | the loop over subcategories threads the visited set and gathers their links in order |
| Crawl.LinkCrawler.ScanListing | scrapping/new_scrapping.py:53-79 | the loop over spans computes the scan of the listing, with its first error |
| Crawl.DedupLinks | scrapping/new_scrapping.py:85-92 | the loop with a `seen` set computes the first-occurrence deduplication |
| UrlParse.Parse | scrapping/new_scrapping.py:114 | `urlparse(url)`: leading C0 controls and spaces stripped, tab, CR and LF deleted, then the scheme, the netloc up to the first `/`, `?` or `#`, the fragment, the query and, for `uses_params` schemes, the `;params` of the last segment; `None` for a netloc with unmatched brackets; `CleanUrlParsed`, `CleanUrlKept`, `CleanUrlParamsDropped` and `UnmatchedBracketRaises` state what it gives |
| UrlParse.ImageUrl | scrapping/new_scrapping.py:113-115 | `f"{scheme}://{netloc}{path}"` of the parse of the raw `src`, `None` when the parse raises; `ImageUrlHasNoQueryOrFragment` and `CleanUrlKept` state what it keeps |
| UrlParse.ImageUrlHasNoQueryOrFragment | scrapping/new_scrapping.py:114-115 | the rebuilt image URL contains neither `?` nor `#` |
| UrlParse.CleanUrlKept | scrapping/new_scrapping.py:114-115 | a clean `scheme://netloc/path` URL, with any query or fragment, comes back as that URL without them |
| UrlParse.CleanUrlParamsDropped | scrapping/scrape_local_news.py:98-99 | `;params` after the last path segment are dropped as well |
| UrlParse.UnmatchedBracketRaises | scrapping/new_scrapping.py:114 | a netloc with one bracket unmatched makes `urlparse` raise |
| DateFormat.ParseIsoDate | scrapping/new_scrapping.py:134-138 | the date of `strptime(s, "%Y-%m-%dT%H:%M:%S.%fZ")`, `None` for each `ValueError`: the string does not have the format's shape, the year is 0, the day is past the end of its month, or the second is 60 or 61; `ParsedDateValid`, `ParsedHasFractionAndZ` and `FormatThenParse` state its properties |
| DateFormat.ParsedDateValid | scrapping/new_scrapping.py:135-136 | a parsed date is a real calendar date, Feb 29 only in leap years |
| DateFormat.ParsedHasFractionAndZ | scrapping/new_scrapping.py:136 | a string that parses contains a `.` and ends in `Z` (or `z`, as strptime ignores case) |
| DateFormat.FormatThenParse | scrapping/new_scrapping.py:134-138 | a well-formed timestamp parses back to its date iff that date is valid, else the parse fails |
| Extract.Kept | scrapping/new_scrapping.py:121-125 | a text is kept iff some paragraph has it as its non-empty stripped text and holds no `<b>`; nothing is added |
| Extract.ScrapeArticle | scrapping/new_scrapping.py:94-155 | an article is returned iff the page loads, has an image with a `src` that parses, and has a `<time datetime>`; the headline is the `<h1>` text or "N/A", the description is built from the kept paragraphs, the post date is the strptime result of the `datetime` attribute, and the other fields are the page's and the caller's |
| Extract.DescriptionContents | scrapping/new_scrapping.py:120-125 | the description is the kept paragraphs joined by single spaces, each one contained in it |
| Extract.ScrapedRecord | scrapping/scrape_local_news.py:81-135 | the headline is the `<h1>` text or "N/A", and "N/A" iff there is no `<h1>` or it reads "N/A"; the description is that of the kept paragraphs; the image has no query; the post date is the strptime result and, when present, a valid date |
| Extract.ScrapedImageDropsQuery | scrapping/new_scrapping.py:113-115 | a clean image `src` with a query string is stored without it |
| Sentiment.MapReply | scrapping/ai_views.py:55-65 | after strip and lower: containing "positive" gives positive; else containing "negative" gives negative; else neutral |
| Sentiment.GetOpenAISentiment | scrapping/ai_views.py:22-69 | blank text gives neutral with no call; otherwise the text is sent once, the verdict is None iff the call fails, and a reply is mapped by `MapReply` |
| Sentiment.Truncate | scrapping/ai_views.py:105-108 | a description of at most 3000 characters is kept as is; a longer one is cut to its first 3000 characters with `...` after them |
| Sentiment.AnalyzeNewsItemSentiment | scrapping/ai_views.py:72-121 | a non-dict gives None with no call; a dict whose headline and description are both empty gives neutral with no call; otherwise the verdict of `GetOpenAISentiment` on `Prompt(h, d)`; `AnalyzeSends`, `AnalyzeVerdict` and `AnalyzeNone` state its outcomes |
| Sentiment.AnalyzeSends | scrapping/ai_views.py:95-118 | the one prompt sent: "Headline: h" and "Description: d" (d cut to 3000 characters plus "..."), each only when non-empty, joined by a blank line |
| Sentiment.PromptNotBlank | scrapping/ai_views.py:95-118 | the prompt of a dict with a non-empty field is never blank, so the call is always made |
| Sentiment.AnalyzeVerdict | scrapping/ai_views.py:91-122 | for a dict with a non-empty field, exactly the prompt is sent; the verdict is None iff that call fails, and otherwise the mapped reply |
| Sentiment.AnalyzeNone | scrapping/ai_views.py:91-113 | a non-dict input gives None with no call; an empty headline and description give neutral with no call; otherwise the verdict is None iff the call fails |
| NewsDb.MatchTitle | scrapping/new_scrapping.py:214-216 | the title lookup reports none, the one match, or more than one (iff) |
| NewsDb.Upserted | scrapping/views.py:63-69 | `love` becomes the given value or false; the comment changes only when given; the creation time is kept |
| NewsDb.NewsTable.GetOrCreateNews | scrapping/new_scrapping.py:213-224 | several matches raise; one match is returned unchanged; otherwise a row with the defaults is inserted, or the insert fails when a column is too long |
| NewsDb.NewsTable.CreateOrUpdateReaction | scrapping/views.py:53-72 | 404 for an unknown article; otherwise 201 when the reaction is new and 200 when it existed, and the stored reaction is the upsert |
| NewsDb.NewsTable.DeleteNews | scrapping/views.py:46-51 | 404 for an unknown article; otherwise 204, the row removed and its reactions with it |
| NewsDb.NewsTable.DeleteUser | scrapping/models.py:23 | deleting a user deletes their reactions |
| NewsDb.InsertedIsFound | scrapping/new_scrapping.py:214-224 | after an insert, the title lookup finds exactly the new row |
| NewsDb.UpsertIdempotent | scrapping/views.py:53-69 | repeating the same reaction request changes nothing more |
| Ingest.ScrapeAllFrom | scrapping/new_scrapping.py:180-184 | a record is collected iff some link's scrape returned it |
| Ingest.ScrapeLinks | scrapping/scrape_local_news.py:157-161 | the loop over links keeps every scrape that returned a record, in order |
| Ingest.RunCategories | scrapping/new_scrapping.py:169-187 | the visited set only grows, and every record belongs to one of the categories |
| Ingest.ScrapeKsat | scrapping/new_scrapping.py:157-190 | no home page is an error; otherwise the records are those of the category loop over the navigation links |
| Ingest.CategoryLoop | scrapping/new_scrapping.py:169-187 | the loop computes `Ingest.RunCategories`: categories in order with one shared visited set, a failing crawl dropping only its own category |
| Ingest.RunNavigatesOnce | scrapping/new_scrapping.py:159-172 | across all categories no listing is fetched twice |
| Ingest.KsatCategories | scrapping/new_scrapping.py:182 | every record's category is one of the target names |
| Ingest.ScrapeAndSaveKsat | scrapping/new_scrapping.py:227-246 | no home page is an error that saves nothing; otherwise each record is saved in order with `get_or_create`, and a failed save skips only that record |
| Ingest.Badge | scrapping/scrape_local_news.py:178-182 | the stored badge is the name of a verdict, or null |
| Ingest.BadgeFollowsReply | scrapping/scrape_local_news.py:178-182 | a record with no headline and no description is badged "neutral"; otherwise the badge is null iff the call on its prompt fails, and else the name of the mapped reply |
| Ingest.LocalRecords | scrapping/scrape_local_news.py:153-165 | every local record has the category "Local"; a failing crawl yields none |
| Ingest.ScrapeAndSaveLocal | scrapping/scrape_local_news.py:142-186 | the crawl of the Local listing, then one classification and one save per record |
| Ingest.SaveLocalRecords | scrapping/scrape_local_news.py:171-186 | the save loop gives the table the save function defines |
| Ingest.SaveKeepsRows | scrapping/new_scrapping.py:231-240 | saving never removes or alters an existing row |
| Ingest.SaveKeepsMatch | scrapping/new_scrapping.py:214-224 | a title that matches one row still matches exactly that row after any further saves |
| Ingest.SaveFirstWins | scrapping/new_scrapping.py:231-240 | the first record with a new title (that fits the columns) creates the row that title finds after the whole loop; later records with that title change nothing |
| ScrapeCommand.DecimalStringValue | scrapping/management/commands/scrape_news.py:21-22 | the lock file's contents read back as the process id |
| ScrapeCommand.Host.Handle | scrapping/management/commands/scrape_news.py:14-32 | an existing lock exits at once and changes nothing; otherwise the lock is written, the scrapes run, and the lock is gone afterwards however they end |
| ScrapeCommand.Host.RunScrapes | scrapping/management/commands/scrape_news.py:25-26 | the general scrape runs, then the local one only if the first returned |
| Subscriptions.SubscriptionTable.CheckExpiredSubscriptions | payment/management/commands/runapscheduler.py:19-33 | the table afterwards is the expiry pass followed by the free pass |
| Subscriptions.CheckExpired | payment/management/commands/runapscheduler.py:19-33 | the table after the check: the expiry pass over active rows whose end is before `now`, then the free pass over the result; `CheckExpiredRow`, `CheckExpiredLeavesNoneDue`, `CheckExpiredIdempotent` and `ExpiryBeforeFree` state what it does to each row |
| Subscriptions.CheckExpiredRow | payment/management/commands/runapscheduler.py:22-33 | an active row past its end date becomes 'expired' and inactive; an active free row started over seven days ago becomes inactive; other rows stay |
| Subscriptions.CheckExpiredLeavesNoneDue | payment/management/commands/runapscheduler.py:22-33 | afterwards no row matches either filter |
| Subscriptions.CheckExpiredIdempotent | payment/management/commands/runapscheduler.py:19-33 | a second check at the same instant changes nothing |
| Subscriptions.ExpiryBeforeFree | payment/management/commands/runapscheduler.py:22-31 | a free row past its end date is marked 'expired' because the expiry pass runs first |
| Ads.FirstFresh | advertisement/models.py:42-46 | the chosen serial is well formed and unused, and there is none iff every draw is taken |
| Ads.FirstFreshAt | advertisement/models.py:42-46 | the chosen serial is that of the first draw not yet stored |
| Ads.GenerateSerialNumber | advertisement/models.py:39-46 | a non-empty serial is kept; an empty one gets the first fresh draw |
| Ads.PresaveKept | advertisement/models.py:39-41 | on a save of an ad that already has a serial, the hook leaves the ad unchanged |
| Ads.SameSerialKeepsUnique | advertisement/models.py:23 | re-saving an ad with its own serial keeps all serials well formed and distinct |
| Ads.FreshSerialKeepsUnique | advertisement/models.py:23 | storing the chosen serial keeps all serials distinct |
| Ads.AdsOfUser | advertisement/views.py:47 | the ads listed for a user are exactly theirs |
| Ads.AdsOfUserInsert | advertisement/serializers.py:21-30 | a created ad joins its owner's list and nobody else's |
| Ads.AdsOfUserSameOwner | advertisement/views.py:69-77 | changing an ad without changing its owner leaves every user's list as it was |
| Ads.AdsOfUserRemove | advertisement/views.py:66 | deleting an ad removes it from its owner's list only |
| Ads.AdsOfUserDropped | advertisement/models.py:11 | after a user is deleted their list is empty and every other user's list is as it was |
| Ads.UpdateKeepsOwners | advertisement/views.py:19-31 | an update, in either reading of the refusing branch, leaves every user's list as it was |
| Ads.UpdateView | advertisement/views.py:19-31 | `advertisement_update` with the serializer's `update` on the tables: 404 for an unknown ad; the refusal code of the reading for a caller who is neither the owner nor staff; otherwise 200, the four `.get` fields applied, and the ad's images replaced by the uploads, only when there are some; `RefusalViewsDiffer` and `UpdateKeepsOwners` relate it to the readings and the owners |
| Ads.DeleteKeepsOwners | advertisement/views.py:58-67 | a delete that answers 204 removes the ad from its owner's list only; any other answer changes no list |
| Ads.DeleteView | advertisement/views.py:58-67 | `advertisement_delete` on the tables: 404 for an unknown ad; the refusal code of the reading for a caller who is neither the owner nor staff; otherwise 204, with the ad and its images removed; `RefusalViewsDiffer` and `DeleteKeepsOwners` relate it to the readings and the owners |
| Ads.RefusalViewsDiffer | advertisement/views.py:25-26 | the update and delete views as written and as intended leave the same tables; their codes differ iff an existing ad is refused, where the written views answer 500 and the intended ones 403 |
| Ads.AdStore.Create | advertisement/serializers.py:21-30 | no user is an error; otherwise the ad is stored with the given fields, views 0 and status pending by default, a fresh serial, and one image row per upload; the new id joins the owner's list only, and the next ids advance by one ad and by the uploads |
| Ads.AdStore.AddImages | advertisement/serializers.py:28-29 | one image row per file, numbered on from `nextImage` and in the files' order (`NewImages`); the ads are unchanged and the table stays valid |
| Ads.AdStore.Update | advertisement/views.py:19-31 | 404 for an unknown ad; the chosen reading's refusal for anyone but the owner or staff; otherwise 200, the given fields change, and a non-empty upload replaces the ad's images; the result is `Ads.UpdateView`, no user's list changes, and the next image id advances only by the uploads of a 200 |
| Ads.ReplacedImages | advertisement/serializers.py:39-42 | after a non-empty upload the ad's images are exactly the uploads; other ads' images are untouched |
| Ads.AdStore.Delete | advertisement/views.py:58-67 | 404 for an unknown ad; the chosen reading's refusal for anyone but the owner or staff; otherwise 204, the ad and its images removed; the result is `Ads.DeleteView`, the next ids stay, and only a 204 removes the ad from its owner's list |
| Ads.AdStore.Approve | advertisement/views.py:69-77 | 403 for non-staff; 404 for an unknown ad; otherwise 200 with the status set to approved; the next ids and every user's list stay |
| Ads.AdStore.DeleteUser | advertisement/models.py:11 | deleting a user deletes their ads and those ads' images; their list is empty afterwards, other users' lists and the next ids stay |

## Left out

- Browsers, HTML and CSS selectors: Playwright navigation and BeautifulSoup parsing are out of scope. A page is modelled as the values the selectors would find on it, and a failed navigation as a URL missing from the site map.
- Timeouts, waits, `print`, logging, `traceback` and the warnings about missing fields: these have no effect on the results.
- `urljoin` in general: only base-relative `/…` and `//…` hrefs are resolved, because those are the only ones the code passes to it.
- LinkRules.JoinBase: three steps of `urljoin` are not modelled, and neither are its errors. Dot segments (`/a/../b`) in a root-relative or empty-host href are not removed. Tab, CR and LF inside the href are not deleted. An empty query, fragment or parameter (`/news?`, `/news/;`) keeps its `?`, `#` or `;` where `urljoin` drops it. For such hrefs the model's URL differs from the source's, so two hrefs the source joins to one URL can count as two links in the navigation, the visited set and the deduplication. The errors `urlsplit` raises on a `//` href's host are not modelled: an unmatched bracket (`//www.ksat.com[/x`), text before the `[` or a bracketed host that is neither IPv6 nor IPvFuture (`//www.ksat.com[x]/news/foo/`, from Python 3.11.4 on), and a non-ASCII host whose NFKC form adds one of `/?#@:` (`//www.ksat.com℀/x`). Each makes `urljoin` raise `ValueError`; the model joins the href to a URL instead, which the crawl can keep as an article. In the source such a raise in `get_nav_links` (scrapping/new_scrapping.py:27) aborts `scrape_ksat` before anything is saved, since the call at :166 is outside any `try`; in the general crawl it drops the category (:171-187), and in the local crawl the `except` at scrapping/scrape_local_news.py:163 ends the run with nothing saved. The model does none of these for such an href. `LinkRules.JoinRootParsed`, `LinkRules.JoinEmptyHostParsed` and `LinkRules.JoinProtocolRelativeParsed` state hrefs for which the join is exact in scheme, host and path: clean paths without dot segments, and clean hosts without brackets.
- `datetime.strptime` is modelled for ASCII digits only. Python also accepts other Unicode digits, and `%f` takes one to six fraction digits.
- LinkRules.IsArticleUrl: `\d` in the dated-path pattern `/\d{4}/\d{2}/\d{2}/` is modelled as an ASCII digit. Python's `re` also matches other Unicode decimal digits there, so such a URL is an article in the source and not in the model.
- UrlParse.Parse: of the `ValueError`s `urlparse` raises, only mismatched brackets in the network location are modelled. A bracketed host that is not a valid IPv6 or IPvFuture address, and a non-ASCII network location whose NFKC form adds `/`, `?`, `#`, `@` or `:`, also raise; the model parses them.
- `published_datetime` is stored as the raw string. Django's conversion of it in `DateTimeField` is not modelled. A value that neither `parse_datetime` nor `parse_date` accepts makes the save raise `ValidationError`, and the source's save loop skips that record; `Ingest.SaveRows` inserts it.
- A column longer than its `CharField` `max_length` is modelled as a failed save (`ValueTooLong`). Whether the database enforces the limit depends on the back end.
- `badge_status` stores the verdict's lowercase name ('positive', 'negative', 'neutral'). The model's choices 'Negative' and 'Positive' are not enforced at save time, so they are not modelled.
- The language model: the chat-completion call is a function from prompt to reply, where `Fail` stands for any exception. The prompt's system text, the model name and the temperature are left out.
- Sentiment.MapReply: `lower()` is modelled for ASCII letters only.
- Ads.GenerateSerialNumber: the endless `random.choices` loop becomes a finite list of draws. When every draw is taken, the model returns None where the source would keep drawing.
- The APScheduler wiring, the job store and `delete_old_job_executions` are left out, because they only schedule calls.
- The subscription model file is not part of this model. Its columns are taken from the filters: status, is_active, start_date and end_date.
- ScrapeCommand.Host.Handle: a race between two processes creating the lock, file-system errors and `sys.exit`'s process exit are not modelled.
- Request parsing and validation by Django REST framework are left out: 400 responses, authentication and serializer output. Callers of the views are authenticated users identified by id.
- Ads.AdStore.Create takes `views` and `status` from the request, as the writable serializer accepts them.
- The read-only endpoints are left out: `advertisement_get`, `advertisement_list`, `get_reactions_for_news` and `news_list`. So are the models' `__str__` methods.
- NewsDb.Upserted: a `love` value that is not a boolean is not modelled. The flag is a `bool`.
- The news update view (`NewsSerializer` with `request.data`) and the admin are left out.
- The `navigated` log of the crawler and the `events` log of the command are ghost records of what was fetched and run. The source keeps no such record.

## Findings

| source | as written | input that shows it | evidently intended | confidence | as-written member | corrected member |
|---|---|---|---|---|---|---|
| advertisement/views.py:26 and advertisement/views.py:65 | `status.HTTP403_FORBIDDEN`, a name DRF's `status` module does not define, so the refusing branch raises AttributeError and answers 500 | an existing ad, updated or deleted by an authenticated user who neither owns it nor is staff | `status.HTTP_403_FORBIDDEN`, answering 403 | not executed | Ads.UpdateView and Ads.DeleteView at `AsWritten`, compared in Ads.RefusalViewsDiffer | Ads.UpdateView and Ads.DeleteView at `Corrected`, as used by Ads.AdStore.Update and Ads.AdStore.Delete |

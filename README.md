# Keyword web crawler: a verified Dafny model

The system is a small HTTP service. It crawls a website for pages that
contain a keyword. A `CrawlManager` owns one `WebCrawler` and a registry of
`CrawlJob`s keyed by an 8-character ID from `IDGenerator`.

Starting a crawl registers an active job. The job's keyword search then
begins at the configured base URL, and it:

- follows `<a … href="…">` links;
- stays inside the base URL (a literal string prefix);
- never visits a URL twice;
- records, as the job's result, every page that answers 2xx and contains
  the keyword (ASCII case-insensitive).

The model is one module per component:

| file | module | models |
|---|---|---|
| `urls.dfy` | `Urls` | base-URL normalisation, the scope test, `resolveRelativeUrl` |
| `pages.dfy` | `Pages` | the 2xx test (Java's truncating `/`), keyword containment |
| `links.dfy` | `Links` | a scanner equivalent to the `LINK_PATTERN` regex, and the `find()` loop |
| `crawling.dfy` | `Crawling` | the `WebCrawler` class and its traversal |
| `jobs.dfy` | `Jobs` | the `CrawlJob` class |
| `ids.dfy` | `Ids` | `IDGenerator.generate` |
| `manager.dfy` | `Manager` | the `CrawlManager` class |
| `ascii_text.dfy` | `AsciiText` | ASCII case folding |
| `wrappers.dfy` | `Wrappers` | `Option` |

The HTTP client becomes a finite map from URL to `(status, body)`. A URL
missing from the map is a failed request.

The asynchronous fan-out of `crawlAsync` becomes a sequential depth-first
traversal over three mutually recursive methods: `CrawlAsync`,
`ProcessPageContent` and `FollowLink`. Termination is measured by a finite
ghost bound on every link target, minus the visited set.

The headline result does not depend on the order of visits. After a crawl,
`visitedUrls` is the old visited set plus `Reach(baseUrl, old visited)`: every
URL reachable from the base through in-scope, 2xx pages not visited before.
The job's results grow by exactly the matching pages among the new URLs.

A ghost multiset counts the requests made for each URL. It proves that no
URL is requested twice by one crawler, across all jobs that share it.

Two behaviours of the code are modelled as written, not as a reader might
expect:

- In `resolveRelativeUrl`, the parameter named `baseUrl` shadows the field,
  and the call site passes the current page URL. So a root-relative link
  `/p` found on page `c` resolves to `c + "/p"`, not to the site root plus
  `/p`. `Urls.Resolve` and `Urls.ResolveCases` state this.
- `CrawlManager` builds a single `WebCrawler`, so the visited set is shared
  by all jobs. Every crawl starts at the base URL, which is always in scope,
  so the first job's crawl adds it to the visited set. Every later job then
  finds its start URL already visited and returns at once. It visits no page
  and records no result, whatever its keyword. Only the first job ever gets
  results. `Crawling.WebCrawler.StartCrawl`, `Manager.CrawlManager.RunCrawl`
  and `Crawling.WebCrawler.ReachFromVisitedIsEmpty` state this.

## Model

| member | source | states |
|---|---|---|
| Urls.NormalizeBase | src/main/java/com/axreng/backend/service/WebCrawler.java:34 | One trailing '/' is removed (so `x//` becomes `x/`). Otherwise the URL is unchanged. The result is a prefix of the input, at most one character shorter. |
| Urls.InScopeIsCharwisePrefix | src/main/java/com/axreng/backend/service/WebCrawler.java:53 | `InScope`, the scope test `startsWith(baseUrl)`, holds iff the base is no longer than the URL and agrees with it character by character. It is a literal prefix test, not a path-segment test. |
| Urls.ExtensionStaysInScope | src/main/java/com/axreng/backend/service/WebCrawler.java:96 | Appending anything to an in-scope URL keeps it in scope. |
| Urls.LastIndexOf | src/main/java/com/axreng/backend/service/WebCrawler.java:114 | `lastIndexOf('/')` is -1 or a position holding '/', and no later position holds '/'. |
| Urls.DirectoryIsUpToLastSlash | src/main/java/com/axreng/backend/service/WebCrawler.java:114 | `Directory`, the directory part, is a prefix of the page URL and ends with its last '/'. It is empty exactly when the URL has no '/'. |
| Urls.ResolveCases | src/main/java/com/axreng/backend/service/WebCrawler.java:104-116 | About `Resolve`, the resolver: a link starting with "http" is returned unchanged; the "https" test is subsumed by it. A link starting with '/' is appended to the current page URL. Any other link is appended to the page's directory. In every case the result ends with the link. |
| Urls.RootRelativeStaysInScope | src/main/java/com/axreng/backend/service/WebCrawler.java:108-110 | A root-relative link on an in-scope page resolves to an in-scope URL, because of the shadowed parameter. |
| Pages.IsSuccess | src/main/java/com/axreng/backend/service/WebCrawler.java:69 | `statusCode / 100 == 2`, with Java's truncating division, holds iff 200 <= status <= 299; no negative code passes. |
| Pages.FindFrom | src/main/java/com/axreng/backend/service/WebCrawler.java:82-83 | The search from a position succeeds iff the keyword occurs, ASCII case-insensitively, at that position or later. |
| Pages.ContainsKeyword | src/main/java/com/axreng/backend/service/WebCrawler.java:44 | `find()` on the quoted case-insensitive pattern succeeds iff the keyword occurs somewhere in the body under ASCII case folding. |
| Pages.KeywordMatchIgnoresCase | src/main/java/com/axreng/backend/service/WebCrawler.java:44 | Two bodies that differ only in the case of ASCII letters both match the keyword or both do not. |
| Links.ValueEndIsFirstQuote | src/main/java/com/axreng/backend/service/WebCrawler.java:19 | `ValueEnd`, the lazy `(.*?)"`, ends at the first '"' when no line terminator comes before it. When there is no such quote, no closing exists at all. |
| Links.FindAttrIsNearest | src/main/java/com/axreng/backend/service/WebCrawler.java:19 | `FindAttr`, the lazy `[^>]*?href="`, picks the nearest `href="` whose value closes before any '>'. When it fails, no such attribute exists. |
| Links.NextLinkIsMatch | src/main/java/com/axreng/backend/service/WebCrawler.java:19 | Each match `NextLink` finds is a case-insensitive `<a`, at least one whitespace character, no '>' up to `href="`, then a quote-free value on one line. It is the nearest attribute for that start. |
| Links.NextLinkIsLeftmost | src/main/java/com/axreng/backend/service/WebCrawler.java:88-89 | `NextLink`, one `find()`, returns the leftmost match at or after the current position. When it returns none, no match starts there or later. |
| Links.LinksFromStep | src/main/java/com/axreng/backend/service/WebCrawler.java:89-90 | In `LinksFrom`, the values `find()` yields from a position, one step adds the value of the next match and then resumes after its closing quote. |
| Links.ExtractLinks | src/main/java/com/axreng/backend/service/WebCrawler.java:88-90 | The `while (linkMatcher.find())` loop returns every `group(1)` of the page, left to right (`AllLinks`). |
| Links.LinksAreHrefValues | src/main/java/com/axreng/backend/service/WebCrawler.java:19 | Every extracted link is the value of a genuine match of the link pattern. |
| Links.HrefValueIsQuoteFree | src/main/java/com/axreng/backend/service/WebCrawler.java:19 | The value of a match contains no '"' and no line terminator. |
| Crawling.WebCrawler.constructor | src/main/java/com/axreng/backend/service/WebCrawler.java:32-40 | The base URL is normalised, the HTTP client is injected, and nothing has been visited or fetched. |
| Crawling.WebCrawler.StartCrawl | src/main/java/com/axreng/backend/service/WebCrawler.java:42-48 | The keyword pattern comes from the job. Visited becomes old visited plus `Reach(baseUrl, old visited)`. The job gains exactly the matching pages among the newly visited ones. No URL is fetched twice, and URLs visited before are not fetched again. The base URL is visited afterwards; when it was visited already, nothing is visited and the job gains nothing. |
| Crawling.WebCrawler.CrawlAsync | src/main/java/com/axreng/backend/service/WebCrawler.java:51-78 | An out-of-scope or visited URL changes nothing. A URL that fails or answers non-2xx is marked visited and adds no results. Otherwise the URL and everything reachable from it are explored (`Explored`), and the job gains the matching pages among them. Every visited URL stays in scope (`Valid`). |
| Crawling.WebCrawler.ProcessPageContent | src/main/java/com/axreng/backend/service/WebCrawler.java:80-101 | Every in-scope link target of the page ends up visited, and every newly visited URL is reachable from the page. The job gains the page iff it contains the keyword, plus the matching pages among the newly visited ones. |
| Crawling.WebCrawler.FollowLink | src/main/java/com/axreng/backend/service/WebCrawler.java:92-99 | An in-scope resolved link is a successor of the page. The crawl from it is explored, and the job grows by the matches among the newly visited URLs. |
| Crawling.WebCrawler.ExploredIsReach | src/main/java/com/axreng/backend/service/WebCrawler.java:51-101 | Whatever order the traversal uses, an explored crawl's visited set is exactly old visited plus `Reach`. |
| Crawling.WebCrawler.SuccessorsAreCandidates | src/main/java/com/axreng/backend/service/WebCrawler.java:93-96 | Every URL a page leads to is a link target of some fetched page. So the traversal stays inside a finite set. |
| Crawling.WebCrawler.ReachableIsCandidate | src/main/java/com/axreng/backend/service/WebCrawler.java:93-98 | A URL reachable from a start is that start or a link target. |
| Crawling.WebCrawler.WalkStaysInside | src/main/java/com/axreng/backend/service/WebCrawler.java:96-98 | A crawl path that starts inside a set closed under following links stays inside it. |
| Crawling.WebCrawler.ReachesItself | src/main/java/com/axreng/backend/service/WebCrawler.java:53-57 | An in-scope, unvisited URL is reachable from itself. |
| Crawling.WebCrawler.ReachFromVisitedIsEmpty | src/main/java/com/axreng/backend/service/WebCrawler.java:47-55 | A crawl that starts at an already visited URL reaches nothing, so a crawl from a visited base URL visits nothing. |
| Crawling.WebCrawler.ReachThroughSuccessor | src/main/java/com/axreng/backend/service/WebCrawler.java:96-98 | What is reachable from a followed link is reachable from the page that links to it. |
| Crawling.WebCrawler.FollowSuccessor | src/main/java/com/axreng/backend/service/WebCrawler.java:96-98 | Following one link keeps the link loop's closure and reachability facts about the page. |
| Crawling.WebCrawler.MatchedGrowth | src/main/java/com/axreng/backend/service/WebCrawler.java:84 | The results added in two consecutive stretches of a crawl are the results of the two stretches together. |
| Crawling.WebCrawler.VisitExplores | src/main/java/com/axreng/backend/service/WebCrawler.java:57-70 | Marking a URL visited and then exploring its page explores the crawl from that URL, with the matching results. |
| Crawling.WebCrawler.DeadEnd | src/main/java/com/axreng/backend/service/WebCrawler.java:69-77 | A failed or non-2xx page leads nowhere and matches nothing. |
| Crawling.WebCrawler.LinkLoopStart | src/main/java/com/axreng/backend/service/WebCrawler.java:88 | The link loop's invariant holds before the first link. |
| Crawling.WebCrawler.LinkLoopStep | src/main/java/com/axreng/backend/service/WebCrawler.java:89-99 | Following one more link keeps the loop invariant: earlier links' targets are visited, and new URLs are closed and reachable. |
| Crawling.WebCrawler.LinkLoopDone | src/main/java/com/axreng/backend/service/WebCrawler.java:100-101 | After the last link the page is fully explored, and the results are the page's own match plus those of the new URLs. |
| Crawling.WebCrawler.MatchedPage | src/main/java/com/axreng/backend/service/WebCrawler.java:82-85 | A 2xx page is a result iff its body contains the keyword. |
| Jobs.CrawlJob.constructor | src/main/java/com/axreng/backend/model/CrawlJob.java:21-27 | `id` and `keyword` are the arguments, the status is "active", and there are no results. |
| Jobs.CrawlJob.SetStatusDone | src/main/java/com/axreng/backend/model/CrawlJob.java:38 | The status becomes "done", which is the only allowed status change; it is idempotent. Results are unchanged. |
| Jobs.CrawlJob.AddUrl | src/main/java/com/axreng/backend/model/CrawlJob.java:39 | Results become old results plus the URL. They only grow, adding a URL already present changes nothing, and the status is unchanged. |
| Ids.IndexOf | src/main/java/com/axreng/backend/util/IDGenerator.java:6 | Every ID character has a position in the alphabet that holds it. |
| Ids.AlphabetIsDigitsAndLetters | src/main/java/com/axreng/backend/util/IDGenerator.java:6 | The alphabet's 36 entries are digits and lower-case letters, each at its own position. |
| Ids.Decode | src/main/java/com/axreng/backend/util/IDGenerator.java:13 | Reading an ID back gives one draw per character, and each draw names that character. |
| Ids.Generate | src/main/java/com/axreng/backend/util/IDGenerator.java:10-16 | The ID has exactly 8 characters, all digits or lower-case letters. Character i is `ALPHANUMERIC[draw i]`, in draw order, so every `charAt` is in bounds. The draws can be read back from the ID. |
| Manager.CrawlManager.constructor | src/main/java/com/axreng/backend/service/CrawlManager.java:22-32 | There is one fresh crawler over the injected client with the normalised base URL, and no jobs. |
| Manager.CrawlManager.StartNewCrawl | src/main/java/com/axreng/backend/service/CrawlManager.java:35-55 | The new job has the generated ID, the keyword, status "active" and no results. It is stored under its ID, replacing any job with the same ID. No key is lost and every other ID's lookup is unchanged. Looking up its ID returns it. |
| Manager.CrawlManager.RunCrawl | src/main/java/com/axreng/backend/service/CrawlManager.java:42-52 | The pooled task adds no job and changes no status. It also runs for a job that a later job with the same ID has replaced. It crawls with the shared crawler: new visits are `Reach` from the base, avoiding every URL earlier jobs visited, and no URL is fetched twice. Every registered job's results stay among the visited URLs. Afterwards the base URL is visited; if it already was, the crawl visits nothing and the job gains no results, so only the first job ever gets results. |
| Manager.CrawlManager.GetCrawlResult | src/main/java/com/axreng/backend/service/CrawlManager.java:58-60 | It returns null iff no job is stored under the ID. Otherwise it returns the stored job, whose ID is the one asked for. It changes nothing. |

## Left out

- HTTP transport: the request builder, the User-Agent header and `sendAsync` (`WebCrawler.java:59-66`) are replaced by a map from URL to response. A URL missing from the map is a failure. Redirects, which the client shared from `Main.java` follows, are folded into the response for the requested URL. So "no out-of-scope URL is fetched" and "no URL is requested twice" hold for the crawler's own requests, not for the redirect targets the client may follow.
- Concurrency: the `CompletableFuture` continuations, the thread pools and `ConcurrentHashMap` thread safety are not modelled. Each job's crawl runs to completion, sequentially.
- The race between `contains` and `add` on `visitedUrls`, and one job overwriting the shared `keywordPattern` of another running job, are concurrency effects and are not modelled.
- `RunCrawl` models the task submitted to the pool as a separate step that the caller performs after `StartNewCrawl` returns.
- Link loop order: `ProcessPageContent` collects all link values of the page first, then follows them in order. The code follows each link as the matcher finds it. The two are equivalent because the body does not change during the loop.
- Job completion: nothing calls `setStatusDone`, so jobs stay "active". `SetStatusDone` is modelled but unused.
- The `CrawlJob` getters are direct reads of fields. `getUrls` returning the live mutable set is modelled as a read of the current set.
- Exact `java.util.regex` behaviour: backtracking and UTF-16 code units are not modelled. A scanner stands in for the link pattern, with the match characterised by lemmas. Case folding is ASCII only, as `CASE_INSENSITIVE` is without `UNICODE_CASE`.
- Malformed URIs: `URI.create` throwing on a malformed resolved URL is treated as an ordinary failed fetch. The abort of the rest of the parent page's link loop is not modelled.
- Error logging to `System.err` is left out.
- `SecureRandom` is left out: the 8 draws are an input of `StartNewCrawl`.
- `Main.java` is HTTP routing, JSON encoding and environment plumbing, and is not part of this model. Its keyword-length check is not repeated by `startNewCrawl`.
- The unset `keywordPattern` (Java `null` before the first `startCrawl`) is represented as the empty string. It is never read before `StartCrawl` sets it.

/**
 * WebCrawler: the scoped, deduplicated traversal. The asynchronous fan-out
 * of the Java code runs here as a sequential depth-first traversal; the
 * HTTP client becomes an oracle, a finite map from URL to response, where
 * a missing URL stands for a failed request.
 *
 * The final visited set is characterised without reference to visit order:
 * it is the old visited set plus every URL reachable from the start through
 * in-scope pages that were not visited before (`Reach`).
 */
module Crawling {
  import opened Wrappers
  import opened Urls
  import opened Pages
  import opened Links
  import opened Jobs

  /** What the HTTP client returns for a page. */
  datatype Response = Response(status: int, body: string)

  /** Every URL any page of `web` links to, resolved against that page, when `linksOf` extracts the links. */
  ghost function LinkTargets(web: map<string, Response>, linksOf: string -> seq<string>): set<string>
  {
    set u, l | u in web && l in linksOf(web[u].body) :: Resolve(u, l)
  }

  class WebCrawler {
    const baseUrl: string
    /** The shared HTTP client, as the responses it would give. */
    const web: map<string, Response>
    var visitedUrls: set<string>
    /** The quoted keyword of the job last started; "" stands for the unset pattern. */
    var keywordPattern: string
    /** How many times each URL has been requested from the HTTP client. */
    ghost var fetched: multiset<string>
    /** A finite set holding every URL the crawler can be led to: bounds the traversal. */
    ghost const universe: set<string>
    /**
     * The link extraction as the crawl graph sees it. `Valid` ties it to
     * `AllLinks` only where an `AllLinks` term occurs, so reasoning about the
     * graph does not unfold the pattern matcher.
     */
    ghost const linksOf: string -> seq<string>

    /**
     * Every visited URL is in scope; the visited URLs are exactly the URLs
     * requested, each of them once; and every link target lies in `universe`.
     */
    ghost predicate Valid()
      reads this
    {
      && (forall u :: u in visitedUrls ==> InScope(u, baseUrl))
      && fetched == multiset(visitedUrls)
      && (forall t {:trigger AllLinks(t)} :: linksOf(t) == AllLinks(t))
      && LinkTargets(web, linksOf) <= universe
    }

    constructor (configuredBase: string, web: map<string, Response>)
      ensures baseUrl == NormalizeBase(configuredBase) && this.web == web
      ensures visitedUrls == {} && fetched == multiset{} && keywordPattern == ""
      ensures Valid()
    {
      baseUrl := NormalizeBase(configuredBase);
      this.web := web;
      visitedUrls := {};
      keywordPattern := "";
      fetched := multiset{};
      linksOf := AllLinks;
      universe := LinkTargets(web, AllLinks);
    }

    /** The request to `url`: its response, or None when it fails. */
    function Fetch(url: string): Option<Response>
    {
      if url in web then Some(web[url]) else None
    }

    /** The in-scope URLs that a successful fetch of `url` leads the crawler to. */
    ghost function Successors(url: string): set<string>
    {
      if url in web && IsSuccess(web[url].status) then
        set l | l in linksOf(web[url].body) && InScope(Resolve(url, l), baseUrl) :: Resolve(url, l)
      else {}
    }

    /** A page is matched when it fetches with a 2xx status and its body contains the keyword. */
    ghost predicate PageMatches(url: string, keyword: string)
    {
      url in web && IsSuccess(web[url].status) && ContainsKeyword(web[url].body, keyword)
    }

    /** The pages among `urls` that match `keyword`. */
    ghost function MatchedAmong(urls: set<string>, keyword: string): set<string>
    {
      set u | u in urls && PageMatches(u, keyword)
    }

    /** Entry `i` of `p` is a successor of entry `i - 1`. */
    ghost predicate StepAt(p: seq<string>, i: int)
    {
      0 < i < |p| && p[i] in Successors(p[i - 1])
    }

    /** `p` is a crawl path: in-scope URLs outside `avoid`, each a successor of the one before. */
    ghost predicate IsWalk(p: seq<string>, avoid: set<string>)
    {
      && |p| > 0
      && (forall i :: 0 <= i < |p| ==> InScope(p[i], baseUrl) && p[i] !in avoid)
      && (forall i :: 0 < i < |p| ==> StepAt(p, i))
    }

    /** `to` is reachable from `from` by a walk that avoids `avoid`. */
    ghost predicate Reachable(from: string, to: string, avoid: set<string>)
    {
      exists p :: IsWalk(p, avoid) && p[0] == from && p[|p| - 1] == to
    }

    /** The URLs a crawl from `from` visits when `avoid` is already visited. */
    ghost function Reach(from: string, avoid: set<string>): set<string>
    {
      set u | u in LinkTargets(web, linksOf) + {from} && Reachable(from, u, avoid)
    }

    /**
     * What a crawl from `from` leaves behind, starting from visited set
     * `before`: nothing if `from` is out of scope or visited; otherwise
     * `from` is visited, every successor of a newly visited URL is visited,
     * and every newly visited URL is reachable from `from`.
     */
    ghost predicate Explored(from: string, before: set<string>, after: set<string>)
    {
      && before <= after
      && (!InScope(from, baseUrl) || from in before ==> after == before)
      && (InScope(from, baseUrl) && from !in before ==> from in after)
      && ClosedBeyond(before, after)
      && ReachedBeyond(from, before, before, after)
    }

    /**
     * What processing the page `page` leaves behind, from visited set
     * `before` (which already holds the page): its successors are visited,
     * every newly visited URL has its successors visited and is reachable
     * from the page without passing through an earlier visited URL.
     */
    ghost predicate PageExplored(page: string, before: set<string>, after: set<string>)
    {
      && before <= after
      && Successors(page) <= after
      && ClosedBeyond(before, after)
      && ReachedBeyond(page, before - {page}, before, after)
    }

    /** Every successor of a URL visited after `before` is visited in `after`. */
    ghost predicate ClosedBeyond(before: set<string>, after: set<string>)
    {
      forall u :: u in after - before ==> Successors(u) <= after
    }

    /** Every URL visited after `before` is reachable from `from` avoiding `avoid`. */
    ghost predicate ReachedBeyond(from: string, avoid: set<string>, before: set<string>, after: set<string>)
    {
      forall u :: u in after - before ==> Reachable(from, u, avoid)
    }

    /** The in-scope targets of the first `n` links of `links`, resolved against `url`, are visited. */
    ghost predicate Followed(url: string, links: seq<string>, n: int, visited: set<string>)
    {
      forall j :: 0 <= j < n && j < |links| && InScope(Resolve(url, links[j]), baseUrl) ==> Resolve(url, links[j]) in visited
    }

    /** Successors are link targets, so they lie in the finite bound of the traversal. */
    lemma SuccessorsAreCandidates(url: string)
      ensures Successors(url) <= LinkTargets(web, linksOf)
    {
      if url in web && IsSuccess(web[url].status) {
        forall w | w in Successors(url) ensures w in LinkTargets(web, linksOf) {
          var l :| l in linksOf(web[url].body) && InScope(Resolve(url, l), baseUrl) && w == Resolve(url, l);
        }
      }
    }

    /** Whatever a walk reaches is its start or a link target. */
    lemma ReachableIsCandidate(from: string, to: string, avoid: set<string>)
      requires Reachable(from, to, avoid)
      ensures to in LinkTargets(web, linksOf) + {from}
    {
      var p :| IsWalk(p, avoid) && p[0] == from && p[|p| - 1] == to;
      if |p| > 1 {
        assert StepAt(p, |p| - 1);
        SuccessorsAreCandidates(p[|p| - 2]);
      }
    }

    /** A walk that starts inside `after` and stays inside it wherever it leaves `before`. */
    lemma {:induction false} WalkStaysInside(p: seq<string>, before: set<string>, after: set<string>)
      requires IsWalk(p, before) && p[0] in after
      requires ClosedBeyond(before, after)
      ensures p[|p| - 1] in after
      decreases |p|
    {
      if |p| > 1 {
        var q := p[..|p| - 1];
        forall i | 0 < i < |q| ensures StepAt(q, i) {
          assert StepAt(p, i);
        }
        WalkStaysInside(q, before, after);
        assert StepAt(p, |p| - 1);
      }
    }

    /** The closure and reachability facts pin the result down: the visited set is `before + Reach`. */
    lemma ExploredIsReach(from: string, before: set<string>, after: set<string>)
      requires Explored(from, before, after)
      ensures after == before + Reach(from, before)
    {
      forall u | u in after - before ensures u in Reach(from, before) {
        ReachableIsCandidate(from, u, before);
      }
      forall u | u in Reach(from, before) ensures u in after {
        var p :| IsWalk(p, before) && p[0] == from && p[|p| - 1] == u;
        WalkStaysInside(p, before, after);
      }
    }

    /** A URL in scope and outside `avoid` reaches itself. */
    lemma ReachesItself(url: string, avoid: set<string>)
      requires InScope(url, baseUrl) && url !in avoid
      ensures Reachable(url, url, avoid)
    {
      assert IsWalk([url], avoid);
    }

    /** Nothing is reachable from a URL that is already visited: every walk starts outside `avoid`. */
    lemma ReachFromVisitedIsEmpty(from: string, avoid: set<string>)
      requires from in avoid
      ensures Reach(from, avoid) == {}
    {
    }

    /** Prefixing a walk from a successor with its page gives a walk from the page. */
    lemma ReachThroughSuccessor(from: string, next: string, to: string, outer: set<string>, inner: set<string>)
      requires InScope(from, baseUrl) && from !in outer
      requires next in Successors(from)
      requires outer <= inner
      requires Reachable(next, to, inner)
      ensures Reachable(from, to, outer)
    {
      var p :| IsWalk(p, inner) && p[0] == next && p[|p| - 1] == to;
      var q := [from] + p;
      forall i | 0 <= i < |q| ensures InScope(q[i], baseUrl) && q[i] !in outer {
        if i > 0 {
          assert q[i] == p[i - 1];
        }
      }
      forall i | 0 < i < |q| ensures StepAt(q, i) {
        if i > 1 {
          assert StepAt(p, i - 1);
          assert q[i] == p[i - 1] && q[i - 1] == p[i - 2];
        }
      }
      assert IsWalk(q, outer);
    }

    /** Following one successor `next` of the page `from` keeps the loop's facts about `from`. */
    lemma FollowSuccessor(from: string, next: string, start: set<string>, before: set<string>, after: set<string>)
      requires InScope(from, baseUrl) && from in start
      requires next in Successors(from)
      requires start <= before
      requires ClosedBeyond(start, before) && ReachedBeyond(from, start - {from}, start, before)
      requires Explored(next, before, after)
      ensures start <= after && next in after
      ensures ClosedBeyond(start, after) && ReachedBeyond(from, start - {from}, start, after)
    {
      forall u | u in after - start ensures Reachable(from, u, start - {from}) {
        if u !in before {
          ReachThroughSuccessor(from, next, u, start - {from}, before);
        }
      }
    }

    /** Matching distributes over union. */
    lemma MatchedUnion(a: set<string>, b: set<string>, keyword: string)
      ensures MatchedAmong(a, keyword) + MatchedAmong(b, keyword) == MatchedAmong(a + b, keyword)
    {
    }

    /** The pages matched in two consecutive stretches of a crawl are those matched over both. */
    lemma MatchedGrowth(start: set<string>, before: set<string>, after: set<string>, keyword: string)
      requires start <= before <= after
      ensures MatchedAmong(before - start, keyword) + MatchedAmong(after - before, keyword)
           == MatchedAmong(after - start, keyword)
    {
      assert after - start == (before - start) + (after - before);
      MatchedUnion(before - start, after - before, keyword);
    }

    /** An in-scope resolved link of a 2xx page is one of its successors. */
    lemma ResolvedLinkIsSuccessor(url: string, link: string)
      requires url in web && IsSuccess(web[url].status)
      requires link in linksOf(web[url].body)
      requires InScope(Resolve(url, link), baseUrl)
      ensures Resolve(url, link) in Successors(url)
      ensures Resolve(url, link) in LinkTargets(web, linksOf)
    {
    }

    /**
     * `startCrawl(job)`: sets the keyword pattern from the job, then crawls
     * from the base URL. URLs visited by earlier jobs are not fetched again;
     * in particular the base URL itself is visited by the first crawl, so
     * every later crawl on the same crawler visits and records nothing.
     */
    method StartCrawl(job: CrawlJob)
      requires Valid()
      modifies this`keywordPattern, this`visitedUrls, this`fetched, job`urls
      ensures Valid()
      ensures keywordPattern == job.keyword
      ensures visitedUrls == old(visitedUrls) + Reach(baseUrl, old(visitedUrls))
      ensures job.urls == old(job.urls) + MatchedAmong(visitedUrls - old(visitedUrls), job.keyword)
      ensures forall u :: fetched[u] <= 1
      ensures forall u :: u in old(visitedUrls) ==> fetched[u] == old(fetched)[u]
      ensures baseUrl in visitedUrls
      ensures baseUrl in old(visitedUrls) ==> visitedUrls == old(visitedUrls) && job.urls == old(job.urls)
    {
      keywordPattern := job.keyword;
      CrawlAsync(baseUrl, job);
      ExploredIsReach(baseUrl, old(visitedUrls), visitedUrls);
    }

    /**
     * `crawlAsync(currentUrl, job)`: skips out-of-scope and visited URLs;
     * otherwise marks the URL visited, fetches it, and processes a 2xx body.
     */
    method CrawlAsync(currentUrl: string, job: CrawlJob)
      requires Valid()
      modifies this`visitedUrls, this`fetched, job`urls
      decreases universe + {currentUrl} - visitedUrls, 0
      ensures Valid()
      ensures Explored(currentUrl, old(visitedUrls), visitedUrls)
      ensures job.urls == old(job.urls) + MatchedAmong(visitedUrls - old(visitedUrls), keywordPattern)
      ensures !InScope(currentUrl, baseUrl) || currentUrl in old(visitedUrls) ==>
                visitedUrls == old(visitedUrls) && job.urls == old(job.urls)
      ensures InScope(currentUrl, baseUrl) && currentUrl !in old(visitedUrls) && !(currentUrl in web && IsSuccess(web[currentUrl].status)) ==>
                visitedUrls == old(visitedUrls) + {currentUrl} && job.urls == old(job.urls)
    {
      if !InScope(currentUrl, baseUrl) || currentUrl in visitedUrls {
        return;
      }
      assert multiset(visitedUrls + {currentUrl}) == multiset(visitedUrls) + multiset{currentUrl};
      visitedUrls := visitedUrls + {currentUrl};
      fetched := fetched + multiset{currentUrl};
      var response := Fetch(currentUrl);
      if response.Some? && IsSuccess(response.value.status) {
        ProcessPageContent(response.value.body, currentUrl, job);
      } else {
        DeadEnd(currentUrl, visitedUrls, keywordPattern);
      }
      VisitExplores(currentUrl, old(visitedUrls), visitedUrls, keywordPattern, old(job.urls), job.urls);
    }

    /** Marking a page visited and then exploring it explores the crawl from that page. */
    lemma VisitExplores(url: string, before: set<string>, after: set<string>,
                        keyword: string, matchedBefore: set<string>, matchedAfter: set<string>)
      requires InScope(url, baseUrl) && url !in before
      requires PageExplored(url, before + {url}, after)
      requires matchedAfter == matchedBefore + MatchedAmong(after - (before + {url}) + {url}, keyword)
      ensures Explored(url, before, after)
      ensures matchedAfter == matchedBefore + MatchedAmong(after - before, keyword)
    {
      ReachesItself(url, before);
      assert after - (before + {url}) + {url} == after - before;
    }

    /** A page whose request fails or has a non-2xx status has no successors and never matches. */
    lemma DeadEnd(url: string, visited: set<string>, keyword: string)
      requires !(url in web && IsSuccess(web[url].status))
      requires url in visited
      ensures PageExplored(url, visited, visited)
      ensures MatchedAmong(visited - visited + {url}, keyword) == {}
    {
    }

    /**
     * What the link loop of a page keeps after its first `n` links: their
     * in-scope targets are visited, pages visited since `start` have their
     * successors visited and are reachable from the page, and the job holds
     * exactly the matching pages among them.
     */
    ghost predicate LinkLoopInvariant(page: string, links: seq<string>, n: int, start: set<string>, matchedStart: set<string>,
                                      keyword: string, visited: set<string>, matched: set<string>)
    {
      && start <= visited
      && Followed(page, links, n, visited)
      && ClosedBeyond(start, visited)
      && ReachedBeyond(page, start - {page}, start, visited)
      && matched == matchedStart + MatchedAmong(visited - start, keyword)
    }

    /** Before the first link, the loop invariant holds. */
    lemma LinkLoopStart(page: string, links: seq<string>, start: set<string>, matchedStart: set<string>, keyword: string)
      ensures LinkLoopInvariant(page, links, 0, start, matchedStart, keyword, start, matchedStart)
    {
      assert MatchedAmong(start - start, keyword) == {};
    }

    /** Following link `n` keeps the loop invariant. */
    lemma LinkLoopStep(page: string, links: seq<string>, n: int, start: set<string>, matchedStart: set<string>,
                       keyword: string, before: set<string>, matchedBefore: set<string>,
                       after: set<string>, matchedAfter: set<string>)
      requires InScope(page, baseUrl) && page in start
      requires 0 <= n < |links|
      requires LinkLoopInvariant(page, links, n, start, matchedStart, keyword, before, matchedBefore)
      requires InScope(Resolve(page, links[n]), baseUrl) ==> Resolve(page, links[n]) in Successors(page)
      requires Explored(Resolve(page, links[n]), before, after)
      requires matchedAfter == matchedBefore + MatchedAmong(after - before, keyword)
      ensures LinkLoopInvariant(page, links, n + 1, start, matchedStart, keyword, after, matchedAfter)
    {
      if InScope(Resolve(page, links[n]), baseUrl) {
        FollowSuccessor(page, Resolve(page, links[n]), start, before, after);
      }
      MatchedGrowth(start, before, after, keyword);
    }

    /** Once every link of the page is followed, the loop invariant gives the page's postcondition. */
    lemma LinkLoopDone(page: string, start: set<string>, matchedBefore: set<string>, keyword: string,
                       visited: set<string>, matched: set<string>)
      requires page in web && IsSuccess(web[page].status)
      requires LinkLoopInvariant(page, linksOf(web[page].body), |linksOf(web[page].body)|, start,
                                 matchedBefore + MatchedAmong({page}, keyword), keyword, visited, matched)
      ensures PageExplored(page, start, visited)
      ensures matched == matchedBefore + MatchedAmong(visited - start + {page}, keyword)
    {
      var links := linksOf(web[page].body);
      forall w | w in Successors(page) ensures w in visited {
        var l :| l in links && InScope(Resolve(page, l), baseUrl) && w == Resolve(page, l);
        var j :| 0 <= j < |links| && links[j] == l;
      }
      MatchedUnion(visited - start, {page}, keyword);
    }

    /** The page itself counts as matched exactly when its body contains the keyword. */
    lemma MatchedPage(page: string, keyword: string)
      requires page in web && IsSuccess(web[page].status)
      ensures MatchedAmong({page}, keyword) == if ContainsKeyword(web[page].body, keyword) then {page} else {}
    {
    }

    /**
     * `processPageContent(body, currentUrl, job)`: records the page if the
     * keyword occurs, then follows every link the pattern finds.
     */
    method ProcessPageContent(htmlContent: string, currentUrl: string, job: CrawlJob)
      requires Valid()
      requires currentUrl in visitedUrls
      requires currentUrl in web && web[currentUrl].body == htmlContent && IsSuccess(web[currentUrl].status)
      modifies this`visitedUrls, this`fetched, job`urls
      decreases universe - visitedUrls, 2
      ensures Valid()
      ensures PageExplored(currentUrl, old(visitedUrls), visitedUrls)
      ensures job.urls == old(job.urls) + MatchedAmong(visitedUrls - old(visitedUrls) + {currentUrl}, keywordPattern)
    {
      ghost var matchedBefore := job.urls;
      if ContainsKeyword(htmlContent, keywordPattern) {
        job.AddUrl(currentUrl);
      }
      MatchedPage(currentUrl, keywordPattern);
      ghost var start := visitedUrls;
      ghost var matchedStart := matchedBefore + MatchedAmong({currentUrl}, keywordPattern);
      var links := ExtractLinks(htmlContent);
      LinkLoopStart(currentUrl, links, start, matchedStart, keywordPattern);
      for i := 0 to |links|
        invariant Valid()
        invariant LinkLoopInvariant(currentUrl, links, i, start, matchedStart, keywordPattern, visitedUrls, job.urls)
      {
        ghost var before := visitedUrls;
        ghost var matchedPrior := job.urls;
        FollowLink(currentUrl, links[i], job);
        LinkLoopStep(currentUrl, links, i, start, matchedStart, keywordPattern, before, matchedPrior, visitedUrls, job.urls);
      }
      LinkLoopDone(currentUrl, start, matchedBefore, keywordPattern, visitedUrls, job.urls);
    }

    /**
     * One pass of the link loop: resolves `link` against the page and
     * crawls the result when it is in scope and not yet visited.
     */
    method FollowLink(currentUrl: string, link: string, job: CrawlJob)
      requires Valid()
      requires currentUrl in web && IsSuccess(web[currentUrl].status) && link in linksOf(web[currentUrl].body)
      modifies this`visitedUrls, this`fetched, job`urls
      decreases universe - visitedUrls, 1
      ensures Valid()
      ensures InScope(Resolve(currentUrl, link), baseUrl) ==> Resolve(currentUrl, link) in Successors(currentUrl)
      ensures Explored(Resolve(currentUrl, link), old(visitedUrls), visitedUrls)
      ensures job.urls == old(job.urls) + MatchedAmong(visitedUrls - old(visitedUrls), keywordPattern)
    {
      var absUrl := Resolve(currentUrl, link);
      if InScope(absUrl, baseUrl) {
        ResolvedLinkIsSuccessor(currentUrl, link);
      }
      if InScope(absUrl, baseUrl) && absUrl !in visitedUrls {
        CrawlAsync(absUrl, job);
      }
    }
  }
}

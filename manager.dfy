/**
 * CrawlManager: owns the single shared WebCrawler and the registry of every
 * job ever started. Starting a crawl registers a fresh job under a generated
 * ID and hands the crawl to a thread pool; here the pooled task is the
 * separate step `RunCrawl`, which the caller performs after `StartNewCrawl`
 * has returned the job.
 */
module Manager {
  import opened Jobs
  import opened Ids
  import opened Urls
  import Crawling

  class CrawlManager {
    /** Every job ever started, by ID; entries are never removed. */
    var allJobs: map<string, CrawlJob>
    const webCrawler: Crawling.WebCrawler

    /** Each job is stored under its own ID. */
    ghost predicate Indexed()
      reads this
    {
      forall id :: id in allJobs ==> allJobs[id].id == id
    }

    /**
     * The crawler is consistent, every job is stored under its own ID with a
     * known status, and a job only ever records pages the crawler visited.
     */
    ghost predicate Valid()
      reads this, webCrawler, allJobs.Values
    {
      && webCrawler.Valid()
      && Indexed()
      && (forall id :: id in allJobs ==> allJobs[id].Valid() && allJobs[id].urls <= webCrawler.visitedUrls)
    }

    /** `new CrawlManager(baseUrl, httpClient)`: one crawler for every job, and no jobs yet. */
    constructor (baseUrl: string, httpClient: map<string, Crawling.Response>)
      ensures Valid()
      ensures allJobs == map[]
      ensures fresh(webCrawler)
      ensures webCrawler.baseUrl == NormalizeBase(baseUrl) && webCrawler.web == httpClient
      ensures webCrawler.visitedUrls == {}
    {
      webCrawler := new Crawling.WebCrawler(baseUrl, httpClient);
      allJobs := map[];
    }

    /**
     * `startNewCrawl(keyword)`: generates an ID from `draws`, creates an
     * active job with no results and stores it under that ID, replacing any
     * job that already had the same ID. The crawl itself is `RunCrawl`.
     */
    method StartNewCrawl(keyword: string, draws: seq<Draw>) returns (job: CrawlJob)
      requires Valid()
      requires |draws| == IdLength
      modifies this`allJobs
      ensures Valid()
      ensures fresh(job)
      ensures |job.id| == IdLength && (forall i :: 0 <= i < |job.id| ==> IsIdChar(job.id[i]))
      ensures Decode(job.id) == draws
      ensures job.keyword == keyword && job.status == Active && job.urls == {}
      ensures allJobs == old(allJobs)[job.id := job]
      ensures old(allJobs).Keys <= allJobs.Keys
      ensures GetCrawlResult(job.id) == job
      ensures forall id :: id != job.id ==> GetCrawlResult(id) == old(GetCrawlResult(id))
    {
      var id := Generate(draws);
      job := new CrawlJob(id, keyword);
      allJobs := allJobs[id := job];
    }

    /**
     * The task `startNewCrawl` submits to the pool: crawls for the job with
     * the shared crawler. Nothing sets the job's status to done, and no job
     * is added or removed. The job need not still be registered: a later job
     * with the same ID may have replaced it, and its task runs all the same.
     * Since the first crawl visits the base URL, every later one finds it
     * visited and records nothing.
     */
    method RunCrawl(job: CrawlJob)
      requires Valid()
      modifies webCrawler`keywordPattern, webCrawler`visitedUrls, webCrawler`fetched, job`urls
      ensures Valid()
      ensures allJobs == old(allJobs)
      ensures job.status == old(job.status)
      ensures webCrawler.visitedUrls == old(webCrawler.visitedUrls) + webCrawler.Reach(webCrawler.baseUrl, old(webCrawler.visitedUrls))
      ensures job.urls == old(job.urls) + webCrawler.MatchedAmong(webCrawler.visitedUrls - old(webCrawler.visitedUrls), job.keyword)
      ensures forall u :: webCrawler.fetched[u] <= 1
      ensures forall u :: u in old(webCrawler.visitedUrls) ==> webCrawler.fetched[u] == old(webCrawler.fetched)[u]
      ensures webCrawler.baseUrl in webCrawler.visitedUrls
      ensures old(webCrawler.baseUrl in webCrawler.visitedUrls) ==>
                webCrawler.visitedUrls == old(webCrawler.visitedUrls) && job.urls == old(job.urls)
    {
      webCrawler.StartCrawl(job);
    }

    /** `getCrawlResult(id)`: the job stored under `id`, or null when there is none. */
    function GetCrawlResult(id: string): (job: CrawlJob?)
      reads this
      requires Indexed()
      ensures job == null <==> id !in allJobs
      ensures job != null ==> job.id == id && job in allJobs.Values
    {
      if id in allJobs then allJobs[id] else null
    }
  }
}

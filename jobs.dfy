/**
 * CrawlJob: one crawl request. `id` and `keyword` are final, `status` is
 * the lower-case string the JSON layer shows, and `urls` is the set of
 * matched pages, which only grows.
 */
module Jobs {

  const Active := "active"
  const Done := "done"

  /** The only status changes a job allows: none, or a move to "done". */
  ghost predicate StatusStep(before: string, after: string)
  {
    after == before || after == Done
  }

  class CrawlJob {
    const id: string
    const keyword: string
    var status: string
    var urls: set<string>

    /** The status is always one of the two strings the API exposes. */
    ghost predicate Valid()
      reads this
    {
      status == Active || status == Done
    }

    constructor (id: string, keyword: string)
      ensures this.id == id && this.keyword == keyword
      ensures status == Active && urls == {}
      ensures Valid()
    {
      this.id := id;
      this.keyword := keyword;
      status := Active;
      urls := {};
    }

    /** Marks the job finished; `urls` is left as it is. */
    method SetStatusDone()
      modifies this`status
      ensures status == Done && Valid()
      ensures StatusStep(old(status), status)
      ensures urls == old(urls)
    {
      status := Done;
    }

    /** Records a matched page; adding a page already present changes nothing. */
    method AddUrl(url: string)
      modifies this`urls
      ensures urls == old(urls) + {url}
      ensures old(urls) <= urls
      ensures url in old(urls) ==> urls == old(urls)
      ensures status == old(status) && StatusStep(old(status), status)
    {
      urls := urls + {url};
    }
  }
}

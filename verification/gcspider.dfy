/** `GinaCodySpider` (src/scraper/gc_spider.py): the same crawl gate as
    `ModifiedSpider`, started from one fixed page of the Gina Cody School
    site. Its `parse_item` and `check_robot_metatag` are line-for-line
    copies of the general spider's, so the model reuses those definitions
    and states their contracts for this spider's state. It has no setters:
    its start list never changes. */
module GcSpider {
  import opened Common
  import opened Strings
  import Spider

  const StartUrl: string := "https://www.concordia.ca/ginacody.html/"

  /** The class as first loaded. */
  function Initial(crawlLimit: int): (st: Spider.SpiderState)
    ensures st.startUrls == [StartUrl] && st.visited == {} && st.crawlLimit == crawlLimit
  {
    Spider.SpiderState([StartUrl], {}, crawlLimit)
  }

  /** `check_robot_metatag`, as in the general spider. */
  function CheckRobotMetatag(content: Option<string>): (allowed: bool)
    ensures !allowed <==>
      content.Some? && |content.value| > 0 &&
      (Contains(content.value, Spider.NoIndex) || Contains(content.value, Spider.NoFollow))
  {
    Spider.CheckRobotMetatag(content)
  }

  /** `parse_item`, as in the general spider. */
  function ParseItem(st: Spider.SpiderState, response: Spider.Response): (r: Spider.StepResult)
    ensures |st.visited| < st.crawlLimit && CheckRobotMetatag(response.robotsContent) ==>
      r == Spider.StepResult(st.(visited := st.visited + {response.url}), None)
    ensures |st.visited| < st.crawlLimit && !CheckRobotMetatag(response.robotsContent) ==>
      r == Spider.StepResult(st, None)
    ensures |st.visited| >= st.crawlLimit ==>
      r == Spider.StepResult(st, Some(CloseSpider(Spider.LimitMessage(st.crawlLimit))))
  {
    Spider.ParseItem(st, response)
  }

  /** The states this spider can reach: its start list is the fixed page
      and the recorded URLs stay within the limit. */
  predicate Reachable(st: Spider.SpiderState) {
    st.startUrls == [StartUrl] && |st.visited| <= st.crawlLimit
  }

  /** Every crawl from a reachable state ends in one, whatever it raises. */
  lemma CrawlStaysReachable(st: Spider.SpiderState, responses: seq<Spider.Response>)
    requires Reachable(st)
    ensures Reachable(Spider.Crawl(st, responses).next)
  {
    Spider.CrawlWithinLimit(st, responses);
  }

  /** A fresh spider with a non-negative limit is in a reachable state. */
  lemma InitialReachable(crawlLimit: int)
    requires crawlLimit >= 0
    ensures Reachable(Initial(crawlLimit))
  {
  }
}

/** `ModifiedSpider` (src/scraper/spider.py): the crawl gate that records
    visited URLs until the crawl limit is reached, skipping pages whose
    robots meta tag forbids indexing or following.

    Scrapy's scheduling, link extraction and XPath lookup are outside the
    model: a response is its URL and the `content` of its
    `<meta name="robots">` tag, if any, and the crawl is the sequence of
    responses in the order Scrapy hands them to `parse_item`. */
module Spider {
  import opened Common
  import opened Strings

  /** `int(os.getenv("CRAWL_LIMIT", 100))` when the variable is unset. */
  const DefaultCrawlLimit: int := 100

  const NoIndex: string := "noindex"
  const NoFollow: string := "nofollow"

  /** What `parse_item` reads of a response. */
  datatype Response = Response(url: string, robotsContent: Option<string>)

  /** The class attributes the spider keeps between responses. */
  datatype SpiderState = SpiderState(startUrls: seq<string>, visited: set<string>, crawlLimit: int)

  /** The outcome of one `parse_item` call: the state after it, and the
      exception it raised, if any. */
  datatype StepResult = StepResult(next: SpiderState, raised: Option<Error>)

  /** The class as first loaded, with the crawl limit read from the environment. */
  function Initial(crawlLimit: int): (st: SpiderState)
    ensures st.startUrls == [] && st.visited == {} && st.crawlLimit == crawlLimit
  {
    SpiderState([], {}, crawlLimit)
  }

  /** `check_robot_metatag`: a page may be recorded unless its robots
      content is a non-empty string containing "noindex" or "nofollow". */
  function CheckRobotMetatag(content: Option<string>): (allowed: bool)
    ensures !allowed <==>
      content.Some? && |content.value| > 0 &&
      (Contains(content.value, NoIndex) || Contains(content.value, NoFollow))
  {
    match content
    case None => true
    case Some(c) =>
      !(|c| > 0 && (FindFirst(c, NoIndex).Some? || FindFirst(c, NoFollow).Some?))
  }

  /** The message of the `CloseSpider` raised at the limit. */
  function LimitMessage(limit: int): string {
    "Crawl limit reached: " + IntToString(limit)
  }

  /** `parse_item`: under the limit, record the URL if the robots tag allows
      it; at or over the limit, raise `CloseSpider`. */
  function ParseItem(st: SpiderState, response: Response): (r: StepResult)
    ensures r.raised.Some? <==> |st.visited| >= st.crawlLimit
    ensures r.raised.Some? ==> r.raised.value == CloseSpider(LimitMessage(st.crawlLimit)) && r.next == st
    ensures r.next.startUrls == st.startUrls && r.next.crawlLimit == st.crawlLimit
    ensures r.next.visited == st.visited || r.next.visited == st.visited + {response.url}
    ensures response.url in r.next.visited <==>
      response.url in st.visited ||
      (|st.visited| < st.crawlLimit && CheckRobotMetatag(response.robotsContent))
  {
    if |st.visited| < st.crawlLimit then
      if CheckRobotMetatag(response.robotsContent) then
        StepResult(st.(visited := st.visited + {response.url}), None)
      else
        StepResult(st, None)
    else
      StepResult(st, Some(CloseSpider(LimitMessage(st.crawlLimit))))
  }

  /** `set_start_urls`: appends one URL to the start list. */
  function SetStartUrls(st: SpiderState, url: string): (r: SpiderState)
    ensures |r.startUrls| == |st.startUrls| + 1
    ensures r.startUrls[..|st.startUrls|] == st.startUrls && r.startUrls[|st.startUrls|] == url
    ensures r.visited == st.visited && r.crawlLimit == st.crawlLimit
  {
    var r := st.(startUrls := st.startUrls + [url]);
    assert r.startUrls[..|st.startUrls|] == st.startUrls;
    r
  }

  /** `set_crawl_limit`: replaces the limit. */
  function SetCrawlLimit(st: SpiderState, limit: int): (r: SpiderState)
    ensures r.crawlLimit == limit
    ensures r.startUrls == st.startUrls && r.visited == st.visited
  {
    st.(crawlLimit := limit)
  }

  // ---------------------------------------------------------------------
  // Properties of the step

  /** The number of recorded URLs never exceeds the limit. */
  predicate WithinLimit(st: SpiderState) {
    |st.visited| <= st.crawlLimit
  }

  lemma ParseItemWithinLimit(st: SpiderState, response: Response)
    requires WithinLimit(st)
    ensures WithinLimit(ParseItem(st, response).next)
  {
    var r := ParseItem(st, response);
    if r.next.visited != st.visited {
      assert r.next.visited == st.visited + {response.url};
      assert |r.next.visited| <= |st.visited| + 1;
    }
  }

  /** A fresh spider with a non-negative limit starts within it. */
  lemma InitialWithinLimit(crawlLimit: int)
    requires crawlLimit >= 0
    ensures WithinLimit(Initial(crawlLimit))
    ensures ParseItem(Initial(crawlLimit), Response("", None)).raised.Some? <==> crawlLimit == 0
  {
  }

  /** With the default limit a fresh spider records its first allowed page. */
  lemma DefaultLimitRecords(response: Response)
    requires CheckRobotMetatag(response.robotsContent)
    ensures ParseItem(Initial(DefaultCrawlLimit), response) ==
      StepResult(SpiderState([], {response.url}, 100), None)
  {
  }

  /** Under the limit, a page the robots tag allows is recorded and nothing
      else changes. */
  lemma ParseItemRecords(st: SpiderState, response: Response)
    requires |st.visited| < st.crawlLimit && CheckRobotMetatag(response.robotsContent)
    ensures ParseItem(st, response) == StepResult(st.(visited := st.visited + {response.url}), None)
  {
  }

  /** Under the limit, a page the robots tag forbids changes nothing. */
  lemma ParseItemSkips(st: SpiderState, response: Response)
    requires |st.visited| < st.crawlLimit && !CheckRobotMetatag(response.robotsContent)
    ensures ParseItem(st, response) == StepResult(st, None)
  {
  }

  /** A URL already recorded is not recorded twice. */
  lemma RevisitChangesNothing(st: SpiderState, response: Response)
    requires response.url in st.visited
    ensures ParseItem(st, response).next == st
  {
  }

  /** After `set_crawl_limit(limit)`, the next step raises exactly when the
      recorded URLs already number `limit` or more. */
  lemma LimitGovernsClosing(st: SpiderState, limit: int, response: Response)
    ensures ParseItem(SetCrawlLimit(st, limit), response).raised.Some? <==> |st.visited| >= limit
  {
  }

  // ---------------------------------------------------------------------
  // A whole crawl

  /** Feeds the responses to `parse_item` in order, stopping at the first
      `CloseSpider`, which ends the crawl. */
  function Crawl(st: SpiderState, responses: seq<Response>): (r: StepResult)
    ensures r.next.startUrls == st.startUrls && r.next.crawlLimit == st.crawlLimit
    ensures st.visited <= r.next.visited
    ensures r.raised.Some? ==> r.raised.value == CloseSpider(LimitMessage(st.crawlLimit))
    decreases |responses|
  {
    if |responses| == 0 then StepResult(st, None)
    else
      var step := ParseItem(st, responses[0]);
      if step.raised.Some? then step
      else Crawl(step.next, responses[1..])
  }

  /** The limit holds after any crawl that starts within it. */
  lemma {:induction false} CrawlWithinLimit(st: SpiderState, responses: seq<Response>)
    requires WithinLimit(st)
    ensures WithinLimit(Crawl(st, responses).next)
    decreases |responses|
  {
    if |responses| > 0 {
      ParseItemWithinLimit(st, responses[0]);
      var step := ParseItem(st, responses[0]);
      if step.raised.None? {
        CrawlWithinLimit(step.next, responses[1..]);
      }
    }
  }

  /** `response` is for `url` and its robots tag allows recording it. */
  predicate Recorded(response: Response, url: string) {
    response.url == url && CheckRobotMetatag(response.robotsContent)
  }

  /** Every URL a crawl records came from one of its responses, and was
      allowed by that response's robots tag. */
  lemma {:induction false} CrawlRecordsOnlyAllowed(st: SpiderState, responses: seq<Response>, url: string)
    requires url in Crawl(st, responses).next.visited && url !in st.visited
    ensures exists i :: 0 <= i < |responses| && Recorded(responses[i], url)
    decreases |responses|
  {
    var step := ParseItem(st, responses[0]);
    if url in step.next.visited {
      assert responses[0].url == url && CheckRobotMetatag(responses[0].robotsContent);
    } else {
      CrawlRecordsOnlyAllowed(step.next, responses[1..], url);
      var i :| 0 <= i < |responses[1..]| && Recorded(responses[1..][i], url);
      assert responses[i + 1] == responses[1..][i];
    }
  }

  /** A crawl that starts at the limit records nothing and closes at once. */
  lemma CrawlAtLimit(st: SpiderState, responses: seq<Response>)
    requires |responses| > 0 && |st.visited| >= st.crawlLimit
    ensures Crawl(st, responses) == StepResult(st, Some(CloseSpider(LimitMessage(st.crawlLimit))))
  {
  }

  /** A pattern with a character the text lacks does not occur in it. */
  lemma AbsentChar(s: string, p: string, c: char)
    requires c in p && c !in s
    ensures !Contains(s, p)
  {
  }

  /** Either word blocks the page, wherever it stands in the content. */
  lemma RobotsBlockExamples()
    ensures !CheckRobotMetatag(Some("noindex, nofollow"))
    ensures !CheckRobotMetatag(Some("index, nofollow"))
  {
    assert OccursAt("noindex, nofollow", NoIndex, 0);
    assert OccursAt("index, nofollow", NoFollow, 7);
  }

  /** The test is case-sensitive; empty or missing content allows the page. */
  lemma RobotsAllowExamples()
    ensures CheckRobotMetatag(Some("NOINDEX, NOFOLLOW"))
    ensures CheckRobotMetatag(Some("all"))
    ensures CheckRobotMetatag(Some(""))
    ensures CheckRobotMetatag(None)
  {
    AbsentChar("NOINDEX, NOFOLLOW", NoIndex, 'n');
    AbsentChar("NOINDEX, NOFOLLOW", NoFollow, 'n');
    AbsentChar("all", NoIndex, 'n');
    AbsentChar("all", NoFollow, 'n');
  }
}

/**
  scrape_all_quotes (main.py:28-86): the pagination, de-duplication and
  author-cache loop, first as a recursive specification (Step, ScanPage,
  Crawl, Run), then as the loop itself (ScrapeAllQuotes), proved to compute
  the same outcome.
 */
module Scraper {
  import opened Wrappers
  import opened Quotes
  import opened Pagination
  import opened Reference

  /**
    What the loop holds and what it has done so far.
    quotes: all_quotes; cache and order: the dict authors_info, as a map and
    its key insertion order; fetches: every author page fetched (the calls of
    scrape_author_info); requests: every listing page URL requested;
    seen: every quote block the loop has taken up, in order.
   */
  datatype State = State(
    quotes: seq<QuoteInfo>,
    cache: map<string, Option<Author>>,
    order: seq<string>,
    fetches: seq<string>,
    requests: seq<string>,
    seen: seq<Block>)

  const Initial := State([], map[], [], [], [], [])

  /**
    The run raises: the author of the quote at url could not be fetched, None
    is what the cache holds for it, and calling .get on that None fails, at
    main.py:63 when an earlier entry has the same quote text (the `and` in
    the duplicate test then reaches its right operand), otherwise at
    main.py:70. partial is the state at that moment.
   */
  datatype RunError = AuthorMissing(url: string, inDuplicateCheck: bool, partial: State)

  /**
    main.py:57-58: fetch and cache the author page unless its URL is already
    a key of the cache; a failed fetch is cached as None.
   */
  function Resolve(st: State, url: string, lookup: Lookup): (r: State)
    ensures url in r.cache
    ensures r.cache[url] == if url in st.cache then st.cache[url] else lookup(url)
    ensures url in st.cache ==> r.fetches == st.fetches && r.order == st.order
    ensures url !in st.cache ==> r.fetches == st.fetches + [url] && r.order == st.order + [url]
    ensures forall u :: u != url ==> (u in r.cache <==> u in st.cache) && (u in st.cache ==> r.cache[u] == st.cache[u])
    ensures r.quotes == st.quotes && r.requests == st.requests && r.seen == st.seen
  {
    if url in st.cache then st
    else st.(cache := st.cache[url := lookup(url)], order := st.order + [url], fetches := st.fetches + [url])
  }

  /**
    One iteration of the inner loop (main.py:53-79) on block b. On success it
    also says whether the quote was appended.
   */
  function Step(st: State, b: Block, lookup: Lookup): Result<(State, bool), RunError> {
    var st1 := Resolve(st, b.authorUrl, lookup).(seen := st.seen + [b]);
    match st1.cache[b.authorUrl]
    case None => Failure(AuthorMissing(b.authorUrl, HasText(st.quotes, b.text), st1))
    case Some(a) =>
      if IsDuplicate(st.quotes, b.text, a.fullname) then Success((st1, false))
      else Success((st1.(quotes := st.quotes + [Record(b, a)]), true))
  }

  /**
    The inner loop over the blocks of one page (main.py:52-82): it ends after
    the last block, or right after the append that makes the count equal to
    maxQuotes.
   */
  function ScanPage(st: State, blocks: seq<Block>, maxQuotes: int, lookup: Lookup): Result<State, RunError>
    decreases |blocks|
  {
    if blocks == [] then Success(st)
    else
      match Step(st, blocks[0], lookup)
      case Failure(e) => Failure(e)
      case Success((st1, appended)) =>
        if appended && |st1.quotes| == maxQuotes then Success(st1)
        else ScanPage(st1, blocks[1..], maxQuotes, lookup)
  }

  /**
    The outer loop from page number `page` on (main.py:35-84): while fewer
    than maxQuotes quotes are held, request the page; stop when it cannot be
    fetched or holds no blocks, otherwise scan it and go on with the next.
   */
  function Crawl(baseUrl: string, pages: seq<Page>, maxQuotes: int, lookup: Lookup, st: State, page: nat): Result<State, RunError>
    decreases |pages| + 1 - page
  {
    if |st.quotes| < maxQuotes then
      var st1 := st.(requests := st.requests + [PageUrl(baseUrl, page)]);
      var content := FetchPage(pages, page);
      if content.None? then Success(st1)
      else if content.value == [] then Success(st1)
      else
        match ScanPage(st1, content.value, maxQuotes, lookup)
        case Failure(e) => Failure(e)
        case Success(st2) => Crawl(baseUrl, pages, maxQuotes, lookup, st2, page + 1)
    else Success(st)
  }

  /** A whole run of scrape_all_quotes(baseUrl, maxQuotes). */
  function Run(baseUrl: string, maxQuotes: int, pages: seq<Page>, lookup: Lookup): Result<State, RunError> {
    Crawl(baseUrl, pages, maxQuotes, lookup, Initial, 1)
  }

  /**
    The loop of scrape_all_quotes, statement by statement: page fetches read
    `pages`, author page fetches call `lookup`. It returns the same outcome
    as Run, and with maxQuotes <= 0 it requests nothing and returns empty
    results.
   */
  method ScrapeAllQuotes(baseUrl: string, maxQuotes: int, pages: seq<Page>, lookup: Lookup)
    returns (outcome: Result<State, RunError>)
    ensures outcome == Run(baseUrl, maxQuotes, pages, lookup)
    ensures maxQuotes <= 0 ==> outcome == Success(Initial)
  {
    var allQuotes: seq<QuoteInfo> := [];
    var authorsInfo: map<string, Option<Author>> := map[];
    var authorOrder: seq<string> := [];
    var fetches: seq<string> := [];
    var requests: seq<string> := [];
    var seen: seq<Block> := [];
    var currentPage: nat := 1;
    var quotesCount := 0;

    while quotesCount < maxQuotes
      invariant currentPage >= 1 && quotesCount == |allQuotes|
      invariant Crawl(baseUrl, pages, maxQuotes, lookup,
                      State(allQuotes, authorsInfo, authorOrder, fetches, requests, seen), currentPage)
                == Run(baseUrl, maxQuotes, pages, lookup)
      decreases |pages| + 1 - currentPage
    {
      var currentUrl := PageUrl(baseUrl, currentPage);
      requests := requests + [currentUrl];
      var pageContent := FetchPage(pages, currentPage);
      if pageContent.None? {
        break;
      }
      var quotes := pageContent.value;
      if quotes == [] {
        break;
      }
      ghost var pageResult := ScanPage(State(allQuotes, authorsInfo, authorOrder, fetches, requests, seen),
                                       quotes, maxQuotes, lookup);
      for i := 0 to |quotes|
        invariant quotesCount == |allQuotes| < maxQuotes
        invariant ScanPage(State(allQuotes, authorsInfo, authorOrder, fetches, requests, seen),
                           quotes[i..], maxQuotes, lookup) == pageResult
      {
        var quote := quotes[i];
        var text, authorUrl, tags := quote.text, quote.authorUrl, quote.tags;
        seen := seen + [quote];
        if authorUrl !in authorsInfo {
          var info := lookup(authorUrl);
          fetches := fetches + [authorUrl];
          authorsInfo := authorsInfo[authorUrl := info];
          authorOrder := authorOrder + [authorUrl];
        }
        var authorInfo := authorsInfo[authorUrl];
        if authorInfo.None? {
          outcome := Failure(AuthorMissing(authorUrl, HasText(allQuotes, text),
                                           State(allQuotes, authorsInfo, authorOrder, fetches, requests, seen)));
          return;
        }
        if IsDuplicate(allQuotes, text, authorInfo.value.fullname) {
          continue;
        }
        allQuotes := allQuotes + [QuoteInfo(tags, authorInfo.value, text)];
        quotesCount := quotesCount + 1;
        if quotesCount == maxQuotes {
          break;
        }
      }
      currentPage := currentPage + 1;
    }
    outcome := Success(State(allQuotes, authorsInfo, authorOrder, fetches, requests, seen));
  }
}

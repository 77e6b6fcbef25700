/**
  What a run of scrape_all_quotes guarantees, proved about Run: the quote
  limit, no duplicate (quote, author) pairs, each author page fetched at most
  once, pages requested in order up to the first one the loop cannot use,
  discovery order, and the failure caused by an author page that could not
  be fetched.
 */
module Theorems {
  import opened Wrappers
  import opened Quotes
  import opened Pagination
  import opened Reference
  import opened Scraper
  import opened Invariants
  import opened Properties

  /**
    The loop runs only while fewer than maxQuotes quotes are held: a limit
    of zero or less requests no page and returns empty results; otherwise
    at most maxQuotes quotes are returned.
   */
  lemma QuoteLimit(baseUrl: string, maxQuotes: int, pages: seq<Page>, lookup: Lookup)
    ensures maxQuotes <= 0 ==> Run(baseUrl, maxQuotes, pages, lookup) == Success(Initial)
    ensures maxQuotes > 0 && Run(baseUrl, maxQuotes, pages, lookup).Success? ==>
      |Run(baseUrl, maxQuotes, pages, lookup).value.quotes| <= maxQuotes
  {
    RunKeeps(baseUrl, maxQuotes, pages, lookup);
    if Run(baseUrl, maxQuotes, pages, lookup).Success? {
      HealthyBound(Run(baseUrl, maxQuotes, pages, lookup).value, maxQuotes, lookup);
    }
  }

  /** No two returned quotes share the pair (quote text, author fullname). */
  lemma NoDuplicateQuotes(baseUrl: string, maxQuotes: int, pages: seq<Page>, lookup: Lookup)
    requires Run(baseUrl, maxQuotes, pages, lookup).Success?
    ensures NoDuplicates(Run(baseUrl, maxQuotes, pages, lookup).value.quotes)
  {
    RunKeeps(baseUrl, maxQuotes, pages, lookup);
    KeptNoDuplicates(Run(baseUrl, maxQuotes, pages, lookup).value.seen, lookup);
  }

  /**
    Each author page is fetched at most once: the fetch log has no repeats
    and is the key order of the cache; the keys are exactly the author URLs
    of the blocks taken up, in first-seen order; each cached value is what
    the fetch gave, and in a run that did not raise every one of them is an
    author record.
   */
  lemma AuthorsFetchedOnce(baseUrl: string, maxQuotes: int, pages: seq<Page>, lookup: Lookup)
    requires Run(baseUrl, maxQuotes, pages, lookup).Success?
    ensures var r := Run(baseUrl, maxQuotes, pages, lookup).value;
      && r.fetches == r.order
      && Distinct(r.fetches)
      && r.order == FirstSeen(Urls(r.seen))
      && (forall u :: u in r.cache <==> u in Urls(r.seen))
      && (forall u :: u in r.order <==> u in Urls(r.seen))
      && (forall u :: u in r.cache ==> r.cache[u] == lookup(u) && r.cache[u].Some?)
  {
    RunKeeps(baseUrl, maxQuotes, pages, lookup);
    var r := Run(baseUrl, maxQuotes, pages, lookup).value;
    FirstSeenSpec(Urls(r.seen));
    forall u | u in r.cache ensures r.cache[u].Some? {
      var i :| 0 <= i < |Urls(r.seen)| && Urls(r.seen)[i] == u;
      assert lookup(r.seen[i].authorUrl).Some?;
    }
  }

  /**
    Pages are requested as base/page/1/, base/page/2/, … each once; unless
    the limit is reached the run requests exactly the usable pages and the
    first page that could not be fetched or held no quote, and takes up
    every block of the usable pages; when the limit is reached, the last
    page requested is a usable one whose blocks include the last block
    taken up, so no page after it is requested.
   */
  lemma PagesInOrder(baseUrl: string, maxQuotes: int, pages: seq<Page>, lookup: Lookup)
    requires Run(baseUrl, maxQuotes, pages, lookup).Success?
    ensures var r := Run(baseUrl, maxQuotes, pages, lookup).value;
      && (forall i :: 0 <= i < |r.requests| ==> r.requests[i] == PageUrl(baseUrl, i + 1))
      && Distinct(r.requests)
      && |r.requests| <= Reachable(pages) + 1
      && (|r.quotes| < maxQuotes ==> |r.requests| == Reachable(pages) + 1 && r.seen == Discovered(pages))
      && (|r.quotes| >= maxQuotes && r.requests != [] ==>
            |r.requests| <= Reachable(pages) && |Flatten(pages[..|r.requests| - 1])| < |r.seen|)
  {
    RunKeeps(baseUrl, maxQuotes, pages, lookup);
    var r := Run(baseUrl, maxQuotes, pages, lookup).value;
    assert RequestsOk(r, baseUrl, pages, maxQuotes);
    PageUrlsDistinct(baseUrl, |r.requests|);
  }

  /**
    The returned quotes are, in discovery order, the quote blocks taken up
    (a prefix of the block stream) minus the duplicates: each entry has the
    text and the tags of one of those blocks and the author its page gave.
   */
  lemma DiscoveryOrder(baseUrl: string, maxQuotes: int, pages: seq<Page>, lookup: Lookup)
    requires Run(baseUrl, maxQuotes, pages, lookup).Success?
    ensures var r := Run(baseUrl, maxQuotes, pages, lookup).value;
      && IsPrefix(r.seen, Discovered(pages))
      && r.quotes == Kept(r.seen, lookup)
      && (forall k :: 0 <= k < |r.quotes| ==> FromBlock(r.quotes[k], r.seen, lookup))
  {
    RunKeeps(baseUrl, maxQuotes, pages, lookup);
    KeptEntries(Run(baseUrl, maxQuotes, pages, lookup).value.seen, lookup);
  }

  /**
    The last block taken up was taken up while fewer than maxQuotes quotes
    were held, so no block is processed once the limit is reached; and when
    the run stops before the end of the block stream, it holds exactly
    maxQuotes quotes, so that last block is the one whose append reached the
    limit and no later author is looked up.
   */
  lemma StopsAtLimit(baseUrl: string, maxQuotes: int, pages: seq<Page>, lookup: Lookup)
    requires Run(baseUrl, maxQuotes, pages, lookup).Success?
    ensures var r := Run(baseUrl, maxQuotes, pages, lookup).value;
      maxQuotes > 0 && r.seen != Discovered(pages) ==> |r.quotes| == maxQuotes && r.seen != []
    ensures var r := Run(baseUrl, maxQuotes, pages, lookup).value;
      r.seen != [] ==> |Kept(r.seen[..|r.seen| - 1], lookup)| < maxQuotes
  {
    RunKeeps(baseUrl, maxQuotes, pages, lookup);
    HealthyBound(Run(baseUrl, maxQuotes, pages, lookup).value, maxQuotes, lookup);
  }

  /**
    If the blocks before any stop condition hold at least maxQuotes
    non-duplicate quotes, a run that does not raise returns exactly
    maxQuotes of them.
   */
  lemma EnoughQuotes(baseUrl: string, maxQuotes: int, pages: seq<Page>, lookup: Lookup)
    requires maxQuotes > 0 && |Kept(Discovered(pages), lookup)| >= maxQuotes
    requires Run(baseUrl, maxQuotes, pages, lookup).Success?
    ensures |Run(baseUrl, maxQuotes, pages, lookup).value.quotes| == maxQuotes
  {
    RunKeeps(baseUrl, maxQuotes, pages, lookup);
    var r := Run(baseUrl, maxQuotes, pages, lookup).value;
    HealthyBound(r, maxQuotes, lookup);
  }

  /** A block of the stream whose author page cannot be fetched, reached below the limit. */
  ghost predicate FatalAt(pages: seq<Page>, maxQuotes: int, lookup: Lookup, i: int) {
    var d := Discovered(pages);
    0 <= i < |d| && lookup(d[i].authorUrl).None? && |Kept(d[..i], lookup)| < maxQuotes
  }

  /** Such a block makes the run raise. */
  lemma FatalBlockRaises(baseUrl: string, maxQuotes: int, pages: seq<Page>, lookup: Lookup, i: int)
    requires FatalAt(pages, maxQuotes, lookup, i)
    ensures Run(baseUrl, maxQuotes, pages, lookup).Failure?
  {
    var d := Discovered(pages);
    RunKeeps(baseUrl, maxQuotes, pages, lookup);
    var res := Run(baseUrl, maxQuotes, pages, lookup);
    if res.Success? {
      var r := res.value;
      assert Healthy(r, maxQuotes, lookup);
      assert r.seen == d[..|r.seen|];
      if |r.seen| <= i {
        KeptGrows(d, |r.seen|, i, lookup);
      }
    }
  }

  /** A run that raises does so at such a block. */
  lemma RaiseHasFatalBlock(baseUrl: string, maxQuotes: int, pages: seq<Page>, lookup: Lookup)
    requires Run(baseUrl, maxQuotes, pages, lookup).Failure?
    ensures FatalAt(pages, maxQuotes, lookup, |Run(baseUrl, maxQuotes, pages, lookup).error.partial.seen| - 1)
  {
    RunKeeps(baseUrl, maxQuotes, pages, lookup);
    var d := Discovered(pages);
    var e := Run(baseUrl, maxQuotes, pages, lookup).error;
    assert Broken(e, maxQuotes, lookup);
    var s := e.partial.seen;
    var i := |s| - 1;
    assert s == d[..|s|];
    assert d[..i] == s[..i];
    assert d[i] == s[i];
  }

  /**
    A run raises exactly when some block of the stream, reached while fewer
    than maxQuotes quotes are held, names an author whose page cannot be
    fetched: there are no empty-string defaults.
   */
  lemma FailsExactlyWhen(baseUrl: string, maxQuotes: int, pages: seq<Page>, lookup: Lookup)
    ensures Run(baseUrl, maxQuotes, pages, lookup).Failure? <==> exists i :: FatalAt(pages, maxQuotes, lookup, i)
  {
    if Run(baseUrl, maxQuotes, pages, lookup).Failure? {
      RaiseHasFatalBlock(baseUrl, maxQuotes, pages, lookup);
    }
    if exists i :: FatalAt(pages, maxQuotes, lookup, i) {
      var i :| FatalAt(pages, maxQuotes, lookup, i);
      FatalBlockRaises(baseUrl, maxQuotes, pages, lookup, i);
    }
  }

  /**
    When a run raises, the failed author page was fetched once, just before,
    and its None is what the cache holds: the quote is neither retried nor
    given empty-string author fields.
   */
  lemma FailedLookupNotRetried(baseUrl: string, maxQuotes: int, pages: seq<Page>, lookup: Lookup)
    requires Run(baseUrl, maxQuotes, pages, lookup).Failure?
    ensures var e := Run(baseUrl, maxQuotes, pages, lookup).error;
      && lookup(e.url).None?
      && e.url in e.partial.cache && e.partial.cache[e.url].None?
      && Distinct(e.partial.fetches)
      && e.partial.fetches != [] && e.partial.fetches[|e.partial.fetches| - 1] == e.url
      && e.partial.seen != []
      && e.inDuplicateCheck == HasText(e.partial.quotes, e.partial.seen[|e.partial.seen| - 1].text)
  {
    RunKeeps(baseUrl, maxQuotes, pages, lookup);
    var e := Run(baseUrl, maxQuotes, pages, lookup).error;
    var s := e.partial.seen;
    var init := s[..|s| - 1];
    assert s == init + [s[|s| - 1]];
    UrlsSnoc(init, s[|s| - 1]);
    FirstSeenSpec(Urls(init));
    FirstSeenSnoc(Urls(init), e.url);
    FirstSeenSpec(Urls(s));
  }
}

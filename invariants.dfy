/**
  The invariants of the aggregation loop of scrape_all_quotes, stated
  against the reference definitions: what the state is after any number of
  quote blocks, and what a finished or a failed run looks like.
 */
module Invariants {
  import opened Wrappers
  import opened Quotes
  import opened Pagination
  import opened Reference
  import opened Scraper

  /**
    The state the loop is in after taking up exactly the blocks bs, when it
    has requested the page URLs `requests`: the reference quote list, the
    author cache of bs, its keys in first-seen order, one fetch per key.
   */
  ghost function After(bs: seq<Block>, requests: seq<string>, lookup: Lookup): State {
    var order := FirstSeen(Urls(bs));
    State(Kept(bs, lookup), CacheOf(bs, lookup), order, order, requests, bs)
  }

  /** The last of the blocks was taken up while fewer than maxQuotes quotes were held. */
  ghost predicate Below(bs: seq<Block>, maxQuotes: int, lookup: Lookup) {
    bs == [] || |Kept(bs[..|bs| - 1], lookup)| < maxQuotes
  }

  /**
    The state between two quote blocks of a run that has not failed: it is
    the state after the blocks seen so far, every one of their authors was
    found, and each was taken up below the limit.
   */
  ghost predicate Healthy(st: State, maxQuotes: int, lookup: Lookup) {
    && st == After(st.seen, st.requests, lookup)
    && AllFound(st.seen, lookup)
    && Below(st.seen, maxQuotes, lookup)
  }

  /**
    What a failure says: the state is the state after the blocks taken up,
    the last of which names the author URL whose lookup failed; that URL was
    never seen before (so it was fetched exactly once, just now); every
    earlier author was found; the run was below its limit; and the error is
    raised in the duplicate test exactly when an earlier entry has the same
    quote text.
   */
  ghost predicate Broken(e: RunError, maxQuotes: int, lookup: Lookup) {
    var s := e.partial.seen;
    && s != []
    && e.partial == After(s, e.partial.requests, lookup)
    && e.url == s[|s| - 1].authorUrl
    && lookup(e.url).None?
    && AllFound(s[..|s| - 1], lookup)
    && e.url !in Urls(s[..|s| - 1])
    && Below(s, maxQuotes, lookup)
    && e.inDuplicateCheck == HasText(e.partial.quotes, s[|s| - 1].text)
  }

  /** On a success, the page log lists pages 1, 2, … and stops where the loop had to stop. */
  ghost predicate RequestsOk(r: State, baseUrl: string, pages: seq<Page>, maxQuotes: int) {
    var n := |r.requests|;
    && r.requests == PageUrls(baseUrl, n)
    && n <= Reachable(pages) + 1
    && (|r.quotes| < maxQuotes ==> n == Reachable(pages) + 1)
    && (|r.quotes| >= maxQuotes && n > 0 ==> n <= Reachable(pages) && |Flatten(pages[..n - 1])| < |r.seen|)
  }

  /** On a failure, the page log lists pages 1, 2, … up to the page whose quote failed. */
  ghost predicate FailedRequestsOk(e: RunError, baseUrl: string, pages: seq<Page>) {
    var n := |e.partial.requests|;
    && e.partial.requests == PageUrls(baseUrl, n)
    && 1 <= n <= Reachable(pages)
    && |Flatten(pages[..n - 1])| < |e.partial.seen|
  }

  /** A run that ended normally: the loop state, where it stopped in the block stream, and its page log. */
  ghost predicate Finished(r: State, baseUrl: string, pages: seq<Page>, maxQuotes: int, lookup: Lookup) {
    && Healthy(r, maxQuotes, lookup)
    && IsPrefix(r.seen, Discovered(pages))
    && (r.seen == Discovered(pages) || |r.quotes| >= maxQuotes)
    && RequestsOk(r, baseUrl, pages, maxQuotes)
  }

  /** A run that raised: where in the block stream, and its page log. */
  ghost predicate Aborted(e: RunError, baseUrl: string, pages: seq<Page>, maxQuotes: int, lookup: Lookup) {
    && Broken(e, maxQuotes, lookup)
    && IsPrefix(e.partial.seen, Discovered(pages))
    && FailedRequestsOk(e, baseUrl, pages)
  }
}

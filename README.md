# Quote scraper: a Dafny model of `scrape_all_quotes`

The program walks the listing pages of a quotes site: `base/page/1/`,
`base/page/2/`, and so on. From every quote block it builds a record holding
the quote text, the tags and the author's biography. Each author page is
fetched once and kept in a cache keyed by its URL. A quote whose text and
author fullname are already present is skipped, and collection stops once
`max_quotes` records have been gathered. `main` then reduces each record to
`{tags, author fullname, quote}` for `quotes.json`, and writes the cached
biographies, in cache insertion order, to `authors.json`.

The model has these parts:

- `Quotes`: the records. That is an author biography, a quote block as
  extracted from a page, the accumulated quote record, and the duplicate test.
- `Pagination`: the page URL `base + "/page/" + str(n) + "/"` with a decimal
  rendering of `n`, and what fetching page `n` gives. It also defines the
  stream of blocks the site offers before pagination stops.
- `Scraper`:
  - the loop as a recursive specification: `Resolve` fetches or reuses an
    author, `Step` handles one block, `ScanPage` is the inner `for`,
    `Crawl` is the outer `while`, and `Run` is the whole call;
  - the method `ScrapeAllQuotes`, which does the same thing with the
    source's `while`/`for` loops, `continue` and `break`, and is proved to
    return `Run`'s outcome.
- `Reference`: independent definitions of what the run should produce from
  the blocks it took up:
  - `Kept`, the deduplicated quote list, computed from the lookup directly
    without a cache;
  - `FirstSeen(Urls(..))`, the author URLs in first-seen order;
  - `CacheOf`, the cache contents.
- `Invariants`: the loop invariants. `Healthy` describes the state between
  blocks, and `Broken` describes the state when the run raises.
- `Properties`: the proof that each loop stage keeps these invariants.
- `Theorems`: what a run guarantees, stated about `Run`.
- `Output`: the projection and the two files `main` writes.

Outside effects become inputs:

- A listing-page fetch, `get_quotes_page` (main.py:7-12), is
  `Pagination.FetchPage`: page `n` is `pages[n-1]` of a sequence of
  `Option<seq<Block>>`, and `None` (a page that did not come back with
  status 200) for any `n` past the end of that sequence.
- An author-page fetch is a function `lookup: string -> Option<Author>`.
  `None` is a non-200 answer, for which `scrape_author_info` returns `None`.
- `State` holds three logs that the program does not keep. They let the
  proofs talk about outside effects, and they are used for nothing else:
  - `fetches`: the author URLs fetched;
  - `requests`: the page URLs requested;
  - `seen`: the blocks taken up.

A run either returns its state or raises. Raising is the error outcome
`AuthorMissing`. It records the URL, whether the exception comes from the
duplicate test at main.py:63 or from the record built at main.py:70, and
the state at that point.

**A failed author fetch raises instead of giving empty fields.** The
defaults in the source show that empty author fields were meant for this
case: `authors_info.get(author_url, {})` at main.py:60, and
`author_info.get('fullname', '')` and its siblings at main.py:63 and
main.py:70-73. What the code does is this:

- main.py:26 returns `None` for a failed fetch, and main.py:58 stores that
  `None` in the cache.
- main.py:60 then returns that `None`, because the key is present and the
  `{}` default is not used.
- The next `.get` on it raises:
  - at main.py:63 when an earlier record has the same quote text (the `and`
    evaluates its right side only then);
  - otherwise at main.py:70.

The model follows the code. `Theorems.FailsExactlyWhen` states exactly which
inputs raise.

## Model

| member | source | states |
|---|---|---|
| Scraper.ScrapeAllQuotes | main.py:28-86 | The loop, statement by statement, returns the outcome of the specification `Run`: the same quotes, cache, cache order and error. With `max_quotes <= 0` it requests no page and returns empty results. |
| Scraper.Resolve | main.py:57-58 | An author URL not yet cached is fetched once: its lookup is stored and the URL is appended to the cache order and the fetch log. A cached URL keeps its value, and the order and fetch log stay as they were, so nothing is fetched again. No other key or value of the cache changes. |
| Scraper.Run | main.py:28-86 | The whole call `scrape_all_quotes(base_url, max_quotes)`: the outer loop from page 1 with empty results. It has no contract of its own. Its properties are the `Theorems.*` rows, and `Scraper.ScrapeAllQuotes` is proved to compute it. |
| Scraper.Crawl | main.py:35-84 | The outer `while`: below the limit, request the current page and stop on a failed fetch (line 41) or a page with no quotes (line 48); otherwise scan the page and go on to the next one. At the limit, return. It has no contract of its own; see `Properties.CrawlKeeps`, `Properties.CrawlBreaks` and `Theorems.PagesInOrder`. |
| Scraper.ScanPage | main.py:52-82 | The inner `for` over a page's blocks: one `Step` per block, stopping after the append that reaches the limit (line 81) and at a raise. It has no contract of its own; see `Properties.ScanKeeps` and `Properties.ScanBreaks`. |
| Scraper.Step | main.py:53-79 | One block: resolve its author; raise on a `None` author; skip a duplicate (line 65); otherwise append the record and count it. It has no contract of its own; see `Properties.StepKeeps` and `Theorems.NoDuplicateQuotes`. |
| Pagination.PageUrl | main.py:36 | The f-string `f"{base_url}/page/{current_page}/"`. It has no contract of its own; see `Pagination.PageUrlInjective`. |
| Pagination.PageUrlsDistinct | main.py:32-36 | The URLs of pages 1 to n are page 1, page 2, … in order, all different. |
| Quotes.IsDuplicate | main.py:63 | The duplicate test: some earlier record has the same quote text and author fullname. It has no contract of its own; see `Theorems.NoDuplicateQuotes` and `Quotes.AppendFresh`. |
| Quotes.HasText | main.py:63 | The left operand of the duplicate test's `and`: some earlier record has the same quote text. When it holds for a `None` author, the raise happens at line 63. It has no contract of its own; see `Theorems.FailedLookupNotRetried`. |
| Output.Main | main.py:88-111 | `main`: the run with base URL `http://quotes.toscrape.com` and limit 150, then the two lists written to `quotes.json` and `authors.json`, or nothing when the run raises. It has no contract of its own; see `Output.MainOutput` and `Output.MainFailsExactlyWhen`. |
| Theorems.QuoteLimit | main.py:79-82 | A limit of 0 or less (the `while` test at line 35) gives empty results with no page request. Otherwise a run that does not raise returns at most `max_quotes` quotes. |
| Theorems.NoDuplicateQuotes | main.py:62-65 | No two returned quotes share the pair (quote text, author fullname). |
| Theorems.AuthorsFetchedOnce | main.py:57-58 | Each author page is fetched at most once. The fetch log has no repeats and equals the cache's key order. The keys are exactly the author URLs of the blocks taken up, in first-seen order, and each value is that URL's lookup, an author record. |
| Theorems.PagesInOrder | main.py:32-50 | Request i is `base/page/(i+1)/`, and no page is requested twice. Unless the limit is reached, the pages requested are exactly the usable pages plus the first page that failed or had no quote block, and every block of the usable pages is taken up. |
| Theorems.DiscoveryOrder | main.py:52-78 | The blocks taken up are a prefix of the block stream. The quotes are the reference `Kept` of those blocks, in discovery order. Each entry has the text and tags of one of those blocks and its looked-up author. |
| Theorems.StopsAtLimit | main.py:79-82 | In every run that does not raise, the last block taken up was taken up below the limit, so no block is processed once the limit is reached. If the run stops before the end of the block stream, it holds exactly `max_quotes` quotes, so that last block is the one whose append reached the limit. |
| Theorems.EnoughQuotes | main.py:35-84 | When the block stream holds at least `max_quotes` non-duplicate quotes, a run that does not raise returns exactly `max_quotes`. |
| Theorems.FatalBlockRaises | main.py:57-70 | If a block of the stream, reached below the limit, names an author whose page cannot be fetched, the run raises. |
| Theorems.RaiseHasFatalBlock | main.py:57-70 | A run that raises does so at such a block: the last block it took up. |
| Theorems.FailsExactlyWhen | main.py:58-70 | A run raises if and only if such a block exists. No empty-string default is ever used. |
| Theorems.FailedLookupNotRetried | main.py:57-63 | When a run raises, the failed URL was fetched exactly once, as the last fetch, and the cache holds its `None`. The error comes from the duplicate test exactly when an earlier record has the same quote text. |
| Properties.RunKeeps | main.py:28-86 | A run ends either in a state satisfying the loop invariant, the block-stream position and the page-log facts, or in the failure invariant. |
| Properties.CrawlKeeps | main.py:35-84 | The outer loop, from any page onwards, keeps the invariant up to a normal end. |
| Properties.CrawlBreaks | main.py:35-84 | The outer loop, from any page onwards, ends in the failure invariant when it raises. |
| Properties.StreamEnds | main.py:39-50 | The first page that fails or has no quotes is requested, and the run ends having seen the whole block stream. |
| Properties.PageKeeps | main.py:52-84 | A usable page scanned without raising either hands all of its blocks to the next page or ends the run at the limit. |
| Properties.FinishedAt | main.py:79-82 | Reaching the limit inside a page is a normal end, with the page log up to that page. |
| Properties.PageBreaks | main.py:52-70 | A page whose scan raises makes the whole run raise at a block of that page. |
| Properties.AbortedAt | main.py:39-60 | A raise inside page n, with pages 1 to n requested, satisfies the failure invariant of the whole run. |
| Properties.ScanKeeps | main.py:52-82 | The inner loop keeps the invariant. It takes up every block of the page, or it stops right after the append that reached the limit. |
| Properties.ScanBreaks | main.py:52-82 | The inner loop, when it raises, does so at one of the page's blocks and in the failure invariant. |
| Properties.StepKeeps | main.py:53-82 | One block keeps the invariant and adds at most one quote, or it raises exactly as the failure invariant describes. |
| Properties.ResolveKeeps | main.py:57-60 | The cache stays what the seen blocks make it. A cached URL was seen before and found; a URL not cached was never seen. |
| Properties.ResolveCached | main.py:57-60 | An author URL already met leaves the cache and its order unchanged, and its lookup succeeded. |
| Properties.ResolveFresh | main.py:57-58 | A new author URL is fetched, stored and appended to the cache order. |
| Pagination.Decimal | main.py:36 | `str(n)` is a non-empty string of digits that starts with `0` only for `n = 0`. |
| Pagination.DecimalRoundTrip | main.py:36 | Reading the decimal rendering of `n` back gives `n`. |
| Pagination.PageUrlInjective | main.py:36 | Different page numbers give different page URLs. |
| Pagination.Reachable | main.py:39-50 | The count of leading usable pages: every page before that count is usable, and the page at it, if there is one, failed or has no quotes. |
| Reference.KeptNoDuplicates | main.py:62-65 | The reference quote list has no duplicate (quote, fullname) pair. |
| Reference.KeptGrows | main.py:78-79 | More blocks only append to the quote list, at most one entry per block, and earlier entries keep their place. |
| Reference.KeptEntries | main.py:67-78 | Each reference entry carries the text and tags of one of its blocks and that block's looked-up author. |
| Reference.FirstSeenSpec | main.py:57-58 | The first-seen order contains every URL met, and none twice. |
| Quotes.AppendFresh | main.py:63-78 | Appending a record whose pair is not yet present keeps the list free of duplicates. |
| Output.ProjectQuotes | main.py:97-104 | One `quotes.json` entry per quote, in the same order, holding its tags, author fullname and text. |
| Output.AuthorValues | main.py:111 | `authors.json` lists the cache values in key insertion order. |
| Output.ProjectKeepsPairsDistinct | main.py:97-104 | The projection keeps the (quote, author) pairs distinct. |
| Output.StateAuthorsCover | main.py:97-111 | For a cache built from the blocks, every author record is present, and every projected quote's author is among them. |
| Output.AuthorsCoverQuotes | main.py:90-111 | After a run that does not raise, `authors.json` has one non-null biography per distinct author URL, covering the author of every quote. |
| Output.MainFailsExactlyWhen | main.py:88-111 | `main` writes nothing exactly when `scrape_all_quotes` raises. |
| Output.MainOutput | main.py:88-111 | What `main` writes with base URL `http://quotes.toscrape.com` and limit 150: at most 150 quote entries with distinct (quote, author) pairs, and one non-null biography per distinct author URL, including the author of every quote entry. |

## Left out

- HTTP requests, status codes and transport errors are not modelled. A page
  request is an entry of the `pages` input and an author request is a call to
  `lookup`. A transport exception, which the program does not catch, is not
  modelled.
- HTML parsing with BeautifulSoup (main.py:10, 17-23, 45, 53-55) is not
  modelled. A page is given as its already extracted blocks, with text and
  tags trimmed. A missing element is not modelled. The source would raise on
  one: `AttributeError` for the `.text` accesses at main.py:19-22 and 53, and
  `TypeError` or `KeyError` for the author link at main.py:54 when a block has
  no `<a>` or its `<a>` has no `href`.
- `urljoin` (main.py:54) is not modelled: a block carries its author URL
  already resolved.
- Creating the `json` folder and writing the files (main.py:92-95, 106-111)
  is not modelled. `Output.Main` gives the two lists that would be written,
  or `None` when the run raises. JSON encoding is not modelled.
- The progress messages `print`ed at main.py:37, 42, 49 and 64 are not
  modelled.
- A site with infinitely many usable pages is out of scope: the model treats
  every page past the given sequence as a failed fetch, which is what lets
  `Scraper.Crawl` terminate. On such a site the source need not terminate.
  For example, if every page after the first repeats the first page's quotes,
  every later block is a skipped duplicate (main.py:63-65), the count stops
  growing, and the `while` at main.py:35 never ends.
- The `fetches`, `requests` and `seen` logs in `State` are observation logs
  added for the proofs; the source has local variables only for the quotes,
  the cache, the page number and the count. The cache's insertion order is
  kept as the separate field `order`, because a Dafny `map` has no order.

/** The loop invariants of Invariants, proved to hold stage by stage: one author lookup, one block, one page, the whole run. */
module Properties {
  import opened Wrappers
  import opened Quotes
  import opened Pagination
  import opened Reference
  import opened Scraper
  import opened Invariants

  lemma HealthyBound(st: State, maxQuotes: int, lookup: Lookup)
    requires Healthy(st, maxQuotes, lookup)
    ensures st.seen == [] ==> st.quotes == []
    ensures st.seen != [] ==> |st.quotes| <= maxQuotes
  {
    if st.seen != [] {
      KeptGrows(st.seen, |st.seen| - 1, |st.seen|, lookup);
      assert st.seen[..|st.seen|] == st.seen;
    }
  }

  /** A cached author URL was seen before and found; taking up b leaves the cache as it is. */
  lemma ResolveCached(bs: seq<Block>, b: Block, lookup: Lookup)
    requires AllFound(bs, lookup)
    requires b.authorUrl in CacheOf(bs, lookup)
    ensures lookup(b.authorUrl).Some?
    ensures FirstSeen(Urls(bs + [b])) == FirstSeen(Urls(bs))
    ensures CacheOf(bs + [b], lookup) == CacheOf(bs, lookup)
  {
    var url := b.authorUrl;
    UrlsSnoc(bs, b);
    assert url in Urls(bs);
    FirstSeenKnown(Urls(bs), url);
    CacheOfKnown(bs, b, lookup);
    var i :| 0 <= i < |Urls(bs)| && Urls(bs)[i] == url;
    assert lookup(bs[i].authorUrl).Some?;
  }

  /** An author URL not cached was never seen; taking up b fetches it and records it last. */
  lemma ResolveFresh(st: State, b: Block, lookup: Lookup)
    requires st == After(st.seen, st.requests, lookup)
    requires b.authorUrl !in st.cache
    ensures b.authorUrl !in Urls(st.seen)
    ensures var url := b.authorUrl;
      st.(cache := st.cache[url := lookup(url)], order := st.order + [url], fetches := st.fetches + [url], seen := st.seen + [b])
      == After(st.seen + [b], st.requests, lookup).(quotes := st.quotes)
  {
    var url := b.authorUrl;
    var seen1 := st.seen + [b];
    UrlsSnoc(st.seen, b);
    FirstSeenSnoc(Urls(st.seen), url);
    FirstSeenSpec(Urls(st.seen));
    CacheOfSnoc(st.seen, b, lookup);
    assert url !in FirstSeen(Urls(st.seen));
    assert FirstSeen(Urls(seen1)) == st.order + [url];
  }

  /**
    main.py:57-58 keep the cache what the blocks seen make it: a URL already
    cached was seen before and found; a URL not cached was never seen, and is
    fetched now.
   */
  lemma ResolveKeeps(st: State, b: Block, lookup: Lookup)
    requires st == After(st.seen, st.requests, lookup) && AllFound(st.seen, lookup)
    ensures var st1 := Resolve(st, b.authorUrl, lookup).(seen := st.seen + [b]);
      && st1 == After(st1.seen, st.requests, lookup).(quotes := st.quotes)
      && (b.authorUrl in st.cache ==> lookup(b.authorUrl).Some?)
      && (b.authorUrl !in st.cache ==> b.authorUrl !in Urls(st.seen))
  {
    if b.authorUrl in st.cache {
      ResolveCached(st.seen, b, lookup);
      assert Resolve(st, b.authorUrl, lookup) == st;
    } else {
      ResolveFresh(st, b, lookup);
    }
  }

  lemma AllFoundSnoc(bs: seq<Block>, b: Block, lookup: Lookup)
    requires AllFound(bs, lookup) && lookup(b.authorUrl).Some?
    ensures AllFound(bs + [b], lookup)
  {
    var s := bs + [b];
    forall i | 0 <= i < |s| ensures lookup(s[i].authorUrl).Some? {
      if i < |bs| { assert s[i] == bs[i]; }
    }
  }

  /** One block: the invariant is kept, or the failure is exactly the one Broken describes. */
  lemma StepKeeps(st: State, b: Block, maxQuotes: int, lookup: Lookup)
    requires Healthy(st, maxQuotes, lookup) && |st.quotes| < maxQuotes
    ensures match Step(st, b, lookup)
      case Success((st1, appended)) =>
        && Healthy(st1, maxQuotes, lookup)
        && st1.seen == st.seen + [b] && st1.requests == st.requests
        && |st1.quotes| == |st.quotes| + (if appended then 1 else 0)
      case Failure(e) =>
        && Broken(e, maxQuotes, lookup)
        && e.partial.seen == st.seen + [b] && e.partial.requests == st.requests
  {
    var seen1 := st.seen + [b];
    assert seen1[..|seen1| - 1] == st.seen;
    ResolveKeeps(st, b, lookup);
    KeptSnoc(st.seen, b, lookup);
    var st1 := Resolve(st, b.authorUrl, lookup).(seen := seen1);
    assert st1.cache[b.authorUrl] == lookup(b.authorUrl);
    if lookup(b.authorUrl).Some? {
      AllFoundSnoc(st.seen, b, lookup);
    }
  }

  /** One page that is scanned without failing: the invariant survives the inner loop. */
  lemma {:induction false} ScanKeeps(st: State, blocks: seq<Block>, maxQuotes: int, lookup: Lookup)
    requires Healthy(st, maxQuotes, lookup) && |st.quotes| < maxQuotes
    requires ScanPage(st, blocks, maxQuotes, lookup).Success?
    ensures var r := ScanPage(st, blocks, maxQuotes, lookup).value;
      && Healthy(r, maxQuotes, lookup)
      && r.requests == st.requests
      && |st.seen| <= |r.seen| && IsPrefix(r.seen, st.seen + blocks)
      && (r.seen == st.seen + blocks || |r.quotes| == maxQuotes)
    decreases |blocks|
  {
    if blocks == [] {
      assert st.seen + blocks == st.seen;
    } else {
      StepKeeps(st, blocks[0], maxQuotes, lookup);
      var st1 := Step(st, blocks[0], lookup).value.0;
      var appended := Step(st, blocks[0], lookup).value.1;
      ShiftOne(st.seen, blocks);
      if !(appended && |st1.quotes| == maxQuotes) {
        ScanKeeps(st1, blocks[1..], maxQuotes, lookup);
      }
    }
  }

  /** One page whose scan fails: the failure is one Broken describes, at a block of this page. */
  lemma {:induction false} ScanBreaks(st: State, blocks: seq<Block>, maxQuotes: int, lookup: Lookup)
    requires Healthy(st, maxQuotes, lookup) && |st.quotes| < maxQuotes
    requires ScanPage(st, blocks, maxQuotes, lookup).Failure?
    ensures var e := ScanPage(st, blocks, maxQuotes, lookup).error;
      && Broken(e, maxQuotes, lookup)
      && e.partial.requests == st.requests
      && |st.seen| < |e.partial.seen| && IsPrefix(e.partial.seen, st.seen + blocks)
    decreases |blocks|
  {
    var b := blocks[0];
    StepKeeps(st, b, maxQuotes, lookup);
    ShiftOne(st.seen, blocks);
    var step := Step(st, b, lookup);
    if step.Failure? {
      assert ScanPage(st, blocks, maxQuotes, lookup) == Failure(step.error);
      PrefixOfAppend(st.seen + [b], blocks[1..]);
    } else {
      var st1 := step.value.0;
      assert ScanPage(st, blocks, maxQuotes, lookup) == ScanPage(st1, blocks[1..], maxQuotes, lookup);
      assert |st1.quotes| < maxQuotes;
      ScanBreaks(st1, blocks[1..], maxQuotes, lookup);
    }
  }

  /** The outer loop from page `page` on, with the first page - 1 pages fully scanned, when it does not fail. */
  lemma {:induction false} CrawlKeeps(baseUrl: string, pages: seq<Page>, maxQuotes: int, lookup: Lookup, st: State, page: nat)
    requires 1 <= page && page - 1 <= Reachable(pages)
    requires page == 1 || |st.quotes| < maxQuotes
    requires Healthy(st, maxQuotes, lookup)
    requires st.seen == Flatten(pages[..page - 1]) && st.requests == PageUrls(baseUrl, page - 1)
    requires Crawl(baseUrl, pages, maxQuotes, lookup, st, page).Success?
    ensures Finished(Crawl(baseUrl, pages, maxQuotes, lookup, st, page).value, baseUrl, pages, maxQuotes, lookup)
    decreases |pages| + 1 - page
  {
    var res := Crawl(baseUrl, pages, maxQuotes, lookup, st, page);
    if |st.quotes| >= maxQuotes {
      assert res == Success(st);
      assert page == 1;
      DiscoveredStartsWith(pages, 0);
      assert RequestsOk(st, baseUrl, pages, maxQuotes);
    } else {
      var st1 := st.(requests := st.requests + [PageUrl(baseUrl, page)]);
      if page - 1 == Reachable(pages) {
        assert !Usable(FetchPage(pages, page));
        assert res == Success(st1);
        StreamEnds(baseUrl, pages, maxQuotes, lookup, st, page);
      } else {
        var blocks := pages[page - 1].value;
        assert Usable(pages[page - 1]);
        var st2 := ScanPage(st1, blocks, maxQuotes, lookup).value;
        assert res == Crawl(baseUrl, pages, maxQuotes, lookup, st2, page + 1);
        PageKeeps(baseUrl, pages, maxQuotes, lookup, st, page);
        if |st2.quotes| < maxQuotes {
          CrawlKeeps(baseUrl, pages, maxQuotes, lookup, st2, page + 1);
        } else {
          assert res == Success(st2);
        }
      }
    }
  }

  /** The page after the last usable one: it is requested, and the run ends with the whole block stream seen. */
  lemma StreamEnds(baseUrl: string, pages: seq<Page>, maxQuotes: int, lookup: Lookup, st: State, page: nat)
    requires 1 <= page && page - 1 == Reachable(pages)
    requires |st.quotes| < maxQuotes
    requires Healthy(st, maxQuotes, lookup)
    requires st.seen == Flatten(pages[..page - 1]) && st.requests == PageUrls(baseUrl, page - 1)
    ensures Finished(st.(requests := st.requests + [PageUrl(baseUrl, page)]), baseUrl, pages, maxQuotes, lookup)
  {
    var st1 := st.(requests := st.requests + [PageUrl(baseUrl, page)]);
    PageUrlsNext(baseUrl, page - 1);
    assert Healthy(st1, maxQuotes, lookup);
    assert st1.seen == Discovered(pages);
    assert IsPrefix(st1.seen, Discovered(pages));
    assert RequestsOk(st1, baseUrl, pages, maxQuotes);
  }

  /**
    A usable page scanned without failing: the loop goes on to the next page
    with the page's blocks all taken up, or the scan reached the limit inside
    the page and the run ends there.
   */
  lemma PageKeeps(baseUrl: string, pages: seq<Page>, maxQuotes: int, lookup: Lookup, st: State, page: nat)
    requires 1 <= page && page - 1 < Reachable(pages)
    requires |st.quotes| < maxQuotes
    requires Healthy(st, maxQuotes, lookup)
    requires st.seen == Flatten(pages[..page - 1]) && st.requests == PageUrls(baseUrl, page - 1)
    requires ScanPage(st.(requests := st.requests + [PageUrl(baseUrl, page)]), pages[page - 1].value, maxQuotes, lookup).Success?
    ensures var st2 := ScanPage(st.(requests := st.requests + [PageUrl(baseUrl, page)]), pages[page - 1].value, maxQuotes, lookup).value;
      && Healthy(st2, maxQuotes, lookup)
      && st2.requests == PageUrls(baseUrl, page)
      && (|st2.quotes| < maxQuotes ==> st2.seen == Flatten(pages[..page]))
      && (|st2.quotes| >= maxQuotes ==> Finished(st2, baseUrl, pages, maxQuotes, lookup))
  {
    var st1 := st.(requests := st.requests + [PageUrl(baseUrl, page)]);
    var blocks := pages[page - 1].value;
    PageUrlsNext(baseUrl, page - 1);
    FlattenNext(pages, page - 1);
    DiscoveredStartsWith(pages, page);
    assert Healthy(st1, maxQuotes, lookup);
    var st2 := ScanPage(st1, blocks, maxQuotes, lookup).value;
    ScanKeeps(st1, blocks, maxQuotes, lookup);
    assert st1.seen + blocks == Flatten(pages[..page]);
    if |st2.quotes| >= maxQuotes {
      assert st2.seen != st1.seen;
      FinishedAt(st2, baseUrl, pages, maxQuotes, lookup, page);
    }
  }

  /** Reaching the limit inside page `page`, with pages 1 to `page` requested, is a finished run. */
  lemma FinishedAt(r: State, baseUrl: string, pages: seq<Page>, maxQuotes: int, lookup: Lookup, page: nat)
    requires 1 <= page <= Reachable(pages)
    requires Healthy(r, maxQuotes, lookup) && |r.quotes| >= maxQuotes
    requires IsPrefix(r.seen, Flatten(pages[..page]))
    requires r.requests == PageUrls(baseUrl, page)
    requires |Flatten(pages[..page - 1])| < |r.seen|
    ensures Finished(r, baseUrl, pages, maxQuotes, lookup)
  {
    DiscoveredStartsWith(pages, page);
    PrefixTrans(r.seen, Flatten(pages[..page]), Discovered(pages));
    assert RequestsOk(r, baseUrl, pages, maxQuotes);
  }

  /** A page whose scan fails: the failure of the whole run, at a block of that page. */
  lemma PageBreaks(baseUrl: string, pages: seq<Page>, maxQuotes: int, lookup: Lookup, st: State, page: nat)
    requires 1 <= page && page - 1 < Reachable(pages)
    requires |st.quotes| < maxQuotes
    requires Healthy(st, maxQuotes, lookup)
    requires st.seen == Flatten(pages[..page - 1]) && st.requests == PageUrls(baseUrl, page - 1)
    requires ScanPage(st.(requests := st.requests + [PageUrl(baseUrl, page)]), pages[page - 1].value, maxQuotes, lookup).Failure?
    ensures Aborted(ScanPage(st.(requests := st.requests + [PageUrl(baseUrl, page)]), pages[page - 1].value, maxQuotes, lookup).error,
                    baseUrl, pages, maxQuotes, lookup)
  {
    var st1 := st.(requests := st.requests + [PageUrl(baseUrl, page)]);
    var blocks := pages[page - 1].value;
    PageUrlsNext(baseUrl, page - 1);
    FlattenNext(pages, page - 1);
    DiscoveredStartsWith(pages, page);
    assert Healthy(st1, maxQuotes, lookup);
    var e := ScanPage(st1, blocks, maxQuotes, lookup).error;
    ScanBreaks(st1, blocks, maxQuotes, lookup);
    assert st1.seen + blocks == Flatten(pages[..page]);
    AbortedAt(e, baseUrl, pages, maxQuotes, lookup, page);
  }

  /** A failure inside page `page` of the block stream, with pages 1 to `page` requested, is an aborted run. */
  lemma AbortedAt(e: RunError, baseUrl: string, pages: seq<Page>, maxQuotes: int, lookup: Lookup, page: nat)
    requires 1 <= page <= Reachable(pages)
    requires Broken(e, maxQuotes, lookup)
    requires IsPrefix(e.partial.seen, Flatten(pages[..page]))
    requires e.partial.requests == PageUrls(baseUrl, page)
    requires |Flatten(pages[..page - 1])| < |e.partial.seen|
    ensures Aborted(e, baseUrl, pages, maxQuotes, lookup)
  {
    DiscoveredStartsWith(pages, page);
    PrefixTrans(e.partial.seen, Flatten(pages[..page]), Discovered(pages));
  }

  /** The outer loop from page `page` on, with the first page - 1 pages fully scanned, when it fails. */
  lemma {:induction false} CrawlBreaks(baseUrl: string, pages: seq<Page>, maxQuotes: int, lookup: Lookup, st: State, page: nat)
    requires 1 <= page && page - 1 <= Reachable(pages)
    requires page == 1 || |st.quotes| < maxQuotes
    requires Healthy(st, maxQuotes, lookup)
    requires st.seen == Flatten(pages[..page - 1]) && st.requests == PageUrls(baseUrl, page - 1)
    requires Crawl(baseUrl, pages, maxQuotes, lookup, st, page).Failure?
    ensures Aborted(Crawl(baseUrl, pages, maxQuotes, lookup, st, page).error, baseUrl, pages, maxQuotes, lookup)
    decreases |pages| + 1 - page
  {
    assert |st.quotes| < maxQuotes;
    assert Usable(FetchPage(pages, page));
    assert page - 1 < Reachable(pages);
    var st1 := st.(requests := st.requests + [PageUrl(baseUrl, page)]);
    var blocks := pages[page - 1].value;
    var scan := ScanPage(st1, blocks, maxQuotes, lookup);
    if scan.Failure? {
      assert Crawl(baseUrl, pages, maxQuotes, lookup, st, page) == scan;
      PageBreaks(baseUrl, pages, maxQuotes, lookup, st, page);
    } else {
      var st2 := scan.value;
      assert Crawl(baseUrl, pages, maxQuotes, lookup, st, page) == Crawl(baseUrl, pages, maxQuotes, lookup, st2, page + 1);
      PageUrlsNext(baseUrl, page - 1);
      FlattenNext(pages, page - 1);
      assert Healthy(st1, maxQuotes, lookup);
      ScanKeeps(st1, blocks, maxQuotes, lookup);
      assert st2.seen == Flatten(pages[..page]);
      CrawlBreaks(baseUrl, pages, maxQuotes, lookup, st2, page + 1);
    }
  }

  lemma RunKeeps(baseUrl: string, maxQuotes: int, pages: seq<Page>, lookup: Lookup)
    ensures match Run(baseUrl, maxQuotes, pages, lookup)
      case Success(r) => Finished(r, baseUrl, pages, maxQuotes, lookup)
      case Failure(e) => Aborted(e, baseUrl, pages, maxQuotes, lookup)
  {
    assert pages[..0] == [];
    if Run(baseUrl, maxQuotes, pages, lookup).Success? {
      CrawlKeeps(baseUrl, pages, maxQuotes, lookup, Initial, 1);
    } else {
      CrawlBreaks(baseUrl, pages, maxQuotes, lookup, Initial, 1);
    }
  }
}

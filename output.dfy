/**
  main (main.py:88-111): run the scraper on the quotes site with a limit of
  150, project each quote to {tags, author fullname, quote} for quotes.json,
  and list the cached author records in insertion order for authors.json.
  Writing the files is not modelled: a run that raises writes nothing.
 */
module Output {
  import opened Wrappers
  import opened Quotes
  import opened Pagination
  import opened Reference
  import opened Scraper
  import opened Theorems

  const SiteUrl: string := "http://quotes.toscrape.com"
  const QuoteTarget: int := 150

  /** One entry of quotes.json. */
  datatype QuoteOut = QuoteOut(tags: seq<string>, author: string, quote: string)

  /** The contents of quotes.json and authors.json; a None author is written as null. */
  datatype JsonFiles = JsonFiles(quotes: seq<QuoteOut>, authors: seq<Option<Author>>)

  /**
    The list comprehension of main.py:97-104: one entry per quote, in the
    same order, with the author reduced to its fullname.
   */
  function ProjectQuotes(qs: seq<QuoteInfo>): (r: seq<QuoteOut>)
    ensures |r| == |qs|
    ensures forall i :: 0 <= i < |qs| ==>
      r[i].tags == qs[i].tags && r[i].author == qs[i].author.fullname && r[i].quote == qs[i].quote
  {
    if qs == [] then []
    else [QuoteOut(qs[0].tags, qs[0].author.fullname, qs[0].quote)] + ProjectQuotes(qs[1..])
  }

  /** authors_info.values() (main.py:111): the cached values in key insertion order. */
  function AuthorValues(cache: map<string, Option<Author>>, order: seq<string>): (r: seq<Option<Author>>)
    requires forall u :: u in order ==> u in cache
    ensures |r| == |order|
    ensures forall i :: 0 <= i < |order| ==> r[i] == cache[order[i]]
  {
    if order == [] then []
    else [cache[order[0]]] + AuthorValues(cache, order[1..])
  }

  /** The two files main writes, or None when scrape_all_quotes raises. */
  function Main(pages: seq<Page>, lookup: Lookup): Option<JsonFiles> {
    match Run(SiteUrl, QuoteTarget, pages, lookup)
    case Failure(_) => None
    case Success(r) =>
      AuthorsFetchedOnce(SiteUrl, QuoteTarget, pages, lookup);
      Some(JsonFiles(ProjectQuotes(r.quotes), AuthorValues(r.cache, r.order)))
  }

  /** The projection keeps the pairs (quote, author) of its input distinct. */
  lemma ProjectKeepsPairsDistinct(qs: seq<QuoteInfo>)
    requires NoDuplicates(qs)
    ensures var r := ProjectQuotes(qs);
      forall i, j :: 0 <= i < j < |r| ==> r[i].quote != r[j].quote || r[i].author != r[j].author
  {
  }

  /**
    For a finished state whose cache holds a found author for every URL of
    its author order and whose entries come from its blocks, the author
    records cover the authors of the projected quotes.
   */
  lemma StateAuthorsCover(r: State, lookup: Lookup)
    requires forall u :: u in r.cache <==> u in Urls(r.seen)
    requires forall u :: u in r.order <==> u in Urls(r.seen)
    requires forall u :: u in r.cache ==> r.cache[u] == lookup(u) && r.cache[u].Some?
    requires forall k :: 0 <= k < |r.quotes| ==> FromBlock(r.quotes[k], r.seen, lookup)
    ensures forall u :: u in r.order ==> u in r.cache
    ensures var qs := ProjectQuotes(r.quotes);
      var vals := AuthorValues(r.cache, r.order);
      && (forall j :: 0 <= j < |vals| ==> vals[j].Some?)
      && (forall k :: 0 <= k < |qs| ==> exists j :: 0 <= j < |vals| && vals[j].value.fullname == qs[k].author)
  {
    var qs := ProjectQuotes(r.quotes);
    var vals := AuthorValues(r.cache, r.order);
    forall k | 0 <= k < |qs|
      ensures exists j :: 0 <= j < |vals| && vals[j].value.fullname == qs[k].author
    {
      assert FromBlock(r.quotes[k], r.seen, lookup);
      var i :| 0 <= i < |r.seen| && lookup(r.seen[i].authorUrl) == Some(r.quotes[k].author)
        && r.quotes[k].quote == r.seen[i].text && r.quotes[k].tags == r.seen[i].tags;
      var u := r.seen[i].authorUrl;
      assert Urls(r.seen)[i] == u;
      assert u in Urls(r.seen);
      assert u in r.order;
      var j :| 0 <= j < |r.order| && r.order[j] == u;
      assert vals[j] == r.cache[u];
    }
  }

  /** Every quote's author is among the author records, which are all present. */
  lemma AuthorsCoverQuotes(baseUrl: string, maxQuotes: int, pages: seq<Page>, lookup: Lookup)
    requires Run(baseUrl, maxQuotes, pages, lookup).Success?
    ensures var r := Run(baseUrl, maxQuotes, pages, lookup).value;
      && (forall u :: u in r.order ==> u in r.cache)
      && var qs := ProjectQuotes(r.quotes);
      var vals := AuthorValues(r.cache, r.order);
      && |vals| == |FirstSeen(Urls(r.seen))|
      && (forall j :: 0 <= j < |vals| ==> vals[j].Some?)
      && (forall k :: 0 <= k < |qs| ==> exists j :: 0 <= j < |vals| && vals[j].value.fullname == qs[k].author)
  {
    AuthorsFetchedOnce(baseUrl, maxQuotes, pages, lookup);
    DiscoveryOrder(baseUrl, maxQuotes, pages, lookup);
    StateAuthorsCover(Run(baseUrl, maxQuotes, pages, lookup).value, lookup);
  }

  /** main writes nothing exactly when scrape_all_quotes raises. */
  lemma MainFailsExactlyWhen(pages: seq<Page>, lookup: Lookup)
    ensures Main(pages, lookup).None? <==> Run(SiteUrl, QuoteTarget, pages, lookup).Failure?
  {
  }

  /**
    What main writes when the run succeeds: at most 150 quote entries with
    distinct (quote, author) pairs, one author record per distinct author
    URL met, none of them null, the author of every quote entry among them.
   */
  lemma MainOutput(pages: seq<Page>, lookup: Lookup)
    requires Main(pages, lookup).Some?
    ensures var f := Main(pages, lookup).value;
      && |f.quotes| <= QuoteTarget
      && (forall i, j :: 0 <= i < j < |f.quotes| ==> f.quotes[i].quote != f.quotes[j].quote || f.quotes[i].author != f.quotes[j].author)
      && |f.authors| == |FirstSeen(Urls(Run(SiteUrl, QuoteTarget, pages, lookup).value.seen))|
      && (forall j :: 0 <= j < |f.authors| ==> f.authors[j].Some?)
      && (forall k :: 0 <= k < |f.quotes| ==>
            exists j :: 0 <= j < |f.authors| && f.authors[j].value.fullname == f.quotes[k].author)
  {
    var res := Run(SiteUrl, QuoteTarget, pages, lookup);
    var r := res.value;
    AuthorsCoverQuotes(SiteUrl, QuoteTarget, pages, lookup);
    assert Main(pages, lookup).value == JsonFiles(ProjectQuotes(r.quotes), AuthorValues(r.cache, r.order));
    QuoteLimit(SiteUrl, QuoteTarget, pages, lookup);
    NoDuplicateQuotes(SiteUrl, QuoteTarget, pages, lookup);
    ProjectKeepsPairsDistinct(r.quotes);
  }
}

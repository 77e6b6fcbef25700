/**
  The records of the scraper (main.py): an author biography, a quote block as
  it is extracted from a listing page, and the quote record the
  aggregation loop accumulates.
 */
module Quotes {

  /** An author biography as scrape_author_info builds it (main.py:18-23). */
  datatype Author = Author(fullname: string, bornDate: string, bornLocation: string, description: string)

  /**
    One quote block of a listing page: the trimmed quote text, the author page
    URL already resolved against the base URL, and the trimmed tag labels in
    page order (main.py:53-55).
   */
  datatype Block = Block(text: string, authorUrl: string, tags: seq<string>)

  /** The record appended to all_quotes (main.py:67-76). */
  datatype QuoteInfo = QuoteInfo(tags: seq<string>, author: Author, quote: string)

  /** The record built from a block whose author was found. */
  function Record(b: Block, a: Author): QuoteInfo {
    QuoteInfo(b.tags, a, b.text)
  }

  /** True when some entry already has this quote text (the first half of the test at main.py:63). */
  predicate HasText(quotes: seq<QuoteInfo>, text: string) {
    exists i :: 0 <= i < |quotes| && quotes[i].quote == text
  }

  /** The duplicate test of main.py:63: an entry with the same text and the same author fullname. */
  predicate IsDuplicate(quotes: seq<QuoteInfo>, text: string, fullname: string) {
    exists i :: 0 <= i < |quotes| && quotes[i].quote == text && quotes[i].author.fullname == fullname
  }

  /** No two entries share the pair (quote text, author fullname). */
  ghost predicate NoDuplicates(quotes: seq<QuoteInfo>) {
    forall i, j :: 0 <= i < j < |quotes| ==>
      quotes[i].quote != quotes[j].quote || quotes[i].author.fullname != quotes[j].author.fullname
  }

  /** Appending a record whose pair is not yet present keeps the list free of duplicates. */
  lemma AppendFresh(quotes: seq<QuoteInfo>, q: QuoteInfo)
    requires NoDuplicates(quotes)
    requires !IsDuplicate(quotes, q.quote, q.author.fullname)
    ensures NoDuplicates(quotes + [q])
  {
    var r := quotes + [q];
    forall i, j | 0 <= i < j < |r|
      ensures r[i].quote != r[j].quote || r[i].author.fullname != r[j].author.fullname
    {
      if j == |quotes| {
        assert r[i] == quotes[i];
      }
    }
  }
}

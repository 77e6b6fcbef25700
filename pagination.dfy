/**
  The listing pages: how the page URL is formed (main.py:36), what a page
  fetch yields (main.py:39-50), and the stream of quote blocks the site
  offers before pagination stops.
 */
module Pagination {
  import opened Wrappers
  import opened Quotes

  /**
    The outcome of requesting one listing page: None when the fetch failed
    (get_quotes_page returned None), otherwise the quote blocks found on it.
   */
  type Page = Option<seq<Block>>

  /**
    Page n (counting from 1) of the site; a page beyond the given ones is a
    failed fetch.
   */
  function FetchPage(pages: seq<Page>, n: int): Page
  {
    if 1 <= n <= |pages| then pages[n - 1] else None
  }

  /** A page the loop goes on from: it was fetched and holds at least one block. */
  predicate Usable(p: Page) {
    p.Some? && p.value != []
  }

  // ---------------------------------------------------------------------
  // Decimal rendering of the page number inside the f-string of main.py:36

  function DigitChar(d: nat): (c: char)
    requires d < 10
  {
    "0123456789"[d]
  }

  predicate IsDigit(c: char) {
    '0' <= c <= '9'
  }

  function DigitValue(c: char): nat
    requires IsDigit(c)
  {
    (c as int - '0' as int) as nat
  }

  /** The decimal digits of n, most significant first, as Python's str(n) writes them. */
  function Decimal(n: nat): (s: string)
    ensures s != [] && forall i :: 0 <= i < |s| ==> IsDigit(s[i])
    ensures s[0] == '0' ==> n == 0
  {
    if n < 10 then [DigitChar(n)] else Decimal(n / 10) + [DigitChar(n % 10)]
  }

  /** Reads a string of decimal digits back as a number. */
  function ParseDecimal(s: string): nat
    requires forall i :: 0 <= i < |s| ==> IsDigit(s[i])
  {
    if s == [] then 0 else 10 * ParseDecimal(s[..|s| - 1]) + DigitValue(s[|s| - 1])
  }

  lemma {:induction false} DecimalRoundTrip(n: nat)
    ensures ParseDecimal(Decimal(n)) == n
  {
    var s := Decimal(n);
    if n < 10 {
      assert s[..0] == [];
    } else {
      DecimalRoundTrip(n / 10);
      assert s[..|s| - 1] == Decimal(n / 10);
    }
  }

  /** The URL of listing page n (main.py:36). */
  function PageUrl(baseUrl: string, n: nat): string {
    baseUrl + "/page/" + Decimal(n) + "/"
  }

  /** Different page numbers give different page URLs, so no page is requested twice. */
  lemma PageUrlInjective(baseUrl: string, m: nat, n: nat)
    requires PageUrl(baseUrl, m) == PageUrl(baseUrl, n)
    ensures m == n
  {
    var u := PageUrl(baseUrl, m);
    var k := |baseUrl| + 6;
    assert u[k..|u| - 1] == Decimal(m);
    assert PageUrl(baseUrl, n)[k..|u| - 1] == Decimal(n);
    DecimalRoundTrip(m);
    DecimalRoundTrip(n);
  }

  /** The URLs of pages 1 to n, in request order. */
  function PageUrls(baseUrl: string, n: nat): seq<string>
  {
    seq(n, i requires 0 <= i => PageUrl(baseUrl, i + 1))
  }

  /** Pages 1 to n are requested in order, each under its own URL. */
  lemma PageUrlsDistinct(baseUrl: string, n: nat)
    ensures |PageUrls(baseUrl, n)| == n
    ensures forall i :: 0 <= i < n ==> PageUrls(baseUrl, n)[i] == PageUrl(baseUrl, i + 1)
    ensures forall i, j :: 0 <= i < j < n ==> PageUrls(baseUrl, n)[i] != PageUrls(baseUrl, n)[j]
  {
    var us := PageUrls(baseUrl, n);
    forall i, j | 0 <= i < j < n ensures us[i] != us[j] {
      if us[i] == us[j] {
        PageUrlInjective(baseUrl, i + 1, j + 1);
      }
    }
  }

  lemma PageUrlsNext(baseUrl: string, n: nat)
    ensures PageUrls(baseUrl, n) + [PageUrl(baseUrl, n + 1)] == PageUrls(baseUrl, n + 1)
  {
  }

  // ---------------------------------------------------------------------
  // The block stream

  /**
    The number of leading usable pages: the loop, if it is not stopped by its
    limit, requests exactly one page more than this.
   */
  function Reachable(pages: seq<Page>): (g: nat)
    ensures g <= |pages|
    ensures forall i :: 0 <= i < g ==> Usable(pages[i])
    ensures g < |pages| ==> !Usable(pages[g])
  {
    if pages == [] || !Usable(pages[0]) then 0 else 1 + Reachable(pages[1..])
  }

  /** The blocks of the given pages, page after page, each page in block order. */
  function Flatten(pages: seq<Page>): seq<Block> {
    if pages == [] then []
    else Flatten(pages[..|pages| - 1]) + (if pages[|pages| - 1].Some? then pages[|pages| - 1].value else [])
  }

  /**
    Every block the site offers before pagination stops: the blocks of the
    leading usable pages, in discovery order.
   */
  function Discovered(pages: seq<Page>): seq<Block> {
    Flatten(pages[..Reachable(pages)])
  }

  ghost predicate IsPrefix<T>(a: seq<T>, b: seq<T>) {
    |a| <= |b| && a == b[..|a|]
  }

  lemma PrefixTrans<T>(a: seq<T>, b: seq<T>, c: seq<T>)
    requires IsPrefix(a, b) && IsPrefix(b, c)
    ensures IsPrefix(a, c)
  {
    assert c[..|b|][..|a|] == c[..|a|];
  }

  lemma PrefixOfAppend<T>(a: seq<T>, s: seq<T>)
    ensures IsPrefix(a, a + s)
  {
    assert (a + s)[..|a|] == a;
  }

  /** Moving the first element of s to the end of a. */
  lemma ShiftOne<T>(a: seq<T>, s: seq<T>)
    requires s != []
    ensures a + s == (a + [s[0]]) + s[1..]
  {
    assert s == [s[0]] + s[1..];
  }

  lemma FlattenNext(pages: seq<Page>, k: nat)
    requires k < |pages| && pages[k].Some?
    ensures Flatten(pages[..k + 1]) == Flatten(pages[..k]) + pages[k].value
  {
    assert pages[..k + 1][..k] == pages[..k];
  }

  lemma {:induction false} FlattenPrefix(pages: seq<Page>, i: nat, j: nat)
    requires i <= j <= |pages|
    ensures IsPrefix(Flatten(pages[..i]), Flatten(pages[..j]))
  {
    if i < j {
      FlattenPrefix(pages, i, j - 1);
      assert pages[..j][..j - 1] == pages[..j - 1];
    }
  }

  /** The blocks of the first k pages, for k up to the number of usable pages, begin the discovered stream. */
  lemma DiscoveredStartsWith(pages: seq<Page>, k: nat)
    requires k <= Reachable(pages)
    ensures IsPrefix(Flatten(pages[..k]), Discovered(pages))
  {
    FlattenPrefix(pages, k, Reachable(pages));
  }
}

/**
  Reference definitions over the flat sequence of blocks the loop has taken
  from the listing pages, written without pages, without a cache and without
  a limit. The aggregation loop is proved to agree with them.
 */
module Reference {
  import opened Wrappers
  import opened Quotes

  type Lookup = string -> Option<Author>

  /** The author URLs of the blocks, in order. */
  function Urls(bs: seq<Block>): seq<string>
  {
    seq(|bs|, i requires 0 <= i < |bs| => bs[i].authorUrl)
  }

  lemma UrlsSnoc(bs: seq<Block>, b: Block)
    ensures Urls(bs + [b]) == Urls(bs) + [b.authorUrl]
  {
  }

  /** Each URL once, at the position of its first occurrence. */
  function FirstSeen(us: seq<string>): seq<string> {
    if us == [] then []
    else
      var r := FirstSeen(us[..|us| - 1]);
      if us[|us| - 1] in r then r else r + [us[|us| - 1]]
  }

  ghost predicate Distinct<T>(s: seq<T>) {
    forall i, j :: 0 <= i < j < |s| ==> s[i] != s[j]
  }

  lemma FirstSeenSnoc(us: seq<string>, u: string)
    ensures FirstSeen(us + [u]) == if u in FirstSeen(us) then FirstSeen(us) else FirstSeen(us) + [u]
  {
    assert (us + [u])[..|us|] == us;
  }

  /** A URL already met adds nothing to the first-seen order. */
  lemma FirstSeenKnown(us: seq<string>, u: string)
    requires u in us
    ensures FirstSeen(us + [u]) == FirstSeen(us)
  {
    FirstSeenSnoc(us, u);
    FirstSeenSpec(us);
  }

  /** FirstSeen keeps exactly the URLs it is given, and none of them twice. */
  lemma {:induction false} FirstSeenSpec(us: seq<string>)
    ensures Distinct(FirstSeen(us))
    ensures forall u :: u in FirstSeen(us) <==> u in us
  {
    if us != [] {
      var init := us[..|us| - 1];
      FirstSeenSpec(init);
      assert us == init + [us[|us| - 1]];
    }
  }

  /** The author cache the blocks produce: each of their author URLs, with what the lookup gives for it. */
  function CacheOf(bs: seq<Block>, lookup: Lookup): map<string, Option<Author>>
  {
    map u | u in Urls(bs) :: lookup(u)
  }

  lemma CacheOfSnoc(bs: seq<Block>, b: Block, lookup: Lookup)
    ensures CacheOf(bs + [b], lookup) == CacheOf(bs, lookup)[b.authorUrl := lookup(b.authorUrl)]
  {
    UrlsSnoc(bs, b);
  }

  /** A block whose author URL was already met leaves the cache as it is. */
  lemma CacheOfKnown(bs: seq<Block>, b: Block, lookup: Lookup)
    requires b.authorUrl in Urls(bs)
    ensures CacheOf(bs + [b], lookup) == CacheOf(bs, lookup)
  {
    var m := CacheOf(bs, lookup);
    CacheOfSnoc(bs, b, lookup);
    assert m[b.authorUrl := lookup(b.authorUrl)] == m;
  }

  /** Every block's author lookup succeeded. */
  ghost predicate AllFound(bs: seq<Block>, lookup: Lookup) {
    forall i :: 0 <= i < |bs| ==> lookup(bs[i].authorUrl).Some?
  }

  /**
    The quote list the blocks produce when each is looked up directly: a block
    is kept, with its author, unless an earlier kept one has the same text and
    author fullname. A block whose lookup failed adds nothing (the loop never
    gets past such a block).
   */
  function Kept(bs: seq<Block>, lookup: Lookup): seq<QuoteInfo> {
    if bs == [] then []
    else
      var r := Kept(bs[..|bs| - 1], lookup);
      var b := bs[|bs| - 1];
      match lookup(b.authorUrl)
      case None => r
      case Some(a) => if IsDuplicate(r, b.text, a.fullname) then r else r + [Record(b, a)]
  }

  lemma KeptSnoc(bs: seq<Block>, b: Block, lookup: Lookup)
    ensures Kept(bs + [b], lookup) ==
      match lookup(b.authorUrl)
      case None => Kept(bs, lookup)
      case Some(a) => if IsDuplicate(Kept(bs, lookup), b.text, a.fullname) then Kept(bs, lookup) else Kept(bs, lookup) + [Record(b, a)]
  {
    assert (bs + [b])[..|bs|] == bs;
  }

  /** The reference quote list never holds two entries with the same text and author fullname. */
  lemma {:induction false} KeptNoDuplicates(bs: seq<Block>, lookup: Lookup)
    ensures NoDuplicates(Kept(bs, lookup))
  {
    if bs != [] {
      var init := bs[..|bs| - 1];
      KeptNoDuplicates(init, lookup);
      var b := bs[|bs| - 1];
      match lookup(b.authorUrl)
      case None =>
      case Some(a) =>
        if !IsDuplicate(Kept(init, lookup), b.text, a.fullname) {
          AppendFresh(Kept(init, lookup), Record(b, a));
        }
    }
  }

  /**
    Taking more blocks only appends to the quote list: the entries of an
    earlier prefix stay where they are (discovery order), one block adds at
    most one entry.
   */
  lemma {:induction false} KeptGrows(bs: seq<Block>, i: nat, j: nat, lookup: Lookup)
    requires i <= j <= |bs|
    ensures |Kept(bs[..i], lookup)| <= |Kept(bs[..j], lookup)| <= |Kept(bs[..i], lookup)| + (j - i)
    ensures Kept(bs[..i], lookup) == Kept(bs[..j], lookup)[..|Kept(bs[..i], lookup)|]
  {
    if i < j {
      KeptGrows(bs, i, j - 1, lookup);
      assert bs[..j] == bs[..j - 1] + [bs[j - 1]];
      KeptSnoc(bs[..j - 1], bs[j - 1], lookup);
    }
  }

  /** The entry has the text and tags of one of the blocks, and that block's looked-up author. */
  ghost predicate FromBlock(q: QuoteInfo, bs: seq<Block>, lookup: Lookup) {
    exists i :: 0 <= i < |bs| && lookup(bs[i].authorUrl) == Some(q.author) && q.quote == bs[i].text && q.tags == bs[i].tags
  }

  /**
    Every entry of the reference list is the record of one of the blocks: its
    quote text and tags are the block's, its author is the looked-up author.
   */
  lemma {:induction false} KeptEntries(bs: seq<Block>, lookup: Lookup)
    ensures forall k :: 0 <= k < |Kept(bs, lookup)| ==> FromBlock(Kept(bs, lookup)[k], bs, lookup)
  {
    if bs != [] {
      var init := bs[..|bs| - 1];
      var b := bs[|bs| - 1];
      KeptEntries(init, lookup);
      var r := Kept(bs, lookup);
      forall k | 0 <= k < |r|
        ensures FromBlock(r[k], bs, lookup)
      {
        if k < |Kept(init, lookup)| {
          var i :| 0 <= i < |init| && lookup(init[i].authorUrl) == Some(Kept(init, lookup)[k].author)
            && Kept(init, lookup)[k].quote == init[i].text && Kept(init, lookup)[k].tags == init[i].tags;
          assert bs[i] == init[i];
        } else {
          assert r[k] == Record(b, lookup(b.authorUrl).value);
          assert bs[|bs| - 1] == b;
        }
      }
    }
  }
}

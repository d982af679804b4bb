/**
 * The feed assembler of src/lib/feed-manager.ts: `FeedManager.processBatch` appends a
 * batch of articles to the feed and inserts an ad after every `nextAdGap` articles,
 * redrawing the gap after each ad.
 *
 * The two sources of randomness are injected: `gaps` holds the successive results of
 * `getRandomInt(5, 10)` (the j-th ad of the batch draws `gaps[j]`) and `uuids` the
 * successive results of `crypto.randomUUID()` (the k-th new entry takes `uuids[k]`).
 */
module FeedManager {
  import opened Wrappers
  import opened JsStrings
  import opened Articles

  /** The range of `getRandomInt(5, 10)`. */
  const MinAdGap: int := 5
  const MaxAdGap: int := 10

  /** Length of the canonical text form of a UUID. */
  const UuidLength: nat := 36

  /** The state threaded through successive batches. */
  datatype FeedState = FeedState(items: seq<FeedItem>, itemsSinceLastAd: int, nextAdGap: int)

  /** Every injected gap lies in the range of `getRandomInt(5, 10)`. */
  predicate ValidGaps(gaps: seq<int>) {
    forall j :: 0 <= j < |gaps| ==> MinAdGap <= gaps[j] <= MaxAdGap
  }

  /** The injected UUIDs are pairwise distinct and all of canonical length. */
  predicate FreshUuids(uuids: seq<string>) {
    && (forall k :: 0 <= k < |uuids| ==> |uuids[k]| == UuidLength)
    && (forall i, j :: 0 <= i < j < |uuids| ==> uuids[i] != uuids[j])
  }

  // ---------------------------------------------------------------------------
  // Identifiers

  /** The characters matched by `\s` in a JavaScript regular expression, outside `U+2000..U+200A`. */
  const SpaceChars: set<char> := {
    ' ', '\t', '\n', '\r', '\U{000B}', '\U{000C}', '\U{00A0}', '\U{1680}',
    '\U{2028}', '\U{2029}', '\U{202F}', '\U{205F}', '\U{3000}', '\U{FEFF}'}

  /** The characters matched by `\s` in a JavaScript regular expression. */
  predicate IsSpace(c: char) {
    c in SpaceChars || '\U{2000}' <= c <= '\U{200A}'
  }

  /** The string without its leading whitespace. */
  function DropSpaces(s: string): (t: string)
    ensures |t| <= |s| && t == s[|s| - |t|..]
    ensures t == [] || !IsSpace(t[0])
    ensures forall i :: 0 <= i < |s| - |t| ==> IsSpace(s[i])
  {
    if s != [] && IsSpace(s[0]) then DropSpaces(s[1..]) else s
  }

  /** `s.replace(/\s+/g, '-')`: every maximal run of whitespace becomes one `-`. */
  function CollapseSpaces(s: string): (t: string)
    ensures forall i :: 0 <= i < |t| ==> !IsSpace(t[i])
    ensures (forall i :: 0 <= i < |s| ==> !IsSpace(s[i])) ==> t == s
    decreases |s|
  {
    if s == [] then []
    else if IsSpace(s[0]) then
      var rest := CollapseSpaces(DropSpaces(s[1..]));
      assert !IsSpace('-');
      assert forall i :: 0 < i <= |rest| ==> ("-" + rest)[i] == rest[i - 1];
      "-" + rest
    else
      var rest := CollapseSpaces(s[1..]);
      assert forall i :: 0 < i <= |rest| ==> ([s[0]] + rest)[i] == rest[i - 1];
      assert (forall i :: 0 <= i < |s| ==> !IsSpace(s[i])) ==> rest == s[1..];
      [s[0]] + rest
  }

  /** The title part of an article id: whitespace runs dashed, then lower-cased. */
  function Slug(title: string): string {
    ToLower(CollapseSpaces(title))
  }

  /** A slug holds no whitespace and no upper-case ASCII letter. */
  lemma SlugShape(title: string)
    ensures var slug := Slug(title);
      forall i :: 0 <= i < |slug| ==> !IsSpace(slug[i]) && !('A' <= slug[i] <= 'Z')
  {
    ToLowerAt(CollapseSpaces(title));
  }

  /** `generateArticleId`: `wiki-<slug>-<uuid>`. */
  function ArticleId(article: WikiArticle, uuid: string): string {
    "wiki-" + Slug(article.title) + "-" + uuid
  }

  /** `generateAdId`: `ad-<uuid>`. */
  function AdId(uuid: string): string {
    "ad-" + uuid
  }

  /** An article id is `wiki-`, then text, then `-` and the UUID; an ad id is `ad-` and the UUID. */
  lemma IdShapes(article: WikiArticle, uuid: string)
    ensures StartsWith(ArticleId(article, uuid), "wiki-") && EndsWith(ArticleId(article, uuid), "-" + uuid)
    ensures StartsWith(AdId(uuid), "ad-") && EndsWith(AdId(uuid), uuid)
  {
    var id := ArticleId(article, uuid);
    assert id == "wiki-" + (Slug(article.title) + "-" + uuid);
    assert id == ("wiki-" + Slug(article.title)) + ("-" + uuid);
  }

  /** The `id` of an entry: its rendering key, made from the UUID it keeps. */
  function Key(item: FeedItem): string {
    match item
    case ArticleItem(a, uuid) => ArticleId(a, uuid)
    case AdItem(uuid) => AdId(uuid)
  }

  /** Whatever its kind, a key ends with the UUID it was made from. */
  lemma KeyEndsWithUuid(item: FeedItem)
    ensures var key := Key(item); |item.uuid| <= |key| && key[|key| - |item.uuid|..] == item.uuid
  {
    var key := Key(item);
    assert EndsWith(key, item.uuid) by {
      if item.ArticleItem? {
        IdShapes(item.data, item.uuid);
        var tail := "-" + item.uuid;
        assert key[|key| - |tail|..] == tail;
        assert key[|key| - |item.uuid|..] == tail[1..];
      } else {
        IdShapes(WikiArticle("", "", None, ContentUrls("", ""), None), item.uuid);
      }
    }
  }

  // ---------------------------------------------------------------------------
  // Specification of a batch

  /** Number of ad entries. */
  function AdCount(items: seq<FeedItem>): nat {
    if items == [] then 0 else (if items[0].AdItem? then 1 else 0) + AdCount(items[1..])
  }

  /** The articles of the article entries, in order. */
  function ArticlesOf(items: seq<FeedItem>): seq<WikiArticle> {
    if items == [] then []
    else (if items[0].ArticleItem? then [items[0].data] else []) + ArticlesOf(items[1..])
  }

  /** Two ads are never adjacent. */
  predicate NoAdjacentAds(items: seq<FeedItem>) {
    forall k :: 0 <= k < |items| - 1 ==> !(items[k].AdItem? && items[k + 1].AdItem?)
  }

  /** Every entry strictly between positions `a` and `b` is an article. */
  predicate ArticlesBetween(items: seq<FeedItem>, a: int, b: int) {
    forall k :: a < k < b && 0 <= k < |items| ==> items[k].ArticleItem?
  }

  /**
   * `n` counts the entries after the last ad, all of them articles, when there is an
   * ad at all.
   */
  predicate SinceLastAd(items: seq<FeedItem>, n: int) {
    AdCount(items) > 0 ==>
      && 0 <= n < |items|
      && items[|items| - 1 - n].AdItem?
      && ArticlesBetween(items, |items| - 1 - n, |items|)
  }

  function Max(x: int, y: int): int {
    if x < y then y else x
  }

  /**
   * The supplies suffice for the articles from position `i` on: one gap from `g` on
   * and two UUIDs from `u` on per remaining article.
   */
  predicate Supplied(articles: seq<WikiArticle>, i: nat, gaps: seq<int>, g: nat, uuids: seq<string>, u: nat) {
    i <= |articles| && g + (|articles| - i) <= |gaps| && u + 2 * (|articles| - i) <= |uuids|
  }

  /**
   * The entries the batch appends for the articles from position `i` on, with the
   * counter and gap it leaves behind, when the next gap to draw is `gaps[g]` and the
   * next UUID `uuids[u]`: each article is followed by an ad exactly when the
   * incremented counter reaches the current gap, after which the counter restarts at
   * 0 and the next gap is drawn.
   */
  function Build(articles: seq<WikiArticle>, i: nat, counter: int, target: int,
                 gaps: seq<int>, g: nat, uuids: seq<string>, u: nat): FeedState
    requires Supplied(articles, i, gaps, g, uuids, u)
    decreases |articles| - i
  {
    if i == |articles| then FeedState([], counter, target)
    else
      var entry := ArticleItem(articles[i], uuids[u]);
      if counter + 1 >= target then
        var rest := Build(articles, i + 1, 0, gaps[g], gaps, g + 1, uuids, u + 2);
        FeedState([entry, AdItem(uuids[u + 1])] + rest.items, rest.itemsSinceLastAd, rest.nextAdGap)
      else
        var rest := Build(articles, i + 1, counter + 1, target, gaps, g, uuids, u + 1);
        FeedState([entry] + rest.items, rest.itemsSinceLastAd, rest.nextAdGap)
  }

  /** The state `processBatch` returns: the old items followed by the batch's entries. */
  function Assemble(newArticles: seq<WikiArticle>, currentItems: seq<FeedItem>, lastAdGapCounter: int,
                    nextAdGap: int, gaps: seq<int>, uuids: seq<string>): (state: FeedState)
    requires |gaps| >= |newArticles| && |uuids| >= 2 * |newArticles|
    ensures |currentItems| <= |state.items| && state.items[..|currentItems|] == currentItems
    ensures newArticles == [] ==> state == FeedState(currentItems, lastAdGapCounter, nextAdGap)
  {
    var run := Build(newArticles, 0, lastAdGapCounter, nextAdGap, gaps, 0, uuids, 0);
    assert (currentItems + run.items)[..|currentItems|] == currentItems;
    FeedState(currentItems + run.items, run.itemsSinceLastAd, run.nextAdGap)
  }

  // ---------------------------------------------------------------------------
  // The imperative batch processor

  /** `FeedManager.processBatch`. */
  method ProcessBatch(newArticles: seq<WikiArticle>, currentItems: seq<FeedItem>, lastAdGapCounter: int,
                      nextAdGap: int, gaps: seq<int>, uuids: seq<string>) returns (state: FeedState)
    requires |gaps| >= |newArticles| && |uuids| >= 2 * |newArticles|
    ensures state == Assemble(newArticles, currentItems, lastAdGapCounter, nextAdGap, gaps, uuids)
  {
    var mixedItems: seq<FeedItem> := [];
    var gapCounter := lastAdGapCounter;
    var currentGapTarget := nextAdGap;
    var u, g := 0, 0;  // UUIDs and gaps drawn so far
    ghost var whole := Build(newArticles, 0, lastAdGapCounter, nextAdGap, gaps, 0, uuids, 0);
    for i := 0 to |newArticles|
      invariant g <= i && u <= 2 * i
      invariant Supplied(newArticles, i, gaps, g, uuids, u)
      invariant mixedItems + Build(newArticles, i, gapCounter, currentGapTarget, gaps, g, uuids, u).items == whole.items
      invariant Build(newArticles, i, gapCounter, currentGapTarget, gaps, g, uuids, u).itemsSinceLastAd == whole.itemsSinceLastAd
      invariant Build(newArticles, i, gapCounter, currentGapTarget, gaps, g, uuids, u).nextAdGap == whole.nextAdGap
    {
      var article := newArticles[i];
      mixedItems := mixedItems + [ArticleItem(article, uuids[u])];
      u := u + 1;
      gapCounter := gapCounter + 1;
      if gapCounter >= currentGapTarget {
        mixedItems := mixedItems + [AdItem(uuids[u])];
        u := u + 1;
        gapCounter := 0;
        currentGapTarget := gaps[g];
        g := g + 1;
      }
    }
    state := FeedState(currentItems + mixedItems, gapCounter, currentGapTarget);
  }

  // ---------------------------------------------------------------------------
  // Properties of a batch

  lemma {:induction false} AdCountAppend(x: seq<FeedItem>, y: seq<FeedItem>)
    ensures AdCount(x + y) == AdCount(x) + AdCount(y)
  {
    if x != [] {
      assert (x + y)[1..] == x[1..] + y;
      AdCountAppend(x[1..], y);
    } else {
      assert x + y == y;
    }
  }

  lemma {:induction false} ArticlesOfAppend(x: seq<FeedItem>, y: seq<FeedItem>)
    ensures ArticlesOf(x + y) == ArticlesOf(x) + ArticlesOf(y)
  {
    if x != [] {
      assert (x + y)[1..] == x[1..] + y;
      ArticlesOfAppend(x[1..], y);
    } else {
      assert x + y == y;
    }
  }

  /** The two entries an article followed by an ad contribute. */
  lemma AdPair(entry: FeedItem, ad: FeedItem)
    requires entry.ArticleItem? && ad.AdItem?
    ensures AdCount([entry, ad]) == 1 && ArticlesOf([entry, ad]) == [entry.data]
  {
    assert [entry, ad][1..] == [ad];
    assert [ad][1..] == [];
    assert AdCount([ad]) == 1 + AdCount([]);
    assert ArticlesOf([ad]) == [] + ArticlesOf([]);
  }

  /** The batch contributes exactly one article entry per input article, in input order. */
  lemma {:induction false} BuildArticles(articles: seq<WikiArticle>, i: nat, counter: int, target: int,
                                         gaps: seq<int>, g: nat, uuids: seq<string>, u: nat)
    requires Supplied(articles, i, gaps, g, uuids, u)
    ensures ArticlesOf(Build(articles, i, counter, target, gaps, g, uuids, u).items) == articles[i..]
    decreases |articles| - i
  {
    if i < |articles| {
      var items := Build(articles, i, counter, target, gaps, g, uuids, u).items;
      var entry := ArticleItem(articles[i], uuids[u]);
      if counter + 1 >= target {
        var rest := Build(articles, i + 1, 0, gaps[g], gaps, g + 1, uuids, u + 2).items;
        assert items == [entry, AdItem(uuids[u + 1])] + rest;
        assert ArticlesOf(items) == [articles[i]] + articles[i + 1..] by {
          BuildArticles(articles, i + 1, 0, gaps[g], gaps, g + 1, uuids, u + 2);
          AdPair(entry, AdItem(uuids[u + 1]));
          ArticlesOfAppend([entry, AdItem(uuids[u + 1])], rest);
        }
      } else {
        var rest := Build(articles, i + 1, counter + 1, target, gaps, g, uuids, u + 1).items;
        assert items == [entry] + rest;
        assert ArticlesOf(items) == [articles[i]] + articles[i + 1..] by {
          BuildArticles(articles, i + 1, counter + 1, target, gaps, g, uuids, u + 1);
          ArticlesOfAppend([entry], rest);
          assert ArticlesOf([entry]) == [articles[i]] + ArticlesOf([]);
        }
      }
      assert articles[i..] == [articles[i]] + articles[i + 1..];
    }
  }

  /** An article in front keeps ads apart. */
  lemma NoAdjacentAfterArticle(entry: FeedItem, rest: seq<FeedItem>)
    requires entry.ArticleItem? && NoAdjacentAds(rest)
    ensures NoAdjacentAds([entry] + rest)
  {
    var items := [entry] + rest;
    forall k | 0 < k < |items| - 1 ensures !(items[k].AdItem? && items[k + 1].AdItem?) {
      assert items[k] == rest[k - 1] && items[k + 1] == rest[k];
    }
  }

  /** An ad in front of entries that start with an article keeps ads apart. */
  lemma NoAdjacentAfterAd(ad: FeedItem, rest: seq<FeedItem>)
    requires NoAdjacentAds(rest) && (rest != [] ==> rest[0].ArticleItem?)
    ensures NoAdjacentAds([ad] + rest)
  {
    var items := [ad] + rest;
    forall k | 0 < k < |items| - 1 ensures !(items[k].AdItem? && items[k + 1].AdItem?) {
      assert items[k] == rest[k - 1] && items[k + 1] == rest[k];
    }
  }

  /** Ads only follow articles, never each other, and the batch opens with an article. */
  lemma {:induction false} BuildAlternates(articles: seq<WikiArticle>, i: nat, counter: int, target: int,
                                           gaps: seq<int>, g: nat, uuids: seq<string>, u: nat)
    requires Supplied(articles, i, gaps, g, uuids, u)
    ensures var items := Build(articles, i, counter, target, gaps, g, uuids, u).items;
      NoAdjacentAds(items) && (items != [] ==> items[0].ArticleItem?)
    decreases |articles| - i
  {
    if i < |articles| {
      var entry := ArticleItem(articles[i], uuids[u]);
      if counter + 1 >= target {
        var rest := Build(articles, i + 1, 0, gaps[g], gaps, g + 1, uuids, u + 2).items;
        var ad := AdItem(uuids[u + 1]);
        BuildAlternates(articles, i + 1, 0, gaps[g], gaps, g + 1, uuids, u + 2);
        NoAdjacentAfterAd(ad, rest);
        NoAdjacentAfterArticle(entry, [ad] + rest);
        assert [entry, ad] + rest == [entry] + ([ad] + rest);
      } else {
        var rest := Build(articles, i + 1, counter + 1, target, gaps, g, uuids, u + 1).items;
        BuildAlternates(articles, i + 1, counter + 1, target, gaps, g, uuids, u + 1);
        NoAdjacentAfterArticle(entry, rest);
      }
    }
  }

  /** At most one ad per article, and every other entry is an article. */
  lemma {:induction false} BuildAdCount(articles: seq<WikiArticle>, i: nat, counter: int, target: int,
                                        gaps: seq<int>, g: nat, uuids: seq<string>, u: nat)
    requires Supplied(articles, i, gaps, g, uuids, u)
    ensures var items := Build(articles, i, counter, target, gaps, g, uuids, u).items;
      AdCount(items) <= |articles| - i && |items| == |articles| - i + AdCount(items)
    decreases |articles| - i
  {
    if i < |articles| {
      var entry := ArticleItem(articles[i], uuids[u]);
      if counter + 1 >= target {
        var rest := Build(articles, i + 1, 0, gaps[g], gaps, g + 1, uuids, u + 2).items;
        BuildAdCount(articles, i + 1, 0, gaps[g], gaps, g + 1, uuids, u + 2);
        AdPair(entry, AdItem(uuids[u + 1]));
        AdCountAppend([entry, AdItem(uuids[u + 1])], rest);
      } else {
        var rest := Build(articles, i + 1, counter + 1, target, gaps, g, uuids, u + 1).items;
        BuildAdCount(articles, i + 1, counter + 1, target, gaps, g, uuids, u + 1);
        AdCountAppend([entry], rest);
      }
    }
  }

  /**
   * The batch contributes exactly one article entry per input article, in input
   * order; ads only follow articles, never each other; and there is at most one
   * ad per article.
   */
  lemma BuildShape(articles: seq<WikiArticle>, i: nat, counter: int, target: int,
                   gaps: seq<int>, g: nat, uuids: seq<string>, u: nat)
    requires Supplied(articles, i, gaps, g, uuids, u)
    ensures var items := Build(articles, i, counter, target, gaps, g, uuids, u).items;
      && ArticlesOf(items) == articles[i..]
      && NoAdjacentAds(items)
      && (items != [] ==> items[0].ArticleItem?)
      && AdCount(items) <= |articles| - i
      && |items| == |articles| - i + AdCount(items)
  {
    BuildArticles(articles, i, counter, target, gaps, g, uuids, u);
    BuildAlternates(articles, i, counter, target, gaps, g, uuids, u);
    BuildAdCount(articles, i, counter, target, gaps, g, uuids, u);
  }

  /**
   * The counter stays below the gap when it started below it, and it never goes
   * negative, when every gap drawn is positive.
   */
  lemma {:induction false} BuildCounter(articles: seq<WikiArticle>, i: nat, counter: int, target: int,
                                        gaps: seq<int>, g: nat, uuids: seq<string>, u: nat)
    requires Supplied(articles, i, gaps, g, uuids, u)
    requires ValidGaps(gaps)
    ensures var run := Build(articles, i, counter, target, gaps, g, uuids, u);
      && (counter < target ==> run.itemsSinceLastAd < run.nextAdGap)
      && (0 <= counter ==> 0 <= run.itemsSinceLastAd)
    decreases |articles| - i
  {
    if i < |articles| {
      if counter + 1 >= target {
        BuildCounter(articles, i + 1, 0, gaps[g], gaps, g + 1, uuids, u + 2);
      } else {
        BuildCounter(articles, i + 1, counter + 1, target, gaps, g, uuids, u + 1);
      }
    }
  }

  /**
   * The gap left behind: without an ad the counter just grows by the number of
   * articles and the gap is kept; after ads the gap is the one drawn after the last
   * of them.
   */
  lemma {:induction false} BuildLastGap(articles: seq<WikiArticle>, i: nat, counter: int, target: int,
                                        gaps: seq<int>, g: nat, uuids: seq<string>, u: nat)
    requires Supplied(articles, i, gaps, g, uuids, u)
    ensures var run := Build(articles, i, counter, target, gaps, g, uuids, u);
      && g + AdCount(run.items) <= |gaps|
      && (AdCount(run.items) == 0 ==> run.nextAdGap == target && run.itemsSinceLastAd == counter + |articles| - i)
      && (AdCount(run.items) > 0 ==> run.nextAdGap == gaps[g + AdCount(run.items) - 1])
    decreases |articles| - i
  {
    if i < |articles| {
      var entry := ArticleItem(articles[i], uuids[u]);
      if counter + 1 >= target {
        var rest := Build(articles, i + 1, 0, gaps[g], gaps, g + 1, uuids, u + 2).items;
        BuildLastGap(articles, i + 1, 0, gaps[g], gaps, g + 1, uuids, u + 2);
        AdPair(entry, AdItem(uuids[u + 1]));
        AdCountAppend([entry, AdItem(uuids[u + 1])], rest);
      } else {
        var rest := Build(articles, i + 1, counter + 1, target, gaps, g, uuids, u + 1).items;
        BuildLastGap(articles, i + 1, counter + 1, target, gaps, g, uuids, u + 1);
        AdCountAppend([entry], rest);
      }
    }
  }

  /**
   * Once the batch holds an ad, the counter it leaves behind is the number of
   * articles after its last ad.
   */
  lemma {:induction false} BuildSinceLastAd(articles: seq<WikiArticle>, i: nat, counter: int, target: int,
                                            gaps: seq<int>, g: nat, uuids: seq<string>, u: nat)
    requires Supplied(articles, i, gaps, g, uuids, u)
    ensures var run := Build(articles, i, counter, target, gaps, g, uuids, u);
      SinceLastAd(run.items, run.itemsSinceLastAd)
    decreases |articles| - i
  {
    if i < |articles| {
      var entry := ArticleItem(articles[i], uuids[u]);
      if counter + 1 >= target {
        var next := Build(articles, i + 1, 0, gaps[g], gaps, g + 1, uuids, u + 2);
        BuildSinceLastAd(articles, i + 1, 0, gaps[g], gaps, g + 1, uuids, u + 2);
        assert AdCount(next.items) == 0 ==> next.itemsSinceLastAd == |ArticlesOf(next.items)| by {
          BuildLastGap(articles, i + 1, 0, gaps[g], gaps, g + 1, uuids, u + 2);
          BuildArticles(articles, i + 1, 0, gaps[g], gaps, g + 1, uuids, u + 2);
        }
        SinceLastAdAfterAd(entry, AdItem(uuids[u + 1]), next.items, next.itemsSinceLastAd);
      } else {
        var next := Build(articles, i + 1, counter + 1, target, gaps, g, uuids, u + 1);
        BuildSinceLastAd(articles, i + 1, counter + 1, target, gaps, g, uuids, u + 1);
        SinceLastAdAfterArticle(entry, next.items, next.itemsSinceLastAd);
      }
    }
  }

  /** An ad in front of entries holding no ad is the last ad. */
  lemma SinceLastAdAfterAd(entry: FeedItem, ad: FeedItem, rest: seq<FeedItem>, n: int)
    requires entry.ArticleItem? && ad.AdItem? && SinceLastAd(rest, n)
    requires AdCount(rest) == 0 ==> n == |ArticlesOf(rest)|
    ensures SinceLastAd([entry, ad] + rest, n)
  {
    AdPair(entry, ad);
    if AdCount(rest) > 0 {
      SinceLastAdPrepend([entry, ad], rest, n);
    } else {
      NoAdsAllArticles(rest);
      assert SinceLastAd([entry, ad], 0) by {
        assert [entry, ad][1] == ad;
      }
      SinceLastAdExtend([entry, ad], rest, 0);
    }
  }

  /** An article in front does not change what follows the last ad. */
  lemma SinceLastAdAfterArticle(entry: FeedItem, rest: seq<FeedItem>, n: int)
    requires entry.ArticleItem? && SinceLastAd(rest, n)
    ensures AdCount([entry] + rest) == AdCount(rest)
    ensures SinceLastAd([entry] + rest, n)
  {
    AdCountAppend([entry], rest);
    assert AdCount([entry]) == 0 by {
      assert [entry][1..] == [];
    }
    if AdCount(rest) > 0 {
      SinceLastAdPrepend([entry], rest, n);
    }
  }

  /** Without ads, every entry is an article and each contributes one article. */
  lemma {:induction false} NoAdsAllArticles(items: seq<FeedItem>)
    requires AdCount(items) == 0
    ensures forall k :: 0 <= k < |items| ==> items[k].ArticleItem?
    ensures |ArticlesOf(items)| == |items|
  {
    if items != [] {
      NoAdsAllArticles(items[1..]);
      assert forall k :: 1 <= k < |items| ==> items[k] == items[1..][k - 1];
    }
  }

  /** Entries put in front do not move the last ad relative to the end. */
  lemma SinceLastAdPrepend(lead: seq<FeedItem>, rest: seq<FeedItem>, n: int)
    requires AdCount(rest) > 0 && SinceLastAd(rest, n)
    ensures SinceLastAd(lead + rest, n)
  {
    var items := lead + rest;
    var at := |rest| - 1 - n;
    assert items[|items| - 1 - n] == rest[at];
    forall k | |items| - 1 - n < k < |items| ensures items[k].ArticleItem? {
      assert items[k] == rest[k - |lead|];
    }
  }

  /** Articles appended after the last ad are counted on top of those already after it. */
  lemma SinceLastAdExtend(x: seq<FeedItem>, y: seq<FeedItem>, n: int)
    requires SinceLastAd(x, n) && AdCount(y) == 0
    ensures SinceLastAd(x + y, n + |y|)
  {
    AdCountAppend(x, y);
    NoAdsAllArticles(y);
    if AdCount(x) > 0 {
      var items := x + y;
      assert items[|items| - 1 - (n + |y|)] == x[|x| - 1 - n];
      forall k | |items| - 1 - (n + |y|) < k < |items| ensures items[k].ArticleItem? {
        if k < |x| {
          assert items[k] == x[k];
        } else {
          assert items[k] == y[k - |x|];
        }
      }
    }
  }

  /** Dropping a lead of entries shifts a run of articles left by the lead's length. */
  lemma ArticlesBetweenShift(lead: seq<FeedItem>, rest: seq<FeedItem>, a: int, b: int)
    ensures ArticlesBetween(lead + rest, a, b) ==> ArticlesBetween(rest, a - |lead|, b - |lead|)
  {
    if ArticlesBetween(lead + rest, a, b) {
      forall k | a - |lead| < k < b - |lead| && 0 <= k < |rest| ensures rest[k].ArticleItem? {
        assert (lead + rest)[k + |lead|] == rest[k];
      }
    }
  }

  /** Every ad preceded only by articles sits at position `n`. */
  ghost predicate FirstAdAt(items: seq<FeedItem>, n: int) {
    forall a :: 0 <= a < |items| && items[a].AdItem? && ArticlesBetween(items, -1, a) ==> a == n
  }

  /** Ads at `a` and `b` with only articles between them. */
  ghost predicate SuccessiveAds(items: seq<FeedItem>, a: int, b: int) {
    0 <= a < b < |items| && items[a].AdItem? && items[b].AdItem? && ArticlesBetween(items, a, b)
  }

  /**
   * Between two successive ads lie exactly as many articles as the gap at the
   * index given by the number of ads before the first of them.
   */
  ghost predicate SpacedBy(items: seq<FeedItem>, gaps: seq<int>) {
    forall a, b :: SuccessiveAds(items, a, b) ==>
      AdCount(items[..a]) < |gaps| && b - a - 1 == gaps[AdCount(items[..a])]
  }

  lemma FirstAdAfterArticle(entry: FeedItem, rest: seq<FeedItem>, n: int)
    requires entry.ArticleItem? && FirstAdAt(rest, n)
    ensures FirstAdAt([entry] + rest, n + 1)
  {
    var items := [entry] + rest;
    forall a | 0 <= a < |items| && items[a].AdItem? && ArticlesBetween(items, -1, a) ensures a == n + 1 {
      ArticlesBetweenShift([entry], rest, -1, a);
      assert ArticlesBetween(rest, -1, a - 1);
      assert rest[a - 1] == items[a];
    }
  }

  lemma FirstAdRightAway(entry: FeedItem, ad: FeedItem, rest: seq<FeedItem>)
    requires entry.ArticleItem? && ad.AdItem?
    ensures FirstAdAt([entry, ad] + rest, 1)
  {
    var items := [entry, ad] + rest;
    assert items[0] == entry && items[1] == ad;
  }

  lemma SpacedPairAfterArticle(entry: FeedItem, rest: seq<FeedItem>, gaps: seq<int>, a: int, b: int)
    requires entry.ArticleItem? && SpacedBy(rest, gaps)
    requires SuccessiveAds([entry] + rest, a, b)
    ensures var items := [entry] + rest;
      AdCount(items[..a]) < |gaps| && b - a - 1 == gaps[AdCount(items[..a])]
  {
    var items := [entry] + rest;
    ArticlesBetweenShift([entry], rest, a, b);
    assert rest[a - 1] == items[a] && rest[b - 1] == items[b];
    assert SuccessiveAds(rest, a - 1, b - 1);
    assert items[..a] == [entry] + rest[..a - 1];
    AdCountAppend([entry], rest[..a - 1]);
  }

  lemma SpacedAfterArticle(entry: FeedItem, rest: seq<FeedItem>, gaps: seq<int>)
    requires entry.ArticleItem? && SpacedBy(rest, gaps)
    ensures SpacedBy([entry] + rest, gaps)
  {
    var items := [entry] + rest;
    forall a, b | SuccessiveAds(items, a, b)
      ensures AdCount(items[..a]) < |gaps| && b - a - 1 == gaps[AdCount(items[..a])]
    {
      SpacedPairAfterArticle(entry, rest, gaps, a, b);
    }
  }

  lemma SpacedPairAfterAd(entry: FeedItem, ad: FeedItem, rest: seq<FeedItem>, gaps: seq<int>, a: int, b: int)
    requires entry.ArticleItem? && ad.AdItem? && |gaps| >= 1
    requires SpacedBy(rest, gaps[1..]) && FirstAdAt(rest, gaps[0])
    requires SuccessiveAds([entry, ad] + rest, a, b)
    ensures var items := [entry, ad] + rest;
      AdCount(items[..a]) < |gaps| && b - a - 1 == gaps[AdCount(items[..a])]
  {
    var lead := [entry, ad];
    var items := lead + rest;
    ArticlesBetweenShift(lead, rest, a, b);
    assert items[0] == entry && items[b] == rest[b - 2];
    if a == 1 {
      assert AdCount(items[..a]) < |gaps| && b - a - 1 == gaps[AdCount(items[..a])] by {
        assert items[..1] == [entry];
        assert AdCount(items[..a]) == 0 by {
          assert [entry][1..] == [];
        }
        assert ArticlesBetween(rest, -1, b - 2);
        assert b - 2 == gaps[0];
      }
    } else {
      assert AdCount(items[..a]) < |gaps| && b - a - 1 == gaps[AdCount(items[..a])] by {
        assert items[a] == rest[a - 2];
        assert SuccessiveAds(rest, a - 2, b - 2);
        var n := AdCount(rest[..a - 2]);
        assert n < |gaps[1..]| && b - a - 1 == gaps[1..][n];
        assert AdCount(items[..a]) == 1 + n by {
          assert items[..a] == lead + rest[..a - 2];
          AdPair(entry, ad);
          AdCountAppend(lead, rest[..a - 2]);
        }
        assert gaps[1..][n] == gaps[1 + n];
      }
    }
  }

  lemma SpacedAfterAd(entry: FeedItem, ad: FeedItem, rest: seq<FeedItem>, gaps: seq<int>)
    requires entry.ArticleItem? && ad.AdItem? && |gaps| >= 1
    requires SpacedBy(rest, gaps[1..]) && FirstAdAt(rest, gaps[0])
    ensures SpacedBy([entry, ad] + rest, gaps)
  {
    var items := [entry, ad] + rest;
    forall a, b | SuccessiveAds(items, a, b)
      ensures AdCount(items[..a]) < |gaps| && b - a - 1 == gaps[AdCount(items[..a])]
    {
      SpacedPairAfterAd(entry, ad, rest, gaps, a, b);
    }
  }

  /** The first ad of a batch comes right after article number `max(1, target - counter)`. */
  lemma {:induction false} FirstAd(articles: seq<WikiArticle>, i: nat, counter: int, target: int,
                                   gaps: seq<int>, g: nat, uuids: seq<string>, u: nat)
    requires Supplied(articles, i, gaps, g, uuids, u)
    ensures FirstAdAt(Build(articles, i, counter, target, gaps, g, uuids, u).items, Max(1, target - counter))
    decreases |articles| - i
  {
    if i < |articles| {
      var entry := ArticleItem(articles[i], uuids[u]);
      if counter + 1 >= target {
        var rest := Build(articles, i + 1, 0, gaps[g], gaps, g + 1, uuids, u + 2).items;
        FirstAdRightAway(entry, AdItem(uuids[u + 1]), rest);
      } else {
        var rest := Build(articles, i + 1, counter + 1, target, gaps, g, uuids, u + 1).items;
        FirstAd(articles, i + 1, counter + 1, target, gaps, g, uuids, u + 1);
        FirstAdAfterArticle(entry, rest, Max(1, target - counter - 1));
      }
    }
  }

  /**
   * Between two successive ads of a batch lie exactly as many articles as the
   * gap drawn after the first of them.
   */
  lemma {:induction false} AdSpacing(articles: seq<WikiArticle>, i: nat, counter: int, target: int,
                                     gaps: seq<int>, g: nat, uuids: seq<string>, u: nat)
    requires Supplied(articles, i, gaps, g, uuids, u)
    requires forall j :: 0 <= j < |gaps| ==> gaps[j] >= 1
    ensures SpacedBy(Build(articles, i, counter, target, gaps, g, uuids, u).items, gaps[g..])
    decreases |articles| - i
  {
    if i < |articles| {
      var items := Build(articles, i, counter, target, gaps, g, uuids, u).items;
      var entry := ArticleItem(articles[i], uuids[u]);
      if counter + 1 >= target {
        var ad := AdItem(uuids[u + 1]);
        var rest := Build(articles, i + 1, 0, gaps[g], gaps, g + 1, uuids, u + 2).items;
        assert items == [entry, ad] + rest;
        assert SpacedBy([entry, ad] + rest, gaps[g..]) by {
          AdSpacing(articles, i + 1, 0, gaps[g], gaps, g + 1, uuids, u + 2);
          FirstAd(articles, i + 1, 0, gaps[g], gaps, g + 1, uuids, u + 2);
          assert gaps[g..][1..] == gaps[g + 1..] && gaps[g..][0] == gaps[g];
          SpacedAfterAd(entry, ad, rest, gaps[g..]);
        }
      } else {
        var rest := Build(articles, i + 1, counter + 1, target, gaps, g, uuids, u + 1).items;
        assert items == [entry] + rest;
        assert SpacedBy([entry] + rest, gaps[g..]) by {
          AdSpacing(articles, i + 1, counter + 1, target, gaps, g, uuids, u + 1);
          SpacedAfterArticle(entry, rest, gaps[g..]);
        }
      }
    }
  }

  /**
   * Between two successive ads of a batch there are between 5 and 10 articles,
   * when the injected gaps come from `getRandomInt(5, 10)`.
   */
  lemma GapBetweenAds(articles: seq<WikiArticle>, counter: int, target: int, gaps: seq<int>, uuids: seq<string>, a: nat, b: nat)
    requires |gaps| >= |articles| && |uuids| >= 2 * |articles|
    requires ValidGaps(gaps)
    requires SuccessiveAds(Build(articles, 0, counter, target, gaps, 0, uuids, 0).items, a, b)
    ensures MinAdGap <= b - a - 1 <= MaxAdGap
  {
    AdSpacing(articles, 0, counter, target, gaps, 0, uuids, 0);
    assert gaps[0..] == gaps;
  }

  /** Entry number k of the batch carries the k-th UUID it draws. */
  lemma {:induction false} BuildUuids(articles: seq<WikiArticle>, i: nat, counter: int, target: int,
                                      gaps: seq<int>, g: nat, uuids: seq<string>, u: nat)
    requires Supplied(articles, i, gaps, g, uuids, u)
    ensures var items := Build(articles, i, counter, target, gaps, g, uuids, u).items;
      && u + |items| <= |uuids|
      && forall k :: 0 <= k < |items| ==> items[k].uuid == uuids[u + k]
    decreases |articles| - i
  {
    BuildAdCount(articles, i, counter, target, gaps, g, uuids, u);
    if i < |articles| {
      var items := Build(articles, i, counter, target, gaps, g, uuids, u).items;
      if counter + 1 >= target {
        var rest := Build(articles, i + 1, 0, gaps[g], gaps, g + 1, uuids, u + 2).items;
        BuildUuids(articles, i + 1, 0, gaps[g], gaps, g + 1, uuids, u + 2);
        assert items == [items[0], items[1]] + rest;
      } else {
        var rest := Build(articles, i + 1, counter + 1, target, gaps, g, uuids, u + 1).items;
        BuildUuids(articles, i + 1, counter + 1, target, gaps, g, uuids, u + 1);
        assert items == [items[0]] + rest;
      }
    }
  }

  /** Keys made from distinct UUIDs of canonical length are distinct. */
  lemma KeysDiffer(x: FeedItem, y: FeedItem)
    requires |x.uuid| == UuidLength && |y.uuid| == UuidLength && x.uuid != y.uuid
    ensures Key(x) != Key(y)
  {
    KeyEndsWithUuid(x);
    KeyEndsWithUuid(y);
  }

  /**
   * Article keys start with `wiki-`, ad keys with `ad-`, and given distinct UUIDs
   * all keys of a batch are distinct.
   */
  lemma NewKeysDistinct(articles: seq<WikiArticle>, counter: int, target: int, gaps: seq<int>, uuids: seq<string>)
    requires |gaps| >= |articles| && |uuids| >= 2 * |articles|
    requires FreshUuids(uuids)
    ensures var items := Build(articles, 0, counter, target, gaps, 0, uuids, 0).items;
      && (forall k :: 0 <= k < |items| && items[k].ArticleItem? ==> StartsWith(Key(items[k]), "wiki-"))
      && (forall k :: 0 <= k < |items| && items[k].AdItem? ==> StartsWith(Key(items[k]), "ad-"))
      && (forall i, j :: 0 <= i < j < |items| ==> Key(items[i]) != Key(items[j]))
  {
    var items := Build(articles, 0, counter, target, gaps, 0, uuids, 0).items;
    BuildUuids(articles, 0, counter, target, gaps, 0, uuids, 0);
    forall i, j | 0 <= i < j < |items| ensures Key(items[i]) != Key(items[j]) {
      KeysDiffer(items[i], items[j]);
    }
    forall k | 0 <= k < |items| ensures StartsWith(Key(items[k]), if items[k].ArticleItem? then "wiki-" else "ad-") {
      if items[k].ArticleItem? {
        IdShapes(items[k].data, items[k].uuid);
      } else {
        IdShapes(WikiArticle("", "", None, ContentUrls("", ""), None), items[k].uuid);
      }
    }
  }

  // ---------------------------------------------------------------------------
  // Properties of processBatch

  /** Appending entries that open with an article keeps ads apart. */
  lemma NoAdjacentAppend(x: seq<FeedItem>, y: seq<FeedItem>)
    requires NoAdjacentAds(x) && NoAdjacentAds(y) && (y != [] ==> y[0].ArticleItem?)
    ensures NoAdjacentAds(x + y)
  {
    var all := x + y;
    forall k | 0 <= k < |all| - 1 ensures !(all[k].AdItem? && all[k + 1].AdItem?) {
      if k + 1 == |x| {
        assert all[k + 1] == y[0];
      } else if k >= |x| {
        assert all[k] == y[k - |x|] && all[k + 1] == y[k + 1 - |x|];
      }
    }
  }

  /**
   * `processBatch` keeps the existing items as a prefix, adds one article entry per
   * new article in order, never places two ads side by side when there were none
   * before, and keeps the counter below the gap when it started below it.
   */
  lemma AssembleProperties(newArticles: seq<WikiArticle>, currentItems: seq<FeedItem>, lastAdGapCounter: int,
                           nextAdGap: int, gaps: seq<int>, uuids: seq<string>)
    requires |gaps| >= |newArticles| && |uuids| >= 2 * |newArticles|
    requires ValidGaps(gaps)
    ensures var state := Assemble(newArticles, currentItems, lastAdGapCounter, nextAdGap, gaps, uuids);
      && state.items[..|currentItems|] == currentItems
      && ArticlesOf(state.items) == ArticlesOf(currentItems) + newArticles
      && (NoAdjacentAds(currentItems) ==> NoAdjacentAds(state.items))
      && (lastAdGapCounter < nextAdGap ==> state.itemsSinceLastAd < state.nextAdGap)
      && (0 <= lastAdGapCounter ==> 0 <= state.itemsSinceLastAd)
      && (state.nextAdGap == nextAdGap || MinAdGap <= state.nextAdGap <= MaxAdGap)
  {
    var run := Build(newArticles, 0, lastAdGapCounter, nextAdGap, gaps, 0, uuids, 0);
    var state := Assemble(newArticles, currentItems, lastAdGapCounter, nextAdGap, gaps, uuids);
    assert state.items == currentItems + run.items;
    assert ArticlesOf(state.items) == ArticlesOf(currentItems) + newArticles by {
      BuildArticles(newArticles, 0, lastAdGapCounter, nextAdGap, gaps, 0, uuids, 0);
      ArticlesOfAppend(currentItems, run.items);
      assert newArticles[0..] == newArticles;
    }
    assert NoAdjacentAds(currentItems) ==> NoAdjacentAds(state.items) by {
      if NoAdjacentAds(currentItems) {
        BuildAlternates(newArticles, 0, lastAdGapCounter, nextAdGap, gaps, 0, uuids, 0);
        NoAdjacentAppend(currentItems, run.items);
      }
    }
    BuildCounter(newArticles, 0, lastAdGapCounter, nextAdGap, gaps, 0, uuids, 0);
    BuildLastGap(newArticles, 0, lastAdGapCounter, nextAdGap, gaps, 0, uuids, 0);
  }

  /**
   * After `processBatch` the counter still counts the articles behind the last ad:
   * the batch's own when it placed an ad, otherwise the old count plus the batch.
   */
  lemma AssembleSinceLastAd(newArticles: seq<WikiArticle>, currentItems: seq<FeedItem>, lastAdGapCounter: int,
                            nextAdGap: int, gaps: seq<int>, uuids: seq<string>)
    requires |gaps| >= |newArticles| && |uuids| >= 2 * |newArticles|
    requires SinceLastAd(currentItems, lastAdGapCounter)
    ensures var state := Assemble(newArticles, currentItems, lastAdGapCounter, nextAdGap, gaps, uuids);
      SinceLastAd(state.items, state.itemsSinceLastAd)
  {
    var run := Build(newArticles, 0, lastAdGapCounter, nextAdGap, gaps, 0, uuids, 0);
    assert Assemble(newArticles, currentItems, lastAdGapCounter, nextAdGap, gaps, uuids)
      == FeedState(currentItems + run.items, run.itemsSinceLastAd, run.nextAdGap);
    BuildSinceLastAd(newArticles, 0, lastAdGapCounter, nextAdGap, gaps, 0, uuids, 0);
    if AdCount(run.items) > 0 {
      SinceLastAdPrepend(currentItems, run.items, run.itemsSinceLastAd);
    } else {
      BuildLastGap(newArticles, 0, lastAdGapCounter, nextAdGap, gaps, 0, uuids, 0);
      BuildArticles(newArticles, 0, lastAdGapCounter, nextAdGap, gaps, 0, uuids, 0);
      NoAdsAllArticles(run.items);
      assert newArticles[0..] == newArticles;
      SinceLastAdExtend(currentItems, run.items, lastAdGapCounter);
    }
  }

  // ---------------------------------------------------------------------------
  // Ad spacing across batches

  /**
   * The spacing the feed keeps from batch to batch: between two successive ads lie
   * 5 to 10 articles, the counter is the number of articles after the last ad and
   * stays below the gap, and the gap is one `getRandomInt(5, 10)` can draw.
   */
  ghost predicate WellSpaced(state: FeedState) {
    && (forall a, b :: SuccessiveAds(state.items, a, b) ==> MinAdGap <= b - a - 1 <= MaxAdGap)
    && 0 <= state.itemsSinceLastAd < state.nextAdGap
    && MinAdGap <= state.nextAdGap <= MaxAdGap
    && SinceLastAd(state.items, state.itemsSinceLastAd)
  }

  /** A list holding an ad has a positive ad count. */
  lemma {:induction false} AdMeansAdCount(items: seq<FeedItem>, k: int)
    requires 0 <= k < |items| && items[k].AdItem?
    ensures AdCount(items) > 0
    decreases k
  {
    if k > 0 {
      assert items[1..][k - 1] == items[k];
      AdMeansAdCount(items[1..], k - 1);
    }
  }

  /**
   * Two successive ads of an old feed followed by a new batch are 5 to 10 articles
   * apart: both old, both new, or the old feed's last ad and the batch's first, which
   * are exactly the old gap apart.
   */
  lemma AppendedPairSpaced(feed: seq<FeedItem>, run: seq<FeedItem>, counter: int, gap: int, a: int, b: int)
    requires forall a, b :: SuccessiveAds(feed, a, b) ==> MinAdGap <= b - a - 1 <= MaxAdGap
    requires forall a, b :: SuccessiveAds(run, a, b) ==> MinAdGap <= b - a - 1 <= MaxAdGap
    requires 0 <= counter < gap && MinAdGap <= gap <= MaxAdGap
    requires SinceLastAd(feed, counter) && FirstAdAt(run, Max(1, gap - counter))
    requires SuccessiveAds(feed + run, a, b)
    ensures MinAdGap <= b - a - 1 <= MaxAdGap
  {
    var items := feed + run;
    if b < |feed| {
      assert items[a] == feed[a] && items[b] == feed[b];
      forall k | a < k < b && 0 <= k < |feed| ensures feed[k].ArticleItem? {
        assert items[k] == feed[k];
      }
      assert SuccessiveAds(feed, a, b);
    } else if a >= |feed| {
      ArticlesBetweenShift(feed, run, a, b);
      assert items[a] == run[a - |feed|] && items[b] == run[b - |feed|];
      assert SuccessiveAds(run, a - |feed|, b - |feed|);
    } else {
      assert items[a] == feed[a];
      AdMeansAdCount(feed, a);
      var last := |feed| - 1 - counter;
      assert items[last] == feed[last];
      assert a == last;
      var first := b - |feed|;
      assert run[first] == items[b];
      forall k | -1 < k < first && 0 <= k < |run| ensures run[k].ArticleItem? {
        assert run[k] == items[k + |feed|];
      }
      assert first == gap - counter;
    }
  }

  /**
   * `processBatch` keeps the spacing: appending a batch to a well-spaced feed, with
   * gaps drawn from `getRandomInt(5, 10)`, leaves a well-spaced feed, so the spacing
   * holds however many batches arrive.
   */
  lemma AssembleKeepsSpacing(newArticles: seq<WikiArticle>, currentItems: seq<FeedItem>, lastAdGapCounter: int,
                             nextAdGap: int, gaps: seq<int>, uuids: seq<string>)
    requires |gaps| >= |newArticles| && |uuids| >= 2 * |newArticles|
    requires ValidGaps(gaps)
    requires WellSpaced(FeedState(currentItems, lastAdGapCounter, nextAdGap))
    ensures WellSpaced(Assemble(newArticles, currentItems, lastAdGapCounter, nextAdGap, gaps, uuids))
  {
    var run := Build(newArticles, 0, lastAdGapCounter, nextAdGap, gaps, 0, uuids, 0);
    var state := Assemble(newArticles, currentItems, lastAdGapCounter, nextAdGap, gaps, uuids);
    assert state.items == currentItems + run.items;
    AssembleProperties(newArticles, currentItems, lastAdGapCounter, nextAdGap, gaps, uuids);
    AssembleSinceLastAd(newArticles, currentItems, lastAdGapCounter, nextAdGap, gaps, uuids);
    FirstAd(newArticles, 0, lastAdGapCounter, nextAdGap, gaps, 0, uuids, 0);
    forall a, b | SuccessiveAds(run.items, a, b) ensures MinAdGap <= b - a - 1 <= MaxAdGap {
      GapBetweenAds(newArticles, lastAdGapCounter, nextAdGap, gaps, uuids, a, b);
    }
    forall a, b | SuccessiveAds(state.items, a, b) ensures MinAdGap <= b - a - 1 <= MaxAdGap {
      AppendedPairSpaced(currentItems, run.items, lastAdGapCounter, nextAdGap, a, b);
    }
  }
}

/**
 * The feed state machine of the `useWikwokFeed` hook (src/lib/hooks/useWikwokFeed.ts):
 * the feed state, the one-shot initialisation of the first ad gap, and the effect
 * that feeds only newly loaded pages through `FeedManager.processBatch`, tracked by
 * a count of processed pages.
 *
 * React's state updates and effect scheduling are collapsed into method calls on
 * one object: `InitializeGap` is the mount effect and `Sync` the data effect.
 */
module WikwokFeed {
  import opened Wrappers
  import opened Articles
  import opened FeedManager

  /** The initial `useState` value: no items, counter 0, gap 0 until the mount effect runs. */
  const InitialState: FeedState := FeedState([], 0, 0)

  /** `pages.flat()` */
  function Flatten(pages: seq<seq<WikiArticle>>): seq<WikiArticle>
    decreases |pages|
  {
    if pages == [] then [] else pages[0] + Flatten(pages[1..])
  }

  lemma {:induction false} FlattenAppend(a: seq<seq<WikiArticle>>, b: seq<seq<WikiArticle>>)
    ensures Flatten(a + b) == Flatten(a) + Flatten(b)
    decreases |a|
  {
    if a == [] {
      assert a + b == b;
    } else {
      assert (a + b)[1..] == a[1..] + b;
      FlattenAppend(a[1..], b);
    }
  }

  /** The articles the data effect processes: those of the pages from index `processed` on. */
  function NewBatch(pages: Option<seq<seq<WikiArticle>>>, processed: nat): seq<WikiArticle> {
    if pages.Some? && |pages.value| > processed then Flatten(pages.value[processed..]) else []
  }

  /** The injected supplies cover the batch the data effect would process. */
  predicate CoversBatch(pages: Option<seq<seq<WikiArticle>>>, processed: nat, gaps: seq<int>, uuids: seq<string>) {
    var batch := NewBatch(pages, processed);
    |gaps| >= |batch| && |uuids| >= 2 * |batch|
  }

  /**
   * The state and processed-page count after the data effect runs on `pages`
   * (`None` while the query has no data).
   */
  function SyncStep(state: FeedState, processed: nat, pages: Option<seq<seq<WikiArticle>>>,
                    gaps: seq<int>, uuids: seq<string>): (FeedState, nat)
    requires CoversBatch(pages, processed, gaps, uuids)
  {
    if pages.Some? && |pages.value| > processed then
      var batch := Flatten(pages.value[processed..]);
      var next := if |batch| > 0 then Assemble(batch, state.items, state.itemsSinceLastAd, state.nextAdGap, gaps, uuids) else state;
      (next, |pages.value|)
    else (state, processed)
  }

  /** `getNextPageParam`: the next page is numbered by how many pages are loaded. */
  function NextPageParam(lastPage: seq<WikiArticle>, allPages: seq<seq<WikiArticle>>): (param: nat)
    ensures param == |allPages|
  {
    |allPages|
  }

  datatype PageResult = Page(articles: seq<WikiArticle>) | NetworkError

  /** The query function: a non-ok response raises an error instead of yielding a page. */
  function QueryPage(ok: bool, body: seq<WikiArticle>): (r: PageResult)
    ensures r.NetworkError? <==> !ok
    ensures r.Page? ==> r.articles == body
  {
    if ok then Page(body) else NetworkError
  }

  class FeedHook {
    var feedState: FeedState
    var initialized: bool
    var processedPages: nat

    /**
     * Ads never sit side by side, the counter is non-negative, and the gap is 0 only
     * before initialisation and otherwise in the range 5 to 10. Before initialisation
     * the state is the initial one; after it the feed is well spaced: 5 to 10 articles
     * between successive ads, and the counter, below the gap, counts the articles
     * behind the last ad.
     */
    ghost predicate Valid()
      reads this
    {
      && NoAdjacentAds(feedState.items)
      && 0 <= feedState.itemsSinceLastAd
      && (feedState.nextAdGap == 0 || MinAdGap <= feedState.nextAdGap <= MaxAdGap)
      && (initialized ==> feedState.nextAdGap != 0)
      && (!initialized ==> feedState == InitialState)
      && (initialized ==> WellSpaced(feedState))
    }

    constructor()
      ensures feedState == InitialState && !initialized && processedPages == 0
      ensures Valid()
    {
      feedState := InitialState;
      initialized := false;
      processedPages := 0;
    }

    /** The mount effect: draw the first gap, once only. */
    method InitializeGap(gap: int)
      requires Valid() && MinAdGap <= gap <= MaxAdGap
      modifies this
      ensures Valid() && initialized
      ensures processedPages == old(processedPages)
      ensures old(initialized) ==> feedState == old(feedState)
      ensures !old(initialized) ==> feedState == old(feedState).(nextAdGap := gap)
    {
      if !initialized {
        feedState := feedState.(nextAdGap := gap);
        initialized := true;
      }
    }

    /**
     * The data effect: process the pages past `processedPages`, then record them all.
     * It runs after the mount effect, which React runs first as it is declared first.
     */
    method Sync(pages: Option<seq<seq<WikiArticle>>>, gaps: seq<int>, uuids: seq<string>)
      requires Valid() && initialized && ValidGaps(gaps) && CoversBatch(pages, processedPages, gaps, uuids)
      modifies this
      ensures Valid() && initialized
      ensures (feedState, processedPages) == SyncStep(old(feedState), old(processedPages), pages, gaps, uuids)
    {
      if pages.Some? && |pages.value| > processedPages {
        var newBatch := Flatten(pages.value[processedPages..]);
        if |newBatch| > 0 {
          var next := ProcessBatch(newBatch, feedState.items, feedState.itemsSinceLastAd, feedState.nextAdGap, gaps, uuids);
          AssembleProperties(newBatch, feedState.items, feedState.itemsSinceLastAd, feedState.nextAdGap, gaps, uuids);
          AssembleKeepsSpacing(newBatch, feedState.items, feedState.itemsSinceLastAd, feedState.nextAdGap, gaps, uuids);
          feedState := next;
        }
        processedPages := |pages.value|;
      }
    }
  }

  // ---------------------------------------------------------------------------
  // Properties of the data effect

  /**
   * A step keeps the old items as a prefix and appends one article entry per article
   * of the unprocessed pages, in page order; the count then covers every page.
   */
  lemma SyncAppends(state: FeedState, processed: nat, pages: Option<seq<seq<WikiArticle>>>, gaps: seq<int>, uuids: seq<string>)
    requires CoversBatch(pages, processed, gaps, uuids) && ValidGaps(gaps)
    ensures var (next, count) := SyncStep(state, processed, pages, gaps, uuids);
      && state.items <= next.items
      && ArticlesOf(next.items) == ArticlesOf(state.items) + NewBatch(pages, processed)
      && (pages.Some? ==> count == if |pages.value| > processed then |pages.value| else processed)
      && (pages.None? ==> count == processed && next == state)
  {
    var batch := NewBatch(pages, processed);
    if |batch| > 0 {
      AssembleProperties(batch, state.items, state.itemsSinceLastAd, state.nextAdGap, gaps, uuids);
    } else {
      assert ArticlesOf(state.items) + batch == ArticlesOf(state.items);
    }
  }

  /** Delivering the same pages again changes nothing. */
  lemma SyncIdempotent(state: FeedState, processed: nat, pages: Option<seq<seq<WikiArticle>>>,
                       gaps: seq<int>, uuids: seq<string>, gaps2: seq<int>, uuids2: seq<string>)
    requires CoversBatch(pages, processed, gaps, uuids)
    ensures var (next, count) := SyncStep(state, processed, pages, gaps, uuids);
      CoversBatch(pages, count, gaps2, uuids2) && SyncStep(next, count, pages, gaps2, uuids2) == (next, count)
  {
  }

  /** New pages that hold no articles leave the state alone but are still counted. */
  lemma SyncEmptyPages(state: FeedState, processed: nat, pages: seq<seq<WikiArticle>>, gaps: seq<int>, uuids: seq<string>)
    requires |pages| > processed
    requires forall k :: processed <= k < |pages| ==> pages[k] == []
    ensures CoversBatch(Some(pages), processed, gaps, uuids)
    ensures SyncStep(state, processed, Some(pages), gaps, uuids) == (state, |pages|)
  {
    EmptyPagesFlatten(pages[processed..]);
  }

  lemma {:induction false} EmptyPagesFlatten(pages: seq<seq<WikiArticle>>)
    requires forall k :: 0 <= k < |pages| ==> pages[k] == []
    ensures Flatten(pages) == []
    decreases |pages|
  {
    if pages != [] {
      EmptyPagesFlatten(pages[1..]);
    }
  }

  /**
   * A step over pages whose first `processed` were already fed in leaves the feed
   * holding the articles of all the pages, and counts them all.
   */
  lemma SyncCatchesUp(state: FeedState, processed: nat, pages: seq<seq<WikiArticle>>, gaps: seq<int>, uuids: seq<string>)
    requires processed <= |pages| && CoversBatch(Some(pages), processed, gaps, uuids) && ValidGaps(gaps)
    requires ArticlesOf(state.items) == Flatten(pages[..processed])
    ensures var r := SyncStep(state, processed, Some(pages), gaps, uuids);
      r.1 == |pages| && ArticlesOf(r.0.items) == Flatten(pages)
  {
    SyncAppends(state, processed, Some(pages), gaps, uuids);
    assert pages == pages[..processed] + pages[processed..];
    FlattenAppend(pages[..processed], pages[processed..]);
    if processed == |pages| {
      assert pages[processed..] == [];
    }
  }

  /**
   * Two deliveries, the second extending the first, put every article of every page
   * into the feed exactly once and in order, starting from a fresh hook.
   */
  lemma SyncTwice(pages1: seq<seq<WikiArticle>>, pages2: seq<seq<WikiArticle>>,
                  gaps1: seq<int>, uuids1: seq<string>, gaps2: seq<int>, uuids2: seq<string>)
    requires pages1 <= pages2
    requires CoversBatch(Some(pages1), 0, gaps1, uuids1) && ValidGaps(gaps1) && ValidGaps(gaps2)
    requires CoversBatch(Some(pages2), |pages1|, gaps2, uuids2)
    ensures var (s1, c1) := SyncStep(InitialState, 0, Some(pages1), gaps1, uuids1);
      c1 == |pages1| &&
      var (s2, c2) := SyncStep(s1, c1, Some(pages2), gaps2, uuids2);
      c2 == |pages2| && ArticlesOf(s2.items) == Flatten(pages2)
  {
    var r1 := SyncStep(InitialState, 0, Some(pages1), gaps1, uuids1);
    assert pages1[..0] == [];
    SyncCatchesUp(InitialState, 0, pages1, gaps1, uuids1);
    assert pages2[..|pages1|] == pages1;
    SyncCatchesUp(r1.0, r1.1, pages2, gaps2, uuids2);
  }
}

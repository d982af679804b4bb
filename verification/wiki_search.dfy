/**
 * The search API of src/app/api/wiki/search/route.ts. Its `mode` parameter selects
 * a title search, which fetches the summary of each matching title, or the day's
 * most viewed articles.
 *
 * Every network answer is a parameter: the opensearch title list, the summary
 * outcome of each title, and the two pageview answers (the requested edition for
 * yesterday and the English fallback for today).
 */
module WikiSearch {
  import opened Wrappers
  import opened JsStrings
  import opened Articles
  import opened Lists
  import opened RandomSummary

  /** `searchParams.get('lang') || 'en'` */
  function SearchLang(lang: Option<string>): (r: string)
    ensures Truthy(lang) ==> r == lang.value
    ensures !Truthy(lang) ==> r == "en"
  {
    OrElse(lang, "en")
  }

  // ---------------------------------------------------------------------------
  // Search mode

  /** A search hit as the route returns it. */
  datatype SearchHit = SearchHit(
    title: string,
    extract: Option<string>,
    originalImage: Option<Image>,
    contentUrls: ContentUrls,
    lang: string)

  /** The summary of one title: kept only for an ok, standard or disambiguation page. */
  function SummaryHit(lang: string, outcome: FetchOutcome): (r: Option<SearchHit>)
    ensures r.Some? <==> outcome.Ok? && (outcome.payload.kind == Some("standard") || outcome.payload.kind == Some("disambiguation"))
    ensures r.Some? ==> r.value == SearchHit(outcome.payload.title, outcome.payload.extract,
                                             outcome.payload.originalImage, outcome.payload.contentUrls, lang)
  {
    match outcome
    case Ok(p) =>
      if p.kind == Some("standard") || p.kind == Some("disambiguation") then
        Some(SearchHit(p.title, p.extract, p.originalImage, p.contentUrls, lang))
      else None
    case _ => None
  }

  /** `results.filter(item => item !== null)` */
  function DropNulls(results: seq<Option<SearchHit>>): (r: seq<SearchHit>)
    ensures |r| <= |results|
    ensures forall h :: h in r <==> Some(h) in results
    decreases |results|
  {
    if results == [] then []
    else (if results[0].Some? then [results[0].value] else []) + DropNulls(results[1..])
  }

  /** Dropping nulls keeps the order: the hits of a concatenation are those of each side. */
  lemma {:induction false} DropNullsAppend(a: seq<Option<SearchHit>>, b: seq<Option<SearchHit>>)
    ensures DropNulls(a + b) == DropNulls(a) + DropNulls(b)
    decreases |a|
  {
    if a == [] {
      assert a + b == b;
    } else {
      assert (a + b)[0] == a[0];
      assert (a + b)[1..] == a[1..] + b;
      DropNullsAppend(a[1..], b);
    }
  }

  /** The summaries of the titles, in title order (`Promise.all` over `titles.map`). */
  function Summaries(lang: string, titles: seq<string>, summaries: string -> FetchOutcome): (r: seq<Option<SearchHit>>)
    ensures |r| == |titles|
    ensures forall k :: 0 <= k < |r| ==> r[k] == SummaryHit(lang, summaries(titles[k]))
  {
    seq(|titles|, k requires 0 <= k < |titles| => SummaryHit(lang, summaries(titles[k])))
  }

  /** What the opensearch request produced: the title list, or a thrown error. */
  datatype TitlesOutcome = TitlesFailed | Titles(titles: seq<string>)

  // ---------------------------------------------------------------------------
  // Trending mode

  /** One entry of the pageview ranking. */
  datatype PageView = PageView(article: string, views: int)

  /** A trending entry as the route returns it (the view count is left unformatted). */
  datatype TrendingEntry = TrendingEntry(title: string, views: int)

  /** The answer of a pageview request. */
  datatype RankingBody = Malformed | Ranking(articles: Option<seq<PageView>>)

  datatype RankingOutcome =
    | RankingFailed          // fetch threw
    | RankingNotOk           // the response status was not ok
    | RankingOk(body: RankingBody)

  /** Special pages, the main page and any other namespaced title are not listed. */
  predicate Listable(a: PageView) {
    !StartsWith(a.article, "Special:") && !StartsWith(a.article, "Main_Page") && !Contains(a.article, ":")
  }

  /** The `Special:` test is redundant: such a title already contains `:`. */
  lemma SpecialSubsumed(article: string)
    ensures StartsWith(article, "Special:") ==> Contains(article, ":")
  {
    if StartsWith(article, "Special:") {
      assert article[7] == "Special:"[7] == ':';
      ContainsAt(article, ":", 7);
    }
  }

  lemma ListableWithoutSpecial(a: PageView)
    ensures Listable(a) <==> !StartsWith(a.article, "Main_Page") && !Contains(a.article, ":")
  {
    SpecialSubsumed(a.article);
  }

  /** `article.replace(/_/g, ' ')`: every underscore becomes a space and nothing else changes. */
  function DisplayTitle(article: string): (t: string)
    ensures !Contains(t, "_")
    ensures |t| == |article|
    ensures forall i :: 0 <= i < |t| ==> t[i] == if article[i] == '_' then ' ' else article[i]
  {
    MissingChar(" ", "_", '_');
    ReplaceAllAvoids(article, "_", " ", "_");
    ReplaceUnderscore(article);
    ReplaceAll(article, "_", " ")
  }

  lemma {:induction false} ReplaceUnderscore(s: string)
    ensures var t := ReplaceAll(s, "_", " ");
      && |t| == |s|
      && forall i :: 0 <= i < |s| ==> t[i] == if s[i] == '_' then ' ' else s[i]
    decreases |s|
  {
    if s != [] {
      ReplaceUnderscore(s[1..]);
      var t := ReplaceAll(s, "_", " ");
      var rest := ReplaceAll(s[1..], "_", " ");
      assert "_" <= s <==> s[0] == '_';
      assert t == [if s[0] == '_' then ' ' else s[0]] + rest;
      assert forall i :: 1 <= i < |s| ==> t[i] == rest[i - 1] && s[i] == s[1..][i - 1];
    }
  }

  /** The filter, `slice(0, 5)` and title mapping of the ranking. */
  function TrendingEntries(articles: seq<PageView>): (r: seq<TrendingEntry>)
    ensures |r| <= 5
    ensures var listed := Filter(articles, Listable);
      |r| == if |listed| < 5 then |listed| else 5
    ensures forall k :: 0 <= k < |r| ==> var a := Filter(articles, Listable)[k];
      a in articles && Listable(a) && r[k] == TrendingEntry(DisplayTitle(a.article), a.views)
  {
    var top := Take(Filter(articles, Listable), 5);
    seq(|top|, k requires 0 <= k < |top| => TrendingEntry(DisplayTitle(top[k].article), top[k].views))
  }

  /**
   * The ranking the route reads: the requested edition first, then the English
   * ranking when that answer is not ok or the edition is English itself.
   */
  function ChosenRanking(lang: string, primary: RankingOutcome, fallback: RankingOutcome): (r: RankingOutcome)
    ensures primary.RankingFailed? ==> r == RankingFailed
    ensures !primary.RankingFailed? && (lang == "en" || primary.RankingNotOk?) ==> r == fallback
    ensures lang != "en" && primary.RankingOk? ==> r == primary
  {
    if primary.RankingFailed? then RankingFailed
    else if primary.RankingNotOk? || lang == "en" then fallback
    else primary
  }

  // ---------------------------------------------------------------------------
  // The route

  datatype Response =
    | BadRequest(error: string)                        // 400
    | ServerError(error: string)                       // 500 with an error message
    | Hits(hits: seq<SearchHit>)                       // 200
    | Trending(status: int, entries: seq<TrendingEntry>)

  function Status(r: Response): int {
    match r
    case BadRequest(_) => 400
    case ServerError(_) => 500
    case Hits(_) => 200
    case Trending(status, _) => status
  }

  function SearchMode(lang: string, query: Option<string>, titles: TitlesOutcome,
                      summaries: string -> FetchOutcome): (r: Response)
    ensures !Truthy(query) ==> r == BadRequest("Missing query")
    ensures Truthy(query) && titles.TitlesFailed? ==> r == ServerError("Search failed")
    ensures Truthy(query) && titles.Titles? ==> r == Hits(DropNulls(Summaries(lang, titles.titles, summaries)))
  {
    if !Truthy(query) then BadRequest("Missing query")
    else match titles
      case TitlesFailed => ServerError("Search failed")
      case Titles(ts) => if |ts| == 0 then Hits([]) else Hits(DropNulls(Summaries(lang, ts, summaries)))
  }

  function TrendingMode(lang: string, primary: RankingOutcome, fallback: RankingOutcome): (r: Response)
    ensures r.Trending?
    ensures r.status == 500 ==> r.entries == []
    ensures r.status == 200 || r.status == 500
    ensures |r.entries| <= 5
    ensures var chosen := ChosenRanking(lang, primary, fallback);
      r.status == 500 <==> chosen.RankingFailed? || chosen == RankingOk(Malformed)
    ensures ChosenRanking(lang, primary, fallback).RankingNotOk? ==> r == Trending(200, [])
    ensures var chosen := ChosenRanking(lang, primary, fallback);
      chosen.RankingOk? && chosen.body.Ranking? ==> r == Trending(200, TrendingEntries(chosen.body.articles.GetOr([])))
  {
    match ChosenRanking(lang, primary, fallback)
    case RankingFailed => Trending(500, [])
    case RankingNotOk => Trending(200, [])
    case RankingOk(Malformed) => Trending(500, [])
    case RankingOk(Ranking(articles)) => Trending(200, TrendingEntries(articles.GetOr([])))
  }

  /** `GET /api/wiki/search?mode=…&query=…&lang=…` */
  function Get(mode: Option<string>, query: Option<string>, lang: Option<string>,
               titles: TitlesOutcome, summaries: string -> FetchOutcome,
               primary: RankingOutcome, fallback: RankingOutcome): (r: Response)
    ensures mode == Some("search") ==> r == SearchMode(SearchLang(lang), query, titles, summaries)
    ensures mode == Some("trending") ==> r == TrendingMode(SearchLang(lang), primary, fallback)
    ensures mode != Some("search") && mode != Some("trending") ==> r == BadRequest("Invalid mode")
  {
    if mode == Some("search") then SearchMode(SearchLang(lang), query, titles, summaries)
    else if mode == Some("trending") then TrendingMode(SearchLang(lang), primary, fallback)
    else BadRequest("Invalid mode")
  }

  // ---------------------------------------------------------------------------
  // Properties

  /** The hit is the summary of the `k`-th title, a standard or disambiguation page. */
  predicate FromTitle(h: SearchHit, titles: seq<string>, summaries: string -> FetchOutcome, k: int) {
    && 0 <= k < |titles|
    && summaries(titles[k]).Ok?
    && var p := summaries(titles[k]).payload;
    && (p.kind == Some("standard") || p.kind == Some("disambiguation"))
    && h.title == p.title && h.extract == p.extract && h.originalImage == p.originalImage
    && h.contentUrls == p.contentUrls
  }

  /**
   * Every search hit is the summary of one of the titles, of a standard or
   * disambiguation page, tagged with the language; at most one hit per title.
   */
  lemma SearchHitsFromTitles(lang: string, titles: seq<string>, summaries: string -> FetchOutcome)
    ensures var hits := DropNulls(Summaries(lang, titles, summaries));
      && |hits| <= |titles|
      && forall h :: h in hits ==> h.lang == lang && exists k :: FromTitle(h, titles, summaries, k)
  {
    var results := Summaries(lang, titles, summaries);
    forall h | h in DropNulls(results)
      ensures h.lang == lang && exists k :: FromTitle(h, titles, summaries, k)
    {
      var k :| 0 <= k < |results| && results[k] == Some(h);
      assert FromTitle(h, titles, summaries, k);
    }
  }

  /** The hits of more titles extend the hits of fewer: the order follows the title list. */
  lemma SearchHitsInTitleOrder(lang: string, titles: seq<string>, more: seq<string>, summaries: string -> FetchOutcome)
    ensures DropNulls(Summaries(lang, titles + more, summaries))
         == DropNulls(Summaries(lang, titles, summaries)) + DropNulls(Summaries(lang, more, summaries))
  {
    assert Summaries(lang, titles + more, summaries) == Summaries(lang, titles, summaries) + Summaries(lang, more, summaries);
    DropNullsAppend(Summaries(lang, titles, summaries), Summaries(lang, more, summaries));
  }

  /** No trending title names a special page, the main page or a namespaced page, or holds `_`. */
  lemma TrendingTitlesClean(articles: seq<PageView>)
    ensures forall e :: e in TrendingEntries(articles) ==>
      !Contains(e.title, "_") && exists a :: a in articles && Listable(a) && e.title == DisplayTitle(a.article)
  {
    var r := TrendingEntries(articles);
    forall e | e in r
      ensures !Contains(e.title, "_") && exists a :: a in articles && Listable(a) && e.title == DisplayTitle(a.article)
    {
      var k :| 0 <= k < |r| && r[k] == e;
      var a := Filter(articles, Listable)[k];
      assert a in articles && Listable(a);
    }
  }

  /** English needs no fallback: its ranking is always today's English one. */
  lemma EnglishReadsTodaysRanking(primary: RankingOutcome, fallback: RankingOutcome)
    requires !primary.RankingFailed?
    ensures TrendingMode("en", primary, fallback) == TrendingMode("fr", RankingNotOk, fallback)
  {
  }
}

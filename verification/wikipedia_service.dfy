/**
 * The client-side Wikipedia service of src/lib/services/wikipedia.ts: a module-level
 * HTML cache keyed by `<lang>:<title>` in front of the page endpoint, a prefetch that
 * only goes to the network on a cache miss, and two list requests that fall back to
 * an empty list.
 *
 * Each network answer is a parameter. The service object counts the page requests it
 * sends, so that "without fetching" can be stated.
 */
module WikipediaService {
  import opened Wrappers
  import opened Articles

  /** `${lang}:${title}` */
  function CacheKey(lang: string, title: string): (key: string)
    ensures |key| == |lang| + 1 + |title|
    ensures key[..|lang|] == lang && key[|lang|] == ':' && key[|lang| + 1..] == title
  {
    lang + ":" + title
  }

  /** Keys of languages without `:` never collide: the key determines the language and the title. */
  lemma CacheKeyInjective(lang1: string, title1: string, lang2: string, title2: string)
    requires ':' !in lang1 && ':' !in lang2
    ensures CacheKey(lang1, title1) == CacheKey(lang2, title2) <==> lang1 == lang2 && title1 == title2
  {
    KeyLanguage(lang1, title1);
    KeyLanguage(lang2, title2);
  }

  /** The text of a key before its first `:`. */
  function LanguageOf(key: string): string
    decreases |key|
  {
    if key == [] || key[0] == ':' then [] else [key[0]] + LanguageOf(key[1..])
  }

  lemma {:induction false} KeyLanguage(lang: string, title: string)
    requires ':' !in lang
    ensures LanguageOf(CacheKey(lang, title)) == lang
    decreases |lang|
  {
    if lang != [] {
      assert lang[0] in lang;
      assert forall c :: c in lang[1..] ==> c in lang;
      KeyLanguage(lang[1..], title);
      assert CacheKey(lang, title)[1..] == CacheKey(lang[1..], title);
      assert [lang[0]] + lang[1..] == lang;
    }
  }

  /** Without that condition two pages can share a key: `a:b` + `c` and `a` + `b:c`. */
  lemma CacheKeyCollision()
    ensures CacheKey("a:b", "c") == CacheKey("a", "b:c")
  {
  }

  /** What a request to one of the site's own endpoints produced. */
  datatype Answer<T> = Threw | NotOk | Body(value: T)

  class Service {
    /** `htmlCache` */
    var htmlCache: map<string, string>
    /** The number of page requests sent so far. */
    var pageRequests: nat

    constructor()
      ensures htmlCache == map[] && pageRequests == 0
    {
      htmlCache := map[];
      pageRequests := 0;
    }

    /**
     * `getWikiPageHtml(title, lang)` with the answer the page endpoint would give: a
     * cached page is returned without a request; otherwise an ok answer is cached and
     * returned, and a failed one yields `None` and leaves the cache alone.
     */
    method GetWikiPageHtml(title: string, lang: string, answer: Answer<string>) returns (html: Option<string>)
      modifies this
      ensures var key := CacheKey(lang, title);
        && (key in old(htmlCache) ==>
              html == Some(old(htmlCache)[key]) && htmlCache == old(htmlCache) && pageRequests == old(pageRequests))
        && (key !in old(htmlCache) ==> pageRequests == old(pageRequests) + 1)
        && (key !in old(htmlCache) && answer.Body? ==>
              html == Some(answer.value) && htmlCache == old(htmlCache)[key := answer.value])
        && (key !in old(htmlCache) && !answer.Body? ==> html == None && htmlCache == old(htmlCache))
      ensures forall k :: k in old(htmlCache) ==> k in htmlCache && htmlCache[k] == old(htmlCache)[k]
    {
      var key := CacheKey(lang, title);
      if key in htmlCache {
        return Some(htmlCache[key]);
      }
      pageRequests := pageRequests + 1;
      match answer {
        case Body(text) =>
          htmlCache := htmlCache[key := text];
          return Some(text);
        case _ =>
          return None;
      }
    }

    /** `prefetchWikiPageHtml(title, lang)`: a request only on a cache miss. */
    method PrefetchWikiPageHtml(title: string, lang: string, answer: Answer<string>)
      modifies this
      ensures var key := CacheKey(lang, title);
        && (key in old(htmlCache) ==> htmlCache == old(htmlCache) && pageRequests == old(pageRequests))
        && (key !in old(htmlCache) ==> pageRequests == old(pageRequests) + 1)
        && (key !in old(htmlCache) && answer.Body? ==> htmlCache == old(htmlCache)[key := answer.value])
        && (key !in old(htmlCache) && !answer.Body? ==> htmlCache == old(htmlCache))
    {
      var key := CacheKey(lang, title);
      if key !in htmlCache {
        var _ := GetWikiPageHtml(title, lang, answer);
      }
    }
  }

  /** The answer of a list request, or the empty list when it failed. */
  function ListOrEmpty<T>(answer: Answer<seq<T>>): (r: seq<T>)
    ensures answer.Body? ==> r == answer.value
    ensures !answer.Body? ==> r == []
  {
    if answer.Body? then answer.value else []
  }

  /** `searchWikipedia(query, lang)`: the search route's hits, or none on a failure. */
  function SearchWikipedia(query: string, lang: string, answer: Answer<seq<WikiArticle>>): (r: seq<WikiArticle>)
    ensures answer.Body? ==> r == answer.value
    ensures !answer.Body? ==> r == []
  {
    ListOrEmpty(answer)
  }

  /** A trending topic as the trending route returns it. */
  datatype TrendingTopic = TrendingTopic(title: string, views: string)

  /** `getTrendingTopics(lang)`: the trending route's list, or none on a failure. */
  function GetTrendingTopics(lang: string, answer: Answer<seq<TrendingTopic>>): (r: seq<TrendingTopic>)
    ensures answer.Body? ==> r == answer.value
    ensures !answer.Body? ==> r == []
  {
    ListOrEmpty(answer)
  }

  /**
   * Two reads of the same page: the second is served from the cache with the HTML
   * the first one stored, whatever the network would now say, and sends no request.
   */
  method SecondReadIsCached(s: Service, title: string, lang: string, first: Answer<string>, second: Answer<string>)
    returns (html1: Option<string>, html2: Option<string>)
    modifies s
    ensures CacheKey(lang, title) !in old(s.htmlCache) && first.Body? ==> html1 == Some(first.value)
    ensures html1.Some? ==> html2 == html1 && s.pageRequests <= old(s.pageRequests) + 1
  {
    html1 := s.GetWikiPageHtml(title, lang, first);
    html2 := s.GetWikiPageHtml(title, lang, second);
  }
}

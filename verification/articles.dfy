/**
 * The shared record types of src/types/index.ts: an article summary fetched from
 * Wikipedia and the tagged entries of the assembled feed.
 */
module Articles {
  import opened Wrappers

  datatype Image = Image(source: string, width: int, height: int)

  datatype ContentUrls = ContentUrls(desktopPage: string, mobilePage: string)

  /** `WikiArticle`; `lang` records which Wikipedia edition it came from. */
  datatype WikiArticle = WikiArticle(
    title: string,
    extract: string,
    originalImage: Option<Image>,
    contentUrls: ContentUrls,
    lang: Option<string>)

  /**
   * `FeedItem`: an article entry or an ad placeholder. Each keeps the UUID its
   * rendering key was made from; the key text itself is `FeedManager.Key`.
   */
  datatype FeedItem =
    | ArticleItem(data: WikiArticle, uuid: string)
    | AdItem(uuid: string)

  /** No two articles of the list share a title. */
  predicate DistinctTitles(articles: seq<WikiArticle>) {
    forall i, j :: 0 <= i < j < |articles| ==> articles[i].title != articles[j].title
  }

  /** The set of titles of a list of articles (the `seenTitles` set of the fetch loops). */
  function TitleSet(articles: seq<WikiArticle>): (s: set<string>)
    ensures forall a :: a in articles ==> a.title in s
    ensures forall t :: t in s ==> exists a :: a in articles && a.title == t
  {
    set a | a in articles :: a.title
  }

  /** Appending an article whose title is new keeps the titles distinct. */
  lemma AppendDistinct(articles: seq<WikiArticle>, a: WikiArticle)
    requires DistinctTitles(articles) && a.title !in TitleSet(articles)
    ensures DistinctTitles(articles + [a])
    ensures TitleSet(articles + [a]) == TitleSet(articles) + {a.title}
  {
    var s := articles + [a];
    forall i, j | 0 <= i < j < |s| ensures s[i].title != s[j].title {
      if j == |articles| {
        assert s[i] in articles;
      }
    }
  }

  /** Appending an article adds its title to the title set. */
  lemma TitleSetAppend(articles: seq<WikiArticle>, a: WikiArticle)
    ensures TitleSet(articles + [a]) == TitleSet(articles) + {a.title}
  {
    assert forall b :: b in articles + [a] <==> b in articles || b == a;
  }
}

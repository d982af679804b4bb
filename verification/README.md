# WikWok feed core in Dafny

WikWok shows random Wikipedia articles as an endless, vertically scrolled feed. It puts
an advertisement slot after every five to ten articles. This project models that core and
proves properties of the model.

**Feed acquisition.** The feed route asks for random page summaries in rounds of three to
five parallel requests, within a budget of four calls per article wanted. It keeps a
summary only when it is a standard page with an image and a long enough extract: at
least 200 UTF-16 code units (JavaScript's `length`) for English, 120 otherwise. A title already seen is dropped. The
route stops when it has enough articles or when the attempt budget is spent. For a
`limit` of at most 2 it also stops after the first round that yields anything. The
library's `getFeedArticles` does the same with at most three rounds of twenty. It stops
the moment it reaches its target, and also after a round that leaves it with 8 articles
(4 for a count of at most 8).

**Feed assembly.** `FeedManager.processBatch` turns a batch of articles into feed items.
Each item gets a key built from a random UUID. An ad follows once the article counter
reaches the current gap, and the next gap is then drawn from 5 to 10. The
`useWikwokFeed` hook feeds each newly fetched page into `processBatch` exactly once.

**Helpers.**
- the Wikimedia thumbnail rewriter;
- the comments API: auth, likes, formatting, threading and POST validation;
- the search and trending API;
- the article reader's HTML link fix-up;
- the client-side page cache;
- the proxy that maps a visitor's country to a Wikipedia language.

**Inputs as parameters.** Every network answer, database row, clock and random draw is a
parameter of the model:
- the outcome of each random-summary call, as a function from call index to outcome;
- the supply of ad gaps;
- the supply of UUIDs;
- the pages the infinite query has loaded.

**Files.** One module per source file. `wrappers`, `jsstrings`, `lists` and `articles`
hold the shared vocabulary: `Option`, the JavaScript string built-ins, `filter`/`slice`,
and the article and feed-item types. `random_summary` holds the summary fetch, one
parallel round and the in-order de-duplication of results; the route and the library both use it.

Three sources are state machines, and their models are classes:
- the hook (`WikwokFeed.FeedHook`);
- the reader (`ArticleReader.Reader`);
- the service cache (`WikipediaService.Service`).

The loops are methods proved against recursive specification functions:
- the route's while loop (`FeedRoute.Get`);
- its dedup loop (`FeedRoute.AbsorbRound`);
- the library's nested loops (`FeedLibrary.GetFeedArticles`, `FeedLibrary.AbsorbRoundUntil`);
- `processBatch`'s `forEach` (`FeedManager.ProcessBatch`);
- the comment threading (`Comments.BuildThread`).

## Model

| member | source | states |
|---|---|---|
| Articles.TitleSet | src/app/api/feed/route.ts:63 | the seen-titles set holds exactly the titles of the kept articles |
| Articles.AppendDistinct | src/app/api/feed/route.ts:75-77 | appending an article whose title is unseen keeps titles pairwise distinct |
| Articles.TitleSetAppend | src/app/api/feed/route.ts:76-77 | adding a title to the seen set matches appending the article to the list |
| JsStrings.OrElse | src/app/api/feed/route.ts:52 | `o \|\| fallback` yields `o` when it is present and non-empty, the fallback otherwise |
| JsStrings.LowerChar | src/lib/feed-manager.ts:16 | a lowered character is never an upper-case ASCII letter; other characters are unchanged |
| JsStrings.ToLower | src/lib/utils/images.ts:27 | lower-casing keeps the length |
| JsStrings.ToLowerAt | src/lib/utils/images.ts:27 | lower-casing works character by character |
| JsStrings.Utf16Length | src/app/api/feed/route.ts:29 | JavaScript's `length` counts one code unit per character of the Basic Multilingual Plane and two per other character, so it lies between the character count and twice it |
| JsStrings.BmpUtf16Length | src/app/api/feed/route.ts:29 | a string of Basic Multilingual Plane characters has as many code units as characters |
| JsStrings.AstralUtf16Length | src/app/api/feed/route.ts:29 | a string of characters outside that plane has two code units per character |
| JsStrings.NatToString | src/lib/utils/images.ts:59 | a rendered number is a non-empty string of decimal digits |
| JsStrings.IntToString | src/lib/utils/images.ts:59 | a rendered integer is non-empty and starts with `-` exactly when it is negative |
| JsStrings.ReplaceAllAbsent | src/components/feed/ArticleReader.tsx:30-33 | a global replace of a pattern that does not occur changes nothing |
| JsStrings.ReplaceAllFirst | src/components/feed/ArticleReader.tsx:30-33 | a global replace keeps the text before the first occurrence, puts the replacement in its place and carries on after it |
| JsStrings.ReplaceAllAvoids | src/components/feed/ArticleReader.tsx:30-33 | after a global replace, a string absent from the input and not creatable by the replacement is absent from the output |
| JsStrings.ReplaceFirstAbsent | src/app/api/comments/route.ts:78 | a first-occurrence replace of an absent pattern changes nothing |
| JsStrings.ReplaceFirstPrefix | src/app/api/comments/route.ts:20 | replacing a leading pattern by the empty string strips exactly that prefix |
| Lists.Filter | src/app/api/comments/route.ts:58-59 | an element is kept exactly when it is in the input and satisfies the test; the result is no longer than the input |
| Lists.FilterAppend | src/app/api/wiki/search/route.ts:44 | filtering distributes over concatenation |
| Lists.Take | src/app/api/wiki/search/route.ts:82 | `slice(0, n)` is a prefix of at most `n` elements, the whole list when it is no longer than `n` |
| RandomSummary.MinExtractLength | src/app/api/feed/route.ts:29 | the extract threshold is 200 code units exactly for English, 120 for every other edition |
| RandomSummary.FetchRandomArticle | src/app/api/feed/route.ts:6-48 | an article comes back exactly when the answer was ok and acceptable; its fields are the summary's, tagged with the language |
| RandomSummary.ReturnedArticleQuality | src/app/api/feed/route.ts:25-30 | every returned article has an image and an extract whose JavaScript length is at least its edition's threshold, so at least 120 code units and 60 characters |
| RandomSummary.ThresholdDependsOnLanguage | src/app/api/feed/route.ts:29 | an extract of length 150 is accepted for a non-English edition and refused for English |
| RandomSummary.ThresholdCountsCodeUnits | src/app/api/feed/route.ts:29 | the threshold counts code units: 60 characters outside the Basic Multilingual Plane pass a non-English edition's threshold, while 119 inside it do not |
| RandomSummary.Round | src/app/api/feed/route.ts:70-71 | one parallel round yields one result per request |
| RandomSummary.RoundAt | src/app/api/feed/route.ts:70-71 | result `k` of a round is the outcome of call `start + k` |
| RandomSummary.RoundFrame | src/app/api/feed/route.ts:70-71 | a round depends only on the calls it issues |
| RandomSummary.Admit | src/app/api/feed/route.ts:73-79 | a result is appended exactly when it is an article with an unseen title; otherwise the list is unchanged |
| RandomSummary.AbsorbAppend | src/app/api/feed/route.ts:73-80 | de-duplicating two lists of results one after the other equals de-duplicating their concatenation |
| RandomSummary.RoundSplit | src/lib/api/feed.ts:58-60 | the calls of consecutive rounds, in dispatch order, are one longer round |
| RandomSummary.AdmitDistinct | src/app/api/feed/route.ts:75-77 | admission keeps titles distinct and grows the title set by the admitted title |
| FeedRoute.ResolveLang | src/app/api/feed/route.ts:52 | the `lang` parameter when present and non-empty, else the `x-wiki-lang` header when non-empty, else `en` |
| FeedRoute.TargetCount | src/app/api/feed/route.ts:54 | the target is 5 without a limit, otherwise the limit capped at 20 |
| FeedRoute.BatchSize | src/app/api/feed/route.ts:67-68 | a round has 3 to 5 calls: 5 when at least 5 articles are missing, never more than are missing when at least 3 are, at most two more otherwise |
| FeedRoute.Get | src/app/api/feed/route.ts:50-93 | the while loop returns the specification `Acquire` from an empty list and no attempts, for the resolved language, target and budget |
| FeedRoute.AbsorbRound | src/app/api/feed/route.ts:73-80 | the dedup loop appends what `Absorb` appends and keeps the seen set equal to the list's titles |
| RandomSummary.AbsorbGrows | src/app/api/feed/route.ts:73-80 | a round only appends, at most one article per result |
| RandomSummary.AbsorbDistinct | src/app/api/feed/route.ts:73-80 | a round keeps the article titles pairwise distinct |
| RandomSummary.AbsorbTitles | src/app/api/feed/route.ts:73-80 | after a round, the seen titles are the old ones plus the titles of the round's articles |
| RandomSummary.AbsorbProvenance | src/app/api/feed/route.ts:73-80 | every appended article is a result of the round |
| RandomSummary.FirstOccurrenceWins | src/app/api/feed/route.ts:75-77 | a result with a new title that no earlier result of the round shares is kept |
| FeedRoute.AcquireGrows | src/app/api/feed/route.ts:65-90 | the loop only appends to its list and keeps titles distinct |
| FeedRoute.AcquireProvenance | src/app/api/feed/route.ts:65-90 | every returned article was already held or came back from a call the loop issued |
| FeedRoute.AcquireBound | src/app/api/feed/route.ts:65-90 | the loop ends with at most `target + 2` articles (or the ones it started with): a round overshoots by at most two |
| FeedRoute.SmallLimitFirstRound | src/app/api/feed/route.ts:85-87 | with a limit of at most 2, the answer is empty or exactly what the first round of three calls with a usable result kept, at most three articles |
| FeedRoute.AcquireFrame | src/app/api/feed/route.ts:59-71 | the answer depends only on the calls below the attempt budget plus four, as a last round can start just below the budget |
| FeedRoute.GetProperties | src/app/api/feed/route.ts:50-93 | the route's articles have distinct titles, number at most the target plus two (at most 22), are tagged with the chosen language and each came back from one of its calls |
| FeedRoute.OvershootReachable | src/app/api/feed/route.ts:54-87 | with `limit=1` and three good answers in the first round, the route returns three articles, two more than the limit |
| FeedLibrary.TargetCount | src/lib/api/feed.ts:49 | the target is the requested count capped at 32 |
| FeedLibrary.Threshold | src/lib/api/feed.ts:71 | the early-exit threshold is 8 for a count above 8 and 4 otherwise |
| FeedLibrary.SliceTo | src/lib/api/feed.ts:74 | `slice(0, end)` is a prefix of the list: of length `end` or the whole list for a non-negative end, and counted from the back for a negative one |
| FeedLibrary.Defaults | src/lib/api/feed.ts:48 | the default call asks for 12 English articles |
| FeedLibrary.GetFeedArticles | src/lib/api/feed.ts:48-75 | the nested loops return the specification `Rounds` result, sliced to the count |
| FeedLibrary.AbsorbRoundUntil | src/lib/api/feed.ts:62-68 | the inner loop returns what the specification `AbsorbUntil` returns and keeps the seen set equal to the list's titles |
| FeedLibrary.AbsorbUntilGrows | src/lib/api/feed.ts:62-68 | the inner loop only appends and never passes the target |
| FeedLibrary.AbsorbUntilDistinct | src/lib/api/feed.ts:62-66 | the inner loop keeps titles distinct |
| FeedLibrary.AbsorbUntilProvenance | src/lib/api/feed.ts:62-66 | every appended article is a result of the round |
| FeedLibrary.AbsorbUntilIsPrefix | src/lib/api/feed.ts:62-67 | the inner loop keeps dispatch order: its list is de-duplicating the whole round, cut off at the target |
| FeedLibrary.AbsorbUntilKeeps | src/lib/api/feed.ts:62-67 | while the target is not met, a result whose title is new and not returned earlier in the round is kept |
| FeedLibrary.AbsorbUntilBeforeLater | src/lib/api/feed.ts:58-67 | a round's list is a prefix of de-duplicating it and any later calls, and the whole de-duplicated round when the target is not reached |
| FeedLibrary.Remaining | src/lib/api/feed.ts:58-59 | the calls of round `i` onward are `20 (3 - i)` calls |
| FeedLibrary.RemainingSplit | src/lib/api/feed.ts:58-59 | the calls of round `i` onward are round `i`'s twenty calls followed by those of the later rounds |
| FeedLibrary.RoundsPrefix | src/lib/api/feed.ts:58-71 | the outer loop keeps dispatch order: its list is a prefix of de-duplicating every call from the current round on |
| FeedLibrary.RoundsGrow | src/lib/api/feed.ts:58-72 | the outer loop only appends and never passes the target |
| FeedLibrary.RoundsDistinct | src/lib/api/feed.ts:58-72 | the outer loop keeps titles distinct |
| FeedLibrary.RoundsProvenance | src/lib/api/feed.ts:55-66 | every article added by round `i` onward came back from one of calls `20 i` to 59 |
| FeedLibrary.GetFeedArticlesProperties | src/lib/api/feed.ts:48-75 | the slice is a no-op; the answer has at most `min(count, 32)` articles with distinct titles, tagged with the language, each returned by one of the first 60 calls, in dispatch order: a prefix of de-duplicating calls 0 to 59 |
| FeedLibrary.RoundsFrame | src/lib/api/feed.ts:55-60 | the answer depends only on the first 60 calls |
| FeedLibrary.FirstRoundSuffices | src/lib/api/feed.ts:58-71 | when the first round reaches the early-exit threshold or the target, its articles are the answer |
| FeedManager.CollapseSpaces | src/lib/feed-manager.ts:16 | the result has no whitespace, and whitespace-free text is unchanged |
| FeedManager.SlugShape | src/lib/feed-manager.ts:16 | a slug has no whitespace and no upper-case ASCII letter |
| FeedManager.IdShapes | src/lib/feed-manager.ts:11-17 | article ids are `wiki-…-<uuid>`, ad ids are `ad-<uuid>` |
| FeedManager.KeyEndsWithUuid | src/lib/feed-manager.ts:11-17 | every item's id ends in its UUID |
| FeedManager.Assemble | src/lib/feed-manager.ts:47-51 | the existing items are a prefix of the result; an empty batch changes nothing |
| FeedManager.ProcessBatch | src/lib/feed-manager.ts:19-52 | the `forEach` loop yields the state the specification `Assemble` describes |
| FeedManager.BuildArticles | src/lib/feed-manager.ts:29-35 | the new items hold the batch's articles, in order, with nothing lost or added |
| FeedManager.BuildAlternates | src/lib/feed-manager.ts:35-44 | every ad directly follows an article |
| FeedManager.BuildAdCount | src/lib/feed-manager.ts:29-44 | at most one ad per article |
| FeedManager.BuildShape | src/lib/feed-manager.ts:29-44 | the batch's items begin with an article and never hold two ads in a row |
| FeedManager.BuildCounter | src/lib/feed-manager.ts:26-50 | with gaps from 5 to 10, the final counter is below the final gap and never negative |
| FeedManager.BuildLastGap | src/lib/feed-manager.ts:37-50 | the final gap is the incoming one when no ad was placed, otherwise the last gap drawn |
| FeedManager.FirstAd | src/lib/feed-manager.ts:35-41 | the first ad comes after `max(1, gap - counter)` articles |
| FeedManager.AdSpacing | src/lib/feed-manager.ts:37-43 | successive ads are separated by exactly the drawn gaps, in order |
| FeedManager.GapBetweenAds | src/lib/feed-manager.ts:37-43 | two successive ads have between 5 and 10 articles between them |
| FeedManager.BuildUuids | src/lib/feed-manager.ts:30-41 | each new item carries a different UUID from the supply |
| FeedManager.KeysDiffer | src/lib/feed-manager.ts:11-17 | items with different 36-character UUIDs have different ids |
| FeedManager.NewKeysDistinct | src/lib/feed-manager.ts:11-41 | the new ids are pairwise distinct and start with `wiki-` for articles, `ad-` for ads |
| FeedManager.NoAdjacentAppend | src/lib/feed-manager.ts:47-48 | appending a batch that starts with an article keeps the feed free of adjacent ads |
| FeedManager.AssembleProperties | src/lib/feed-manager.ts:19-52 | the old items are a prefix, articles are appended in order, no two ads are adjacent, the counter stays below the gap, the gap stays in 5..10 |
| FeedManager.NoAdsAllArticles | src/lib/feed-manager.ts:29-44 | items without an ad are all articles |
| FeedManager.SinceLastAdPrepend | src/lib/feed-manager.ts:47-49 | putting items in front keeps the last ad and the articles after it |
| FeedManager.SinceLastAdExtend | src/lib/feed-manager.ts:47-49 | appending `n` articles after the last ad raises the count behind it by `n` |
| FeedManager.SinceLastAdAfterAd | src/lib/feed-manager.ts:35-41 | an article and an ad in front of items keep or become the last ad with the right count behind it |
| FeedManager.SinceLastAdAfterArticle | src/lib/feed-manager.ts:35-44 | an article in front of items adds no ad and keeps the last ad and the count behind it |
| FeedManager.BuildSinceLastAd | src/lib/feed-manager.ts:26-44 | when a batch placed an ad, the final counter is exactly the number of articles after its last ad |
| FeedManager.AssembleSinceLastAd | src/lib/feed-manager.ts:19-52 | if the counter counted the articles after the feed's last ad, it still does after `processBatch` |
| FeedManager.AdMeansAdCount | src/lib/feed-manager.ts:35-41 | a list holding an ad has a positive ad count |
| FeedManager.AppendedPairSpaced | src/lib/feed-manager.ts:35-49 | successive ads of the old feed and the new batch, including the old last ad and the new first one, are 5 to 10 articles apart |
| FeedManager.AssembleKeepsSpacing | src/lib/feed-manager.ts:19-52 | `processBatch` on a feed with 5 to 10 articles between successive ads and a correct counter below the gap leaves a feed with the same properties, so they hold across any number of batches |
| WikwokFeed.FlattenAppend | src/lib/hooks/useWikwokFeed.ts:47 | flattening distributes over concatenation of pages |
| WikwokFeed.NextPageParam | src/lib/hooks/useWikwokFeed.ts:34 | the next page number is the number of pages loaded |
| WikwokFeed.QueryPage | src/lib/hooks/useWikwokFeed.ts:29-33 | a failed response is a network error; an ok one is the page's articles |
| WikwokFeed.FeedHook.constructor | src/lib/hooks/useWikwokFeed.ts:8-14 | the hook starts with an empty feed, a zero gap, uninitialised and no page processed |
| WikwokFeed.FeedHook.InitializeGap | src/lib/hooks/useWikwokFeed.ts:17-25 | the mount effect sets the gap once, and later runs change nothing; afterwards the feed is well spaced |
| WikwokFeed.FeedHook.Sync | src/lib/hooks/useWikwokFeed.ts:44-62 | the sync effect performs one `SyncStep` on the hook's state and keeps the hook well spaced: 5 to 10 articles between successive ads across all batches, the counter below the gap |
| WikwokFeed.SyncAppends | src/lib/hooks/useWikwokFeed.ts:44-62 | a sync appends exactly the articles of the unprocessed pages and marks all pages processed |
| WikwokFeed.SyncIdempotent | src/lib/hooks/useWikwokFeed.ts:45 | a second sync on the same pages changes nothing |
| WikwokFeed.SyncEmptyPages | src/lib/hooks/useWikwokFeed.ts:49-60 | empty new pages leave the feed unchanged and still count as processed |
| WikwokFeed.SyncCatchesUp | src/lib/hooks/useWikwokFeed.ts:44-62 | a feed holding the articles of the processed pages holds the articles of all pages after a sync |
| WikwokFeed.SyncTwice | src/lib/hooks/useWikwokFeed.ts:44-62 | two syncs over growing pages put every loaded article in the feed exactly once, in page order |
| Images.TakeUntil | src/lib/utils/images.ts:19 | the scanned text is a prefix with no stop character, ending at the end or just before a stop character |
| Images.ParseAfterScheme | src/lib/utils/images.ts:19 | the path name starts with `/` and the origin is the scheme, `://` and what follows up to the path |
| Images.ParseUrl | src/lib/utils/images.ts:19 | a parsed URL's path name starts with `/` and its origin is a prefix of the URL holding `://` |
| Images.ParseSimple | src/lib/utils/images.ts:19 | a simple upload URL parses into its origin and path |
| Images.Split | src/lib/utils/images.ts:20 | splitting on `/` yields at least one part |
| Images.JoinSplit | src/lib/utils/images.ts:20 | joining the parts with `/` gives back the string |
| Images.SplitPartsHaveNoSlash | src/lib/utils/images.ts:20 | no part holds `/` |
| Images.SplitAround | src/lib/utils/images.ts:20 | splitting `a/b` is splitting `a` followed by splitting `b` |
| Images.SplitSegment | src/lib/utils/images.ts:20 | a slash-free string splits into itself |
| Images.ThumbnailOf | src/lib/utils/images.ts:56-61 | a built thumbnail URL contains `/thumb/` |
| Images.GetWikimediaImageUrl | src/lib/utils/images.ts:9-68 | empty, non-Wikimedia, unparsable and thumbnail URLs come back unchanged |
| Images.ThumbFileShape | src/lib/utils/images.ts:56-59 | the thumbnail file is `<width>px-<file>`, with `.png` added for an SVG |
| Images.DefaultThumbFile | src/lib/utils/images.ts:9 | without a width, the thumbnail file asks for 800 pixels |
| Images.FlagIsSvg | src/lib/utils/images.ts:27 | the SVG test ignores case |
| Images.CatIsNotSvg | src/lib/utils/images.ts:27 | a JPEG is not taken for an SVG |
| Images.RewriteOriginalPath | src/lib/utils/images.ts:47-61 | an original upload path is rewritten to the thumbnail URL built from its groups |
| Images.RewritesOriginal | src/lib/utils/images.ts:9-61 | an original upload URL becomes `<origin>/wikipedia/<project>/thumb/<h1>/<h2>/<file>/<width>px-<file>` |
| Images.ThumbnailHasThumb | src/lib/utils/images.ts:61 | every rewritten URL contains `/thumb/` |
| Images.RewriteMatchIndependent | src/lib/utils/images.ts:47-50 | whether a URL is rewritten does not depend on the width |
| Images.GuardsPassed | src/lib/utils/images.ts:10-20 | a URL that passes the guards gets the pattern-match rewrite, or comes back unchanged when it does not match |
| Images.Idempotent | src/lib/utils/images.ts:34-61 | rewriting a rewritten URL, at any width, changes nothing |
| Comments.UserOf | src/app/api/comments/route.ts:16-23 | no user without an authorization header |
| Comments.BearerToken | src/app/api/comments/route.ts:19-22 | for `Bearer <token>`, the user is the one the token belongs to |
| Comments.MyLikes | src/app/api/comments/route.ts:36-48 | without a user no comment is liked; a failed likes query (null `likesData`) leaves nothing liked; otherwise exactly the comments the query returned are liked |
| Comments.Format | src/app/api/comments/route.ts:50-55 | each comment is kept in order, flagged liked exactly when its id is in the liked set, with zero likes |
| Comments.BuildThread | src/app/api/comments/route.ts:57-66 | the `forEach` loop builds the specification thread of roots and their replies |
| Comments.GetStatus | src/app/api/comments/route.ts:8-68 | 400 exactly for a missing url, 500 exactly for a database error, 200 exactly for a thread |
| Comments.Get | src/app/api/comments/route.ts:4-69 | a missing url and a query error are reported; otherwise the answer is the thread of the article's formatted comments |
| Comments.ThreadMembers | src/app/api/comments/route.ts:57-66 | a comment is in the thread exactly when it is a root or a reply to a root |
| Comments.ThreadKeepsRootOrder | src/app/api/comments/route.ts:58-63 | the roots appear in the thread in their original order |
| Comments.ThreadAttached | src/app/api/comments/route.ts:62-65 | every reply in the thread sits under its own parent root |
| Comments.ThreadLength | src/app/api/comments/route.ts:57-66 | with unique ids, the thread has one entry per root plus one per reply to a root |
| Comments.PartitionLength | src/app/api/comments/route.ts:58-59 | roots and replies partition the comments |
| Comments.ThreadBound | src/app/api/comments/route.ts:57-66 | with unique ids, the thread is no longer than the comment list |
| Comments.GetThreadProperties | src/app/api/comments/route.ts:4-69 | the thread holds exactly the article's roots and their replies, and nothing is liked without a user |
| Comments.PostStatus | src/app/api/comments/route.ts:71-108 | 401, 400, 500 and 200 each match exactly one outcome |
| Comments.Post | src/app/api/comments/route.ts:71-108 | unauthorised without a valid user, missing fields without url and content, otherwise one insert of the user's comment, whose error is reported |
| Comments.TokenWithoutBearer | src/app/api/comments/route.ts:78 | a header without `Bearer ` is used whole as the token |
| WikiSearch.SearchLang | src/app/api/wiki/search/route.ts:7 | the `lang` parameter when present and non-empty, `en` otherwise |
| WikiSearch.SummaryHit | src/app/api/wiki/search/route.ts:21-41 | a hit exactly for an ok summary of a standard or disambiguation page, tagged with the language |
| WikiSearch.DropNulls | src/app/api/wiki/search/route.ts:44 | a hit is kept exactly when it is a present result; no more hits than results |
| WikiSearch.DropNullsAppend | src/app/api/wiki/search/route.ts:44 | dropping missing results distributes over concatenation |
| WikiSearch.Summaries | src/app/api/wiki/search/route.ts:21-43 | one result per title, in title order |
| WikiSearch.SpecialSubsumed | src/app/api/wiki/search/route.ts:81 | a `Special:` title already contains `:` |
| WikiSearch.ListableWithoutSpecial | src/app/api/wiki/search/route.ts:81 | the trending filter is equivalent to the one without the `Special:` test |
| WikiSearch.DisplayTitle | src/app/api/wiki/search/route.ts:84 | a display title is the article name with every `_` made a space and nothing else changed, so it has no `_` |
| WikiSearch.ReplaceUnderscore | src/app/api/wiki/search/route.ts:84 | the global replace of `_` by a space works character by character |
| WikiSearch.TrendingEntries | src/app/api/wiki/search/route.ts:79-86 | at most five entries: the first listable articles, in ranking order, with display titles |
| WikiSearch.ChosenRanking | src/app/api/wiki/search/route.ts:56-76 | the edition's ranking unless it failed to be ok or the edition is English, then the English fallback |
| WikiSearch.SearchMode | src/app/api/wiki/search/route.ts:9-53 | 400 without a query, 500 when the title search fails, otherwise the hits |
| WikiSearch.TrendingMode | src/app/api/wiki/search/route.ts:55-93 | status 500 with no entries exactly when the chosen ranking call threw or its body was malformed; 200 with no entries when it was not ok; 200 with the trending entries of the ranking's articles otherwise, at most five |
| WikiSearch.Get | src/app/api/wiki/search/route.ts:3-97 | search, trending, or 400 for any other mode |
| WikiSearch.SearchHitsFromTitles | src/app/api/wiki/search/route.ts:21-44 | every hit is the summary of a title of a standard or disambiguation page, at most one per title |
| WikiSearch.SearchHitsInTitleOrder | src/app/api/wiki/search/route.ts:43-44 | hits follow the order of the title list |
| WikiSearch.TrendingTitlesClean | src/app/api/wiki/search/route.ts:80-86 | no trending title holds `_`, and each comes from a listable article |
| WikiSearch.EnglishReadsTodaysRanking | src/app/api/wiki/search/route.ts:68-74 | English always reads the fallback ranking |
| ArticleReader.SrcWikiAvoids | src/components/feed/ArticleReader.tsx:31 | the image-source replacement cannot recreate the pattern it removes |
| ArticleReader.HrefWikiAvoids | src/components/feed/ArticleReader.tsx:32 | the link replacement cannot recreate either relative pattern |
| ArticleReader.SrcHttpsAvoidsRelative | src/components/feed/ArticleReader.tsx:33 | the protocol replacement cannot recreate a relative pattern |
| ArticleReader.SrcHttpsAvoidsSlashes | src/components/feed/ArticleReader.tsx:33 | the protocol replacement cannot recreate the pattern it removes |
| ArticleReader.FixedHtmlHasNoRelativeLinks | src/components/feed/ArticleReader.tsx:30-33 | fixed HTML holds no `src="./`, `href="./` or `src="//` |
| ArticleReader.FixedHtmlUnchanged | src/components/feed/ArticleReader.tsx:30-33 | HTML without those patterns is left unchanged |
| ArticleReader.LeadingRelativeSource | src/components/feed/ArticleReader.tsx:31 | a leading relative image source becomes an absolute one on the article's edition |
| ArticleReader.RelativeSourceReplaced | src/components/feed/ArticleReader.tsx:31 | the first relative image source becomes an absolute one on the article's edition, and the rest is fixed the same way |
| ArticleReader.RelativeLinkReplaced | src/components/feed/ArticleReader.tsx:32 | the first relative link becomes an absolute one on the article's edition, and the rest is fixed the same way |
| ArticleReader.ProtocolRelativeSourceReplaced | src/components/feed/ArticleReader.tsx:33 | the first protocol-relative image source gets `https:`, and the rest is fixed the same way |
| ArticleReader.Reader.constructor | src/components/feed/ArticleReader.tsx:16-17 | the reader starts with no content and not loading |
| ArticleReader.Reader.OnChange | src/components/feed/ArticleReader.tsx:19-42 | an open reader shows the fixed HTML of a non-empty answer and keeps its content otherwise; a closed one is cleared |
| WikipediaService.CacheKey | src/lib/services/wikipedia.ts:19 | the key is the language, `:`, then the title |
| WikipediaService.CacheKeyInjective | src/lib/services/wikipedia.ts:19 | for languages without `:`, equal keys mean equal language and title |
| WikipediaService.CacheKeyCollision | src/lib/services/wikipedia.ts:19 | without that condition two different pages share a key |
| WikipediaService.Service.constructor | src/lib/services/wikipedia.ts:16 | the cache starts empty |
| WikipediaService.Service.GetWikiPageHtml | src/lib/services/wikipedia.ts:18-35 | a hit is served without a request; a miss sends one request and caches an ok answer; old entries are kept |
| WikipediaService.Service.PrefetchWikiPageHtml | src/lib/services/wikipedia.ts:37-47 | a prefetch sends a request only on a miss |
| WikipediaService.ListOrEmpty | src/lib/services/wikipedia.ts:5-14 | a failed list request yields the empty list |
| WikipediaService.SearchWikipedia | src/lib/services/wikipedia.ts:5-14 | the search route's hits, or none on a failure |
| WikipediaService.GetTrendingTopics | src/lib/services/wikipedia.ts:54-63 | the trending route's list, or none on a failure |
| WikipediaService.SecondReadIsCached | src/lib/services/wikipedia.ts:18-35 | a second read of a stored page returns the stored HTML whatever the network says |
| Proxy.Country | src/proxy.ts:20 | the geolocated country, then the country header, then `US` |
| Proxy.Language | src/proxy.ts:21 | the table's language for a mapped country, English otherwise |
| Proxy.Forward | src/proxy.ts:19-27 | the request keeps its headers and gains the language and country headers |
| Proxy.MappedCountries | src/proxy.ts:4-17 | Indonesia, Japan, Brazil, China and Britain map to their editions |
| Proxy.UnmappedCountry | src/proxy.ts:21 | a country outside the table reads English |
| Proxy.NoLocation | src/proxy.ts:20-21 | with no location the visitor counts as being in the US and reads English |
| Proxy.GeoWins | src/proxy.ts:20 | the platform's geolocation wins over the header |

## Left out

- Network I/O, `fetch`, JSON parsing and the 2-second abort timers are not modelled. Each request's outcome (threw, not ok, or a body) is a parameter.
- `Promise.all` concurrency is not modelled. A round's results are processed in dispatch order, which is the order `Promise.all` reports them in.
- The Supabase client is not modelled. Database queries, auth lookups and inserts are parameters (functions from token, user or row to answer).
- Randomness is not modelled. `getRandomInt(5, 10)` draws become a supplied gap sequence, and `crypto.randomUUID()` values a supplied UUID sequence. UUID distinctness is a precondition (`FreshUuids`).
- `WikwokFeed.FeedHook.Sync` requires the mount effect to have run. React runs a component's effects in declaration order, and the gap effect (useWikwokFeed.ts:17-25) is declared before the data effect, so the model does not cover a sync before the gap is drawn.
- `FeedManager.ProcessBatch` requires one gap per article and two UUIDs per article. The source draws them on demand, so the model's supply must be large enough.
- A feed item stores its UUID. Its id text is derived from it by `FeedManager.Key`, so an item does not store the id string.
- React scheduling (effects, state setters, refs, strict-mode re-runs) is not modelled. Each effect runs as one method call to completion.
- Date arithmetic for the pageview URLs is not modelled. The two ranking answers (the edition's and the English fallback) are parameters.
- The `views` formatting (`toFixed(1)` with a `k` suffix) uses floating point. The view count is kept as the integer it was.
- `Cache-Control` headers, console logging, and a failing `request.json()` in POST are not modelled.
- FeedRoute.TargetCount: the route's `limit` is the integer `parseInt` returns, or `None` when the parameter is absent or empty. A limit that parses to `NaN` is not modelled; the source then returns an empty list, because every comparison with `NaN` is false.
- `getRandomInt` (src/lib/utils.ts) is not part of this model. Its draws are taken to lie in 5..10 inclusive (`FeedManager.ValidGaps`).
- JsStrings.ToLower: folds only ASCII letters, so Unicode case mapping is not modelled.
- Images.ParseUrl: only the URL shapes the function relies on are parsed (scheme, host, path name), not the full WHATWG URL algorithm with its percent-encoding and normalisation.
- Proxy.Language: a country named like an `Object` prototype property (for example `constructor`) is treated as unmapped; JavaScript's own lookup would find the inherited property.
- WikiSearch.TrendingEntries: keeps the raw view count instead of the formatted string, as above.
- ArticleReader.FixHtml: JavaScript's `replace` expands `$` patterns such as `$&` in a replacement string, and the replacements hold the language code. The model inserts the replacement literally, so it matches the source only for a language code without `$`.
- The page components, the UI and the remaining routes and hooks of the repository are not part of this model.

/**
 * `fetchRandomArticle`, which both src/app/api/feed/route.ts and src/lib/api/feed.ts
 * define with the same body: ask Wikipedia's REST API for a random page summary and
 * keep it only when it is a standard page with an image and a long enough extract.
 *
 * The network call is an outcome supplied from outside: a non-ok response, a thrown
 * error or timeout, or an ok response carrying a parsed JSON payload.
 */
module RandomSummary {
  import opened Wrappers
  import opened JsStrings
  import opened Articles

  /** The fields of a page summary that the validation reads. */
  datatype Payload = Payload(
    kind: Option<string>,
    title: string,
    extract: Option<string>,
    originalImage: Option<Image>,
    contentUrls: ContentUrls)

  /** What one call to the summary endpoint produced. */
  datatype FetchOutcome =
    | NotOk               // the response status was not ok
    | Failed              // fetch threw, including the two-second abort
    | Ok(payload: Payload)

  /**
   * Minimum extract length: 200 on English Wikipedia, 120 elsewhere, in the UTF-16
   * code units JavaScript's `length` counts.
   */
  function MinExtractLength(lang: string): (n: nat)
    ensures n == 200 || n == 120
    ensures n == 200 <==> lang == "en"
  {
    if lang == "en" then 200 else 120
  }

  /** The validation condition of `fetchRandomArticle`. */
  predicate Acceptable(p: Payload, lang: string) {
    && p.kind == Some("standard")
    && p.originalImage.Some?
    && Truthy(p.extract)
    && Utf16Length(p.extract.value) >= MinExtractLength(lang)
  }

  /**
   * `fetchRandomArticle(lang)` given the outcome of its request: an article tagged
   * with `lang` exactly when the response was ok and the payload acceptable.
   */
  function FetchRandomArticle(lang: string, outcome: FetchOutcome): (r: Option<WikiArticle>)
    ensures r.Some? <==> outcome.Ok? && Acceptable(outcome.payload, lang)
    ensures r.Some? ==>
      && r.value.title == outcome.payload.title
      && Some(r.value.extract) == outcome.payload.extract
      && r.value.originalImage == outcome.payload.originalImage
      && r.value.contentUrls == outcome.payload.contentUrls
      && r.value.lang == Some(lang)
  {
    match outcome
    case Ok(p) =>
      if Acceptable(p, lang) then
        Some(WikiArticle(p.title, p.extract.value, p.originalImage, p.contentUrls, Some(lang)))
      else None
    case _ => None
  }

  /**
   * Whatever the outcome, an article that is returned has an image and a long enough
   * extract: at least its edition's threshold in code units, so at least 60 characters.
   */
  lemma ReturnedArticleQuality(lang: string, outcome: FetchOutcome)
    ensures var r := FetchRandomArticle(lang, outcome);
      r.Some? ==> && r.value.originalImage.Some?
                  && Utf16Length(r.value.extract) >= MinExtractLength(lang) >= 120
                  && |r.value.extract| >= 60
  {
  }

  /**
   * The threshold depends on the language: the same 150-character extract is
   * accepted from French Wikipedia and rejected from English Wikipedia.
   */
  lemma ThresholdDependsOnLanguage(p: Payload)
    requires p.kind == Some("standard") && p.originalImage.Some?
    requires p.extract.Some? && Utf16Length(p.extract.value) == 150
    ensures FetchRandomArticle("fr", Ok(p)).Some?
    ensures FetchRandomArticle("en", Ok(p)).None?
  {
  }

  /**
   * The threshold counts code units, not characters: 60 mathematical bold capital A
   * (U+1D400) make an extract of length 120, which a non-English edition accepts,
   * while 119 characters of the Basic Multilingual Plane are too short.
   */
  lemma ThresholdCountsCodeUnits(p: Payload, bmp: string)
    requires p.kind == Some("standard") && p.originalImage.Some?
    requires p.extract == Some(seq(60, _ => '\U{1D400}'))
    requires |bmp| == 119 && forall i :: 0 <= i < |bmp| ==> (bmp[i] as int) < 0x1_0000
    ensures FetchRandomArticle("fr", Ok(p)).Some?
    ensures FetchRandomArticle("fr", Ok(p.(extract := Some(bmp)))).None?
  {
    AstralUtf16Length(p.extract.value);
    BmpUtf16Length(bmp);
  }

  /**
   * One `Promise.all` round of `size` calls, dispatched as calls number `start`,
   * `start + 1`, ... of the upstream, in dispatch order.
   */
  function Round(lang: string, upstream: nat -> FetchOutcome, start: nat, size: nat): (results: seq<Option<WikiArticle>>)
    ensures |results| == size
  {
    seq(size, k requires 0 <= k < size => FetchRandomArticle(lang, upstream(start + k)))
  }

  /** Result `k` of a round is what call `start + k` yielded. */
  lemma RoundAt(lang: string, upstream: nat -> FetchOutcome, start: nat, size: nat)
    ensures forall k :: 0 <= k < size ==> Round(lang, upstream, start, size)[k] == FetchRandomArticle(lang, upstream(start + k))
  {
  }

  /** Rounds over upstreams that agree on the calls they dispatch are equal. */
  lemma RoundFrame(lang: string, u1: nat -> FetchOutcome, u2: nat -> FetchOutcome, start: nat, size: nat)
    requires forall k: nat :: start <= k < start + size ==> u1(k) == u2(k)
    ensures Round(lang, u1, start, size) == Round(lang, u2, start, size)
  {
    var r1, r2 := Round(lang, u1, start, size), Round(lang, u2, start, size);
    RoundAt(lang, u1, start, size);
    RoundAt(lang, u2, start, size);
    forall k | 0 <= k < size ensures r1[k] == r2[k] {
      assert u1(start + k) == u2(start + k);
    }
  }

  /**
   * The de-duplication step both acquisition loops apply to one result: a returned
   * article is kept when its title has not been seen yet.
   */
  function Admit(valid: seq<WikiArticle>, result: Option<WikiArticle>): (next: seq<WikiArticle>)
    ensures result.Some? && result.value.title !in TitleSet(valid) ==> next == valid + [result.value]
    ensures !(result.Some? && result.value.title !in TitleSet(valid)) ==> next == valid
  {
    if result.Some? && result.value.title !in TitleSet(valid) then valid + [result.value] else valid
  }

  /** Admitting keeps the titles distinct and the earlier articles in place. */
  lemma AdmitDistinct(valid: seq<WikiArticle>, result: Option<WikiArticle>)
    ensures DistinctTitles(valid) ==> DistinctTitles(Admit(valid, result))
    ensures TitleSet(Admit(valid, result)) == TitleSet(valid) + (if result.Some? then {result.value.title} else {})
  {
    if result.Some? {
      TitleSetAppend(valid, result.value);
      if result.value.title !in TitleSet(valid) && DistinctTitles(valid) {
        AppendDistinct(valid, result.value);
      }
    }
  }

  /**
   * Every result in order goes through `Admit`: the inner `for ... of results` loop
   * of the route, and of the library while its target is not met.
   */
  function Absorb(valid: seq<WikiArticle>, results: seq<Option<WikiArticle>>): seq<WikiArticle>
    decreases |results|
  {
    if results == [] then valid else Absorb(Admit(valid, results[0]), results[1..])
  }

  // ---------------------------------------------------------------------------
  // De-duplication of a sequence of results

  /** Titles of the articles a round returned. */
  function ReturnedTitles(results: seq<Option<WikiArticle>>): set<string>
    decreases |results|
  {
    if results == [] then {}
    else (if results[0].Some? then {results[0].value.title} else {}) + ReturnedTitles(results[1..])
  }

  /** A round only appends, at most one article per result. */
  lemma {:induction false} AbsorbGrows(valid: seq<WikiArticle>, results: seq<Option<WikiArticle>>)
    ensures var r := Absorb(valid, results);
      valid <= r && |r| <= |valid| + |results|
    decreases |results|
  {
    if results != [] {
      AbsorbGrows(Admit(valid, results[0]), results[1..]);
    }
  }

  /** A round keeps the titles distinct. */
  lemma {:induction false} AbsorbDistinct(valid: seq<WikiArticle>, results: seq<Option<WikiArticle>>)
    requires DistinctTitles(valid)
    ensures DistinctTitles(Absorb(valid, results))
    decreases |results|
  {
    if results != [] {
      AdmitDistinct(valid, results[0]);
      AbsorbDistinct(Admit(valid, results[0]), results[1..]);
    }
  }

  /** Every title a round returned ends up in the list, and no other new title. */
  lemma {:induction false} AbsorbTitles(valid: seq<WikiArticle>, results: seq<Option<WikiArticle>>)
    ensures TitleSet(Absorb(valid, results)) == TitleSet(valid) + ReturnedTitles(results)
    decreases |results|
  {
    if results != [] {
      AdmitDistinct(valid, results[0]);
      AbsorbTitles(Admit(valid, results[0]), results[1..]);
    }
  }

  /** Every article of the list was there before or was returned by one of the calls. */
  lemma {:induction false} AbsorbProvenance(valid: seq<WikiArticle>, results: seq<Option<WikiArticle>>)
    ensures forall a :: a in Absorb(valid, results) ==> a in valid || Some(a) in results
    decreases |results|
  {
    if results != [] {
      var next := Admit(valid, results[0]);
      AbsorbProvenance(next, results[1..]);
      assert forall a :: a in next ==> a in valid || Some(a) == results[0];
      assert forall o :: o in results[1..] ==> o in results;
    }
  }

  /**
   * Within a round the first occurrence of a title in dispatch order wins: a
   * returned article whose title is new and not returned earlier in the round is kept.
   */
  lemma {:induction false} FirstOccurrenceWins(valid: seq<WikiArticle>, results: seq<Option<WikiArticle>>, k: nat)
    requires k < |results| && results[k].Some?
    requires results[k].value.title !in TitleSet(valid)
    requires forall j :: 0 <= j < k && results[j].Some? ==> results[j].value.title != results[k].value.title
    ensures results[k].value in Absorb(valid, results)
    decreases |results|
  {
    var next := Admit(valid, results[0]);
    AbsorbGrows(next, results[1..]);
    if k == 0 {
      assert results[0].value in next;
    } else {
      AdmitDistinct(valid, results[0]);
      assert results[1..][k - 1] == results[k];
      FirstOccurrenceWins(next, results[1..], k - 1);
    }
  }

  /** De-duplicating two lists of results one after the other is de-duplicating their concatenation. */
  lemma {:induction false} AbsorbAppend(valid: seq<WikiArticle>, first: seq<Option<WikiArticle>>, second: seq<Option<WikiArticle>>)
    ensures Absorb(valid, first + second) == Absorb(Absorb(valid, first), second)
    decreases |first|
  {
    if first == [] {
      assert first + second == second;
    } else {
      assert (first + second)[0] == first[0];
      assert (first + second)[1..] == first[1..] + second;
      AbsorbAppend(Admit(valid, first[0]), first[1..], second);
    }
  }

  /** `size1 + size2` calls from `start` are a round of `size1` followed by a round of `size2`. */
  lemma RoundSplit(lang: string, upstream: nat -> FetchOutcome, start: nat, size1: nat, size2: nat)
    ensures Round(lang, upstream, start, size1 + size2) ==
            Round(lang, upstream, start, size1) + Round(lang, upstream, start + size1, size2)
  {
    var whole := Round(lang, upstream, start, size1 + size2);
    var parts := Round(lang, upstream, start, size1) + Round(lang, upstream, start + size1, size2);
    RoundAt(lang, upstream, start, size1 + size2);
    RoundAt(lang, upstream, start, size1);
    RoundAt(lang, upstream, start + size1, size2);
    forall k | 0 <= k < size1 + size2 ensures whole[k] == parts[k] {
      if k >= size1 {
        assert parts[k] == Round(lang, upstream, start + size1, size2)[k - size1];
      }
    }
  }
}

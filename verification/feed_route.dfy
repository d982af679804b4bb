/**
 * The `GET` handler of src/app/api/feed/route.ts: fetch random page summaries in
 * rounds of three to five concurrent calls until `target` distinct articles are
 * collected or an attempt budget of four times the target is spent.
 *
 * The upstream is a function from the dispatch number of a call (0, 1, 2, ...) to
 * its outcome; a round that starts after `attempts` calls dispatches calls
 * `attempts`, `attempts + 1`, ..., and its results are taken in that order.
 */
module FeedRoute {
  import opened Wrappers
  import opened JsStrings
  import opened Articles
  import opened RandomSummary

  const MaxTarget: int := 20
  const DefaultTarget: int := 5

  /** `searchParams.get('lang') || request.headers.get('x-wiki-lang') || 'en'` */
  function ResolveLang(langParam: Option<string>, langHeader: Option<string>): (lang: string)
    ensures lang != ""
    ensures Truthy(langParam) ==> lang == langParam.value
    ensures !Truthy(langParam) && Truthy(langHeader) ==> lang == langHeader.value
    ensures !Truthy(langParam) && !Truthy(langHeader) ==> lang == "en"
  {
    OrElse(langParam, OrElse(langHeader, "en"))
  }

  /** `TARGET_COUNT`: the limit capped at 20, or 5 without a limit. */
  function TargetCount(limit: Option<int>): (target: int)
    ensures target <= MaxTarget
    ensures limit.None? ==> target == DefaultTarget
    ensures limit.Some? ==> target <= limit.value && (target == limit.value || target == MaxTarget)
  {
    if limit.None? then DefaultTarget
    else if limit.value < MaxTarget then limit.value else MaxTarget
  }

  /** `MAX_ATTEMPTS` */
  function MaxAttempts(target: int): int {
    target * 4
  }

  /** `Math.min(Math.max(remaining, 3), 5)` */
  function BatchSize(remaining: int): (size: nat)
    ensures 3 <= size <= 5
    ensures 3 <= remaining ==> size <= remaining
    ensures 5 <= remaining ==> size == 5
    ensures 1 <= remaining ==> size <= remaining + 2
  {
    if remaining < 3 then 3 else if remaining > 5 then 5 else remaining
  }

  /** The condition of the early `break` for small limits. */
  predicate EarlyExit(limit: Option<int>, valid: seq<WikiArticle>) {
    limit.Some? && limit.value <= 2 && |valid| >= 1
  }

  /**
   * The articles the `while` loop returns when it is entered with `valid` collected
   * after `attempts` calls.
   */
  function Acquire(lang: string, upstream: nat -> FetchOutcome, limit: Option<int>, target: int,
                   maxAttempts: int, valid: seq<WikiArticle>, attempts: nat): seq<WikiArticle>
    decreases maxAttempts - attempts, 1
  {
    if !(|valid| < target && attempts < maxAttempts) then valid
    else AcquireRound(lang, upstream, limit, target, maxAttempts, valid, attempts)
  }

  /** One pass of the loop's body, then the rest of the loop. */
  function AcquireRound(lang: string, upstream: nat -> FetchOutcome, limit: Option<int>, target: int,
                        maxAttempts: int, valid: seq<WikiArticle>, attempts: nat): seq<WikiArticle>
    requires |valid| < target && attempts < maxAttempts
    decreases maxAttempts - attempts, 0
  {
    var size := BatchSize(target - |valid|);
    var next := Absorb(valid, Round(lang, upstream, attempts, size));
    if EarlyExit(limit, next) then next
    else Acquire(lang, upstream, limit, target, maxAttempts, next, attempts + size)
  }

  /** One round of the loop: what `Acquire` does when the loop condition holds. */
  lemma AcquireStep(lang: string, upstream: nat -> FetchOutcome, limit: Option<int>, target: int,
                    maxAttempts: int, valid: seq<WikiArticle>, attempts: nat)
    requires |valid| < target && attempts < maxAttempts
    ensures var size := BatchSize(target - |valid|);
      var next := Absorb(valid, Round(lang, upstream, attempts, size));
      Acquire(lang, upstream, limit, target, maxAttempts, valid, attempts)
        == if EarlyExit(limit, next) then next else Acquire(lang, upstream, limit, target, maxAttempts, next, attempts + size)
  {
  }

  /** `GET /api/feed`, returning the JSON array of articles. */
  method Get(langParam: Option<string>, langHeader: Option<string>, limit: Option<int>,
             upstream: nat -> FetchOutcome) returns (validArticles: seq<WikiArticle>)
    ensures var target := TargetCount(limit);
      validArticles == Acquire(ResolveLang(langParam, langHeader), upstream, limit, target, MaxAttempts(target), [], 0)
  {
    var lang := ResolveLang(langParam, langHeader);
    var target := TargetCount(limit);
    var maxAttempts := target * 4;
    validArticles := [];
    var attempts: nat := 0;
    var seenTitles: set<string> := {};
    while |validArticles| < target && attempts < maxAttempts
      invariant seenTitles == TitleSet(validArticles)
      invariant Acquire(lang, upstream, limit, target, maxAttempts, validArticles, attempts)
        == Acquire(lang, upstream, limit, target, maxAttempts, [], 0)
      decreases maxAttempts - attempts
    {
      var remaining := target - |validArticles|;
      var batchSize := BatchSize(remaining);
      var results := Round(lang, upstream, attempts, batchSize);
      validArticles, seenTitles := AbsorbRound(validArticles, seenTitles, results);
      if limit.Some? && limit.value <= 2 && |validArticles| >= 1 {
        break;
      }
      attempts := attempts + batchSize;
    }
  }

  /** The inner `for ... of results` loop, adding to the list and the seen-title set in place. */
  method AbsorbRound(valid: seq<WikiArticle>, seen: set<string>, results: seq<Option<WikiArticle>>)
    returns (validArticles: seq<WikiArticle>, seenTitles: set<string>)
    requires seen == TitleSet(valid)
    ensures validArticles == Absorb(valid, results)
    ensures seenTitles == TitleSet(validArticles)
  {
    validArticles, seenTitles := valid, seen;
    for i := 0 to |results|
      invariant seenTitles == TitleSet(validArticles)
      invariant Absorb(validArticles, results[i..]) == Absorb(valid, results)
    {
      assert results[i..][1..] == results[i + 1..];
      var article := results[i];
      if article.Some? {
        if article.value.title !in seenTitles {
          TitleSetAppend(validArticles, article.value);
          seenTitles := seenTitles + {article.value.title};
          validArticles := validArticles + [article.value];
        }
      }
    }
    assert results[|results|..] == [];
  }

  // ---------------------------------------------------------------------------
  // Properties of the acquisition loop

  /** The loop only appends and keeps the titles distinct. */
  lemma {:induction false} AcquireGrows(lang: string, upstream: nat -> FetchOutcome, limit: Option<int>, target: int,
                                        maxAttempts: int, valid: seq<WikiArticle>, attempts: nat)
    ensures var r := Acquire(lang, upstream, limit, target, maxAttempts, valid, attempts);
      valid <= r && (DistinctTitles(valid) ==> DistinctTitles(r))
    decreases maxAttempts - attempts
  {
    if |valid| < target && attempts < maxAttempts {
      var size := BatchSize(target - |valid|);
      var results := Round(lang, upstream, attempts, size);
      var next := Absorb(valid, results);
      AbsorbGrows(valid, results);
      if DistinctTitles(valid) {
        AbsorbDistinct(valid, results);
      }
      if !EarlyExit(limit, next) {
        AcquireGrows(lang, upstream, limit, target, maxAttempts, next, attempts + size);
      }
    }
  }

  /**
   * Every article the loop adds was returned by a call dispatched at or after
   * `attempts`, so it passed the validation and carries the requested language.
   */
  lemma {:induction false} AcquireProvenance(lang: string, upstream: nat -> FetchOutcome, limit: Option<int>, target: int,
                                             maxAttempts: int, valid: seq<WikiArticle>, attempts: nat)
    ensures forall a :: a in Acquire(lang, upstream, limit, target, maxAttempts, valid, attempts) ==>
      a in valid || exists k: nat :: attempts <= k && FetchRandomArticle(lang, upstream(k)) == Some(a)
    decreases maxAttempts - attempts
  {
    if |valid| < target && attempts < maxAttempts {
      var size := BatchSize(target - |valid|);
      var results := Round(lang, upstream, attempts, size);
      var next := Absorb(valid, results);
      AbsorbProvenance(valid, results);
      if !EarlyExit(limit, next) {
        AcquireProvenance(lang, upstream, limit, target, maxAttempts, next, attempts + size);
      }
      forall a | a in next && a !in valid
        ensures exists k: nat :: attempts <= k && FetchRandomArticle(lang, upstream(k)) == Some(a)
      {
        var j :| 0 <= j < |results| && results[j] == Some(a);
        assert FetchRandomArticle(lang, upstream(attempts + j)) == Some(a);
      }
    }
  }

  /** The result never holds more than `target + 2` articles. */
  lemma {:induction false} AcquireBound(lang: string, upstream: nat -> FetchOutcome, limit: Option<int>, target: int,
                                        maxAttempts: int, valid: seq<WikiArticle>, attempts: nat)
    ensures |Acquire(lang, upstream, limit, target, maxAttempts, valid, attempts)| <= Max(|valid|, target + 2)
    decreases maxAttempts - attempts
  {
    if |valid| < target && attempts < maxAttempts {
      var size := BatchSize(target - |valid|);
      var next := Absorb(valid, Round(lang, upstream, attempts, size));
      AbsorbGrows(valid, Round(lang, upstream, attempts, size));
      if !EarlyExit(limit, next) {
        AcquireBound(lang, upstream, limit, target, maxAttempts, next, attempts + size);
      }
    }
  }

  function Max(x: int, y: int): int {
    if x < y then y else x
  }

  /**
   * The round of three calls starting at `s` is reached from the one starting at
   * `from` in steps of three, and every round before it returned nothing usable.
   */
  predicate FirstUsableRound(lang: string, upstream: nat -> FetchOutcome, from: nat, s: nat)
    decreases s - from
  {
    if s < from then false
    else if s == from then true
    else Absorb([], Round(lang, upstream, from, 3)) == [] && FirstUsableRound(lang, upstream, from + 3, s)
  }

  /**
   * With a limit of at most 2 the result is empty, or it is what the first round to
   * return a usable article returned, at most three articles.
   */
  lemma {:induction false} SmallLimitFirstRound(lang: string, upstream: nat -> FetchOutcome, limit: Option<int>, target: int,
                                                maxAttempts: int, attempts: nat)
    requires limit.Some? && limit.value <= 2 && target <= 2
    ensures var r := Acquire(lang, upstream, limit, target, maxAttempts, [], attempts);
      || r == []
      || (&& |r| <= 3
          && exists s: nat :: s < maxAttempts && FirstUsableRound(lang, upstream, attempts, s)
                              && r == Absorb([], Round(lang, upstream, s, 3)))
    decreases maxAttempts - attempts
  {
    if 0 < target && attempts < maxAttempts {
      var next := Absorb([], Round(lang, upstream, attempts, 3));
      var r := Acquire(lang, upstream, limit, target, maxAttempts, [], attempts);
      assert r == if next != [] then next else Acquire(lang, upstream, limit, target, maxAttempts, [], attempts + 3) by {
        assert BatchSize(target - 0) == 3;
        AcquireStep(lang, upstream, limit, target, maxAttempts, [], attempts);
      }
      if next == [] {
        SmallLimitFirstRound(lang, upstream, limit, target, maxAttempts, attempts + 3);
        if r != [] {
          var s: nat :| s < maxAttempts && FirstUsableRound(lang, upstream, attempts + 3, s)
                        && r == Absorb([], Round(lang, upstream, s, 3));
          assert FirstUsableRound(lang, upstream, attempts, s);
        }
      } else {
        AbsorbGrows([], Round(lang, upstream, attempts, 3));
        assert FirstUsableRound(lang, upstream, attempts, attempts);
      }
    }
  }

  /** The loop reads the outcomes of calls `attempts` to `maxAttempts + 3` and no others. */
  lemma {:induction false} AcquireFrame(lang: string, u1: nat -> FetchOutcome, u2: nat -> FetchOutcome, limit: Option<int>,
                                        target: int, maxAttempts: int, valid: seq<WikiArticle>, attempts: nat)
    requires forall k: nat :: attempts <= k < maxAttempts + 4 ==> u1(k) == u2(k)
    ensures Acquire(lang, u1, limit, target, maxAttempts, valid, attempts)
         == Acquire(lang, u2, limit, target, maxAttempts, valid, attempts)
    decreases maxAttempts - attempts
  {
    if |valid| < target && attempts < maxAttempts {
      var size := BatchSize(target - |valid|);
      RoundFrame(lang, u1, u2, attempts, size);
      var next := Absorb(valid, Round(lang, u1, attempts, size));
      if !EarlyExit(limit, next) {
        AcquireFrame(lang, u1, u2, limit, target, maxAttempts, next, attempts + size);
      }
    }
  }

  // ---------------------------------------------------------------------------
  // Properties of GET

  /**
   * The response holds distinct titles, at most `target + 2` of them (at most 22),
   * each returned by some call and tagged with the resolved language.
   */
  lemma GetProperties(langParam: Option<string>, langHeader: Option<string>, limit: Option<int>, upstream: nat -> FetchOutcome)
    ensures var lang := ResolveLang(langParam, langHeader);
      var target := TargetCount(limit);
      var r := Acquire(lang, upstream, limit, target, MaxAttempts(target), [], 0);
      && DistinctTitles(r)
      && |r| <= Max(0, target + 2) <= MaxTarget + 2
      && (forall a :: a in r ==> a.lang == Some(lang) && exists k: nat :: FetchRandomArticle(lang, upstream(k)) == Some(a))
  {
    var lang := ResolveLang(langParam, langHeader);
    var target := TargetCount(limit);
    var r := Acquire(lang, upstream, limit, target, MaxAttempts(target), [], 0);
    AcquireGrows(lang, upstream, limit, target, MaxAttempts(target), [], 0);
    AcquireProvenance(lang, upstream, limit, target, MaxAttempts(target), [], 0);
    AcquireBound(lang, upstream, limit, target, MaxAttempts(target), [], 0);
  }

  /** A summary endpoint that always returns a distinct, acceptable English page. */
  function Generous(k: nat): FetchOutcome {
    Ok(Payload(Some("standard"), NatToString(k), Some(seq(200, _ => 'x')), Some(Image("", 0, 0)), ContentUrls("", "")))
  }

  /** The article the generous endpoint's call `k` yields. */
  function GenerousArticle(k: nat): WikiArticle {
    WikiArticle(NatToString(k), seq(200, _ => 'x'), Some(Image("", 0, 0)), ContentUrls("", ""), Some("en"))
  }

  lemma GenerousRound()
    ensures Round("en", Generous, 0, 3) == [Some(GenerousArticle(0)), Some(GenerousArticle(1)), Some(GenerousArticle(2))]
  {
    var results := Round("en", Generous, 0, 3);
    assert results[0] == Some(GenerousArticle(0));
    assert results[1] == Some(GenerousArticle(1));
    assert results[2] == Some(GenerousArticle(2));
  }

  /** A round of three articles with distinct titles keeps all three. */
  lemma AbsorbThree(a0: WikiArticle, a1: WikiArticle, a2: WikiArticle)
    requires a0.title != a1.title && a0.title != a2.title && a1.title != a2.title
    ensures Absorb([], [Some(a0), Some(a1), Some(a2)]) == [a0, a1, a2]
  {
    var results := [Some(a0), Some(a1), Some(a2)];
    assert results[1..] == [Some(a1), Some(a2)] && results[1..][1..] == [Some(a2)];
    var v1 := Admit([], results[0]);
    assert v1 == [a0];
    assert TitleSet(v1) == {a0.title};
    var v2 := Admit(v1, results[1]);
    assert v2 == [a0, a1];
    assert TitleSet(v2) == {a0.title, a1.title} by { TitleSetAppend(v1, a1); }
    var v3 := Admit(v2, results[2]);
    assert v3 == [a0, a1, a2];
    assert Absorb([], results) == Absorb(v1, results[1..]) == Absorb(v2, results[1..][1..]) == Absorb(v3, []);
  }

  /** Three calls to the generous endpoint yield three articles with distinct titles, all kept. */
  lemma GenerousFirstRound()
    ensures |Absorb([], Round("en", Generous, 0, 3))| == 3
  {
    GenerousRound();
    assert NatToString(0) == "0" && NatToString(1) == "1" && NatToString(2) == "2";
    AbsorbThree(GenerousArticle(0), GenerousArticle(1), GenerousArticle(2));
  }

  /**
   * The bound `target + 2` is reached: with `limit=1` the first round still
   * dispatches three calls and keeps all three articles.
   */
  lemma OvershootReachable()
    ensures |Acquire("en", Generous, Some(1), TargetCount(Some(1)), MaxAttempts(TargetCount(Some(1))), [], 0)|
         == TargetCount(Some(1)) + 2
  {
    assert BatchSize(TargetCount(Some(1)) - 0) == 3;
    AcquireStep("en", Generous, Some(1), TargetCount(Some(1)), MaxAttempts(TargetCount(Some(1))), [], 0);
    GenerousFirstRound();
  }
}

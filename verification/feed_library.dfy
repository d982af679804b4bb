/**
 * `getFeedArticles` of src/lib/api/feed.ts: up to three rounds of twenty concurrent
 * random-summary calls, keeping distinct titles until the target is met, stopping
 * early once a round leaves enough to show, and slicing the list to the target.
 *
 * As in the route, the upstream maps the dispatch number of a call to its outcome;
 * round `i` dispatches calls `20 * i` to `20 * i + 19`, all of them even when the
 * loop over its results breaks early.
 */
module FeedLibrary {
  import opened Wrappers
  import opened Articles
  import opened RandomSummary

  const BatchSize: nat := 20
  const MaxParallelBatches: nat := 3
  const MaxTarget: int := 32
  const DefaultCount: int := 12
  const DefaultLang: string := "en"

  /** `Math.min(count, 32)` */
  function TargetCount(count: int): (target: int)
    ensures target <= count && target <= MaxTarget
    ensures target == count || target == MaxTarget
  {
    if count < MaxTarget then count else MaxTarget
  }

  /** The early-exit threshold `count > 8 ? 8 : 4`. */
  function Threshold(count: int): (n: int)
    ensures n == 4 || n == 8
    ensures n == 8 <==> count > 8
  {
    if count > 8 then 8 else 4
  }

  /** `list.slice(0, end)` with JavaScript's treatment of a negative end. */
  function SliceTo<T>(list: seq<T>, end: int): (r: seq<T>)
    ensures r <= list
    ensures 0 <= end ==> |r| == if end < |list| then end else |list|
    ensures end < 0 ==> |r| == if |list| + end < 0 then 0 else |list| + end
  {
    if 0 <= end then (if end < |list| then list[..end] else list)
    else if |list| + end < 0 then [] else list[..|list| + end]
  }

  /**
   * The inner `for ... of results` loop: each result goes through `Admit`, and the
   * loop breaks as soon as the target is met.
   */
  function AbsorbUntil(valid: seq<WikiArticle>, results: seq<Option<WikiArticle>>, target: int): seq<WikiArticle>
    decreases |results|
  {
    if results == [] then valid
    else
      var next := Admit(valid, results[0]);
      if |next| >= target then next else AbsorbUntil(next, results[1..], target)
  }

  /** The outer loop entered at round `i` with `valid` collected. */
  function Rounds(lang: string, upstream: nat -> FetchOutcome, count: int, target: int,
                  valid: seq<WikiArticle>, i: nat): seq<WikiArticle>
    decreases MaxParallelBatches - i, 1
  {
    if !(i < MaxParallelBatches && |valid| < target) then valid
    else RoundsBody(lang, upstream, count, target, valid, i)
  }

  /** One pass of the outer loop's body, then the rest of the loop. */
  function RoundsBody(lang: string, upstream: nat -> FetchOutcome, count: int, target: int,
                      valid: seq<WikiArticle>, i: nat): seq<WikiArticle>
    requires i < MaxParallelBatches && |valid| < target
    decreases MaxParallelBatches - i, 0
  {
    var next := AbsorbUntil(valid, Round(lang, upstream, BatchSize * i, BatchSize), target);
    if |next| >= Threshold(count) then next
    else Rounds(lang, upstream, count, target, next, i + 1)
  }

  /** The defaults of the two optional parameters. */
  function Defaults(lang: Option<string>, count: Option<int>): (r: (string, int))
    ensures lang.None? ==> r.0 == DefaultLang
    ensures lang.Some? ==> r.0 == lang.value
    ensures count.None? ==> r.1 == DefaultCount
    ensures count.Some? ==> r.1 == count.value
  {
    (lang.GetOr(DefaultLang), count.GetOr(DefaultCount))
  }

  /** `getFeedArticles(lang, count)` */
  method GetFeedArticles(langArg: Option<string>, countArg: Option<int>, upstream: nat -> FetchOutcome)
    returns (articles: seq<WikiArticle>)
    ensures var (lang, count) := Defaults(langArg, countArg);
      var target := TargetCount(count);
      articles == SliceTo(Rounds(lang, upstream, count, target, [], 0), target)
  {
    var (lang, count) := Defaults(langArg, countArg);
    var target := TargetCount(count);
    var validArticles: seq<WikiArticle> := [];
    var seenTitles: set<string> := {};
    var i: nat := 0;
    while i < MaxParallelBatches && |validArticles| < target
      invariant i <= MaxParallelBatches
      invariant seenTitles == TitleSet(validArticles)
      invariant Rounds(lang, upstream, count, target, validArticles, i) == Rounds(lang, upstream, count, target, [], 0)
      decreases MaxParallelBatches - i
    {
      var results := Round(lang, upstream, BatchSize * i, BatchSize);
      validArticles, seenTitles := AbsorbRoundUntil(validArticles, seenTitles, results, target);
      if |validArticles| >= Threshold(count) {
        break;
      }
      i := i + 1;
    }
    articles := SliceTo(validArticles, target);
  }

  /**
   * The inner `for ... of results` loop, adding to the list and the seen-title set in
   * place and breaking once the target is met.
   */
  method AbsorbRoundUntil(valid: seq<WikiArticle>, seen: set<string>, results: seq<Option<WikiArticle>>, target: int)
    returns (validArticles: seq<WikiArticle>, seenTitles: set<string>)
    requires seen == TitleSet(valid) && |valid| < target
    ensures validArticles == AbsorbUntil(valid, results, target)
    ensures seenTitles == TitleSet(validArticles)
  {
    validArticles, seenTitles := valid, seen;
    var j := 0;
    while j < |results|
      invariant 0 <= j <= |results|
      invariant seenTitles == TitleSet(validArticles)
      invariant |validArticles| < target
      invariant AbsorbUntil(validArticles, results[j..], target) == AbsorbUntil(valid, results, target)
      decreases |results| - j
    {
      assert results[j..][1..] == results[j + 1..];
      var article := results[j];
      if article.Some? && article.value.title !in seenTitles {
        TitleSetAppend(validArticles, article.value);
        seenTitles := seenTitles + {article.value.title};
        validArticles := validArticles + [article.value];
      }
      if |validArticles| >= target {
        return;
      }
      j := j + 1;
    }
    assert results[j..] == [];
  }

  // ---------------------------------------------------------------------------
  // Properties

  /** A round only appends and never passes the target. */
  lemma {:induction false} AbsorbUntilGrows(valid: seq<WikiArticle>, results: seq<Option<WikiArticle>>, target: int)
    requires |valid| < target
    ensures var r := AbsorbUntil(valid, results, target);
      valid <= r && |r| <= target
    decreases |results|
  {
    if results != [] {
      var next := Admit(valid, results[0]);
      if |next| < target {
        AbsorbUntilGrows(next, results[1..], target);
      }
    }
  }

  /** A round keeps titles distinct. */
  lemma {:induction false} AbsorbUntilDistinct(valid: seq<WikiArticle>, results: seq<Option<WikiArticle>>, target: int)
    requires DistinctTitles(valid)
    ensures DistinctTitles(AbsorbUntil(valid, results, target))
    decreases |results|
  {
    if results != [] {
      var next := Admit(valid, results[0]);
      AdmitDistinct(valid, results[0]);
      if |next| < target {
        AbsorbUntilDistinct(next, results[1..], target);
      }
    }
  }

  /** Every article a round adds was returned by one of its calls. */
  lemma {:induction false} AbsorbUntilProvenance(valid: seq<WikiArticle>, results: seq<Option<WikiArticle>>, target: int)
    ensures forall a :: a in AbsorbUntil(valid, results, target) ==> a in valid || Some(a) in results
    decreases |results|
  {
    if results != [] {
      var next := Admit(valid, results[0]);
      assert forall a :: a in next ==> a in valid || Some(a) == results[0];
      if |next| < target {
        AbsorbUntilProvenance(next, results[1..], target);
        assert forall o :: o in results[1..] ==> o in results;
      }
    }
  }

  /**
   * A round keeps results in dispatch order: it yields what de-duplicating the whole
   * round would, cut off at the target.
   */
  lemma {:induction false} AbsorbUntilIsPrefix(valid: seq<WikiArticle>, results: seq<Option<WikiArticle>>, target: int)
    requires |valid| < target
    ensures var all := Absorb(valid, results);
      var r := AbsorbUntil(valid, results, target);
      r <= all && |r| == (if |all| < target then |all| else target)
    decreases |results|
  {
    if results != [] {
      var next := Admit(valid, results[0]);
      AbsorbGrows(next, results[1..]);
      if |next| < target {
        AbsorbUntilIsPrefix(next, results[1..], target);
      }
    }
  }

  /**
   * While the target is not met, a result in dispatch order whose title is new and not
   * returned earlier in the round is kept.
   */
  lemma AbsorbUntilKeeps(valid: seq<WikiArticle>, results: seq<Option<WikiArticle>>, target: int, k: nat)
    requires |valid| < target
    requires k < |results| && results[k].Some?
    requires results[k].value.title !in TitleSet(valid)
    requires forall j :: 0 <= j < k && results[j].Some? ==> results[j].value.title != results[k].value.title
    requires |Absorb(valid, results[..k])| < target
    ensures results[k].value in AbsorbUntil(valid, results, target)
  {
    var upTo := results[..k + 1];
    var before := Absorb(valid, upTo);
    assert upTo[k] == results[k];
    FirstOccurrenceWins(valid, upTo, k);
    assert upTo == results[..k] + [results[k]];
    AbsorbAppend(valid, results[..k], [results[k]]);
    assert |before| <= |Absorb(valid, results[..k])| + 1 by {
      AbsorbGrows(Absorb(valid, results[..k]), [results[k]]);
    }
    assert results == upTo + results[k + 1..];
    AbsorbAppend(valid, upTo, results[k + 1..]);
    AbsorbGrows(before, results[k + 1..]);
    AbsorbUntilIsPrefix(valid, results, target);
    var r := AbsorbUntil(valid, results, target);
    assert before <= r;
  }

  /** The loop only appends and never passes the target. */
  lemma {:induction false} RoundsGrow(lang: string, upstream: nat -> FetchOutcome, count: int, target: int,
                                      valid: seq<WikiArticle>, i: nat)
    ensures var r := Rounds(lang, upstream, count, target, valid, i);
      valid <= r && (|valid| <= target ==> |r| <= target)
    decreases MaxParallelBatches - i
  {
    if i < MaxParallelBatches && |valid| < target {
      var results := Round(lang, upstream, BatchSize * i, BatchSize);
      var next := AbsorbUntil(valid, results, target);
      AbsorbUntilGrows(valid, results, target);
      if |next| < Threshold(count) {
        RoundsGrow(lang, upstream, count, target, next, i + 1);
      }
    }
  }

  /** The loop keeps titles distinct. */
  lemma {:induction false} RoundsDistinct(lang: string, upstream: nat -> FetchOutcome, count: int, target: int,
                                          valid: seq<WikiArticle>, i: nat)
    requires DistinctTitles(valid)
    ensures DistinctTitles(Rounds(lang, upstream, count, target, valid, i))
    decreases MaxParallelBatches - i
  {
    if i < MaxParallelBatches && |valid| < target {
      var results := Round(lang, upstream, BatchSize * i, BatchSize);
      var next := AbsorbUntil(valid, results, target);
      AbsorbUntilDistinct(valid, results, target);
      if |next| < Threshold(count) {
        RoundsDistinct(lang, upstream, count, target, next, i + 1);
      }
    }
  }

  /** The calls of round `i` and of every later round, in dispatch order. */
  function Remaining(lang: string, upstream: nat -> FetchOutcome, i: nat): (results: seq<Option<WikiArticle>>)
    requires i <= MaxParallelBatches
    ensures |results| == BatchSize * (MaxParallelBatches - i)
  {
    Round(lang, upstream, BatchSize * i, BatchSize * (MaxParallelBatches - i))
  }

  /** The remaining calls are this round's calls followed by the later rounds' calls. */
  lemma RemainingSplit(lang: string, upstream: nat -> FetchOutcome, i: nat)
    requires i < MaxParallelBatches
    ensures Remaining(lang, upstream, i) == Round(lang, upstream, BatchSize * i, BatchSize) + Remaining(lang, upstream, i + 1)
  {
    RoundSplit(lang, upstream, BatchSize * i, BatchSize, BatchSize * (MaxParallelBatches - (i + 1)));
  }

  /**
   * A round cut off at the target is a prefix of de-duplicating it and any later
   * calls, and is all of the round when the cut-off is not reached.
   */
  lemma AbsorbUntilBeforeLater(valid: seq<WikiArticle>, results: seq<Option<WikiArticle>>,
                               later: seq<Option<WikiArticle>>, target: int)
    requires |valid| < target
    ensures var next := AbsorbUntil(valid, results, target);
      && next <= Absorb(valid, results + later)
      && (|next| < target ==> next == Absorb(valid, results))
  {
    var all := Absorb(valid, results);
    AbsorbAppend(valid, results, later);
    AbsorbGrows(all, later);
    AbsorbUntilIsPrefix(valid, results, target);
  }

  /**
   * The loop keeps dispatch order across rounds: what it returns is a prefix of
   * de-duplicating, in order, every call from the current round to the last one.
   */
  lemma {:induction false} RoundsPrefix(lang: string, upstream: nat -> FetchOutcome, count: int, target: int,
                                        valid: seq<WikiArticle>, i: nat)
    requires i <= MaxParallelBatches
    ensures Rounds(lang, upstream, count, target, valid, i) <= Absorb(valid, Remaining(lang, upstream, i))
    decreases MaxParallelBatches - i
  {
    var rest := Remaining(lang, upstream, i);
    if i < MaxParallelBatches && |valid| < target {
      var results := Round(lang, upstream, BatchSize * i, BatchSize);
      var later := Remaining(lang, upstream, i + 1);
      var next := AbsorbUntil(valid, results, target);
      RemainingSplit(lang, upstream, i);
      assert rest == results + later;
      AbsorbUntilBeforeLater(valid, results, later, target);
      var r := Rounds(lang, upstream, count, target, valid, i);
      assert r == RoundsBody(lang, upstream, count, target, valid, i);
      if |next| < Threshold(count) && |next| < target {
        assert r == Rounds(lang, upstream, count, target, next, i + 1);
        RoundsPrefix(lang, upstream, count, target, next, i + 1);
        AbsorbAppend(valid, results, later);
        assert Absorb(next, later) == Absorb(valid, rest);
      } else {
        assert r == next;
      }
    } else {
      AbsorbGrows(valid, rest);
    }
  }

  /**
   * Every article the loop adds was returned by a call of a round it ran, so by one
   * of the first 60 calls.
   */
  lemma {:induction false} RoundsProvenance(lang: string, upstream: nat -> FetchOutcome, count: int, target: int,
                                            valid: seq<WikiArticle>, i: nat)
    ensures forall a :: a in Rounds(lang, upstream, count, target, valid, i) ==>
      || a in valid
      || exists k: nat :: BatchSize * i <= k < BatchSize * MaxParallelBatches && FetchRandomArticle(lang, upstream(k)) == Some(a)
    decreases MaxParallelBatches - i
  {
    if i < MaxParallelBatches && |valid| < target {
      var results := Round(lang, upstream, BatchSize * i, BatchSize);
      var next := AbsorbUntil(valid, results, target);
      AbsorbUntilProvenance(valid, results, target);
      if |next| < Threshold(count) {
        RoundsProvenance(lang, upstream, count, target, next, i + 1);
      }
      forall a | a in next && a !in valid
        ensures exists k: nat :: BatchSize * i <= k < BatchSize * MaxParallelBatches && FetchRandomArticle(lang, upstream(k)) == Some(a)
      {
        var j :| 0 <= j < |results| && results[j] == Some(a);
        assert FetchRandomArticle(lang, upstream(BatchSize * i + j)) == Some(a);
      }
    }
  }

  /**
   * The result has distinct titles, never more than the target, each one returned by
   * one of the first 60 calls and tagged with the language, in the order the calls
   * were dispatched: it is a prefix of de-duplicating calls 0 to 59 in order. The final
   * slice cuts nothing.
   */
  lemma GetFeedArticlesProperties(langArg: Option<string>, countArg: Option<int>, upstream: nat -> FetchOutcome)
    ensures var (lang, count) := Defaults(langArg, countArg);
      var target := TargetCount(count);
      var r := Rounds(lang, upstream, count, target, [], 0);
      && SliceTo(r, target) == r
      && DistinctTitles(r)
      && |r| <= (if target < 0 then 0 else target) <= MaxTarget
      && r <= Absorb([], Round(lang, upstream, 0, BatchSize * MaxParallelBatches))
      && (forall a :: a in r ==>
            && a.lang == Some(lang)
            && exists k: nat :: k < BatchSize * MaxParallelBatches && FetchRandomArticle(lang, upstream(k)) == Some(a))
  {
    var (lang, count) := Defaults(langArg, countArg);
    var target := TargetCount(count);
    var r := Rounds(lang, upstream, count, target, [], 0);
    RoundsGrow(lang, upstream, count, target, [], 0);
    RoundsDistinct(lang, upstream, count, target, [], 0);
    RoundsProvenance(lang, upstream, count, target, [], 0);
    RoundsPrefix(lang, upstream, count, target, [], 0);
    if target < 0 {
      assert r == [];
    }
  }

  /** The loop reads the outcomes of calls 0 to 59 and no others. */
  lemma {:induction false} RoundsFrame(lang: string, u1: nat -> FetchOutcome, u2: nat -> FetchOutcome, count: int,
                                       target: int, valid: seq<WikiArticle>, i: nat)
    requires forall k: nat :: k < BatchSize * MaxParallelBatches ==> u1(k) == u2(k)
    ensures Rounds(lang, u1, count, target, valid, i) == Rounds(lang, u2, count, target, valid, i)
    decreases MaxParallelBatches - i
  {
    if i < MaxParallelBatches && |valid| < target {
      RoundFrame(lang, u1, u2, BatchSize * i, BatchSize);
      var next := AbsorbUntil(valid, Round(lang, u1, BatchSize * i, BatchSize), target);
      if |next| < Threshold(count) {
        RoundsFrame(lang, u1, u2, count, target, next, i + 1);
      }
    }
  }

  /**
   * Once the first round leaves at least `Threshold(count)` articles, or reaches the
   * target, no further round runs.
   */
  lemma FirstRoundSuffices(lang: string, upstream: nat -> FetchOutcome, count: int, target: int)
    requires 0 < target
    ensures var first := AbsorbUntil([], Round(lang, upstream, 0, BatchSize), target);
      |first| >= Threshold(count) || |first| >= target ==> Rounds(lang, upstream, count, target, [], 0) == first
  {
    var first := AbsorbUntil([], Round(lang, upstream, 0, BatchSize), target);
    if |first| >= target && |first| < Threshold(count) {
      assert Rounds(lang, upstream, count, target, first, 1) == first;
    }
  }
}

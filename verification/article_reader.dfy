/**
 * The HTML fix-up and content state of the article reader
 * (src/components/feed/ArticleReader.tsx): the page HTML fetched for a title has its
 * relative image sources and links, and its protocol-relative image sources, made
 * absolute by three global replacements before it is shown.
 */
module ArticleReader {
  import opened Wrappers
  import opened JsStrings

  const SrcDot: string := "src=\"./"
  const HrefDot: string := "href=\"./"
  const SrcSlashes: string := "src=\"//"
  const SrcHttps: string := "src=\"https://"

  /** `src="https://<lang>.wikipedia.org/wiki/` */
  function SrcWiki(lang: string): string {
    SrcHttps + lang + ".wikipedia.org/wiki/"
  }

  /** `href="https://<lang>.wikipedia.org/wiki/` */
  function HrefWiki(lang: string): string {
    "href=\"https://" + lang + ".wikipedia.org/wiki/"
  }

  /** The three replacements, in order. */
  function FixHtml(html: string, lang: string): string {
    var step1 := ReplaceAll(html, SrcDot, SrcWiki(lang));
    var step2 := ReplaceAll(step1, HrefDot, HrefWiki(lang));
    ReplaceAll(step2, SrcSlashes, SrcHttps)
  }

  // ---------------------------------------------------------------------------
  // Facts about the patterns and their replacements

  /** A string whose only `"` is at `m` holds no `q` unless `q` sits where its `"` meets that one. */
  lemma QuoteAnchor(r: string, q: string, c: nat, m: nat)
    requires c < |q| && q[c] == '"' && m < |r|
    requires forall x :: 0 <= x < |r| && x != m ==> r[x] != '"'
    requires c > m || !(q <= r[m - c..])
    ensures !Contains(r, q)
  {
    AnchoredOccurrence(r, q, c, m);
  }

  /** In `a + lang + b`, the only `"` is the one at position `m` of `a`. */
  lemma SingleQuote(a: string, lang: string, b: string, m: nat)
    requires m < |a| && a[m] == '"'
    requires forall x :: 0 <= x < |a| && x != m ==> a[x] != '"'
    requires '"' !in lang && '"' !in b
    ensures forall x :: 0 <= x < |a + lang + b| && x != m ==> (a + lang + b)[x] != '"'
  {
    var r := a + lang + b;
    forall x | 0 <= x < |r| && x != m ensures r[x] != '"' {
      if x >= |a| + |lang| {
        assert r[x] == b[x - |a| - |lang|];
        assert b[x - |a| - |lang|] in b;
      } else if x >= |a| {
        assert r[x] == lang[x - |a|];
        assert lang[x - |a|] in lang;
      }
    }
  }

  /** A replacement that ends in `/` cannot be completed into a pattern that has no earlier `/`. */
  lemma EndsInSlash(r: string, q: string)
    requires r != [] && r[|r| - 1] == '/'
    requires forall k :: 0 <= k < |q| - 1 ==> q[k] != '/'
    ensures NoStraddle(r, q)
  {
    forall k | 1 <= k < |q| && k <= |r| ensures r[|r| - k..] != q[..k] {
      assert r[|r| - k..][k - 1] == r[|r| - 1];
      assert q[..k][k - 1] == q[k - 1];
    }
  }

  lemma SrcWikiShape(lang: string)
    requires '"' !in lang
    ensures var r := SrcWiki(lang);
      r != [] && r[0] == 's' && r[|r| - 1] == '/' && r[4] == '"' && r[5] == 'h'
      && forall x :: 0 <= x < |r| && x != 4 ==> r[x] != '"'
  {
    var b := ".wikipedia.org/wiki/";
    assert '"' !in b;
    SingleQuote(SrcHttps, lang, b, 4);
  }

  lemma HrefWikiShape(lang: string)
    requires '"' !in lang
    ensures var r := HrefWiki(lang);
      r != [] && r[0] == 'h' && r[|r| - 1] == '/' && r[5] == '"' && r[1] == 'r' && r[6] == 'h'
      && forall x :: 0 <= x < |r| && x != 5 ==> r[x] != '"'
  {
    var b := ".wikipedia.org/wiki/";
    assert '"' !in b;
    SingleQuote("href=\"https://", lang, b, 5);
  }

  lemma SrcHttpsShape(r: string)
    requires r == SrcHttps
    ensures r[0] == 's' && r[|r| - 1] == '/' && r[4] == '"' && r[5] == 'h'
      && (forall x :: 0 <= x < |r| && x != 4 ==> r[x] != '"')
      && r[|r| - 6..] != SrcSlashes[..6]
  {
    assert |r| == 13;
    assert r == "src=\"" + "https://";
    SingleQuote("src=\"", "https://", "", 4);
    assert "src=\"" + "https://" + "" == r;
    assert r[|r| - 6..][0] == 't' != SrcSlashes[..6][0];
  }

  /** The image-source replacement holds no `src="./` and cannot be completed into one. */
  lemma SrcWikiAvoids(lang: string)
    requires '"' !in lang
    ensures !Contains(SrcWiki(lang), SrcDot) && NoStraddle(SrcWiki(lang), SrcDot)
  {
    SrcWikiShape(lang);
    QuoteAnchor(SrcWiki(lang), SrcDot, 4, 4);
    EndsInSlash(SrcWiki(lang), SrcDot);
  }

  /** The link replacement holds neither `src="./` nor `href="./` and cannot be completed into either. */
  lemma HrefWikiAvoids(lang: string)
    requires '"' !in lang
    ensures !Contains(HrefWiki(lang), SrcDot) && NoStraddle(HrefWiki(lang), SrcDot)
    ensures !Contains(HrefWiki(lang), HrefDot) && NoStraddle(HrefWiki(lang), HrefDot)
  {
    HrefWikiShape(lang);
    QuoteAnchor(HrefWiki(lang), SrcDot, 4, 5);
    EndsInSlash(HrefWiki(lang), SrcDot);
    QuoteAnchor(HrefWiki(lang), HrefDot, 5, 5);
    EndsInSlash(HrefWiki(lang), HrefDot);
  }

  /** `src="https://` holds neither relative pattern and cannot be completed into either. */
  lemma SrcHttpsAvoidsRelative()
    ensures !Contains(SrcHttps, SrcDot) && NoStraddle(SrcHttps, SrcDot)
    ensures !Contains(SrcHttps, HrefDot) && NoStraddle(SrcHttps, HrefDot)
  {
    SrcHttpsShape(SrcHttps);
    QuoteAnchor(SrcHttps, SrcDot, 4, 4);
    EndsInSlash(SrcHttps, SrcDot);
    QuoteAnchor(SrcHttps, HrefDot, 5, 4);
    EndsInSlash(SrcHttps, HrefDot);
  }

  /** `src="https://` holds no `src="//` and cannot be completed into one. */
  lemma SrcHttpsAvoidsSlashes()
    ensures !Contains(SrcHttps, SrcSlashes) && NoStraddle(SrcHttps, SrcSlashes)
  {
    SrcHttpsShape(SrcHttps);
    QuoteAnchor(SrcHttps, SrcSlashes, 4, 4);
    var r := SrcHttps;
    forall k | 1 <= k < |SrcSlashes| && k <= |r| ensures r[|r| - k..] != SrcSlashes[..k] {
      if k < 6 {
        assert r[|r| - k..][k - 1] == '/';
      }
    }
  }

  // ---------------------------------------------------------------------------
  // Properties of the fix-up

  /**
   * For a language code without `"`, the fixed HTML holds no relative `src="./`,
   * no relative `href="./` and no protocol-relative `src="//`.
   */
  lemma FixedHtmlHasNoRelativeLinks(html: string, lang: string)
    requires '"' !in lang
    ensures var fixed := FixHtml(html, lang);
      !Contains(fixed, SrcDot) && !Contains(fixed, HrefDot) && !Contains(fixed, SrcSlashes)
  {
    SrcWikiAvoids(lang);
    HrefWikiAvoids(lang);
    SrcHttpsAvoidsRelative();
    SrcHttpsAvoidsSlashes();
    var step1 := ReplaceAll(html, SrcDot, SrcWiki(lang));
    var step2 := ReplaceAll(step1, HrefDot, HrefWiki(lang));
    ReplaceAllAvoids(html, SrcDot, SrcWiki(lang), SrcDot);
    ReplaceAllAvoids(step1, HrefDot, HrefWiki(lang), SrcDot);
    ReplaceAllAvoids(step1, HrefDot, HrefWiki(lang), HrefDot);
    ReplaceAllAvoids(step2, SrcSlashes, SrcHttps, SrcDot);
    ReplaceAllAvoids(step2, SrcSlashes, SrcHttps, HrefDot);
    ReplaceAllAvoids(step2, SrcSlashes, SrcHttps, SrcSlashes);
  }

  /** HTML holding none of the three patterns is left as it is. */
  lemma FixedHtmlUnchanged(html: string, lang: string)
    requires !Contains(html, SrcDot) && !Contains(html, HrefDot) && !Contains(html, SrcSlashes)
    ensures FixHtml(html, lang) == html
  {
    ReplaceAllAbsent(html, SrcDot, SrcWiki(lang));
    ReplaceAllAbsent(html, HrefDot, HrefWiki(lang));
    ReplaceAllAbsent(html, SrcSlashes, SrcHttps);
  }

  /** A relative image source at the start becomes an absolute one on the article's edition. */
  lemma LeadingRelativeSource(rest: string, lang: string)
    ensures ReplaceAll(SrcDot + rest, SrcDot, SrcWiki(lang)) == SrcWiki(lang) + ReplaceAll(rest, SrcDot, SrcWiki(lang))
  {
    assert (SrcDot + rest)[|SrcDot|..] == rest;
  }

  /**
   * The first step: the first relative image source in the page becomes an absolute
   * one on the article's edition, and the step goes on after it.
   */
  lemma RelativeSourceReplaced(html: string, lang: string, i: nat)
    requires FirstAt(html, SrcDot, i)
    ensures ReplaceAll(html, SrcDot, SrcWiki(lang)) ==
            html[..i] + SrcWiki(lang) + ReplaceAll(html[i + |SrcDot|..], SrcDot, SrcWiki(lang))
  {
    ReplaceAllFirst(html, SrcDot, SrcWiki(lang), i);
  }

  /**
   * The second step: the first relative link becomes an absolute one on the article's
   * edition, and the step goes on after it.
   */
  lemma RelativeLinkReplaced(html: string, lang: string, i: nat)
    requires FirstAt(html, HrefDot, i)
    ensures ReplaceAll(html, HrefDot, HrefWiki(lang)) ==
            html[..i] + HrefWiki(lang) + ReplaceAll(html[i + |HrefDot|..], HrefDot, HrefWiki(lang))
  {
    ReplaceAllFirst(html, HrefDot, HrefWiki(lang), i);
  }

  /**
   * The third step: the first protocol-relative image source gets `https:`, and the
   * step goes on after it.
   */
  lemma ProtocolRelativeSourceReplaced(html: string, i: nat)
    requires FirstAt(html, SrcSlashes, i)
    ensures ReplaceAll(html, SrcSlashes, SrcHttps) ==
            html[..i] + SrcHttps + ReplaceAll(html[i + |SrcSlashes|..], SrcSlashes, SrcHttps)
  {
    ReplaceAllFirst(html, SrcSlashes, SrcHttps, i);
  }

  // ---------------------------------------------------------------------------
  // The reader's content state

  class Reader {
    /** `htmlContent`: the HTML shown, `None` for none. */
    var htmlContent: Option<string>
    var loading: bool

    constructor()
      ensures htmlContent == None && !loading
    {
      htmlContent := None;
      loading := false;
    }

    /**
     * The effect on `[isOpen, title, lang]`, run to completion with the HTML the
     * service returned: a non-empty answer is fixed up and shown, an empty or missing
     * one leaves the content as it was, and a closed reader or empty title clears it.
     */
    method OnChange(isOpen: bool, title: string, lang: string, html: Option<string>)
      modifies this
      ensures isOpen && title != [] && Truthy(html) ==> htmlContent == Some(FixHtml(html.value, lang))
      ensures isOpen && title != [] && !Truthy(html) ==> htmlContent == old(htmlContent)
      ensures isOpen && title != [] ==> !loading
      ensures !(isOpen && title != []) ==> htmlContent == None && loading == old(loading)
    {
      if isOpen && title != [] {
        loading := true;
        if html.Some? && html.value != [] {
          var fixed := FixHtml(html.value, lang);
          htmlContent := Some(fixed);
        }
        loading := false;
      } else {
        htmlContent := None;
      }
    }
  }
}

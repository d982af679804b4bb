/**
 * `getWikimediaImageUrl` of src/lib/utils/images.ts: rewrite the URL of an original
 * upload on upload.wikimedia.org into the URL of a thumbnail of the given width.
 *
 * `new URL(...)` is replaced by a small parser that splits `scheme://host/path?query`
 * and fails where the URL constructor would throw for lack of a scheme or a host.
 */
module Images {
  import opened Wrappers
  import opened JsStrings

  /** The `width` `getWikimediaImageUrl` uses when it is given none. */
  const DefaultWidth: int := 800

  // ---------------------------------------------------------------------------
  // URL parsing

  datatype Url = Url(origin: string, pathname: string)

  /** The longest prefix of `s` holding no character of `stops`. */
  function TakeUntil(s: string, stops: set<char>): (r: string)
    ensures r <= s
    ensures forall i :: 0 <= i < |r| ==> r[i] !in stops
    ensures |r| == |s| || s[|r|] in stops
  {
    if s == [] || s[0] in stops then [] else [s[0]] + TakeUntil(s[1..], stops)
  }

  predicate IsAsciiLetter(c: char) {
    'a' <= c <= 'z' || 'A' <= c <= 'Z'
  }

  predicate IsSchemeChar(c: char) {
    IsAsciiLetter(c) || '0' <= c <= '9' || c == '+' || c == '-' || c == '.'
  }

  /** A scheme: a letter, then letters, digits, `+`, `-` or `.`. */
  predicate ValidScheme(scheme: string) {
    scheme != [] && IsAsciiLetter(scheme[0]) && forall i :: 0 <= i < |scheme| ==> IsSchemeChar(scheme[i])
  }

  /**
   * What follows the scheme, `://host[/path][?query][#fragment]`: the origin is
   * `scheme://host` and the path name is the path, `/` when it is empty.
   */
  function ParseAfterScheme(scheme: string, afterScheme: string): (u: Option<Url>)
    ensures u.Some? ==> StartsWith(u.value.pathname, "/")
    ensures u.Some? ==> StartsWith(scheme + afterScheme, u.value.origin)
    ensures u.Some? ==> |scheme| + 3 <= |u.value.origin| && u.value.origin[|scheme|..|scheme| + 3] == "://"
  {
    if !StartsWith(afterScheme, "://") then None
    else
      var rest := afterScheme[3..];
      var host := TakeUntil(rest, {'/', '?', '#'});
      if host == [] then None
      else
        var path := TakeUntil(rest[|host|..], {'?', '#'});
        assert scheme + afterScheme == (scheme + "://" + host) + rest[|host|..];
        Some(Url(scheme + "://" + host, if path == [] then "/" else path))
  }

  /** `new URL(s)`, reduced to the origin and the path name; `None` where it would throw. */
  function ParseUrl(s: string): (u: Option<Url>)
    ensures u.Some? ==> StartsWith(u.value.pathname, "/")
    ensures u.Some? ==> StartsWith(s, u.value.origin) && Contains(u.value.origin, "://")
  {
    var scheme := TakeUntil(s, {':'});
    if !ValidScheme(scheme) then None
    else
      var u := ParseAfterScheme(scheme, s[|scheme|..]);
      assert scheme + s[|scheme|..] == s;
      if u.Some? then ContainsAt(u.value.origin, "://", |scheme|); u else u
  }

  // ---------------------------------------------------------------------------
  // Splitting on '/'

  /** `s.split('/')` */
  function Split(s: string): (parts: seq<string>)
    ensures |parts| >= 1
    decreases |s|
  {
    if s == [] then [""]
    else if s[0] == '/' then [""] + Split(s[1..])
    else var r := Split(s[1..]); [[s[0]] + r[0]] + r[1..]
  }

  /** `parts.join('/')` */
  function Join(parts: seq<string>): string
    requires |parts| >= 1
    decreases |parts|
  {
    if |parts| == 1 then parts[0] else parts[0] + "/" + Join(parts[1..])
  }

  /** Splitting and joining back gives the string again. */
  lemma {:induction false} JoinSplit(s: string)
    ensures Join(Split(s)) == s
    decreases |s|
  {
    if s != [] {
      JoinSplit(s[1..]);
      var r := Split(s[1..]);
      if s[0] != '/' {
        if |r| > 1 {
          assert ([[s[0]] + r[0]] + r[1..])[1..] == r[1..];
        }
      } else {
        assert ([""] + r)[1..] == r;
      }
    }
  }

  /** No part of a split holds the separator. */
  lemma {:induction false} SplitPartsHaveNoSlash(s: string)
    ensures forall k :: 0 <= k < |Split(s)| ==> '/' !in Split(s)[k]
    decreases |s|
  {
    if s != [] {
      SplitPartsHaveNoSlash(s[1..]);
      var r := Split(s[1..]);
      if s[0] != '/' {
        assert '/' !in [s[0]] + r[0];
        assert forall k :: 1 <= k < |Split(s)| ==> Split(s)[k] == r[k];
      } else {
        assert forall k :: 1 <= k < |Split(s)| ==> Split(s)[k] == r[k - 1];
      }
    }
  }

  /** Gluing a character to the first part of `p + q`, for a non-empty `p`. */
  lemma GlueFirst(c: char, p: seq<string>, q: seq<string>)
    requires |p| >= 1
    ensures [[c] + (p + q)[0]] + (p + q)[1..] == ([[c] + p[0]] + p[1..]) + q
  {
    assert (p + q)[1..] == p[1..] + q;
  }

  /** The inductive step of `SplitAround`, with the first character written apart. */
  lemma SplitAroundStep(c: char, t: string, b: string)
    requires Split(t + "/" + b) == Split(t) + Split(b)
    ensures Split([c] + (t + "/" + b)) == Split([c] + t) + Split(b)
  {
    var x := t + "/" + b;
    assert ([c] + x)[1..] == x && ([c] + t)[1..] == t;
    if c != '/' {
      assert Split([c] + x) == [[c] + Split(x)[0]] + Split(x)[1..];
      assert Split([c] + t) == [[c] + Split(t)[0]] + Split(t)[1..];
      GlueFirst(c, Split(t), Split(b));
    }
  }

  /** A separator in the middle splits into the parts of each side. */
  lemma {:induction false} SplitAround(a: string, b: string)
    ensures Split(a + "/" + b) == Split(a) + Split(b)
    decreases |a|
  {
    if a == [] {
      assert (a + "/" + b)[1..] == b;
    } else {
      SplitAround(a[1..], b);
      SplitAroundStep(a[0], a[1..], b);
      assert [a[0]] + (a[1..] + "/" + b) == a + "/" + b;
      assert [a[0]] + a[1..] == a;
    }
  }

  /** A segment without a separator splits into itself. */
  lemma {:induction false} SplitSegment(s: string)
    requires '/' !in s
    ensures Split(s) == [s]
    decreases |s|
  {
    if s != [] {
      assert s[0] in s;
      assert forall c :: c in s[1..] ==> c in s;
      SplitSegment(s[1..]);
      assert [s[0]] + s[1..] == s;
    }
  }

  // ---------------------------------------------------------------------------
  // The thumbnail pattern `(\/wikipedia\/[\w-]+\/)([\w0-9]+\/[\w0-9]+\/)([^/]+)$`

  /** `\w` */
  predicate IsWordChar(c: char) {
    IsAsciiLetter(c) || '0' <= c <= '9' || c == '_'
  }

  /** A project segment `[\w-]+`, such as `commons` or `en`. */
  predicate IsProject(s: string) {
    s != [] && forall i :: 0 <= i < |s| ==> IsWordChar(s[i]) || s[i] == '-'
  }

  /** A hash segment `[\w0-9]+`, such as `a` or `a9`. */
  predicate IsHashPart(s: string) {
    s != [] && forall i :: 0 <= i < |s| ==> IsWordChar(s[i])
  }

  /**
   * The path ends in `/wikipedia/<project>/<h1>/<h2>/<file>`: as split parts, the last
   * five are `wikipedia`, a project, two hash parts and a non-empty file name, and
   * some part comes before them.
   */
  predicate MatchesOriginal(parts: seq<string>) {
    var n := |parts|;
    && n >= 6
    && parts[n - 5] == "wikipedia"
    && IsProject(parts[n - 4])
    && IsHashPart(parts[n - 3])
    && IsHashPart(parts[n - 2])
    && parts[n - 1] != []
  }

  /** `filename.toLowerCase().endsWith('.svg')` */
  predicate IsSvg(fileName: string) {
    EndsWith(ToLower(fileName), ".svg")
  }

  /** `${width}px-${file}`, with `.png` appended for an SVG file. */
  function ThumbFile(file: string, width: int): string {
    IntToString(width) + "px-" + file + (if IsSvg(file) then ".png" else "")
  }

  /** `${origin}${prefix}thumb/${hash}${file}/${thumbFile}` */
  function ThumbnailUrl(origin: string, prefix: string, hash: string, file: string, thumbFile: string): string {
    origin + prefix + "thumb/" + hash + file + "/" + thumbFile
  }

  /** The thumbnail URL built from the groups of a match: a thumbnail URL holds `/thumb/`. */
  function ThumbnailOf(origin: string, parts: seq<string>, width: int): (r: string)
    requires MatchesOriginal(parts)
    ensures Contains(r, "/thumb/")
  {
    var n := |parts|;
    var hash := parts[n - 3] + "/" + parts[n - 2] + "/";
    ThumbnailHasThumb(origin, parts[n - 4], hash, parts[n - 1], ThumbFile(parts[n - 1], width));
    ThumbnailUrl(origin, "/wikipedia/" + parts[n - 4] + "/", hash, parts[n - 1], ThumbFile(parts[n - 1], width))
  }

  /** The match of the thumbnail pattern on the path name, turned into the thumbnail URL. */
  function RewritePath(u: Url, width: int): Option<string> {
    var parts := Split(u.pathname);
    if MatchesOriginal(parts) then Some(ThumbnailOf(u.origin, parts, width)) else None
  }

  /** `getWikimediaImageUrl(url, width)` */
  function GetWikimediaImageUrl(url: string, width: int): (r: string)
    ensures url == "" ==> r == ""
    ensures !Contains(url, "upload.wikimedia.org") ==> r == url
    ensures Contains(url, "/thumb/") ==> r == url
    ensures ParseUrl(url).None? ==> r == url
  {
    if url == "" then ""
    else if !Contains(url, "upload.wikimedia.org") then url
    else match ParseUrl(url)
      case None => url
      case Some(u) =>
        if Contains(url, "/thumb/") then url
        else RewritePath(u, width).GetOr(url)
  }

  // ---------------------------------------------------------------------------
  // Properties

  /** A project or hash segment holds no separator. */
  lemma SegmentHasNoSlash(s: string)
    ensures IsProject(s) ==> '/' !in s
  {
    if IsProject(s) {
      assert forall i :: 0 <= i < |s| ==> s[i] != '/';
    }
  }

  /** A segment without a separator followed by one splits off as the first part. */
  lemma SplitCons(seg: string, rest: string)
    requires '/' !in seg
    ensures Split(seg + "/" + rest) == [seg] + Split(rest)
  {
    SplitAround(seg, rest);
    SplitSegment(seg);
  }

  /** Five separator-free segments after a lead split into the lead's parts and the five. */
  lemma SplitFive(lead: string, s1: string, s2: string, s3: string, s4: string, s5: string)
    requires '/' !in s1 && '/' !in s2 && '/' !in s3 && '/' !in s4 && '/' !in s5
    ensures Split(lead + "/" + (s1 + "/" + (s2 + "/" + (s3 + "/" + (s4 + "/" + s5)))))
         == Split(lead) + [s1, s2, s3, s4, s5]
  {
    SplitCons(s4, s5);
    SplitSegment(s5);
    SplitCons(s3, s4 + "/" + s5);
    SplitCons(s2, s3 + "/" + (s4 + "/" + s5));
    SplitCons(s1, s2 + "/" + (s3 + "/" + (s4 + "/" + s5)));
    SplitAround(lead, s1 + "/" + (s2 + "/" + (s3 + "/" + (s4 + "/" + s5))));
  }

  lemma OriginalPathShape(lead: string, project: string, h1: string, h2: string, file: string)
    ensures lead + "/wikipedia/" + project + "/" + h1 + "/" + h2 + "/" + file
         == lead + "/" + ("wikipedia" + "/" + (project + "/" + (h1 + "/" + (h2 + "/" + file))))
  {
  }

  /** A path ending in `/wikipedia/<project>/<h1>/<h2>/<file>` splits into those five last parts. */
  lemma SplitOriginalPath(lead: string, project: string, h1: string, h2: string, file: string)
    requires '/' !in project && '/' !in h1 && '/' !in h2 && '/' !in file
    ensures Split(lead + "/wikipedia/" + project + "/" + h1 + "/" + h2 + "/" + file)
         == Split(lead) + ["wikipedia", project, h1, h2, file]
  {
    OriginalPathShape(lead, project, h1, h2, file);
    assert '/' !in "wikipedia";
    SplitFive(lead, "wikipedia", project, h1, h2, file);
  }

  /** The pattern rewrites a path name ending in `/wikipedia/<project>/<h1>/<h2>/<file>`. */
  lemma RewriteOriginalPath(u: Url, width: int, lead: string, project: string, h1: string, h2: string, file: string)
    requires u.pathname == lead + "/wikipedia/" + project + "/" + h1 + "/" + h2 + "/" + file
    requires IsProject(project) && IsHashPart(h1) && IsHashPart(h2) && file != [] && '/' !in file
    ensures RewritePath(u, width)
         == Some(ThumbnailUrl(u.origin, "/wikipedia/" + project + "/", h1 + "/" + h2 + "/", file, ThumbFile(file, width)))
  {
    SegmentHasNoSlash(project);
    SegmentHasNoSlash(h1);
    SegmentHasNoSlash(h2);
    SplitOriginalPath(lead, project, h1, h2, file);
    var parts := Split(u.pathname);
    var n := |parts|;
    assert parts[n - 5..] == ["wikipedia", project, h1, h2, file];
    assert parts[n - 4] == project && parts[n - 3] == h1 && parts[n - 2] == h2 && parts[n - 1] == file;
  }

  /**
   * An original upload URL whose path ends in `/wikipedia/<project>/<h1>/<h2>/<file>`
   * becomes `<origin>/wikipedia/<project>/thumb/<h1>/<h2>/<file>/<width>px-<file>`,
   * with `.png` appended for an SVG file.
   */
  lemma RewritesOriginal(url: string, width: int, lead: string, project: string, h1: string, h2: string, file: string)
    requires Contains(url, "upload.wikimedia.org") && !Contains(url, "/thumb/")
    requires ParseUrl(url).Some?
    requires ParseUrl(url).value.pathname == lead + "/wikipedia/" + project + "/" + h1 + "/" + h2 + "/" + file
    requires IsProject(project) && IsHashPart(h1) && IsHashPart(h2) && file != [] && '/' !in file
    ensures GetWikimediaImageUrl(url, width)
         == ThumbnailUrl(ParseUrl(url).value.origin, "/wikipedia/" + project + "/", h1 + "/" + h2 + "/", file, ThumbFile(file, width))
  {
    ContainsLength(url, "upload.wikimedia.org");
    GuardsPassed(url, width);
    RewriteOriginalPath(ParseUrl(url).value, width, lead, project, h1, h2, file);
  }

  /**
   * The thumbnail file of an SVG is its PNG rendering: the name ends in the file name
   * plus `.png`; any other file keeps its own name at the end. Both follow the width
   * and `px-`.
   */
  lemma ThumbFileShape(file: string, width: int)
    ensures StartsWith(ThumbFile(file, width), IntToString(width) + "px-")
    ensures IsSvg(file) ==> EndsWith(ThumbFile(file, width), file + ".png")
    ensures !IsSvg(file) ==> EndsWith(ThumbFile(file, width), file)
  {
    var head := IntToString(width) + "px-";
    var ext := if IsSvg(file) then ".png" else "";
    var t := ThumbFile(file, width);
    assert t == head + (file + ext);
    assert t[..|head|] == head;
    assert t[|t| - |file + ext|..] == file + ext;
  }

  /** Called without a width, the thumbnail file asks for 800 pixels. */
  lemma DefaultThumbFile(file: string)
    ensures StartsWith(ThumbFile(file, DefaultWidth), "800px-")
  {
    ThumbFileShape(file, DefaultWidth);
    assert NatToString(8) == "8";
    assert NatToString(80) == "80";
    assert IntToString(DefaultWidth) == "800";
  }

  /** The extension test ignores case: `Flag.SVG` is an SVG. */
  lemma FlagIsSvg()
    ensures IsSvg("Flag.SVG")
  {
    ToLowerAt("Flag.SVG");
    assert ToLower("Flag.SVG")[4..] == ".svg";
  }

  /** `Cat.jpg` is not an SVG. */
  lemma CatIsNotSvg()
    ensures !IsSvg("Cat.jpg")
  {
    ToLowerAt("Cat.jpg");
    assert ToLower("Cat.jpg")[3..][2] == 'p';
  }

  /** A thumbnail URL contains `/thumb/` right after the project. */
  lemma ThumbnailHasThumb(origin: string, project: string, hash: string, file: string, thumbFile: string)
    ensures Contains(ThumbnailUrl(origin, "/wikipedia/" + project + "/", hash, file, thumbFile), "/thumb/")
  {
    var tail := hash + file + "/" + thumbFile;
    assert ThumbnailUrl(origin, "/wikipedia/" + project + "/", hash, file, thumbFile)
        == (origin + "/wikipedia/" + project) + "/thumb/" + tail;
    ContainsMiddle(origin + "/wikipedia/" + project, "/thumb/", tail);
  }

  /** Whether the pattern matches does not depend on the width. */
  lemma RewriteMatchIndependent(u: Url, width: int, width2: int)
    ensures RewritePath(u, width).None? <==> RewritePath(u, width2).None?
  {
  }

  /** A URL that passes every guard is rewritten by the pattern, if it matches. */
  lemma GuardsPassed(url: string, width: int)
    requires url != "" && Contains(url, "upload.wikimedia.org") && ParseUrl(url).Some? && !Contains(url, "/thumb/")
    ensures GetWikimediaImageUrl(url, width) == RewritePath(ParseUrl(url).value, width).GetOr(url)
  {
  }

  /** A rewritten URL is a thumbnail URL: rewriting it again leaves it unchanged. */
  lemma Idempotent(url: string, width: int, width2: int)
    ensures var r := GetWikimediaImageUrl(url, width);
      GetWikimediaImageUrl(r, width2) == r
  {
    var r := GetWikimediaImageUrl(url, width);
    if url != "" && Contains(url, "upload.wikimedia.org") && ParseUrl(url).Some? && !Contains(url, "/thumb/") {
      var u := ParseUrl(url).value;
      GuardsPassed(url, width);
      GuardsPassed(url, width2);
      RewriteMatchIndependent(u, width, width2);
    }
  }

  /** `://host/path` after a scheme gives the origin `scheme://host` and the path name `/path`. */
  lemma ParseAuthority(scheme: string, host: string, path: string)
    requires host != [] && forall i :: 0 <= i < |host| ==> host[i] !in {'/', '?', '#'}
    requires path != [] && path[0] == '/' && forall i :: 0 <= i < |path| ==> path[i] !in {'?', '#'}
    ensures ParseAfterScheme(scheme, "://" + host + path) == Some(Url(scheme + "://" + host, path))
  {
    var afterScheme := "://" + host + path;
    assert StartsWith(afterScheme, "://");
    var rest := afterScheme[3..];
    assert rest == host + path;
    assert TakeUntil(rest, {'/', '?', '#'}) == host by {
      TakeUntilStops(host, path, {'/', '?', '#'});
    }
    assert rest[|host|..] == path;
    assert TakeUntil(path, {'?', '#'}) == path by {
      TakeUntilStops(path, "", {'?', '#'});
      assert path + "" == path;
    }
  }

  /**
   * `scheme://host/path` parses into the origin `scheme://host` and the path name
   * `/path`, when the scheme starts with a letter and the host and path hold no
   * character that would end them early.
   */
  lemma ParseSimple(scheme: string, host: string, path: string)
    requires ValidScheme(scheme)
    requires host != [] && forall i :: 0 <= i < |host| ==> host[i] !in {'/', '?', '#'}
    requires path != [] && path[0] == '/' && forall i :: 0 <= i < |path| ==> path[i] !in {'?', '#'}
    ensures ParseUrl(scheme + "://" + host + path) == Some(Url(scheme + "://" + host, path))
  {
    var url := scheme + "://" + host + path;
    assert url == scheme + ("://" + host + path);
    assert TakeUntil(url, {':'}) == scheme by {
      TakeUntilStops(scheme, "://" + host + path, {':'});
    }
    assert url[|scheme|..] == "://" + host + path;
    ParseAuthority(scheme, host, path);
  }

  /** `TakeUntil` stops right before the first stop character. */
  lemma {:induction false} TakeUntilStops(a: string, b: string, stops: set<char>)
    requires forall i :: 0 <= i < |a| ==> a[i] !in stops
    requires b == [] || b[0] in stops
    ensures TakeUntil(a + b, stops) == a
    decreases |a|
  {
    if a != [] {
      assert (a + b)[1..] == a[1..] + b;
      TakeUntilStops(a[1..], b, stops);
      assert [a[0]] + a[1..] == a;
    } else {
      assert a + b == b;
    }
  }
}

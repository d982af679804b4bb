/**
 * The JavaScript string built-ins the core relies on: `includes`, `startsWith`,
 * `endsWith`, `replace` with a string pattern (first occurrence), `replace` with a
 * global literal pattern (every occurrence, scanning left to right), ASCII
 * `toLowerCase`, the `x || default` idiom on strings, and number-to-string.
 */
module JsStrings {
  import opened Wrappers

  /** `s.startsWith(p)` */
  predicate StartsWith(s: string, p: string) {
    p <= s
  }

  /** `s.endsWith(p)` */
  predicate EndsWith(s: string, p: string) {
    |p| <= |s| && s[|s| - |p|..] == p
  }

  /** `s.includes(p)`: `p` occurs at some position of `s`. */
  predicate Contains(s: string, p: string) {
    exists i :: 0 <= i <= |s| && p <= s[i..]
  }

  /** JavaScript truthiness of an optional string: present and not empty. */
  predicate Truthy(o: Option<string>) {
    o.Some? && o.value != ""
  }

  /** `o || fallback` on an optional string. */
  function OrElse(o: Option<string>, fallback: string): (r: string)
    ensures Truthy(o) ==> r == o.value
    ensures !Truthy(o) ==> r == fallback
  {
    if o.Some? && o.value != "" then o.value else fallback
  }

  /** `s.replace(p, r)` with a string pattern: only the first occurrence is replaced. */
  function ReplaceFirst(s: string, p: string, r: string): string
    decreases |s|
  {
    if p <= s then r + s[|p|..]
    else if s == [] then []
    else [s[0]] + ReplaceFirst(s[1..], p, r)
  }

  /**
   * `s.replace(/p/g, r)` for a literal, non-empty pattern: the string is scanned from
   * the left, every occurrence is replaced, and scanning resumes after it.
   */
  function ReplaceAll(s: string, p: string, r: string): string
    requires p != []
    decreases |s|
  {
    if s == [] then []
    else if p <= s then r + ReplaceAll(s[|p|..], p, r)
    else [s[0]] + ReplaceAll(s[1..], p, r)
  }

  /** ASCII `toLowerCase` of one character. */
  function LowerChar(c: char): (d: char)
    ensures !('A' <= d <= 'Z')
    ensures !('A' <= c <= 'Z') ==> d == c
  {
    if 'A' <= c <= 'Z' then (c as int - 'A' as int + 'a' as int) as char else c
  }

  /** `s.toLowerCase()` restricted to ASCII letters. */
  function ToLower(s: string): (t: string)
    ensures |t| == |s|
  {
    if s == [] then [] else [LowerChar(s[0])] + ToLower(s[1..])
  }

  /** `toLowerCase` works character by character. */
  lemma {:induction false} ToLowerAt(s: string)
    ensures forall i :: 0 <= i < |s| ==> ToLower(s)[i] == LowerChar(s[i])
  {
    if s != [] {
      ToLowerAt(s[1..]);
      assert forall i :: 1 <= i < |s| ==> ToLower(s)[i] == ToLower(s[1..])[i - 1];
    }
  }

  /**
   * JavaScript's `s.length`, which counts UTF-16 code units: a character outside the
   * Basic Multilingual Plane is a surrogate pair and counts twice.
   */
  function Utf16Length(s: string): (n: nat)
    ensures |s| <= n <= 2 * |s|
    decreases |s|
  {
    if s == [] then 0 else (if s[0] as int >= 0x1_0000 then 2 else 1) + Utf16Length(s[1..])
  }

  /** A string of Basic Multilingual Plane characters has one code unit per character. */
  lemma {:induction false} BmpUtf16Length(s: string)
    requires forall i :: 0 <= i < |s| ==> (s[i] as int) < 0x1_0000
    ensures Utf16Length(s) == |s|
    decreases |s|
  {
    if s != [] {
      assert forall i :: 0 <= i < |s| - 1 ==> s[1..][i] == s[i + 1];
      BmpUtf16Length(s[1..]);
    }
  }

  /** A string of characters outside that plane has two code units per character. */
  lemma {:induction false} AstralUtf16Length(s: string)
    requires forall i :: 0 <= i < |s| ==> (s[i] as int) >= 0x1_0000
    ensures Utf16Length(s) == 2 * |s|
    decreases |s|
  {
    if s != [] {
      assert forall i :: 0 <= i < |s| - 1 ==> s[1..][i] == s[i + 1];
      AstralUtf16Length(s[1..]);
    }
  }

  function DigitChar(d: nat): char
    requires d < 10
  {
    ('0' as int + d) as char
  }

  /** Decimal rendering of a natural number, as template literals print it. */
  function NatToString(n: nat): (s: string)
    ensures s != []
    ensures forall i :: 0 <= i < |s| ==> '0' <= s[i] <= '9'
    decreases n
  {
    if n < 10 then [DigitChar(n)] else NatToString(n / 10) + [DigitChar(n % 10)]
  }

  /** Decimal rendering of an integer, with a leading `-` when negative. */
  function IntToString(n: int): (s: string)
    ensures s != []
    ensures s[0] == '-' <==> n < 0
  {
    if n < 0 then "-" + NatToString(-n) else NatToString(n)
  }

  // ---------------------------------------------------------------------------
  // Facts about occurrences. They are stated as implications so that callers can
  // use them without entering a branch that cannot happen.

  lemma ContainsAt(s: string, p: string, i: nat)
    ensures i <= |s| && p <= s[i..] ==> Contains(s, p)
  {
  }

  /** A string contains whatever sits in its middle. */
  lemma ContainsMiddle(a: string, p: string, b: string)
    ensures Contains(a + p + b, p)
  {
    assert (a + p + b)[|a|..] == p + b;
    ContainsAt(a + p + b, p, |a|);
  }

  /** No occurrence of `p` in `s` when some character of `p` is missing from `s`. */
  lemma MissingChar(s: string, p: string, c: char)
    ensures c in p && c !in s ==> !Contains(s, p)
  {
    if c in p && c !in s {
      var j :| 0 <= j < |p| && p[j] == c;
      forall i | 0 <= i <= |s| ensures !(p <= s[i..]) {
        if i + j < |s| {
          assert s[i..][j] == s[i + j];
          assert s[i + j] in s;
        }
      }
    }
  }

  /** An occurrence in a piece is an occurrence in any string built around it. */
  lemma ContainsWithin(a: string, s: string, b: string, p: string)
    ensures Contains(s, p) ==> Contains(a + s + b, p)
  {
    if Contains(s, p) {
      var i :| 0 <= i <= |s| && p <= s[i..];
      assert (a + s + b)[|a| + i..] == s[i..] + b;
      ContainsAt(a + s + b, p, |a| + i);
    }
  }

  lemma ContainsLength(s: string, p: string)
    ensures Contains(s, p) ==> |p| <= |s|
  {
  }

  /** An occurrence in a suffix is an occurrence in the whole string. */
  lemma ContainsInSuffix(s: string, p: string, k: nat)
    requires k <= |s|
    ensures Contains(s[k..], p) ==> Contains(s, p)
  {
    if Contains(s[k..], p) {
      var i :| 0 <= i <= |s[k..]| && p <= s[k..][i..];
      assert s[k..][i..] == s[k + i..];
      ContainsAt(s, p, k + i);
    }
  }

  /** Occurrences in `[c] + t` are a prefix occurrence or an occurrence in `t`. */
  lemma {:induction false} ContainsCons(c: char, t: string, p: string)
    ensures Contains([c] + t, p) <==> (p <= [c] + t || Contains(t, p))
  {
    var s := [c] + t;
    if Contains(s, p) && !(p <= s) {
      var i :| 0 <= i <= |s| && p <= s[i..];
      assert s[i..] == t[i - 1..];
      ContainsAt(t, p, i - 1);
    }
    if p <= s {
      ContainsAt(s, p, 0);
    }
    assert s[1..] == t;
    ContainsInSuffix(s, p, 1);
  }

  /** No suffix of `a` shorter than `p` can be completed into `p` by what follows `a`. */
  ghost predicate NoStraddle(a: string, p: string) {
    forall k :: 1 <= k < |p| && k <= |a| ==> a[|a| - k..] != p[..k]
  }

  /** An occurrence in `a + b` lies in `a`, lies in `b`, or straddles the join. */
  lemma {:induction false} ContainsAppend(a: string, b: string, p: string)
    ensures Contains(a + b, p) ==> Contains(a, p) || Contains(b, p) || !NoStraddle(a, p)
  {
    var s := a + b;
    if Contains(s, p) {
      var i :| 0 <= i <= |s| && p <= s[i..];
      if i + |p| <= |a| {
        assert a[i..][..|p|] == s[i..][..|p|];
        ContainsAt(a, p, i);
      } else if i >= |a| {
        assert s[i..] == b[i - |a|..];
        ContainsAt(b, p, i - |a|);
      } else {
        var k := |a| - i;
        assert a[|a| - k..] == s[i..][..k] == p[..k];
      }
    }
  }

  /**
   * When the `c`-th character of `p` occurs in `s` only at position `m`, an
   * occurrence of `p` in `s` can only start at `m - c`.
   */
  lemma AnchoredOccurrence(s: string, p: string, c: nat, m: nat)
    requires c < |p| && m < |s|
    requires forall x :: 0 <= x < |s| && x != m ==> s[x] != p[c]
    ensures Contains(s, p) ==> c <= m && p <= s[m - c..]
  {
    if Contains(s, p) {
      var i :| 0 <= i <= |s| && p <= s[i..];
      assert s[i + c] == p[c];
    }
  }

  // ---------------------------------------------------------------------------
  // Facts about global replacement

  /** `i` is where `p` first occurs in `s`. */
  predicate FirstAt(s: string, p: string, i: nat) {
    && i <= |s|
    && p <= s[i..]
    && forall j :: 0 <= j < i ==> !(p <= s[j..])
  }

  /**
   * A global replace keeps the text before the first occurrence, puts the replacement
   * in place of that occurrence and goes on after it.
   */
  lemma {:induction false} ReplaceAllFirst(s: string, p: string, r: string, i: nat)
    requires p != [] && FirstAt(s, p, i)
    ensures ReplaceAll(s, p, r) == s[..i] + r + ReplaceAll(s[i + |p|..], p, r)
    decreases i
  {
    if i == 0 {
      assert s[0..] == s;
      assert s[..0] + r == r;
    } else {
      assert !(p <= s[0..]);
      assert s[0..] == s;
      FirstAtTail(s, p, i);
      ReplaceAllFirst(s[1..], p, r, i - 1);
      assert |p| <= |s[i..]| == |s| - i;
      ReplaceAllSkip(s, p, r, i, ReplaceAll(s[i + |p|..], p, r));
    }
  }

  /** Replacing in a string that does not start with the pattern keeps its first character. */
  lemma ReplaceAllSkip(s: string, p: string, r: string, i: nat, after: string)
    requires 0 < i && i + |p| <= |s| && !(p <= s)
    requires ReplaceAll(s[1..], p, r) == s[1..][..i - 1] + r + ReplaceAll(s[1..][i - 1 + |p|..], p, r)
    requires after == ReplaceAll(s[i + |p|..], p, r)
    ensures ReplaceAll(s, p, r) == s[..i] + r + after
  {
    var tail := s[1..];
    assert tail[i - 1 + |p|..] == s[i + |p|..];
    var rest := ReplaceAll(tail, p, r);
    assert rest == tail[..i - 1] + r + after;
    assert ReplaceAll(s, p, r) == [s[0]] + rest;
    ConsAppend(s, i, r, after);
  }

  /** `s[0]`, the next `i - 1` characters, `x` and `y` are the first `i` characters, `x` and `y`. */
  lemma ConsAppend(s: string, i: nat, x: string, y: string)
    requires 0 < i <= |s|
    ensures [s[0]] + (s[1..][..i - 1] + x + y) == s[..i] + x + y
  {
    assert [s[0]] + s[1..][..i - 1] == s[..i];
  }

  /** A first occurrence after the first character is a first occurrence in the rest. */
  lemma FirstAtTail(s: string, p: string, i: nat)
    requires 0 < i && FirstAt(s, p, i)
    ensures FirstAt(s[1..], p, i - 1)
  {
    var tail := s[1..];
    assert tail[i - 1..] == s[i..];
    forall j | 0 <= j < i - 1 ensures !(p <= tail[j..]) {
      assert tail[j..] == s[j + 1..];
    }
  }

  /** A string without the pattern is left as it is. */
  lemma {:induction false} ReplaceAllAbsent(s: string, p: string, r: string)
    requires p != [] && !Contains(s, p)
    ensures ReplaceAll(s, p, r) == s
    decreases |s|
  {
    if s != [] {
      ContainsCons(s[0], s[1..], p);
      assert [s[0]] + s[1..] == s;
      ReplaceAllAbsent(s[1..], p, r);
    }
  }

  /** `replace` with a pattern the string does not hold leaves it as it is. */
  lemma {:induction false} ReplaceFirstAbsent(s: string, p: string, r: string)
    requires !Contains(s, p)
    ensures ReplaceFirst(s, p, r) == s
    decreases |s|
  {
    ContainsAt(s, p, 0);
    if s != [] {
      ContainsInSuffix(s, p, 1);
      ReplaceFirstAbsent(s[1..], p, r);
      assert [s[0]] + s[1..] == s;
    }
  }

  /** `replace` on a string that starts with the pattern swaps that prefix only. */
  lemma ReplaceFirstPrefix(p: string, t: string, r: string)
    ensures ReplaceFirst(p + t, p, r) == r + t
  {
    assert (p + t)[|p|..] == t;
  }

  /**
   * A prefix of the rewritten string that avoids the first character of the
   * replacement was already a prefix of the original.
   */
  lemma {:induction false} PrefixThroughReplace(s: string, p: string, r: string, q: string)
    requires p != [] && r != [] && r[0] !in q
    ensures q <= ReplaceAll(s, p, r) ==> q <= s
    decreases |s|
  {
    if q != [] && s != [] {
      if p <= s {
        assert ReplaceAll(s, p, r)[0] == r[0];
        assert q[0] in q;
      } else {
        var tail := ReplaceAll(s[1..], p, r);
        assert ReplaceAll(s, p, r) == [s[0]] + tail;
        assert forall c :: c in q[1..] ==> c in q;
        PrefixThroughReplace(s[1..], p, r, q[1..]);
        assert s == [s[0]] + s[1..];
      }
    }
  }

  /**
   * After replacing every `p` by `r`, the string holds no `q`, where `q` is `p`
   * itself or was absent to begin with, provided `r` neither holds nor starts `q`
   * and cannot be completed into `q` by what follows it.
   */
  lemma {:induction false} ReplaceAllAvoids(s: string, p: string, r: string, q: string)
    requires p != [] && r != [] && q != []
    requires q == p || !Contains(s, q)
    requires r[0] !in q[1..]
    requires !Contains(r, q) && NoStraddle(r, q)
    ensures !Contains(ReplaceAll(s, p, r), q)
    decreases |s|
  {
    if s == [] {
      ContainsLength([], q);
    } else if p <= s {
      var rest := s[|p|..];
      ContainsInSuffix(s, q, |p|);
      ReplaceAllAvoids(rest, p, r, q);
      ContainsAppend(r, ReplaceAll(rest, p, r), q);
    } else {
      var t := ReplaceAll(s[1..], p, r);
      assert [s[0]] + t == ReplaceAll(s, p, r);
      assert q <= [s[0]] + t ==> q[0] == s[0] && q[1..] <= t;
      assert q[0] == s[0] && q[1..] <= s[1..] ==> q <= s;
      ContainsInSuffix(s, q, 1);
      ReplaceAllAvoids(s[1..], p, r, q);
      ContainsCons(s[0], t, q);
      PrefixThroughReplace(s[1..], p, r, q[1..]);
      ContainsAt(s, q, 0);
    }
  }
}

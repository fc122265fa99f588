/**
 * The detached-HEAD pattern of vcstool's CompareOutput.
 *
 * Git describes a detached working copy as `(HEAD detached at <rev>)`. vcstool
 * recognises that text with `re.match(r"\(HEAD detached at (\S+)\)", v)`, which
 * is anchored at the start of `v` only. This module defines
 *   - what a match is, declaratively (Captures, LongestCapture), and
 *   - how the regular-expression engine finds it (DetachedMatch: a greedy
 *     `\S+` followed by backtracking until a `)` follows),
 * and proves that the two agree.
 */
module DetachedHead {
  import opened Wrappers

  /** The literal text the pattern requires at the very start of the string. */
  const Prefix: string := "(HEAD detached at "

  /** The version string that replaces a matched detached-HEAD description. */
  const Detached: string := "HEAD detached"

  /**
   * Whitespace as `\s` sees it in a `str` pattern: exactly the characters for
   * which Python's `str.isspace()` holds.
   */
  predicate IsSpace(c: char) {
    ('\t' <= c <= '\r') || ('\U{1C}' <= c <= ' ') || c == '\U{85}' || c == '\U{A0}'
    || c == '\U{1680}' || ('\U{2000}' <= c <= '\U{200A}') || c == '\U{2028}' || c == '\U{2029}'
    || c == '\U{202F}' || c == '\U{205F}' || c == '\U{3000}'
  }

  /** Every character of `s` is matched by `\S`. */
  predicate NoSpace(s: string) {
    forall i :: 0 <= i < |s| ==> !IsSpace(s[i])
  }

  /**
   * `g` is a way for the pattern to match at the start of `s`, with `g` as
   * group 1: `s` begins with the prefix, then `g` (one or more non-whitespace
   * characters), then `)`. Whatever follows is not looked at.
   */
  predicate Captures(s: string, g: string) {
    |g| >= 1 && NoSpace(g) && Prefix + g + ")" <= s
  }

  /** `g` is the group that a greedy `\S+` settles on: the longest capture. */
  ghost predicate LongestCapture(s: string, g: string) {
    Captures(s, g) && forall g' :: Captures(s, g') ==> |g'| <= |g|
  }

  /** The length of the leading whitespace-free run of `r`: what `\S+` first consumes. */
  function SpanNonSpace(r: string): (n: nat)
    ensures n <= |r|
    ensures NoSpace(r[..n])
    ensures n < |r| ==> IsSpace(r[n])
  {
    if r == [] || IsSpace(r[0]) then 0
    else
      var m := SpanNonSpace(r[1..]);
      assert r[..1 + m] == [r[0]] + r[1..][..m];
      1 + m
  }

  /**
   * The engine's backtracking over `\S+` followed by `\)`: having consumed `n`
   * characters of `r`, give them back one at a time until a `)` follows. The
   * result is the largest length in 1..n that `)` follows, if any.
   */
  function Backtrack(r: string, n: nat): (k: Option<nat>)
    requires n <= |r|
    ensures k.Some? ==> 1 <= k.value <= n && k.value < |r| && r[k.value] == ')'
    ensures forall j :: (if k.Some? then k.value else 0) < j <= n && j < |r| ==> r[j] != ')'
  {
    if n == 0 then None
    else if n < |r| && r[n] == ')' then Some(n)
    else Backtrack(r, n - 1)
  }

  /**
   * `re.match(r"\(HEAD detached at (\S+)\)", s)`: group 1 on a match, None otherwise.
   * A group it returns is always a capture, so it is non-empty, free of
   * whitespace, and `s` starts with the prefix.
   */
  function DetachedMatch(s: string): (m: Option<string>)
    ensures m.Some? ==> Captures(s, m.value)
  {
    if Prefix <= s then
      var r := s[|Prefix|..];
      match Backtrack(r, SpanNonSpace(r))
      case Some(k) =>
        CaptureAt(s, r[..k]);
        Some(r[..k])
      case None => None
    else None
  }

  /** What Captures says, read off the remainder of `s` after the prefix. */
  lemma CaptureAt(s: string, g: string)
    ensures Captures(s, g) <==>
      Prefix <= s && 1 <= |g| < |s| - |Prefix| && NoSpace(g)
      && g == s[|Prefix|..][..|g|] && s[|Prefix|..][|g|] == ')'
  {
  }

  /**
   * DetachedMatch finds exactly the match the regular expression defines: it
   * returns `g` if and only if `g` is the longest capture, and it returns
   * None if and only if there is no capture at all.
   */
  lemma {:induction false} DetachedMatchIsLongestCapture(s: string, g: string)
    ensures DetachedMatch(s) == Some(g) <==> LongestCapture(s, g)
    ensures DetachedMatch(s) == None <==> forall g' :: !Captures(s, g')
  {
    forall g' | Captures(s, g')
      ensures DetachedMatch(s).Some? && |g'| <= |DetachedMatch(s).value|
    {
      CaptureAt(s, g');
    }
    if DetachedMatch(s) == Some(g) {
      assert LongestCapture(s, g);
    }
    if LongestCapture(s, g) {
      var m := DetachedMatch(s).value;
      CaptureAt(s, g);
      CaptureAt(s, m);
      assert |g| == |m|;
    }
  }

  /**
   * The match is anchored at the start: text placed before the prefix (here
   * anything shorter than the prefix) prevents a match, even when a complete
   * `(HEAD detached at <rev>)` follows it.
   */
  lemma LeadingTextBlocks(x: string, t: string)
    requires 0 < |x| < |Prefix|
    ensures DetachedMatch(x + Prefix + t) == None
  {
    var s := x + Prefix + t;
    assert s[|x|] == '(' != Prefix[|x|];
  }

  /**
   * Text after the closing `)` is ignored once the whitespace-free run ends
   * there: the group is the whole of `g`, including any `)` inside it.
   */
  lemma TrailingTextIgnored(g: string, t: string)
    requires |g| >= 1 && NoSpace(g)
    requires t == [] || IsSpace(t[0])
    ensures DetachedMatch(Prefix + g + ")" + t) == Some(g)
  {
    var s := Prefix + g + ")" + t;
    assert Captures(s, g);
    forall g' | Captures(s, g')
      ensures |g'| <= |g|
    {
      CaptureAt(s, g');
      var r := s[|Prefix|..];
      assert r == g + ")" + t;
      assert |r| > |g| + 1 ==> IsSpace(r[|g| + 1]);
    }
    DetachedMatchIsLongestCapture(s, g);
  }

  /** The replacement text never matches: it does not begin with `(`. */
  lemma DetachedNeverMatches()
    ensures DetachedMatch(Detached) == None
  {
  }

  /**
   * Worked matches: a plain hash; trailing text after a space, which is
   * ignored; and a `)` inside the run, where the group runs to the last `)`.
   */
  lemma MatchExamples()
    ensures DetachedMatch("(HEAD detached at a1b2c3d)") == Some("a1b2c3d")
    ensures DetachedMatch("(HEAD detached at abc) x") == Some("abc")
    ensures DetachedMatch("(HEAD detached at a)b)") == Some("a)b")
  {
    TrailingTextIgnored("a1b2c3d", "");
    assert "(HEAD detached at a1b2c3d)" == Prefix + "a1b2c3d" + ")" + "";
    TrailingTextIgnored("abc", " x");
    assert "(HEAD detached at abc) x" == Prefix + "abc" + ")" + " x";
    TrailingTextIgnored("a)b", "");
    assert "(HEAD detached at a)b)" == Prefix + "a)b" + ")" + "";
  }

  /**
   * Each piece of the pattern is required: an empty revision, a missing `)`
   * and a different wording all fail to match.
   */
  lemma RejectionExamples()
    ensures DetachedMatch("(HEAD detached at )") == None
    ensures DetachedMatch("(HEAD detached at abc") == None
    ensures DetachedMatch("(HEAD detached from abc)") == None
  {
    forall g | Captures("(HEAD detached at )", g) ensures false {
      CaptureAt("(HEAD detached at )", g);
    }
    forall g | Captures("(HEAD detached at abc", g) ensures false {
      CaptureAt("(HEAD detached at abc", g);
    }
    assert "(HEAD detached from abc)"[15] != Prefix[15];
    DetachedMatchIsLongestCapture("(HEAD detached at )", "");
    DetachedMatchIsLongestCapture("(HEAD detached at abc", "");
  }
}

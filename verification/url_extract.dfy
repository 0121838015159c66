/**
  `extractUrls`: every match, left to right, of the pattern
      https?://[\w-]+(\.[\w-]+)+([\w.,@?^=%&:/~+#-]*[\w@?^=%&/~+#-])?
  in a piece of share text. `\w` is Java's ASCII word class, so any other
  character (CJK prose, full-width punctuation, spaces) ends a match.

  The model has two halves:
  - a declarative grammar, `UrlShaped`, for the strings the pattern describes;
  - a hand-written scanner, `MatchAt` and `Spans`, that follows the order in
    which a backtracking engine explores this pattern: the scheme, maximal label
    runs, the maximal run of the tail class, then backing off to the last
    character of the final class.
  `MatchAt` is proved to return the longest prefix in the grammar, and
  `ExtractUrls` the leftmost of those, resuming after each one.
 */
module UrlExtract {
  import opened Wrappers
  import opened Kotlin

  // ---------------------------------------------------------------------------
  // Character classes of the pattern
  // ---------------------------------------------------------------------------

  /** Java's `\w` without the Unicode flag. */
  predicate IsWordChar(c: char) {
    ('a' <= c <= 'z') || ('A' <= c <= 'Z') || ('0' <= c <= '9') || c == '_'
  }

  /** `[\w-]`: a host label character. */
  predicate IsLabelChar(c: char) {
    IsWordChar(c) || c == '-'
  }

  /** `[\w.,@?^=%&:/~+#-]`: a character the tail may contain. */
  predicate IsTailChar(c: char) {
    IsTailEndChar(c) || c == '.' || c == ',' || c == ':'
  }

  /** `[\w@?^=%&/~+#-]`: a character the tail may end with (no `.`, `,` or `:`). */
  predicate IsTailEndChar(c: char) {
    || IsLabelChar(c)
    || c == '@' || c == '?' || c == '^' || c == '=' || c == '%'
    || c == '&' || c == '/' || c == '~' || c == '+' || c == '#'
  }

  // ---------------------------------------------------------------------------
  // The grammar
  // ---------------------------------------------------------------------------

  ghost predicate IsScheme(x: string) {
    x == "http://" || x == "https://"
  }

  /** `[\w-]+(\.[\w-]+)+`: labels separated by single dots, at least two labels. */
  ghost predicate IsDottedHost(h: string) {
    && 0 < |h|
    && (forall i :: 0 <= i < |h| ==> IsLabelChar(h[i]) || h[i] == '.')
    && IsLabelChar(h[0])
    && IsLabelChar(h[|h| - 1])
    && '.' in h
    && NoDoubleDot(h, 0, |h|)
  }

  /** No two adjacent dots in `s[lo..hi]`. */
  ghost predicate NoDoubleDot(s: string, lo: nat, hi: nat) {
    forall i, j :: lo <= i && j < hi && j < |s| && i + 1 == j && s[i] == '.' ==> s[j] != '.'
  }

  /** `([tail]*[tail-end])?` */
  ghost predicate IsTail(t: string) {
    && (forall i :: 0 <= i < |t| ==> IsTailChar(t[i]))
    && (0 < |t| ==> IsTailEndChar(t[|t| - 1]))
  }

  /** `u` splits as scheme `u[..k]`, host `u[k..h]` and tail `u[h..]`. */
  ghost predicate UrlShapedAt(u: string, k: nat, h: nat) {
    k <= h <= |u| && IsScheme(u[..k]) && IsDottedHost(u[k..h]) && IsTail(u[h..])
  }

  /** `u` belongs to the language of the pattern. */
  ghost predicate UrlShaped(u: string) {
    exists k: nat, h: nat :: UrlShapedAt(u, k, h)
  }

  // ---------------------------------------------------------------------------
  // The scanner
  // ---------------------------------------------------------------------------

  /** `s[p..]` starts with `http://`. */
  predicate HttpAt(s: string, p: nat) {
    && p + 7 <= |s|
    && s[p] == 'h' && s[p + 1] == 't' && s[p + 2] == 't' && s[p + 3] == 'p'
    && s[p + 4] == ':' && s[p + 5] == '/' && s[p + 6] == '/'
  }

  /** `s[p..]` starts with `https://`. */
  predicate HttpsAt(s: string, p: nat) {
    && p + 8 <= |s|
    && s[p] == 'h' && s[p + 1] == 't' && s[p + 2] == 't' && s[p + 3] == 'p'
    && s[p + 4] == 's' && s[p + 5] == ':' && s[p + 6] == '/' && s[p + 7] == '/'
  }

  /** Length of the `https?://` prefix of `s[p..]`, or 0 when there is none. */
  function SchemeLength(s: string, p: nat): (k: nat)
    requires p <= |s|
    ensures k == 0 || k == 7 || k == 8
    ensures k > 0 ==> p + k <= |s| && IsScheme(s[p..p + k])
    ensures k == 0 <==> !StartsWith(s[p..], "http://") && !StartsWith(s[p..], "https://")
  {
    SchemePrefixes(s, p);
    if HttpsAt(s, p) then 8
    else if HttpAt(s, p) then 7
    else 0
  }

  lemma SchemePrefixes(s: string, p: nat)
    requires p <= |s|
    ensures HttpAt(s, p) <==> StartsWith(s[p..], "http://")
    ensures HttpsAt(s, p) <==> StartsWith(s[p..], "https://")
    ensures HttpAt(s, p) ==> s[p..p + 7] == "http://"
    ensures HttpsAt(s, p) ==> s[p..p + 8] == "https://"
  {
    if StartsWith(s[p..], "http://") {
      assert s[p..][..7] == "http://";
      assert forall i | 0 <= i < 7 :: s[p + i] == "http://"[i];
    }
    if StartsWith(s[p..], "https://") {
      assert s[p..][..8] == "https://";
      assert forall i | 0 <= i < 8 :: s[p + i] == "https://"[i];
    }
  }

  /** End of the maximal run of `inClass` characters starting at `i`. */
  function SpanEnd(s: string, i: nat, inClass: char -> bool): (j: nat)
    requires i <= |s|
    ensures i <= j <= |s|
    ensures forall m :: i <= m < j ==> inClass(s[m])
    ensures j < |s| ==> !inClass(s[j])
    decreases |s| - i
  {
    if i < |s| && inClass(s[i]) then SpanEnd(s, i + 1, inClass) else i
  }

  /** Greedy `(\.[\w-]+)*` from `j`: as many `.label` groups as follow. */
  function DotLabelsEnd(s: string, j: nat): (r: nat)
    requires j <= |s|
    ensures j <= r <= |s|
    ensures forall m :: j <= m < r ==> IsLabelChar(s[m]) || s[m] == '.'
    ensures NoDoubleDot(s, j, r)
    ensures j < r ==> s[j] == '.' && IsLabelChar(s[r - 1])
    ensures r == j ==> !(j + 1 < |s| && s[j] == '.' && IsLabelChar(s[j + 1]))
    decreases |s| - j
  {
    if j + 1 < |s| && s[j] == '.' && IsLabelChar(s[j + 1]) then
      DotLabelsEnd(s, SpanEnd(s, j + 1, IsLabelChar))
    else
      j
  }

  /** The host starting at `i`: one label, then at least one `.label` group. */
  function HostEnd(s: string, i: nat): (r: Option<nat>)
    requires i <= |s|
    ensures r.Some? ==> i < r.value <= |s| && IsDottedHost(s[i..r.value])
    ensures r.None? ==> forall h: nat :: i <= h <= |s| ==> !IsDottedHost(s[i..h])
  {
    var j := SpanEnd(s, i, IsLabelChar);
    var h := DotLabelsEnd(s, j);
    if j == i || h == j then
      NoHost(s, i);
      None
    else
      assert '.' in s[i..h] by {
        assert s[i..h][j - i] == '.';
      }
      Some(h)
  }

  /** When the scanner finds no host at `i`, no prefix of `s[i..]` is one. */
  lemma NoHost(s: string, i: nat)
    requires i <= |s|
    requires var j := SpanEnd(s, i, IsLabelChar); j == i || DotLabelsEnd(s, j) == j
    ensures forall h: nat :: i <= h <= |s| ==> !IsDottedHost(s[i..h])
  {
    forall h: nat | i <= h <= |s|
      ensures !IsDottedHost(s[i..h])
    {
    }
  }

  /**
    Back-off of `[tail]*[tail-end]` over the maximal tail run `[h, e)`: the end
    just after the last tail-end character, or `h` when there is none and the
    optional group matches nothing.
   */
  function BackOff(s: string, h: nat, e: nat): (r: nat)
    requires h <= e <= |s|
    ensures h <= r <= e
    ensures h < r ==> IsTailEndChar(s[r - 1])
    ensures forall m :: r <= m < e ==> !IsTailEndChar(s[m])
    decreases e
  {
    if h < e && !IsTailEndChar(s[e - 1]) then BackOff(s, h, e - 1) else e
  }

  /**
    The end of the match that starts exactly at `p`, if any: the longest prefix
    of `s[p..]` in the grammar.
   */
  function MatchAt(s: string, p: nat): (r: Option<nat>)
    requires p <= |s|
    ensures r.Some? ==> p < r.value <= |s|
  {
    var k := SchemeLength(s, p);
    if k == 0 then None
    else
      match HostEnd(s, p + k)
      case None => None
      case Some(h) => Some(BackOff(s, h, SpanEnd(s, h, IsTailChar)))
  }

  /**
    `MatchAt` against the grammar: a match is in the language and no longer
    prefix is; no match means no prefix of `s[p..]` is in the language.
   */
  lemma MatchAtIsLongest(s: string, p: nat)
    requires p <= |s|
    ensures MatchAt(s, p).Some? ==> UrlShaped(s[p..MatchAt(s, p).value])
    ensures MatchAt(s, p).Some? ==>
      forall e: nat :: MatchAt(s, p).value < e <= |s| ==> !UrlShaped(s[p..e])
    ensures MatchAt(s, p).None? ==> forall e: nat :: p <= e <= |s| ==> !UrlShaped(s[p..e])
  {
    var k := SchemeLength(s, p);
    if k == 0 {
      NoSchemeNoMatch(s, p);
    } else {
      match HostEnd(s, p + k)
      case None =>
        NoHostNoMatch(s, p, k);
      case Some(h) =>
        var e := BackOff(s, h, SpanEnd(s, h, IsTailChar));
        MatchIsShaped(s, p, k, h, e);
        MatchIsLongest(s, p, k, h, e);
    }
  }

  /** The scheme of a string in the grammar is its own prefix of `s`. */
  lemma ShapedScheme(s: string, p: nat, e: nat, k': nat, h': nat)
    requires p <= e <= |s|
    requires UrlShapedAt(s[p..e], k', h')
    ensures k' == SchemeLength(s, p)
  {
    var u := s[p..e];
    assert u[..k'] == s[p..p + k'];
    if k' == 8 {
      assert s[p..][..8] == u[..8];
    } else {
      assert k' == 7;
      assert s[p..][..7] == u[..7];
      assert s[p + 4] == ':';
    }
  }

  /** What a string of the grammar found at `s[p..e]` says about the characters of `s`. */
  lemma ShapedParts(s: string, p: nat, e: nat, k: nat, h: nat)
    ensures p <= e <= |s| && UrlShapedAt(s[p..e], k, h) ==>
      && k == SchemeLength(s, p)
      && IsDottedHost(s[p + k..p + h])
      && p + k < e
      && (forall m :: p + k <= m < e ==> IsTailChar(s[m]))
      && IsTailEndChar(s[e - 1])
  {
    if p <= e <= |s| && UrlShapedAt(s[p..e], k, h) {
      var u := s[p..e];
      ShapedScheme(s, p, e, k, h);
      ShapedBody(u, k, h);
      SliceOfSlice(s, p, e, k, h);
      forall m | p + k <= m < e
        ensures IsTailChar(s[m])
      {
        assert s[m] == u[m - p];
      }
      assert s[e - 1] == u[|u| - 1];
    }
  }

  lemma NoSchemeNoMatch(s: string, p: nat)
    requires p <= |s| && SchemeLength(s, p) == 0
    ensures forall e: nat :: p <= e <= |s| ==> !UrlShaped(s[p..e])
  {
    forall e: nat, k: nat, h: nat | p <= e <= |s|
      ensures !UrlShapedAt(s[p..e], k, h)
    {
      ShapedParts(s, p, e, k, h);
    }
  }

  lemma NoHostNoMatch(s: string, p: nat, k: nat)
    requires p <= |s| && k == SchemeLength(s, p) && k > 0
    requires HostEnd(s, p + k).None?
    ensures forall e: nat :: p <= e <= |s| ==> !UrlShaped(s[p..e])
  {
    forall e: nat, k': nat, h': nat | p <= e <= |s|
      ensures !UrlShapedAt(s[p..e], k', h')
    {
      ShapedParts(s, p, e, k', h');
    }
  }

  lemma MatchIsShaped(s: string, p: nat, k: nat, h: nat, e: nat)
    requires p <= |s| && k == SchemeLength(s, p) && k > 0
    requires HostEnd(s, p + k) == Some(h)
    requires e == BackOff(s, h, SpanEnd(s, h, IsTailChar))
    ensures UrlShaped(s[p..e])
  {
    assert IsScheme(s[p..p + k]);
    assert IsDottedHost(s[p + k..h]);
    TailRun(s, h, e);
    ShapedFromParts(s, p, e, k, h);
  }

  /** A scheme, a host and a tail side by side in `s` form a string of the grammar. */
  lemma ShapedFromParts(s: string, p: nat, e: nat, k: nat, h: nat)
    requires p + k <= h <= e <= |s|
    requires IsScheme(s[p..p + k]) && IsDottedHost(s[p + k..h]) && IsTail(s[h..e])
    ensures UrlShaped(s[p..e])
  {
    SliceOfSlice(s, p, e, 0, k);
    SliceOfSlice(s, p, e, k, h - p);
    SliceOfSlice(s, p, e, h - p, e - p);
    assert UrlShapedAt(s[p..e], k, h - p);
  }

  /** The back-off end of the maximal tail run from `h` leaves a tail behind. */
  lemma TailRun(s: string, h: nat, e: nat)
    requires h <= |s| && e == BackOff(s, h, SpanEnd(s, h, IsTailChar))
    ensures IsTail(s[h..e])
  {
    var t := s[h..e];
    forall m | 0 <= m < |t|
      ensures IsTailChar(t[m])
    {
      assert t[m] == s[h + m];
    }
    if 0 < |t| {
      assert t[|t| - 1] == s[e - 1];
    }
  }

  lemma SliceOfSlice(s: string, a: nat, b: nat, c: nat, d: nat)
    requires a <= b <= |s| && c <= d <= b - a
    ensures s[a..b][c..d] == s[a + c..a + d]
  {
    assert forall i | 0 <= i < d - c :: s[a..b][c..d][i] == s[a + c..a + d][i];
  }

  /** Every character of a string in the grammar after its scheme is a tail character. */
  lemma ShapedBody(u: string, k: nat, h: nat)
    requires UrlShapedAt(u, k, h)
    ensures forall m :: k <= m < |u| ==> IsTailChar(u[m])
    ensures k < |u| && IsTailEndChar(u[|u| - 1])
  {
    forall m | k <= m < |u|
      ensures IsTailChar(u[m])
    {
      if m < h {
        assert u[m] == u[k..h][m - k];
      } else {
        assert u[m] == u[h..][m - h];
      }
    }
    if h == |u| {
      assert u[|u| - 1] == u[k..h][h - k - 1];
    } else {
      assert u[|u| - 1] == u[h..][|u| - h - 1];
    }
  }

  lemma MatchIsLongest(s: string, p: nat, k: nat, h: nat, e: nat)
    requires p <= |s| && k == SchemeLength(s, p) && k > 0
    requires HostEnd(s, p + k) == Some(h)
    requires e == BackOff(s, h, SpanEnd(s, h, IsTailChar))
    ensures forall e': nat :: e < e' <= |s| ==> !UrlShaped(s[p..e'])
  {
    var run := SpanEnd(s, h, IsTailChar);
    forall e': nat, k': nat, h': nat | e < e' <= |s|
      ensures !UrlShapedAt(s[p..e'], k', h')
    {
      ShapedParts(s, p, e', k', h');
      // the tail run reaches e', and s[e' - 1] is a tail-end character the back-off keeps
      assert UrlShapedAt(s[p..e'], k', h') ==> e' <= run;
    }
  }

  // ---------------------------------------------------------------------------
  // findAll
  // ---------------------------------------------------------------------------

  /** Every match `m` reports below `n` ends after it starts and no later than `n`. */
  ghost predicate Advances(m: nat -> Option<nat>, n: nat) {
    forall q: nat :: q < n && m(q).Some? ==> q < m(q).value <= n
  }

  /** Position `q` lies inside one of the spans. */
  ghost predicate Covered(spans: seq<(nat, nat)>, q: nat) {
    exists i :: 0 <= i < |spans| && spans[i].0 <= q < spans[i].1
  }

  /**
    `findAll` over an input of length `n`, for a matcher `m` that gives the end
    of the match starting at each position: the leftmost match at or after `p`,
    then the search resumes at its end. No match can start at `n` itself, since
    every match of the URL pattern is non-empty.
   */
  function FindAll(m: nat -> Option<nat>, n: nat, p: nat): (r: seq<(nat, nat)>)
    requires p <= n && Advances(m, n)
    ensures ScanFacts(m, n, p, r)
    decreases n - p
  {
    if p == n then
      []
    else
      match m(p)
      case Some(e) =>
        var rest := FindAll(m, n, e);
        ConsFacts(m, n, p, e, rest);
        [(p, e)] + rest
      case None =>
        var rest := FindAll(m, n, p + 1);
        assert ScanFacts(m, n, p, rest) by {
          assert m(p).None?;
        }
        rest
  }

  /**
    What `findAll` from `p` promises of its spans: they lie in `[p, n]`, each is
    the match `m` reports at its start, they are ordered without overlap, and
    every position they skip has no match.
   */
  ghost predicate ScanFacts(m: nat -> Option<nat>, n: nat, p: nat, r: seq<(nat, nat)>) {
    && (forall i :: 0 <= i < |r| ==> p <= r[i].0 < r[i].1 <= n)
    && (forall i :: 0 <= i < |r| ==> m(r[i].0) == Some(r[i].1))
    && (forall i, j :: 0 <= i < j < |r| ==> r[i].1 <= r[j].0)
    && (forall q: nat :: p <= q < n && !Covered(r, q) ==> m(q).None?)
  }

  lemma ConsFacts(m: nat -> Option<nat>, n: nat, p: nat, e: nat, rest: seq<(nat, nat)>)
    requires p < e <= n && m(p) == Some(e) && ScanFacts(m, n, e, rest)
    ensures ScanFacts(m, n, p, [(p, e)] + rest)
  {
    var r := [(p, e)] + rest;
    ConsSpans(m, n, p, e, rest);
    assert r[1..] == rest;
    forall q: nat | p <= q < n && !Covered(r, q)
      ensures m(q).None?
    {
      CoveredCons(r, rest, q);
    }
  }

  /** The first three facts of `ScanFacts` survive putting the match at `p` in front. */
  lemma ConsSpans(m: nat -> Option<nat>, n: nat, p: nat, e: nat, rest: seq<(nat, nat)>)
    requires p < e <= n && m(p) == Some(e) && ScanFacts(m, n, e, rest)
    ensures var r := [(p, e)] + rest;
      && (forall i :: 0 <= i < |r| ==> p <= r[i].0 < r[i].1 <= n)
      && (forall i :: 0 <= i < |r| ==> m(r[i].0) == Some(r[i].1))
      && (forall i, j :: 0 <= i < j < |r| ==> r[i].1 <= r[j].0)
  {
    var r := [(p, e)] + rest;
    forall i | 0 < i < |r|
      ensures r[i] == rest[i - 1]
    {
    }
  }

  /** A position covered by the head span or by the rest is covered by the whole list. */
  lemma CoveredCons(r: seq<(nat, nat)>, rest: seq<(nat, nat)>, q: nat)
    requires 0 < |r| && r[1..] == rest
    ensures r[0].0 <= q < r[0].1 ==> Covered(r, q)
    ensures Covered(rest, q) ==> Covered(r, q)
  {
    if Covered(rest, q) {
      var i :| 0 <= i < |rest| && rest[i].0 <= q < rest[i].1;
      assert r[i + 1] == rest[i];
    }
  }

  /** The URL matcher as a function of the start position. */
  function UrlMatcher(s: string): (m: nat -> Option<nat>)
    ensures Advances(m, |s|)
  {
    (q: nat) => if q <= |s| then MatchAt(s, q) else None
  }

  /** The `(start, end)` pairs of the URLs `extractUrls` finds in `s`. */
  function Spans(s: string): (r: seq<(nat, nat)>)
    ensures forall i :: 0 <= i < |r| ==> r[i].0 < r[i].1 <= |s|
    ensures forall i, j :: 0 <= i < j < |r| ==> r[i].1 <= r[j].0
  {
    FindAll(UrlMatcher(s), |s|, 0)
  }

  /** `extractUrls(text)`: the matched substrings, in order. */
  function ExtractUrls(s: string): (r: seq<string>)
    ensures |r| == |Spans(s)|
    ensures forall i :: 0 <= i < |r| ==> r[i] == s[Spans(s)[i].0..Spans(s)[i].1]
  {
    var spans := Spans(s);
    seq(|spans|, i requires 0 <= i < |spans| => s[spans[i].0..spans[i].1])
  }

  /**
    Each extracted URL is the longest string of the grammar starting where it
    starts, and the URLs appear in order without overlapping.
   */
  lemma ExtractedUrlIsLongestMatch(s: string, i: nat)
    requires i < |ExtractUrls(s)|
    ensures var (a, b) := Spans(s)[i];
      && a < b <= |s|
      && ExtractUrls(s)[i] == s[a..b]
      && UrlShaped(s[a..b])
      && (forall e: nat :: b < e <= |s| ==> !UrlShaped(s[a..e]))
      && (forall j :: i < j < |Spans(s)| ==> b <= Spans(s)[j].0)
  {
    var a := Spans(s)[i].0;
    assert UrlMatcher(s)(a) == MatchAt(s, a);
    MatchAtIsLongest(s, a);
  }

  /** Scanning skips a position only when no string of the grammar starts there. */
  lemma SkippedPositionsHoldNoUrl(s: string, q: nat)
    requires q < |s| && !Covered(Spans(s), q)
    ensures forall e: nat :: q <= e <= |s| ==> !UrlShaped(s[q..e])
  {
    assert UrlMatcher(s)(q) == MatchAt(s, q);
    MatchAtIsLongest(s, q);
  }

  /** Every extracted URL starts with `http://` or `https://` and its host has a dot. */
  lemma ExtractedUrlHasSchemeAndDottedHost(s: string, i: nat)
    requires i < |ExtractUrls(s)|
    ensures var u := ExtractUrls(s)[i];
      && (StartsWith(u, "http://") || StartsWith(u, "https://"))
      && exists k: nat, h: nat :: k <= h <= |u| && IsScheme(u[..k]) && IsDottedHost(u[k..h])
  {
    ExtractedUrlIsShaped(s, i);
    var u := ExtractUrls(s)[i];
    var k: nat, h: nat :| UrlShapedAt(u, k, h);
  }

  /** No extracted URL ends with `.`, `,` or `:`: trailing punctuation stays outside. */
  lemma ExtractedUrlEndsCleanly(s: string, i: nat)
    requires i < |ExtractUrls(s)|
    ensures var u := ExtractUrls(s)[i];
      0 < |u| && u[|u| - 1] != '.' && u[|u| - 1] != ',' && u[|u| - 1] != ':'
  {
    ExtractedUrlIsShaped(s, i);
    ShapedEndsCleanly(ExtractUrls(s)[i]);
  }

  lemma ExtractedUrlIsShaped(s: string, i: nat)
    requires i < |ExtractUrls(s)|
    ensures UrlShaped(ExtractUrls(s)[i])
  {
    ExtractedUrlIsLongestMatch(s, i);
  }

  /** A string of the grammar never ends with `.`, `,` or `:`. */
  lemma ShapedEndsCleanly(u: string)
    requires UrlShaped(u)
    ensures 0 < |u| && u[|u| - 1] != '.' && u[|u| - 1] != ',' && u[|u| - 1] != ':'
  {
    var k: nat, h: nat :| UrlShapedAt(u, k, h);
    ShapedBody(u, k, h);
  }

  /** `extractUrls` finds nothing exactly when no substring is in the grammar. */
  lemma ExtractUrlsEmptyIff(s: string)
    ensures ExtractUrls(s) == [] <==>
      forall q: nat, e: nat :: q <= e <= |s| ==> !UrlShaped(s[q..e])
  {
    if ExtractUrls(s) == [] {
      forall q: nat, e: nat | q <= e <= |s|
        ensures !UrlShaped(s[q..e])
      {
        if q < |s| {
          SkippedPositionsHoldNoUrl(s, q);
        } else {
          MatchAtIsLongest(s, q);
        }
      }
    } else {
      ExtractedUrlIsLongestMatch(s, 0);
    }
  }

  /** Text without `http://` or `https://` anywhere yields no URL. */
  lemma NoSchemeNoUrls(s: string)
    requires forall q: nat :: q <= |s| ==> !StartsWith(s[q..], "http://") && !StartsWith(s[q..], "https://")
    ensures ExtractUrls(s) == []
  {
    forall q: nat, e: nat | q <= e <= |s| && UrlShaped(s[q..e])
      ensures false
    {
      var k: nat, h: nat :| UrlShapedAt(s[q..e], k, h);
      ShapedScheme(s, q, e, k, h);
    }
    ExtractUrlsEmptyIff(s);
  }

  /** No match starts in `[p, q)`. */
  ghost predicate NoMatchIn(m: nat -> Option<nat>, p: nat, q: nat) {
    forall r: nat :: p <= r < q ==> m(r).None?
  }

  /**
    When the only match that can start anywhere is the one from `a` to `b`,
    the scan finds exactly that span.
   */
  lemma OnlySpan(m: nat -> Option<nat>, n: nat, a: nat, b: nat, r: seq<(nat, nat)>)
    requires a < b <= n && m(a) == Some(b) && ScanFacts(m, n, 0, r)
    requires NoMatchIn(m, 0, a) && NoMatchIn(m, b, n)
    ensures r == [(a, b)]
  {
    assert Covered(r, a);
    var i :| 0 <= i < |r| && r[i].0 <= a < r[i].1;
    assert r[i] == (a, b);
    forall j | 0 <= j < |r|
      ensures r[j].0 == a
    {
      assert m(r[j].0).Some?;
    }
    assert |r| == 1 by {
      assert r[0].0 == a && r[|r| - 1].0 == a;
    }
  }

  /** No URL starts at a character other than `h`. */
  lemma NoMatchWithoutH(s: string, q: nat)
    requires q < |s| && s[q] != 'h'
    ensures MatchAt(s, q).None?
  {
  }

  /**
    A string of the grammar at `s[p..e]` followed by a character outside the
    tail class is exactly the match at `p`.
   */
  lemma MatchEndsAtStop(s: string, p: nat, e: nat)
    requires p + 8 <= e < |s| && UrlShaped(s[p..e]) && !IsTailChar(s[e])
    ensures MatchAt(s, p).Some? && MatchAt(s, p).value == e
  {
    MatchAtIsLongest(s, p);
    NothingShapedPastStop(s, p, e);
    var r := MatchAt(s, p);
    assert r.Some? by {
      assert UrlShaped(s[p..e]);
    }
    var v := r.value;
    assert UrlShaped(s[p..v]);
    assert v <= e;
    assert e <= v;
  }

  /** No string of the grammar starting at `p` runs over the character at `e`. */
  lemma NothingShapedPastStop(s: string, p: nat, e: nat)
    requires p + 8 <= e < |s| && !IsTailChar(s[e])
    ensures forall e': nat :: e < e' <= |s| ==> !UrlShaped(s[p..e'])
  {
    forall e': nat, k: nat, h: nat | e < e' <= |s|
      ensures !UrlShapedAt(s[p..e'], k, h)
    {
      ShapedParts(s, p, e', k, h);
    }
  }

  /** Text whose only match runs from `a` to `b` yields exactly that one URL. */
  lemma SingleUrl(s: string, a: nat, b: nat)
    requires a < b <= |s| && MatchAt(s, a).Some? && MatchAt(s, a).value == b
    requires forall q: nat :: q < a ==> MatchAt(s, q).None?
    requires forall q: nat :: b <= q < |s| ==> MatchAt(s, q).None?
    ensures ExtractUrls(s) == [s[a..b]]
  {
    var m := UrlMatcher(s);
    assert NoMatchIn(m, 0, a) && NoMatchIn(m, b, |s|);
    OnlySpan(m, |s|, a, b, Spans(s));
  }

  /** The URL the pipeline resolves: the last one extracted (`lastOrNull`). */
  function LastUrl(s: string): (r: Option<string>)
    ensures r.None? <==> ExtractUrls(s) == []
    ensures r.Some? ==> r.value == ExtractUrls(s)[|ExtractUrls(s)| - 1]
  {
    var urls := ExtractUrls(s);
    if |urls| == 0 then None else Some(urls[|urls| - 1])
  }
}

/**
  The parts of the Kotlin and JVM runtime the application relies on, with their
  edge cases written out: `String.startsWith`, `indexOf`, `contains`,
  `substringAfter` and `substringBefore` (both return the whole receiver when the
  delimiter is missing), the 64-bit `Long` range with two's-complement
  wrap-around, the truncating remainder `%`, and the exception kinds the
  coroutine library raises.
 */
module Kotlin {
  import opened Wrappers

  predicate StartsWith(s: string, prefix: string) {
    |prefix| <= |s| && s[..|prefix|] == prefix
  }

  /** `pat` occurs in `s` starting at index `i`. */
  predicate OccursAt(s: string, pat: string, i: nat) {
    i + |pat| <= |s| && s[i..i + |pat|] == pat
  }

  /** `s.indexOf(pat, i)`: the first occurrence at or after `i`. */
  function IndexOfFrom(s: string, pat: string, i: nat): (r: Option<nat>)
    requires i <= |s|
    ensures r.Some? ==> i <= r.value && OccursAt(s, pat, r.value)
    ensures r.Some? ==> forall j :: i <= j < r.value ==> !OccursAt(s, pat, j)
    ensures r.None? ==> forall j :: i <= j <= |s| ==> !OccursAt(s, pat, j)
    decreases |s| - i
  {
    if |s| < i + |pat| then None
    else if s[i..i + |pat|] == pat then Some(i)
    else IndexOfFrom(s, pat, i + 1)
  }

  /** `s.indexOf(pat)`: `None` plays the part of Kotlin's `-1`. */
  function IndexOf(s: string, pat: string): (r: Option<nat>)
    ensures r.Some? <==> exists j :: OccursAt(s, pat, j)
    ensures r.Some? ==> OccursAt(s, pat, r.value) && forall j: nat :: j < r.value ==> !OccursAt(s, pat, j)
  {
    IndexOfFrom(s, pat, 0)
  }

  predicate Contains(s: string, pat: string) {
    IndexOf(s, pat).Some?
  }

  /** For a one-character pattern, `contains` is plain membership. */
  lemma ContainsChar(s: string, c: char)
    ensures Contains(s, [c]) <==> c in s
  {
    if c in s {
      var j :| 0 <= j < |s| && s[j] == c;
      assert OccursAt(s, [c], j);
    }
    if Contains(s, [c]) {
      var j := IndexOf(s, [c]).value;
      assert s[j..j + 1] == [c];
      assert s[j] == c;
    }
  }

  /** A pattern with a character the text lacks does not occur in it. */
  lemma MissingCharNotContained(s: string, pat: string, c: char)
    requires c in pat && c !in s
    ensures !Contains(s, pat)
  {
    var i :| 0 <= i < |pat| && pat[i] == c;
    forall j: nat
      ensures !OccursAt(s, pat, j)
    {
      if j + |pat| <= |s| {
        assert s[j..j + |pat|][i] == s[j + i] != c;
      }
    }
  }

  /** No `x` in `s` is directly followed by `y`. */
  ghost predicate NoPair(s: string, x: char, y: char) {
    forall i, j :: 0 <= i && j < |s| && i + 1 == j && s[i] == x ==> s[j] != y
  }

  /** Two texts without the pair, not joined by it, make a text without it. */
  lemma NoPairConcat(a: string, b: string, x: char, y: char)
    requires NoPair(a, x, y) && NoPair(b, x, y)
    requires |a| == 0 || |b| == 0 || a[|a| - 1] != x || b[0] != y
    ensures NoPair(a + b, x, y)
  {
    var ab := a + b;
    forall i, j | 0 <= i && j < |ab| && i + 1 == j && ab[i] == x
      ensures ab[j] != y
    {
      if j < |a| {
        assert ab[i] == a[i] && ab[j] == a[j];
      } else if i >= |a| {
        assert ab[i] == b[i - |a|] && ab[j] == b[j - |a|];
      }
    }
  }

  /** A pattern that starts with a pair the text never has does not occur in it. */
  lemma MissingPairNotContained(s: string, pat: string)
    requires 2 <= |pat| && NoPair(s, pat[0], pat[1])
    ensures !Contains(s, pat)
  {
    forall j: nat
      ensures !OccursAt(s, pat, j)
    {
      if j + |pat| <= |s| {
        var t := s[j..j + |pat|];
        assert t[0] == s[j] && t[1] == s[j + 1];
      }
    }
  }

  /** `s.substringAfter(d)`: the text after the first `d`, or all of `s` if `d` is absent. */
  function SubstringAfter(s: string, d: string): (r: string)
    ensures Contains(s, d) ==> s == s[..IndexOf(s, d).value] + d + r
    ensures !Contains(s, d) ==> r == s
  {
    match IndexOf(s, d)
    case Some(i) => s[i + |d|..]
    case None => s
  }

  /** `s.substringBefore(d)`: the text before the first `d`, or all of `s` if `d` is absent. */
  function SubstringBefore(s: string, d: string): (r: string)
    ensures StartsWith(s, r)
    ensures Contains(s, d) ==> |r| == IndexOf(s, d).value
    ensures !Contains(s, d) ==> r == s
    ensures |d| > 0 ==> !Contains(r, d)
  {
    match IndexOf(s, d)
    case Some(i) =>
      assert forall j :: OccursAt(s[..i], d, j) ==> OccursAt(s, d, j) by {
        forall j: nat | OccursAt(s[..i], d, j) ensures OccursAt(s, d, j) {
          assert s[..i][j..j + |d|] == s[j..j + |d|];
        }
      }
      s[..i]
    case None => s
  }

  /** What `substringBefore(c)` leaves behind is empty or starts at that `c`. */
  lemma BeforeCharSplit(s: string, c: char)
    ensures var r := SubstringBefore(s, [c]);
      c !in r && |r| <= |s| && s == r + s[|r|..] && (|r| == |s| || s[|r|] == c)
  {
    var r := SubstringBefore(s, [c]);
    ContainsChar(r, c);
    if Contains(s, [c]) {
      assert OccursAt(s, [c], IndexOf(s, [c]).value);
    }
  }

  /**
    `s.substringAfter(d).substringBefore(c)` on a string that holds `d`: the text
    between the first `d` and the next `c` after it, or the end of `s`.
   */
  lemma AfterThenBefore(s: string, d: string, c: char)
    requires Contains(s, d)
    ensures var r := SubstringBefore(SubstringAfter(s, d), [c]);
      c !in r && exists rest :: s == s[..IndexOf(s, d).value] + d + r + rest && (rest == [] || rest[0] == c)
  {
    var after := SubstringAfter(s, d);
    var r := SubstringBefore(after, [c]);
    BeforeCharSplit(after, c);
    var rest := after[|r|..];
    assert rest == [] || rest[0] == c;
    assert s == s[..IndexOf(s, d).value] + d + r + rest;
  }

  /** The range of a JVM `Long`. */
  const LONG_MIN: int := -0x8000_0000_0000_0000
  const LONG_MAX: int := 0x7FFF_FFFF_FFFF_FFFF
  const LONG_MODULUS: int := 0x1_0000_0000_0000_0000

  type Long = x: int | LONG_MIN <= x <= LONG_MAX

  /** The range of a JVM `Int`; widening it to `Long` loses nothing. */
  const INT_MIN: int := -0x8000_0000
  const INT_MAX: int := 0x7FFF_FFFF

  type Int = x: int | INT_MIN <= x <= INT_MAX

  /** Two's-complement wrap-around of a mathematical integer into a `Long`. */
  function WrapLong(x: int): (r: Long)
    ensures LONG_MIN <= x <= LONG_MAX ==> r == x
    ensures (x - r) % LONG_MODULUS == 0
  {
    (x - LONG_MIN) % LONG_MODULUS + LONG_MIN
  }

  /**
    The JVM remainder `a % b`: it truncates toward zero, so the result takes the
    sign of the dividend, unlike Dafny's Euclidean `%`.
   */
  function TruncRem(a: int, b: int): (r: int)
    requires b > 0
    ensures -b < r < b
    ensures a >= 0 ==> r >= 0
    ensures a < 0 ==> r <= 0
    ensures (if r < 0 then r + b else r) == a % b
  {
    if a >= 0 then a % b
    else
      NegatedRemainder(a, b);
      -((-a) % b)
  }

  /** Moving the sign out of a remainder: the Euclidean `a % b` for negative `a`. */
  lemma NegatedRemainder(a: int, b: int)
    requires a < 0 && b > 0
    ensures (-a) % b == 0 ==> a % b == 0
    ensures (-a) % b != 0 ==> a % b == b - (-a) % b
  {
    var q, t := (-a) / b, (-a) % b;
    assert -a == b * q + t;
    if t == 0 {
      assert a == b * (-q);
      EuclideanUnique(a, b, -q, 0);
    } else {
      assert a == b * (-q - 1) + (b - t);
      EuclideanUnique(a, b, -q - 1, b - t);
    }
  }

  /** Quotient and remainder are unique. */
  lemma EuclideanUnique(a: int, b: int, m: int, t: int)
    requires b > 0 && 0 <= t < b && a == b * m + t
    ensures a % b == t
  {
    var m', t' := a / b, a % b;
    assert b * (m' - m) == t - t';
    if m' != m {
      MultipleBound(b, m' - m);
    }
  }

  /** A non-zero multiple of `b` is at least `b` away from zero. */
  lemma MultipleBound(b: int, k: int)
    requires b > 0 && k != 0
    ensures b * k >= b || b * k <= -b
  {
    if k > 0 {
      PositiveMultiple(b, k);
    } else {
      PositiveMultiple(b, -k);
      assert b * k == -(b * -k);
    }
  }

  lemma PositiveMultiple(b: int, k: int)
    requires b > 0 && k > 0
    ensures b * k >= b
    decreases k
  {
    if k > 1 {
      PositiveMultiple(b, k - 1);
      assert b * k == b * (k - 1) + b;
    }
  }

  /** The classes of `Throwable` the application tells apart. */
  datatype ExceptionKind =
    | Ordinary              // any `Exception` that is not a cancellation
    | Cancellation          // `kotlinx.coroutines.CancellationException`
    | TimeoutCancellation   // `TimeoutCancellationException`, a subclass of the above

  /** A thrown exception: its class and its (nullable) `message`. */
  datatype Thrown = Thrown(kind: ExceptionKind, message: Option<string>) {
    /** `e is CancellationException`: true of the timeout subclass too. */
    predicate IsCancellation() {
      kind == Cancellation || kind == TimeoutCancellation
    }
  }
}

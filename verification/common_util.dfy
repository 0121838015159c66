/**
  The list and string helpers of `util/CommonUtil.kt`: cyclic indexing
  (`List.at`) and display truncation (`String.truncate`).
 */
module CommonUtil {
  import opened Wrappers
  import opened Kotlin

  /**
    `List.at(index: Long)`: the JVM remainder by the size, shifted up by the
    size when negative. On an empty list the remainder by zero throws
    `ArithmeticException`, which is `None` here. Whatever the sign of the
    index, the element is the one at the mathematical (floor) residue.
   */
  function At<T>(xs: seq<T>, index: Long): (r: Option<T>)
    ensures r.None? <==> |xs| == 0
    ensures r.Some? ==> r.value == xs[index % |xs|]
  {
    if |xs| == 0 then None
    else
      var fixedIndex := TruncRem(index, |xs|);
      var fixedIndex := if fixedIndex < 0 then fixedIndex + |xs| else fixedIndex;
      Some(xs[fixedIndex])
  }

  /** `List.at(index: Int)`: the same element as the `Long` overload at the widened index. */
  function AtInt<T>(xs: seq<T>, index: Int): (r: Option<T>)
    ensures r.None? <==> |xs| == 0
    ensures r.Some? ==> r.value == xs[index % |xs|]
  {
    At(xs, index as Long)
  }

  /** An index inside the list selects the element there, as plain indexing would. */
  lemma AtInRange<T>(xs: seq<T>, index: Long)
    requires 0 <= index < |xs|
    ensures At(xs, index) == Some(xs[index])
  {
    EuclideanUnique(index, |xs|, 0, index);
  }

  /** A negative index counts back from the end: `-1` is the last element. */
  lemma AtNegativeCountsFromEnd<T>(xs: seq<T>, index: Long)
    requires -|xs| <= index < 0
    ensures At(xs, index) == Some(xs[|xs| + index])
  {
    EuclideanUnique(index, |xs|, -1, |xs| + index);
  }

  /** Indices that differ by a multiple of the size select the same element. */
  lemma AtPeriodic<T>(xs: seq<T>, i: Long, j: Long, k: int)
    requires |xs| > 0 && i == j + k * |xs|
    ensures At(xs, i) == At(xs, j)
  {
    var n := |xs|;
    EuclideanUnique(i, n, j / n + k, j % n);
  }

  /**
    `String.truncate(maxLength)`: strings longer than the limit keep their first
    `maxLength` characters followed by `...`. A negative limit makes `substring`
    throw, which is `None` here.
   */
  function Truncate(s: string, maxLength: Int): (r: Option<string>)
    ensures r.None? <==> maxLength < 0
    ensures |s| <= maxLength ==> r == Some(s)
    ensures r.Some? && |s| > maxLength ==>
      |r.value| == maxLength + 3 && r.value[..maxLength] == s[..maxLength] && r.value[maxLength..] == "..."
  {
    if |s| > maxLength then
      if maxLength < 0 then None else Some(s[..maxLength] + "...")
    else
      Some(s)
  }

  /** Truncating an already truncated string with the same limit changes nothing. */
  lemma TruncateIdempotent(s: string, maxLength: Int)
    requires maxLength >= 0
    ensures Truncate(Truncate(s, maxLength).value, maxLength) == Truncate(s, maxLength)
  {
    if |s| > maxLength {
      var r := s[..maxLength] + "...";
      assert r[..maxLength] == s[..maxLength];
    }
  }
}

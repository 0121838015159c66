/**
  `List.elementEquals` of `util/CommonUtil.kt`: order-insensitive comparison of
  two lists by greedy matching. Each element of the first list claims the
  first unclaimed equal element of the second; the lists are equal when every
  element found a partner. `null` never equals anything (`value?.equals(o)`
  is `null` for a `null` value), so elements are `Option`s with `None` for `null`.
 */
module ElementEquals {
  import opened Wrappers

  /** `value?.equals(o) == true`. */
  predicate Matches<T(==)>(value: Option<T>, o: Option<T>) {
    value.Some? && o == value
  }

  /** The elements of `ys` whose tracker flag is set. */
  function Picked<T>(ys: seq<T>, tracker: seq<bool>): multiset<T>
    requires |ys| == |tracker|
    decreases |ys|
  {
    if |ys| == 0 then multiset{}
    else (if tracker[0] then multiset{ys[0]} else multiset{}) + Picked(ys[1..], tracker[1..])
  }

  /** The elements of `ys` whose tracker flag is clear. */
  function Unpicked<T>(ys: seq<T>, tracker: seq<bool>): multiset<T>
    requires |ys| == |tracker|
    decreases |ys|
  {
    if |ys| == 0 then multiset{}
    else (if tracker[0] then multiset{} else multiset{ys[0]}) + Unpicked(ys[1..], tracker[1..])
  }

  /** Picked and unpicked elements together are all of `ys`. */
  lemma {:induction false} PickedSplit<T>(ys: seq<T>, tracker: seq<bool>)
    requires |ys| == |tracker|
    ensures Picked(ys, tracker) + Unpicked(ys, tracker) == multiset(ys)
    decreases |ys|
  {
    if |ys| > 0 {
      PickedSplit(ys[1..], tracker[1..]);
      assert ys == [ys[0]] + ys[1..];
    }
  }

  /** With no flag set, nothing is picked. */
  lemma {:induction false} NothingPicked<T>(ys: seq<T>, tracker: seq<bool>)
    requires |ys| == |tracker|
    requires forall j :: 0 <= j < |tracker| ==> !tracker[j]
    ensures Picked(ys, tracker) == multiset{}
    decreases |ys|
  {
    if |ys| > 0 {
      NothingPicked(ys[1..], tracker[1..]);
    }
  }

  /** Claiming a free slot moves its element from the unpicked to the picked part. */
  lemma {:induction false} PickOne<T>(ys: seq<T>, tracker: seq<bool>, i: nat)
    requires |ys| == |tracker| && i < |ys| && !tracker[i]
    ensures Picked(ys, tracker[i := true]) == Picked(ys, tracker) + multiset{ys[i]}
    decreases |ys|
  {
    if i > 0 {
      PickOne(ys[1..], tracker[1..], i - 1);
      assert tracker[i := true][1..] == tracker[1..][i - 1 := true];
    } else {
      assert tracker[i := true][1..] == tracker[1..];
    }
  }

  /** When no free slot holds `x`, every copy of `x` in `ys` has been picked. */
  lemma {:induction false} AllCopiesPicked<T>(ys: seq<T>, tracker: seq<bool>, x: T)
    requires |ys| == |tracker|
    requires forall j :: 0 <= j < |ys| ==> tracker[j] || ys[j] != x
    ensures Unpicked(ys, tracker)[x] == 0
    decreases |ys|
  {
    if |ys| > 0 {
      assert forall j :: 0 <= j < |ys| - 1 ==> tracker[1..][j] == tracker[j + 1] && ys[1..][j] == ys[j + 1];
      AllCopiesPicked(ys[1..], tracker[1..], x);
    }
  }

  /** The inner loop: the first unclaimed slot of `other` holding an element equal to `value`. */
  method FindFree<T(==)>(other: seq<Option<T>>, tracker: seq<bool>, value: Option<T>) returns (found: Option<nat>)
    requires |other| == |tracker|
    ensures found.Some? ==> found.value < |other| && !tracker[found.value] && Matches(value, other[found.value])
    ensures found.Some? ==> forall j :: 0 <= j < found.value ==> tracker[j] || !Matches(value, other[j])
    ensures found.None? ==> forall j :: 0 <= j < |other| ==> tracker[j] || !Matches(value, other[j])
  {
    var i := 0;
    while i < |other|
      invariant i <= |other|
      invariant forall j :: 0 <= j < i ==> tracker[j] || !Matches(value, other[j])
    {
      if tracker[i] {
        i := i + 1;
        continue;
      } else if Matches(value, other[i]) {
        return Some(i);
      }
      i := i + 1;
    }
    return None;
  }

  /**
    `xs elementEquals ys`: true exactly when neither list holds a `null` in the
    first and the two hold the same elements with the same multiplicities.
   */
  method ElementEquals<T(==)>(xs: seq<Option<T>>, ys: seq<Option<T>>) returns (r: bool)
    ensures r <==> None !in xs && multiset(xs) == multiset(ys)
  {
    if |xs| != |ys| {
      return false;
    }
    var tracker := seq(|ys|, _ => false);
    var counter := 0;
    ghost var failed := false;
    NothingPicked(ys, tracker);
    var k := 0;
    while k < |xs|
      invariant k <= |xs| && |tracker| == |ys|
      invariant !failed ==> counter == k && None !in xs[..k] && Picked(ys, tracker) == multiset(xs[..k])
      invariant failed ==> counter < k && (None in xs || multiset(xs) != multiset(ys))
    {
      var value := xs[k];
      var found := FindFree(ys, tracker, value);
      assert xs[..k + 1] == xs[..k] + [value];
      if found.Some? {
        PickOne(ys, tracker, found.value);
        tracker := tracker[found.value := true];
        counter := counter + 1;
      } else {
        if !failed {
          Unmatched(xs, ys, tracker, k);
        }
        failed := true;
      }
      k := k + 1;
    }
    assert xs[..k] == xs;
    if !failed {
      PickedSplit(ys, tracker);
    }
    return counter == |xs|;
  }

  /**
    An element that finds no free partner after all earlier ones did makes the
    lists differ: it is `null`, or `ys` has no more copies of it than the
    elements before it already used.
   */
  lemma Unmatched<T>(xs: seq<Option<T>>, ys: seq<Option<T>>, tracker: seq<bool>, k: nat)
    requires k < |xs| && |tracker| == |ys|
    requires Picked(ys, tracker) == multiset(xs[..k])
    requires forall j :: 0 <= j < |ys| ==> tracker[j] || !Matches(xs[k], ys[j])
    ensures None in xs || multiset(xs) != multiset(ys)
  {
    var x := xs[k];
    if x.Some? {
      AllCopiesPicked(ys, tracker, x);
      PickedSplit(ys, tracker);
      assert multiset(ys)[x] == multiset(xs[..k])[x];
      assert xs == xs[..k] + [x] + xs[k + 1..];
      assert multiset(xs)[x] > multiset(xs[..k])[x];
    }
  }
}

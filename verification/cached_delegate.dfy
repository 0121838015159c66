/**
  `CachedDelegate` of `util/CommonUtil.kt`: a property whose value is computed
  by an initializer and kept until the keys it was computed for change.
 */
module CachedDelegate {
  import opened Wrappers
  import opened Kotlin

  /** The delegate's two fields: the cached value (`null` is `None`) and the keys it was made for. */
  datatype Cache<T, K> = Cache(cache: Option<T>, keys: seq<K>)

  /** A new delegate: nothing cached, no keys. */
  function Fresh<T, K>(): (c: Cache<T, K>)
    ensures c.cache.None? && |c.keys| == 0
  {
    Cache(None, [])
  }

  /**
    One read: what `getValue` returns or throws, the delegate afterwards, and
    whether the initializer ran.
   */
  datatype Read<T, K> = Read(value: Result<T, Thrown>, next: Cache<T, K>, computed: bool)

  /**
    `getValue`: `newKeys` are what `getKeys()` returns now and `initial` what
    `initializer()` would return or throw. The initializer runs exactly when
    nothing is cached or the keys differ element-wise from the remembered ones.
    The keys are replaced before it runs, so an initializer that throws leaves
    the old value cached under the new keys.
   */
  function GetValue<T, K(==)>(c: Cache<T, K>, newKeys: seq<K>, initial: Result<T, Thrown>): (r: Read<T, K>)
    ensures r.computed <==> c.cache.None? || c.keys != newKeys
    ensures r.next.keys == newKeys
    ensures r.computed ==> r.value == initial
    ensures r.computed && initial.Failure? ==> r.next.cache == c.cache
    ensures r.value.Success? ==> r.next.cache == Some(r.value.value)
    ensures !r.computed ==> r.value == Success(c.cache.value) && r.next == c
  {
    if c.cache.None? || c.keys != newKeys then
      match initial
      case Success(v) => Read(initial, Cache(Some(v), newKeys), true)
      case Failure(_) => Read(initial, c.(keys := newKeys), true)
    else
      Read(Success(c.cache.value), c, false)
  }

  /** `setValue`: replaces the cached value and keeps the keys. */
  function SetValue<T, K>(c: Cache<T, K>, value: T): (r: Cache<T, K>)
    ensures r.cache == Some(value) && r.keys == c.keys
  {
    c.(cache := Some(value))
  }

  /** Reading twice with the same keys runs the initializer at most once and returns one value. */
  lemma RereadIsCached<T, K>(c: Cache<T, K>, keys: seq<K>, first: T, second: Result<T, Thrown>)
    ensures var r1 := GetValue(c, keys, Success(first));
      var r2 := GetValue(r1.next, keys, second);
      !r2.computed && r2.value == r1.value && r2.next == r1.next
  {
  }

  /** A value that was set is read back as long as the keys stay the same. */
  lemma SetThenGet<T, K>(c: Cache<T, K>, value: T, keys: seq<K>, initial: Result<T, Thrown>)
    ensures keys == c.keys ==> GetValue(SetValue(c, value), keys, initial) == Read(Success(value), SetValue(c, value), false)
    ensures keys != c.keys ==> GetValue(SetValue(c, value), keys, initial).value == initial
  {
  }

  /** The first read of a fresh delegate always runs the initializer. */
  lemma FirstReadComputes<T, K>(keys: seq<K>, initial: T)
    ensures GetValue(Fresh<T, K>(), keys, Success(initial)) == Read(Success(initial), Cache(Some(initial), keys), true)
  {
  }

  /**
    After an initializer fails under new keys, the next read with those keys
    returns the value computed for the old keys and does not run the
    initializer again.
   */
  lemma FailedInitLeavesStaleValue<T, K>(c: Cache<T, K>, newKeys: seq<K>, e: Thrown, retry: Result<T, Thrown>)
    requires c.cache.Some? && c.keys != newKeys
    ensures var r1 := GetValue(c, newKeys, Failure(e));
      var r2 := GetValue(r1.next, newKeys, retry);
      r1.value == Failure(e) && !r2.computed && r2.value == Success(c.cache.value)
  {
  }
}

/** The in-memory TTL cache: a map from key to (value, absolute expiration),
    expired lazily when a `get` finds the entry past its expiration. The clock is
    an explicit `now` (whole seconds) instead of `datetime.now()`, and every
    operation returns the new map instead of mutating a shared one. */
module CacheService {
  import opened Wrappers
  import Text

  /** Time-to-live used when the caller gives none (or gives 0). */
  const DefaultTtl: int := 3600

  /** The key builder's delimiter. */
  const KeySeparator: char := ':'

  datatype Entry<V> = Entry(value: V, expiration: int)

  type Store<V> = map<string, Entry<V>>

  /** What `get` answers, together with the map it leaves behind. */
  datatype Lookup<V> = Lookup(cache: Store<V>, value: Option<V>)

  /** What `delete` answers, together with the map it leaves behind. */
  datatype Removal<V> = Removal(cache: Store<V>, removed: bool)

  /** `ttl or default_ttl`: Python treats both a missing ttl and 0 as false. */
  function EffectiveTtl(ttl: Option<int>): (t: int)
    ensures ttl == None || ttl == Some(0) ==> t == DefaultTtl
    ensures ttl.Some? && ttl.value != 0 ==> t == ttl.value
  {
    match ttl
    case None => DefaultTtl
    case Some(n) => if n == 0 then DefaultTtl else n
  }

  /** `set(key, value, ttl)` */
  function Set<V>(c: Store<V>, key: string, value: V, ttl: Option<int>, now: int): (c': Store<V>)
    ensures key in c' && c'[key].value == value
    ensures c'[key].expiration == now + EffectiveTtl(ttl)
    ensures c'.Keys == c.Keys + {key}
    ensures forall k :: k in c && k != key ==> c'[k] == c[k]
  {
    c[key := Entry(value, now + EffectiveTtl(ttl))]
  }

  /** `get(key)`: absent keys answer None; an entry whose expiration is strictly
      before `now` is evicted and answers None; any other entry answers its value. */
  function Get<V>(c: Store<V>, key: string, now: int): (r: Lookup<V>)
    ensures key !in c ==> r.value == None && r.cache == c
    ensures key in c && now > c[key].expiration ==> r.value == None && r.cache == c - {key}
    ensures key in c && now <= c[key].expiration ==> r.value == Some(c[key].value) && r.cache == c
  {
    if key !in c then Lookup(c, None)
    else if now > c[key].expiration then Lookup(c - {key}, None)
    else Lookup(c, Some(c[key].value))
  }

  /** `delete(key)`: reports whether an entry was there; afterwards none is. */
  function Delete<V>(c: Store<V>, key: string): (r: Removal<V>)
    ensures r.removed <==> key in c
    ensures r.cache.Keys == c.Keys - {key}
    ensures forall k :: k in r.cache ==> r.cache[k] == c[k]
  {
    if key in c then Removal(c - {key}, true) else Removal(c, false)
  }

  /** `clear()` */
  function Clear<V>(c: Store<V>): (c': Store<V>)
    ensures forall k :: k !in c'
  {
    map[]
  }

  /** `get_cache_key(*parts)`: the parts joined with the delimiter. */
  function GetCacheKey(parts: seq<string>): string {
    Text.Join(parts, KeySeparator)
  }

  /** A key built from delimiter-free parts splits back into exactly those parts,
      so two such keys are equal only when their parts are. */
  lemma CacheKeyRoundTrip(parts: seq<string>)
    requires |parts| >= 1 && Text.SeparatorFree(parts, KeySeparator)
    ensures Text.Split(GetCacheKey(parts), KeySeparator) == parts
  {
    Text.SplitJoin(parts, KeySeparator);
  }

  lemma CacheKeyExample()
    ensures GetCacheKey(["availability", "5", "2025-02-19"]) == "availability:5:2025-02-19"
  {
  }

  /** A value written at `now` is read back at any instant up to its expiration. */
  lemma SetThenGet<V>(c: Store<V>, key: string, value: V, ttl: Option<int>, now: int, later: int)
    requires later <= now + EffectiveTtl(ttl)
    ensures Get(Set(c, key, value, ttl, now), key, later) == Lookup(Set(c, key, value, ttl, now), Some(value))
  {
  }

  /** With the default ttl, the entry survives exactly 3600 seconds: still
      returned at `now + 3600`, evicted one second later. */
  lemma DefaultTtlBoundary<V>(c: Store<V>, key: string, value: V, now: int)
    ensures Get(Set(c, key, value, None, now), key, now + 3600).value == Some(value)
    ensures Get(Set(c, key, value, None, now), key, now + 3601).value == None
    ensures key !in Get(Set(c, key, value, None, now), key, now + 3601).cache
  {
  }

  /** Deleting twice: the first call reports a removal only if the key was
      there, the second never does, and a later `get` finds nothing. */
  lemma DeleteIdempotent<V>(c: Store<V>, key: string, now: int)
    ensures var first := Delete(c, key);
      && first.removed == (key in c)
      && !Delete(first.cache, key).removed
      && Get(first.cache, key, now).value == None
  {
  }

  /** A `get` that answers a value leaves the map as it was. */
  lemma HitLeavesCache<V>(c: Store<V>, key: string, now: int)
    requires Get(c, key, now).value.Some?
    ensures Get(c, key, now).cache == c
    ensures key in c && c[key].expiration >= now
  {
  }

  lemma GetAfterClear<V>(c: Store<V>, key: string, now: int)
    ensures Get(Clear(c), key, now).value == None
  {
  }
}

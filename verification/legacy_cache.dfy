/**
 The older copy of the engine in cache.go (package main, no background sweep).
 Its `Put`, `Get`, `Remove`, `evict` and `fetchFromBackingStore` have the same
 branches, tests and listener calls as those of cache/cache.go, so they are the
 functions of `LruCache`; its constructor is `LruCache.NewLRUCache` without a
 sweep interval. This module proves the behaviours its test file exercises,
 for every choice of keys, values, TTLs, loaders and times the tests fix to one
 example. The eviction scenario keeps the test's capacity of 2, and the refill
 scenario needs a non-negative default TTL.
 */
module LegacyCache {
  import opened LruCache
  import LruCacheProperties

  /** Capacity 2: writing three distinct keys evicts the first, exactly once, and a
      later read of it finds nothing when the loader finds nothing. */
  lemma EvictionScenario<K, V>(k1: K, k2: K, k3: K, v1: V, v2: V, v3: V, ttl: int,
                               t1: int, t2: int, t3: int, t4: int, load: K -> (V, bool), zero: V)
    requires k1 != k2 && k2 != k3 && k1 != k3
    requires !load(k1).1
    ensures var p1 := Put(NewLRUCache(2, ttl), k1, v1, [], t1);
      var p2 := Put(p1.cache, k2, v2, [], t2);
      var p3 := Put(p2.cache, k3, v3, [], t3);
      var g := Get(p3.cache, k1, load, zero, t4);
      && p1.events + p2.events + p3.events == [Evict(k1)]
      && k1 !in p3.cache.entries
      && g.value == zero
      && g.events == [Miss(k1)]
  {
    var c0: Cache<K, V> := NewLRUCache(2, ttl);
    var p1 := Put(c0, k1, v1, [], t1);
    LruCacheProperties.PutNewRoom(c0, k1, v1, [], t1);
    var p2 := Put(p1.cache, k2, v2, [], t2);
    LruCacheProperties.PutNewRoom(p1.cache, k2, v2, [], t2);
    assert p2.cache.order == [k2, k1];
    var p3 := Put(p2.cache, k3, v3, [], t3);
    LruCacheProperties.PutNewFull(p2.cache, k3, v3, [], t3);
    LruCacheProperties.GetAbsent(p3.cache, k1, load, zero, t4);
  }

  /** Writing a key twice keeps one entry, and a read within the expiry returns the
      second value. */
  lemma UpdateScenario<K, V>(capacity: int, ttl: int, k: K, v1: V, v2: V,
                             t1: int, t2: int, t3: int, load: K -> (V, bool), zero: V)
    requires t3 - t2 <= ttl
    ensures var p1 := Put(NewLRUCache(capacity, ttl), k, v1, [], t1);
      var p2 := Put(p1.cache, k, v2, [], t2);
      var g := Get(p2.cache, k, load, zero, t3);
      && |p2.cache.entries| == |p1.cache.entries| == 1
      && g.value == v2
      && g.events == [Hit(k)]
  {
  }

  /** A write followed by a removal leaves nothing to read: the read is a miss and
      returns the zero value when the loader finds nothing. */
  lemma RemoveScenario<K, V>(capacity: int, ttl: int, k: K, v: V,
                             t1: int, t2: int, load: K -> (V, bool), zero: V)
    requires !load(k).1
    ensures var p := Put(NewLRUCache(capacity, ttl), k, v, [], t1);
      var c := Remove(p.cache, k);
      var g := Get(c, k, load, zero, t2);
      && g.value == zero
      && g.events == [Miss(k)]
      && g.cache == c
  {
  }

  /** A read of a key not held that the loader resolves returns the loader's value and
      keeps it: an immediate second read is a single hit with the same value. */
  lemma RefillScenario<K, V>(c: Cache<K, V>, k: K, load: K -> (V, bool), zero: V, now: int)
    requires k !in c.entries && c.defaultTTL >= 0
    requires load(k).1
    ensures var g1 := Get(c, k, load, zero, now);
      var g2 := Get(g1.cache, k, load, zero, now);
      && g1.value == load(k).0
      && g1.events[0] == Miss(k)
      && g2.value == load(k).0
      && g2.events == [Hit(k)]
  {
  }

  /** A read more than the default expiry after a write gets the loader's answer, not
      the stored value: the zero value for a key the loader does not know, the
      loader's value for one it does. */
  lemma ExpiryScenario<K, V>(capacity: int, ttl: int, k: K, v: V,
                             t1: int, t2: int, load: K -> (V, bool), zero: V)
    requires t2 - t1 > ttl
    ensures var p := Put(NewLRUCache(capacity, ttl), k, v, [], t1);
      var g := Get(p.cache, k, load, zero, t2);
      && g.events == [Hit(k), Expire(k)]
      && g.value == (if load(k).1 then load(k).0 else zero)
  {
    var p := Put(NewLRUCache(capacity, ttl), k, v, [], t1);
    assert p.cache.order == [k];
    LruCacheProperties.GetStale(p.cache, k, load, zero, t2, 0);
  }

  /** Without a backing store, a read of a key not held is a miss that returns the
      zero value and leaves the cache as it was. */
  lemma NilBackingStoreScenario<K(!new), V>(c: Cache<K, V>, k: K, zero: V, now: int)
    requires k !in c.entries
    ensures Get(c, k, RefillStore(None, zero), zero, now) == Read(c, [Miss(k)], zero)
  {
  }
}

/**
 The LRU+TTL cache engine of cache/cache.go as pure functions.

 A cache is a map from key to item plus the recency order of the keys, most
 recently used first (the Go code keeps a `container/list` of items and a map
 from key to list element). Every operation takes the current time `now`
 explicitly and returns the new cache together with the listener calls it
 makes, as a sequence of events. The backing store is a function argument.
 */
module LruCache {
  import opened Recency

  datatype Option<T> = None | Some(value: T)

  /** One cached value: when it was last written or read, and how long it lives after that. */
  datatype Item<V> = Item(value: V, timestamp: int, expiry: int)

  /** A listener call; each carries only the key. */
  datatype Event<K> = Hit(key: K) | Miss(key: K) | Evict(key: K) | Expire(key: K)

  /** The cache state. `capacity` and `defaultTTL` are fixed at construction. */
  datatype Cache<K, V> = Cache(capacity: int, defaultTTL: int, entries: map<K, Item<V>>, order: seq<K>)

  /** The outcome of a state-changing operation with no result value. */
  datatype Step<K, V> = Step(cache: Cache<K, V>, events: seq<Event<K>>)

  /** The outcome of a read: new state, listener calls, and the value handed back. */
  datatype Read<K, V> = Read(cache: Cache<K, V>, events: seq<Event<K>>, value: V)

  /** How many entries a cache of the given capacity can hold: the insert path evicts
      only when `len >= capacity`, and evicting from an empty cache does nothing,
      so a capacity below one still lets one entry in. */
  function Bound(capacity: int): (n: nat)
    ensures n >= 1 && n >= capacity
    ensures capacity >= 1 ==> n == capacity
  {
    if capacity >= 1 then capacity else 1
  }

  /** The representation invariant: the order lists exactly the map's keys, each once,
      and there are no more of them than the capacity lets in. */
  ghost predicate Valid<K, V>(c: Cache<K, V>) {
    && NoDup(c.order)
    && (forall i :: 0 <= i < |c.order| ==> c.order[i] in c.entries)
    && (forall k :: k in c.entries ==> k in c.order)
    && |c.order| <= Bound(c.capacity)
  }

  /** Each key's last-touch time (zero for keys not held). */
  function Stamp<K, V>(entries: map<K, Item<V>>): K -> int {
    k => if k in entries then entries[k].timestamp else 0
  }

  /** No entry was touched after `now`, and the order lists keys from the most
      recently touched to the least recently touched. */
  ghost predicate RecencyOrdered<K, V>(c: Cache<K, V>, now: int) {
    && (forall k :: k in c.entries ==> c.entries[k].timestamp <= now)
    && Antitone(c.order, Stamp(c.entries))
  }

  /** An entry is stale once strictly more than its expiry has passed since its timestamp. */
  predicate IsStale<V>(item: Item<V>, now: int) {
    now - item.timestamp > item.expiry
  }

  /** The expiry a write uses: the first override if any is given, else the default. */
  function EffectiveTTL<K, V>(c: Cache<K, V>, ttl: seq<int>): (d: int)
    ensures |ttl| == 0 ==> d == c.defaultTTL
    ensures |ttl| > 0 ==> d == ttl[0]
  {
    if |ttl| > 0 then ttl[0] else c.defaultTTL
  }

  /** A new, empty cache. The capacity is not validated. */
  function NewLRUCache<K, V>(capacity: int, defaultTTL: int): (c: Cache<K, V>)
    ensures c.capacity == capacity && c.defaultTTL == defaultTTL
    ensures Valid(c)
    ensures |c.entries| == 0 && |c.order| == 0
  {
    Cache(capacity, defaultTTL, map[], [])
  }

  /** The loader actually consulted: the given backing store, or, when none is
      given, one that never finds anything and answers the zero value. */
  function RefillStore<K(!new), V>(backingStore: Option<K -> (V, bool)>, zero: V): (load: K -> (V, bool))
    ensures backingStore.None? ==> forall k :: !load(k).1 && load(k).0 == zero
    ensures backingStore.Some? ==> forall k :: load(k) == backingStore.value(k)
  {
    match backingStore
    case Some(store) => store
    case None => k => (zero, false)
  }

  /** Drops the least recently used entry (the back of the order) and reports it. */
  function EvictLRU<K, V>(c: Cache<K, V>): (r: Step<K, V>)
    ensures r.cache.capacity == c.capacity && r.cache.defaultTTL == c.defaultTTL
    ensures |c.order| == 0 ==> r == Step(c, [])
    ensures |c.order| > 0 ==>
      var lru := c.order[|c.order| - 1];
      && r.events == [Evict(lru)]
      && r.cache.order == c.order[..|c.order| - 1]
      && r.cache.entries == c.entries - {lru}
    ensures Valid(c) && |c.order| > 0 ==>
      var lru := c.order[|c.order| - 1];
      && Valid(r.cache)
      && r.events == [Evict(lru)]
      && lru !in r.cache.entries
      && |r.cache.order| == |c.order| - 1
      && (forall k :: k in c.entries && k != lru ==> k in r.cache.entries)
      && (forall k :: k in r.cache.entries ==> k in c.entries && r.cache.entries[k] == c.entries[k])
  {
    if |c.order| == 0 then Step(c, [])
    else
      var lru := c.order[|c.order| - 1];
      var rest := c.order[..|c.order| - 1];
      assert Valid(c) ==> forall i :: 0 <= i < |rest| ==> rest[i] != lru;
      Step(c.(entries := c.entries - {lru}, order := rest), [Evict(lru)])
  }

  /** Overwrites the item of a held key and moves the key to the front. */
  function MoveToFront<K, V>(c: Cache<K, V>, k: K, item: Item<V>): (r: Cache<K, V>)
    ensures r.capacity == c.capacity && r.defaultTTL == c.defaultTTL
    ensures r.entries == c.entries[k := item]
    ensures |r.order| > 0 && r.order[0] == k
    ensures Valid(c) && k in c.entries ==> Valid(r) && |r.order| == |c.order|
  {
    var r := c.(entries := c.entries[k := item], order := ToFront(c.order, k));
    assert Valid(c) && k in c.entries ==> |r.order| == |c.order| by {
      if Valid(c) && k in c.entries {
        var i :| 0 <= i < |c.order| && c.order[i] == k;
        ToFrontSplice(c.order, i);
      }
    }
    r
  }

  /** Adds the item of a new key at the front. */
  function PushFront<K, V>(c: Cache<K, V>, k: K, item: Item<V>): (r: Cache<K, V>)
    ensures r.capacity == c.capacity && r.defaultTTL == c.defaultTTL
    ensures r.entries == c.entries[k := item]
    ensures r.order == [k] + c.order
    ensures Valid(c) && k !in c.entries && |c.order| < Bound(c.capacity) ==> Valid(r)
  {
    var r := c.(entries := c.entries[k := item], order := [k] + c.order);
    assert Valid(c) && k !in c.entries ==> NoDup(r.order) by {
      if Valid(c) && k !in c.entries { PushNoDup(k, c.order); }
    }
    r
  }

  /** Writes `v` under `k`. An existing key is overwritten in place and moved to the
      front; a new key goes to the front, after an eviction if the cache is full. */
  function Put<K, V>(c: Cache<K, V>, k: K, v: V, ttl: seq<int>, now: int): (r: Step<K, V>)
    ensures r.cache.capacity == c.capacity && r.cache.defaultTTL == c.defaultTTL
    ensures k in r.cache.entries && r.cache.entries[k] == Item(v, now, EffectiveTTL(c, ttl))
    ensures |r.cache.order| > 0 && r.cache.order[0] == k
    ensures forall j :: j in r.cache.entries && j != k ==> j in c.entries && r.cache.entries[j] == c.entries[j]
    ensures |r.events| <= 1 && forall e :: e in r.events ==> e.Evict?
    ensures forall j :: j in c.entries && Evict(j) !in r.events ==> j in r.cache.entries
    ensures Valid(c) ==> Valid(r.cache)
  {
    var item := Item(v, now, EffectiveTTL(c, ttl));
    if k in c.entries then
      Step(MoveToFront(c, k, item), [])
    else
      var e := if |c.entries| >= c.capacity then EvictLRU(c) else Step(c, []);
      assert Valid(c) ==> Valid(e.cache) && k !in e.cache.entries && |e.cache.order| < Bound(c.capacity) by {
        if Valid(c) { SizeAgrees(c); }
      }
      Step(PushFront(e.cache, k, item), e.events)
  }

  /** Deletes `k` if present; no listener call. */
  function Remove<K, V>(c: Cache<K, V>, k: K): (r: Cache<K, V>)
    ensures r.capacity == c.capacity && r.defaultTTL == c.defaultTTL
    ensures k !in r.entries
    ensures forall j :: j in c.entries && j != k ==> j in r.entries
    ensures forall j :: j in r.entries ==> j in c.entries && r.entries[j] == c.entries[j]
    ensures k !in c.entries ==> r == c
    ensures Valid(c) ==> Valid(r) && |r.order| == |c.order| - (if k in c.entries then 1 else 0)
  {
    if k in c.entries then
      assert Valid(c) ==> |Without(c.order, k)| == |c.order| - 1 by {
        if Valid(c) {
          var i :| 0 <= i < |c.order| && c.order[i] == k;
          WithoutSplice(c.order, i);
        }
      }
      c.(entries := c.entries - {k}, order := Without(c.order, k))
    else c
  }

  /** Asks the backing store for `k`; a found value is written back with the default TTL. */
  function FetchFromBackingStore<K, V>(c: Cache<K, V>, k: K, load: K -> (V, bool), zero: V, now: int): (r: Read<K, V>)
    ensures !load(k).1 ==> r == Read(c, [], zero)
    ensures load(k).1 ==>
      && r.value == load(k).0
      && k in r.cache.entries
      && r.cache.entries[k] == Item(load(k).0, now, c.defaultTTL)
      && |r.cache.order| > 0 && r.cache.order[0] == k
      && r.cache.capacity == c.capacity && r.cache.defaultTTL == c.defaultTTL
      && (forall j :: j in r.cache.entries && j != k ==> j in c.entries && r.cache.entries[j] == c.entries[j])
      && (forall j :: j in c.entries && Evict(j) !in r.events ==> j in r.cache.entries)
      && |r.events| <= 1 && (forall e :: e in r.events ==> e.Evict?)
    ensures Valid(c) ==> Valid(r.cache)
  {
    var (v, found) := load(k);
    if found then
      var p := Put(c, k, v, [], now);
      Read(p.cache, p.events, v)
    else Read(c, [], zero)
  }

  /** Looks `k` up. A live entry is returned, moved to the front and re-stamped (sliding
      expiry). A stale entry is reported as a hit, then as expired, dropped, and the
      backing store is asked instead. An absent key is reported as a miss and the
      backing store is asked. */
  function Get<K, V>(c: Cache<K, V>, k: K, load: K -> (V, bool), zero: V, now: int): (r: Read<K, V>)
    ensures r.cache.capacity == c.capacity && r.cache.defaultTTL == c.defaultTTL
    ensures Valid(c) ==> Valid(r.cache)
    ensures |r.events| > 0 && r.events[0] == (if k in c.entries then Hit(k) else Miss(k))
  {
    if k in c.entries then
      var item := c.entries[k];
      if IsStale(item, now) then
        var f := FetchFromBackingStore(Remove(c, k), k, load, zero, now);
        Read(f.cache, [Hit(k), Expire(k)] + f.events, f.value)
      else
        Read(MoveToFront(c, k, item.(timestamp := now)), [Hit(k)], item.value)
    else
      var f := FetchFromBackingStore(c, k, load, zero, now);
      Read(f.cache, [Miss(k)] + f.events, f.value)
  }

  /** The keys stale at `now`. */
  function StaleKeys<K, V>(c: Cache<K, V>, now: int): set<K> {
    set k | k in c.entries && IsStale(c.entries[k], now)
  }

  /** One `Expire` event per key, in order. */
  function ExpireAll<K>(ks: seq<K>): (es: seq<Event<K>>)
    ensures |es| == |ks|
    ensures forall i :: 0 <= i < |ks| ==> es[i] == Expire(ks[i])
    ensures NoDup(ks) ==> NoDup(es)
  {
    if |ks| == 0 then [] else [Expire(ks[0])] + ExpireAll(ks[1..])
  }

  /** The cache cut down to the entries whose keys are in `keys`, order kept. */
  function Retain<K, V>(c: Cache<K, V>, keys: set<K>): (r: Cache<K, V>)
    ensures r.capacity == c.capacity && r.defaultTTL == c.defaultTTL
    ensures forall k :: k in c.entries && k in keys ==> k in r.entries
    ensures forall k :: k in r.entries ==> k in c.entries && k in keys && r.entries[k] == c.entries[k]
    ensures Subseq(r.order, c.order)
    ensures Valid(c) ==> Valid(r)
  {
    KeepSubseq(c.order, keys);
    c.(entries := map k | k in c.entries && k in keys :: c.entries[k], order := Keep(c.order, keys))
  }

  /** The eager sweep: every entry stale at `now` is dropped and reported as expired. */
  function CleanupExpiredEntries<K, V>(c: Cache<K, V>, now: int): (r: Step<K, V>)
    ensures r.cache.capacity == c.capacity && r.cache.defaultTTL == c.defaultTTL
    ensures forall k :: k in r.cache.entries ==> !IsStale(r.cache.entries[k], now)
    ensures forall k :: k in c.entries && !IsStale(c.entries[k], now) ==>
      k in r.cache.entries && r.cache.entries[k] == c.entries[k]
    ensures forall k :: k in r.cache.entries ==> k in c.entries
    ensures Subseq(r.cache.order, c.order)
    ensures Valid(c) ==> Valid(r.cache)
    ensures forall i :: 0 <= i < |r.events| ==> r.events[i].Expire? && r.events[i].key in StaleKeys(c, now)
    ensures Valid(c) ==> NoDup(r.events)
    ensures Valid(c) ==> forall k :: k in StaleKeys(c, now) ==> Expire(k) in r.events
  {
    var stale := StaleKeys(c, now);
    var live := set k | k in c.entries && !IsStale(c.entries[k], now);
    var swept := Keep(c.order, stale);
    var r := Step(Retain(c, live), ExpireAll(swept));
    assert forall i :: 0 <= i < |r.events| ==> r.events[i].Expire? && r.events[i].key in stale by {
      forall i | 0 <= i < |r.events| ensures r.events[i].Expire? && r.events[i].key in stale {
        assert r.events[i] == Expire(swept[i]);
      }
    }
    assert Valid(c) ==> forall k :: k in stale ==> Expire(k) in r.events by {
      if Valid(c) {
        forall k | k in stale ensures Expire(k) in r.events {
          var i :| 0 <= i < |c.order| && c.order[i] == k;
          var j :| 0 <= j < |swept| && swept[j] == k;
          assert r.events[j] == Expire(k);
        }
      }
    }
    r
  }

  /** A valid cache holds as many entries as its order lists keys. */
  lemma SizeAgrees<K, V>(c: Cache<K, V>)
    requires Valid(c)
    ensures |c.entries| == |c.order|
  {
    NoDupCard(c.order);
    assert c.entries.Keys == Elems(c.order);
  }
}

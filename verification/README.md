# LRU+TTL cache engine, modelled in Dafny

This project models the in-process key/value cache of the `in-memory-cache`
repository. The cache is bounded and combines least-recently-used eviction with
a per-entry time-to-live. On a miss or an expired entry it can fall back to a
backing-store loader, and it reports four listener events: hit, miss, evict and
expire.

The engine exists twice in the repository. `cache/cache.go` is the current
version, with a background sweeper. `cache.go` is an older copy in package
`main` without the sweeper. Their `Put`, `Get`, `Remove`, `evict` and
`fetchFromBackingStore` are the same code, so one sequential model covers both.

- `recency.dfy` (module `Recency`): key sequences used as a recency order, most
  recently used first. It defines the list operations the engine performs on
  its `container/list`: removing a node, moving a node to the front, and
  filtering out a set of nodes. It also has the facts about them that the
  proofs use: splicing, subsequences, and orders sorted by a rank.
- `lru_cache.dfy` (module `LruCache`): the state and operations of
  `cache/cache.go`, written as pure functions.
  - `Cache` holds `capacity`, `defaultTTL`, a `map<K, Item<V>>` and the order
    `seq<K>`.
  - `Item` mirrors `CacheItem`. It has no key field, because the key is the map
    key.
  - Every operation takes the current time `now` as an integer. It returns the
    new cache and the listener calls it makes, as a sequence of `Event`s.
  - `Get` and `FetchFromBackingStore` take the loader `K -> (V, bool)` and the
    zero value of `V` as arguments.
- `lru_cache_properties.dfy` (module `LruCacheProperties`): one lemma for each
  path through `Put` and `Get`, plus removal of a held key and a sweep that
  changes nothing when repeated. It also proves the capacity bound, strict and
  sliding expiry, and that eviction takes the entry touched longest ago.
- `legacy_cache.dfy` (module `LegacyCache`): the behaviours that `cache_test.go`
  exercises against `cache.go`. Each is proved for all keys, values, TTLs,
  loaders and times, not only the one example each test fixes. The eviction
  scenario keeps the test's capacity of 2, and the refill scenario needs a
  non-negative default TTL.

The representation invariant `LruCache.Valid` has three parts:
- the order has no duplicates;
- the order lists exactly the map's keys;
- the order's length is at most `Bound(capacity)`, which is `max(capacity, 1)`.

The constructor does not validate the capacity. The insert path evicts when
`len(c.cache) >= c.capacity`, and evicting from an empty list does nothing. So a
capacity of zero or less still lets one entry in. The `capacity`-only bound is
`LruCacheProperties.CapacityBound`, which requires `capacity >= 1`.

The invariant `LruCache.RecencyOrdered(c, now)` says two things:
- no entry was touched after `now`;
- the order is sorted by touch time.

It holds when the clock never goes backwards. Under it, the back of the order
is the entry whose last write or successful read is oldest
(`EvictsLeastRecentlyUsed`).

Behaviours a reader might not expect, kept as the code has them:
- `OnHit` fires for every key that is present, before the staleness test
  (cache/cache.go:162-165). So a `Get` on a stale entry reports `Hit` and then
  `Expire`, and never `Miss`.
- A non-positive capacity is accepted. It behaves as capacity one.
- The expiry is not validated, and the staleness test is
  `now - timestamp > expiry` (cache/cache.go:115, 165). A zero expiry goes stale
  once any time has passed. A negative one is stale at the instant it is
  written: `OverrideGovernsExpiry` with a negative override and `t == t0`
  yields `Hit`, `Expire`.

## Model

| member | source | states |
|---|---|---|
| LruCache.NewLRUCache | cache/cache.go:79-88 | a new cache keeps the given capacity and default TTL unvalidated, holds no entries and satisfies the representation invariant |
| LruCache.RefillStore | cache/cache.go:70-78 | without a backing store, the loader consulted finds nothing for any key and answers the zero value; with one, it is that store |
| LruCache.EvictLRU | cache/cache.go:194-201 | on a non-empty cache, exactly the back key of the order is dropped and reported with one `Evict`; the surviving keys keep their places in the order and their items; on a valid cache the invariant is kept and the size drops by one; an empty cache is left alone with no event |
| LruCache.Put | cache/cache.go:132-157 | afterwards the key holds `Item(v, now, expiry)` and is at the front; every other remaining entry is as before, and an entry is lost only if an `Evict` names it; at most one event, which is an `Evict`; the representation invariant (capacity bound included) is preserved |
| LruCache.Remove | cache/cache.go:184-192 | afterwards the key is absent and every other entry is unchanged; an absent key leaves the cache identical; the invariant is preserved and the order shrinks by one exactly when the key was held; no event can be emitted |
| LruCache.FetchFromBackingStore | cache/cache.go:203-210 | loader says not found: cache unchanged, no event, zero value; loader finds `v`: `v` is returned and written as a `Put` with the default TTL would write it: the key in front with `Item(v, now, defaultTTL)`, every other remaining entry as before, an entry lost only if the single possible `Evict` names it; the invariant is preserved |
| LruCache.Get | cache/cache.go:159-182 | the first event is `Hit` when the key is held (live or stale) and `Miss` otherwise; the representation invariant is preserved |
| LruCache.CleanupExpiredEntries | cache/cache.go:107-122 | afterwards no entry is stale at `now`; every entry that was not stale is kept unchanged; the order is a subsequence of the old one; the invariant is preserved; every event is an `Expire` of a key that was stale, each stale key is reported, and none is reported twice |
| Recency.WithoutSplice | cache/cache.go:188-190 | unlinking a key from a duplicate-free order splices it out at its position, leaving the other keys in their relative order |
| Recency.ToFrontSplice | cache/cache.go:141-142 | moving a held key to the front puts it first and leaves the other keys in their relative order |
| LruCacheProperties.CapacityBound | cache/cache.go:150-156 | with capacity at least one, a valid cache never holds more than `capacity` entries |
| LruCacheProperties.PutExisting | cache/cache.go:141-148 | writing a held key moves it to the front (others keep their order), overwrites value, timestamp and expiry, changes no other entry or the size, and emits nothing |
| LruCacheProperties.PutNewFull | cache/cache.go:150-156 | writing a new key into a full cache drops exactly the last key of the order with a single `Evict` for it, puts the new key in front with timestamp `now`, keeps all other entries, and keeps the size |
| LruCacheProperties.PutNewRoom | cache/cache.go:150-156 | writing a new key into a cache with room evicts nothing and grows it by one, new key in front; this includes the empty cache of a non-positive capacity, whose eviction finds nothing |
| LruCacheProperties.GetLive | cache/cache.go:162-176 | a live read returns the stored value, emits just `Hit`, moves the key to the front and re-stamps it with `now`; nothing else changes |
| LruCacheProperties.GetStale | cache/cache.go:163-170 | a stale read emits exactly `Hit` then `Expire` (no `Miss`, and no `Evict` from the refill), removes the entry and returns the loader's answer; a found value is stored in front with the default TTL, otherwise the entry is simply gone with the order spliced |
| LruCacheProperties.StaleRefill | cache/cache.go:166-170 | the stale path is the refill of the cache with the entry removed, and that refill emits no event |
| LruCacheProperties.RefillWithRoom | cache/cache.go:203-210 | a refill into a valid cache that has room for the key emits no event and stores the found value in front with the default TTL |
| LruCacheProperties.GetAbsent | cache/cache.go:179-181 | a read of a key not held emits `Miss`; if the loader finds nothing the zero value is returned and the cache is unchanged; otherwise the loader's value is returned and written exactly as `Put` without override would write it, eviction included |
| LruCacheProperties.LiveAtDeadline | cache/cache.go:165 | staleness is strict: a read exactly `expiry` after the timestamp is still a hit returning the stored value |
| LruCacheProperties.OverrideGovernsExpiry | cache/cache.go:136-146 | after a write with a TTL override, a read within the override is a hit with the written value and a read after it starts with `Hit`, `Expire`, whatever the default TTL |
| LruCacheProperties.SlidingExpiry | cache/cache.go:172-173 | a live read restarts the expiry window: a second read within `expiry` of the first is a hit with the same value |
| LruCacheProperties.RemoveHeld | cache/cache.go:188-191 | removing a held key splices it out of the order and deletes exactly that map entry |
| LruCacheProperties.CleanupIdempotent | cache/cache.go:107-122 | a second sweep at the same time changes nothing and emits nothing |
| LruCacheProperties.EvictsLeastRecentlyUsed | cache/cache.go:194-201 | in a cache whose order is sorted by touch time, the key at the back (the one evicted) has the oldest timestamp of all entries |
| LruCacheProperties.PutKeepsRecencyOrder | cache/cache.go:141-156 | a write at a time no earlier than every earlier touch keeps the order sorted by touch time |
| LruCacheProperties.GetKeepsRecencyOrder | cache/cache.go:159-182 | a read (live, stale or absent, with or without refill) at a time no earlier than every earlier touch keeps the order sorted by touch time |
| LruCacheProperties.RemoveKeepsRecencyOrder | cache/cache.go:184-192 | removal keeps the order sorted by touch time |
| LruCacheProperties.CleanupKeepsRecencyOrder | cache/cache.go:107-122 | the sweep keeps the order sorted by touch time |
| LegacyCache.EvictionScenario | cache.go:147-154 | with capacity 2, writing three distinct keys reports exactly one eviction, of the first key; a later read of it is a `Miss` returning zero when the loader finds nothing |
| LegacyCache.UpdateScenario | cache.go:94-101 | writing a key twice leaves one entry, and a read within the TTL returns the second value with a single `Hit` |
| LegacyCache.RemoveScenario | cache.go:137-145 | write, remove, read: the read is a `Miss` returning zero when the loader finds nothing, and the cache stays as the removal left it |
| LegacyCache.RefillScenario | cache.go:156-163 | a read of an absent key the loader resolves starts with `Miss` and returns the loader's value; an immediate second read is a single `Hit` returning the same value (for a non-negative default TTL) |
| LegacyCache.ExpiryScenario | cache.go:118-123 | a read more than the TTL after a write emits `Hit`, `Expire` and returns the loader's answer, either the zero value or the loader's value, instead of the stored one |
| LegacyCache.NilBackingStoreScenario | cache.go:66-74 | without a backing store, a read of an absent key is a `Miss` returning zero and leaves the cache unchanged |

## Left out

- The background sweeper is not modelled: `startCleanup`, its ticker, the `stopCleanup` channel and `Close` (cache/cache.go:93-105, 124-130) are goroutine scheduling. Only the sweep body is modelled, as `CleanupExpiredEntries`. `closeOnce` is a package-level variable (cache/cache.go:124), so only the first cache ever closed stops its sweeper; later `Close` calls on other caches do nothing.
- Locking is not modelled. The model is single-threaded. `Get` changes the list and the item while holding only the read lock (cache/cache.go:160-175), so concurrent reads race. Concurrent misses that each call the loader and insert are also out of scope.
- Wall-clock time is not modelled: `time.Now` and `time.Since` become the integer `now`. The refill's `Put` uses the same `now` as the staleness check in `Get`, although Go reads the clock again. `time.Duration` is an unbounded integer here, so 64-bit overflow of durations is not modelled.
- Printing is not modelled: the `fmt.Println` calls in `NoOpCacheListener` and in the sweep are output only. The choice between the user's listener and `NoOpCacheListener` in `NewLRUCache` is not modelled either, since both receive the same event sequence.
- `LruCache.NewLRUCache`: does not take the listener, the backing store or the sweep interval. The backing-store default is `RefillStore`, and the loader is passed to `Get` on each call.
- The order in which Go ranges over the map during the sweep is unspecified. The model emits the `Expire` events in recency order, and the contract states them only as a set without repeats.
- `LruCache.Get`: its own contract states only the first event and that the invariant is kept. The per-path behaviour is in `GetLive`, `GetStale` and `GetAbsent`.
- `main.go` is a demo driver with no logic of its own.

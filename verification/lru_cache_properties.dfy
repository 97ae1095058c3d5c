/**
 What the cache operations of cache/cache.go promise, case by case: the size
 bound, the three paths through `Put`, the three paths through `Get`, removal of
 a held key, a repeated sweep changing nothing, and least-recently-used eviction
 measured by touch times.
 */
module LruCacheProperties {
  import opened Recency
  import opened LruCache

  /** With a capacity of at least one, a valid cache never holds more than `capacity` entries. */
  lemma CapacityBound<K, V>(c: Cache<K, V>)
    requires Valid(c) && c.capacity >= 1
    ensures |c.entries| <= c.capacity
  {
    SizeAgrees(c);
  }

  /** `Put` on a key already held: it moves to the front with the new value, timestamp
      and expiry; everything else, the size included, stays; no listener call. */
  lemma PutExisting<K, V>(c: Cache<K, V>, k: K, v: V, ttl: seq<int>, now: int, i: nat)
    requires Valid(c) && i < |c.order| && c.order[i] == k
    ensures var r := Put(c, k, v, ttl, now);
      && r.events == []
      && r.cache.order == [k] + (c.order[..i] + c.order[i+1..])
      && r.cache.entries == c.entries[k := Item(v, now, EffectiveTTL(c, ttl))]
      && |r.cache.entries| == |c.entries|
  {
    ToFrontSplice(c.order, i);
  }

  /** `Put` of a new key into a full cache: exactly the back (least recently used) key
      is dropped and reported once, the new key goes in front, the rest stays, and
      the size is unchanged. */
  lemma PutNewFull<K, V>(c: Cache<K, V>, k: K, v: V, ttl: seq<int>, now: int)
    requires Valid(c) && k !in c.entries && |c.entries| >= c.capacity && |c.entries| > 0
    ensures var lru := c.order[|c.order| - 1];
      var r := Put(c, k, v, ttl, now);
      && lru != k
      && r.events == [Evict(lru)]
      && r.cache.order == [k] + c.order[..|c.order| - 1]
      && r.cache.entries == (c.entries - {lru})[k := Item(v, now, EffectiveTTL(c, ttl))]
      && |r.cache.entries| == |c.entries|
  {
    SizeAgrees(c);
    var r := Put(c, k, v, ttl, now);
    SizeAgrees(r.cache);
  }

  /** `Put` of a new key into a cache with room: no eviction, the key goes in front,
      and the cache grows by one. "Room" includes the empty cache of a capacity below
      one, where the eviction that fires finds nothing to drop. */
  lemma PutNewRoom<K, V>(c: Cache<K, V>, k: K, v: V, ttl: seq<int>, now: int)
    requires Valid(c) && k !in c.entries && |c.entries| < Bound(c.capacity)
    ensures var r := Put(c, k, v, ttl, now);
      && r.events == []
      && r.cache.order == [k] + c.order
      && r.cache.entries == c.entries[k := Item(v, now, EffectiveTTL(c, ttl))]
      && |r.cache.entries| == |c.entries| + 1
  {
    SizeAgrees(c);
  }

  /** `Get` of a live entry: the stored value, one `Hit`, the key moved to the front
      and re-stamped with `now`; nothing else changes. */
  lemma GetLive<K, V>(c: Cache<K, V>, k: K, load: K -> (V, bool), zero: V, now: int, i: nat)
    requires Valid(c) && i < |c.order| && c.order[i] == k
    requires !IsStale(c.entries[k], now)
    ensures var r := Get(c, k, load, zero, now);
      && r.value == c.entries[k].value
      && r.events == [Hit(k)]
      && r.cache.order == [k] + (c.order[..i] + c.order[i+1..])
      && r.cache.entries == c.entries[k := c.entries[k].(timestamp := now)]
  {
    ToFrontSplice(c.order, i);
  }

  /** `Get` of a stale entry: `Hit` then `Expire` and never `Miss`; the entry goes, and
      the loader's answer is returned. A found value is written back in front with the
      default expiry; that write evicts nothing, since the stale entry freed a slot. */
  lemma GetStale<K, V>(c: Cache<K, V>, k: K, load: K -> (V, bool), zero: V, now: int, i: nat)
    requires Valid(c) && i < |c.order| && c.order[i] == k
    requires IsStale(c.entries[k], now)
    ensures var r := Get(c, k, load, zero, now);
      && r.events == [Hit(k), Expire(k)]
      && r.value == (if load(k).1 then load(k).0 else zero)
      && (load(k).1 ==>
            && r.cache.order == [k] + (c.order[..i] + c.order[i+1..])
            && r.cache.entries == c.entries[k := Item(load(k).0, now, c.defaultTTL)])
      && (!load(k).1 ==>
            && r.cache.order == c.order[..i] + c.order[i+1..]
            && r.cache.entries == c.entries - {k})
  {
    var r := Get(c, k, load, zero, now);
    var d := Remove(c, k);
    var f := StaleRefill(c, k, load, zero, now);
    assert r.events == [Hit(k), Expire(k)];
    RemoveHeld(c, k, i);
    if load(k).1 {
      var item := Item(load(k).0, now, c.defaultTTL);
      ReplaceAfterDelete(c.entries, k, item);
      assert r.value == load(k).0;
      assert r.cache.order == [k] + (c.order[..i] + c.order[i+1..]);
      assert r.cache.entries == c.entries[k := item];
    } else {
      assert r.value == zero;
      assert r.cache == d;
    }
  }

  /** Deleting a key and then setting it is the same as setting it. */
  lemma ReplaceAfterDelete<K, X>(m: map<K, X>, k: K, x: X)
    ensures (m - {k})[k := x] == m[k := x]
  {
  }

  /** The stale path of `Get` is the refill of the cache with the entry removed. */
  lemma StaleRefill<K, V>(c: Cache<K, V>, k: K, load: K -> (V, bool), zero: V, now: int) returns (f: Read<K, V>)
    requires Valid(c) && k in c.entries && IsStale(c.entries[k], now)
    ensures var r := Get(c, k, load, zero, now);
      && f == FetchFromBackingStore(Remove(c, k), k, load, zero, now)
      && r == Read(f.cache, [Hit(k), Expire(k)] + f.events, f.value)
      && f.events == []
      && (load(k).1 ==>
            && f.value == load(k).0
            && f.cache.order == [k] + Remove(c, k).order
            && f.cache.entries == Remove(c, k).entries[k := Item(load(k).0, now, c.defaultTTL)])
      && (!load(k).1 ==> f == Read(Remove(c, k), [], zero))
  {
    var d := Remove(c, k);
    f := FetchFromBackingStore(d, k, load, zero, now);
    assert |d.entries| < Bound(c.capacity) by {
      SizeAgrees(c);
      SizeAgrees(d);
    }
    RefillWithRoom(d, k, load, zero, now);
  }

  /** The backing-store refill into a cache with room for the key evicts nothing. */
  lemma RefillWithRoom<K, V>(d: Cache<K, V>, k: K, load: K -> (V, bool), zero: V, now: int)
    requires Valid(d) && k !in d.entries && |d.entries| < Bound(d.capacity)
    ensures var f := FetchFromBackingStore(d, k, load, zero, now);
      && f.events == []
      && (load(k).1 ==>
            && f.cache.order == [k] + d.order
            && f.cache.entries == d.entries[k := Item(load(k).0, now, d.defaultTTL)])
      && (!load(k).1 ==> f.cache == d)
  {
    if load(k).1 {
      PutNewRoom(d, k, load(k).0, [], now);
    }
  }

  /** `Get` of a key not held: one `Miss` first. When the loader finds nothing, the zero
      value comes back and the cache is untouched; when it finds `v`, `v` comes back
      and is written exactly as `Put(k, v)` with no expiry override would write it,
      eviction included. */
  lemma GetAbsent<K, V>(c: Cache<K, V>, k: K, load: K -> (V, bool), zero: V, now: int)
    requires k !in c.entries
    ensures var r := Get(c, k, load, zero, now);
      && (!load(k).1 ==> r == Read(c, [Miss(k)], zero))
      && (load(k).1 ==>
            var p := Put(c, k, load(k).0, [], now);
            && r.value == load(k).0
            && r.cache == p.cache
            && r.events == [Miss(k)] + p.events)
  {
  }

  /** Expiry is strict: an entry read exactly `expiry` after its timestamp is still a hit. */
  lemma LiveAtDeadline<K, V>(c: Cache<K, V>, k: K, load: K -> (V, bool), zero: V)
    requires k in c.entries
    ensures var now := c.entries[k].timestamp + c.entries[k].expiry;
      var r := Get(c, k, load, zero, now);
      && r.value == c.entries[k].value
      && r.events == [Hit(k)]
  {
  }

  /** An expiry override on `Put` decides when the entry goes stale, whatever the
      default: a read within the override is a hit, a read after it expires the entry. */
  lemma OverrideGovernsExpiry<K, V>(c: Cache<K, V>, k: K, v: V, d: int, t0: int, t: int,
                                    load: K -> (V, bool), zero: V)
    ensures var p := Put(c, k, v, [d], t0);
      var g := Get(p.cache, k, load, zero, t);
      && (t - t0 <= d ==> g.value == v && g.events == [Hit(k)])
      && (t - t0 > d ==> |g.events| >= 2 && g.events[..2] == [Hit(k), Expire(k)])
  {
  }

  /** Reads slide the expiry window: after a live read at `now`, the same key read
      again at any `later` within its expiry of `now` is a hit with the same value. */
  lemma SlidingExpiry<K, V>(c: Cache<K, V>, k: K, load: K -> (V, bool), zero: V, now: int, later: int)
    requires k in c.entries && !IsStale(c.entries[k], now)
    requires later - now <= c.entries[k].expiry
    ensures var r := Get(c, k, load, zero, now);
      var r' := Get(r.cache, k, load, zero, later);
      && r'.value == c.entries[k].value
      && r'.events == [Hit(k)]
  {
  }

  /** `Remove` of a held key splices it out of the order; the other entries stay. */
  lemma RemoveHeld<K, V>(c: Cache<K, V>, k: K, i: nat)
    requires Valid(c) && i < |c.order| && c.order[i] == k
    ensures Remove(c, k).order == c.order[..i] + c.order[i+1..]
    ensures Remove(c, k).entries == c.entries - {k}
  {
    WithoutSplice(c.order, i);
  }

  /** A second sweep at the same time finds nothing more to do. */
  lemma CleanupIdempotent<K, V>(c: Cache<K, V>, now: int)
    requires Valid(c)
    ensures var r := CleanupExpiredEntries(c, now);
      CleanupExpiredEntries(r.cache, now) == Step(r.cache, [])
  {
    var r := CleanupExpiredEntries(c, now);
    var r2 := CleanupExpiredEntries(r.cache, now);
    assert StaleKeys(r.cache, now) == {};
    assert |r2.events| == 0;
    assert r2.cache.entries == r.cache.entries;
    KeepAll(r.cache.order, set k | k in r.cache.entries && !IsStale(r.cache.entries[k], now));
  }

  /** In a cache ordered by touch time, the back of the order holds the entry touched
      longest ago: eviction takes the least recently used key. */
  lemma EvictsLeastRecentlyUsed<K, V>(c: Cache<K, V>, now: int)
    requires Valid(c) && RecencyOrdered(c, now) && |c.order| > 0
    ensures var lru := c.order[|c.order| - 1];
      forall k :: k in c.entries ==> c.entries[lru].timestamp <= c.entries[k].timestamp
  {
    var lru := c.order[|c.order| - 1];
    forall k | k in c.entries ensures c.entries[lru].timestamp <= c.entries[k].timestamp {
      var i :| 0 <= i < |c.order| && c.order[i] == k;
      if i < |c.order| - 1 {
        assert Stamp(c.entries)(c.order[|c.order| - 1]) <= Stamp(c.entries)(c.order[i]);
      }
    }
  }

  /** `Put` at a time no earlier than every previous touch keeps the order sorted by touch time. */
  lemma PutKeepsRecencyOrder<K, V>(c: Cache<K, V>, k: K, v: V, ttl: seq<int>, before: int, now: int)
    requires Valid(c) && RecencyOrdered(c, before) && before <= now
    ensures RecencyOrdered(Put(c, k, v, ttl, now).cache, now)
  {
    var r := Put(c, k, v, ttl, now);
    var tail := PutShape(c, k, v, ttl, now);
    var f := Stamp(c.entries);
    var g := Stamp(r.cache.entries);
    SubseqAntitone(tail, c.order, f);
    forall i | 0 <= i < |tail| ensures f(tail[i]) == g(tail[i]) && g(tail[i]) <= g(k) {
      var j := tail[i];
      assert j in r.cache.entries && j != k;
      assert r.cache.entries[j] == c.entries[j];
    }
    AntitoneAgree(tail, f, g);
    AntitoneCons(k, tail, g);
    assert r.cache.order == [k] + tail;
  }

  /** `Put` leaves the written key in front of a subsequence of the old order. */
  lemma PutShape<K, V>(c: Cache<K, V>, k: K, v: V, ttl: seq<int>, now: int) returns (tail: seq<K>)
    requires Valid(c)
    ensures var r := Put(c, k, v, ttl, now);
      && r.cache.order == [k] + tail
      && Subseq(tail, c.order)
      && (forall i :: 0 <= i < |tail| ==> tail[i] != k && tail[i] in r.cache.entries)
  {
    var r := Put(c, k, v, ttl, now);
    tail := r.cache.order[1..];
    assert r.cache.order == [k] + tail;
    if k in c.entries {
      assert tail == Without(c.order, k);
      WithoutSubseq(c.order, k);
    } else if |c.entries| >= c.capacity && |c.order| > 0 {
      assert tail == c.order[..|c.order| - 1];
      PrefixSubseq(c.order, |c.order| - 1);
    } else {
      assert tail == c.order;
      SubseqRefl(c.order);
    }
  }

  /** A live or stale `Get` at a time no earlier than every previous touch keeps the
      order sorted by touch time. */
  lemma GetKeepsRecencyOrder<K, V>(c: Cache<K, V>, k: K, load: K -> (V, bool), zero: V, before: int, now: int)
    requires Valid(c) && RecencyOrdered(c, before) && before <= now
    ensures RecencyOrdered(Get(c, k, load, zero, now).cache, now)
  {
    if k in c.entries {
      var item := c.entries[k];
      if IsStale(item, now) {
        var d := Remove(c, k);
        RemoveKeepsRecencyOrder(c, k, before);
        if load(k).1 {
          PutKeepsRecencyOrder(d, k, load(k).0, [], before, now);
        }
      } else {
        var r := Get(c, k, load, zero, now);
        assert r.cache == Put(c, k, item.value, [item.expiry], now).cache;
        PutKeepsRecencyOrder(c, k, item.value, [item.expiry], before, now);
      }
    } else if load(k).1 {
      PutKeepsRecencyOrder(c, k, load(k).0, [], before, now);
    }
  }

  /** `Remove` keeps the order sorted by touch time. */
  lemma RemoveKeepsRecencyOrder<K, V>(c: Cache<K, V>, k: K, now: int)
    requires Valid(c) && RecencyOrdered(c, now)
    ensures RecencyOrdered(Remove(c, k), now)
  {
    if k in c.entries {
      var r := Remove(c, k);
      WithoutSubseq(c.order, k);
      SubseqAntitone(r.order, c.order, Stamp(c.entries));
      SubseqElems(r.order, c.order);
      AntitoneAgree(r.order, Stamp(c.entries), Stamp(r.entries));
    }
  }

  /** The eager sweep keeps the order sorted by touch time. */
  lemma CleanupKeepsRecencyOrder<K, V>(c: Cache<K, V>, now: int)
    requires Valid(c) && RecencyOrdered(c, now)
    ensures RecencyOrdered(CleanupExpiredEntries(c, now).cache, now)
  {
    var r := CleanupExpiredEntries(c, now).cache;
    SubseqAntitone(r.order, c.order, Stamp(c.entries));
    forall i | 0 <= i < |r.order| ensures Stamp(c.entries)(r.order[i]) == Stamp(r.entries)(r.order[i]) {
      assert r.order[i] in r.entries;
    }
    AntitoneAgree(r.order, Stamp(c.entries), Stamp(r.entries));
  }
}

/** A read-through store of feature vectors: one cache for users and one for items, in front of a
generator that computes the vector of an id. */
module FeatureStore {
  import opened LruCache
  import opened RecencyList
  import opened Wrappers

  type FeatureCache<Vector(0)> = LruCache<nat, Vector>

  class FeatureStore<Vector(0)> {
    const generate: nat -> Vector
    const userFeatureCache: FeatureCache<Vector>
    const itemFeatureCache: FeatureCache<Vector>
    var cacheHits: nat
    var cacheMisses: nat
    var itemCacheHits: nat
    var itemCacheMisses: nat
    /** The ids asked for so far, oldest first. */
    ghost var userTrace: seq<nat>
    ghost var itemTrace: seq<nat>

    /** A cache holds nothing but what the generator says. */
    ghost predicate Faithful(cache: FeatureCache<Vector>)
      reads cache, cache.Repr
    {
      cache.Valid() && forall e :: e in cache.entries ==> e.value == generate(e.key)
    }

    /** A cache is what its trace of requests makes of it, and so are its counters. */
    ghost predicate LayerOk(cache: FeatureCache<Vector>, trace: seq<nat>, hits: nat, misses: nat)
      reads cache, cache.Repr
    {
      && Faithful(cache)
      && Keys(cache.entries) == Cached(trace, cache.capacity)
      && hits == Hits(trace, cache.capacity) && hits + misses == |trace|
    }

    ghost predicate UserOk()
      reads this`userTrace, this`cacheHits, this`cacheMisses, userFeatureCache, userFeatureCache.Repr
    {
      LayerOk(userFeatureCache, userTrace, cacheHits, cacheMisses) && this !in userFeatureCache.Repr
    }

    ghost predicate ItemOk()
      reads this`itemTrace, this`itemCacheHits, this`itemCacheMisses, itemFeatureCache, itemFeatureCache.Repr
    {
      LayerOk(itemFeatureCache, itemTrace, itemCacheHits, itemCacheMisses) && this !in itemFeatureCache.Repr
    }

    ghost predicate Valid()
      reads this, userFeatureCache, userFeatureCache.Repr, itemFeatureCache, itemFeatureCache.Repr
    {
      UserOk() && ItemOk() && userFeatureCache.Repr !! itemFeatureCache.Repr
    }

    constructor (generate: nat -> Vector, userCacheSize: nat, itemCacheSize: nat)
      ensures Valid() && this.generate == generate && userTrace == itemTrace == []
      ensures userFeatureCache.capacity == userCacheSize && itemFeatureCache.capacity == itemCacheSize
      ensures fresh(userFeatureCache.Repr) && fresh(itemFeatureCache.Repr)
    {
      this.generate := generate;
      userFeatureCache := new LruCache(userCacheSize);
      itemFeatureCache := new LruCache(itemCacheSize);
      cacheHits, cacheMisses, itemCacheHits, itemCacheMisses := 0, 0, 0, 0;
      userTrace, itemTrace := [], [];
    }

    /** One lookup: the vector is the generated one whether it was cached or not. */
    method ReadThrough(cache: FeatureCache<Vector>, id: nat) returns (feature: Vector, hit: bool)
      requires Faithful(cache) && this !in cache.Repr
      modifies cache.Repr
      ensures Faithful(cache) && fresh(cache.Repr - old(cache.Repr))
      ensures feature == generate(id) && hit == (id in Keys(old(cache.entries)))
      ensures Keys(cache.entries) == Use(Keys(old(cache.entries)), id, cache.capacity)
    {
      ghost var before := cache.entries;
      PutKeepsFaithful(before, id, cache.capacity);
      var cached := cache.Get(id);
      hit := cached.Some?;
      if hit {
        feature := cached.value;
        FrontFits(before, id, feature, cache.capacity);
        return;
      }
      feature := generate(id);
      cache.Put(id, feature);
    }

    /** The entries after a generated vector was put hold what the generator says, too. */
    lemma PutKeepsFaithful(before: seq<Entry<nat, Vector>>, id: nat, capacity: nat)
      requires forall e :: e in before ==> e.value == generate(e.key)
      ensures var put := Truncate(PutFront(before, id, generate(id)), capacity);
        (forall e :: e in put ==> e.value == generate(e.key)) && Keys(put) == Use(Keys(before), id, capacity)
    {
      var front := PutFront(before, id, generate(id));
      KeysOfPut(before, id, generate(id));
      RemovedEntries(before, id);
      assert Keys(Truncate(front, capacity)) == Truncate(Keys(front), capacity);
    }

    /** Moving a cached entry to the front needs no more room. */
    lemma FrontFits(before: seq<Entry<nat, Vector>>, id: nat, value: Vector, capacity: nat)
      requires id in Keys(before) && |before| <= capacity
      ensures PutFront(before, id, value) == Truncate(PutFront(before, id, value), capacity)
    {
      RemoveShortens(Keys(before), id);
      KeysOfPut(before, id, value);
    }

    /** The counters and the cache follow the trace. */
    lemma NextRequest(trace: seq<nat>, id: nat, capacity: nat)
      ensures Cached(trace + [id], capacity) == Use(Cached(trace, capacity), id, capacity)
      ensures Hits(trace + [id], capacity) == Hits(trace, capacity) + if id in Cached(trace, capacity) then 1 else 0
    {
      assert (trace + [id])[..|trace|] == trace;
    }

    method Lookup(cache: FeatureCache<Vector>, ghost trace: seq<nat>, hits: nat, misses: nat, id: nat)
      returns (feature: Vector, hit: bool)
      requires LayerOk(cache, trace, hits, misses) && this !in cache.Repr
      modifies cache.Repr
      ensures fresh(cache.Repr - old(cache.Repr)) && feature == generate(id)
      ensures hit ==> LayerOk(cache, trace + [id], hits + 1, misses)
      ensures !hit ==> LayerOk(cache, trace + [id], hits, misses + 1)
    {
      NextRequest(trace, id, cache.capacity);
      feature, hit := ReadThrough(cache, id);
    }

    method GetUserFeature(userId: nat) returns (feature: Vector)
      requires Valid()
      modifies this`cacheHits, this`cacheMisses, this`userTrace, userFeatureCache.Repr
      ensures Valid() && fresh(userFeatureCache.Repr - old(userFeatureCache.Repr))
      ensures feature == generate(userId) && userTrace == old(userTrace) + [userId]
    {
      feature := LookupUser(userId);
    }

    method LookupUser(userId: nat) returns (feature: Vector)
      requires UserOk()
      modifies this`cacheHits, this`cacheMisses, this`userTrace, userFeatureCache.Repr
      ensures UserOk() && fresh(userFeatureCache.Repr - old(userFeatureCache.Repr))
      ensures feature == generate(userId) && userTrace == old(userTrace) + [userId]
    {
      hide LayerOk;
      var hit;
      feature, hit := Lookup(userFeatureCache, userTrace, cacheHits, cacheMisses, userId);
      userTrace := userTrace + [userId];
      if hit {
        cacheHits := cacheHits + 1;
      } else {
        cacheMisses := cacheMisses + 1;
      }
    }

    method GetItemFeature(itemId: nat) returns (feature: Vector)
      requires Valid()
      modifies this`itemCacheHits, this`itemCacheMisses, this`itemTrace, itemFeatureCache.Repr
      ensures Valid() && fresh(itemFeatureCache.Repr - old(itemFeatureCache.Repr))
      ensures feature == generate(itemId) && itemTrace == old(itemTrace) + [itemId]
    {
      feature := LookupItem(itemId);
    }

    method LookupItem(itemId: nat) returns (feature: Vector)
      requires ItemOk()
      modifies this`itemCacheHits, this`itemCacheMisses, this`itemTrace, itemFeatureCache.Repr
      ensures ItemOk() && fresh(itemFeatureCache.Repr - old(itemFeatureCache.Repr))
      ensures feature == generate(itemId) && itemTrace == old(itemTrace) + [itemId]
    {
      hide LayerOk;
      var hit;
      feature, hit := Lookup(itemFeatureCache, itemTrace, itemCacheHits, itemCacheMisses, itemId);
      itemTrace := itemTrace + [itemId];
      if hit {
        itemCacheHits := itemCacheHits + 1;
      } else {
        itemCacheMisses := itemCacheMisses + 1;
      }
    }
  }

  /** Two stores with the same history: the one with the larger user cache has at least as many hits
  and holds whatever the other one holds. */
  lemma LargerStoreHitsMore<Vector(0)>(a: FeatureStore<Vector>, b: FeatureStore<Vector>)
    requires a.Valid() && b.Valid() && a.userTrace == b.userTrace
    requires a.userFeatureCache.capacity <= b.userFeatureCache.capacity
    ensures a.cacheHits <= b.cacheHits
    ensures Keys(a.userFeatureCache.entries) <= Keys(b.userFeatureCache.entries)
  {
    HitsMonotone(a.userTrace, a.userFeatureCache.capacity, b.userFeatureCache.capacity);
    Inclusion(a.userTrace, a.userFeatureCache.capacity, b.userFeatureCache.capacity);
  }
}

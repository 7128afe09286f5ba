/** The cached accessor: one bounded cache for each method, created on first use. */
module CachedAccessor {
  import opened Options
  import opened CacheKeys
  import opened TtlCache
  import opened CacheRuns

  /** What the database accessor returns when a value has to be loaded; it may use arguments that are not keyed. */
  type Loader = () -> Loaded

  class Accessor {
    const maxItemCountsByMethod: map<string, int>
    const defaultCacheMaxItemCount: int
    const maxItemLifeTimesByMethod: map<string, int>
    const defaultCacheItemLifeTime: int
    var cachesByMethod: map<string, Cache<Loaded>>

    function MaxSizeOf(name: string): int {
      if name in maxItemCountsByMethod then maxItemCountsByMethod[name] else defaultCacheMaxItemCount
    }

    function LifeTimeOf(name: string): int {
      if name in maxItemLifeTimesByMethod then maxItemLifeTimesByMethod[name] else defaultCacheItemLifeTime
    }

    ghost predicate Valid()
      reads this, cachesByMethod.Values
    {
      && (forall m, n :: m in cachesByMethod && n in cachesByMethod && m != n ==>
            cachesByMethod[m] != cachesByMethod[n])
      && (forall m :: m in cachesByMethod ==>
            && cachesByMethod[m].Valid()
            && cachesByMethod[m].maxSize == MaxSizeOf(m)
            && cachesByMethod[m].defaultExpiration == LifeTimeOf(m))
    }

    constructor (maxItemCountsByMethod: map<string, int>, defaultCacheMaxItemCount: int,
                 maxItemLifeTimesByMethod: map<string, int>, defaultCacheItemLifeTime: int)
      ensures Valid() && cachesByMethod == map[]
      ensures this.maxItemCountsByMethod == maxItemCountsByMethod
      ensures this.defaultCacheMaxItemCount == defaultCacheMaxItemCount
      ensures this.maxItemLifeTimesByMethod == maxItemLifeTimesByMethod
      ensures this.defaultCacheItemLifeTime == defaultCacheItemLifeTime
    {
      this.maxItemCountsByMethod := maxItemCountsByMethod;
      this.defaultCacheMaxItemCount := defaultCacheMaxItemCount;
      this.maxItemLifeTimesByMethod := maxItemLifeTimesByMethod;
      this.defaultCacheItemLifeTime := defaultCacheItemLifeTime;
      cachesByMethod := map[];
    }

    /** The items cached for a method so far. */
    ghost function ItemsOf(name: string): map<string, Item<Loaded>>
      reads this, cachesByMethod.Values
    {
      if name in cachesByMethod then cachesByMethod[name].items else map[]
    }

    method GetCache(name: string) returns (dbCache: Cache<Loaded>)
      requires Valid()
      modifies this`cachesByMethod
      ensures Valid()
      ensures name in cachesByMethod && dbCache == cachesByMethod[name]
      ensures if name in old(cachesByMethod) then cachesByMethod == old(cachesByMethod)
              else fresh(dbCache) && dbCache.items == map[] && cachesByMethod == old(cachesByMethod)[name := dbCache]
      ensures name in maxItemCountsByMethod ==> dbCache.maxSize == maxItemCountsByMethod[name]
      ensures name !in maxItemCountsByMethod ==> dbCache.maxSize == defaultCacheMaxItemCount
      ensures name in maxItemLifeTimesByMethod ==> dbCache.defaultExpiration == maxItemLifeTimesByMethod[name]
      ensures name !in maxItemLifeTimesByMethod ==> dbCache.defaultExpiration == defaultCacheItemLifeTime
    {
      if name !in cachesByMethod {
        dbCache := new Cache<Loaded>(MaxSizeOf(name), LifeTimeOf(name));
        cachesByMethod := cachesByMethod[name := dbCache];
      }
      dbCache := cachesByMethod[name];
    }

    /** A cached answer is returned as it is, errors included; otherwise the load's answer is stored and returned. */
    method GetOrLoad(name: string, load: Loader, args: seq<Arg>, now: int) returns (answer: Loaded)
      requires Valid()
      modifies this`cachesByMethod, cachesByMethod.Values
      ensures Valid() && name in cachesByMethod
      ensures cachesByMethod.Keys == old(cachesByMethod).Keys + {name}
      ensures var items, k := old(ItemsOf(name)), Key(args);
              if k in items && (items[k].expiresAt.None? || now <= items[k].expiresAt.value)
              then answer == items[k].value && cachesByMethod[name].items == items
              else answer == load()
                   && cachesByMethod[name].items
                      == Stored(items, MaxSizeOf(name), k, Item(answer, ExpiryAt(now, 0, LifeTimeOf(name))), now)
      ensures forall m :: m in old(cachesByMethod) && m != name ==>
                cachesByMethod[m] == old(cachesByMethod)[m] && cachesByMethod[m].items == old(cachesByMethod[m].items)
    {
      hide Key, Stored, Bounded, HasRoom, FreshKeys, Unexpired;
      var dbCache := GetCache(name);
      var key := Key(args);
      var v := dbCache.Get(key, now);
      if v.Some? {
        return v.value;
      }
      answer := load();
      dbCache.Set(key, answer, 0, now);
    }

    /** Every cache is emptied; none is removed. */
    method ClearCache()
      requires Valid()
      modifies cachesByMethod.Values
      ensures Valid() && cachesByMethod == old(cachesByMethod)
      ensures forall m :: m in cachesByMethod ==> cachesByMethod[m].items == map[]
    {
      var todo := cachesByMethod.Keys;
      while todo != {}
        invariant todo <= cachesByMethod.Keys
        invariant Valid()
        invariant forall m :: m in cachesByMethod && m !in todo ==> cachesByMethod[m].items == map[]
      {
        var name :| name in todo;
        cachesByMethod[name].Clear();
        todo := todo - {name};
      }
    }
  }
}

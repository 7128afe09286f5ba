/** The size-bounded cache over go-cache: values with an expiry, and a bound that Set enforces. */
module TtlCache {
  import opened Options

  /** None never expires. */
  datatype Item<+V> = Item(value: V, expiresAt: Option<int>)

  predicate Expired<V>(item: Item<V>, now: int) {
    item.expiresAt.Some? && now > item.expiresAt.value
  }

  function Unexpired<V>(items: map<string, Item<V>>, now: int): map<string, Item<V>> {
    map k | k in items && !Expired(items[k], now) :: items[k]
  }

  /** cache.New turns a default of 0 into "never", and Set turns a lifetime of 0 into the default. */
  function ExpiryAt(now: int, lifeTime: int, defaultExpiration: int): Option<int> {
    var d := if lifeTime == 0 then defaultExpiration else lifeTime;
    if d > 0 then Some(now + d) else None
  }

  /** The items after Set: a full cache first drops what has expired, and refuses the value if it is still full. */
  function Stored<V>(items: map<string, Item<V>>, maxSize: int, key: string, item: Item<V>, now: int)
    : map<string, Item<V>>
  {
    if |items| < maxSize then items[key := item]
    else
      var kept := Unexpired(items, now);
      if |kept| < maxSize then kept[key := item] else kept
  }

  predicate Bounded<V>(items: map<string, Item<V>>, maxSize: int) {
    |items| <= if maxSize < 0 then 0 else maxSize
  }

  lemma SubmapSize<V>(a: map<string, V>, b: map<string, V>)
    requires a.Keys <= b.Keys
    ensures |a| <= |b|
  {
    KeysSize(a.Keys, b.Keys);
    assert |a| == |a.Keys| && |b| == |b.Keys|;
  }

  lemma KeysSize(a: set<string>, b: set<string>)
    requires a <= b
    ensures |a| <= |b|
  {
    if a != {} {
      var k :| k in a;
      KeysSize(a - {k}, b - {k});
    }
  }

  lemma UpdateSize<V>(m: map<string, V>, key: string, v: V)
    ensures |m[key := v]| <= |m| + 1
  {
    assert m[key := v].Keys == m.Keys + {key};
  }

  /** Set keeps the bound, also when the key is new, and also when the bound is not positive. */
  lemma StoredIsBounded<V>(items: map<string, Item<V>>, maxSize: int, key: string, item: Item<V>, now: int)
    requires Bounded(items, maxSize)
    ensures Bounded(Stored(items, maxSize, key, item, now), maxSize)
  {
    var kept := Unexpired(items, now);
    SubmapSize(kept, items);
    UpdateSize(items, key, item);
    UpdateSize(kept, key, item);
  }

  /** What is in the cache after Set was there before, or is the new item. */
  lemma StoredFrom<V>(items: map<string, Item<V>>, maxSize: int, key: string, item: Item<V>, now: int, k: string)
    requires k in Stored(items, maxSize, key, item, now)
    ensures var stored := Stored(items, maxSize, key, item, now)[k];
            (k == key && stored == item) || (k in items && stored == items[k])
  {
  }

  /** How many items have not expired. */
  ghost function FreshKeys<V>(items: map<string, Item<V>>, now: int): set<string> {
    set k | k in items && (items[k].expiresAt.None? || now <= items[k].expiresAt.value)
  }

  /** Set stores if there is room, or would be without the items that have expired. */
  ghost predicate HasRoom<V>(items: map<string, Item<V>>, maxSize: int, now: int) {
    |items| < maxSize || |FreshKeys(items, now)| < maxSize
  }

  /**
   * What Set leaves, from the expiry times alone: with room the key holds the new item, without room it is refused; and
   * every item that has not expired stays, unless it is replaced.
   */
  lemma StoredExactly<V>(items: map<string, Item<V>>, maxSize: int, key: string, item: Item<V>, now: int)
    ensures var after := Stored(items, maxSize, key, item, now);
      && (HasRoom(items, maxSize, now) ==> key in after && after[key] == item)
      && (!HasRoom(items, maxSize, now) ==>
            after.Keys == FreshKeys(items, now) && forall k :: k in after ==> after[k] == items[k])
      && (forall k :: k in FreshKeys(items, now) && k != key ==> k in after && after[k] == items[k])
      && (forall k :: k in after && k != key ==> k in items && after[k] == items[k])
  {
    var kept := Unexpired(items, now);
    assert kept.Keys == FreshKeys(items, now);
    assert |kept| == |kept.Keys|;
  }

  /** Lifetimes: the given one, or the default if it is 0, counted from now; none that is not positive ever ends. */
  lemma ExpiryIs(now: int, lifeTime: int, defaultExpiration: int)
    ensures lifeTime > 0 ==> ExpiryAt(now, lifeTime, defaultExpiration) == Some(now + lifeTime)
    ensures lifeTime == 0 && defaultExpiration > 0 ==>
              ExpiryAt(now, lifeTime, defaultExpiration) == Some(now + defaultExpiration)
    ensures lifeTime < 0 || (lifeTime == 0 && defaultExpiration <= 0) ==>
              ExpiryAt(now, lifeTime, defaultExpiration) == None
  {
  }

  class Cache<V(0)> {
    const maxSize: int
    const defaultExpiration: int
    var items: map<string, Item<V>>

    ghost predicate Valid()
      reads this
    {
      Bounded(items, maxSize)
    }

    constructor (maxSize: int, defaultExpiration: int)
      ensures Valid() && items == map[]
      ensures this.maxSize == maxSize && this.defaultExpiration == defaultExpiration
    {
      this.maxSize, this.defaultExpiration := maxSize, defaultExpiration;
      items := map[];
    }

    method Get(key: string, now: int) returns (value: Option<V>)
      ensures value.Some? <==>
                key in items && (items[key].expiresAt.None? || now <= items[key].expiresAt.value)
      ensures value.Some? ==> value.value == items[key].value
    {
      if key in items && !Expired(items[key], now) {
        return Some(items[key].value);
      }
      return None;
    }

    method DeleteExpired(now: int)
      modifies this`items
      ensures items == Unexpired(old(items), now)
      ensures items.Keys == FreshKeys(old(items), now) && forall k :: k in items ==> items[k] == old(items)[k]
    {
      items := map k | k in items && !Expired(items[k], now) :: items[k];
    }

    method Set(key: string, value: V, lifeTime: int, now: int)
      requires Valid()
      modifies this`items
      ensures Valid()
      ensures items == Stored(old(items), maxSize, key, Item(value, ExpiryAt(now, lifeTime, defaultExpiration)), now)
      ensures HasRoom(old(items), maxSize, now) ==>
                && key in items && items[key].value == value
                && (lifeTime > 0 ==> items[key].expiresAt == Some(now + lifeTime))
                && (lifeTime == 0 && defaultExpiration > 0 ==> items[key].expiresAt == Some(now + defaultExpiration))
      ensures !HasRoom(old(items), maxSize, now) ==>
                items.Keys == FreshKeys(old(items), now) && forall k :: k in items ==> items[k] == old(items)[k]
      ensures forall k :: k in FreshKeys(old(items), now) && k != key ==> k in items && items[k] == old(items)[k]
    {
      StoredExactly(items, maxSize, key, Item(value, ExpiryAt(now, lifeTime, defaultExpiration)), now);
      StoredIsBounded(items, maxSize, key, Item(value, ExpiryAt(now, lifeTime, defaultExpiration)), now);
      if |items| >= maxSize {
        DeleteExpired(now);
        if |items| >= maxSize {
          return;
        }
      }
      items := items[key := Item(value, ExpiryAt(now, lifeTime, defaultExpiration))];
    }

    method Clear()
      modifies this`items
      ensures Valid() && items == map[]
    {
      items := map[];
    }

    method ItemsCount() returns (n: nat)
      requires Valid()
      ensures n == |items| && (maxSize >= 0 ==> n <= maxSize) && (maxSize < 0 ==> n == 0)
    {
      n := |items|;
    }
  }
}

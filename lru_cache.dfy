/** `LRUCache`: a map of timestamped entries plus an access order whose
    first key is the least recently used. The clock `Date.now()` is the
    parameter `now` (milliseconds) of the operations that read it. */
module Cache {
  import opened Wrappers
  import opened Seqs

  /** The configured defaults: 100 entries, one hour. */
  const DefaultMaxSize: int := 100
  const DefaultTTL: int := 3600000

  datatype Entry<V> = Entry(value: V, timestamp: int, ttl: int)

  /** The two fields of a cache: the entries and the access order. */
  datatype Store<K, V> = Store(cache: map<K, Entry<V>>, order: seq<K>)

  /** `isExpired`: a ttl of 0 means the entry never expires; otherwise it
      expires once more than `ttl` milliseconds have passed. */
  predicate IsExpired<V>(e: Entry<V>, now: int) {
    e.ttl != 0 && now - e.timestamp > e.ttl
  }

  function NotKey<K(==)>(key: K): K -> bool {
    k => k != key
  }

  /** `order.filter((k) => k !== key)`. */
  function Without<K(==)>(order: seq<K>, key: K): seq<K> {
    Filter(order, NotKey(key))
  }

  /** Removing a key removes exactly that key, keeps the order of the rest
      and, in a duplicate-free order, shortens it by one if it was there. */
  lemma WithoutSpec<K>(order: seq<K>, key: K)
    ensures forall i :: 0 <= i < |Without(order, key)| ==> Without(order, key)[i] in order && Without(order, key)[i] != key
    ensures forall k :: k in order && k != key ==> k in Without(order, key)
    ensures IsSubsequence(Without(order, key), order)
    ensures NoDuplicates(order) ==> NoDuplicates(Without(order, key))
    ensures NoDuplicates(order) ==> |Without(order, key)| == if key in order then |order| - 1 else |order|
  {
    var w := Without(order, key);
    FilterSpec(order, NotKey(key));
    FilterIsSubsequence(order, NotKey(key));
    forall k | k in order && k != key ensures k in w {
      var i :| 0 <= i < |order| && order[i] == k;
    }
    if NoDuplicates(order) {
      FilterNoDuplicates(order, NotKey(key));
      WithoutLength(order, key);
    }
  }

  lemma {:induction false} WithoutLength<K>(order: seq<K>, key: K)
    requires NoDuplicates(order)
    ensures |Without(order, key)| == if key in order then |order| - 1 else |order|
    decreases |order|
  {
    if order != [] {
      var tail := order[1..];
      assert NoDuplicates(tail);
      WithoutLength(tail, key);
      if order[0] == key {
        assert key !in tail by {
          forall j | 0 <= j < |tail| ensures tail[j] != key {
            assert tail[j] == order[j + 1];
          }
        }
      }
      assert key in order <==> order[0] == key || key in tail;
    }
  }

  /** The invariant the cache keeps: the order lists every key of the map
      exactly once, and a cache of capacity at least one holds at most
      `maxSize` entries. */
  predicate Inv<K, V>(s: Store<K, V>, maxSize: int) {
    NoDuplicates(s.order) &&
    (forall k :: k in s.cache ==> k in s.order) &&
    (forall i :: 0 <= i < |s.order| ==> s.order[i] in s.cache) &&
    |s.order| == |s.cache| &&
    (maxSize >= 1 ==> |s.cache| <= maxSize)
  }

  /** `updateAccessOrder(key)`: move the key to the end. */
  function Touch<K, V>(s: Store<K, V>, key: K): Store<K, V> {
    Store(s.cache, Without(s.order, key) + [key])
  }

  /** `delete(key)`: drop the key from both fields. */
  function Remove<K, V>(s: Store<K, V>, key: K): Store<K, V> {
    Store(s.cache - {key}, Without(s.order, key))
  }

  /** `evictLRU()`: drop the first key of the order, if any. */
  function Evict<K, V>(s: Store<K, V>): Store<K, V> {
    if s.order == [] then s else Remove(s, s.order[0])
  }

  /** `set(key, value, ttl)` at time `now`: evict when the key is new and
      the cache is full, store the entry (`ttl ?? defaultTTL`, so a given 0
      is kept), and make the key the most recently used. */
  function Put<K, V>(s: Store<K, V>, maxSize: int, defaultTTL: int, key: K, value: V, ttl: Option<int>, now: int): Store<K, V> {
    var room := if key !in s.cache && |s.cache| >= maxSize then Evict(s) else s;
    Touch(Store(room.cache[key := Entry(value, now, ttl.GetOr(defaultTTL))], room.order), key)
  }

  /** What `get(key)` returns at time `now`. */
  function Lookup<K, V>(s: Store<K, V>, key: K, now: int): Option<V> {
    if key in s.cache && !IsExpired(s.cache[key], now) then Some(s.cache[key].value) else None
  }

  /** The state `get(key)` leaves: an expired entry is deleted, a live one
      becomes the most recently used. */
  function AfterGet<K, V>(s: Store<K, V>, key: K, now: int): Store<K, V> {
    if key !in s.cache then s
    else if IsExpired(s.cache[key], now) then Remove(s, key)
    else Touch(s, key)
  }

  /** The state `has(key)` leaves: an expired entry is deleted. */
  function AfterHas<K, V>(s: Store<K, V>, key: K, now: int): Store<K, V> {
    if key in s.cache && IsExpired(s.cache[key], now) then Remove(s, key) else s
  }

  function Present<K, V>(cache: map<K, Entry<V>>): K -> bool {
    k => k in cache
  }

  /** The entries `cleanup` keeps: the unexpired ones. */
  function Live<K, V>(cache: map<K, Entry<V>>, now: int): map<K, Entry<V>> {
    map k | k in cache && !IsExpired(cache[k], now) :: cache[k]
  }

  /** Under the invariant a key is in the order exactly when it is in the map. */
  lemma InvMembers<K, V>(s: Store<K, V>, maxSize: int, key: K)
    requires Inv(s, maxSize)
    ensures key in s.order <==> key in s.cache
  {
    if key in s.order {
      var i :| 0 <= i < |s.order| && s.order[i] == key;
    }
  }

  lemma RemoveInv<K, V>(s: Store<K, V>, maxSize: int, key: K)
    requires Inv(s, maxSize)
    ensures Inv(Remove(s, key), maxSize)
  {
    RemoveKeys(s, maxSize, key);
    RemoveLength(s, maxSize, key);
    WithoutDistinct(s.order, key);
  }

  lemma WithoutDistinct<K>(order: seq<K>, key: K)
    requires NoDuplicates(order)
    ensures NoDuplicates(Without(order, key))
  {
    FilterNoDuplicates(order, NotKey(key));
  }

  lemma RemoveLength<K, V>(s: Store<K, V>, maxSize: int, key: K)
    requires Inv(s, maxSize)
    ensures |Remove(s, key).order| == |Remove(s, key).cache| == |s.cache| - (if key in s.cache then 1 else 0)
  {
    WithoutLength(s.order, key);
    InvMembers(s, maxSize, key);
  }

  lemma RemoveKeys<K, V>(s: Store<K, V>, maxSize: int, key: K)
    requires Inv(s, maxSize)
    ensures forall i :: 0 <= i < |Remove(s, key).order| ==> Remove(s, key).order[i] in Remove(s, key).cache
    ensures forall k :: k in Remove(s, key).cache ==> k in Remove(s, key).order
  {
    var w := Without(s.order, key);
    FilterSpec(s.order, NotKey(key));
    forall k | k in s.cache && k != key ensures k in w {
      InvMembers(s, maxSize, k);
      var i :| 0 <= i < |s.order| && s.order[i] == k;
    }
  }

  lemma TouchInv<K, V>(s: Store<K, V>, maxSize: int, key: K)
    requires Inv(s, maxSize) && key in s.cache
    ensures Inv(Touch(s, key), maxSize)
  {
    assert s.cache[key := s.cache[key]] == s.cache;
    InsertInv(s, maxSize, key, s.cache[key]);
  }

  /** Storing an entry and touching its key keeps the invariant when the
      key is present or there is room for one more. */
  lemma InsertInv<K, V>(s: Store<K, V>, maxSize: int, key: K, e: Entry<V>)
    requires Inv(s, maxSize)
    requires key !in s.cache ==> maxSize < 1 || |s.cache| < maxSize
    ensures Inv(Touch(Store(s.cache[key := e], s.order), key), maxSize)
  {
    InsertKeys(s, maxSize, key, e);
    InsertLength(s, maxSize, key, e);
    WithoutDistinct(s.order, key);
    AppendDistinct(Without(s.order, key), key);
  }

  lemma AppendDistinct<K>(w: seq<K>, key: K)
    requires NoDuplicates(w) && key !in w
    ensures NoDuplicates(w + [key])
  {
    var o := w + [key];
    forall i, j | 0 <= i < j < |o| ensures o[i] != o[j] {
      assert o[i] == w[i];
      if j < |w| {
        assert o[j] == w[j];
      }
    }
  }

  lemma InsertLength<K, V>(s: Store<K, V>, maxSize: int, key: K, e: Entry<V>)
    requires Inv(s, maxSize)
    ensures |Without(s.order, key) + [key]| == |s.cache[key := e]|
    ensures key !in Without(s.order, key)
  {
    WithoutLength(s.order, key);
    InvMembers(s, maxSize, key);
    FilterSatisfies(s.order, NotKey(key));
  }

  lemma InsertKeys<K, V>(s: Store<K, V>, maxSize: int, key: K, e: Entry<V>)
    requires Inv(s, maxSize)
    ensures var o := Without(s.order, key) + [key];
      && (forall i :: 0 <= i < |o| ==> o[i] in s.cache[key := e])
      && (forall k :: k in s.cache[key := e] ==> k in o)
  {
    var w := Without(s.order, key);
    var o := w + [key];
    FilterSpec(s.order, NotKey(key));
    forall i | 0 <= i < |o| ensures o[i] in s.cache[key := e] {
      if i < |w| {
        assert o[i] == w[i];
      }
    }
    forall k | k in s.cache[key := e] ensures k in o {
      if k != key {
        InvMembers(s, maxSize, k);
        var i :| 0 <= i < |s.order| && s.order[i] == k;
        assert k in w;
      } else {
        assert o[|w|] == key;
      }
    }
  }

  /** Every operation keeps the invariant. */
  lemma PutInv<K, V>(s: Store<K, V>, maxSize: int, defaultTTL: int, key: K, value: V, ttl: Option<int>, now: int)
    requires Inv(s, maxSize)
    ensures Inv(Put(s, maxSize, defaultTTL, key, value, ttl, now), maxSize)
  {
    var room := if key !in s.cache && |s.cache| >= maxSize then Evict(s) else s;
    if key !in s.cache && |s.cache| >= maxSize && s.order != [] {
      RemoveInv(s, maxSize, s.order[0]);
      assert s.order[0] in s.cache;
    }
    InsertInv(room, maxSize, key, Entry(value, now, ttl.GetOr(defaultTTL)));
  }

  lemma AfterGetInv<K, V>(s: Store<K, V>, maxSize: int, key: K, now: int)
    requires Inv(s, maxSize)
    ensures Inv(AfterGet(s, key, now), maxSize) && Inv(AfterHas(s, key, now), maxSize)
  {
    RemoveInv(s, maxSize, key);
    if key in s.cache {
      TouchInv(s, maxSize, key);
    }
  }

  /** Overwriting a present key never evicts: the keys stay the same and
      so do the other entries. */
  lemma PutOverwrites<K, V>(s: Store<K, V>, maxSize: int, defaultTTL: int, key: K, value: V, ttl: Option<int>, now: int)
    requires key in s.cache
    ensures var after := Put(s, maxSize, defaultTTL, key, value, ttl, now).cache;
      after.Keys == s.cache.Keys && forall k :: k in s.cache && k != key ==> after[k] == s.cache[k]
  {
    PutCache(s, maxSize, defaultTTL, key, value, ttl, now);
  }

  /** The entries after a write: those of the store, less the evicted one
      if any, with the new entry. */
  lemma PutCache<K, V>(s: Store<K, V>, maxSize: int, defaultTTL: int, key: K, value: V, ttl: Option<int>, now: int)
    ensures var room := if key !in s.cache && |s.cache| >= maxSize then Evict(s) else s;
      Put(s, maxSize, defaultTTL, key, value, ttl, now).cache == room.cache[key := Entry(value, now, ttl.GetOr(defaultTTL))]
  {
  }

  /** Writing a new key into a full cache removes the least recently used
      key, the first of the order, and nothing else. */
  lemma PutEvictsOldest<K, V>(s: Store<K, V>, maxSize: int, defaultTTL: int, key: K, value: V, ttl: Option<int>, now: int)
    requires key !in s.cache && |s.cache| >= maxSize && s.order != []
    ensures var after := Put(s, maxSize, defaultTTL, key, value, ttl, now).cache;
      after.Keys == s.cache.Keys - {s.order[0]} + {key} &&
      forall k :: k in s.cache && k != s.order[0] ==> after[k] == s.cache[k]
  {
    PutCache(s, maxSize, defaultTTL, key, value, ttl, now);
    var room := s.cache - {s.order[0]};
    assert Evict(s).cache == room;
    var after := room[key := Entry(value, now, ttl.GetOr(defaultTTL))];
    assert Put(s, maxSize, defaultTTL, key, value, ttl, now).cache == after;
    assert after.Keys == room.Keys + {key};
    assert room.Keys == s.cache.Keys - {s.order[0]};
    forall k | k in s.cache && k != s.order[0] ensures after[k] == s.cache[k] {
      assert k != key && room[k] == s.cache[k];
    }
  }

  /** Writing a new key into a cache with room adds it and keeps every entry. */
  lemma PutWithRoom<K, V>(s: Store<K, V>, maxSize: int, defaultTTL: int, key: K, value: V, ttl: Option<int>, now: int)
    requires key !in s.cache && |s.cache| < maxSize
    ensures var after := Put(s, maxSize, defaultTTL, key, value, ttl, now).cache;
      after.Keys == s.cache.Keys + {key} && forall k :: k in s.cache ==> after[k] == s.cache[k]
  {
    PutCache(s, maxSize, defaultTTL, key, value, ttl, now);
  }

  /** After a write the key is the most recently used, holds the new value,
      and the other keys keep their relative order. */
  lemma PutRecent<K, V>(s: Store<K, V>, maxSize: int, defaultTTL: int, key: K, value: V, ttl: Option<int>, now: int)
    requires Inv(s, maxSize)
    ensures var after := Put(s, maxSize, defaultTTL, key, value, ttl, now);
      && after.order != [] && after.order[|after.order| - 1] == key
      && key in after.cache && after.cache[key].value == value
      && after.cache[key].ttl == (if ttl.Some? then ttl.value else defaultTTL)
      && IsSubsequence(after.order[..|after.order| - 1], s.order)
  {
    var room := if key !in s.cache && |s.cache| >= maxSize then Evict(s) else s;
    WithoutSpec(room.order, key);
    var after := Put(s, maxSize, defaultTTL, key, value, ttl, now);
    assert after.order[..|after.order| - 1] == Without(room.order, key);
    if room != s && s.order != [] {
      WithoutSpec(s.order, s.order[0]);
      SubsequenceTransitive(Without(room.order, key), room.order, s.order);
    }
  }

  /** A value written at time `t` is read back at any time `now` no more
      than its ttl later, and at any time when the ttl is 0. */
  lemma PutThenLookup<K, V>(s: Store<K, V>, maxSize: int, defaultTTL: int, key: K, value: V, ttl: Option<int>, t: int, now: int)
    requires var life := ttl.GetOr(defaultTTL); life == 0 || now - t <= life
    ensures Lookup(Put(s, maxSize, defaultTTL, key, value, ttl, t), key, now) == Some(value)
  {
  }

  /** A successful read makes the key the most recently used and keeps the
      order of the other keys; an expired entry is gone afterwards. */
  lemma AfterGetSpec<K, V>(s: Store<K, V>, maxSize: int, key: K, now: int)
    requires Inv(s, maxSize)
    ensures Lookup(s, key, now).Some? ==>
      var after := AfterGet(s, key, now);
      && after.cache == s.cache
      && after.order[|after.order| - 1] == key
      && IsSubsequence(after.order[..|after.order| - 1], s.order)
    ensures Lookup(s, key, now).None? ==> key !in AfterGet(s, key, now).cache && key !in AfterHas(s, key, now).cache
  {
    WithoutSpec(s.order, key);
    if Lookup(s, key, now).Some? {
      var after := AfterGet(s, key, now);
      assert after.order[..|after.order| - 1] == Without(s.order, key);
    }
  }

  class LRUCache<K(==), V> {
    var cache: map<K, Entry<V>>
    var accessOrder: seq<K>
    const maxSize: int
    const defaultTTL: int

    function State(): Store<K, V>
      reads this
    {
      Store(cache, accessOrder)
    }

    ghost predicate Valid()
      reads this
    {
      Inv(State(), maxSize)
    }

    /** `new LRUCache(maxSize, defaultTTL)`: empty. */
    constructor (maxSize: int, defaultTTL: int)
      ensures Valid() && cache == map[] && accessOrder == []
      ensures this.maxSize == maxSize && this.defaultTTL == defaultTTL
    {
      this.maxSize := maxSize;
      this.defaultTTL := defaultTTL;
      cache := map[];
      accessOrder := [];
    }

    /** `size()`. */
    function Size(): (n: int)
      reads this
      requires Valid()
      ensures n == |accessOrder|
      ensures maxSize >= 1 ==> n <= maxSize
    {
      |cache|
    }

    method UpdateAccessOrder(key: K)
      modifies this
      ensures State() == Touch(old(State()), key)
    {
      accessOrder := Filter(accessOrder, NotKey(key));
      accessOrder := accessOrder + [key];
    }

    /** `delete(key)`: whether the key was present. */
    method Delete(key: K) returns (removed: bool)
      requires Valid()
      modifies this
      ensures Valid()
      ensures removed <==> key in old(cache)
      ensures State() == Remove(old(State()), key)
    {
      RemoveInv(State(), maxSize, key);
      accessOrder := Filter(accessOrder, NotKey(key));
      removed := key in cache;
      cache := cache - {key};
    }

    method Clear()
      modifies this
      ensures Valid() && cache == map[] && accessOrder == []
    {
      cache := map[];
      accessOrder := [];
    }

    method EvictLRU()
      requires Valid()
      modifies this
      ensures Valid()
      ensures State() == Evict(old(State()))
    {
      if |accessOrder| == 0 {
        return;
      }
      var lruKey := accessOrder[0];
      var _ := Delete(lruKey);
    }

    /** `get(key)` at time `now`. */
    method Get(key: K, now: int) returns (r: Option<V>)
      requires Valid()
      modifies this
      ensures Valid()
      ensures r == Lookup(old(State()), key, now)
      ensures State() == AfterGet(old(State()), key, now)
    {
      AfterGetInv(State(), maxSize, key, now);
      if key !in cache {
        return None;
      }
      var entry := cache[key];
      if IsExpired(entry, now) {
        var _ := Delete(key);
        return None;
      }
      UpdateAccessOrder(key);
      return Some(entry.value);
    }

    /** `set(key, value, ttl)` at time `now`. */
    method Set(key: K, value: V, ttl: Option<int>, now: int)
      requires Valid()
      modifies this
      ensures Valid()
      ensures State() == Put(old(State()), maxSize, defaultTTL, key, value, ttl, now)
    {
      PutInv(State(), maxSize, defaultTTL, key, value, ttl, now);
      if key !in cache && |cache| >= maxSize {
        EvictLRU();
      }
      var entry := Entry(value, now, ttl.GetOr(defaultTTL));
      cache := cache[key := entry];
      UpdateAccessOrder(key);
    }

    /** `has(key)` at time `now`. */
    method Has(key: K, now: int) returns (present: bool)
      requires Valid()
      modifies this
      ensures Valid()
      ensures present == Lookup(old(State()), key, now).Some?
      ensures State() == AfterHas(old(State()), key, now)
    {
      AfterGetInv(State(), maxSize, key, now);
      if key !in cache {
        return false;
      }
      var entry := cache[key];
      if IsExpired(entry, now) {
        var _ := Delete(key);
        return false;
      }
      return true;
    }

    /** `cleanup()` at time `now`: delete every expired entry, visiting the
        keys in some order, and count the deletions. */
    method Cleanup(now: int) returns (removed: nat)
      requires Valid()
      modifies this
      ensures Valid()
      ensures cache == Live(old(cache), now)
      ensures accessOrder == Filter(old(accessOrder), Present(cache))
      ensures removed == |old(cache)| - |cache|
    {
      removed := 0;
      var pending := cache.Keys;
      ghost var s0 := State();
      SweptStart(s0, now);
      while |pending| > 0
        invariant pending <= s0.cache.Keys
        invariant State() == Swept(s0, pending, now)
        invariant removed == |s0.cache| - |cache|
        decreases |pending|
      {
        var key :| key in pending;
        var expired := Visit(key, now, s0, pending);
        if expired {
          removed := removed + 1;
        }
        pending := pending - {key};
      }
      SweptInv(s0, maxSize, pending, now);
    }

    /** One turn of the `cleanup` loop: delete the key if its entry has
        expired, and say whether it did. */
    method Visit(key: K, now: int, ghost s: Store<K, V>, ghost pending: set<K>) returns (expired: bool)
      requires key in pending && key in s.cache
      requires Inv(s, maxSize) && State() == Swept(s, pending, now)
      modifies this
      ensures State() == Swept(s, pending - {key}, now)
      ensures expired == IsExpired(s.cache[key], now)
      ensures |cache| == if expired then |old(cache)| - 1 else |old(cache)|
    {
      SweptInv(s, maxSize, pending, now);
      SweptStep(s, pending, key, now);
      var entry := cache[key];
      expired := IsExpired(entry, now);
      if expired {
        var _ := Delete(key);
      }
    }
  }

  /** The entries left while `cleanup` still has the keys `pending` to
      visit: the unvisited ones and the unexpired visited ones. */
  function Sweep<K, V>(cache: map<K, Entry<V>>, pending: set<K>, now: int): map<K, Entry<V>> {
    map k | k in cache && (k in pending || !IsExpired(cache[k], now)) :: cache[k]
  }

  /** The whole state at that point: the order keeps the keys still present. */
  function Swept<K, V>(s: Store<K, V>, pending: set<K>, now: int): Store<K, V> {
    var c := Sweep(s.cache, pending, now);
    Store(c, Filter(s.order, Present(c)))
  }

  /** Before the first visit nothing is removed; after the last one exactly
      the expired entries are. */
  lemma SweptStart<K, V>(s: Store<K, V>, now: int)
    requires forall i :: 0 <= i < |s.order| ==> s.order[i] in s.cache
    ensures Swept(s, s.cache.Keys, now) == s
    ensures Swept(s, {}, now).cache == Live(s.cache, now)
  {
    assert Sweep(s.cache, s.cache.Keys, now) == s.cache;
    FilterKeepsAll(s.order, Present(s.cache));
  }

  /** Every intermediate state of `cleanup` keeps the invariant. */
  lemma SweptInv<K, V>(s: Store<K, V>, maxSize: int, pending: set<K>, now: int)
    requires Inv(s, maxSize)
    ensures Inv(Swept(s, pending, now), maxSize)
    ensures forall k :: k in pending && k in s.cache ==> k in Swept(s, pending, now).cache
  {
    var c := Sweep(s.cache, pending, now);
    var o := Filter(s.order, Present(c));
    FilterSpec(s.order, Present(c));
    FilterNoDuplicates(s.order, Present(c));
    assert forall k :: k in c ==> k in o by {
      forall k | k in c ensures k in o {
        InvMembers(s, maxSize, k);
      }
    }
    DistinctCardinality(o);
    assert (set x | x in o) == c.Keys;
    assert c.Keys <= s.cache.Keys;
  }

  /** Visiting one more key deletes it exactly when it is expired. */
  lemma SweptStep<K, V>(s: Store<K, V>, pending: set<K>, key: K, now: int)
    requires key in pending && key in s.cache
    ensures var before := Swept(s, pending, now);
      Swept(s, pending - {key}, now) ==
        if IsExpired(s.cache[key], now) then Remove(before, key) else before
    ensures IsExpired(s.cache[key], now) ==> |Remove(Swept(s, pending, now), key).cache| == |Swept(s, pending, now).cache| - 1
  {
    var c := Sweep(s.cache, pending, now);
    var c' := Sweep(s.cache, pending - {key}, now);
    if IsExpired(s.cache[key], now) {
      assert c' == c - {key};
      FilterTwice(s.order, Present(c), NotKey(key), Present(c'));
    } else {
      assert c' == c;
    }
  }

  /** Filtering by `f` and then by `g` is filtering by `h` when `h` is
      their conjunction. */
  lemma {:induction false} FilterTwice<T>(s: seq<T>, f: T -> bool, g: T -> bool, h: T -> bool)
    requires forall x :: x in s ==> h(x) == (f(x) && g(x))
    ensures Filter(Filter(s, f), g) == Filter(s, h)
    decreases |s|
  {
    if s != [] {
      FilterTwice(s[1..], f, g, h);
      FilterConcat(if f(s[0]) then [s[0]] else [], Filter(s[1..], f), g);
    }
  }
}

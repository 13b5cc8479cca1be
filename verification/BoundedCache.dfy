/**
 The least-recently-used cache of mobile/lib/bounded-cache.ts, against the history of its uses.
 */
module BoundedCache {
  import opened DistinctLists
  import opened RecentKeys
  import opened Wrappers

  // An insertion-ordered map. A stored `undefined` is None: it takes up a place but reads as a miss.
  datatype Entries<T> = Entries(order: seq<Key>, values: map<Key, Option<T>>)

  predicate Hits<T>(c: Entries<T>, key: Key) {
    key in c.values && c.values[key].Some?
  }

  function Got<T>(c: Entries<T>, key: Key): Entries<T> {
    if Hits(c, key) then c.(order := Touched(c.order, key)) else c
  }

  function Kept<T>(values: map<Key, Option<T>>, order: seq<Key>): map<Key, Option<T>> {
    map k | k in values && k in order :: values[k]
  }

  function Stored<T>(limit: int, c: Entries<T>, key: Key, value: Option<T>): Entries<T> {
    var order := Latest(Touched(c.order, key), limit);
    Entries(order, Kept(c.values[key := value], order))
  }

  ghost predicate Consistent<T>(c: Entries<T>) {
    Distinct(c.order) && forall k :: k in c.values <==> k in c.order
  }

  class LruCache<T> {
    const limit: int
    var order: seq<Key>
    var values: map<Key, Option<T>>

    ghost function Current(): Entries<T>
      reads this
    {
      Entries(order, values)
    }

    constructor (limit: int)
      ensures Current() == Entries([], map[]) && this.limit == limit
    {
      this.limit, order, values := limit, [], map[];
    }

    method Get(key: Key) returns (hit: Option<T>)
      requires Consistent(Current())
      modifies this
      ensures Consistent(Current()) && Current() == Got(old(Current()), key)
      ensures hit == if key in old(values) then old(values)[key] else None
    {
      if key !in values || values[key].None? {
        return None;
      }
      hit := values[key];
      TouchedIsDistinct(order, key);
      order := Touched(order, key);
    }

    method Put(key: Key, value: Option<T>)
      requires Consistent(Current())
      modifies this
      ensures Consistent(Current()) && Current() == Stored(limit, old(Current()), key, value)
    {
      TouchedIsDistinct(order, key);
      order := Touched(order, key);
      values := values[key := value];
      ghost var all, held := order, values;
      KeepingAll(held, all);
      while order != [] && |order| > limit
        invariant Evicting(all, order, limit)
        invariant values == Kept(held, order)
        decreases |order|
      {
        EvictingTheOldest(held, all, order, limit);
        values := values - {order[0]};
        order := order[1..];
      }
      EvictedEnough(all, order, limit);
      LatestOfTouchedIsDistinct(old(order), limit, key);
      KeptReflects(old(Current()), order, old(values), key, value);
    }
  }

  ghost predicate Evicting(all: seq<Key>, order: seq<Key>, limit: int) {
    && |order| <= |all| && order == all[|all| - |order|..] && Distinct(order)
    && (order == all || |order| >= limit)
  }

  lemma KeepingAll<T>(values: map<Key, Option<T>>, order: seq<Key>)
    requires forall k :: k in values ==> k in order
    ensures Kept(values, order) == values
  {
  }

  lemma EvictingTheOldest<T>(values: map<Key, Option<T>>, all: seq<Key>, order: seq<Key>, limit: int)
    requires Evicting(all, order, limit) && order != [] && |order| > limit
    ensures Evicting(all, order[1..], limit)
    ensures Kept(values, order) - {order[0]} == Kept(values, order[1..])
  {
    assert order == [order[0]] + order[1..];
  }

  lemma EvictedEnough(all: seq<Key>, order: seq<Key>, limit: int)
    requires Evicting(all, order, limit) && (order == [] || |order| <= limit)
    ensures order == Latest(all, limit)
  {
  }

  datatype Use<T> = Get(key: Key) | Set(key: Key, value: Option<T>)

  function After<T>(limit: int, uses: seq<Use<T>>): Entries<T> {
    if uses == [] then Entries([], map[])
    else
      var c := After(limit, uses[..|uses| - 1]);
      match uses[|uses| - 1]
      case Get(key) => Got(c, key)
      case Set(key, value) => Stored(limit, c, key, value)
  }

  // The keys in the order they were written or found: a lookup that finds nothing is not an access.
  function Accesses<T>(limit: int, uses: seq<Use<T>>): seq<Key> {
    if uses == [] then []
    else
      var use := uses[|uses| - 1];
      var before := uses[..|uses| - 1];
      Accesses(limit, before) + if use.Get? && !Hits(After(limit, before), use.key) then [] else [use.key]
  }

  // The value each key was last given, never forgetting one.
  function Written<T>(uses: seq<Use<T>>): map<Key, Option<T>> {
    if uses == [] then map[]
    else
      var before := Written(uses[..|uses| - 1]);
      match uses[|uses| - 1]
      case Get(_) => before
      case Set(key, value) => before[key := value]
  }

  // A history and the cache it leaves: `recent` is the keys accessed, `written` what they were given.
  ghost predicate Reflects<T>(limit: int, c: Entries<T>, recent: seq<Key>, written: map<Key, Option<T>>) {
    && Consistent(c) && Distinct(recent) && c.order == Latest(recent, limit)
    && forall k :: k in c.order ==> k in written && c.values[k] == written[k]
  }

  lemma GetReflects<T>(limit: int, c: Entries<T>, recent: seq<Key>, written: map<Key, Option<T>>, key: Key)
    requires Reflects(limit, c, recent, written) && Hits(c, key)
    ensures Reflects(limit, Got(c, key), Touched(recent, key), written)
  {
    LatestOfTouched(recent, limit, key);
    TouchedIsDistinct(c.order, key);
    TouchedIsDistinct(recent, key);
  }

  lemma KeptReflects<T>(c: Entries<T>, order: seq<Key>, written: map<Key, Option<T>>, key: Key, value: Option<T>)
    requires Consistent(c) && Distinct(order)
    requires forall k :: k in c.order ==> k in written && c.values[k] == written[k]
    requires forall k | k in order :: k in c.order || k == key
    ensures var next := Entries(order, Kept(c.values[key := value], order));
            Consistent(next) && forall k :: k in order ==> k in written[key := value] && next.values[k] == written[key := value][k]
  {
  }

  lemma PutReflects<T>(limit: int, c: Entries<T>, recent: seq<Key>, written: map<Key, Option<T>>, key: Key, value: Option<T>)
    requires Reflects(limit, c, recent, written)
    ensures Reflects(limit, Stored(limit, c, key, value), Touched(recent, key), written[key := value])
  {
    var order := Latest(Touched(c.order, key), limit);
    assert order == Latest(Touched(recent, key), limit) by { LatestOfTouched(recent, limit, key); }
    assert Distinct(Touched(recent, key)) by { TouchedIsDistinct(recent, key); }
    LatestOfTouchedIsDistinct(c.order, limit, key);
    KeptReflects(c, order, written, key, value);
  }

  // The cache holds exactly the `limit` keys used last, in the order of their last use, with the
  // values they were last given, after every history of uses and for every limit.
  lemma {:induction false} CacheIsTheMostRecentKeys<T>(limit: int, uses: seq<Use<T>>)
    ensures Reflects(limit, After(limit, uses), Recent(Accesses(limit, uses)), Written(uses))
  {
    if uses != [] {
      var before, use := uses[..|uses| - 1], uses[|uses| - 1];
      CacheIsTheMostRecentKeys(limit, before);
      var c, accesses := After(limit, before), Accesses(limit, before);
      assert (accesses + [use.key])[..|accesses|] == accesses && accesses + [] == accesses;
      assert Recent(accesses + [use.key]) == Touched(Recent(accesses), use.key);
      match use {
        case Get(key) =>
          if Hits(c, key) {
            GetReflects(limit, c, Recent(accesses), Written(before), key);
          }
        case Set(key, value) => PutReflects(limit, c, Recent(accesses), Written(before), key, value);
      }
    }
  }

  // A lookup that finds a value makes its key the last one used; one that finds none leaves the cache as it was.
  lemma LookupMovesWhatItFinds<T>(limit: int, uses: seq<Use<T>>, key: Key)
    ensures var before, after := After(limit, uses), After(limit, uses + [Get(key)]);
            && after.values == before.values
            && after.order == if key in before.values && before.values[key] != None then Without(before.order, key) + [key]
                              else before.order
  {
    assert (uses + [Get(key)])[..|uses|] == uses;
  }

  // So a lookup answers with the value last given to the key, or misses if too many came since.
  lemma LookupIsExact<T>(limit: int, uses: seq<Use<T>>, before: seq<Key>, key: Key, since: seq<Key>)
    requires Accesses(limit, uses) == before + [key] + since && key !in since
    ensures key in After(limit, uses).values <==> |Elements(since)| < limit
    ensures key in After(limit, uses).values ==> key in Written(uses) && After(limit, uses).values[key] == Written(uses)[key]
  {
    CacheIsTheMostRecentKeys(limit, uses);
    HeldWhileFewOthersCame(limit, before, key, since);
  }
}

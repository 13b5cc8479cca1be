/**
 Keys in the order they were last used, and the last few of them.
 */
module RecentKeys {
  import opened DistinctLists

  datatype Key = Key(text: string)

  // The last `limit` elements; a limit below zero leaves none.
  function Latest(s: seq<Key>, limit: int): seq<Key> {
    if |s| <= limit then s else if limit <= 0 then [] else s[|s| - limit..]
  }

  // The elements before those.
  function Gone(s: seq<Key>, limit: int): seq<Key> {
    s[..|s| - |Latest(s, limit)|]
  }

  lemma GoneOrLatest(s: seq<Key>, limit: int)
    requires Distinct(s)
    ensures forall k | k in Gone(s, limit) :: k !in Latest(s, limit)
    ensures forall k | k in s :: k in Gone(s, limit) || k in Latest(s, limit)
    ensures forall k | k in Latest(s, limit) :: k in s
  {
    assert s == Gone(s, limit) + Latest(s, limit);
  }

  function Touched(order: seq<Key>, key: Key): seq<Key> {
    Without(order, key) + [key]
  }

  lemma TouchedIsDistinct(order: seq<Key>, key: Key)
    requires Distinct(order)
    ensures Distinct(Touched(order, key))
    ensures forall k :: k in Touched(order, key) <==> k in order || k == key
  {
    WithoutIsDistinct(order, key);
    WithoutIsExact(order, key);
  }

  // Every key accessed, once, in the order of its last access.
  function Recent(accesses: seq<Key>): seq<Key> {
    if accesses == [] then [] else Touched(Recent(accesses[..|accesses| - 1]), accesses[|accesses| - 1])
  }

  lemma {:induction false} RecentIsDistinct(accesses: seq<Key>)
    ensures Distinct(Recent(accesses))
    ensures forall k :: k in Recent(accesses) <==> k in accesses
  {
    if accesses != [] {
      var init := accesses[..|accesses| - 1];
      RecentIsDistinct(init);
      TouchedIsDistinct(Recent(init), accesses[|accesses| - 1]);
      assert accesses == init + [accesses[|accesses| - 1]];
    }
  }

  lemma RecentCountsTheKeys(accesses: seq<Key>)
    ensures |Recent(accesses)| == |Elements(accesses)|
  {
    RecentIsDistinct(accesses);
    DistinctIsCounted(Recent(accesses));
    assert Elements(Recent(accesses)) == Elements(accesses);
  }

  lemma LatestOfConcat(left: seq<Key>, right: seq<Key>, limit: int)
    requires |right| >= limit
    ensures Latest(left + right, limit) == Latest(right, limit)
  {
  }

  lemma LatestIsTheEnd(all: seq<Key>, limit: int)
    requires Distinct(all)
    ensures var kept := Latest(all, limit);
            && Distinct(kept) && |kept| <= |all| && all == all[..|all| - |kept|] + kept
            && (kept == all || |kept| >= limit) && (kept == [] || |kept| <= limit)
            && forall k | k in kept :: k in all
  {
  }

  lemma LatestOfTouchedIsDistinct(order: seq<Key>, limit: int, key: Key)
    requires Distinct(order)
    ensures var kept := Latest(Touched(order, key), limit);
            Distinct(kept) && forall k | k in kept :: k in order || k == key
  {
    TouchedIsDistinct(order, key);
    LatestIsTheEnd(Touched(order, key), limit);
  }

  lemma TouchedOfConcat(gone: seq<Key>, kept: seq<Key>, key: Key)
    requires Distinct(kept)
    ensures Touched(gone + kept, key) == Without(gone, key) + Touched(kept, key)
    ensures |Touched(kept, key)| == if key in kept then |kept| else |kept| + 1
  {
    WithoutOfConcat(gone, kept, key);
    WithoutIsExact(kept, key);
    WithoutIsDistinct(kept, key);
  }

  // Evicting from the front commutes with touching a key, and touching a key still there evicts none.
  lemma LatestOfTouched(all: seq<Key>, limit: int, key: Key)
    requires Distinct(all)
    ensures Latest(Touched(Latest(all, limit), key), limit) == Latest(Touched(all, key), limit)
    ensures key in Latest(all, limit) ==> Touched(Latest(all, limit), key) == Latest(Touched(all, key), limit)
  {
    var kept := Latest(all, limit);
    LatestIsTheEnd(all, limit);
    TouchedOfConcat(all[..|all| - |kept|], kept, key);
    if kept != all {
      LatestOfConcat(Without(all[..|all| - |kept|], key), Touched(kept, key), limit);
    }
  }

  lemma {:induction false} SplitAtLastAccess(before: seq<Key>, key: Key, since: seq<Key>) returns (older: seq<Key>)
    requires key !in since
    ensures Recent(before + [key] + since) == older + [key] + Recent(since)
  {
    if since == [] {
      older := Without(Recent(before), key);
      assert before + [key] + since == before + [key];
      assert (before + [key])[..|before|] == before;
    } else {
      var init, last := since[..|since| - 1], since[|since| - 1];
      var earlier := SplitAtLastAccess(before, key, init);
      var all := before + [key] + since;
      assert all[..|all| - 1] == before + [key] + init && all[|all| - 1] == last;
      older := Without(earlier, last);
      assert Without(earlier + [key], last) == older + [key] by {
        WithoutOfConcat(earlier, [key], last);
        assert Without([key], last) == [key];
      }
      WithoutOfConcat(earlier + [key], Recent(init), last);
    }
  }

  // A key that was ever accessed is still held exactly when fewer than `limit` other keys have been
  // accessed since.
  lemma HeldWhileFewOthersCame(limit: int, before: seq<Key>, key: Key, since: seq<Key>)
    requires key !in since
    ensures key in Latest(Recent(before + [key] + since), limit) <==> |Elements(since)| < limit
  {
    var all := Recent(before + [key] + since);
    var older := SplitAtLastAccess(before, key, since);
    RecentIsDistinct(before + [key] + since);
    RecentCountsTheKeys(since);
    assert all[|older|] == key;
  }
}

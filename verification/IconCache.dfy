/**
 The persistent icon cache of mobile/lib/icon-cache.ts: entries in a key-value store, the index that
 says which to evict, and the copy of the index kept in memory. The process can end between any two
 writes to the store.
 */
module IconCache {
  import opened BoundedCache
  import opened DistinctLists
  import opened RecentKeys
  import opened Wrappers

  datatype Icon = Icon(body: string, at: int)

  const ICON_FRESH_MS := 7 * 24 * 60 * 60 * 1000

  // The store: `entries` hold None where the text cannot be parsed; `indexed` is the stored index. The
  // cached index is None until it is first needed.
  datatype Cache = Cache(entries: map<Key, Option<Icon>>, indexed: seq<Key>, index: Option<seq<Key>>)

  const EMPTY := Cache(map[], [], None)

  function Order(c: Cache): seq<Key> {
    if c.index.Some? then c.index.value else c.indexed
  }

  function SetIcon(limit: nat, c: Cache, url: Key, icon: Icon): Cache {
    var all := Touched(Order(c), url);
    var next := Latest(all, limit);
    Cache((c.entries - Elements(Gone(all, limit)))[url := Some(icon)], next, Some(next))
  }

  // The same, ended after some of the evictions, or, when `wrote`, just before the index is stored.
  function CutShort(limit: nat, c: Cache, url: Key, icon: Icon, evicted: nat, wrote: bool): Cache {
    var gone := Gone(Touched(Order(c), url), limit);
    if wrote then Cache(SetIcon(limit, c, url, icon).entries, c.indexed, None)
    else Cache(c.entries - Elements(gone[..if evicted <= |gone| then evicted else |gone|]), c.indexed, None)
  }

  predicate Garbled(c: Cache, url: Key) {
    url in c.entries && c.entries[url].None?
  }

  function GotIcon(c: Cache, url: Key): Cache {
    if Garbled(c, url) then c.(entries := c.entries - {url}) else c
  }

  class IconStore {
    const limit: int
    var entries: map<Key, Option<Icon>>
    var indexed: seq<Key>
    var index: Option<seq<Key>>

    ghost function Current(): Cache
      reads this
    {
      Cache(entries, indexed, index)
    }

    // A new process over what the store holds.
    constructor (limit: int, entries: map<Key, Option<Icon>>, indexed: seq<Key>)
      ensures Current() == Cache(entries, indexed, None) && this.limit == limit
    {
      this.limit, this.entries, this.indexed, index := limit, entries, indexed, None;
    }

    method Get(url: Key, now: int) returns (hit: Option<(string, bool)>)
      modifies this
      ensures Current() == GotIcon(old(Current()), url)
      ensures hit == if url in old(entries) && old(entries)[url].Some?
                     then Some((old(entries)[url].value.body, now - old(entries)[url].value.at < ICON_FRESH_MS)) else None
    {
      if url !in entries {
        return None;
      }
      match entries[url] {
        case Some(icon) => return Some((icon.body, now - icon.at < ICON_FRESH_MS));
        case None =>
          entries := entries - {url};
          return None;
      }
    }

    method Set(url: Key, icon: Icon)
      requires limit >= 0
      modifies this
      ensures Current() == SetIcon(limit, old(Current()), url, icon)
    {
      var next := Touched(if index.Some? then index.value else indexed, url);
      ghost var all, over := next, |next| - |Latest(next, limit)|;
      var shifted := 0;
      while |next| > limit
        invariant 0 <= shifted <= over && next == all[shifted..]
        invariant entries == old(entries) - Elements(all[..shifted])
        decreases |next|
      {
        OneMoreShifted(all, shifted);
        entries := entries - {next[0]};
        next := next[1..];
        shifted := shifted + 1;
      }
      ShiftedEnough(all, shifted, limit);
      index := Some(next);
      entries := entries[url := Some(icon)];
      indexed := next;
    }
  }

  lemma OneMoreShifted(all: seq<Key>, shifted: nat)
    requires shifted < |all|
    ensures Elements(all[..shifted + 1]) == Elements(all[..shifted]) + {all[shifted]}
  {
    assert all[..shifted + 1] == all[..shifted] + [all[shifted]];
  }

  lemma ShiftedEnough(all: seq<Key>, shifted: nat, limit: nat)
    requires shifted <= |all| - |Latest(all, limit)|
    requires |all| - shifted <= limit
    ensures all[shifted..] == Latest(all, limit) && all[..shifted] == Gone(all, limit)
  {
  }

  // What `n` rounds of the loop leave of a list: shifting an empty one leaves it empty.
  function ShiftedTimes(list: seq<Key>, n: nat): seq<Key> {
    if n == 0 then list
    else
      var before := ShiftedTimes(list, n - 1);
      if before == [] then [] else before[1..]
  }

  ghost predicate WriteReturns(limit: int, c: Cache, url: Key) {
    exists n: nat :: |ShiftedTimes(Touched(Order(c), url), n)| <= limit
  }

  lemma {:induction false} EachRoundShiftsOne(list: seq<Key>, n: nat)
    ensures |ShiftedTimes(list, n)| == if n <= |list| then |list| - n else 0
  {
    if n > 0 {
      EachRoundShiftsOne(list, n - 1);
    }
  }

  // A write returns exactly when the limit is not negative: with a limit of -1 its loop goes on shifting an
  // empty list for ever.
  lemma WriteReturnsExactlyForALimit(limit: int, c: Cache, url: Key)
    ensures WriteReturns(limit, c, url) <==> limit >= 0
  {
    var all := Touched(Order(c), url);
    if limit >= 0 {
      EachRoundShiftsOne(all, |all|);
      assert |ShiftedTimes(all, |all|)| <= limit;
    }
  }

  datatype Step =
    | Get(url: Key)
    | Set(url: Key, icon: Icon)
    | Corrupt(url: Key)  // something else garbles an entry
    | Restart
    | Cut(url: Key, icon: Icon, evicted: nat, wrote: bool)

  function Stepped(limit: nat, c: Cache, step: Step): Cache {
    match step
    case Get(url) => GotIcon(c, url)
    case Set(url, icon) => SetIcon(limit, c, url, icon)
    case Corrupt(url) => if url in c.entries then c.(entries := c.entries[url := None]) else c
    case Restart => c.(index := None)
    case Cut(url, icon, evicted, wrote) => CutShort(limit, c, url, icon, evicted, wrote)
  }

  function After(limit: nat, steps: seq<Step>): Cache {
    if steps == [] then EMPTY else Stepped(limit, After(limit, steps[..|steps| - 1]), steps[|steps| - 1])
  }

  // The icons that are stored without being listed, step by step: a write that is cut short just before
  // the index is stored strands an icon that was not listed, and a whole write lists it again. Where the
  // limit leaves no room, every write strands its icon.
  function StrandedBy(limit: nat, c: Cache, stranded: set<Key>, step: Step): set<Key> {
    match step
    case Get(url) => if Garbled(c, url) then stranded - {url} else stranded
    case Set(url, _) => if limit >= 1 then stranded - {url} else stranded + {url}
    case Cut(url, _, evicted, wrote) =>
      if wrote && url !in c.indexed then stranded + {url}
      else if !wrote && limit == 0 && evicted > 0 then stranded - {url}
      else stranded
    case Corrupt(_) => stranded
    case Restart => stranded
  }

  function Stranded(limit: nat, steps: seq<Step>): set<Key> {
    if steps == [] then {}
    else
      var before := steps[..|steps| - 1];
      StrandedBy(limit, After(limit, before), Stranded(limit, before), steps[|steps| - 1])
  }

  // The index has no repeats and stays within the limit, its copy in memory agrees with it, and what is
  // stored without being listed is exactly what is stranded.
  ghost predicate Inv(limit: nat, c: Cache, stranded: set<Key>) {
    && Distinct(c.indexed) && |c.indexed| <= limit
    && (c.index.Some? ==> c.index.value == c.indexed)
    && forall k :: k in stranded <==> k in c.entries && k !in c.indexed
  }

  // The icon just written is listed, exactly when the limit leaves room for one.
  lemma WrittenIconIsListed(limit: nat, c: Cache, url: Key, icon: Icon)
    ensures url in SetIcon(limit, c, url, icon).indexed <==> limit >= 1
  {
    var all := Touched(Order(c), url);
    assert all[|all| - 1] == url;
  }

  lemma SetKeepsTheInvariant(limit: nat, c: Cache, stranded: set<Key>, url: Key, icon: Icon)
    requires limit >= 1 && Inv(limit, c, stranded)
    ensures Inv(limit, SetIcon(limit, c, url, icon), stranded - {url})
  {
    var all := Touched(c.indexed, url);
    TouchedIsDistinct(c.indexed, url);
    LatestIsTheEnd(all, limit);
    WrittenIconIsListed(limit, c, url, icon);
    GoneOrLatest(all, limit);
  }

  lemma GoneAreListed(limit: nat, indexed: seq<Key>, url: Key)
    requires limit >= 1 && Distinct(indexed)
    ensures forall k | k in Gone(Touched(indexed, url), limit) :: k in indexed
  {
    var all := Touched(indexed, url);
    TouchedIsDistinct(indexed, url);
    GoneOrLatest(all, limit);
    assert all[|all| - 1] == url && url in Latest(all, limit);
    assert forall k | k in Gone(all, limit) :: k in all;
  }

  lemma EvictingKeepsTheInvariant(limit: nat, c: Cache, stranded: set<Key>, gone: seq<Key>)
    requires Inv(limit, c, stranded) && forall k | k in gone :: k in c.indexed
    ensures Inv(limit, Cache(c.entries - Elements(gone), c.indexed, None), stranded)
  {
  }

  lemma WritingKeepsTheInvariant(limit: nat, c: Cache, stranded: set<Key>, url: Key, icon: Icon)
    requires Inv(limit, c, stranded)
    ensures Inv(limit, Cache(c.entries[url := Some(icon)], c.indexed, None),
                if url !in c.indexed then stranded + {url} else stranded)
  {
  }

  lemma LateCutKeepsTheInvariant(limit: nat, c: Cache, stranded: set<Key>, url: Key, icon: Icon)
    requires limit >= 1 && Inv(limit, c, stranded)
    ensures Inv(limit, CutShort(limit, c, url, icon, 0, true), if url !in c.indexed then stranded + {url} else stranded)
  {
    var gone := Gone(Touched(c.indexed, url), limit);
    GoneAreListed(limit, c.indexed, url);
    EvictingKeepsTheInvariant(limit, c, stranded, gone);
    WritingKeepsTheInvariant(limit, Cache(c.entries - Elements(gone), c.indexed, None), stranded, url, icon);
  }

  lemma EarlyCutKeepsTheInvariant(limit: nat, c: Cache, stranded: set<Key>, url: Key, icon: Icon, evicted: nat)
    requires limit >= 1 && Inv(limit, c, stranded)
    ensures Inv(limit, CutShort(limit, c, url, icon, evicted, false), stranded)
  {
    var gone := Gone(Touched(c.indexed, url), limit);
    GoneAreListed(limit, c.indexed, url);
    EvictingKeepsTheInvariant(limit, c, stranded, gone[..if evicted <= |gone| then evicted else |gone|]);
  }

  lemma CutKeepsTheInvariant(limit: nat, c: Cache, stranded: set<Key>, url: Key, icon: Icon, evicted: nat, wrote: bool)
    requires limit >= 1 && Inv(limit, c, stranded)
    ensures Inv(limit, CutShort(limit, c, url, icon, evicted, wrote),
                StrandedBy(limit, c, stranded, Cut(url, icon, evicted, wrote)))
  {
    if wrote {
      LateCutKeepsTheInvariant(limit, c, stranded, url, icon);
    } else {
      EarlyCutKeepsTheInvariant(limit, c, stranded, url, icon, evicted);
    }
  }

  lemma NoRoomKeepsTheInvariant(limit: nat, c: Cache, stranded: set<Key>, step: Step)
    requires limit == 0 && Inv(limit, c, stranded)
    ensures Inv(limit, Stepped(limit, c, step), StrandedBy(limit, c, stranded, step))
  {
    if step.Set? || step.Cut? {
      assert Touched([], step.url) == [step.url] && Latest([step.url], limit) == [];
      assert Gone([step.url], limit) == [step.url] && Elements([step.url]) == {step.url};
      assert step.Cut? ==> [step.url][..if step.evicted <= 1 then step.evicted else 1] == if step.evicted == 0 then [] else [step.url];
    }
  }

  lemma StepKeepsTheInvariant(limit: nat, c: Cache, stranded: set<Key>, step: Step)
    requires Inv(limit, c, stranded)
    ensures Inv(limit, Stepped(limit, c, step), StrandedBy(limit, c, stranded, step))
  {
    if limit == 0 {
      NoRoomKeepsTheInvariant(limit, c, stranded, step);
    } else if step.Set? {
      SetKeepsTheInvariant(limit, c, stranded, step.url, step.icon);
    } else if step.Cut? {
      CutKeepsTheInvariant(limit, c, stranded, step.url, step.icon, step.evicted, step.wrote);
    }
  }

  // Main result, for every run under every limit that lets writes return.
  lemma {:induction false} EveryRunKeepsTheInvariant(limit: nat, steps: seq<Step>)
    ensures Inv(limit, After(limit, steps), Stranded(limit, steps))
  {
    if steps != [] {
      var before := steps[..|steps| - 1];
      EveryRunKeepsTheInvariant(limit, before);
      StepKeepsTheInvariant(limit, After(limit, before), Stranded(limit, before), steps[|steps| - 1]);
    }
  }

  // Listed icons whose entry is not there: evicted by a write that was cut short, or garbled and removed.
  function Missing(c: Cache): set<Key> {
    set k | k in c.indexed && k !in c.entries
  }

  // How many icons are stored, exactly. So there are at most `limit` of them if and only if the stranded
  // ones fit in what the index leaves free and its missing entries.
  lemma StorageIsBounded(limit: nat, steps: seq<Step>)
    ensures var c, stranded := After(limit, steps), Stranded(limit, steps);
            && |c.entries| == |c.indexed| - |Missing(c)| + |stranded|
            && |c.entries| <= limit + |stranded|
            && (|c.entries| <= limit <==> |stranded| <= limit - |c.indexed| + |Missing(c)|)
  {
    var c, stranded := After(limit, steps), Stranded(limit, steps);
    EveryRunKeepsTheInvariant(limit, steps);
    DistinctIsCounted(c.indexed);
    var listed := Elements(c.indexed);
    var held := listed - Missing(c);
    assert c.entries.Keys == held + stranded && held !! stranded;
    assert |held + stranded| == |held| + |stranded|;
    assert Missing(c) <= listed && |held| == |listed| - |Missing(c)|;
  }

  // A stranded icon stays stranded until it is written whole, or garbled and looked up.
  lemma StrandedIconStays(limit: nat, steps: seq<Step>, step: Step, url: Key)
    requires limit >= 1 && url in Stranded(limit, steps)
    ensures url in Stranded(limit, steps + [step]) <==>
            !(step.Set? && step.url == url) && !(step == Step.Get(url) && Garbled(After(limit, steps), url))
  {
    EveryRunKeepsTheInvariant(limit, steps);
    assert (steps + [step])[..|steps|] == steps;
  }

  function Sets(urls: seq<Key>, icon: Icon): seq<Step> {
    if urls == [] then [] else Sets(urls[..|urls| - 1], icon) + [Step.Set(urls[|urls| - 1], icon)]
  }

  lemma SetWithRoom(limit: nat, c: Cache, url: Key, icon: Icon)
    requires url !in c.indexed && |c.indexed| < limit && Order(c) == c.indexed
    ensures SetIcon(limit, c, url, icon)
         == Cache(c.entries[url := Some(icon)], c.indexed + [url], Some(c.indexed + [url]))
  {
    WithoutIsExact(c.indexed, url);
    var all := c.indexed + [url];
    assert Touched(Order(c), url) == all && Latest(all, limit) == all && Gone(all, limit) == [];
  }

  lemma AfterOneMore(limit: nat, steps: seq<Step>, step: Step)
    ensures After(limit, steps + [step]) == Stepped(limit, After(limit, steps), step)
  {
    assert (steps + [step])[..|steps|] == steps;
  }

  // The listed icons and one stranded one are all that is stored.
  predicate HoldsBeside(c: Cache, listed: seq<Key>, url: Key) {
    c.indexed == listed && Order(c) == listed && c.entries.Keys == Elements(listed) + {url}
  }

  lemma {:induction false} CutRun(limit: nat, url: Key, icon: Icon, others: seq<Key>)
    requires Distinct(others) && url !in others && |others| <= limit
    ensures HoldsBeside(After(limit, [Cut(url, icon, 0, true)] + Sets(others, icon)), others, url)
    decreases |others|
  {
    var cut := [Cut(url, icon, 0, true)];
    if others == [] {
      assert cut + Sets(others, icon) == cut;
      CutAlone(limit, url, icon);
    } else {
      var init, last := others[..|others| - 1], others[|others| - 1];
      assert others == init + [last];
      CutRun(limit, url, icon, init);
      CutRunStep(limit, cut + Sets(init, icon), init, last, url, icon);
      Regrouped(cut, Sets(init, icon), Step.Set(last, icon));
      assert Sets(others, icon) == Sets(init, icon) + [Step.Set(last, icon)];
    }
  }

  lemma CutRunStep(limit: nat, steps: seq<Step>, init: seq<Key>, last: Key, url: Key, icon: Icon)
    requires HoldsBeside(After(limit, steps), init, url)
    requires |init| < limit && last !in init
    ensures HoldsBeside(After(limit, steps + [Step.Set(last, icon)]), init + [last], url)
  {
    AfterOneMore(limit, steps, Step.Set(last, icon));
    SetWithRoom(limit, After(limit, steps), last, icon);
  }

  lemma CutAlone(limit: nat, url: Key, icon: Icon)
    ensures After(limit, [Cut(url, icon, 0, true)]) == Cache(map[url := Some(icon)], [], None)
  {
    AfterOneMore(limit, [], Cut(url, icon, 0, true));
    assert [] + [Cut(url, icon, 0, true)] == [Cut(url, icon, 0, true)];
    CutOnEmpty(limit, url, icon);
  }

  lemma Regrouped(cut: seq<Step>, sets: seq<Step>, last: Step)
    ensures cut + (sets + [last]) == (cut + sets) + [last]
  {
  }

  // Such runs: the first write of an icon is cut short and others follow. With `limit` others the store
  // holds one icon more than the limit.
  lemma CutWriteStrandsItsIcon(limit: nat, url: Key, icon: Icon, others: seq<Key>)
    requires Distinct(others) && url !in others && |others| <= limit
    ensures var steps := [Cut(url, icon, 0, true)] + Sets(others, icon);
            && url in After(limit, steps).entries && url !in After(limit, steps).indexed
            && Stranded(limit, steps) == {url} && |After(limit, steps).entries| == |others| + 1
  {
    var steps := [Cut(url, icon, 0, true)] + Sets(others, icon);
    CutRun(limit, url, icon, others);
    EveryRunKeepsTheInvariant(limit, steps);
    OneIsStranded(limit, After(limit, steps), Stranded(limit, steps), others, url);
  }

  lemma OneIsStranded(limit: nat, c: Cache, stranded: set<Key>, others: seq<Key>, url: Key)
    requires Inv(limit, c, stranded) && url !in others
    requires c.indexed == others && c.entries.Keys == Elements(others) + {url}
    ensures stranded == {url} && |c.entries| == |others| + 1
  {
    DistinctIsCounted(others);
    assert |c.entries| == |Elements(others) + {url}|;
  }

  lemma CutOnEmpty(limit: nat, url: Key, icon: Icon)
    ensures CutShort(limit, EMPTY, url, icon, 0, true) == Cache(map[url := Some(icon)], [], None)
  {
    assert Touched([], url) == [url];
  }

  // With no room at all the index stays empty over every run, and every icon stored is stranded.
  lemma NoRoomStrandsEveryIcon(steps: seq<Step>)
    ensures After(0, steps).indexed == [] && After(0, steps).entries.Keys == Stranded(0, steps)
  {
    EveryRunKeepsTheInvariant(0, steps);
  }

  predicate Whole(step: Step) {
    !step.Cut? && !step.Corrupt?
  }

  // The steps as uses of a least-recently-used cache: only writes count.
  function Writes(steps: seq<Step>): seq<Use<Icon>> {
    if steps == [] then []
    else
      var last := steps[|steps| - 1];
      Writes(steps[..|steps| - 1]) + if last.Set? then [Use.Set(last.url, Some(last.icon))] else []
  }

  lemma EvictedIsKept(entries: map<Key, Option<Icon>>, gone: seq<Key>, next: seq<Key>, url: Key, icon: Icon)
    requires url in next && forall k | k in gone :: k !in next
    requires forall k | k in entries :: k in gone || k in next
    ensures (entries - Elements(gone))[url := Some(icon)] == Kept(entries[url := Some(icon)], next)
  {
  }

  lemma SetIsAPut(limit: nat, c: Cache, url: Key, icon: Icon)
    requires limit >= 1 && Distinct(c.indexed) && Order(c) == c.indexed
    requires forall k :: k in c.entries <==> k in c.indexed
    ensures var next := SetIcon(limit, c, url, icon);
            Entries(next.indexed, next.entries) == Stored(limit, Entries(c.indexed, c.entries), url, Some(icon))
  {
    var all := Touched(c.indexed, url);
    TouchedIsDistinct(c.indexed, url);
    GoneOrLatest(all, limit);
    WrittenIconIsListed(limit, c, url, icon);
    EvictedIsKept(c.entries, Gone(all, limit), Latest(all, limit), url, icon);
  }

  ghost predicate AllReadable(entries: map<Key, Option<Icon>>) {
    forall k | k in entries :: entries[k].Some?
  }

  lemma WholeStep(limit: nat, c: Cache, step: Step)
    requires limit >= 1 && Whole(step)
    requires Distinct(c.indexed) && Order(c) == c.indexed && AllReadable(c.entries)
    requires forall k :: k in c.entries <==> k in c.indexed
    ensures var next := Stepped(limit, c, step);
            && AllReadable(next.entries)
            && Entries(next.indexed, next.entries)
               == if step.Set? then Stored(limit, Entries(c.indexed, c.entries), step.url, Some(step.icon))
                  else Entries(c.indexed, c.entries)
  {
    if step.Set? {
      SetIsAPut(limit, c, step.url, step.icon);
    }
  }

  lemma OneMoreWrite(limit: nat, uses: seq<Use<Icon>>, url: Key, icon: Icon)
    ensures BoundedCache.After(limit, uses + [Use.Set(url, Some(icon))])
         == Stored(limit, BoundedCache.After(limit, uses), url, Some(icon))
  {
    assert (uses + [Use.Set(url, Some(icon))])[..|uses|] == uses;
  }

  lemma CacheIsConsistent(limit: nat, uses: seq<Use<Icon>>)
    ensures Consistent(BoundedCache.After(limit, uses))
  {
    CacheIsTheMostRecentKeys(limit, uses);
  }

  // When no write is cut short or garbled, restarts and lookups change nothing, and the store holds
  // exactly what a cache that never forgets its index would: the `limit` icons written last.
  lemma {:induction false} WholeRunsAreTheMostRecentIcons(limit: nat, steps: seq<Step>)
    requires limit >= 1 && forall step | step in steps :: Whole(step)
    ensures Entries(After(limit, steps).indexed, After(limit, steps).entries) == BoundedCache.After(limit, Writes(steps))
    ensures AllReadable(After(limit, steps).entries)
  {
    if steps != [] {
      var before, last := steps[..|steps| - 1], steps[|steps| - 1];
      var c := After(limit, before);
      WholeRunsAreTheMostRecentIcons(limit, before);
      CacheIsConsistent(limit, Writes(before));
      assert Order(c) == c.indexed by { EveryRunKeepsTheInvariant(limit, before); }
      assert Whole(last) by { assert last in steps; }
      WholeStep(limit, c, last);
      if last.Set? {
        OneMoreWrite(limit, Writes(before), last.url, last.icon);
      } else {
        assert Writes(before) + [] == Writes(before);
      }
    }
  }

  // Between writes: a garbled entry is found missing and is gone when it is looked up, any other entry stays, and a
  // restart leaves everything stored as it was and forgets the copy in memory.
  lemma GarbledEntryIsRemoved(limit: nat, steps: seq<Step>, url: Key, other: Key)
    requires url in After(limit, steps).entries
    ensures var c := After(limit, steps);
            var garbled := After(limit, steps + [Corrupt(url)]);
            var looked := After(limit, (steps + [Corrupt(url)]) + [Step.Get(url)]);
            && garbled.entries.Keys == c.entries.Keys && garbled.entries[url] == None
            && url !in looked.entries && looked.indexed == c.indexed
            && (other != url && other in c.entries ==> other in looked.entries && looked.entries[other] == c.entries[other])
    ensures After(limit, steps + [Restart]) == After(limit, steps).(index := None)
  {
    AfterOneMore(limit, steps, Corrupt(url));
    AfterOneMore(limit, steps + [Corrupt(url)], Step.Get(url));
    AfterOneMore(limit, steps, Restart);
  }
}

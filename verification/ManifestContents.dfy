/**
 What stands in a built manifest, told from the input's bundles and channels, and what its names look like.
 */
module ManifestContents {
  import opened DistinctLists
  import opened Wrappers
  import opened StableSort
  import opened ReleaseManifest
  import opened ManifestGenerate

  // ----- which element comes first

  ghost predicate Precedes<T(!new)>(s: seq<T>, x: T, y: T) {
    exists i, j | 0 <= i < j < |s| :: s[i] == x && s[j] == y
  }

  lemma PrecedesFromTheHead<T(!new)>(s: seq<T>, x: T, y: T)
    requires s != []
    ensures Precedes(s, x, y) <==> (s[0] == x && y in s[1..]) || Precedes(s[1..], x, y)
  {
    var rest := s[1..];
    if i, j :| 0 <= i < j < |s| && s[i] == x && s[j] == y {
      assert s[j] == rest[j - 1];
      if i > 0 {
        assert rest[i - 1] == x && rest[j - 1] == y;
      }
    }
    if s[0] == x && y in rest {
      var j :| 0 <= j < |rest| && rest[j] == y;
      assert s[j + 1] == y;
    }
    if i, j :| 0 <= i < j < |rest| && rest[i] == x && rest[j] == y {
      assert s[i + 1] == x && s[j + 1] == y;
    }
  }

  lemma {:induction false} OneKeyKeepsPrecedence<T(!new)>(key: T -> int, s: seq<T>, x: T, y: T)
    requires key(x) == key(y)
    ensures Precedes(WithKey(key, s, key(x)), x, y) <==> Precedes(s, x, y)
  {
    if s != [] {
      var rest := WithKey(key, s[1..], key(x));
      OneKeyKeepsPrecedence(key, s[1..], x, y);
      PrecedesFromTheHead(s, x, y);
      WithKeyHolds(key, s[1..], y);
      if key(s[0]) == key(x) {
        PrecedesFromTheHead(WithKey(key, s, key(x)), x, y);
        assert WithKey(key, s, key(x))[1..] == rest;
      } else {
        assert WithKey(key, s, key(x)) == rest;
      }
    }
  }

  // A sort keeps the order of elements whose keys tie.
  lemma SortKeepsPrecedence<T(!new)>(key: T -> int, s: seq<T>, x: T, y: T)
    requires key(x) == key(y)
    ensures Precedes(Sort(key, s), x, y) <==> Precedes(s, x, y)
  {
    SortKeepsOrderWithin(key, s, key(x));
    OneKeyKeepsPrecedence(key, Sort(key, s), x, y);
    OneKeyKeepsPrecedence(key, s, x, y);
  }

  lemma PrecedesWithOneMore<T(!new)>(early: seq<T>, last: T, x: T, y: T)
    ensures Precedes(early + [last], x, y) <==> Precedes(early, x, y) || (x in early && last == y)
  {
    var s := early + [last];
    if i, j :| 0 <= i < j < |s| && s[i] == x && s[j] == y {
      assert early[i] == x;
      if j < |early| {
        assert early[j] == y;
      }
    }
    if i, j :| 0 <= i < j < |early| && early[i] == x && early[j] == y {
      assert s[i] == x && s[j] == y;
    }
    if x in early && last == y {
      var i :| 0 <= i < |early| && early[i] == x;
      assert s[i] == x && s[|early|] == y;
    }
  }

  lemma {:induction false} EntriesKeepPrecedence(bundles: seq<Bundle>, slug: string, x: Bundle, y: Bundle)
    requires x.channel == slug && y.channel == slug
    ensures Precedes(EntriesOf(bundles, slug), x, y) <==> Precedes(bundles, x, y)
    decreases |bundles|
  {
    if bundles != [] {
      var early, last := bundles[..|bundles| - 1], bundles[|bundles| - 1];
      EntriesKeepPrecedence(early, slug, x, y);
      EntriesLookup(early, slug);
      assert bundles == early + [last];
      PrecedesWithOneMore(early, last, x, y);
      if last.channel == slug {
        PrecedesWithOneMore(EntriesOf(early, slug), last, x, y);
      } else {
        assert EntriesOf(bundles, slug) == EntriesOf(early, slug) + [] == EntriesOf(early, slug);
      }
    }
  }

  // ----- what is built

  // The releases are the bundles, each under its version with its own fields.
  lemma BuiltReleasesAreTheBundles(input: Input, bundle: Bundle)
    requires ValidInput(input) && bundle in input.bundles
    ensures var version, releases := bundle.daemonVersion + "+image." + bundle.imageVersion, Built(input).releases;
            && version in releases
            && releases[version].version == version && releases[version].channel == bundle.channel
            && releases[version].releasedAt == bundle.releasedAt
            && releases[version].yanked == bundle.yanked && releases[version].deprecated == bundle.deprecated
    ensures forall version | version in Built(input).releases ::
              exists b | b in input.bundles :: version == b.daemonVersion + "+image." + b.imageVersion
  {
    InstallableVersions(input, bundle);
    forall version | version in Built(input).releases
      ensures exists b | b in input.bundles :: version == b.daemonVersion + "+image." + b.imageVersion
    {
      ReleaseLookup(input.bundles, version);
      var b :| b in input.bundles && VersionOf(b) == version;
      assert version == b.daemonVersion + "+image." + b.imageVersion;
    }
  }

  // The channels are those of the input that a bundle names, each with its own name and default.
  lemma BuiltChannelsAreTheOnesNamed(input: Input, channel: ChannelSource)
    requires ValidInput(input) && channel in input.channels
    ensures var channels := Built(input).channels;
            && (channel.slug in channels <==> exists bundle | bundle in input.bundles :: bundle.channel == channel.slug)
            && (channel.slug in channels ==>
                  channels[channel.slug].name == channel.name && channels[channel.slug].isDefault == channel.isDefault)
    ensures forall slug | slug in Built(input).channels :: exists c | c in input.channels :: c.slug == slug
  {
    ChannelLookup(input.channels, input.bundles, channel.slug);
    EntriesLookup(input.bundles, channel.slug);
    if channel.slug in Built(input).channels {
      assert EntriesOf(input.bundles, channel.slug)[0] in EntriesOf(input.bundles, channel.slug);
    }
    forall slug | slug in Built(input).channels ensures exists c | c in input.channels :: c.slug == slug {
      ChannelLookup(input.channels, input.bundles, slug);
    }
  }

  // A channel lists exactly its own bundles.
  lemma BuiltListHoldsItsBundles(input: Input, slug: string, version: string)
    requires ValidInput(input) && slug in Built(input).channels
    ensures version in Built(input).channels[slug].releases <==>
            exists bundle | bundle in input.bundles :: bundle.channel == slug && VersionOf(bundle) == version
  {
    var channel := NamedChannel(input, slug);
    EntriesLookup(input.bundles, slug);
    ListedVersions(EntriesOf(input.bundles, slug), version);
  }

  lemma NamedChannel(input: Input, slug: string) returns (channel: ChannelSource)
    requires ValidInput(input) && slug in Built(input).channels
    ensures channel in input.channels && channel.slug == slug && EntriesOf(input.bundles, slug) != []
    ensures Built(input).channels[slug] == ChannelOf(channel, EntriesOf(input.bundles, slug))
  {
    ChannelLookup(input.channels, input.bundles, slug);
    channel :| channel in input.channels && channel.slug == slug;
  }

  // It lists them newest first, and those of one time as the input has them.
  lemma BuiltListIsNewestFirst(input: Input, slug: string, i: nat, j: nat) returns (x: Bundle, y: Bundle)
    requires ValidInput(input) && slug in Built(input).channels
    requires i < j < |Built(input).channels[slug].releases|
    ensures x in input.bundles && VersionOf(x) == Built(input).channels[slug].releases[i]
    ensures y in input.bundles && VersionOf(y) == Built(input).channels[slug].releases[j]
    ensures x.releasedAt > y.releasedAt || (x.releasedAt == y.releasedAt && Precedes(input.bundles, x, y))
  {
    var channel := NamedChannel(input, slug);
    var entries := EntriesOf(input.bundles, slug);
    var sorted := Sort(ByNewest, entries);
    x, y := sorted[i], sorted[j];
    EntriesLookup(input.bundles, slug);
    SortKeepsElements(ByNewest, entries, x);
    SortKeepsElements(ByNewest, entries, y);
    SortIsSorted(ByNewest, entries);
    assert ByNewest(x) <= ByNewest(y);
    if x.releasedAt == y.releasedAt {
      assert Precedes(sorted, x, y);
      SortKeepsPrecedence(ByNewest, entries, x, y);
      EntriesKeepPrecedence(input.bundles, slug, x, y);
    }
  }

  // And its latest is the newest of its bundles that is not deprecated and has no reason to be yanked; only where
  // there is none is it another of its bundles.
  lemma BuiltLatestIsTheNewest(input: Input, slug: string) returns (latest: Bundle)
    requires ValidInput(input) && slug in Built(input).channels
    ensures latest in input.bundles && latest.channel == slug && VersionOf(latest) == Built(input).channels[slug].latest
    ensures forall b | b in input.bundles && b.channel == slug && !b.deprecated && (b.yanked == None || b.yanked == Some("")) ::
              !latest.deprecated && (latest.yanked == None || latest.yanked == Some("")) && b.releasedAt <= latest.releasedAt
  {
    var channel := NamedChannel(input, slug);
    var entries := EntriesOf(input.bundles, slug);
    latest := LatestOf(Sort(ByNewest, entries));
    LatestIsTheNewest(entries);
    EntriesLookup(input.bundles, slug);
    forall b | b in input.bundles && b.channel == slug && !b.deprecated && (b.yanked == None || b.yanked == Some(""))
      ensures !latest.deprecated && (latest.yanked == None || latest.yanked == Some("")) && b.releasedAt <= latest.releasedAt
    {
      assert b in entries && LooksInstallable(b);
      LeastIsLeast(entries, b);
    }
  }

  lemma {:induction false} LeastIsLeast(entries: seq<Bundle>, b: Bundle)
    requires b in entries && LooksInstallable(b)
    ensures var newest := LeastWanted(ByNewest, LooksInstallable, entries);
            newest.Some? && LooksInstallable(newest.value) && b.releasedAt <= newest.value.releasedAt
    decreases |entries|
  {
    var early, last := entries[..|entries| - 1], entries[|entries| - 1];
    assert entries == early + [last];
    if b in early {
      LeastIsLeast(early, b);
    }
    WantedIsWanted(early);
  }

  lemma {:induction false} WantedIsWanted(entries: seq<Bundle>)
    ensures var newest := LeastWanted(ByNewest, LooksInstallable, entries);
            newest.Some? ==> LooksInstallable(newest.value)
    decreases |entries|
  {
    if entries != [] {
      WantedIsWanted(entries[..|entries| - 1]);
    }
  }
}

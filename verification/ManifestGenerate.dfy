/** The manifest generator of site/manifest/generate.ts, and when the validator accepts what it builds. */
module ManifestGenerate {
  import opened DistinctLists
  import opened PlainObjects
  import opened Wrappers
  import opened StableSort
  import opened ReleaseManifest
  import opened ManifestValidate

  datatype Bundle = Bundle(
    daemonVersion: string,
    imageVersion: string,
    channel: string,
    releasedAt: int,
    deprecated: bool,
    yanked: Option<string>,
    daemonBumped: bool,
    imageBumped: bool)

  datatype ChannelSource = ChannelSource(slug: string, name: string, isDefault: bool)

  datatype Input = Input(
    channels: seq<ChannelSource>,
    daemonReleases: seq<string>,
    imageReleases: seq<string>,
    bundles: seq<Bundle>)

  datatype GenerateError =
    | DuplicateKey(key: string)
    | MissingRelease(version: string)
    | UnknownChannelOf(slug: string)
    | NoBody(version: string)
    | NoList(slug: string)
    | NothingBumped
    | DuplicateVersion(version: string)
    | Invalid(errors: seq<ValidationError>)

  function VersionOf(bundle: Bundle): (version: string) {
    bundle.daemonVersion + "+image." + bundle.imageVersion
  }

  function ReleaseOf(bundle: Bundle): Release {
    Release(VersionOf(bundle), bundle.channel, bundle.releasedAt, bundle.yanked, bundle.deprecated)
  }

  function SlugOf(channel: ChannelSource): string {
    channel.slug
  }

  // Newest first, in a stable sort.
  function ByNewest(bundle: Bundle): int {
    -bundle.releasedAt
  }

  // The generator takes a reason of no characters for no reason; the validator does not.
  predicate LooksInstallable(bundle: Bundle) {
    (bundle.yanked.None? || bundle.yanked.value == "") && !bundle.deprecated
  }

  predicate IsInstallable(bundle: Bundle) {
    bundle.yanked.None? && !bundle.deprecated
  }

  // ----- what is built

  function ReleasesOf(bundles: seq<Bundle>): (releases: map<string, Release>)
    decreases |bundles|
  {
    if bundles == [] then map[]
    else ReleasesOf(bundles[..|bundles| - 1])[VersionOf(bundles[|bundles| - 1]) := ReleaseOf(bundles[|bundles| - 1])]
  }

  // The bundles of a channel, in the order they were pushed.
  function EntriesOf(bundles: seq<Bundle>, slug: string): (entries: seq<Bundle>)
    decreases |bundles|
  {
    if bundles == [] then []
    else
      var last := bundles[|bundles| - 1];
      EntriesOf(bundles[..|bundles| - 1], slug) + if last.channel == slug then [last] else []
  }

  function Versions(bundles: seq<Bundle>): (versions: seq<string>) {
    seq(|bundles|, i requires 0 <= i < |bundles| => VersionOf(bundles[i]))
  }

  function LatestOf(sorted: seq<Bundle>): Bundle
    requires sorted != []
  {
    match FirstWanted(LooksInstallable, sorted)
    case Some(bundle) => bundle
    case None => sorted[0]
  }

  function ChannelOf(channel: ChannelSource, entries: seq<Bundle>): Channel
    requires entries != []
  {
    var sorted := Sort(ByNewest, entries);
    Channel(channel.name, channel.isDefault, VersionOf(LatestOf(sorted)), Versions(sorted))
  }

  // Channels without entries are left out.
  function ChannelsOf(channels: seq<ChannelSource>, bundles: seq<Bundle>): (built: map<string, Channel>)
    decreases |channels|
  {
    if channels == [] then map[]
    else
      var earlier, last := ChannelsOf(channels[..|channels| - 1], bundles), channels[|channels| - 1];
      var entries := EntriesOf(bundles, last.slug);
      if entries == [] then earlier else earlier[last.slug := ChannelOf(last, entries)]
  }

  function Built(input: Input): Manifest {
    Manifest(ChannelsOf(input.channels, input.bundles), ReleasesOf(input.bundles))
  }

  // The release of a component that was not bumped is only looked up, and an inherited name is found.
  predicate ComponentIsKnown(releases: seq<string>, version: string, bumped: bool) {
    version in releases || (IsInherited(version) && !bumped)
  }

  predicate IsKnown(input: Input, bundle: Bundle) {
    && ComponentIsKnown(input.daemonReleases, bundle.daemonVersion, bundle.daemonBumped)
    && ComponentIsKnown(input.imageReleases, bundle.imageVersion, bundle.imageBumped)
    && (exists channel | channel in input.channels :: channel.slug == bundle.channel)
    && (bundle.daemonBumped || bundle.imageBumped)
  }

  // Keys that a plain object can index.
  predicate CanBeIndexed(keys: seq<string>) {
    Distinct(keys) && forall key | key in keys :: !IsInherited(key)
  }

  ghost predicate ValidInput(input: Input) {
    && CanBeIndexed(input.daemonReleases) && CanBeIndexed(input.imageReleases)
    && DistinctBy(SlugOf, input.channels) && (forall channel | channel in input.channels :: !IsInherited(channel.slug))
    && (forall bundle | bundle in input.bundles :: IsKnown(input, bundle))
    && DistinctBy(VersionOf, input.bundles)
  }

  // ----- how it is built

  method IndexBy(keys: seq<string>) returns (index: Result<set<string>, GenerateError>)
    ensures index.Success? <==> CanBeIndexed(keys)
    ensures index.Success? ==> forall key :: key in index.value <==> key in keys
    ensures index.Failure? ==> index.error.DuplicateKey?
  {
    var out := {};
    for i := 0 to |keys|
      invariant CanBeIndexed(keys[..i])
      invariant forall key :: key in out <==> key in keys[..i]
    {
      assert keys[..i + 1] == keys[..i] + [keys[i]];
      if keys[i] in out || IsInherited(keys[i]) {
        return Failure(DuplicateKey(keys[i]));
      }
      out := out + {keys[i]};
    }
    assert keys[..|keys|] == keys;
    return Success(out);
  }

  function Slugs(channels: seq<ChannelSource>): (slugs: seq<string>) {
    seq(|channels|, i requires 0 <= i < |channels| => channels[i].slug)
  }

  lemma SlugsRepeatWithTheChannels(channels: seq<ChannelSource>)
    ensures Distinct(Slugs(channels)) <==> DistinctBy(SlugOf, channels)
    ensures forall slug :: slug in Slugs(channels) <==> exists channel | channel in channels :: channel.slug == slug
  {
    assert forall i | 0 <= i < |channels| :: SlugOf(channels[i]) == Slugs(channels)[i];
    forall slug ensures slug in Slugs(channels) <==> exists channel | channel in channels :: channel.slug == slug {
      if slug in Slugs(channels) {
        var i :| 0 <= i < |Slugs(channels)| && Slugs(channels)[i] == slug;
        assert channels[i] in channels && channels[i].slug == slug;
      }
      if channel :| channel in channels && channel.slug == slug {
        var i :| 0 <= i < |channels| && channels[i] == channel;
        assert Slugs(channels)[i] == slug;
      }
    }
  }

  method CheckBundle(input: Input, bundle: Bundle, daemons: set<string>, images: set<string>, slugs: set<string>)
    returns (error: Option<GenerateError>)
    requires forall version :: version in daemons <==> version in input.daemonReleases
    requires forall version :: version in images <==> version in input.imageReleases
    requires forall slug | slug in slugs :: !IsInherited(slug)
    requires forall slug :: slug in slugs <==> exists channel | channel in input.channels :: channel.slug == slug
    ensures error.None? ==> IsKnown(input, bundle) || IsInherited(bundle.channel)
    ensures error.Some? ==> !IsKnown(input, bundle)
    ensures IsInherited(bundle.channel) ==> !IsKnown(input, bundle)
  {
    var daemon, image := bundle.daemonVersion, bundle.imageVersion;
    if daemon !in daemons && !IsInherited(daemon) { return Some(MissingRelease(daemon)); }
    if image !in images && !IsInherited(image) { return Some(MissingRelease(image)); }
    if bundle.channel !in slugs && !IsInherited(bundle.channel) { return Some(UnknownChannelOf(bundle.channel)); }
    if !bundle.daemonBumped && !bundle.imageBumped { return Some(NothingBumped); }
    if bundle.daemonBumped && daemon !in daemons { return Some(NoBody(daemon)); }
    if bundle.imageBumped && image !in images { return Some(NoBody(image)); }
    return None;
  }

  method CollectReleases(input: Input, daemons: set<string>, images: set<string>, slugs: set<string>)
    returns (built: Result<map<string, Release>, GenerateError>)
    requires forall version :: version in daemons <==> version in input.daemonReleases
    requires forall version :: version in images <==> version in input.imageReleases
    requires forall slug | slug in slugs :: !IsInherited(slug)
    requires forall slug :: slug in slugs <==> exists channel | channel in input.channels :: channel.slug == slug
    ensures built.Success? <==>
              (forall bundle | bundle in input.bundles :: IsKnown(input, bundle)) && DistinctBy(VersionOf, input.bundles)
    ensures built.Success? ==> built.value == ReleasesOf(input.bundles)
  {
    var bundles := input.bundles;
    var releases := map[];
    for i := 0 to |bundles|
      invariant releases == ReleasesOf(bundles[..i])
      invariant forall k | 0 <= k < i :: IsKnown(input, bundles[k])
      invariant DistinctBy(VersionOf, bundles[..i])
    {
      var bundle := bundles[i];
      assert bundle in bundles;
      var error := CheckBundle(input, bundle, daemons, images, slugs);
      if error.Some? { return Failure(error.value); }
      var version := VersionOf(bundle);
      OneMoreRelease(bundles, i);
      NoPlusIsInherited(version);
      if version in releases || IsInherited(version) { return Failure(DuplicateVersion(version)); }
      releases := releases[version := ReleaseOf(bundle)];
      if IsInherited(bundle.channel) { return Failure(NoList(bundle.channel)); }
    }
    assert bundles[..|bundles|] == bundles;
    return Success(releases);
  }

  lemma OneMoreRelease(bundles: seq<Bundle>, i: nat)
    requires i < |bundles| && DistinctBy(VersionOf, bundles[..i])
    ensures VersionOf(bundles[i]) in ReleasesOf(bundles[..i]) <==> !DistinctBy(VersionOf, bundles[..i + 1])
    ensures ReleasesOf(bundles[..i + 1]) == ReleasesOf(bundles[..i])[VersionOf(bundles[i]) := ReleaseOf(bundles[i])]
    ensures DistinctBy(VersionOf, bundles) ==> DistinctBy(VersionOf, bundles[..i + 1])
  {
    assert bundles[..i + 1] == bundles[..i] + [bundles[i]] && bundles[..i + 1][..i] == bundles[..i];
    DistinctByLast(VersionOf, bundles[..i], bundles[i]);
    ReleaseLookup(bundles[..i], VersionOf(bundles[i]));
  }

  method CollectEntries(bundles: seq<Bundle>, slug: string) returns (entries: seq<Bundle>)
    ensures entries == EntriesOf(bundles, slug)
  {
    entries := [];
    for i := 0 to |bundles|
      invariant entries == EntriesOf(bundles[..i], slug)
    {
      assert bundles[..i + 1][..i] == bundles[..i];
      if bundles[i].channel == slug {
        entries := entries + [bundles[i]];
      }
    }
    assert bundles[..|bundles|] == bundles;
  }

  method CollectChannels(channels: seq<ChannelSource>, bundles: seq<Bundle>) returns (built: map<string, Channel>)
    ensures built == ChannelsOf(channels, bundles)
  {
    built := map[];
    for i := 0 to |channels|
      invariant built == ChannelsOf(channels[..i], bundles)
    {
      assert channels[..i + 1][..i] == channels[..i];
      var entries := CollectEntries(bundles, channels[i].slug);
      if entries != [] {
        built := built[channels[i].slug := ChannelOf(channels[i], entries)];
      }
    }
    assert channels[..|channels|] == channels;
  }

  method Build(input: Input) returns (built: Result<Manifest, GenerateError>)
    ensures built.Success? <==> ValidInput(input)
    ensures built.Success? ==> built.value == Built(input)
  {
    SlugsRepeatWithTheChannels(input.channels);
    var daemons := IndexBy(input.daemonReleases);
    if daemons.Failure? { return Failure(daemons.error); }
    var images := IndexBy(input.imageReleases);
    if images.Failure? { return Failure(images.error); }
    var slugs := IndexBy(Slugs(input.channels));
    if slugs.Failure? { return Failure(slugs.error); }
    var releases := CollectReleases(input, daemons.value, images.value, slugs.value);
    if releases.Failure? { return Failure(releases.error); }
    var channels := CollectChannels(input.channels, input.bundles);
    return Success(Manifest(channels, releases.value));
  }

  // ----- when what is built is well formed, by the cross-reference check alone

  predicate IsUsed(input: Input, channel: ChannelSource) {
    EntriesOf(input.bundles, channel.slug) != []
  }

  ghost predicate OneDefaultInUse(input: Input) {
    forall a, b | a in input.channels && b in input.channels ::
      a.isDefault && b.isDefault && IsUsed(input, a) && IsUsed(input, b) ==> a.slug == b.slug
  }

  // The newest bundle of the channel that is not deprecated and looks as if it was not yanked was yanked
  // with an empty reason, while another bundle of the channel is installable.
  predicate EmptyReasonHides(bundles: seq<Bundle>, slug: string) {
    var entries := EntriesOf(bundles, slug);
    var newest := LeastWanted(ByNewest, LooksInstallable, entries);
    && newest.Some? && newest.value.yanked == Some("")
    && exists bundle | bundle in entries :: IsInstallable(bundle)
  }

  ghost predicate Acceptable(input: Input) {
    OneDefaultInUse(input) && forall channel | channel in input.channels :: !EmptyReasonHides(input.bundles, channel.slug)
  }

  lemma {:induction false} ReleaseLookup(bundles: seq<Bundle>, version: string)
    requires DistinctBy(VersionOf, bundles)
    ensures version in ReleasesOf(bundles) <==> exists bundle | bundle in bundles :: VersionOf(bundle) == version
    ensures forall bundle | bundle in bundles && VersionOf(bundle) == version ::
              version in ReleasesOf(bundles) && ReleasesOf(bundles)[version] == ReleaseOf(bundle)
    decreases |bundles|
  {
    if bundles != [] {
      var early, last := bundles[..|bundles| - 1], bundles[|bundles| - 1];
      assert bundles == early + [last];
      DistinctByLast(VersionOf, early, last);
      ReleaseLookup(early, version);
    }
  }

  lemma {:induction false} EntriesLookup(bundles: seq<Bundle>, slug: string)
    ensures forall bundle :: bundle in EntriesOf(bundles, slug) <==> bundle in bundles && bundle.channel == slug
    decreases |bundles|
  {
    if bundles != [] {
      EntriesLookup(bundles[..|bundles| - 1], slug);
      assert bundles == bundles[..|bundles| - 1] + [bundles[|bundles| - 1]];
    }
  }

  lemma {:induction false} EntriesStayDistinct(bundles: seq<Bundle>, slug: string)
    requires DistinctBy(VersionOf, bundles)
    ensures DistinctBy(VersionOf, EntriesOf(bundles, slug))
    decreases |bundles|
  {
    if bundles != [] {
      var early, last := bundles[..|bundles| - 1], bundles[|bundles| - 1];
      assert bundles == early + [last];
      DistinctByLast(VersionOf, early, last);
      EntriesStayDistinct(early, slug);
      EntriesLookup(early, slug);
      if last.channel == slug {
        DistinctByLast(VersionOf, EntriesOf(early, slug), last);
      }
    }
  }

  lemma {:induction false} ChannelLookup(channels: seq<ChannelSource>, bundles: seq<Bundle>, slug: string)
    requires DistinctBy(SlugOf, channels)
    ensures slug in ChannelsOf(channels, bundles) <==>
            EntriesOf(bundles, slug) != [] && exists channel | channel in channels :: channel.slug == slug
    ensures forall channel | channel in channels && channel.slug == slug && EntriesOf(bundles, slug) != [] ::
              ChannelsOf(channels, bundles)[slug] == ChannelOf(channel, EntriesOf(bundles, slug))
    decreases |channels|
  {
    if channels != [] {
      var early, last := channels[..|channels| - 1], channels[|channels| - 1];
      assert channels == early + [last];
      DistinctByLast(SlugOf, early, last);
      ChannelLookup(early, bundles, slug);
      if last.slug == slug {
        assert last in channels;
        assert slug !in ChannelsOf(early, bundles);
      } else {
        assert slug in ChannelsOf(channels, bundles) <==> slug in ChannelsOf(early, bundles);
      }
    }
  }

  lemma ListedVersions(entries: seq<Bundle>, version: string)
    ensures version in Versions(Sort(ByNewest, entries)) <==> exists bundle | bundle in entries :: VersionOf(bundle) == version
  {
    var sorted := Sort(ByNewest, entries);
    if version in Versions(sorted) {
      var i :| 0 <= i < |sorted| && Versions(sorted)[i] == version;
      SortKeepsElements(ByNewest, entries, sorted[i]);
    }
    if bundle :| bundle in entries && VersionOf(bundle) == version {
      SortKeepsElements(ByNewest, entries, bundle);
      var i :| 0 <= i < |sorted| && sorted[i] == bundle;
      assert Versions(sorted)[i] == version;
    }
  }

  lemma ListDoesNotRepeat(entries: seq<Bundle>)
    requires DistinctBy(VersionOf, entries)
    ensures Distinct(Versions(Sort(ByNewest, entries)))
  {
    SortKeepsDistinct(ByNewest, VersionOf, entries);
  }

  // The latest bundle: the newest that looks installable, or some entry when none does.
  lemma LatestIsTheNewest(entries: seq<Bundle>)
    requires entries != []
    ensures var latest := LatestOf(Sort(ByNewest, entries));
            var newest := LeastWanted(ByNewest, LooksInstallable, entries);
            && latest in entries
            && (newest.Some? ==> latest == newest.value && LooksInstallable(latest))
            && (newest.None? ==> forall bundle | bundle in entries :: !LooksInstallable(bundle))
  {
    var sorted := Sort(ByNewest, entries);
    FirstOfSortIsLeast(ByNewest, LooksInstallable, entries);
    FirstWantedIsWanted(LooksInstallable, sorted);
    SortKeepsElements(ByNewest, entries, LatestOf(sorted));
    forall bundle | bundle in entries ensures bundle in sorted {
      SortKeepsElements(ByNewest, entries, bundle);
    }
  }

  lemma InstallableVersions(input: Input, bundle: Bundle)
    requires ValidInput(input) && bundle in input.bundles
    ensures VersionOf(bundle) in Built(input).releases
    ensures Built(input).releases[VersionOf(bundle)] == ReleaseOf(bundle)
    ensures Installable(Built(input), VersionOf(bundle)) <==> IsInstallable(bundle)
  {
    ReleaseLookup(input.bundles, VersionOf(bundle));
  }

  lemma BuiltReleaseKeysMatch(input: Input)
    requires ValidInput(input)
    ensures ReleaseKeysMatch(Built(input))
  {
    var m := Built(input);
    forall key | key in m.releases ensures m.releases[key].version == key && m.releases[key].channel in m.channels {
      ReleaseLookup(input.bundles, key);
      var bundle :| bundle in input.bundles && VersionOf(bundle) == key;
      assert IsKnown(input, bundle);
      EntriesLookup(input.bundles, bundle.channel);
      ChannelLookup(input.channels, input.bundles, bundle.channel);
    }
  }

  lemma BuiltHasNoOrphans(input: Input)
    requires ValidInput(input)
    ensures NoneIsOrphaned(Built(input))
  {
    var m := Built(input);
    forall key | key in m.releases ensures IsListed(m, key) {
      ReleaseLookup(input.bundles, key);
      var bundle :| bundle in input.bundles && VersionOf(bundle) == key;
      BundleIsListed(input, bundle);
    }
  }

  lemma BundleIsListed(input: Input, bundle: Bundle)
    requires ValidInput(input) && bundle in input.bundles
    ensures bundle.channel in Built(input).channels
    ensures VersionOf(bundle) in Built(input).channels[bundle.channel].releases
  {
    assert IsKnown(input, bundle);
    var channel :| channel in input.channels && channel.slug == bundle.channel;
    EntriesLookup(input.bundles, bundle.channel);
    ChannelLookup(input.channels, input.bundles, bundle.channel);
    ListedVersions(EntriesOf(input.bundles, bundle.channel), VersionOf(bundle));
  }

  // A channel that is built lists its own releases, without repeats, and its latest is right unless an
  // empty reason hides an installable release.
  lemma BuiltChannelIsRight(input: Input, channel: ChannelSource)
    requires ValidInput(input) && channel in input.channels && IsUsed(input, channel)
    ensures channel.slug in Built(input).channels
    ensures ListIsRight(Built(input), channel.slug)
    ensures Built(input).channels[channel.slug].latest in Built(input).releases
    ensures LatestIsRight(Built(input), Built(input).channels[channel.slug]) <==> !EmptyReasonHides(input.bundles, channel.slug)
  {
    var m := Built(input);
    var entries := EntriesOf(input.bundles, channel.slug);
    ChannelLookup(input.channels, input.bundles, channel.slug);
    BuiltListIsRight(input, channel.slug);
    BuiltLatestIsRight(input, channel);
  }

  lemma BuiltListIsRight(input: Input, slug: string)
    requires ValidInput(input)
    ensures var versions := Versions(Sort(ByNewest, EntriesOf(input.bundles, slug)));
            ListsItsOwn(Built(input), slug, versions) && Distinct(versions)
  {
    var entries := EntriesOf(input.bundles, slug);
    EntriesLookup(input.bundles, slug);
    EntriesStayDistinct(input.bundles, slug);
    ListDoesNotRepeat(entries);
    forall version | version in Versions(Sort(ByNewest, entries))
      ensures version in Built(input).releases && Built(input).releases[version].channel == slug
    {
      ListedVersions(entries, version);
      var bundle :| bundle in entries && VersionOf(bundle) == version;
      InstallableVersions(input, bundle);
    }
  }

  lemma BuiltLatestIsRight(input: Input, channel: ChannelSource)
    requires ValidInput(input) && channel in input.channels && IsUsed(input, channel)
    ensures VersionOf(LatestOf(Sort(ByNewest, EntriesOf(input.bundles, channel.slug)))) in Built(input).releases
    ensures LatestIsRight(Built(input), ChannelOf(channel, EntriesOf(input.bundles, channel.slug)))
       <==> !EmptyReasonHides(input.bundles, channel.slug)
  {
    var m := Built(input);
    var entries := EntriesOf(input.bundles, channel.slug);
    var latest := LatestOf(Sort(ByNewest, entries));
    var versions := Versions(Sort(ByNewest, entries));
    EntriesLookup(input.bundles, channel.slug);
    LatestIsTheNewest(entries);
    InstallableVersions(input, latest);
    if version :| version in versions && Installable(m, version) {
      ListedVersions(entries, version);
      var bundle :| bundle in entries && VersionOf(bundle) == version;
      InstallableVersions(input, bundle);
      assert IsInstallable(bundle) && LooksInstallable(bundle);
    }
    if bundle :| bundle in entries && IsInstallable(bundle) {
      ListedVersions(entries, VersionOf(bundle));
      InstallableVersions(input, bundle);
      assert Installable(m, VersionOf(bundle)) && LooksInstallable(bundle);
    }
  }

  lemma BuiltDefaults(input: Input)
    requires ValidInput(input)
    ensures AtMostOneDefault(Built(input)) <==> OneDefaultInUse(input)
  {
    var m := Built(input);
    forall slug ensures slug in m.channels <==> exists channel | channel in input.channels :: channel.slug == slug && IsUsed(input, channel) {
      ChannelLookup(input.channels, input.bundles, slug);
    }
    forall channel | channel in input.channels && IsUsed(input, channel)
      ensures channel.slug in m.channels && m.channels[channel.slug].isDefault == channel.isDefault
    {
      ChannelLookup(input.channels, input.bundles, channel.slug);
    }
  }

  lemma BuiltWellFormed(input: Input)
    requires ValidInput(input)
    ensures WellFormed(Built(input)) <==> Acceptable(input)
  {
    BuiltReleaseKeysMatch(input);
    BuiltHasNoOrphans(input);
    BuiltDefaults(input);
    BuiltChannels(input);
  }

  // Exactly when the validator accepts what the generator builds: every latest is a release there.
  lemma BuiltIsWellFormedExactlyWhenAcceptable(input: Input)
    requires ValidInput(input)
    ensures WellFormed(Built(input)) <==> Acceptable(input)
    ensures Passes(Built(input)) <==> Acceptable(input)
  {
    PassingLacksOnlyALatest(Built(input));
    BuiltLatestsAreReleases(input);
    BuiltWellFormed(input);
  }

  lemma BuiltLatestsAreReleases(input: Input)
    requires ValidInput(input)
    ensures forall id | id in Built(input).channels :: Built(input).channels[id].latest in Built(input).releases
  {
    forall id | id in Built(input).channels ensures Built(input).channels[id].latest in Built(input).releases {
      ChannelLookup(input.channels, input.bundles, id);
      var channel :| channel in input.channels && channel.slug == id;
      assert IsUsed(input, channel);
      BuiltChannelIsRight(input, channel);
    }
  }

  lemma BuiltChannels(input: Input)
    requires ValidInput(input)
    ensures ListsAreRight(Built(input))
    ensures LatestsAreRight(Built(input)) <==>
            forall channel | channel in input.channels :: !EmptyReasonHides(input.bundles, channel.slug)
  {
    var m := Built(input);
    forall channel | channel in input.channels && IsUsed(input, channel)
      ensures channel.slug in m.channels
      ensures ListIsRight(m, channel.slug)
      ensures LatestIsRight(m, m.channels[channel.slug]) <==> !EmptyReasonHides(input.bundles, channel.slug)
    {
      BuiltChannelIsRight(input, channel);
    }
    forall slug | slug in m.channels
      ensures exists channel | channel in input.channels :: channel.slug == slug && IsUsed(input, channel)
    {
      ChannelLookup(input.channels, input.bundles, slug);
    }
  }

  // The documented promise: without empty yank reasons and with one default, everything built is accepted.
  lemma OrdinaryInputsAreAccepted(input: Input)
    requires ValidInput(input) && OneDefaultInUse(input)
    requires forall bundle | bundle in input.bundles :: bundle.yanked != Some("")
    ensures WellFormed(Built(input))
  {
    forall channel | channel in input.channels ensures !EmptyReasonHides(input.bundles, channel.slug) {
      var entries := EntriesOf(input.bundles, channel.slug);
      EntriesLookup(input.bundles, channel.slug);
      if entries != [] {
        LatestIsTheNewest(entries);
      }
    }
    BuiltIsWellFormedExactlyWhenAcceptable(input);
  }

  // ----- the whole generator

  // What the schema asks of the input.
  predicate ConformingInput(input: Input) {
    && input.bundles != []
    && (forall bundle | bundle in input.bundles ::
          IsVersion(VersionOf(bundle)) && IsSlug(bundle.channel) && bundle.yanked != Some(""))
    && (forall channel | channel in input.channels && IsUsed(input, channel) :: 1 <= |channel.name| <= 50)
  }

  lemma BuiltReleasesConform(input: Input)
    requires ValidInput(input)
    ensures (Built(input).releases != map[] && forall key | key in Built(input).releases :: ReleaseConforms(key, Built(input).releases[key]))
       <==> (input.bundles != [] && forall bundle | bundle in input.bundles ::
               IsVersion(VersionOf(bundle)) && IsSlug(bundle.channel) && bundle.yanked != Some(""))
  {
    var releases := Built(input).releases;
    forall bundle | bundle in input.bundles
      ensures VersionOf(bundle) in releases && releases[VersionOf(bundle)] == ReleaseOf(bundle)
    {
      ReleaseLookup(input.bundles, VersionOf(bundle));
    }
    forall key | key in releases
      ensures exists bundle | bundle in input.bundles :: VersionOf(bundle) == key && releases[key] == ReleaseOf(bundle)
    {
      ReleaseLookup(input.bundles, key);
    }
    if input.bundles != [] {
      assert input.bundles[0] in input.bundles && VersionOf(input.bundles[0]) in releases;
    }
  }

  lemma BuiltChannelConforms(input: Input, channel: ChannelSource)
    requires ValidInput(input) && channel in input.channels && IsUsed(input, channel)
    requires forall bundle | bundle in input.bundles :: IsVersion(VersionOf(bundle)) && IsSlug(bundle.channel)
    ensures channel.slug in Built(input).channels
    ensures ChannelConforms(channel.slug, Built(input).channels[channel.slug]) <==> 1 <= |channel.name| <= 50
  {
    var entries := EntriesOf(input.bundles, channel.slug);
    var built := ChannelOf(channel, entries);
    ChannelLookup(input.channels, input.bundles, channel.slug);
    EntriesLookup(input.bundles, channel.slug);
    EntriesStayDistinct(input.bundles, channel.slug);
    ListDoesNotRepeat(entries);
    LatestIsTheNewest(entries);
    assert entries[0] in entries && IsSlug(channel.slug);
    forall version | version in built.releases ensures IsVersion(version) {
      ListedVersions(entries, version);
    }
    ListedVersions(entries, VersionOf(entries[0]));
  }

  lemma SomeChannelIsUsed(input: Input)
    requires ValidInput(input) && input.bundles != []
    ensures exists channel | channel in input.channels :: IsUsed(input, channel)
  {
    var bundle := input.bundles[0];
    assert bundle in input.bundles && IsKnown(input, bundle);
    var channel :| channel in input.channels && channel.slug == bundle.channel;
    EntriesLookup(input.bundles, channel.slug);
    assert bundle in EntriesOf(input.bundles, channel.slug);
    assert IsUsed(input, channel);
  }

  lemma BuiltChannelsConform(input: Input)
    requires ValidInput(input) && input.bundles != []
    requires forall bundle | bundle in input.bundles :: IsVersion(VersionOf(bundle)) && IsSlug(bundle.channel)
    ensures Built(input).channels != map[]
    ensures (forall id | id in Built(input).channels :: ChannelConforms(id, Built(input).channels[id]))
       <==> forall channel | channel in input.channels && IsUsed(input, channel) :: 1 <= |channel.name| <= 50
  {
    var channels := Built(input).channels;
    forall channel | channel in input.channels && IsUsed(input, channel)
      ensures channel.slug in channels
      ensures ChannelConforms(channel.slug, channels[channel.slug]) <==> 1 <= |channel.name| <= 50
    {
      BuiltChannelConforms(input, channel);
    }
    forall slug | slug in channels
      ensures exists channel | channel in input.channels :: channel.slug == slug && IsUsed(input, channel)
    {
      ChannelLookup(input.channels, input.bundles, slug);
    }
    SomeChannelIsUsed(input);
    var channel :| channel in input.channels && IsUsed(input, channel);
    assert channel.slug in channels;
  }

  // What is built keeps the schema's rules exactly when the input does.
  lemma BuiltConformsExactlyWhenTheInputDoes(input: Input)
    requires ValidInput(input)
    ensures Conforms(Built(input)) <==> ConformingInput(input)
  {
    BuiltReleasesConform(input);
    if input.bundles != [] && forall bundle | bundle in input.bundles ::
         IsVersion(VersionOf(bundle)) && IsSlug(bundle.channel) && bundle.yanked != Some("")
    {
      BuiltChannelsConform(input);
    }
  }

  // Main result: the generator succeeds exactly on valid inputs that keep the schema's rules and have one
  // default in use, and then returns what was built; no cross-reference can fail otherwise.
  method Generate(input: Input, othersConform: bool) returns (manifest: Result<Manifest, GenerateError>)
    ensures manifest.Success? <==> ValidInput(input) && othersConform && ConformingInput(input) && OneDefaultInUse(input)
    ensures manifest.Success? ==> manifest.value == Built(input) && WellFormed(manifest.value)
  {
    var built := Build(input);
    if built.Failure? { return built; }
    BuiltConformsExactlyWhenTheInputDoes(input);
    PassingLacksOnlyALatest(built.value);
    BuiltIsWellFormedExactlyWhenAcceptable(input);
    var errors := Validate(built.value, othersConform);
    if ConformingInput(input) {
      ConformingInputsOnlyNeedOneDefault(input);
    }
    if errors != [] { return Failure(Invalid(errors)); }
    return built;
  }

  lemma ConformingInputsOnlyNeedOneDefault(input: Input)
    requires ValidInput(input) && ConformingInput(input)
    ensures WellFormed(Built(input)) <==> OneDefaultInUse(input)
  {
    BuiltIsWellFormedExactlyWhenAcceptable(input);
    if OneDefaultInUse(input) {
      OrdinaryInputsAreAccepted(input);
    }
  }

  // Without the schema, an empty yank reason on the newest bundle hides an installable one: the
  // cross-reference check turns the manifest down, and so does the schema.
  lemma EmptyReasonIsTurnedDown(older: Bundle, newer: Bundle, channel: ChannelSource) returns (input: Input)
    requires older.channel == newer.channel == channel.slug && VersionOf(older) != VersionOf(newer)
    requires older.daemonBumped && newer.daemonBumped && AreOrdinary(older, newer, channel)
    requires older.releasedAt < newer.releasedAt
    requires IsInstallable(older) && newer.yanked == Some("") && !newer.deprecated
    ensures input.bundles == [older, newer] && input.channels == [channel]
    ensures ValidInput(input) && OneDefaultInUse(input) && !WellFormed(Built(input)) && !Conforms(Built(input))
  {
    input := PairInput(older, newer, channel);
    PairIsValid(older, newer, channel);
    BothAreEntries(older, newer, channel.slug);
    assert channel in input.channels && newer in input.bundles;
    BuiltIsWellFormedExactlyWhenAcceptable(input);
    BuiltConformsExactlyWhenTheInputDoes(input);
  }

  predicate AreOrdinary(older: Bundle, newer: Bundle, channel: ChannelSource) {
    && !IsInherited(channel.slug)
    && !IsInherited(older.daemonVersion) && !IsInherited(older.imageVersion)
    && !IsInherited(newer.daemonVersion) && !IsInherited(newer.imageVersion)
  }

  function Both(a: string, b: string): (list: seq<string>)
    ensures Distinct(list) && a in list && b in list
  {
    if a == b then [a] else [a, b]
  }

  function PairInput(older: Bundle, newer: Bundle, channel: ChannelSource): Input {
    Input([channel], Both(older.daemonVersion, newer.daemonVersion), Both(older.imageVersion, newer.imageVersion), [older, newer])
  }

  lemma PairIsValid(older: Bundle, newer: Bundle, channel: ChannelSource)
    requires older.channel == newer.channel == channel.slug && VersionOf(older) != VersionOf(newer)
    requires older.daemonBumped && newer.daemonBumped && AreOrdinary(older, newer, channel)
    ensures ValidInput(PairInput(older, newer, channel)) && OneDefaultInUse(PairInput(older, newer, channel))
  {
    assert channel in PairInput(older, newer, channel).channels;
  }

  lemma BothAreEntries(older: Bundle, newer: Bundle, slug: string)
    requires older.channel == newer.channel == slug && older.releasedAt < newer.releasedAt
    requires IsInstallable(older) && newer.yanked == Some("") && !newer.deprecated
    ensures EmptyReasonHides([older, newer], slug)
  {
    assert [older, newer][..1] == [older] && [older][..0] == [];
    assert EntriesOf([], slug) == [] && EntriesOf([older], slug) == [] + [older];
    assert EntriesOf([older, newer], slug) == [older] + [newer] == [older, newer];
    assert LeastWanted(ByNewest, LooksInstallable, [older]) == Some(older);
    assert LeastWanted(ByNewest, LooksInstallable, [older, newer]) == Some(newer);
    assert older in EntriesOf([older, newer], slug);
  }

  // A bundle of a new image may name a daemon release that does not exist, if objects inherit that name: the
  // generator succeeds with a release under it.
  lemma InheritedDaemonIsKnown(bundle: Bundle, channel: ChannelSource) returns (input: Input)
    requires IsInherited(bundle.daemonVersion) && !IsInherited(bundle.imageVersion) && !IsInherited(channel.slug)
    requires !bundle.daemonBumped && bundle.imageBumped && bundle.channel == channel.slug
    requires IsVersion(VersionOf(bundle)) && IsSlug(channel.slug) && 1 <= |channel.name| <= 50 && bundle.yanked != Some("")
    ensures input.daemonReleases == [] && input.bundles == [bundle]
    ensures ValidInput(input) && ConformingInput(input) && OneDefaultInUse(input)
    ensures VersionOf(bundle) in Built(input).releases
  {
    input := Input([channel], [], [bundle.imageVersion], [bundle]);
    assert channel in input.channels && bundle in input.bundles;
    assert IsKnown(input, bundle);
    InstallableVersions(input, bundle);
  }
}

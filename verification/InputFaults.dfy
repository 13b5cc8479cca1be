/** Which inputs of the manifest generator are valid, fault by fault. */
module InputFaults {
  import opened DistinctLists
  import opened PlainObjects
  import opened StableSort
  import opened Wrappers
  import opened ManifestGenerate

  ghost predicate Repeats(keys: seq<string>) {
    exists i, j | 0 <= i < j < |keys| :: keys[i] == keys[j]
  }

  ghost predicate VersionsRepeat(bundles: seq<Bundle>) {
    exists i, j | 0 <= i < j < |bundles| :: VersionOf(bundles[i]) == VersionOf(bundles[j])
  }

  ghost predicate SlugsRepeat(channels: seq<ChannelSource>) {
    exists i, j | 0 <= i < j < |channels| :: channels[i].slug == channels[j].slug
  }

  // A component without a release that nothing excuses: it was bumped, or objects inherit no such name.
  predicate LacksARelease(releases: seq<string>, version: string, bumped: bool) {
    version !in releases && (bumped || !IsInherited(version))
  }

  predicate IsFaulty(input: Input, bundle: Bundle) {
    || LacksARelease(input.daemonReleases, bundle.daemonVersion, bundle.daemonBumped)
    || LacksARelease(input.imageReleases, bundle.imageVersion, bundle.imageBumped)
    || (forall channel | channel in input.channels :: channel.slug != bundle.channel)
    || (!bundle.daemonBumped && !bundle.imageBumped)
  }

  // An input is invalid exactly when a version or a slug repeats, a key is a name objects inherit, or a bundle is faulty.
  lemma InvalidInputsHaveAFault(input: Input)
    ensures !ValidInput(input) <==>
            || Repeats(input.daemonReleases) || Repeats(input.imageReleases)
            || SlugsRepeat(input.channels) || VersionsRepeat(input.bundles)
            || (exists key | key in input.daemonReleases :: IsInherited(key))
            || (exists key | key in input.imageReleases :: IsInherited(key))
            || (exists channel | channel in input.channels :: IsInherited(channel.slug))
            || (exists bundle | bundle in input.bundles :: IsFaulty(input, bundle))
  {
    assert Repeats(input.daemonReleases) <==> !Distinct(input.daemonReleases);
    assert Repeats(input.imageReleases) <==> !Distinct(input.imageReleases);
    assert SlugsRepeat(input.channels) <==> !DistinctBy(SlugOf, input.channels) by {
      assert forall channel: ChannelSource :: SlugOf(channel) == channel.slug;
    }
    assert VersionsRepeat(input.bundles) <==> !DistinctBy(VersionOf, input.bundles);
    forall bundle ensures IsFaulty(input, bundle) <==> !IsKnown(input, bundle) {
    }
  }
}

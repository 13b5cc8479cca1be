/**
 The release manifest of site/manifest/types.ts, with the fields its cross-references use, and what it
 is for one to be well formed. `Passes` is what the cross-reference check lets through: a little more.
 */
module ReleaseManifest {
  import opened DistinctLists
  import opened PlainObjects
  import opened Wrappers

  datatype Release = Release(version: string, channel: string, releasedAt: int, yanked: Option<string>, deprecated: bool)

  datatype Channel = Channel(name: string, isDefault: bool, latest: string, releases: seq<string>)

  datatype Manifest = Manifest(channels: map<string, Channel>, releases: map<string, Release>)

  predicate Installable(m: Manifest, version: string) {
    version in m.releases && m.releases[version].yanked.None? && !m.releases[version].deprecated
  }

  predicate HasInstallable(m: Manifest, versions: seq<string>) {
    exists version | version in versions :: Installable(m, version)
  }

  predicate ReleaseKeysMatch(m: Manifest) {
    forall key | key in m.releases :: m.releases[key].version == key && m.releases[key].channel in m.channels
  }

  predicate LatestIsRight(m: Manifest, channel: Channel) {
    && channel.latest in m.releases
    && (HasInstallable(m, channel.releases) ==> Installable(m, channel.latest))
  }

  // Looking the latest up also finds the names objects inherit, and then asks only whether anything listed
  // is installable.
  predicate LatestPasses(m: Manifest, channel: Channel) {
    || LatestIsRight(m, channel)
    || (channel.latest !in m.releases && IsInherited(channel.latest) && !HasInstallable(m, channel.releases))
  }

  predicate ListsItsOwn(m: Manifest, id: string, versions: seq<string>) {
    forall version | version in versions :: version in m.releases && m.releases[version].channel == id
  }

  // A channel whose id is the empty string escapes the check for repeats: the source tells whether a
  // version was seen by the truth of the id it was seen under.
  predicate ListIsRight(m: Manifest, id: string)
    requires id in m.channels
  {
    ListsItsOwn(m, id, m.channels[id].releases) && (id != "" ==> Distinct(m.channels[id].releases))
  }

  predicate IsListed(m: Manifest, version: string) {
    exists id | id in m.channels :: version in m.channels[id].releases
  }

  predicate AtMostOneDefault(m: Manifest) {
    forall a, b | a in m.channels && b in m.channels :: m.channels[a].isDefault && m.channels[b].isDefault ==> a == b
  }

  predicate ListsAreRight(m: Manifest) {
    forall id | id in m.channels :: ListIsRight(m, id)
  }

  predicate LatestsAreRight(m: Manifest) {
    forall id | id in m.channels :: LatestIsRight(m, m.channels[id])
  }

  predicate LatestsPass(m: Manifest) {
    forall id | id in m.channels :: LatestPasses(m, m.channels[id])
  }

  predicate NoneIsOrphaned(m: Manifest) {
    forall version | version in m.releases :: IsListed(m, version)
  }

  predicate WellFormed(m: Manifest) {
    ReleaseKeysMatch(m) && ListsAreRight(m) && LatestsAreRight(m) && NoneIsOrphaned(m) && AtMostOneDefault(m)
  }

  predicate Passes(m: Manifest) {
    ReleaseKeysMatch(m) && ListsAreRight(m) && LatestsPass(m) && NoneIsOrphaned(m) && AtMostOneDefault(m)
  }

  // What passes is well formed exactly when every latest is a release.
  lemma PassingLacksOnlyALatest(m: Manifest)
    ensures WellFormed(m) <==> Passes(m) && forall id | id in m.channels :: m.channels[id].latest in m.releases
  {
    forall id | id in m.channels
      ensures LatestIsRight(m, m.channels[id]) <==>
              LatestPasses(m, m.channels[id]) && m.channels[id].latest in m.releases
    {
    }
  }

  // A manifest that keeps the schema's rules and passes, though its channel's latest is no release: any name that
  // objects inherit will do where the one release listed is withdrawn.
  lemma InheritedLatestPasses(id: string, latest: string, version: string, release: Release) returns (m: Manifest)
    requires IsInherited(latest) && IsVersion(latest) && latest != version
    requires IsSlug(id) && ReleaseConforms(version, release) && release.version == version && release.channel == id
    requires release.yanked.Some? || release.deprecated
    ensures Conforms(m) && Passes(m) && !WellFormed(m)
    ensures m.channels.Keys == {id} && m.channels[id].latest == latest && m.releases == map[version := release]
  {
    var channel := Channel("channel", false, latest, [version]);
    m := Manifest(map[id := channel], map[version := release]);
    assert channel.releases[0] == version && m.channels[id] == channel;
    assert version in m.channels[id].releases && IsListed(m, version);
    assert !HasInstallable(m, channel.releases);
    assert ChannelConforms(id, channel);
    assert !LatestIsRight(m, m.channels[id]);
  }

  lemma ToStringIsSuchAName()
    ensures IsInherited("toString") && IsVersion("toString")
  {
  }

  // Where the lists are right, the channel lists partition what they list: a listed version is a release
  // and stands in the list of its own channel, and no two places hold the same version.
  lemma ListedReleaseIsInItsOwnList(m: Manifest, version: string)
    requires ListsAreRight(m) && IsListed(m, version)
    ensures version in m.releases
    ensures m.releases[version].channel in m.channels && version in m.channels[m.releases[version].channel].releases
  {
    var home :| home in m.channels && version in m.channels[home].releases;
    assert ListIsRight(m, home);
  }

  lemma NoTwoPlacesHoldOneVersion(m: Manifest, a: string, i: nat, b: string, j: nat)
    requires a in m.channels && ListIsRight(m, a)
    requires b in m.channels && ListIsRight(m, b)
    requires i < |m.channels[a].releases| && j < |m.channels[b].releases|
    requires m.channels[a].releases[i] == m.channels[b].releases[j]
    ensures a == b && (i == j || a == "")
  {
    assert m.channels[a].releases[i] in m.channels[a].releases && m.channels[b].releases[j] in m.channels[b].releases;
  }

  // Such a manifest: one release, listed twice by a channel without an id.
  lemma EmptyIdMayListAVersionTwice(version: string, release: Release) returns (m: Manifest)
    requires release.version == version && release.channel == ""
    ensures WellFormed(m) && m.releases == map[version := release]
    ensures "" in m.channels && m.channels[""].releases == [version, version]
  {
    m := Manifest(map["" := Channel("nameless", false, version, [version, version])], map[version := release]);
    assert m.channels[""].releases[0] == version && LatestIsRight(m, m.channels[""]);
    assert ListsItsOwn(m, "", m.channels[""].releases);
    assert version in m.channels[""].releases && IsListed(m, version);
  }

  // ----- the schema's rules for these fields

  predicate IsAlphanumeric(c: char, upper: bool) {
    'a' <= c <= 'z' || '0' <= c <= '9' || (upper && 'A' <= c <= 'Z')
  }

  predicate IsSlug(s: string) {
    && 1 <= |s| <= 64
    && IsAlphanumeric(s[0], false) && IsAlphanumeric(s[|s| - 1], false)
    && forall i | 0 <= i < |s| :: IsAlphanumeric(s[i], false) || s[i] == '-'
  }

  predicate IsVersion(s: string) {
    && 1 <= |s| <= 100
    && IsAlphanumeric(s[0], true) && IsAlphanumeric(s[|s| - 1], true)
    && forall i | 0 <= i < |s| :: IsAlphanumeric(s[i], true) || s[i] in ".+-"
  }

  predicate ChannelConforms(id: string, channel: Channel) {
    && IsSlug(id) && 1 <= |channel.name| <= 50 && IsVersion(channel.latest)
    && channel.releases != [] && Distinct(channel.releases)
    && forall version | version in channel.releases :: IsVersion(version)
  }

  predicate ReleaseConforms(key: string, release: Release) {
    IsVersion(key) && IsVersion(release.version) && IsSlug(release.channel) && release.yanked != Some("")
  }

  predicate Conforms(m: Manifest) {
    && m.channels != map[] && m.releases != map[]
    && (forall id | id in m.channels :: ChannelConforms(id, m.channels[id]))
    && (forall key | key in m.releases :: ReleaseConforms(key, m.releases[key]))
  }
}

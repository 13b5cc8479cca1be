/** The cross-reference validator of site/manifest/validate.ts. */
module ManifestValidate {
  import opened DistinctLists
  import opened PlainObjects
  import opened Wrappers
  import opened ReleaseManifest

  datatype ValidationError =
    | KeyMismatch(key: string)
    | UnknownChannel(key: string)
    | LatestMissing(id: string)
    | LatestWithdrawn(id: string)
    | ReleaseMissing(id: string, version: string)
    | WrongChannel(id: string, version: string)
    | ListedTwice(id: string, version: string, prior: string)
    | Orphaned(version: string)
    | ManyDefaults
    | BreaksTheSchema

  // The first channel each version was seen in.
  type Seen = map<string, string>

  // What the map of seen versions holds while no error has been found.
  ghost predicate SeenIsExact(m: Manifest, done: set<string>, seen: Seen)
    requires done <= m.channels.Keys
  {
    && (forall version :: version in seen <==> exists id | id in done :: version in m.channels[id].releases)
    && (forall version | version in seen ::
          version in m.releases && seen[version] == m.releases[version].channel && seen[version] in done)
  }

  // The channel of a release is looked up with `in`, which finds inherited names too.
  predicate KeyPasses(m: Manifest, key: string)
    requires key in m.releases
  {
    m.releases[key].version == key && (m.releases[key].channel in m.channels || IsInherited(m.releases[key].channel))
  }

  method CheckReleases(m: Manifest) returns (errors: seq<ValidationError>)
    ensures errors == [] <==> forall key | key in m.releases :: KeyPasses(m, key)
  {
    errors := [];
    var left := m.releases.Keys;
    while left != {}
      invariant left <= m.releases.Keys
      invariant errors == [] <==> forall key | key in m.releases.Keys - left :: KeyPasses(m, key)
      decreases left
    {
      var key :| key in left;
      ghost var done := m.releases.Keys - left;
      left := left - {key};
      assert m.releases.Keys - left == done + {key};
      if m.releases[key].version != key {
        errors := errors + [KeyMismatch(key)];
      }
      if m.releases[key].channel !in m.channels && !IsInherited(m.releases[key].channel) {
        errors := errors + [UnknownChannel(key)];
      }
    }
    assert m.releases.Keys - left == m.releases.Keys;
  }

  method CheckLatest(m: Manifest, id: string) returns (errors: seq<ValidationError>)
    requires id in m.channels
    ensures errors == [] <==> LatestPasses(m, m.channels[id])
  {
    errors := [];
    var channel := m.channels[id];
    var found := channel.latest in m.releases || IsInherited(channel.latest);
    if !found {
      errors := errors + [LatestMissing(id)];
    }
    if found && !Installable(m, channel.latest) && HasInstallable(m, channel.releases) {
      errors := errors + [LatestWithdrawn(id)];
    }
  }

  // One listed version: an inherited name is found but has no channel.
  method CheckListed(m: Manifest, id: string, version: string) returns (found: bool, errors: seq<ValidationError>)
    ensures errors == [] <==> version in m.releases && m.releases[version].channel == id
    ensures errors == [] ==> found
  {
    found := version in m.releases || IsInherited(version);
    if !found {
      errors := [ReleaseMissing(id, version)];
    } else if version !in m.releases || m.releases[version].channel != id {
      errors := [WrongChannel(id, version)];
    } else {
      errors := [];
    }
  }

  // What the map holds part way through a list, while no error has been found.
  ghost predicate SeenSoFar(m: Manifest, seenBefore: Seen, early: seq<string>, seen: Seen) {
    && (forall version :: version in seen <==> version in seenBefore || version in early)
    && (forall version | version in seen :: version in m.releases && seen[version] == m.releases[version].channel)
  }

  lemma SeenInThisList(m: Manifest, id: string, done: set<string>, seenBefore: Seen, early: seq<string>, seen: Seen,
                       version: string)
    requires done <= m.channels.Keys && id !in done && SeenIsExact(m, done, seenBefore)
    requires SeenSoFar(m, seenBefore, early, seen)
    requires version in m.releases && m.releases[version].channel == id
    ensures version in seen && seen[version] != "" <==> id != "" && version in early
  {
  }

  // One channel's list. While no error has been found, `clean`, a version seen before is told by its
  // release's own channel; afterwards more errors change nothing.
  method CheckList(m: Manifest, id: string, seenBefore: Seen, ghost done: set<string>, ghost clean: bool)
    returns (errors: seq<ValidationError>, seen: Seen)
    requires done <= m.channels.Keys && id in m.channels && id !in done
    requires clean ==> SeenIsExact(m, done, seenBefore)
    ensures clean ==>
              (errors == [] <==> ListsItsOwn(m, id, m.channels[id].releases) && (id != "" ==> Distinct(m.channels[id].releases)))
    ensures clean && errors == [] ==> SeenIsExact(m, done + {id}, seen)
  {
    errors, seen := [], seenBefore;
    var versions := m.channels[id].releases;
    for k := 0 to |versions|
      invariant clean ==> (errors == [] <==> ListsItsOwn(m, id, versions[..k]) && (id != "" ==> Distinct(versions[..k])))
      invariant clean && errors == [] ==> SeenSoFar(m, seenBefore, versions[..k], seen)
    {
      var version := versions[k];
      assert versions[..k + 1] == versions[..k] + [version];
      DistinctOneMore(versions[..k], version);
      var found, itsErrors := CheckListed(m, id, version);
      errors := errors + itsErrors;
      if clean && errors == [] {
        SeenInThisList(m, id, done, seenBefore, versions[..k], seen, version);
      }
      if found {
        if version in seen && seen[version] != "" {
          errors := errors + [ListedTwice(id, version, seen[version])];
        } else {
          seen := seen[version := id];
        }
      }
    }
    assert versions[..|versions|] == versions;
  }

  method CheckChannels(m: Manifest) returns (errors: seq<ValidationError>, seen: Seen)
    ensures errors == [] <==> ListsAreRight(m) && LatestsPass(m)
    ensures errors == [] ==> SeenIsExact(m, m.channels.Keys, seen)
  {
    errors, seen := [], map[];
    var left := m.channels.Keys;
    while left != {}
      invariant left <= m.channels.Keys
      invariant errors == [] <==> forall id | id in m.channels.Keys - left :: ListIsRight(m, id) && LatestPasses(m, m.channels[id])
      invariant errors == [] ==> SeenIsExact(m, m.channels.Keys - left, seen)
      decreases left
    {
      var id :| id in left;
      ghost var done := m.channels.Keys - left;
      left := left - {id};
      assert m.channels.Keys - left == done + {id};
      var latestErrors := CheckLatest(m, id);
      var listErrors;
      listErrors, seen := CheckList(m, id, seen, done, errors == []);
      errors := errors + latestErrors + listErrors;
    }
    assert m.channels.Keys - left == m.channels.Keys;
  }

  method CheckOrphans(m: Manifest, seen: Seen) returns (errors: seq<ValidationError>)
    ensures errors == [] <==> m.releases.Keys <= seen.Keys
  {
    errors := [];
    var left := m.releases.Keys;
    while left != {}
      invariant left <= m.releases.Keys
      invariant errors == [] <==> m.releases.Keys - left <= seen.Keys
      decreases left
    {
      var version :| version in left;
      left := left - {version};
      if version !in seen {
        errors := errors + [Orphaned(version)];
      }
    }
    assert m.releases.Keys - left == m.releases.Keys;
  }

  lemma AtMostOneCounts(m: Manifest, defaults: set<string>)
    requires defaults == set id | id in m.channels && m.channels[id].isDefault
    ensures |defaults| <= 1 <==> AtMostOneDefault(m)
  {
    if |defaults| <= 1 {
      forall a, b | a in m.channels && b in m.channels && m.channels[a].isDefault && m.channels[b].isDefault ensures a == b {
        assert a in defaults && b in defaults;
        assert |defaults - {a}| == |defaults| - 1;
        assert b !in defaults - {a};
      }
    } else {
      var a :| a in defaults;
      var rest := defaults - {a};
      assert |rest| >= 1;
      var b :| b in rest;
      assert m.channels[a].isDefault && m.channels[b].isDefault;
    }
  }

  lemma OrphansAreTheUnlisted(m: Manifest, seen: Seen)
    requires SeenIsExact(m, m.channels.Keys, seen)
    ensures m.releases.Keys <= seen.Keys <==> NoneIsOrphaned(m)
  {
    forall version | version in m.releases ensures version in seen <==> IsListed(m, version) {
    }
  }

  method CheckListings(m: Manifest) returns (errors: seq<ValidationError>)
    ensures errors == [] <==> ListsAreRight(m) && LatestsPass(m) && NoneIsOrphaned(m)
  {
    var channelErrors, seen := CheckChannels(m);
    var orphanErrors := CheckOrphans(m, seen);
    if channelErrors == [] {
      OrphansAreTheUnlisted(m, seen);
    }
    errors := channelErrors + orphanErrors;
  }

  method CheckDefaults(m: Manifest) returns (errors: seq<ValidationError>)
    ensures errors == [] <==> AtMostOneDefault(m)
  {
    var defaults := set id | id in m.channels && m.channels[id].isDefault;
    AtMostOneCounts(m, defaults);
    errors := if |defaults| > 1 then [ManyDefaults] else [];
  }

  // The lists make up for the lookup: a listed release names the channel that lists it.
  lemma ListedReleasesNameAChannel(m: Manifest)
    requires ListsAreRight(m) && NoneIsOrphaned(m)
    ensures (forall key | key in m.releases :: KeyPasses(m, key)) <==> ReleaseKeysMatch(m)
  {
    forall key | key in m.releases ensures m.releases[key].channel in m.channels {
      ListedReleaseIsInItsOwnList(m, key);
    }
    if forall key | key in m.releases :: KeyPasses(m, key) {
      forall key | key in m.releases ensures m.releases[key].version == key {
        assert KeyPasses(m, key);
      }
    }
  }

  // Main result: the cross-reference check accepts a manifest exactly when it is well formed, but for a latest
  // that is an inherited name while its channel lists nothing installable.
  method ValidateInvariants(m: Manifest) returns (errors: seq<ValidationError>)
    ensures errors == [] <==> Passes(m)
  {
    var releaseErrors := CheckReleases(m);
    var listingErrors := CheckListings(m);
    var defaultErrors := CheckDefaults(m);
    if listingErrors == [] {
      ListedReleasesNameAChannel(m);
    }
    errors := releaseErrors + listingErrors + defaultErrors;
  }

  // The schema first, then the cross-references. `othersConform` says whether the fields that are not
  // modelled keep the schema's rules.
  method Validate(m: Manifest, othersConform: bool) returns (errors: seq<ValidationError>)
    ensures errors == [] <==> othersConform && Conforms(m) && Passes(m)
  {
    if !othersConform || !Conforms(m) {
      return [BreaksTheSchema];
    }
    errors := ValidateInvariants(m);
  }
}

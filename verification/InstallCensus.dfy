/**
 The install census of site/worker/installs.ts over the tables of site/migrations: a report is written
 as a difference, and triggers keep a count of devices per app version.
 */
module InstallCensus {
  import opened PlainObjects
  import opened SourceDirectory
  import opened Wrappers

  datatype AppKey = AppKey(appId: string, sourceUrl: string)

  datatype DeviceApp = DeviceApp(key: AppKey, version: string)

  // A row of device_apps, keyed by device and app.
  datatype RowKey = RowKey(serial: string, app: AppKey)
  datatype Row = Row(version: string, addedAt: Option<string>)
  type Rows = map<RowKey, Row>

  datatype VersionKey = VersionKey(app: AppKey, version: string)
  type Counts = map<VersionKey, nat>

  const MAX_APPS := 200

  // A report as it reads once its fields are checked: None where the source answers 400, and one
  // entry per reported app, None where the app is malformed.
  datatype Report = Report(serial: Option<string>, apps: Option<seq<Option<DeviceApp>>>)

  datatype Refusal = NotADevice | NotAppsArray | TooManyApps | NotAdmitted(status: nat)

  type AppVersions = map<AppKey, string>

  // The last entry for an app wins.
  function Candidates(apps: seq<Option<DeviceApp>>): (versions: AppVersions)
    decreases |apps|
  {
    if apps == [] then map[]
    else
      var earlier := Candidates(apps[..|apps| - 1]);
      match apps[|apps| - 1]
      case None => earlier
      case Some(app) => earlier[app.key := app.version]
  }

  predicate IsCounted(sources: Sources, url: string) {
    url == OFFICIAL_CATALOG_URL || (url in sources && (sources[url].Listed? || sources[url].Attested?))
  }

  function CountedApps(sources: Sources, candidates: AppVersions): AppVersions {
    map key | key in candidates && IsCounted(sources, key.sourceUrl) :: candidates[key]
  }

  function KeysOf(serial: string, apps: set<AppKey>): (keys: set<RowKey>)
    ensures forall key :: key in keys <==> key.serial == serial && key.app in apps
  {
    set app | app in apps :: RowKey(serial, app)
  }

  // Rows of one device, as the table holds them.
  function RowsOf(serial: string, rows: map<AppKey, Row>): Rows {
    map key | key in KeysOf(serial, rows.Keys) :: rows[key.app]
  }

  // What the table holds after the device's rows are all taken out and the counted apps put in anew,
  // an app that was there keeping the time it was first added.
  function FullReplace(rows: Rows, serial: string, apps: AppVersions, now: string): Rows {
    (map key | key in rows && key.serial != serial :: rows[key])
    + (map key | key in KeysOf(serial, apps.Keys) ::
         Row(apps[key.app], if key in rows then rows[key].addedAt else Some(now)))
  }

  function Holders(rows: Rows, app: AppKey, version: string): set<string> {
    set key | key in rows && key.app == app && rows[key].version == version :: key.serial
  }

  predicate CountIsRight(rows: Rows, counts: Counts, app: AppKey, version: string) {
    var holders := Holders(rows, app, version);
    if holders == {} then VersionKey(app, version) !in counts
    else VersionKey(app, version) in counts && counts[VersionKey(app, version)] == |holders|
  }

  // The trigger-kept table counts, for every app version, the devices that hold it.
  ghost predicate CountsAgree(rows: Rows, counts: Counts) {
    forall app, version {:trigger CountIsRight(rows, counts, app, version)} :: CountIsRight(rows, counts, app, version)
  }

  // The triggers after an INSERT and after a DELETE.
  function CountsAfterInsert(counts: Counts, key: VersionKey): Counts {
    counts[key := if key in counts then counts[key] + 1 else 1]
  }

  function CountsAfterDelete(counts: Counts, key: VersionKey): Counts {
    if key !in counts then counts
    else if counts[key] <= 1 then counts - {key}
    else counts[key := counts[key] - 1]
  }

  lemma InsertAddsAHolder(rows: Rows, key: RowKey, row: Row, app: AppKey, version: string)
    requires key !in rows
    ensures Holders(rows[key := row], app, version)
         == Holders(rows, app, version) + if app == key.app && version == row.version then {key.serial} else {}
    ensures app == key.app ==> key.serial !in Holders(rows, app, version)
  {
  }

  lemma InsertKeepsCounts(rows: Rows, counts: Counts, key: RowKey, row: Row)
    requires CountsAgree(rows, counts) && key !in rows
    ensures CountsAgree(rows[key := row], CountsAfterInsert(counts, VersionKey(key.app, row.version)))
  {
    var rows', counts' := rows[key := row], CountsAfterInsert(counts, VersionKey(key.app, row.version));
    forall app, version ensures CountIsRight(rows', counts', app, version) {
      InsertAddsAHolder(rows, key, row, app, version);
      assert CountIsRight(rows, counts, app, version);
    }
  }

  lemma DeleteRemovesAHolder(rows: Rows, key: RowKey, app: AppKey, version: string)
    requires key in rows
    ensures var held := app == key.app && version == rows[key].version;
            && Holders(rows - {key}, app, version) == Holders(rows, app, version) - (if held then {key.serial} else {})
            && (held ==> key.serial in Holders(rows, app, version))
  {
    assert (rows - {key})[key := rows[key]] == rows;
    InsertAddsAHolder(rows - {key}, key, rows[key], app, version);
  }

  lemma DeleteKeepsCounts(rows: Rows, counts: Counts, key: RowKey)
    requires CountsAgree(rows, counts) && key in rows
    ensures CountsAgree(rows - {key}, CountsAfterDelete(counts, VersionKey(key.app, rows[key].version)))
  {
    var rows', counts' := rows - {key}, CountsAfterDelete(counts, VersionKey(key.app, rows[key].version));
    forall app, version ensures CountIsRight(rows', counts', app, version) {
      DeleteRemovesAHolder(rows, key, app, version);
      assert CountIsRight(rows, counts, app, version);
      var holders := Holders(rows, app, version);
      assert key.serial in holders ==> |holders - {key.serial}| == |holders| - 1;
    }
  }

  function AppsOf(rows: Rows, serial: string): (apps: set<AppKey>)
    ensures forall app :: app in apps <==> RowKey(serial, app) in rows
  {
    var apps := set key | key in rows && key.serial == serial :: key.app;
    assert forall app | RowKey(serial, app) in rows :: RowKey(serial, app).app in apps;
    assert forall app | app in apps :: RowKey(serial, app) in rows;
    apps
  }

  // The held rows of one device, by app.
  function HeldBy(rows: Rows, serial: string): map<AppKey, Row> {
    map app | app in AppsOf(rows, serial) :: rows[RowKey(serial, app)]
  }

  function Dropped(before: map<AppKey, Row>, candidates: AppVersions, sources: Sources): set<AppKey> {
    set app | app in before && (app !in candidates || !IsCounted(sources, app.sourceUrl) || candidates[app] != before[app].version)
  }

  function Added(before: map<AppKey, Row>, apps: AppVersions, now: string): map<AppKey, Row> {
    map app | app in apps && (app !in before || before[app].version != apps[app]) ::
      Row(apps[app], if app in before then before[app].addedAt else Some(now))
  }

  lemma DeltaAt(rows: Rows, serial: string, candidates: AppVersions, sources: Sources, now: string, key: RowKey)
    requires key.serial == serial
    ensures var before := HeldBy(rows, serial);
            var apps := CountedApps(sources, candidates);
            var dropped := Dropped(before, candidates, sources);
            var added := Added(before, apps, now);
            var full := FullReplace(rows, serial, apps, now);
            && (key.app in dropped ==> key in rows)
            && (key.app in added ==> key !in rows || key.app in dropped)
            && (key in full <==> key.app in added || (key in rows && key.app !in dropped))
            && (key in full ==> full[key] == if key.app in added then added[key.app] else rows[key])
  {
    assert RowKey(serial, key.app) == key;
  }

  // The delta: it drops rows that are there, inserts no key that is still held, and leaves what a full
  // replace would leave.
  lemma DeltaIsFullReplace(rows: Rows, serial: string, candidates: AppVersions, sources: Sources, now: string)
    ensures var before := HeldBy(rows, serial);
            var apps := CountedApps(sources, candidates);
            var dropped := KeysOf(serial, Dropped(before, candidates, sources));
            var added := RowsOf(serial, Added(before, apps, now));
            && dropped <= rows.Keys
            && added.Keys !! (rows - dropped).Keys
            && (rows - dropped) + added == FullReplace(rows, serial, apps, now)
  {
    var before := HeldBy(rows, serial);
    var apps := CountedApps(sources, candidates);
    var dropped, added := Dropped(before, candidates, sources), Added(before, apps, now);
    var full := FullReplace(rows, serial, apps, now);
    forall key: RowKey | key.serial == serial
      ensures key.app in dropped ==> key in rows
      ensures key.app in added ==> key !in rows || key.app in dropped
      ensures key in full <==> key.app in added || (key in rows && key.app !in dropped)
      ensures key in full ==> full[key] == if key.app in added then added[key.app] else rows[key]
    {
      DeltaAt(rows, serial, candidates, sources, now, key);
    }
    DeltaMaps(rows, serial, dropped, added, full);
  }

  lemma DeltaMaps(rows: Rows, serial: string, dropped: set<AppKey>, added: map<AppKey, Row>, full: Rows)
    requires forall key: RowKey | key.serial == serial ::
               && (key.app in dropped ==> key in rows)
               && (key.app in added ==> key !in rows || key.app in dropped)
               && (key in full <==> key.app in added || (key in rows && key.app !in dropped))
               && (key in full ==> full[key] == if key.app in added then added[key.app] else rows[key])
    requires forall key: RowKey | key.serial != serial ::
               (key in full <==> key in rows) && (key in full ==> full[key] == rows[key])
    ensures KeysOf(serial, dropped) <= rows.Keys
    ensures RowsOf(serial, added).Keys !! (rows - KeysOf(serial, dropped)).Keys
    ensures (rows - KeysOf(serial, dropped)) + RowsOf(serial, added) == full
  {
  }

  // The delta is empty exactly when a full replace would leave the table as it is.
  lemma DeltaIsEmptyExactlyWhenNothingChanges(rows: Rows, serial: string, candidates: AppVersions,
                                              sources: Sources, now: string)
    ensures var before := HeldBy(rows, serial);
            var apps := CountedApps(sources, candidates);
            var dropped := KeysOf(serial, Dropped(before, candidates, sources));
            var added := RowsOf(serial, Added(before, apps, now));
            (dropped == {} && added == map[]) <==> FullReplace(rows, serial, apps, now) == rows
  {
    var before := HeldBy(rows, serial);
    var apps := CountedApps(sources, candidates);
    var full := FullReplace(rows, serial, apps, now);
    DeltaIsFullReplace(rows, serial, candidates, sources, now);
    if full == rows {
      forall key ensures key !in KeysOf(serial, Dropped(before, candidates, sources)) {
        assert key in full <==> key in rows;
      }
      forall key ensures key !in RowsOf(serial, Added(before, apps, now)) {
        assert key in full ==> key.app in before || key.serial != serial by {
          assert key.serial == serial ==> RowKey(serial, key.app) == key;
        }
      }
      assert RowsOf(serial, Added(before, apps, now)).Keys == {};
    }
  }

  datatype Tables = Tables(devices: map<string, string>, deviceApps: Rows)

  // What becomes of a well-formed report: the table is as after a full replace and the device is stamped;
  // nothing is written, and the limiter is not asked, exactly when a known device's rows would not change.
  function Recorded(before: Tables, serial: string, apps: AppVersions, now: string, admit: Option<nat>)
    : (after: (Result<AppVersions, Refusal>, Tables))
  {
    Written(before, serial, apps, FullReplace(before.deviceApps, serial, apps, now), now, admit)
  }

  function Written(before: Tables, serial: string, apps: AppVersions, replaced: Rows, now: string, admit: Option<nat>)
    : (after: (Result<AppVersions, Refusal>, Tables))
  {
    if serial in before.devices && replaced == before.deviceApps then (Success(apps), before)
    else if admit.Some? then (Failure(NotAdmitted(admit.value)), before)
    else (Success(apps), Tables(before.devices[serial := now], replaced))
  }

  function Answered(before: Tables, sources: Sources, report: Report, now: string, admit: Option<nat>)
    : (after: (Result<AppVersions, Refusal>, Tables))
  {
    if report.serial.None? then (Failure(NotADevice), before)
    else if report.apps.None? then (Failure(NotAppsArray), before)
    else if |report.apps.value| > MAX_APPS then (Failure(TooManyApps), before)
    else Recorded(before, report.serial.value, CountedApps(sources, Candidates(report.apps.value)), now, admit)
  }

  class Census {
    var devices: map<string, string>
    var deviceApps: Rows
    var installCounts: Counts
    var sources: Sources

    constructor (sources: Sources)
      ensures devices == map[] && deviceApps == map[] && this.sources == sources
      ensures CountsAgree(deviceApps, installCounts)
    {
      devices, deviceApps, installCounts, this.sources := map[], map[], map[], sources;
    }

    // INSERT of one row, with its trigger. The primary key is a demand on the caller.
    method InsertRow(key: RowKey, row: Row)
      requires key !in deviceApps
      requires CountsAgree(deviceApps, installCounts)
      modifies this`deviceApps, this`installCounts
      ensures deviceApps == old(deviceApps)[key := row]
      ensures CountsAgree(deviceApps, installCounts)
    {
      InsertKeepsCounts(deviceApps, installCounts, key, row);
      deviceApps := deviceApps[key := row];
      installCounts := CountsAfterInsert(installCounts, VersionKey(key.app, row.version));
    }

    // DELETE of one row, with its trigger.
    method DeleteRow(key: RowKey)
      requires key in deviceApps
      requires CountsAgree(deviceApps, installCounts)
      modifies this`deviceApps, this`installCounts
      ensures deviceApps == old(deviceApps) - {key}
      ensures CountsAgree(deviceApps, installCounts)
    {
      DeleteKeepsCounts(deviceApps, installCounts, key);
      var version := deviceApps[key].version;
      deviceApps := deviceApps - {key};
      installCounts := CountsAfterDelete(installCounts, VersionKey(key.app, version));
    }

    method DeleteRows(keys: set<RowKey>)
      requires keys <= deviceApps.Keys
      requires CountsAgree(deviceApps, installCounts)
      modifies this`deviceApps, this`installCounts
      ensures deviceApps == old(deviceApps) - keys
      ensures CountsAgree(deviceApps, installCounts)
    {
      var left := keys;
      while left != {}
        invariant left <= keys
        invariant deviceApps == old(deviceApps) - (keys - left)
        invariant CountsAgree(deviceApps, installCounts)
        decreases left
      {
        var key :| key in left;
        DeleteRow(key);
        left := left - {key};
      }
      assert keys - left == keys;
    }

    method InsertRows(rows: Rows)
      requires rows.Keys !! deviceApps.Keys
      requires CountsAgree(deviceApps, installCounts)
      modifies this`deviceApps, this`installCounts
      ensures deviceApps == old(deviceApps) + rows
      ensures CountsAgree(deviceApps, installCounts)
    {
      var left := rows.Keys;
      while left != {}
        invariant left <= rows.Keys
        invariant deviceApps == old(deviceApps) + (rows - left)
        invariant CountsAgree(deviceApps, installCounts)
        decreases left
      {
        var key :| key in left;
        InsertRow(key, rows[key]);
        left := left - {key};
      }
      assert rows - left == rows;
    }

    method CollectCandidates(reported: seq<Option<DeviceApp>>) returns (candidates: AppVersions)
      ensures candidates == Candidates(reported)
    {
      candidates := map[];
      for i := 0 to |reported|
        invariant candidates == Candidates(reported[..i])
      {
        if reported[i].Some? {
          candidates := candidates[reported[i].value.key := reported[i].value.version];
        }
        assert reported[..i + 1][..i] == reported[..i];
      }
      assert reported[..|reported|] == reported;
    }

    ghost function Current(): Tables
      reads this
    {
      Tables(devices, deviceApps)
    }

    // `admit` is the answer of the rate limiter, asked only when something is to be written.
    method RecordInstalled(report: Report, now: string, admit: Option<nat>) returns (outcome: Result<AppVersions, Refusal>)
      requires CountsAgree(deviceApps, installCounts)
      modifies this`devices, this`deviceApps, this`installCounts
      ensures CountsAgree(deviceApps, installCounts)
      ensures (outcome, Current()) == Answered(old(Current()), sources, report, now, admit)
      ensures deviceApps == old(deviceApps) ==> installCounts == old(installCounts)
    {
      if report.serial.None? { return Failure(NotADevice); }
      if report.apps.None? { return Failure(NotAppsArray); }
      if |report.apps.value| > MAX_APPS { return Failure(TooManyApps); }
      var candidates := CollectCandidates(report.apps.value);
      outcome := RecordCandidates(report.serial.value, candidates, now, admit);
    }

    method RecordCandidates(serial: string, candidates: AppVersions, now: string, admit: Option<nat>)
      returns (outcome: Result<AppVersions, Refusal>)
      requires CountsAgree(deviceApps, installCounts)
      modifies this`devices, this`deviceApps, this`installCounts
      ensures CountsAgree(deviceApps, installCounts)
      ensures (outcome, Current()) == Recorded(old(Current()), serial, CountedApps(sources, candidates), now, admit)
      ensures deviceApps == old(deviceApps) ==> installCounts == old(installCounts)
    {
      var apps := CountedApps(sources, candidates);
      var dropped, added := Delta(serial, candidates, now);
      outcome := Write(serial, apps, dropped, added, FullReplace(deviceApps, serial, apps, now), now, admit);
    }

    method Write(serial: string, apps: AppVersions, dropped: set<RowKey>, added: Rows, ghost replaced: Rows, now: string,
                 admit: Option<nat>)
      returns (outcome: Result<AppVersions, Refusal>)
      requires dropped <= deviceApps.Keys && added.Keys !! (deviceApps - dropped).Keys
      requires (deviceApps - dropped) + added == replaced
      requires dropped == {} && added == map[] <==> replaced == deviceApps
      requires CountsAgree(deviceApps, installCounts)
      modifies this`devices, this`deviceApps, this`installCounts
      ensures CountsAgree(deviceApps, installCounts)
      ensures (outcome, Current()) == Written(old(Current()), serial, apps, replaced, now, admit)
      ensures deviceApps == old(deviceApps) ==> installCounts == old(installCounts)
    {
      if serial in devices && dropped == {} && added == map[] { return Success(apps); }
      if admit.Some? { return Failure(NotAdmitted(admit.value)); }

      devices := devices[serial := now];
      WriteDelta(dropped, added);
      return Success(apps);
    }

    // The rows to take out and to put in.
    method Delta(serial: string, candidates: AppVersions, now: string) returns (dropped: set<RowKey>, added: Rows)
      ensures dropped <= deviceApps.Keys && added.Keys !! (deviceApps - dropped).Keys
      ensures var replaced := FullReplace(deviceApps, serial, CountedApps(sources, candidates), now);
              && (deviceApps - dropped) + added == replaced
              && (dropped == {} && added == map[] <==> replaced == deviceApps)
    {
      var before := HeldBy(deviceApps, serial);
      DeltaIsFullReplace(deviceApps, serial, candidates, sources, now);
      DeltaIsEmptyExactlyWhenNothingChanges(deviceApps, serial, candidates, sources, now);
      dropped := KeysOf(serial, Dropped(before, candidates, sources));
      added := RowsOf(serial, Added(before, CountedApps(sources, candidates), now));
    }

    method WriteDelta(dropped: set<RowKey>, added: Rows)
      requires dropped <= deviceApps.Keys && added.Keys !! (deviceApps - dropped).Keys
      requires CountsAgree(deviceApps, installCounts)
      modifies this`deviceApps, this`installCounts
      ensures deviceApps == (old(deviceApps) - dropped) + added
      ensures CountsAgree(deviceApps, installCounts)
      ensures deviceApps == old(deviceApps) ==> installCounts == old(installCounts)
    {
      DeleteRows(dropped);
      InsertRows(added);
      if deviceApps == old(deviceApps) {
        CountsAreDetermined(deviceApps, installCounts, old(installCounts));
      }
    }
  }

  lemma CountsAreDetermined(rows: Rows, a: Counts, b: Counts)
    requires CountsAgree(rows, a) && CountsAgree(rows, b)
    ensures a == b
  {
    forall key ensures (key in a <==> key in b) && (key in a ==> a[key] == b[key]) {
      assert CountIsRight(rows, a, key.app, key.version) && CountIsRight(rows, b, key.app, key.version);
      assert VersionKey(key.app, key.version) == key;
    }
  }

  // What a full replace means, row by row.
  lemma FullReplaceRowByRow(rows: Rows, serial: string, apps: AppVersions, now: string, key: RowKey)
    ensures var after := FullReplace(rows, serial, apps, now);
            if key.serial != serial then
              (key in after <==> key in rows) && (key in rows ==> after[key] == rows[key])
            else
              && (key in after <==> key.app in apps)
              && (key in after ==> after[key].version == apps[key.app])
              && (key in after && key in rows ==> after[key].addedAt == rows[key].addedAt)
              && (key in after && key !in rows ==> after[key].addedAt == Some(now))
  {
    if key.serial == serial {
      assert key == RowKey(serial, key.app);
    }
  }

  // The same report again writes nothing: the census is idempotent.
  lemma FullReplaceIsIdempotent(rows: Rows, serial: string, apps: AppVersions, now: string, later: string)
    ensures var after := FullReplace(rows, serial, apps, now);
            FullReplace(after, serial, apps, later) == after
  {
  }

  // ----- reading the counts

  datatype CountRow = CountRow(app: AppKey, version: string, devices: nat)
  datatype InstallCount = InstallCount(count: nat, versions: map<string, nat>)

  // The rows of a SELECT over the counts: every entry once, in some order.
  ghost predicate Lists(rows: seq<CountRow>, counts: Counts) {
    && EntriesAre(rows, counts)
    && EntriesDiffer(rows)
    && (forall key | key in counts :: ListsVersion(rows, key.app, key.version))
  }

  function Tally(rows: seq<CountRow>, app: AppKey): nat
    decreases |rows|
  {
    if rows == [] then 0
    else Tally(rows[..|rows| - 1], app) + if rows[|rows| - 1].app == app then rows[|rows| - 1].devices else 0
  }

  // The breakdown is a plain object, where assigning a number under PROTO leaves no key.
  function VersionsOf(rows: seq<CountRow>, app: AppKey): map<string, nat>
    decreases |rows|
  {
    if rows == [] then map[]
    else
      var earlier, last := VersionsOf(rows[..|rows| - 1], app), rows[|rows| - 1];
      if last.app == app then Assigned(earlier, last.version, last.devices) else earlier
  }

  function Assigned(versions: map<string, nat>, version: string, devices: nat): map<string, nat> {
    if version == PROTO then versions else versions[version := devices]
  }

  method ToInstallCounts(rows: seq<CountRow>) returns (tallies: map<AppKey, InstallCount>)
    ensures forall app :: app in tallies <==> exists i | 0 <= i < |rows| :: rows[i].app == app
    ensures forall app | app in tallies :: tallies[app] == InstallCount(Tally(rows, app), VersionsOf(rows, app))
  {
    tallies := map[];
    for i := 0 to |rows|
      invariant forall app :: app in tallies <==> exists k | 0 <= k < i :: rows[k].app == app
      invariant forall app :: InstallCount(Tally(rows[..i], app), VersionsOf(rows[..i], app))
                           == if app in tallies then tallies[app] else InstallCount(0, map[])
    {
      var row := rows[i];
      var held := if row.app in tallies then tallies[row.app] else InstallCount(0, map[]);
      tallies := tallies[row.app := InstallCount(held.count + row.devices, Assigned(held.versions, row.version, row.devices))];
      assert rows[..i + 1][..i] == rows[..i];
    }
    assert rows[..|rows|] == rows;
  }

  // No version of an app overwrites another: the breakdown has every row the SELECT listed, and no more, but for
  // a version that a device reports as PROTO, which is only counted.
  lemma {:induction false} BreakdownListsEveryRow(rows: seq<CountRow>, app: AppKey, version: string)
    requires EntriesDiffer(rows)
    ensures version in VersionsOf(rows, app) <==> ListsVersion(rows, app, version) && version != PROTO
    ensures forall i | 0 <= i < |rows| && rows[i].app == app && rows[i].version == version != PROTO ::
              VersionsOf(rows, app)[version] == rows[i].devices
    decreases |rows|
  {
    if rows != [] {
      BreakdownListsEveryRow(rows[..|rows| - 1], app, version);
    }
  }

  // The devices that hold an app in one of the versions listed.
  function HoldersAmong(rows: Rows, listed: seq<CountRow>, app: AppKey): set<string>
    decreases |listed|
  {
    if listed == [] then {}
    else
      var last := listed[|listed| - 1];
      HoldersAmong(rows, listed[..|listed| - 1], app) + if last.app == app then Holders(rows, app, last.version) else {}
  }

  predicate EntriesAre(listed: seq<CountRow>, counts: Counts) {
    forall i | 0 <= i < |listed| :: VersionKey(listed[i].app, listed[i].version) in counts
      && counts[VersionKey(listed[i].app, listed[i].version)] == listed[i].devices
  }

  predicate EntriesDiffer(listed: seq<CountRow>) {
    forall i, j | 0 <= i < j < |listed| :: listed[i].app != listed[j].app || listed[i].version != listed[j].version
  }

  predicate ListsVersion(listed: seq<CountRow>, app: AppKey, version: string) {
    exists i | 0 <= i < |listed| :: listed[i].app == app && listed[i].version == version
  }

  lemma {:induction false} HoldersAmongAre(rows: Rows, listed: seq<CountRow>, app: AppKey, serial: string)
    ensures serial in HoldersAmong(rows, listed, app) <==>
            RowKey(serial, app) in rows && ListsVersion(listed, app, rows[RowKey(serial, app)].version)
    decreases |listed|
  {
    if listed != [] {
      var early, last := listed[..|listed| - 1], listed[|listed| - 1];
      HoldersAmongAre(rows, early, app, serial);
      if last.app == app {
        assert serial in Holders(rows, app, last.version) <==>
          RowKey(serial, app) in rows && rows[RowKey(serial, app)].version == last.version by {
          if serial in Holders(rows, app, last.version) {
            var key :| key in rows && key.app == app && rows[key].version == last.version && key.serial == serial;
            assert key == RowKey(serial, app);
          }
          if RowKey(serial, app) in rows && rows[RowKey(serial, app)].version == last.version {
            assert RowKey(serial, app).serial in Holders(rows, app, last.version);
          }
        }
      }
    }
  }

  lemma {:induction false} TallyCountsHolders(rows: Rows, counts: Counts, listed: seq<CountRow>, app: AppKey)
    requires CountsAgree(rows, counts)
    requires EntriesAre(listed, counts) && EntriesDiffer(listed)
    ensures Tally(listed, app) == |HoldersAmong(rows, listed, app)|
    decreases |listed|
  {
    if listed != [] {
      var early, last := listed[..|listed| - 1], listed[|listed| - 1];
      TallyCountsHolders(rows, counts, early, app);
      assert CountIsRight(rows, counts, last.app, last.version);
      if last.app == app {
        forall serial | serial in HoldersAmong(rows, early, app) ensures serial !in Holders(rows, app, last.version) {
          HoldersAmongAre(rows, early, app, serial);
          HoldersAmongAre(rows, [last], app, serial);
        }
      }
    }
  }

  // Main result for readers: the published count of an app is the number of devices that hold it.
  lemma InstallCountIsDevicesHoldingTheApp(rows: Rows, counts: Counts, listed: seq<CountRow>, app: AppKey)
    requires CountsAgree(rows, counts)
    requires Lists(listed, counts)
    ensures Tally(listed, app) == |set key | key in rows && key.app == app :: key.serial|
  {
    TallyCountsHolders(rows, counts, listed, app);
    var holding := set key | key in rows && key.app == app :: key.serial;
    forall serial ensures serial in holding <==> serial in HoldersAmong(rows, listed, app) {
      HoldersAmongAre(rows, listed, app, serial);
      if RowKey(serial, app) in rows {
        var version := rows[RowKey(serial, app)].version;
        assert RowKey(serial, app).serial in holding && RowKey(serial, app).serial in Holders(rows, app, version);
        assert CountIsRight(rows, counts, app, version);
        assert VersionKey(app, version) in counts;
      }
    }
    assert holding == HoldersAmong(rows, listed, app);
  }
}

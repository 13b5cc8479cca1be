/**
 What a report to the install census leaves behind, told from the report and the listed sources alone.
 */
module CensusReports {
  import opened InstallCensus
  import opened SourceDirectory
  import opened Wrappers

  predicate Reports(apps: seq<Option<DeviceApp>>, app: AppKey, i: nat) {
    i < |apps| && apps[i].Some? && apps[i].value.key == app
  }

  ghost predicate IsReported(apps: seq<Option<DeviceApp>>, app: AppKey) {
    exists i: nat :: Reports(apps, app, i)
  }

  // The entry of the report that decides an app's version.
  predicate ReportsLast(apps: seq<Option<DeviceApp>>, app: AppKey, i: nat) {
    Reports(apps, app, i) && forall j | i < j < |apps| :: !Reports(apps, app, j)
  }

  // The candidates are the apps reported, each in the version it was last reported in.
  lemma {:induction false} CandidatesAreLastReported(apps: seq<Option<DeviceApp>>, app: AppKey)
    ensures app in Candidates(apps) <==> IsReported(apps, app)
    ensures forall i: nat | ReportsLast(apps, app, i) :: Candidates(apps)[app] == apps[i].value.version
    decreases |apps|
  {
    if apps != [] {
      var early, last := apps[..|apps| - 1], |apps| - 1;
      CandidatesAreLastReported(early, app);
      forall i: nat | i < last ensures Reports(apps, app, i) <==> Reports(early, app, i) {
        assert early[i] == apps[i];
      }
      if Reports(apps, app, last) {
        assert IsReported(apps, app);
      } else {
        EarlierReports(apps, app);
      }
    }
  }

  lemma EarlierReports(apps: seq<Option<DeviceApp>>, app: AppKey)
    requires apps != [] && !Reports(apps, app, |apps| - 1)
    ensures IsReported(apps, app) <==> IsReported(apps[..|apps| - 1], app)
    ensures forall i: nat | ReportsLast(apps, app, i) :: ReportsLast(apps[..|apps| - 1], app, i)
  {
    var early := apps[..|apps| - 1];
    forall i: nat ensures Reports(apps, app, i) <==> Reports(early, app, i) {
      if i < |early| {
        assert early[i] == apps[i];
      }
    }
  }

  // Apps of the official catalog count, and those of sources that are listed and not held back.
  predicate IsServed(sources: Sources, url: string) {
    url == OFFICIAL_CATALOG_URL || (url in sources && sources[url] != Quarantined && sources[url] != Rejected)
  }

  predicate IsWellFormed(report: Report) {
    report.serial.Some? && report.apps.Some? && |report.apps.value| <= 200
  }

  lemma {:induction false} LastReportExists(apps: seq<Option<DeviceApp>>, app: AppKey) returns (i: nat)
    requires IsReported(apps, app)
    ensures ReportsLast(apps, app, i)
    decreases |apps|
  {
    if Reports(apps, app, |apps| - 1) {
      i := |apps| - 1;
    } else {
      EarlierReports(apps, app);
      i := LastReportExists(apps[..|apps| - 1], app);
      forall j | i < j < |apps| ensures !Reports(apps, app, j) {
        assert j < |apps| - 1 ==> !Reports(apps[..|apps| - 1], app, j);
      }
    }
  }

  // The device's row for an app is what a report says it is.
  ghost predicate RowIsAsReported(rows: Rows, sources: Sources, serial: string, apps: seq<Option<DeviceApp>>, app: AppKey) {
    var key := RowKey(serial, app);
    if IsReported(apps, app) && IsServed(sources, app.sourceUrl) then
      key in rows && forall i: nat | ReportsLast(apps, app, i) :: rows[key].version == apps[i].value.version
    else key !in rows
  }

  ghost predicate ChangesNothing(before: Tables, sources: Sources, report: Report)
    requires IsWellFormed(report)
  {
    && report.serial.value in before.devices
    && forall app :: RowIsAsReported(before.deviceApps, sources, report.serial.value, report.apps.value, app)
  }

  lemma ReplacedRowIsAsReported(rows: Rows, sources: Sources, serial: string, apps: seq<Option<DeviceApp>>, now: string,
                                app: AppKey)
    ensures RowIsAsReported(FullReplace(rows, serial, CountedApps(sources, Candidates(apps)), now), sources, serial, apps, app)
  {
    CandidatesAreLastReported(apps, app);
    FullReplaceRowByRow(rows, serial, CountedApps(sources, Candidates(apps)), now, RowKey(serial, app));
  }

  lemma RowsAsReportedStay(rows: Rows, sources: Sources, serial: string, apps: seq<Option<DeviceApp>>, now: string)
    requires forall app :: RowIsAsReported(rows, sources, serial, apps, app)
    ensures FullReplace(rows, serial, CountedApps(sources, Candidates(apps)), now) == rows
  {
    var replaced := FullReplace(rows, serial, CountedApps(sources, Candidates(apps)), now);
    forall key ensures (key in replaced <==> key in rows) && (key in rows ==> replaced[key] == rows[key]) {
      FullReplaceRowByRow(rows, serial, CountedApps(sources, Candidates(apps)), now, key);
      if key.serial == serial {
        assert key == RowKey(serial, key.app) && RowIsAsReported(rows, sources, serial, apps, key.app);
        CandidatesAreLastReported(apps, key.app);
        if IsReported(apps, key.app) {
          var i := LastReportExists(apps, key.app);
        }
      }
    }
  }

  // A report is answered exactly when it is well formed and, unless it would change nothing of a known device, the
  // limiter admits it. What is refused, and what changes nothing, leaves the tables as they were; anything else stamps
  // the device.
  lemma ReportIsAnsweredExactly(before: Tables, sources: Sources, report: Report, now: string, admit: Option<nat>)
    ensures var (outcome, after) := Answered(before, sources, report, now, admit);
            && (outcome.Success? <==> IsWellFormed(report) && (admit.None? || ChangesNothing(before, sources, report)))
            && (outcome.Failure? || ChangesNothing(before, sources, report) ==> after == before)
            && (outcome.Success? && !ChangesNothing(before, sources, report) ==>
                  after.devices == before.devices[report.serial.value := now])
  {
    if IsWellFormed(report) {
      var serial, apps := report.serial.value, report.apps.value;
      var replaced := FullReplace(before.deviceApps, serial, CountedApps(sources, Candidates(apps)), now);
      if ChangesNothing(before, sources, report) {
        RowsAsReportedStay(before.deviceApps, sources, serial, apps, now);
      } else if replaced == before.deviceApps {
        forall app ensures RowIsAsReported(before.deviceApps, sources, serial, apps, app) {
          ReplacedRowIsAsReported(before.deviceApps, sources, serial, apps, now, app);
        }
      }
    }
  }

  // Main result: an answered report leaves a row of the device for exactly each counted app it reported, in the version
  // reported last, and answers with those; it leaves the rows of every other device alone.
  lemma ReportedAppsAreTheRows(before: Tables, sources: Sources, report: Report, now: string, admit: Option<nat>, app: AppKey)
    requires Answered(before, sources, report, now, admit).0.Success?
    ensures var (outcome, after) := Answered(before, sources, report, now, admit);
            var apps, key := report.apps.value, RowKey(report.serial.value, app);
            && (app in outcome.value <==> IsReported(apps, app) && IsServed(sources, app.sourceUrl))
            && (key in after.deviceApps <==> app in outcome.value)
            && (forall i: nat | ReportsLast(apps, app, i) && app in outcome.value ::
                  outcome.value[app] == apps[i].value.version && after.deviceApps[key].version == apps[i].value.version)
  {
    var candidates := Candidates(report.apps.value);
    CandidatesAreLastReported(report.apps.value, app);
    FullReplaceRowByRow(before.deviceApps, report.serial.value, CountedApps(sources, candidates), now,
                        RowKey(report.serial.value, app));
  }

  lemma OtherDevicesAreLeftAlone(before: Tables, sources: Sources, report: Report, now: string, admit: Option<nat>, key: RowKey)
    requires report.serial != Some(key.serial)
    ensures var after := Answered(before, sources, report, now, admit).1;
            && (key in after.deviceApps <==> key in before.deviceApps)
            && (key in before.deviceApps ==> after.deviceApps[key] == before.deviceApps[key])
            && (key.serial in after.devices <==> key.serial in before.devices)
  {
    if report.serial.Some? && report.apps.Some? {
      FullReplaceRowByRow(before.deviceApps, report.serial.value,
                          CountedApps(sources, Candidates(report.apps.value)), now, key);
    }
  }

  // ----- the rows of the counts

  lemma OneMoreListed(rows: seq<CountRow>, counts: Counts, key: VersionKey, devices: nat)
    requires Lists(rows, counts) && key !in counts
    ensures Lists(rows + [CountRow(key.app, key.version, devices)], counts[key := devices])
  {
    var last := CountRow(key.app, key.version, devices);
    var more, after := rows + [last], counts[key := devices];
    assert more[|rows|] == last && forall i | 0 <= i < |rows| :: more[i] == rows[i];
    forall i | 0 <= i < |rows| ensures VersionKey(rows[i].app, rows[i].version) != key {
      assert VersionKey(rows[i].app, rows[i].version) in counts;
    }
    forall k | k in after ensures ListsVersion(more, k.app, k.version) {
      if k == key {
        assert more[|rows|].app == k.app && more[|rows|].version == k.version;
      } else {
        assert ListsVersion(rows, k.app, k.version);
        var i :| 0 <= i < |rows| && rows[i].app == k.app && rows[i].version == k.version;
        assert more[i].app == k.app && more[i].version == k.version;
      }
    }
  }

  // Every table of counts can be listed, two versions of one app on rows of their own.
  lemma {:induction false} CountsCanBeListed(counts: Counts) returns (rows: seq<CountRow>)
    ensures Lists(rows, counts)
    decreases |counts|
  {
    if counts == map[] {
      rows := [];
    } else {
      var key :| key in counts;
      var rest := counts - {key};
      assert |rest.Keys| < |counts.Keys| by {
        assert rest.Keys == counts.Keys - {key};
      }
      var listed := CountsCanBeListed(rest);
      OneMoreListed(listed, rest, key, counts[key]);
      assert rest[key := counts[key]] == counts;
      rows := listed + [CountRow(key.app, key.version, counts[key])];
    }
  }
}

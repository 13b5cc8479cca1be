/**
 The catalog refresher of site/worker/catalogs.ts: each round probes the stalest catalogs within a
 budget, the official one first while its row is missing, and records every probe on its row, unless
 the body of one of them breaks off: then nothing of the round is recorded.
 */
module CatalogRefresh {
  import DistinctLists
  import opened SourceDirectory
  import opened Wrappers

  datatype Row = Row(
    body: Option<string>,
    etag: Option<string>,
    lastModified: Option<string>,
    name: string,
    checkedAt: int,
    checkOk: bool,
    checkError: Option<string>)

  type Catalogs = map<string, Row>

  // Reading a body is in no `try`: one that is cut off or stalls past the timeout makes the probe reject.
  datatype Probe =
    | BrokenOff
    | Failed(reason: string)
    | Unchanged(etag: Option<string>, lastModified: Option<string>)
    | Fetched(body: string, name: string, etag: Option<string>, lastModified: Option<string>)

  // ----- the order of the SELECT

  predicate TextBefore(a: string, b: string) {
    if b == [] then false
    else if a == [] then true
    else if a[0] != b[0] then a[0] < b[0]
    else TextBefore(a[1..], b[1..])
  }

  lemma {:induction false} TextIsNotBeforeItself(a: string)
    ensures !TextBefore(a, a)
    decreases |a|
  {
    if a != [] {
      TextIsNotBeforeItself(a[1..]);
    }
  }

  lemma {:induction false} TextOrderIsTotal(a: string, b: string)
    ensures a == b || TextBefore(a, b) || TextBefore(b, a)
    ensures !(TextBefore(a, b) && TextBefore(b, a))
    decreases |a|
  {
    if a != [] && b != [] && a[0] == b[0] {
      TextOrderIsTotal(a[1..], b[1..]);
      assert a == [a[0]] + a[1..] && b == [b[0]] + b[1..];
    }
  }

  lemma {:induction false} TextOrderIsTransitive(a: string, b: string, c: string)
    requires TextBefore(a, b) && TextBefore(b, c)
    ensures TextBefore(a, c)
    decreases |a|
  {
    if a != [] && a[0] == b[0] == c[0] {
      TextOrderIsTransitive(a[1..], b[1..], c[1..]);
    }
  }

  // At the first place where two texts differ, the one that ends there or has the smaller character comes first.
  predicate DifferFrom(a: string, b: string, k: nat) {
    && k <= |a| && k < |b| && a[..k] == b[..k]
    && (k == |a| || a[k] < b[k])
  }

  lemma {:induction false} TextOrderIsLexicographic(a: string, b: string)
    ensures TextBefore(a, b) <==> exists k: nat :: DifferFrom(a, b, k)
    decreases |a|
  {
    forall k: nat | 0 < k && DifferFrom(a, b, k) ensures a[0] == b[0] {
      assert a[0] == a[..k][0] && b[0] == b[..k][0];
    }
    if a == [] && b != [] {
      assert DifferFrom(a, b, 0);
    } else if a != [] && b != [] && a[0] < b[0] {
      assert DifferFrom(a, b, 0);
    } else if a != [] && b != [] && a[0] == b[0] {
      TextOrderIsLexicographic(a[1..], b[1..]);
      if k: nat :| DifferFrom(a[1..], b[1..], k) {
        assert a[..k + 1] == [a[0]] + a[1..][..k] && b[..k + 1] == [b[0]] + b[1..][..k];
        assert DifferFrom(a, b, k + 1);
      }
      if k: nat :| DifferFrom(a, b, k) {
        assert k > 0 && a[1..][..k - 1] == a[..k][1..] && b[1..][..k - 1] == b[..k][1..];
        assert DifferFrom(a[1..], b[1..], k - 1);
      }
    }
  }

  // ORDER BY checked_at, url
  predicate Before(rows: Catalogs, a: string, b: string)
    requires a in rows && b in rows
  {
    rows[a].checkedAt < rows[b].checkedAt || (rows[a].checkedAt == rows[b].checkedAt && TextBefore(a, b))
  }

  lemma BeforeIsTransitive(rows: Catalogs, a: string, b: string, c: string)
    requires a in rows && b in rows && c in rows
    requires Before(rows, a, b) && Before(rows, b, c)
    ensures Before(rows, a, c)
  {
    if TextBefore(a, b) && TextBefore(b, c) {
      TextOrderIsTransitive(a, b, c);
    }
  }

  predicate IsEligible(sources: Sources, url: string) {
    url == OFFICIAL_CATALOG_URL || (url in sources && sources[url] != Rejected)
  }

  function Eligible(rows: Catalogs, sources: Sources): set<string> {
    set url | url in rows && IsEligible(sources, url)
  }

  predicate IsFirst(rows: Catalogs, urls: set<string>, first: string)
    requires urls <= rows.Keys
  {
    first in urls && forall url | url in urls && url != first :: Before(rows, first, url)
  }

  lemma {:induction false} SomeUrlIsFirst(rows: Catalogs, urls: set<string>) returns (first: string)
    requires urls <= rows.Keys && urls != {}
    ensures IsFirst(rows, urls, first)
    decreases |urls|
  {
    var any :| any in urls;
    first := any;
    if urls != {any} {
      assert |urls - {any}| < |urls|;
      var rest := SomeUrlIsFirst(rows, urls - {any});
      TextOrderIsTotal(any, rest);
      if Before(rows, any, rest) {
        forall url | url in urls && url != any ensures Before(rows, any, url) {
          if url != rest {
            BeforeIsTransitive(rows, any, rest, url);
          }
        }
      } else {
        first := rest;
      }
    }
  }

  lemma FirstExists(rows: Catalogs, urls: set<string>)
    requires urls <= rows.Keys && urls != {}
    ensures exists first :: IsFirst(rows, urls, first)
  {
    var first := SomeUrlIsFirst(rows, urls);
  }

  lemma FirstIsUnique(rows: Catalogs, urls: set<string>, a: string, b: string)
    requires urls <= rows.Keys
    requires IsFirst(rows, urls, a) && IsFirst(rows, urls, b)
    ensures a == b
  {
    TextOrderIsTotal(a, b);
  }

  ghost function FirstOf(rows: Catalogs, urls: set<string>): (first: string)
    requires urls <= rows.Keys && urls != {}
    ensures first in urls
  {
    FirstExists(rows, urls);
    var first :| IsFirst(rows, urls, first);
    first
  }

  lemma FirstOfIsFirst(rows: Catalogs, urls: set<string>)
    requires urls <= rows.Keys && urls != {}
    ensures IsFirst(rows, urls, FirstOf(rows, urls))
  {
    FirstExists(rows, urls);
  }

  // The first `limit` of the urls, in order.
  ghost function Selected(rows: Catalogs, urls: set<string>, limit: nat): (selected: seq<string>)
    requires urls <= rows.Keys
    decreases limit
  {
    if limit == 0 || urls == {} then []
    else
      var first := FirstOf(rows, urls);
      [first] + Selected(rows, urls - {first}, limit - 1)
  }

  // How many rows a round can probe: the missing official catalog takes one place of the budget.
  function Places(rows: Catalogs, budget: nat): nat {
    if OFFICIAL_CATALOG_URL in rows || budget == 0 then budget else budget - 1
  }

  // The targets of a round, in order.
  ghost function Targets(rows: Catalogs, sources: Sources, budget: nat): (urls: seq<string>) {
    (if OFFICIAL_CATALOG_URL !in rows && budget > 0 then [OFFICIAL_CATALOG_URL] else [])
    + Selected(rows, Eligible(rows, sources), Places(rows, budget))
  }

  // ----- recording a round

  // One UPDATE or upsert. A catalog without a row gets one only from a readable fetch.
  function Recorded(rows: Catalogs, url: string, probe: Probe, now: int): Catalogs
    requires !probe.BrokenOff?
  {
    match probe
    case Failed(reason) =>
      if url in rows then rows[url := rows[url].(checkedAt := now, checkOk := false, checkError := Some(reason))] else rows
    case Fetched(body, name, etag, lastModified) => rows[url := Row(Some(body), etag, lastModified, name, now, true, None)]
    case Unchanged(etag, lastModified) =>
      if url in rows then
        rows[url := rows[url].(etag := etag, lastModified := lastModified, checkedAt := now, checkOk := true, checkError := None)]
      else rows
  }

  predicate AllAnswer(urls: seq<string>, probe: string -> Probe) {
    forall url | url in urls :: !probe(url).BrokenOff?
  }

  function AllRecorded(rows: Catalogs, urls: seq<string>, probe: string -> Probe, now: int): Catalogs
    requires AllAnswer(urls, probe)
    decreases |urls|
  {
    if urls == [] then rows
    else Recorded(AllRecorded(rows, urls[..|urls| - 1], probe, now), urls[|urls| - 1], probe(urls[|urls| - 1]), now)
  }

  // Promise.all waits for every answer: one probe that rejects keeps the whole batch from being written.
  ghost predicate IsRecorded(rows: Catalogs, sources: Sources, budget: nat, probe: string -> Probe) {
    AllAnswer(Targets(rows, sources, budget), probe)
  }

  ghost function Refreshed(rows: Catalogs, sources: Sources, budget: nat, probe: string -> Probe, now: int): Catalogs {
    if IsRecorded(rows, sources, budget, probe) then AllRecorded(rows, Targets(rows, sources, budget), probe, now) else rows
  }

  class CatalogTable {
    var rows: Catalogs
    const sources: Sources

    constructor (rows: Catalogs, sources: Sources)
      ensures this.rows == rows && this.sources == sources
    {
      this.rows, this.sources := rows, sources;
    }

    method Stalest(budget: nat) returns (targets: seq<string>)
      ensures targets == Targets(rows, sources, budget)
    {
      var missing := if OFFICIAL_CATALOG_URL in rows then [] else [OFFICIAL_CATALOG_URL];
      var held := SelectStalest(budget);
      var all := missing + held;
      targets := if |all| > budget then all[..budget] else all;
      SelectedPrefix(rows, Eligible(rows, sources), budget, Places(rows, budget));
      assert missing != [] && budget > 0 ==> targets == missing + held[..if |held| < budget - 1 then |held| else budget - 1];
    }

    method SelectStalest(limit: nat) returns (selected: seq<string>)
      ensures selected == Selected(rows, Eligible(rows, sources), limit)
    {
      selected := [];
      var left := Eligible(rows, sources);
      var places := limit;
      ghost var whole := Selected(rows, left, limit);
      while places > 0 && left != {}
        invariant left <= rows.Keys
        invariant whole == selected + Selected(rows, left, places)
        decreases places
      {
        var first := PickFirst(left);
        selected, left, places := selected + [first], left - {first}, places - 1;
      }
    }

    method PickFirst(urls: set<string>) returns (first: string)
      requires urls <= rows.Keys && urls != {}
      ensures first == FirstOf(rows, urls)
    {
      FirstExists(rows, urls);
      first :| IsFirst(rows, urls, first);
      FirstOfIsFirst(rows, urls);
      FirstIsUnique(rows, urls, first, FirstOf(rows, urls));
    }

    // The urls probed, or nothing when a probe rejects.
    method Refresh(now: int, budget: nat, probe: string -> Probe) returns (probed: Option<seq<string>>)
      modifies this`rows
      ensures probed == if IsRecorded(old(rows), sources, budget, probe) then Some(Targets(old(rows), sources, budget)) else None
      ensures rows == Refreshed(old(rows), sources, budget, probe, now)
    {
      var targets := Stalest(budget);
      var probes := ProbeAll(targets, probe);
      if probes.None? {
        return None;
      }
      RecordAll(targets, probes.value, probe, now);
      return Some(targets);
    }

    static method ProbeAll(targets: seq<string>, probe: string -> Probe) returns (probes: Option<seq<Probe>>)
      ensures probes.Some? <==> AllAnswer(targets, probe)
      ensures probes.Some? ==> |probes.value| == |targets| && forall i | 0 <= i < |targets| :: probes.value[i] == probe(targets[i])
    {
      var answers := [];
      for i := 0 to |targets|
        invariant |answers| == i
        invariant forall j | 0 <= j < i :: answers[j] == probe(targets[j]) && !answers[j].BrokenOff?
      {
        if probe(targets[i]).BrokenOff? {
          return None;
        }
        answers := answers + [probe(targets[i])];
      }
      return Some(answers);
    }

    method RecordAll(targets: seq<string>, probes: seq<Probe>, ghost probe: string -> Probe, now: int)
      requires AllAnswer(targets, probe)
      requires |probes| == |targets| && forall i | 0 <= i < |targets| :: probes[i] == probe(targets[i])
      modifies this`rows
      ensures rows == AllRecorded(old(rows), targets, probe, now)
    {
      for i := 0 to |targets|
        invariant AllAnswer(targets[..i], probe) && rows == AllRecorded(old(rows), targets[..i], probe, now)
      {
        assert targets[..i + 1][..i] == targets[..i];
        RecordProbe(targets[i], probes[i], now);
      }
      assert targets[..|targets|] == targets;
    }

    method RecordProbe(url: string, probe: Probe, now: int)
      requires !probe.BrokenOff?
      modifies this`rows
      ensures rows == Recorded(old(rows), url, probe, now)
    {
      if probe.Fetched? {
        StoreCatalog(url, probe.body, probe.name, probe.etag, probe.lastModified, now);
        return;
      }
      if url !in rows {
        return;
      }
      var row := rows[url].(checkedAt := now);
      if probe.Failed? {
        row := row.(checkOk := false, checkError := Some(probe.reason));
      } else {
        row := row.(etag := probe.etag, lastModified := probe.lastModified, checkOk := true, checkError := None);
      }
      rows := rows[url := row];
    }

    method StoreCatalog(url: string, body: string, name: string, etag: Option<string>, lastModified: Option<string>, now: int)
      modifies this`rows
      ensures rows == old(rows)[url := Row(Some(body), etag, lastModified, name, now, true, None)]
    {
      rows := rows[url := Row(Some(body), etag, lastModified, name, now, true, None)];
    }
  }

  lemma {:induction false} SelectedPrefix(rows: Catalogs, urls: set<string>, limit: nat, fewer: nat)
    requires urls <= rows.Keys && fewer <= limit
    ensures var all := Selected(rows, urls, limit);
            && |all| <= limit
            && Selected(rows, urls, fewer) == all[..if |all| < fewer then |all| else fewer]
    decreases limit
  {
    if fewer > 0 && urls != {} {
      SelectedPrefix(rows, urls - {FirstOf(rows, urls)}, limit - 1, fewer - 1);
    } else if limit > 0 && urls != {} {
      SelectedPrefix(rows, urls - {FirstOf(rows, urls)}, limit - 1, 0);
    }
  }

  // What a selection leaves out comes after all of it.
  lemma {:induction false} LeftOutComesAfter(rows: Catalogs, urls: set<string>, limit: nat, url: string)
    requires urls <= rows.Keys && url in urls
    requires url !in Selected(rows, urls, limit)
    ensures var selected := Selected(rows, urls, limit);
            && |selected| == limit
            && |set s | s in selected| == limit
            && (forall s | s in selected :: s in urls && s != url && Before(rows, s, url))
    decreases limit
  {
    if limit > 0 {
      var first := FirstOf(rows, urls);
      FirstOfIsFirst(rows, urls);
      var rest := Selected(rows, urls - {first}, limit - 1);
      LeftOutComesAfter(rows, urls - {first}, limit - 1, url);
      assert (set s | s in Selected(rows, urls, limit)) == (set s | s in rest) + {first};
    }
  }

  // ----- what a round does to each row

  lemma {:induction false} AllRecordedRowByRow(rows: Catalogs, urls: seq<string>, probe: string -> Probe, now: int, url: string)
    requires AllAnswer(urls, probe)
    ensures var after := AllRecorded(rows, urls, probe, now);
            && (url !in urls ==> (url in after <==> url in rows) && (url in rows ==> after[url] == rows[url]))
            && (url in rows ==> url in after)
            && (url in urls && url in after ==> after[url].checkedAt == now)
            && (url in urls && url in rows ==>
                  after[url].body == (if probe(url).Fetched? then Some(probe(url).body) else rows[url].body)
                  && after[url].checkOk == !probe(url).Failed?)
            && (url in urls && url !in rows ==> (url in after <==> probe(url).Fetched?))
    decreases |urls|
  {
    if urls != [] {
      AllRecordedRowByRow(rows, urls[..|urls| - 1], probe, now, url);
    }
  }

  // The row a recorded probe leaves: a fetch writes all of it, an unchanged answer the validators, a failure its
  // reason; the name and the body stay unless they are fetched.
  lemma {:induction false} RecordedRowFieldByField(rows: Catalogs, urls: seq<string>, probe: string -> Probe, now: int, url: string)
    requires AllAnswer(urls, probe) && url in urls && (url in rows || probe(url).Fetched?)
    ensures var after, answer := AllRecorded(rows, urls, probe, now), probe(url);
            && url in after
            && after[url].checkedAt == now && after[url].checkOk == !answer.Failed?
            && after[url].checkError == (if answer.Failed? then Some(answer.reason) else None)
            && after[url].etag == (if answer.Failed? then rows[url].etag else answer.etag)
            && after[url].lastModified == (if answer.Failed? then rows[url].lastModified else answer.lastModified)
            && after[url].name == (if answer.Fetched? then answer.name else rows[url].name)
            && after[url].body == (if answer.Fetched? then Some(answer.body) else rows[url].body)
    decreases |urls|
  {
    var early := urls[..|urls| - 1];
    if url in early {
      RecordedRowFieldByField(rows, early, probe, now, url);
    } else {
      AllRecordedRowByRow(rows, early, probe, now, url);
      assert urls == early + [urls[|urls| - 1]];
    }
  }

  // A round changes the row of a catalog exactly when it probed it and no probe of the round broke off.
  lemma RefreshedRowByRow(rows: Catalogs, sources: Sources, budget: nat, probe: string -> Probe, now: int, url: string)
    requires url in rows && rows[url].checkedAt < now
    ensures var after := Refreshed(rows, sources, budget, probe, now);
            && url in after
            && (after[url] != rows[url] <==> url in Targets(rows, sources, budget) && IsRecorded(rows, sources, budget, probe))
            && (after[url] != rows[url] ==> after[url].checkedAt == now && after[url].checkOk == !probe(url).Failed?)
  {
    if IsRecorded(rows, sources, budget, probe) {
      AllRecordedRowByRow(rows, Targets(rows, sources, budget), probe, now, url);
    }
  }

  // A catalog keeps the body it last served readably: only a fetch of a changed, readable catalog replaces it,
  // and only in a round none of whose probes broke off.
  lemma BodyIsTheLastReadableOne(rows: Catalogs, sources: Sources, budget: nat, probe: string -> Probe, now: int, url: string)
    requires url in rows
    ensures var after := Refreshed(rows, sources, budget, probe, now);
            && url in after
            && after[url].body == if && url in Targets(rows, sources, budget)
                                     && IsRecorded(rows, sources, budget, probe)
                                     && probe(url).Fetched?
                                  then Some(probe(url).body) else rows[url].body
  {
    if IsRecorded(rows, sources, budget, probe) {
      AllRecordedRowByRow(rows, Targets(rows, sources, budget), probe, now, url);
    }
  }

  // ----- which catalogs a round takes

  // The catalogs a round would take before this one.
  ghost function Ahead(rows: Catalogs, sources: Sources, url: string): set<string>
    requires url in rows
  {
    set other | other in Eligible(rows, sources) && other != url && Before(rows, other, url)
  }

  lemma AheadIsFewer(rows: Catalogs, sources: Sources, url: string)
    requires url in Eligible(rows, sources)
    ensures |Ahead(rows, sources, url)| < |Eligible(rows, sources)|
  {
    DistinctLists.SubsetIsSmaller(Ahead(rows, sources, url), Eligible(rows, sources) - {url});
  }

  lemma {:induction false} SelectionIsShort(rows: Catalogs, urls: set<string>, limit: nat)
    requires urls <= rows.Keys
    ensures |set s | s in Selected(rows, urls, limit)| <= limit
    decreases limit
  {
    if limit > 0 && urls != {} {
      var first := FirstOf(rows, urls);
      var rest := Selected(rows, urls - {first}, limit - 1);
      SelectionIsShort(rows, urls - {first}, limit - 1);
      assert (set s | s in Selected(rows, urls, limit)) == (set s | s in rest) + {first};
    } else {
      assert (set s | s in Selected(rows, urls, limit)) == {};
    }
  }

  lemma SelectedHoldAllAhead(rows: Catalogs, sources: Sources, limit: nat, url: string)
    requires url in Eligible(rows, sources)
    requires url in Selected(rows, Eligible(rows, sources), limit)
    ensures |Ahead(rows, sources, url)| < limit
  {
    var selected := Selected(rows, Eligible(rows, sources), limit);
    var taken := set s | s in selected;
    forall other | other in Ahead(rows, sources, url) ensures other in taken - {url} {
      if other !in selected {
        LeftOutComesAfter(rows, Eligible(rows, sources), limit, other);
        TextOrderIsTotal(url, other);
      }
    }
    DistinctLists.SubsetIsSmaller(Ahead(rows, sources, url), taken - {url});
    SelectionIsShort(rows, Eligible(rows, sources), limit);
  }

  // A row is among the targets exactly when fewer catalogs come before it than rows are probed.
  lemma TargetsAreTheFirstRows(rows: Catalogs, sources: Sources, budget: nat, url: string)
    requires url in Eligible(rows, sources)
    ensures url in Targets(rows, sources, budget) <==> |Ahead(rows, sources, url)| < Places(rows, budget)
  {
    var selected := Selected(rows, Eligible(rows, sources), Places(rows, budget));
    assert url in Targets(rows, sources, budget) <==> url in selected;
    if url in selected {
      SelectedHoldAllAhead(rows, sources, Places(rows, budget), url);
    } else {
      LeftOutComesAfter(rows, Eligible(rows, sources), Places(rows, budget), url);
      DistinctLists.SubsetIsSmaller((set s | s in selected), Ahead(rows, sources, url));
    }
  }

  // ----- fairness

  datatype Round = Round(now: int, probe: string -> Probe)

  ghost function AfterRound(rows: Catalogs, sources: Sources, budget: nat, round: Round): Catalogs {
    Refreshed(rows, sources, budget, round.probe, round.now)
  }

  ghost predicate ProbedWithin(rows: Catalogs, sources: Sources, budget: nat, rounds: seq<Round>, url: string)
    decreases |rounds|
  {
    rounds != []
    && (|| url in Targets(rows, sources, budget)
        || ProbedWithin(AfterRound(rows, sources, budget, rounds[0]), sources, budget, rounds[1..], url))
  }

  // Probed, and the answer written to its row.
  ghost predicate RecordedWithin(rows: Catalogs, sources: Sources, budget: nat, rounds: seq<Round>, url: string)
    decreases |rounds|
  {
    rounds != []
    && (|| (url in Targets(rows, sources, budget) && IsRecorded(rows, sources, budget, rounds[0].probe))
        || RecordedWithin(AfterRound(rows, sources, budget, rounds[0]), sources, budget, rounds[1..], url))
  }

  ghost function RecordedRounds(rows: Catalogs, sources: Sources, budget: nat, rounds: seq<Round>): (count: nat)
    decreases |rounds|
  {
    if rounds == [] then 0
    else
      var rest := RecordedRounds(AfterRound(rows, sources, budget, rounds[0]), sources, budget, rounds[1..]);
      if IsRecorded(rows, sources, budget, rounds[0].probe) then 1 + rest else rest
  }

  // The places a round gives to rows for good: none when it is not recorded.
  ghost function Gain(rows: Catalogs, sources: Sources, budget: nat, round: Round): nat {
    if IsRecorded(rows, sources, budget, round.probe) then Places(rows, budget) else 0
  }

  ghost function Gained(rows: Catalogs, sources: Sources, budget: nat, rounds: seq<Round>): (places: nat)
    decreases |rounds|
  {
    if rounds == [] then 0
    else
      var rest := Gained(AfterRound(rows, sources, budget, rounds[0]), sources, budget, rounds[1..]);
      Gain(rows, sources, budget, rounds[0]) + rest
  }

  // How far the rounds probe: the places gained before the last round, and those of the last round itself.
  ghost function Reach(rows: Catalogs, sources: Sources, budget: nat, rounds: seq<Round>): (places: nat)
    decreases |rounds|
  {
    if rounds == [] then 0
    else if |rounds| == 1 then Places(rows, budget)
    else
      var rest := Reach(AfterRound(rows, sources, budget, rounds[0]), sources, budget, rounds[1..]);
      Gain(rows, sources, budget, rounds[0]) + rest
  }

  ghost predicate ClockMovesOn(rows: Catalogs, rounds: seq<Round>) {
    && (rounds != [] ==> forall url | url in rows :: rows[url].checkedAt < rounds[0].now)
    && (forall i | 0 < i < |rounds| :: rounds[i - 1].now < rounds[i].now)
  }

  lemma RowsAfterARound(rows: Catalogs, sources: Sources, budget: nat, round: Round, other: string)
    requires forall url | url in rows :: rows[url].checkedAt < round.now
    ensures var after, targets := AfterRound(rows, sources, budget, round), Targets(rows, sources, budget);
            && (other in rows ==> other in after)
            && (other in after && other !in rows ==> other in targets)
            && (other in after ==> after[other].checkedAt <= round.now)
            && (other in after && (other !in targets || !IsRecorded(rows, sources, budget, round.probe)) ==>
                  other in rows && after[other] == rows[other])
            && (other in after && other in targets && IsRecorded(rows, sources, budget, round.probe) ==>
                  after[other].checkedAt == round.now)
  {
    if IsRecorded(rows, sources, budget, round.probe) {
      AllRecordedRowByRow(rows, Targets(rows, sources, budget), round.probe, round.now, other);
    }
  }

  lemma ClockStillMovesOn(rows: Catalogs, sources: Sources, budget: nat, rounds: seq<Round>)
    requires rounds != [] && ClockMovesOn(rows, rounds)
    ensures ClockMovesOn(AfterRound(rows, sources, budget, rounds[0]), rounds[1..])
  {
    forall url | url in AfterRound(rows, sources, budget, rounds[0])
      ensures AfterRound(rows, sources, budget, rounds[0])[url].checkedAt <= rounds[0].now
    {
      RowsAfterARound(rows, sources, budget, rounds[0], url);
    }
  }

  // A recorded round that passes a catalog over puts exactly its places' worth of catalogs behind it; the row
  // just made for the official catalog is the freshest and joins them.
  lemma PassedOverMovesUp(rows: Catalogs, sources: Sources, budget: nat, round: Round, url: string)
    requires url in Eligible(rows, sources)
    requires forall other | other in rows :: rows[other].checkedAt < round.now
    requires url !in Targets(rows, sources, budget)
    ensures var after := AfterRound(rows, sources, budget, round);
            && url in Eligible(after, sources)
            && |Ahead(after, sources, url)| == |Ahead(rows, sources, url)| - Gain(rows, sources, budget, round)
  {
    var after := AfterRound(rows, sources, budget, round);
    if IsRecorded(rows, sources, budget, round.probe) {
      var targets := Targets(rows, sources, budget);
      var selected := Selected(rows, Eligible(rows, sources), Places(rows, budget));
      var moved := set s | s in selected;
      RowsAfterARound(rows, sources, budget, round, url);
      LeftOutComesAfter(rows, Eligible(rows, sources), Places(rows, budget), url);
      forall other ensures other in Ahead(after, sources, url) <==> other in Ahead(rows, sources, url) - moved {
        RowsAfterARound(rows, sources, budget, round, other);
        assert other in rows ==> (other in targets <==> other in moved);
      }
      assert Ahead(after, sources, url) == Ahead(rows, sources, url) - moved;
      assert moved <= Ahead(rows, sources, url);
    }
  }

  lemma {:induction false} ReachCoversTheFirstRound(rows: Catalogs, sources: Sources, budget: nat, rounds: seq<Round>)
    requires rounds != []
    ensures Reach(rows, sources, budget, rounds) >= Places(rows, budget)
    decreases |rounds|
  {
    if |rounds| > 1 && !IsRecorded(rows, sources, budget, rounds[0].probe) {
      ReachCoversTheFirstRound(rows, sources, budget, rounds[1..]);
    }
  }

  // Main result, for every run of rounds with a strictly advancing clock, every budget and whatever the probes
  // answer: an eligible catalog is probed exactly when fewer catalogs come before it than the rounds reach.
  lemma {:induction false} ProbedExactlyWhenReached(rows: Catalogs, sources: Sources, budget: nat, rounds: seq<Round>,
                                                    url: string)
    requires url in Eligible(rows, sources)
    requires ClockMovesOn(rows, rounds)
    ensures ProbedWithin(rows, sources, budget, rounds, url)
       <==> |Ahead(rows, sources, url)| < Reach(rows, sources, budget, rounds)
    decreases |rounds|
  {
    if rounds == [] {
    } else {
      TargetsAreTheFirstRows(rows, sources, budget, url);
      if url in Targets(rows, sources, budget) {
        ReachCoversTheFirstRound(rows, sources, budget, rounds);
      } else {
        PassedOverMovesUp(rows, sources, budget, rounds[0], url);
        ClockStillMovesOn(rows, sources, budget, rounds);
        ProbedExactlyWhenReached(AfterRound(rows, sources, budget, rounds[0]), sources, budget, rounds[1..], url);
      }
    }
  }

  // Its answer is recorded exactly when fewer catalogs come before it than the recorded rounds gave places to.
  lemma {:induction false} RecordedExactlyWhenGained(rows: Catalogs, sources: Sources, budget: nat, rounds: seq<Round>,
                                                     url: string)
    requires url in Eligible(rows, sources)
    requires ClockMovesOn(rows, rounds)
    ensures RecordedWithin(rows, sources, budget, rounds, url)
       <==> |Ahead(rows, sources, url)| < Gained(rows, sources, budget, rounds)
    decreases |rounds|
  {
    if rounds == [] {
    } else {
      TargetsAreTheFirstRows(rows, sources, budget, url);
      if url !in Targets(rows, sources, budget) {
        PassedOverMovesUp(rows, sources, budget, rounds[0], url);
      }
      if url !in Targets(rows, sources, budget) || !IsRecorded(rows, sources, budget, rounds[0].probe) {
        ClockStillMovesOn(rows, sources, budget, rounds);
        RecordedExactlyWhenGained(AfterRound(rows, sources, budget, rounds[0]), sources, budget, rounds[1..], url);
      }
    }
  }

  lemma {:induction false} RecordedIsProbed(rows: Catalogs, sources: Sources, budget: nat, rounds: seq<Round>, url: string)
    requires RecordedWithin(rows, sources, budget, rounds, url)
    ensures ProbedWithin(rows, sources, budget, rounds, url)
    decreases |rounds|
  {
    if url !in Targets(rows, sources, budget) {
      RecordedIsProbed(AfterRound(rows, sources, budget, rounds[0]), sources, budget, rounds[1..], url);
    }
  }

  // ----- the wait in rounds

  lemma PlacesNeverShrink(rows: Catalogs, sources: Sources, budget: nat, round: Round)
    ensures Places(rows, budget) <= Places(AfterRound(rows, sources, budget, round), budget)
  {
    if IsRecorded(rows, sources, budget, round.probe) {
      AllRecordedRowByRow(rows, Targets(rows, sources, budget), round.probe, round.now, OFFICIAL_CATALOG_URL);
    }
  }

  lemma {:induction false} EachRecordedRoundGains(rows: Catalogs, sources: Sources, budget: nat, rounds: seq<Round>,
                                                  places: nat)
    requires places <= Places(rows, budget)
    ensures RecordedRounds(rows, sources, budget, rounds) * places <= Gained(rows, sources, budget, rounds)
    decreases |rounds|
  {
    if rounds != [] {
      var after := AfterRound(rows, sources, budget, rounds[0]);
      PlacesNeverShrink(rows, sources, budget, rounds[0]);
      EachRecordedRoundGains(after, sources, budget, rounds[1..], places);
      OneMoreTime(RecordedRounds(after, sources, budget, rounds[1..]), places);
    }
  }

  lemma OneMoreTime(count: nat, places: nat)
    ensures (1 + count) * places == places + count * places
  {
  }

  // While no body breaks off, every round is recorded, so the bounds count all of them.
  lemma {:induction false} AnsweredRoundsAreRecorded(rows: Catalogs, sources: Sources, budget: nat, rounds: seq<Round>)
    requires forall i, url | 0 <= i < |rounds| :: !rounds[i].probe(url).BrokenOff?
    ensures RecordedRounds(rows, sources, budget, rounds) == |rounds|
    decreases |rounds|
  {
    if rounds != [] {
      assert IsRecorded(rows, sources, budget, rounds[0].probe);
      var rest := rounds[1..];
      assert forall i | 0 <= i < |rest| :: rest[i] == rounds[i + 1];
      AnsweredRoundsAreRecorded(AfterRound(rows, sources, budget, rounds[0]), sources, budget, rest);
    }
  }

  // Every eligible catalog is recorded once ceil(eligible / places) rounds are; a missing official row costs
  // one place.
  lemma NoCatalogIsStarved(rows: Catalogs, sources: Sources, budget: nat, rounds: seq<Round>, url: string)
    requires url in Eligible(rows, sources)
    requires ClockMovesOn(rows, rounds)
    requires |Eligible(rows, sources)| <= RecordedRounds(rows, sources, budget, rounds) * Places(rows, budget)
    ensures RecordedWithin(rows, sources, budget, rounds, url) && ProbedWithin(rows, sources, budget, rounds, url)
  {
    AheadIsFewer(rows, sources, url);
    EachRecordedRoundGains(rows, sources, budget, rounds, Places(rows, budget));
    RecordedExactlyWhenGained(rows, sources, budget, rounds, url);
    RecordedIsProbed(rows, sources, budget, rounds, url);
  }

  // The bound of the shipped batch and of every budget of two or more.
  lemma BudgetOfTwoStarvesNobody(rows: Catalogs, sources: Sources, budget: nat, rounds: seq<Round>, url: string)
    requires budget >= 2
    requires url in Eligible(rows, sources)
    requires ClockMovesOn(rows, rounds)
    requires |Eligible(rows, sources)| <= RecordedRounds(rows, sources, budget, rounds) * (budget - 1)
    ensures RecordedWithin(rows, sources, budget, rounds, url) && ProbedWithin(rows, sources, budget, rounds, url)
  {
    AheadIsFewer(rows, sources, url);
    EachRecordedRoundGains(rows, sources, budget, rounds, budget - 1);
    RecordedExactlyWhenGained(rows, sources, budget, rounds, url);
    RecordedIsProbed(rows, sources, budget, rounds, url);
  }

  // ----- whose catalogs are probed

  // Of the catalogs that have a row: the official one, and those of a source that is in quarantine, listed or attested.
  predicate IsServed(sources: Sources, url: string) {
    || url == OFFICIAL_CATALOG_URL
    || (url in sources && (sources[url].Quarantined? || sources[url].Listed? || sources[url].Attested?))
  }

  lemma SelectedAreEligible(rows: Catalogs, urls: set<string>, limit: nat, url: string)
    requires urls <= rows.Keys && url in Selected(rows, urls, limit)
    ensures url in urls
    decreases limit
  {
    if url != FirstOf(rows, urls) {
      SelectedAreEligible(rows, urls - {FirstOf(rows, urls)}, limit - 1, url);
    }
  }

  lemma TargetsAreServed(rows: Catalogs, sources: Sources, budget: nat, url: string)
    requires url in Targets(rows, sources, budget)
    ensures IsServed(sources, url)
  {
    if url in Selected(rows, Eligible(rows, sources), Places(rows, budget)) {
      SelectedAreEligible(rows, Eligible(rows, sources), Places(rows, budget), url);
    }
  }

  // Every other catalog, as of a source that was rejected or taken off the list, is never probed, whatever the budget.
  lemma {:induction false} OthersAreNeverProbed(rows: Catalogs, sources: Sources, budget: nat, rounds: seq<Round>, url: string)
    requires !IsServed(sources, url)
    ensures !ProbedWithin(rows, sources, budget, rounds, url)
    decreases |rounds|
  {
    if rounds != [] {
      if url in Targets(rows, sources, budget) {
        TargetsAreServed(rows, sources, budget, url);
      }
      OthersAreNeverProbed(AfterRound(rows, sources, budget, rounds[0]), sources, budget, rounds[1..], url);
    }
  }

  // And each of these is recorded within the bound.
  lemma ServedCatalogIsRecorded(rows: Catalogs, sources: Sources, budget: nat, rounds: seq<Round>, url: string)
    requires url in rows && IsServed(sources, url)
    requires ClockMovesOn(rows, rounds)
    requires |rows| <= RecordedRounds(rows, sources, budget, rounds) * Places(rows, budget)
    ensures RecordedWithin(rows, sources, budget, rounds, url) && ProbedWithin(rows, sources, budget, rounds, url)
  {
    DistinctLists.SubsetIsSmaller(Eligible(rows, sources), rows.Keys);
    NoCatalogIsStarved(rows, sources, budget, rounds, url);
  }

  // ----- when a source never answers

  ghost predicate AlwaysBreaksOff(rounds: seq<Round>, bad: string) {
    forall i | 0 <= i < |rounds| :: rounds[i].probe(bad).BrokenOff?
  }

  lemma {:induction false} BrokenOffIsNeverRecorded(rows: Catalogs, sources: Sources, budget: nat, rounds: seq<Round>,
                                                    bad: string)
    requires AlwaysBreaksOff(rounds, bad)
    ensures !RecordedWithin(rows, sources, budget, rounds, bad)
    decreases |rounds|
  {
    if rounds != [] {
      assert rounds[0].probe(bad).BrokenOff?;
      BrokenOffIsNeverRecorded(AfterRound(rows, sources, budget, rounds[0]), sources, budget, rounds[1..], bad);
    }
  }

  lemma {:induction false} ReachIsOneRoundFurther(rows: Catalogs, sources: Sources, budget: nat, rounds: seq<Round>)
    ensures Reach(rows, sources, budget, rounds) <= Gained(rows, sources, budget, rounds) + budget
    decreases |rounds|
  {
    if |rounds| > 1 {
      ReachIsOneRoundFurther(AfterRound(rows, sources, budget, rounds[0]), sources, budget, rounds[1..]);
    }
  }

  // One source whose body always breaks off stops the rotation, at any budget and in any number of rounds: no
  // catalog behind it is ever recorded again, and none that is a whole budget behind it is ever probed.
  lemma StallingSourceStopsTheRotation(rows: Catalogs, sources: Sources, budget: nat, rounds: seq<Round>, bad: string,
                                       url: string)
    requires bad in Eligible(rows, sources) && url in Eligible(rows, sources)
    requires ClockMovesOn(rows, rounds) && AlwaysBreaksOff(rounds, bad)
    requires |Ahead(rows, sources, bad)| <= |Ahead(rows, sources, url)|
    ensures !RecordedWithin(rows, sources, budget, rounds, url)
    ensures |Ahead(rows, sources, bad)| + budget <= |Ahead(rows, sources, url)| ==>
            !ProbedWithin(rows, sources, budget, rounds, url)
  {
    BrokenOffIsNeverRecorded(rows, sources, budget, rounds, bad);
    RecordedExactlyWhenGained(rows, sources, budget, rounds, bad);
    RecordedExactlyWhenGained(rows, sources, budget, rounds, url);
    ReachIsOneRoundFurther(rows, sources, budget, rounds);
    ProbedExactlyWhenReached(rows, sources, budget, rounds, url);
  }

  // Once it is among the targets, the table stays as it is and only those targets are probed.
  lemma {:induction false} StallingTargetFreezesTheTable(rows: Catalogs, sources: Sources, budget: nat, rounds: seq<Round>,
                                                         bad: string, url: string)
    requires bad in Targets(rows, sources, budget) && AlwaysBreaksOff(rounds, bad)
    ensures RecordedRounds(rows, sources, budget, rounds) == 0
    ensures ProbedWithin(rows, sources, budget, rounds, url) <==> rounds != [] && url in Targets(rows, sources, budget)
    decreases |rounds|
  {
    if rounds != [] {
      assert rounds[0].probe(bad).BrokenOff?;
      assert AfterRound(rows, sources, budget, rounds[0]) == rows;
      StallingTargetFreezesTheTable(rows, sources, budget, rounds[1..], bad, url);
    }
  }

  // ----- when no place is left for rows

  // A round that goes to the missing official catalog changes nothing, unless it is fetched.
  lemma OnlyTheOfficialIsProbed(rows: Catalogs, sources: Sources, round: Round)
    requires OFFICIAL_CATALOG_URL !in rows
    ensures Targets(rows, sources, 1) == [OFFICIAL_CATALOG_URL]
    ensures var after := AfterRound(rows, sources, 1, round);
            && (OFFICIAL_CATALOG_URL in after <==> round.probe(OFFICIAL_CATALOG_URL).Fetched?)
            && (!round.probe(OFFICIAL_CATALOG_URL).Fetched? ==> after == rows)
  {
    var targets := Targets(rows, sources, 1);
    assert targets == [OFFICIAL_CATALOG_URL] && targets[..|targets| - 1] == [];
    if !round.probe(OFFICIAL_CATALOG_URL).BrokenOff? {
      assert AllRecorded(rows, [], round.probe, round.now) == rows;
    }
  }

  // While the official catalog has no row and is not fetched, a budget of one goes to it: no row is probed
  // before the round after the first fetch.
  lemma {:induction false} NoPlaceStarvesEveryRow(rows: Catalogs, sources: Sources, rounds: seq<Round>, url: string)
    requires OFFICIAL_CATALOG_URL !in rows && url in rows
    requires forall i | 0 <= i < |rounds| - 1 :: !rounds[i].probe(OFFICIAL_CATALOG_URL).Fetched?
    ensures !ProbedWithin(rows, sources, 1, rounds, url)
    decreases |rounds|
  {
    if rounds != [] {
      OnlyTheOfficialIsProbed(rows, sources, rounds[0]);
      if |rounds| > 1 {
        assert !rounds[0].probe(OFFICIAL_CATALOG_URL).Fetched?;
        NoPlaceStarvesEveryRow(rows, sources, rounds[1..], url);
      }
    }
  }

  lemma {:induction false} NoBudgetProbesNothing(rows: Catalogs, sources: Sources, rounds: seq<Round>, url: string)
    ensures !ProbedWithin(rows, sources, 0, rounds, url)
    decreases |rounds|
  {
    if rounds != [] {
      assert Targets(rows, sources, 0) == [];
      NoBudgetProbesNothing(AfterRound(rows, sources, 0, rounds[0]), sources, rounds[1..], url);
    }
  }

  lemma {:induction false} GainsFromTheFetchOn(rows: Catalogs, sources: Sources, rounds: seq<Round>, f: nat)
    requires OFFICIAL_CATALOG_URL !in rows
    requires f < |rounds| && rounds[f].probe(OFFICIAL_CATALOG_URL).Fetched?
    ensures RecordedRounds(rows, sources, 1, rounds) <= f + 1 + Gained(rows, sources, 1, rounds)
    decreases |rounds|
  {
    var after, rest := AfterRound(rows, sources, 1, rounds[0]), rounds[1..];
    OnlyTheOfficialIsProbed(rows, sources, rounds[0]);
    if rounds[0].probe(OFFICIAL_CATALOG_URL).Fetched? {
      EachRecordedRoundGains(after, sources, 1, rest, 1);
    } else {
      assert rest[f - 1] == rounds[f];
      GainsFromTheFetchOn(rows, sources, rest, f - 1);
    }
  }

  // Once it is fetched, every eligible row is recorded within the bound for one place.
  lemma FetchedOfficialFreesItsPlace(rows: Catalogs, sources: Sources, rounds: seq<Round>, f: nat, url: string)
    requires OFFICIAL_CATALOG_URL !in rows && url in Eligible(rows, sources)
    requires ClockMovesOn(rows, rounds)
    requires f < |rounds| && rounds[f].probe(OFFICIAL_CATALOG_URL).Fetched?
    requires f + 1 + |Eligible(rows, sources)| <= RecordedRounds(rows, sources, 1, rounds)
    ensures RecordedWithin(rows, sources, 1, rounds, url) && ProbedWithin(rows, sources, 1, rounds, url)
  {
    AheadIsFewer(rows, sources, url);
    GainsFromTheFetchOn(rows, sources, rounds, f);
    RecordedExactlyWhenGained(rows, sources, 1, rounds, url);
    RecordedIsProbed(rows, sources, 1, rounds, url);
  }

  // ----- endless runs

  function FirstRounds(rounds: nat -> Round, n: nat): (first: seq<Round>) {
    seq(n, i requires 0 <= i < n => rounds(i))
  }

  ghost predicate ClockMovesOnForever(rows: Catalogs, rounds: nat -> Round) {
    && (forall url | url in rows :: rows[url].checkedAt < rounds(0).now)
    && (forall i: nat, j: nat | i < j :: rounds(i).now < rounds(j).now)
  }

  ghost predicate EverProbed(rows: Catalogs, sources: Sources, budget: nat, rounds: nat -> Round, url: string) {
    exists n: nat :: ProbedWithin(rows, sources, budget, FirstRounds(rounds, n), url)
  }

  ghost predicate EverReached(rows: Catalogs, sources: Sources, budget: nat, rounds: nat -> Round, url: string)
    requires url in rows
  {
    exists n: nat :: |Ahead(rows, sources, url)| < Reach(rows, sources, budget, FirstRounds(rounds, n))
  }

  ghost predicate EverFetched(rounds: nat -> Round) {
    exists f: nat :: rounds(f).probe(OFFICIAL_CATALOG_URL).Fetched?
  }

  ghost predicate EverRecords(rows: Catalogs, sources: Sources, budget: nat, rounds: nat -> Round, count: nat) {
    exists n: nat :: count <= RecordedRounds(rows, sources, budget, FirstRounds(rounds, n))
  }

  // However many rounds are wanted, that many are recorded some time.
  ghost predicate RecordsForever(rows: Catalogs, sources: Sources, budget: nat, rounds: nat -> Round) {
    forall count: nat :: EverRecords(rows, sources, budget, rounds, count)
  }

  // Main result, for every budget and every endless run of rounds: an eligible catalog is probed some time
  // exactly when the places of the recorded rounds, with those of one round more, come to it.
  lemma EverProbedExactlyWhenReached(rows: Catalogs, sources: Sources, budget: nat, rounds: nat -> Round, url: string)
    requires url in Eligible(rows, sources) && ClockMovesOnForever(rows, rounds)
    ensures EverProbed(rows, sources, budget, rounds, url) <==> EverReached(rows, sources, budget, rounds, url)
  {
    forall n: nat
      ensures ProbedWithin(rows, sources, budget, FirstRounds(rounds, n), url)
         <==> |Ahead(rows, sources, url)| < Reach(rows, sources, budget, FirstRounds(rounds, n))
    {
      ProbedExactlyWhenReached(rows, sources, budget, FirstRounds(rounds, n), url);
    }
  }

  lemma PlacesAreEnough(rows: Catalogs, sources: Sources, budget: nat, rounds: nat -> Round, url: string)
    requires url in Eligible(rows, sources) && ClockMovesOnForever(rows, rounds) && Places(rows, budget) >= 1
    requires RecordsForever(rows, sources, budget, rounds)
    ensures EverProbed(rows, sources, budget, rounds, url)
  {
    assert EverRecords(rows, sources, budget, rounds, |Eligible(rows, sources)|);
    var n: nat :| |Eligible(rows, sources)| <= RecordedRounds(rows, sources, budget, FirstRounds(rounds, n));
    var recorded := RecordedRounds(rows, sources, budget, FirstRounds(rounds, n));
    assert recorded * 1 <= recorded * Places(rows, budget);
    NoCatalogIsStarved(rows, sources, budget, FirstRounds(rounds, n), url);
  }

  lemma {:induction false} NoMoreThanAllAreRecorded(rows: Catalogs, sources: Sources, budget: nat, rounds: seq<Round>)
    ensures RecordedRounds(rows, sources, budget, rounds) <= |rounds|
    decreases |rounds|
  {
    if rounds != [] {
      NoMoreThanAllAreRecorded(AfterRound(rows, sources, budget, rounds[0]), sources, budget, rounds[1..]);
    }
  }

  lemma FetchIsEnough(rows: Catalogs, sources: Sources, rounds: nat -> Round, url: string)
    requires url in Eligible(rows, sources) && ClockMovesOnForever(rows, rounds)
    requires OFFICIAL_CATALOG_URL !in rows && EverFetched(rounds) && RecordsForever(rows, sources, 1, rounds)
    ensures EverProbed(rows, sources, 1, rounds, url)
  {
    var f: nat :| rounds(f).probe(OFFICIAL_CATALOG_URL).Fetched?;
    var wanted := f + 1 + |Eligible(rows, sources)|;
    assert EverRecords(rows, sources, 1, rounds, wanted);
    var n: nat :| wanted <= RecordedRounds(rows, sources, 1, FirstRounds(rounds, n));
    NoMoreThanAllAreRecorded(rows, sources, 1, FirstRounds(rounds, n));
    FetchedOfficialFreesItsPlace(rows, sources, FirstRounds(rounds, n), f, url);
  }

  lemma NoFetchStarves(rows: Catalogs, sources: Sources, rounds: nat -> Round, url: string)
    requires url in rows && OFFICIAL_CATALOG_URL !in rows && !EverFetched(rounds)
    ensures !EverProbed(rows, sources, 1, rounds, url)
  {
    forall n: nat ensures !ProbedWithin(rows, sources, 1, FirstRounds(rounds, n), url) {
      NoPlaceStarvesEveryRow(rows, sources, FirstRounds(rounds, n), url);
    }
  }

  // While rounds keep being recorded, an eligible catalog is probed some time exactly when the budget is two or
  // more, or is one and the official catalog has a row or is ever fetched.
  lemma CatalogsStarveExactlyWithoutAPlace(rows: Catalogs, sources: Sources, budget: nat, rounds: nat -> Round, url: string)
    requires url in Eligible(rows, sources) && ClockMovesOnForever(rows, rounds)
    requires RecordsForever(rows, sources, budget, rounds)
    ensures EverProbed(rows, sources, budget, rounds, url) <==>
            budget >= 2 || (budget == 1 && (OFFICIAL_CATALOG_URL in rows || EverFetched(rounds)))
  {
    if budget == 0 {
      forall n: nat ensures !ProbedWithin(rows, sources, budget, FirstRounds(rounds, n), url) {
        NoBudgetProbesNothing(rows, sources, FirstRounds(rounds, n), url);
      }
    } else if budget >= 2 || OFFICIAL_CATALOG_URL in rows {
      PlacesAreEnough(rows, sources, budget, rounds, url);
    } else if EverFetched(rounds) {
      FetchIsEnough(rows, sources, rounds, url);
    } else {
      NoFetchStarves(rows, sources, rounds, url);
    }
  }
}

# Verified core of bridgething

Dafny models of the parts of bridgething whose correctness depends on whole runs: two interleaving
protocols, calendar arithmetic, table deltas and rotations, bounded logs and caches, file moves, a
manifest generator with its validator, and a graph closure. Code that works by changing things step by
step is a class or a method with loops, proved against a specification function; the promises are proved
about that function, over every input, run or interleaving. `dafny verify dfyconfig.toml` checks all of it.

| files | what they model |
|---|---|
| Calendar, CivilDate, Dayparting | the yearly slot of the companion: day number to civil date, when the slot is open, how often it is used |
| Peers, PeerActor, PeerRuns, PeerPresentation, PeerPairing, PeerTold | the daemon's actor over Bluetooth peers: incremental edges, debounced disconnects, deferred removals, whose device is presented, pairings, what each client is told |
| SessionBridge, SessionFields, SessionRuns | the mobile app's store: native events, overlapping snapshots, replay; what an event writes, and that one reconcile is enough |
| SourceDirectory, InstallCensus, CensusReports, RateLimits, CatalogRefresh | the directory worker's tables: census delta, token windows and pruning, probe rotation |
| StableSort, DiagnosticsLog, PendingLog, LogTimer | stable sorting, the capped log buffers built on it, exactly what their caps and seeds can lose, and when a flush is under way |
| TraceLog, TraceKept, TraceDrains | the rotated trace file with its bounded channel and drop counter, how much it keeps, and that it gets written |
| FilePlacement | rename or staged copy, under any script of failing operations and with a stop after any of them |
| PlainObjects | what looking a key up in a plain JavaScript object finds beside its own keys |
| ReleaseManifest, ManifestValidate, ManifestGenerate, InputFaults, ManifestContents, ManifestNames | when a release manifest is well formed, the validator, the generator, which inputs are valid, what is built from them, names and composite versions |
| AffectedCrates, CrateOwners | which crates a change makes CI build |
| RefreshGenerations, SourceList, SourceShown | the mobile store page: superseding refreshes, and rewrites of the source list with reads that land late or fail |
| DistinctLists, RecentKeys, BoundedCache, IconCache | recency order, the LRU cache, and the persistent icon cache that can be stopped between two writes |
| Utf8Length, Utf8Bytes | the measured length of a request body |

Where the code does not keep the obvious promise, the model follows the code, and what holds instead is
proved exactly:

- `Diff::compute` tells other peers apart by device id, so two addresses with one id can fake an edge (`SharedDeviceIdFakesAnEdge`); the edges are exact unless ids hide a useful peer (`DiffIsExactUnlessMasked`).
- A rate limit of zero still grants one token per window, because the row is made before the limit is looked at (`EveryWindowIsExact`).
- One catalog whose body breaks off keeps the whole round from being recorded. A catalog is probed exactly when fewer come before it than the recorded rounds, and one more, have places for (`ProbedExactlyWhenReached`, `EverProbedExactlyWhenReached`); so a source whose body always breaks off stops the rotation for everything behind it, at any budget (`StallingSourceStopsTheRotation`, `StallingTargetFreezesTheTable`).
- A probe budget of one goes to the missing official catalog until that is fetched: while rounds keep being recorded, catalogs starve exactly when the budget is zero, or is one and no such fetch ever succeeds (`CatalogsStarveExactlyWithoutAPlace`).
- The cross-reference check looks versions up in plain objects: it accepts a latest such as `toString`, which is no release, exactly where its channel lists nothing installable (`ValidateInvariants`, `PassingLacksOnlyALatest`, `InheritedLatestPasses`), with the schema's consent. What the generator builds never has such a latest, but a bundle of a new image may name a daemon release that does not exist (`InheritedDaemonIsKnown`).
- The cross-reference check alone, as its callers can run it, turns down a manifest in which an empty yank reason hides an installable release (`EmptyReasonIsTurnedDown`, `BuiltIsWellFormedExactlyWhenAcceptable`), and accepts a channel without an id that lists a version twice (`EmptyIdMayListAVersionTwice`). The schema, which the generator checks first, refuses both.
- The pending log batch is capped by arrival, not by time: it loses lines exactly when one that it pushes out has too few lines sorting after it (`PendingCapIsHarmlessExactly`).
- A seed of log lines is not sorted: the buffers are right at every moment exactly when every seed is faithful (`BuffersAreRightExactlyWithFaithfulSeeds`, `UnsortedSeedStaysUnsorted`).
- A rewrite of the source list whose read fails starts from what the page shows, which is empty at first and which a late answer takes back: the changes are serialised exactly when each such list was safe to start from (`RewritesAreSerialised`, `UnreadAddDropsTheRest`, `LateAnswerLosesAnAcceptedChange`).
- An icon write cut short before the index is stored strands an icon that was not listed, until it is written whole (`CutWriteStrandsItsIcon`, `StrandedIconStays`); the icons stored are counted exactly (`StorageIsBounded`).
- A write of the icon cache returns exactly when the limit is not negative; with -1 its loop never ends (`WriteReturnsExactlyForALimit`).
- The device presented is the one that came up first: it stays presented when another peer takes over, though its own peer is no longer useful (`PresentedDeviceCanBeStale`); while its peer stays useful it is the right one (`PresentedDeviceIsUseful`).
- A version that a device reports as `__proto__` is counted but missing from the breakdown (`BreakdownListsEveryRow`).
- A year is seeded twice exactly when it comes back after another year was tried, as when the clock goes back (`NoYearIsSeededTwiceUnlessItReturns`, `ClockGoingBackSeedsTwice`).

## Model

| member | source | states |
|---|---|---|
| Calendar.DayNumberFollowsTheCalendar | crates/companion/src/dayparting.rs:83-97 | Over valid dates of the proleptic Gregorian calendar (leap rule of Appendix C of RFC 3339), the day count keeps the calendar's order in both directions |
| Calendar.DayNumberIsInjective | crates/companion/src/dayparting.rs:83-97 | No two valid dates share a day number |
| Calendar.SteppingInvertsDayNumber | crates/companion/src/dayparting.rs:83-97 | Whatever starts at the epoch and follows the calendar's successor at every integer is the inverse of the day count, for negative days too |
| CivilDate.EraIsTheFloor | crates/companion/src/dayparting.rs:85-86 | Rust's truncating division, with its correction for negative inputs, yields the floor era of every integer |
| CivilDate.YmdSuccessor | crates/companion/src/dayparting.rs:83-97 | For every integer day the closed form yields a valid date, and the next day yields its calendar successor |
| CivilDate.EpochIsDayZero | crates/companion/src/dayparting.rs:83-97 | Day 0 is 1970-01-01 |
| CivilDate.DayNumberOfYmd | crates/companion/src/dayparting.rs:83-97 | Counting the days to the date the closed form gives returns the day number, for every integer |
| CivilDate.YmdOfDayNumber | crates/companion/src/dayparting.rs:83-97 | The closed form returns every valid date from its day number |
| CivilDate.YmdIsExactly | crates/companion/src/dayparting.rs:83-97 | The closed form gives a date for a day exactly when the date is valid and has that day number |
| Dayparting.CycleIsOneLocalDay | crates/companion/src/dayparting.rs:76-81 | A year's cycle is announced on exactly one run of 86,400 consecutive seconds, for every pair of offsets, and never for a clock that does not fit an i64 |
| Dayparting.CyclesAreApart | crates/companion/src/dayparting.rs:76-81 | The runs of different years are ordered by year and at least 365 days apart from start to start |
| Dayparting.Observer.Observe | crates/companion/src/dayparting.rs:36-73 | One observation, with its early exits, against the step function |
| Dayparting.SeedsAreTheTries | crates/companion/src/dayparting.rs:36-73 | Over any observations and restarts, the years seeded are the years tried with consecutive repeats taken out; a year is tried by the first open sighting of a process, if it has a transport |
| Dayparting.NoYearIsSeededTwiceUnlessItReturns | crates/companion/src/dayparting.rs:36-73 | No year is seeded twice if and only if no year comes back after another one was tried |
| Dayparting.EachYearIsSeededOnce | crates/companion/src/dayparting.rs:36-73 | So while the announced years never go back, the seeds are increasing, each answers an announced year and the last one is the cycle stored |
| Dayparting.ClockGoingBackSeedsTwice | crates/companion/src/dayparting.rs:54-60 | For any two years there is a run, with a clock that goes back, that seeds the first, the other and the first again |
| Peers.DiffIsExactUnlessMasked | crates/core/src/peer.rs:780-846 | The incremental up and down edges agree with comparing the whole maps if and only if no useful peer is hidden behind the changed peer's device id |
| Peers.DistinctIdsAreNeverMasked | crates/core/src/peer.rs:780-846 | With one device id per address the edges are exact |
| Peers.SharedDeviceIdFakesAnEdge | crates/core/src/peer.rs:780-846 | Two addresses with one device id: a down edge is reported while a peer is still useful |
| Peers.UpEdgeNamesTheChangedPeer | crates/core/src/peer.rs:780-846 | Every up edge carries the changed peer's device |
| PeerActor.PeerActor.Handle | crates/core/src/peer.rs:318-338 | One command takes the whole state and everything sent to what the specification says |
| PeerActor.PeerActor.DoUpsert | crates/core/src/peer.rs:346-353 | A sighting calls a waiting removal off and renames or adds the peer, then the edges go out |
| PeerActor.PeerActor.DoEnsureExists | crates/core/src/peer.rs:355-364 | A known peer stays as it is; an unknown one is added and its edges go out |
| PeerActor.PeerActor.DoSet | crates/core/src/peer.rs:366-432 | The six setters: unknown peers are left alone, a link change may complete a waiting removal |
| PeerActor.PeerActor.DoRemove | crates/core/src/peer.rs:434-443 | A removal forgets the pin and the waiting removal, and sends edges only for a known peer |
| PeerActor.PeerActor.DoRemoveBluez | crates/core/src/peer.rs:445-452 | A BlueZ removal waits for a useful peer and removes any other |
| PeerActor.PeerActor.MaybeCompleteBluezRemoval | crates/core/src/peer.rs:454-458 | A waiting removal is completed once the peer is no longer useful |
| PeerActor.PeerActor.DoSeed | crates/core/src/peer.rs:477-516 | What a new client is sent, and in which order |
| PeerActor.PeerActor.DoResync | crates/core/src/peer.rs:518-561 | The stock connection is told again of a presented device, or of a disconnection |
| PeerActor.PeerActor.BroadcastDiff | crates/core/src/peer.rs:563-682 | The order in which a change is published, presented and its lost links torn down |
| PeerActor.PeerActor.PresentDiff | crates/core/src/peer.rs:610-654 | Up at once, down at once when a peer or its companion is gone, down after the grace period otherwise |
| PeerActor.PeerActor.ScheduleDisconnectFlush | crates/core/src/peer.rs:700-708 | A new generation, and one sleeper that carries it |
| PeerActor.PeerActor.DoFlush | crates/core/src/peer.rs:710-720 | Only a flush of the current generation that finds no useful peer ends the presentation |
| PeerRuns.EveryRunKeepsTheInvariant | crates/core/src/peer.rs:273-720 | In every reachable state: a useful peer is presented; a presentation without one has a flush of the current generation pending; a device is presented exactly while connected; the last status sent is the one presented; two downs have an up between them; only useful present peers wait for removal; the published snapshot is the peer map |
| PeerRuns.HandledKeepsTheInvariant | crates/core/src/peer.rs:318-338 | Each single command keeps all of that, from any state that has it |
| PeerRuns.ComputeDiffMissesNoEdge | crates/core/src/peer.rs:780-846 | Even with shared device ids no edge is missed: an edge is at most reported where there was none |
| PeerRuns.FlushIsStaleOrEndsThePresentation | crates/core/src/peer.rs:710-720 | A flush that comes back is stale and silent, or finds no useful peer and ends the presentation |
| PeerRuns.CommandDowns | crates/core/src/peer.rs:563-720 | A command shows the connection going down exactly when it is the flush of the current generation, or leaves a presentation without a useful peer whose peer or companion is gone, and then once |
| PeerRuns.DownsAreTheEndings | crates/core/src/peer.rs:563-720 | Over every run from a state with the invariant, the downs shown are exactly the commands that end the presentation |
| PeerRuns.BouncedLinkIsNeverShownDown | crates/core/src/peer.rs:610-720 | From a debounced loss to the return of a link, with no ending command in between, no down is shown, and every flush that was pending at the loss is stale from then on, whatever follows |
| PeerRuns.HandledPeers | crates/core/src/peer.rs:346-458 | The peers and waiting removals after a command, without reference to edges or events |
| PeerRuns.UsefulPeerLeavesOnlyOnPurpose | crates/core/src/peer.rs:434-458 | A useful peer leaves if and only if it is removed outright or its waiting removal meets the end of its link; BlueZ alone never drops it |
| PeerRuns.WaitingRemovalEndsWithTheLink | crates/core/src/peer.rs:445-458 | A waiting removal completes in the command that ends the link, or is called off by a sighting |
| PeerRuns.EveryLostLinkIsTornDownOnce | crates/core/src/peer.rs:656-681 | Gateway and companion tear-downs are sent exactly once per link that a command ends, also when it completes a removal, and at no other time |
| PeerRuns.OnlyTheSubjectChanges | crates/core/src/peer.rs:346-458 | A command leaves every other address as it was |
| PeerPresentation.HandledDevice | crates/core/src/peer.rs:610-655 | After any command the device presented is that of the peer it brought up while no other was useful, none if it ended the presentation, and the one presented before otherwise |
| PeerPresentation.PresentedDeviceIsUseful | crates/core/src/peer.rs:610-655 | Once the presented device carries the id of a useful peer, as it does when the peer comes up, it does so in every run in which the peer stays useful under that id, whatever happens to the others |
| PeerPresentation.ShowsAUsefulPeerExactly | crates/core/src/peer.rs:610-655 | A command leaves a useful peer's device presented if and only if it brought a peer up, which is then the one shown, or some peer useful after it has the id of the device presented before |
| PeerPresentation.PresentedDeviceCanBeStale | crates/core/src/peer.rs:610-655 | From any state without a useful peer: two new peers come up and the first loses its link; its device is still presented though only the other is useful |
| PeerPairing.PairingsAreAnnounced | crates/core/src/peer.rs:318-482 | Whatever the command, a pairing result is announced once for a peer that becomes paired and once for a confirmed pin, the paired devices are sent exactly when a peer's pairing changed, and a pin is pending from when it is shown until it is confirmed or its peer is paired or removed |
| PeerPairing.SetPairedPairs | crates/core/src/peer.rs:366-375 | Setting a peer's pairing writes that alone; it announces a result and settles the pin exactly when the peer was not paired and is |
| PeerPairing.SetterWritesItsField | crates/core/src/peer.rs:366-432 | Each setter writes its own field of its peer and no other |
| PeerPairing.SightingWritesThePeer | crates/core/src/peer.rs:346-364 | A sighting makes an unpaired peer without links or renames the one there is |
| PeerPairing.LostLinksAreAnnounced | crates/core/src/peer.rs:656-681 | A gateway's routes are torn down exactly when its peer's companion was pending or connected and is neither, a companion is given up exactly when it was connected and is not |
| PeerPairing.ResultsAreThePairings | crates/core/src/peer.rs:318-482 | Over every run the results announced are the peers that became paired and the pins confirmed |
| PeerTold.SeededClientFollows | crates/core/src/peer.rs:477-516 | From any reachable state, a client that is seeded shows, after whatever commands follow, exactly the peers, the device and the connection that are presented |
| PeerTold.EarlyClientFollows | crates/core/src/peer.rs:563-720 | So does one that heard everything from the start, and the stock application is told the device that is presented |
| PeerTold.ResyncTellsAfresh | crates/core/src/peer.rs:518-561 | A resync tells the stock application the device that is presented or that there is none, whatever it showed, and sends the player's state and the volume exactly when there is a connection |
| PeerTold.ConnectionFollowsTheLinks | crates/core/src/peer.rs:610-720 | The connection shown is up exactly while some peer's iAP2 session is identified or its companion connected, or a flush of the current generation is pending |
| SessionBridge.EventBridge.OnEvent | mobile/lib/bridge.ts:48-55 | An event is added to every buffer of a reconcile under way and then delivered |
| SessionBridge.EventBridge.Deliver | mobile/lib/bridge.ts:40-46 | A resumed event reconciles with its snapshot, any other is applied |
| SessionBridge.EventBridge.ApplyToSession | mobile/lib/session.ts:91-156 | The session reducer, case by case |
| SessionBridge.EventBridge.ResyncOnReconnect | mobile/lib/session.ts:193-204 | At most one reconcile is under way for reconnects |
| SessionBridge.EventBridge.BeginReconcile | mobile/lib/bridge.ts:57-61 | A reconcile starts with an empty buffer of its own |
| SessionBridge.EventBridge.FinishReconcile | mobile/lib/bridge.ts:60-66 | The store becomes the snapshot with the buffered events replayed over it in order |
| SessionBridge.EventBridge.EndReconcile | mobile/lib/bridge.ts:64-66 | The buffer goes away, also when the snapshot failed |
| SessionBridge.LevelledWorldsStayLevelled | mobile/lib/session.ts:91-156 | Two worlds that one event would make equal stay so under any other event |
| SessionBridge.FoldIsIdempotent | mobile/lib/bridge.ts:60-63 | Replaying a sequence of events over its own result changes nothing |
| SessionBridge.RunKeepsTheInvariant | mobile/lib/bridge.ts:38-67 | Over every interleaving, each buffer followed by the undelivered events leads from its snapshot to the native world |
| SessionBridge.StoreConverges | mobile/lib/bridge.ts:38-67 | Once any reconcile has completed, the undelivered events bring the store to the native world, however reconciles overlap, fail or finish out of order; at rest the two are equal |
| SessionFields.DeliveredFieldByField | mobile/lib/session.ts:91-156 | A delivered event leaves in each field it names what it carries, and every other field as it was |
| SessionFields.DisconnectedPeerIsGone | mobile/lib/session.ts:112-118 | After a disconnect the peer is not listed, nor its device's entry, and nothing else has changed |
| SessionFields.LastWriteIsShown | mobile/lib/session.ts:91-156 | Over every run of events, a field holds what the last event to write it wrote |
| SessionFields.UnwrittenFieldStays | mobile/lib/session.ts:91-156 | and a field that none writes holds what it held |
| SessionFields.FieldsMakeTheWorld | mobile/lib/session.ts:91-156 | These fields are all there is in the store |
| SessionRuns.ReconnectStartsOneReconcile | mobile/lib/session.ts:193-204 | A connected peer starts a reconcile exactly when none is under way for reconnects, no other event does, and every buffer gets the event |
| SessionRuns.EndedReconcileIsForgotten | mobile/lib/bridge.ts:64-66 | A reconcile that ended leaves the others under way and lets the next reconnect start one |
| SessionRuns.OneReconcileIsEnough | mobile/lib/bridge.ts:38-67 | From wherever a run has come, one more reconcile and the deliveries left make the store the native world |
| InstallCensus.Census.RecordInstalled | site/worker/installs.ts:82-160 | A report is refused, written as a full replace, or found to change nothing; the counts stay right |
| InstallCensus.Census.RecordCandidates | site/worker/installs.ts:113-159 | The delta written for the counted apps leaves what a full replace leaves |
| InstallCensus.Census.CollectCandidates | site/worker/installs.ts:103-107 | Malformed apps are skipped and the last entry of an app wins |
| CensusReports.CandidatesAreLastReported | site/worker/installs.ts:99-107 | The candidates are exactly the apps reported, each in the version of its last entry |
| CensusReports.ReportIsAnsweredExactly | site/worker/installs.ts:85-157 | A report is answered if and only if it is well formed and changes nothing of a known device or is admitted; a refused one, and one that changes nothing, writes nothing, any other stamps the device |
| CensusReports.ReportedAppsAreTheRows | site/worker/installs.ts:99-157 | An answered report leaves a row for exactly each app it reported of the official catalog or of a source listed and not held back, in the version reported last, and answers with those |
| CensusReports.OtherDevicesAreLeftAlone | site/worker/installs.ts:133-157 | The rows and the stamps of other devices stay |
| InstallCensus.DeltaIsFullReplace | site/worker/installs.ts:120-157 | The delta deletes rows that are there, inserts no key still held, and yields the full replace |
| InstallCensus.DeltaIsEmptyExactlyWhenNothingChanges | site/worker/installs.ts:120-131 | The no-write exit is taken if and only if a full replace would change nothing |
| InstallCensus.FullReplaceRowByRow | site/worker/installs.ts:120-157 | The device's rows are the counted apps, a kept key keeps its time and a new one gets now, other devices are untouched |
| InstallCensus.FullReplaceIsIdempotent | site/worker/installs.ts:120-157 | The same report again, at a later time, changes no row |
| InstallCensus.InsertKeepsCounts | site/migrations/0001_directory.sql:47-52 | The insert trigger keeps the count of devices per app version right |
| InstallCensus.DeleteKeepsCounts | site/migrations/0001_directory.sql:54-60 | The delete trigger keeps it right and drops counts that reach zero |
| InstallCensus.CountsAreDetermined | site/migrations/0001_directory.sql:47-60 | The rows leave only one right table of counts |
| InstallCensus.ToInstallCounts | site/worker/installs.ts:168-181 | One pass over the count rows sums the devices of each app and lists its versions, but for one called `__proto__`, under which a plain object keeps no number |
| InstallCensus.BreakdownListsEveryRow | site/worker/installs.ts:168-181 | The versions listed for an app are exactly those of its rows other than `__proto__`, each with its devices |
| CensusReports.CountsCanBeListed | site/worker/installs.ts:162-164 | Every table of counts can be listed as the SELECT does, two versions of one app on rows of their own |
| InstallCensus.InstallCountIsDevicesHoldingTheApp | site/worker/installs.ts:162-181 | The published count of an app is the number of devices that hold it, whatever the order of the rows |
| RateLimits.RateLimiter.TakeToken | site/worker/limits.ts:41-54 | The upsert: a row of another window starts over, a row of this window counts up to the limit |
| RateLimits.RateLimiter.PruneTokens | site/worker/limits.ts:56-59 | Exactly the rows older than the horizon go |
| RateLimits.WindowsFollowTheClock | site/worker/limits.ts:36-39 | Windows never go back while the clock does not, with JavaScript's remainder and before the epoch too |
| RateLimits.UnprunedWindowsAreExact | site/worker/limits.ts:41-54 | Without pruning, each counter is granted exactly the attempts of each window up to the allowance |
| RateLimits.PrunedRunAgrees | site/worker/limits.ts:56-59 | Pruning anywhere in a run changes no answer, for windows up to one second longer than the horizon |
| RateLimits.EveryWindowIsExact | site/worker/limits.ts:34-59 | With any pruning, exactly min(attempts, limit) calls succeed per bucket, key and window for limits of one or more, and one call for a limit of zero |
| RateLimits.PrunedWindowIsGrantedAgain | site/worker/limits.ts:34-59 | The horizon is exact: for every window longer than it by more than a second there is a time at which a prune has a used-up window granted again |
| RateLimits.ShippedLimitsAreValid | site/worker/limits.ts:6-34 | No shipped window outlives the horizon |
| CatalogRefresh.CatalogTable.Stalest | site/worker/catalogs.ts:87-103 | The targets: the official catalog while it has no row, then the eligible rows checked longest ago, within the budget |
| CatalogRefresh.CatalogTable.Refresh | site/worker/catalogs.ts:105-124 | A round probes the targets and records every answer, or nothing at all when the body of one of them breaks off (site/worker/probe.ts:22-51) |
| CatalogRefresh.CatalogTable.RecordProbe | site/worker/catalogs.ts:66-79 | A fetch stores a row, an unchanged or failed probe only stamps an existing one |
| CatalogRefresh.TextOrderIsLexicographic | site/worker/catalogs.ts:94 | Where the times tie, addresses are ordered by their first difference |
| CatalogRefresh.LeftOutComesAfter | site/worker/catalogs.ts:87-103 | Every row a round leaves out comes after every row it takes |
| CatalogRefresh.TargetsAreTheFirstRows | site/worker/catalogs.ts:87-103 | An eligible row is among the targets if and only if fewer catalogs come before it than rows are probed |
| CatalogRefresh.AllRecordedRowByRow | site/worker/catalogs.ts:118-121 | In a round that is recorded, each probed row is stamped with the round's time, every other row is as it was |
| CatalogRefresh.RecordedRowFieldByField | site/worker/catalogs.ts:27-79 | The row a recorded probe leaves, field by field: a fetch writes all of it, an unchanged answer the validators, a failure its reason |
| CatalogRefresh.RefreshedRowByRow | site/worker/catalogs.ts:113-121 | A round changes a row if and only if it probed it and no probe of the round broke off |
| CatalogRefresh.BodyIsTheLastReadableOne | site/worker/catalogs.ts:66-121 | A body is replaced exactly by a readable fetch in a round none of whose probes broke off |
| CatalogRefresh.ProbedExactlyWhenReached | site/worker/catalogs.ts:66-124 | Over every run with an advancing clock, every budget and any answers, an eligible catalog is probed if and only if fewer catalogs come before it than the places of the recorded rounds before the last and of the last round itself |
| CatalogRefresh.RecordedExactlyWhenGained | site/worker/catalogs.ts:66-124 | and its answer is recorded if and only if fewer come before it than the places of the recorded rounds |
| CatalogRefresh.EverProbedExactlyWhenReached | site/worker/catalogs.ts:66-124 | The same for endless runs |
| CatalogRefresh.NoCatalogIsStarved | site/worker/catalogs.ts:66-124 | With an advancing clock every eligible catalog is recorded once ceil(n / places) rounds are |
| CatalogRefresh.BudgetOfTwoStarvesNobody | site/worker/catalogs.ts:66-124 | For every budget of two or more the bound is ceil(n / (budget - 1)) recorded rounds, even while the official row is missing |
| CatalogRefresh.AnsweredRoundsAreRecorded | site/worker/catalogs.ts:113-121 | While no body breaks off every round is recorded, so these bounds count all rounds |
| CatalogRefresh.StallingSourceStopsTheRotation | site/worker/probe.ts:22-51 | A source whose body always breaks off: at any budget and over any number of rounds, no catalog behind it is ever recorded again, and none a whole budget behind it is ever probed |
| CatalogRefresh.StallingTargetFreezesTheTable | site/worker/catalogs.ts:113-121 | Once it is among the targets, no round is recorded and exactly those targets are probed |
| CatalogRefresh.NoPlaceStarvesEveryRow | site/worker/catalogs.ts:87-103 | With a budget of one, no row is probed before the round after the first fetch of the missing official catalog |
| CatalogRefresh.FetchedOfficialFreesItsPlace | site/worker/catalogs.ts:66-124 | and after that fetch every eligible row is recorded within as many recorded rounds as there are eligible rows |
| CatalogRefresh.NoBudgetProbesNothing | site/worker/catalogs.ts:87-103 | A budget of zero probes nothing |
| CatalogRefresh.OthersAreNeverProbed | site/worker/catalogs.ts:90-96 | A catalog that is neither official nor of a source in quarantine, listed or attested is never probed, whatever the budget |
| CatalogRefresh.ServedCatalogIsRecorded | site/worker/catalogs.ts:66-124 | and every other one that has a row is recorded within the bound |
| CatalogRefresh.CatalogsStarveExactlyWithoutAPlace | site/worker/catalogs.ts:66-124 | Over every endless run with an advancing clock in which rounds keep being recorded, an eligible catalog is probed some time if and only if the budget is two or more, or is one and the official catalog has a row or is ever fetched |
| StableSort.SortArranges | mobile/lib/diagnostics.ts:60-71 | The sort is sorted and keeps the elements of each key in their order |
| StableSort.SortedArrangementIsUnique | mobile/lib/diagnostics.ts:60-71 | That leaves one result only |
| StableSort.SortOfConcat | mobile/lib/diagnostics.ts:163-179 | Sorting a concatenation is merging the two sorts, the first one first at ties |
| StableSort.FirstOfSortIsLeast | site/manifest/generate.ts:99-105 | The first wanted element of a sorted list is the least wanted element of the list |
| DiagnosticsLog.Appended | mobile/lib/diagnostics.ts:60-71 | The scan for a line out of order, then the sort only where there is one |
| DiagnosticsLog.MergeLogs | mobile/lib/diagnostics.ts:163-179 | The two-index merge is the stable merge, capped |
| DiagnosticsLog.AppendIsACappedSort | mobile/lib/diagnostics.ts:60-71 | From a buffer in order, either branch leaves the last lines of the stable sort |
| DiagnosticsLog.EarlyCappingLosesNothing | mobile/lib/diagnostics.ts:54-71 | Any sequence of batches leaves exactly the last LOG_LIMIT lines of the stable sort of everything fed |
| DiagnosticsLog.MergingCappedBuffers | mobile/lib/diagnostics.ts:163-179 | Merging two capped buffers shows the end of the merge of the uncapped ones |
| DiagnosticsLog.ScreenShowsTheLastOfEverything | mobile/lib/diagnostics.ts:54-179 | What is displayed is the last LOG_LIMIT lines of everything fed to both buffers |
| DiagnosticsLog.LogStore.Ingest | mobile/lib/diagnostics.ts:107-115 | A line joins its pending batch only while something streams, and the batch keeps its last lines by arrival |
| DiagnosticsLog.LogStore.FlushPending | mobile/lib/diagnostics.ts:73-84 | Both batches are appended and emptied |
| DiagnosticsLog.LogStore.SeedLogs | mobile/lib/diagnostics.ts:117-126 | One buffer is replaced and its batch dropped |
| DiagnosticsLog.LogStore.ClearDeviceLogs | mobile/lib/diagnostics.ts:145-148 | Everything is emptied and the timer stopped |
| DiagnosticsLog.PendingIsTheLastToArrive | mobile/lib/diagnostics.ts:107-115 | Over every run, a pending batch holds the last lines that arrived while something streamed |
| DiagnosticsLog.StoreHoldsTheLastOfTheGiven | mobile/lib/diagnostics.ts:73-149 | After every run of ingests, flushes, ordered seeds and clears, a buffer holds the last lines of the stable sort of all it was given |
| DiagnosticsLog.ScreenShowsTheLastOfTheGiven | mobile/lib/diagnostics.ts:73-179 | and the screen shows the last lines of everything given to both buffers |
| DiagnosticsLog.UnsortedSeedStaysUnsorted | mobile/lib/diagnostics.ts:60-126 | A seed out of order stays so when later lines are flushed |
| LogTimer.FlushIsUnderWayExactly | mobile/lib/diagnostics.ts:73-100 | Over every run a flush is under way if and only if a line arrived while something streamed and nothing was flushed or cleared since |
| LogTimer.PendingLinesAreFlushed | mobile/lib/diagnostics.ts:85-115 | so no line waits without one |
| PendingLog.BuffersAreRightExactlyWithFaithfulSeeds | mobile/lib/diagnostics.ts:73-149 | A buffer is the end of the stable sort of what it was given at every moment of a run if and only if every seed keeps only lines in time order and cuts off none that would be missed |
| PendingLog.PlaceOfALine | mobile/lib/diagnostics.ts:60-71 | Where a line stands in a stable sort: before exactly the later lines and the lines of its time that came after it |
| PendingLog.PendingCapIsHarmlessExactly | mobile/lib/diagnostics.ts:107-115 | For lines with ids of their own, the cap on the batch loses nothing if and only if every line it pushes out has at least LOG_LIMIT lines sorting after it |
| PendingLog.PendingCapIsHarmlessInOrder | mobile/lib/diagnostics.ts:107-115 | While lines arrive in time order the cap on the batch loses nothing |
| PendingLog.PendingCapCanLoseTheLatestLine | mobile/lib/diagnostics.ts:107-115 | Any full burst of earlier lines pushes out the latest one before it is sorted |
| TraceLog.TraceFileWorker.constructor | crates/core/src/monitoring.rs:206-219 | Opening keeps the file that is there and counts its length |
| TraceLog.TraceFileWorker.Append | crates/core/src/monitoring.rs:247-256 | A write goes to the current file, which rotates first when the write would take it over the cap |
| TraceLog.TraceFileWorker.Rotate | crates/core/src/monitoring.rs:258-276 | Every file moves up one number, the oldest goes, the current one starts empty, with gaps in the set too |
| TraceLog.AppendSpellsTheEnd | crates/core/src/monitoring.rs:247-276 | The files, oldest first, spell the end of what was appended, cut between two writes |
| TraceLog.AppendKeepsTheFit | crates/core/src/monitoring.rs:247-276 | At most KEEP + 1 files, each within the cap or one oversized write |
| TraceLog.RunKeepsTheInvariant | crates/core/src/monitoring.rs:189-283 | Over every interleaving of producers and worker each event offered is written, in hand, queued or counted as dropped exactly once, and accepted events keep their order |
| TraceLog.StoppedProcessLeavesATail | crates/core/src/monitoring.rs:258-276 | Stopped between two appends or between two renames of a rotation, a process leaves files that, once opened, fit and spell an end of what was appended; only the oldest can be gone |
| TraceLog.TraceIsAFaithfulTail | crates/core/src/monitoring.rs:189-283 | All of this from an empty directory on and after any number of processes, each stopped at any such point |
| TraceLog.BytesAreATailToo | crates/core/src/monitoring.rs:247-276 | In bytes: what the files hold is the end of the byte stream |
| TraceKept.AppendKeepsPacked | crates/core/src/monitoring.rs:247-276 | A rotated file and the first write of the file after it never fit under the cap together |
| TraceKept.NothingIsDroppedEarly | crates/core/src/monitoring.rs:189-283 | Over every run from files kept in full, everything appended is still there or the files hold more than twice the cap |
| TraceKept.ShortTraceIsKept | crates/core/src/monitoring.rs:189-283 | From an empty directory, whatever comes to no more than twice the cap is there in full |
| TraceDrains.EverythingIsWrittenOrReported | crates/core/src/monitoring.rs:189-283 | From wherever a run has come, there is a way on, with any one event more, after which every event ever offered is written or reported as dropped, and the accepted ones are written in order |
| TraceDrains.NoteNamesItsCount | crates/core/src/monitoring.rs:189-283 | A note of dropped events carries their number in decimal |
| TraceDrains.LeftFilesAreTheStages | crates/core/src/monitoring.rs:258-276 | The files a process can leave are those it had and those after each removal and rename of a rotation |
| TraceLog.FirstProcessStartsRight | crates/core/src/monitoring.rs:206-219 | An empty trace directory is such a start |
| FilePlacement.StagingIsBesideTheDestination | crates/core/src/paths.rs:219-224 | The staged file is in the destination's directory and is not the destination |
| FilePlacement.Disk.RenameOrCopy | crates/core/src/paths.rs:191-202 | Under any script of operations, a file that is there ends at the destination and nowhere else if and only if none breaks, a rename that crosses devices being no break; after every operation the destination holds its earlier content or the whole payload, which is whole at one of the two ends; a staged file or a copied source stays only where it could not be removed |
| FilePlacement.Disk.WriteIntoPlace | crates/core/src/paths.rs:204-217 | Succeeds if and only if no operation breaks; the destination changes only to the whole payload, and a failed copy whose clean-up works leaves the disk as it was |
| FilePlacement.Disk.CopyInto | crates/core/src/paths.rs:204-217 | A copy in chunks touches only the staged file, and succeeds, with the whole payload there, if and only if no read or write breaks |
| ReleaseManifest.ListedReleaseIsInItsOwnList | site/manifest/validate.ts:34-101 | Where the lists are right, a listed version is a release and stands in the list of its own channel |
| ReleaseManifest.NoTwoPlacesHoldOneVersion | site/manifest/validate.ts:65-82 | Two places of right lists that hold one version are the same place, or both in the channel whose id is empty |
| ReleaseManifest.EmptyIdMayListAVersionTwice | site/manifest/validate.ts:76-81 | A manifest that the cross-reference check accepts although a channel without an id lists its release twice |
| ReleaseManifest.PassingLacksOnlyALatest | site/manifest/validate.ts:50-63 | What the cross-reference check lets through is well formed if and only if every latest is a release |
| ReleaseManifest.InheritedLatestPasses | site/manifest/validate.ts:50-63 | For any name that objects inherit and that is a version, such as `toString`, a manifest that keeps the schema's rules and passes though its latest is no release |
| ManifestValidate.ValidateInvariants | site/manifest/validate.ts:34-101 | No error is reported if and only if keys match versions, the lists partition the releases by channel, at most one channel is the default, and every latest is a release, installable whenever its channel has an installable one, or a name objects inherit while its channel lists nothing installable |
| ManifestValidate.CheckReleases | site/manifest/validate.ts:37-46 | No error exactly when every key is its release's version and every release names a channel there is, or a name objects inherit |
| ManifestValidate.ListedReleasesNameAChannel | site/manifest/validate.ts:37-89 | Where the lists are right and leave no release out, the second does not happen |
| ManifestValidate.CheckList | site/manifest/validate.ts:65-82 | No error exactly when a channel lists its own releases, each once and nowhere else so far; the versions seen are recorded |
| ManifestValidate.CheckChannels | site/manifest/validate.ts:48-83 | No error exactly when every channel's list is right and every latest passes |
| ManifestValidate.CheckOrphans | site/manifest/validate.ts:85-89 | No error exactly when every release was seen in a list |
| ManifestValidate.CheckDefaults | site/manifest/validate.ts:91-96 | No error exactly when at most one channel is the default |
| ManifestGenerate.IndexBy | site/manifest/generate.ts:125-135 | An index is built exactly when no key repeats or is a name objects inherit |
| ManifestGenerate.CollectReleases | site/manifest/generate.ts:50-88 | Succeeds exactly when no version repeats and every bundle is known: a bumped component has a release of that version, another one such a release or a name objects inherit, and the channel is one there is |
| ManifestGenerate.Build | site/manifest/generate.ts:42-120 | Succeeds exactly on valid inputs |
| ManifestValidate.Validate | site/manifest/validate.ts:103-107 | Accepts exactly the manifests that keep the schema's rules and pass the cross-reference check |
| ManifestGenerate.BuiltConformsExactlyWhenTheInputDoes | site/manifest/schema.v1.json:34-71 | What is built keeps the schema's rules if and only if there is a bundle, every bundle has a slug, a version and no empty yank reason, and every channel in use a name of 1 to 50 characters |
| ManifestGenerate.Generate | site/manifest/generate.ts:42-123 | Succeeds exactly on valid inputs that keep the schema's rules and have at most one default channel in use, with the manifest that was built, which is well formed: its latests are all releases |
| ManifestGenerate.ConformingInputsOnlyNeedOneDefault | site/manifest/generate.ts:42-123 | For such inputs no cross-reference other than the default can fail |
| ManifestGenerate.LatestIsTheNewest | site/manifest/generate.ts:92-106 | The latest of a channel is its newest bundle that looks installable, or some bundle when none does |
| ManifestGenerate.BuiltIsWellFormedExactlyWhenAcceptable | site/manifest/validate.ts:34-101 | By the cross-reference check alone, what is built passes, and is well formed, if and only if at most one channel in use is a default and no empty yank reason hides an installable release |
| ManifestGenerate.EmptyReasonIsTurnedDown | site/manifest/generate.ts:92-106 | For any two such bundles of a channel, what is built is turned down by the cross-reference check, and by the schema |
| ManifestGenerate.OrdinaryInputsAreAccepted | site/manifest/generate.ts:42-123 | Without empty yank reasons and with one default, everything built is accepted |
| ManifestGenerate.InheritedDaemonIsKnown | site/manifest/generate.ts:137-147 | For any bundle of a new image whose daemon version is a name objects inherit, an input without daemon releases that the generator accepts |
| InputFaults.InvalidInputsHaveAFault | site/manifest/generate.ts:42-88 | An input is refused if and only if a version or a slug repeats, a key is a name objects inherit, or a bundle lacks a release or a channel or bumps nothing |
| ManifestContents.BuiltReleasesAreTheBundles | site/manifest/generate.ts:65-85 | The releases are the bundles, each under its composite version with its own fields |
| ManifestContents.BuiltChannelsAreTheOnesNamed | site/manifest/generate.ts:90-108 | The channels are those of the input that some bundle names, each with its own name and default |
| ManifestContents.BuiltListHoldsItsBundles | site/manifest/generate.ts:92-106 | A channel lists exactly the versions of its own bundles |
| ManifestContents.BuiltListIsNewestFirst | site/manifest/sources.ts:81-83 | newest first, and bundles of one time as the input has them |
| ManifestContents.BuiltLatestIsTheNewest | site/manifest/generate.ts:105 | Its latest is at least as new as each of its bundles that is not deprecated and has no reason to be yanked, and is one of those if there are any |
| ManifestNames.SlugsMatchThePattern | site/manifest/schema.v1.json:58-64 | The slugs are what the schema's pattern and length admit |
| ManifestNames.VersionsMatchThePattern | site/manifest/schema.v1.json:65-71 | So are the versions |
| ManifestNames.ParsingInvertsComposing | site/manifest/changelog.ts:41-54 | A composite version is taken apart into the components it was made of |
| ManifestNames.ComposingInvertsParsing | site/manifest/changelog.ts:41-54 | and whatever can be taken apart is put together again |
| AffectedCrates.OwnerIsLongest | scripts/ci-affected-crates.py:53-60 | A path belongs to the member with the longest directory above it, or to none |
| AffectedCrates.OwnerIsTheOnlyOne | scripts/ci-affected-crates.py:53-60 | No two directories of one length lie above a path |
| CrateOwners.MembersAreThePackages | scripts/ci-affected-crates.py:47-51 | The members are the packages, one for each name, with the directory of the last package of the name |
| CrateOwners.MembersStandInOrder | scripts/ci-affected-crates.py:47-51 | in the order in which the names are first mentioned |
| CrateOwners.DirectoriesCoverByParts | scripts/ci-affected-crates.py:58 | A directory covers a path exactly when its parts between slashes are the first parts of the path's |
| CrateOwners.WidePathsBegin | scripts/ci-affected-crates.py:14-39 | A path is wide exactly when it is one of the wide beginnings with anything or nothing after it |
| AffectedCrates.FindOwner | scripts/ci-affected-crates.py:57-60 | The first owner of the sorted list is found |
| AffectedCrates.CollectTouched | scripts/ci-affected-crates.py:53-60 | The touched members are the owners of the changed paths |
| AffectedCrates.CollectDependents | scripts/ci-affected-crates.py:66-70 | Each member is mapped to the packages that depend on it |
| AffectedCrates.CollectAffected | scripts/ci-affected-crates.py:72-79 | The worklist terminates with exactly the names that reach a touched member through dependencies |
| AffectedCrates.ClosedSetHoldsTheChain | scripts/ci-affected-crates.py:72-79 | A set closed under dependents holds every chain that ends in it |
| AffectedCrates.AffectedFlags | scripts/ci-affected-crates.py:29-86 | A wide change builds the workspace; otherwise exactly the packages that reach the owner of a changed path, without the skipped ones |
| RefreshGenerations.CatalogPage.RefreshCatalog | mobile/lib/catalog.ts:141-155 | A caller joins or starts the newest run over its own sources |
| RefreshGenerations.CatalogPage.OnDirectory | mobile/lib/catalog.ts:157-172 | The directory's answer, or its failure, is written only for the newest run |
| RefreshGenerations.CatalogPage.OnSources | mobile/lib/catalog.ts:174-182 | The sources' snapshot, or a failure for each of them, is written only for the newest run |
| RefreshGenerations.CatalogPage.OnBothAnswered | mobile/lib/catalog.ts:184-185 | Only the newest run ends the refreshing |
| RefreshGenerations.CatalogPage.OnSettled | mobile/lib/catalog.ts:146-148 | A settled run stops being joined, and no other run does |
| RefreshGenerations.EveryRunKeepsTheInvariant | mobile/lib/catalog.ts:138-186 | Over every interleaving, the page refreshes exactly while the newest run is unfinished, exactly an unsettled newest run can be joined, and what it has fetched is what is shown |
| RefreshGenerations.SupersededRunsLeaveNoTrace | mobile/lib/catalog.ts:138-186 | Every run of the page ends as it would without any answer of a superseded run |
| RefreshGenerations.QuietPageShowsTheNewestRun | mobile/lib/catalog.ts:138-186 | A page that has stopped refreshing shows the newest run's answers |
| RefreshGenerations.AnswerIsShown | mobile/lib/catalog.ts:174-182 | The newest run's answer shows the snapshot fetched, or no catalog and one failure for each of its sources in their order; an answer of any other run shows nothing |
| RefreshGenerations.CallOpensARun | mobile/lib/catalog.ts:141-155 | A call leaves the newest run over its own sources, and opens one exactly when it cannot join |
| RefreshGenerations.NewestRunCanFinish | mobile/lib/catalog.ts:157-186 | Wherever the page has come, its newest run can finish and leave it quiet |
| SourceList.Subscriber.AnswerHeldSources | mobile/lib/catalog.ts:109 | The core answers a refresh with the list it holds then |
| SourceList.Subscriber.LandHeldSources | mobile/lib/catalog.ts:110-111 | The answer is shown when it lands |
| SourceList.Subscriber.RewriteSources | mobile/lib/catalog.ts:119-135 | A rewrite waits behind those requested before it |
| SourceList.Subscriber.AnswerWrite | mobile/lib/catalog.ts:109-123 | The core answers the read of the first rewrite waiting |
| SourceList.Subscriber.BeginWrite | mobile/lib/catalog.ts:103-123 | The rewrite starts from that answer, which is shown, or from what is shown if the read failed |
| SourceList.Subscriber.CommitWrite | mobile/lib/catalog.ts:122-135 | The core's list changes only through a change that applies and is accepted, also when the core's answer then fails |
| SourceList.Subscriber.LandWrite | mobile/lib/catalog.ts:125-132 | The saved list is shown when it lands, and the next rewrite may start |
| SourceList.RewriteIsRightExactlyWhenSafe | mobile/lib/catalog.ts:119-135 | Rewriting an outdated list comes to the same as rewriting the core's if and only if the change is safe from it, told from the two lists |
| SourceList.RewritesAreSerialised | mobile/lib/catalog.ts:103-136 | Over every interleaving of requests, answers, landings and failures, the core's list is the accepted changes one after another at every moment if and only if every rewrite whose read failed started from a list that was safe |
| SourceList.DecidedInOrder | mobile/lib/catalog.ts:117-136 | Changes are decided in the order they were requested, none twice and none left out |
| SourceList.UnreadRewriteIsExactWhenSafe | mobile/lib/catalog.ts:103-136 | After a failed first read a change comes out right if and only if it does to an empty list what it does to the core's |
| SourceList.UnreadAddDropsTheRest | mobile/lib/catalog.ts:103-136 | Adding a source then replaces every source held |
| SourceList.LateAnswerLosesAnAcceptedChange | mobile/lib/catalog.ts:103-136 | A run in which a refresh's answer lands late, the next read fails and a source that was added and accepted is lost |
| SourceShown.LandingsAreShown | mobile/lib/catalog.ts:103-136 | Over every interleaving, what is shown changes only when something lands: a refresh's answer shows the list the core held when it gave it, a rewrite's read and save show the list the core holds |
| SourceShown.AnswersAreTheListsAsked | mobile/lib/catalog.ts:103-115 | The answers still to land are those given and not landed, each with the core's list of its time |
| SourceShown.FirstChangeCanBeMade | mobile/lib/catalog.ts:119-136 | From rest the first change waiting can be made, and takes its effect |
| SourceList.MoveShiftsOneSource | mobile/lib/catalog.ts:231-240 | A move is possible exactly when source and place exist; it puts the source there and keeps the order of the others |
| SourceList.MoveBackUndoes | mobile/lib/catalog.ts:231-240 | Moving back by as much restores the list |
| SourceList.RemoveUndoesAdd | mobile/lib/catalog.ts:222-247 | Removing a source just added restores the list |
| SourceList.SubscriptionsAreDistinct | crates/delivery/core/src/catalog.rs:180-189 | The core keeps each address once and a list without repeats as it is |
| BoundedCache.LruCache.Get | mobile/lib/bounded-cache.ts:9-15 | A hit moves the key to the end, a miss or a stored undefined changes nothing |
| BoundedCache.LruCache.Put | mobile/lib/bounded-cache.ts:16-23 | The key goes last and the oldest go until the limit is met, also for limits of zero or less |
| BoundedCache.CacheIsTheMostRecentKeys | mobile/lib/bounded-cache.ts:6-25 | After every history the cache holds exactly the limit most recent distinct keys, in that order, with the values last given |
| BoundedCache.LookupMovesWhatItFinds | mobile/lib/bounded-cache.ts:9-15 | After every history, a lookup that finds a value makes its key the last used and keeps the order of the others; one that finds none changes nothing |
| BoundedCache.LookupIsExact | mobile/lib/bounded-cache.ts:9-15 | A key is still held if and only if fewer than limit other keys were accessed since |
| RecentKeys.HeldWhileFewOthersCame | mobile/lib/bounded-cache.ts:6-25 | The same of the recency order itself |
| RecentKeys.RecentIsDistinct | mobile/lib/bounded-cache.ts:6-25 | The recency order lists every accessed key once |
| IconCache.IconStore.Get | mobile/lib/icon-cache.ts:50-60 | The body and whether it is fresh; an entry that cannot be parsed is removed |
| IconCache.IconStore.Set | mobile/lib/icon-cache.ts:61-68 | For a limit that is not negative: the oldest entries go, the icon and the index are written, in memory and in the store |
| IconCache.WriteReturnsExactlyForALimit | mobile/lib/icon-cache.ts:64 | The loop of a write ends if and only if the limit is not negative; with -1 it goes on shifting an empty list |
| IconCache.EveryRunKeepsTheInvariant | mobile/lib/icon-cache.ts:29-70 | For every limit that is not negative and every run with restarts, garbled entries and writes cut short, the index has no repeats, is within the limit and agrees with its copy in memory, and an icon is stored without being listed exactly when it is stranded |
| IconCache.StorageIsBounded | mobile/lib/icon-cache.ts:61-68 | How many icons are stored, exactly: those listed, less the listed ones that are missing, and the stranded; so whether they pass the limit |
| IconCache.StrandedIconStays | mobile/lib/icon-cache.ts:50-68 | A stranded icon stays so until it is written whole, or garbled and looked up |
| IconCache.CutWriteStrandsItsIcon | mobile/lib/icon-cache.ts:61-68 | A first write cut short followed by any writes that fit the index: one icon is stranded and one more stored than listed |
| IconCache.WholeRunsAreTheMostRecentIcons | mobile/lib/icon-cache.ts:29-70 | Without cuts and garbling, restarts and lookups change nothing, and the store is the LRU cache of the writes |
| IconCache.WrittenIconIsListed | mobile/lib/icon-cache.ts:61-68 | The icon just written is listed if and only if the limit leaves room for one |
| IconCache.GarbledEntryIsRemoved | mobile/lib/icon-cache.ts:50-60 | An entry that something garbled is removed by its next lookup, which leaves every other entry and the index alone |
| IconCache.NoRoomStrandsEveryIcon | mobile/lib/icon-cache.ts:61-68 | With a limit of zero the index stays empty over every run and every icon stored is stranded |
| Utf8Length.Measure | mobile/lib/settings-bridge.ts:129-150 | The measured length of any sequence of 16-bit units is that of the UTF-8 bytes (section 3 of RFC 3629) of what they decode to (section 2.2 of RFC 2781), an unpaired surrogate read as U+FFFD |
| Utf8Bytes.ReadingInvertsEncoding | mobile/lib/settings-bridge.ts:129-150 | Every text is read back from the bytes that are measured, by a reader that admits the shortest forms only (section 3 of RFC 3629) |
| Utf8Length.DecodingInvertsEncoding | mobile/lib/settings-bridge.ts:129-150 | Every text is read back from its UTF-16 units |
| Utf8Length.EncodingInvertsDecodingWhenPaired | mobile/lib/settings-bridge.ts:129-150 | Units are restored from what they decode to if and only if no surrogate is unpaired |

## Left out

- Screens, components, navigation, device drivers, network fetches, SQL, YAML and JSON parsing, hashing and logging: inputs or abstract steps here.
- crates/core/src/peer.rs: message payloads, broadcast errors, the routes torn down for a gateway and the wrap-around of the 64-bit generation; the sleepers are a set that may come back in any order.
- mobile/lib/session.ts: the order of the peer list and `knownDevices`, the device ledger, the last voice turn, and the snapshot fields no event updates; mobile/lib/bridge.ts: domains other than the session.
- Dayparting.Observer.Observe: does not model two calls at once, which the source separates by an atomic flag; a clock whose sum with its offsets leaves the 64-bit range is not modelled either.
- InstallCensus.Census.RecordInstalled: does not model the field checks of an app and of the serial, which arrive checked, nor the order of the apps in the answer; one request runs at a time, so races between a read and its batch are not modelled.
- RateLimits.RateLimiter.TakeToken: does not model times that cannot be parsed; the clock arrives in seconds.
- CatalogRefresh.CatalogTable.Refresh: does not model the probes' headers and size limits, nor a database that fails.
- DiagnosticsLog.LogStore.Ingest: does not model the numbering of lines or timestamps that are not numbers.
- TraceLog.TraceFileWorker.Append: does not model failing file operations, a write cut off half way or the time of a sync; files are sequences of writes.
- FilePlacement.Disk.RenameOrCopy: does not model power loss; operations take effect in order, the id of the staged file is fresh, and a rename within one directory does not cross devices.
- ManifestValidate.ValidateInvariants: does not model message texts.
- ManifestValidate.Validate: does not model the fields without cross references; whether they keep the schema's rules is an input.
- ManifestGenerate.Build: does not model the composed changelog and summary; dates are integers.
- AffectedCrates.AffectedFlags: does not model git, cargo's metadata format or the order in which flags are printed.
- RefreshGenerations.CatalogPage.OnSources: does not model `catalogs` being reordered by a rewrite of the source list between two refreshes; sources are compared as lists, for their JSON text.
- SourceList.Subscriber.CommitWrite: does not model the catalogs shown, or the one-time inheritance of sources an older build stored.
- IconCache.IconStore.Set: does not model a storage write that throws and leaves the process running, or an index garbled by something else.
- Utf8Length.Measure: does not model bodies that arrive as bytes, whose length is their own.
- mobile/components/CatalogIcon.tsx, mobile/lib/settings-host.ts, site/scripts/apply-webapp-publish.ts, site/scripts/resolve-state.ts and the rest of site/worker/probe.ts and site/manifest/changelog.ts: not modelled; they would add easier members or depend on code elsewhere.
- crates/dsp: floating-point signal processing.

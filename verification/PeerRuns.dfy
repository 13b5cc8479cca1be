/**
 What every run of the peer actor keeps. A run is any sequence of commands in which a flush comes
 back only from a sleep that was spawned and has not come back yet, in any order.
 */
module PeerRuns {
  import opened Wrappers
  import opened Peers
  import opened PeerActor

  // The Status broadcasts, in order.
  function StatusLog(bus: seq<BusEvent>): (log: seq<bool>) {
    if bus == [] then []
    else
      var last := bus[|bus| - 1];
      StatusLog(bus[..|bus| - 1]) + if last.Status? then [last.connected] else []
  }

  // The peers of the latest snapshot broadcast.
  function LatestSnapshot(bus: seq<BusEvent>): (peers: PeerMap) {
    if bus == [] then map[]
    else
      var last := bus[|bus| - 1];
      if last.PeerSnapshot? then last.peers else LatestSnapshot(bus[..|bus| - 1])
  }

  // Never two downs without an up between them, and never a down first.
  predicate DownsAreSeparated(log: seq<bool>) {
    forall i :: 0 <= i < |log| && !log[i] ==> 0 < i && log[i - 1]
  }

  function LastStatus(log: seq<bool>): bool {
    log != [] && log[|log| - 1]
  }

  // The presentation of a state, given whether some peer is useful.
  predicate Presents(s: State, useful: bool) {
    && (s.presentedDevice.Some? <==> s.presentedConnected)
    && (useful ==> s.presentedConnected)
    // a current flush is pending exactly while a lost connection is still being presented
    && (s.disconnectGen in s.sleepers <==> s.presentedConnected && !useful)
    && (forall epoch | epoch in s.sleepers :: epoch <= s.disconnectGen)
    && LastStatus(StatusLog(s.bus)) == s.presentedConnected
    && DownsAreSeparated(StatusLog(s.bus))
  }

  predicate PresentationHolds(s: State) {
    Presents(s, AnyUseful(s.peers))
  }

  predicate RemovalsHold(s: State) {
    forall mac | mac in s.pendingBluezRemovals :: mac in s.peers && s.peers[mac].HasUsefulLink()
  }

  predicate SnapshotsHold(s: State) {
    s.published == s.peers && LatestSnapshot(s.bus) == s.peers
  }

  predicate Invariant(s: State) {
    PresentationHolds(s) && RemovalsHold(s) && SnapshotsHold(s)
  }

  predicate Enabled(s: State, cmd: Command) {
    cmd.FlushPendingDisconnect? ==> cmd.epoch in s.sleepers
  }

  function Run(cmds: seq<Command>): (s: State)
    decreases |cmds|
  {
    if cmds == [] then INITIAL else Handled(Run(cmds[..|cmds| - 1]), cmds[|cmds| - 1])
  }

  predicate Legal(cmds: seq<Command>)
    decreases |cmds|
  {
    cmds == [] || (Legal(cmds[..|cmds| - 1]) && Enabled(Run(cmds[..|cmds| - 1]), cmds[|cmds| - 1]))
  }

  // ----- the bus

  lemma {:induction false} StatusLogConcat(a: seq<BusEvent>, b: seq<BusEvent>)
    ensures StatusLog(a + b) == StatusLog(a) + StatusLog(b)
    decreases |b|
  {
    if b == [] {
      assert a + b == a;
    } else {
      assert (a + b)[..|a + b| - 1] == a + b[..|b| - 1];
      StatusLogConcat(a, b[..|b| - 1]);
    }
  }

  predicate Quiet(events: seq<BusEvent>) {
    forall i | 0 <= i < |events| :: !events[i].Status?
  }

  lemma {:induction false} QuietEventsLogNothing(events: seq<BusEvent>)
    requires Quiet(events)
    ensures StatusLog(events) == []
    decreases |events|
  {
    if events != [] {
      QuietEventsLogNothing(events[..|events| - 1]);
    }
  }

  lemma QuietEventsKeepTheLog(bus: seq<BusEvent>, events: seq<BusEvent>)
    requires Quiet(events)
    ensures StatusLog(bus + events) == StatusLog(bus)
  {
    StatusLogConcat(bus, events);
    QuietEventsLogNothing(events);
  }

  lemma UpEventsLogAnUp(bus: seq<BusEvent>, device: Option<Device>)
    ensures StatusLog(bus + UpEvents(device)) == StatusLog(bus) + [true]
  {
    var quiet := UpEvents(device)[..|UpEvents(device)| - 1];
    assert bus + UpEvents(device) == (bus + quiet) + [Status(true)];
    QuietEventsKeepTheLog(bus, quiet);
    StatusLogConcat(bus + quiet, [Status(true)]);
  }

  lemma LinkDownLogsADown(bus: seq<BusEvent>)
    ensures StatusLog(bus + LINK_DOWN) == StatusLog(bus) + [false]
  {
    assert bus + LINK_DOWN == (bus + [Status(false)]) + [StockDisconnection];
    QuietEventsKeepTheLog(bus + [Status(false)], [StockDisconnection]);
    StatusLogConcat(bus, [Status(false)]);
  }

  lemma {:induction false} LatestSnapshotStays(bus: seq<BusEvent>, events: seq<BusEvent>)
    requires forall i | 0 <= i < |events| :: !events[i].PeerSnapshot?
    ensures LatestSnapshot(bus + events) == LatestSnapshot(bus)
    decreases |events|
  {
    if events == [] {
      assert bus + events == bus;
    } else {
      assert (bus + events)[..|bus + events| - 1] == bus + events[..|events| - 1];
      LatestSnapshotStays(bus, events[..|events| - 1]);
    }
  }

  // ----- one change of the peer map

  // Whatever the device ids are, no edge is missed: ids can only make an edge be reported too often.
  predicate MissesNoEdge(diff: Diff, usefulBefore: bool, usefulAfter: bool) {
    && (!usefulBefore && usefulAfter ==> diff.usefulLinkTransitionedUp)
    && (usefulBefore && !usefulAfter ==> diff.usefulLinkTransitionedDown)
    && (diff.usefulLinkTransitionedUp ==> usefulAfter && diff.usefulDevice.Some?)
  }

  lemma ComputeDiffMissesNoEdge(mac: Address, before: PeerMap, after: PeerMap)
    requires ChangedOnlyAt(mac, before, after)
    ensures MissesNoEdge(ComputeDiff(mac, Lookup(before, mac), Lookup(after, mac), after), AnyUseful(before), AnyUseful(after))
  {
    AnyUsefulSplits(mac, before);
    AnyUsefulSplits(mac, after);
    OthersAreSeenWithoutTheChangedPeer(mac, before, after);
  }

  lemma GoingUpPresents(s: State, device: Option<Device>, useful: bool)
    requires Presents(s, useful) && device.Some?
    ensures Presents(Send(s.(disconnectGen := s.disconnectGen + 1, presentedConnected := true, presentedDevice := device),
                          UpEvents(device)), true)
  {
    UpEventsLogAnUp(s.bus, device);
  }

  lemma GoingDownPresents(s: State, useful: bool)
    requires Presents(s, useful) && s.presentedConnected
    ensures Presents(Send(s.(disconnectGen := s.disconnectGen + 1, presentedConnected := false, presentedDevice := None),
                          LINK_DOWN), false)
  {
    LinkDownLogsADown(s.bus);
  }

  lemma PresentKeepsThePresentation(s: State, diff: Diff, usefulBefore: bool)
    requires Presents(s, usefulBefore)
    requires MissesNoEdge(diff, usefulBefore, AnyUseful(s.peers))
    ensures PresentationHolds(Present(s, diff))
  {
    if diff.usefulLinkTransitionedUp {
      GoingUpPresents(s, diff.usefulDevice, usefulBefore);
    } else if s.presentedConnected {
      GoingDownPresents(s, usefulBefore);
    }
  }

  lemma PresentLeavesTheRest(s: State, diff: Diff)
    ensures var after := Present(s, diff);
            && after.peers == s.peers && after.published == s.published
            && after.pendingBluezRemovals == s.pendingBluezRemovals && after.pinPending == s.pinPending
            && LatestSnapshot(after.bus) == LatestSnapshot(s.bus)
  {
    LatestSnapshotStays(s.bus, UpEvents(diff.usefulDevice));
    LatestSnapshotStays(s.bus, LINK_DOWN);
  }

  lemma AnnounceKeepsThePresentation(s: State, diff: Diff, useful: bool)
    requires Presents(s, useful)
    ensures Presents(Announce(s, diff), useful)
  {
    QuietEventsKeepTheLog(s.bus, [PeerSnapshot(diff.snapshot)] + PairingEvents(diff));
  }

  lemma BroadcastKeepsThePresentation(s: State, diff: Diff, usefulBefore: bool)
    requires Presents(s, usefulBefore)
    requires MissesNoEdge(diff, usefulBefore, AnyUseful(s.peers))
    ensures PresentationHolds(Broadcast(s, diff))
  {
    AnnounceKeepsThePresentation(s, diff, usefulBefore);
    PresentKeepsThePresentation(Announce(s, diff), diff, usefulBefore);
    PresentLeavesTheRest(Announce(s, diff), diff);
    QuietEventsKeepTheLog(Present(Announce(s, diff), diff).bus, LossEvents(diff));
  }

  lemma ReplaceKeepsThePresentation(s: State, mac: Address, after: PeerMap)
    requires PresentationHolds(s)
    requires ChangedOnlyAt(mac, s.peers, after)
    ensures PresentationHolds(Replace(s, mac, after))
  {
    ComputeDiffMissesNoEdge(mac, s.peers, after);
    BroadcastKeepsThePresentation(s.(peers := after), ComputeDiff(mac, Lookup(s.peers, mac), Lookup(after, mac), after),
                                  AnyUseful(s.peers));
  }

  lemma ReplacePublishes(s: State, mac: Address, after: PeerMap)
    ensures var t := Replace(s, mac, after);
            && t.peers == after && t.pendingBluezRemovals == s.pendingBluezRemovals
            && SnapshotsHold(t)
  {
    var diff := ComputeDiff(mac, Lookup(s.peers, mac), Lookup(after, mac), after);
    var announced := Announce(s.(peers := after), diff);
    assert announced.bus == (s.bus + [PeerSnapshot(after)]) + PairingEvents(diff);
    LatestSnapshotStays(s.bus + [PeerSnapshot(after)], PairingEvents(diff));
    PresentLeavesTheRest(announced, diff);
    LatestSnapshotStays(Present(announced, diff).bus, LossEvents(diff));
  }

  lemma ReplaceKeepsAll(s: State, mac: Address, after: PeerMap)
    requires PresentationHolds(s)
    requires ChangedOnlyAt(mac, s.peers, after)
    ensures var t := Replace(s, mac, after);
            && PresentationHolds(t) && SnapshotsHold(t)
            && t.peers == after && t.pendingBluezRemovals == s.pendingBluezRemovals
  {
    ReplaceKeepsThePresentation(s, mac, after);
    ReplacePublishes(s, mac, after);
  }

  lemma RemovedKeepsTheInvariant(s: State, mac: Address)
    requires PresentationHolds(s) && SnapshotsHold(s)
    requires forall a | a in s.pendingBluezRemovals - {mac} :: a in s.peers && s.peers[a].HasUsefulLink()
    ensures Invariant(Removed(s, mac))
  {
    var forgotten := s.(pinPending := s.pinPending - {mac}, pendingBluezRemovals := s.pendingBluezRemovals - {mac});
    assert PresentationHolds(forgotten);
    if mac in s.peers {
      ReplaceKeepsAll(forgotten, mac, s.peers - {mac});
    }
  }

  lemma SightingKeepsTheInvariant(s: State, cmd: Command)
    requires Invariant(s)
    requires cmd.Upsert? || cmd.EnsureExists?
    ensures Invariant(Handled(s, cmd))
  {
    var kept := s.(pendingBluezRemovals := s.pendingBluezRemovals - {cmd.mac});
    var entry := if cmd.mac in s.peers then s.peers[cmd.mac] else NewPeer(cmd.device);
    ReplaceKeepsAll(kept, cmd.mac, s.peers[cmd.mac := entry.(device := cmd.device)]);
  }

  lemma CompletionKeepsTheInvariant(s: State, mac: Address)
    requires PresentationHolds(s) && SnapshotsHold(s)
    requires forall a | a in s.pendingBluezRemovals && a != mac :: a in s.peers && s.peers[a].HasUsefulLink()
    requires mac in s.peers
    ensures Invariant(RemovalCompleted(s, mac))
  {
    RemovedKeepsTheInvariant(s, mac);
  }

  lemma ChangeKeepsTheInvariant(s: State, mac: Address, change: Change)
    requires Invariant(s)
    ensures Invariant(WithChange(s, mac, change))
  {
    if mac in s.peers {
      var after := s.peers[mac := Changed(s.peers[mac], change)];
      ReplaceKeepsAll(s, mac, after);
      if TouchesLink(change) {
        CompletionKeepsTheInvariant(Replace(s, mac, after), mac);
      }
    }
  }

  lemma SendKeepsTheInvariant(s: State, events: seq<BusEvent>)
    requires Invariant(s)
    requires Quiet(events)
    requires forall i | 0 <= i < |events| :: !events[i].PeerSnapshot?
    ensures Invariant(Send(s, events))
  {
    QuietEventsKeepTheLog(s.bus, events);
    LatestSnapshotStays(s.bus, events);
  }

  lemma ResyncKeepsTheInvariant(s: State)
    requires Invariant(s)
    ensures Invariant(Resynced(s))
  {
    if s.presentedConnected {
      var device := s.presentedDevice.value;
      var before := [StockConnection(device), ConnectedDevice(device)];
      var after := [PlayerState, Volume];
      assert Resynced(s).bus == ((s.bus + before) + [Status(true)]) + after;
      QuietEventsKeepTheLog(s.bus, before);
      StatusLogConcat(s.bus + before, [Status(true)]);
      QuietEventsKeepTheLog((s.bus + before) + [Status(true)], after);
      LatestSnapshotStays(s.bus, before);
      LatestSnapshotStays(s.bus + before, [Status(true)]);
      LatestSnapshotStays((s.bus + before) + [Status(true)], after);
    } else {
      SendKeepsTheInvariant(s, [StockDisconnection]);
    }
  }

  // A flush that comes back either is stale and goes unheard, or ends the presentation: the second
  // guard of the source, that no peer be useful, never decides.
  lemma FlushIsStaleOrEndsThePresentation(s: State, epoch: nat)
    requires Invariant(s) && epoch in s.sleepers
    ensures var t := Flushed(s, epoch);
            && Invariant(t)
            && (epoch != s.disconnectGen ==> t == s.(sleepers := s.sleepers - {epoch}))
            && (epoch == s.disconnectGen ==>
                 && !AnyUseful(s.peers)
                 && !t.presentedConnected
                 && StatusLog(t.bus) == StatusLog(s.bus) + [false])
  {
    LinkDownLogsADown(s.bus);
    LatestSnapshotStays(s.bus, LINK_DOWN);
  }

  lemma RemovalKeepsTheInvariant(s: State, cmd: Command)
    requires Invariant(s)
    requires cmd.Remove? || cmd.RemoveBluez?
    ensures Invariant(Handled(s, cmd))
  {
    RemovedKeepsTheInvariant(s, cmd.mac);
  }

  lemma PinsAreFree(s: State, pins: set<Address>)
    requires Invariant(s)
    ensures Invariant(s.(pinPending := pins))
    ensures Invariant(Send(s.(pinPending := pins), [PairingResult]))
  {
    var t := s.(pinPending := pins);
    assert Invariant(t);
    SendKeepsTheInvariant(t, [PairingResult]);
  }

  lemma HandledKeepsTheInvariant(s: State, cmd: Command)
    requires Invariant(s)
    requires Enabled(s, cmd)
    ensures Invariant(Handled(s, cmd))
  {
    match cmd
    case Upsert(_, _) => SightingKeepsTheInvariant(s, cmd);
    case EnsureExists(_, _) => SightingKeepsTheInvariant(s, cmd);
    case Set(mac, change) => ChangeKeepsTheInvariant(s, mac, change);
    case Remove(_) => RemovalKeepsTheInvariant(s, cmd);
    case RemoveBluez(_) => RemovalKeepsTheInvariant(s, cmd);
    case NotePinShown(_) => PinsKeepTheInvariant(s, cmd);
    case ConfirmPairing(_) => PinsKeepTheInvariant(s, cmd);
    case Seed(socket) => SendKeepsTheInvariant(s, SeedEvents(s, socket));
    case ResyncStockConnection => ResyncKeepsTheInvariant(s);
    case FlushPendingDisconnect(epoch) => FlushIsStaleOrEndsThePresentation(s, epoch);
  }

  lemma PinsKeepTheInvariant(s: State, cmd: Command)
    requires Invariant(s)
    requires cmd.ConfirmPairing? || cmd.NotePinShown?
    ensures Invariant(Handled(s, cmd))
  {
    if cmd.NotePinShown? {
      PinsAreFree(s, s.pinPending + {cmd.mac});
    } else if cmd.mac in s.pinPending {
      PinsAreFree(s, s.pinPending - {cmd.mac});
    }
  }

  // Main result: every reachable state presents the connection rightly, keeps only useful peers
  // waiting for removal and has published the peers it holds.
  lemma {:induction false} EveryRunKeepsTheInvariant(cmds: seq<Command>)
    requires Legal(cmds)
    ensures Invariant(Run(cmds))
    decreases |cmds|
  {
    if cmds != [] {
      EveryRunKeepsTheInvariant(cmds[..|cmds| - 1]);
      HandledKeepsTheInvariant(Run(cmds[..|cmds| - 1]), cmds[|cmds| - 1]);
    }
  }

  // ----- deferred removals

  // The peers a command leaves, and the removals it leaves waiting, without the edges it sends.
  function PeersAfter(s: State, cmd: Command): PeerMap {
    match cmd
    case Upsert(mac, device) =>
      var entry := if mac in s.peers then s.peers[mac] else NewPeer(device);
      s.peers[mac := entry.(device := device)]
    case EnsureExists(mac, device) => if mac in s.peers then s.peers else s.peers[mac := NewPeer(device)]
    case Set(mac, change) =>
      if mac !in s.peers then s.peers
      else if EndsAWaitingPeer(s, mac, change) then s.peers - {mac}
      else s.peers[mac := Changed(s.peers[mac], change)]
    case Remove(mac) => s.peers - {mac}
    case RemoveBluez(mac) => if IsUseful(Lookup(s.peers, mac)) then s.peers else s.peers - {mac}
    case _ => s.peers
  }

  predicate EndsAWaitingPeer(s: State, mac: Address, change: Change)
    requires mac in s.peers
  {
    mac in s.pendingBluezRemovals && !Changed(s.peers[mac], change).HasUsefulLink()
  }

  function WaitingAfter(s: State, cmd: Command): set<Address> {
    match cmd
    case Upsert(mac, _) => s.pendingBluezRemovals - {mac}
    case EnsureExists(mac, _) => s.pendingBluezRemovals - {mac}
    case Set(mac, change) =>
      if mac in s.peers && EndsAWaitingPeer(s, mac, change) then s.pendingBluezRemovals - {mac}
      else s.pendingBluezRemovals
    case Remove(mac) => s.pendingBluezRemovals - {mac}
    case RemoveBluez(mac) =>
      if IsUseful(Lookup(s.peers, mac)) then s.pendingBluezRemovals + {mac} else s.pendingBluezRemovals - {mac}
    case _ => s.pendingBluezRemovals
  }

  lemma RemovedPeers(s: State, mac: Address)
    ensures Removed(s, mac).peers == s.peers - {mac}
    ensures Removed(s, mac).pendingBluezRemovals == s.pendingBluezRemovals - {mac}
  {
    if mac in s.peers {
      ReplacePublishes(s.(pinPending := s.pinPending - {mac}, pendingBluezRemovals := s.pendingBluezRemovals - {mac}),
                       mac, s.peers - {mac});
    }
  }

  lemma CompletedPeers(s: State, mac: Address)
    ensures var t := RemovalCompleted(s, mac);
            if mac in s.pendingBluezRemovals && mac in s.peers && !s.peers[mac].HasUsefulLink() then
              t.peers == s.peers - {mac} && t.pendingBluezRemovals == s.pendingBluezRemovals - {mac}
            else t == s
  {
    RemovedPeers(s, mac);
  }

  lemma ChangePeers(s: State, mac: Address, change: Change)
    requires Invariant(s)
    ensures WithChange(s, mac, change).peers == PeersAfter(s, Set(mac, change))
    ensures WithChange(s, mac, change).pendingBluezRemovals == WaitingAfter(s, Set(mac, change))
  {
    if mac in s.peers {
      var after := s.peers[mac := Changed(s.peers[mac], change)];
      var written := Replace(s, mac, after);
      assert written.peers == after && written.pendingBluezRemovals == s.pendingBluezRemovals by {
        ReplacePublishes(s, mac, after);
      }
      CompletedPeers(written, mac);
      assert after - {mac} == s.peers - {mac};
      assert !TouchesLink(change) ==> after[mac].HasUsefulLink() == s.peers[mac].HasUsefulLink();
    }
  }

  // A useful peer that waits for removal is gone as soon as it stops being useful, and nothing else
  // about the map depends on the edges.
  lemma HandledPeers(s: State, cmd: Command)
    requires Invariant(s)
    ensures Handled(s, cmd).peers == PeersAfter(s, cmd)
    ensures Handled(s, cmd).pendingBluezRemovals == WaitingAfter(s, cmd)
  {
    match cmd
    case Upsert(mac, _) =>
      ReplacePublishes(s.(pendingBluezRemovals := s.pendingBluezRemovals - {mac}), mac, PeersAfter(s, cmd));
    case EnsureExists(mac, _) =>
      ReplacePublishes(s.(pendingBluezRemovals := s.pendingBluezRemovals - {mac}), mac, PeersAfter(s, cmd));
    case Set(mac, change) => ChangePeers(s, mac, change);
    case Remove(mac) => RemovedPeers(s, mac);
    case RemoveBluez(mac) => RemovedPeers(s, mac);
    case NotePinShown(_) =>
    case ConfirmPairing(_) =>
    case Seed(_) =>
    case ResyncStockConnection =>
    case FlushPendingDisconnect(_) =>
  }

  // A useful peer leaves the map only by an outright removal, or in the command that ends its link
  // while a BlueZ removal waits. BlueZ alone never drops it.
  lemma UsefulPeerLeavesOnlyOnPurpose(s: State, cmd: Command, mac: Address)
    requires Invariant(s)
    requires IsUseful(Lookup(s.peers, mac))
    ensures mac !in Handled(s, cmd).peers <==>
            || cmd == Remove(mac)
            || (&& cmd.Set? && cmd.mac == mac && mac in s.pendingBluezRemovals
                && !Changed(s.peers[mac], cmd.change).HasUsefulLink())
  {
    HandledPeers(s, cmd);
  }

  // A waiting removal ends in the command that ends the link, and is called off by a fresh sighting.
  lemma WaitingRemovalEndsWithTheLink(s: State, cmd: Command, mac: Address)
    requires Invariant(s)
    requires mac in s.pendingBluezRemovals
    ensures var t := Handled(s, cmd);
            if mac in t.pendingBluezRemovals then IsUseful(Lookup(t.peers, mac))
            else if cmd.Upsert? || cmd.EnsureExists? then cmd.mac == mac && IsUseful(Lookup(t.peers, mac))
            else mac !in t.peers
  {
    HandledPeers(s, cmd);
  }

  // The address a command is about; only its entry can change.
  function Subject(cmd: Command): Option<Address> {
    if cmd.Seed? || cmd.ResyncStockConnection? || cmd.FlushPendingDisconnect? then None else Some(cmd.mac)
  }

  // ----- when a down is shown

  // How often the connection was shown to go down.
  function Downs(bus: seq<BusEvent>): (count: nat) {
    if bus == [] then 0
    else Downs(bus[..|bus| - 1]) + if bus[|bus| - 1] == Status(false) then 1 else 0
  }

  lemma {:induction false} DownsOfConcat(a: seq<BusEvent>, b: seq<BusEvent>)
    ensures Downs(a + b) == Downs(a) + Downs(b)
    decreases |b|
  {
    if b == [] {
      assert a + b == a;
    } else {
      assert (a + b)[..|a + b| - 1] == a + b[..|b| - 1];
      DownsOfConcat(a, b[..|b| - 1]);
    }
  }

  lemma {:induction false} NoDowns(bus: seq<BusEvent>, events: seq<BusEvent>)
    requires forall i | 0 <= i < |events| :: events[i] != Status(false)
    ensures Downs(bus + events) == Downs(bus)
    decreases |events|
  {
    if events == [] {
      assert bus + events == bus;
    } else {
      assert (bus + events)[..|bus + events| - 1] == bus + events[..|events| - 1];
      NoDowns(bus, events[..|events| - 1]);
    }
  }

  lemma LinkDownIsOneDown(bus: seq<BusEvent>)
    ensures Downs(bus + LINK_DOWN) == Downs(bus) + 1
  {
    DownsOfConcat(bus, LINK_DOWN);
    assert LINK_DOWN[..1] == [Status(false)] && [Status(false)][..0] == [];
    assert Downs([Status(false)]) == 1;
  }

  // The peer is gone, or its companion is: a presentation that has no useful peer left ends without a wait.
  predicate GoneAt(mac: Address, before: PeerMap, after: PeerMap) {
    || (mac in before && mac !in after)
    || (IsCompanionConnected(Lookup(before, mac)) && !IsCompanionConnected(Lookup(after, mac)))
  }

  lemma PresentDowns(s: State, diff: Diff)
    requires diff.usefulLinkTransitionedUp ==> AnyUseful(s.peers)
    ensures var t := Present(s, diff);
            var ends := s.presentedConnected && !AnyUseful(s.peers) && (diff.removed || diff.companionLost.Some?);
            && Downs(t.bus) == Downs(s.bus) + (if ends then 1 else 0)
            && t.presentedConnected == ((s.presentedConnected || diff.usefulLinkTransitionedUp) && !ends)
            && t.disconnectGen >= s.disconnectGen + (if diff.usefulLinkTransitionedUp then 1 else 0)
  {
    NoDowns(s.bus, UpEvents(diff.usefulDevice));
    LinkDownIsOneDown(s.bus);
  }

  lemma BroadcastDowns(s: State, diff: Diff)
    requires diff.usefulLinkTransitionedUp ==> AnyUseful(s.peers)
    ensures var t := Broadcast(s, diff);
            var ends := s.presentedConnected && !AnyUseful(s.peers) && (diff.removed || diff.companionLost.Some?);
            && Downs(t.bus) == Downs(s.bus) + (if ends then 1 else 0)
            && t.presentedConnected == ((s.presentedConnected || diff.usefulLinkTransitionedUp) && !ends)
            && t.disconnectGen >= s.disconnectGen + (if diff.usefulLinkTransitionedUp then 1 else 0)
  {
    NoDowns(s.bus, [PeerSnapshot(diff.snapshot)] + PairingEvents(diff));
    PresentDowns(Announce(s, diff), diff);
    NoDowns(Present(Announce(s, diff), diff).bus, LossEvents(diff));
  }

  lemma ReplaceDowns(s: State, mac: Address, after: PeerMap)
    requires ChangedOnlyAt(mac, s.peers, after)
    ensures var t := Replace(s, mac, after);
            var ends := s.presentedConnected && !AnyUseful(after) && GoneAt(mac, s.peers, after);
            && Downs(t.bus) == Downs(s.bus) + (if ends then 1 else 0)
            && (ends ==> !t.presentedConnected)
            && (s.presentedConnected && !ends ==> t.presentedConnected)
            && t.disconnectGen >= s.disconnectGen + (if !AnyUseful(s.peers) && AnyUseful(after) then 1 else 0)
  {
    ComputeDiffMissesNoEdge(mac, s.peers, after);
    BroadcastDowns(s.(peers := after), ComputeDiff(mac, Lookup(s.peers, mac), Lookup(after, mac), after));
  }

  // The commands that end a presentation: the flush of the current generation, and those after which no
  // peer is useful and the one they are about, or its companion, is gone.
  predicate EndsThePresentation(s: State, cmd: Command) {
    || (cmd.FlushPendingDisconnect? && cmd.epoch == s.disconnectGen)
    || (&& s.presentedConnected && !AnyUseful(PeersAfter(s, cmd))
        && Subject(cmd).Some? && GoneAt(Subject(cmd).value, s.peers, PeersAfter(s, cmd)))
  }

  // What a command adds to the downs shown, and what it makes of the generation.
  predicate DownsAdd(s: State, t: State, ends: bool) {
    && Downs(t.bus) == Downs(s.bus) + (if ends then 1 else 0)
    && t.disconnectGen >= s.disconnectGen
    && (!AnyUseful(s.peers) && AnyUseful(t.peers) ==> t.disconnectGen > s.disconnectGen)
  }

  lemma RemovedDowns(s: State, mac: Address)
    ensures DownsAdd(s, Removed(s, mac), s.presentedConnected && !AnyUseful(s.peers - {mac}) && mac in s.peers)
  {
    RemovedPeers(s, mac);
    if mac in s.peers {
      ReplaceDowns(s.(pinPending := s.pinPending - {mac}, pendingBluezRemovals := s.pendingBluezRemovals - {mac}),
                   mac, s.peers - {mac});
    }
  }

  lemma CompletionDowns(s: State, mac: Address, change: Change)
    requires Invariant(s) && mac in s.peers && TouchesLink(change)
    ensures var t := WithChange(s, mac, change);
            DownsAdd(s, t, s.presentedConnected && !AnyUseful(t.peers) && GoneAt(mac, s.peers, t.peers))
  {
    var after := s.peers[mac := Changed(s.peers[mac], change)];
    var written := Replace(s, mac, after);
    ReplaceDowns(s, mac, after);
    ReplacePublishes(s, mac, after);
    CompletedPeers(written, mac);
    if mac in s.pendingBluezRemovals && !after[mac].HasUsefulLink() {
      assert AnyUseful(s.peers);
      AnyUsefulSplits(mac, after);
      RemovedDowns(written, mac);
      assert after - {mac} == s.peers - {mac};
    }
  }

  lemma ChangeDowns(s: State, mac: Address, change: Change)
    requires Invariant(s) && mac in s.peers
    ensures var t := WithChange(s, mac, change);
            DownsAdd(s, t, s.presentedConnected && !AnyUseful(t.peers) && GoneAt(mac, s.peers, t.peers))
  {
    if TouchesLink(change) {
      CompletionDowns(s, mac, change);
    } else {
      var after := s.peers[mac := Changed(s.peers[mac], change)];
      ReplaceDowns(s, mac, after);
      ReplacePublishes(s, mac, after);
    }
  }

  lemma SightingDowns(s: State, cmd: Command)
    requires cmd.Upsert? || cmd.EnsureExists?
    ensures DownsAdd(s, Handled(s, cmd), EndsThePresentation(s, cmd))
  {
    var kept := s.(pendingBluezRemovals := s.pendingBluezRemovals - {cmd.mac});
    ReplaceDowns(kept, cmd.mac, PeersAfter(s, cmd));
    ReplacePublishes(kept, cmd.mac, PeersAfter(s, cmd));
  }

  lemma TalkDowns(s: State, cmd: Command)
    requires cmd.ConfirmPairing? || cmd.NotePinShown? || cmd.Seed? || cmd.ResyncStockConnection?
    ensures DownsAdd(s, Handled(s, cmd), EndsThePresentation(s, cmd))
  {
    match cmd
    case ConfirmPairing(_) => NoDowns(s.bus, [PairingResult]);
    case NotePinShown(_) =>
    case Seed(socket) => NoDowns(s.bus, SeedEvents(s, socket));
    case ResyncStockConnection => ResyncDowns(s);
  }

  lemma ResyncDowns(s: State)
    ensures DownsAdd(s, Resynced(s), false)
  {
    NoDowns(s.bus, [StockDisconnection]);
    if s.presentedDevice.Some? {
      var device := s.presentedDevice.value;
      NoDowns(s.bus, [StockConnection(device), ConnectedDevice(device), Status(true), PlayerState, Volume]);
    }
  }

  lemma SetDowns(s: State, mac: Address, change: Change)
    requires Invariant(s)
    ensures DownsAdd(s, Handled(s, Set(mac, change)), EndsThePresentation(s, Set(mac, change)))
  {
    ChangePeers(s, mac, change);
    if mac in s.peers {
      ChangeDowns(s, mac, change);
    }
  }

  lemma RemovalDowns(s: State, cmd: Command)
    requires cmd.Remove? || cmd.RemoveBluez?
    ensures DownsAdd(s, Handled(s, cmd), EndsThePresentation(s, cmd))
  {
    RemovedPeers(s, cmd.mac);
    RemovedDowns(s, cmd.mac);
  }

  lemma FlushDowns(s: State, epoch: nat)
    requires Invariant(s) && epoch in s.sleepers
    ensures DownsAdd(s, Flushed(s, epoch), epoch == s.disconnectGen)
  {
    FlushIsStaleOrEndsThePresentation(s, epoch);
    LinkDownIsOneDown(s.bus);
  }

  // A command shows the connection going down exactly when it ends the presentation, and then once.
  lemma CommandDowns(s: State, cmd: Command)
    requires Invariant(s) && Enabled(s, cmd)
    ensures DownsAdd(s, Handled(s, cmd), EndsThePresentation(s, cmd))
  {
    match cmd
    case Upsert(_, _) => SightingDowns(s, cmd);
    case EnsureExists(_, _) => SightingDowns(s, cmd);
    case Set(mac, change) => SetDowns(s, mac, change);
    case Remove(_) => RemovalDowns(s, cmd);
    case RemoveBluez(_) => RemovalDowns(s, cmd);
    case NotePinShown(_) => TalkDowns(s, cmd);
    case ConfirmPairing(_) => TalkDowns(s, cmd);
    case Seed(_) => TalkDowns(s, cmd);
    case ResyncStockConnection => TalkDowns(s, cmd);
    case FlushPendingDisconnect(epoch) => FlushDowns(s, epoch);
  }

  // ----- from one state on

  predicate LegalFrom(s: State, cmds: seq<Command>)
    decreases |cmds|
  {
    cmds == [] || (Enabled(s, cmds[0]) && LegalFrom(Handled(s, cmds[0]), cmds[1..]))
  }

  function RunFrom(s: State, cmds: seq<Command>): State
    decreases |cmds|
  {
    if cmds == [] then s else RunFrom(Handled(s, cmds[0]), cmds[1..])
  }

  function Endings(s: State, cmds: seq<Command>): (count: nat)
    decreases |cmds|
  {
    if cmds == [] then 0
    else (if EndsThePresentation(s, cmds[0]) then 1 else 0) + Endings(Handled(s, cmds[0]), cmds[1..])
  }

  // Main result: over every run, the downs shown are exactly the commands that end the presentation.
  lemma {:induction false} DownsAreTheEndings(s: State, cmds: seq<Command>)
    requires Invariant(s) && LegalFrom(s, cmds)
    ensures Invariant(RunFrom(s, cmds))
    ensures DownsAdd(s, RunFrom(s, cmds).(bus := s.bus), false)
    ensures Downs(RunFrom(s, cmds).bus) == Downs(s.bus) + Endings(s, cmds)
    decreases |cmds|
  {
    if cmds != [] {
      HandledKeepsTheInvariant(s, cmds[0]);
      CommandDowns(s, cmds[0]);
      DownsAreTheEndings(Handled(s, cmds[0]), cmds[1..]);
    }
  }

  // A link lost with a grace period that is back before anything ended the presentation: no down was shown
  // in between, and whatever is sleeping then is stale and stays so, whatever comes after.
  lemma BouncedLinkIsNeverShownDown(s: State, gap: seq<Command>, later: seq<Command>)
    requires Invariant(s) && s.presentedConnected && !AnyUseful(s.peers)
    requires LegalFrom(s, gap) && Endings(s, gap) == 0 && AnyUseful(RunFrom(s, gap).peers)
    requires LegalFrom(RunFrom(s, gap), later)
    ensures var back := RunFrom(s, gap);
            var t := RunFrom(back, later);
            && Downs(back.bus) == Downs(s.bus) && back.presentedConnected
            && forall epoch | epoch in s.sleepers :: !EndsThePresentation(t, FlushPendingDisconnect(epoch))
  {
    var back := RunFrom(s, gap);
    DownsAreTheEndings(s, gap);
    DownsAreTheEndings(back, later);
    assert back.disconnectGen > s.disconnectGen;
  }

  // ----- one tear-down per lost link

  datatype Link = GatewayLink | CompanionLink

  predicate Holds(link: Link, peer: Option<Peer>) {
    match link
    case GatewayLink => IsGatewayLinked(peer)
    case CompanionLink => IsCompanionConnected(peer)
  }

  predicate IsLoss(link: Link, event: BusEvent) {
    match link
    case GatewayLink => event.GatewayLinkLost?
    case CompanionLink => event.CompanionLost?
  }

  // The addresses whose link was torn down, in order.
  function Losses(link: Link, bus: seq<BusEvent>): (addresses: seq<Address>) {
    if bus == [] then []
    else
      var last := bus[|bus| - 1];
      Losses(link, bus[..|bus| - 1]) + if IsLoss(link, last) then [last.addr] else []
  }

  lemma {:induction false} LossesConcat(link: Link, a: seq<BusEvent>, b: seq<BusEvent>)
    ensures Losses(link, a + b) == Losses(link, a) + Losses(link, b)
    decreases |b|
  {
    if b == [] {
      assert a + b == a;
    } else {
      assert (a + b)[..|a + b| - 1] == a + b[..|b| - 1];
      LossesConcat(link, a, b[..|b| - 1]);
    }
  }

  lemma {:induction false} OtherEventsLoseNothing(link: Link, bus: seq<BusEvent>, events: seq<BusEvent>)
    requires forall i | 0 <= i < |events| :: !IsLoss(link, events[i])
    ensures Losses(link, bus + events) == Losses(link, bus)
    decreases |events|
  {
    if events == [] {
      assert bus + events == bus;
    } else {
      assert (bus + events)[..|bus + events| - 1] == bus + events[..|events| - 1];
      OtherEventsLoseNothing(link, bus, events[..|events| - 1]);
    }
  }

  // What going from one map to the other ends at one address.
  function Ended(link: Link, mac: Address, before: PeerMap, after: PeerMap): seq<Address> {
    if Holds(link, Lookup(before, mac)) && !Holds(link, Lookup(after, mac)) then [mac] else []
  }

  lemma PresentLosesNothing(link: Link, s: State, diff: Diff)
    ensures Losses(link, Present(s, diff).bus) == Losses(link, s.bus)
  {
    OtherEventsLoseNothing(link, s.bus, UpEvents(diff.usefulDevice));
    OtherEventsLoseNothing(link, s.bus, LINK_DOWN);
  }

  lemma AnnounceLosesNothing(link: Link, s: State, diff: Diff)
    ensures Losses(link, Announce(s, diff).bus) == Losses(link, s.bus)
  {
    OtherEventsLoseNothing(link, s.bus, [PeerSnapshot(diff.snapshot)] + PairingEvents(diff));
  }

  lemma LossEventsNameTheLoss(link: Link, diff: Diff)
    ensures Losses(link, LossEvents(diff))
         == var lost := if link.GatewayLink? then diff.gatewayLinkLost else diff.companionLost;
            if lost.Some? then [lost.value] else []
  {
    var gateway := if diff.gatewayLinkLost.Some? then [GatewayLinkLost(diff.gatewayLinkLost.value)] else [];
    var companion := if diff.companionLost.Some? then [CompanionLost(diff.companionLost.value)] else [];
    LossesConcat(link, gateway, companion);
  }

  lemma BroadcastLoses(link: Link, s: State, diff: Diff)
    ensures Losses(link, Broadcast(s, diff).bus) == Losses(link, s.bus) + Losses(link, LossEvents(diff))
  {
    AnnounceLosesNothing(link, s, diff);
    PresentLosesNothing(link, Announce(s, diff), diff);
    LossesConcat(link, Present(Announce(s, diff), diff).bus, LossEvents(diff));
  }

  lemma DiffLosesWhatEnded(link: Link, mac: Address, before: PeerMap, after: PeerMap)
    ensures Losses(link, LossEvents(ComputeDiff(mac, Lookup(before, mac), Lookup(after, mac), after)))
         == Ended(link, mac, before, after)
  {
    LossEventsNameTheLoss(link, ComputeDiff(mac, Lookup(before, mac), Lookup(after, mac), after));
  }

  lemma ReplaceLoses(link: Link, s: State, mac: Address, after: PeerMap)
    ensures Losses(link, Replace(s, mac, after).bus) == Losses(link, s.bus) + Ended(link, mac, s.peers, after)
  {
    DiffLosesWhatEnded(link, mac, s.peers, after);
    BroadcastLoses(link, s.(peers := after), ComputeDiff(mac, Lookup(s.peers, mac), Lookup(after, mac), after));
  }

  lemma RemovedLoses(link: Link, s: State, mac: Address)
    ensures Losses(link, Removed(s, mac).bus) == Losses(link, s.bus) + Ended(link, mac, s.peers, s.peers - {mac})
  {
    if mac in s.peers {
      ReplaceLoses(link, s.(pinPending := s.pinPending - {mac}, pendingBluezRemovals := s.pendingBluezRemovals - {mac}),
                   mac, s.peers - {mac});
    }
  }

  lemma CompletionLoses(link: Link, s: State, mac: Address)
    ensures var t := RemovalCompleted(s, mac);
            Losses(link, t.bus) == Losses(link, s.bus) + Ended(link, mac, s.peers, t.peers)
  {
    RemovedLoses(link, s, mac);
    RemovedPeers(s, mac);
  }

  lemma OnlyTheSubjectChanges(s: State, cmd: Command, mac: Address)
    requires Invariant(s)
    requires Subject(cmd) != Some(mac)
    ensures Lookup(Handled(s, cmd).peers, mac) == Lookup(s.peers, mac)
  {
    HandledPeers(s, cmd);
  }

  lemma WaitingPeerLosesEachLinkOnce(link: Link, s: State, mac: Address, change: Change)
    requires Invariant(s) && mac in s.peers && EndsAWaitingPeer(s, mac, change)
    ensures var between := s.peers[mac := Changed(s.peers[mac], change)];
            Ended(link, mac, s.peers, between) + Ended(link, mac, between, between - {mac})
            == Ended(link, mac, s.peers, s.peers - {mac})
  {
  }

  lemma CompletionLosesTheRest(link: Link, s: State, mac: Address, change: Change, written: State)
    requires Invariant(s) && mac in s.peers && TouchesLink(change)
    requires written.peers == s.peers[mac := Changed(s.peers[mac], change)]
    requires written.pendingBluezRemovals == s.pendingBluezRemovals
    requires Losses(link, written.bus) == Losses(link, s.bus) + Ended(link, mac, s.peers, written.peers)
    ensures var t := RemovalCompleted(written, mac);
            Losses(link, t.bus) == Losses(link, s.bus) + Ended(link, mac, s.peers, t.peers)
  {
    CompletionLoses(link, written, mac);
    CompletedPeers(written, mac);
    if EndsAWaitingPeer(s, mac, change) {
      WaitingPeerLosesEachLinkOnce(link, s, mac, change);
    }
  }

  lemma ChangeLoses(link: Link, s: State, mac: Address, change: Change)
    requires Invariant(s) && mac in s.peers
    ensures var t := WithChange(s, mac, change);
            Losses(link, t.bus) == Losses(link, s.bus) + Ended(link, mac, s.peers, t.peers)
  {
    var after := s.peers[mac := Changed(s.peers[mac], change)];
    var written := Replace(s, mac, after);
    ReplaceLoses(link, s, mac, after);
    ReplacePublishes(s, mac, after);
    if TouchesLink(change) {
      CompletionLosesTheRest(link, s, mac, change, written);
    }
  }

  lemma TalkLosesNothing(link: Link, s: State, cmd: Command)
    requires cmd.ConfirmPairing? || cmd.Seed? || cmd.ResyncStockConnection? || cmd.FlushPendingDisconnect?
    ensures Losses(link, Handled(s, cmd).bus) == Losses(link, s.bus)
  {
    match cmd
    case ConfirmPairing(_) => OtherEventsLoseNothing(link, s.bus, [PairingResult]);
    case Seed(socket) => OtherEventsLoseNothing(link, s.bus, SeedEvents(s, socket));
    case ResyncStockConnection =>
      OtherEventsLoseNothing(link, s.bus, [StockDisconnection]);
      if s.presentedDevice.Some? {
        var device := s.presentedDevice.value;
        OtherEventsLoseNothing(link, s.bus, [StockConnection(device), ConnectedDevice(device), Status(true), PlayerState, Volume]);
      }
    case FlushPendingDisconnect(_) => OtherEventsLoseNothing(link, s.bus, LINK_DOWN);
  }

  lemma SightingLoses(link: Link, s: State, cmd: Command)
    requires cmd.Upsert? || cmd.EnsureExists?
    ensures var t := Handled(s, cmd);
            Losses(link, t.bus) == Losses(link, s.bus) + Ended(link, cmd.mac, s.peers, t.peers)
  {
    var kept := s.(pendingBluezRemovals := s.pendingBluezRemovals - {cmd.mac});
    ReplaceLoses(link, kept, cmd.mac, PeersAfter(s, cmd));
    ReplacePublishes(kept, cmd.mac, PeersAfter(s, cmd));
  }

  lemma RemovalLoses(link: Link, s: State, mac: Address)
    ensures var t := Removed(s, mac);
            Losses(link, t.bus) == Losses(link, s.bus) + Ended(link, mac, s.peers, t.peers)
  {
    RemovedLoses(link, s, mac);
    RemovedPeers(s, mac);
  }

  // The gateway and companion tear-downs are sent once for each link a command ends, even when the
  // command goes on to complete a waiting removal, and at no other time.
  lemma EveryLostLinkIsTornDownOnce(link: Link, s: State, cmd: Command)
    requires Invariant(s)
    ensures var t := Handled(s, cmd);
            var mac := Subject(cmd);
            Losses(link, t.bus) == Losses(link, s.bus)
                                 + if mac.Some? then Ended(link, mac.value, s.peers, t.peers) else []
  {
    match cmd
    case Upsert(_, _) => SightingLoses(link, s, cmd);
    case EnsureExists(_, _) => SightingLoses(link, s, cmd);
    case Set(mac, change) =>
      if mac in s.peers {
        ChangeLoses(link, s, mac, change);
      }
    case Remove(mac) => RemovalLoses(link, s, mac);
    case RemoveBluez(mac) => RemovalLoses(link, s, mac);
    case NotePinShown(_) =>
    case ConfirmPairing(_) => TalkLosesNothing(link, s, cmd);
    case Seed(_) => TalkLosesNothing(link, s, cmd);
    case ResyncStockConnection => TalkLosesNothing(link, s, cmd);
    case FlushPendingDisconnect(_) => TalkLosesNothing(link, s, cmd);
  }
}

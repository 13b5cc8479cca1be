/**
 What a command of the peer actor writes to its peer, and which pairings and lost links are announced: told from
 the peers before and after it alone.
 */
module PeerPairing {
  import opened Wrappers
  import opened Peers
  import opened PeerActor
  import opened PeerRuns

  function Times(event: BusEvent, bus: seq<BusEvent>): (count: nat) {
    if bus == [] then 0
    else Times(event, bus[..|bus| - 1]) + if bus[|bus| - 1] == event then 1 else 0
  }

  lemma {:induction false} TimesOfConcat(event: BusEvent, a: seq<BusEvent>, b: seq<BusEvent>)
    ensures Times(event, a + b) == Times(event, a) + Times(event, b)
    decreases |b|
  {
    if b == [] {
      assert a + b == a;
    } else {
      assert (a + b)[..|a + b| - 1] == a + b[..|b| - 1];
      TimesOfConcat(event, a, b[..|b| - 1]);
    }
  }

  lemma {:induction false} OthersAreNotCounted(event: BusEvent, bus: seq<BusEvent>, events: seq<BusEvent>)
    requires forall i | 0 <= i < |events| :: events[i] != event
    ensures Times(event, bus + events) == Times(event, bus)
    decreases |events|
  {
    if events == [] {
      assert bus + events == bus;
    } else {
      assert (bus + events)[..|bus + events| - 1] == bus + events[..|events| - 1];
      OthersAreNotCounted(event, bus, events[..|events| - 1]);
    }
  }

  lemma OneMore(event: BusEvent, bus: seq<BusEvent>)
    ensures Times(event, bus + [event]) == Times(event, bus) + 1
  {
    assert (bus + [event])[..|bus|] == bus;
  }

  predicate PairedIn(mac: Address, peers: PeerMap) {
    mac in peers && peers[mac].paired
  }

  predicate PairsUp(mac: Address, before: PeerMap, after: PeerMap) {
    !PairedIn(mac, before) && PairedIn(mac, after)
  }

  // From one state to another: the results announced are those of the peer paired and those confirmed, the list of
  // paired devices is sent when the peer's pairing changed, and the pins of the peer paired and of those gone go.
  predicate Announces(s: State, t: State, mac: Address, confirmed: nat, gone: set<Address>) {
    && Times(PairingResult, t.bus)
       == Times(PairingResult, s.bus) + (if PairsUp(mac, s.peers, t.peers) then 1 else 0) + confirmed
    && Times(PairedDevices, t.bus)
       == Times(PairedDevices, s.bus) + (if PairedIn(mac, s.peers) != PairedIn(mac, t.peers) then 1 else 0)
    && t.pinPending == (s.pinPending - gone) - (if PairsUp(mac, s.peers, t.peers) then {mac} else {})
  }

  lemma PairingEventsCount(bus: seq<BusEvent>, diff: Diff)
    ensures var sent := bus + ([PeerSnapshot(diff.snapshot)] + PairingEvents(diff));
            && Times(PairingResult, sent) == Times(PairingResult, bus) + (if diff.pairedTransitionedUp then 1 else 0)
            && Times(PairedDevices, sent) == Times(PairedDevices, bus) + (if diff.pairedSetChanged then 1 else 0)
  {
    var first := bus + [PeerSnapshot(diff.snapshot)];
    var second := first + if diff.pairedSetChanged then [PairedDevices] else [];
    var third := second + if diff.pairedTransitionedUp then [PairingResult] else [];
    assert bus + ([PeerSnapshot(diff.snapshot)] + PairingEvents(diff)) == third;
    assert first + [] == first && second + [] == second;
    OthersAreNotCounted(PairingResult, bus, [PeerSnapshot(diff.snapshot)]);
    OthersAreNotCounted(PairedDevices, bus, [PeerSnapshot(diff.snapshot)]);
    OthersAreNotCounted(PairingResult, first, [PairedDevices]);
    OneMore(PairedDevices, first);
    OthersAreNotCounted(PairedDevices, second, [PairingResult]);
    OneMore(PairingResult, second);
  }

  lemma PresentAnnouncesNoPairing(event: BusEvent, s: State, diff: Diff)
    requires event == PairingResult || event == PairedDevices
    ensures Times(event, Present(s, diff).bus) == Times(event, s.bus)
  {
    OthersAreNotCounted(event, s.bus, UpEvents(diff.usefulDevice));
    OthersAreNotCounted(event, s.bus, LINK_DOWN);
  }

  lemma BroadcastAnnounces(s: State, diff: Diff)
    ensures var t := Broadcast(s, diff);
            && Times(PairingResult, t.bus) == Times(PairingResult, s.bus) + (if diff.pairedTransitionedUp then 1 else 0)
            && Times(PairedDevices, t.bus) == Times(PairedDevices, s.bus) + (if diff.pairedSetChanged then 1 else 0)
            && t.pinPending == s.pinPending - (if diff.pairedTransitionedUp then {diff.mac} else {})
            && t.peers == s.peers
  {
    PairingEventsCount(s.bus, diff);
    AfterTheAnnouncement(Announce(s, diff), diff);
  }

  lemma AfterTheAnnouncement(s: State, diff: Diff)
    ensures var t := Send(Present(s, diff), LossEvents(diff));
            && Times(PairingResult, t.bus) == Times(PairingResult, s.bus)
            && Times(PairedDevices, t.bus) == Times(PairedDevices, s.bus)
            && t.pinPending == s.pinPending && t.peers == s.peers
  {
    AnnouncementIsOver(PairingResult, s, diff);
    AnnouncementIsOver(PairedDevices, s, diff);
    PresentLeavesTheRest(s, diff);
  }

  lemma AnnouncementIsOver(event: BusEvent, s: State, diff: Diff)
    requires event == PairingResult || event == PairedDevices
    ensures Times(event, Send(Present(s, diff), LossEvents(diff)).bus) == Times(event, s.bus)
  {
    PresentAnnouncesNoPairing(event, s, diff);
    OthersAreNotCounted(event, Present(s, diff).bus, LossEvents(diff));
  }

  lemma ReplaceAnnounces(s: State, mac: Address, after: PeerMap)
    ensures Announces(s, Replace(s, mac, after), mac, 0, {})
  {
    BroadcastAnnounces(s.(peers := after), ComputeDiff(mac, Lookup(s.peers, mac), Lookup(after, mac), after));
  }

  lemma RemovedAnnounces(s: State, mac: Address)
    ensures Announces(s, Removed(s, mac), mac, 0, {mac})
  {
    RemovedPeers(s, mac);
    if mac in s.peers {
      ReplaceAnnounces(s.(pinPending := s.pinPending - {mac}, pendingBluezRemovals := s.pendingBluezRemovals - {mac}),
                       mac, s.peers - {mac});
    }
  }

  lemma WaitingChangeAnnounces(s: State, mac: Address, change: Change, written: State)
    requires mac in s.peers && TouchesLink(change)
    requires written.peers == s.peers[mac := Changed(s.peers[mac], change)]
    requires Announces(s, written, mac, 0, {})
    ensures Announces(s, Removed(written, mac), mac, 0, {mac})
  {
    RemovedPeers(written, mac);
    RemovedAnnounces(written, mac);
  }

  lemma SetAnnounces(s: State, mac: Address, change: Change)
    requires Invariant(s)
    ensures var t := Handled(s, Set(mac, change));
            Announces(s, t, mac, 0, if mac in s.peers && mac !in t.peers then {mac} else {})
  {
    ChangePeers(s, mac, change);
    if mac in s.peers {
      var after := s.peers[mac := Changed(s.peers[mac], change)];
      var written := Replace(s, mac, after);
      ReplaceAnnounces(s, mac, after);
      ReplacePublishes(s, mac, after);
      CompletedPeers(written, mac);
      if EndsAWaitingPeer(s, mac, change) {
        assert s.peers[mac].HasUsefulLink();
        WaitingChangeAnnounces(s, mac, change, written);
      }
    }
  }

  lemma SightingAnnounces(s: State, cmd: Command)
    requires cmd.Upsert? || cmd.EnsureExists?
    ensures Announces(s, Handled(s, cmd), cmd.mac, 0, {})
  {
    ReplaceAnnounces(s.(pendingBluezRemovals := s.pendingBluezRemovals - {cmd.mac}), cmd.mac, PeersAfter(s, cmd));
  }

  lemma TalkAnnounces(s: State, cmd: Command)
    requires cmd.ConfirmPairing? || cmd.Seed? || cmd.ResyncStockConnection? || cmd.FlushPendingDisconnect?
    ensures var t := Handled(s, cmd);
            && Times(PairingResult, t.bus) == Times(PairingResult, s.bus) + (if IsConfirmation(s, cmd) then 1 else 0)
            && Times(PairedDevices, t.bus) == Times(PairedDevices, s.bus)
  {
    match cmd
    case ConfirmPairing(_) =>
      OneMore(PairingResult, s.bus);
      OthersAreNotCounted(PairedDevices, s.bus, [PairingResult]);
    case Seed(socket) =>
      OthersAreNotCounted(PairingResult, s.bus, SeedEvents(s, socket));
      OthersAreNotCounted(PairedDevices, s.bus, SeedEvents(s, socket));
    case ResyncStockConnection => ResyncAnnounces(s);
    case FlushPendingDisconnect(_) =>
      OthersAreNotCounted(PairingResult, s.bus, LINK_DOWN);
      OthersAreNotCounted(PairedDevices, s.bus, LINK_DOWN);
  }

  lemma ResyncAnnounces(s: State)
    ensures Times(PairingResult, Resynced(s).bus) == Times(PairingResult, s.bus)
    ensures Times(PairedDevices, Resynced(s).bus) == Times(PairedDevices, s.bus)
  {
    OthersAreNotCounted(PairingResult, s.bus, [StockDisconnection]);
    OthersAreNotCounted(PairedDevices, s.bus, [StockDisconnection]);
    if s.presentedDevice.Some? {
      var device := s.presentedDevice.value;
      var events := [StockConnection(device), ConnectedDevice(device), Status(true), PlayerState, Volume];
      OthersAreNotCounted(PairingResult, s.bus, events);
      OthersAreNotCounted(PairedDevices, s.bus, events);
    }
  }

  predicate IsConfirmation(s: State, cmd: Command) {
    cmd.ConfirmPairing? && cmd.mac in s.pinPending
  }

  // A pairing, told from the peers before and after the command.
  predicate IsPairing(s: State, cmd: Command, t: State) {
    Subject(cmd).Some? && PairsUp(Subject(cmd).value, s.peers, t.peers)
  }

  predicate ChangesPairing(s: State, cmd: Command, t: State) {
    Subject(cmd).Some? && PairedIn(Subject(cmd).value, s.peers) != PairedIn(Subject(cmd).value, t.peers)
  }

  // The commands that take back the pin shown for a peer: it is confirmed, or the peer is paired or removed.
  predicate SettlesThePin(s: State, cmd: Command, t: State) {
    || cmd.ConfirmPairing? || cmd.Remove? || cmd.RemoveBluez?
    || (cmd.Set? && (PairsUp(cmd.mac, s.peers, t.peers) || (cmd.mac in s.peers && cmd.mac !in t.peers)))
  }

  predicate PairingIsTold(s: State, cmd: Command, t: State) {
    && Times(PairingResult, t.bus) == Times(PairingResult, s.bus)
         + (if IsPairing(s, cmd, t) then 1 else 0) + (if IsConfirmation(s, cmd) then 1 else 0)
    && Times(PairedDevices, t.bus) == Times(PairedDevices, s.bus) + (if ChangesPairing(s, cmd, t) then 1 else 0)
  }

  predicate PinIsKept(s: State, cmd: Command, t: State, mac: Address) {
    mac in t.pinPending <==>
    || cmd == NotePinShown(mac)
    || (mac in s.pinPending && !(Subject(cmd) == Some(mac) && SettlesThePin(s, cmd, t)))
  }

  lemma SightingTells(s: State, cmd: Command, mac: Address)
    requires cmd.Upsert? || cmd.EnsureExists?
    ensures PairingIsTold(s, cmd, Handled(s, cmd)) && PinIsKept(s, cmd, Handled(s, cmd), mac)
  {
    SightingAnnounces(s, cmd);
    SightingPairsNobody(s, cmd);
    ToldAs(s, cmd, Handled(s, cmd), cmd.mac, {}, mac);
  }

  lemma SightingPairsNobody(s: State, cmd: Command)
    requires cmd.Upsert? || cmd.EnsureExists?
    ensures !PairsUp(cmd.mac, s.peers, Handled(s, cmd).peers)
  {
    ReplacePublishes(s.(pendingBluezRemovals := s.pendingBluezRemovals - {cmd.mac}), cmd.mac, PeersAfter(s, cmd));
  }

  lemma SetTells(s: State, a: Address, change: Change, mac: Address)
    requires Invariant(s)
    ensures var t := Handled(s, Set(a, change));
            PairingIsTold(s, Set(a, change), t) && PinIsKept(s, Set(a, change), t, mac)
  {
    SetAnnounces(s, a, change);
    ToldAs(s, Set(a, change), Handled(s, Set(a, change)), a, if a in s.peers && a !in Handled(s, Set(a, change)).peers then {a} else {}, mac);
  }

  lemma RemovalTells(s: State, cmd: Command, mac: Address)
    requires cmd.Remove? || cmd.RemoveBluez?
    ensures PairingIsTold(s, cmd, Handled(s, cmd)) && PinIsKept(s, cmd, Handled(s, cmd), mac)
  {
    if cmd.RemoveBluez? && IsUseful(Lookup(s.peers, cmd.mac)) {
      DeferredRemovalTells(s, cmd.mac, mac);
    } else {
      RemovedTells(s, cmd, Removed(s, cmd.mac), mac);
    }
  }

  lemma DeferredRemovalTells(s: State, a: Address, mac: Address)
    requires IsUseful(Lookup(s.peers, a))
    ensures var t := Handled(s, RemoveBluez(a));
            PairingIsTold(s, RemoveBluez(a), t) && PinIsKept(s, RemoveBluez(a), t, mac)
  {
  }

  lemma RemovedTells(s: State, cmd: Command, t: State, mac: Address)
    requires (cmd.Remove? || cmd.RemoveBluez?) && t == Removed(s, cmd.mac)
    ensures PairingIsTold(s, cmd, t) && PinIsKept(s, cmd, t, mac)
  {
    RemovedAnnounces(s, cmd.mac);
    assert !PairsUp(cmd.mac, s.peers, t.peers) by {
      RemovedPeers(s, cmd.mac);
    }
    ToldAs(s, cmd, t, cmd.mac, {cmd.mac}, mac);
  }

  lemma ToldAs(s: State, cmd: Command, t: State, a: Address, gone: set<Address>, mac: Address)
    requires Subject(cmd) == Some(a) && !cmd.NotePinShown? && !cmd.ConfirmPairing?
    requires cmd.Upsert? || cmd.EnsureExists? ==> !PairsUp(a, s.peers, t.peers)
    requires Announces(s, t, a, 0, gone)
    requires gone == if SettlesThePin(s, cmd, t) && !PairsUp(a, s.peers, t.peers) then {a} else {}
    ensures PairingIsTold(s, cmd, t) && PinIsKept(s, cmd, t, mac)
  {
  }

  lemma TalkTells(s: State, cmd: Command, mac: Address)
    requires !cmd.Upsert? && !cmd.EnsureExists? && !cmd.Set? && !cmd.Remove? && !cmd.RemoveBluez?
    ensures PairingIsTold(s, cmd, Handled(s, cmd)) && PinIsKept(s, cmd, Handled(s, cmd), mac)
  {
    if !cmd.NotePinShown? {
      TalkAnnounces(s, cmd);
    }
  }

  // Main result: whatever the command, a pairing result is announced once for a peer that becomes paired and once
  // for a confirmed pin, the paired devices are sent exactly when a peer's pairing changed, and a pin is pending
  // from when it is shown until it is settled.
  lemma PairingsAreAnnounced(s: State, cmd: Command, mac: Address)
    requires Invariant(s)
    ensures PairingIsTold(s, cmd, Handled(s, cmd)) && PinIsKept(s, cmd, Handled(s, cmd), mac)
  {
    match cmd
    case Upsert(_, _) => SightingTells(s, cmd, mac);
    case EnsureExists(_, _) => SightingTells(s, cmd, mac);
    case Set(a, change) => SetTells(s, a, change, mac);
    case Remove(_) => RemovalTells(s, cmd, mac);
    case RemoveBluez(_) => RemovalTells(s, cmd, mac);
    case NotePinShown(_) => TalkTells(s, cmd, mac);
    case ConfirmPairing(_) => TalkTells(s, cmd, mac);
    case Seed(_) => TalkTells(s, cmd, mac);
    case ResyncStockConnection => TalkTells(s, cmd, mac);
    case FlushPendingDisconnect(_) => TalkTells(s, cmd, mac);
  }

  // The command that pairs: it announces the result and settles the pin exactly when the peer was not paired.
  lemma SetPairedPairs(s: State, mac: Address, paired: bool)
    requires Invariant(s) && mac in s.peers
    ensures var t := Handled(s, Set(mac, Paired(paired)));
            var up := !s.peers[mac].paired && paired;
            && t.peers == s.peers[mac := s.peers[mac].(paired := paired)]
            && Times(PairingResult, t.bus) == Times(PairingResult, s.bus) + (if up then 1 else 0)
            && Times(PairedDevices, t.bus) == Times(PairedDevices, s.bus) + (if s.peers[mac].paired != paired then 1 else 0)
            && t.pinPending == s.pinPending - (if up then {mac} else {})
  {
    ChangePeers(s, mac, Paired(paired));
    assert !EndsAWaitingPeer(s, mac, Paired(paired));
    SetAnnounces(s, mac, Paired(paired));
  }

  // ----- what a command writes

  // A setter writes its own field and leaves every other as it was, unless the peer leaves with its link.
  lemma SetterWritesItsField(s: State, mac: Address, change: Change)
    requires Invariant(s) && mac in s.peers
    requires mac in Handled(s, Set(mac, change)).peers
    ensures var was, now := s.peers[mac], Handled(s, Set(mac, change)).peers[mac];
            && now.device == was.device
            && now.paired == (if change.Paired? then change.paired else was.paired)
            && now.iap2 == (if change.Iap2? then change.iap2 else was.iap2)
            && now.companion == (if change.Companion? then change.companion else was.companion)
            && now.displayName == (if change.DisplayName? then Some(change.name) else was.displayName)
            && now.language == (if change.Language? then Some(change.language) else was.language)
            && now.uuid == (if change.Uuid? then Some(change.uuid) else was.uuid)
  {
    ChangePeers(s, mac, change);
  }

  // A sighting makes an unpaired peer without links, or renames the one there is; EnsureExists leaves that one alone.
  lemma SightingWritesThePeer(s: State, cmd: Command)
    requires Invariant(s) && (cmd.Upsert? || cmd.EnsureExists?)
    ensures cmd.mac in Handled(s, cmd).peers
    ensures var now := Handled(s, cmd).peers[cmd.mac];
            if cmd.mac in s.peers then
              now == if cmd.Upsert? then s.peers[cmd.mac].(device := cmd.device) else s.peers[cmd.mac]
            else
              && now.device == cmd.device && !now.paired && now.iap2 == NoIap2 && now.companion == NoCompanion
              && now.displayName == None && now.language == None && now.uuid == None
  {
    HandledPeers(s, cmd);
  }

  // ----- lost links

  predicate HasCompanion(mac: Address, peers: PeerMap) {
    mac in peers && peers[mac].companion != NoCompanion
  }

  predicate HasConnectedCompanion(mac: Address, peers: PeerMap) {
    mac in peers && peers[mac].companion != NoCompanion && peers[mac].companion != Pending
  }

  // The gateway's routes are torn down exactly when its peer had a companion, pending or connected, and has none any
  // more; the companion is given up exactly when it was connected and is not; and either at once for a peer that goes.
  lemma LostLinksAreAnnounced(s: State, cmd: Command)
    requires Invariant(s)
    ensures var t, mac := Handled(s, cmd), Subject(cmd);
            && Losses(GatewayLink, t.bus) == Losses(GatewayLink, s.bus)
                 + (if mac.Some? && HasCompanion(mac.value, s.peers) && !HasCompanion(mac.value, t.peers)
                    then [mac.value] else [])
            && Losses(CompanionLink, t.bus) == Losses(CompanionLink, s.bus)
                 + (if mac.Some? && HasConnectedCompanion(mac.value, s.peers) && !HasConnectedCompanion(mac.value, t.peers)
                    then [mac.value] else [])
  {
    EveryLostLinkIsTornDownOnce(GatewayLink, s, cmd);
    EveryLostLinkIsTornDownOnce(CompanionLink, s, cmd);
    if Subject(cmd).Some? {
      LinksAreCompanions(Subject(cmd).value, s.peers);
      LinksAreCompanions(Subject(cmd).value, Handled(s, cmd).peers);
    }
  }

  lemma LinksAreCompanions(mac: Address, peers: PeerMap)
    ensures Holds(GatewayLink, Lookup(peers, mac)) <==> HasCompanion(mac, peers)
    ensures Holds(CompanionLink, Lookup(peers, mac)) <==> HasConnectedCompanion(mac, peers)
  {
  }

  // ----- over a run

  function Pairings(s: State, cmds: seq<Command>): (count: nat)
    decreases |cmds|
  {
    if cmds == [] then 0
    else
      var t := Handled(s, cmds[0]);
      Pairings(t, cmds[1..]) + if IsPairing(s, cmds[0], t) || IsConfirmation(s, cmds[0]) then 1 else 0
  }

  lemma OneCommandAnnounces(s: State, cmd: Command)
    requires Invariant(s)
    ensures var t := Handled(s, cmd);
            Times(PairingResult, t.bus)
            == Times(PairingResult, s.bus) + if IsPairing(s, cmd, t) || IsConfirmation(s, cmd) then 1 else 0
  {
    PairingsAreAnnounced(s, cmd, "");
    if IsConfirmation(s, cmd) {
      HandledPeers(s, cmd);
    }
  }

  // Over every run, the results announced are the peers that became paired and the pins confirmed.
  lemma {:induction false} ResultsAreThePairings(s: State, cmds: seq<Command>)
    requires Invariant(s) && LegalFrom(s, cmds)
    ensures Times(PairingResult, RunFrom(s, cmds).bus) == Times(PairingResult, s.bus) + Pairings(s, cmds)
    decreases |cmds|
  {
    if cmds != [] {
      OneCommandAnnounces(s, cmds[0]);
      HandledKeepsTheInvariant(s, cmds[0]);
      ResultsAreThePairings(Handled(s, cmds[0]), cmds[1..]);
    }
  }
}

/**
 Whose device the peer actor presents. It is set when a peer comes up while no other is useful, and then kept
 until the presentation ends: it follows no peer that takes over in between.
 */
module PeerPresentation {
  import opened Wrappers
  import opened Peers
  import opened PeerActor
  import opened PeerRuns

  // The peer becomes useful while no other is, told apart by device id.
  predicate RisesAt(mac: Address, before: PeerMap, after: PeerMap) {
    && !IsUseful(Lookup(before, mac)) && IsUseful(Lookup(after, mac))
    && !OtherUsefulById(Some(after[mac].device.id), after)
  }

  predicate ComesUp(s: State, cmd: Command) {
    Subject(cmd).Some? && RisesAt(Subject(cmd).value, s.peers, PeersAfter(s, cmd))
  }

  function PresentedAfter(s: State, cmd: Command): Option<Device> {
    if ComesUp(s, cmd) then Some(PeersAfter(s, cmd)[Subject(cmd).value].device)
    else if EndsThePresentation(s, cmd) then None
    else s.presentedDevice
  }

  lemma PresentDevice(s: State, diff: Diff)
    ensures var t := Present(s, diff);
            && t.presentedDevice == (if diff.usefulLinkTransitionedUp then diff.usefulDevice
                                     else if s.presentedConnected && !AnyUseful(s.peers) && (diff.removed || diff.companionLost.Some?)
                                     then None else s.presentedDevice)
  {
  }

  lemma ReplaceDevice(s: State, mac: Address, after: PeerMap)
    ensures Replace(s, mac, after).presentedDevice
         == if RisesAt(mac, s.peers, after) then Some(after[mac].device)
            else if s.presentedConnected && !AnyUseful(after) && GoneAt(mac, s.peers, after) then None
            else s.presentedDevice
  {
    var diff := ComputeDiff(mac, Lookup(s.peers, mac), Lookup(after, mac), after);
    PresentDevice(Announce(s.(peers := after), diff), diff);
  }

  lemma RemovedDevice(s: State, mac: Address)
    ensures Removed(s, mac).presentedDevice
         == if s.presentedConnected && !AnyUseful(s.peers - {mac}) && mac in s.peers then None else s.presentedDevice
  {
    if mac in s.peers {
      ReplaceDevice(s.(pinPending := s.pinPending - {mac}, pendingBluezRemovals := s.pendingBluezRemovals - {mac}),
                    mac, s.peers - {mac});
    }
  }

  lemma WaitingChangeDevice(s: State, mac: Address, change: Change)
    requires Invariant(s) && mac in s.peers && EndsAWaitingPeer(s, mac, change)
    ensures WithChange(s, mac, change).presentedDevice
         == if s.presentedConnected && !AnyUseful(s.peers - {mac}) then None else s.presentedDevice
  {
    var after := s.peers[mac := Changed(s.peers[mac], change)];
    var written := Replace(s, mac, after);
    assert TouchesLink(change) by {
      assert s.peers[mac].HasUsefulLink();
    }
    ReplaceDevice(s, mac, after);
    ReplaceDowns(s, mac, after);
    ReplacePublishes(s, mac, after);
    ReplaceKeepsThePresentation(s, mac, after);
    RemovedDevice(written, mac);
    AnyUsefulSplits(mac, after);
    assert after - {mac} == s.peers - {mac};
  }

  lemma PlainChangeDevice(s: State, mac: Address, change: Change)
    requires Invariant(s) && mac in s.peers && !EndsAWaitingPeer(s, mac, change)
    ensures var after := s.peers[mac := Changed(s.peers[mac], change)];
            WithChange(s, mac, change).presentedDevice == Replace(s, mac, after).presentedDevice
  {
    var after := s.peers[mac := Changed(s.peers[mac], change)];
    ReplacePublishes(s, mac, after);
    CompletedPeers(Replace(s, mac, after), mac);
  }

  lemma SetDevice(s: State, mac: Address, change: Change)
    requires Invariant(s)
    ensures WithChange(s, mac, change).presentedDevice == PresentedAfter(s, Set(mac, change))
  {
    if mac !in s.peers {
    } else if EndsAWaitingPeer(s, mac, change) {
      WaitingChangeDevice(s, mac, change);
    } else {
      PlainChangeDevice(s, mac, change);
      ReplaceDevice(s, mac, s.peers[mac := Changed(s.peers[mac], change)]);
    }
  }

  lemma SightingDevice(s: State, cmd: Command)
    requires cmd.Upsert? || cmd.EnsureExists?
    ensures Handled(s, cmd).presentedDevice == PresentedAfter(s, cmd)
  {
    ReplaceDevice(s.(pendingBluezRemovals := s.pendingBluezRemovals - {cmd.mac}), cmd.mac, PeersAfter(s, cmd));
  }

  // The device presented after any command: the subject's when it comes up, none when the presentation ends, and
  // the one presented before otherwise.
  lemma HandledDevice(s: State, cmd: Command)
    requires Invariant(s) && Enabled(s, cmd)
    ensures Handled(s, cmd).presentedDevice == PresentedAfter(s, cmd)
  {
    match cmd
    case Upsert(_, _) => SightingDevice(s, cmd);
    case EnsureExists(_, _) => SightingDevice(s, cmd);
    case Set(mac, change) => SetDevice(s, mac, change);
    case Remove(mac) => RemovedDevice(s, mac);
    case RemoveBluez(mac) => RemovedDevice(s, mac);
    case NotePinShown(_) =>
    case ConfirmPairing(_) =>
    case Seed(_) =>
    case ResyncStockConnection =>
    case FlushPendingDisconnect(epoch) => FlushIsStaleOrEndsThePresentation(s, epoch);
  }

  // The presented device carries the id of this peer, which is useful.
  predicate Shows(s: State, mac: Address) {
    && IsUseful(Lookup(s.peers, mac))
    && s.presentedDevice.Some? && s.presentedDevice.value.id == s.peers[mac].device.id
  }

  // A command that leaves the peer shown useful under its id leaves it shown.
  lemma ShownPeerStaysShown(s: State, cmd: Command, mac: Address)
    requires Invariant(s) && Enabled(s, cmd) && Shows(s, mac)
    requires IsUseful(Lookup(PeersAfter(s, cmd), mac)) && PeersAfter(s, cmd)[mac].device.id == s.peers[mac].device.id
    ensures Shows(Handled(s, cmd), mac)
  {
    HandledPeers(s, cmd);
    HandledDevice(s, cmd);
    assert AnyUseful(s.peers) && AnyUseful(PeersAfter(s, cmd));
  }

  ghost predicate StaysUseful(s: State, cmds: seq<Command>, mac: Address, id: string)
    decreases |cmds|
  {
    && IsUseful(Lookup(s.peers, mac)) && s.peers[mac].device.id == id
    && (cmds != [] ==> StaysUseful(Handled(s, cmds[0]), cmds[1..], mac, id))
  }

  // Main result: once a useful peer is shown, as it is when it comes up, it stays shown in every run in which it
  // stays useful under its id, whatever happens to the other peers.
  lemma {:induction false} PresentedDeviceIsUseful(s: State, cmds: seq<Command>, mac: Address)
    requires Invariant(s) && LegalFrom(s, cmds) && Shows(s, mac)
    requires StaysUseful(s, cmds, mac, s.peers[mac].device.id)
    ensures Shows(RunFrom(s, cmds), mac)
    decreases |cmds|
  {
    if cmds != [] {
      HandledPeers(s, cmds[0]);
      ShownPeerStaysShown(s, cmds[0], mac);
      HandledKeepsTheInvariant(s, cmds[0]);
      PresentedDeviceIsUseful(Handled(s, cmds[0]), cmds[1..], mac);
    }
  }

  // Exactly when a command leaves the device of a useful peer presented: it brought the peer up, or the device
  // kept is that of a peer useful after it.
  lemma ShowsAUsefulPeerExactly(s: State, cmd: Command)
    requires Invariant(s) && Enabled(s, cmd)
    ensures ComesUp(s, cmd) ==> Shows(Handled(s, cmd), Subject(cmd).value)
    ensures var t := Handled(s, cmd);
            (exists mac | mac in t.peers :: Shows(t, mac)) <==>
            || ComesUp(s, cmd)
            || (&& s.presentedDevice.Some?
                && exists mac | mac in t.peers :: t.peers[mac].HasUsefulLink() && t.peers[mac].device.id == s.presentedDevice.value.id)
  {
    var t := Handled(s, cmd);
    HandledPeers(s, cmd);
    HandledDevice(s, cmd);
    if ComesUp(s, cmd) {
      assert Shows(t, Subject(cmd).value);
    } else if mac :| mac in t.peers && t.peers[mac].HasUsefulLink()
                     && s.presentedDevice.Some? && t.peers[mac].device.id == s.presentedDevice.value.id {
      assert AnyUseful(t.peers);
      KeptWhileUseful(s, cmd);
      assert Shows(t, mac);
    } else {
      assert forall mac | mac in t.peers :: !Shows(t, mac);
    }
  }

  lemma KeptWhileUseful(s: State, cmd: Command)
    requires Invariant(s) && Enabled(s, cmd) && AnyUseful(PeersAfter(s, cmd))
    ensures !EndsThePresentation(s, cmd)
  {
    if cmd.FlushPendingDisconnect? && cmd.epoch == s.disconnectGen {
      FlushIsStaleOrEndsThePresentation(s, cmd.epoch);
    }
  }

  // Such a run, from any state without a useful peer: two new peers come up one after the other and the first loses
  // its link. Its device is still the one presented, though only the other peer is useful.
  function ComingUp(mac: Address, device: Device): seq<Command> {
    [Upsert(mac, device), Set(mac, Iap2(Identified))]
  }

  function GoingDown(mac: Address): seq<Command> {
    [Set(mac, Iap2(NoIap2))]
  }

  function Handover(a: Address, d: Device, b: Address, e: Device): seq<Command> {
    (ComingUp(a, d) + ComingUp(b, e)) + GoingDown(a)
  }

  lemma NewPeerIsNotPresented(s: State, mac: Address, device: Device)
    requires Invariant(s) && mac !in s.peers && s.pendingBluezRemovals == {}
    ensures var t := Handled(s, Upsert(mac, device));
            && Invariant(t) && t.pendingBluezRemovals == {}
            && t.peers == s.peers[mac := NewPeer(device)] && t.presentedDevice == s.presentedDevice
  {
    HandledKeepsTheInvariant(s, Upsert(mac, device));
    HandledPeers(s, Upsert(mac, device));
    HandledDevice(s, Upsert(mac, device));
  }

  lemma SetWithoutRemovals(s: State, mac: Address, iap2: Iap2Status)
    requires Invariant(s) && mac in s.peers && s.pendingBluezRemovals == {}
    ensures var t := Handled(s, Set(mac, Iap2(iap2)));
            && Invariant(t) && t.pendingBluezRemovals == {} && t.peers == s.peers[mac := s.peers[mac].(iap2 := iap2)]
            && t.presentedDevice == PresentedAfter(s, Set(mac, Iap2(iap2)))
  {
    HandledKeepsTheInvariant(s, Set(mac, Iap2(iap2)));
    HandledPeers(s, Set(mac, Iap2(iap2)));
    HandledDevice(s, Set(mac, Iap2(iap2)));
  }

  lemma FirstIdentifiedIsPresented(s: State, mac: Address)
    requires Invariant(s) && mac in s.peers && s.pendingBluezRemovals == {} && !AnyUseful(s.peers)
    ensures Handled(s, Set(mac, Iap2(Identified))).presentedDevice == Some(s.peers[mac].device)
  {
    SetWithoutRemovals(s, mac, Identified);
  }

  lemma SecondIdentifiedIsNotPresented(s: State, a: Address, b: Address)
    requires Invariant(s) && a in s.peers && b in s.peers && s.pendingBluezRemovals == {}
    requires s.peers[a].HasUsefulLink() && s.peers[a].device.id != s.peers[b].device.id
    ensures Handled(s, Set(b, Iap2(Identified))).presentedDevice == s.presentedDevice
  {
    var after := PeersAfter(s, Set(b, Iap2(Identified)));
    SetWithoutRemovals(s, b, Identified);
    assert a in after && after[a].HasUsefulLink();
  }

  lemma LostIap2StaysPresented(s: State, mac: Address)
    requires Invariant(s) && mac in s.peers && s.pendingBluezRemovals == {} && s.peers[mac].companion.NoCompanion?
    ensures Handled(s, Set(mac, Iap2(NoIap2))).presentedDevice == s.presentedDevice
  {
    SetWithoutRemovals(s, mac, NoIap2);
  }

  lemma SliceOfConcat(early: seq<Command>, late: seq<Command>)
    requires early != []
    ensures (early + late)[0] == early[0] && (early + late)[1..] == early[1..] + late
  {
  }

  lemma {:induction false} RunOfConcat(s: State, early: seq<Command>, late: seq<Command>)
    requires LegalFrom(s, early) && LegalFrom(RunFrom(s, early), late)
    ensures LegalFrom(s, early + late) && RunFrom(s, early + late) == RunFrom(RunFrom(s, early), late)
    decreases |early|
  {
    if early == [] {
      assert early + late == late;
    } else {
      SliceOfConcat(early, late);
      RunOfConcat(Handled(s, early[0]), early[1..], late);
    }
  }

  lemma RunOfThree(s: State, first: seq<Command>, second: seq<Command>, third: seq<Command>)
    requires LegalFrom(s, first) && LegalFrom(RunFrom(s, first), second)
    requires LegalFrom(RunFrom(RunFrom(s, first), second), third)
    ensures LegalFrom(s, (first + second) + third)
    ensures RunFrom(s, (first + second) + third) == RunFrom(RunFrom(RunFrom(s, first), second), third)
  {
    RunOfConcat(s, first, second);
    RunOfConcat(s, first + second, third);
  }

  lemma RunOfOne(s: State, cmd: Command)
    requires Enabled(s, cmd)
    ensures LegalFrom(s, [cmd]) && RunFrom(s, [cmd]) == Handled(s, cmd)
  {
    assert [cmd][1..] == [];
  }

  lemma ComingUpRuns(s: State, mac: Address, device: Device)
    ensures LegalFrom(s, ComingUp(mac, device))
    ensures RunFrom(s, ComingUp(mac, device)) == Handled(Handled(s, Upsert(mac, device)), Set(mac, Iap2(Identified)))
  {
    RunOfOne(s, Upsert(mac, device));
    RunOfOne(Handled(s, Upsert(mac, device)), Set(mac, Iap2(Identified)));
    RunOfConcat(s, [Upsert(mac, device)], [Set(mac, Iap2(Identified))]);
    assert ComingUp(mac, device) == [Upsert(mac, device)] + [Set(mac, Iap2(Identified))];
  }

  lemma FirstPeerUp(s: State, a: Address, d: Device) returns (t: State)
    requires Invariant(s) && s.pendingBluezRemovals == {} && a !in s.peers && !AnyUseful(s.peers)
    ensures LegalFrom(s, ComingUp(a, d)) && t == RunFrom(s, ComingUp(a, d))
    ensures Invariant(t) && t.pendingBluezRemovals == {} && t.presentedDevice == Some(d)
    ensures t.peers == s.peers[a := NewPeer(d).(iap2 := Identified)]
  {
    NewPeerIsNotPresented(s, a, d);
    var known := Handled(s, Upsert(a, d));
    FirstIsUp(known, a);
    t := Handled(known, Set(a, Iap2(Identified)));
    ComingUpRuns(s, a, d);
  }

  lemma FirstIsUp(s: State, a: Address)
    requires Invariant(s) && a in s.peers && s.pendingBluezRemovals == {} && !AnyUseful(s.peers)
    ensures var t := Handled(s, Set(a, Iap2(Identified)));
            && Invariant(t) && t.pendingBluezRemovals == {} && t.presentedDevice == Some(s.peers[a].device)
            && t.peers == s.peers[a := s.peers[a].(iap2 := Identified)]
  {
    FirstIdentifiedIsPresented(s, a);
    SetWithoutRemovals(s, a, Identified);
  }

  lemma SecondPeerUp(s: State, a: Address, b: Address, e: Device) returns (t: State)
    requires Invariant(s) && s.pendingBluezRemovals == {} && a in s.peers && b !in s.peers
    requires s.peers[a].HasUsefulLink() && s.peers[a].device.id != e.id
    ensures LegalFrom(s, ComingUp(b, e)) && t == RunFrom(s, ComingUp(b, e))
    ensures Invariant(t) && t.pendingBluezRemovals == {} && t.presentedDevice == s.presentedDevice
    ensures t.peers == s.peers[b := NewPeer(e).(iap2 := Identified)]
  {
    NewPeerIsNotPresented(s, b, e);
    t := Handled(s, Upsert(b, e));
    SecondIdentifiedIsNotPresented(t, a, b);
    SetWithoutRemovals(t, b, Identified);
    t := Handled(t, Set(b, Iap2(Identified)));
    ComingUpRuns(s, b, e);
  }

  lemma FirstPeerDown(s: State, a: Address) returns (t: State)
    requires Invariant(s) && s.pendingBluezRemovals == {} && a in s.peers && s.peers[a].companion.NoCompanion?
    ensures LegalFrom(s, GoingDown(a)) && t == RunFrom(s, GoingDown(a))
    ensures t.peers == s.peers[a := s.peers[a].(iap2 := NoIap2)] && t.presentedDevice == s.presentedDevice
  {
    LostIap2StaysPresented(s, a);
    SetWithoutRemovals(s, a, NoIap2);
    RunOfOne(s, Set(a, Iap2(NoIap2)));
    t := Handled(s, Set(a, Iap2(NoIap2)));
  }

  lemma BackWithoutALink(peers: PeerMap, a: Address, d: Device, b: Address, other: Peer)
    requires a != b
    ensures peers[a := NewPeer(d).(iap2 := Identified)][b := other][a := NewPeer(d)] == peers[a := NewPeer(d)][b := other]
  {
  }

  lemma HandoverRuns(s: State, up: State, both: State, last: State, a: Address, d: Device, b: Address, e: Device)
    requires LegalFrom(s, ComingUp(a, d)) && up == RunFrom(s, ComingUp(a, d))
    requires LegalFrom(up, ComingUp(b, e)) && both == RunFrom(up, ComingUp(b, e))
    requires LegalFrom(both, GoingDown(a)) && last == RunFrom(both, GoingDown(a))
    ensures LegalFrom(s, Handover(a, d, b, e)) && last == RunFrom(s, Handover(a, d, b, e))
  {
    RunOfThree(s, ComingUp(a, d), ComingUp(b, e), GoingDown(a));
  }

  lemma PresentedDeviceCanBeStale(s: State, a: Address, d: Device, b: Address, e: Device)
    requires Invariant(s) && s.pendingBluezRemovals == {} && !AnyUseful(s.peers)
    requires a !in s.peers && b !in s.peers && a != b && d.id != e.id
    ensures var t := RunFrom(s, Handover(a, d, b, e));
            && LegalFrom(s, Handover(a, d, b, e)) && t.presentedDevice == Some(d)
            && t.peers == s.peers[a := NewPeer(d)][b := NewPeer(e).(iap2 := Identified)]
  {
    var up := FirstPeerUp(s, a, d);
    var both := SecondPeerUp(up, a, b, e);
    var last := FirstPeerDown(both, a);
    HandoverRuns(s, up, both, last, a, d, b, e);
    BackWithoutALink(s.peers, a, d, b, NewPeer(e).(iap2 := Identified));
  }
}

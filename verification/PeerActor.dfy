/**
 The actor of crates/core/src/peer.rs: one command at a time over a map of peers, with debounced
 disconnects and deferred BlueZ removals. What it sends is kept as a sequence of bus events; the
 spawned sleepers are kept as the set of epochs whose flush has not come back yet.
 */
module PeerActor {
  import opened Wrappers
  import opened Peers

  datatype BusEvent =
    | PeerSnapshot(peers: PeerMap)
    | PairedDevices
    | PairingResult
    | ConnectedDevice(device: Device)
    | StockConnection(device: Device)
    | StockDisconnection
    | PlayerState
    | Volume
    | Status(connected: bool)
    | GatewayLinkLost(addr: Address)
    | CompanionLost(addr: Address)
    | To(socket: string, event: BusEvent)  // sent to one client; every other event goes to all

  // What one of the setters writes.
  datatype Change =
    | Paired(paired: bool)
    | Iap2(iap2: Iap2Status)
    | Companion(companion: CompanionStatus)
    | DisplayName(name: string)
    | Language(language: string)
    | Uuid(uuid: string)

  datatype Command =
    | Upsert(mac: Address, device: Device)
    | EnsureExists(mac: Address, device: Device)
    | Set(mac: Address, change: Change)
    | Remove(mac: Address)
    | RemoveBluez(mac: Address)
    | NotePinShown(mac: Address)
    | ConfirmPairing(mac: Address)
    | Seed(socket: string)
    | ResyncStockConnection
    | FlushPendingDisconnect(epoch: nat)

  datatype State = State(
    peers: PeerMap,
    pinPending: set<Address>,
    pendingBluezRemovals: set<Address>,
    disconnectGen: nat,
    presentedConnected: bool,
    presentedDevice: Option<Device>,
    published: PeerMap,
    sleepers: set<nat>,
    bus: seq<BusEvent>)

  const INITIAL := State(map[], {}, {}, 0, false, None, map[], {}, [])

  function Send(s: State, events: seq<BusEvent>): State {
    s.(bus := s.bus + events)
  }

  const LINK_DOWN: seq<BusEvent> := [Status(false), StockDisconnection]

  function UpEvents(device: Option<Device>): seq<BusEvent> {
    (if device.Some? then [ConnectedDevice(device.value), StockConnection(device.value), PlayerState] else [])
    + [Status(true)]
  }

  function PairingEvents(diff: Diff): seq<BusEvent> {
    (if diff.pairedSetChanged then [PairedDevices] else [])
    + (if diff.pairedTransitionedUp then [PairingResult] else [])
  }

  function LossEvents(diff: Diff): seq<BusEvent> {
    (if diff.gatewayLinkLost.Some? then [GatewayLinkLost(diff.gatewayLinkLost.value)] else [])
    + (if diff.companionLost.Some? then [CompanionLost(diff.companionLost.value)] else [])
  }

  // The connection the clients are shown: up at once, down at once when a peer or its companion is
  // gone, down after the grace period otherwise.
  function Present(s: State, diff: Diff): State {
    if diff.usefulLinkTransitionedUp then
      Send(s.(disconnectGen := s.disconnectGen + 1, presentedConnected := true, presentedDevice := diff.usefulDevice),
           UpEvents(diff.usefulDevice))
    else if !s.presentedConnected || AnyUseful(s.peers) then s
    else if diff.removed || diff.companionLost.Some? then
      Send(s.(disconnectGen := s.disconnectGen + 1, presentedConnected := false, presentedDevice := None), LINK_DOWN)
    else if diff.usefulLinkTransitionedDown then
      s.(disconnectGen := s.disconnectGen + 1, sleepers := s.sleepers + {s.disconnectGen + 1})
    else s
  }

  function Announce(s: State, diff: Diff): State {
    Send(s.(published := s.peers, pinPending := s.pinPending - if diff.pairedTransitionedUp then {diff.mac} else {}),
         [PeerSnapshot(diff.snapshot)] + PairingEvents(diff))
  }

  function Broadcast(s: State, diff: Diff): State {
    Send(Present(Announce(s, diff), diff), LossEvents(diff))
  }

  // The peer map becomes `after`, which differs from the old one at `mac`, and the edges are sent.
  function Replace(s: State, mac: Address, after: PeerMap): State {
    Broadcast(s.(peers := after), ComputeDiff(mac, Lookup(s.peers, mac), Lookup(after, mac), after))
  }

  function Changed(peer: Peer, change: Change): Peer {
    match change
    case Paired(paired) => peer.(paired := paired)
    case Iap2(iap2) => peer.(iap2 := iap2)
    case Companion(companion) => peer.(companion := companion)
    case DisplayName(name) => peer.(displayName := Some(name))
    case Language(language) => peer.(language := Some(language))
    case Uuid(uuid) => peer.(uuid := Some(uuid))
  }

  predicate TouchesLink(change: Change) {
    change.Iap2? || change.Companion?
  }

  function Removed(s: State, mac: Address): State {
    var forgotten := s.(pinPending := s.pinPending - {mac}, pendingBluezRemovals := s.pendingBluezRemovals - {mac});
    if mac in s.peers then Replace(forgotten, mac, s.peers - {mac}) else forgotten
  }

  function RemovalCompleted(s: State, mac: Address): State {
    if mac in s.pendingBluezRemovals && mac in s.peers && !s.peers[mac].HasUsefulLink() then Removed(s, mac) else s
  }

  function WithChange(s: State, mac: Address, change: Change): State {
    if mac !in s.peers then s
    else
      var written := Replace(s, mac, s.peers[mac := Changed(s.peers[mac], change)]);
      if TouchesLink(change) then RemovalCompleted(written, mac) else written
  }

  function Flushed(s: State, epoch: nat): State {
    var woken := s.(sleepers := s.sleepers - {epoch});
    if epoch != s.disconnectGen || AnyUseful(s.peers) then woken
    else Send(woken.(presentedConnected := false, presentedDevice := None), LINK_DOWN)
  }

  function Resynced(s: State): State {
    if s.presentedConnected && s.presentedDevice.Some? then
      var device := s.presentedDevice.value;
      Send(s, [StockConnection(device), ConnectedDevice(device), Status(true), PlayerState, Volume])
    else Send(s, [StockDisconnection])
  }

  function SeedEvents(s: State, socket: string): seq<BusEvent> {
    [To(socket, PeerSnapshot(s.peers))]
    + (if s.presentedDevice.Some? then [To(socket, ConnectedDevice(s.presentedDevice.value))] else [])
    + [To(socket, Status(s.presentedConnected))]
  }

  function Handled(s: State, cmd: Command): State {
    match cmd
    case Upsert(mac, device) =>
      var kept := s.(pendingBluezRemovals := s.pendingBluezRemovals - {mac});
      var entry := if mac in s.peers then s.peers[mac] else NewPeer(device);
      Replace(kept, mac, s.peers[mac := entry.(device := device)])
    case EnsureExists(mac, device) =>
      var kept := s.(pendingBluezRemovals := s.pendingBluezRemovals - {mac});
      if mac in s.peers then kept else Replace(kept, mac, s.peers[mac := NewPeer(device)])
    case Set(mac, change) => WithChange(s, mac, change)
    case Remove(mac) => Removed(s, mac)
    case RemoveBluez(mac) =>
      if IsUseful(Lookup(s.peers, mac)) then
        s.(pinPending := s.pinPending - {mac}, pendingBluezRemovals := s.pendingBluezRemovals + {mac})
      else Removed(s, mac)
    case NotePinShown(mac) => s.(pinPending := s.pinPending + {mac})
    case ConfirmPairing(mac) =>
      if mac in s.pinPending then Send(s.(pinPending := s.pinPending - {mac}), [PairingResult]) else s
    case Seed(socket) => Send(s, SeedEvents(s, socket))
    case ResyncStockConnection => Resynced(s)
    case FlushPendingDisconnect(epoch) => Flushed(s, epoch)
  }

  class PeerActor {
    var peers: PeerMap
    var pinPending: set<Address>
    var pendingBluezRemovals: set<Address>
    var disconnectGen: nat
    var presentedConnected: bool
    var presentedDevice: Option<Device>
    var published: PeerMap     // the watch channel
    var sleepers: set<nat>     // epochs of the spawned sleeps still to come back
    var bus: seq<BusEvent>

    ghost function Current(): State
      reads this
    {
      State(peers, pinPending, pendingBluezRemovals, disconnectGen, presentedConnected, presentedDevice,
            published, sleepers, bus)
    }

    constructor ()
      ensures Current() == INITIAL
    {
      peers, pinPending, pendingBluezRemovals := map[], {}, {};
      disconnectGen, presentedConnected, presentedDevice := 0, false, None;
      published, sleepers, bus := map[], {}, [];
    }

    method Handle(cmd: Command)
      modifies this
      ensures Current() == Handled(old(Current()), cmd)
    {
      match cmd
      case Upsert(mac, device) => DoUpsert(mac, device);
      case EnsureExists(mac, device) => DoEnsureExists(mac, device);
      case Set(mac, change) => DoSet(mac, change);
      case Remove(mac) => DoRemove(mac);
      case RemoveBluez(mac) => DoRemoveBluez(mac);
      case NotePinShown(mac) => pinPending := pinPending + {mac};
      case ConfirmPairing(mac) =>
        var wasPending := mac in pinPending;
        pinPending := pinPending - {mac};
        if wasPending {
          bus := bus + [PairingResult];
        }
      case Seed(socket) => DoSeed(socket);
      case ResyncStockConnection => DoResync();
      case FlushPendingDisconnect(epoch) => DoFlush(epoch);
    }

    method DoUpsert(mac: Address, device: Device)
      modifies this
      ensures Current() == Handled(old(Current()), Upsert(mac, device))
    {
      pendingBluezRemovals := pendingBluezRemovals - {mac};
      var prior := Lookup(peers, mac);
      var entry := if prior.Some? then prior.value else NewPeer(device);
      entry := entry.(device := device);
      peers := peers[mac := entry];
      BroadcastDiff(ComputeDiff(mac, prior, Some(entry), peers));
    }

    method DoEnsureExists(mac: Address, device: Device)
      modifies this
      ensures Current() == Handled(old(Current()), EnsureExists(mac, device))
    {
      pendingBluezRemovals := pendingBluezRemovals - {mac};
      if mac in peers {
        return;
      }
      var entry := NewPeer(device);
      peers := peers[mac := entry];
      BroadcastDiff(ComputeDiff(mac, None, Some(entry), peers));
    }

    method DoSet(mac: Address, change: Change)
      modifies this
      ensures Current() == WithChange(old(Current()), mac, change)
    {
      if mac !in peers {
        return;
      }
      var prior := peers[mac];
      var current := Changed(prior, change);
      peers := peers[mac := current];
      BroadcastDiff(ComputeDiff(mac, Some(prior), Some(current), peers));
      if change.Iap2? || change.Companion? {
        MaybeCompleteBluezRemoval(mac);
      }
    }

    method DoRemove(mac: Address)
      modifies this
      ensures Current() == Removed(old(Current()), mac)
    {
      pinPending := pinPending - {mac};
      pendingBluezRemovals := pendingBluezRemovals - {mac};
      var prior := Lookup(peers, mac);
      if prior.None? {
        return;
      }
      peers := peers - {mac};
      BroadcastDiff(ComputeDiff(mac, prior, None, peers));
    }

    method DoRemoveBluez(mac: Address)
      modifies this
      ensures Current() == Handled(old(Current()), RemoveBluez(mac))
    {
      if mac in peers && peers[mac].HasUsefulLink() {
        pinPending := pinPending - {mac};
        pendingBluezRemovals := pendingBluezRemovals + {mac};
        return;
      }
      DoRemove(mac);
    }

    method MaybeCompleteBluezRemoval(mac: Address)
      modifies this
      ensures Current() == RemovalCompleted(old(Current()), mac)
    {
      if mac in pendingBluezRemovals && mac in peers && !peers[mac].HasUsefulLink() {
        DoRemove(mac);
      }
    }

    method BroadcastDiff(diff: Diff)
      modifies this
      ensures Current() == Broadcast(old(Current()), diff)
    {
      AnnounceDiff(diff);
      PresentDiff(diff);
      label presented:
      if diff.gatewayLinkLost.Some? {
        bus := bus + [GatewayLinkLost(diff.gatewayLinkLost.value)];
      }
      if diff.companionLost.Some? {
        bus := bus + [CompanionLost(diff.companionLost.value)];
      }
      assert bus == old@presented(bus) + LossEvents(diff);
    }

    method AnnounceDiff(diff: Diff)
      modifies this
      ensures Current() == Announce(old(Current()), diff)
    {
      published := peers;
      bus := bus + [PeerSnapshot(diff.snapshot)];
      if diff.pairedSetChanged {
        bus := bus + [PairedDevices];
      }
      if diff.pairedTransitionedUp {
        pinPending := pinPending - {diff.mac};
        bus := bus + [PairingResult];
      }
      assert bus == old(bus) + ([PeerSnapshot(diff.snapshot)] + PairingEvents(diff));
    }

    method PresentDiff(diff: Diff)
      modifies this
      ensures Current() == Present(old(Current()), diff)
    {
      if diff.usefulLinkTransitionedUp {
        disconnectGen := disconnectGen + 1;
        presentedConnected := true;
        presentedDevice := diff.usefulDevice;
        if diff.usefulDevice.Some? {
          var device := diff.usefulDevice.value;
          bus := bus + [ConnectedDevice(device)];
          bus := bus + [StockConnection(device)];
          bus := bus + [PlayerState];
        }
        bus := bus + [Status(true)];
        assert bus == old(bus) + UpEvents(diff.usefulDevice);
      } else if presentedConnected && !AnyUseful(peers) {
        if diff.removed || diff.companionLost.Some? {
          disconnectGen := disconnectGen + 1;
          presentedConnected := false;
          presentedDevice := None;
          BroadcastUsefulLinkDown();
        } else if diff.usefulLinkTransitionedDown {
          ScheduleDisconnectFlush();
        }
      }
    }

    method BroadcastUsefulLinkDown()
      modifies this`bus
      ensures bus == old(bus) + LINK_DOWN
    {
      bus := bus + [Status(false)];
      bus := bus + [StockDisconnection];
    }

    method ScheduleDisconnectFlush()
      modifies this`disconnectGen, this`sleepers
      ensures disconnectGen == old(disconnectGen) + 1
      ensures sleepers == old(sleepers) + {disconnectGen}
    {
      disconnectGen := disconnectGen + 1;
      var epoch := disconnectGen;
      sleepers := sleepers + {epoch};
    }

    method DoFlush(epoch: nat)
      modifies this
      ensures Current() == Flushed(old(Current()), epoch)
    {
      sleepers := sleepers - {epoch};
      if epoch != disconnectGen {
        return;
      }
      if AnyUseful(peers) {
        return;
      }
      presentedConnected := false;
      presentedDevice := None;
      BroadcastUsefulLinkDown();
    }

    method DoSeed(socket: string)
      modifies this`bus
      ensures Current() == Handled(old(Current()), Seed(socket))
    {
      bus := bus + [To(socket, PeerSnapshot(peers))];
      if presentedDevice.Some? {
        bus := bus + [To(socket, ConnectedDevice(presentedDevice.value))];
      }
      bus := bus + [To(socket, Status(presentedConnected))];
      assert bus == old(bus) + SeedEvents(old(Current()), socket);
    }

    method DoResync()
      modifies this`bus
      ensures Current() == Resynced(old(Current()))
    {
      if !presentedConnected || presentedDevice.None? {
        bus := bus + [StockDisconnection];
        return;
      }
      var device := presentedDevice.value;
      bus := bus + [StockConnection(device)];
      bus := bus + [ConnectedDevice(device)];
      bus := bus + [Status(true)];
      bus := bus + [PlayerState];
      bus := bus + [Volume];
      assert bus == old(bus) + [StockConnection(device), ConnectedDevice(device), Status(true), PlayerState, Volume];
    }
  }
}

/**
 What the clients of the peer actor are told: each one follows the events sent to it or to all, and what it then
 shows is what the actor presents, from the command that seeds it on.
 */
module PeerTold {
  import opened Wrappers
  import opened Peers
  import opened PeerActor
  import opened PeerRuns

  // What a client shows. The stock application, told apart, has a connection of its own.
  datatype View = View(peers: PeerMap, device: Option<Device>, connected: bool, stock: Option<Device>)

  const NOTHING_YET := View(map[], None, false, None)

  function Shown(v: View, event: BusEvent): View {
    match event
    case PeerSnapshot(peers) => v.(peers := peers)
    case ConnectedDevice(device) => v.(device := Some(device))
    case Status(connected) => v.(connected := connected, device := if connected then v.device else None)
    case StockConnection(device) => v.(stock := Some(device))
    case StockDisconnection => v.(stock := None)
    case _ => v
  }

  function Heard(socket: string, v: View, event: BusEvent): View {
    if !event.To? then Shown(v, event)
    else if event.socket == socket then Shown(v, event.event)
    else v
  }

  function Seen(socket: string, v: View, events: seq<BusEvent>): View
    decreases |events|
  {
    if events == [] then v else Heard(socket, Seen(socket, v, events[..|events| - 1]), events[|events| - 1])
  }

  lemma {:induction false} SeenOfConcat(socket: string, v: View, a: seq<BusEvent>, b: seq<BusEvent>)
    ensures Seen(socket, v, a + b) == Seen(socket, Seen(socket, v, a), b)
    decreases |b|
  {
    if b == [] {
      assert a + b == a;
    } else {
      assert (a + b)[..|a + b| - 1] == a + b[..|b| - 1];
      SeenOfConcat(socket, v, a, b[..|b| - 1]);
    }
  }

  lemma SeenOne(socket: string, v: View, event: BusEvent)
    ensures Seen(socket, v, [event]) == Heard(socket, v, event)
  {
    assert [event][..0] == [];
  }

  predicate Follows(v: View, s: State) {
    v.peers == s.peers && v.device == s.presentedDevice && v.connected == s.presentedConnected
  }

  predicate StockFollows(v: View, s: State) {
    v.stock == s.presentedDevice
  }

  // The state went on from one to the other, and a client that followed it still does.
  predicate Tells(socket: string, v: View, s: State, t: State) {
    && s.bus <= t.bus
    && (Follows(v, s) ==> Follows(Seen(socket, v, t.bus[|s.bus|..]), t))
    && (StockFollows(v, s) ==> StockFollows(Seen(socket, v, t.bus[|s.bus|..]), t))
  }

  lemma TellsOn(socket: string, v: View, s: State, m: State, t: State)
    requires Tells(socket, v, s, m)
    requires Tells(socket, Seen(socket, v, m.bus[|s.bus|..]), m, t)
    ensures Tells(socket, v, s, t)
  {
    assert t.bus[|s.bus|..] == m.bus[|s.bus|..] + t.bus[|m.bus|..];
    SeenOfConcat(socket, v, m.bus[|s.bus|..], t.bus[|m.bus|..]);
  }

  lemma SentTells(socket: string, v: View, s: State, t: State, events: seq<BusEvent>)
    requires t.bus == s.bus + events
    requires Follows(v, s) ==> Follows(Seen(socket, v, events), t)
    requires StockFollows(v, s) ==> StockFollows(Seen(socket, v, events), t)
    ensures Tells(socket, v, s, t)
  {
    assert t.bus[|s.bus|..] == events;
  }

  predicate ShowsNothingNew(event: BusEvent) {
    || event.PairedDevices? || event.PairingResult? || event.PlayerState? || event.Volume?
    || event.GatewayLinkLost? || event.CompanionLost?
  }

  lemma {:induction false} NothingNewIsSeen(socket: string, v: View, events: seq<BusEvent>)
    requires forall i | 0 <= i < |events| :: ShowsNothingNew(events[i])
    ensures Seen(socket, v, events) == v
    decreases |events|
  {
    if events != [] {
      NothingNewIsSeen(socket, v, events[..|events| - 1]);
    }
  }

  // ----- one change of the peer map

  lemma AnnounceTells(socket: string, v: View, s: State, after: PeerMap, diff: Diff)
    requires diff.snapshot == after
    ensures Tells(socket, v, s, Announce(s.(peers := after), diff))
  {
    var first := [PeerSnapshot(after)];
    SeenOfConcat(socket, v, first, PairingEvents(diff));
    SeenOne(socket, v, PeerSnapshot(after));
    NothingNewIsSeen(socket, Seen(socket, v, first), PairingEvents(diff));
    SentTells(socket, v, s, Announce(s.(peers := after), diff), first + PairingEvents(diff));
  }

  lemma UpIsSeen(socket: string, v: View, device: Device)
    ensures Seen(socket, v, UpEvents(Some(device))) == v.(device := Some(device), stock := Some(device), connected := true)
  {
    var connection := [ConnectedDevice(device)] + [StockConnection(device)];
    assert UpEvents(Some(device)) == (connection + [PlayerState]) + [Status(true)];
    SeenOne(socket, v, ConnectedDevice(device));
    SeenOfConcat(socket, v, [ConnectedDevice(device)], [StockConnection(device)]);
    SeenOne(socket, v.(device := Some(device)), StockConnection(device));
    SeenOfConcat(socket, v, connection, [PlayerState]);
    NothingNewIsSeen(socket, Seen(socket, v, connection), [PlayerState]);
    SeenOfConcat(socket, v, connection + [PlayerState], [Status(true)]);
    SeenOne(socket, v.(device := Some(device), stock := Some(device)), Status(true));
  }

  lemma DownIsSeen(socket: string, v: View)
    ensures Seen(socket, v, LINK_DOWN) == v.(device := None, stock := None, connected := false)
  {
    assert LINK_DOWN == [Status(false)] + [StockDisconnection];
    SeenOfConcat(socket, v, [Status(false)], [StockDisconnection]);
    SeenOne(socket, v, Status(false));
    SeenOne(socket, v.(device := None, connected := false), StockDisconnection);
  }

  lemma PresentTells(socket: string, v: View, s: State, diff: Diff)
    requires diff.usefulLinkTransitionedUp ==> diff.usefulDevice.Some?
    ensures Tells(socket, v, s, Present(s, diff))
  {
    var t := Present(s, diff);
    if diff.usefulLinkTransitionedUp {
      UpIsSeen(socket, v, diff.usefulDevice.value);
      SentTells(socket, v, s, t, UpEvents(diff.usefulDevice));
    } else if s.presentedConnected && !AnyUseful(s.peers) && (diff.removed || diff.companionLost.Some?) {
      DownIsSeen(socket, v);
      SentTells(socket, v, s, t, LINK_DOWN);
    } else {
      assert Seen(socket, v, []) == v;
      SentTells(socket, v, s, t, []);
    }
  }

  lemma LossTells(socket: string, v: View, s: State, diff: Diff)
    ensures Tells(socket, v, s, Send(s, LossEvents(diff)))
  {
    NothingNewIsSeen(socket, v, LossEvents(diff));
    SentTells(socket, v, s, Send(s, LossEvents(diff)), LossEvents(diff));
  }

  lemma BroadcastTells(socket: string, v: View, s: State, after: PeerMap, diff: Diff)
    requires diff.snapshot == after
    requires diff.usefulLinkTransitionedUp ==> diff.usefulDevice.Some?
    ensures Tells(socket, v, s, Broadcast(s.(peers := after), diff))
  {
    var announced := Announce(s.(peers := after), diff);
    var presented := Present(announced, diff);
    AnnounceTells(socket, v, s, after, diff);
    var heard := Seen(socket, v, announced.bus[|s.bus|..]);
    PresentTells(socket, heard, announced, diff);
    TellsOn(socket, v, s, announced, presented);
    LossTells(socket, Seen(socket, v, presented.bus[|s.bus|..]), presented, diff);
    TellsOn(socket, v, s, presented, Send(presented, LossEvents(diff)));
  }

  lemma ReplaceTells(socket: string, v: View, s: State, mac: Address, after: PeerMap)
    ensures Tells(socket, v, s, Replace(s, mac, after))
  {
    UpEdgeNamesTheChangedPeer(mac, s.peers, after);
    BroadcastTells(socket, v, s, after, ComputeDiff(mac, Lookup(s.peers, mac), Lookup(after, mac), after));
  }

  lemma RemovedTells(socket: string, v: View, s: State, mac: Address)
    ensures Tells(socket, v, s, Removed(s, mac))
  {
    if mac in s.peers {
      ReplaceTells(socket, v, s.(pinPending := s.pinPending - {mac}, pendingBluezRemovals := s.pendingBluezRemovals - {mac}),
                   mac, s.peers - {mac});
    } else {
      assert Seen(socket, v, []) == v;
      SentTells(socket, v, s, Removed(s, mac), []);
    }
  }

  lemma CompletionTells(socket: string, v: View, s: State, mac: Address)
    ensures Tells(socket, v, s, RemovalCompleted(s, mac))
  {
    RemovedTells(socket, v, s, mac);
    assert Seen(socket, v, []) == v;
    SentTells(socket, v, s, s, []);
  }

  lemma ChangeTells(socket: string, v: View, s: State, mac: Address, change: Change)
    ensures Tells(socket, v, s, WithChange(s, mac, change))
  {
    if mac in s.peers {
      var written := Replace(s, mac, s.peers[mac := Changed(s.peers[mac], change)]);
      ReplaceTells(socket, v, s, mac, s.peers[mac := Changed(s.peers[mac], change)]);
      if TouchesLink(change) {
        CompletionTells(socket, Seen(socket, v, written.bus[|s.bus|..]), written, mac);
        TellsOn(socket, v, s, written, RemovalCompleted(written, mac));
      }
    } else {
      assert Seen(socket, v, []) == v;
      SentTells(socket, v, s, s, []);
    }
  }

  // ----- what is only told

  lemma {:induction false} OthersHearNoSeed(socket: string, v: View, events: seq<BusEvent>)
    requires forall i | 0 <= i < |events| :: events[i].To? && events[i].socket != socket
    ensures Seen(socket, v, events) == v
    decreases |events|
  {
    if events != [] {
      OthersHearNoSeed(socket, v, events[..|events| - 1]);
    }
  }

  // A seed shows its client everything that is presented.
  lemma SeedIsSeen(socket: string, v: View, s: State)
    ensures var seeded := Seen(socket, v, SeedEvents(s, socket));
            && seeded.peers == s.peers && seeded.connected == s.presentedConnected && seeded.stock == v.stock
            && seeded.device == (if !s.presentedConnected then None
                                 else if s.presentedDevice.Some? then s.presentedDevice else v.device)
  {
    var first := [To(socket, PeerSnapshot(s.peers))];
    var device := if s.presentedDevice.Some? then [To(socket, ConnectedDevice(s.presentedDevice.value))] else [];
    SeenOne(socket, v, first[0]);
    SeenOfConcat(socket, v, first, device);
    var told := Seen(socket, Seen(socket, v, first), device);
    if s.presentedDevice.Some? {
      SeenOne(socket, Seen(socket, v, first), device[0]);
    }
    SeenOfConcat(socket, v, first + device, [To(socket, Status(s.presentedConnected))]);
    SeenOne(socket, told, To(socket, Status(s.presentedConnected)));
  }

  lemma SeedTells(socket: string, v: View, s: State, seeded: string)
    requires Invariant(s)
    ensures Tells(socket, v, s, Handled(s, Seed(seeded)))
  {
    if seeded == socket {
      SeedIsSeen(socket, v, s);
    } else {
      OthersHearNoSeed(socket, v, SeedEvents(s, seeded));
    }
    SentTells(socket, v, s, Handled(s, Seed(seeded)), SeedEvents(s, seeded));
  }

  lemma ResyncIsSeen(socket: string, v: View, device: Device)
    ensures Seen(socket, v, [StockConnection(device), ConnectedDevice(device), Status(true), PlayerState, Volume])
         == v.(device := Some(device), stock := Some(device), connected := true)
  {
    var connection := [StockConnection(device)] + [ConnectedDevice(device)];
    var up := connection + [Status(true)];
    assert [StockConnection(device), ConnectedDevice(device), Status(true), PlayerState, Volume] == up + [PlayerState, Volume];
    SeenOne(socket, v, StockConnection(device));
    SeenOfConcat(socket, v, [StockConnection(device)], [ConnectedDevice(device)]);
    SeenOne(socket, v.(stock := Some(device)), ConnectedDevice(device));
    SeenOfConcat(socket, v, connection, [Status(true)]);
    SeenOne(socket, v.(device := Some(device), stock := Some(device)), Status(true));
    SeenOfConcat(socket, v, up, [PlayerState, Volume]);
    NothingNewIsSeen(socket, Seen(socket, v, up), [PlayerState, Volume]);
  }

  lemma ResyncTells(socket: string, v: View, s: State)
    requires Invariant(s)
    ensures Tells(socket, v, s, Resynced(s))
  {
    if s.presentedConnected {
      var device := s.presentedDevice.value;
      ResyncIsSeen(socket, v, device);
      SentTells(socket, v, s, Resynced(s),
                [StockConnection(device), ConnectedDevice(device), Status(true), PlayerState, Volume]);
    } else {
      SeenOne(socket, v, StockDisconnection);
      SentTells(socket, v, s, Resynced(s), [StockDisconnection]);
    }
  }

  // A resync tells the stock application afresh what is presented, whatever it showed, with the state of the player and
  // the volume if there is a connection; a client that has none is told the device, too.
  lemma ResyncTellsAfresh(socket: string, v: View, s: State)
    requires Invariant(s)
    ensures var t := Handled(s, ResyncStockConnection);
            var news := t.bus[|s.bus|..];
            var told := Seen(socket, v, news);
            && s.bus <= t.bus && t == s.(bus := t.bus)
            && StockFollows(told, s) && told.peers == v.peers
            && (s.presentedConnected ==> told.connected && told.device == s.presentedDevice)
            && (s.presentedConnected <==> PlayerState in news && Volume in news)
  {
    if s.presentedConnected {
      var device := s.presentedDevice.value;
      var events := [StockConnection(device), ConnectedDevice(device), Status(true), PlayerState, Volume];
      ResyncIsSeen(socket, v, device);
      assert Handled(s, ResyncStockConnection).bus[|s.bus|..] == events;
      assert events[3] == PlayerState && events[4] == Volume;
    } else {
      SeenOne(socket, v, StockDisconnection);
      assert Handled(s, ResyncStockConnection).bus[|s.bus|..] == [StockDisconnection];
    }
  }

  lemma FlushTells(socket: string, v: View, s: State, epoch: nat)
    ensures Tells(socket, v, s, Flushed(s, epoch))
  {
    if epoch != s.disconnectGen || AnyUseful(s.peers) {
      assert Seen(socket, v, []) == v;
      SentTells(socket, v, s, Flushed(s, epoch), []);
    } else {
      DownIsSeen(socket, v);
      SentTells(socket, v, s, Flushed(s, epoch), LINK_DOWN);
    }
  }

  lemma PinTells(socket: string, v: View, s: State, cmd: Command)
    requires cmd.NotePinShown? || cmd.ConfirmPairing?
    ensures Tells(socket, v, s, Handled(s, cmd))
  {
    assert Seen(socket, v, []) == v;
    NothingNewIsSeen(socket, v, [PairingResult]);
    SentTells(socket, v, s, Handled(s, cmd), if cmd.ConfirmPairing? && cmd.mac in s.pinPending then [PairingResult] else []);
  }

  lemma SightingTells(socket: string, v: View, s: State, cmd: Command)
    requires cmd.Upsert? || cmd.EnsureExists?
    ensures Tells(socket, v, s, Handled(s, cmd))
  {
    if cmd.Upsert? || cmd.mac !in s.peers {
      ReplaceTells(socket, v, s.(pendingBluezRemovals := s.pendingBluezRemovals - {cmd.mac}), cmd.mac, PeersAfter(s, cmd));
    } else {
      assert Seen(socket, v, []) == v;
      SentTells(socket, v, s, Handled(s, cmd), []);
    }
  }

  lemma RemovalTells(socket: string, v: View, s: State, cmd: Command)
    requires cmd.Remove? || cmd.RemoveBluez?
    ensures Tells(socket, v, s, Handled(s, cmd))
  {
    RemovedTells(socket, v, s, cmd.mac);
    if cmd.RemoveBluez? && IsUseful(Lookup(s.peers, cmd.mac)) {
      assert Seen(socket, v, []) == v;
      SentTells(socket, v, s, Handled(s, cmd), []);
    }
  }

  // A command leaves whoever followed what is presented following it.
  lemma CommandTells(socket: string, v: View, s: State, cmd: Command)
    requires Invariant(s)
    ensures Tells(socket, v, s, Handled(s, cmd))
  {
    match cmd
    case Upsert(_, _) => SightingTells(socket, v, s, cmd);
    case EnsureExists(_, _) => SightingTells(socket, v, s, cmd);
    case Set(mac, change) => ChangeTells(socket, v, s, mac, change);
    case Remove(_) => RemovalTells(socket, v, s, cmd);
    case RemoveBluez(_) => RemovalTells(socket, v, s, cmd);
    case NotePinShown(_) => PinTells(socket, v, s, cmd);
    case ConfirmPairing(_) => PinTells(socket, v, s, cmd);
    case Seed(seeded) => SeedTells(socket, v, s, seeded);
    case ResyncStockConnection => ResyncTells(socket, v, s);
    case FlushPendingDisconnect(epoch) => FlushTells(socket, v, s, epoch);
  }

  lemma {:induction false} RunTells(socket: string, v: View, s: State, cmds: seq<Command>)
    requires Invariant(s) && LegalFrom(s, cmds)
    ensures Tells(socket, v, s, RunFrom(s, cmds)) && Invariant(RunFrom(s, cmds))
    decreases |cmds|
  {
    if cmds == [] {
      assert Seen(socket, v, []) == v;
      SentTells(socket, v, s, s, []);
    } else {
      var next := Handled(s, cmds[0]);
      HandledKeepsTheInvariant(s, cmds[0]);
      CommandTells(socket, v, s, cmds[0]);
      RunTells(socket, Seen(socket, v, next.bus[|s.bus|..]), next, cmds[1..]);
      TellsOn(socket, v, s, next, RunFrom(next, cmds[1..]));
    }
  }

  lemma SeedIsHeard(s: State, socket: string)
    requires Invariant(s)
    ensures Handled(s, Seed(socket)).bus == s.bus + SeedEvents(s, socket)
    ensures Follows(Seen(socket, NOTHING_YET, SeedEvents(s, socket)), Handled(s, Seed(socket)))
  {
    SeedIsSeen(socket, NOTHING_YET, s);
  }

  lemma HeardInTwo(socket: string, v: View, early: seq<BusEvent>, seed: seq<BusEvent>, whole: seq<BusEvent>)
    requires early + seed <= whole
    ensures Seen(socket, v, whole[|early|..]) == Seen(socket, Seen(socket, v, seed), whole[|early + seed|..])
  {
    assert whole[|early|..] == seed + whole[|early + seed|..];
    SeenOfConcat(socket, v, seed, whole[|early + seed|..]);
  }

  // Main result: whenever a client is seeded, and after any commands that follow, it shows the peers, the device and
  // the connection that are presented; so it shows what every other client does.
  lemma SeededClientFollows(s: State, socket: string, later: seq<Command>)
    requires Invariant(s)
    requires LegalFrom(Handled(s, Seed(socket)), later)
    ensures var t := RunFrom(Handled(s, Seed(socket)), later);
            s.bus <= t.bus && Follows(Seen(socket, NOTHING_YET, t.bus[|s.bus|..]), t)
  {
    var seeded := Handled(s, Seed(socket));
    SeedIsHeard(s, socket);
    HandledKeepsTheInvariant(s, Seed(socket));
    RunTells(socket, Seen(socket, NOTHING_YET, SeedEvents(s, socket)), seeded, later);
    HeardInTwo(socket, NOTHING_YET, s.bus, SeedEvents(s, socket), RunFrom(seeded, later).bus);
  }

  // Who heard everything from the start needs no seed, and the stock application is told the device that is
  // presented, too.
  lemma EarlyClientFollows(cmds: seq<Command>, socket: string)
    requires LegalFrom(INITIAL, cmds)
    ensures var t := RunFrom(INITIAL, cmds);
            var v := Seen(socket, NOTHING_YET, t.bus);
            Follows(v, t) && StockFollows(v, t)
  {
    assert Invariant(INITIAL);
    RunTells(socket, NOTHING_YET, INITIAL, cmds);
    assert RunFrom(INITIAL, cmds).bus[0..] == RunFrom(INITIAL, cmds).bus;
  }

  // What the connection that is shown comes from: it is up while some peer's iAP2 session is identified or its
  // companion is connected, and only a flush still pending keeps it up otherwise.
  lemma ConnectionFollowsTheLinks(s: State)
    requires Invariant(s)
    ensures var linked := exists mac | mac in s.peers :: s.peers[mac].iap2 == Identified || s.peers[mac].companion.Connected?;
            s.presentedConnected <==> linked || s.disconnectGen in s.sleepers
  {
    if mac :| mac in s.peers && (s.peers[mac].iap2 == Identified || s.peers[mac].companion.Connected?) {
      assert s.peers[mac].HasUsefulLink();
    }
    if AnyUseful(s.peers) {
      var mac :| mac in s.peers && s.peers[mac].HasUsefulLink();
      assert s.peers[mac].iap2 == Identified || s.peers[mac].companion.Connected?;
    }
  }
}

/**
 The session bridge of mobile/lib/bridge.ts with the session domain of mobile/lib/session.ts.
 The bridge folds native events into a store and now and then replaces the store by a snapshot of
 the native world, replaying over it the events that arrived while the snapshot was under way.
 */
module SessionBridge {
  import opened Wrappers

  datatype SessionPeer = SessionPeer(id: string, name: string, status: string)

  // The part of a snapshot that events keep up to date. Peers and per-device entries are maps.
  datatype World = World(
    providers: seq<string>,
    peers: map<string, SessionPeer>,
    ancsAuth: map<string, string>,
    nowPlaying: Option<string>,
    voiceModel: string,
    deviceMeta: map<string, string>)

  datatype Event =
    | ProvidersChanged(providers: seq<string>)
    | PeerConnected(peer: SessionPeer)
    | PeerLinkFailed(peer: SessionPeer)
    | PeerDisconnected(peerId: string)
    | AncsAuthStatusChanged(deviceId: string, status: string)
    | NowPlayingChanged(nowPlaying: Option<string>)
    | VoiceModelStateChanged(state: string)
    | DeviceMetaChanged(deviceId: string, meta: string)
    | Resumed(snapshot: World)
    | Unrelated  // voice turns, webapps, updates and log lines: other stores hold those

  // One event on a world: the native side and the session domain fold events alike, and a `resumed`
  // event reconciles with the snapshot it carries.
  function Apply(w: World, event: Event): World {
    match event
    case ProvidersChanged(providers) => w.(providers := providers)
    case PeerConnected(peer) => w.(peers := w.peers[peer.id := peer])
    case PeerLinkFailed(peer) => w.(peers := w.peers[peer.id := peer])
    case PeerDisconnected(id) => w.(peers := w.peers - {id}, deviceMeta := w.deviceMeta - {id})
    case AncsAuthStatusChanged(id, status) => w.(ancsAuth := w.ancsAuth[id := status])
    case NowPlayingChanged(nowPlaying) => w.(nowPlaying := nowPlaying)
    case VoiceModelStateChanged(state) => w.(voiceModel := state)
    case DeviceMetaChanged(id, meta) => w.(deviceMeta := w.deviceMeta[id := meta])
    case Resumed(snapshot) => snapshot
    case Unrelated => w
  }

  function Fold(w: World, events: seq<Event>): World
    decreases |events|
  {
    if events == [] then w else Fold(Apply(w, events[0]), events[1..])
  }

  type Ticket = nat

  // The module-level state of the bridge: the store, the buffers of the reconciles under way and the
  // reconcile started by a reconnect, if one is under way.
  datatype Bridge = Bridge(store: World, inFlight: map<Ticket, seq<Event>>, resync: Option<Ticket>, next: Ticket)

  function Began(b: Bridge): Bridge {
    b.(inFlight := b.inFlight[b.next := []], next := b.next + 1)
  }

  function Delivered(b: Bridge, event: Event): Bridge {
    var applied := b.(store := Apply(b.store, event));
    if event.PeerConnected? && applied.resync.None? then Began(applied).(resync := Some(applied.next)) else applied
  }

  function DeliveredAll(b: Bridge, events: seq<Event>): Bridge
    decreases |events|
  {
    if events == [] then b else Delivered(DeliveredAll(b, events[..|events| - 1]), events[|events| - 1])
  }

  function Buffered(b: Bridge, event: Event): Bridge {
    b.(inFlight := map t | t in b.inFlight :: b.inFlight[t] + [event])
  }

  function Arrived(b: Bridge, event: Event): Bridge {
    Delivered(Buffered(b, event), event)
  }

  function Ended(b: Bridge, t: Ticket): Bridge {
    b.(inFlight := b.inFlight - {t}, resync := if b.resync == Some(t) then None else b.resync)
  }

  function Finished(b: Bridge, t: Ticket, snapshot: World): Bridge
    requires t in b.inFlight
  {
    Ended(DeliveredAll(b.(store := snapshot), b.inFlight[t]), t)
  }

  class EventBridge {
    var store: World
    var inFlight: map<Ticket, seq<Event>>
    var resync: Option<Ticket>
    var next: Ticket

    ghost function Current(): Bridge
      reads this
    {
      Bridge(store, inFlight, resync, next)
    }

    constructor (initial: World)
      ensures Current() == Bridge(initial, map[], None, 0)
    {
      store, inFlight, resync, next := initial, map[], None, 0;
    }

    // The subscriber that `startBridge` installs.
    method OnEvent(event: Event)
      modifies this
      ensures Current() == Arrived(old(Current()), event)
    {
      var left := inFlight.Keys;
      while left != {}
        invariant left <= inFlight.Keys == old(inFlight).Keys
        invariant forall t | t in inFlight :: inFlight[t] == old(inFlight)[t] + if t in left then [] else [event]
        invariant store == old(store) && resync == old(resync) && next == old(next)
        decreases left
      {
        var t :| t in left;
        inFlight := inFlight[t := inFlight[t] + [event]];
        left := left - {t};
      }
      assert inFlight == Buffered(old(Current()), event).inFlight;
      Deliver(event);
    }

    method Deliver(event: Event)
      modifies this
      ensures Current() == Delivered(old(Current()), event)
    {
      if event.Resumed? {
        store := event.snapshot;
        return;
      }
      ApplyToSession(event);
    }

    // The session domain's reducer.
    method ApplyToSession(event: Event)
      requires !event.Resumed?
      modifies this
      ensures Current() == Delivered(old(Current()), event)
    {
      match event
      case ProvidersChanged(providers) => store := store.(providers := providers);
      case PeerConnected(peer) =>
        store := store.(peers := (store.peers - {peer.id})[peer.id := peer]);
        assert store == Apply(old(store), event);
        ResyncOnReconnect();
      case PeerLinkFailed(peer) => store := store.(peers := (store.peers - {peer.id})[peer.id := peer]);
        assert store == Apply(old(store), event);
      case PeerDisconnected(id) => store := store.(peers := store.peers - {id}, deviceMeta := store.deviceMeta - {id});
      case AncsAuthStatusChanged(id, status) => store := store.(ancsAuth := store.ancsAuth[id := status]);
      case NowPlayingChanged(nowPlaying) => store := store.(nowPlaying := nowPlaying);
      case VoiceModelStateChanged(state) => store := store.(voiceModel := state);
      case DeviceMetaChanged(id, meta) => store := store.(deviceMeta := store.deviceMeta[id := meta]);
      case Unrelated =>
    }

    // At most one reconcile is under way on behalf of reconnects.
    method ResyncOnReconnect()
      modifies this`inFlight, this`resync, this`next
      ensures Current() == if old(resync).Some? then old(Current())
                           else Began(old(Current())).(resync := Some(old(next)))
    {
      if resync.None? {
        var t := BeginReconcile();
        resync := Some(t);
      }
    }

    method BeginReconcile() returns (t: Ticket)
      modifies this`inFlight, this`next
      ensures t == old(next)
      ensures Current() == Began(old(Current()))
    {
      t := next;
      next := next + 1;
      inFlight := inFlight[t := []];
    }

    method FinishReconcile(t: Ticket, snapshot: World)
      requires t in inFlight
      modifies this
      ensures Current() == Finished(old(Current()), t, snapshot)
    {
      store := snapshot;
      var arrived := inFlight[t];
      ghost var start := Current();
      for i := 0 to |arrived|
        invariant Current() == DeliveredAll(start, arrived[..i])
      {
        Deliver(arrived[i]);
        assert arrived[..i + 1][..i] == arrived[..i];
      }
      assert arrived[..|arrived|] == arrived;
      EndReconcile(t);
    }

    // The `finally` of a reconcile, also reached when the snapshot fails.
    method EndReconcile(t: Ticket)
      modifies this`inFlight, this`resync
      ensures Current() == Ended(old(Current()), t)
    {
      inFlight := inFlight - {t};
      if resync == Some(t) {
        resync := None;
      }
    }
  }

  // ----- events overwrite

  // The event leaves the same world behind, whichever of the two it meets.
  predicate Levels(event: Event, a: World, b: World) {
    Apply(a, event) == Apply(b, event)
  }

  lemma EventLevelsItself(w: World, event: Event)
    ensures Levels(event, Apply(w, event), w)
  {
  }

  // Two maps that differ at most at one key go on differing at most there, whatever is written to both.
  lemma MapsApartAtOneKey<V>(id: string, a: map<string, V>, b: map<string, V>, other: string, value: V)
    requires a - {id} == b - {id}
    ensures a[other := value] - {id} == b[other := value] - {id}
    ensures (a - {other}) - {id} == (b - {other}) - {id}
  {
    assert forall k | k != id :: k in a <==> k in a - {id};
    assert forall k | k != id :: k in b <==> k in b - {id};
    assert forall k | k != id && k in a :: a[k] == (a - {id})[k] == (b - {id})[k] == b[k];
  }

  lemma WrittenKeyHidesTheDifference<V>(id: string, v: V, a: map<string, V>, b: map<string, V>)
    ensures a[id := v] == b[id := v] <==> a - {id} == b - {id}
  {
    if a[id := v] == b[id := v] {
      assert a - {id} == a[id := v] - {id};
      assert b - {id} == b[id := v] - {id};
    }
    if a - {id} == b - {id} {
      assert a[id := v] == (a - {id})[id := v];
      assert b[id := v] == (b - {id})[id := v];
    }
  }

  // Where an event writes one map entry, the worlds it levels differ at most at that entry.
  predicate ApartAt(id: string, peers: bool, metas: bool, ancs: bool, a: World, b: World) {
    && a.providers == b.providers && a.nowPlaying == b.nowPlaying && a.voiceModel == b.voiceModel
    && (if peers then a.peers - {id} == b.peers - {id} else a.peers == b.peers)
    && (if metas then a.deviceMeta - {id} == b.deviceMeta - {id} else a.deviceMeta == b.deviceMeta)
    && (if ancs then a.ancsAuth - {id} == b.ancsAuth - {id} else a.ancsAuth == b.ancsAuth)
  }

  lemma ApartStaysApart(id: string, peers: bool, metas: bool, ancs: bool, a: World, b: World, other: Event)
    requires ApartAt(id, peers, metas, ancs, a, b)
    ensures ApartAt(id, peers, metas, ancs, Apply(a, other), Apply(b, other))
  {
    match other
    case PeerConnected(peer) => if peers { MapsApartAtOneKey(id, a.peers, b.peers, peer.id, peer); }
    case PeerLinkFailed(peer) => if peers { MapsApartAtOneKey(id, a.peers, b.peers, peer.id, peer); }
    case PeerDisconnected(gone) =>
      if peers { MapsApartAtOneKey(id, a.peers, b.peers, gone, SessionPeer("", "", "")); }
      if metas { MapsApartAtOneKey(id, a.deviceMeta, b.deviceMeta, gone, ""); }
    case DeviceMetaChanged(device, meta) => if metas { MapsApartAtOneKey(id, a.deviceMeta, b.deviceMeta, device, meta); }
    case AncsAuthStatusChanged(device, status) => if ancs { MapsApartAtOneKey(id, a.ancsAuth, b.ancsAuth, device, status); }
    case ProvidersChanged(_) =>
    case NowPlayingChanged(_) =>
    case VoiceModelStateChanged(_) =>
    case Resumed(_) =>
    case Unrelated =>
  }

  lemma LevelledWorldsStayLevelled(event: Event, a: World, b: World, other: Event)
    requires Levels(event, a, b)
    ensures Levels(event, Apply(a, other), Apply(b, other))
  {
    match event
    case PeerConnected(peer) => PeerWriteLevels(peer, a, b, other);
    case PeerLinkFailed(peer) => PeerWriteLevels(peer, a, b, other);
    case PeerDisconnected(id) => ApartStaysApart(id, true, true, false, a, b, other);
    case DeviceMetaChanged(id, meta) => MetaWriteLevels(id, meta, a, b, other);
    case AncsAuthStatusChanged(id, status) => AncsWriteLevels(id, status, a, b, other);
    case ProvidersChanged(_) =>
    case NowPlayingChanged(_) =>
    case VoiceModelStateChanged(_) =>
    case Resumed(_) =>
    case Unrelated =>
  }

  lemma MetaWriteLevels(id: string, meta: string, a: World, b: World, other: Event)
    requires Levels(DeviceMetaChanged(id, meta), a, b)
    ensures Levels(DeviceMetaChanged(id, meta), Apply(a, other), Apply(b, other))
  {
    var a', b' := Apply(a, other), Apply(b, other);
    WrittenKeyHidesTheDifference(id, meta, a.deviceMeta, b.deviceMeta);
    ApartStaysApart(id, false, true, false, a, b, other);
    WrittenKeyHidesTheDifference(id, meta, a'.deviceMeta, b'.deviceMeta);
  }

  lemma AncsWriteLevels(id: string, status: string, a: World, b: World, other: Event)
    requires Levels(AncsAuthStatusChanged(id, status), a, b)
    ensures Levels(AncsAuthStatusChanged(id, status), Apply(a, other), Apply(b, other))
  {
    var a', b' := Apply(a, other), Apply(b, other);
    WrittenKeyHidesTheDifference(id, status, a.ancsAuth, b.ancsAuth);
    ApartStaysApart(id, false, false, true, a, b, other);
    WrittenKeyHidesTheDifference(id, status, a'.ancsAuth, b'.ancsAuth);
  }

  lemma PeerWriteLevels(peer: SessionPeer, a: World, b: World, other: Event)
    requires Levels(PeerConnected(peer), a, b)
    ensures Levels(PeerConnected(peer), Apply(a, other), Apply(b, other))
  {
    var a', b' := Apply(a, other), Apply(b, other);
    WrittenKeyHidesTheDifference(peer.id, peer, a.peers, b.peers);
    ApartStaysApart(peer.id, true, false, false, a, b, other);
    WrittenKeyHidesTheDifference(peer.id, peer, a'.peers, b'.peers);
  }

  lemma {:induction false} FoldKeepsLevel(event: Event, a: World, b: World, events: seq<Event>)
    requires Levels(event, a, b)
    ensures Levels(event, Fold(a, events), Fold(b, events))
    decreases |events|
  {
    if events != [] {
      LevelledWorldsStayLevelled(event, a, b, events[0]);
      FoldKeepsLevel(event, Apply(a, events[0]), Apply(b, events[0]), events[1..]);
    }
  }

  lemma {:induction false} FoldSplits(w: World, a: seq<Event>, b: seq<Event>)
    ensures Fold(w, a + b) == Fold(Fold(w, a), b)
    decreases |a|
  {
    if a == [] {
      assert a + b == b;
    } else {
      assert (a + b)[1..] == a[1..] + b;
      FoldSplits(Apply(w, a[0]), a[1..], b);
    }
  }

  // A world is settled by events when replaying them over it changes nothing.
  predicate Settled(w: World, events: seq<Event>) {
    Fold(w, events) == w
  }

  // Replaying the same events twice is replaying them once.
  lemma {:induction false} FoldIsIdempotent(w: World, events: seq<Event>)
    ensures Settled(Fold(w, events), events)
    decreases |events|
  {
    if events != [] {
      var n := |events| - 1;
      var early, last := events[..n], events[n];
      assert events == early + [last];
      FoldSplits(w, early, [last]);
      var half := Fold(w, early);
      FoldIsIdempotent(w, early);
      FoldSplits(Apply(half, last), early, [last]);
      EventLevelsItself(half, last);
      FoldKeepsLevel(last, Apply(half, last), half, early);
    }
  }

  lemma EmittedEventSettles(w: World, events: seq<Event>, event: Event)
    requires Settled(w, events)
    ensures Settled(Apply(w, event), events + [event])
  {
    FoldSplits(Apply(w, event), events, [event]);
    EventLevelsItself(w, event);
    FoldKeepsLevel(event, Apply(w, event), w, events);
  }

  lemma DeliveredEventStaysSettled(w: World, events: seq<Event>)
    requires events != [] && Settled(w, events)
    ensures Settled(w, events[1..])
  {
    FoldIsIdempotent(Apply(w, events[0]), events[1..]);
  }

  // ----- the whole system

  // The native world, the events it has sent and the bridge has not seen, the snapshots taken for the
  // reconciles under way, and whether any reconcile has completed.
  datatype System = System(world: World, undelivered: seq<Event>, bridge: Bridge, taken: map<Ticket, World>, reconciled: bool)

  datatype Step =
    | Emit(event: Event)
    | Deliver
    | Begin
    | TakeSnapshot(ticket: Ticket)
    | Finish(ticket: Ticket)
    | Fail(ticket: Ticket)

  predicate Enabled(s: System, step: Step) {
    match step
    case Emit(_) => true
    case Deliver => s.undelivered != []
    case Begin => true
    case TakeSnapshot(t) => t in s.bridge.inFlight && t !in s.taken
    case Finish(t) => t in s.bridge.inFlight && t in s.taken
    case Fail(t) => t in s.bridge.inFlight
  }

  function Next(s: System, step: Step): System
    requires Enabled(s, step)
  {
    match step
    case Emit(event) => s.(world := Apply(s.world, event), undelivered := s.undelivered + [event])
    case Deliver => s.(bridge := Arrived(s.bridge, s.undelivered[0]), undelivered := s.undelivered[1..])
    case Begin => s.(bridge := Began(s.bridge))
    case TakeSnapshot(t) => s.(taken := s.taken[t := s.world])
    case Finish(t) => s.(bridge := Finished(s.bridge, t, s.taken[t]), taken := s.taken - {t}, reconciled := true)
    case Fail(t) => s.(bridge := Ended(s.bridge, t), taken := s.taken - {t})
  }

  // What replaying a buffer and then the undelivered events must give: from the snapshot once it is
  // taken, from the world itself until then.
  predicate WillCatchUp(s: System, t: Ticket)
    requires t in s.bridge.inFlight
  {
    var from := if t in s.taken then s.taken[t] else s.world;
    Fold(from, s.bridge.inFlight[t] + s.undelivered) == s.world
  }

  predicate TicketsHold(s: System) {
    && (forall t | t in s.bridge.inFlight :: t < s.bridge.next)
    && (forall t | t in s.taken :: t in s.bridge.inFlight)
    && (s.bridge.resync.Some? ==> s.bridge.resync.value in s.bridge.inFlight)
  }

  predicate Invariant(s: System) {
    && TicketsHold(s)
    && Settled(s.world, s.undelivered)
    && (s.reconciled ==> Fold(s.bridge.store, s.undelivered) == s.world)
    && (forall t | t in s.bridge.inFlight :: WillCatchUp(s, t))
  }

  // The bridge may have started reconciles of its own, with empty buffers, and is otherwise as it was.
  predicate Grew(before: Bridge, after: Bridge) {
    && before.next <= after.next
    && (forall t | t in before.inFlight :: t in after.inFlight && after.inFlight[t] == before.inFlight[t])
    && (forall t | t in after.inFlight :: t in before.inFlight || (before.next <= t < after.next && after.inFlight[t] == []))
    && (after.resync == before.resync || (after.resync.Some? && after.resync.value in after.inFlight))
  }

  lemma {:induction false} DeliveredAllFolds(b: Bridge, events: seq<Event>)
    requires forall t | t in b.inFlight :: t < b.next
    ensures var after := DeliveredAll(b, events);
            after.store == Fold(b.store, events) && Grew(b, after)
            && forall t | t in after.inFlight :: t < after.next
    decreases |events|
  {
    if events != [] {
      var n := |events| - 1;
      DeliveredAllFolds(b, events[..n]);
      assert events == events[..n] + [events[n]];
      FoldSplits(b.store, events[..n], [events[n]]);
    }
  }

  // A reconcile that starts now catches up: the world is settled by what has not been delivered.
  lemma FreshReconcileCatchesUp(s: System, t: Ticket)
    requires Settled(s.world, s.undelivered)
    requires t in s.bridge.inFlight && t !in s.taken && s.bridge.inFlight[t] == []
    ensures WillCatchUp(s, t)
  {
    assert [] + s.undelivered == s.undelivered;
  }

  lemma BeginKeepsTheInvariant(s: System)
    requires Invariant(s)
    ensures Invariant(Next(s, Begin))
  {
    var n := Next(s, Begin);
    forall t | t in n.bridge.inFlight ensures WillCatchUp(n, t) {
      if t == s.bridge.next {
        FreshReconcileCatchesUp(n, t);
      } else {
        assert WillCatchUp(s, t);
      }
    }
  }

  lemma EmitKeepsTheInvariant(s: System, event: Event)
    requires Invariant(s)
    ensures Invariant(Next(s, Emit(event)))
  {
    var n := Next(s, Emit(event));
    EmittedEventSettles(s.world, s.undelivered, event);
    FoldSplits(s.bridge.store, s.undelivered, [event]);
    forall t | t in n.bridge.inFlight ensures WillCatchUp(n, t) {
      var seen := s.bridge.inFlight[t] + s.undelivered;
      assert WillCatchUp(s, t);
      assert s.bridge.inFlight[t] + n.undelivered == seen + [event];
      if t in s.taken {
        FoldSplits(s.taken[t], seen, [event]);
      } else {
        EmittedEventSettles(s.world, seen, event);
      }
    }
  }

  lemma DeliverKeepsTheInvariant(s: System)
    requires Invariant(s)
    requires s.undelivered != []
    ensures Invariant(Next(s, Deliver))
  {
    var n := Next(s, Deliver);
    DeliveredEventStaysSettled(s.world, s.undelivered);
    forall t | t in n.bridge.inFlight ensures WillCatchUp(n, t) {
      if t in s.bridge.inFlight {
        assert WillCatchUp(s, t);
        assert n.bridge.inFlight[t] + n.undelivered == s.bridge.inFlight[t] + s.undelivered;
      } else {
        FreshReconcileCatchesUp(n, t);
      }
    }
  }

  lemma TakeSnapshotKeepsTheInvariant(s: System, ticket: Ticket)
    requires Invariant(s)
    requires Enabled(s, TakeSnapshot(ticket))
    ensures Invariant(Next(s, TakeSnapshot(ticket)))
  {
    var n := Next(s, TakeSnapshot(ticket));
    forall t | t in n.bridge.inFlight ensures WillCatchUp(n, t) {
      assert WillCatchUp(s, t);
    }
  }

  lemma FinishKeepsTheInvariant(s: System, ticket: Ticket)
    requires Invariant(s)
    requires Enabled(s, Finish(ticket))
    ensures Invariant(Next(s, Finish(ticket)))
  {
    var n := Next(s, Finish(ticket));
    var arrived := s.bridge.inFlight[ticket];
    var start := s.bridge.(store := s.taken[ticket]);
    DeliveredAllFolds(start, arrived);
    assert WillCatchUp(s, ticket);
    FoldSplits(s.taken[ticket], arrived, s.undelivered);
    forall t | t in n.bridge.inFlight ensures WillCatchUp(n, t) {
      if t in s.bridge.inFlight {
        assert WillCatchUp(s, t);
      } else {
        FreshReconcileCatchesUp(n, t);
      }
    }
  }

  lemma FailKeepsTheInvariant(s: System, ticket: Ticket)
    requires Invariant(s)
    requires Enabled(s, Fail(ticket))
    ensures Invariant(Next(s, Fail(ticket)))
  {
    var n := Next(s, Fail(ticket));
    forall t | t in n.bridge.inFlight ensures WillCatchUp(n, t) {
      assert WillCatchUp(s, t);
    }
  }

  // ----- every run

  ghost predicate Legal(start: System, steps: seq<Step>)
    decreases |steps|
  {
    steps == [] || (Enabled(start, steps[0]) && Legal(Next(start, steps[0]), steps[1..]))
  }

  ghost function Run(start: System, steps: seq<Step>): System
    requires Legal(start, steps)
    decreases |steps|
  {
    if steps == [] then start else Run(Next(start, steps[0]), steps[1..])
  }

  // Any native world and any store, before the first event and the first reconcile.
  function Start(world: World, store: World): System {
    System(world, [], Bridge(store, map[], None, 0), map[], false)
  }

  lemma {:induction false} RunKeepsTheInvariant(start: System, steps: seq<Step>)
    requires Invariant(start) && Legal(start, steps)
    ensures Invariant(Run(start, steps))
    decreases |steps|
  {
    if steps != [] {
      match steps[0] {
        case Emit(event) => EmitKeepsTheInvariant(start, event);
        case Deliver => DeliverKeepsTheInvariant(start);
        case Begin => BeginKeepsTheInvariant(start);
        case TakeSnapshot(t) => TakeSnapshotKeepsTheInvariant(start, t);
        case Finish(t) => FinishKeepsTheInvariant(start, t);
        case Fail(t) => FailKeepsTheInvariant(start, t);
      }
      RunKeepsTheInvariant(Next(start, steps[0]), steps[1..]);
    }
  }

  // Main result: once any reconcile has completed, the undelivered events bring the store to the native
  // world, however many reconciles overlap, fail, or finish out of order; at rest the two agree.
  lemma StoreConverges(world: World, store: World, steps: seq<Step>)
    requires Legal(Start(world, store), steps)
    ensures var s := Run(Start(world, store), steps);
            s.reconciled ==>
              && Fold(s.bridge.store, s.undelivered) == s.world
              && (s.undelivered == [] ==> s.bridge.store == s.world)
  {
    RunKeepsTheInvariant(Start(world, store), steps);
  }
}

/**
 What an event does to the store of the session bridge, field by field: every field holds what was written to it
 last.
 */
module SessionFields {
  import opened Wrappers
  import opened SessionBridge

  // A field of the store, with the peers and the entries of devices one by one, and what it can hold.
  datatype Field = Providers | PeerOf(id: string) | AncsOf(id: string) | NowPlaying | VoiceModel | MetaOf(id: string)

  datatype Value =
    | Names(names: seq<string>)
    | Listed(peer: Option<SessionPeer>)
    | Text(text: Option<string>)

  function Entry<V>(entries: map<string, V>, id: string): Option<V> {
    if id in entries then Some(entries[id]) else None
  }

  function ValueOf(w: World, field: Field): Value {
    match field
    case Providers => Names(w.providers)
    case PeerOf(id) => Listed(Entry(w.peers, id))
    case AncsOf(id) => Text(Entry(w.ancsAuth, id))
    case NowPlaying => Text(w.nowPlaying)
    case VoiceModel => Text(Some(w.voiceModel))
    case MetaOf(id) => Text(Entry(w.deviceMeta, id))
  }

  // Nothing else is in the store.
  lemma FieldsMakeTheWorld(a: World, b: World)
    requires forall field :: ValueOf(a, field) == ValueOf(b, field)
    ensures a == b
  {
    assert ValueOf(a, Providers) == ValueOf(b, Providers) && ValueOf(a, NowPlaying) == ValueOf(b, NowPlaying);
    assert ValueOf(a, VoiceModel) == ValueOf(b, VoiceModel);
    forall id ensures Entry(a.peers, id) == Entry(b.peers, id) {
      assert ValueOf(a, PeerOf(id)) == ValueOf(b, PeerOf(id));
    }
    forall id ensures Entry(a.ancsAuth, id) == Entry(b.ancsAuth, id) {
      assert ValueOf(a, AncsOf(id)) == ValueOf(b, AncsOf(id));
    }
    forall id ensures Entry(a.deviceMeta, id) == Entry(b.deviceMeta, id) {
      assert ValueOf(a, MetaOf(id)) == ValueOf(b, MetaOf(id));
    }
    EntriesMakeTheMap(a.peers, b.peers);
    EntriesMakeTheMap(a.ancsAuth, b.ancsAuth);
    EntriesMakeTheMap(a.deviceMeta, b.deviceMeta);
  }

  lemma EntriesMakeTheMap<V>(a: map<string, V>, b: map<string, V>)
    requires forall id :: Entry(a, id) == Entry(b, id)
    ensures a == b
  {
    forall id ensures (id in a <==> id in b) && (id in a ==> a[id] == b[id]) {
      assert Entry(a, id) == Entry(b, id);
    }
  }

  // The field that an event writes: a connected or failed peer its own entry, a peer that leaves its entry and its
  // device's, any other the field it names, and a resume all of them.
  predicate Writes(event: Event, field: Field) {
    match field
    case Providers => event.ProvidersChanged? || event.Resumed?
    case PeerOf(id) =>
      || ((event.PeerConnected? || event.PeerLinkFailed?) && event.peer.id == id)
      || event == PeerDisconnected(id) || event.Resumed?
    case AncsOf(id) => (event.AncsAuthStatusChanged? && event.deviceId == id) || event.Resumed?
    case NowPlaying => event.NowPlayingChanged? || event.Resumed?
    case VoiceModel => event.VoiceModelStateChanged? || event.Resumed?
    case MetaOf(id) => (event.DeviceMetaChanged? && event.deviceId == id) || event == PeerDisconnected(id) || event.Resumed?
  }

  function Written(event: Event, field: Field): Value
    requires Writes(event, field)
  {
    if event.Resumed? then ValueOf(event.snapshot, field)
    else
      match field
      case Providers => Names(event.providers)
      case PeerOf(_) => Listed(if event.PeerDisconnected? then None else Some(event.peer))
      case AncsOf(_) => Text(Some(event.status))
      case NowPlaying => Text(event.nowPlaying)
      case VoiceModel => Text(Some(event.state))
      case MetaOf(_) => Text(if event.PeerDisconnected? then None else Some(event.meta))
  }

  // One event: the fields it writes hold what it wrote, and every other field is as it was.
  lemma DeliveredFieldByField(b: Bridge, event: Event, field: Field)
    ensures ValueOf(Delivered(b, event).store, field)
         == if Writes(event, field) then Written(event, field) else ValueOf(b.store, field)
    ensures Arrived(b, event).store == Delivered(b, event).store
  {
  }

  // So after an event that takes a peer away, it is listed no more, nor is its device's entry, and all others are.
  lemma DisconnectedPeerIsGone(b: Bridge, id: string, other: string)
    ensures var now := Delivered(b, PeerDisconnected(id)).store;
            && id !in now.peers && id !in now.deviceMeta
            && (other != id ==> Entry(now.peers, other) == Entry(b.store.peers, other)
                                && Entry(now.deviceMeta, other) == Entry(b.store.deviceMeta, other))
            && now.ancsAuth == b.store.ancsAuth && now.providers == b.store.providers
            && now.nowPlaying == b.store.nowPlaying && now.voiceModel == b.store.voiceModel
  {
  }

  // Main result, for every run of events: a field holds what the last event to write it wrote.
  lemma {:induction false} LastWriteIsShown(b: Bridge, events: seq<Event>, field: Field, i: nat)
    requires i < |events| && Writes(events[i], field)
    requires forall j | i < j < |events| :: !Writes(events[j], field)
    ensures ValueOf(DeliveredAll(b, events).store, field) == Written(events[i], field)
    decreases |events|
  {
    var before := events[..|events| - 1];
    DeliveredFieldByField(DeliveredAll(b, before), events[|events| - 1], field);
    if i < |before| {
      assert before[i] == events[i] && forall j | i < j < |before| :: before[j] == events[j];
      LastWriteIsShown(b, before, field, i);
    }
  }

  // A field that no event writes is left as it was.
  lemma {:induction false} UnwrittenFieldStays(b: Bridge, events: seq<Event>, field: Field)
    requires forall j | 0 <= j < |events| :: !Writes(events[j], field)
    ensures ValueOf(DeliveredAll(b, events).store, field) == ValueOf(b.store, field)
    decreases |events|
  {
    if events != [] {
      var before := events[..|events| - 1];
      DeliveredFieldByField(DeliveredAll(b, before), events[|events| - 1], field);
      assert forall j | 0 <= j < |before| :: before[j] == events[j];
      UnwrittenFieldStays(b, before, field);
    }
  }
}

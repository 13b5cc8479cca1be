/**
 The peers of crates/core/src/peer.rs and the edges `Diff::compute` finds between two of them.
 */
module Peers {
  import opened Wrappers

  type Address = string

  datatype Device = Device(id: string, name: string)

  datatype Iap2Status = NoIap2 | LinkUp | Authenticated | Identified

  datatype CompanionStatus = NoCompanion | Pending | Connected(gateway: string)

  datatype Peer = Peer(
    device: Device,
    paired: bool,
    iap2: Iap2Status,
    companion: CompanionStatus,
    displayName: Option<string>,
    language: Option<string>,
    uuid: Option<string>)
  {
    predicate HasUsefulLink() {
      iap2.Identified? || companion.Connected?
    }
  }

  function NewPeer(device: Device): Peer {
    Peer(device, false, NoIap2, NoCompanion, None, None, None)
  }

  type PeerMap = map<Address, Peer>

  predicate AnyUseful(peers: PeerMap) {
    exists mac | mac in peers :: peers[mac].HasUsefulLink()
  }

  function Lookup(peers: PeerMap, mac: Address): Option<Peer> {
    if mac in peers then Some(peers[mac]) else None
  }

  predicate IsUseful(peer: Option<Peer>) {
    peer.Some? && peer.value.HasUsefulLink()
  }

  predicate IsPaired(peer: Option<Peer>) {
    peer.Some? && peer.value.paired
  }

  predicate IsCompanionConnected(peer: Option<Peer>) {
    peer.Some? && peer.value.companion.Connected?
  }

  predicate IsGatewayLinked(peer: Option<Peer>) {
    peer.Some? && !peer.value.companion.NoCompanion?
  }

  datatype Diff = Diff(
    mac: Address,
    snapshot: PeerMap,
    pairedTransitionedUp: bool,
    pairedSetChanged: bool,
    usefulLinkTransitionedUp: bool,
    usefulLinkTransitionedDown: bool,
    usefulDevice: Option<Device>,
    companionLost: Option<Address>,
    gatewayLinkLost: Option<Address>,
    removed: bool)

  function Identity(prior: Option<Peer>, current: Option<Peer>): Option<string> {
    if current.Some? then Some(current.value.device.id)
    else if prior.Some? then Some(prior.value.device.id)
    else None
  }

  // The other peers are told apart from the changed one by device id, not by address.
  predicate OtherUsefulById(identity: Option<string>, peers: PeerMap) {
    exists mac | mac in peers :: identity != Some(peers[mac].device.id) && peers[mac].HasUsefulLink()
  }

  function ComputeDiff(mac: Address, prior: Option<Peer>, current: Option<Peer>, peers: PeerMap): (diff: Diff) {
    var otherUseful := OtherUsefulById(Identity(prior, current), peers);
    var anyUsefulBefore := otherUseful || IsUseful(prior);
    var anyUsefulNow := otherUseful || IsUseful(current);
    Diff(
      mac,
      peers,
      !IsPaired(prior) && IsPaired(current),
      IsPaired(prior) != IsPaired(current),
      !anyUsefulBefore && anyUsefulNow,
      anyUsefulBefore && !anyUsefulNow,
      if !IsUseful(prior) && IsUseful(current) then Some(current.value.device) else None,
      if IsCompanionConnected(prior) && !IsCompanionConnected(current) then Some(mac) else None,
      if IsGatewayLinked(prior) && !IsGatewayLinked(current) then Some(mac) else None,
      prior.Some? && current.None?)
  }

  // The two maps differ at `mac` and nowhere else.
  predicate ChangedOnlyAt(mac: Address, before: PeerMap, after: PeerMap) {
    before - {mac} == after - {mac}
  }

  predicate SomeOtherUseful(mac: Address, peers: PeerMap) {
    AnyUseful(peers - {mac})
  }

  // A change of one peer's link that the device ids hide: another peer is useful, and every useful
  // other peer carries the changed peer's device id.
  predicate MaskedByDeviceId(mac: Address, before: PeerMap, after: PeerMap) {
    && IsUseful(Lookup(before, mac)) != IsUseful(Lookup(after, mac))
    && SomeOtherUseful(mac, after)
    && !OtherUsefulById(Identity(Lookup(before, mac), Lookup(after, mac)), after - {mac})
  }

  predicate DistinctDeviceIds(peers: PeerMap) {
    forall a, b | a in peers && b in peers :: peers[a].device.id == peers[b].device.id ==> a == b
  }

  predicate EdgesAreExact(diff: Diff, before: PeerMap, after: PeerMap) {
    && diff.usefulLinkTransitionedUp == (!AnyUseful(before) && AnyUseful(after))
    && diff.usefulLinkTransitionedDown == (AnyUseful(before) && !AnyUseful(after))
  }

  lemma AnyUsefulSplits(mac: Address, peers: PeerMap)
    ensures AnyUseful(peers) <==> IsUseful(Lookup(peers, mac)) || SomeOtherUseful(mac, peers)
  {
    if AnyUseful(peers) {
      var a :| a in peers && peers[a].HasUsefulLink();
      if a != mac {
        assert a in peers - {mac} && (peers - {mac})[a].HasUsefulLink();
      }
    }
    if SomeOtherUseful(mac, peers) {
      var a :| a in peers - {mac} && (peers - {mac})[a].HasUsefulLink();
      assert peers[a].HasUsefulLink();
    }
  }

  lemma OthersAreSeenWithoutTheChangedPeer(mac: Address, before: PeerMap, after: PeerMap)
    requires ChangedOnlyAt(mac, before, after)
    ensures var identity := Identity(Lookup(before, mac), Lookup(after, mac));
            OtherUsefulById(identity, after) == OtherUsefulById(identity, after - {mac})
    ensures var identity := Identity(Lookup(before, mac), Lookup(after, mac));
            OtherUsefulById(identity, after) ==> SomeOtherUseful(mac, after)
  {
    var identity := Identity(Lookup(before, mac), Lookup(after, mac));
    if OtherUsefulById(identity, after) {
      var a :| a in after && identity != Some(after[a].device.id) && after[a].HasUsefulLink();
      assert a in after - {mac} && (after - {mac})[a] == after[a];
    }
    if OtherUsefulById(identity, after - {mac}) {
      var a :| a in after - {mac} && identity != Some((after - {mac})[a].device.id) && (after - {mac})[a].HasUsefulLink();
      assert a in after && after[a] == (after - {mac})[a];
    }
  }

  // Exactly when the incremental edges agree with comparing the whole maps.
  lemma DiffIsExactUnlessMasked(mac: Address, before: PeerMap, after: PeerMap)
    requires ChangedOnlyAt(mac, before, after)
    ensures var diff := ComputeDiff(mac, Lookup(before, mac), Lookup(after, mac), after);
            EdgesAreExact(diff, before, after) <==> !MaskedByDeviceId(mac, before, after)
  {
    AnyUsefulSplits(mac, before);
    AnyUsefulSplits(mac, after);
    OthersAreSeenWithoutTheChangedPeer(mac, before, after);
  }

  // With one device id per address nothing is ever masked.
  lemma DistinctIdsAreNeverMasked(mac: Address, before: PeerMap, after: PeerMap)
    requires ChangedOnlyAt(mac, before, after)
    requires DistinctDeviceIds(before) && DistinctDeviceIds(after)
    ensures !MaskedByDeviceId(mac, before, after)
    ensures EdgesAreExact(ComputeDiff(mac, Lookup(before, mac), Lookup(after, mac), after), before, after)
  {
    if SomeOtherUseful(mac, after) {
      var rest := after - {mac};
      var a :| a in rest && rest[a].HasUsefulLink();
      assert a in before - {mac} && (before - {mac})[a] == rest[a];
      assert a in before && before[a] == rest[a] && a in after && after[a] == rest[a];
      var identity := Identity(Lookup(before, mac), Lookup(after, mac));
      assert OtherUsefulById(identity, rest);
    }
    DiffIsExactUnlessMasked(mac, before, after);
  }

  // Two addresses sharing a device id: the first one going down is reported as the last one down.
  lemma SharedDeviceIdFakesAnEdge()
    ensures exists mac, before: PeerMap, after: PeerMap ::
              && ChangedOnlyAt(mac, before, after)
              && AnyUseful(after)
              && ComputeDiff(mac, Lookup(before, mac), Lookup(after, mac), after).usefulLinkTransitionedDown
  {
    var idle := NewPeer(Device("one", "car thing"));
    var linked := idle.(iap2 := Identified);
    var before: PeerMap := map["a" := linked, "b" := linked];
    var after: PeerMap := map["a" := idle, "b" := linked];
    assert before - {"a"} == map["b" := linked] == after - {"a"};
    assert after["b"].HasUsefulLink();
    assert ComputeDiff("a", Lookup(before, "a"), Lookup(after, "a"), after).usefulLinkTransitionedDown;
  }

  // Every up edge names the changed peer's device, whatever the device ids are.
  lemma UpEdgeNamesTheChangedPeer(mac: Address, before: PeerMap, after: PeerMap)
    ensures var diff := ComputeDiff(mac, Lookup(before, mac), Lookup(after, mac), after);
            diff.usefulLinkTransitionedUp ==> mac in after && diff.usefulDevice == Some(after[mac].device)
  {
  }
}

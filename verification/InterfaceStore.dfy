/**
  The interface manager over its two stores: the database, and the devices of the local backend. Any call
  to either store may fail. `saveInterface` changes the device first and compensates when a later step fails.
*/
module InterfaceStore {
  import opened Wrappers
  import opened Cidrs
  import opened CidrText
  import opened DevicePeers
  import P = Peers

  // ---------------------------------------------------------------------- records and devices

  datatype AwgMode = Never | Auto | Always

  /** The obfuscation settings: the flag and the parameters Jc, Jmin, Jmax, S1-S4 and H1-H4. */
  datatype Awg = Awg(enabled: bool, params: seq<int>)

  predicate HasAnyAWGParams(a: Awg) {
    exists i :: 0 <= i < |a.params| && a.params[i] != 0
  }

  predicate EmitAWG(a: Awg) {
    a.enabled && HasAnyAWGParams(a)
  }

  predicate ShouldTryAWG(mode: AwgMode, needsAWG: bool) {
    mode.Always? || (mode.Auto? && needsAWG)
  }

  datatype Interface = Interface(
    identifier: string, ifaceType: P.InterfaceType, disabled: bool, privateKey: string, listenPort: int, mtu: int,
    firewallMark: int, addresses: seq<Cidr>, awg: Awg)

  /** A stored peer with the interface it belongs to and the obfuscation settings handed down from it. */
  datatype StoredPeer = StoredPeer(iface: string, peer: P.Peer, awg: Awg)

  datatype DeviceConfig = DeviceConfig(
    privateKey: string, listenPort: int, mtu: int, firewallMark: int, addresses: set<Cidr>, up: bool,
    awgParams: seq<int>)

  datatype Device = Device(kind: Kind, config: DeviceConfig, peers: map<string, DevicePeer>)

  /** The kind of device a record calls for. */
  function KindFor(mode: AwgMode, iface: Interface): Kind {
    if ShouldTryAWG(mode, EmitAWG(iface.awg)) then AwgTun else Kernel
  }

  function AddressSet(cidrs: seq<Cidr>): set<Cidr> {
    set c | c in cidrs
  }

  /** The device is configured as the record says; a zero MTU or mark leaves the device its own. */
  predicate Describes(mode: AwgMode, c: DeviceConfig, iface: Interface) {
    && c.privateKey == iface.privateKey
    && c.listenPort == iface.listenPort
    && (iface.mtu != 0 ==> c.mtu == iface.mtu)
    && (iface.firewallMark != 0 ==> c.firewallMark == iface.firewallMark)
    && c.addresses == AddressSet(iface.addresses)
    && (c.up <==> !iface.disabled)
    && (!mode.Never? && EmitAWG(iface.awg) ==> c.awgParams == iface.awg.params)
  }

  /** The link settings of a record on a device: a zero MTU leaves the device its own. */
  function Linked(c: DeviceConfig, iface: Interface): DeviceConfig {
    c.(mtu := if iface.mtu != 0 then iface.mtu else c.mtu, addresses := AddressSet(iface.addresses),
       up := !iface.disabled)
  }

  /** The WireGuard settings of a record on a device: a zero mark leaves the device its own. */
  function Keyed(mode: AwgMode, c: DeviceConfig, iface: Interface): DeviceConfig {
    c.(
      privateKey := iface.privateKey, listenPort := iface.listenPort,
      firewallMark := if iface.firewallMark != 0 then iface.firewallMark else c.firewallMark,
      awgParams := if !mode.Never? && EmitAWG(iface.awg) then iface.awg.params else c.awgParams)
  }

  /** All settings of a record on a device. */
  function Configured(mode: AwgMode, c: DeviceConfig, iface: Interface): DeviceConfig {
    Keyed(mode, Linked(c, iface), iface)
  }

  /** The link settings were being changed: the MTU is set, and addresses are being added or removed. */
  predicate LinkPartway(was: DeviceConfig, now: DeviceConfig, iface: Interface) {
    var target := AddressSet(iface.addresses);
    || now == was
    || (&& now == was.(mtu := Linked(was, iface).mtu, addresses := now.addresses)
        && (was.addresses <= now.addresses || target <= now.addresses)
        && now.addresses <= was.addresses + target)
  }

  /**
    What a device call that failed may have left: link settings partway, link settings only, or everything
    when the connected route of an AWG interface could not be added.
  */
  predicate Partway(mode: AwgMode, was: DeviceConfig, now: DeviceConfig, iface: Interface) {
    || LinkPartway(was, now, iface)
    || now == Linked(was, iface)
    || (EmitAWG(iface.awg) && now == Configured(mode, was, iface))
  }

  function Put<V>(m: map<string, V>, k: string, v: Option<V>): map<string, V> {
    if v.Some? then m[k := v.value] else m - {k}
  }

  datatype Store = Store(
    interfaces: map<string, Interface>, peers: map<string, StoredPeer>, devices: map<string, Device>)

  predicate WellFormedPeer(pid: string, p: StoredPeer) {
    p.peer.identifier == pid && p.peer.publicKey == pid && AllValid(p.peer.addresses)
  }

  predicate WellFormedPeers(peers: map<string, StoredPeer>) {
    forall pid :: pid in peers ==> WellFormedPeer(pid, peers[pid])
  }

  predicate WellFormed(s: Store) {
    && (forall id :: id in s.interfaces ==> s.interfaces[id].identifier == id)
    && WellFormedPeers(s.peers)
  }

  predicate BelongsTo(peers: map<string, StoredPeer>, pid: string, id: string) {
    pid in peers && peers[pid].iface == id
  }

  /** The stored peer after its interface was saved. */
  function Retyped(p: StoredPeer, iface: Interface): StoredPeer {
    p.(peer := p.peer.(ifaceType := if iface.ifaceType.Untyped? then p.peer.ifaceType else P.PeerType(iface.ifaceType)),
       awg := iface.awg)
  }

  // ---------------------------------------------------------------------- what the steps do to devices

  function KindAfter(mode: AwgMode, devices: map<string, Device>, iface: Interface): Kind {
    if iface.identifier in devices then devices[iface.identifier].kind else KindFor(mode, iface)
  }

  /** With AWG off, the controller knows the devices of the kernel only. */
  predicate Reachable(mode: AwgMode, devices: map<string, Device>, id: string) {
    mode.Never? && id in devices ==> devices[id].kind.Kernel?
  }

  function PeersOn(devices: map<string, Device>, id: string): map<string, DevicePeer> {
    if id in devices then devices[id].peers else map[]
  }

  /** A device was kept, or created as the record calls for; its configuration may be anything. */
  predicate Present(mode: AwgMode, before: map<string, Device>, after: map<string, Device>, iface: Interface) {
    var id := iface.identifier;
    && id in after && after == before[id := after[id]]
    && after[id].kind == KindAfter(mode, before, iface) && after[id].peers == PeersOn(before, id)
  }

  /** The list has the peers of the interface, each once. */
  predicate Lists(list: seq<StoredPeer>, peers: map<string, StoredPeer>, id: string) {
    && (forall k :: 0 <= k < |list| ==> BelongsTo(peers, list[k].peer.identifier, id))
    && (forall k :: 0 <= k < |list| ==> peers[list[k].peer.identifier] == list[k])
    && (forall pid :: pid in peers && peers[pid].iface == id ==> Listed(list, pid))
    && (forall j, k :: 0 <= j < k < |list| ==> list[j].peer.identifier != list[k].peer.identifier)
  }

  predicate Listed(list: seq<StoredPeer>, pid: string) {
    exists k :: 0 <= k < |list| && list[k].peer.identifier == pid
  }

  /** Every peer of the interface has been pushed; other peers on the device are as before. */
  ghost predicate AllPushed(
      f: TextForm, kind: Kind, base: map<string, DevicePeer>, after: map<string, DevicePeer>,
      peers: map<string, StoredPeer>, id: string)
    requires WellFormedPeers(peers)
  {
    forall pid: string ::
      Lookup(after, pid) ==
      if BelongsTo(peers, pid, id) then Pushed(f, kind, Lookup(base, pid), peers[pid].peer) else Lookup(base, pid)
  }

  /** What a push that did not succeed may have done to a peer. */
  predicate MaybePushed(f: TextForm, kind: Kind, base: Option<DevicePeer>, after: Option<DevicePeer>, p: P.Peer)
    requires AllValid(p.addresses)
  {
    after == base || after == Pushed(f, kind, base, p) || (base.None? && after == Some(NO_SETTINGS))
  }

  ghost predicate PartlyPushed(
      f: TextForm, kind: Kind, base: map<string, DevicePeer>, after: map<string, DevicePeer>,
      peers: map<string, StoredPeer>, id: string)
    requires WellFormedPeers(peers)
  {
    forall pid: string ::
      if BelongsTo(peers, pid, id) then MaybePushed(f, kind, Lookup(base, pid), Lookup(after, pid), peers[pid].peer)
      else Lookup(after, pid) == Lookup(base, pid)
  }

  // ---------------------------------------------------------------------- outcomes of saveInterface

  /**
    How saving ends: nothing was changed; the stores moved to the new record; the device went back to the
    old one; the compensation itself failed; a device call without compensation failed halfway; or the
    stores moved but peers, hooks or the restore of peers were not completed.
  */
  datatype Outcome = Unchanged | Saved | Compensated | Unrepaired | Halfway | Incomplete

  predicate Switched(before: Store, iface: Interface) {
    var id := iface.identifier;
    id in before.interfaces && EmitAWG(before.interfaces[id].awg) != EmitAWG(iface.awg)
  }

  predicate NewlyEnabled(before: Store, iface: Interface) {
    !iface.disabled && !(iface.identifier in before.interfaces && !before.interfaces[iface.identifier].disabled)
  }

  /** The devices that the physical step starts from. */
  function StartDevices(before: Store, iface: Interface): map<string, Device> {
    if Switched(before, iface) then before.devices - {iface.identifier} else before.devices
  }

  /** The database and the configuration of the device describe the new record. */
  predicate RecordMoved(mode: AwgMode, before: Store, after: Store, iface: Interface) {
    var id := iface.identifier;
    && after.interfaces == before.interfaces[id := iface]
    && id in after.devices && after.devices == before.devices[id := after.devices[id]]
    && after.devices[id].kind == KindAfter(mode, StartDevices(before, iface), iface)
    && Describes(mode, after.devices[id].config, iface)
  }

  predicate PeersRetyped(before: Store, after: Store, iface: Interface) {
    && after.peers.Keys == before.peers.Keys
    && forall pid :: pid in before.peers ==>
         after.peers[pid] ==
         if iface.identifier in before.interfaces && before.peers[pid].iface == iface.identifier
         then Retyped(before.peers[pid], iface) else before.peers[pid]
  }

  predicate PeersPartlyRetyped(before: Store, after: Store, iface: Interface) {
    && after.peers.Keys == before.peers.Keys
    && forall pid :: pid in before.peers ==>
         || after.peers[pid] == before.peers[pid]
         || (iface.identifier in before.interfaces && before.peers[pid].iface == iface.identifier &&
             after.peers[pid] == Retyped(before.peers[pid], iface))
  }

  ghost predicate Moved(f: TextForm, mode: AwgMode, before: Store, after: Store, iface: Interface)
    requires WellFormed(after)
  {
    var id := iface.identifier;
    && RecordMoved(mode, before, after, iface)
    && PeersRetyped(before, after, iface)
    && var base, kind := PeersOn(StartDevices(before, iface), id), after.devices[id].kind;
       if !iface.disabled && (Switched(before, iface) || NewlyEnabled(before, iface))
       then AllPushed(f, kind, base, after.devices[id].peers, after.peers, id)
       else after.devices[id].peers == base
  }

  ghost predicate MovedInPart(f: TextForm, mode: AwgMode, before: Store, after: Store, iface: Interface)
    requires WellFormed(after)
  {
    var id := iface.identifier;
    && RecordMoved(mode, before, after, iface)
    && PeersPartlyRetyped(before, after, iface)
    && var base, kind := PeersOn(StartDevices(before, iface), id), after.devices[id].kind;
       if !iface.disabled && (Switched(before, iface) || NewlyEnabled(before, iface))
       then PartlyPushed(f, kind, base, after.devices[id].peers, after.peers, id)
       else after.devices[id].peers == base
  }

  /** The database is as before and the device describes its record again, or is gone if there is none. */
  ghost predicate PutBack(f: TextForm, mode: AwgMode, before: Store, after: Store, iface: Interface)
    requires WellFormed(before)
  {
    var id := iface.identifier;
    && after.interfaces == before.interfaces && after.peers == before.peers
    && if id !in before.interfaces then after.devices == before.devices - {id}
       else
         var previous, start := before.interfaces[id], StartDevices(before, iface);
         && id in after.devices && after.devices == before.devices[id := after.devices[id]]
         && Describes(mode, after.devices[id].config, previous)
         && after.devices[id].kind == KindAfter(mode, start, previous)
         && if previous.disabled then after.devices[id].peers == PeersOn(start, id)
            else AllPushed(f, after.devices[id].kind, PeersOn(start, id), after.devices[id].peers, before.peers, id)
  }

  ghost predicate Ends(f: TextForm, mode: AwgMode, outcome: Outcome, before: Store, after: Store, iface: Interface)
    requires WellFormed(before) && WellFormed(after)
  {
    match outcome
    case Unchanged => after == before
    case Saved => Moved(f, mode, before, after, iface)
    case Compensated => PutBack(f, mode, before, after, iface)
    case Incomplete => MovedInPart(f, mode, before, after, iface)
    case Halfway => LeftHalfway(mode, before, after, iface)
    case Unrepaired => LeftUnrepaired(f, mode, before, after, iface)
  }

  /** The device may be anything between the one of the record before and the one after, if it is still there. */
  predicate Touched(mode: AwgMode, before: map<string, Device>, after: map<string, Device>, iface: Interface) {
    var id := iface.identifier;
    && Present(mode, before, after, iface)
    && (id in before ==> Partway(mode, before[id].config, after[id].config, iface))
  }

  /** An AWG device is gone with its process, or the device is there with its kind and peers, but partway. */
  predicate LeftHalfway(mode: AwgMode, before: Store, after: Store, iface: Interface) {
    var id := iface.identifier;
    && after.interfaces == before.interfaces && after.peers == before.peers && after.devices != before.devices
    && if Switched(before, iface) then
         id in before.devices && before.devices[id].kind.AwgTun? && after.devices == before.devices - {id}
       else Touched(mode, before.devices, after.devices, iface)
  }

  /**
    After a failed rollback the device is gone, or it is of the old or the new kind, with some of its peers;
    outside of a mode switch its configuration is between the new and the old one.
  */
  ghost predicate LeftUnrepaired(f: TextForm, mode: AwgMode, before: Store, after: Store, iface: Interface)
    requires WellFormed(before)
  {
    var id, start := iface.identifier, StartDevices(before, iface);
    && after.interfaces == before.interfaces && after.peers == before.peers
    && after.devices - {id} == before.devices - {id}
    && (id in after.devices && id !in before.interfaces ==> Present(mode, before.devices, after.devices, iface))
    && (id in after.devices && id in before.interfaces ==>
         var previous, device := before.interfaces[id], after.devices[id];
         && (device.kind == KindAfter(mode, start, previous) || device.kind == KindAfter(mode, start, iface))
         && PartlyPushed(f, device.kind, PeersOn(start, id), device.peers, before.peers, id)
         && (id in start ==>
              var moved := Configured(mode, start[id].config, iface);
              Partway(mode, moved, device.config, previous) || device.config == Configured(mode, moved, previous)))
  }

  /** Records and devices of other interfaces, and their peers, are as before. */
  predicate OthersUnchanged(before: Store, after: Store, id: string) {
    && (forall other :: other in before.interfaces.Keys + after.interfaces.Keys && other != id ==>
         Lookup(after.interfaces, other) == Lookup(before.interfaces, other))
    && (forall other :: other in before.devices.Keys + after.devices.Keys && other != id ==>
         Lookup(after.devices, other) == Lookup(before.devices, other))
    && after.peers.Keys == before.peers.Keys
    && (forall pid :: pid in before.peers ==>
         after.peers[pid].iface == before.peers[pid].iface &&
         (before.peers[pid].iface != id ==> after.peers[pid] == before.peers[pid]))
  }

  // ---------------------------------------------------------------------- the manager

  class Manager {
    const f: TextForm
    const mode: AwgMode
    /** The devices whose peers cannot be listed when everything is restored. */
    const unreadable: set<string>
    /** No call to the database, the kernel or a hook fails for a reason of its own. */
    const reliable: bool

    var interfaces: map<string, Interface>
    var peers: map<string, StoredPeer>
    var devices: map<string, Device>

    constructor (f: TextForm, mode: AwgMode, unreadable: set<string>, reliable: bool, s: Store)
      ensures this.f == f && this.mode == mode && this.unreadable == unreadable && this.reliable == reliable
      ensures Now() == s
    {
      this.f, this.mode, this.unreadable, this.reliable := f, mode, unreadable, reliable;
      interfaces, peers, devices := s.interfaces, s.peers, s.devices;
    }

    function Now(): Store
      reads this
    {
      Store(interfaces, peers, devices)
    }

    // -------------------------------------------------------------------- the database

    method ListPeers(id: string) returns (list: Option<seq<StoredPeer>>)
      requires WellFormed(Now())
      ensures list.Some? ==> Lists(list.value, peers, id)
      ensures reliable ==> list.Some?
    {
      var ok: bool := *;
      if !ok && !reliable {
        return None;
      }
      var found: seq<StoredPeer> := [];
      var rest := set pid | pid in peers && peers[pid].iface == id;
      while rest != {}
        invariant forall pid :: pid in rest ==> BelongsTo(peers, pid, id) && !Listed(found, pid)
        invariant forall pid :: pid in peers && peers[pid].iface == id ==> pid in rest || Listed(found, pid)
        invariant forall k :: 0 <= k < |found| ==> BelongsTo(peers, found[k].peer.identifier, id)
        invariant forall k :: 0 <= k < |found| ==> peers[found[k].peer.identifier] == found[k]
        invariant forall j, k :: 0 <= j < k < |found| ==> found[j].peer.identifier != found[k].peer.identifier
        decreases rest
      {
        var pid :| pid in rest;
        assert WellFormedPeer(pid, peers[pid]);
        ListedSnoc(found, peers[pid]);
        found := found + [peers[pid]];
        rest := rest - {pid};
      }
      return Some(found);
    }

    method SaveRecord(iface: Interface) returns (ok: bool)
      modifies this`interfaces
      ensures interfaces == if ok then old(interfaces)[iface.identifier := iface] else old(interfaces)
      ensures reliable ==> ok
    {
      ok := *;
      ok := ok || reliable;
      if ok {
        interfaces := interfaces[iface.identifier := iface];
      }
    }

    method SavePeerRecord(p: StoredPeer) returns (ok: bool)
      modifies this`peers
      ensures peers == if ok then old(peers)[p.peer.identifier := p] else old(peers)
      ensures reliable ==> ok
    {
      ok := *;
      ok := ok || reliable;
      if ok {
        peers := peers[p.peer.identifier := p];
      }
    }

    /** Hands the type and the obfuscation settings down to the peers; stops at the first failure. */
    method UpdatePeerRecords(iface: Interface, list: seq<StoredPeer>) returns (ok: bool)
      requires Lists(list, peers, iface.identifier)
      modifies this`peers
      ensures peers.Keys == old(peers).Keys
      ensures forall pid :: pid in old(peers) ==>
                peers[pid] == old(peers)[pid] ||
                (old(peers)[pid].iface == iface.identifier && peers[pid] == Retyped(old(peers)[pid], iface))
      ensures ok ==> forall pid :: pid in old(peers) && old(peers)[pid].iface == iface.identifier ==>
                peers[pid] == Retyped(old(peers)[pid], iface)
      ensures reliable ==> ok
    {
      for k := 0 to |list|
        invariant peers.Keys == old(peers).Keys
        invariant forall pid :: pid in old(peers) ==>
                    peers[pid] == old(peers)[pid] ||
                    (old(peers)[pid].iface == iface.identifier && peers[pid] == Retyped(old(peers)[pid], iface))
        invariant forall j :: 0 <= j < k ==>
                    peers[list[j].peer.identifier] == Retyped(old(peers)[list[j].peer.identifier], iface)
      {
        assert BelongsTo(old(peers), list[k].peer.identifier, iface.identifier);
        var saved := SavePeerRecord(Retyped(list[k], iface));
        if !saved {
          return false;
        }
      }
      forall pid | pid in old(peers) && old(peers)[pid].iface == iface.identifier
        ensures peers[pid] == Retyped(old(peers)[pid], iface)
      {
        assert Listed(list, pid);
      }
      return true;
    }

    // -------------------------------------------------------------------- the local controller

    /** Reading a device fails when there is none, and possibly otherwise. */
    method ReadDevice(id: string) returns (ok: bool)
      ensures ok ==> id in devices
      ensures reliable && Reachable(mode, devices, id) ==> (ok <==> id in devices)
    {
      ok := *;
      ok := (ok || (reliable && Reachable(mode, devices, id))) && id in devices;
    }

    method CreateLowLevelInterface(id: string, needsAWG: bool) returns (ok: bool)
      requires id !in devices
      modifies this`devices
      ensures !ok ==> devices == old(devices)
      ensures ok ==>
                && id in devices && devices == old(devices)[id := devices[id]]
                && devices[id].kind == (if ShouldTryAWG(mode, needsAWG) then AwgTun else Kernel)
                && devices[id].peers == map[]
      ensures reliable ==> ok
    {
      var config: DeviceConfig := *;
      if ShouldTryAWG(mode, needsAWG) {
        var started: bool := *;
        if started || reliable {
          devices := devices[id := Device(AwgTun, config, map[])];
          return true;
        }
        if mode.Always? {
          return false;
        }
        if needsAWG {
          return false;
        }
        assert false;
      }
      var added: bool := *;
      if !added && !reliable {
        return false;
      }
      devices := devices[id := Device(Kernel, config, map[])];
      return true;
    }

    method GetOrCreateInterface(iface: Interface) returns (ok: bool)
      modifies this`devices
      ensures ok ==> Present(mode, old(devices), devices, iface)
      ensures !ok ==> devices == old(devices) || Present(mode, old(devices), devices, iface)
      ensures iface.identifier in old(devices) ==> devices == old(devices)
      ensures reliable && Reachable(mode, old(devices), iface.identifier) ==> ok
    {
      var id := iface.identifier;
      var read := ReadDevice(id);
      if read {
        return true;
      }
      if id in devices {
        return false;
      }
      ok := CreateLowLevelInterface(id, EmitAWG(iface.awg));
      if ok {
        ok := ReadDevice(id);
      }
    }

    /** A change of the configuration of a device that exists. */
    method Configure(id: string, config: DeviceConfig) returns (ok: bool)
      modifies this`devices
      ensures !ok ==> devices == old(devices)
      ensures ok ==> id in old(devices) && devices == old(devices)[id := old(devices)[id].(config := config)]
      ensures reliable && id in old(devices) ==> ok
    {
      ok := *;
      ok := (ok || reliable) && id in devices;
      if ok {
        devices := devices[id := devices[id].(config := config)];
      }
    }

    /** Sets the MTU, replaces the addresses one by one, and brings the link up or down. */
    method UpdateLowLevelInterface(iface: Interface) returns (ok: bool)
      requires iface.identifier in devices
      modifies this`devices
      ensures Present(mode, old(devices), devices, iface)
      ensures var was, config := old(devices)[iface.identifier].config, devices[iface.identifier].config;
              if ok then config == Linked(was, iface) else LinkPartway(was, config, iface)
      ensures reliable ==> ok
    {
      var id := iface.identifier;
      if iface.mtu != 0 {
        ok := Configure(id, devices[id].config.(mtu := iface.mtu));
        if !ok {
          return;
        }
      }
      ghost var was := devices[id].config;
      for i := 0 to |iface.addresses|
        invariant Present(mode, old(devices), devices, iface)
        invariant devices[id].config == was.(addresses := was.addresses + AddressSet(iface.addresses[..i]))
      {
        ok := Configure(id, devices[id].config.(addresses := devices[id].config.addresses + {iface.addresses[i]}));
        if !ok {
          return;
        }
        assert AddressSet(iface.addresses[..i + 1]) == AddressSet(iface.addresses[..i]) + {iface.addresses[i]};
      }
      assert iface.addresses[..|iface.addresses|] == iface.addresses;
      ok := RemoveUnwantedAddresses(iface);
      if !ok {
        return;
      }
      ok := Configure(id, devices[id].config.(up := !iface.disabled));
    }

    method RemoveUnwantedAddresses(iface: Interface) returns (ok: bool)
      requires iface.identifier in devices
      modifies this`devices
      ensures Present(mode, old(devices), devices, iface)
      ensures var was, config := old(devices)[iface.identifier].config, devices[iface.identifier].config;
              && config == was.(addresses := config.addresses)
              && was.addresses * AddressSet(iface.addresses) <= config.addresses <= was.addresses
              && (ok ==> config.addresses == was.addresses * AddressSet(iface.addresses))
      ensures reliable ==> ok
    {
      var id := iface.identifier;
      var listed: bool := *;
      if !listed && !reliable {
        return false;
      }
      var rest := devices[id].config.addresses;
      ghost var was := devices[id].config;
      while rest != {}
        invariant Present(mode, old(devices), devices, iface)
        invariant rest <= was.addresses
        invariant devices[id].config ==
                    was.(addresses := was.addresses - set c | c in was.addresses && c !in rest && c !in iface.addresses)
        decreases rest
      {
        var c :| c in rest;
        rest := rest - {c};
        if c in iface.addresses {
          assert devices[id].config.addresses ==
            was.addresses - set c | c in was.addresses && c !in rest && c !in iface.addresses;
          continue;
        }
        ok := Configure(id, devices[id].config.(addresses := devices[id].config.addresses - {c}));
        if !ok {
          return;
        }
        assert devices[id].config.addresses ==
          was.addresses - set c | c in was.addresses && c !in rest && c !in iface.addresses;
      }
      assert devices[id].config.addresses == was.addresses * AddressSet(iface.addresses);
      return true;
    }

    /** Keys, port, mark and, unless AWG is off, the obfuscation parameters, in one call. */
    method UpdateWireGuardInterface(iface: Interface) returns (ok: bool)
      requires iface.identifier in devices
      modifies this`devices
      ensures !ok ==> devices == old(devices)
      ensures ok ==>
                Present(mode, old(devices), devices, iface) &&
                devices[iface.identifier].config == Keyed(mode, old(devices)[iface.identifier].config, iface)
      ensures reliable ==> ok
    {
      var id := iface.identifier;
      var config := devices[id].config.(privateKey := iface.privateKey, listenPort := iface.listenPort);
      if iface.firewallMark != 0 {
        config := config.(firewallMark := iface.firewallMark);
      }
      if !mode.Never? && EmitAWG(iface.awg) {
        config := config.(awgParams := iface.awg.params);
      }
      ok := Configure(id, config);
    }

    /** `SaveInterface` of the controller; a failure leaves no trace, or a device that is partway. */
    method ApplyPhysicalInterface(iface: Interface) returns (ok: bool)
      modifies this`devices
      ensures ok ==> Present(mode, old(devices), devices, iface)
      ensures ok ==> Describes(mode, devices[iface.identifier].config, iface)
      ensures ok && iface.identifier in old(devices) ==>
                devices[iface.identifier].config == Configured(mode, old(devices)[iface.identifier].config, iface)
      ensures !ok ==> devices == old(devices) || Touched(mode, old(devices), devices, iface)
      ensures reliable && Reachable(mode, old(devices), iface.identifier) ==> ok
    {
      hide EmitAWG;
      ok := GetOrCreateInterface(iface);
      if !ok {
        return;
      }
      ghost var was := devices[iface.identifier].config;
      ok := UpdateLowLevelInterface(iface);
      if !ok {
        return;
      }
      ConfiguredIsDescribed(mode, was, iface);
      ok := UpdateWireGuardInterface(iface);
      if !ok {
        return;
      }
      if EmitAWG(iface.awg) {
        ok := Attempt(); // the connected routes
      }
    }

    /** The amneziawg-go process is stopped first, and its device goes with it; no device is a success. */
    method DeleteInterface(id: string) returns (ok: bool)
      modifies this`devices
      ensures ok ==> devices == old(devices) - {id}
      ensures !ok ==>
                devices == old(devices) ||
                (id in old(devices) && old(devices)[id].kind.AwgTun? && devices == old(devices) - {id})
      ensures reliable ==> ok
    {
      if id in devices && devices[id].kind.AwgTun? {
        devices := devices - {id};
      }
      var found: bool := *;
      if reliable {
        found := id in devices;
      }
      if !found {
        ok := Attempt(); // the link could not be looked up
        ok := ok && id !in devices;
        assert id !in devices ==> devices - {id} == devices;
        return;
      }
      var deleted: bool := Attempt();
      if id in devices && !deleted {
        return false;
      }
      assert id !in devices ==> devices - {id} == devices;
      devices := devices - {id};
      return true;
    }

    /** One call that changes a peer of a device that exists. */
    method ConfigurePeer(id: string, pid: string, p: Option<DevicePeer>) returns (ok: bool)
      modifies this`devices
      ensures !ok ==> devices == old(devices)
      ensures ok ==> id in old(devices) && devices == WithPeer(old(devices), id, pid, p)
      ensures reliable && id in old(devices) ==> ok
    {
      ok := *;
      ok := (ok || reliable) && id in devices;
      if ok {
        devices := WithPeer(devices, id, pid, p);
      }
    }

    /** The networks of a peer as the device lists them, in any order. */
    method ListNetworks(networks: set<Network>) returns (listed: seq<Cidr>)
      ensures Networks(listed) == networks
    {
      listed := [];
      var rest := networks;
      while rest != {}
        invariant rest <= networks && Networks(listed) == networks - rest
        decreases rest
      {
        var c: Network :| c in rest;
        NetworksSnoc(listed, c);
        listed := listed + [c];
        rest := rest - {c};
      }
    }

    method SavePeer(id: string, p: StoredPeer) returns (ok: bool)
      requires WellFormedPeer(p.peer.identifier, p)
      modifies this`devices
      ensures PeerSaved(f, old(devices), devices, id, p, ok)
      ensures reliable && id in old(devices) && Reachable(mode, old(devices), id) ==> ok
    {
      hide Networks, Settings, AllValid;
      var isAwg := id in devices && devices[id].kind.AwgTun?;
      if isAwg && !mode.Never? {
        ok := SaveAwgPeer(id, p);
      } else if isAwg {
        SamePeer(devices, id, p.peer.identifier);
        return false; // netlink does not know the device
      } else {
        ok := SaveKernelPeer(id, p);
      }
    }

    method SaveKernelPeer(id: string, p: StoredPeer) returns (ok: bool)
      requires WellFormedPeer(p.peer.identifier, p)
      requires id in devices ==> devices[id].kind.Kernel?
      modifies this`devices
      ensures PeerSaved(f, old(devices), devices, id, p, ok)
      ensures reliable && id in old(devices) ==> ok
    {
      hide Networks, Settings, AllValid, KernelUpdate;
      var pid := p.peer.identifier;
      var read := ReadDevice(id);
      if !read {
        SamePeer(devices, id, pid);
        return false;
      }
      SamePeer(devices, id, pid);
      ghost var before := devices;
      if pid !in devices[id].peers {
        ok := ConfigurePeer(id, pid, Some(NO_SETTINGS));
        if !ok {
          return;
        }
        read := ReadDevice(id);
        if !read {
          return false;
        }
      }
      var held := devices[id].peers[pid];
      assert devices == WithPeer(before, id, pid, Some(held));
      PutTwice(before, id, pid, Some(held));
      var listed := ListNetworks(held.allowedIPs);
      var pp := P.Merged(f, ReadBack(pid, held, listed), p.peer);
      KernelPush(f, pid, held, listed, p.peer);
      if pp.extras == Some(true) {
        ok := ConfigurePeer(id, pid, None);
      } else {
        ok := ConfigurePeer(id, pid, Some(KernelUpdate(held, pp)));
      }
    }

    /** A call whose answer could not be read counts as failed, whether or not it took effect. */
    method SaveAwgPeer(id: string, p: StoredPeer) returns (ok: bool)
      requires WellFormedPeer(p.peer.identifier, p)
      requires id in devices && devices[id].kind.AwgTun?
      modifies this`devices
      ensures PeerSaved(f, old(devices), devices, id, p, ok)
      ensures reliable ==> ok
    {
      hide Networks, Settings, AllValid, AwgUpdate;
      var pid := p.peer.identifier;
      var pp := P.Merged(f, Blank(pid), p.peer);
      var held := if pid in devices[id].peers then devices[id].peers[pid] else NO_SETTINGS;
      AwgPush(f, pid, held, p.peer);
      SamePeer(devices, id, pid);
      ok := ConfigurePeer(id, pid, if pp.extras == Some(true) then None else Some(AwgUpdate(held, pp)));
      var answered := Attempt();
      ok := ok && answered;
    }

    /** Pushes the listed peers, stopping at the first failure or going on to the last peer. */
    method PushPeers(id: string, list: seq<StoredPeer>, goOn: bool) returns (ok: bool)
      requires WellFormedPeers(peers) && Lists(list, peers, id)
      modifies this`devices
      ensures id !in old(devices) ==> devices == old(devices)
      ensures id in old(devices) ==>
                && id in devices && devices == old(devices)[id := old(devices)[id].(peers := devices[id].peers)]
                && PartlyPushed(f, devices[id].kind, old(devices)[id].peers, devices[id].peers, peers, id)
                && (ok ==> AllPushed(f, devices[id].kind, old(devices)[id].peers, devices[id].peers, peers, id))
      ensures reliable && id in old(devices) && Reachable(mode, old(devices), id) ==> ok
    {
      hide Pushed, AllValid, Lists, BelongsTo, Listed, WellFormedPeer, WellFormedPeers, MaybePushed;
      ok := true;
      ghost var was := devices;
      ghost var base := PeersOn(devices, id);
      NonePushed(f, KindOn(devices, id), base, peers, id, list);
      for k := 0 to |list|
        invariant id !in was ==> devices == was
        invariant id in was ==>
                    && id in devices && devices == was[id := was[id].(peers := devices[id].peers)]
                    && PushedUpTo(f, was[id].kind, base, devices[id].peers, peers, id, list, k, ok)
                    && (reliable && Reachable(mode, was, id) ==> ok)
      {
        ListedIsWellFormed(list, peers, id, k);
        ghost var middle := devices;
        var saved := SavePeer(id, list[k]);
        if id in was {
          OneMorePushed(f, was[id].kind, base, middle, devices, peers, id, list, k, ok, saved);
        }
        ok := ok && saved;
        if !saved && !goOn {
          if id in was {
            PushesEnd(f, was[id].kind, base, devices[id].peers, peers, id, list, k + 1, ok);
          }
          return;
        }
      }
      if id in was {
        PushesEnd(f, was[id].kind, base, devices[id].peers, peers, id, list, |list|, ok);
      }
    }

    // -------------------------------------------------------------------- saveInterface

    /** Hooks, validation and other calls without effect on the stores. */
    method Attempt() returns (ok: bool)
      ensures reliable ==> ok
    {
      ok := *;
      ok := ok || reliable;
    }

    /** Puts the device of the old record back, or removes the new one if there was no record. */
    method RollbackPhysicalInterface(
        previous: Option<Interface>, previousPeers: seq<StoredPeer>, desired: Interface, modeSwitched: bool)
      returns (ok: bool)
      requires WellFormedPeers(peers)
      requires previous.Some? ==>
                 previous.value.identifier == desired.identifier && Lists(previousPeers, peers, desired.identifier)
      modifies this`devices
      ensures devices - {desired.identifier} == old(devices) - {desired.identifier}
      ensures previous.None? ==>
                devices == old(devices) - {desired.identifier} || (!ok && devices == old(devices))
      ensures ok && previous.Some? ==>
                RolledBack(f, mode, if modeSwitched then old(devices) - {desired.identifier} else old(devices),
                  devices, previous.value, peers)
      ensures !ok && previous.Some? ==>
                || RollbackLeft(f, mode, old(devices), devices, previous.value, peers)
                || (modeSwitched &&
                    RollbackLeft(f, mode, old(devices) - {desired.identifier}, devices, previous.value, peers))
      ensures reliable && Reachable(mode, old(devices), desired.identifier) ==> ok
    {
      hide Describes, EmitAWG, AllPushed, PartlyPushed, Lists, WellFormedPeers, KindFor, Partway, Configured;
      var id := desired.identifier;
      if previous.None? {
        ok := DeleteInterface(id);
        return;
      }
      var deleted := true;
      if modeSwitched {
        deleted := DeleteInterface(id);
      }
      ghost var start := devices;
      ok := ApplyPhysicalInterface(previous.value);
      if ok {
        PresentIsReachable(mode, start, devices, previous.value);
      }
      if id in devices {
        NothingPushed(f, devices[id].kind, devices[id].peers, peers, id);
      }
      if !ok {
        return;
      }
      if !previous.value.disabled {
        ok := PushPeers(id, previousPeers, true);
      }
      ok := ok && deleted;
    }

    /** Steps 3 and 4: the device first, then the record, with compensation. */
    method MoveRecord(iface: Interface, oldInterface: Option<Interface>, oldPeers: seq<StoredPeer>, modeSwitched: bool)
      returns (ok: bool, ghost outcome: Outcome)
      requires WellFormed(Now()) && oldInterface == Lookup(interfaces, iface.identifier)
      requires oldInterface.Some? ==> Lists(oldPeers, peers, iface.identifier)
      requires modeSwitched == Switched(Now(), iface)
      modifies this`devices, this`interfaces
      ensures WellFormed(Now()) && OthersUnchanged(old(Now()), Now(), iface.identifier)
      ensures ok ==> RecordMoved(mode, old(Now()), Now(), iface)
      ensures ok ==>
                devices[iface.identifier].peers == PeersOn(StartDevices(old(Now()), iface), iface.identifier)
      ensures !ok ==> outcome in {Unchanged, Compensated, Unrepaired, Halfway}
      ensures !ok ==> Ends(f, mode, outcome, old(Now()), Now(), iface)
      ensures reliable && Reachable(mode, old(devices), iface.identifier) ==> ok
    {
      hide Describes, AllPushed, PartlyPushed, Lists, RolledBack, RollbackLeft, PutBack, EmitAWG, KindAfter, KindFor;
      hide OthersUnchanged, WellFormedPeers, Ends, Switched, Present, RecordMoved, StartDevices, Touched, Configured;
      var id := iface.identifier;
      ghost var before := Now();
      outcome := Saved;
      if modeSwitched {
        ok := DeleteInterface(id);
        OnlyDevicesChanged(before, devices, id);
        EndsEarly(f, mode, before, Now(), iface);
        if !ok {
          outcome := if devices == before.devices then Unchanged else Halfway;
          return;
        }
      }
      ghost var start := devices;
      StartIsReached(before, start, iface);
      ok := ApplyPhysicalInterface(iface);
      TouchedIsPresent(mode, start, devices, iface);
      AppliedElsewhere(mode, before, start, devices, iface);
      EndsEarly(f, mode, before, Now(), iface);
      ghost var applied := devices;
      if !ok && !modeSwitched {
        outcome := if devices == before.devices then Unchanged else Halfway;
        return;
      }
      if ok {
        ok := SaveRecord(iface);
        if ok {
          Moves(mode, before, start, Now(), iface);
          return;
        }
      }
      var restored := RollbackPhysicalInterface(oldInterface, oldPeers, iface, modeSwitched);
      outcome := if restored then Compensated else Unrepaired;
      OnlyDevicesChanged(before, devices, id);
      if restored {
        Compensates(f, mode, before, start, applied, devices, iface);
      } else {
        RollbackFails(f, mode, before, start, applied, devices, iface);
      }
    }

    method SaveInterface(iface: Interface) returns (ok: bool, ghost outcome: Outcome)
      requires WellFormed(Now())
      modifies this
      ensures WellFormed(Now()) && OthersUnchanged(old(Now()), Now(), iface.identifier)
      ensures ok <==> outcome.Saved?
      ensures Ends(f, mode, outcome, old(Now()), Now(), iface)
      ensures reliable && Reachable(mode, old(devices), iface.identifier) ==> ok
      ensures ok && Reachable(mode, old(devices), iface.identifier) ==> Reachable(mode, devices, iface.identifier)
    {
      hide Describes, AllPushed, PartlyPushed, Lists, WellFormedPeers, EmitAWG, KindAfter, KindFor;
      var id := iface.identifier;
      ghost var before := Now();
      ok := Attempt(); // validation
      if !ok {
        return false, Unchanged;
      }
      var oldInterface := Lookup(interfaces, id);
      var oldEnabled, newEnabled := oldInterface.Some? && !oldInterface.value.disabled, !iface.disabled;
      var modeSwitched := oldInterface.Some? && EmitAWG(oldInterface.value.awg) != EmitAWG(iface.awg);
      var oldPeers: seq<StoredPeer> := [];
      if oldInterface.Some? {
        var listed := ListPeers(id);
        if listed.None? {
          return false, Unchanged;
        }
        oldPeers := listed.value;
      }
      ok := Attempt(); // pre-save hooks and actions
      if !ok {
        return false, Unchanged;
      }
      ok, outcome := MoveRecord(iface, oldInterface, oldPeers, modeSwitched);
      if !ok {
        return;
      }
      ok, outcome := FinishSave(iface, oldInterface.Some?, oldPeers, modeSwitched || (!oldEnabled && newEnabled), before);
      if ok {
        StaysReachable(mode, before, Now(), iface);
      }
    }

    /** Steps 5 to 7: the records of the peers, hooks, and the restore of the peers on the device. */
    method FinishSave(
        iface: Interface, known: bool, oldPeers: seq<StoredPeer>, restore: bool, ghost before: Store)
      returns (ok: bool, ghost outcome: Outcome)
      requires WellFormed(Now()) && WellFormed(before) && before.peers == peers
      requires known <==> iface.identifier in before.interfaces
      requires known ==> Lists(oldPeers, peers, iface.identifier)
      requires restore && !iface.disabled <==> !iface.disabled && (Switched(before, iface) || NewlyEnabled(before, iface))
      requires RecordMoved(mode, before, Now(), iface)
      requires devices[iface.identifier].peers == PeersOn(StartDevices(before, iface), iface.identifier)
      modifies this`devices, this`peers
      ensures WellFormed(Now()) && OthersUnchanged(before, Now(), iface.identifier)
      ensures outcome == (if ok then Saved else Incomplete)
      ensures Ends(f, mode, outcome, before, Now(), iface)
      ensures reliable && Reachable(mode, before.devices, iface.identifier) ==> ok
    {
      hide Describes, AllPushed, PartlyPushed, Lists, KindAfter, KindFor, Switched, NewlyEnabled, StartDevices;
      hide OthersUnchanged, WellFormedPeers, Ends, RecordMoved, PeersOn, Retyped;
      var id := iface.identifier;
      outcome := Incomplete;
      ghost var moved := Now();
      ok := true;
      RetypedIsWellFormed(peers, peers, iface);
      if known {
        ok := UpdatePeerRecords(iface, oldPeers);
        RetypedIsWellFormed(before.peers, peers, iface);
      }
      DeviceIsThere(mode, before, moved, iface);
      NothingPushed(f, devices[id].kind, devices[id].peers, peers, id);
      EndsInPart(f, mode, before, moved, Now(), iface);
      StaysReachable(mode, before, moved, iface);
      if !ok {
        return;
      }
      ok := Attempt(); // post-save hooks
      if !ok {
        return;
      }
      if restore && !iface.disabled {
        var listed := ListPeers(id);
        if listed.None? {
          return false, Incomplete;
        }
        ok := PushPeers(id, listed.value, false);
        EndsInPart(f, mode, before, moved, Now(), iface);
        if !ok {
          return;
        }
      }
      outcome := Saved;
      EndsSaved(f, mode, before, moved, Now(), iface);
    }

    method DeletePeer(id: string, pid: string) returns (ok: bool)
      modifies this`devices
      ensures !ok ==> devices == old(devices)
      ensures ok ==> id in old(devices) && devices == WithPeer(old(devices), id, pid, None)
      ensures reliable && id in old(devices) ==> ok
    {
      ok := ConfigurePeer(id, pid, None);
    }

    // -------------------------------------------------------------------- savePeers

    /** Pushes the peer within the transaction that stores it: the commit may still fail after the push. */
    method SaveOnePeer(p: StoredPeer) returns (ok: bool)
      requires WellFormed(Now()) && WellFormedPeer(p.peer.identifier, p)
      modifies this`devices, this`peers
      ensures WellFormed(Now())
      ensures ok ==> p.iface in interfaces && p.iface in old(devices)
      ensures ok ==> StoredAndPushed(f, old(Now()), Now(), p.(awg := interfaces[p.iface].awg))
      ensures !ok ==> peers == old(peers)
      ensures !ok ==> devices == old(devices) || exists saved :: PeerSaved(f, old(devices), devices, p.iface, p, saved)
      ensures reliable && p.iface in interfaces && p.iface in old(devices) && Reachable(mode, old(devices), p.iface) ==>
                ok
    {
      hide Describes, Pushed, MaybePushed, AllValid;
      var loaded := Attempt();
      if !loaded || p.iface !in interfaces {
        return false;
      }
      var updated := p.(awg := interfaces[p.iface].awg);
      ok := SavePeer(p.iface, updated);
      SameSave(f, old(devices), devices, p.iface, p, updated, ok);
      if !ok {
        assert PeerSaved(f, old(devices), devices, p.iface, p, false);
        return;
      }
      assert PeerSaved(f, old(devices), devices, p.iface, p, true);
      ok := SavePeerRecord(updated);
    }

    /**
      On success all peers are stored and pushed, the last entry counting for each; distinct new ones keep
      every agreeing device in agreement.
    */
    method SavePeers(list: seq<StoredPeer>) returns (ok: bool)
      requires WellFormed(Now())
      requires forall k :: 0 <= k < |list| ==> WellFormedPeer(list[k].peer.identifier, list[k])
      modifies this`devices, this`peers
      ensures WellFormed(Now())
      ensures ok ==> forall k :: 0 <= k < |list| ==> list[k].iface in interfaces
      ensures ok ==> forall k :: 0 <= k < |list| && IsLast(list, k, |list|) ==>
                Lookup(peers, list[k].peer.identifier) == Some(list[k].(awg := interfaces[list[k].iface].awg))
      ensures forall pid :: pid in old(peers) && (forall k :: 0 <= k < |list| ==> list[k].peer.identifier != pid) ==>
                Lookup(peers, pid) == Lookup(old(peers), pid)
      ensures ok && DistinctPeers(list) && (forall k :: 0 <= k < |list| ==> list[k].peer.identifier !in old(peers)) ==>
                forall id :: id in old(devices) && PeersAgree(f, old(Now()), id) ==>
                  id in devices && PeersAgree(f, Now(), id)
      ensures reliable && AllReachable(mode, old(Now()), list) ==> ok
    {
      hide Describes, Pushed, MaybePushed, AllValid, PeersAgree, StoredAndPushed, PeerSaved, WellFormedPeers;
      hide IsLast, DistinctPeers, WellFormedPeer, RecordsSaved, SameKinds, AllReachable, Reachable;
      ghost var before := Now();
      ghost var allNew := DistinctPeers(list) &&
        forall k :: 0 <= k < |list| ==> list[k].peer.identifier !in before.peers;
      NoRecordsSaved(before, list);
      assert SameKinds(devices, devices) by { SameAsItself(devices); }
      for k := 0 to |list|
        invariant SameKinds(before.devices, devices)
        invariant WellFormed(Now()) && interfaces == before.interfaces
        invariant RecordsSaved(before, peers, list, k)
        invariant allNew ==> forall id :: id in before.devices && PeersAgree(f, before, id) ==>
                    id in devices && PeersAgree(f, Now(), id)
      {
        ghost var now := Now();
        if AllReachable(mode, before, list) {
          StillReachable(mode, before, now, list, k);
        }
        ok := SaveOnePeer(list[k]);
        if !ok {
          RecordsAreSaved(before, peers, list, k);
          return;
        }
        ghost var p := list[k].(awg := interfaces[list[k].iface].awg);
        assert WellFormedPeer(list[k].peer.identifier, list[k]);
        SameFormed(list[k], p);
        StoredOnly(f, now, Now(), p);
        StoredKeepsKinds(f, before.devices, now, Now(), p);
        OneMoreRecord(before, now.peers, peers, list, k);
        if allNew {
          forall id | id in before.devices && PeersAgree(f, before, id)
            ensures id in devices && PeersAgree(f, Now(), id)
          {
            NewPeerKeepsAgreement(f, now, Now(), p, id);
          }
        }
      }
      RecordsAreSaved(before, peers, list, |list|);
      ok := true;
    }

    // -------------------------------------------------------------------- RestoreInterfaceState

    /** Pushes the stored peers, or deletes them from the device of a disabled interface. */
    method RestorePeers(id: string, disabled: bool, list: seq<StoredPeer>) returns (ok: bool)
      requires id in devices && DistinctPeers(list)
      modifies this`devices
      ensures devices - {id} == old(devices) - {id} && id in devices && devices[id].kind == old(devices)[id].kind
      ensures ok ==>
                PeersRestored(f, devices[id].kind, old(devices)[id].peers, devices[id].peers, disabled, list, |list|)
      ensures reliable && Reachable(mode, old(devices), id) ==> ok
    {
      hide Pushed, AllValid, MaybePushed;
      ghost var was := devices;
      for k := 0 to |list|
        invariant devices - {id} == was - {id} && id in devices && devices[id].kind == was[id].kind
        invariant PeersRestored(f, was[id].kind, was[id].peers, devices[id].peers, disabled, list, k)
      {
        ghost var middle := devices;
        if disabled {
          ok := DeletePeer(id, list[k].peer.identifier);
        } else {
          ok := SavePeer(id, list[k]);
        }
        SameWithout(middle, devices, id);
        if !ok {
          return;
        }
        OneMoreRestored(f, was[id].kind, was[id].peers, middle, devices, id, disabled, list, k);
      }
      return true;
    }

    /** Deletes the peers of the device that are not among the listed ones, if the device can be read. */
    method RemoveForeignPeers(id: string, list: seq<StoredPeer>) returns (ok: bool)
      requires id in devices
      modifies this`devices
      ensures devices - {id} == old(devices) - {id} && id in devices && devices[id].kind == old(devices)[id].kind
      ensures id in unreadable ==> ok && devices == old(devices)
      ensures ok && id !in unreadable ==>
                devices[id].peers ==
                map pid | pid in old(devices)[id].peers && Listed(list, pid) :: old(devices)[id].peers[pid]
      ensures reliable ==> ok
    {
      if id in unreadable {
        return true;
      }
      var rest := devices[id].peers.Keys;
      ghost var was := devices;
      while rest != {}
        invariant devices - {id} == was - {id} && id in devices && devices[id].kind == was[id].kind
        invariant rest <= devices[id].peers.Keys <= was[id].peers.Keys
        invariant forall pid :: pid in devices[id].peers ==> devices[id].peers[pid] == was[id].peers[pid]
        invariant forall pid :: pid in devices[id].peers && pid !in rest ==> Listed(list, pid)
        invariant forall pid :: pid in was[id].peers && Listed(list, pid) ==> pid in devices[id].peers
        decreases rest
      {
        var pid :| pid in rest;
        rest := rest - {pid};
        if !Listed(list, pid) {
          ghost var middle := devices;
          ok := DeletePeer(id, pid);
          SameWithout(middle, devices, id);
          if !ok {
            return;
          }
        }
      }
      ok := true;
    }

    /** A change of the record in the database whose failure goes unnoticed. */
    method SetDisabled(id: string, disabled: bool)
      requires WellFormed(Now())
      modifies this`interfaces
      ensures WellFormed(Now())
      ensures interfaces - {id} == old(interfaces) - {id} && interfaces.Keys == old(interfaces).Keys
      ensures interfaces == old(interfaces) ||
              (id in old(interfaces) &&
               interfaces == old(interfaces)[id := old(interfaces)[id].(disabled := disabled)])
      ensures reliable && id in old(interfaces) ==> interfaces[id] == old(interfaces)[id].(disabled := disabled)
    {
      if id in interfaces {
        var saved := SaveRecord(interfaces[id].(disabled := disabled));
      }
    }

    /** Saves the record again; while the device of an enabled interface is missing, the record says disabled. */
    method SaveStored(iface: Interface, updateDbOnError: bool) returns (ok: bool)
      requires WellFormed(Now()) && Lookup(interfaces, iface.identifier) == Some(iface)
      modifies this
      ensures WellFormed(Now()) && OthersUnchanged(old(Now()), Now(), iface.identifier)
      ensures PeersKeepTheirPlace(old(peers), peers)
      ensures ok ==> interfaces == old(interfaces) && iface.identifier in devices
      ensures ok ==> SavedAgain(f, old(Now()), Now(), iface)
      ensures reliable && Reachable(mode, old(devices), iface.identifier) ==>
                && ok && Reachable(mode, devices, iface.identifier)
                && if iface.disabled || iface.identifier in old(devices)
                   then devices[iface.identifier].peers == PeersOn(old(devices), iface.identifier)
                   else AllPushed(f, devices[iface.identifier].kind, map[], devices[iface.identifier].peers, peers,
                          iface.identifier)
    {
      hide OthersUnchanged, PeersKeepTheirPlace, Ends, WellFormedPeers, Describes, SavedAgain;
      var id := iface.identifier;
      ghost var before := Now();
      var found := ReadDevice(id);
      var missing := !found && !iface.disabled;
      if missing {
        SetDisabled(id, true);
      }
      ghost var marked := Now();
      ghost var outcome;
      ok, outcome := SaveInterface(iface);
      ghost var saved := Now();
      SavedPeersKeepTheirPlace(f, mode, outcome, marked, saved, iface);
      if ok {
        MarkedSave(f, mode, before, marked, saved, iface);
      }
      if !ok && updateDbOnError && id in interfaces {
        SetDisabled(id, missing || iface.disabled);
      }
      SameRecords(before.interfaces, marked.interfaces, iface);
      OthersStillUnchanged(before, marked, saved, Now(), id);
    }

    method RestoreInterface(iface: Interface, updateDbOnError: bool) returns (ok: bool)
      requires WellFormed(Now()) && Lookup(interfaces, iface.identifier) == Some(iface)
      modifies this
      ensures WellFormed(Now()) && OthersUnchanged(old(Now()), Now(), iface.identifier)
      ensures PeersKeepTheirPlace(old(peers), peers)
      ensures ok ==> interfaces == old(interfaces)
      ensures ok ==> iface.identifier in devices
      ensures ok && iface.identifier !in unreadable ==> IsRestored(f, old(Now()), Now(), iface.identifier)
      ensures reliable && Reachable(mode, old(devices), iface.identifier) ==> ok
    {
      hide OthersUnchanged, PeersKeepTheirPlace, PeersRestored, WellFormedPeers, Lists, DistinctPeers, IsRestored;
      hide SavedAgain;
      var id := iface.identifier;
      ghost var before := Now();
      KeepPlace(peers);
      NothingChanged(before, id);
      var listed := ListPeers(id);
      if listed.None? {
        return false;
      }
      ListedAreDistinct(listed.value, peers, id);
      ok := SaveStored(iface, updateDbOnError);
      if !ok {
        return;
      }
      ghost var saved := Now();
      ok := RestorePeers(id, iface.disabled, listed.value);
      DevicesAlsoChanged(before, saved, devices, id);
      if !ok {
        return;
      }
      ghost var restored := devices;
      ok := RemoveForeignPeers(id, listed.value);
      DevicesAlsoChanged(before, saved, devices, id);
      if ok && id !in unreadable {
        EndsRestored(f, before, saved, restored, Now(), iface, listed.value);
      }
    }

    /** The stored interfaces, in any order. */
    method ListInterfaces() returns (list: Option<seq<Interface>>)
      requires WellFormed(Now())
      ensures list.Some? ==> ListsInterfaces(list.value, interfaces)
      ensures reliable ==> list.Some?
    {
      var ok: bool := *;
      if !ok && !reliable {
        return None;
      }
      var found: seq<Interface> := [];
      var rest := interfaces.Keys;
      while rest != {}
        invariant rest <= interfaces.Keys
        invariant forall k :: 0 <= k < |found| ==>
                    found[k].identifier !in rest && Lookup(interfaces, found[k].identifier) == Some(found[k])
        invariant forall id :: id in interfaces && id !in rest ==> IsAmong(found, id)
        invariant forall j, k :: 0 <= j < k < |found| ==> found[j].identifier != found[k].identifier
        decreases rest
      {
        var id :| id in rest;
        AmongSnoc(found, interfaces[id]);
        found := found + [interfaces[id]];
        rest := rest - {id};
      }
      return Some(found);
    }

    /**
      Brings the devices of the selected interfaces, all if the filter is empty, to the stored state. On
      success each of them is restored, unless the peers of its device could not be listed.
    */
    method RestoreInterfaceState(updateDbOnError: bool, filter: seq<string>) returns (ok: bool)
      requires WellFormed(Now())
      modifies this
      ensures WellFormed(Now())
      ensures PeersKeepTheirPlace(old(peers), peers)
      ensures ok ==> interfaces == old(interfaces)
      ensures ok ==> forall id :: id in interfaces && Selected(filter, id) && id !in unreadable ==>
                IsRestored(f, old(Now()), Now(), id)
      ensures forall id :: id in old(devices) && !Selected(filter, id) ==>
                Lookup(devices, id) == Lookup(old(devices), id)
      ensures reliable && (mode.Never? ==> forall id :: id in old(devices) ==> old(devices)[id].kind.Kernel?) ==> ok
    {
      hide IsRestored, OthersUnchanged, PeersKeepTheirPlace, WellFormedPeers, SameSoFar;
      var list := ListInterfaces();
      if list.None? {
        KeepPlace(peers);
        return false;
      }
      ghost var before := Now();
      ghost var done: set<string> := {};
      KeepPlace(peers);
      NothingSoFar(before);
      for k := 0 to |list.value|
        invariant WellFormed(Now()) && interfaces == before.interfaces
        invariant PeersKeepTheirPlace(before.peers, peers)
        invariant forall id :: id in done ==> id !in unreadable && IsRestored(f, before, Now(), id)
        invariant forall id :: id in done ==> AmongFirst(list.value, k, id)
        invariant forall id :: AmongFirst(list.value, k, id) && Selected(filter, id) && id !in unreadable ==> id in done
        invariant forall id :: !AmongFirst(list.value, k, id) || !Selected(filter, id) ==> SameSoFar(before, Now(), id)
      {
        var iface := list.value[k];
        NotAmongFirst(list.value, interfaces, k);
        if filter != [] && iface.identifier !in filter {
          continue;
        }
        ghost var now := Now();
        SameReachable(mode, before, now, iface.identifier);
        ok := RestoreInterface(iface, updateDbOnError);
        StillRestored(f, before, now, Now(), iface.identifier, done);
        KeepPlaceTwice(before.peers, now.peers, peers);
        if !ok {
          SameForUnselected(before, Now(), filter);
          return;
        }
        if iface.identifier !in unreadable {
          done := done + {iface.identifier};
          RestoredSinceStart(f, before, now, Now(), iface.identifier);
        }
      }
      AllAmongFirst(list.value, interfaces);
      SameForUnselected(before, Now(), filter);
      ok := true;
    }
  }

  lemma PresentIsReachable(mode: AwgMode, before: map<string, Device>, after: map<string, Device>, iface: Interface)
    requires Present(mode, before, after, iface)
    ensures Reachable(mode, before, iface.identifier) ==> Reachable(mode, after, iface.identifier)
  {
  }

  lemma StaysReachable(mode: AwgMode, before: Store, after: Store, iface: Interface)
    requires RecordMoved(mode, before, after, iface)
    ensures Reachable(mode, before.devices, iface.identifier) ==> Reachable(mode, after.devices, iface.identifier)
  {
    hide Describes;
  }

  /** What a successful rollback leaves on the devices. */
  ghost predicate RolledBack(
      f: TextForm, mode: AwgMode, start: map<string, Device>, after: map<string, Device>, previous: Interface,
      peers: map<string, StoredPeer>)
    requires WellFormedPeers(peers)
  {
    var id := previous.identifier;
    && id in after
    && after[id].kind == KindAfter(mode, start, previous)
    && Describes(mode, after[id].config, previous)
    && if previous.disabled then after[id].peers == PeersOn(start, id)
       else AllPushed(f, after[id].kind, PeersOn(start, id), after[id].peers, peers, id)
  }

  /** What a failed rollback that started from these devices leaves on them. */
  ghost predicate RollbackLeft(
      f: TextForm, mode: AwgMode, start: map<string, Device>, after: map<string, Device>, previous: Interface,
      peers: map<string, StoredPeer>)
    requires WellFormedPeers(peers)
  {
    var id := previous.identifier;
    && after - {id} == start - {id}
    && (after == start ||
        (&& id in after && after[id].kind == KindAfter(mode, start, previous)
         && PartlyPushed(f, after[id].kind, PeersOn(start, id), after[id].peers, peers, id)
         && (id in start ==>
              || Partway(mode, start[id].config, after[id].config, previous)
              || after[id].config == Configured(mode, start[id].config, previous))))
  }

  function KindOn(devices: map<string, Device>, id: string): Kind {
    if id in devices then devices[id].kind else Kernel
  }

  /** The first `k` listed peers were pushed, or tried to; with `ok` all of them successfully. */
  ghost predicate PushedUpTo(
      f: TextForm, kind: Kind, base: map<string, DevicePeer>, now: map<string, DevicePeer>,
      peers: map<string, StoredPeer>, id: string, list: seq<StoredPeer>, k: nat, ok: bool)
    requires WellFormedPeers(peers) && Lists(list, peers, id)
  {
    && k <= |list|
    && (forall j :: 0 <= j < k ==> MaybePushedAt(f, kind, base, now, peers, id, list, j, ok))
    && (forall pid: string :: !Listed(list[..k], pid) ==> Lookup(now, pid) == Lookup(base, pid))
  }

  ghost predicate MaybePushedAt(
      f: TextForm, kind: Kind, base: map<string, DevicePeer>, now: map<string, DevicePeer>,
      peers: map<string, StoredPeer>, id: string, list: seq<StoredPeer>, j: nat, ok: bool)
    requires WellFormedPeers(peers) && Lists(list, peers, id) && j < |list|
  {
    ListedIsWellFormed(list, peers, id, j);
    var pid := list[j].peer.identifier;
    && MaybePushed(f, kind, Lookup(base, pid), Lookup(now, pid), list[j].peer)
    && (ok ==> Lookup(now, pid) == Pushed(f, kind, Lookup(base, pid), list[j].peer))
  }

  lemma ListedIsWellFormed(list: seq<StoredPeer>, peers: map<string, StoredPeer>, id: string, k: nat)
    requires WellFormedPeers(peers) && Lists(list, peers, id) && k < |list|
    ensures WellFormedPeer(list[k].peer.identifier, list[k]) && AllValid(list[k].peer.addresses)
  {
    assert BelongsTo(peers, list[k].peer.identifier, id);
  }

  lemma NonePushed(
      f: TextForm, kind: Kind, base: map<string, DevicePeer>, peers: map<string, StoredPeer>, id: string,
      list: seq<StoredPeer>)
    requires WellFormedPeers(peers) && Lists(list, peers, id)
    ensures PushedUpTo(f, kind, base, base, peers, id, list, 0, true)
  {
  }

  lemma OneMorePushed(
      f: TextForm, kind: Kind, base: map<string, DevicePeer>, middle: map<string, Device>, after: map<string, Device>,
      peers: map<string, StoredPeer>, id: string, list: seq<StoredPeer>, k: nat, was: bool, saved: bool)
    requires WellFormedPeers(peers) && Lists(list, peers, id) && k < |list|
    requires id in middle && middle[id].kind == kind
    requires WellFormedPeer(list[k].peer.identifier, list[k]) && PeerSaved(f, middle, after, id, list[k], saved)
    requires PushedUpTo(f, kind, base, middle[id].peers, peers, id, list, k, was)
    ensures PushedUpTo(f, kind, base, after[id].peers, peers, id, list, k + 1, was && saved)
  {
    hide Pushed, MaybePushed, AllValid, WellFormedPeers, WellFormedPeer;
    var now, later := middle[id].peers, after[id].peers;
    var pid := list[k].peer.identifier;
    assert forall other :: other != pid ==> Lookup(later, other) == Lookup(now, other);
    NotListedBefore(list, peers, id, k);
    ListedUpTo(list, k);
    var both := was && saved;
    forall j | 0 <= j < k + 1
      ensures MaybePushedAt(f, kind, base, later, peers, id, list, j, both)
    {
      if j < k {
        assert MaybePushedAt(f, kind, base, now, peers, id, list, j, was);
      } else {
        assert Lookup(now, pid) == Lookup(base, pid);
      }
    }
  }

  lemma NotListedBefore(list: seq<StoredPeer>, peers: map<string, StoredPeer>, id: string, k: nat)
    requires Lists(list, peers, id) && k < |list|
    ensures !Listed(list[..k], list[k].peer.identifier)
    ensures forall j :: 0 <= j < k ==> list[j].peer.identifier != list[k].peer.identifier
  {
  }

  lemma ListedUpTo(list: seq<StoredPeer>, k: nat)
    requires k < |list|
    ensures forall pid :: Listed(list[..k + 1], pid) <==> Listed(list[..k], pid) || pid == list[k].peer.identifier
  {
    assert list[..k + 1] == list[..k] + [list[k]];
    ListedSnoc(list[..k], list[k]);
  }

  lemma PushesEnd(
      f: TextForm, kind: Kind, base: map<string, DevicePeer>, now: map<string, DevicePeer>,
      peers: map<string, StoredPeer>, id: string, list: seq<StoredPeer>, k: nat, ok: bool)
    requires WellFormedPeers(peers) && Lists(list, peers, id)
    requires PushedUpTo(f, kind, base, now, peers, id, list, k, ok)
    ensures PartlyPushed(f, kind, base, now, peers, id)
    ensures ok && k == |list| ==> AllPushed(f, kind, base, now, peers, id)
  {
    hide Pushed, AllValid, WellFormedPeers;
    forall pid: string
      ensures if BelongsTo(peers, pid, id) then
                AllValid(peers[pid].peer.addresses) &&
                MaybePushed(f, kind, Lookup(base, pid), Lookup(now, pid), peers[pid].peer) &&
                (ok && k == |list| ==> Lookup(now, pid) == Pushed(f, kind, Lookup(base, pid), peers[pid].peer))
              else Lookup(now, pid) == Lookup(base, pid)
    {
      PushEnds(f, kind, base, now, peers, id, list, k, ok, pid);
    }
  }

  lemma PushEnds(
      f: TextForm, kind: Kind, base: map<string, DevicePeer>, now: map<string, DevicePeer>,
      peers: map<string, StoredPeer>, id: string, list: seq<StoredPeer>, k: nat, ok: bool, pid: string)
    requires WellFormedPeers(peers) && Lists(list, peers, id)
    requires PushedUpTo(f, kind, base, now, peers, id, list, k, ok)
    ensures if BelongsTo(peers, pid, id) then
              AllValid(peers[pid].peer.addresses) &&
              MaybePushed(f, kind, Lookup(base, pid), Lookup(now, pid), peers[pid].peer) &&
              (ok && k == |list| ==> Lookup(now, pid) == Pushed(f, kind, Lookup(base, pid), peers[pid].peer))
            else Lookup(now, pid) == Lookup(base, pid)
  {
    hide Pushed, AllValid;
    assert k == |list| ==> list[..k] == list;
    if Listed(list[..k], pid) {
      var j :| 0 <= j < k && list[..k][j].peer.identifier == pid;
      assert list[j].peer.identifier == pid && BelongsTo(peers, pid, id);
      ListedIsWellFormed(list, peers, id, j);
      assert MaybePushedAt(f, kind, base, now, peers, id, list, j, ok);
    } else if BelongsTo(peers, pid, id) {
      assert WellFormedPeer(pid, peers[pid]) && Listed(list, pid);
    }
  }

  lemma SameElsewhere(before: map<string, Device>, after: map<string, Device>, id: string)
    requires after - {id} == before - {id}
    ensures forall other :: other in before.Keys + after.Keys && other != id ==>
              Lookup(after, other) == Lookup(before, other)
    ensures id in after ==> after == before[id := after[id]]
    ensures id !in after ==> after == before - {id}
  {
    forall other | other != id
      ensures other in before <==> other in after
      ensures other in before ==> before[other] == after[other]
    {
      assert other in before <==> other in before - {id};
      assert other in after <==> other in after - {id};
      if other in before {
        assert (before - {id})[other] == (after - {id})[other];
      }
    }
  }

  lemma SameWithout(before: map<string, Device>, after: map<string, Device>, id: string)
    ensures id in after && after == before[id := after[id]] ==> after - {id} == before - {id}
    ensures after == before - {id} ==> after - {id} == before - {id}
  {
  }

  lemma OnlyDevicesChanged(before: Store, devices: map<string, Device>, id: string)
    requires devices - {id} == before.devices - {id}
    ensures OthersUnchanged(before, Store(before.interfaces, before.peers, devices), id)
  {
    SameElsewhere(before.devices, devices, id);
  }

  lemma EndsEarly(f: TextForm, mode: AwgMode, before: Store, now: Store, iface: Interface)
    requires WellFormed(before) && now.interfaces == before.interfaces && now.peers == before.peers
    ensures now == before ==> Ends(f, mode, Unchanged, before, now, iface)
    ensures now.devices != before.devices && Switched(before, iface) && iface.identifier in before.devices
            && before.devices[iface.identifier].kind.AwgTun?
            && now.devices == before.devices - {iface.identifier} ==>
              Ends(f, mode, Halfway, before, now, iface)
    ensures now.devices != before.devices && !Switched(before, iface)
            && Touched(mode, before.devices, now.devices, iface) ==>
              Ends(f, mode, Halfway, before, now, iface)
  {
  }

  lemma TouchedIsPresent(mode: AwgMode, start: map<string, Device>, devices: map<string, Device>, iface: Interface)
    ensures Touched(mode, start, devices, iface) ==> Present(mode, start, devices, iface)
  {
    hide Partway;
  }

  lemma StartIsReached(before: Store, start: map<string, Device>, iface: Interface)
    requires start == if Switched(before, iface) then before.devices - {iface.identifier} else before.devices
    ensures start == StartDevices(before, iface)
    ensures start - {iface.identifier} == before.devices - {iface.identifier}
  {
  }

  lemma AppliedElsewhere(
      mode: AwgMode, before: Store, start: map<string, Device>, devices: map<string, Device>, iface: Interface)
    requires start - {iface.identifier} == before.devices - {iface.identifier}
    requires devices == start || Present(mode, start, devices, iface)
    ensures devices - {iface.identifier} == before.devices - {iface.identifier}
    ensures OthersUnchanged(before, Store(before.interfaces, before.peers, devices), iface.identifier)
  {
    SameWithout(start, devices, iface.identifier);
    OnlyDevicesChanged(before, devices, iface.identifier);
  }

  lemma Moves(mode: AwgMode, before: Store, start: map<string, Device>, now: Store, iface: Interface)
    requires WellFormed(before) && start == StartDevices(before, iface)
    requires now.interfaces == before.interfaces[iface.identifier := iface] && now.peers == before.peers
    requires Present(mode, start, now.devices, iface) && Describes(mode, now.devices[iface.identifier].config, iface)
    requires now.devices - {iface.identifier} == before.devices - {iface.identifier}
    ensures RecordMoved(mode, before, now, iface) && WellFormed(now)
    ensures OthersUnchanged(before, now, iface.identifier)
    ensures now.devices[iface.identifier].peers == PeersOn(start, iface.identifier)
  {
    hide Describes;
    SameElsewhere(before.devices, now.devices, iface.identifier);
  }

  /** A rollback after the device was changed, with or without a mode switch, leads back. */
  lemma Compensates(
      f: TextForm, mode: AwgMode, before: Store, start: map<string, Device>, applied: map<string, Device>,
      devices: map<string, Device>, iface: Interface)
    requires WellFormed(before) && start == StartDevices(before, iface)
    requires applied - {iface.identifier} == before.devices - {iface.identifier}
    requires devices - {iface.identifier} == applied - {iface.identifier}
    requires !Switched(before, iface) ==> Present(mode, start, applied, iface)
    requires var id := iface.identifier;
             if id !in before.interfaces then devices == applied - {id}
             else RolledBack(f, mode, if Switched(before, iface) then applied - {id} else applied, devices,
                    before.interfaces[id], before.peers)
    ensures Ends(f, mode, Compensated, before, Store(before.interfaces, before.peers, devices), iface)
  {
    hide Describes, AllPushed, WellFormedPeers;
    var id := iface.identifier;
    SameElsewhere(before.devices, devices, id);
    if id in before.interfaces && !Switched(before, iface) {
      assert KindFor(mode, iface) == KindFor(mode, before.interfaces[id]);
      assert PeersOn(applied, id) == PeersOn(start, id);
    } else if id in before.interfaces {
      assert start == applied - {id};
    }
  }

  /** What a failed rollback leaves, seen from before the save. */
  lemma RollbackFails(
      f: TextForm, mode: AwgMode, before: Store, start: map<string, Device>, applied: map<string, Device>,
      devices: map<string, Device>, iface: Interface)
    requires WellFormed(before) && start == StartDevices(before, iface)
    requires applied == start || Present(mode, start, applied, iface)
    requires !Switched(before, iface) ==> Present(mode, start, applied, iface)
    requires var id := iface.identifier;
             !Switched(before, iface) && id in start ==>
               applied[id].config == Configured(mode, start[id].config, iface)
    requires devices - {iface.identifier} == before.devices - {iface.identifier}
    requires var id := iface.identifier;
             if id !in before.interfaces then devices == applied - {id} || devices == applied
             else
               || RollbackLeft(f, mode, applied, devices, before.interfaces[id], before.peers)
               || (Switched(before, iface) &&
                   RollbackLeft(f, mode, applied - {id}, devices, before.interfaces[id], before.peers))
    ensures Ends(f, mode, Unrepaired, before, Store(before.interfaces, before.peers, devices), iface)
  {
    hide Describes, WellFormedPeers, PartlyPushed, EmitAWG, Configured;
    var id := iface.identifier;
    if id in devices {
      NothingPushed(f, devices[id].kind, PeersOn(start, id), before.peers, id);
    }
    if !Switched(before, iface) && id in before.interfaces {
      assert KindFor(mode, iface) == KindFor(mode, before.interfaces[id]);
    }
  }

  lemma DeviceIsThere(mode: AwgMode, before: Store, moved: Store, iface: Interface)
    requires RecordMoved(mode, before, moved, iface)
    ensures iface.identifier in moved.devices
  {
  }

  /** Only peers, stored or on the device, have changed since the record moved. */
  predicate OnlyPeersSince(before: Store, moved: Store, now: Store, iface: Interface) {
    var id := iface.identifier;
    && moved.peers == before.peers && now.interfaces == moved.interfaces
    && id in moved.devices && id in now.devices
    && now.devices == moved.devices[id := moved.devices[id].(peers := now.devices[id].peers)]
    && PeersPartlyRetyped(before, now, iface)
  }

  lemma EndsInPart(f: TextForm, mode: AwgMode, before: Store, moved: Store, now: Store, iface: Interface)
    requires WellFormed(before) && WellFormed(now) && RecordMoved(mode, before, moved, iface)
    requires OnlyPeersSince(before, moved, now, iface)
    requires var id := iface.identifier;
             && moved.devices[id].peers == PeersOn(StartDevices(before, iface), id)
             && if !iface.disabled && (Switched(before, iface) || NewlyEnabled(before, iface))
                then PartlyPushed(f, now.devices[id].kind, moved.devices[id].peers, now.devices[id].peers, now.peers, id)
                else now.devices[id].peers == moved.devices[id].peers
    ensures Ends(f, mode, Incomplete, before, now, iface)
    ensures OthersUnchanged(before, now, iface.identifier)
  {
    hide Describes, PartlyPushed, WellFormedPeers, KindAfter, Switched, NewlyEnabled, StartDevices, PeersOn;
  }

  lemma EndsSaved(f: TextForm, mode: AwgMode, before: Store, moved: Store, now: Store, iface: Interface)
    requires WellFormed(before) && WellFormed(now) && RecordMoved(mode, before, moved, iface)
    requires OnlyPeersSince(before, moved, now, iface) && PeersRetyped(before, now, iface)
    requires var id := iface.identifier;
             && moved.devices[id].peers == PeersOn(StartDevices(before, iface), id)
             && if !iface.disabled && (Switched(before, iface) || NewlyEnabled(before, iface))
                then AllPushed(f, now.devices[id].kind, moved.devices[id].peers, now.devices[id].peers, now.peers, id)
                else now.devices[id].peers == moved.devices[id].peers
    ensures Ends(f, mode, Saved, before, now, iface)
  {
    hide Describes, AllPushed, WellFormedPeers, KindAfter, Switched, NewlyEnabled, StartDevices, PeersOn;
  }

  lemma NothingPushed(
      f: TextForm, kind: Kind, base: map<string, DevicePeer>, peers: map<string, StoredPeer>, id: string)
    requires WellFormedPeers(peers)
    ensures PartlyPushed(f, kind, base, base, peers, id)
  {
    forall pid: string
      ensures BelongsTo(peers, pid, id) ==> AllValid(peers[pid].peer.addresses)
    {
      assert pid in peers ==> WellFormedPeer(pid, peers[pid]);
    }
  }

  lemma RetypedIsWellFormed(before: map<string, StoredPeer>, after: map<string, StoredPeer>, iface: Interface)
    requires WellFormedPeers(before) && after.Keys == before.Keys
    requires forall pid :: pid in before ==>
               after[pid] == before[pid] ||
               (before[pid].iface == iface.identifier && after[pid] == Retyped(before[pid], iface))
    ensures WellFormedPeers(after)
  {
    forall pid | pid in after
      ensures WellFormedPeer(pid, after[pid])
    {
      assert WellFormedPeer(pid, before[pid]);
    }
  }

  lemma ConfiguredIsDescribed(mode: AwgMode, c: DeviceConfig, iface: Interface)
    ensures Describes(mode, Configured(mode, c, iface), iface)
  {
  }

  function WithPeer(devices: map<string, Device>, id: string, pid: string, p: Option<DevicePeer>): map<string, Device>
    requires id in devices
  {
    devices[id := devices[id].(peers := Put(devices[id].peers, pid, p))]
  }

  /** The effect of saving a peer. */
  predicate PeerSaved(
      f: TextForm, before: map<string, Device>, after: map<string, Device>, id: string, p: StoredPeer, ok: bool)
    requires AllValid(p.peer.addresses)
  {
    var pid := p.peer.identifier;
    if id !in before then !ok && after == before
    else
      && id in after && after == WithPeer(before, id, pid, Lookup(after[id].peers, pid))
      && (ok ==> Lookup(after[id].peers, pid) == Pushed(f, before[id].kind, Lookup(before[id].peers, pid), p.peer))
      && MaybePushed(f, before[id].kind, Lookup(before[id].peers, pid), Lookup(after[id].peers, pid), p.peer)
  }

  lemma SamePeer(devices: map<string, Device>, id: string, pid: string)
    ensures id in devices ==> devices == WithPeer(devices, id, pid, Lookup(devices[id].peers, pid))
  {
    if id in devices {
      assert Put(devices[id].peers, pid, Lookup(devices[id].peers, pid)) == devices[id].peers;
    }
  }

  lemma PutTwice(devices: map<string, Device>, id: string, pid: string, p: Option<DevicePeer>)
    requires id in devices
    ensures forall q :: WithPeer(WithPeer(devices, id, pid, p), id, pid, q) == WithPeer(devices, id, pid, q)
  {
    forall q: Option<DevicePeer>
      ensures WithPeer(WithPeer(devices, id, pid, p), id, pid, q) == WithPeer(devices, id, pid, q)
    {
      assert Put(Put(devices[id].peers, pid, p), pid, q) == Put(devices[id].peers, pid, q);
    }
  }

  lemma NetworksSnoc(listed: seq<Cidr>, c: Network)
    ensures Networks(listed + [c]) == Networks(listed) + {c}
  {
    var more := listed + [c];
    assert more[|listed|] == c && NetworkOf(c) == c;
    assert forall i :: 0 <= i < |listed| ==> more[i] == listed[i];
  }

  lemma ListedSnoc(list: seq<StoredPeer>, p: StoredPeer)
    ensures forall pid :: Listed(list + [p], pid) <==> Listed(list, pid) || pid == p.peer.identifier
  {
    var more := list + [p];
    assert more[|list|] == p && forall k :: 0 <= k < |list| ==> more[k] == list[k];
    forall pid | Listed(list, pid)
      ensures Listed(more, pid)
    {
      var k :| 0 <= k < |list| && list[k].peer.identifier == pid;
      assert more[k].peer.identifier == pid;
    }
  }

  // ---------------------------------------------------------------------- restoring

  predicate Selected(filter: seq<string>, id: string) {
    filter == [] || id in filter
  }

  predicate ListsInterfaces(list: seq<Interface>, interfaces: map<string, Interface>) {
    && (forall k :: 0 <= k < |list| ==> Lookup(interfaces, list[k].identifier) == Some(list[k]))
    && (forall id :: id in interfaces ==> IsAmong(list, id))
    && (forall j, k :: 0 <= j < k < |list| ==> list[j].identifier != list[k].identifier)
  }

  predicate IsAmong(list: seq<Interface>, id: string) {
    exists k :: 0 <= k < |list| && list[k].identifier == id
  }

  predicate AmongFirst(list: seq<Interface>, k: nat, id: string) {
    exists j :: 0 <= j < k && j < |list| && list[j].identifier == id
  }

  predicate DistinctPeers(list: seq<StoredPeer>) {
    && (forall k :: 0 <= k < |list| ==> WellFormedPeer(list[k].peer.identifier, list[k]))
    && (forall j, k :: 0 <= j < k < |list| ==> list[j].peer.identifier != list[k].peer.identifier)
  }

  /** Whether a stored peer belongs on the device; an AWG device keeps disabled peers too. */
  predicate Expected(kind: Kind, p: StoredPeer, disabled: bool) {
    !disabled && !(kind.Kernel? && p.peer.disabled)
  }

  /** The identifiers of the peers that belong on the device. */
  function ExpectedPeers(kind: Kind, peers: map<string, StoredPeer>, iface: Interface): set<string> {
    set pid | pid in peers && peers[pid].iface == iface.identifier && Expected(kind, peers[pid], iface.disabled)
  }

  /** Nothing stale on the device shows through in a peer that is pushed. */
  ghost predicate HeldFits(
      f: TextForm, kind: Kind, devices: map<string, Device>, peers: map<string, StoredPeer>, iface: Interface)
    requires WellFormedPeers(peers)
  {
    forall pid: string :: BelongsTo(peers, pid, iface.identifier) ==>
      Fits(f, kind, Lookup(PeersOn(devices, iface.identifier), pid), peers[pid].peer)
  }

  /**
    The device has exactly the expected peers; with the type unchanged, an enabled interface has exactly their
    projections if and only if what the device held of them fits.
  */
  ghost predicate IsRestored(f: TextForm, before: Store, s: Store, id: string)
    requires WellFormed(before) && WellFormed(s)
  {
    && id in s.interfaces && id in s.devices
    && s.devices[id].peers.Keys == ExpectedPeers(s.devices[id].kind, before.peers, s.interfaces[id])
    && (!s.interfaces[id].disabled && id == s.interfaces[id].identifier && TypeUnchanged(before, s.interfaces[id]) ==>
         (PeersAgree(f, s, id) <==>
          HeldFits(f, s.devices[id].kind, before.devices, before.peers, s.interfaces[id])))
  }

  /** Peers stay with their interface, and stay enabled or disabled. */
  predicate PeersKeepTheirPlace(before: map<string, StoredPeer>, after: map<string, StoredPeer>) {
    && after.Keys == before.Keys
    && forall pid :: pid in before ==>
         after[pid].iface == before[pid].iface && after[pid].peer.disabled == before[pid].peer.disabled
  }

  /** What restoring makes of a peer of the device. */
  function RestoredPeer(
      f: TextForm, kind: Kind, disabled: bool, held: Option<DevicePeer>, p: StoredPeer): Option<DevicePeer>
    requires AllValid(p.peer.addresses)
  {
    if disabled then None else Pushed(f, kind, held, p.peer)
  }

  /** The first `k` listed peers have been restored on the device; others are as before. */
  ghost predicate PeersRestored(
      f: TextForm, kind: Kind, base: map<string, DevicePeer>, now: map<string, DevicePeer>, disabled: bool,
      list: seq<StoredPeer>, k: nat)
    requires DistinctPeers(list)
  {
    && k <= |list|
    && (forall j :: 0 <= j < k ==> RestoredAt(f, kind, base, now, disabled, list, j))
    && (forall pid: string :: !Listed(list[..k], pid) ==> Lookup(now, pid) == Lookup(base, pid))
  }

  predicate RestoredAt(
      f: TextForm, kind: Kind, base: map<string, DevicePeer>, now: map<string, DevicePeer>, disabled: bool,
      list: seq<StoredPeer>, j: nat)
    requires DistinctPeers(list) && j < |list|
  {
    assert WellFormedPeer(list[j].peer.identifier, list[j]);
    var pid := list[j].peer.identifier;
    Lookup(now, pid) == RestoredPeer(f, kind, disabled, Lookup(base, pid), list[j])
  }

  lemma PushedIffExpected(f: TextForm, kind: Kind, held: Option<DevicePeer>, p: StoredPeer)
    requires AllValid(p.peer.addresses)
    ensures Pushed(f, kind, held, p.peer).Some? <==> Expected(kind, p, false)
  {
  }

  lemma OneMoreRestored(
      f: TextForm, kind: Kind, base: map<string, DevicePeer>, middle: map<string, Device>, after: map<string, Device>,
      id: string, disabled: bool, list: seq<StoredPeer>, k: nat)
    requires k < |list| && DistinctPeers(list) && id in middle && middle[id].kind == kind
    requires PeersRestored(f, kind, base, middle[id].peers, disabled, list, k)
    requires AllValid(list[k].peer.addresses)
    requires if disabled then after == WithPeer(middle, id, list[k].peer.identifier, None)
             else PeerSaved(f, middle, after, id, list[k], true)
    ensures id in after && PeersRestored(f, kind, base, after[id].peers, disabled, list, k + 1)
  {
    hide Pushed, MaybePushed, AllValid, DistinctPeers, WellFormedPeer;
    var now, later, pid := middle[id].peers, after[id].peers, list[k].peer.identifier;
    assert forall other :: other != pid ==> Lookup(later, other) == Lookup(now, other);
    ListedUpTo(list, k);
    DistinctBefore(list, k);
    assert Lookup(now, pid) == Lookup(base, pid);
    forall j | 0 <= j < k + 1
      ensures RestoredAt(f, kind, base, later, disabled, list, j)
    {
      if j < k {
        assert RestoredAt(f, kind, base, now, disabled, list, j);
      }
    }
  }

  lemma DistinctBefore(list: seq<StoredPeer>, k: nat)
    requires DistinctPeers(list) && k < |list|
    ensures !Listed(list[..k], list[k].peer.identifier)
    ensures forall j :: 0 <= j < k ==> list[j].peer.identifier != list[k].peer.identifier
  {
  }

  lemma ListedAreDistinct(list: seq<StoredPeer>, peers: map<string, StoredPeer>, id: string)
    requires WellFormedPeers(peers) && Lists(list, peers, id)
    ensures DistinctPeers(list)
  {
    hide AllValid;
    forall k | 0 <= k < |list|
      ensures WellFormedPeer(list[k].peer.identifier, list[k])
    {
      ListedIsWellFormed(list, peers, id, k);
    }
  }

  lemma SameRecords(before: map<string, Interface>, after: map<string, Interface>, iface: Interface)
    requires after - {iface.identifier} == before - {iface.identifier} && after.Keys == before.Keys
    requires Lookup(before, iface.identifier) == Some(iface)
    ensures after[iface.identifier := iface] == before
  {
    forall other | other in before && other != iface.identifier
      ensures after[other] == before[other]
    {
      assert (after - {iface.identifier})[other] == (before - {iface.identifier})[other];
    }
  }

  lemma NothingChanged(s: Store, id: string)
    ensures OthersUnchanged(s, s, id)
  {
  }

  /** Marking the record before and after the save concerns this interface only. */
  lemma OthersStillUnchanged(before: Store, marked: Store, saved: Store, now: Store, id: string)
    requires marked.interfaces - {id} == before.interfaces - {id} && now.interfaces - {id} == saved.interfaces - {id}
    requires marked.devices == before.devices && now.devices == saved.devices
    requires marked.peers == before.peers && now.peers == saved.peers
    requires OthersUnchanged(marked, saved, id)
    ensures OthersUnchanged(before, now, id)
  {
    forall other | other != id
      ensures Lookup(marked.interfaces, other) == Lookup(before.interfaces, other)
      ensures Lookup(now.interfaces, other) == Lookup(saved.interfaces, other)
    {
      assert Lookup(marked.interfaces - {id}, other) == Lookup(before.interfaces - {id}, other);
      assert Lookup(now.interfaces - {id}, other) == Lookup(saved.interfaces - {id}, other);
    }
  }

  lemma DevicesAlsoChanged(before: Store, saved: Store, devices: map<string, Device>, id: string)
    requires OthersUnchanged(before, saved, id) && devices - {id} == saved.devices - {id}
    ensures OthersUnchanged(before, saved.(devices := devices), id)
  {
    SameElsewhere(saved.devices, devices, id);
  }

  lemma SavedPeersKeepTheirPlace(
      f: TextForm, mode: AwgMode, outcome: Outcome, before: Store, after: Store, iface: Interface)
    requires WellFormed(before) && WellFormed(after) && Ends(f, mode, outcome, before, after, iface)
    ensures PeersKeepTheirPlace(before.peers, after.peers)
    ensures outcome.Saved? ==>
              && iface.identifier in after.devices
              && after.interfaces == before.interfaces[iface.identifier := iface]
  {
    hide Describes, AllPushed, PartlyPushed, WellFormedPeers, KindAfter, Switched, NewlyEnabled, StartDevices;
  }

  /** What saving a stored record again does to the peers: types are set, and peers may be pushed. */
  ghost predicate SavedAgain(f: TextForm, before: Store, after: Store, iface: Interface)
    requires WellFormed(before) && WellFormed(after)
  {
    var id := iface.identifier;
    && id in after.devices
    && (forall pid: string :: BelongsTo(before.peers, pid, id) <==> BelongsTo(after.peers, pid, id))
    && (forall pid: string :: BelongsTo(before.peers, pid, id) ==>
         after.peers[pid] == Retyped(before.peers[pid], iface))
    && (forall pid: string :: BelongsTo(after.peers, pid, id) ==>
         var base, now := Lookup(PeersOn(before.devices, id), pid), Lookup(after.devices[id].peers, pid);
         now == base || now == Pushed(f, after.devices[id].kind, base, after.peers[pid].peer))
  }

  lemma MarkedSave(f: TextForm, mode: AwgMode, before: Store, marked: Store, saved: Store, iface: Interface)
    requires WellFormed(before) && WellFormed(marked) && WellFormed(saved)
    requires Lookup(before.interfaces, iface.identifier) == Some(iface)
    requires marked.peers == before.peers && marked.devices == before.devices
    requires marked.interfaces == before.interfaces ||
             marked.interfaces == before.interfaces[iface.identifier := iface.(disabled := true)]
    requires Ends(f, mode, Saved, marked, saved, iface)
    ensures SavedAgain(f, before, saved, iface)
    ensures var id := iface.identifier;
            && (marked.interfaces == before.interfaces || iface.disabled ==>
                 saved.devices[id].peers == PeersOn(before.devices, id))
            && (marked.interfaces == before.interfaces[id := iface.(disabled := true)] && !iface.disabled ==>
                 AllPushed(
                   f, saved.devices[id].kind, PeersOn(before.devices, id), saved.devices[id].peers, saved.peers, id))
  {
    hide Describes, AllValid, EmitAWG, Pushed, KindFor, Retyped;
    var id := iface.identifier;
    assert !Switched(marked, iface);
    forall pid: string
      ensures BelongsTo(before.peers, pid, id) <==> BelongsTo(saved.peers, pid, id)
    {
      RetypedKeepsPlace(before.peers, saved.peers, pid, iface);
    }
    forall pid: string | BelongsTo(saved.peers, pid, id)
      ensures AllValid(saved.peers[pid].peer.addresses)
    {
      assert WellFormedPeer(pid, saved.peers[pid]);
    }
  }

  lemma RetypedKeepsPlace(before: map<string, StoredPeer>, after: map<string, StoredPeer>, pid: string, iface: Interface)
    requires after.Keys == before.Keys
    requires pid in before ==> after[pid] == before[pid] || after[pid] == Retyped(before[pid], iface)
    ensures pid in before ==> after[pid].iface == before[pid].iface
  {
  }

  /** The device after restoring, peer by peer. */
  lemma EndsRestored(
      f: TextForm, before: Store, saved: Store, restored: map<string, Device>, now: Store, iface: Interface,
      list: seq<StoredPeer>)
    requires WellFormed(before) && WellFormed(saved) && WellFormed(now)
    requires Lookup(before.interfaces, iface.identifier) == Some(iface)
    requires now.interfaces == saved.interfaces == before.interfaces && now.peers == saved.peers
    requires SavedAgain(f, before, saved, iface)
    requires Lists(list, before.peers, iface.identifier) && DistinctPeers(list)
    requires var id := iface.identifier;
             && id in saved.devices && id in restored && id in now.devices
             && now.devices[id].kind == restored[id].kind == saved.devices[id].kind
             && PeersRestored(f, restored[id].kind, saved.devices[id].peers, restored[id].peers, iface.disabled, list,
                  |list|)
             && now.devices[id].peers ==
                  map pid | pid in restored[id].peers && Listed(list, pid) :: restored[id].peers[pid]
    ensures IsRestored(f, before, now, iface.identifier)
  {
    hide Pushed, AllValid, Retyped, WellFormedPeers, SavedAgain, Lists, Listed, ExpectedPeers, DistinctPeers, HeldFits;
    hide PeersRestored;
    var id := iface.identifier;
    var kind := now.devices[id].kind;
    forall pid: string
      ensures BelongsTo(before.peers, pid, id) ==> WellFormedPeer(pid, before.peers[pid])
      ensures BelongsTo(before.peers, pid, id) ==>
                Lookup(now.devices[id].peers, pid) ==
                RestoredPeer(f, kind, iface.disabled, Lookup(saved.devices[id].peers, pid), before.peers[pid])
      ensures !BelongsTo(before.peers, pid, id) ==> Lookup(now.devices[id].peers, pid) == None
    {
      OnePeerRestored(f, kind, before.peers, saved.devices[id].peers, restored[id].peers, iface, list, pid);
    }
    RestoredAreExpected(f, kind, saved.devices[id].peers, now.devices[id].peers, before.peers, iface);
    if !iface.disabled && TypeUnchanged(before, iface) {
      RestoredAgree(f, before, saved, now, iface);
    }
  }

  lemma OnePeerRestored(
      f: TextForm, kind: Kind, peers: map<string, StoredPeer>, base: map<string, DevicePeer>,
      restored: map<string, DevicePeer>, iface: Interface, list: seq<StoredPeer>, pid: string)
    requires WellFormedPeers(peers) && Lists(list, peers, iface.identifier) && DistinctPeers(list)
    requires PeersRestored(f, kind, base, restored, iface.disabled, list, |list|)
    ensures BelongsTo(peers, pid, iface.identifier) ==> WellFormedPeer(pid, peers[pid])
    ensures BelongsTo(peers, pid, iface.identifier) ==>
              Listed(list, pid) &&
              Lookup(restored, pid) == RestoredPeer(f, kind, iface.disabled, Lookup(base, pid), peers[pid])
    ensures !BelongsTo(peers, pid, iface.identifier) ==> !Listed(list, pid)
  {
    hide Pushed, AllValid;
    if BelongsTo(peers, pid, iface.identifier) {
      var k :| 0 <= k < |list| && list[k].peer.identifier == pid;
      assert RestoredAt(f, kind, base, restored, iface.disabled, list, k);
      assert WellFormedPeer(pid, peers[pid]) && peers[pid] == list[k];
    }
  }

  lemma RestoredAreExpected(
      f: TextForm, kind: Kind, base: map<string, DevicePeer>, now: map<string, DevicePeer>,
      peers: map<string, StoredPeer>, iface: Interface)
    requires forall pid: string :: BelongsTo(peers, pid, iface.identifier) ==>
               WellFormedPeer(pid, peers[pid]) &&
               Lookup(now, pid) == RestoredPeer(f, kind, iface.disabled, Lookup(base, pid), peers[pid])
    requires forall pid: string :: !BelongsTo(peers, pid, iface.identifier) ==> Lookup(now, pid) == None
    ensures now.Keys == ExpectedPeers(kind, peers, iface)
  {
    hide Pushed, AllValid;
    forall pid: string
      ensures pid in now.Keys <==> pid in ExpectedPeers(kind, peers, iface)
    {
      if BelongsTo(peers, pid, iface.identifier) {
        PushedIffExpected(f, kind, Lookup(base, pid), peers[pid]);
      }
      assert pid in now <==> Lookup(now, pid).Some?;
    }
  }

  lemma RestoredAgree(f: TextForm, before: Store, saved: Store, now: Store, iface: Interface)
    requires WellFormed(before) && WellFormed(saved) && WellFormed(now) && now.peers == saved.peers
    requires SavedAgain(f, before, saved, iface) && !iface.disabled && iface.identifier in now.devices
    requires now.devices[iface.identifier].kind == saved.devices[iface.identifier].kind
    requires TypeUnchanged(before, iface)
    requires forall pid: string :: BelongsTo(before.peers, pid, iface.identifier) ==>
               WellFormedPeer(pid, before.peers[pid]) &&
               Lookup(now.devices[iface.identifier].peers, pid) ==
               RestoredPeer(f, now.devices[iface.identifier].kind, false,
                 Lookup(saved.devices[iface.identifier].peers, pid), before.peers[pid])
    requires forall pid: string :: !BelongsTo(before.peers, pid, iface.identifier) ==>
               Lookup(now.devices[iface.identifier].peers, pid) == None
    ensures PeersAgree(f, now, iface.identifier) <==>
              HeldFits(f, now.devices[iface.identifier].kind, before.devices, before.peers, iface)
  {
    hide Settings, AllValid, Retyped;
    var id := iface.identifier;
    var kind := now.devices[id].kind;
    forall pid: string
      ensures BelongsTo(now.peers, pid, id) <==> BelongsTo(before.peers, pid, id)
      ensures BelongsTo(now.peers, pid, id) ==>
                WellFormedPeer(pid, now.peers[pid]) && now.peers[pid].peer == before.peers[pid].peer &&
                Lookup(now.devices[id].peers, pid) ==
                Pushed(f, kind, Lookup(PeersOn(before.devices, id), pid), before.peers[pid].peer)
      ensures !BelongsTo(now.peers, pid, id) ==> Lookup(now.devices[id].peers, pid) == None
    {
      if BelongsTo(now.peers, pid, id) {
        assert WellFormedPeer(pid, now.peers[pid]) && Retyped(before.peers[pid], iface).peer == before.peers[pid].peer;
        PushedAgain(f, kind, Lookup(PeersOn(before.devices, id), pid), before.peers[pid].peer);
      }
    }
    if PeersAgree(f, now, id) {
      forall pid: string | BelongsTo(before.peers, pid, id)
        ensures AllValid(before.peers[pid].peer.addresses)
        ensures Fits(f, kind, Lookup(PeersOn(before.devices, id), pid), before.peers[pid].peer)
      {
        assert Lookup(now.devices[id].peers, pid) == Projection(f, kind, now.peers[pid].peer);
      }
    }
  }

  lemma AmongSnoc(list: seq<Interface>, iface: Interface)
    ensures forall id :: IsAmong(list + [iface], id) <==> IsAmong(list, id) || id == iface.identifier
  {
    var more := list + [iface];
    assert more[|list|] == iface && forall k :: 0 <= k < |list| ==> more[k] == list[k];
    forall id | IsAmong(list, id)
      ensures IsAmong(more, id)
    {
      var k :| 0 <= k < |list| && list[k].identifier == id;
      assert more[k].identifier == id;
    }
  }

  lemma NotAmongFirst(list: seq<Interface>, interfaces: map<string, Interface>, k: nat)
    requires ListsInterfaces(list, interfaces) && k < |list|
    ensures !AmongFirst(list, k, list[k].identifier)
    ensures Lookup(interfaces, list[k].identifier) == Some(list[k])
    ensures forall id :: AmongFirst(list, k + 1, id) <==> AmongFirst(list, k, id) || id == list[k].identifier
  {
  }

  lemma AllAmongFirst(list: seq<Interface>, interfaces: map<string, Interface>)
    requires ListsInterfaces(list, interfaces)
    ensures forall id :: id in interfaces ==> AmongFirst(list, |list|, id)
  {
    forall id | id in interfaces
      ensures AmongFirst(list, |list|, id)
    {
      assert IsAmong(list, id);
    }
  }

  lemma KeepPlace(peers: map<string, StoredPeer>)
    ensures PeersKeepTheirPlace(peers, peers)
  {
  }

  lemma KeepPlaceTwice(first: map<string, StoredPeer>, second: map<string, StoredPeer>, third: map<string, StoredPeer>)
    requires PeersKeepTheirPlace(first, second) && PeersKeepTheirPlace(second, third)
    ensures PeersKeepTheirPlace(first, third)
  {
  }

  /** The device and the peers of an interface are as at the start. */
  ghost predicate SameSoFar(before: Store, now: Store, id: string) {
    && Lookup(now.devices, id) == Lookup(before.devices, id)
    && now.peers.Keys == before.peers.Keys
    && forall pid: string :: BelongsTo(before.peers, pid, id) ==> now.peers[pid] == before.peers[pid]
  }

  lemma SameReachable(mode: AwgMode, before: Store, now: Store, id: string)
    requires SameSoFar(before, now, id)
    ensures Reachable(mode, now.devices, id) <==> Reachable(mode, before.devices, id)
  {
  }

  lemma NothingSoFar(s: Store)
    ensures forall id :: SameSoFar(s, s, id)
  {
  }

  lemma SameForUnselected(before: Store, now: Store, filter: seq<string>)
    requires forall id :: !Selected(filter, id) ==> SameSoFar(before, now, id)
    ensures forall id :: id in before.devices && !Selected(filter, id) ==>
              Lookup(now.devices, id) == Lookup(before.devices, id)
  {
    forall id | id in before.devices && !Selected(filter, id)
      ensures Lookup(now.devices, id) == Lookup(before.devices, id)
    {
      assert SameSoFar(before, now, id);
    }
  }

  /** Restoring one interface leaves those restored before it, and those still to come, alone. */
  lemma StillRestored(f: TextForm, before: Store, now: Store, after: Store, id: string, done: set<string>)
    requires WellFormed(before) && WellFormed(now) && WellFormed(after)
    requires OthersUnchanged(now, after, id) && id !in done
    requires forall r :: r in done ==> IsRestored(f, before, now, r)
    ensures forall r :: r in done ==> IsRestored(f, before, after, r)
    ensures forall r :: r != id && SameSoFar(before, now, r) ==> SameSoFar(before, after, r)
  {
    hide ExpectedPeers, HeldFits, PeersAgree, OthersUnchanged, WellFormedPeers;
    forall r | r in done
      ensures IsRestored(f, before, after, r)
    {
      OneStillRestored(f, before, now, after, id, r);
    }
    forall r | r != id && SameSoFar(before, now, r)
      ensures SameSoFar(before, after, r)
    {
      OneStillSame(before, now, after, id, r);
    }
  }

  lemma OneStillRestored(f: TextForm, before: Store, now: Store, after: Store, id: string, r: string)
    requires WellFormed(before) && WellFormed(now) && WellFormed(after)
    requires OthersUnchanged(now, after, id) && r != id && IsRestored(f, before, now, r)
    ensures IsRestored(f, before, after, r)
  {
    hide ExpectedPeers, HeldFits, Pushed, AllValid;
    assert Lookup(after.devices, r) == Lookup(now.devices, r);
    assert Lookup(after.interfaces, r) == Lookup(now.interfaces, r);
    forall pid: string
      ensures BelongsTo(after.peers, pid, r) <==> BelongsTo(now.peers, pid, r)
      ensures BelongsTo(now.peers, pid, r) ==> after.peers[pid] == now.peers[pid]
    {
    }
  }

  lemma OneStillSame(before: Store, now: Store, after: Store, id: string, r: string)
    requires OthersUnchanged(now, after, id) && r != id && SameSoFar(before, now, r)
    ensures SameSoFar(before, after, r)
  {
    assert Lookup(after.devices, r) == Lookup(now.devices, r);
  }

  /** What is restored with respect to its own start is restored with respect to the start of all. */
  lemma RestoredSinceStart(f: TextForm, before: Store, now: Store, after: Store, id: string)
    requires WellFormed(before) && WellFormed(now) && WellFormed(after)
    requires PeersKeepTheirPlace(before.peers, now.peers) && SameSoFar(before, now, id)
    requires IsRestored(f, now, after, id)
    ensures IsRestored(f, before, after, id)
  {
    hide AllValid, Fits, PeersAgree, Retyped;
    assert ExpectedPeers(after.devices[id].kind, now.peers, after.interfaces[id]) ==
           ExpectedPeers(after.devices[id].kind, before.peers, after.interfaces[id]);
    forall pid: string
      ensures BelongsTo(now.peers, pid, id) <==> BelongsTo(before.peers, pid, id)
    {
    }
  }

  // ---------------------------------------------------------------------- agreement of the two stores

  /** The record and the device describe the same interface, or both are missing. */
  predicate Agreement(mode: AwgMode, s: Store, id: string) {
    && (id in s.interfaces <==> id in s.devices)
    && (id in s.interfaces ==>
         s.devices[id].kind == KindFor(mode, s.interfaces[id])
         && Describes(mode, s.devices[id].config, s.interfaces[id]))
  }

  /**
    Whichever step of a save fails, record and device agree afterwards, on the old interface or on the new
    one; except when the compensation fails itself, or a device call fails halfway, which nothing compensates,
    and a condition on the start does not hold. The condition is exact.
  */
  lemma AgreementIsKept(f: TextForm, mode: AwgMode, outcome: Outcome, before: Store, after: Store, iface: Interface)
    requires WellFormed(before) && WellFormed(after) && Agreement(mode, before, iface.identifier)
    requires Ends(f, mode, outcome, before, after, iface)
    requires !outcome.Unrepaired? && (outcome.Halfway? ==> HalfwayIsHarmless(mode, before, iface))
    ensures Agreement(mode, after, iface.identifier)
    ensures after.interfaces ==
              if outcome.Saved? || outcome.Incomplete? then before.interfaces[iface.identifier := iface]
              else before.interfaces
  {
    hide Describes, AllPushed, PartlyPushed, EmitAWG, WellFormedPeers, Partway, SameOnDevice;
    if outcome.Halfway? {
      HarmlessKeepsAgreement(f, mode, before, after, iface);
    }
  }

  /** After a save with an agreeing start, the device is an amneziawg-go TUN exactly when the record calls for it. */
  lemma TunIffRecordCallsForIt(mode: AwgMode, s: Store, id: string)
    requires Agreement(mode, s, id) && id in s.interfaces
    ensures s.devices[id].kind.AwgTun? <==>
              mode.Always? || (mode.Auto? && s.interfaces[id].awg.enabled && HasAnyAWGParams(s.interfaces[id].awg))
  {
    hide Describes;
  }

  /** The peers on the device are those of the database that belong there, and fit them. */
  ghost predicate PeersFit(f: TextForm, s: Store, id: string)
    requires WellFormed(s) && id in s.devices
  {
    forall pid: string :: pid in s.devices[id].peers ==>
      BelongsTo(s.peers, pid, id) &&
      Fits(f, s.devices[id].kind, Some(s.devices[id].peers[pid]), s.peers[pid].peer)
  }

  /** The peers on the device are exactly the projections of those of the database. */
  ghost predicate PeersAgree(f: TextForm, s: Store, id: string)
    requires WellFormed(s) && id in s.devices
  {
    forall pid: string ::
      Lookup(s.devices[id].peers, pid) ==
      if BelongsTo(s.peers, pid, id) then Projection(f, s.devices[id].kind, s.peers[pid].peer) else None
  }

  /** Enabled interfaces have their peers; disabled ones nothing but remains of them. */
  ghost predicate PeersInvariant(f: TextForm, s: Store, id: string)
    requires WellFormed(s)
  {
    id in s.interfaces && id in s.devices ==>
      PeersFit(f, s, id) && (!s.interfaces[id].disabled ==> PeersAgree(f, s, id))
  }

  lemma AgreeingPeersFit(f: TextForm, s: Store, id: string)
    requires WellFormed(s) && id in s.devices && PeersAgree(f, s, id)
    ensures PeersFit(f, s, id)
  {
    hide Settings, AllValid;
    forall pid: string | pid in s.devices[id].peers
      ensures BelongsTo(s.peers, pid, id)
      ensures WellFormedPeer(pid, s.peers[pid]) &&
              Fits(f, s.devices[id].kind, Some(s.devices[id].peers[pid]), s.peers[pid].peer)
    {
      assert Lookup(s.devices[id].peers, pid).Some?;
      assert BelongsTo(s.peers, pid, id);
      assert WellFormedPeer(pid, s.peers[pid]);
      PushedTwice(f, s.devices[id].kind, s.peers[pid].peer);
    }
  }

  /** Pushing every peer onto what fits leads to agreement. */
  lemma PushingLeadsToAgreement(
      f: TextForm, kind: Kind, base: map<string, DevicePeer>, s: Store, id: string)
    requires WellFormed(s) && id in s.devices && s.devices[id].kind == kind
    requires AllPushed(f, kind, base, s.devices[id].peers, s.peers, id)
    requires MapFits(f, kind, base, s.peers, id)
    ensures PeersAgree(f, s, id)
  {
    hide Settings, AllValid;
    forall pid: string
      ensures Lookup(s.devices[id].peers, pid) ==
              if BelongsTo(s.peers, pid, id) then Projection(f, s.devices[id].kind, s.peers[pid].peer) else None
    {
      if BelongsTo(s.peers, pid, id) {
        assert WellFormedPeer(pid, s.peers[pid]);
        assert pid in base ==> Lookup(base, pid) == Some(base[pid]);
      }
    }
  }

  lemma PartialPushesFit(f: TextForm, kind: Kind, base: map<string, DevicePeer>, s: Store, id: string)
    requires WellFormed(s) && id in s.devices && s.devices[id].kind == kind
    requires PartlyPushed(f, kind, base, s.devices[id].peers, s.peers, id)
    requires MapFits(f, kind, base, s.peers, id)
    ensures PeersFit(f, s, id)
  {
    hide Settings, AllValid;
    forall pid: string | pid in s.devices[id].peers
      ensures BelongsTo(s.peers, pid, id)
      ensures WellFormedPeer(pid, s.peers[pid]) && Fits(f, kind, Some(s.devices[id].peers[pid]), s.peers[pid].peer)
    {
      assert Lookup(s.devices[id].peers, pid) == Some(s.devices[id].peers[pid]);
      assert pid in base ==> Lookup(base, pid) == Some(base[pid]);
      assert BelongsTo(s.peers, pid, id);
      assert WellFormedPeer(pid, s.peers[pid]);
      MaybePushedFits(f, kind, Lookup(base, pid), s.devices[id].peers[pid], s.peers[pid].peer);
    }
  }

  lemma MaybePushedFits(f: TextForm, kind: Kind, base: Option<DevicePeer>, now: DevicePeer, p: P.Peer)
    requires AllValid(p.addresses) && Fits(f, kind, base, p) && MaybePushed(f, kind, base, Some(now), p)
    ensures Fits(f, kind, Some(now), p)
  {
    hide Settings, AllValid;
    PushedTwice(f, kind, p);
  }

  /** The save leaves the type of the peers' side as it is. */
  ghost predicate TypeUnchanged(s: Store, iface: Interface) {
    forall pid :: BelongsTo(s.peers, pid, iface.identifier) ==>
      Retyped(s.peers[pid], iface).peer == s.peers[pid].peer
  }

  /**
    A save that does not change the type keeps the invariant on peers: after a success, after a rejected save,
    after a compensation and after a device call that failed halfway, an enabled interface with a device has
    exactly the projections of its peers. When a step after the record was saved fails, the peers on the device
    still fit, and agree under a condition on the start, which is exact.
  */
  lemma PeersAreKept(f: TextForm, mode: AwgMode, outcome: Outcome, before: Store, after: Store, iface: Interface)
    requires WellFormed(before) && WellFormed(after) && Agreement(mode, before, iface.identifier)
    requires PeersInvariant(f, before, iface.identifier) && TypeUnchanged(before, iface)
    requires Ends(f, mode, outcome, before, after, iface)
    ensures outcome.Unchanged? || outcome.Saved? || outcome.Compensated? || outcome.Halfway? ==>
              PeersInvariant(f, after, iface.identifier)
    ensures outcome.Incomplete? ==>
              PeersFit(f, after, iface.identifier) &&
              (LateFailureIsHarmless(f, mode, before, iface) ==> PeersInvariant(f, after, iface.identifier))
  {
    hide Describes, AllValid, EmitAWG, Fits, Pushed, WellFormed, MovedInPart, Moved, PutBack, PeersAgree, PeersFit;
    hide LateFailureIsHarmless;
    match outcome {
      case Saved =>
        SavedPeers(f, mode, before, after, iface);
      case Compensated =>
        CompensatedPeers(f, mode, before, after, iface);
      case Incomplete =>
        IncompletePeers(f, mode, before, after, iface);
      case Halfway =>
        HalfwayPeers(f, mode, before, after, iface);
      case _ =>
    }
  }

  /** A map of device peers that fit the peers of an interface. */
  ghost predicate MapFits(
      f: TextForm, kind: Kind, base: map<string, DevicePeer>, peers: map<string, StoredPeer>, id: string)
    requires WellFormedPeers(peers)
  {
    forall pid: string :: pid in base ==> BelongsTo(peers, pid, id) && Fits(f, kind, Some(base[pid]), peers[pid].peer)
  }

  /** The start of the physical step fits the peers, before and after they are updated. */
  lemma BaseFits(f: TextForm, mode: AwgMode, before: Store, after: Store, iface: Interface)
    requires WellFormed(before) && WellFormed(after) && Agreement(mode, before, iface.identifier)
    requires PeersInvariant(f, before, iface.identifier) && TypeUnchanged(before, iface)
    requires PeersPartlyRetyped(before, after, iface)
    ensures var start := StartDevices(before, iface);
            MapFits(f, KindAfter(mode, start, iface), PeersOn(start, iface.identifier), after.peers, iface.identifier)
    ensures forall pid ::
              BelongsTo(after.peers, pid, iface.identifier) <==> BelongsTo(before.peers, pid, iface.identifier)
    ensures forall pid :: BelongsTo(before.peers, pid, iface.identifier) ==>
              after.peers[pid].peer == before.peers[pid].peer
  {
    hide Describes, AllValid, EmitAWG, Fits, KindFor, PeersAgree;
    forall pid | BelongsTo(before.peers, pid, iface.identifier)
      ensures after.peers[pid].peer == before.peers[pid].peer
    {
      assert Retyped(before.peers[pid], iface).peer == before.peers[pid].peer;
    }
  }

  /** A store whose device peers are those of a fitting one. */
  lemma FitsAsBefore(f: TextForm, base: map<string, DevicePeer>, s: Store, id: string)
    requires WellFormed(s) && id in s.devices
    requires MapFits(f, s.devices[id].kind, base, s.peers, id) && s.devices[id].peers == base
    ensures PeersFit(f, s, id)
  {
    hide Fits, AllValid;
  }

  lemma SavedPeers(f: TextForm, mode: AwgMode, before: Store, after: Store, iface: Interface)
    requires WellFormed(before) && WellFormed(after) && Agreement(mode, before, iface.identifier)
    requires PeersInvariant(f, before, iface.identifier) && TypeUnchanged(before, iface)
    requires Moved(f, mode, before, after, iface)
    ensures PeersInvariant(f, after, iface.identifier)
  {
    hide Describes, AllValid, EmitAWG, Fits, Pushed, MapFits, AllPushed, PeersFit, KindFor, WellFormed;
    var id := iface.identifier;
    BaseFits(f, mode, before, after, iface);
    if !iface.disabled && (Switched(before, iface) || NewlyEnabled(before, iface)) {
      PushingLeadsToAgreement(f, after.devices[id].kind, PeersOn(StartDevices(before, iface), id), after, id);
      AgreeingPeersFit(f, after, id);
    } else {
      FitsAsBefore(f, PeersOn(StartDevices(before, iface), id), after, id);
    }
  }

  lemma CompensatedPeers(f: TextForm, mode: AwgMode, before: Store, after: Store, iface: Interface)
    requires WellFormed(before) && WellFormed(after) && Agreement(mode, before, iface.identifier)
    requires PeersInvariant(f, before, iface.identifier)
    requires PutBack(f, mode, before, after, iface)
    ensures PeersInvariant(f, after, iface.identifier)
  {
    hide Describes, AllValid, EmitAWG, Fits, Pushed, AllPushed, KindFor;
    var id := iface.identifier;
    if id in before.interfaces {
      var base := PeersOn(StartDevices(before, iface), id);
      var kind := after.devices[id].kind;
      assert MapFits(f, kind, base, after.peers, id);
      if before.interfaces[id].disabled {
        FitsAsBefore(f, base, after, id);
      } else {
        PushingLeadsToAgreement(f, kind, base, after, id);
        AgreeingPeersFit(f, after, id);
      }
    }
  }

  lemma HalfwayPeers(f: TextForm, mode: AwgMode, before: Store, after: Store, iface: Interface)
    requires WellFormed(before) && WellFormed(after) && Agreement(mode, before, iface.identifier)
    requires PeersInvariant(f, before, iface.identifier) && LeftHalfway(mode, before, after, iface)
    ensures PeersInvariant(f, after, iface.identifier)
  {
    hide Describes, AllValid, EmitAWG, Fits, Pushed, Partway, KindFor;
  }

  lemma IncompletePeers(f: TextForm, mode: AwgMode, before: Store, after: Store, iface: Interface)
    requires WellFormed(before) && WellFormed(after) && Agreement(mode, before, iface.identifier)
    requires PeersInvariant(f, before, iface.identifier) && TypeUnchanged(before, iface)
    requires MovedInPart(f, mode, before, after, iface)
    ensures PeersFit(f, after, iface.identifier)
    ensures LateFailureIsHarmless(f, mode, before, iface) ==> PeersInvariant(f, after, iface.identifier)
  {
    hide Describes, AllValid, EmitAWG, Fits, Pushed, MapFits, PartlyPushed, PeersFit, KindFor, WellFormed;
    hide LateFailureIsHarmless;
    var id := iface.identifier;
    BaseFits(f, mode, before, after, iface);
    if RestoresPeers(before, iface) {
      PartialPushesFit(f, after.devices[id].kind, PeersOn(StartDevices(before, iface), id), after, id);
      if LateFailureIsHarmless(f, mode, before, iface) {
        HarmlessPushes(f, mode, before, after, iface);
      }
    } else {
      FitsAsBefore(f, PeersOn(StartDevices(before, iface), id), after, id);
    }
  }

  /** The peers of the interface are to be pushed again once the record is saved. */
  predicate RestoresPeers(before: Store, iface: Interface) {
    !iface.disabled && (Switched(before, iface) || NewlyEnabled(before, iface))
  }

  /**
    What can be checked before a save: peers are not to be pushed again, or the device that stays has the
    projection of each of them already.
  */
  ghost predicate LateFailureIsHarmless(f: TextForm, mode: AwgMode, before: Store, iface: Interface) {
    RestoresPeers(before, iface) ==>
      var start := StartDevices(before, iface);
      forall pid: string :: BelongsTo(before.peers, pid, iface.identifier) ==>
        IsOnDevice(f, KindAfter(mode, start, iface), PeersOn(start, iface.identifier), pid, before.peers[pid].peer)
  }

  predicate IsOnDevice(f: TextForm, kind: Kind, base: map<string, DevicePeer>, pid: string, p: P.Peer) {
    pid in base && Some(base[pid]) == ProjectionOf(f, kind, p)
  }

  /** Pushing some of the peers that are on the device already changes nothing. */
  lemma HarmlessPushes(f: TextForm, mode: AwgMode, before: Store, after: Store, iface: Interface)
    requires WellFormed(before) && WellFormed(after) && Agreement(mode, before, iface.identifier)
    requires PeersInvariant(f, before, iface.identifier) && TypeUnchanged(before, iface)
    requires MovedInPart(f, mode, before, after, iface)
    requires RestoresPeers(before, iface) && LateFailureIsHarmless(f, mode, before, iface)
    ensures PeersAgree(f, after, iface.identifier)
  {
    hide Describes, AllValid, EmitAWG, Settings, KindFor, Switched, NewlyEnabled, Retyped;
    var id := iface.identifier;
    var start := StartDevices(before, iface);
    var base, kind := PeersOn(start, id), after.devices[id].kind;
    BaseFits(f, mode, before, after, iface);
    forall pid: string
      ensures Lookup(after.devices[id].peers, pid) ==
              if BelongsTo(after.peers, pid, id) then Projection(f, kind, after.peers[pid].peer) else None
    {
      if BelongsTo(after.peers, pid, id) {
        assert IsOnDevice(f, kind, base, pid, before.peers[pid].peer);
        assert WellFormedPeer(pid, after.peers[pid]);
        assert MaybePushed(f, kind, Lookup(base, pid), Lookup(after.devices[id].peers, pid), after.peers[pid].peer);
        PushedTwice(f, kind, after.peers[pid].peer);
      } else {
        assert pid !in base;
      }
    }
  }

  /** An end with a peer that is missing, stale, or blank although disabled. */
  lemma LateFailureEnd(f: TextForm, mode: AwgMode, before: Store, iface: Interface) returns (after: Store)
    requires WellFormed(before) && Agreement(mode, before, iface.identifier)
    requires PeersInvariant(f, before, iface.identifier) && TypeUnchanged(before, iface)
    requires !LateFailureIsHarmless(f, mode, before, iface)
    ensures WellFormed(after) && Ends(f, mode, Incomplete, before, after, iface)
    ensures !PeersInvariant(f, after, iface.identifier)
  {
    hide Describes, AllValid, EmitAWG, Settings, KindFor, Switched, NewlyEnabled, Retyped, Configured;
    var id := iface.identifier;
    var start := StartDevices(before, iface);
    var base, kind := PeersOn(start, id), KindAfter(mode, start, iface);
    var pid: string :| BelongsTo(before.peers, pid, id) && !IsOnDevice(f, kind, base, pid, before.peers[pid].peer);
    var p := before.peers[pid].peer;
    assert WellFormedPeer(pid, before.peers[pid]);
    var held := if pid !in base && Projection(f, kind, p).None? then base[pid := NO_SETTINGS] else base;
    var config := Configured(mode, DeviceConfig("", 0, 0, 0, {}, false, []), iface);
    ConfiguredIsDescribed(mode, DeviceConfig("", 0, 0, 0, {}, false, []), iface);
    after := Store(before.interfaces[id := iface], before.peers, before.devices[id := Device(kind, config, held)]);
    BlankAtMost(f, kind, base, before.peers, id, pid, held);
    assert Lookup(after.devices[id].peers, pid) != Projection(f, kind, p);
  }

  /** A failed push may leave a blank peer where there was none. */
  lemma BlankAtMost(
      f: TextForm, kind: Kind, base: map<string, DevicePeer>, peers: map<string, StoredPeer>, id: string, pid: string,
      held: map<string, DevicePeer>)
    requires WellFormedPeers(peers) && BelongsTo(peers, pid, id)
    requires held == base || (pid !in base && held == base[pid := NO_SETTINGS])
    ensures PartlyPushed(f, kind, base, held, peers, id)
  {
    hide Pushed, AllValid;
    NothingPushed(f, kind, base, peers, id);
    forall other: string
      ensures if BelongsTo(peers, other, id) then
                WellFormedPeer(other, peers[other]) &&
                MaybePushed(f, kind, Lookup(base, other), Lookup(held, other), peers[other].peer)
              else Lookup(held, other) == Lookup(base, other)
    {
      assert BelongsTo(peers, other, id) ==> WellFormedPeer(other, peers[other]);
    }
  }

  /**
    Whatever step fails after the record was saved, an enabled interface has exactly the projections of its
    peers, if and only if the condition holds that can be checked before the save.
  */
  lemma LateFailureAgreesIff(f: TextForm, mode: AwgMode, before: Store, iface: Interface)
    requires WellFormed(before) && Agreement(mode, before, iface.identifier)
    requires PeersInvariant(f, before, iface.identifier) && TypeUnchanged(before, iface)
    ensures (forall after :: WellFormed(after) && Ends(f, mode, Incomplete, before, after, iface) ==>
              PeersInvariant(f, after, iface.identifier))
            <==> LateFailureIsHarmless(f, mode, before, iface)
  {
    hide WellFormed, Agreement, Ends, PeersInvariant, TypeUnchanged, LateFailureIsHarmless;
    if LateFailureIsHarmless(f, mode, before, iface) {
      forall after | WellFormed(after) && Ends(f, mode, Incomplete, before, after, iface)
        ensures PeersInvariant(f, after, iface.identifier)
      {
        PeersAreKept(f, mode, Incomplete, before, after, iface);
      }
    } else {
      var after := LateFailureEnd(f, mode, before, iface);
      assert WellFormed(after) && Ends(f, mode, Incomplete, before, after, iface);
    }
  }

  /** A later save of the enabled interface does not push its peers again: what is missing stays missing. */
  lemma LostPeersStayLost(f: TextForm, mode: AwgMode, before: Store, after: Store, iface: Interface)
    requires WellFormed(before) && WellFormed(after) && Agreement(mode, before, iface.identifier)
    requires Ends(f, mode, Saved, before, after, iface)
    requires iface.identifier in before.interfaces && !before.interfaces[iface.identifier].disabled
    requires !Switched(before, iface)
    ensures iface.identifier in before.devices && iface.identifier in after.devices
    ensures after.devices[iface.identifier].peers == before.devices[iface.identifier].peers
  {
    hide Describes, EmitAWG, WellFormedPeers;
  }

  /** Turning AWG on replaces the device; if the post-save hook then fails, the enabled peer is not on the new one. */
  lemma SwitchMayLosePeers(f: TextForm) returns (before: Store, after: Store, iface: Interface)
    ensures WellFormed(before) && WellFormed(after)
    ensures Agreement(Auto, before, "wg0") && PeersInvariant(f, before, "wg0") && TypeUnchanged(before, iface)
    ensures iface.identifier == "wg0" && Ends(f, Auto, Incomplete, before, after, iface)
    ensures Agreement(Auto, after, "wg0") && !PeersInvariant(f, after, "wg0")
    ensures "p" in after.peers && !after.peers["p"].peer.disabled
    ensures "wg0" in after.devices && after.devices["wg0"].peers == map[]
  {
    hide Settings;
    var plain, awg := Awg(false, [1]), Awg(true, [1]);
    var record := Interface("wg0", P.Server, false, "key", 51820, 1420, 0, [], plain);
    iface := record.(awg := awg);
    var p := P.Peer("p", "p", "", P.Client, [], "", "", "", 0, false);
    var config := DeviceConfig("key", 51820, 1420, 0, {}, true, []);
    var held := Settings(f, Kernel, NO_SETTINGS, p);
    var device := Device(Kernel, config, map["p" := held]);
    before := Store(map["wg0" := record], map["p" := StoredPeer("wg0", p, plain)], map["wg0" := device]);
    var moved := Device(AwgTun, config.(awgParams := [1]), map[]);
    after := Store(map["wg0" := iface], map["p" := StoredPeer("wg0", p, plain)], map["wg0" := moved]);
    assert awg.params[0] != 0 && HasAnyAWGParams(awg);
    assert AddressSet([]) == {};
    PushedTwice(f, Kernel, p);
    SwitchedOn(f, before, after, iface, p, held);
  }

  lemma SwitchedOn(f: TextForm, before: Store, after: Store, iface: Interface, p: P.Peer, held: DevicePeer)
    requires WellFormed(before) && WellFormed(after) && AllValid(p.addresses) && !p.disabled
    requires before.peers.Keys == {"p"} && before.peers["p"].peer == p && before.peers["p"].iface == "wg0"
    requires after.peers == before.peers && iface.identifier == "wg0" && !iface.disabled
    requires "wg0" in before.interfaces && !before.interfaces["wg0"].disabled && Switched(before, iface)
    requires after.interfaces == before.interfaces["wg0" := iface] && "wg0" in before.devices
    requires before.devices["wg0"].kind.Kernel? && before.devices["wg0"].peers == map["p" := held]
    requires Some(held) == Projection(f, Kernel, p)
    requires RecordMoved(Auto, before, after, iface) && after.devices["wg0"].peers == map[]
    ensures PeersInvariant(f, before, "wg0") && !PeersInvariant(f, after, "wg0")
    ensures Ends(f, Auto, Incomplete, before, after, iface)
  {
    hide Settings, Describes, AllValid;
    assert PeersAgree(f, before, "wg0");
    AgreeingPeersFit(f, before, "wg0");
    NothingPushed(f, after.devices["wg0"].kind, map[], after.peers, "wg0");
    assert BelongsTo(after.peers, "p", "wg0") && Lookup(after.devices["wg0"].peers, "p") == None;
    assert Projection(f, after.devices["wg0"].kind, p).Some?;
  }

  // ---------------------------------------------------------------------- what is handed down to peers

  /** The type of a peer after its interface was saved: the peers of a server are clients, and the other way round. */
  predicate HasPeerType(iface: P.InterfaceType, was: P.InterfaceType, now: P.InterfaceType) {
    && (iface.Server? ==> now.Client?)
    && (iface.Client? ==> now.Server?)
    && (iface.Any? ==> now.Any?)
    && (iface.Untyped? ==> now == was)
  }

  /** The record of a peer after its interface was saved: type and obfuscation settings changed, nothing else. */
  predicate TakenOver(was: StoredPeer, now: StoredPeer, iface: Interface) {
    && now.iface == was.iface
    && now.awg.enabled == iface.awg.enabled && now.awg.params == iface.awg.params
    && HasPeerType(iface.ifaceType, was.peer.ifaceType, now.peer.ifaceType)
    && now.peer.identifier == was.peer.identifier && now.peer.publicKey == was.peer.publicKey
    && now.peer.presharedKey == was.peer.presharedKey && now.peer.addresses == was.peer.addresses
    && now.peer.allowedIPsStr == was.peer.allowedIPsStr && now.peer.extraAllowedIPsStr == was.peer.extraAllowedIPsStr
    && now.peer.endpoint == was.peer.endpoint && now.peer.keepalive == was.peer.keepalive
    && now.peer.disabled == was.peer.disabled
  }

  /** After a save every peer of a known interface has taken over; after a late failure, each one has or has not. */
  lemma PeersTakeOver(
      f: TextForm, mode: AwgMode, outcome: Outcome, before: Store, after: Store, iface: Interface, pid: string)
    requires WellFormed(before) && WellFormed(after) && Ends(f, mode, outcome, before, after, iface)
    requires pid in before.peers
    ensures pid in after.peers
    ensures before.peers[pid].iface != iface.identifier || iface.identifier !in before.interfaces ==>
              after.peers[pid] == before.peers[pid]
    ensures outcome.Saved? && before.peers[pid].iface == iface.identifier && iface.identifier in before.interfaces ==>
              TakenOver(before.peers[pid], after.peers[pid], iface)
    ensures outcome.Incomplete? && before.peers[pid].iface == iface.identifier ==>
              after.peers[pid] == before.peers[pid] || TakenOver(before.peers[pid], after.peers[pid], iface)
    ensures !outcome.Saved? && !outcome.Incomplete? ==> after.peers[pid] == before.peers[pid]
  {
    hide Describes, AllPushed, PartlyPushed, EmitAWG, AllValid;
  }

  // ---------------------------------------------------------------------- saving peers

  /** The peer is in the database, and on its device. */
  predicate StoredAndPushed(f: TextForm, before: Store, after: Store, p: StoredPeer)
    requires AllValid(p.peer.addresses)
  {
    && after.interfaces == before.interfaces
    && after.peers == before.peers[p.peer.identifier := p]
    && p.iface in before.devices && PeerSaved(f, before.devices, after.devices, p.iface, p, true)
  }

  lemma SameSave(
      f: TextForm, before: map<string, Device>, after: map<string, Device>, id: string, p: StoredPeer, q: StoredPeer,
      ok: bool)
    requires AllValid(p.peer.addresses) && p.peer == q.peer
    ensures PeerSaved(f, before, after, id, q, ok) ==> PeerSaved(f, before, after, id, p, ok)
    ensures PeerSaved(f, before, after, id, q, ok) && ok ==> id in before
  {
    hide Pushed, MaybePushed, AllValid;
  }

  /** No entry between `k` and `end` is for the same peer. */
  predicate IsLast(list: seq<StoredPeer>, k: nat, end: nat)
    requires k < |list|
  {
    forall j :: k < j < end && j < |list| ==> list[j].peer.identifier != list[k].peer.identifier
  }

  lemma SameFormed(p: StoredPeer, q: StoredPeer)
    requires WellFormedPeer(p.peer.identifier, p) && q.peer == p.peer
    ensures WellFormedPeer(q.peer.identifier, q) && AllValid(q.peer.addresses)
  {
  }

  /** The first `k` entries are in the database, the last one counting for each peer. */
  ghost predicate RecordsSaved(before: Store, peers: map<string, StoredPeer>, list: seq<StoredPeer>, k: nat) {
    && k <= |list|
    && (forall j :: 0 <= j < k ==> list[j].iface in before.interfaces)
    && (forall j :: 0 <= j < k && list[j].iface in before.interfaces && IsLast(list, j, k) ==>
         Lookup(peers, list[j].peer.identifier) == Some(list[j].(awg := before.interfaces[list[j].iface].awg)))
    && (forall pid: string :: (forall j :: 0 <= j < k ==> list[j].peer.identifier != pid) ==>
         Lookup(peers, pid) == Lookup(before.peers, pid))
  }

  lemma NoRecordsSaved(before: Store, list: seq<StoredPeer>)
    ensures RecordsSaved(before, before.peers, list, 0)
  {
  }

  lemma OneMoreRecord(
      before: Store, peers: map<string, StoredPeer>, more: map<string, StoredPeer>, list: seq<StoredPeer>, k: nat)
    requires RecordsSaved(before, peers, list, k) && k < |list| && list[k].iface in before.interfaces
    requires more == peers[list[k].peer.identifier := list[k].(awg := before.interfaces[list[k].iface].awg)]
    ensures RecordsSaved(before, more, list, k + 1)
    ensures DistinctPeers(list) ==>
              Lookup(peers, list[k].peer.identifier) == Lookup(before.peers, list[k].peer.identifier)
  {
    hide WellFormedPeer, IsLast;
    forall j | 0 <= j < k + 1 && list[j].iface in before.interfaces && IsLast(list, j, k + 1)
      ensures Lookup(more, list[j].peer.identifier) == Some(list[j].(awg := before.interfaces[list[j].iface].awg))
    {
      if j < k {
        StaysLast(list, j, k);
      }
    }
    forall pid: string | forall j :: 0 <= j < k + 1 ==> list[j].peer.identifier != pid
      ensures Lookup(more, pid) == Lookup(before.peers, pid)
    {
      assert list[k].peer.identifier != pid;
    }
  }

  lemma StaysLast(list: seq<StoredPeer>, j: nat, k: nat)
    requires j < k < |list| && IsLast(list, j, k + 1)
    ensures IsLast(list, j, k) && list[j].peer.identifier != list[k].peer.identifier
  {
  }

  lemma RecordsAreSaved(before: Store, peers: map<string, StoredPeer>, list: seq<StoredPeer>, k: nat)
    requires RecordsSaved(before, peers, list, k)
    ensures forall pid :: pid in before.peers && (forall j :: 0 <= j < |list| ==> list[j].peer.identifier != pid) ==>
              Lookup(peers, pid) == Lookup(before.peers, pid)
    ensures k == |list| ==> forall j :: 0 <= j < |list| ==> list[j].iface in before.interfaces
    ensures k == |list| ==> forall j :: 0 <= j < |list| && IsLast(list, j, |list|) ==>
              Lookup(peers, list[j].peer.identifier) == Some(list[j].(awg := before.interfaces[list[j].iface].awg))
  {
    hide IsLast;
  }

  lemma SameAsItself(devices: map<string, Device>)
    ensures SameKinds(devices, devices)
  {
  }

  predicate SameKinds(before: map<string, Device>, after: map<string, Device>) {
    forall id :: id in before ==> id in after && after[id].kind == before[id].kind
  }

  lemma StoredKeepsKinds(f: TextForm, start: map<string, Device>, before: Store, after: Store, p: StoredPeer)
    requires AllValid(p.peer.addresses) && StoredAndPushed(f, before, after, p)
    requires SameKinds(start, before.devices)
    ensures SameKinds(start, after.devices)
  {
    hide Pushed, MaybePushed, AllValid;
  }

  /** Every peer is to be stored for an interface that has a record and a device of a kind that is known. */
  predicate AllReachable(mode: AwgMode, s: Store, list: seq<StoredPeer>) {
    forall k :: 0 <= k < |list| ==>
      list[k].iface in s.interfaces && list[k].iface in s.devices && Reachable(mode, s.devices, list[k].iface)
  }

  lemma StillReachable(mode: AwgMode, before: Store, now: Store, list: seq<StoredPeer>, k: nat)
    requires k < |list| && now.interfaces == before.interfaces && SameKinds(before.devices, now.devices)
    requires AllReachable(mode, before, list)
    ensures list[k].iface in now.interfaces && list[k].iface in now.devices && Reachable(mode, now.devices, list[k].iface)
  {
  }

  lemma StoredOnly(f: TextForm, before: Store, after: Store, p: StoredPeer)
    requires AllValid(p.peer.addresses) && StoredAndPushed(f, before, after, p)
    ensures after.peers == before.peers[p.peer.identifier := p]
  {
  }

  /** A device agrees after one of its peers was saved iff nothing stale shows through in that peer. */
  lemma SavedPeerAgreesIff(f: TextForm, before: Store, after: Store, p: StoredPeer)
    requires WellFormed(before) && WellFormed(after) && WellFormedPeer(p.peer.identifier, p)
    requires StoredAndPushed(f, before, after, p)
    requires PeersAgree(f, before, p.iface)
    requires p.peer.identifier in before.peers ==> before.peers[p.peer.identifier].iface == p.iface
    ensures p.iface in after.devices
    ensures PeersAgree(f, after, p.iface) <==>
              Fits(f, before.devices[p.iface].kind, Lookup(before.devices[p.iface].peers, p.peer.identifier), p.peer)
  {
    hide Settings, AllValid;
    var id, pid := p.iface, p.peer.identifier;
    var kind := before.devices[id].kind;
    forall other: string | other != pid
      ensures Lookup(after.devices[id].peers, other) == Lookup(before.devices[id].peers, other)
      ensures BelongsTo(after.peers, other, id) <==> BelongsTo(before.peers, other, id)
    {
    }
    if PeersAgree(f, after, id) {
      assert Lookup(after.devices[id].peers, pid) == Projection(f, kind, p.peer);
    }
    if Fits(f, kind, Lookup(before.devices[id].peers, pid), p.peer) {
      forall other: string
        ensures Lookup(after.devices[id].peers, other) ==
                if BelongsTo(after.peers, other, id) then Projection(f, kind, after.peers[other].peer) else None
      {
        assert Lookup(before.devices[id].peers, other) ==
          if BelongsTo(before.peers, other, id) then Projection(f, kind, before.peers[other].peer) else None;
      }
    }
  }

  /** A peer that was not in the database keeps its device, and every other one, in agreement. */
  lemma NewPeerKeepsAgreement(f: TextForm, before: Store, after: Store, p: StoredPeer, id: string)
    requires WellFormed(before) && WellFormed(after) && WellFormedPeer(p.peer.identifier, p)
    requires StoredAndPushed(f, before, after, p) && p.peer.identifier !in before.peers
    requires id in before.devices && PeersAgree(f, before, id)
    ensures id in after.devices && PeersAgree(f, after, id)
  {
    hide Settings, AllValid;
    if id == p.iface {
      assert Lookup(before.devices[id].peers, p.peer.identifier) == None;
      SavedPeerAgreesIff(f, before, after, p);
    } else {
      forall pid: string
        ensures Lookup(after.devices[id].peers, pid) ==
                if BelongsTo(after.peers, pid, id) then Projection(f, after.devices[id].kind, after.peers[pid].peer)
                else None
      {
        assert Lookup(before.devices[id].peers, pid) ==
          if BelongsTo(before.peers, pid, id) then Projection(f, before.devices[id].kind, before.peers[pid].peer)
          else None;
      }
    }
  }

  // ---------------------------------------------------------------------- runs, and what falls short

  /** A save of one interface concerns the agreement and the peers of no other one. */
  lemma OthersKeepAgreement(f: TextForm, mode: AwgMode, before: Store, after: Store, id: string, other: string)
    requires WellFormed(before) && WellFormed(after) && OthersUnchanged(before, after, id) && other != id
    ensures Agreement(mode, before, other) ==> Agreement(mode, after, other)
    ensures PeersInvariant(f, before, other) ==> PeersInvariant(f, after, other)
  {
    hide Describes, AllValid, Fits, Pushed, KindFor;
    assert Lookup(after.interfaces, other) == Lookup(before.interfaces, other);
    assert Lookup(after.devices, other) == Lookup(before.devices, other);
    forall pid: string
      ensures BelongsTo(after.peers, pid, other) <==> BelongsTo(before.peers, pid, other)
      ensures BelongsTo(before.peers, pid, other) ==> after.peers[pid] == before.peers[pid]
    {
    }
  }

  /**
    A step of a run: a save that leaves the type alone and succeeds, is rejected, is compensated, or fails
    halfway or late where that is harmless.
  */
  ghost predicate CleanSave(f: TextForm, mode: AwgMode, before: Store, after: Store, iface: Interface, outcome: Outcome)
  {
    && WellFormed(before) && WellFormed(after) && OthersUnchanged(before, after, iface.identifier)
    && (|| outcome.Saved? || outcome.Unchanged? || outcome.Compensated?
        || (outcome.Halfway? && HalfwayIsHarmless(mode, before, iface))
        || (outcome.Incomplete? && LateFailureIsHarmless(f, mode, before, iface)))
    && TypeUnchanged(before, iface) && Ends(f, mode, outcome, before, after, iface)
  }

  /** Along a run of such saves every interface agrees with its device, record and peers. */
  lemma {:induction false} RunKeepsAgreement(
      f: TextForm, mode: AwgMode, run: seq<Store>, ifaces: seq<Interface>, outcomes: seq<Outcome>, id: string)
    requires |run| == |ifaces| + 1 == |outcomes| + 1
    requires forall s :: s in run ==> WellFormed(s)
    requires forall i :: 0 <= i < |ifaces| ==> CleanSave(f, mode, run[i], run[i + 1], ifaces[i], outcomes[i])
    requires Agreement(mode, run[0], id) && PeersInvariant(f, run[0], id)
    ensures Agreement(mode, run[|ifaces|], id) && PeersInvariant(f, run[|ifaces|], id)
  {
    hide Agreement, PeersInvariant, WellFormed, Ends, TypeUnchanged, OthersUnchanged, HalfwayIsHarmless;
    hide LateFailureIsHarmless;
    var n := |ifaces|;
    if n > 0 {
      RunKeepsAgreement(f, mode, run[..n], ifaces[..n - 1], outcomes[..n - 1], id);
      var before, after, iface := run[n - 1], run[n], ifaces[n - 1];
      assert CleanSave(f, mode, before, after, iface, outcomes[n - 1]);
      if iface.identifier == id {
        AgreementIsKept(f, mode, outcomes[n - 1], before, after, iface);
        PeersAreKept(f, mode, outcomes[n - 1], before, after, iface);
      } else {
        OthersKeepAgreement(f, mode, before, after, iface.identifier, id);
      }
    }
  }

  // ---------------------------------------------------------------------- device calls that fail halfway

  /**
    The new record changes no setting that a failing save leaves behind on the device: link settings, and for
    an emitted AWG interface, whose connected routes come last, all settings. Zero means "leave as it is".
  */
  predicate SameOnDevice(mode: AwgMode, previous: Interface, iface: Interface) {
    && (iface.mtu != 0 && previous.mtu != 0 ==> iface.mtu == previous.mtu)
    && AddressSet(iface.addresses) == AddressSet(previous.addresses)
    && iface.disabled == previous.disabled
    && (EmitAWG(iface.awg) ==>
         && iface.privateKey == previous.privateKey
         && iface.listenPort == previous.listenPort
         && (iface.firewallMark != 0 && previous.firewallMark != 0 ==> iface.firewallMark == previous.firewallMark)
         && (!mode.Never? ==> iface.awg.params == previous.awg.params))
  }

  /**
    What can be checked before a save: there is a record; for a mode switch the old device is a kernel device,
    whose deletion fails without effect; otherwise the device is to stay as it is.
  */
  predicate HalfwayIsHarmless(mode: AwgMode, before: Store, iface: Interface) {
    iface.identifier in before.interfaces &&
    var previous := before.interfaces[iface.identifier];
    if Switched(before, iface) then KindFor(mode, previous).Kernel? else SameOnDevice(mode, previous, iface)
  }

  /** Changing a device partway towards a record that is the same on the device leaves it described. */
  lemma PartwayIsDescribed(mode: AwgMode, was: DeviceConfig, now: DeviceConfig, previous: Interface, iface: Interface)
    requires Describes(mode, was, previous) && Partway(mode, was, now, iface) && SameOnDevice(mode, previous, iface)
    requires EmitAWG(iface.awg) == EmitAWG(previous.awg)
    ensures Describes(mode, now, previous)
  {
    hide EmitAWG;
    var target := AddressSet(iface.addresses);
    assert target + target == target;
  }

  /** An unfinished change of the device that the old record does not describe. */
  lemma PartwayDiffers(mode: AwgMode, was: DeviceConfig, previous: Interface, iface: Interface)
    returns (now: DeviceConfig)
    requires Describes(mode, was, previous) && !SameOnDevice(mode, previous, iface)
    requires EmitAWG(iface.awg) == EmitAWG(previous.awg)
    ensures Partway(mode, was, now, iface) && !Describes(mode, now, previous)
  {
    hide EmitAWG;
    var target := AddressSet(iface.addresses);
    if target != was.addresses {
      now := was.(mtu := Linked(was, iface).mtu,
                  addresses := if target <= was.addresses then target else was.addresses + target);
    } else if iface.mtu != 0 && previous.mtu != 0 && iface.mtu != previous.mtu {
      now := was.(mtu := Linked(was, iface).mtu);
    } else if iface.disabled != previous.disabled {
      now := Linked(was, iface);
    } else {
      now := Configured(mode, was, iface);
    }
  }

  /**
    From an agreeing start, whatever device call fails halfway, the stores still agree, if and only if the
    condition holds that can be checked before the save.
  */
  lemma HalfwayAgreesIff(f: TextForm, mode: AwgMode, before: Store, iface: Interface)
    requires WellFormed(before) && Agreement(mode, before, iface.identifier)
    ensures (forall after :: WellFormed(after) && Ends(f, mode, Halfway, before, after, iface) ==>
              Agreement(mode, after, iface.identifier))
            <==> HalfwayIsHarmless(mode, before, iface)
  {
    hide Describes, Partway, EmitAWG, SameOnDevice, WellFormed, Agreement, Ends, HalfwayIsHarmless;
    if HalfwayIsHarmless(mode, before, iface) {
      forall after | WellFormed(after) && Ends(f, mode, Halfway, before, after, iface)
        ensures Agreement(mode, after, iface.identifier)
      {
        HarmlessKeepsAgreement(f, mode, before, after, iface);
      }
    } else {
      var after := HarmfulEnd(f, mode, before, iface);
      assert WellFormed(after) && Ends(f, mode, Halfway, before, after, iface);
    }
  }

  lemma HarmlessKeepsAgreement(f: TextForm, mode: AwgMode, before: Store, after: Store, iface: Interface)
    requires WellFormed(before) && WellFormed(after) && Agreement(mode, before, iface.identifier)
    requires Ends(f, mode, Halfway, before, after, iface) && HalfwayIsHarmless(mode, before, iface)
    ensures Agreement(mode, after, iface.identifier)
  {
    hide Describes, Partway, EmitAWG, SameOnDevice, WellFormedPeers;
    var id := iface.identifier;
    if !Switched(before, iface) {
      PartwayIsDescribed(
        mode, before.devices[id].config, after.devices[id].config, before.interfaces[id], iface);
    }
  }

  /** An end that disagrees: a new device without record, a lost AWG device, or a device that is partway. */
  lemma HarmfulEnd(f: TextForm, mode: AwgMode, before: Store, iface: Interface) returns (after: Store)
    requires WellFormed(before) && Agreement(mode, before, iface.identifier)
    requires !HalfwayIsHarmless(mode, before, iface)
    ensures WellFormed(after) && Ends(f, mode, Halfway, before, after, iface)
    ensures !Agreement(mode, after, iface.identifier)
  {
    hide Describes, Partway, EmitAWG, SameOnDevice, WellFormedPeers;
    var id := iface.identifier;
    if id !in before.interfaces {
      var blank := DeviceConfig("", 0, 0, 0, {}, false, []);
      after := before.(devices := before.devices[id := Device(KindFor(mode, iface), blank, map[])]);
    } else if Switched(before, iface) {
      after := before.(devices := before.devices - {id});
    } else {
      var device := before.devices[id];
      var now := PartwayDiffers(mode, device.config, before.interfaces[id], iface);
      after := before.(devices := before.devices[id := device.(config := now)]);
      assert after.devices[id].config != device.config;
    }
  }

  /** Disabling an interface brings its link down; if its keys can then not be set, the record still says enabled. */
  lemma DisablingMayEndHalfway(f: TextForm) returns (before: Store, after: Store, iface: Interface)
    ensures WellFormed(before) && WellFormed(after) && Agreement(Auto, before, "wg0")
    ensures Ends(f, Auto, Halfway, before, after, iface)
    ensures "wg0" in before.interfaces && "wg0" in after.interfaces && "wg0" in after.devices
    ensures !before.interfaces["wg0"].disabled && !after.interfaces["wg0"].disabled && !after.devices["wg0"].config.up
    ensures !Agreement(Auto, after, "wg0")
  {
    var record := Interface("wg0", P.Server, false, "key", 51820, 1420, 0, [], Awg(false, []));
    var config := DeviceConfig("key", 51820, 1420, 0, {}, true, []);
    iface := record.(disabled := true);
    before := Store(map["wg0" := record], map[], map["wg0" := Device(Kernel, config, map[])]);
    after := before.(devices := map["wg0" := Device(Kernel, config.(up := false), map[])]);
    assert AddressSet([]) == {};
    assert config.(up := false) == Linked(config, iface);
    assert after.devices["wg0"].config.up != before.devices["wg0"].config.up;
  }

  /** Agreeing peers are the enabled ones, except on an AWG device that has a disabled peer in the database. */
  lemma OnlyEnabledPeersIff(f: TextForm, s: Store, id: string)
    requires WellFormed(s) && id in s.devices && PeersAgree(f, s, id)
    ensures s.devices[id].peers.Keys ==
              (set pid | pid in s.peers && s.peers[pid].iface == id && !s.peers[pid].peer.disabled)
            <==>
            s.devices[id].kind.Kernel? ||
            forall pid :: pid in s.peers && s.peers[pid].iface == id ==> !s.peers[pid].peer.disabled
  {
    hide Settings, AllValid;
    var enabled := set pid | pid in s.peers && s.peers[pid].iface == id && !s.peers[pid].peer.disabled;
    var all := set pid | pid in s.peers && s.peers[pid].iface == id;
    forall pid: string
      ensures pid in s.devices[id].peers <==> pid in (if s.devices[id].kind.Kernel? then enabled else all)
    {
      assert Lookup(s.devices[id].peers, pid) ==
        if BelongsTo(s.peers, pid, id) then Projection(f, s.devices[id].kind, s.peers[pid].peer) else None;
      assert BelongsTo(s.peers, pid, id) ==> WellFormedPeer(pid, s.peers[pid]);
    }
    assert s.devices[id].peers.Keys == if s.devices[id].kind.Kernel? then enabled else all;
    if all == enabled {
      assert forall pid :: pid in s.peers && s.peers[pid].iface == id ==> pid in all;
    }
  }

  /**
    A save that changes the type of an enabled interface, without a mode switch, updates the stored peers but
    not the device: they agree afterwards if and only if no projection has changed.
  */
  lemma TypeChangeIff(f: TextForm, mode: AwgMode, before: Store, after: Store, iface: Interface)
    requires WellFormed(before) && WellFormed(after) && Moved(f, mode, before, after, iface)
    requires Agreement(mode, before, iface.identifier) && iface.identifier in before.interfaces
    requires PeersAgree(f, before, iface.identifier)
    requires !iface.disabled && !Switched(before, iface) && !NewlyEnabled(before, iface)
    ensures PeersAgree(f, after, iface.identifier) <==>
              forall pid :: BelongsTo(before.peers, pid, iface.identifier) ==>
                Lookup(before.devices[iface.identifier].peers, pid) ==
                ProjectionOf(f, before.devices[iface.identifier].kind, Retyped(before.peers[pid], iface).peer)
  {
    hide Describes, Settings, AllValid, EmitAWG, KindFor, Pushed;
    var id := iface.identifier;
    var kind, held := before.devices[id].kind, before.devices[id].peers;
    assert after.devices[id].peers == held && after.devices[id].kind == kind;
    forall pid: string
      ensures BelongsTo(after.peers, pid, id) <==> BelongsTo(before.peers, pid, id)
      ensures BelongsTo(before.peers, pid, id) ==>
                WellFormedPeer(pid, after.peers[pid]) && after.peers[pid] == Retyped(before.peers[pid], iface)
      ensures !BelongsTo(before.peers, pid, id) ==> Lookup(held, pid) == None
    {
      assert BelongsTo(before.peers, pid, id) ==> WellFormedPeer(pid, after.peers[pid]);
    }
    if PeersAgree(f, after, id) {
      forall pid | BelongsTo(before.peers, pid, id)
        ensures Lookup(held, pid) == ProjectionOf(f, kind, Retyped(before.peers[pid], iface).peer)
      {
        assert Lookup(after.devices[id].peers, pid) == Projection(f, kind, after.peers[pid].peer);
      }
    }
  }

  function ProjectionOf(f: TextForm, kind: Kind, p: P.Peer): Option<DevicePeer> {
    if AllValid(p.addresses) then Projection(f, kind, p) else None
  }
}

/**
  Devices of the local backend and what pushing a stored peer does to them: through netlink on a kernel
  device, through the UAPI socket on an amneziawg-go TUN device.
*/
module DevicePeers {
  import opened Wrappers
  import opened Cidrs
  import opened CidrText
  import P = Peers

  datatype Kind = Kernel | AwgTun

  /** A network in an allowed-IP table has no host bits. */
  type Network = c: Cidr | Valid(c) ==> NetworkAddr(c) == c witness NO_CIDR

  function NetworkOf(c: Cidr): Network {
    if Valid(c) then MaskedTwice(c); NetworkAddr(c) else c
  }

  function Networks(cidrs: seq<Cidr>): (s: set<Network>)
    ensures forall c :: c in cidrs ==> NetworkOf(c) in s
  {
    set i | 0 <= i < |cidrs| :: NetworkOf(cidrs[i])
  }

  /** The settings of a peer on a device. */
  datatype DevicePeer = DevicePeer(presharedKey: string, endpoint: string, keepalive: int, allowedIPs: set<Network>)

  const NO_SETTINGS := DevicePeer("", "", 0, {})

  function SetsEndpoint(p: P.Peer): bool {
    p.ifaceType.Server? || p.ifaceType.Any?
  }

  /**
    The settings of an active peer. An empty preshared key, an empty endpoint and a zero keepalive leave
    what the device has; a kernel device replaces the networks, an AWG device adds to them.
  */
  function Settings(f: TextForm, kind: Kind, held: DevicePeer, p: P.Peer): DevicePeer
    requires AllValid(p.addresses)
  {
    var keepalive := if SetsEndpoint(p) then p.keepalive else 0;
    var networks := if p.ifaceType.Untyped? then held.allowedIPs else Networks(P.AllowedFor(f, p, []));
    DevicePeer(
      if p.presharedKey != "" then p.presharedKey else held.presharedKey,
      if SetsEndpoint(p) && p.endpoint != "" then p.endpoint else held.endpoint,
      if (if kind.Kernel? then keepalive != 0 else keepalive > 0) then keepalive else held.keepalive,
      if kind.Kernel? then networks else held.allowedIPs + networks)
  }

  /** The device's peer after a push; a disabled peer is deleted from a kernel device only. */
  function Pushed(f: TextForm, kind: Kind, held: Option<DevicePeer>, p: P.Peer): Option<DevicePeer>
    requires AllValid(p.addresses)
  {
    if kind.Kernel? && p.disabled then None
    else Some(Settings(f, kind, if held.Some? then held.value else NO_SETTINGS, p))
  }

  /** The projection of a stored peer: what is pushed to a device that does not have the peer. */
  function Projection(f: TextForm, kind: Kind, p: P.Peer): Option<DevicePeer>
    requires AllValid(p.addresses)
  {
    Pushed(f, kind, None, p)
  }

  /** Pushing a projected peer again changes nothing. */
  lemma PushedTwice(f: TextForm, kind: Kind, p: P.Peer)
    requires AllValid(p.addresses)
    ensures Pushed(f, kind, Projection(f, kind, p), p) == Projection(f, kind, p)
  {
    var networks := if p.ifaceType.Untyped? then {} else Networks(P.AllowedFor(f, p, []));
    assert {} + networks + networks == {} + networks && {} + networks == networks;
  }

  /** Pushing a peer again changes nothing, whatever the device held. */
  lemma PushedAgain(f: TextForm, kind: Kind, held: Option<DevicePeer>, p: P.Peer)
    requires AllValid(p.addresses)
    ensures Pushed(f, kind, Pushed(f, kind, held, p), p) == Pushed(f, kind, held, p)
  {
    hide Networks;
    var base := if held.Some? then held.value.allowedIPs else {};
    var networks := if p.ifaceType.Untyped? then base else Networks(P.AllowedFor(f, p, []));
    assert base + networks + networks == base + networks && base + base + (base + base) == base + base;
  }

  /** Whether pushing the peer onto what the device has leads to its projection: nothing stale shows through. */
  predicate Fits(f: TextForm, kind: Kind, held: Option<DevicePeer>, p: P.Peer)
    requires AllValid(p.addresses)
  {
    Pushed(f, kind, held, p) == Projection(f, kind, p)
  }

  /** On a kernel device a stale setting shows through in exactly these cases. */
  lemma FitsKernelIff(f: TextForm, held: DevicePeer, p: P.Peer)
    requires AllValid(p.addresses)
    ensures Fits(f, Kernel, Some(held), p) <==>
              || p.disabled
              || (&& (p.presharedKey != "" || held.presharedKey == "")
                  && (held.endpoint == "" || (SetsEndpoint(p) && p.endpoint != ""))
                  && (held.keepalive == 0 || (SetsEndpoint(p) && p.keepalive != 0))
                  && (p.ifaceType.Untyped? ==> held.allowedIPs == {}))
  {
    hide Networks;
  }

  /** On an AWG device a network that is no longer allowed stays as well. */
  lemma FitsAwgIff(f: TextForm, held: DevicePeer, p: P.Peer)
    requires AllValid(p.addresses)
    ensures Fits(f, AwgTun, Some(held), p) <==>
              && (p.presharedKey != "" || held.presharedKey == "")
              && (held.endpoint == "" || (SetsEndpoint(p) && p.endpoint != ""))
              && (held.keepalive == 0 || (SetsEndpoint(p) && p.keepalive > 0))
              && held.allowedIPs <= if p.ifaceType.Untyped? then {} else Networks(P.AllowedFor(f, p, []))
  {
    hide Networks;
    var networks := if p.ifaceType.Untyped? then {} else Networks(P.AllowedFor(f, p, []));
    assert held.allowedIPs + networks == networks <==> held.allowedIPs <= networks;
    assert {} + networks == networks;
  }

  // ---------------------------------------------------------------------- the two paths of SavePeer

  /** The peer as read from a kernel device; `listed` are its networks in some order. */
  function ReadBack(id: string, held: DevicePeer, listed: seq<Cidr>): P.PeerConfig {
    P.PeerConfig(id, id, held.presharedKey, listed, held.endpoint, held.keepalive, P.LocalSource, Some(false))
  }

  /** The blank peer that is merged into for the UAPI socket: no source, hence no "disabled" flag. */
  function Blank(id: string): P.PeerConfig {
    P.PeerConfig(id, id, "", [], "", 0, P.NoSource, None)
  }

  /** `updatePeer`: networks are replaced, unset values are not sent. */
  function KernelUpdate(held: DevicePeer, pp: P.PeerConfig): DevicePeer {
    DevicePeer(
      if pp.presharedKey != "" then pp.presharedKey else held.presharedKey,
      if pp.endpoint != "" then pp.endpoint else held.endpoint,
      if pp.keepalive != 0 then pp.keepalive else held.keepalive,
      Networks(pp.allowedIPs))
  }

  /** `SetAWGPeer`: networks are added, unset values are not sent. */
  function AwgUpdate(held: DevicePeer, pp: P.PeerConfig): DevicePeer {
    DevicePeer(
      if pp.presharedKey != "" then pp.presharedKey else held.presharedKey,
      if pp.endpoint != "" then pp.endpoint else held.endpoint,
      if pp.keepalive > 0 then pp.keepalive else held.keepalive,
      held.allowedIPs + Networks(pp.allowedIPs))
  }

  lemma KernelPush(f: TextForm, id: string, held: DevicePeer, listed: seq<Cidr>, p: P.Peer)
    requires AllValid(p.addresses) && Networks(listed) == held.allowedIPs
    ensures var pp := P.Merged(f, ReadBack(id, held, listed), p);
            && pp.extras == Some(p.disabled)
            && KernelUpdate(held, pp) == Settings(f, Kernel, held, p)
  {
    hide Networks;
  }

  lemma AwgPush(f: TextForm, id: string, held: DevicePeer, p: P.Peer)
    requires AllValid(p.addresses)
    ensures var pp := P.Merged(f, Blank(id), p);
            && pp.extras == None
            && AwgUpdate(held, pp) == Settings(f, AwgTun, held, p)
  {
    assert held.allowedIPs + Networks([]) == held.allowedIPs;
  }
}

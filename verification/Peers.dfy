/**
  Peers as stored and as configured on a device: `MergeToPhysicalPeer`, `importPeer` and the allowed
  IPs of an interface. Only the extras of the local controller are modelled.
*/
module Peers {
  import opened Wrappers
  import opened Cidrs
  import opened CidrText

  datatype InterfaceType = Server | Client | Any | Untyped

  /** The part of a stored peer that its device configuration depends on. */
  datatype Peer = Peer(
    identifier: string,
    publicKey: string,
    presharedKey: string,
    ifaceType: InterfaceType,
    addresses: seq<Cidr>,
    allowedIPsStr: string,
    extraAllowedIPsStr: string,
    endpoint: string,
    keepalive: int,
    disabled: bool)

  datatype ImportSource = NoSource | LocalSource

  /** `extras` is the "disabled" flag of `LocalPeerExtras`, if extras are set. */
  datatype PeerConfig = PeerConfig(
    identifier: string,
    publicKey: string,
    presharedKey: string,
    allowedIPs: seq<Cidr>,
    endpoint: string,
    keepalive: int,
    source: ImportSource,
    extras: Option<bool>)

  function HostAddrs(addresses: seq<Cidr>): (hosts: seq<Cidr>)
    requires AllValid(addresses)
    ensures |hosts| == |addresses|
    ensures forall i :: 0 <= i < |addresses| ==> hosts[i] == HostAddr(addresses[i])
  {
    seq(|addresses|, i requires 0 <= i < |addresses| => HostAddr(addresses[i]))
  }

  /** The allowed IPs pushed to the device for a peer; `kept` is what the device has. */
  function AllowedFor(f: TextForm, p: Peer, kept: seq<Cidr>): seq<Cidr>
    requires AllValid(p.addresses)
  {
    match p.ifaceType
    case Client => HostAddrs(p.addresses) + ParsedOrEmpty(f, p.extraAllowedIPsStr)
    case Any => HostAddrs(p.addresses) + ParsedOrEmpty(f, p.extraAllowedIPsStr)
    case Server => ParsedOrEmpty(f, p.allowedIPsStr) + ParsedOrEmpty(f, p.extraAllowedIPsStr)
    case Untyped => kept
  }

  /** What merging a stored peer into a device's peer yields. */
  function Merged(f: TextForm, pp: PeerConfig, p: Peer): PeerConfig
    requires AllValid(p.addresses)
  {
    var setsEndpoint := p.ifaceType.Server? || p.ifaceType.Any?;
    pp.(
      identifier := p.identifier,
      publicKey := p.publicKey,
      presharedKey := p.presharedKey,
      allowedIPs := AllowedFor(f, p, pp.allowedIPs),
      endpoint := if setsEndpoint then p.endpoint else pp.endpoint,
      keepalive := if setsEndpoint then p.keepalive else pp.keepalive,
      extras := if pp.source.LocalSource? then Some(p.disabled) else pp.extras)
  }

  /** The object that `MergeToPhysicalPeer` writes to. */
  class PhysicalPeer {
    var identifier: string
    var publicKey: string
    var presharedKey: string
    var allowedIPs: seq<Cidr>
    var endpoint: string
    var keepalive: int
    var source: ImportSource
    var extras: Option<bool>

    function Config(): PeerConfig
      reads this
    {
      PeerConfig(identifier, publicKey, presharedKey, allowedIPs, endpoint, keepalive, source, extras)
    }

    constructor (c: PeerConfig)
      ensures Config() == c
    {
      identifier, publicKey, presharedKey, allowedIPs := c.identifier, c.publicKey, c.presharedKey, c.allowedIPs;
      endpoint, keepalive, source, extras := c.endpoint, c.keepalive, c.source, c.extras;
    }

    method MergeToPhysicalPeer(f: TextForm, p: Peer)
      requires AllValid(p.addresses)
      modifies this
      ensures Config() == Merged(f, old(Config()), p)
    {
      identifier := p.identifier;
      presharedKey := p.presharedKey;
      publicKey := p.publicKey;
      match p.ifaceType {
        case Client =>
          var hosts := HostAddresses(p.addresses);
          var extra := CidrsFromString(f, p.extraAllowedIPsStr);
          allowedIPs := if extra.Some? then hosts + extra.value else hosts;
        case Server =>
          var allowed := CidrsFromString(f, p.allowedIPsStr);
          var extra := CidrsFromString(f, p.extraAllowedIPsStr);
          allowedIPs := if allowed.Some? then allowed.value else [];
          if extra.Some? {
            allowedIPs := allowedIPs + extra.value;
          }
          endpoint := p.endpoint;
          keepalive := p.keepalive;
        case Any =>
          var hosts := HostAddresses(p.addresses);
          var extra := CidrsFromString(f, p.extraAllowedIPsStr);
          allowedIPs := if extra.Some? then hosts + extra.value else hosts;
          endpoint := p.endpoint;
          keepalive := p.keepalive;
        case Untyped =>
      }
      if source.LocalSource? {
        extras := Some(p.disabled);
      }
    }
  }

  method HostAddresses(addresses: seq<Cidr>) returns (hosts: seq<Cidr>)
    requires AllValid(addresses)
    ensures hosts == HostAddrs(addresses)
  {
    hosts := [];
    for i := 0 to |addresses|
      invariant |hosts| == i && forall k :: 0 <= k < i ==> hosts[k] == HostAddr(addresses[k])
    {
      hosts := hosts + [HostAddr(addresses[i])];
    }
  }

  /**
    What merging pushes for a peer whose lists were printed from these networks: on a server or any interface
    its addresses as hosts, on a client interface its allowed networks, and its extra networks after that.
  */
  lemma MergedNetworks(f: TextForm, pp: PeerConfig, p: Peer, allowed: seq<Cidr>, extra: seq<Cidr>)
    requires Faithful(f) && AllValid(p.addresses) && AllValid(allowed) && AllValid(extra)
    requires p.allowedIPsStr == CidrsToString(f, allowed) && p.extraAllowedIPsStr == CidrsToString(f, extra)
    ensures p.ifaceType.Server? ==> Merged(f, pp, p).allowedIPs == allowed + extra
    ensures p.ifaceType.Client? || p.ifaceType.Any? ==>
              var n, pushed := |p.addresses|, Merged(f, pp, p).allowedIPs;
              && |pushed| == n + |extra| && pushed[n..] == extra
              && forall i :: 0 <= i < n ==>
                   pushed[i].addr == p.addresses[i].addr && pushed[i].len == if p.addresses[i].addr.V4? then 32 else 128
    ensures p.ifaceType.Untyped? ==> Merged(f, pp, p).allowedIPs == pp.allowedIPs
  {
    hide Valid, Parsed, CidrsToString;
    ListRoundTrip(f, allowed);
    ListRoundTrip(f, extra);
  }

  /** What else merging sets: identity and keys always, endpoint and keepalive only where the peer is an endpoint. */
  lemma MergedSettings(f: TextForm, pp: PeerConfig, p: Peer)
    requires AllValid(p.addresses)
    ensures var merged := Merged(f, pp, p);
            && merged.identifier == p.identifier && merged.publicKey == p.publicKey
            && merged.presharedKey == p.presharedKey && merged.source == pp.source
            && (p.ifaceType.Server? || p.ifaceType.Any? ==>
                 merged.endpoint == p.endpoint && merged.keepalive == p.keepalive)
            && (p.ifaceType.Client? || p.ifaceType.Untyped? ==>
                 merged.endpoint == pp.endpoint && merged.keepalive == pp.keepalive)
            && (pp.source.LocalSource? ==> merged.extras == Some(p.disabled))
            && (pp.source.NoSource? ==> merged.extras == pp.extras)
  {
  }

  // ---------------------------------------------------------------------- import

  predicate IsHost(c: Cidr) {
    c.len == if c.addr.V4? then 32 else 128
  }

  predicate IsMasked(c: Cidr)
    requires Valid(c)
  {
    c.addr == NetworkAddr(c).addr
  }

  /** Network addresses become extra allowed IPs, everything else is taken for an interface address. */
  predicate IsExtra(c: Cidr)
    requires Valid(c)
  {
    !IsHost(c) && IsMasked(c)
  }

  function Extras(cidrs: seq<Cidr>, extra: bool): seq<Cidr>
    requires AllValid(cidrs)
  {
    if cidrs == [] then []
    else Extras(cidrs[..|cidrs| - 1], extra) +
         if IsExtra(cidrs[|cidrs| - 1]) == extra then [cidrs[|cidrs| - 1]] else []
  }

  /** The type of the peers of an interface, seen from the peer. */
  function PeerType(t: InterfaceType): InterfaceType {
    match t
    case Server => Client
    case Client => Server
    case Any => Any
    case Untyped => Untyped
  }

  function Imported(f: TextForm, ifaceType: InterfaceType, peerDefAllowedIPsStr: string, pp: PeerConfig): Peer
    requires AllValid(pp.allowedIPs)
  {
    Peer(
      identifier := pp.identifier, publicKey := pp.publicKey, presharedKey := pp.presharedKey,
      ifaceType := PeerType(ifaceType),
      addresses := Extras(pp.allowedIPs, false),
      allowedIPsStr := peerDefAllowedIPsStr,
      extraAllowedIPsStr := CidrsToString(f, Extras(pp.allowedIPs, true)),
      endpoint := pp.endpoint, keepalive := pp.keepalive, disabled := pp.extras == Some(true))
  }

  method ImportPeer(f: TextForm, ifaceType: InterfaceType, peerDefAllowedIPsStr: string, pp: PeerConfig)
    returns (p: Peer)
    requires AllValid(pp.allowedIPs)
    ensures p == Imported(f, ifaceType, peerDefAllowedIPsStr, pp)
  {
    var interfaceAddresses: seq<Cidr>, extraAllowedIPs: seq<Cidr> := [], [];
    var ips := pp.allowedIPs;
    for i := 0 to |ips|
      invariant interfaceAddresses == Extras(ips[..i], false) && extraAllowedIPs == Extras(ips[..i], true)
    {
      assert ips[..i + 1][..i] == ips[..i];
      var isHost := (ips[i].addr.V4? && ips[i].len == 32) || (!ips[i].addr.V4? && ips[i].len == 128);
      var isNetworkAddr := ips[i].addr == NetworkAddr(ips[i]).addr;
      if !isHost && isNetworkAddr {
        extraAllowedIPs := extraAllowedIPs + [ips[i]];
      } else {
        interfaceAddresses := interfaceAddresses + [ips[i]];
      }
    }
    assert ips[..|ips|] == ips;
    p := Peer(
      identifier := pp.identifier, publicKey := pp.publicKey, presharedKey := pp.presharedKey,
      ifaceType := PeerType(ifaceType),
      addresses := interfaceAddresses,
      allowedIPsStr := peerDefAllowedIPsStr,
      extraAllowedIPsStr := CidrsToString(f, extraAllowedIPs),
      endpoint := pp.endpoint, keepalive := pp.keepalive, disabled := pp.extras == Some(true));
  }

  lemma {:induction false} ExtrasPartition(cidrs: seq<Cidr>)
    requires AllValid(cidrs)
    ensures multiset(Extras(cidrs, false)) + multiset(Extras(cidrs, true)) == multiset(cidrs)
  {
    hide Valid, IsExtra;
    if cidrs != [] {
      ExtrasPartition(cidrs[..|cidrs| - 1]);
      assert cidrs == cidrs[..|cidrs| - 1] + [cidrs[|cidrs| - 1]];
    }
  }

  lemma {:induction false} ExtrasMembers(cidrs: seq<Cidr>, extra: bool)
    requires AllValid(cidrs)
    ensures forall i :: 0 <= i < |Extras(cidrs, extra)| ==>
              Valid(Extras(cidrs, extra)[i]) && IsExtra(Extras(cidrs, extra)[i]) == extra
  {
    hide Valid, IsExtra;
    if cidrs != [] {
      ExtrasMembers(cidrs[..|cidrs| - 1], extra);
    }
  }

  /** What the device would be given for an imported peer of a server or any interface. */
  lemma ImportedAllowed(f: TextForm, ifaceType: InterfaceType, def: string, pp: PeerConfig, kept: seq<Cidr>)
    requires Faithful(f) && AllValid(pp.allowedIPs) && (ifaceType.Server? || ifaceType.Any?)
    ensures var p := Imported(f, ifaceType, def, pp);
            AllValid(p.addresses) &&
            AllowedFor(f, p, kept) == HostAddrs(Extras(pp.allowedIPs, false)) + Extras(pp.allowedIPs, true)
  {
    hide Valid, Extras;
    ExtrasMembers(pp.allowedIPs, true);
    ExtrasMembers(pp.allowedIPs, false);
    ListRoundTrip(f, Extras(pp.allowedIPs, true));
  }

  /**
    Importing a device's peer and merging it back leaves its allowed IPs the same multiset exactly when
    each of them is a host address or a network address.
  */
  lemma ImportThenMergeIff(f: TextForm, ifaceType: InterfaceType, def: string, pp: PeerConfig, device: PeerConfig)
    requires Faithful(f) && AllValid(pp.allowedIPs) && (ifaceType.Server? || ifaceType.Any?)
    ensures AllValid(Imported(f, ifaceType, def, pp).addresses)
    ensures multiset(Merged(f, device, Imported(f, ifaceType, def, pp)).allowedIPs) == multiset(pp.allowedIPs)
            <==> forall k :: 0 <= k < |pp.allowedIPs| ==> IsHost(pp.allowedIPs[k]) || IsMasked(pp.allowedIPs[k])
  {
    hide Valid, Extras, Imported, AllowedFor, IsMasked;
    var ips := pp.allowedIPs;
    var plain, extra := Extras(ips, false), Extras(ips, true);
    ExtrasPartition(ips);
    ExtrasMembers(ips, true);
    ExtrasMembers(ips, false);
    ImportedAllowed(f, ifaceType, def, pp, device.allowedIPs);
    var result := HostAddrs(plain) + extra;
    if k :| 0 <= k < |ips| && !IsHost(ips[k]) && !IsMasked(ips[k]) {
      assert ips[k] !in extra && ips[k] !in HostAddrs(plain);
      assert multiset(result)[ips[k]] == 0 && multiset(ips)[ips[k]] > 0;
    } else {
      forall i | 0 <= i < |plain|
        ensures IsHost(plain[i])
      {
        assert plain[i] in multiset(ips);
        var k :| 0 <= k < |ips| && ips[k] == plain[i];
      }
      HostAddrsOfHosts(plain);
    }
  }

  lemma HostAddrsOfHosts(hosts: seq<Cidr>)
    requires AllValid(hosts) && forall i :: 0 <= i < |hosts| ==> IsHost(hosts[i])
    ensures HostAddrs(hosts) == hosts
  {
  }

  /** What an imported peer is stored as, by type of the interface: the peers of a client interface are servers. */
  lemma ImportedAs(f: TextForm, ifaceType: InterfaceType, def: string, pp: PeerConfig)
    requires AllValid(pp.allowedIPs)
    ensures var p := Imported(f, ifaceType, def, pp);
            && (ifaceType.Server? ==> p.ifaceType.Client?)
            && (ifaceType.Client? ==> p.ifaceType.Server?)
            && (ifaceType.Any? ==> p.ifaceType.Any?)
            && p.identifier == pp.identifier && p.publicKey == pp.publicKey && p.presharedKey == pp.presharedKey
            && p.endpoint == pp.endpoint && p.keepalive == pp.keepalive && p.allowedIPsStr == def
            && (p.disabled <==> pp.extras == Some(true))
  {
  }

  /** The addresses of an imported peer, and its extra networks: those longer entries that have no host bits. */
  lemma {:induction false} ImportedNetworks(cidrs: seq<Cidr>, c: Cidr)
    requires AllValid(cidrs) && c in cidrs
    ensures c in Extras(cidrs, true) <==> c.len != Width(c.addr) && NetworkAddr(c) == c
    ensures c in Extras(cidrs, false) <==> c.len == Width(c.addr) || NetworkAddr(c) != c
  {
    hide NetworkAddr, Valid;
    var n := |cidrs| - 1;
    assert cidrs == cidrs[..n] + [cidrs[n]];
    ExtraIff(cidrs[n]);
    if c in cidrs[..n] {
      ImportedNetworks(cidrs[..n], c);
      if c == cidrs[n] {
        ExtraIff(c);
      }
    } else {
      ExtrasMembersOnly(cidrs[..n], true, c);
      ExtrasMembersOnly(cidrs[..n], false, c);
    }
  }

  lemma ExtraIff(c: Cidr)
    requires Valid(c)
    ensures IsExtra(c) <==> c.len != Width(c.addr) && NetworkAddr(c) == c
  {
  }

  lemma {:induction false} ExtrasMembersOnly(cidrs: seq<Cidr>, extra: bool, c: Cidr)
    requires AllValid(cidrs) && c !in cidrs
    ensures c !in Extras(cidrs, extra)
  {
    hide Valid, IsExtra;
    if cidrs != [] {
      var n := |cidrs| - 1;
      assert cidrs == cidrs[..n] + [cidrs[n]];
      ExtrasMembersOnly(cidrs[..n], extra, c);
    }
  }

  /** The other settings survive as well, endpoint and keepalive where the interface type pushes them. */
  lemma ImportThenMergeKeepsSettings(
      f: TextForm, ifaceType: InterfaceType, def: string, pp: PeerConfig, device: PeerConfig)
    requires Faithful(f) && AllValid(pp.allowedIPs)
    requires device.source.LocalSource? && pp.extras == Some(false)
    ensures AllValid(Imported(f, ifaceType, def, pp).addresses)
    ensures var back := Merged(f, device, Imported(f, ifaceType, def, pp));
            && back.identifier == pp.identifier && back.publicKey == pp.publicKey
            && back.presharedKey == pp.presharedKey && back.extras == Some(false)
            && (ifaceType.Any? || ifaceType.Client? ==> back.endpoint == pp.endpoint && back.keepalive == pp.keepalive)
            && (ifaceType.Server? ==> back.endpoint == device.endpoint && back.keepalive == device.keepalive)
  {
    hide Valid, Extras;
    ExtrasMembers(pp.allowedIPs, false);
  }

  // ---------------------------------------------------------------------- allowed IPs of an interface

  predicate WellFormed(peers: seq<Peer>) {
    forall i :: 0 <= i < |peers| ==> AllValid(peers[i].addresses)
  }

  /** What one peer contributes to the routes of an interface. */
  function Contribution(f: TextForm, ifaceType: InterfaceType, p: Peer): seq<Cidr>
    requires AllValid(p.addresses)
  {
    match ifaceType
    case Client => ParsedOrEmpty(f, p.allowedIPsStr)
    case Untyped => []
    case _ => HostAddrs(p.addresses) + if p.extraAllowedIPsStr == "" then [] else ParsedOrEmpty(f, p.extraAllowedIPsStr)
  }

  function AllowedIPs(f: TextForm, ifaceType: InterfaceType, peers: seq<Peer>): seq<Cidr>
    requires WellFormed(peers)
  {
    if peers == [] then []
    else AllowedIPs(f, ifaceType, peers[..|peers| - 1]) + Contribution(f, ifaceType, peers[|peers| - 1])
  }

  method GetAllowedIPs(f: TextForm, ifaceType: InterfaceType, peers: seq<Peer>) returns (allowedCidrs: seq<Cidr>)
    requires WellFormed(peers)
    ensures allowedCidrs == AllowedIPs(f, ifaceType, peers)
  {
    hide ParsedOrEmpty;
    allowedCidrs := [];
    if ifaceType.Untyped? {
      NoContributions(f, peers);
      return;
    }
    for i := 0 to |peers|
      invariant allowedCidrs == AllowedIPs(f, ifaceType, peers[..i])
    {
      assert peers[..i + 1][..i] == peers[..i];
      var more := AllowedIPsOf(f, ifaceType, peers[i]);
      allowedCidrs := allowedCidrs + more;
    }
    assert peers[..|peers|] == peers;
  }

  /** The body of the loops over the peers. */
  method AllowedIPsOf(f: TextForm, ifaceType: InterfaceType, p: Peer) returns (allowedCidrs: seq<Cidr>)
    requires AllValid(p.addresses) && !ifaceType.Untyped?
    ensures allowedCidrs == Contribution(f, ifaceType, p)
  {
    hide Parsed;
    if ifaceType.Client? {
      var allowedIPs := CidrsFromString(f, p.allowedIPsStr);
      allowedCidrs := if allowedIPs.Some? then allowedIPs.value else [];
    } else {
      allowedCidrs := HostAddresses(p.addresses);
      if p.extraAllowedIPsStr != "" {
        var extraIPs := CidrsFromString(f, p.extraAllowedIPsStr);
        if extraIPs.Some? {
          allowedCidrs := allowedCidrs + extraIPs.value;
        }
      }
    }
  }

  lemma {:induction false} NoContributions(f: TextForm, peers: seq<Peer>)
    requires WellFormed(peers)
    ensures AllowedIPs(f, Untyped, peers) == []
  {
    if peers != [] {
      NoContributions(f, peers[..|peers| - 1]);
    }
  }

  /** The allowed IPs that `MergeToPhysicalPeer` pushes for the peers, one after the other. */
  function Pushed(f: TextForm, peers: seq<Peer>): seq<Cidr>
    requires WellFormed(peers)
  {
    if peers == [] then []
    else Pushed(f, peers[..|peers| - 1]) + AllowedFor(f, peers[|peers| - 1], [])
  }

  /** On a server or any interface, routes and device agree: the routed prefixes are those pushed, in order. */
  lemma {:induction false} RoutesMatchDevice(f: TextForm, ifaceType: InterfaceType, peers: seq<Peer>)
    requires Faithful(f) && WellFormed(peers) && (ifaceType.Server? || ifaceType.Any?)
    requires forall i :: 0 <= i < |peers| ==> peers[i].ifaceType == PeerType(ifaceType)
    ensures AllowedIPs(f, ifaceType, peers) == Pushed(f, peers)
  {
    hide AllValid;
    if peers != [] {
      RoutesMatchDevice(f, ifaceType, peers[..|peers| - 1]);
      EmptyDoesNotParse(f);
    }
  }

  lemma EmptyDoesNotParse(f: TextForm)
    requires Faithful(f)
    ensures Parsed(f, "").None?
  {
    assert [""][..0] == [] && ParseAll(f, [""][..0]) == Some([]);
  }

  /** On a client interface extra allowed IPs are pushed but not routed: the two agree exactly when there are none. */
  lemma {:induction false} ClientRoutesMatchIff(f: TextForm, peers: seq<Peer>)
    requires Faithful(f) && WellFormed(peers)
    requires forall i :: 0 <= i < |peers| ==> peers[i].ifaceType.Server?
    ensures |AllowedIPs(f, Client, peers)| <= |Pushed(f, peers)|
    ensures AllowedIPs(f, Client, peers) == Pushed(f, peers)
            <==> forall i :: 0 <= i < |peers| ==> Parsed(f, peers[i].extraAllowedIPsStr).None?
  {
    hide AllValid, Parsed;
    if peers != [] {
      var n := |peers| - 1;
      ClientRoutesMatchIff(f, peers[..n]);
      ParsedNonEmpty(f, peers[n].extraAllowedIPsStr);
      assert forall i :: 0 <= i < n ==> peers[..n][i] == peers[i];
      var routed, pushed := AllowedIPs(f, Client, peers[..n]), Pushed(f, peers[..n]);
      var allowed, extra := ParsedOrEmpty(f, peers[n].allowedIPsStr), ParsedOrEmpty(f, peers[n].extraAllowedIPsStr);
      assert AllowedIPs(f, Client, peers) == routed + allowed && Pushed(f, peers) == pushed + (allowed + extra);
      if |extra| == 0 && routed + allowed == pushed + allowed {
        assert |routed| == |pushed|;
        assert routed == (routed + allowed)[..|routed|] == pushed;
      }
    }
  }

  lemma ParsedNonEmpty(f: TextForm, s: string)
    ensures Parsed(f, s).Some? ==> Parsed(f, s).value != []
  {
  }
}

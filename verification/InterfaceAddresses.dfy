/** The allocator of subnets for new interfaces: `getFreshInterfaceIpConfig`. */
module InterfaceAddresses {
  import opened Wrappers
  import opened Arithmetic
  import opened Cidrs

  /** `Panic` is `MustParseAddr` on the text of a missing address, where the source means to report exhaustion. */
  datatype Fresh = Fresh(ipV4: Cidr, ipV6: Cidr) | Panic

  /** The addresses of each interface, as stored. */
  type InterfaceIps = seq<seq<Cidr>>

  predicate Parsable(ips: InterfaceIps) {
    forall i, j :: 0 <= i < |ips| && 0 <= j < |ips[i]| ==> IsAddr(ips[i][j].addr)
  }

  predicate Used(ips: InterfaceIps, net: Cidr)
    requires Parsable(ips)
  {
    exists i, j :: 0 <= i < |ips| && 0 <= j < |ips[i]| && NetworkAddr(ips[i][j]) == net
  }

  /** The prefixes of the length and family of `start`. */
  predicate IsSubnet(start: Cidr, net: Cidr) {
    Valid(net) && NetworkAddr(net) == net && SameFamily(start.addr, net.addr) && start.len == net.len
  }

  /** Every subnet from `start` up to, and without, the address `bound` is in use. */
  ghost predicate UsedBelow(start: Cidr, ips: InterfaceIps, bound: nat)
    requires Parsable(ips)
  {
    forall m :: IsSubnet(start, m) && start.addr.bits <= m.addr.bits < bound ==> Used(ips, m)
  }

  /** The lowest subnet at or above `start` that is the network of no stored address. */
  ghost predicate LowestFree(start: Cidr, ips: InterfaceIps, net: Cidr)
    requires Parsable(ips)
  {
    && IsSubnet(start, net) && start.addr.bits <= net.addr.bits && !Used(ips, net)
    && UsedBelow(start, ips, net.addr.bits)
  }

  ghost predicate Exhausted(start: Cidr, ips: InterfaceIps)
    requires Parsable(ips)
  {
    UsedBelow(start, ips, Pow2(Width(start.addr)))
  }

  /**
    Where the search starts: the network of the address after the network address of the configured
    prefix. `None` is a prefix that could not be parsed or has no such address.
  */
  function SearchStart(configured: Option<Cidr>): (start: Option<Cidr>)
    requires configured.Some? ==> Valid(configured.value)
    ensures start.Some? ==> configured.Some? && IsSubnet(start.value, start.value) && start.value.len == configured.value.len
  {
    if configured.None? then None else
    var first := FirstAddr(configured.value);
    if first.addr.NoAddr? then None else (NextIsAddr(configured.value); MaskedTwice(first); Some(NetworkAddr(first)))
  }

  lemma NextIsAddr(c: Cidr)
    requires Valid(c)
    ensures !NextAddr(c).addr.NoAddr? ==> Valid(NextAddr(c))
    ensures !FirstAddr(c).addr.NoAddr? ==> Valid(FirstAddr(c))
  {
    NetworkIsAddr(c);
  }

  /** For a prefix with host bits the search starts at the configured network itself. */
  lemma SearchStartsAtConfigured(c: Cidr)
    requires Valid(c) && c.len < Width(c.addr)
    ensures SearchStart(Some(c)) == Some(NetworkAddr(c))
  {
    hide Pow2;
    Tiling(c);
    TwoAddresses(c);
    MaskedTwice(c);
    SameQuotient(c.addr.bits, NetworkAddr(c).addr.bits + 1, Size(c));
    SameNetwork(c, FirstAddr(c));
  }

  lemma TwoAddresses(c: Cidr)
    requires Valid(c) && c.len < Width(c.addr)
    ensures Size(c) >= 2
  {
  }

  lemma NoSubnetBetween(net: Cidr, m: Cidr)
    requires IsSubnet(net, net) && IsSubnet(net, m)
    requires net.addr.bits <= m.addr.bits < net.addr.bits + Size(net)
    ensures m == net
  {
    hide Pow2;
    SameQuotient(net.addr.bits, m.addr.bits, Size(net));
    SameNetwork(net, m);
  }

  /** A search from `start` has come to `net`. */
  ghost predicate Searched(start: Cidr, ips: InterfaceIps, net: Cidr)
    requires Parsable(ips)
  {
    IsSubnet(start, net) && start.addr.bits <= net.addr.bits && UsedBelow(start, ips, net.addr.bits)
  }

  /** The addresses still ahead of a search. */
  function Ahead(net: Cidr): int {
    Pow2(Width(net.addr)) - if net.addr.NoAddr? then 0 else net.addr.bits
  }

  lemma SearchIsBounded(start: Cidr, ips: InterfaceIps, net: Cidr)
    requires Parsable(ips) && Searched(start, ips, net)
    ensures Ahead(net) >= 0 && Valid(net) && !net.addr.NoAddr?
    ensures !Used(ips, net) ==> LowestFree(start, ips, net) && !Exhausted(start, ips)
  {
  }

  lemma SearchBegins(start: Cidr, ips: InterfaceIps)
    requires Parsable(ips) && IsSubnet(start, start)
    ensures Searched(start, ips, start) && Ahead(start) >= 0
  {
  }

  /** Stepping over a used subnet keeps everything below the next one used. */
  lemma StepOver(start: Cidr, ips: InterfaceIps, net: Cidr)
    requires Parsable(ips) && IsSubnet(start, start)
    requires Searched(start, ips, net) && Used(ips, net)
    ensures var next := NextSubnet(net);
            if next.addr.NoAddr? then Exhausted(start, ips)
            else Searched(start, ips, next) && Ahead(next) < Ahead(net)
  {
    hide Pow2, Used;
    NextSubnetIsAdjacent(net);
    Tiling(net);
    var next := NextSubnet(net);
    forall m | IsSubnet(start, m) && net.addr.bits <= m.addr.bits < net.addr.bits + Size(net)
      ensures Used(ips, m)
    {
      NoSubnetBetween(net, m);
    }
    assert Valid(net) && NetworkAddr(net) == net;
  }

  method Conflicts(ips: InterfaceIps, netV4: Cidr, netV6: Cidr) returns (v4Conflict: bool, v6Conflict: bool)
    requires Parsable(ips)
    ensures v4Conflict == Used(ips, netV4) && v6Conflict == Used(ips, netV6)
  {
    v4Conflict, v6Conflict := false, false;
    for i := 0 to |ips|
      invariant v4Conflict == Used(ips[..i], netV4) && v6Conflict == Used(ips[..i], netV6)
    {
      ghost var before4, before6 := v4Conflict, v6Conflict;
      for j := 0 to |ips[i]|
        invariant v4Conflict == (before4 || exists k :: 0 <= k < j && NetworkAddr(ips[i][k]) == netV4)
        invariant v6Conflict == (before6 || exists k :: 0 <= k < j && NetworkAddr(ips[i][k]) == netV6)
      {
        var usedNetwork := NetworkAddr(ips[i][j]);
        if netV4 == usedNetwork {
          v4Conflict := true;
        }
        if netV6 == usedNetwork {
          v6Conflict := true;
        }
      }
      UsedSnoc(ips, i, netV4);
      UsedSnoc(ips, i, netV6);
    }
    assert ips[..|ips|] == ips;
  }

  lemma UsedSnoc(ips: InterfaceIps, i: nat, net: Cidr)
    requires Parsable(ips) && i < |ips|
    ensures Used(ips[..i + 1], net) <==>
            Used(ips[..i], net) || exists k :: 0 <= k < |ips[i]| && NetworkAddr(ips[i][k]) == net
  {
    hide NetworkAddr;
    var more := ips[..i + 1];
    if k :| 0 <= k < |ips[i]| && NetworkAddr(ips[i][k]) == net {
      assert NetworkAddr(more[i][k]) == net;
    } else if a, b :| 0 <= a < i && 0 <= b < |ips[a]| && NetworkAddr(ips[..i][a][b]) == net {
      assert NetworkAddr(more[a][b]) == net;
    }
  }

  /**
    The search terminates. It returns the first address behind the network address of the lowest free
    subnet of each family (of the start itself for IPv6 when IPv6 is off), or panics exactly when a
    start does not exist or every subnet from a start on is in use.
  */
  method GetFreshInterfaceIpConfig(ips: InterfaceIps, useV6: bool, startV4: Option<Cidr>, startV6: Option<Cidr>)
    returns (r: Fresh)
    requires Parsable(ips)
    requires startV4.Some? ==> Valid(startV4.value)
    requires startV6.Some? ==> Valid(startV6.value)
    ensures r.Panic? <==> || SearchStart(startV4).None? || SearchStart(startV6).None?
                          || Exhausted(SearchStart(startV4).value, ips)
                          || (useV6 && Exhausted(SearchStart(startV6).value, ips))
    ensures r.Fresh? ==> exists netV4, netV6 ::
                           && LowestFree(SearchStart(startV4).value, ips, netV4) && r.ipV4 == NextAddr(netV4)
                           && Valid(netV6) && r.ipV6 == NextAddr(netV6)
                           && if useV6 then LowestFree(SearchStart(startV6).value, ips, netV6)
                              else netV6 == SearchStart(startV6).value
  {
    hide Used, NetworkAddr, NextSubnet, Pow2, Exhausted, NextAddr, IsSubnet, UsedBelow, Searched, Ahead, Valid;
    var s4, s6 := SearchStart(startV4), SearchStart(startV6);
    if s4.None? || s6.None? {
      return Panic;
    }
    var netV4, netV6 := s4.value, s6.value;
    SearchBegins(netV4, ips);
    SearchBegins(netV6, ips);
    while true
      invariant Searched(s4.value, ips, netV4)
      invariant Searched(s6.value, ips, netV6)
      invariant !useV6 ==> netV6 == s6.value
      invariant Ahead(netV4) >= 0 && Ahead(netV6) >= 0
      decreases Ahead(netV4) + Ahead(netV6)
    {
      SearchIsBounded(s4.value, ips, netV4);
      SearchIsBounded(s6.value, ips, netV6);
      var v4Conflict, v6Conflict := Conflicts(ips, netV4, netV6);
      if !v4Conflict && (!useV6 || !v6Conflict) {
        break;
      }
      if v4Conflict {
        StepOver(s4.value, ips, netV4);
        netV4 := NextSubnet(netV4);
      }
      if v6Conflict && useV6 {
        StepOver(s6.value, ips, netV6);
        netV6 := NextSubnet(netV6);
      }
      if netV4.addr.NoAddr? {
        return Panic;
      }
      if useV6 && netV6.addr.NoAddr? {
        return Panic;
      }
      SearchIsBounded(s4.value, ips, netV4);
      SearchIsBounded(s6.value, ips, netV6);
    }
    assert LowestFree(s4.value, ips, netV4);
    return Fresh(NextAddr(netV4), NextAddr(netV6));
  }

  /** The result is in its subnet exactly when the subnet has a second address. */
  lemma ResultInSubnet(net: Cidr)
    requires IsSubnet(net, net)
    ensures !NextAddr(net).addr.NoAddr? && SharesPrefix(net, NextAddr(net).addr) <==> net.len < Width(net.addr)
  {
    hide Pow2;
    Tiling(net);
    SmallPowers();
    if net.len < Width(net.addr) {
      TwoAddresses(net);
    }
    SameQuotient(net.addr.bits, net.addr.bits + 1, Size(net));
  }

  /** When a stored address has the length of the configured prefix, the new subnet is disjoint from its network. */
  lemma FreshIsDisjoint(start: Cidr, ips: InterfaceIps, net: Cidr, i: nat, j: nat, x: Addr)
    requires Parsable(ips) && LowestFree(start, ips, net)
    requires i < |ips| && j < |ips[i]| && Valid(ips[i][j]) && IsAddr(x)
    requires SharesPrefix(net, x) && SharesPrefix(ips[i][j], x)
    ensures ips[i][j].len != start.len
  {
    hide Pow2;
    if ips[i][j].len == start.len {
      EqualOrDisjoint(net, ips[i][j], x);
    }
  }

  /** With another length it can overlap: below a stored 10.0.0.0/16 the subnet 10.0.0.0/24 counts as free. */
  lemma OverlapAcrossLengths()
    ensures var start, stored := Cidr(V4(0x0A00_0000), 24), Cidr(V4(0x0A00_0000), 16);
            Valid(stored) && LowestFree(start, [[stored]], start) && SharesPrefix(stored, start.addr)
  {
    hide Pow2;
    var start, stored := Cidr(V4(0x0A00_0000), 24), Cidr(V4(0x0A00_0000), 16);
    SmallPowers();
    Pow2Add(8, 24);
    Pow2Add(8, 16);
    Pow2Add(8, 8);
    assert Pow2(32) == 0x1_0000_0000 && Size(start) == 256;
    assert NetworkAddr(start) == start;
    assert NetworkAddr([[stored]][0][0]).len == 16;
  }
}

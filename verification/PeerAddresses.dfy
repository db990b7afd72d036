/** The allocator of peer addresses: `GetUsedIpsPerSubnet`, `getFreshPeerIpConfig` and `CreateMultiplePeers`. */
module PeerAddresses {
  import opened Arithmetic
  import opened Cidrs

  // ---------------------------------------------------------------------- grouping

  /** The first subnet containing `ip`, or the zero Cidr, which stands for "no subnet". */
  function GroupOf(subnets: seq<Cidr>, ip: Cidr): Cidr
    requires AllValid(subnets) && Valid(ip)
  {
    if subnets == [] then NO_CIDR
    else if Contains(subnets[0], ip) then subnets[0]
    else GroupOf(subnets[1..], ip)
  }

  function Group(subnets: seq<Cidr>, ips: seq<Cidr>, key: Cidr): seq<Cidr>
    requires AllValid(subnets) && AllValid(ips)
  {
    if ips == [] then []
    else Group(subnets, ips[..|ips| - 1], key) +
         if GroupOf(subnets, ips[|ips| - 1]) == key then [ips[|ips| - 1]] else []
  }

  function Get(groups: map<Cidr, seq<Cidr>>, key: Cidr): seq<Cidr> {
    if key in groups then groups[key] else []
  }

  method FirstContaining(subnets: seq<Cidr>, ip: Cidr) returns (subnet: Cidr)
    requires AllValid(subnets) && Valid(ip)
    ensures subnet == GroupOf(subnets, ip)
  {
    hide Contains;
    subnet := NO_CIDR;
    for i := 0 to |subnets|
      invariant GroupOf(subnets, ip) == GroupOf(subnets[i..], ip)
    {
      if Contains(subnets[i], ip) {
        subnet := subnets[i];
        break;
      }
    }
  }

  lemma GroupSnoc(subnets: seq<Cidr>, ips: seq<Cidr>, ip: Cidr, key: Cidr)
    requires AllValid(subnets) && AllValid(ips) && Valid(ip)
    ensures Group(subnets, ips + [ip], key) ==
            Group(subnets, ips, key) + if GroupOf(subnets, ip) == key then [ip] else []
  {
    assert (ips + [ip])[..|ips + [ip]| - 1] == ips;
  }

  /** One of the two loops of `GetUsedIpsPerSubnet`; `filed` is what was filed before it. */
  method FilePerSubnet(subnets: seq<Cidr>, ips: seq<Cidr>, groups: map<Cidr, seq<Cidr>>, ghost filed: seq<Cidr>)
    returns (result: map<Cidr, seq<Cidr>>)
    requires AllValid(subnets) && AllValid(ips) && AllValid(filed)
    requires forall key :: Get(groups, key) == Group(subnets, filed, key)
    ensures forall key :: Get(result, key) == Group(subnets, filed + ips, key)
  {
    hide GroupOf, Group;
    result := groups;
    assert filed + ips[..0] == filed;
    for i := 0 to |ips|
      invariant forall key :: Get(result, key) == Group(subnets, filed + ips[..i], key)
    {
      var subnet := FirstContaining(subnets, ips[i]);
      ghost var before := result;
      result := result[subnet := Get(result, subnet) + [ips[i]]];
      forall key
        ensures Get(result, key) == Group(subnets, filed + ips[..i + 1], key)
      {
        GroupSnoc(subnets, filed + ips[..i], ips[i], key);
        assert filed + ips[..i] + [ips[i]] == filed + ips[..i + 1];
        assert Get(before, key) == Group(subnets, filed + ips[..i], key);
      }
    }
    assert ips[..|ips|] == ips;
  }

  /** Interface addresses first, then peer addresses, each filed under the first subnet that contains it. */
  method GetUsedIpsPerSubnet(subnets: seq<Cidr>, interfaceIps: seq<Cidr>, peerIps: seq<Cidr>)
    returns (result: map<Cidr, seq<Cidr>>)
    requires AllValid(subnets) && AllValid(interfaceIps) && AllValid(peerIps)
    ensures forall key :: Get(result, key) == Group(subnets, interfaceIps + peerIps, key)
  {
    result := FilePerSubnet(subnets, interfaceIps, map[], []);
    assert [] + interfaceIps == interfaceIps;
    result := FilePerSubnet(subnets, peerIps, result, interfaceIps);
  }

  predicate HasAddr(cidrs: seq<Cidr>, a: Addr) {
    exists i :: 0 <= i < |cidrs| && cidrs[i].addr == a
  }

  lemma {:induction false} GroupMembers(subnets: seq<Cidr>, ips: seq<Cidr>, key: Cidr, a: Addr)
    requires AllValid(subnets) && AllValid(ips)
    ensures HasAddr(Group(subnets, ips, key), a) <==>
            exists i :: 0 <= i < |ips| && ips[i].addr == a && GroupOf(subnets, ips[i]) == key
  {
    hide GroupOf;
    if ips != [] {
      var n := |ips| - 1;
      GroupMembers(subnets, ips[..n], key, a);
      var before, after := Group(subnets, ips[..n], key), Group(subnets, ips, key);
      assert forall i :: 0 <= i < |before| ==> after[i] == before[i];
      assert |after| > |before| ==> after[|before|] == ips[n];
      if i :| 0 <= i < n && ips[i].addr == a && GroupOf(subnets, ips[i]) == key {
        assert ips[..n][i] == ips[i];
      }
    }
  }

  // ---------------------------------------------------------------------- one allocation

  /** Whether an address above the listed one, in the same family, is `a` (nothing is said about the subnet). */
  predicate Above(network: Cidr, a: Addr) {
    IsAddr(a) && SameFamily(network.addr, a) && a.bits > network.addr.bits
  }

  /** The least address above the listed one whose text is not among `used`. */
  ghost predicate LeastFree(network: Cidr, used: seq<Cidr>, a: Addr) {
    && Above(network, a) && !HasAddr(used, a)
    && forall b :: Above(network, b) && b.bits < a.bits ==> HasAddr(used, b)
  }

  ghost predicate NoneFree(network: Cidr, used: seq<Cidr>) {
    forall b :: Above(network, b) ==> HasAddr(used, b)
  }

  datatype Found = Found(ip: Cidr) | SpaceExhausted

  /** The inner search. Its only bound is the end of the address space, where the source panics. */
  method FindFree(network: Cidr, used: seq<Cidr>) returns (r: Found)
    requires Valid(network) && AllValid(used)
    ensures r.SpaceExhausted? <==> NoneFree(network, used)
    ensures r.Found? ==> IsAddr(r.ip.addr) && r.ip == HostAddr(r.ip) && LeastFree(network, used, r.ip.addr)
  {
    hide Pow2;
    var ip := NextAddr(network);
    if ip.addr.NoAddr? {
      return SpaceExhausted;
    }
    while true
      invariant Valid(ip) && Above(network, ip.addr) && ip.len == network.len
      invariant forall b :: Above(network, b) && b.bits < ip.addr.bits ==> HasAddr(used, b)
      decreases Pow2(Width(ip.addr)) - ip.addr.bits
    {
      var ipConflict := exists i :: 0 <= i < |used| && used[i].addr == ip.addr;
      if !ipConflict {
        break;
      }
      assert HasAddr(used, ip.addr);
      forall b | Above(network, b) && b.bits < ip.addr.bits + 1
        ensures HasAddr(used, b)
      {
        assert b.bits == ip.addr.bits ==> b == ip.addr;
      }
      ip := NextAddr(ip);
      if ip.addr.NoAddr? {
        return SpaceExhausted;
      }
    }
    assert !HasAddr(used, ip.addr);
    return Found(HostAddr(ip));
  }

  datatype Networks = Unset | Unparsable | Networks(cidrs: seq<Cidr>)

  datatype IpConfig = Ips(ips: seq<Cidr>) | ParseError | Panic

  /** What one call assigns in one of the networks when the addresses `stored` are in the database. */
  ghost predicate AssignedIn(networks: seq<Cidr>, stored: seq<Cidr>, network: Cidr, ip: Cidr)
    requires AllValid(networks) && AllValid(stored)
  {
    IsAddr(ip.addr) && ip == HostAddr(ip) && LeastFree(network, Group(networks, stored, network), ip.addr)
  }

  ghost predicate Assigned(networks: seq<Cidr>, stored: seq<Cidr>, ips: seq<Cidr>)
    requires AllValid(networks) && AllValid(stored)
  {
    |ips| == |networks| && forall i :: 0 <= i < |ips| ==> AssignedIn(networks, stored, networks[i], ips[i])
  }

  /** The outer loop, over the default networks of the interface. */
  method AssignInEach(networks: seq<Cidr>, existingIps: map<Cidr, seq<Cidr>>, ghost stored: seq<Cidr>)
    returns (r: IpConfig)
    requires AllValid(networks) && AllValid(stored)
    requires forall key :: Get(existingIps, key) == Group(networks, stored, key)
    ensures !r.ParseError? && (r.Ips? ==> Assigned(networks, stored, r.ips))
    ensures r.Panic? <==> exists i :: 0 <= i < |networks| && NoneFree(networks[i], Group(networks, stored, networks[i]))
  {
    hide Group, LeastFree, NoneFree, Get, Valid;
    var ips: seq<Cidr> := [];
    for i := 0 to |networks|
      invariant |ips| == i && forall k :: 0 <= k < i ==> AssignedIn(networks, stored, networks[k], ips[k])
      invariant forall k :: 0 <= k < i ==> !NoneFree(networks[k], Group(networks, stored, networks[k]))
    {
      GroupValid(networks, stored, networks[i]);
      var found := FindFree(networks[i], Get(existingIps, networks[i]));
      if found.SpaceExhausted? {
        return Panic;
      }
      ips := ips + [found.ip];
    }
    return Ips(ips);
  }

  method GetFreshPeerIpConfig(networks: Networks, interfaceIps: seq<Cidr>, peerIps: seq<Cidr>) returns (r: IpConfig)
    requires networks.Networks? ==> AllValid(networks.cidrs)
    requires AllValid(interfaceIps) && AllValid(peerIps)
    ensures r.ParseError? <==> networks.Unparsable?
    ensures networks.Unset? ==> r == Ips([])
    ensures networks.Networks? && r.Ips? ==> Assigned(networks.cidrs, interfaceIps + peerIps, r.ips)
    ensures networks.Networks? ==>
              (r.Panic? <==> exists i :: 0 <= i < |networks.cidrs| &&
                               NoneFree(networks.cidrs[i], Group(networks.cidrs, interfaceIps + peerIps, networks.cidrs[i])))
  {
    hide Group, NoneFree, Get, Assigned, Valid;
    if networks.Unset? {
      return Ips([]);
    }
    if networks.Unparsable? {
      return ParseError;
    }
    var existingIps := GetUsedIpsPerSubnet(networks.cidrs, interfaceIps, peerIps);
    r := AssignInEach(networks.cidrs, existingIps, interfaceIps + peerIps);
  }

  lemma {:induction false} GroupValid(subnets: seq<Cidr>, ips: seq<Cidr>, key: Cidr)
    requires AllValid(subnets) && AllValid(ips)
    ensures AllValid(Group(subnets, ips, key))
  {
    hide GroupOf;
    if ips != [] {
      GroupValid(subnets, ips[..|ips| - 1], key);
    }
  }

  // ---------------------------------------------------------------------- staying inside the subnet

  /** The least IPv4-mapped address. */
  function MappedZero(): Addr {
    V6(0xFFFF * Pow2(32))
  }

  /** The prefix does not mix IPv4-mapped and other addresses. */
  predicate Uniform(c: Cidr)
    requires Valid(c)
  {
    c.addr.V4? || c.len >= 96 || !SharesPrefix(c, MappedZero())
  }

  /** Addresses sharing 96 bits or more are IPv4-mapped together. */
  lemma LongPrefixMapped(c: Cidr, x: Addr)
    requires Valid(c) && c.addr.V6? && c.len >= 96 && SharesPrefix(c, x)
    ensures c.addr.bits / Pow2(32) == x.bits / Pow2(32)
  {
    hide Pow2;
    var n := Pow2(c.len - 96);
    Pow2Add(128 - c.len, c.len - 96);
    assert Pow2(32) == Size(c) * n;
    DivDiv(c.addr.bits, Size(c), n);
    DivDiv(x.bits, Size(c), n);
  }

  /** A prefix of at most 96 bits holds all IPv4-mapped addresses or none. */
  lemma ShortPrefixMapped(c: Cidr, x: Addr)
    requires Valid(c) && c.addr.V6? && c.len <= 96 && IsMapped(x)
    ensures SharesPrefix(c, x) <==> SharesPrefix(c, MappedZero())
  {
    hide Pow2;
    var n := Pow2(96 - c.len);
    Pow2Add(32, 96 - c.len);
    MulDiv(0xFFFF, Pow2(32));
    DivDiv(MappedZero().bits, Pow2(32), n);
    DivDiv(x.bits, Pow2(32), n);
  }

  lemma MappedQuotient(v: nat, len: nat)
    requires 96 <= len <= 128 && v / Pow2(32) == 0xFFFF
    ensures v / Pow2(128 - len) == 0xFFFF * Pow2(len - 96) + v % Pow2(32) / Pow2(128 - len)
  {
    hide Pow2;
    var d, n, low := Pow2(128 - len), Pow2(len - 96), v % Pow2(32);
    Pow2Add(len - 96, 128 - len);
    MulAssociative(0xFFFF, n, d);
    MulDistributes(0xFFFF * n, low / d, d);
    DivModUnique(v, d, 0xFFFF * n + low / d, low % d);
  }

  lemma ContainsMapped(c: Cidr, x: Cidr)
    requires Valid(c) && Valid(x) && IsMapped(c.addr) && IsMapped(x.addr) && c.len >= 96
    ensures Contains(c, x) <==> SharesPrefix(c, x.addr)
  {
    hide Pow2;
    MaskedTwice(c);
    LongPrefixMapped(c, NetworkAddr(c).addr);
    MappedQuotient(NetworkAddr(c).addr.bits, c.len);
    MappedQuotient(c.addr.bits, c.len);
    MappedQuotient(x.addr.bits, c.len);
  }

  /** On a uniform prefix, containment within the family is sharing the prefix. */
  lemma ContainsUniform(c: Cidr, x: Cidr)
    requires Valid(c) && Valid(x) && SameFamily(c.addr, x.addr) && Uniform(c)
    ensures Contains(c, x) <==> SharesPrefix(c, x.addr)
  {
    hide Pow2, RoundDown;
    PrefixIsRange(c, x.addr);
    if c.addr.V4? {
      ContainsUnmapped(c, x);
    } else if c.len < 96 {
      if IsMapped(c.addr) {
        ShortPrefixMapped(c, c.addr);
      } else if IsMapped(x.addr) {
        ShortPrefixMapped(c, x.addr);
        ContainsUnmapped(c, x);
      } else {
        ContainsUnmapped(c, x);
      }
    } else {
      if SharesPrefix(c, x.addr) {
        LongPrefixMapped(c, x.addr);
      }
      if !IsMapped(c.addr) {
        ContainsUnmapped(c, x);
      } else if IsMapped(x.addr) {
        ContainsMapped(c, x);
      } else {
        ContainsOnlyMapped(c, x);
      }
    }
  }

  lemma ContainsOnlyMapped(c: Cidr, x: Cidr)
    requires Valid(c) && Valid(x) && IsMapped(c.addr) && c.len >= 96 && x.addr.V6? && !IsMapped(x.addr)
    ensures !Contains(c, x)
  {
    hide Pow2;
    MaskedTwice(c);
    LongPrefixMapped(c, NetworkAddr(c).addr);
  }

  /** On a prefix that mixes them the IPv4-mapped addresses are not contained. */
  lemma ContainsIff(c: Cidr, x: Cidr)
    requires Valid(c) && Valid(x) && SameFamily(c.addr, x.addr)
    ensures Contains(c, x) <==> SharesPrefix(c, x.addr) && (Uniform(c) || !IsMapped(x.addr))
  {
    hide Pow2, RoundDown;
    if Uniform(c) {
      ContainsUniform(c, x);
    } else {
      MaskedTwice(c);
    }
  }

  /** None of the `count` addresses above the listed one is IPv4-mapped, if the prefix mixes them with others. */
  predicate ClearOfMapped(c: Cidr, count: nat)
    requires Valid(c)
  {
    || Uniform(c)
    || c.addr.bits + count < MappedZero().bits
    || c.addr.bits + 1 >= MappedZero().bits + Pow2(32)
  }

  lemma ClearIsUnmapped(c: Cidr, count: nat, a: Addr)
    requires Valid(c) && ClearOfMapped(c, count) && Above(c, a) && a.bits <= c.addr.bits + count
    ensures Uniform(c) || !IsMapped(a)
  {
    hide Pow2, Uniform;
    if IsMapped(a) {
      assert a.bits == 0xFFFF * Pow2(32) + a.bits % Pow2(32);
    }
  }

  /** The least free address is at most as far above the listed one as there are used addresses. */
  lemma {:induction false} UsedRun(network: Cidr, used: seq<Cidr>, n: nat)
    requires Valid(network)
    requires forall b :: Above(network, b) && b.bits <= network.addr.bits + n ==> HasAddr(used, b)
    requires network.addr.bits + n < Pow2(Width(network.addr))
    ensures n <= |used|
  {
    hide Pow2;
    if n > 0 {
      var last := WithBits(network.addr, network.addr.bits + n);
      assert Above(network, last);
      var i :| 0 <= i < |used| && used[i].addr == last;
      var rest := used[..i] + used[i + 1..];
      forall b | Above(network, b) && b.bits <= network.addr.bits + n - 1
        ensures HasAddr(rest, b)
      {
        var j :| 0 <= j < |used| && used[j].addr == b;
        assert j != i;
        assert rest[if j < i then j else j - 1] == used[j];
      }
      UsedRun(network, rest, n - 1);
    }
  }

  lemma LeastFreeIsNear(network: Cidr, used: seq<Cidr>, a: Addr)
    requires Valid(network) && LeastFree(network, used, a)
    ensures a.bits <= network.addr.bits + |used| + 1
  {
    hide Pow2, HasAddr;
    UsedRun(network, used, a.bits - 1 - network.addr.bits);
  }

  /** Some address of the subnet above the listed one is not filed under the subnet. */
  ghost predicate HasFree(network: Cidr, used: seq<Cidr>)
    requires Valid(network)
  {
    exists b :: Above(network, b) && SharesPrefix(network, b) && !HasAddr(used, b)
  }

  /** The assigned address lies in its subnet exactly when the subnet has a free address above the listed one. */
  lemma AssignedInsideIff(network: Cidr, used: seq<Cidr>, a: Addr)
    requires Valid(network) && LeastFree(network, used, a)
    ensures SharesPrefix(network, a) <==> HasFree(network, used)
  {
    hide Pow2, HasAddr;
    if b :| Above(network, b) && SharesPrefix(network, b) && !HasAddr(used, b) {
      assert a.bits <= b.bits;
      SameQuotient(network.addr.bits, b.bits, Size(network));
      SameQuotient(network.addr.bits, a.bits, Size(network));
    }
  }

  // ---------------------------------------------------------------------- freshness

  /** No address is contained in two of the networks. */
  ghost predicate PairwiseDisjoint(networks: seq<Cidr>)
    requires AllValid(networks)
  {
    forall i, j, x :: 0 <= i < j < |networks| && Valid(x) && Contains(networks[i], x) ==> !Contains(networks[j], x)
  }

  lemma {:induction false} GroupOfContaining(networks: seq<Cidr>, i: nat, x: Cidr)
    requires AllValid(networks) && Valid(x) && i < |networks| && Contains(networks[i], x)
    requires forall j :: 0 <= j < i ==> !Contains(networks[j], x)
    ensures GroupOf(networks, x) == networks[i]
  {
    hide Contains;
    if i > 0 {
      GroupOfContaining(networks[1..], i - 1, x);
    }
  }

  /** Two stored forms of an address are contained in the same prefixes. */
  lemma ContainsSameAddr(c: Cidr, x: Cidr, y: Cidr)
    requires Valid(c) && Valid(x) && Valid(y) && x.addr == y.addr
    ensures Contains(c, x) == Contains(c, y)
  {
  }

  /** With disjoint networks, an address assigned inside its subnet is stored nowhere, in no interface and no peer. */
  lemma AssignedIsFresh(networks: seq<Cidr>, stored: seq<Cidr>, i: nat, ip: Cidr, k: nat)
    requires AllValid(networks) && AllValid(stored) && PairwiseDisjoint(networks)
    requires i < |networks| && k < |stored| && Valid(ip)
    requires AssignedIn(networks, stored, networks[i], ip) && Contains(networks[i], ip)
    ensures stored[k].addr != ip.addr
  {
    hide Contains, GroupOf, Pow2;
    if stored[k].addr == ip.addr {
      ContainsSameAddr(networks[i], ip, stored[k]);
      assert forall j :: 0 <= j < i ==> !Contains(networks[j], stored[k]);
      GroupOfContaining(networks, i, stored[k]);
      GroupMembers(networks, stored, networks[i], ip.addr);
      assert false;
    }
  }

  // ---------------------------------------------------------------------- a run of CreateMultiplePeers

  function Flatten(given: seq<seq<Cidr>>): seq<Cidr> {
    if given == [] then [] else Flatten(given[..|given| - 1]) + given[|given| - 1]
  }

  lemma {:induction false} FlattenHas(given: seq<seq<Cidr>>, k: nat, i: nat)
    requires k < |given| && i < |given[k]|
    ensures HasAddr(Flatten(given), given[k][i].addr)
  {
    var n := |given| - 1;
    var before := Flatten(given[..n]);
    if k == n {
      assert Flatten(given)[|before| + i] == given[k][i];
    } else {
      FlattenHas(given[..n], k, i);
      var j :| 0 <= j < |before| && before[j].addr == given[..n][k][i].addr;
      assert Flatten(given)[j] == before[j];
    }
  }

  lemma {:induction false} FlattenValid(given: seq<seq<Cidr>>)
    requires forall k :: 0 <= k < |given| ==> AllValid(given[k])
    ensures AllValid(Flatten(given))
  {
    hide Valid;
    if given != [] {
      FlattenValid(given[..|given| - 1]);
    }
  }

  /** The addresses given to the peers of a run, each chosen with the earlier ones already stored. */
  ghost predicate Run(networks: seq<Cidr>, stored: seq<Cidr>, given: seq<seq<Cidr>>)
    requires AllValid(networks) && AllValid(stored)
  {
    && (forall k :: 0 <= k < |given| ==> AllValid(given[k]))
    && forall k :: 0 <= k < |given| ==>
         AllValid(stored + Flatten(given[..k])) && Assigned(networks, stored + Flatten(given[..k]), given[k])
  }

  datatype RunResult = Created | ConfigError(error: IpConfig) | SaveError

  /** The tables the allocator reads and the peer table it adds to. */
  class PeerDatabase {
    /** Storing a peer never fails. */
    const reliable: bool
    var interfaceIps: seq<Cidr>
    var peerIps: seq<Cidr>

    constructor (reliable: bool, interfaceIps: seq<Cidr>, peerIps: seq<Cidr>)
      ensures this.reliable == reliable && this.interfaceIps == interfaceIps && this.peerIps == peerIps
    {
      this.reliable, this.interfaceIps, this.peerIps := reliable, interfaceIps, peerIps;
    }

    /**
      One peer for each of `count` user identifiers. A peer is stored before the next one is prepared;
      storing may fail, which ends the run and keeps the peers stored so far.
    */
    method CreateMultiplePeers(networks: seq<Cidr>, count: nat) returns (given: seq<seq<Cidr>>, r: RunResult)
      requires AllValid(networks) && AllValid(interfaceIps) && AllValid(peerIps)
      modifies this`peerIps
      ensures peerIps == old(peerIps) + Flatten(given)
      ensures Run(networks, interfaceIps + old(peerIps), given)
      ensures |given| <= count && (r.Created? ==> |given| == count)
      ensures reliable ==> !r.SaveError?
      ensures AllValid(peerIps)
      ensures r.ConfigError? ==>
                exists network :: network in networks &&
                                  NoneFree(network, Group(networks, interfaceIps + peerIps, network))
    {
      hide Assigned, Valid;
      given := [];
      ghost var stored := interfaceIps + peerIps;
      for k := 0 to count
        invariant |given| == k && peerIps == old(peerIps) + Flatten(given)
        invariant AllValid(peerIps) && Run(networks, stored, given)
      {
        assert interfaceIps + peerIps == stored + Flatten(given);
        var config := GetFreshPeerIpConfig(Networks(networks), interfaceIps, peerIps);
        if !config.Ips? {
          return given, ConfigError(config);
        }
        AssignedValid(networks, interfaceIps + peerIps, config.ips);
        var saved: bool := *;
        if !saved && !reliable {
          return given, SaveError;
        }
        RunSnoc(networks, stored, given, config.ips);
        assert (given + [config.ips])[..k] == given;
        peerIps := peerIps + config.ips;
        given := given + [config.ips];
      }
      return given, Created;
    }
  }

  lemma AssignedValid(networks: seq<Cidr>, stored: seq<Cidr>, ips: seq<Cidr>)
    requires AllValid(networks) && AllValid(stored) && Assigned(networks, stored, ips)
    ensures AllValid(ips)
  {
    hide Pow2, LeastFree;
    forall i | 0 <= i < |ips|
      ensures Valid(ips[i])
    {
      assert AssignedIn(networks, stored, networks[i], ips[i]);
    }
  }

  lemma RunSnoc(networks: seq<Cidr>, stored: seq<Cidr>, given: seq<seq<Cidr>>, ips: seq<Cidr>)
    requires AllValid(networks) && AllValid(stored) && AllValid(ips) && Run(networks, stored, given)
    requires AllValid(stored + Flatten(given)) && Assigned(networks, stored + Flatten(given), ips)
    ensures Run(networks, stored, given + [ips])
  {
    hide Assigned, Valid;
    var more := given + [ips];
    forall k | 0 <= k < |more|
      ensures AllValid(stored + Flatten(more[..k])) && Assigned(networks, stored + Flatten(more[..k]), more[k])
    {
      if k < |given| {
        assert more[..k] == given[..k];
      } else {
        assert more[..k] == given;
      }
    }
  }

  lemma AssignedAbove(network: Cidr, used: seq<Cidr>, a: Addr)
    requires LeastFree(network, used, a)
    ensures Above(network, a)
  {
  }

  /** Each subnet still had a free address above its listed one whenever a peer of the run was prepared. */
  ghost predicate RoomThroughout(networks: seq<Cidr>, stored: seq<Cidr>, given: seq<seq<Cidr>>)
    requires AllValid(networks) && AllValid(stored) && Run(networks, stored, given)
  {
    forall k, i :: 0 <= k < |given| && 0 <= i < |networks| ==>
      HasFree(networks[i], Group(networks, stored + Flatten(given[..k]), networks[i]))
  }

  /** Every address of a run lies in its subnet and is filed there. */
  lemma {:induction false} RunInside(
      networks: seq<Cidr>, stored: seq<Cidr>, given: seq<seq<Cidr>>, reach: nat, k: nat, i: nat)
    requires AllValid(networks) && AllValid(stored) && Run(networks, stored, given) && PairwiseDisjoint(networks)
    requires forall n :: n in networks ==> ClearOfMapped(n, reach)
    requires RoomThroughout(networks, stored, given)
    requires k < |given| && i < |networks| && |stored| + k < reach
    ensures |given[k]| == |networks|
    ensures LeastFree(networks[i], Group(networks, stored + Flatten(given[..k]), networks[i]), given[k][i].addr)
    ensures SharesPrefix(networks[i], given[k][i].addr) && Contains(networks[i], given[k][i])
    decreases k
  {
    hide Group, HasFree, LeastFree, Uniform, SharesPrefix, Contains, Pow2, ClearOfMapped, IsMapped, Above;
    var used := Group(networks, stored + Flatten(given[..k]), networks[i]);
    var ip := given[k][i];
    assert AssignedIn(networks, stored + Flatten(given[..k]), networks[i], ip);
    assert Valid(ip);
    assert networks[i] in networks;
    forall k' | 0 <= k' < k
      ensures FiledOwn(networks, given[k'])
    {
      RunLengths(networks, stored, given, k');
      forall j | 0 <= j < |networks|
        ensures Contains(networks[j], given[k'][j])
      {
        RunInside(networks, stored, given, reach, k', j);
      }
    }
    GroupBound(networks, stored, given, k, i);
    InsideIsContained(networks[i], used, reach, ip);
  }

  lemma {:induction false} GroupConcat(subnets: seq<Cidr>, a: seq<Cidr>, b: seq<Cidr>, key: Cidr)
    requires AllValid(subnets) && AllValid(a) && AllValid(b)
    ensures AllValid(a + b)
    ensures Group(subnets, a + b, key) == Group(subnets, a, key) + Group(subnets, b, key)
  {
    hide GroupOf, Valid;
    if b == [] {
      assert a + b == a;
    } else {
      GroupConcat(subnets, a, b[..|b| - 1], key);
      assert (a + b)[..|a + b| - 1] == a + b[..|b| - 1];
    }
  }

  lemma {:induction false} GroupOfContains(subnets: seq<Cidr>, ip: Cidr)
    requires AllValid(subnets) && Valid(ip)
    ensures Valid(GroupOf(subnets, ip)) ==> Contains(GroupOf(subnets, ip), ip)
  {
    hide Contains;
    if subnets != [] {
      GroupOfContains(subnets[1..], ip);
    }
  }

  /** The addresses of a peer are contained each in its own network. */
  predicate FiledOwn(networks: seq<Cidr>, ips: seq<Cidr>)
    requires AllValid(networks)
  {
    && AllValid(ips) && |ips| == |networks|
    && forall j :: 0 <= j < |ips| ==> Contains(networks[j], ips[j])
  }

  /** Of the addresses of one peer only its own is filed under a network. */
  lemma {:induction false} OneFiled(networks: seq<Cidr>, ips: seq<Cidr>, i: nat, n: nat)
    requires AllValid(networks) && PairwiseDisjoint(networks) && FiledOwn(networks, ips)
    requires i < |networks| && n <= |ips|
    ensures |Group(networks, ips[..n], networks[i])| <= if n > i then 1 else 0
  {
    hide Contains, GroupOf, Valid;
    if n > 0 {
      OneFiled(networks, ips, i, n - 1);
      assert ips[..n][..n - 1] == ips[..n - 1];
      GroupOfContains(networks, ips[n - 1]);
      assert Valid(networks[i]);
    }
  }

  /** What is filed under a network before a peer is prepared: at most what is stored, and one address a peer. */
  lemma {:induction false} GroupBound(
      networks: seq<Cidr>, stored: seq<Cidr>, given: seq<seq<Cidr>>, k: nat, i: nat)
    requires AllValid(networks) && AllValid(stored) && PairwiseDisjoint(networks)
    requires k <= |given| && i < |networks| && forall k' :: 0 <= k' < |given| ==> AllValid(given[k'])
    requires forall k' :: 0 <= k' < k ==> FiledOwn(networks, given[k'])
    ensures AllValid(stored + Flatten(given[..k]))
    ensures |Group(networks, stored + Flatten(given[..k]), networks[i])| <= |stored| + k
  {
    hide Contains, GroupOf, Valid, PairwiseDisjoint, Group;
    FlattenValid(given[..k]);
    if k == 0 {
      assert stored + Flatten(given[..0]) == stored;
      GroupIsShorter(networks, stored, networks[i]);
    } else {
      GroupBound(networks, stored, given, k - 1, i);
      var before, ips := stored + Flatten(given[..k - 1]), given[k - 1];
      assert given[..k][..k - 1] == given[..k - 1];
      assert stored + Flatten(given[..k]) == before + ips;
      GroupConcat(networks, before, ips, networks[i]);
      OneFiled(networks, ips, i, |ips|);
      assert ips[..|ips|] == ips;
    }
  }

  lemma InsideIsContained(network: Cidr, used: seq<Cidr>, count: nat, ip: Cidr)
    requires Valid(network) && Valid(ip) && LeastFree(network, used, ip.addr) && HasFree(network, used)
    requires ClearOfMapped(network, count) && |used| < count
    ensures SharesPrefix(network, ip.addr) && Contains(network, ip)
  {
    hide HasFree, LeastFree, Uniform, SharesPrefix, Contains, Pow2, ClearOfMapped, IsMapped;
    AssignedInsideIff(network, used, ip.addr);
    AssignedAbove(network, used, ip.addr);
    LeastFreeIsNear(network, used, ip.addr);
    ClearIsUnmapped(network, count, ip.addr);
    ContainsIff(network, ip);
  }

  /**
    A run on disjoint networks with room throughout, clear of IPv4-mapped addresses where networks mix them:
    every address is the least free one of its subnet, lies in it, differs from every address stored before the
    run and from every other address of the run.
  */
  lemma RunAssignsFreshAddresses(networks: seq<Cidr>, stored: seq<Cidr>, given: seq<seq<Cidr>>, k: nat, i: nat)
    requires AllValid(networks) && AllValid(stored) && Run(networks, stored, given)
    requires PairwiseDisjoint(networks)
    requires forall n :: n in networks ==> ClearOfMapped(n, |stored| + |given|)
    requires RoomThroughout(networks, stored, given)
    requires k < |given| && i < |networks|
    ensures |given[k]| == |networks|
    ensures LeastFree(networks[i], Group(networks, stored + Flatten(given[..k]), networks[i]), given[k][i].addr)
    ensures SharesPrefix(networks[i], given[k][i].addr)
    ensures !HasAddr(stored, given[k][i].addr)
    ensures forall k', i' :: 0 <= k' < |given| && 0 <= i' < |given[k']| && (k', i') != (k, i) ==>
              given[k'][i'].addr != given[k][i].addr
  {
    hide Group, Assigned, Contains, Pow2, RoomThroughout, SharesPrefix, ClearOfMapped;
    RunInside(networks, stored, given, |stored| + |given|, k, i);
    NotStoredBefore(networks, stored, given, k, i);
    forall k', i' | 0 <= k' < |given| && 0 <= i' < |given[k']| && (k', i') != (k, i)
      ensures given[k'][i'].addr != given[k][i].addr
    {
      RunLengths(networks, stored, given, k');
      RunInside(networks, stored, given, |stored| + |given|, k', i');
      NotStoredBefore(networks, stored, given, k', i');
      if k' == k {
        DisjointNetworks(networks, i, i', given[k][i], given[k'][i']);
      }
    }
  }

  lemma {:induction false} GroupIsShorter(subnets: seq<Cidr>, ips: seq<Cidr>, key: Cidr)
    requires AllValid(subnets) && AllValid(ips)
    ensures |Group(subnets, ips, key)| <= |ips|
  {
    hide GroupOf;
    if ips != [] {
      GroupIsShorter(subnets, ips[..|ips| - 1], key);
    }
  }

  /** Elsewhere it fails: above an IPv4-mapped listed address in a shorter prefix every peer gets the same address. */
  lemma MixedNetworkRepeats() returns (network: Cidr, ip: Cidr)
    ensures Valid(network) && HasFree(network, []) && AllValid([network])
    ensures Run([network], [], [[ip], [ip]])
  {
    PowerValues();
    hide Pow2, RoundDown, Contains, Group, GroupOf, Flatten;
    network := Cidr(MappedZero(), 64);
    ip := Cidr(V6(MappedZero().bits + 1), 128);
    assert Valid(network) && Valid(ip) && ip == HostAddr(ip);
    assert IsMapped(ip.addr) && SharesPrefix(network, MappedZero()) && SharesPrefix(network, ip.addr);
    ContainsIff(network, ip);
    OnlyInOther(network, ip);
    assert LeastFree(network, [], ip.addr) && !HasAddr([], ip.addr);
    assert AssignedIn([network], [], network, ip) && AssignedIn([network], [ip], network, ip);
    assert [[ip], [ip]][..0] == [] && [[ip], [ip]][..1] == [[ip]];
    var none: seq<Cidr> := [];
    assert none + [ip] == [ip] && none + none == none;
  }

  /** An address that the only network does not contain is filed nowhere. */
  lemma OnlyInOther(network: Cidr, ip: Cidr)
    requires Valid(network) && Valid(ip) && !Contains(network, ip)
    ensures AllValid([network]) && AllValid([ip]) && AllValid([])
    ensures Group([network], [], network) == [] && Group([network], [ip], network) == []
    ensures Flatten([]) == [] && Flatten([[ip]]) == [ip]
  {
    hide Contains, Valid;
    assert [network][1..] == [] && [ip][..0] == [] && [[ip]][..0] == [];
    assert GroupOf([network], ip) == NO_CIDR;
    ValidIsAddr(network);
  }

  lemma ValidIsAddr(c: Cidr)
    requires Valid(c)
    ensures c != NO_CIDR
  {
  }

  lemma PowerValues()
    ensures Pow2(32) == 0x1_0000_0000
    ensures Pow2(64) == 0x1_0000_0000_0000_0000
    ensures Pow2(128) == 0x1_0000_0000_0000_0000_0000_0000_0000_0000
    ensures Pow2(0) == 1
  {
    SmallPowers();
    Pow2Add(8, 8);
    Pow2Add(16, 16);
    Pow2Add(32, 32);
    Pow2Add(64, 64);
  }

  lemma RunLengths(networks: seq<Cidr>, stored: seq<Cidr>, given: seq<seq<Cidr>>, k: nat)
    requires AllValid(networks) && AllValid(stored) && Run(networks, stored, given) && k < |given|
    ensures |given[k]| == |networks|
  {
    assert Assigned(networks, stored + Flatten(given[..k]), given[k]);
  }

  lemma DisjointNetworks(networks: seq<Cidr>, i: nat, j: nat, x: Cidr, y: Cidr)
    requires AllValid(networks) && PairwiseDisjoint(networks) && Valid(x) && Valid(y)
    requires i < |networks| && j < |networks| && i != j && Contains(networks[i], x) && Contains(networks[j], y)
    ensures x.addr != y.addr
  {
    hide Contains, Valid;
    if x.addr == y.addr {
      ContainsSameAddr(networks[j], x, y);
    }
  }

  /** An address assigned inside its subnet was neither stored before the run nor assigned earlier in it. */
  lemma NotStoredBefore(networks: seq<Cidr>, stored: seq<Cidr>, given: seq<seq<Cidr>>, k: nat, i: nat)
    requires AllValid(networks) && AllValid(stored) && Run(networks, stored, given) && PairwiseDisjoint(networks)
    requires k < |given| && i < |networks| && |given[k]| == |networks|
    requires Contains(networks[i], given[k][i])
    ensures !HasAddr(stored, given[k][i].addr)
    ensures forall k', i' :: 0 <= k' < k && 0 <= i' < |given[k']| ==> given[k'][i'].addr != given[k][i].addr
  {
    hide Contains, Valid, PairwiseDisjoint, Group;
    var before := stored + Flatten(given[..k]);
    var ip := given[k][i];
    assert AssignedIn(networks, before, networks[i], ip);
    forall j | 0 <= j < |before|
      ensures before[j].addr != ip.addr
    {
      AssignedIsFresh(networks, before, i, ip, j);
    }
    assert forall j :: 0 <= j < |stored| ==> before[j] == stored[j];
    forall k', i' | 0 <= k' < k && 0 <= i' < |given[k']|
      ensures given[k'][i'].addr != ip.addr
    {
      FlattenHas(given[..k], k', i');
      var j :| 0 <= j < |Flatten(given[..k])| && Flatten(given[..k])[j].addr == given[..k][k'][i'].addr;
      assert before[|stored| + j].addr == given[k'][i'].addr;
    }
  }
}

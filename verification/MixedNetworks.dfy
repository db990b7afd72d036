/**
  Networks that mix IPv4-mapped addresses with others: containment leaves the mapped ones out, so that the
  allocator of peer addresses does not see which of them are in use.
*/
module MixedNetworks {
  import opened Arithmetic
  import opened Cidrs
  import opened PeerAddresses

  const MAPPED_COUNT := 0x1_0000_0000

  /** Every address given is stored nowhere and given once. */
  predicate AllFresh(stored: seq<Cidr>, given: seq<seq<Cidr>>) {
    && (forall k, i :: 0 <= k < |given| && 0 <= i < |given[k]| ==> !HasAddr(stored, given[k][i].addr))
    && (forall k, i, k', i' ::
         0 <= k < |given| && 0 <= i < |given[k]| && 0 <= k' < |given| && 0 <= i' < |given[k']| && (k, i) != (k', i') ==>
           given[k][i].addr != given[k'][i'].addr)
  }

  /** How far above the listed address the first IPv4-mapped one is, if there is one above it. */
  function FirstMapped(c: Cidr): (o: nat)
    ensures o >= 1
  {
    if c.addr.NoAddr? || c.addr.bits >= MappedZero().bits then 1 else MappedZero().bits - c.addr.bits
  }

  /** Stored addresses and peers together do not reach beyond the first IPv4-mapped address. */
  predicate OutOfReach(c: Cidr, stored: nat, peers: nat)
    requires Valid(c)
  {
    || Uniform(c)
    || c.addr.bits + 1 >= MappedZero().bits + MAPPED_COUNT
    || stored + peers <= FirstMapped(c)
  }

  /** A run of so many peers on one network, with so many addresses stored, and room throughout. */
  ghost predicate RunOf(c: Cidr, stored: seq<Cidr>, given: seq<seq<Cidr>>, s: nat, m: nat)
    requires Valid(c)
  {
    && AllValid(stored) && |stored| == s && |given| == m
    && Run([c], stored, given) && RoomThroughout([c], stored, given)
  }

  // ---------------------------------------------------------------------- out of reach all is well

  lemma {:induction false} FlattenOnes(given: seq<seq<Cidr>>, k: nat)
    requires k <= |given| && forall j :: 0 <= j < |given| ==> |given[j]| == 1
    ensures |Flatten(given[..k])| == k
  {
    if k > 0 {
      FlattenOnes(given, k - 1);
      assert given[..k][..k - 1] == given[..k - 1];
    }
  }

  lemma {:induction false} GroupMissesOne(subnets: seq<Cidr>, ips: seq<Cidr>, key: Cidr, e: nat)
    requires AllValid(subnets) && AllValid(ips) && e < |ips| && GroupOf(subnets, ips[e]) != key
    ensures |Group(subnets, ips, key)| < |ips|
  {
    hide GroupOf, Valid;
    var n := |ips| - 1;
    if e < n {
      GroupMissesOne(subnets, ips[..n], key, e);
    } else {
      GroupIsShorter(subnets, ips[..n], key);
    }
  }

  lemma OnlyNetwork(c: Cidr, ip: Cidr)
    requires Valid(c) && Valid(ip)
    ensures AllValid([c]) && PairwiseDisjoint([c])
    ensures GroupOf([c], ip) == c <==> Contains(c, ip)
  {
    hide Contains;
    assert [c][1..] == [];
  }

  /** The address of a peer is not stored before it is given. */
  lemma FreshOne(c: Cidr, stored: seq<Cidr>, given: seq<seq<Cidr>>, k: nat)
    requires Valid(c) && RunOf(c, stored, given, |stored|, |given|) && OutOfReach(c, |stored|, |given|)
    requires k < |given|
    ensures |given[k]| == 1 && !HasAddr(stored + Flatten(given[..k]), given[k][0].addr)
  {
    hide Contains, Group, GroupOf, Pow2, HasFree, LeastFree, Uniform, SharesPrefix, OutOfReach, IsMapped;
    hide FirstMapped, HasAddr;
    var before := stored + Flatten(given[..k]);
    var used := Group([c], before, c);
    RunLengths([c], stored, given, k);
    var ip := given[k][0];
    assert AssignedIn([c], before, [c][0], ip) && Valid(ip);
    OnlyNetwork(c, ip);
    AssignedInsideIff(c, used, ip.addr);
    AssignedAbove(c, used, ip.addr);
    ContainsIff(c, ip);
    if HasAddr(before, ip.addr) {
      var e := IndexOfAddr(before, ip.addr);
      if Contains(c, ip) {
        AssignedIsFresh([c], before, 0, ip, e);
      } else {
        ContainsSameAddr(c, ip, before[e]);
        OnlyNetwork(c, before[e]);
        GroupMissesOne([c], before, c, e);
        LeastFreeIsNear(c, used, ip.addr);
        forall j | 0 <= j < |given|
          ensures |given[j]| == 1
        {
          RunLengths([c], stored, given, j);
        }
        FlattenOnes(given, k);
        BeyondReach(c, |stored|, |given|, ip.addr);
      }
    }
  }

  lemma IndexOfAddr(ips: seq<Cidr>, a: Addr) returns (e: nat)
    requires HasAddr(ips, a)
    ensures e < |ips| && ips[e].addr == a
  {
    e :| 0 <= e < |ips| && ips[e].addr == a;
  }

  /** What is out of reach is not IPv4-mapped. */
  lemma BeyondReach(c: Cidr, s: nat, m: nat, a: Addr)
    requires Valid(c) && OutOfReach(c, s, m) && !Uniform(c) && Above(c, a) && s + m > 1
    requires a.bits < c.addr.bits + s + m
    ensures !IsMapped(a)
  {
    PowerValues();
    hide Pow2, Uniform;
  }

  lemma FreshOutOfReach(c: Cidr, stored: seq<Cidr>, given: seq<seq<Cidr>>)
    requires Valid(c) && RunOf(c, stored, given, |stored|, |given|) && OutOfReach(c, |stored|, |given|)
    ensures AllFresh(stored, given)
  {
    hide HasAddr, OutOfReach, RunOf;
    forall k | 0 <= k < |given|
      ensures |given[k]| == 1 && !HasAddr(stored, given[k][0].addr)
    {
      FreshOne(c, stored, given, k);
      NotInPart(stored, Flatten(given[..k]), given[k][0].addr);
    }
    forall k, k' | 0 <= k < k' < |given|
      ensures given[k][0].addr != given[k'][0].addr
    {
      FreshOne(c, stored, given, k');
      NotInPart(stored, Flatten(given[..k']), given[k'][0].addr);
      assert given[..k'][k] == given[k];
      FlattenHas(given[..k'], k, 0);
    }
  }

  lemma NotInPart(a: seq<Cidr>, b: seq<Cidr>, x: Addr)
    requires !HasAddr(a + b, x)
    ensures !HasAddr(a, x) && !HasAddr(b, x)
  {
    assert forall i :: 0 <= i < |a| ==> (a + b)[i] == a[i];
    assert forall i :: 0 <= i < |b| ==> (a + b)[|a| + i] == b[i];
  }

  // ---------------------------------------------------------------------- within reach it fails

  /** The network mixes, and there is an IPv4-mapped address above the listed one. */
  predicate MixesAbove(c: Cidr)
    requires Valid(c)
  {
    !Uniform(c) && c.addr.bits + 1 < MappedZero().bits + MAPPED_COUNT
  }

  /** The addresses above the listed one in turn, the first IPv4-mapped one from then on. */
  function Nth(c: Cidr, i: nat): Cidr
    requires Valid(c)
  {
    Cidr(V6(c.addr.bits + if i + 1 < FirstMapped(c) then i + 1 else FirstMapped(c)), 128)
  }

  function Firsts(c: Cidr, n: nat): (ips: seq<Cidr>)
    requires Valid(c)
    ensures |ips| == n && forall i :: 0 <= i < n ==> ips[i] == Nth(c, i)
  {
    seq(n, i requires 0 <= i < n => Nth(c, i))
  }

  lemma NthIsInside(c: Cidr, i: nat)
    requires Valid(c) && MixesAbove(c)
    ensures Valid(Nth(c, i)) && Nth(c, i) == HostAddr(Nth(c, i)) && Above(c, Nth(c, i).addr)
    ensures SharesPrefix(c, Nth(c, i).addr)
    ensures Contains(c, Nth(c, i)) <==> i + 1 < FirstMapped(c)
  {
    PowerValues();
    hide Pow2, Contains, RoundDown;
    var ip := Nth(c, i);
    assert IsMapped(ip.addr) <==> i + 1 >= FirstMapped(c);
    if IsMapped(ip.addr) {
      ShortPrefixMapped(c, ip.addr);
    } else {
      SameQuotient(c.addr.bits, MappedZero().bits, Size(c));
      SameQuotient(c.addr.bits, ip.addr.bits, Size(c));
    }
    ContainsIff(c, ip);
  }

  lemma {:induction false} FirstsAreStored(c: Cidr, given: seq<seq<Cidr>>, s: nat, k: nat)
    requires Valid(c) && k <= |given| && forall j :: 0 <= j < |given| ==> given[j] == [Nth(c, s + j)]
    ensures Firsts(c, s) + Flatten(given[..k]) == Firsts(c, s + k)
  {
    if k == 0 {
      assert Firsts(c, s) + Flatten(given[..0]) == Firsts(c, s);
    } else {
      FirstsAreStored(c, given, s, k - 1);
      assert given[..k][..k - 1] == given[..k - 1];
      assert Flatten(given[..k]) == Flatten(given[..k - 1]) + [Nth(c, s + k - 1)];
      assert Firsts(c, s) + Flatten(given[..k]) == Firsts(c, s + k - 1) + [Nth(c, s + k - 1)];
    }
  }

  lemma FirstsAreValid(c: Cidr, n: nat)
    requires Valid(c) && MixesAbove(c)
    ensures AllValid(Firsts(c, n)) && AllValid([c])
  {
    hide Valid, MixesAbove;
    forall i | 0 <= i < n
      ensures Valid(Firsts(c, n)[i])
    {
      NthIsInside(c, i);
    }
  }

  /** With the first ones stored the next one is assigned; an IPv4-mapped one that is stored is still free. */
  lemma NextIsAssigned(c: Cidr, n: nat)
    requires Valid(c) && MixesAbove(c)
    ensures AllValid(Firsts(c, n)) && AllValid([c])
    ensures AssignedIn([c], Firsts(c, n), c, Nth(c, n)) && HasFree(c, Group([c], Firsts(c, n), c))
  {
    hide Contains, Group, GroupOf, Pow2, SharesPrefix, MixesAbove, Valid, HasAddr, Uniform;
    FirstsAreValid(c, n);
    NthIsInside(c, n);
    var used := Group([c], Firsts(c, n), c);
    ListedIsV6(c);
    forall b | Above(c, b) && b.bits < Nth(c, n).addr.bits
      ensures HasAddr(used, b)
    {
      var i := b.bits - c.addr.bits - 1;
      NthIsInside(c, i);
      FirstsAreFiled(c, n, i);
    }
    NotFiledBefore(c, n, n);
    assert LeastFree(c, used, Nth(c, n).addr);
    NthIsInside(c, FirstMapped(c));
    NotFiledBefore(c, n, FirstMapped(c));
    assert Above(c, Nth(c, FirstMapped(c)).addr);
  }

  lemma ListedIsV6(c: Cidr)
    requires Valid(c) && MixesAbove(c)
    ensures c.addr.V6?
  {
  }

  lemma FirstsAreFiled(c: Cidr, n: nat, i: nat)
    requires Valid(c) && MixesAbove(c) && AllValid(Firsts(c, n)) && AllValid([c])
    requires i < n && i + 1 < FirstMapped(c)
    ensures HasAddr(Group([c], Firsts(c, n), c), Nth(c, i).addr)
  {
    hide Contains, Group, GroupOf, Pow2, SharesPrefix, MixesAbove, Valid, Uniform;
    NthIsInside(c, i);
    OnlyNetwork(c, Nth(c, i));
    GroupMembers([c], Firsts(c, n), c, Nth(c, i).addr);
    assert Firsts(c, n)[i] == Nth(c, i);
  }

  lemma NotFiledBefore(c: Cidr, n: nat, i: nat)
    requires Valid(c) && MixesAbove(c) && AllValid(Firsts(c, n)) && AllValid([c])
    requires n <= i || i + 1 >= FirstMapped(c)
    ensures !HasAddr(Group([c], Firsts(c, n), c), Nth(c, i).addr)
  {
    hide Contains, Group, GroupOf, Pow2, SharesPrefix, MixesAbove, Valid, Uniform, FirstMapped;
    GroupMembers([c], Firsts(c, n), c, Nth(c, i).addr);
    forall j | 0 <= j < n && Firsts(c, n)[j].addr == Nth(c, i).addr
      ensures GroupOf([c], Firsts(c, n)[j]) != c
    {
      NthIsInside(c, j);
      OnlyNetwork(c, Nth(c, j));
    }
  }

  /** A run within reach in which an address is given that is stored, or given twice. */
  lemma WithinReach(c: Cidr, s: nat, m: nat) returns (stored: seq<Cidr>, given: seq<seq<Cidr>>)
    requires Valid(c) && m > 0 && !OutOfReach(c, s, m)
    ensures RunOf(c, stored, given, s, m) && !AllFresh(stored, given)
  {
    hide Group, Pow2, Valid, Uniform, FirstMapped, Nth, HasFree, AssignedIn, HasAddr;
    stored := Firsts(c, s);
    given := seq(m, k requires 0 <= k < m => [Nth(c, s + k)]);
    FirstsAreValid(c, s);
    forall k | 0 <= k < m
      ensures AllValid(given[k]) && AllValid(stored + Flatten(given[..k]))
      ensures Assigned([c], stored + Flatten(given[..k]), given[k])
      ensures HasFree(c, Group([c], stored + Flatten(given[..k]), c))
    {
      NthIsAssigned(c, s, m, given, k);
    }
    var o := FirstMapped(c);
    SameFromFirstMapped(c, o - 1, s + m - 1);
    if o - 1 < s {
      assert stored[o - 1] == Nth(c, o - 1);
      StoredHas(stored, o - 1);
      assert given[m - 1][0].addr == stored[o - 1].addr;
    } else {
      assert given[o - 1 - s][0].addr == given[m - 1][0].addr;
    }
  }

  lemma NthIsAssigned(c: Cidr, s: nat, m: nat, given: seq<seq<Cidr>>, k: nat)
    requires Valid(c) && MixesAbove(c) && k < m == |given| && forall j :: 0 <= j < m ==> given[j] == [Nth(c, s + j)]
    ensures AllValid(given[k]) && AllValid(Firsts(c, s) + Flatten(given[..k]))
    ensures Assigned([c], Firsts(c, s) + Flatten(given[..k]), given[k])
    ensures HasFree(c, Group([c], Firsts(c, s) + Flatten(given[..k]), c))
  {
    hide Group, Pow2, Valid, Uniform, FirstMapped, Nth, HasFree, AssignedIn, HasAddr;
    FirstsAreStored(c, given, s, k);
    NextIsAssigned(c, s + k);
    FirstsAreValid(c, s + k + 1);
    assert Firsts(c, s + k + 1)[s + k] == Nth(c, s + k);
  }

  lemma StoredHas(stored: seq<Cidr>, i: nat)
    requires i < |stored|
    ensures HasAddr(stored, stored[i].addr)
  {
  }

  lemma SameFromFirstMapped(c: Cidr, i: nat, j: nat)
    requires Valid(c) && i + 1 >= FirstMapped(c) && j + 1 >= FirstMapped(c)
    ensures Nth(c, i) == Nth(c, j)
  {
    hide FirstMapped;
  }

  /**
    On one network every run of so many peers, with so many addresses stored and room throughout, gives fresh
    and distinct addresses, if and only if no peer is given any, or IPv4-mapped addresses are out of reach.
  */
  lemma FreshIff(c: Cidr, s: nat, m: nat)
    requires Valid(c)
    ensures (forall stored, given :: RunOf(c, stored, given, s, m) ==> AllFresh(stored, given))
            <==> m == 0 || OutOfReach(c, s, m)
  {
    hide Valid, RunOf, AllFresh, OutOfReach;
    if m > 0 && !OutOfReach(c, s, m) {
      var stored, given := WithinReach(c, s, m);
      assert RunOf(c, stored, given, s, m);
    } else {
      forall stored, given | RunOf(c, stored, given, s, m)
        ensures AllFresh(stored, given)
      {
        RunSizes(c, stored, given, s, m);
        if m == 0 {
          NoPeers(stored, given);
        } else {
          FreshOutOfReach(c, stored, given);
        }
      }
    }
  }

  lemma RunSizes(c: Cidr, stored: seq<Cidr>, given: seq<seq<Cidr>>, s: nat, m: nat)
    requires Valid(c) && RunOf(c, stored, given, s, m)
    ensures |stored| == s && |given| == m
  {
  }

  lemma NoPeers(stored: seq<Cidr>, given: seq<seq<Cidr>>)
    requires given == []
    ensures AllFresh(stored, given)
  {
  }
}

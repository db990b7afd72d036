/**
  Address arithmetic on prefixes (internal/domain/ip.go; CIDR is section 3.1 of RFC 4632).

  Addresses are numbers of 32 or 128 bits. Their text forms are determined by these, so that two
  `Cidr` structs of the source are equal exactly when the values here are.
*/
module Cidrs {
  import opened Arithmetic
  import opened Base64

  /** `NoAddr` is netip's zero address, which is what stepping past the last address yields. */
  datatype Addr = V4(bits: nat) | V6(bits: nat) | NoAddr

  datatype Cidr = Cidr(addr: Addr, len: int)

  const NO_CIDR := Cidr(NoAddr, 0)

  function Width(a: Addr): nat {
    if a.V4? then 32 else 128
  }

  predicate IsAddr(a: Addr) {
    !a.NoAddr? && a.bits < Pow2(Width(a))
  }

  /** `netip.Prefix.IsValid`. */
  predicate Valid(c: Cidr) {
    IsAddr(c.addr) && 0 <= c.len <= Width(c.addr)
  }

  predicate AllValid(cidrs: seq<Cidr>) {
    forall i :: 0 <= i < |cidrs| ==> Valid(cidrs[i])
  }

  predicate SameFamily(a: Addr, b: Addr) {
    a.V4? == b.V4? && a.V6? == b.V6?
  }

  function WithBits(a: Addr, v: nat): Addr
    requires !a.NoAddr?
  {
    if a.V4? then V4(v) else V6(v)
  }

  /** The number of addresses of a prefix. */
  function Size(c: Cidr): (n: nat)
    requires Valid(c)
    ensures n >= 1
  {
    Pow2(Width(c.addr) - c.len)
  }

  /** `netip.Addr.Next`. */
  function Next(a: Addr): Addr
    requires IsAddr(a)
  {
    if a.bits + 1 == Pow2(Width(a)) then NoAddr else WithBits(a, a.bits + 1)
  }

  // ---------------------------------------------------------------------- the operations on Cidr

  /** An address without text form makes `Prefix()` panic; an impossible length yields the zero Cidr. */
  function NetworkAddr(c: Cidr): Cidr
    requires IsAddr(c.addr)
  {
    if !Valid(c) then NO_CIDR else Cidr(WithBits(c.addr, RoundDown(c.addr.bits, Size(c))), c.len)
  }

  /** What `BroadcastAddr` is meant to be: the last address of the prefix. */
  function Broadcast(c: Cidr): Cidr
    requires IsAddr(c.addr)
  {
    if !Valid(c) then NO_CIDR
    else Cidr(WithBits(c.addr, RoundDown(c.addr.bits, Size(c)) + Size(c) - 1), c.len)
  }

  function FirstAddr(c: Cidr): Cidr
    requires Valid(c)
  {
    NetworkIsAddr(c);
    Cidr(Next(NetworkAddr(c).addr), c.len)
  }

  function NextAddr(c: Cidr): Cidr
    requires Valid(c)
  {
    Cidr(Next(c.addr), c.len)
  }

  function HostAddr(c: Cidr): Cidr
    requires IsAddr(c.addr)
  {
    Cidr(c.addr, Width(c.addr))
  }

  function NextSubnet(c: Cidr): Cidr
    requires Valid(c)
  {
    BroadcastIsAddr(c);
    Cidr(Next(Broadcast(c).addr), c.len)
  }

  // ---------------------------------------------------------------------- prefixes

  /** The first `len` bits of `x` are those of the prefix. */
  predicate SharesPrefix(c: Cidr, x: Addr)
    requires Valid(c)
  {
    SameFamily(c.addr, x) && x.bits / Size(c) == c.addr.bits / Size(c)
  }

  predicate Between(low: Cidr, x: Addr, high: Cidr) {
    SameFamily(low.addr, x) && SameFamily(x, high.addr) && !x.NoAddr? && low.addr.bits <= x.bits <= high.addr.bits
  }

  /** The prefixes of a length tile the address space. */
  lemma Tiling(c: Cidr)
    requires Valid(c)
    ensures Pow2(Width(c.addr)) == Pow2(c.len) * Size(c)
    ensures c.addr.bits / Size(c) < Pow2(c.len)
    ensures RoundDown(c.addr.bits, Size(c)) + Size(c) <= Pow2(Width(c.addr))
  {
    Pow2Add(c.len, Width(c.addr) - c.len);
    Tiles(c.addr.bits, Pow2(c.len), Size(c));
  }

  lemma NetworkIsAddr(c: Cidr)
    requires Valid(c)
    ensures Valid(NetworkAddr(c))
  {
  }

  lemma BroadcastIsAddr(c: Cidr)
    requires Valid(c)
    ensures Valid(Broadcast(c))
  {
    Tiling(c);
  }

  /** An address shares the prefix exactly when it lies between the network and the broadcast address. */
  lemma PrefixIsRange(c: Cidr, x: Addr)
    requires Valid(c) && IsAddr(x)
    ensures SharesPrefix(c, x) <==> Between(NetworkAddr(c), x, Broadcast(c))
  {
    if SameFamily(c.addr, x) {
      SameQuotient(c.addr.bits, x.bits, Size(c));
    }
  }

  /** The broadcast address is the greatest address of the prefix, and the network address the least. */
  lemma BroadcastIsGreatest(c: Cidr, x: Addr)
    requires Valid(c) && IsAddr(x) && SharesPrefix(c, x)
    ensures SharesPrefix(c, Broadcast(c).addr) && SharesPrefix(c, NetworkAddr(c).addr)
    ensures NetworkAddr(c).addr.bits <= x.bits <= Broadcast(c).addr.bits
  {
    BroadcastIsAddr(c);
    PrefixIsRange(c, x);
    PrefixIsRange(c, Broadcast(c).addr);
    PrefixIsRange(c, NetworkAddr(c).addr);
  }

  /** Two prefixes of one length are equal or have no address in common. */
  lemma EqualOrDisjoint(c: Cidr, d: Cidr, x: Addr)
    requires Valid(c) && Valid(d) && c.len == d.len && SameFamily(c.addr, d.addr) && IsAddr(x)
    requires SharesPrefix(c, x) && SharesPrefix(d, x)
    ensures NetworkAddr(c) == NetworkAddr(d) && Broadcast(c) == Broadcast(d)
  {
    hide Pow2, RoundDown;
    SameNetwork(c, d);
  }

  lemma SameNetwork(c: Cidr, d: Cidr)
    requires Valid(c) && Valid(d) && c.len == d.len && SameFamily(c.addr, d.addr)
    ensures NetworkAddr(c) == NetworkAddr(d) <==> c.addr.bits / Size(c) == d.addr.bits / Size(d)
    ensures NetworkAddr(c) == NetworkAddr(d) <==> Broadcast(c) == Broadcast(d)
  {
    hide Pow2;
    if NetworkAddr(c) == NetworkAddr(d) {
      SameQuotient(c.addr.bits, d.addr.bits, Size(c));
    }
  }

  /** A longer prefix lies inside a shorter one or outside of it. */
  lemma NestedOrDisjoint(c: Cidr, d: Cidr, x: Addr, y: Addr)
    requires Valid(c) && Valid(d) && c.len <= d.len && SameFamily(c.addr, d.addr) && IsAddr(x) && IsAddr(y)
    requires SharesPrefix(c, x) && SharesPrefix(d, x) && SharesPrefix(d, y)
    ensures SharesPrefix(c, y)
  {
    hide Pow2, RoundDown;
    var n := Pow2(d.len - c.len);
    Pow2Add(Width(c.addr) - d.len, d.len - c.len);
    assert Size(c) == Size(d) * n;
    DivDiv(x.bits, Size(d), n);
    DivDiv(y.bits, Size(d), n);
  }

  /** `NextSubnet` is the next prefix of the length, right behind the broadcast address, until there is none. */
  lemma NextSubnetIsAdjacent(c: Cidr)
    requires Valid(c)
    ensures var n := NextSubnet(c);
            if n.addr.NoAddr? then Broadcast(c).addr.bits + 1 == Pow2(Width(c.addr))
            else Valid(n) && NetworkAddr(n) == n && SameFamily(n.addr, c.addr) && n.len == c.len
                 && n.addr.bits == Broadcast(c).addr.bits + 1 == NetworkAddr(c).addr.bits + Size(c)
  {
    hide Pow2;
    BroadcastIsAddr(c);
    var n := NextSubnet(c);
    if !n.addr.NoAddr? {
      var q := c.addr.bits / Size(c);
      MulDistributes(q, 1, Size(c));
      MulDiv(q + 1, Size(c));
    }
  }

  // ---------------------------------------------------------------------- Contains

  /** The IPv4-mapped IPv6 addresses, which package net treats as IPv4 addresses. */
  predicate IsMapped(a: Addr) {
    a.V6? && a.bits / Pow2(32) == 0xFFFF
  }

  function Unmap(a: Addr): Addr {
    if IsMapped(a) then V4(a.bits % Pow2(32)) else a
  }

  /** The network and mask that `net.IPNet.Contains` works with. */
  function NetworkNumber(c: Cidr): (n: Cidr)
    requires Valid(c)
    ensures Valid(n)
  {
    NetworkIsAddr(c);
    var n := NetworkAddr(c);
    if IsMapped(n.addr) && n.len >= 96 then Cidr(Unmap(n.addr), n.len - 96) else n
  }

  function Contains(c: Cidr, other: Cidr): bool
    requires Valid(c) && Valid(other)
  {
    SharesPrefix(NetworkNumber(c), Unmap(other.addr))
  }

  lemma UnmapIsAddr(a: Addr)
    requires IsAddr(a)
    ensures IsAddr(Unmap(a)) && !IsMapped(Unmap(a))
  {
  }

  /** Containment is lying between network and broadcast address, once both sides are in IPv4 form if mapped. */
  lemma ContainsIsRange(c: Cidr, other: Cidr)
    requires Valid(c) && Valid(other)
    ensures var n := NetworkNumber(c);
            Contains(c, other) <==> Between(NetworkAddr(n), Unmap(other.addr), Broadcast(n))
  {
    hide Pow2, RoundDown;
    UnmapIsAddr(other.addr);
    PrefixIsRange(NetworkNumber(c), Unmap(other.addr));
  }

  /** An IPv4-mapped prefix contains what the IPv4 prefix of the same addresses contains. */
  lemma MappedIsV4(c: Cidr, other: Cidr)
    requires Valid(c) && Valid(other) && IsMapped(c.addr) && c.len >= 96
    ensures var v4 := Cidr(V4(c.addr.bits % Pow2(32)), c.len - 96);
            Valid(v4) && (Contains(c, other) <==> Contains(v4, other))
  {
    hide Pow2;
    var v4 := Cidr(V4(c.addr.bits % Pow2(32)), c.len - 96);
    var d, e, low := Size(c), Pow2(c.len - 96), c.addr.bits % Pow2(32);
    Pow2Add(128 - c.len, c.len - 96);
    assert Pow2(32) == d * e && c.addr.bits == 0xFFFF * Pow2(32) + low;
    MulAssociative(0xFFFF, e, d);
    RoundDownShift(0xFFFF * e, low, d);
    Tiles(low, e, d);
    var n := NetworkAddr(c);
    assert n.addr.bits == 0xFFFF * Pow2(32) + RoundDown(low, d);
    DivModUnique(n.addr.bits, Pow2(32), 0xFFFF, RoundDown(low, d));
    assert NetworkNumber(c) == NetworkAddr(v4);
    assert NetworkNumber(v4) == NetworkAddr(v4);
  }

  /** For a prefix that is not IPv4-mapped the range alone decides, except that IPv4-mapped addresses are outside. */
  lemma ContainsUnmapped(c: Cidr, other: Cidr)
    requires Valid(c) && Valid(other) && !IsMapped(c.addr)
    ensures !IsMapped(other.addr) ==> (Contains(c, other) <==> Between(NetworkAddr(c), other.addr, Broadcast(c)))
    ensures IsMapped(other.addr) && c.addr.V6? ==> !Contains(c, other)
  {
    hide Pow2, RoundDown;
    NetworkIsAddr(c);
    NotMappedNetwork(c);
    PrefixIsRange(c, other.addr);
    MaskedTwice(c);
  }

  lemma MaskedTwice(c: Cidr)
    requires Valid(c)
    ensures Valid(NetworkAddr(c)) && NetworkAddr(NetworkAddr(c)) == NetworkAddr(c)
    ensures NetworkAddr(c).addr.bits / Size(c) == c.addr.bits / Size(c)
  {
    hide Pow2;
    MulDiv(c.addr.bits / Size(c), Size(c));
  }

  lemma NotMappedNetwork(c: Cidr)
    requires Valid(c) && !IsMapped(c.addr)
    ensures !(IsMapped(NetworkAddr(c).addr) && c.len >= 96)
  {
    hide Pow2;
    if c.addr.V6? && c.len >= 96 {
      MaskedTwice(c);
      var n := Pow2(c.len - 96);
      Pow2Add(128 - c.len, c.len - 96);
      assert Pow2(32) == Size(c) * n;
      DivDiv(c.addr.bits, Size(c), n);
      DivDiv(NetworkAddr(c).addr.bits, Size(c), n);
    }
  }

  /** The exception is real: the IPv6 default prefix does not contain the lowest IPv4-mapped address. */
  lemma MappedException()
    ensures var all, mapped := Cidr(V6(0), 0), Cidr(V6(0xFFFF * Pow2(32)), 128);
            Valid(all) && Valid(mapped) && !Contains(all, mapped) && Between(NetworkAddr(all), mapped.addr, Broadcast(all))
  {
    hide Pow2, RoundDown;
    var all, mapped := Cidr(V6(0), 0), Cidr(V6(0xFFFF * Pow2(32)), 128);
    Pow2Add(32, 96);
    Pow2Add(16, 80);
    SmallPowers();
    Pow2Add(8, 8);
    MulMonotone(1, Pow2(80), 65536);
    MulMonotone(0xFFFF, Pow2(96), Pow2(32));
    MulDiv(0xFFFF, Pow2(32));
    MulDiv(0, Size(all));
    DivModUnique(mapped.addr.bits, Size(all), 0, mapped.addr.bits);
    ContainsUnmapped(all, mapped);
    PrefixIsRange(all, mapped.addr);
  }

  // ---------------------------------------------------------------------- families

  function OfFamily(cidrs: seq<Cidr>, v4: bool): seq<Cidr> {
    if cidrs == [] then []
    else (if cidrs[0].addr.V4? == v4 then [cidrs[0]] else []) + OfFamily(cidrs[1..], v4)
  }

  lemma {:induction false} OfFamilySnoc(cidrs: seq<Cidr>, c: Cidr, v4: bool)
    ensures OfFamily(cidrs + [c], v4) == OfFamily(cidrs, v4) + if c.addr.V4? == v4 then [c] else []
  {
    if cidrs == [] {
      assert cidrs + [c] == [c];
    } else {
      OfFamilySnoc(cidrs[1..], c, v4);
      assert (cidrs + [c])[1..] == cidrs[1..] + [c];
    }
  }

  /** Splitting by family loses and invents nothing. */
  lemma {:induction false} FamiliesPartition(cidrs: seq<Cidr>)
    ensures multiset(OfFamily(cidrs, true)) + multiset(OfFamily(cidrs, false)) == multiset(cidrs)
  {
    if cidrs != [] {
      FamiliesPartition(cidrs[1..]);
      assert cidrs == [cidrs[0]] + cidrs[1..];
    }
  }

  method CidrsPerFamily(cidrs: seq<Cidr>) returns (ipv4: seq<Cidr>, ipv6: seq<Cidr>)
    ensures ipv4 == OfFamily(cidrs, true) && ipv6 == OfFamily(cidrs, false)
  {
    ipv4, ipv6 := [], [];
    for i := 0 to |cidrs|
      invariant ipv4 == OfFamily(cidrs[..i], true) && ipv6 == OfFamily(cidrs[..i], false)
    {
      assert cidrs[..i + 1] == cidrs[..i] + [cidrs[i]];
      OfFamilySnoc(cidrs[..i], cidrs[i], true);
      OfFamilySnoc(cidrs[..i], cidrs[i], false);
      if cidrs[i].addr.V4? {
        ipv4 := ipv4 + [cidrs[i]];
      } else {
        ipv6 := ipv6 + [cidrs[i]];
      }
    }
    assert cidrs[..|cidrs|] == cidrs;
  }

  // ---------------------------------------------------------------------- the bit loop of BroadcastAddr

  /** The number written by big-endian bytes. */
  function ValueOf(s: Text): nat {
    if s == [] then 0 else ValueOf(s[..|s| - 1]) * 256 + s[|s| - 1]
  }

  function BytesOf(v: nat, n: nat): (s: Text)
    ensures |s| == n
  {
    if n == 0 then [] else BytesOf(v / 256, n - 1) + [v % 256]
  }

  const MAPPED: Text := [0, 0, 0, 0, 0, 0, 0, 0, 0, 0, 255, 255]

  /** `As16`: an IPv4 address occupies the last four bytes of its IPv4-mapped form. */
  function As16(a: Addr): (s: Text)
    requires !a.NoAddr?
    ensures |s| == 16
  {
    if a.V4? then MAPPED + BytesOf(a.bits, 4) else BytesOf(a.bits, 16)
  }

  /** `x |= 1 << j` on a byte. */
  function SetBit(x: Byte, j: nat): Byte
    requires j < 8
  {
    if x / Pow2(j) % 2 == 1 then x else (BitFits(x, j); x + Pow2(j))
  }

  lemma SmallPowers()
    ensures Pow2(0) == 1 && Pow2(1) == 2 && Pow2(2) == 4 && Pow2(3) == 8
    ensures Pow2(4) == 16 && Pow2(5) == 32 && Pow2(6) == 64 && Pow2(7) == 128 && Pow2(8) == 256
  {
  }

  lemma BitFits(x: Byte, j: nat)
    requires j < 8 && x / Pow2(j) % 2 == 0
    ensures x + Pow2(j) < 256
  {
    SmallPowers();
    Pow2Add(7 - j, j);
    ClearBitFits(x, 128, Pow2(j), Pow2(7 - j));
  }

  lemma LowByteBit(hi: nat, x: Byte, j: nat)
    requires j < 8
    ensures (hi * 256 + x) / Pow2(j) % 2 == x / Pow2(j) % 2
  {
    SmallPowers();
    Pow2Add(7 - j, j);
    LowBit(hi, x, 128, Pow2(j), Pow2(7 - j));
  }

  /** Setting a bit of one byte adds its weight to the whole number, unless the bit was set. */
  lemma {:induction false} SetBitValue(s: Text, i: nat, j: nat)
    requires i < |s| && j < 8
    ensures var w := Pow2(8 * (|s| - 1 - i) + j);
            ValueOf(s[i := SetBit(s[i], j)]) == ValueOf(s) + if ValueOf(s) / w % 2 == 1 then 0 else w
  {
    var n := |s| - 1;
    var t := s[i := SetBit(s[i], j)];
    if i == n {
      assert t[..n] == s[..n];
      LowByteBit(ValueOf(s[..n]), s[n], j);
    } else {
      assert t[..n] == s[..n][i := SetBit(s[i], j)];
      SetBitValue(s[..n], i, j);
      var k := 8 * (n - 1 - i) + j;
      SmallPowers();
      Pow2Add(8, k);
      DivDiv(ValueOf(s), 256, Pow2(k));
      DivModUnique(ValueOf(s), 256, ValueOf(s[..n]), s[n]);
    }
  }

  /** `v` with its bits from `m` down to `k` set. */
  function Filled(v: nat, m: nat, k: nat): int {
    RoundDown(v, Pow2(m)) + Pow2(m) - Pow2(k) + v % Pow2(k)
  }

  lemma FilledNothing(v: nat, m: nat)
    ensures Filled(v, m, m) == v
  {
  }

  lemma FilledMultiple(v: nat, m: nat, k: nat) returns (q: nat)
    requires k <= m
    ensures RoundDown(v, Pow2(m)) + Pow2(m) - Pow2(k) == q * Pow2(k)
  {
    var down := RoundDown(v, Pow2(m));
    var p, d, h := Pow2(m - k), Pow2(k), v / Pow2(m);
    Pow2Add(m - k, k);
    MulMonotone(0, h, p);
    q := h * p + p - 1;
    assert down == h * (p * d);
    MulAssociative(h, p, d);
    MulDistributes(h * p, p, d);
    MulDistributes(h * p + p, -1, d);
  }

  lemma FilledStep(v: nat, m: nat, k: nat)
    requires 0 < k <= m
    ensures Filled(v, m, k) >= 0
    ensures var w := Pow2(k - 1);
            Filled(v, m, k - 1) == Filled(v, m, k) + if Filled(v, m, k) / w % 2 == 1 then 0 else w
  {
    var q := FilledMultiple(v, m, k);
    var w := Pow2(k - 1);
    var r := v % Pow2(k);
    assert Pow2(k) == w * 2 && q * Pow2(k) == q * 2 * w;
    DivDiv(v, w, 2);
    assert r == v / w % 2 * w + v % w;
    var u := Filled(v, m, k);
    var bit := v / w % 2;
    assert u == q * 2 * w + bit * w + v % w == (q * 2 + bit) * w + v % w;
    DivModUnique(u, w, q * 2 + bit, v % w);
  }

  lemma {:induction false} ValueOfBytes(v: nat, n: nat)
    requires v < Pow2(8 * n)
    ensures ValueOf(BytesOf(v, n)) == v
  {
    if n > 0 {
      SmallPowers();
      Pow2Add(8, 8 * (n - 1));
      ValueOfBytes(v / 256, n - 1);
      assert BytesOf(v, n)[..n - 1] == BytesOf(v / 256, n - 1);
    }
  }

  lemma {:induction false} ValueOfConcat(s: Text, t: Text)
    ensures ValueOf(s + t) == ValueOf(s) * Pow2(8 * |t|) + ValueOf(t)
    decreases |t|
  {
    if t == [] {
      assert s + t == s;
    } else {
      var n := |t| - 1;
      ValueOfConcat(s, t[..n]);
      assert (s + t)[..|s + t| - 1] == s + t[..n];
      SmallPowers();
      Pow2Add(8, 8 * n);
      hide Pow2;
      var a, p := ValueOf(s), Pow2(8 * n);
      assert Pow2(8 * |t|) == p * 256;
      MulAssociative(a, p, 256);
      MulDistributes(a * p, ValueOf(t[..n]), 256);
    }
  }

  lemma {:induction false} ValueOfZeros(s: Text)
    requires forall i :: 0 <= i < |s| ==> s[i] == 0
    ensures ValueOf(s) == 0
  {
    if s != [] {
      ValueOfZeros(s[..|s| - 1]);
    }
  }

  lemma ValueOfMapped()
    ensures ValueOf(MAPPED) == 0xFFFF
  {
    assert ValueOf(MAPPED[..10]) == 0 by { ValueOfZeros(MAPPED[..10]); }
    assert MAPPED[..11][..10] == MAPPED[..10] && MAPPED[..12][..11] == MAPPED[..11] && MAPPED[..12] == MAPPED;
    assert ValueOf(MAPPED[..11]) == 255;
  }

  lemma ValueOfAs16(a: Addr)
    requires IsAddr(a)
    ensures ValueOf(As16(a)) == if a.V4? then 0xFFFF * Pow2(32) + a.bits else a.bits
  {
    if a.V4? {
      ValueOfBytes(a.bits, 4);
      ValueOfMapped();
      ValueOfConcat(MAPPED, BytesOf(a.bits, 4));
    } else {
      ValueOfBytes(a.bits, 16);
    }
  }

  /** Rounding an IPv4-mapped number acts on its IPv4 part. */
  lemma RoundDownMapped(v: nat, len: nat)
    requires len <= 32 && v < Pow2(32)
    ensures RoundDown(0xFFFF * Pow2(32) + v, Pow2(32 - len)) == 0xFFFF * Pow2(32) + RoundDown(v, Pow2(32 - len))
  {
    hide Pow2;
    Pow2Add(len, 32 - len);
    MulAssociative(0xFFFF, Pow2(len), Pow2(32 - len));
    RoundDownShift(0xFFFF * Pow2(len), v, Pow2(32 - len));
  }

  lemma UnmapMapped(v: nat)
    requires v < Pow2(32)
    ensures Unmap(V6(0xFFFF * Pow2(32) + v)) == V4(v)
  {
    DivModUnique(0xFFFF * Pow2(32) + v, Pow2(32), 0xFFFF, v);
  }

  /** With every host bit set, the bytes are those of the broadcast address, IPv4-mapped for IPv4. */
  lemma FilledAll(c: Cidr)
    requires Valid(c)
    ensures var filled := Filled(ValueOf(As16(c.addr)), Width(c.addr) - c.len, 0);
            filled >= 0 && Broadcast(c).addr == if c.addr.V4? then Unmap(V6(filled)) else V6(filled)
  {
    hide Pow2, ValueOf, As16, RoundDown, Unmap;
    SmallPowers();
    ValueOfAs16(c.addr);
    BroadcastIsAddr(c);
    if c.addr.V4? {
      RoundDownMapped(c.addr.bits, c.len);
      UnmapMapped(Broadcast(c).addr.bits);
    }
  }

  method BroadcastAddr(c: Cidr) returns (r: Cidr)
    requires IsAddr(c.addr)
    ensures r == Broadcast(c)
  {
    hide Pow2, ValueOf, BytesOf, As16, SetBit, RoundDown, Filled, Unmap;
    if !Valid(c) {
      return NO_CIDR;
    }
    var bytes := As16(c.addr);
    var a16 := new Byte[16](i requires 0 <= i < 16 => bytes[i]);
    assert a16[..] == bytes;
    var off, bits := 0, 128;
    if c.addr.V4? {
      off, bits := 12, 32;
    }
    ghost var v := ValueOf(bytes);
    FilledNothing(v, bits - c.len);
    for b := c.len to bits
      invariant ValueOf(a16[..]) == Filled(v, bits - c.len, bits - b)
    {
      var byteNum, bitInByte := b / 8, 7 - b % 8;
      BitPosition(b, off, bits);
      SetBitValue(a16[..], off + byteNum, bitInByte);
      FilledStep(v, bits - c.len, bits - b);
      ghost var before := a16[..];
      a16[off + byteNum] := SetBit(a16[off + byteNum], bitInByte);
      assert a16[..] == before[off + byteNum := SetBit(before[off + byteNum], bitInByte)];
    }
    FilledAll(c);
    if c.addr.V4? {
      r := Cidr(Unmap(V6(ValueOf(a16[..]))), c.len);
    } else {
      r := Cidr(V6(ValueOf(a16[..])), c.len);
    }
  }

  lemma BitPosition(b: nat, off: nat, bits: nat)
    requires b < bits && off + bits / 8 == 16 && bits % 8 == 0
    ensures off + b / 8 < 16
    ensures 8 * (16 - 1 - (off + b / 8)) + (7 - b % 8) == bits - b - 1
  {
  }
}

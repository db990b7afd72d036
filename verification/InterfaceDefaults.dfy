/** Defaults of a new interface: the listen port and the name. */
module InterfaceDefaults {
  import opened Wrappers
  import opened Decimal
  import Base64
  import IdentifierEncoding

  const MAX_PORT := 65535

  /** The least unused port at or above the configured one, or none if all up to the maximum are in use. */
  method GetFreshListenPort(startListenPort: int, existing: seq<int>) returns (port: Option<int>)
    ensures port.None? <==> forall p :: startListenPort <= p <= MAX_PORT ==> p in existing
    ensures port.Some? ==>
              && startListenPort <= port.value <= MAX_PORT && port.value !in existing
              && forall p :: startListenPort <= p < port.value ==> p in existing
  {
    var candidate := startListenPort;
    ghost var ahead := set p | p in existing;
    while candidate in existing
      invariant candidate >= startListenPort
      invariant forall p :: startListenPort <= p < candidate ==> p in existing
      invariant forall p :: p >= candidate && p in existing ==> p in ahead
      decreases ahead
    {
      ahead := ahead - {candidate};
      candidate := candidate + 1;
    }
    return if candidate > MAX_PORT then None else Some(candidate);
  }

  function WgName(n: nat): (name: string)
    ensures |name| >= 3 && name[0] == 'w'
  {
    "wg" + Print(n)
  }

  lemma WgNameIsInjective(m: nat, n: nat)
    requires WgName(m) == WgName(n)
    ensures m == n
  {
    assert WgName(m)[2..] == Print(m) && WgName(n)[2..] == Print(n);
    PrintIsInjective(m, n);
  }

  /** The name with the least unused number; the search ends since no two numbers share a name. */
  method GetNewInterfaceName(existing: seq<string>) returns (name: string)
    ensures name !in existing
    ensures exists n: nat :: name == WgName(n) && forall m: nat :: m < n ==> WgName(m) in existing
  {
    var suffix: nat := 0;
    ghost var ahead := set s | s in existing;
    while WgName(suffix) in existing
      invariant forall m: nat :: m < suffix ==> WgName(m) in existing
      invariant forall m: nat :: m >= suffix && WgName(m) in existing ==> WgName(m) in ahead
      decreases ahead
    {
      forall m: nat | m > suffix
        ensures WgName(m) != WgName(suffix)
      {
        if WgName(m) == WgName(suffix) {
          WgNameIsInjective(m, suffix);
        }
      }
      ahead := ahead - {WgName(suffix)};
      suffix := suffix + 1;
    }
    return WgName(suffix);
  }

  /** Generated names may be used as plain identifiers in requests: decoding leaves them alone. */
  lemma WgNamesPassThrough(n: nat)
    ensures IdentifierEncoding.DecodeIdentifier(Base64.Ascii(WgName(n))) == Base64.Ascii(WgName(n))
  {
    assert Base64.Ascii(WgName(n))[0] == 'w' as int;
    IdentifierEncoding.PlainPassesThrough(Base64.Ascii(WgName(n)));
  }
}

/** Comma-separated lists of prefixes: `CidrsToString` and `CidrsFromString`. */
module CidrText {
  import opened Wrappers
  import opened Cidrs
  import opened Decimal
  import opened Arithmetic

  /**
    The text form of a single prefix, as package netip prints and parses it (parsing includes the
    trimming of white space).
  */
  datatype TextForm = TextForm(format: Cidr -> string, parse: string -> Option<Cidr>)

  /** What is assumed of it: printing is inverted by parsing and never yields a comma; nothing is not a prefix. */
  ghost predicate Faithful(f: TextForm) {
    && (forall c :: Valid(c) ==> f.parse(f.format(c)) == Some(c) && ',' !in f.format(c))
    && (forall s :: f.parse(s).Some? ==> Valid(f.parse(s).value))
    && f.parse("").None?
  }

  /** One possible text form: the family, the number of the address, and the length. */
  function AddrText(a: Addr): string {
    match a
    case NoAddr => "n"
    case V4(bits) => "4" + Print(bits)
    case V6(bits) => "6" + Print(bits)
  }

  function PrefixText(c: Cidr): string {
    AddrText(c.addr) + "/" + if c.len >= 0 then Print(c.len) else ""
  }

  ghost function PrefixOfText(s: string): Option<Cidr> {
    if exists c :: Valid(c) && PrefixText(c) == s then var c :| Valid(c) && PrefixText(c) == s; Some(c) else None
  }

  predicate IsWord(s: string) {
    forall i :: 0 <= i < |s| ==> IsDigit(s[i]) || s[i] == 'n'
  }

  lemma AddrTextIsShort(a: Addr)
    ensures IsWord(AddrText(a)) && AddrText(a) != ""
    ensures IsAddr(a) ==> |AddrText(a)| <= 130
  {
    hide Pow2;
    if IsAddr(a) {
      PrintLengthByBits(a.bits, Width(a));
    }
  }

  lemma AddrTextIsInjective(a: Addr, b: Addr)
    requires AddrText(a) == AddrText(b)
    ensures a == b
  {
    assert !a.NoAddr? ==> AddrText(a)[1..] == Print(a.bits);
    assert !b.NoAddr? ==> AddrText(b)[1..] == Print(b.bits);
    assert AddrText(a)[0] == if a.NoAddr? then 'n' else if a.V4? then '4' else '6';
    assert AddrText(b)[0] == if b.NoAddr? then 'n' else if b.V4? then '4' else '6';
    if !a.NoAddr? && !b.NoAddr? {
      PrintIsInjective(a.bits, b.bits);
    }
  }

  /** A separator that occurs in neither first part tells the parts. */
  lemma SplitAt(a: string, b: string, c: string, d: string, sep: char)
    requires a + [sep] + b == c + [sep] + d
    requires sep !in a && sep !in c
    ensures a == c && b == d
  {
    var s, t := a + [sep] + b, c + [sep] + d;
    assert s[|a|] == sep && t[|c|] == sep;
    assert forall i :: 0 <= i < |a| ==> s[i] == a[i];
    assert forall i :: 0 <= i < |c| ==> t[i] == c[i];
    assert |a| == |c|;
    assert s[..|a|] == a && t[..|c|] == c;
    assert s[|a| + 1..] == b && t[|c| + 1..] == d;
  }

  lemma PrefixIsRead(c: Cidr)
    requires Valid(c)
    ensures PrefixOfText(PrefixText(c)) == Some(c)
  {
    hide AddrText, Valid;
    var s := PrefixText(c);
    ValidLength(c);
    var d :| Valid(d) && PrefixText(d) == s && PrefixOfText(s) == Some(d);
    ValidLength(d);
    AddrTextIsShort(c.addr);
    AddrTextIsShort(d.addr);
    assert PrefixText(c) == AddrText(c.addr) + ['/'] + Print(c.len);
    assert PrefixText(d) == AddrText(d.addr) + ['/'] + Print(d.len);
    SplitAt(AddrText(c.addr), Print(c.len), AddrText(d.addr), Print(d.len), '/');
    AddrTextIsInjective(c.addr, d.addr);
    PrintIsInjective(c.len, d.len);
  }

  lemma ValidLength(c: Cidr)
    requires Valid(c)
    ensures c.len >= 0
  {
  }

  /** Text forms as assumed exist. */
  lemma FaithfulExists()
    ensures exists f :: Faithful(f)
  {
    hide Valid, AddrText;
    var f := TextForm(PrefixText, PrefixOfText);
    forall c | Valid(c)
      ensures PrefixOfText(PrefixText(c)) == Some(c) && ',' !in PrefixText(c)
    {
      PrefixIsRead(c);
      AddrTextIsShort(c.addr);
    }
    assert PrefixOfText("").None? by {
      forall c
        ensures PrefixText(c) != ""
      {
        AddrTextIsShort(c.addr);
      }
    }
    assert Faithful(f);
  }

  /** `strings.Split` at commas; the empty text has one, empty, part. */
  function Split(s: string): (parts: seq<string>)
    ensures |parts| >= 1
  {
    if s == "" then [""]
    else
      var rest := Split(s[1..]);
      if s[0] == ',' then [""] + rest else [[s[0]] + rest[0]] + rest[1..]
  }

  function Join(parts: seq<string>): string {
    if parts == [] then ""
    else if |parts| == 1 then parts[0]
    else parts[0] + "," + Join(parts[1..])
  }

  lemma {:induction false} SplitNoComma(s: string)
    requires ',' !in s
    ensures Split(s) == [s]
  {
    if s != "" {
      assert ',' !in s[1..];
      SplitNoComma(s[1..]);
      assert [s[0]] + s[1..] == s;
    }
  }

  lemma {:induction false} SplitAtComma(s: string, t: string)
    requires ',' !in s
    ensures Split(s + "," + t) == [s] + Split(t)
  {
    if s == "" {
      assert (s + "," + t)[1..] == t;
    } else {
      assert ',' !in s[1..];
      SplitAtComma(s[1..], t);
      assert (s + "," + t)[1..] == s[1..] + "," + t;
      assert [s[0]] + s[1..] == s;
    }
  }

  /** Splitting inverts joining, except that joining nothing yields one empty part. */
  lemma {:induction false} SplitJoin(parts: seq<string>)
    requires forall i :: 0 <= i < |parts| ==> ',' !in parts[i]
    ensures Split(Join(parts)) == if parts == [] then [""] else parts
  {
    if |parts| == 1 {
      SplitNoComma(parts[0]);
    } else if |parts| > 1 {
      SplitAtComma(parts[0], Join(parts[1..]));
      SplitJoin(parts[1..]);
    }
  }

  function Printed(f: TextForm, cidrs: seq<Cidr>): (parts: seq<string>)
    ensures |parts| == |cidrs|
    ensures forall i :: 0 <= i < |cidrs| ==> parts[i] == f.format(cidrs[i])
  {
    seq(|cidrs|, i requires 0 <= i < |cidrs| => f.format(cidrs[i]))
  }

  function CidrsToString(f: TextForm, cidrs: seq<Cidr>): string {
    Join(Printed(f, cidrs))
  }

  /** The parsed parts, or `None` as soon as one does not parse. */
  function ParseAll(f: TextForm, parts: seq<string>): (r: Option<seq<Cidr>>)
    ensures r.Some? ==> |r.value| == |parts|
  {
    if parts == [] then Some([]) else
    var init := ParseAll(f, parts[..|parts| - 1]);
    var last := f.parse(parts[|parts| - 1]);
    if init.None? || last.None? then None else Some(init.value + [last.value])
  }

  /** What `CidrsFromString` is meant to return; callers that ignore its error work with an empty list. */
  function Parsed(f: TextForm, s: string): Option<seq<Cidr>> {
    ParseAll(f, Split(s))
  }

  function ParsedOrEmpty(f: TextForm, s: string): seq<Cidr> {
    if Parsed(f, s).Some? then Parsed(f, s).value else []
  }

  method CidrsFromString(f: TextForm, s: string) returns (r: Option<seq<Cidr>>)
    ensures r == Parsed(f, s)
  {
    var strParts := Split(s);
    var cidrs: seq<Cidr> := [];
    for i := 0 to |strParts|
      invariant ParseAll(f, strParts[..i]) == Some(cidrs)
    {
      assert strParts[..i + 1][..i] == strParts[..i];
      var cidr := f.parse(strParts[i]);
      if cidr.None? {
        NoneStays(f, strParts, i + 1);
        return None;
      }
      cidrs := cidrs + [cidr.value];
    }
    assert strParts[..|strParts|] == strParts;
    return Some(cidrs);
  }

  lemma {:induction false} NoneStays(f: TextForm, parts: seq<string>, i: nat)
    requires i <= |parts| && ParseAll(f, parts[..i]).None?
    ensures ParseAll(f, parts).None?
  {
    if i < |parts| {
      assert parts[..|parts| - 1][..i] == parts[..i];
      NoneStays(f, parts[..|parts| - 1], i);
    } else {
      assert parts[..i] == parts;
    }
  }

  lemma {:induction false} ParseAllPrinted(f: TextForm, cidrs: seq<Cidr>)
    requires Faithful(f) && forall i :: 0 <= i < |cidrs| ==> Valid(cidrs[i])
    ensures ParseAll(f, Printed(f, cidrs)) == Some(cidrs)
  {
    hide Valid;
    if cidrs != [] {
      var n := |cidrs| - 1;
      ParseAllPrinted(f, cidrs[..n]);
      assert Printed(f, cidrs)[..n] == Printed(f, cidrs[..n]);
      assert Valid(cidrs[n]);
      assert cidrs == cidrs[..n] + [cidrs[n]];
    }
  }

  /** A list survives printing and parsing exactly when it is not empty; the empty list does not parse. */
  lemma ListRoundTrip(f: TextForm, cidrs: seq<Cidr>)
    requires Faithful(f) && forall i :: 0 <= i < |cidrs| ==> Valid(cidrs[i])
    ensures Parsed(f, CidrsToString(f, cidrs)) == if cidrs == [] then None else Some(cidrs)
    ensures ParsedOrEmpty(f, CidrsToString(f, cidrs)) == cidrs
  {
    SplitJoin(Printed(f, cidrs));
    if cidrs == [] {
      assert ParseAll(f, [""][..0]) == Some([]);
    } else {
      ParseAllPrinted(f, cidrs);
    }
  }
}

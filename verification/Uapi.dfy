/**
  The line protocol of amneziawg-go: the parser of a device dump, and the message that sets a peer.
  A character stands for a byte.
*/
module Uapi {
  import opened Wrappers
  import opened Base64
  import opened Arithmetic
  import opened Cidrs
  import opened CidrText
  import opened Decimal

  // ---------------------------------------------------------------------- keys

  const KEY_LEN := 32

  type Key = k: Text | |k| == KEY_LEN witness Zeros(KEY_LEN)

  const ZERO_KEY: Key := Zeros(KEY_LEN)

  function Zeros(n: nat): (t: Text)
    ensures |t| == n
    ensures forall i :: 0 <= i < n ==> t[i] == 0
  {
    if n == 0 then [] else Zeros(n - 1) + [0]
  }

  function HexDigit(v: int): (c: char)
    requires 0 <= v < 16
  {
    if v < 10 then '0' + v as char else 'a' + (v - 10) as char
  }

  /** The value of a digit of either case, or -1. */
  function HexValue(c: char): (v: int)
    ensures -1 <= v < 16
  {
    if '0' <= c <= '9' then c as int - '0' as int
    else if 'a' <= c <= 'f' then c as int - 'a' as int + 10
    else if 'A' <= c <= 'F' then c as int - 'A' as int + 10
    else -1
  }

  function HexEncode(bs: Text): (s: string)
    ensures |s| == 2 * |bs|
  {
    if bs == [] then "" else [HexDigit(bs[0] / 16), HexDigit(bs[0] % 16)] + HexEncode(bs[1..])
  }

  function HexDecode(s: string): (r: Option<Text>)
    ensures r.Some? ==> 2 * |r.value| == |s|
  {
    if s == "" then Some([])
    else if |s| == 1 || HexValue(s[0]) < 0 || HexValue(s[1]) < 0 then None
    else
      match HexDecode(s[2..])
      case None => None
      case Some(rest) => Some([HexValue(s[0]) * 16 + HexValue(s[1])] + rest)
  }

  lemma {:induction false} HexRoundTrip(bs: Text)
    ensures HexDecode(HexEncode(bs)) == Some(bs)
    ensures forall i :: 0 <= i < |HexEncode(bs)| ==> HexValue(HexEncode(bs)[i]) >= 0
  {
    if bs != [] {
      HexRoundTrip(bs[1..]);
      assert bs == [bs[0]] + bs[1..];
      assert HexEncode(bs)[2..] == HexEncode(bs[1..]);
      assert HexValue(HexDigit(bs[0] / 16)) == bs[0] / 16 && HexValue(HexDigit(bs[0] % 16)) == bs[0] % 16;
    }
  }

  /** The digits of each byte, high half first; either case is read. */
  lemma {:induction false} HexDigits(bs: Text, i: nat)
    requires i < |bs|
    ensures HexEncode(bs)[2 * i] == "0123456789abcdef"[bs[i] / 16]
    ensures HexEncode(bs)[2 * i + 1] == "0123456789abcdef"[bs[i] % 16]
    ensures HexValue("0123456789abcdef"[bs[i] / 16]) == HexValue("0123456789ABCDEF"[bs[i] / 16]) == bs[i] / 16
  {
    if i > 0 {
      HexDigits(bs[1..], i - 1);
    }
  }

  /** The hexadecimal form of a base64 key; empty if it does not decode. */
  function UAPIKeyToHex(keyB64: Text): string {
    match Decode(Std, StripLineBreaks(keyB64))
    case None => ""
    case Some(raw) => HexEncode(raw)
  }

  /** Anything but 32 bytes in hexadecimal reads as the zero key. */
  function ParseHexKey(s: string): Key {
    match HexDecode(s)
    case None => ZERO_KEY
    case Some(raw) => if |raw| == KEY_LEN then raw else ZERO_KEY
  }

  /** A base64 key printed in hexadecimal is read back, if it has 32 bytes; otherwise it becomes the zero key. */
  lemma KeyRoundTrip(raw: Text)
    ensures UAPIKeyToHex(Encode(raw)) == HexEncode(raw)
    ensures ParseHexKey(UAPIKeyToHex(Encode(raw))) == if |raw| == KEY_LEN then raw else ZERO_KEY
  {
    EncodedHasNoLineBreaks(raw);
    DecodeEncode(raw);
    HexRoundTrip(raw);
  }

  // ---------------------------------------------------------------------- lines

  /** A line of more bytes than the scanner buffers, with its terminator, is an error. */
  const MAX_LINE := 65535

  function IndexOf(s: string, c: char): (i: nat)
    ensures i <= |s|
    ensures forall k :: 0 <= k < i ==> s[k] != c
    ensures i < |s| ==> s[i] == c
  {
    if s == "" || s[0] == c then 0 else 1 + IndexOf(s[1..], c)
  }

  function DropCR(line: string): string {
    if line != "" && line[|line| - 1] == '\r' then line[..|line| - 1] else line
  }

  /** What the scanner delivers, and whether it then stopped with an error. */
  datatype Scanned = Scanned(lines: seq<string>, failed: bool)

  /** `bufio.ScanLines` over everything read before the end, or before a read error. */
  function ScanLines(text: string, readFails: bool): Scanned
    decreases |text|
  {
    if text == "" then Scanned([], readFails)
    else
      var e := IndexOf(text, '\n');
      if e > MAX_LINE then Scanned([], true)
      else
        var more := ScanLines(if e < |text| then text[e + 1..] else "", readFails);
        Scanned([DropCR(text[..e])] + more.lines, more.failed)
  }

  function Unlines(lines: seq<string>): string {
    if lines == [] then "" else lines[0] + "\n" + Unlines(lines[1..])
  }

  predicate Plain(s: string) {
    '\n' !in s && '\r' !in s
  }

  lemma {:induction false} IndexAfter(s: string, c: char, rest: string)
    requires c !in s
    ensures IndexOf(s + [c] + rest, c) == |s|
  {
    if s == "" {
      assert (s + [c] + rest)[0] == c;
    } else {
      assert (s + [c] + rest)[1..] == s[1..] + [c] + rest;
      assert c !in s[1..];
      IndexAfter(s[1..], c, rest);
    }
  }

  /** Lines that were written are scanned again. */
  lemma {:induction false} ScanUnlines(lines: seq<string>, readFails: bool)
    requires forall i :: 0 <= i < |lines| ==> Plain(lines[i]) && |lines[i]| <= MAX_LINE
    ensures ScanLines(Unlines(lines), readFails) == Scanned(lines, readFails)
  {
    if lines != [] {
      var text := Unlines(lines);
      var rest := Unlines(lines[1..]);
      IndexAfter(lines[0], '\n', rest);
      assert text == lines[0] + ['\n'] + rest;
      assert text[|lines[0]| + 1..] == rest && text[..|lines[0]|] == lines[0];
      ScanUnlines(lines[1..], readFails);
    }
  }

  function UnlinesCR(lines: seq<string>): string {
    if lines == [] then "" else lines[0] + "\r\n" + UnlinesCR(lines[1..])
  }

  /** A carriage return before the end of a line is dropped. */
  lemma {:induction false} ScanUnlinesCR(lines: seq<string>, readFails: bool)
    requires forall i :: 0 <= i < |lines| ==> Plain(lines[i]) && |lines[i]| < MAX_LINE
    ensures ScanLines(UnlinesCR(lines), readFails) == Scanned(lines, readFails)
  {
    if lines != [] {
      var text := UnlinesCR(lines);
      var rest := UnlinesCR(lines[1..]);
      var first := lines[0] + ['\r'];
      IndexAfter(first, '\n', rest);
      assert text == first + ['\n'] + rest;
      assert text[|first| + 1..] == rest && text[..|first|] == first;
      ScanUnlinesCR(lines[1..], readFails);
    }
  }

  /** A line that is too long ends the scan with an error; the lines before it are delivered. */
  lemma {:induction false} LongLineFails(lines: seq<string>, long: string, readFails: bool)
    requires forall i :: 0 <= i < |lines| ==> Plain(lines[i]) && |lines[i]| <= MAX_LINE
    requires '\n' !in long && |long| >= 65536
    ensures ScanLines(Unlines(lines) + long, readFails) == Scanned(lines, true)
  {
    if lines == [] {
      assert Unlines([]) + long == long;
    } else {
      var text := Unlines(lines) + long;
      var rest := Unlines(lines[1..]) + long;
      IndexAfter(lines[0], '\n', rest);
      assert text == lines[0] + ['\n'] + rest;
      assert text[|lines[0]| + 1..] == rest && text[..|lines[0]|] == lines[0];
      LongLineFails(lines[1..], long, readFails);
    }
  }

  predicate IsPair(line: string) {
    IndexOf(line, '=') < |line|
  }

  function KeyOf(line: string): string {
    line[..IndexOf(line, '=')]
  }

  function ValOf(line: string): string
    requires IsPair(line)
  {
    line[IndexOf(line, '=') + 1..]
  }

  function Line(key: string, val: string): string {
    key + "=" + val
  }

  lemma PairParts(key: string, val: string)
    requires '=' !in key
    ensures var line := Line(key, val);
            IsPair(line) && KeyOf(line) == key && ValOf(line) == val
  {
    IndexAfter(key, '=', val);
    assert key + "=" + val == key + ['='] + val;
  }

  // ---------------------------------------------------------------------- fields

  datatype Endpoint = Endpoint(addr: Addr, port: nat)

  predicate IsEndpoint(e: Endpoint) {
    IsAddr(e.addr) && e.port < 0x1_0000
  }

  /** How package net reads and package netip prints addresses. */
  datatype Forms = Forms(
    resolve: string -> Option<Endpoint>,
    parseNet: string -> Option<Cidr>,
    formatEndpoint: Endpoint -> string,
    formatCidr: Cidr -> string)

  /** What is assumed of them: printing is inverted by reading, which masks prefixes. */
  ghost predicate Faithful(f: Forms) {
    && (forall e :: IsEndpoint(e) ==>
         var s := f.formatEndpoint(e); Plain(s) && 0 < |s| < 256 && f.resolve(s) == Some(e))
    && (forall c :: Valid(c) ==>
         var s := f.formatCidr(c); Plain(s) && |s| < 256 && f.parseNet(s) == Some(NetworkAddr(c)))
  }

  ghost function TextOfEndpoint(e: Endpoint): string {
    AddrText(e.addr) + ":" + Print(e.port)
  }

  ghost function EndpointOfText(s: string): Option<Endpoint> {
    if exists e :: IsEndpoint(e) && TextOfEndpoint(e) == s
    then var e :| IsEndpoint(e) && TextOfEndpoint(e) == s; Some(e)
    else None
  }

  ghost function NetworkOfText(s: string): Option<Cidr> {
    match PrefixOfText(s)
    case None => None
    case Some(c) => if Valid(c) then Some(NetworkAddr(c)) else None
  }

  /** Such forms exist, so that what is proved of them is not empty. */
  lemma FaithfulFormsExist()
    ensures exists f :: Faithful(f)
  {
    hide NetworkAddr, Plain, AddrText;
    var f := Forms(EndpointOfText, NetworkOfText, TextOfEndpoint, PrefixText);
    forall e | IsEndpoint(e)
      ensures var s := TextOfEndpoint(e); Plain(s) && 0 < |s| < 256 && EndpointOfText(s) == Some(e)
    {
      EndpointIsRead(e);
    }
    forall c | Valid(c)
      ensures var s := PrefixText(c); Plain(s) && |s| < 256 && NetworkOfText(s) == Some(NetworkAddr(c))
    {
      PrefixIsRead(c);
      PrefixTextIsShort(c);
    }
    assert Faithful(f);
  }

  lemma EndpointIsRead(e: Endpoint)
    requires IsEndpoint(e)
    ensures var s := TextOfEndpoint(e); Plain(s) && 0 < |s| < 256 && EndpointOfText(s) == Some(e)
  {
    hide IsAddr, AddrText;
    var s := TextOfEndpoint(e);
    AddrTextIsShort(e.addr);
    Pow2Values();
    PrintLengthByBits(e.port, 16);
    DigitsArePlain(Print(e.port));
    var other :| IsEndpoint(other) && TextOfEndpoint(other) == s && EndpointOfText(s) == Some(other);
    AddrTextIsShort(other.addr);
    assert TextOfEndpoint(e) == AddrText(e.addr) + [':'] + Print(e.port);
    assert TextOfEndpoint(other) == AddrText(other.addr) + [':'] + Print(other.port);
    SplitAt(AddrText(e.addr), Print(e.port), AddrText(other.addr), Print(other.port), ':');
    AddrTextIsInjective(e.addr, other.addr);
    PrintIsInjective(e.port, other.port);
  }

  lemma Pow2Values()
    ensures Pow2(16) == 0x1_0000
  {
    SmallPowers();
    Pow2Add(8, 8);
  }

  lemma PrefixTextIsShort(c: Cidr)
    requires Valid(c)
    ensures Plain(PrefixText(c)) && |PrefixText(c)| < 256
  {
    hide AddrText;
    AddrTextIsShort(c.addr);
    Pow2Values();
    PrintLengthByBits(c.len, 16);
    DigitsArePlain(Print(c.len));
  }

  /** Durations are 64-bit counts of nanoseconds. */
  function Seconds(n: int): int {
    (n * 1_000_000_000 + MAX_INT64 + 1) % 0x1_0000_0000_0000_0000 - MAX_INT64 - 1
  }

  datatype Peer = Peer(
    publicKey: Key, presharedKey: Key, endpoint: Option<Endpoint>, keepalive: int, lastHandshake: Option<int>,
    rxBytes: int, txBytes: int, allowedIPs: seq<Cidr>, protocolVersion: int)

  function NewPeer(publicKey: Key): Peer {
    Peer(publicKey, ZERO_KEY, None, 0, None, 0, 0, [], 0)
  }

  /** A peer that is being read, with the halves of its handshake time. */
  datatype Reading = Reading(peer: Peer, hsSec: int, hsNano: int)

  datatype Fields = Fields(privateKey: Key, listenPort: int, firewallMark: int)

  const NO_FIELDS := Fields(ZERO_KEY, 0, 0)

  datatype Device = Device(fields: Fields, peers: seq<Peer>)

  function DeviceField(fields: Fields, key: string, val: string): Fields {
    var n := ParseInt64(val);
    if key == "private_key" then fields.(privateKey := ParseHexKey(val))
    else if key == "listen_port" && n.Some? then fields.(listenPort := n.value)
    else if key == "fwmark" && n.Some? then fields.(firewallMark := n.value)
    else fields
  }

  function PeerField(f: Forms, r: Reading, key: string, val: string): Reading {
    var p := r.peer;
    var n := ParseInt64(val);
    if key == "preshared_key" then r.(peer := p.(presharedKey := ParseHexKey(val)))
    else if key == "endpoint" then
      if f.resolve(val).Some? then r.(peer := p.(endpoint := f.resolve(val))) else r
    else if key == "last_handshake_time_sec" then
      if n.Some? then r.(hsSec := n.value) else r
    else if key == "last_handshake_time_nsec" then
      var nano := if n.Some? then n.value else r.hsNano;
      if r.hsSec > 0 || nano > 0
      then r.(hsNano := nano, peer := p.(lastHandshake := Some(r.hsSec * 1_000_000_000 + nano)))
      else r.(hsNano := nano)
    else if key == "tx_bytes" then
      if n.Some? then r.(peer := p.(txBytes := n.value)) else r
    else if key == "rx_bytes" then
      if n.Some? then r.(peer := p.(rxBytes := n.value)) else r
    else if key == "persistent_keepalive_interval" then
      if n.Some? then r.(peer := p.(keepalive := Seconds(n.value))) else r
    else if key == "protocol_version" then
      if n.Some? then r.(peer := p.(protocolVersion := n.value)) else r
    else if key == "allowed_ip" then
      if f.parseNet(val).Some? then r.(peer := p.(allowedIPs := p.allowedIPs + [f.parseNet(val).value])) else r
    else r
  }

  /** The nonzero error number a line reports. */
  function ErrnoOf(line: string): Option<int> {
    if IsPair(line) && KeyOf(line) == "errno" && ParseInt64(ValOf(line)).Some?
       && ParseInt64(ValOf(line)).value != 0
    then ParseInt64(ValOf(line))
    else None
  }

  predicate StartsPeer(line: string) {
    IsPair(line) && KeyOf(line) == "public_key"
  }

  // ---------------------------------------------------------------------- parsing block by block

  /** The lines before the first peer. */
  function Head(lines: seq<string>): seq<string> {
    if lines == [] then []
    else if Blocks(lines) == [] then lines
    else Head(lines[..|lines| - 1])
  }

  /** The lines of each peer: from its public key to the next one. */
  function Blocks(lines: seq<string>): (blocks: seq<seq<string>>)
    ensures forall i :: 0 <= i < |blocks| ==> blocks[i] != [] && StartsPeer(blocks[i][0])
  {
    if lines == [] then []
    else
      var n := |lines| - 1;
      var blocks := Blocks(lines[..n]);
      if StartsPeer(lines[n]) then blocks + [[lines[n]]]
      else if blocks == [] then []
      else blocks[..|blocks| - 1] + [blocks[|blocks| - 1] + [lines[n]]]
  }

  function Concat(blocks: seq<seq<string>>): seq<string> {
    if blocks == [] then [] else Concat(blocks[..|blocks| - 1]) + blocks[|blocks| - 1]
  }

  /** The device fields in a list of lines. */
  function HeadFields(lines: seq<string>): Fields {
    if lines == [] then NO_FIELDS
    else
      var n := |lines| - 1;
      var fields := HeadFields(lines[..n]);
      if IsPair(lines[n]) then DeviceField(fields, KeyOf(lines[n]), ValOf(lines[n])) else fields
  }

  /** One peer, read from its own block alone. */
  function ReadBlock(f: Forms, block: seq<string>): Reading
    requires block != [] && StartsPeer(block[0])
  {
    var n := |block| - 1;
    if n == 0 then Reading(NewPeer(ParseHexKey(ValOf(block[0]))), 0, 0)
    else
      var r := ReadBlock(f, block[..n]);
      if IsPair(block[n]) then PeerField(f, r, KeyOf(block[n]), ValOf(block[n])) else r
  }

  function ReadBlocks(f: Forms, blocks: seq<seq<string>>): (peers: seq<Peer>)
    requires forall i :: 0 <= i < |blocks| ==> blocks[i] != [] && StartsPeer(blocks[i][0])
    ensures |peers| == |blocks|
    ensures forall i :: 0 <= i < |blocks| ==> peers[i] == ReadBlock(f, blocks[i]).peer
  {
    seq(|blocks|, i requires 0 <= i < |blocks| => ReadBlock(f, blocks[i]).peer)
  }

  function FirstErrno(lines: seq<string>): Option<int> {
    if lines == [] then None
    else if FirstErrno(lines[..|lines| - 1]).Some? then FirstErrno(lines[..|lines| - 1])
    else ErrnoOf(lines[|lines| - 1])
  }

  function BlankAt(lines: seq<string>): (i: nat)
    ensures i <= |lines|
    ensures forall k :: 0 <= k < i ==> lines[k] != ""
    ensures i < |lines| ==> lines[i] == ""
  {
    if lines == [] || lines[0] == "" then 0 else 1 + BlankAt(lines[1..])
  }

  datatype ParseError = Errno(n: int) | ScanFailed

  /** The meaning of a dump: the lines up to the first blank one, taken apart at the public keys. */
  function Parse(f: Forms, s: Scanned): Result<Device, ParseError> {
    var dump := s.lines[..BlankAt(s.lines)];
    if FirstErrno(dump).Some? then Err(Errno(FirstErrno(dump).value))
    else if BlankAt(s.lines) == |s.lines| && s.failed then Err(ScanFailed)
    else Ok(Device(HeadFields(Head(dump)), ReadBlocks(f, Blocks(dump))))
  }

  // ---------------------------------------------------------------------- parsing in a single pass

  /** The parser: one pass, one current peer, and accumulators for the handshake shared by all peers. */
  method ParseAWGUAPIDevice(f: Forms, s: Scanned) returns (r: Result<Device, ParseError>)
    ensures r == Parse(f, s)
  {
    hide PeerField, DeviceField, IsPair, KeyOf, ErrnoOf, Head, Blocks, HeadFields, FirstErrno, ReadBlock, BlankAt;
    hide NewPeer, ParseHexKey, ParseInt64, StartsPeer, ReadBlocks;
    var fields, peers: seq<Peer>, hsSec, hsNano := NO_FIELDS, [], 0, 0;
    var lines := s.lines;
    var i := 0;
    NothingRead(f);
    while i < |lines| && lines[i] != ""
      invariant 0 <= i <= BlankAt(lines)
      invariant FirstErrno(lines[..i]).None?
      invariant fields == HeadFields(Head(lines[..i]))
      invariant |peers| == |Blocks(lines[..i])|
      invariant peers == ReadBlocks(f, Blocks(lines[..i]))
      invariant peers != [] ==> Reading(peers[|peers| - 1], hsSec, hsNano) == LastRead(f, lines[..i])
    {
      ghost var blocks := Blocks(lines[..i]);
      LineRead(f, lines, i);
      BlocksRead(f, blocks, lines[i]);
      if !IsPair(lines[i]) {
        NoPair(lines[i]);
        i := i + 1;
        continue;
      }
      var key, val := KeyOf(lines[i]), ValOf(lines[i]);
      PairLine(lines[i]);
      if key == "errno" {
        var errnoVal := ParseInt64(val);
        if errnoVal.Some? && errnoVal.value != 0 {
          assert lines[..BlankAt(lines)][..i + 1] == lines[..i + 1];
          ErrnoStays(lines[..BlankAt(lines)], i + 1);
          return Err(Errno(errnoVal.value));
        }
      } else if key == "public_key" {
        peers := peers + [NewPeer(ParseHexKey(val))];
        hsSec, hsNano := 0, 0;
      } else if peers != [] {
        var last := |peers| - 1;
        var next := PeerField(f, Reading(peers[last], hsSec, hsNano), key, val);
        peers := peers[last := next.peer];
        hsSec, hsNano := next.hsSec, next.hsNano;
      } else {
        fields := DeviceField(fields, key, val);
      }
      i := i + 1;
    }
    assert i == BlankAt(lines);
    if i == |lines| && s.failed {
      return Err(ScanFailed);
    }
    return Ok(Device(fields, peers));
  }

  function LastRead(f: Forms, lines: seq<string>): Reading
    requires Blocks(lines) != []
  {
    ReadBlock(f, Blocks(lines)[|Blocks(lines)| - 1])
  }

  lemma NothingRead(f: Forms)
    ensures FirstErrno([]).None? && Head([]) == [] && HeadFields([]) == NO_FIELDS && Blocks([]) == []
    ensures ReadBlocks(f, []) == []
  {
  }

  lemma NoPair(line: string)
    requires !IsPair(line)
    ensures ErrnoOf(line).None? && !StartsPeer(line)
  {
  }

  lemma PairLine(line: string)
    requires IsPair(line)
    ensures StartsPeer(line) <==> KeyOf(line) == "public_key"
    ensures ErrnoOf(line) ==
              if KeyOf(line) == "errno" && ParseInt64(ValOf(line)).Some? && ParseInt64(ValOf(line)).value != 0
              then ParseInt64(ValOf(line)) else None
    ensures KeyOf(line) == "errno" ==> forall f, r :: PeerField(f, r, KeyOf(line), ValOf(line)) == r
    ensures KeyOf(line) == "errno" ==> forall d :: DeviceField(d, KeyOf(line), ValOf(line)) == d
  {
  }

  lemma {:induction false} ErrnoStays(lines: seq<string>, i: nat)
    requires i <= |lines| && FirstErrno(lines[..i]).Some?
    ensures FirstErrno(lines) == FirstErrno(lines[..i])
  {
    hide ErrnoOf;
    if i < |lines| {
      var n := |lines| - 1;
      assert lines[..n][..i] == lines[..i];
      ErrnoStays(lines[..n], i);
    } else {
      assert lines[..i] == lines;
    }
  }

  lemma BlocksRead(f: Forms, blocks: seq<seq<string>>, line: string)
    requires forall i :: 0 <= i < |blocks| ==> blocks[i] != [] && StartsPeer(blocks[i][0])
    ensures StartsPeer(line) ==>
              ReadBlocks(f, blocks + [[line]]) == ReadBlocks(f, blocks) + [ReadBlock(f, [line]).peer]
    ensures blocks != [] ==>
              var n := |blocks| - 1;
              ReadBlocks(f, blocks[..n] + [blocks[n] + [line]]) ==
              ReadBlocks(f, blocks)[n := ReadBlock(f, blocks[n] + [line]).peer]
  {
    hide StartsPeer, ReadBlock;
  }

  /** How reading one more line extends what was read. */
  lemma LineRead(f: Forms, lines: seq<string>, i: nat)
    requires i < |lines|
    ensures var was, now := lines[..i], lines[..i + 1];
            var line, blocks, n := lines[i], Blocks(was), |Blocks(was)| - 1;
            && (FirstErrno(was).None? ==> FirstErrno(now) == ErrnoOf(line))
            && (StartsPeer(line) ==>
                 Blocks(now) == blocks + [[line]] && Head(now) == Head(was) &&
                 ReadBlock(f, [line]) == Reading(NewPeer(ParseHexKey(ValOf(line))), 0, 0))
            && (!StartsPeer(line) && blocks == [] ==>
                 Blocks(now) == [] && Head(now) == Head(was) + [line] &&
                 HeadFields(Head(now)) ==
                   if IsPair(line) then DeviceField(HeadFields(Head(was)), KeyOf(line), ValOf(line))
                   else HeadFields(Head(was)))
            && (!StartsPeer(line) && blocks != [] ==>
                 Blocks(now) == blocks[..n] + [blocks[n] + [line]] && Head(now) == Head(was) &&
                 ReadBlock(f, blocks[n] + [line]) ==
                   if IsPair(line) then PeerField(f, ReadBlock(f, blocks[n]), KeyOf(line), ValOf(line))
                   else ReadBlock(f, blocks[n]))
  {
    hide PeerField, DeviceField, ErrnoOf, StartsPeer, Blocks, Head, HeadFields, ReadBlock, NewPeer, ParseHexKey;
    var was, now, line := lines[..i], lines[..i + 1], lines[i];
    assert now[..i] == was;
    var blocks := Blocks(was);
    BlocksGrow(now);
    if StartsPeer(line) {
      FirstOfBlock(f, line);
    } else if blocks == [] {
      HeadIsAll(was);
      assert now == was + [line];
      FieldRead(Head(was), line);
    } else {
      MoreOfBlock(f, blocks[|blocks| - 1], line);
    }
  }

  /** How the last line changes head and blocks. */
  lemma BlocksGrow(lines: seq<string>)
    requires lines != []
    ensures var n := |lines| - 1;
            var blocks, line := Blocks(lines[..n]), lines[n];
            && Blocks(lines) ==
                 (if StartsPeer(line) then blocks + [[line]]
                  else if blocks == [] then []
                  else blocks[..|blocks| - 1] + [blocks[|blocks| - 1] + [line]])
            && Head(lines) == if Blocks(lines) == [] then lines else Head(lines[..n])
  {
    hide StartsPeer;
  }

  lemma FirstOfBlock(f: Forms, line: string)
    requires StartsPeer(line)
    ensures ReadBlock(f, [line]) == Reading(NewPeer(ParseHexKey(ValOf(line))), 0, 0)
  {
  }

  lemma MoreOfBlock(f: Forms, block: seq<string>, line: string)
    requires block != [] && StartsPeer(block[0])
    ensures ReadBlock(f, block + [line]) ==
              if IsPair(line) then PeerField(f, ReadBlock(f, block), KeyOf(line), ValOf(line)) else ReadBlock(f, block)
  {
    hide PeerField, StartsPeer, IsPair;
    assert (block + [line])[..|block|] == block;
  }

  lemma FieldRead(head: seq<string>, line: string)
    ensures HeadFields(head + [line]) ==
              if IsPair(line) then DeviceField(HeadFields(head), KeyOf(line), ValOf(line)) else HeadFields(head)
  {
    hide DeviceField, IsPair;
    assert (head + [line])[..|head|] == head;
  }

  lemma HeadIsAll(lines: seq<string>)
    requires Blocks(lines) == []
    ensures Head(lines) == lines
  {
  }

  // ---------------------------------------------------------------------- what parsing by blocks means

  /** The dump falls into its head and its blocks; a public key stands at the start of each block only. */
  lemma {:induction false} BlocksPartition(lines: seq<string>)
    ensures lines == Head(lines) + Concat(Blocks(lines))
    ensures forall x :: x in Head(lines) ==> !StartsPeer(x)
    ensures forall k :: 0 <= k < |Blocks(lines)| ==> IsBlock(Blocks(lines)[k])
  {
    hide StartsPeer;
    if lines != [] {
      var n := |lines| - 1;
      var init := lines[..n];
      var blocks := Blocks(init);
      BlocksPartition(init);
      assert lines == init + [lines[n]];
      if StartsPeer(lines[n]) {
        assert (blocks + [[lines[n]]])[..|blocks|] == blocks;
      } else if blocks == [] {
        HeadIsAll(init);
      } else {
        var m := |blocks| - 1;
        assert (blocks[..m] + [blocks[m] + [lines[n]]])[..m] == blocks[..m];
      }
    }
  }

  predicate IsBlock(block: seq<string>) {
    block != [] && StartsPeer(block[0]) && forall i :: 0 < i < |block| ==> !StartsPeer(block[i])
  }

  lemma {:induction false} BlockLines(lines: seq<string>, k: nat)
    requires k < |Blocks(lines)|
    ensures forall i :: 0 <= i < |Blocks(lines)[k]| ==> Blocks(lines)[k][i] in lines
  {
    hide StartsPeer;
    var n := |lines| - 1;
    assert lines == lines[..n] + [lines[n]];
    if k < |Blocks(lines[..n])| {
      BlockLines(lines[..n], k);
    }
  }

  lemma {:induction false} SingleBlock(block: seq<string>)
    requires IsBlock(block)
    ensures Blocks(block) == [block] && Head(block) == []
  {
    hide StartsPeer;
    var n := |block| - 1;
    assert block == block[..n] + [block[n]];
    assert Blocks([]) == [];
    if n > 0 {
      SingleBlock(block[..n]);
    }
  }

  lemma {:induction false} NoErrnoIff(lines: seq<string>)
    ensures FirstErrno(lines).None? <==> forall i :: 0 <= i < |lines| ==> ErrnoOf(lines[i]).None?
  {
    hide ErrnoOf;
    if lines != [] {
      var n := |lines| - 1;
      NoErrnoIff(lines[..n]);
      assert forall i :: 0 <= i < n ==> lines[..n][i] == lines[i];
    }
  }

  /** A dump is refused for an error number iff a nonzero one is reported before the first blank line. */
  lemma FailsIffErrno(f: Forms, s: Scanned)
    ensures (Parse(f, s).Err? && Parse(f, s).error.Errno?) <==>
              exists i :: 0 <= i < BlankAt(s.lines) && ErrnoOf(s.lines[i]).Some?
    ensures Parse(f, s) == Err(ScanFailed) ==> s.failed && "" !in s.lines
  {
    hide ErrnoOf, Blocks, Head;
    var dump := s.lines[..BlankAt(s.lines)];
    NoErrnoIff(dump);
    assert forall i :: 0 <= i < |dump| ==> dump[i] == s.lines[i];
  }

  /** Each peer of a dump is the one the parser reads from its block alone: nothing of other blocks shows. */
  lemma PeerIsReadAlone(f: Forms, s: Scanned, k: nat)
    requires Parse(f, s).Ok? && k < |Parse(f, s).value.peers|
    ensures k < |Blocks(s.lines[..BlankAt(s.lines)])|
    ensures Parse(f, Scanned(Blocks(s.lines[..BlankAt(s.lines)])[k], false)) ==
              Ok(Device(NO_FIELDS, [Parse(f, s).value.peers[k]]))
  {
    hide ErrnoOf, StartsPeer, ReadBlock, Blocks, Head;
    var dump := s.lines[..BlankAt(s.lines)];
    var block := Blocks(dump)[k];
    BlocksPartition(dump);
    BlockLines(dump, k);
    SingleBlock(block);
    NothingRead(f);
    NoErrnoIff(dump);
    NoErrnoIff(block);
    assert BlankAt(block) == |block| by {
      assert forall i :: 0 <= i < |dump| ==> dump[i] != "";
    }
    assert block[..|block|] == block;
    assert ReadBlocks(f, [block]) == [ReadBlock(f, block).peer];
  }

  // ---------------------------------------------------------------------- the message that sets a peer

  datatype PeerConfig = PeerConfig(
    publicKey: Text, presharedKey: Text, endpoint: string, allowedIPs: seq<string>, keepalive: int)

  function AllowedLines(cidrs: seq<string>): (lines: seq<string>)
    ensures |lines| == |cidrs|
    ensures forall i :: 0 <= i < |cidrs| ==> lines[i] == Line("allowed_ip", cidrs[i])
  {
    seq(|cidrs|, i requires 0 <= i < |cidrs| => Line("allowed_ip", cidrs[i]))
  }

  function OptionalLine(present: bool, line: string): seq<string> {
    if present then [line] else []
  }

  function PresharedLine(config: PeerConfig): seq<string> {
    var pskHex := UAPIKeyToHex(config.presharedKey);
    OptionalLine(config.presharedKey != [] && pskHex != "", Line("preshared_key", pskHex))
  }

  function EndpointLine(config: PeerConfig): seq<string> {
    OptionalLine(config.endpoint != "", Line("endpoint", config.endpoint))
  }

  function KeepaliveLine(config: PeerConfig): seq<string> {
    OptionalLine(config.keepalive > 0,
      Line("persistent_keepalive_interval", if config.keepalive > 0 then Print(config.keepalive) else ""))
  }

  /** The lines of the peer. */
  function PeerLines(config: PeerConfig): seq<string> {
    [Line("public_key", UAPIKeyToHex(config.publicKey))] + PresharedLine(config) + EndpointLine(config)
    + AllowedLines(config.allowedIPs) + KeepaliveLine(config)
  }

  function Message(config: PeerConfig): Option<string> {
    if UAPIKeyToHex(config.publicKey) == "" then None
    else Some(Unlines([Line("set", "1")] + PeerLines(config) + [""]))
  }

  lemma {:induction false} UnlinesAppend(a: seq<string>, b: seq<string>)
    ensures Unlines(a + b) == Unlines(a) + Unlines(b)
  {
    if a == [] {
      assert a + b == b;
    } else {
      UnlinesAppend(a[1..], b);
      assert (a + b)[1..] == a[1..] + b;
    }
  }

  lemma UnlinesNone()
    ensures Unlines([]) == ""
  {
  }

  lemma UnlinesOne(line: string)
    ensures Unlines([line]) == line + "\n"
  {
    assert Unlines([line][1..]) == "";
  }

  /** The message `SetAWGPeer` writes to the socket; a public key that does not decode is refused. */
  method SetAWGPeerMessage(config: PeerConfig) returns (r: Option<string>)
    ensures r == Message(config)
  {
    hide Unlines, AllowedLines, UAPIKeyToHex, Line, Print, OptionalLine;
    var pubHex := UAPIKeyToHex(config.publicKey);
    if pubHex == "" {
      return None;
    }
    UnlinesNone();
    var buf, lines := WriteLine("", [], Line("set", "1"));
    buf, lines := WriteLine(buf, lines, Line("public_key", pubHex));
    var pskHex := UAPIKeyToHex(config.presharedKey);
    buf, lines := WriteOptional(
      buf, lines, config.presharedKey != [] && pskHex != "", Line("preshared_key", pskHex));
    buf, lines := WriteOptional(buf, lines, config.endpoint != "", Line("endpoint", config.endpoint));
    buf, lines := WriteAllowed(buf, lines, config.allowedIPs);
    var printed := if config.keepalive > 0 then Print(config.keepalive) else "";
    buf, lines := WriteOptional(buf, lines, config.keepalive > 0, Line("persistent_keepalive_interval", printed));
    assert lines == [Line("set", "1")] + PeerLines(config);
    buf, lines := WriteLine(buf, lines, "");
    return Some(buf);
  }

  method WriteAllowed(buf: string, ghost lines: seq<string>, cidrs: seq<string>)
    returns (r: string, ghost written: seq<string>)
    requires buf == Unlines(lines)
    ensures written == lines + AllowedLines(cidrs) && r == Unlines(written)
  {
    hide Unlines, Line;
    r, written := buf, lines;
    for i := 0 to |cidrs|
      invariant written == lines + AllowedLines(cidrs)[..i] && r == Unlines(written)
    {
      r, written := WriteLine(r, written, Line("allowed_ip", cidrs[i]));
    }
    assert AllowedLines(cidrs)[..|cidrs|] == AllowedLines(cidrs);
  }

  method WriteOptional(buf: string, ghost lines: seq<string>, present: bool, line: string)
    returns (r: string, ghost written: seq<string>)
    requires buf == Unlines(lines)
    ensures written == lines + OptionalLine(present, line) && r == Unlines(written)
  {
    hide Unlines;
    r, written := buf, lines;
    if present {
      r, written := WriteLine(r, written, line);
    }
  }

  method WriteLine(buf: string, ghost lines: seq<string>, line: string) returns (r: string, ghost written: seq<string>)
    requires buf == Unlines(lines)
    ensures written == lines + [line] && r == Unlines(written)
  {
    UnlinesAppend(lines, [line]);
    UnlinesOne(line);
    return buf + line + "\n", lines + [line];
  }

  // ---------------------------------------------------------------------- round trip

  /** A line that sets something and survives scanning. */
  predicate IsSetting(line: string) {
    IsPair(line) && KeyOf(line) != "errno" && Plain(line) && |line| <= MAX_LINE
  }

  predicate IsName(key: string) {
    '=' !in key && Plain(key) && |key| < 100 && key != "errno"
  }

  lemma PublicKeyName()
    ensures IsName("public_key")
  {
  }

  lemma PresharedKeyName()
    ensures IsName("preshared_key")
  {
  }

  lemma EndpointName()
    ensures IsName("endpoint")
  {
  }

  lemma AllowedIpName()
    ensures IsName("allowed_ip")
  {
  }

  lemma KeepaliveName()
    ensures IsName("persistent_keepalive_interval")
  {
  }

  lemma SettingLine(key: string, val: string)
    requires IsName(key) && Plain(val) && |val| < 60_000
    ensures var line := Line(key, val);
            IsSetting(line) && KeyOf(line) == key && ValOf(line) == val && (StartsPeer(line) <==> key == "public_key")
  {
    PairParts(key, val);
  }

  /** What is read from a message: the peer of its only block. */
  lemma MessageParses(f: Forms, block: seq<string>, readFails: bool)
    requires IsBlock(block) && forall i :: 0 <= i < |block| ==> IsSetting(block[i])
    ensures Parse(f, ScanLines(Unlines([Line("set", "1")] + block + [""]), readFails)) ==
              Ok(Device(NO_FIELDS, [ReadBlock(f, block).peer]))
  {
    hide ReadBlock, Unlines, ScanLines, StartsPeer, KeyOf, Blocks, Head, BlankAt, IsPair;
    SettingLine("set", "1");
    var dump := [Line("set", "1")] + block;
    var lines := dump + [""];
    ScanUnlines(lines, readFails);
    assert forall i :: 0 <= i < |dump| ==> IsSetting(dump[i]);
    SettingsAreNotBlank(dump);
    assert BlankAt(lines) == |dump| && lines[..|dump|] == dump;
    NoErrnoIff(dump);
    SetBlock(f, block);
    assert ReadBlocks(f, [block]) == [ReadBlock(f, block).peer];
  }

  lemma SettingsAreNotBlank(lines: seq<string>)
    requires forall i :: 0 <= i < |lines| ==> IsSetting(lines[i])
    ensures BlankAt(lines + [""]) == |lines|
    ensures forall i :: 0 <= i < |lines| ==> lines[i] != "" && ErrnoOf(lines[i]).None?
  {
    forall i | 0 <= i < |lines|
      ensures lines[i] != "" && ErrnoOf(lines[i]).None?
    {
    }
    var b := BlankAt(lines + [""]);
    assert (lines + [""])[|lines|] == "";
    assert forall i :: 0 <= i < |lines| ==> (lines + [""])[i] == lines[i];
  }

  lemma {:induction false} SetBlock(f: Forms, block: seq<string>)
    requires IsBlock(block)
    ensures Blocks([Line("set", "1")] + block) == [block]
    ensures HeadFields(Head([Line("set", "1")] + block)) == NO_FIELDS
  {
    hide StartsPeer;
    var dump := [Line("set", "1")] + block;
    var n := |block| - 1;
    assert dump[..|dump| - 1] == [Line("set", "1")] + block[..n];
    assert block == block[..n] + [block[n]];
    if n == 0 {
      SetLine();
      assert dump[..1] == [Line("set", "1")];
    } else {
      SetBlock(f, block[..n]);
    }
  }

  lemma SetLine()
    ensures var lines := [Line("set", "1")];
            Blocks(lines) == [] && Head(lines) == lines && HeadFields(lines) == NO_FIELDS
  {
    PairParts("set", "1");
    assert [Line("set", "1")][..0] == [];
    NothingRead(Forms(s => None, s => None, e => "", c => ""));
  }

  lemma ReadMore(f: Forms, block: seq<string>, key: string, val: string)
    requires block != [] && StartsPeer(block[0]) && '=' !in key
    ensures ReadBlock(f, block + [Line(key, val)]) == PeerField(f, ReadBlock(f, block), key, val)
  {
    PairParts(key, val);
    assert (block + [Line(key, val)])[..|block|] == block;
  }

  function Formatted(f: Forms, cidrs: seq<Cidr>): (s: seq<string>)
    ensures |s| == |cidrs|
    ensures forall i :: 0 <= i < |cidrs| ==> s[i] == f.formatCidr(cidrs[i])
  {
    seq(|cidrs|, i requires 0 <= i < |cidrs| => f.formatCidr(cidrs[i]))
  }

  function Masked(cidrs: seq<Cidr>): (s: seq<Cidr>)
    requires AllValid(cidrs)
    ensures |s| == |cidrs|
  {
    if cidrs == [] then [] else Masked(cidrs[..|cidrs| - 1]) + [NetworkAddr(cidrs[|cidrs| - 1])]
  }

  /** Reading the allowed networks appends them, masked and in order. */
  lemma {:induction false} ReadAllowed(f: Forms, block: seq<string>, cidrs: seq<Cidr>)
    requires Faithful(f) && block != [] && StartsPeer(block[0])
    requires AllValid(cidrs)
    requires ReadBlock(f, block).peer.allowedIPs == []
    ensures var r := ReadBlock(f, block);
            ReadBlock(f, block + AllowedLines(Formatted(f, cidrs))) == r.(peer := r.peer.(allowedIPs := Masked(cidrs)))
  {
    hide StartsPeer, Valid, NetworkAddr, ReadBlock;
    var lines := AllowedLines(Formatted(f, cidrs));
    if cidrs == [] {
      assert block + lines == block;
    } else {
      var n := |cidrs| - 1;
      ReadAllowed(f, block, cidrs[..n]);
      assert AllowedLines(Formatted(f, cidrs[..n])) == lines[..n];
      assert block + lines == block + lines[..n] + [Line("allowed_ip", f.formatCidr(cidrs[n]))];
      ReadMore(f, block + lines[..n], "allowed_ip", f.formatCidr(cidrs[n]));
    }
  }

  /** The configuration of a peer with the given keys, endpoint and networks. */
  function ConfigOf(
      f: Forms, publicKey: Text, presharedKey: Option<Key>, endpoint: Option<Endpoint>, cidrs: seq<Cidr>,
      keepalive: int): PeerConfig
  {
    PeerConfig(
      Encode(publicKey),
      if presharedKey.Some? then Encode(presharedKey.value) else [],
      if endpoint.Some? then f.formatEndpoint(endpoint.value) else "",
      Formatted(f, cidrs), keepalive)
  }

  /** The peer that is read from the message. */
  function Reflected(
      publicKey: Key, presharedKey: Option<Key>, endpoint: Option<Endpoint>, cidrs: seq<Cidr>, keepalive: int): Peer
    requires AllValid(cidrs)
  {
    Peer(publicKey, if presharedKey.Some? then presharedKey.value else ZERO_KEY, endpoint,
      if keepalive > 0 then Seconds(keepalive) else 0, None, 0, 0, Masked(cidrs), 0)
  }

  /** The lines of the peer form a block that survives scanning. */
  lemma PeerLinesAreSettings(
      f: Forms, publicKey: Key, presharedKey: Option<Key>, endpoint: Option<Endpoint>, cidrs: seq<Cidr>, keepalive: int)
    requires Faithful(f) && keepalive <= MAX_INT64 && (endpoint.Some? ==> IsEndpoint(endpoint.value))
    requires AllValid(cidrs)
    ensures var block := PeerLines(ConfigOf(f, publicKey, presharedKey, endpoint, cidrs, keepalive));
            IsBlock(block) && forall i :: 0 <= i < |block| ==> IsSetting(block[i])
  {
    hide StartsPeer, IsSetting, UAPIKeyToHex, Valid, HexEncode, Line, Print, Encode, AllowedLines, Plain, IsName;
    hide IsBlock;
    PublicKeyName();
    PresharedKeyName();
    EndpointName();
    KeepaliveName();
    var config := ConfigOf(f, publicKey, presharedKey, endpoint, cidrs, keepalive);
    KeyIsPlain(publicKey);
    SettingLine("public_key", UAPIKeyToHex(config.publicKey));
    if presharedKey.Some? {
      KeyIsPlain(presharedKey.value);
      SettingLine("preshared_key", UAPIKeyToHex(config.presharedKey));
    }
    if endpoint.Some? {
      SettingLine("endpoint", config.endpoint);
    }
    if keepalive > 0 {
      ParsePrinted(keepalive);
      DigitsArePlain(Print(keepalive));
      SettingLine("persistent_keepalive_interval", Print(keepalive));
    }
    AllowedAreOther(f, cidrs);
    var first := Line("public_key", UAPIKeyToHex(config.publicKey));
    BlockOf(first, PresharedLine(config), EndpointLine(config), AllowedLines(config.allowedIPs), KeepaliveLine(config));
  }

  predicate AreOther(lines: seq<string>) {
    forall i :: 0 <= i < |lines| ==> IsSetting(lines[i]) && !StartsPeer(lines[i])
  }

  lemma AllowedAreOther(f: Forms, cidrs: seq<Cidr>)
    requires Faithful(f) && AllValid(cidrs)
    ensures AreOther(AllowedLines(Formatted(f, cidrs)))
  {
    hide StartsPeer, IsSetting, Valid, Line, Plain, IsName;
    AllowedIpName();
    forall i | 0 <= i < |cidrs|
      ensures IsSetting(AllowedLines(Formatted(f, cidrs))[i]) && !StartsPeer(AllowedLines(Formatted(f, cidrs))[i])
    {
      SettingLine("allowed_ip", f.formatCidr(cidrs[i]));
    }
  }

  lemma BlockOf(first: string, a: seq<string>, b: seq<string>, c: seq<string>, d: seq<string>)
    requires IsSetting(first) && StartsPeer(first) && AreOther(a) && AreOther(b) && AreOther(c) && AreOther(d)
    ensures var block := [first] + a + b + c + d;
            IsBlock(block) && forall i :: 0 <= i < |block| ==> IsSetting(block[i])
  {
    hide StartsPeer, IsSetting;
  }

  lemma KeyIsPlain(key: Key)
    ensures Plain(UAPIKeyToHex(Encode(key))) && |UAPIKeyToHex(Encode(key))| == 64
  {
    hide HexEncode, UAPIKeyToHex;
    KeyRoundTrip(key);
    HexRoundTrip(key);
    var s := HexEncode(key);
    assert forall i :: 0 <= i < |s| ==> HexValue(s[i]) >= 0;
  }

  lemma DigitsArePlain(s: string)
    requires AllDigits(s)
    ensures Plain(s)
  {
  }

  /**
    Parsing the message that sets a peer gives back the public key, preshared key, endpoint and keepalive,
    and the networks in order, masked.
  */
  lemma MessageRoundTrip(
      f: Forms, publicKey: Key, presharedKey: Option<Key>, endpoint: Option<Endpoint>, cidrs: seq<Cidr>,
      keepalive: int, readFails: bool)
    requires Faithful(f) && keepalive <= MAX_INT64 && (endpoint.Some? ==> IsEndpoint(endpoint.value))
    requires AllValid(cidrs)
    ensures var config := ConfigOf(f, publicKey, presharedKey, endpoint, cidrs, keepalive);
            Message(config).Some? &&
            Parse(f, ScanLines(Message(config).value, readFails)) ==
              Ok(Device(NO_FIELDS, [Reflected(publicKey, presharedKey, endpoint, cidrs, keepalive)]))
  {
    hide ReadBlock, Unlines, ScanLines, StartsPeer, Valid, Parse, UAPIKeyToHex, PeerLines, IsBlock, IsSetting;
    var config := ConfigOf(f, publicKey, presharedKey, endpoint, cidrs, keepalive);
    PeerLinesAreSettings(f, publicKey, presharedKey, endpoint, cidrs, keepalive);
    MessageParses(f, PeerLines(config), readFails);
    ReadPeerLines(f, publicKey, presharedKey, endpoint, cidrs, keepalive);
    KeyIsPlain(publicKey);
  }

  lemma ReadPeerLines(
      f: Forms, publicKey: Key, presharedKey: Option<Key>, endpoint: Option<Endpoint>, cidrs: seq<Cidr>, keepalive: int)
    requires Faithful(f) && keepalive <= MAX_INT64 && (endpoint.Some? ==> IsEndpoint(endpoint.value))
    requires AllValid(cidrs)
    ensures var block := PeerLines(ConfigOf(f, publicKey, presharedKey, endpoint, cidrs, keepalive));
            block != [] && StartsPeer(block[0]) &&
            ReadBlock(f, block).peer == Reflected(publicKey, presharedKey, endpoint, cidrs, keepalive)
  {
    hide ReadBlock, StartsPeer, Valid, UAPIKeyToHex, Seconds, NetworkAddr, Encode, Line, OptionalLine, PeerField;
    hide PresharedLine, EndpointLine, KeepaliveLine, AllowedLines;
    var config := ConfigOf(f, publicKey, presharedKey, endpoint, cidrs, keepalive);
    var block := [Line("public_key", UAPIKeyToHex(config.publicKey))];
    FirstLine(f, publicKey);
    PresharedRead(f, block, config, presharedKey);
    block := block + PresharedLine(config);
    EndpointRead(f, block, config, endpoint);
    block := block + EndpointLine(config);
    ReadAllowed(f, block, cidrs);
    block := block + AllowedLines(config.allowedIPs);
    KeepaliveRead(f, block, config);
  }

  lemma PresharedRead(f: Forms, block: seq<string>, config: PeerConfig, presharedKey: Option<Key>)
    requires block != [] && StartsPeer(block[0])
    requires config.presharedKey == if presharedKey.Some? then Encode(presharedKey.value) else []
    ensures ReadBlock(f, block + PresharedLine(config)) ==
              var r := ReadBlock(f, block);
              if presharedKey.Some? then r.(peer := r.peer.(presharedKey := presharedKey.value)) else r
  {
    hide ReadBlock, StartsPeer, UAPIKeyToHex, Encode, Line, OptionalLine;
    var pskHex := UAPIKeyToHex(config.presharedKey);
    ReadOptional(f, block, config.presharedKey != [] && pskHex != "", "preshared_key", pskHex);
    if presharedKey.Some? {
      KeyIsPlain(presharedKey.value);
      KeyRoundTrip(presharedKey.value);
    }
  }

  lemma EndpointRead(f: Forms, block: seq<string>, config: PeerConfig, endpoint: Option<Endpoint>)
    requires Faithful(f) && block != [] && StartsPeer(block[0])
    requires endpoint.Some? ==> IsEndpoint(endpoint.value)
    requires config.endpoint == if endpoint.Some? then f.formatEndpoint(endpoint.value) else ""
    ensures ReadBlock(f, block + EndpointLine(config)) ==
              var r := ReadBlock(f, block);
              if endpoint.Some? then r.(peer := r.peer.(endpoint := endpoint)) else r
  {
    hide ReadBlock, StartsPeer, Line, OptionalLine, IsEndpoint;
    ReadOptional(f, block, config.endpoint != "", "endpoint", config.endpoint);
  }

  lemma KeepaliveRead(f: Forms, block: seq<string>, config: PeerConfig)
    requires block != [] && StartsPeer(block[0]) && config.keepalive <= MAX_INT64
    ensures ReadBlock(f, block + KeepaliveLine(config)) ==
              var r := ReadBlock(f, block);
              if config.keepalive > 0 then r.(peer := r.peer.(keepalive := Seconds(config.keepalive))) else r
  {
    hide ReadBlock, StartsPeer, Line, OptionalLine, Seconds;
    var printed := if config.keepalive > 0 then Print(config.keepalive) else "";
    ReadOptional(f, block, config.keepalive > 0, "persistent_keepalive_interval", printed);
    if config.keepalive > 0 {
      ParsePrinted(config.keepalive);
    }
  }

  lemma ReadOptional(f: Forms, block: seq<string>, present: bool, key: string, val: string)
    requires block != [] && StartsPeer(block[0]) && '=' !in key
    ensures ReadBlock(f, block + OptionalLine(present, Line(key, val))) ==
              if present then PeerField(f, ReadBlock(f, block), key, val) else ReadBlock(f, block)
  {
    hide ReadBlock, StartsPeer, PeerField, Line;
    if present {
      ReadMore(f, block, key, val);
    } else {
      assert block + [] == block;
    }
  }

  lemma FirstLine(f: Forms, publicKey: Key)
    ensures var line := Line("public_key", UAPIKeyToHex(Encode(publicKey)));
            StartsPeer(line) && ReadBlock(f, [line]) == Reading(NewPeer(publicKey), 0, 0)
  {
    PairParts("public_key", UAPIKeyToHex(Encode(publicKey)));
    KeyRoundTrip(publicKey);
  }

  /** The networks come back unchanged iff they are masked; the keepalive iff it fits a duration. */
  lemma UnchangedIff(cidrs: seq<Cidr>, keepalive: nat)
    requires keepalive <= MAX_INT64 && AllValid(cidrs)
    ensures Masked(cidrs) == cidrs <==> forall i :: 0 <= i < |cidrs| ==> NetworkAddr(cidrs[i]) == cidrs[i]
    ensures Seconds(keepalive) == keepalive * 1_000_000_000 <==> keepalive <= 9_223_372_036
  {
    MaskedIff(cidrs);
  }

  lemma {:induction false} MaskedIff(cidrs: seq<Cidr>)
    requires AllValid(cidrs)
    ensures Masked(cidrs) == cidrs <==> forall i :: 0 <= i < |cidrs| ==> NetworkAddr(cidrs[i]) == cidrs[i]
  {
    hide NetworkAddr;
    if cidrs != [] {
      var n := |cidrs| - 1;
      MaskedIff(cidrs[..n]);
      assert cidrs == cidrs[..n] + [cidrs[n]];
      assert Masked(cidrs)[..n] == Masked(cidrs[..n]) && Masked(cidrs)[n] == NetworkAddr(cidrs[n]);
    }
  }

  // ---------------------------------------------------------------------- whole dumps

  /** The integers a dump may hold. */
  predicate IsCount(n: int) {
    0 <= n <= MAX_INT64
  }

  /** The peers a dump can show: counters fit, the keepalive is a number of seconds, the networks are masked. */
  ghost predicate Showable(p: Peer) {
    && IsCount(p.protocolVersion) && IsCount(p.txBytes) && IsCount(p.rxBytes)
    && (p.endpoint.Some? ==> IsEndpoint(p.endpoint.value))
    && (p.lastHandshake.Some? ==> p.lastHandshake.value > 0 && IsCount(p.lastHandshake.value / 1_000_000_000))
    && 0 <= p.keepalive <= MAX_INT64 && p.keepalive % 1_000_000_000 == 0
    && AllValid(p.allowedIPs) && Masked(p.allowedIPs) == p.allowedIPs
  }

  ghost predicate ShowableDevice(d: Device) {
    && IsCount(d.fields.listenPort) && IsCount(d.fields.firewallMark)
    && AllShowable(d.peers)
  }

  ghost predicate AllShowable(peers: seq<Peer>) {
    forall i :: 0 <= i < |peers| ==> Showable(peers[i])
  }

  /** The lines of a peer in a dump, names spelled out; handshake and keepalive are held in nanoseconds. */
  ghost function PeerDump(f: Forms, p: Peer): (lines: seq<string>)
    requires Showable(p)
  {
    [Line("public_key", HexEncode(p.publicKey))]
    + KeyLines(p)
    + (if p.endpoint.Some? then [Line("endpoint", f.formatEndpoint(p.endpoint.value))] else [])
    + TimeLines(if p.lastHandshake.Some? then p.lastHandshake.value else 0)
    + CountLines(p)
    + AllowedLines(Formatted(f, p.allowedIPs))
  }

  ghost function KeyLines(p: Peer): seq<string>
    requires Showable(p)
  {
    [Line("preshared_key", HexEncode(p.presharedKey)), Line("protocol_version", Print(p.protocolVersion))]
  }

  function TimeLines(time: nat): seq<string> {
    [Line("last_handshake_time_sec", Print(time / 1_000_000_000)),
     Line("last_handshake_time_nsec", Print(time % 1_000_000_000))]
  }

  ghost function CountLines(p: Peer): seq<string>
    requires Showable(p)
  {
    [Line("tx_bytes", Print(p.txBytes)), Line("rx_bytes", Print(p.rxBytes)),
     Line("persistent_keepalive_interval", Print(p.keepalive / 1_000_000_000))]
  }

  ghost function PeerDumps(f: Forms, peers: seq<Peer>): (lines: seq<string>)
    requires AllShowable(peers)
  {
    if peers == [] then []
    else PeerDumps(f, peers[..|peers| - 1]) + PeerDump(f, peers[|peers| - 1])
  }

  function HeadDump(fields: Fields): seq<string>
    requires IsCount(fields.listenPort) && IsCount(fields.firewallMark)
  {
    [Line("private_key", HexEncode(fields.privateKey)),
     Line("listen_port", Print(fields.listenPort)),
     Line("fwmark", Print(fields.firewallMark))]
  }

  function PrintInt(n: int): string {
    if n < 0 then "-" + Print(-n) else Print(n)
  }

  /** The answer to a request for a dump. */
  ghost function DumpOf(f: Forms, d: Device, errno: int): (text: string)
    requires ShowableDevice(d)
  {
    Unlines(HeadDump(d.fields) + PeerDumps(f, d.peers) + [Line("errno", PrintInt(errno)), ""])
  }

  lemma ParsePrintedInt(n: int)
    requires -MAX_INT64 <= n <= MAX_INT64
    ensures ParseInt64(PrintInt(n)) == Some(n)
    ensures Plain(PrintInt(n)) && |PrintInt(n)| <= 20
  {
    hide Print;
    var m := if n < 0 then -n else n;
    ParsePrinted(m);
    ValuePrint(m);
    DigitsArePlain(Print(m));
    if n < 0 {
      assert PrintInt(n)[1..] == Print(m);
    }
  }

  /**
    Parsing a dump gives back the device it shows, with every field of every peer; an error number that is
    not zero is reported instead.
  */
  lemma DumpRoundTrip(f: Forms, d: Device, errno: int, readFails: bool)
    requires Faithful(f) && ShowableDevice(d) && -MAX_INT64 <= errno <= MAX_INT64
    ensures Parse(f, ScanLines(DumpOf(f, d, errno), readFails)) == if errno == 0 then Ok(d) else Err(Errno(errno))
  {
    hide ReadBlock, ReadBlocks, Unlines, ScanLines, StartsPeer, KeyOf, ValOf, Blocks, Head, HeadFields, BlankAt, IsPair;
    hide Showable, PeerDump, PeerDumps, HeadDump, Line, PrintInt, Print, IsSetting, FirstErrno, ErrnoOf;
    var told := HeadDump(d.fields) + PeerDumps(f, d.peers);
    var last := Line("errno", PrintInt(errno));
    var dump := told + [last];
    var lines := dump + [""];
    assert told + [last, ""] == lines;
    ToldLines(f, d);
    ErrnoLine(errno);
    SettingsArePlain(told);
    LinesAreScanned(dump, readFails);
    assert lines[..|dump|] == dump;
    NoErrnoIff(told);
    LineRead(f, dump, |told|);
    assert dump[..|told|] == told && dump[..|told| + 1] == dump;
    ErrnoAddsNothing(f, told, errno);
    DumpIsRead(f, d);
  }

  lemma SettingsArePlain(lines: seq<string>)
    requires AreSettings(lines)
    ensures forall i :: 0 <= i < |lines| ==> lines[i] != "" && Plain(lines[i]) && |lines[i]| <= MAX_LINE
    ensures forall i :: 0 <= i < |lines| ==> ErrnoOf(lines[i]).None?
  {
  }

  lemma LinesAreScanned(dump: seq<string>, readFails: bool)
    requires forall i :: 0 <= i < |dump| ==> dump[i] != "" && Plain(dump[i]) && |dump[i]| <= MAX_LINE
    ensures ScanLines(Unlines(dump + [""]), readFails) == Scanned(dump + [""], readFails)
    ensures BlankAt(dump + [""]) == |dump|
  {
    hide ScanLines, Unlines, BlankAt;
    var lines := dump + [""];
    assert forall i :: 0 <= i < |dump| ==> lines[i] == dump[i];
    assert lines[|dump|] == "" && Plain("");
    ScanUnlines(lines, readFails);
    assert BlankAt(lines) == |dump|;
  }

  lemma ErrnoLine(errno: int)
    requires -MAX_INT64 <= errno <= MAX_INT64
    ensures var line := Line("errno", PrintInt(errno));
            && IsPair(line) && KeyOf(line) == "errno" && !StartsPeer(line)
            && line != "" && Plain(line) && |line| <= MAX_LINE
            && ErrnoOf(line) == if errno == 0 then None else Some(errno)
  {
    hide PrintInt;
    PairParts("errno", PrintInt(errno));
    ParsePrintedInt(errno);
  }

  /** The line with the error number belongs to the last block, but sets nothing there. */
  lemma ErrnoAddsNothing(f: Forms, told: seq<string>, errno: int)
    requires -MAX_INT64 <= errno <= MAX_INT64
    ensures var dump := told + [Line("errno", PrintInt(errno))];
            && HeadFields(Head(dump)) == HeadFields(Head(told))
            && ReadBlocks(f, Blocks(dump)) == ReadBlocks(f, Blocks(told))
  {
    hide ReadBlock, StartsPeer, KeyOf, ValOf, Blocks, Head, HeadFields, IsPair, Line, PrintInt, FirstErrno, ErrnoOf;
    hide PeerField, DeviceField;
    var line := Line("errno", PrintInt(errno));
    var dump := told + [line];
    assert dump[..|told|] == told && dump[..|told| + 1] == dump;
    ErrnoLine(errno);
    PairLine(line);
    LineRead(f, dump, |told|);
    var blocks := Blocks(told);
    BlocksRead(f, blocks, line);
    if blocks != [] {
      var n := |blocks| - 1;
      assert ReadBlock(f, blocks[n] + [line]) == ReadBlock(f, blocks[n]);
    }
  }

  // What the lines of a dump are: settings, and blocks of settings.

  predicate AreSettings(lines: seq<string>) {
    forall i :: 0 <= i < |lines| ==> IsSetting(lines[i])
  }

  lemma ToldLines(f: Forms, d: Device)
    requires Faithful(f) && ShowableDevice(d)
    ensures AreSettings(HeadDump(d.fields) + PeerDumps(f, d.peers))
  {
    hide PeerDumps, HeadDump, IsSetting, Faithful, StartsPeer, Showable;
    HeadDumpLines(d.fields);
    PeerDumpsLines(f, d.peers);
  }

  lemma {:induction false} PeerDumpsLines(f: Forms, peers: seq<Peer>)
    requires Faithful(f) && AllShowable(peers)
    ensures AreSettings(PeerDumps(f, peers))
  {
    hide IsSetting, Faithful, Showable, PeerDump, StartsPeer;
    if peers != [] {
      PeerDumpsLines(f, peers[..|peers| - 1]);
      PeerDumpLines(f, peers[|peers| - 1]);
      assert AreSettings(PeerDump(f, peers[|peers| - 1]));
    }
  }

  lemma CountLine(key: string, n: nat)
    requires IsName(key) && IsCount(n)
    ensures IsSetting(Line(key, Print(n))) && (StartsPeer(Line(key, Print(n))) <==> key == "public_key")
  {
    hide Print, IsName, IsSetting, StartsPeer, Plain;
    ParsePrinted(n);
    DigitsArePlain(Print(n));
    SettingLine(key, Print(n));
  }

  lemma HexLine(key: string, k: Key)
    requires IsName(key)
    ensures IsSetting(Line(key, HexEncode(k))) && (StartsPeer(Line(key, HexEncode(k))) <==> key == "public_key")
  {
    hide HexEncode, IsName, IsSetting, StartsPeer, UAPIKeyToHex, Plain;
    KeyIsPlain(k);
    KeyRoundTrip(k);
    SettingLine(key, HexEncode(k));
  }

  lemma HeadDumpLines(fields: Fields)
    requires IsCount(fields.listenPort) && IsCount(fields.firewallMark)
    ensures AreOther(HeadDump(fields))
  {
    hide HexEncode, IsSetting, StartsPeer, Print, Line;
    HexLine("private_key", fields.privateKey);
    CountLine("listen_port", fields.listenPort);
    CountLine("fwmark", fields.firewallMark);
  }

  lemma ProtocolVersionName()
    ensures IsName("protocol_version")
  {
  }

  lemma HandshakeSecName()
    ensures IsName("last_handshake_time_sec")
  {
  }

  lemma HandshakeNsecName()
    ensures IsName("last_handshake_time_nsec")
  {
  }

  lemma BytesNames()
    ensures IsName("tx_bytes") && IsName("rx_bytes")
  {
  }

  lemma KeyLinesAreOther(p: Peer)
    requires Showable(p)
    ensures AreOther(KeyLines(p))
  {
    hide HexEncode, IsSetting, StartsPeer, Print, Line, Valid, IsName;
    PresharedKeyName();
    ProtocolVersionName();
    HexLine("preshared_key", p.presharedKey);
    CountLine("protocol_version", p.protocolVersion);
  }

  lemma TimeLinesAreOther(time: nat)
    requires IsCount(time / 1_000_000_000)
    ensures AreOther(TimeLines(time))
  {
    hide IsSetting, StartsPeer, Print, Line, IsName;
    HandshakeSecName();
    HandshakeNsecName();
    CountLine("last_handshake_time_sec", time / 1_000_000_000);
    CountLine("last_handshake_time_nsec", time % 1_000_000_000);
  }

  lemma CountLinesAreOther(p: Peer)
    requires Showable(p)
    ensures AreOther(CountLines(p))
  {
    hide IsSetting, StartsPeer, Print, Line, Valid, IsName;
    BytesNames();
    KeepaliveName();
    CountLine("tx_bytes", p.txBytes);
    CountLine("rx_bytes", p.rxBytes);
    CountLine("persistent_keepalive_interval", p.keepalive / 1_000_000_000);
  }

  lemma PeerDumpLines(f: Forms, p: Peer)
    requires Faithful(f) && Showable(p)
    ensures IsBlock(PeerDump(f, p)) && AreSettings(PeerDump(f, p))
  {
    hide HexEncode, IsSetting, StartsPeer, Print, Line, Valid, IsName, AllowedLines, Formatted, Plain, IsEndpoint;
    hide IsBlock, KeyLines, TimeLines, CountLines, AreOther;
    PublicKeyName();
    EndpointName();
    HexLine("public_key", p.publicKey);
    KeyLinesAreOther(p);
    var endpoint := if p.endpoint.Some? then [Line("endpoint", f.formatEndpoint(p.endpoint.value))] else [];
    if p.endpoint.Some? {
      SettingLine("endpoint", f.formatEndpoint(p.endpoint.value));
    }
    OptionalIsOther(endpoint);
    var time := if p.lastHandshake.Some? then p.lastHandshake.value else 0;
    TimeLinesAreOther(time);
    CountLinesAreOther(p);
    AllowedAreOther(f, p.allowedIPs);
    OthersJoin(endpoint, TimeLines(time));
    var first := Line("public_key", HexEncode(p.publicKey));
    var allowed := AllowedLines(Formatted(f, p.allowedIPs));
    assert PeerDump(f, p) == [first] + KeyLines(p) + (endpoint + TimeLines(time)) + CountLines(p) + allowed;
    BlockOf(first, KeyLines(p), endpoint + TimeLines(time), CountLines(p), allowed);
  }

  lemma OptionalIsOther(lines: seq<string>)
    requires |lines| <= 1 && (lines != [] ==> IsSetting(lines[0]) && !StartsPeer(lines[0]))
    ensures AreOther(lines)
  {
    hide IsSetting, StartsPeer;
  }

  lemma OthersJoin(a: seq<string>, b: seq<string>)
    requires AreOther(a) && AreOther(b)
    ensures AreOther(a + b)
  {
    hide IsSetting, StartsPeer;
  }

  // How the lines of a dump are read.

  lemma DumpIsRead(f: Forms, d: Device)
    requires Faithful(f) && ShowableDevice(d)
    ensures var told := HeadDump(d.fields) + PeerDumps(f, d.peers);
            HeadFields(Head(told)) == d.fields && ReadBlocks(f, Blocks(told)) == d.peers
  {
    hide ReadBlock, StartsPeer, Blocks, Head, HeadFields, Showable, PeerDump, PeerDumps, HeadDump, IsSetting, Faithful;
    HeadDumpLines(d.fields);
    HeadIsRead(d.fields);
    DumpBlocks(f, HeadDump(d.fields), d.peers);
    forall i | 0 <= i < |d.peers| ensures ReadBlock(f, PeerDump(f, d.peers[i])).peer == d.peers[i] {
      PeerIsRead(f, d.peers[i]);
    }
  }

  lemma {:induction false} DumpBlocks(f: Forms, head: seq<string>, peers: seq<Peer>)
    requires Faithful(f) && AreOther(head) && AllShowable(peers)
    ensures var blocks := Blocks(head + PeerDumps(f, peers));
            |blocks| == |peers| && forall i :: 0 <= i < |peers| ==> blocks[i] == PeerDump(f, peers[i])
    ensures Head(head + PeerDumps(f, peers)) == head
  {
    hide StartsPeer, Blocks, Head, Showable, PeerDump, IsSetting, Faithful;
    if peers == [] {
      assert head + [] == head;
      NoBlocks(head);
    } else {
      var n := |peers| - 1;
      DumpBlocks(f, head, peers[..n]);
      PeerDumpLines(f, peers[n]);
      var told := head + PeerDumps(f, peers[..n]);
      assert head + PeerDumps(f, peers) == told + PeerDump(f, peers[n]);
      BlockAppended(told, PeerDump(f, peers[n]));
    }
  }

  lemma {:induction false} NoBlocks(head: seq<string>)
    requires AreOther(head)
    ensures Blocks(head) == [] && Head(head) == head
  {
    hide StartsPeer, IsSetting;
    if head != [] {
      NoBlocks(head[..|head| - 1]);
    }
  }

  lemma {:induction false} BlockAppended(lines: seq<string>, block: seq<string>)
    requires IsBlock(block)
    ensures Blocks(lines + block) == Blocks(lines) + [block] && Head(lines + block) == Head(lines)
  {
    hide StartsPeer, Blocks, Head;
    var n := |block| - 1;
    var all := lines + block;
    assert all[..|all| - 1] == lines + block[..n] && all[|all| - 1] == block[n];
    assert block == block[..n] + [block[n]];
    BlocksGrow(all);
    if n == 0 {
      assert lines + [] == lines;
    } else {
      BlockAppended(lines, block[..n]);
    }
  }

  lemma HeadIsRead(fields: Fields)
    requires IsCount(fields.listenPort) && IsCount(fields.firewallMark)
    ensures HeadFields(HeadDump(fields)) == fields
  {
    hide HeadFields, HexEncode, UAPIKeyToHex, Print, Line, KeyOf, ValOf, IsPair, ParseInt64, ParseHexKey;
    assert HeadFields([]) == NO_FIELDS by { EmptyHead(); }
    KeyRoundTrip(fields.privateKey);
    FieldLine([], "private_key", HexEncode(fields.privateKey));
    var head := [] + [Line("private_key", HexEncode(fields.privateKey))];
    ParsePrinted(fields.listenPort);
    FieldLine(head, "listen_port", Print(fields.listenPort));
    head := head + [Line("listen_port", Print(fields.listenPort))];
    ParsePrinted(fields.firewallMark);
    FieldLine(head, "fwmark", Print(fields.firewallMark));
    assert head + [Line("fwmark", Print(fields.firewallMark))] == HeadDump(fields);
  }

  lemma EmptyHead()
    ensures HeadFields([]) == NO_FIELDS
  {
  }

  lemma FieldLine(head: seq<string>, key: string, val: string)
    requires '=' !in key
    ensures HeadFields(head + [Line(key, val)]) == DeviceField(HeadFields(head), key, val)
  {
    hide DeviceField, HeadFields, Line, KeyOf, ValOf, IsPair;
    PairParts(key, val);
    FieldRead(head, Line(key, val));
  }

  lemma PeerIsRead(f: Forms, p: Peer)
    requires Faithful(f) && Showable(p)
    ensures var block := PeerDump(f, p);
            block != [] && StartsPeer(block[0]) && ReadBlock(f, block).peer == p
  {
    hide ReadBlock, StartsPeer, Valid, UAPIKeyToHex, NetworkAddr, Line, PeerField, HexEncode, Print, IsEndpoint;
    hide AllowedLines, Formatted, KeyLines, TimeLines, CountLines;
    var block := [Line("public_key", HexEncode(p.publicKey))];
    KeyRoundTrip(p.publicKey);
    FirstLine(f, p.publicKey);
    KeysAreRead(f, block, p);
    block := block + KeyLines(p);
    EndpointIsListed(f, block, p.endpoint);
    block := block + if p.endpoint.Some? then [Line("endpoint", f.formatEndpoint(p.endpoint.value))] else [];
    var time := if p.lastHandshake.Some? then p.lastHandshake.value else 0;
    HandshakeIsRead(f, block, time);
    block := block + TimeLines(time);
    CountsAreRead(f, block, p);
    block := block + CountLines(p);
    ReadAllowed(f, block, p.allowedIPs);
    assert block + AllowedLines(Formatted(f, p.allowedIPs)) == PeerDump(f, p);
  }

  lemma EndpointIsListed(f: Forms, block: seq<string>, endpoint: Option<Endpoint>)
    requires Faithful(f) && block != [] && StartsPeer(block[0])
    requires endpoint.Some? ==> IsEndpoint(endpoint.value)
    ensures var lines := if endpoint.Some? then [Line("endpoint", f.formatEndpoint(endpoint.value))] else [];
            var r := ReadBlock(f, block);
            ReadBlock(f, block + lines) == if endpoint.Some? then r.(peer := r.peer.(endpoint := endpoint)) else r
  {
    hide ReadBlock, StartsPeer, Line, IsEndpoint, PeerField;
    if endpoint.Some? {
      ReadMore(f, block, "endpoint", f.formatEndpoint(endpoint.value));
      FieldIs(f, ReadBlock(f, block), "endpoint", f.formatEndpoint(endpoint.value));
    } else {
      assert block + [] == block;
    }
  }

  lemma FieldIs(f: Forms, r: Reading, key: string, val: string)
    ensures key == "preshared_key" ==> PeerField(f, r, key, val) == r.(peer := r.peer.(presharedKey := ParseHexKey(val)))
    ensures key == "endpoint" && f.resolve(val).Some? ==>
              PeerField(f, r, key, val) == r.(peer := r.peer.(endpoint := f.resolve(val)))
    ensures ParseInt64(val).Some? ==>
              var n := ParseInt64(val).value;
              && (key == "protocol_version" ==> PeerField(f, r, key, val) == r.(peer := r.peer.(protocolVersion := n)))
              && (key == "last_handshake_time_sec" ==> PeerField(f, r, key, val) == r.(hsSec := n))
              && (key == "last_handshake_time_nsec" ==>
                   PeerField(f, r, key, val) ==
                     var peer := if r.hsSec > 0 || n > 0
                                 then r.peer.(lastHandshake := Some(r.hsSec * 1_000_000_000 + n)) else r.peer;
                     Reading(peer, r.hsSec, n))
              && (key == "tx_bytes" ==> PeerField(f, r, key, val) == r.(peer := r.peer.(txBytes := n)))
              && (key == "rx_bytes" ==> PeerField(f, r, key, val) == r.(peer := r.peer.(rxBytes := n)))
              && (key == "persistent_keepalive_interval" ==>
                   PeerField(f, r, key, val) == r.(peer := r.peer.(keepalive := Seconds(n))))
  {
    hide ParseInt64, ParseHexKey, Seconds;
  }

  lemma KeysAreRead(f: Forms, block: seq<string>, p: Peer)
    requires block != [] && StartsPeer(block[0]) && Showable(p)
    ensures var r := ReadBlock(f, block);
            ReadBlock(f, block + KeyLines(p)) ==
              r.(peer := r.peer.(presharedKey := p.presharedKey, protocolVersion := p.protocolVersion))
  {
    hide ReadBlock, StartsPeer, Line, PeerField, HexEncode, Print, UAPIKeyToHex, ParseHexKey, ParseInt64, Valid;
    var r := ReadBlock(f, block);
    var first := Line("preshared_key", HexEncode(p.presharedKey));
    KeyRoundTrip(p.presharedKey);
    ReadMore(f, block, "preshared_key", HexEncode(p.presharedKey));
    FieldIs(f, r, "preshared_key", HexEncode(p.presharedKey));
    NumberIsRead(f, block + [first], "protocol_version", p.protocolVersion);
    FieldIs(f, ReadBlock(f, block + [first]), "protocol_version", Print(p.protocolVersion));
    assert block + [first] + [Line("protocol_version", Print(p.protocolVersion))] == block + KeyLines(p);
  }

  lemma NumberIsRead(f: Forms, block: seq<string>, key: string, n: nat)
    requires block != [] && StartsPeer(block[0]) && '=' !in key && IsCount(n)
    ensures ReadBlock(f, block + [Line(key, Print(n))]) == PeerField(f, ReadBlock(f, block), key, Print(n))
    ensures ParseInt64(Print(n)) == Some(n)
  {
    hide ReadBlock, StartsPeer, Line, PeerField, Print, ParseInt64;
    ReadMore(f, block, key, Print(n));
    ParsePrinted(n);
  }

  lemma HandshakeIsRead(f: Forms, block: seq<string>, time: nat)
    requires block != [] && StartsPeer(block[0]) && IsCount(time / 1_000_000_000)
    ensures var r := ReadBlock(f, block);
            ReadBlock(f, block + TimeLines(time)).peer == if time > 0 then r.peer.(lastHandshake := Some(time)) else r.peer
  {
    hide ReadBlock, StartsPeer, Line, PeerField, Print, ParseInt64;
    var sec, nano := time / 1_000_000_000, time % 1_000_000_000;
    var first, second := Line("last_handshake_time_sec", Print(sec)), Line("last_handshake_time_nsec", Print(nano));
    NumberIsRead(f, block, "last_handshake_time_sec", sec);
    FieldIs(f, ReadBlock(f, block), "last_handshake_time_sec", Print(sec));
    NumberIsRead(f, block + [first], "last_handshake_time_nsec", nano);
    FieldIs(f, ReadBlock(f, block + [first]), "last_handshake_time_nsec", Print(nano));
    assert block + [first] + [second] == block + TimeLines(time);
  }

  lemma SecondsFit(keepalive: nat)
    requires keepalive <= MAX_INT64 && keepalive % 1_000_000_000 == 0
    ensures Seconds(keepalive / 1_000_000_000) == keepalive
  {
  }

  lemma CountsAreRead(f: Forms, block: seq<string>, p: Peer)
    requires block != [] && StartsPeer(block[0]) && Showable(p)
    ensures var r := ReadBlock(f, block);
            ReadBlock(f, block + CountLines(p)).peer ==
              r.peer.(txBytes := p.txBytes, rxBytes := p.rxBytes, keepalive := p.keepalive)
  {
    hide ReadBlock, StartsPeer, Line, PeerField, Print, ParseInt64, Valid, IsEndpoint, Masked, AllValid, Seconds;
    var seconds := p.keepalive / 1_000_000_000;
    var lines := CountLines(p);
    var one, two := block + [lines[0]], block + [lines[0]] + [lines[1]];
    NumberIsRead(f, block, "tx_bytes", p.txBytes);
    FieldIs(f, ReadBlock(f, block), "tx_bytes", Print(p.txBytes));
    NumberIsRead(f, one, "rx_bytes", p.rxBytes);
    FieldIs(f, ReadBlock(f, one), "rx_bytes", Print(p.rxBytes));
    NumberIsRead(f, two, "persistent_keepalive_interval", seconds);
    SecondsFit(p.keepalive);
    FieldIs(f, ReadBlock(f, two), "persistent_keepalive_interval", Print(seconds));
    assert two + [lines[2]] == block + CountLines(p);
  }

  // ---------------------------------------------------------------------- lines that set nothing

  /** A value that cannot be read, of a setting that has one; or a name that is not known. */
  predicate SetsNothing(f: Forms, key: string, val: string) {
    match key
    case "listen_port" => ParseInt64(val).None?
    case "fwmark" => ParseInt64(val).None?
    case "endpoint" => f.resolve(val).None?
    case "last_handshake_time_sec" => ParseInt64(val).None?
    case "tx_bytes" => ParseInt64(val).None?
    case "rx_bytes" => ParseInt64(val).None?
    case "persistent_keepalive_interval" => ParseInt64(val).None?
    case "protocol_version" => ParseInt64(val).None?
    case "allowed_ip" => f.parseNet(val).None?
    case _ =>
      key !in {"errno", "private_key", "public_key", "preshared_key", "last_handshake_time_nsec"}
  }

  ghost predicate SameReading(f: Forms, a: seq<string>, b: seq<string>) {
    && FirstErrno(a) == FirstErrno(b)
    && HeadFields(Head(a)) == HeadFields(Head(b))
    && |Blocks(a)| == |Blocks(b)|
    && forall i :: 0 <= i < |Blocks(a)| ==> ReadBlock(f, Blocks(a)[i]) == ReadBlock(f, Blocks(b)[i])
  }

  /** A line that sets nothing may be left out of a dump, wherever it stands. */
  lemma MalformedIsIgnored(f: Forms, a: seq<string>, b: seq<string>, key: string, val: string, readFails: bool)
    requires '=' !in key && SetsNothing(f, key, val) && "" !in a && "" !in b
    ensures Parse(f, Scanned(a + [Line(key, val)] + b, readFails)) == Parse(f, Scanned(a + b, readFails))
  {
    hide SetsNothing, SameReading, Line, BlankAt;
    var line := Line(key, val);
    IgnoredLine(f, a, key, val);
    SameAfter(f, a + [line], a, b);
    PairParts(key, val);
    assert line != "" by { LineIsNotBlank(key, val); }
    ParsesAs(f, a + [line] + b, readFails);
    ParsesAs(f, a + b, readFails);
    SameReadingParses(f, a + [line] + b, a + b);
  }

  lemma LineIsNotBlank(key: string, val: string)
    ensures Line(key, val) != ""
  {
  }

  lemma ParsesAs(f: Forms, lines: seq<string>, readFails: bool)
    requires "" !in lines
    ensures Parse(f, Scanned(lines, readFails)) ==
              if FirstErrno(lines).Some? then Err(Errno(FirstErrno(lines).value))
              else if readFails then Err(ScanFailed)
              else Ok(Device(HeadFields(Head(lines)), ReadBlocks(f, Blocks(lines))))
  {
    hide FirstErrno, Head, Blocks, HeadFields, ReadBlocks;
    assert BlankAt(lines) == |lines| && lines[..|lines|] == lines;
  }

  lemma SameReadingParses(f: Forms, a: seq<string>, b: seq<string>)
    requires SameReading(f, a, b)
    ensures FirstErrno(a) == FirstErrno(b) && HeadFields(Head(a)) == HeadFields(Head(b))
    ensures ReadBlocks(f, Blocks(a)) == ReadBlocks(f, Blocks(b))
  {
    hide FirstErrno, Head, Blocks, HeadFields, ReadBlock;
  }

  lemma {:induction false} SameAfter(f: Forms, a: seq<string>, b: seq<string>, more: seq<string>)
    requires SameReading(f, a, b)
    ensures SameReading(f, a + more, b + more)
  {
    hide SameReading;
    if more == [] {
      assert a + [] == a && b + [] == b;
    } else {
      var n := |more| - 1;
      SameAfter(f, a, b, more[..n]);
      SameStep(f, a + more[..n], b + more[..n], more[n]);
      assert a + more == a + more[..n] + [more[n]] && b + more == b + more[..n] + [more[n]];
    }
  }

  lemma SameStep(f: Forms, a: seq<string>, b: seq<string>, line: string)
    requires SameReading(f, a, b)
    ensures SameReading(f, a + [line], b + [line])
  {
    hide FirstErrno, Head, Blocks, HeadFields, ReadBlock, StartsPeer, IsPair, KeyOf, ValOf, ErrnoOf, PeerField;
    hide DeviceField;
    var x, y := a + [line], b + [line];
    assert x[..|a|] == a && x[..|a| + 1] == x && y[..|b|] == b && y[..|b| + 1] == y;
    LineRead(f, x, |a|);
    LineRead(f, y, |b|);
    if FirstErrno(a).Some? {
      ErrnoStays(x, |a|);
      ErrnoStays(y, |b|);
    }
  }

  lemma IgnoredLine(f: Forms, a: seq<string>, key: string, val: string)
    requires '=' !in key && SetsNothing(f, key, val)
    ensures SameReading(f, a + [Line(key, val)], a)
  {
    hide FirstErrno, Head, Blocks, HeadFields, ReadBlock, StartsPeer, IsPair, KeyOf, ValOf, ErrnoOf, PeerField;
    hide DeviceField, SetsNothing, Line;
    var line := Line(key, val);
    var x := a + [line];
    PairParts(key, val);
    PairLine(line);
    IgnoredField(f, key, val);
    assert x[..|a|] == a && x[..|a| + 1] == x;
    LineRead(f, x, |a|);
    if FirstErrno(a).Some? {
      ErrnoStays(x, |a|);
    }
  }

  lemma IgnoredField(f: Forms, key: string, val: string)
    requires SetsNothing(f, key, val)
    ensures key != "errno" && key != "public_key"
    ensures forall r :: PeerField(f, r, key, val) == r
    ensures forall d :: DeviceField(d, key, val) == d
  {
    hide ParseInt64, ParseHexKey;
  }
}

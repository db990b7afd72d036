/**
  Base64 as the program uses it (section 4 and section 5 of RFC 4648): the padded standard
  alphabet and the unpadded URL alphabet. Go strings are byte strings, so text is a sequence
  of bytes throughout.
*/
module Base64 {
  import opened Wrappers

  type Byte = n: int | 0 <= n < 256

  type Text = seq<Byte>

  datatype Variant = Std | RawUrl

  const PAD: Byte := '=' as int

  /** The bytes of an ASCII literal. */
  function Ascii(s: string): (t: Text)
    ensures |t| == |s|
  {
    if s == "" then [] else [s[0] as int % 256] + Ascii(s[1..])
  }

  /** The character of a six-bit group. */
  function EncodeSextet(variant: Variant, v: int): Byte
    requires 0 <= v < 64
  {
    if v < 26 then 'A' as int + v
    else if v < 52 then 'a' as int + (v - 26)
    else if v < 62 then '0' as int + (v - 52)
    else if v == 62 then (if variant.Std? then '+' as int else '-' as int)
    else (if variant.Std? then '/' as int else '_' as int)
  }

  /** The six-bit group of a character, or -1 for a character outside the alphabet. */
  function DecodeSextet(variant: Variant, c: Byte): (v: int)
    ensures -1 <= v < 64
  {
    if 'A' as int <= c <= 'Z' as int then c - 'A' as int
    else if 'a' as int <= c <= 'z' as int then c - 'a' as int + 26
    else if '0' as int <= c <= '9' as int then c - '0' as int + 52
    else if c == (if variant.Std? then '+' as int else '-' as int) then 62
    else if c == (if variant.Std? then '/' as int else '_' as int) then 63
    else -1
  }

  /** The alphabet of table 1 of RFC 4648, and its last two characters in table 2. */
  lemma Alphabet(variant: Variant, v: int)
    requires 0 <= v < 64
    ensures v < 26 ==> EncodeSextet(variant, v) == "ABCDEFGHIJKLMNOPQRSTUVWXYZ"[v] as int
    ensures 26 <= v < 52 ==> EncodeSextet(variant, v) == "abcdefghijklmnopqrstuvwxyz"[v - 26] as int
    ensures 52 <= v < 62 ==> EncodeSextet(variant, v) == "0123456789"[v - 52] as int
    ensures EncodeSextet(Std, 62) == '+' as int && EncodeSextet(Std, 63) == '/' as int
    ensures EncodeSextet(RawUrl, 62) == '-' as int && EncodeSextet(RawUrl, 63) == '_' as int
  {
    UpperCase(v);
    LowerCase(v - 26);
    Digits(v - 52);
  }

  lemma UpperCase(v: int)
    ensures 0 <= v < 26 ==> "ABCDEFGHIJKLMNOPQRSTUVWXYZ"[v] as int == 'A' as int + v
  {
  }

  lemma LowerCase(v: int)
    ensures 0 <= v < 26 ==> "abcdefghijklmnopqrstuvwxyz"[v] as int == 'a' as int + v
  {
  }

  lemma Digits(v: int)
    ensures 0 <= v < 10 ==> "0123456789"[v] as int == '0' as int + v
  {
  }

  /** Padded encoding in the standard alphabet. */
  function Encode(bs: Text): (t: Text)
    ensures |t| % 4 == 0
    ensures bs != [] ==> t != []
  {
    if bs == [] then []
    else if |bs| == 1 then
      [EncodeSextet(Std, bs[0] / 4), EncodeSextet(Std, bs[0] % 4 * 16), PAD, PAD]
    else if |bs| == 2 then
      [EncodeSextet(Std, bs[0] / 4), EncodeSextet(Std, bs[0] % 4 * 16 + bs[1] / 16),
       EncodeSextet(Std, bs[1] % 16 * 4), PAD]
    else
      [EncodeSextet(Std, bs[0] / 4), EncodeSextet(Std, bs[0] % 4 * 16 + bs[1] / 16),
       EncodeSextet(Std, bs[1] % 16 * 4 + bs[2] / 64), EncodeSextet(Std, bs[2] % 64)] + Encode(bs[3..])
  }

  /** What one group of up to four characters yields. */
  datatype Quantum = Corrupt | Full(bytes: Text) | Last(bytes: Text)

  /**
    One step of the decoder. `Last` is a group that ends the input, by padding in the standard
    alphabet or by running out of characters in the unpadded one; anything after padding is an
    error. Unused low bits of the last group are ignored, as the non-strict decoder does.
  */
  function DecodeQuantum(variant: Variant, s: Text): (q: Quantum)
    requires s != []
    ensures q.Full? ==> |s| >= 4 && |q.bytes| == 3
    ensures q.Last? ==> 1 <= |q.bytes| <= 2
    ensures !q.Corrupt? ==> q.bytes[0] / 4 == DecodeSextet(variant, s[0])
  {
    var v0 := DecodeSextet(variant, s[0]);
    if v0 < 0 || |s| == 1 then Corrupt else
    var v1 := DecodeSextet(variant, s[1]);
    if v1 < 0 then Corrupt else
    var b0: Byte := v0 * 4 + v1 / 16;
    if |s| == 2 then (if variant.Std? then Corrupt else Last([b0])) else
    var v2 := DecodeSextet(variant, s[2]);
    if v2 < 0 then
      (if variant.Std? && s[2] == PAD && |s| == 4 && s[3] == PAD then Last([b0]) else Corrupt)
    else
    var b1: Byte := v1 % 16 * 16 + v2 / 4;
    if |s| == 3 then (if variant.Std? then Corrupt else Last([b0, b1])) else
    var v3 := DecodeSextet(variant, s[3]);
    if v3 < 0 then
      (if variant.Std? && s[3] == PAD && |s| == 4 then Last([b0, b1]) else Corrupt)
    else Full([b0, b1, v2 % 4 * 64 + v3])
  }

  /** Decoding of text without line breaks; `None` is the library's CorruptInputError. */
  function Decode(variant: Variant, s: Text): (r: Option<Text>)
    ensures r.Some? ==> 4 * |r.value| <= 3 * |s|
  {
    if s == [] then Some([]) else
    match DecodeQuantum(variant, s)
    case Corrupt => None
    case Last(bytes) => Some(bytes)
    case Full(bytes) =>
      match Decode(variant, s[4..])
      case None => None
      case Some(rest) => Some(bytes + rest)
  }

  lemma SextetRoundTrip(variant: Variant, v: int)
    requires 0 <= v < 64
    ensures DecodeSextet(variant, EncodeSextet(variant, v)) == v
    ensures EncodeSextet(variant, v) != PAD
  {
  }

  /** A full group of four characters gives back the three bytes whose bits it carries. */
  lemma FullQuantum(s: Text, v0: int, v1: int, v2: int, v3: int)
    requires |s| >= 4 && 0 <= v0 < 64 && 0 <= v1 < 64 && 0 <= v2 < 64 && 0 <= v3 < 64
    requires s[0] == EncodeSextet(Std, v0) && s[1] == EncodeSextet(Std, v1)
    requires s[2] == EncodeSextet(Std, v2) && s[3] == EncodeSextet(Std, v3)
    ensures DecodeQuantum(Std, s) == Full([v0 * 4 + v1 / 16, v1 % 16 * 16 + v2 / 4, v2 % 4 * 64 + v3])
  {
    SextetRoundTrip(Std, v0);
    SextetRoundTrip(Std, v1);
    SextetRoundTrip(Std, v2);
    SextetRoundTrip(Std, v3);
  }

  /** The bits of `hi` and `lo` can be read back from `hi * k + lo`. */
  lemma Unpack(hi: int, lo: int, k: int)
    requires k == 4 || k == 16 || k == 64
    requires 0 <= lo < k
    ensures (hi * k + lo) / k == hi && (hi * k + lo) % k == lo
  {
  }

  lemma OneByte(b0: Byte, s: Text)
    requires s == [EncodeSextet(Std, b0 / 4), EncodeSextet(Std, b0 % 4 * 16), PAD, PAD]
    ensures DecodeQuantum(Std, s) == Last([b0])
  {
    SextetRoundTrip(Std, b0 / 4);
    SextetRoundTrip(Std, b0 % 4 * 16);
    Unpack(b0 % 4, 0, 16);
  }

  lemma TwoBytes(b0: Byte, b1: Byte, s: Text)
    requires |s| == 4 && s[3] == PAD
    requires s[0] == EncodeSextet(Std, b0 / 4) && s[1] == EncodeSextet(Std, b0 % 4 * 16 + b1 / 16)
    requires s[2] == EncodeSextet(Std, b1 % 16 * 4)
    ensures DecodeQuantum(Std, s) == Last([b0, b1])
  {
    SextetRoundTrip(Std, b0 / 4);
    SextetRoundTrip(Std, b0 % 4 * 16 + b1 / 16);
    SextetRoundTrip(Std, b1 % 16 * 4);
    Unpack(b0 % 4, b1 / 16, 16);
    Unpack(b1 % 16, 0, 4);
  }

  lemma ThreeBytes(b0: Byte, b1: Byte, b2: Byte, s: Text)
    requires |s| >= 4
    requires s[0] == EncodeSextet(Std, b0 / 4) && s[1] == EncodeSextet(Std, b0 % 4 * 16 + b1 / 16)
    requires s[2] == EncodeSextet(Std, b1 % 16 * 4 + b2 / 64) && s[3] == EncodeSextet(Std, b2 % 64)
    ensures DecodeQuantum(Std, s) == Full([b0, b1, b2])
  {
    FullQuantum(s, b0 / 4, b0 % 4 * 16 + b1 / 16, b1 % 16 * 4 + b2 / 64, b2 % 64);
    Unpack(b0 % 4, b1 / 16, 16);
    Unpack(b1 % 16, b2 / 64, 4);
  }

  /** Decoding inverts encoding on every byte string (section 4 of RFC 4648). */
  lemma {:induction false} DecodeEncode(bs: Text)
    ensures Decode(Std, Encode(bs)) == Some(bs)
  {
    hide DecodeQuantum, EncodeSextet;
    if bs == [] {
    } else if |bs| == 1 {
      OneByte(bs[0], Encode(bs));
      assert bs == [bs[0]];
    } else if |bs| == 2 {
      TwoBytes(bs[0], bs[1], Encode(bs));
      assert bs == [bs[0], bs[1]];
    } else {
      ThreeBytes(bs[0], bs[1], bs[2], Encode(bs));
      DecodeEncode(bs[3..]);
      assert Encode(bs)[4..] == Encode(bs[3..]);
      assert bs == [bs[0], bs[1], bs[2]] + bs[3..];
    }
  }

  /** Encoded text uses only the alphabet and the padding character. */
  lemma {:induction false} EncodeAlphabet(bs: Text, i: nat)
    requires i < |Encode(bs)|
    ensures Encode(bs)[i] == PAD || DecodeSextet(Std, Encode(bs)[i]) >= 0
  {
    if |bs| >= 3 && i >= 4 {
      EncodeAlphabet(bs[3..], i - 4);
      assert Encode(bs)[i] == Encode(bs[3..])[i - 4];
    }
  }

  /** The first six-bit group is the upper six bits of the first decoded byte. */
  lemma FirstDecodedByte(variant: Variant, s: Text)
    requires s != [] && Decode(variant, s).Some?
    ensures Decode(variant, s).value != []
    ensures Decode(variant, s).value[0] / 4 == DecodeSextet(variant, s[0])
  {
  }

  /** Line breaks are skipped by the library's base64 decoder. */
  function StripLineBreaks(t: Text): (r: Text)
    ensures |r| <= |t|
  {
    if t == [] then []
    else if t[0] == 0x0A || t[0] == 0x0D then StripLineBreaks(t[1..])
    else [t[0]] + StripLineBreaks(t[1..])
  }

  /** Line breaks may stand anywhere. */
  lemma {:induction false} LineBreaksAreSkipped(a: Text, b: Text)
    ensures StripLineBreaks(a + [0x0A] + b) == StripLineBreaks(a + b) == StripLineBreaks(a + [0x0D] + b)
  {
    hide StripLineBreaks;
    if a == [] {
      assert a + [0x0A] + b == [0x0A] + b && a + [0x0D] + b == [0x0D] + b && a + b == b;
      FirstStripped(0x0A, b);
      FirstStripped(0x0D, b);
    } else {
      LineBreaksAreSkipped(a[1..], b);
      assert a + [0x0A] + b == [a[0]] + (a[1..] + [0x0A] + b);
      assert a + [0x0D] + b == [a[0]] + (a[1..] + [0x0D] + b);
      assert a + b == [a[0]] + (a[1..] + b);
      FirstStripped(a[0], a[1..] + [0x0A] + b);
      FirstStripped(a[0], a[1..] + [0x0D] + b);
      FirstStripped(a[0], a[1..] + b);
    }
  }

  lemma FirstStripped(c: Byte, t: Text)
    ensures StripLineBreaks([c] + t) == if c == 0x0A || c == 0x0D then StripLineBreaks(t) else [c] + StripLineBreaks(t)
  {
    assert ([c] + t)[1..] == t;
  }

  /** What is decoded has full quanta if it is padded; without padding only a single character is left over too few. */
  lemma {:induction false} DecodedLengths(variant: Variant, s: Text)
    requires Decode(variant, s).Some?
    ensures variant.Std? ==> |s| % 4 == 0
    ensures variant.RawUrl? ==> |s| % 4 != 1 && PAD !in s
  {
    if s != [] {
      var q := DecodeQuantum(variant, s);
      QuantumLength(variant, s);
      if q.Full? {
        DecodedLengths(variant, s[4..]);
        assert s == s[..4] + s[4..];
      }
    }
  }

  lemma QuantumLength(variant: Variant, s: Text)
    requires s != [] && !DecodeQuantum(variant, s).Corrupt?
    ensures DecodeQuantum(variant, s).Last? && variant.Std? ==> |s| == 4
    ensures DecodeQuantum(variant, s).Last? && variant.RawUrl? ==> 2 <= |s| <= 3 && PAD !in s
    ensures DecodeQuantum(variant, s).Full? && variant.RawUrl? ==> PAD !in s[..4]
  {
    assert DecodeSextet(variant, PAD) < 0;
  }

  lemma {:induction false} NoLineBreaks(t: Text)
    requires forall i :: 0 <= i < |t| ==> t[i] != 0x0A && t[i] != 0x0D
    ensures StripLineBreaks(t) == t
  {
    if t != [] {
      NoLineBreaks(t[1..]);
    }
  }

  lemma EncodedHasNoLineBreaks(bs: Text)
    ensures StripLineBreaks(Encode(bs)) == Encode(bs)
  {
    forall i | 0 <= i < |Encode(bs)|
      ensures Encode(bs)[i] != 0x0A && Encode(bs)[i] != 0x0D
    {
      EncodeAlphabet(bs, i);
    }
    NoLineBreaks(Encode(bs));
  }
}

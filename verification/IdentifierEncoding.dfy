/**
  Identifiers in URLs: the frontend's `base64_url_encode` and the backend's `Base64UrlDecode`,
  which also has to let plain identifiers such as "wg0" through.
*/
module IdentifierEncoding {
  import opened Wrappers
  import opened Base64

  function ReplaceAll(t: Text, from: Byte, to: Byte): (r: Text)
    ensures |r| == |t|
    ensures forall i :: 0 <= i < |t| ==> r[i] == if t[i] == from then to else t[i]
  {
    seq(|t|, i requires 0 <= i < |t| => if t[i] == from then to else t[i])
  }

  /** The frontend's encoder: `btoa`, then '+', '/' and '=' become '.', '_' and '-'. */
  function EncodeIdentifier(t: Text): Text {
    var output := Encode(t);
    ReplaceAll(ReplaceAll(ReplaceAll(output, '+' as int, '.' as int), '/' as int, '_' as int), '=' as int, '-' as int)
  }

  predicate IsPrintable(c: Byte) {
    0x20 <= c <= 0x7E
  }

  /**
    Nonempty and printable throughout. The decoder ranges over runes; a byte of 128 or more is part
    of, or is replaced by, a rune above 0x7E, so testing bytes decides the same.
  */
  predicate PrintableAscii(t: Text) {
    t != [] && forall i :: 0 <= i < |t| ==> IsPrintable(t[i])
  }

  method IsPrintableASCII(t: Text) returns (printable: bool)
    ensures printable == PrintableAscii(t)
  {
    if t == [] {
      return false;
    }
    for i := 0 to |t|
      invariant forall j :: 0 <= j < i ==> IsPrintable(t[j])
    {
      if t[i] < 0x20 || t[i] > 0x7E {
        return false;
      }
    }
    return true;
  }

  /** The character class of `base64LikeRegex`. */
  predicate LooksLikeBase64(c: Byte) {
    || 'A' as int <= c <= 'Z' as int
    || 'a' as int <= c <= 'z' as int
    || '0' as int <= c <= '9' as int
    || c == '_' as int || c == '.' as int || c == '-' as int || c == '+' as int || c == '=' as int
  }

  /** The backend's inverse substitution, before padding. */
  function Unsubstitute(t: Text): (r: Text)
    ensures |r| == |t|
  {
    ReplaceAll(ReplaceAll(ReplaceAll(t, '-' as int, '=' as int), '_' as int, '/' as int), '.' as int, '+' as int)
  }

  /** `t` followed by the least number of padding characters that makes the length a multiple of four. */
  function Padded(t: Text): (r: Text)
    ensures |r| % 4 == 0 && |t| <= |r| < |t| + 4 && r[..|t|] == t
    decreases (4 - |t| % 4) % 4
  {
    if |t| % 4 == 0 then t else
    var r := Padded(t + [PAD]);
    assert r[..|t|] == r[..|t| + 1][..|t|];
    r
  }

  function PrintableOr(decoded: Option<Text>, otherwise: Text): Text {
    if decoded.Some? && PrintableAscii(decoded.value) then decoded.value else otherwise
  }

  /** What the decoder is meant to compute: the frontend's form first, then raw URL form, else the input. */
  function DecodeIdentifier(t: Text): Text {
    if forall i :: 0 <= i < |t| ==> LooksLikeBase64(t[i]) then
      PrintableOr(Decode(Std, Padded(Unsubstitute(t))), PrintableOr(Decode(RawUrl, t), t))
    else t
  }

  lemma PadStep(n: nat)
    requires n % 4 != 0
    ensures (4 - (n + 1) % 4) % 4 < (4 - n % 4) % 4
  {
  }

  method Pad(t: Text) returns (padded: Text)
    ensures padded == Padded(t)
  {
    padded := t;
    while |padded| % 4 != 0
      invariant Padded(padded) == Padded(t)
      decreases (4 - |padded| % 4) % 4
    {
      PadStep(|padded|);
      padded := padded + [PAD];
    }
  }

  method Base64UrlDecode(t: Text) returns (out: Text)
    ensures out == DecodeIdentifier(t)
  {
    hide Decode, LooksLikeBase64, ReplaceAll, Padded, PrintableAscii;
    if t == [] {
      return t;
    }
    if !(forall i :: 0 <= i < |t| ==> LooksLikeBase64(t[i])) {
      return t;
    }
    var inReplaced := ReplaceAll(t, '-' as int, '=' as int);
    inReplaced := ReplaceAll(inReplaced, '_' as int, '/' as int);
    inReplaced := ReplaceAll(inReplaced, '.' as int, '+' as int);
    inReplaced := Pad(inReplaced);
    var decoded := Decode(Std, inReplaced);
    if decoded.Some? {
      var printable := IsPrintableASCII(decoded.value);
      if printable {
        return decoded.value;
      }
    }
    decoded := Decode(RawUrl, t);
    if decoded.Some? {
      var printable := IsPrintableASCII(decoded.value);
      if printable {
        return decoded.value;
      }
    }
    return t;
  }

  /** The backend's substitution undoes the frontend's on encoded text, whose alphabet lacks '.', '_' and '-'. */
  lemma SubstitutionInverts(t: Text)
    ensures Unsubstitute(EncodeIdentifier(t)) == Encode(t)
    ensures forall i :: 0 <= i < |EncodeIdentifier(t)| ==> LooksLikeBase64(EncodeIdentifier(t)[i])
  {
    forall i | 0 <= i < |Encode(t)|
      ensures Unsubstitute(EncodeIdentifier(t))[i] == Encode(t)[i] && LooksLikeBase64(EncodeIdentifier(t)[i])
    {
      EncodeAlphabet(t, i);
    }
  }

  /** Every identifier the frontend can encode reaches the backend unchanged, the empty one included. */
  lemma RoundTrip(t: Text)
    requires forall i :: 0 <= i < |t| ==> IsPrintable(t[i])
    ensures DecodeIdentifier(EncodeIdentifier(t)) == t
  {
    SubstitutionInverts(t);
    DecodeEncode(t);
  }

  /** Hence no two printable identifiers share a URL form. */
  lemma EncodeIsInjective(t: Text, u: Text)
    requires forall i :: 0 <= i < |t| ==> IsPrintable(t[i])
    requires forall i :: 0 <= i < |u| ==> IsPrintable(u[i])
    requires EncodeIdentifier(t) == EncodeIdentifier(u)
    ensures t == u
  {
    RoundTrip(t);
    RoundTrip(u);
  }

  /** First characters whose base64 group can be the upper six bits of a printable byte: I-Z and a-f. */
  predicate StartsLikeAscii(c: Byte) {
    'I' as int <= c <= 'Z' as int || 'a' as int <= c <= 'f' as int
  }

  /**
    A plain identifier passes through unchanged when its first character is not one of those ("wg0"
    and every "wgN" among them): both decoders then fail or yield a first byte that is not printable.
  */
  lemma PlainPassesThrough(t: Text)
    requires t == [] || !StartsLikeAscii(t[0])
    ensures DecodeIdentifier(t) == t
  {
    if t != [] && (forall i :: 0 <= i < |t| ==> LooksLikeBase64(t[i])) {
      assert LooksLikeBase64(t[0]);
      var p := Padded(Unsubstitute(t));
      assert p[0] == p[..|t|][0] == Unsubstitute(t)[0];
      NotPrintable(Std, p);
      NotPrintable(RawUrl, t);
    }
  }

  lemma NotPrintable(variant: Variant, t: Text)
    requires t != [] && !(8 <= DecodeSextet(variant, t[0]) < 32)
    ensures Decode(variant, t).Some? ==> !PrintableAscii(Decode(variant, t).value)
  {
    if Decode(variant, t).Some? {
      FirstDecodedByte(variant, t);
      assert !IsPrintable(Decode(variant, t).value[0]);
    }
  }

  /** The condition is exact: a first character is safe for every identifier just when it is not one of those. */
  lemma FirstCharacterDecides(c: Byte)
    ensures (forall t: Text :: t != [] && t[0] == c ==> DecodeIdentifier(t) == t) <==> !StartsLikeAscii(c)
  {
    if StartsLikeAscii(c) {
      var b: Byte := 4 * DecodeSextet(Std, c);
      var t := EncodeIdentifier([b, 0x20, 0x20]);
      EncodesThree(b, 0x20, 0x20);
      RoundTrip([b, 0x20, 0x20]);
      assert t[0] == c && |t| == 4;
      assert DecodeIdentifier(t) != t;
    } else {
      forall t: Text | t != [] && t[0] == c
        ensures DecodeIdentifier(t) == t
      {
        PlainPassesThrough(t);
      }
    }
  }

  lemma EncodesThree(b0: Byte, b1: Byte, b2: Byte)
    ensures |Encode([b0, b1, b2])| == 4
    ensures Encode([b0, b1, b2])[0] == EncodeSextet(Std, b0 / 4)
  {
    var bs: Text := [b0, b1, b2];
    assert bs[3..] == [];
  }

  /** For example the plain identifier "YXdn" is read as "awg". */
  lemma PlainCollision()
    ensures Ascii("YXdn") == [0x59, 0x58, 0x64, 0x6E]
    ensures Ascii("awg") == [0x61, 0x77, 0x67]
    ensures DecodeIdentifier(Ascii("YXdn")) == Ascii("awg")
  {
    hide Encode, EncodeIdentifier, Decode, DecodeQuantum, DecodeIdentifier;
    AsciiFour("YXdn");
    AsciiThree("awg");
    EncodeAwg();
    RoundTrip(Ascii("awg"));
  }

  lemma EncodeAwg()
    ensures EncodeIdentifier([0x61, 0x77, 0x67]) == [0x59, 0x58, 0x64, 0x6E]
  {
    var awg: Text := [0x61, 0x77, 0x67];
    assert awg[3..] == [] && Encode(awg[3..]) == [];
    assert Encode(awg) == [0x59, 0x58, 0x64, 0x6E];
  }

  lemma AsciiThree(s: string)
    requires |s| == 3
    ensures Ascii(s) == [s[0] as int % 256, s[1] as int % 256, s[2] as int % 256]
  {
    assert Ascii(s[1..]) == [s[1] as int % 256] + Ascii(s[1..][1..]);
    assert Ascii(s[1..][1..]) == [s[2] as int % 256] + Ascii(s[1..][1..][1..]);
  }

  lemma AsciiFour(s: string)
    requires |s| == 4
    ensures Ascii(s) == [s[0] as int % 256, s[1] as int % 256, s[2] as int % 256, s[3] as int % 256]
  {
    AsciiThree(s[1..]);
  }

  /** Whatever comes in, the result is the input itself or nonempty printable ASCII. */
  lemma ResultIsInputOrPrintable(t: Text)
    ensures DecodeIdentifier(t) == t || PrintableAscii(DecodeIdentifier(t))
  {
  }
}

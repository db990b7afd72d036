/**
  The serializer of encrypted database columns: PKCS#7 padding (section 6.3 of RFC 5652), cipher
  block chaining (section 6.2 of NIST SP 800-38A) and base64 behind the prefix "WG_ENC_". The block
  cipher itself is a parameter of which only invertibility is assumed.
*/
module EncryptedColumn {
  import opened Arithmetic
  import opened Wrappers
  import opened Base64

  const BLOCK_SIZE: nat := 16

  // ---------------------------------------------------------------------- exclusive or

  function XorBits(x: nat, y: nat, n: nat): (r: nat)
    ensures r < Pow2(n)
  {
    if n == 0 then 0
    else (if x % 2 == y % 2 then 0 else 1) + 2 * XorBits(x / 2, y / 2, n - 1)
  }

  lemma {:induction false} XorBitsInverts(x: nat, y: nat, n: nat)
    requires x < Pow2(n)
    ensures XorBits(XorBits(x, y, n), y, n) == x
  {
    if n > 0 {
      var rest := XorBits(x / 2, y / 2, n - 1);
      assert XorBits(x, y, n) % 2 == (if x % 2 == y % 2 then 0 else 1) && XorBits(x, y, n) / 2 == rest;
      XorBitsInverts(x / 2, y / 2, n - 1);
    }
  }

  function Shifted(x: nat, i: nat): int {
    x / Pow2(i)
  }

  /** It is the exclusive or bit by bit. */
  lemma {:induction false} XorBit(x: nat, y: nat, n: nat, i: nat)
    requires i < n
    ensures Shifted(XorBits(x, y, n), i) % 2 == (Shifted(x, i) + Shifted(y, i)) % 2
  {
    hide XorBits, Shifted;
    XorHalf(x, y, n);
    if i == 0 {
      Unshifted(x);
      Unshifted(y);
      Unshifted(XorBits(x, y, n));
    } else {
      XorBit(x / 2, y / 2, n - 1, i - 1);
      Halved(x, i);
      Halved(y, i);
      Halved(XorBits(x, y, n), i);
    }
  }

  lemma XorHalf(x: nat, y: nat, n: nat)
    requires n > 0
    ensures XorBits(x, y, n) % 2 == (x + y) % 2
    ensures XorBits(x, y, n) / 2 == XorBits(x / 2, y / 2, n - 1)
  {
    var low := if x % 2 == y % 2 then 0 else 1;
    XorStep(x, y, n);
    LowAndRest(low, XorBits(x / 2, y / 2, n - 1));
    Parity(x, y);
  }

  lemma XorStep(x: nat, y: nat, n: nat)
    requires n > 0
    ensures XorBits(x, y, n) == (if x % 2 == y % 2 then 0 else 1) + 2 * XorBits(x / 2, y / 2, n - 1)
  {
    hide Pow2;
  }

  lemma LowAndRest(low: nat, rest: nat)
    requires low < 2
    ensures (low + 2 * rest) % 2 == low && (low + 2 * rest) / 2 == rest
  {
  }

  lemma Parity(x: nat, y: nat)
    ensures (x + y) % 2 == if x % 2 == y % 2 then 0 else 1
  {
  }

  lemma Unshifted(x: nat)
    ensures Shifted(x, 0) == x
  {
    assert Pow2(0) == 1;
  }

  lemma Halved(x: nat, i: nat)
    requires i > 0
    ensures Shifted(x, i) == Shifted(x / 2, i - 1)
  {
    var p := Pow2(i - 1);
    assert Pow2(i) == 2 * p;
    hide Pow2;
    DivDiv(x, 2, p);
  }

  function Xor(x: Byte, y: Byte): Byte {
    assert Pow2(8) == 256;
    XorBits(x, y, 8)
  }

  // ---------------------------------------------------------------------- blocks and chaining

  type Block = b: Text | |b| == BLOCK_SIZE witness [0, 0, 0, 0, 0, 0, 0, 0, 0, 0, 0, 0, 0, 0, 0, 0]

  function XorBlock(a: Block, b: Block): (r: Block)
    ensures forall i :: 0 <= i < BLOCK_SIZE ==> r[i] == Xor(a[i], b[i])
  {
    seq(BLOCK_SIZE, i requires 0 <= i < BLOCK_SIZE => Xor(a[i], b[i]))
  }

  lemma XorBlockInverts(a: Block, b: Block)
    ensures XorBlock(XorBlock(a, b), b) == a
  {
    assert Pow2(8) == 256;
    forall i | 0 <= i < BLOCK_SIZE
      ensures XorBlock(XorBlock(a, b), b)[i] == a[i]
    {
      XorBitsInverts(a[i], b[i], 8);
    }
  }

  function Blocks(t: Text): (bs: seq<Block>)
    requires |t| % BLOCK_SIZE == 0
    ensures |bs| == |t| / BLOCK_SIZE
  {
    if t == [] then [] else [t[..BLOCK_SIZE]] + Blocks(t[BLOCK_SIZE..])
  }

  function Flatten(bs: seq<Block>): (t: Text)
    ensures |t| == BLOCK_SIZE * |bs|
  {
    if bs == [] then [] else bs[0] + Flatten(bs[1..])
  }

  lemma {:induction false} FlattenBlocks(t: Text)
    requires |t| % BLOCK_SIZE == 0
    ensures Flatten(Blocks(t)) == t
  {
    if t != [] {
      FlattenBlocks(t[BLOCK_SIZE..]);
      assert Blocks(t)[1..] == Blocks(t[BLOCK_SIZE..]);
    }
  }

  lemma {:induction false} BlocksFlatten(bs: seq<Block>)
    ensures Blocks(Flatten(bs)) == bs
  {
    if bs != [] {
      BlocksFlatten(bs[1..]);
      assert Flatten(bs)[BLOCK_SIZE..] == Flatten(bs[1..]);
    }
  }

  /** A keyed permutation of the blocks and its inverse. */
  datatype BlockCipher = BlockCipher(encrypt: Block -> Block, decrypt: Block -> Block)

  ghost predicate Invertible(c: BlockCipher) {
    forall b: Block :: c.decrypt(c.encrypt(b)) == b
  }

  /** The block a chained block is combined with: the one before it, or the initialisation vector. */
  function Previous(iv: Block, crypt: seq<Block>, i: nat): Block
    requires i <= |crypt|
  {
    if i == 0 then iv else crypt[i - 1]
  }

  function CbcEncrypt(c: BlockCipher, iv: Block, plain: seq<Block>): (crypt: seq<Block>)
    ensures |crypt| == |plain|
    decreases |plain|
  {
    if plain == [] then [] else
    var block := c.encrypt(XorBlock(plain[0], iv));
    [block] + CbcEncrypt(c, block, plain[1..])
  }

  function CbcDecrypt(c: BlockCipher, iv: Block, crypt: seq<Block>): (plain: seq<Block>)
    ensures |plain| == |crypt|
    decreases |crypt|
  {
    if crypt == [] then [] else
    [XorBlock(c.decrypt(crypt[0]), iv)] + CbcDecrypt(c, crypt[0], crypt[1..])
  }

  /** Decryption inverts encryption under the same key and initialisation vector. */
  lemma {:induction false} CbcInverts(c: BlockCipher, iv: Block, plain: seq<Block>)
    requires Invertible(c)
    ensures CbcDecrypt(c, iv, CbcEncrypt(c, iv, plain)) == plain
    decreases |plain|
  {
    if plain != [] {
      var block := c.encrypt(XorBlock(plain[0], iv));
      CbcInverts(c, block, plain[1..]);
      XorBlockInverts(plain[0], iv);
      assert CbcEncrypt(c, iv, plain)[1..] == CbcEncrypt(c, block, plain[1..]);
    }
  }

  /** Encryption is causal: a block depends on its plaintext and the ciphertext block before it. */
  lemma {:induction false} CbcEncryptAt(c: BlockCipher, iv: Block, plain: seq<Block>, i: nat)
    requires i < |plain|
    ensures var crypt := CbcEncrypt(c, iv, plain);
            crypt[i] == c.encrypt(XorBlock(plain[i], Previous(iv, crypt, i)))
    decreases i
  {
    if i > 0 {
      CbcEncryptAt(c, c.encrypt(XorBlock(plain[0], iv)), plain[1..], i - 1);
    }
  }

  /** Decryption is local: a block depends on two ciphertext blocks only. */
  lemma {:induction false} CbcDecryptAt(c: BlockCipher, iv: Block, crypt: seq<Block>, i: nat)
    requires i < |crypt|
    ensures CbcDecrypt(c, iv, crypt)[i] == XorBlock(c.decrypt(crypt[i]), Previous(iv, crypt, i))
    decreases i
  {
    if i > 0 {
      CbcDecryptAt(c, crypt[0], crypt[1..], i - 1);
    }
  }

  /** The library's encrypter: one block after the other into the ciphertext buffer. */
  method CryptBlocksEncrypt(c: BlockCipher, iv: Block, dst: array<Block>, src: seq<Block>)
    requires dst.Length == |src|
    modifies dst
    ensures dst[..] == CbcEncrypt(c, iv, src)
  {
    var prev := iv;
    for i := 0 to |src|
      invariant prev == Previous(iv, CbcEncrypt(c, iv, src), i)
      invariant forall j :: 0 <= j < i ==> dst[j] == CbcEncrypt(c, iv, src)[j]
    {
      CbcEncryptAt(c, iv, src, i);
      dst[i] := c.encrypt(XorBlock(src[i], prev));
      prev := dst[i];
    }
  }

  /**
    The library's decrypter on overlapping buffers, as `DecryptAES256` calls it: blocks are taken
    backwards, so that the preceding ciphertext block is still intact when it is needed.
  */
  method CryptBlocksDecryptInPlace(c: BlockCipher, iv: Block, buf: array<Block>)
    modifies buf
    ensures buf[..] == CbcDecrypt(c, iv, old(buf[..]))
  {
    ghost var crypt := buf[..];
    for i := buf.Length downto 0
      invariant buf[..i] == crypt[..i]
      invariant forall j :: i <= j < buf.Length ==> buf[j] == CbcDecrypt(c, iv, crypt)[j]
    {
      CbcDecryptAt(c, iv, crypt, i);
      assert buf[i] == buf[..i + 1][i] && (i > 0 ==> buf[i - 1] == buf[..i + 1][i - 1]);
      buf[i] := XorBlock(c.decrypt(buf[i]), if i == 0 then iv else buf[i - 1]);
    }
  }

  // ---------------------------------------------------------------------- padding and key

  function Pkcs7Pad(t: Text): (p: Text)
    ensures |t| < |p| <= |t| + BLOCK_SIZE && |p| % BLOCK_SIZE == 0
  {
    var padding: Byte := BLOCK_SIZE - |t| % BLOCK_SIZE;
    t + seq(padding, _ => padding)
  }

  /** `None` is the slice bounds panic of an empty input or of a last byte larger than the input. */
  function Pkcs7Unpad(src: Text): Option<Text> {
    if src == [] then None else
    var unpadding := src[|src| - 1];
    if unpadding > |src| then None else Some(src[..|src| - unpadding])
  }

  /** The padding is as many bytes as are missing to the next full block, each of that value. */
  lemma PaddingBytes(t: Text)
    ensures var p, missing := Pkcs7Pad(t), BLOCK_SIZE - |t| % BLOCK_SIZE;
            && |p| == |t| + missing && p[..|t|] == t
            && forall i :: |t| <= i < |p| ==> p[i] == missing
  {
  }

  lemma UnpadPad(t: Text)
    ensures Pkcs7Unpad(Pkcs7Pad(t)) == Some(t)
  {
    var p := Pkcs7Pad(t);
    assert p[..|t|] == t;
  }

  function TrimEncKey(key: Text): (k: Text)
    ensures |k| == 32
    ensures |key| >= 32 ==> k == key[..32]
    ensures |key| < 32 ==> k[..|key|] == key && forall i :: |key| <= i < 32 ==> k[i] == '0' as int
  {
    if |key| >= 32 then key[..32] else key + seq(32 - |key|, _ => '0' as int)
  }

  // ---------------------------------------------------------------------- encryption of strings

  datatype CryptError = EmptyText | EmptyKey | CorruptBase64 | PartialBlock | Panic

  /** The key schedule: a cipher for every 32-byte key. */
  type Aes = Text -> BlockCipher

  ghost predicate Permutations(aes: Aes) {
    forall key: Text :: |key| == 32 ==> Invertible(aes(key))
  }

  /** Such ciphers exist, so that what is proved of them is not empty. */
  lemma PermutationsExist()
    ensures exists aes: Aes :: Permutations(aes)
  {
    var identity: Aes := key => BlockCipher(b => b, b => b);
    assert Permutations(identity);
  }

  function Encrypted(aes: Aes, plaintext: Text, key: Text): Result<Text, CryptError> {
    if plaintext == [] then Err(EmptyText)
    else if key == [] then Err(EmptyKey)
    else
      var k := TrimEncKey(key);
      Ok(Encode(Flatten(CbcEncrypt(aes(k), k[..BLOCK_SIZE], Blocks(Pkcs7Pad(plaintext))))))
  }

  function Decrypted(aes: Aes, encrypted: Text, key: Text): Result<Text, CryptError> {
    if encrypted == [] then Err(EmptyText)
    else if key == [] then Err(EmptyKey)
    else
      var k := TrimEncKey(key);
      match Decode(Std, StripLineBreaks(encrypted))
      case None => Err(CorruptBase64)
      case Some(crypt) =>
        if |crypt| % BLOCK_SIZE != 0 then Err(PartialBlock) else
        match Pkcs7Unpad(Flatten(CbcDecrypt(aes(k), k[..BLOCK_SIZE], Blocks(crypt))))
        case None => Err(Panic)
        case Some(plain) => Ok(plain)
  }

  method EncryptAES256(aes: Aes, plaintext: Text, key: Text) returns (r: Result<Text, CryptError>)
    ensures r == Encrypted(aes, plaintext, key)
  {
    if |plaintext| == 0 {
      return Err(EmptyText);
    }
    if |key| == 0 {
      return Err(EmptyKey);
    }
    var k := TrimEncKey(key);
    var iv := k[..BLOCK_SIZE];
    var plain := Blocks(Pkcs7Pad(plaintext));
    var ciphertext := new Block[|plain|];
    CryptBlocksEncrypt(aes(k), iv, ciphertext, plain);
    return Ok(Encode(Flatten(ciphertext[..])));
  }

  method DecryptAES256(aes: Aes, encrypted: Text, key: Text) returns (r: Result<Text, CryptError>)
    ensures r == Decrypted(aes, encrypted, key)
  {
    if |encrypted| == 0 {
      return Err(EmptyText);
    }
    if |key| == 0 {
      return Err(EmptyKey);
    }
    var k := TrimEncKey(key);
    var iv := k[..BLOCK_SIZE];
    var decoded := Decode(Std, StripLineBreaks(encrypted));
    if decoded.None? {
      return Err(CorruptBase64);
    }
    if |decoded.value| % BLOCK_SIZE != 0 {
      return Err(PartialBlock);
    }
    var crypt := Blocks(decoded.value);
    var ciphertext := new Block[|crypt|](i requires 0 <= i < |crypt| => crypt[i]);
    assert ciphertext[..] == crypt;
    CryptBlocksDecryptInPlace(aes(k), iv, ciphertext);
    var plain := Pkcs7Unpad(Flatten(ciphertext[..]));
    if plain.None? {
      return Err(Panic);
    }
    return Ok(plain.value);
  }

  /** Decrypting an encrypted string gives it back, for every nonempty string and passphrase. */
  lemma DecryptEncrypt(aes: Aes, plaintext: Text, key: Text)
    requires Permutations(aes) && plaintext != [] && key != []
    ensures Encrypted(aes, plaintext, key).Ok?
    ensures Decrypted(aes, Encrypted(aes, plaintext, key).value, key) == Ok(plaintext)
  {
    hide Encode, Decode, CbcEncrypt, CbcDecrypt, Blocks, Flatten, Pkcs7Pad, Pkcs7Unpad;
    var k := TrimEncKey(key);
    var iv := k[..BLOCK_SIZE];
    var padded := Pkcs7Pad(plaintext);
    var crypt := CbcEncrypt(aes(k), iv, Blocks(padded));
    EncodedHasNoLineBreaks(Flatten(crypt));
    DecodeEncode(Flatten(crypt));
    BlocksFlatten(crypt);
    CbcInverts(aes(k), iv, Blocks(padded));
    FlattenBlocks(padded);
    UnpadPad(plaintext);
  }

  lemma {:induction false} BlockAt(t: Text, i: nat)
    requires |t| % BLOCK_SIZE == 0 && i < |t| / BLOCK_SIZE
    ensures Blocks(t)[i] == t[BLOCK_SIZE * i..BLOCK_SIZE * i + BLOCK_SIZE]
  {
    if i > 0 {
      BlockAt(t[BLOCK_SIZE..], i - 1);
    }
  }

  /**
    What is encrypted: base64 of as many bytes as the padded text has, of which each block is the cipher's image
    of the padded block combined with the one before it, the first with the beginning of the key.
  */
  lemma EncryptedBytes(aes: Aes, plaintext: Text, key: Text) returns (bytes: Text)
    requires plaintext != [] && key != []
    ensures Encrypted(aes, plaintext, key).Ok?
    ensures Decode(Std, Encrypted(aes, plaintext, key).value) == Some(bytes)
    ensures |bytes| == |Pkcs7Pad(plaintext)|
    ensures forall i :: 0 <= i < |bytes| / BLOCK_SIZE ==>
              var k, at := TrimEncKey(key), BLOCK_SIZE * i;
              bytes[at..at + BLOCK_SIZE] ==
              aes(k).encrypt(XorBlock(
                Pkcs7Pad(plaintext)[at..at + BLOCK_SIZE], if i == 0 then k[..BLOCK_SIZE] else bytes[at - BLOCK_SIZE..at]))
  {
    hide Encode, Decode, CbcEncrypt, Pkcs7Pad, XorBlock, Blocks, Flatten;
    var k := TrimEncKey(key);
    var padded := Pkcs7Pad(plaintext);
    bytes := Flatten(CbcEncrypt(aes(k), k[..BLOCK_SIZE], Blocks(padded)));
    DecodeEncode(bytes);
    forall i | 0 <= i < |bytes| / BLOCK_SIZE
      ensures var at := BLOCK_SIZE * i;
              bytes[at..at + BLOCK_SIZE] ==
              aes(k).encrypt(XorBlock(
                padded[at..at + BLOCK_SIZE], if i == 0 then k[..BLOCK_SIZE] else bytes[at - BLOCK_SIZE..at]))
    {
      ChainedAt(aes(k), k[..BLOCK_SIZE], padded, i);
    }
  }

  lemma ChainedAt(c: BlockCipher, iv: Block, padded: Text, i: nat)
    requires |padded| % BLOCK_SIZE == 0 && i < |padded| / BLOCK_SIZE
    ensures var bytes, at := Flatten(CbcEncrypt(c, iv, Blocks(padded))), BLOCK_SIZE * i;
            && |bytes| == |padded|
            && bytes[at..at + BLOCK_SIZE] ==
                 c.encrypt(XorBlock(padded[at..at + BLOCK_SIZE], if i == 0 then iv else bytes[at - BLOCK_SIZE..at]))
  {
    hide CbcEncrypt, XorBlock, Blocks, Flatten;
    var crypt := CbcEncrypt(c, iv, Blocks(padded));
    BlocksFlatten(crypt);
    BlockAt(Flatten(crypt), i);
    BlockAt(padded, i);
    CbcEncryptAt(c, iv, Blocks(padded), i);
    if i > 0 {
      BlockAt(Flatten(crypt), i - 1);
    }
  }

  // ---------------------------------------------------------------------- the serializer

  const PREFIX: Text := Ascii("WG_ENC_")

  datatype Serializer = Serializer(useEncryption: bool, keyPhrase: Text)

  function NewSerializer(keyPhrase: Text): (s: Serializer)
    ensures s.useEncryption <==> s.keyPhrase != []
  {
    Serializer(keyPhrase != [], keyPhrase)
  }

  /** What a model field holds; the three string types are serialized alike. */
  datatype FieldValue = NilField | Str(text: Text) | PreSharedKey(text: Text) | PrivateString(text: Text) | OtherField

  /** What the database driver hands over. */
  datatype DbValue = Null | Bytes(text: Text) | DbString(text: Text) | OtherDb

  datatype SerializeError = Unsupported | Crypt(error: CryptError)

  predicate HasPrefix(t: Text) {
    |t| >= |PREFIX| && t[..|PREFIX|] == PREFIX
  }

  function Value(aes: Aes, s: Serializer, v: FieldValue): Result<DbValue, SerializeError> {
    match v
    case NilField => Ok(Null)
    case OtherField => Err(Unsupported)
    case _ =>
      if v.text == [] then Ok(DbString([]))
      else if !s.useEncryption then Ok(DbString(v.text))
      else match Encrypted(aes, v.text, s.keyPhrase)
        case Err(e) => Err(Crypt(e))
        case Ok(encrypted) => Ok(DbString(PREFIX + encrypted))
  }

  function Scanned(aes: Aes, s: Serializer, dbValue: DbValue): Result<Text, SerializeError> {
    if dbValue.OtherDb? then Err(Unsupported) else
    var text := if dbValue.Null? then [] else dbValue.text;
    if !s.useEncryption || !HasPrefix(text) then Ok(text)
    else match Decrypted(aes, text[|PREFIX|..], s.keyPhrase)
      case Err(e) => Err(Crypt(e))
      case Ok(decrypted) => Ok(decrypted)
  }

  /** The destination field that `Scan` sets; an error leaves it as it was. */
  class Field {
    var value: Text

    constructor ()
      ensures value == []
    {
      value := [];
    }

    method Scan(aes: Aes, s: Serializer, dbValue: DbValue) returns (r: Result<(), SerializeError>)
      modifies this
      ensures match Scanned(aes, s, dbValue)
              case Ok(text) => r.Ok? && value == text
              case Err(e) => r == Err(e) && value == old(value)
    {
      var dbStringValue: Text := [];
      match dbValue {
        case Null =>
        case Bytes(t) => dbStringValue := t;
        case DbString(t) => dbStringValue := t;
        case OtherDb => return Err(Unsupported);
      }
      if !s.useEncryption {
        value := dbStringValue;
        return Ok(());
      }
      if !HasPrefix(dbStringValue) {
        value := dbStringValue;
        return Ok(());
      }
      var decrypted := DecryptAES256(aes, dbStringValue[|PREFIX|..], s.keyPhrase);
      if decrypted.Err? {
        return Err(Crypt(decrypted.error));
      }
      value := decrypted.value;
      return Ok(());
    }
  }

  /**
    What was stored is read back: for every string, passphrase (the empty one switches encryption off)
    and invertible cipher.
  */
  lemma ScanValue(aes: Aes, keyPhrase: Text, v: FieldValue)
    requires Permutations(aes) && !v.OtherField?
    ensures var s := NewSerializer(keyPhrase);
            Value(aes, s, v).Ok? &&
            Scanned(aes, s, Value(aes, s, v).value) == Ok(if v.NilField? then [] else v.text)
  {
    hide Encrypted, Decrypted;
    if !v.NilField? && v.text != [] && keyPhrase != [] {
      DecryptEncrypt(aes, v.text, keyPhrase);
      var encrypted := Encrypted(aes, v.text, keyPhrase).value;
      assert (PREFIX + encrypted)[..|PREFIX|] == PREFIX;
      assert (PREFIX + encrypted)[|PREFIX|..] == encrypted;
    }
  }

  /**
    What is stored: with a passphrase a nonempty text is prefixed and encrypted, whatever the string type and
    whatever it begins with; without one it is stored as it is; the empty text and the missing one stay so.
  */
  lemma ValueIsEncrypted(aes: Aes, keyPhrase: Text, v: FieldValue)
    requires Permutations(aes) && (v.Str? || v.PreSharedKey? || v.PrivateString?)
    ensures Value(aes, NewSerializer(keyPhrase), v).Ok?
    ensures var stored := Value(aes, NewSerializer(keyPhrase), v).value;
            && stored.DbString?
            && (v.text == [] || keyPhrase == [] ==> stored.text == v.text)
            && (v.text != [] && keyPhrase != [] ==>
                 && |stored.text| > 7 && stored.text[..7] == Ascii("WG_ENC_")
                 && Ok(stored.text[7..]) == Encrypted(aes, v.text, keyPhrase)
                 && Decrypted(aes, stored.text[7..], keyPhrase) == Ok(v.text))
  {
    hide Encrypted, Decrypted;
    if v.text != [] && keyPhrase != [] {
      DecryptEncrypt(aes, v.text, keyPhrase);
      EncryptedIsNotEmpty(aes, v.text, keyPhrase);
      var encrypted := Encrypted(aes, v.text, keyPhrase).value;
      assert PREFIX == Ascii("WG_ENC_") && |PREFIX| == 7;
      assert (PREFIX + encrypted)[..7] == PREFIX && (PREFIX + encrypted)[7..] == encrypted;
    }
  }

  lemma EncryptedIsNotEmpty(aes: Aes, plaintext: Text, key: Text)
    requires plaintext != [] && key != []
    ensures Encrypted(aes, plaintext, key).Ok? && Encrypted(aes, plaintext, key).value != []
  {
    hide Encode, CbcEncrypt, Pkcs7Pad;
  }

  /** Other values are refused, and a missing pointer is stored as null. */
  lemma OtherValues(aes: Aes, keyPhrase: Text)
    ensures Value(aes, NewSerializer(keyPhrase), NilField) == Ok(Null)
    ensures Value(aes, NewSerializer(keyPhrase), OtherField) == Err(Unsupported)
    ensures Scanned(aes, NewSerializer(keyPhrase), OtherDb) == Err(Unsupported)
    ensures Scanned(aes, NewSerializer(keyPhrase), Null) == Ok([])
  {
  }

  /** With encryption on, decryption never yields a text as long as the base64 it came from. */
  lemma DecryptedIsShorter(aes: Aes, encrypted: Text, key: Text)
    requires Decrypted(aes, encrypted, key).Ok?
    ensures |Decrypted(aes, encrypted, key).value| < |encrypted| + |PREFIX|
  {
    hide Decode, CbcDecrypt;
    var crypt := Decode(Std, StripLineBreaks(encrypted)).value;
    assert |Blocks(crypt)| == |crypt| / BLOCK_SIZE;
  }

  /**
    A legacy value written without encryption reads back unchanged once encryption is on exactly when
    it does not begin with the prefix.
  */
  lemma LegacyReadsBackIff(aes: Aes, keyPhrase: Text, t: Text)
    requires keyPhrase != []
    ensures Value(aes, NewSerializer([]), Str(t)) == Ok(DbString(t))
    ensures Scanned(aes, NewSerializer(keyPhrase), DbString(t)) == Ok(t) <==> !HasPrefix(t)
  {
    hide Decrypted;
    if HasPrefix(t) && Decrypted(aes, t[|PREFIX|..], keyPhrase).Ok? {
      DecryptedIsShorter(aes, t[|PREFIX|..], keyPhrase);
    }
  }
}

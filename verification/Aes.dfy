/** AES in CBC mode with the fixed vector (common.go) and in ECB mode (aec.go), over an abstract block cipher. */
module Aes {
  import opened Bytes
  import opened Padding
  import opened TextCodecs
  import opened Wrappers

  const BLOCK := 16

  /** What aes.NewCipher gives for a key. */
  datatype Cipher = Cipher(encrypt: Bytes -> Bytes, decrypt: Bytes -> Bytes)

  predicate ValidKey(key: Bytes) { |key| == 16 || |key| == 24 || |key| == 32 }

  /** On blocks, encrypt and decrypt are each other's inverses. */
  ghost predicate Permutes(c: Cipher) {
    forall b: Bytes :: |b| == BLOCK ==> Inverts(c, b)
  }

  ghost predicate Inverts(c: Cipher, b: Bytes) {
    && |c.encrypt(b)| == BLOCK && c.decrypt(c.encrypt(b)) == b
    && |c.decrypt(b)| == BLOCK && c.encrypt(c.decrypt(b)) == b
  }

  function XorBlock(a: Bytes, b: Bytes): (r: Bytes)
    requires |a| == |b|
    ensures |r| == |a|
  {
    seq(|a|, i requires 0 <= i < |a| => Xor(a[i], b[i]))
  }

  /** Blocks are mixed byte by byte, each bit set where the two differ. */
  lemma XorBlockSpelledOut(a: Bytes, b: Bytes, i: nat, k: nat)
    requires |a| == |b| && i < |a| && k < 8
    ensures Bit(XorBlock(a, b)[i] as nat, k) == 1 <==> Bit(a[i] as nat, k) != Bit(b[i] as nat, k)
  {
    hide Bit, Xor;
    XorSpelledOut(a[i], b[i], k);
  }

  lemma XorBlockTwice(a: Bytes, b: Bytes)
    requires |a| == |b|
    ensures XorBlock(XorBlock(a, b), b) == a
  {
    forall i | 0 <= i < |a| ensures XorBlock(XorBlock(a, b), b)[i] == a[i] {
      XorTwice(a[i], b[i]);
    }
  }

  predicate FullBlocks(data: Bytes) { |data| % BLOCK == 0 }

  lemma FirstBlock(data: Bytes)
    requires FullBlocks(data) && data != []
    ensures |data| >= BLOCK && FullBlocks(data[BLOCK..])
  {}

  // ---------------------------------------------------------------- modes of operation

  /** Section 6.2 of NIST SP 800-38A. */
  ghost function CbcEncrypt(c: Cipher, iv: Bytes, data: Bytes): (r: Bytes)
    requires Permutes(c) && |iv| == BLOCK && FullBlocks(data)
    ensures |r| == |data|
    decreases data
  {
    if data == [] then []
    else
      FirstBlock(data);
      assert Inverts(c, XorBlock(data[..BLOCK], iv));
      var x := c.encrypt(XorBlock(data[..BLOCK], iv));
      x + CbcEncrypt(c, x, data[BLOCK..])
  }

  ghost function CbcDecrypt(c: Cipher, iv: Bytes, data: Bytes): (r: Bytes)
    requires Permutes(c) && |iv| == BLOCK && FullBlocks(data)
    ensures |r| == |data|
    decreases data
  {
    if data == [] then []
    else
      FirstBlock(data);
      assert Inverts(c, data[..BLOCK]);
      XorBlock(c.decrypt(data[..BLOCK]), iv) + CbcDecrypt(c, data[..BLOCK], data[BLOCK..])
  }

  lemma EncryptTurn(c: Cipher, iv: Bytes, first: Bytes, rest: Bytes)
    requires Permutes(c) && |iv| == BLOCK == |first| && FullBlocks(rest)
    ensures var x := c.encrypt(XorBlock(first, iv));
            |x| == BLOCK && FullBlocks(first + rest)
            && CbcEncrypt(c, iv, first + rest) == x + CbcEncrypt(c, x, rest)
  {
    assert Inverts(c, XorBlock(first, iv));
    assert (first + rest)[..BLOCK] == first && (first + rest)[BLOCK..] == rest;
  }

  lemma DecryptTurn(c: Cipher, iv: Bytes, first: Bytes, rest: Bytes)
    requires Permutes(c) && |iv| == BLOCK == |first| && FullBlocks(rest)
    ensures |c.decrypt(first)| == BLOCK && FullBlocks(first + rest)
    ensures CbcDecrypt(c, iv, first + rest) == XorBlock(c.decrypt(first), iv) + CbcDecrypt(c, first, rest)
  {
    assert Inverts(c, first);
    assert (first + rest)[..BLOCK] == first && (first + rest)[BLOCK..] == rest;
  }

  lemma {:induction false} CbcRoundTrip(c: Cipher, iv: Bytes, data: Bytes)
    requires Permutes(c) && |iv| == BLOCK && FullBlocks(data)
    ensures FullBlocks(CbcEncrypt(c, iv, data)) && CbcDecrypt(c, iv, CbcEncrypt(c, iv, data)) == data
    decreases data
  {
    if data != [] {
      hide CbcEncrypt, CbcDecrypt, XorBlock, FullBlocks;
      FirstBlock(data);
      var first, rest := data[..BLOCK], data[BLOCK..];
      var x := c.encrypt(XorBlock(first, iv));
      assert data == first + rest;
      EncryptTurn(c, iv, first, rest);
      CbcRoundTrip(c, x, rest);
      DecryptTurn(c, iv, x, CbcEncrypt(c, x, rest));
      assert Inverts(c, XorBlock(first, iv));
      XorBlockTwice(first, iv);
    }
  }

  /** Section 6.1 of NIST SP 800-38A. */
  ghost function EcbEncrypt(c: Cipher, data: Bytes): (r: Bytes)
    requires Permutes(c) && FullBlocks(data)
    ensures |r| == |data|
  {
    if data == [] then []
    else
      FirstBlock(data);
      assert Inverts(c, data[..BLOCK]);
      c.encrypt(data[..BLOCK]) + EcbEncrypt(c, data[BLOCK..])
  }

  ghost function EcbDecrypt(c: Cipher, data: Bytes): (r: Bytes)
    requires Permutes(c) && FullBlocks(data)
    ensures |r| == |data|
  {
    if data == [] then []
    else
      FirstBlock(data);
      assert Inverts(c, data[..BLOCK]);
      c.decrypt(data[..BLOCK]) + EcbDecrypt(c, data[BLOCK..])
  }

  lemma {:induction false} EcbRoundTrip(c: Cipher, data: Bytes)
    requires Permutes(c) && FullBlocks(data)
    ensures EcbDecrypt(c, EcbEncrypt(c, data)) == data
  {
    if data != [] {
      assert Inverts(c, data[..BLOCK]);
      var e := EcbEncrypt(c, data);
      assert e[..BLOCK] == c.encrypt(data[..BLOCK]) && e[BLOCK..] == EcbEncrypt(c, data[BLOCK..]);
      EcbRoundTrip(c, data[BLOCK..]);
      assert data == data[..BLOCK] + data[BLOCK..];
    }
  }

  /** Block i of data. */
  function Block(data: Bytes, i: nat): (b: Bytes)
    requires BLOCK * i + BLOCK <= |data|
    ensures |b| == BLOCK
  {
    data[BLOCK * i..BLOCK * i + BLOCK]
  }

  lemma BlockBehind(x: Bytes, rest: Bytes, i: nat)
    requires |x| == BLOCK && i > 0 && BLOCK * i <= |rest|
    ensures Block(x + rest, i) == Block(rest, i - 1)
  {}

  lemma BlockInFront(x: Bytes, rest: Bytes)
    requires |x| == BLOCK
    ensures Block(x + rest, 0) == x
  {}

  /** Block i of the text is the encryption of block i of the data mixed with the text block before it, the first one
      with the vector. */
  lemma {:induction false} CbcSpelledOut(c: Cipher, iv: Bytes, data: Bytes, i: nat)
    requires Permutes(c) && |iv| == 16 && FullBlocks(data) && 16 * i + 16 <= |data|
    ensures var e := CbcEncrypt(c, iv, data);
            Block(e, i) == c.encrypt(XorBlock(Block(data, i), if i == 0 then iv else Block(e, i - 1)))
    decreases i
  {
    hide CbcEncrypt, FullBlocks, XorBlock, Block;
    FirstBlock(data);
    var first, rest := data[..BLOCK], data[BLOCK..];
    assert data == first + rest;
    EncryptTurn(c, iv, first, rest);
    var x := c.encrypt(XorBlock(first, iv));
    var e := CbcEncrypt(c, x, rest);
    BlockInFront(first, rest);
    BlockInFront(x, e);
    if i > 0 {
      CbcSpelledOut(c, x, rest, i - 1);
      BlockBehind(first, rest, i);
      BlockBehind(x, e, i);
      if i > 1 {
        BlockBehind(x, e, i - 1);
      }
    }
  }

  /** In ECB each block of the data is encrypted on its own. */
  lemma {:induction false} EcbSpelledOut(c: Cipher, data: Bytes, i: nat)
    requires Permutes(c) && FullBlocks(data) && 16 * i + 16 <= |data|
    ensures Block(EcbEncrypt(c, data), i) == c.encrypt(Block(data, i))
    decreases i
  {
    FirstBlock(data);
    assert Inverts(c, data[..BLOCK]);
    var first, rest := data[..BLOCK], data[BLOCK..];
    assert data == first + rest;
    if i > 0 {
      hide Block;
      EcbSpelledOut(c, rest, i - 1);
      BlockBehind(first, rest, i);
      BlockBehind(c.encrypt(first), EcbEncrypt(c, rest), i);
    }
  }

  // ---------------------------------------------------------------- common.go

  /** The sixteen characters '0' of ivspec. */
  const IVSPEC: Bytes := [48, 48, 48, 48, 48, 48, 48, 48, 48, 48, 48, 48, 48, 48, 48, 48]

  /** Writes block x into dst at i. */
  method PutBlock(dst: array<byte>, i: nat, x: Bytes)
    requires |x| == BLOCK && i + BLOCK <= dst.Length
    modifies dst
    ensures dst[..i + BLOCK] == old(dst[..i]) + x
    ensures dst[i + BLOCK..] == old(dst[i + BLOCK..])
  {
    forall k | 0 <= k < BLOCK {
      dst[i + k] := x[k];
    }
  }

  lemma NextBlock(src: Bytes, i: nat)
    requires i < |src| && FullBlocks(src[i..])
    ensures i + BLOCK <= |src| && FullBlocks(src[i + BLOCK..])
    ensures src[i..] != [] && src[i..][..BLOCK] == src[i..i + BLOCK] && src[i..][BLOCK..] == src[i + BLOCK..]
  {}

  /** CryptBlocks of the CBC encrypter: dst is filled block by block. */
  method CbcEncryptBlocks(c: Cipher, iv: Bytes, dst: array<byte>, src: Bytes)
    requires Permutes(c) && |iv| == BLOCK && FullBlocks(src) && dst.Length == |src|
    modifies dst
    ensures dst[..] == CbcEncrypt(c, iv, src)
  {
    hide FullBlocks;
    assert src[0..] == src;
    var i := 0;
    var prev := iv;
    while i < |src|
      invariant 0 <= i <= |src| && FullBlocks(src[i..]) && |prev| == BLOCK
      invariant CbcEncrypt(c, iv, src) == dst[..i] + CbcEncrypt(c, prev, src[i..])
    {
      NextBlock(src, i);
      var block := src[i..i + BLOCK];
      assert Inverts(c, XorBlock(block, prev));
      var x := c.encrypt(XorBlock(block, prev));
      ghost var rest := CbcEncrypt(c, x, src[i + BLOCK..]);
      assert CbcEncrypt(c, prev, src[i..]) == x + rest;
      assert dst[..i] + (x + rest) == (dst[..i] + x) + rest;
      PutBlock(dst, i, x);
      prev := x;
      i := i + BLOCK;
    }
    assert dst[..i] == dst[..];
  }

  method CbcDecryptBlocks(c: Cipher, iv: Bytes, dst: array<byte>, src: Bytes)
    requires Permutes(c) && |iv| == BLOCK && FullBlocks(src) && dst.Length == |src|
    modifies dst
    ensures dst[..] == CbcDecrypt(c, iv, src)
  {
    hide FullBlocks;
    assert src[0..] == src;
    var i := 0;
    var prev := iv;
    while i < |src|
      invariant 0 <= i <= |src| && FullBlocks(src[i..]) && |prev| == BLOCK
      invariant CbcDecrypt(c, iv, src) == dst[..i] + CbcDecrypt(c, prev, src[i..])
    {
      NextBlock(src, i);
      var block := src[i..i + BLOCK];
      assert Inverts(c, block);
      var x := XorBlock(c.decrypt(block), prev);
      ghost var rest := CbcDecrypt(c, block, src[i + BLOCK..]);
      assert CbcDecrypt(c, prev, src[i..]) == x + rest;
      assert dst[..i] + (x + rest) == (dst[..i] + x) + rest;
      PutBlock(dst, i, x);
      prev := block;
      i := i + BLOCK;
    }
    assert dst[..i] == dst[..];
  }

  lemma PaddedFull(data: Bytes)
    ensures FullBlocks(PKCS5Padding(data, BLOCK)) && PKCS5Padding(data, BLOCK) != []
    ensures FullBlocks([])
  {}

  ghost function Encoded(c: Cipher, src: Bytes): string
    requires Permutes(c)
  {
    PaddedFull(src);
    HexEncode(CbcEncrypt(c, IVSPEC, PKCS5Padding(src, BLOCK)))
  }

  /** What decoding gives; None where the Go code panics. */
  ghost function Decoded(c: Cipher, crypt: string): Option<Bytes>
    requires Permutes(c)
  {
    var crypted := HexDecode(ToLower(crypt));
    if !FullBlocks(crypted) then None else PKCS5Trimming(CbcDecrypt(c, IVSPEC, crypted))
  }

  /** The text is the hex of the CBC chain over the padded source, starting from sixteen characters '0'. */
  lemma EncodedSpelledOut(c: Cipher, src: Bytes) returns (crypted: Bytes)
    requires Permutes(c)
    ensures Encoded(c, src) == HexEncode(crypted)
    ensures |crypted| == |PKCS5Padding(src, 16)|
    ensures forall i: nat :: 16 * i + 16 <= |crypted| ==>
              Block(crypted, i) == c.encrypt(XorBlock(Block(PKCS5Padding(src, 16), i),
                                                      if i == 0 then Repeat(48, 16) else Block(crypted, i - 1)))
  {
    hide PKCS5Padding, FullBlocks, Block, XorBlock, CbcEncrypt;
    PaddedFull(src);
    var padded := PKCS5Padding(src, 16);
    crypted := CbcEncrypt(c, IVSPEC, padded);
    assert IVSPEC == Repeat(48, 16);
    forall i: nat | 16 * i + 16 <= |crypted|
      ensures Block(crypted, i) == c.encrypt(XorBlock(Block(padded, i),
                                                      if i == 0 then Repeat(48, 16) else Block(crypted, i - 1)))
    {
      CbcSpelledOut(c, IVSPEC, padded, i);
    }
  }

  /** None is the panic on a key of the wrong size. */
  method AESEncodeStr(src: Bytes, key: Bytes, newCipher: Bytes -> Cipher) returns (r: Option<string>)
    requires ValidKey(key) ==> Permutes(newCipher(key))
    ensures r.Some? <==> |key| == 16 || |key| == 24 || |key| == 32
    ensures r.Some? ==> r.value == Encoded(newCipher(key), src)
  {
    if !ValidKey(key) {
      return None;
    }
    PaddedFull(src);
    var content := PKCS5Padding(src, BLOCK);
    var crypted := new byte[|content|];
    CbcEncryptBlocks(newCipher(key), IVSPEC, crypted, content);
    r := Some(HexEncode(crypted[..]));
  }

  method AESDecodeStr(crypt: string, key: Bytes, newCipher: Bytes -> Cipher) returns (r: Option<Bytes>)
    requires ValidKey(key) ==> Permutes(newCipher(key))
    ensures r == if |key| == 16 || |key| == 24 || |key| == 32 then Decoded(newCipher(key), crypt) else None
  {
    var crypted := HexDecode(ToLower(crypt));
    if !ValidKey(key) || !FullBlocks(crypted) {
      return None;
    }
    var decrypted := new byte[|crypted|];
    CbcDecryptBlocks(newCipher(key), IVSPEC, decrypted, crypted);
    r := PKCS5Trimming(decrypted[..]);
  }

  /** Decoding recovers every plaintext, the empty one included, also from hex raised to upper case. */
  lemma DecodeUndoesEncode(c: Cipher, src: Bytes)
    requires Permutes(c)
    ensures Decoded(c, Encoded(c, src)) == Some(src)
    ensures Decoded(c, ToUpper(Encoded(c, src))) == Some(src)
  {
    PaddedFull(src);
    var content := PKCS5Padding(src, BLOCK);
    var crypted := CbcEncrypt(c, IVSPEC, content);
    HexCaseFree(crypted);
    HexRoundTrip(crypted);
    CbcRoundTrip(c, IVSPEC, content);
    TrimUndoesPad(src, BLOCK);
  }

  // ---------------------------------------------------------------- aec.go

  ghost function EcbText(c: Cipher, input: Bytes): string
    requires Permutes(c)
  {
    PaddedFull(input);
    if input == [] then "" else Base64Encode(EcbEncrypt(c, PKCS5Padding(input, BLOCK)))
  }

  /** The text is the base64 of the padded input, each block encrypted on its own. */
  lemma EcbTextSpelledOut(c: Cipher, input: Bytes) returns (crypted: Bytes)
    requires Permutes(c) && input != []
    ensures EcbText(c, input) == Base64Encode(crypted)
    ensures |crypted| == |PKCS5Padding(input, 16)|
    ensures forall i: nat :: 16 * i + 16 <= |crypted| ==>
              Block(crypted, i) == c.encrypt(Block(PKCS5Padding(input, 16), i))
  {
    hide PKCS5Padding, FullBlocks, Block, EcbEncrypt, Base64Encode;
    PaddedFull(input);
    crypted := EcbEncrypt(c, PKCS5Padding(input, 16));
    forall i: nat | 16 * i + 16 <= |crypted|
      ensures Block(crypted, i) == c.encrypt(Block(PKCS5Padding(input, 16), i))
    {
      EcbSpelledOut(c, PKCS5Padding(input, 16), i);
    }
  }

  /** decodeKey is the base64 decoding of the key. An empty input is not padded: the error of the padding
      is dropped and the output is empty. */
  method EncryptAES128ECB(input: Bytes, base64key: string, decodeKey: string -> Result<Bytes>,
                          newCipher: Bytes -> Cipher) returns (r: Result<string>)
    requires var k := decodeKey(base64key); k.Ok? && ValidKey(k.value) ==> Permutes(newCipher(k.value))
    ensures r == match decodeKey(base64key)
                 case Err(e) => Err(e)
                 case Ok(key) => if |key| != 16 then Err("invalid key size") else Ok(EcbText(newCipher(key), input))
  {
    hide FullBlocks, Base64Encode, PKCS5Padding, EcbEncrypt, Permutes;
    var k := decodeKey(base64key);
    if k.Err? {
      return Err(k.error);
    }
    if |k.value| != 16 {
      return Err("invalid key size");
    }
    var c := newCipher(k.value);
    var padded := Pkcs7Pad(input, BLOCK);
    var plaintext := if padded.Ok? then padded.value else [];
    PaddedFull(input);
    if !FullBlocks(plaintext) {
      return Err("plaintext is not a multiple of the block size");
    }
    assert plaintext[0..] == plaintext;
    var ciphertext := new byte[|plaintext|];
    var i := 0;
    while i < |plaintext|
      invariant 0 <= i <= |plaintext| && FullBlocks(plaintext[i..])
      invariant EcbEncrypt(c, plaintext) == ciphertext[..i] + EcbEncrypt(c, plaintext[i..])
    {
      EcbTurn(c, ciphertext[..i], plaintext, i);
      var x := c.encrypt(plaintext[i..i + BLOCK]);
      PutBlock(ciphertext, i, x);
      i := i + BLOCK;
    }
    EmptyTexts(c);
    assert plaintext[i..] == [] && ciphertext[..i] == ciphertext[..];
    assert EcbEncrypt(c, plaintext) == ciphertext[..] + [] == ciphertext[..];
    assert input == [] ==> plaintext == [] && ciphertext[..] == [];
    r := Ok(Base64Encode(ciphertext[..]));
  }

  lemma EmptyTexts(c: Cipher)
    requires Permutes(c)
    ensures Base64Encode([]) == "" && EcbEncrypt(c, []) == []
  {}

  /** One more block of src behind what is done. */
  lemma EcbTurn(c: Cipher, done: Bytes, src: Bytes, i: nat)
    requires Permutes(c) && i < |src| && FullBlocks(src[i..])
    ensures i + BLOCK <= |src| && FullBlocks(src[i + BLOCK..])
    ensures |c.encrypt(src[i..i + BLOCK])| == BLOCK
    ensures done + EcbEncrypt(c, src[i..]) == done + c.encrypt(src[i..i + BLOCK]) + EcbEncrypt(c, src[i + BLOCK..])
  {
    hide FullBlocks;
    NextBlock(src, i);
    var x := src[i..i + BLOCK];
    assert Inverts(c, x);
    var rest := EcbEncrypt(c, src[i + BLOCK..]);
    assert EcbEncrypt(c, src[i..]) == c.encrypt(x) + rest;
    assert done + (c.encrypt(x) + rest) == (done + c.encrypt(x)) + rest;
  }

  /** The inverse of EcbText. */
  ghost function EcbRecovered(c: Cipher, text: string): Option<Bytes>
    requires Permutes(c)
  {
    var data := Base64Decode(text);
    if data == [] then Some([])
    else if !FullBlocks(data) then None
    else PKCS5Trimming(EcbDecrypt(c, data))
  }

  lemma EcbInvertible(c: Cipher, input: Bytes)
    requires Permutes(c)
    ensures EcbRecovered(c, EcbText(c, input)) == Some(input)
  {
    if input != [] {
      PaddedFull(input);
      var padded := PKCS5Padding(input, BLOCK);
      Base64RoundTrip(EcbEncrypt(c, padded));
      EcbRoundTrip(c, padded);
      TrimUndoesPad(input, BLOCK);
    }
  }

  /** Only the empty input has the empty text. */
  lemma OnlyEmptyGivesEmpty(c: Cipher, input: Bytes)
    requires Permutes(c)
    ensures EcbText(c, input) == "" <==> input == []
  {
    EmptyTexts(c);
    EcbInvertible(c, input);
    EcbInvertible(c, []);
  }

  /** Two inputs with the same text under one key are the same input. */
  lemma EcbInjective(c: Cipher, x: Bytes, y: Bytes)
    requires Permutes(c) && EcbText(c, x) == EcbText(c, y)
    ensures x == y
  {
    EcbInvertible(c, x);
    EcbInvertible(c, y);
  }
}

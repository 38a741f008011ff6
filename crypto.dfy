/**
 * The cryptographic envelope of crypto.py.
 *
 * AES-CBC, RSA-OAEP, SHA-256 and base64 are library calls. They appear here as the
 * function-valued fields of a `Primitives` record, and what the model relies on about
 * them is stated once, as the ghost predicates `AesSound`, `RsaSound`, `RsaMismatch`,
 * `HashSound` and `B64Sound`. Everything around those calls is concrete: the IV framing,
 * PKCS#7 padding (section 6.3 of RFC 5652), the hex encoding of a digest, and the draw
 * of random bytes from an explicit source of entropy.
 */
module Crypto {
  import opened Wrappers

  newtype byte = b: int | 0 <= b < 256
  type bytes = seq<byte>

  /** A source of random bytes: the i-th byte that `get_random_bytes` would return. */
  type Entropy = nat -> byte

  const BlockSize: nat := 16          // AES.block_size
  const IvLength: nat := 16           // the IV prepended to every ciphertext
  const AesKeyLength: nat := 32       // AES-256 document keys
  const RsaKeyBits: nat := 2048       // CryptoManager.key_size
  const DigestLength: nat := 32       // SHA-256
  /** Largest payload RSA-OAEP with SHA-1 accepts under a 2048-bit modulus:
      k - 2 * hLen - 2 with k = 256 and hLen = 20 (section 7.1.1 of RFC 8017). */
  const OaepMaxPayload: nat := RsaKeyBits / 8 - 2 * 20 - 2

  /** The ValueErrors the cipher and the unpadding raise. */
  datatype CipherError =
    | IncorrectKeyLength     // AES.new: key is not 16, 24 or 32 bytes
    | IncorrectIvLength      // AES.new: IV is not 16 bytes
    | NotBlockAligned        // CBC decrypt: ciphertext is not a multiple of 16 bytes
    | ZeroLengthInput        // unpad of an empty input
    | InputNotPadded         // unpad of an input that is not a multiple of 16 bytes
    | PaddingIncorrect       // unpad: last byte is 0 or larger than the block size
    | Pkcs7PaddingIncorrect  // unpad: trailing bytes differ from the last byte

  /** The library calls the envelope is built from. Keys travel as PEM text. */
  datatype Primitives = Primitives(
    aesEncrypt: (bytes, bytes, bytes) -> bytes,        // AES-CBC under (key, iv)
    aesDecrypt: (bytes, bytes, bytes) -> bytes,
    rsaGenerate: Entropy -> string,                    // RSA.generate(2048).export_key()
    rsaPublicOf: string -> string,                     // key.publickey().export_key()
    rsaEncrypt: (string, bytes) -> Option<bytes>,      // PKCS1_OAEP encrypt; None when it raises
    rsaDecrypt: (string, bytes) -> Option<bytes>,      // PKCS1_OAEP decrypt; None when it raises
    sha256: bytes -> bytes,                            // hashlib.sha256(...).digest()
    b64encode: bytes -> string,
    b64decode: string -> Option<bytes>)

  predicate IsAesKey(key: bytes) {
    |key| == 16 || |key| == 24 || |key| == 32
  }

  /** CBC decryption under the same key and IV inverts CBC encryption of block-aligned
      input, and neither direction changes the length. */
  ghost predicate AesSound(c: Primitives) {
    && (forall key, iv, p ::
          IsAesKey(key) && |iv| == IvLength && |p| % BlockSize == 0 ==>
            |c.aesEncrypt(key, iv, p)| == |p| && c.aesDecrypt(key, iv, c.aesEncrypt(key, iv, p)) == p)
    && (forall key, iv, x :: |c.aesDecrypt(key, iv, x)| == |x|)
  }

  /** OAEP under the public half of a generated key accepts every payload that fits,
      and the private half recovers it. */
  ghost predicate RsaSound(c: Primitives) {
    forall src: Entropy, m: bytes ::
      |m| <= OaepMaxPayload ==>
        && c.rsaEncrypt(c.rsaPublicOf(c.rsaGenerate(src)), m).Some?
        && c.rsaDecrypt(c.rsaGenerate(src), c.rsaEncrypt(c.rsaPublicOf(c.rsaGenerate(src)), m).value) == Some(m)
  }

  /** Unwrapping with a generated private key fails (OAEP's integrity check rejects it)
      when the payload was wrapped under the public half of a different generated key,
      instead of yielding some other key. A key is identified by its exported public text. */
  ghost predicate RsaMismatch(c: Primitives) {
    forall src: Entropy, other: Entropy, m: bytes ::
      c.rsaPublicOf(c.rsaGenerate(other)) != c.rsaPublicOf(c.rsaGenerate(src))
      && c.rsaEncrypt(c.rsaPublicOf(c.rsaGenerate(other)), m).Some? ==>
        c.rsaDecrypt(c.rsaGenerate(src), c.rsaEncrypt(c.rsaPublicOf(c.rsaGenerate(other)), m).value).None?
  }

  /** SHA-256 digests are 32 bytes long. */
  ghost predicate HashSound(c: Primitives) {
    forall data :: |c.sha256(data)| == DigestLength
  }

  /** base64 decoding inverts base64 encoding. */
  ghost predicate B64Sound(c: Primitives) {
    forall data :: c.b64decode(c.b64encode(data)) == Some(data)
  }

  ghost predicate Sound(c: Primitives) {
    AesSound(c) && RsaSound(c) && RsaMismatch(c) && HashSound(c) && B64Sound(c)
  }

  /** One choice of primitives that meets every axiom above, so that they are consistent. */
  function Ideal(): Primitives {
    Primitives(
      (key: bytes, iv: bytes, p: bytes) => p,
      (key: bytes, iv: bytes, x: bytes) => x,
      (src: Entropy) => if src(0) == 0 then "A" else "B",
      (priv: string) => "P" + priv,
      (pub: string, m: bytes) =>
        if (pub == "PA" || pub == "PB") && |m| <= OaepMaxPayload
        then Some([if pub == "PA" then 0 else 1] + m) else None,
      (priv: string, x: bytes) =>
        if (priv == "A" || priv == "B") && |x| >= 1 && x[0] == (if priv == "A" then 0 else 1)
        then Some(x[1..]) else None,
      (data: bytes) => seq(DigestLength, _ => 0 as byte),
      (data: bytes) => seq(|data|, i requires 0 <= i < |data| => (data[i] as int) as char),
      (s: string) =>
        if forall i | 0 <= i < |s| :: s[i] as int < 256
        then Some(seq(|s|, i requires 0 <= i < |s| && s[i] as int < 256 => (s[i] as int) as byte))
        else None)
  }

  /** The witness has two keypairs, told apart by the first entropy byte; a payload
      wrapped under one public key carries that key's tag byte, which the matching
      private key checks and strips. */
  lemma IdealRsaSound()
    ensures RsaSound(Ideal())
  {
    forall src: Entropy, m: bytes | |m| <= OaepMaxPayload
      ensures Ideal().rsaEncrypt(Ideal().rsaPublicOf(Ideal().rsaGenerate(src)), m).Some?
      ensures Ideal().rsaDecrypt(Ideal().rsaGenerate(src),
                Ideal().rsaEncrypt(Ideal().rsaPublicOf(Ideal().rsaGenerate(src)), m).value) == Some(m)
    {
      IdealWrapUnwrap(Ideal().rsaGenerate(src), m);
    }
  }

  lemma IdealWrapUnwrap(priv: string, m: bytes)
    requires priv == "A" || priv == "B"
    requires |m| <= OaepMaxPayload
    ensures Ideal().rsaEncrypt(Ideal().rsaPublicOf(priv), m).Some?
    ensures Ideal().rsaDecrypt(priv, Ideal().rsaEncrypt(Ideal().rsaPublicOf(priv), m).value) == Some(m)
  {
    var c := Ideal();
    var tag: byte := if priv == "A" then 0 else 1;
    var pub := c.rsaPublicOf(priv);
    if priv == "A" {
      assert pub == "PA";
    } else {
      assert pub == "PB";
    }
    var x := [tag] + m;
    assert c.rsaEncrypt(pub, m) == Some(x);
    assert x[0] == tag && x[1..] == m;
  }

  /** Under the witness, a payload wrapped under the other public key keeps the other tag. */
  lemma IdealRsaMismatch()
    ensures RsaMismatch(Ideal())
  {
    var c := Ideal();
    forall src: Entropy, other: Entropy, m: bytes |
      c.rsaPublicOf(c.rsaGenerate(other)) != c.rsaPublicOf(c.rsaGenerate(src))
      && c.rsaEncrypt(c.rsaPublicOf(c.rsaGenerate(other)), m).Some?
      ensures c.rsaDecrypt(c.rsaGenerate(src), c.rsaEncrypt(c.rsaPublicOf(c.rsaGenerate(other)), m).value).None?
    {
      var pub := c.rsaPublicOf(c.rsaGenerate(other));
      var priv := c.rsaGenerate(src);
      assert priv == "A" || priv == "B";
      assert pub == "PA" || pub == "PB";
      var x := c.rsaEncrypt(pub, m).value;
      assert x[0] == if pub == "PA" then 0 else 1;
      assert pub == "PA" <==> priv == "B";
    }
  }

  /** Two entropy sources give the witness two different keypairs, so premises that
      ask for users with different keys can be met. */
  lemma IdealKeysDiffer()
    ensures GenerateRsaKeypair(Ideal(), _ => 0).0 != GenerateRsaKeypair(Ideal(), _ => 1).0
  {
    assert Ideal().rsaGenerate(_ => 0) == "A" && Ideal().rsaGenerate(_ => 1) == "B";
    assert ("P" + "A")[1] != ("P" + "B")[1];
  }

  lemma IdealIsSound()
    ensures Sound(Ideal())
  {
    var c := Ideal();
    IdealRsaSound();
    IdealRsaMismatch();
    forall data: bytes ensures c.b64decode(c.b64encode(data)) == Some(data) {
      var s := c.b64encode(data);
      assert |s| == |data|;
      assert forall i | 0 <= i < |s| :: s[i] as int == data[i] as int;
      assert forall i | 0 <= i < |s| :: s[i] as int < 256;
      var back := seq(|s|, i requires 0 <= i < |s| && s[i] as int < 256 => (s[i] as int) as byte);
      assert back == data;
      assert c.b64decode(s) == Some(back);
    }
  }

  // ----- Randomness -----

  /** get_random_bytes(n): the first n bytes of the entropy source. */
  function GetRandomBytes(n: nat, source: Entropy): (r: bytes)
    ensures |r| == n
    ensures forall i :: 0 <= i < n ==> r[i] == source(i)
  {
    seq(n, i requires 0 <= i < n => source(i))
  }

  /** generate_aes_key: a fresh AES-256 key. */
  function GenerateAesKey(source: Entropy): (key: bytes)
    ensures |key| == AesKeyLength && IsAesKey(key)
  {
    GetRandomBytes(AesKeyLength, source)
  }

  // ----- PKCS#7 padding -----

  /** pad(data, 16): append n copies of the byte n, where n in 1..16 brings the length
      to the next multiple of the block size. */
  function Pad(data: bytes): (r: bytes)
    ensures |r| % BlockSize == 0
    ensures |data| < |r| <= |data| + BlockSize
    ensures r[..|data|] == data
    ensures forall i :: |data| <= i < |r| ==> r[i] as int == |r| - |data|
  {
    var n := BlockSize - |data| % BlockSize;
    data + seq(n, _ => n as byte)
  }

  /** unpad(padded, 16), with the checks and the order of checks of the library. */
  function Unpad(padded: bytes): (r: Result<bytes, CipherError>)
    ensures |padded| == 0 ==> r == Failure(ZeroLengthInput)
    ensures |padded| % BlockSize != 0 ==> r.Failure?
    ensures |padded| > 0 && (padded[|padded| - 1] == 0 || padded[|padded| - 1] as int > BlockSize) ==> r.Failure?
    ensures r.Success? ==> |padded| >= BlockSize && |padded| % BlockSize == 0
    ensures r.Success? ==> |padded| - BlockSize <= |r.value| < |padded| && r.value == padded[..|r.value|]
  {
    if |padded| == 0 then Failure(ZeroLengthInput)
    else if |padded| % BlockSize != 0 then Failure(InputNotPadded)
    else
      var n := padded[|padded| - 1] as int;
      if n < 1 || n > BlockSize then Failure(PaddingIncorrect)
      else if padded[|padded| - n..] != seq(n, _ => n as byte) then Failure(Pkcs7PaddingIncorrect)
      else Success(padded[..|padded| - n])
  }

  lemma UnpadPad(data: bytes)
    ensures Unpad(Pad(data)) == Success(data)
  {
    var p := Pad(data);
    var n := |p| - |data|;
    assert p[|p| - 1] as int == n;
    assert p[|p| - n..] == seq(n, _ => n as byte);
  }

  lemma PadUnpad(padded: bytes)
    requires Unpad(padded).Success?
    ensures Pad(Unpad(padded).value) == padded
  {
    var data := Unpad(padded).value;
    var n := padded[|padded| - 1] as int;
    assert |data| == |padded| - n;
    assert |data| % BlockSize == (BlockSize - n) % BlockSize;
    assert BlockSize - |data| % BlockSize == n;
    assert padded == data + padded[|padded| - n..];
  }

  /** Unpadding succeeds with `data` exactly when `padded` is the padding of `data`:
      the two functions are mutually inverse on well-padded input. */
  lemma UnpadIsInverse(padded: bytes, data: bytes)
    ensures Unpad(padded) == Success(data) <==> Pad(data) == padded
  {
    if Unpad(padded) == Success(data) {
      PadUnpad(padded);
    }
    if Pad(data) == padded {
      UnpadPad(data);
    }
  }

  // ----- AES-CBC with the IV framing -----

  /** encrypt_with_aes: draw a 16-byte IV, pad, encrypt in CBC mode and return iv || ciphertext. */
  function EncryptWithAes(c: Primitives, data: bytes, key: bytes, ivSource: Entropy): (r: Result<bytes, CipherError>)
    requires AesSound(c)
    ensures r.Success? <==> IsAesKey(key)
    ensures r.Success? ==> |r.value| == IvLength + |Pad(data)|
    ensures r.Success? ==> r.value[..IvLength] == GetRandomBytes(IvLength, ivSource)
  {
    var iv := GetRandomBytes(IvLength, ivSource);
    if !IsAesKey(key) then Failure(IncorrectKeyLength)
    else
      var padded := Pad(data);
      var ciphertext := c.aesEncrypt(key, iv, padded);
      assert |ciphertext| == |padded|;
      assert (iv + ciphertext)[..IvLength] == iv;
      Success(iv + ciphertext)
  }

  /** decrypt_with_aes: bytes [0, 16) are the IV, the rest is the CBC ciphertext, and the
      decrypted text is unpadded. Python's slicing gives a short IV for a blob under 16
      bytes, which AES.new then rejects. */
  function DecryptWithAes(c: Primitives, blob: bytes, key: bytes): (r: Result<bytes, CipherError>)
    requires AesSound(c)
    ensures r.Success? ==> IsAesKey(key)
    ensures r.Success? ==> |blob| >= IvLength + BlockSize && (|blob| - IvLength) % BlockSize == 0
    ensures r.Success? ==> |blob| - IvLength - BlockSize <= |r.value| < |blob| - IvLength
  {
    var iv := if |blob| < IvLength then blob else blob[..IvLength];
    var body := if |blob| < IvLength then [] else blob[IvLength..];
    if !IsAesKey(key) then Failure(IncorrectKeyLength)
    else if |iv| != IvLength then Failure(IncorrectIvLength)
    else if |body| % BlockSize != 0 then Failure(NotBlockAligned)
    else
      var plain := c.aesDecrypt(key, iv, body);
      assert |plain| == |body| == |blob| - IvLength;
      Unpad(plain)
  }

  /** decrypt_with_aes(encrypt_with_aes(d, k), k) == d: the split at byte 16 undoes the
      concatenation, CBC decryption undoes CBC encryption, and unpad undoes pad. */
  lemma AesRoundTrip(c: Primitives, data: bytes, key: bytes, ivSource: Entropy)
    requires AesSound(c) && IsAesKey(key)
    ensures DecryptWithAes(c, EncryptWithAes(c, data, key, ivSource).value, key) == Success(data)
  {
    var iv := GetRandomBytes(IvLength, ivSource);
    var ct := c.aesEncrypt(key, iv, Pad(data));
    var blob := EncryptWithAes(c, data, key, ivSource).value;
    assert blob == iv + ct;
    assert blob[..IvLength] == iv && blob[IvLength..] == ct;
    UnpadPad(data);
  }

  // ----- RSA-OAEP key wrapping -----

  /** generate_rsa_keypair: (public PEM, private PEM). */
  function GenerateRsaKeypair(c: Primitives, source: Entropy): (pair: (string, string))
    ensures pair.0 == c.rsaPublicOf(pair.1) && pair.1 == c.rsaGenerate(source)
  {
    var priv := c.rsaGenerate(source);
    (c.rsaPublicOf(priv), priv)
  }

  function EncryptWithRsa(c: Primitives, publicKey: string, data: bytes): Option<bytes> {
    c.rsaEncrypt(publicKey, data)
  }

  function DecryptWithRsa(c: Primitives, privateKey: string, data: bytes): Option<bytes> {
    c.rsaDecrypt(privateKey, data)
  }

  /** A generated keypair wraps and unwraps every payload up to the OAEP limit,
      a 32-byte AES key among them. */
  lemma RsaRoundTrip(c: Primitives, source: Entropy, m: bytes)
    requires RsaSound(c) && |m| <= OaepMaxPayload
    ensures var (pub, priv) := GenerateRsaKeypair(c, source);
      EncryptWithRsa(c, pub, m).Some? && DecryptWithRsa(c, priv, EncryptWithRsa(c, pub, m).value) == Some(m)
  {
  }

  // ----- SHA-256 hex digests -----

  predicate IsLowerHex(s: string) {
    forall i :: 0 <= i < |s| ==> '0' <= s[i] <= '9' || 'a' <= s[i] <= 'f'
  }

  function HexChar(v: int): char
    requires 0 <= v < 16
  {
    if v < 10 then ('0' as int + v) as char else ('a' as int + v - 10) as char
  }

  /** hexdigest(): two lower-case hex digits per byte, high nibble first. */
  function HexDigest(d: bytes): (s: string)
    ensures |s| == 2 * |d|
    ensures IsLowerHex(s)
  {
    if d == [] then ""
    else [HexChar(d[0] as int / 16), HexChar(d[0] as int % 16)] + HexDigest(d[1..])
  }

  /** Two digests have the same hex text exactly when they are the same bytes. */
  lemma {:induction false} HexDigestInjective(a: bytes, b: bytes)
    ensures HexDigest(a) == HexDigest(b) <==> a == b
  {
    if a != [] && b != [] && HexDigest(a) == HexDigest(b) {
      var ha, hb := HexDigest(a), HexDigest(b);
      assert ha[0] == hb[0] && ha[1] == hb[1];
      assert a[0] as int / 16 == b[0] as int / 16 && a[0] as int % 16 == b[0] as int % 16;
      assert ha[2..] == HexDigest(a[1..]) && hb[2..] == HexDigest(b[1..]);
      HexDigestInjective(a[1..], b[1..]);
      assert a == [a[0]] + a[1..] && b == [b[0]] + b[1..];
    }
  }

  /** calculate_data_hash: the hex SHA-256 digest, always 64 lower-case hex characters. */
  function CalculateDataHash(c: Primitives, data: bytes): (h: string)
    requires HashSound(c)
    ensures |h| == 2 * DigestLength && IsLowerHex(h)
  {
    HexDigest(c.sha256(data))
  }

  const ChunkSize: nat := 4096

  /** calculate_file_hash: read the file in 4096-byte chunks and feed each to the running
      hash. hashlib's update appends to the message, so the state is the bytes fed so far;
      the result is the digest of the whole file, or None when it cannot be opened. */
  method CalculateFileHash(c: Primitives, files: map<string, bytes>, filePath: string) returns (h: Option<string>)
    requires HashSound(c)
    ensures filePath !in files <==> h.None?
    ensures filePath in files ==> h == Some(CalculateDataHash(c, files[filePath]))
  {
    if filePath !in files {
      return None;
    }
    var content := files[filePath];
    var fed: bytes := [];
    var offset := 0;
    while offset < |content|
      invariant 0 <= offset <= |content|
      invariant fed == content[..offset]
      decreases |content| - offset
    {
      var end := if offset + ChunkSize <= |content| then offset + ChunkSize else |content|;
      var block := content[offset..end];
      fed := fed + block;
      offset := end;
    }
    assert content[..offset] == content;
    h := Some(HexDigest(c.sha256(fed)));
  }

  /** Comparing hex digests, as the integrity check does, is comparing SHA-256 digests. */
  lemma DataHashesEqual(c: Primitives, a: bytes, b: bytes)
    requires HashSound(c)
    ensures CalculateDataHash(c, a) == CalculateDataHash(c, b) <==> c.sha256(a) == c.sha256(b)
  {
    HexDigestInjective(c.sha256(a), c.sha256(b));
  }
}

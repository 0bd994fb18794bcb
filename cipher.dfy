/**
 * The vault's cipher: `deriveKey`, `encryptData` and `decryptData`.
 *
 * PBKDF2-HMAC-SHA-256 (section 5.2 of RFC 8018), AES-256-GCM (NIST SP
 * 800-38D) and the UTF-8 text codec are foreign calls into the browser.
 * They are the fields of `Primitives`, which the model never looks inside;
 * what the vault relies on them for is stated as the predicates
 * `AeadCorrect` and `TextRoundTrip`. A `string` holds Unicode scalar
 * values only, so UTF-8 encoding loses nothing.
 */
module Cipher {
  import opened Wrappers
  import opened Exceptions
  import opened Base64Url

  /** An AES-GCM `CryptoKey`, held only in memory. */
  datatype Key = Key(material: seq<byte>)

  datatype Primitives = Primitives(
    /** PBKDF2 with HMAC-SHA-256: password, salt, iteration count, key length in bits. */
    pbkdf2: (seq<byte>, seq<byte>, nat, nat) -> Key,
    /** AES-GCM encryption: key, IV, plaintext; yields the ciphertext followed by the tag. */
    gcmEncrypt: (Key, seq<byte>, seq<byte>) -> seq<byte>,
    /** AES-GCM decryption: key, IV, ciphertext and tag; throws when the tag does not verify. */
    gcmDecrypt: (Key, seq<byte>, seq<byte>) -> Result<seq<byte>, Thrown>,
    /** `TextEncoder.encode` (UTF-8). */
    textEncode: string -> seq<byte>,
    /** `TextDecoder.decode` (UTF-8, `ignoreBOM` false). */
    textDecode: seq<byte> -> string)

  /** The abstract AEAD contract: decryption under the same key and IV inverts encryption. */
  ghost predicate AeadCorrect(p: Primitives) {
    forall k, iv, m :: p.gcmDecrypt(k, iv, p.gcmEncrypt(k, iv, m)) == Ok(m)
  }

  /** U+FEFF, which a leading UTF-8 byte-order mark decodes to. */
  const ByteOrderMark: char := '\U{FEFF}'

  /** The text does not start with a byte-order mark. */
  predicate NoLeadingBom(s: string) {
    s == [] || s[0] != ByteOrderMark
  }

  /** The text with one leading byte-order mark, if any, removed. */
  function DropBom(s: string): string {
    if NoLeadingBom(s) then s else s[1..]
  }

  /**
   * A default `TextDecoder` inverts `TextEncoder`, except that it skips
   * one leading byte-order mark, as the WHATWG Encoding standard's UTF-8
   * decode does unless `ignoreBOM` is set.
   */
  ghost predicate TextRoundTrip(p: Primitives) {
    forall s :: p.textDecode(p.textEncode(s)) == DropBom(s)
  }

  const IvLength: nat := 12
  const KdfSalt: string := "passkey-demo-salt"
  const KdfIterations: nat := 100000
  const KeyBits: nat := 256

  /** `deriveKey`: a fixed salt and iteration count, no randomness. */
  function DeriveKey(p: Primitives, input: seq<byte>): Key {
    p.pbkdf2(input, p.textEncode(KdfSalt), KdfIterations, KeyBits)
  }

  /** `ArrayBuffer.prototype.slice(begin, end)`: both ends are clamped to the length. */
  function Slice(s: seq<byte>, begin: nat, end: nat): (r: seq<byte>)
    ensures begin <= end <= |s| ==> r == s[begin..end]
    ensures begin <= |s| <= end ==> r == s[begin..]
    ensures end <= begin || |s| <= begin ==> r == []
  {
    var b := if begin < |s| then begin else |s|;
    var e := if end < |s| then end else |s|;
    if b <= e then s[b..e] else []
  }

  /** Decrypt's `slice(0, 12)` and `slice(12)`: the IV and the AEAD output. */
  function SplitFrame(data: seq<byte>): (seq<byte>, seq<byte>) {
    (Slice(data, 0, IvLength), Slice(data, IvLength, |data|))
  }

  /** The blob `encryptData` produces for a given IV. */
  function SealedBlob(p: Primitives, key: Key, data: string, iv: seq<byte>): string {
    Encode(iv + p.gcmEncrypt(key, iv, p.textEncode(data)))
  }

  /**
   * `decryptData`: text that does not decode throws what `atob` threw; a
   * plaintext comes back only when AES-GCM accepts the first 12 bytes as
   * IV and the rest as its input, and is then their UTF-8 decoding.
   */
  function DecryptData(p: Primitives, key: Key, encryptedData: string): (r: Result<string, Thrown>)
    ensures Decode(encryptedData).Err? ==> r == Err(Decode(encryptedData).error)
    ensures r.Ok? ==>
              Decode(encryptedData).Ok? &&
              var frame := SplitFrame(Decode(encryptedData).value);
              p.gcmDecrypt(key, frame.0, frame.1).Ok? &&
              r.value == p.textDecode(p.gcmDecrypt(key, frame.0, frame.1).value)
  {
    match Decode(encryptedData)
    case Err(e) => Err(e)
    case Ok(data) =>
      var (iv, ciphertext) := SplitFrame(data);
      match p.gcmDecrypt(key, iv, ciphertext)
      case Err(e) => Err(e)
      case Ok(plain) => Ok(p.textDecode(plain))
  }

  /**
   * `encryptData` with the 12 bytes `crypto.getRandomValues` drew: the IV
   * and the AEAD output are copied into one buffer, which is encoded.
   */
  method EncryptData(p: Primitives, key: Key, data: string, iv: seq<byte>) returns (blob: string)
    requires |iv| == IvLength
    ensures Decode(blob) == Ok(iv + p.gcmEncrypt(key, iv, p.textEncode(data)))
    ensures blob == SealedBlob(p, key, data, iv)
    ensures AeadCorrect(p) && TextRoundTrip(p) ==> DecryptData(p, key, blob) == Ok(DropBom(data))
    ensures AeadCorrect(p) && TextRoundTrip(p) && NoLeadingBom(data) ==> DecryptData(p, key, blob) == Ok(data)
  {
    var encodedData := p.textEncode(data);
    var encrypted := p.gcmEncrypt(key, iv, encodedData);
    var combined := new byte[|iv| + |encrypted|];
    forall i | 0 <= i < |iv| {
      combined[i] := iv[i];
    }
    forall i | 0 <= i < |encrypted| {
      combined[|iv| + i] := encrypted[i];
    }
    assert combined[..] == iv + encrypted;
    blob := BufferToBase64UrlString(combined[..]);
    DecodeEncode(combined[..]);
    if AeadCorrect(p) && TextRoundTrip(p) {
      DecryptSealedBlob(p, key, data, iv);
    }
  }

  // ---------------------------------------------------------------------
  // Properties
  // ---------------------------------------------------------------------

  /** Splitting a framed blob recovers exactly the IV and the AEAD output. */
  lemma SplitFrameOfFrame(iv: seq<byte>, ciphertext: seq<byte>)
    requires |iv| == IvLength
    ensures SplitFrame(iv + ciphertext) == (iv, ciphertext)
  {
    var d := iv + ciphertext;
    assert d[0..IvLength] == iv;
    assert d[IvLength..|d|] == ciphertext;
  }

  /**
   * Every byte string is the concatenation of its two parts, and the first
   * is the IV exactly when the data is at least 12 bytes long.
   */
  lemma FrameOfSplitFrame(data: seq<byte>)
    ensures SplitFrame(data).0 + SplitFrame(data).1 == data
    ensures |SplitFrame(data).0| == IvLength <==> |data| >= IvLength
  {
    if |data| >= IvLength {
      assert data == data[0..IvLength] + data[IvLength..|data|];
    } else {
      assert data[0..|data|] == data;
    }
  }

  /**
   * Decrypting a blob hands the AEAD exactly the IV and the output it was
   * framed from: it succeeds, with the decoded text, exactly when the AEAD
   * accepts them, and otherwise throws what the AEAD threw.
   */
  lemma DecryptFramed(p: Primitives, key: Key, iv: seq<byte>, ciphertext: seq<byte>)
    requires |iv| == IvLength
    ensures DecryptData(p, key, Encode(iv + ciphertext)) ==
            match p.gcmDecrypt(key, iv, ciphertext)
            case Err(e) => Err(e)
            case Ok(plain) => Ok(p.textDecode(plain))
  {
    DecodeEncode(iv + ciphertext);
    SplitFrameOfFrame(iv, ciphertext);
  }

  /**
   * Cipher round trip: under the AEAD and text contracts, decrypt inverts
   * encrypt, but for a leading byte-order mark, which the decoder drops.
   */
  lemma DecryptSealedBlob(p: Primitives, key: Key, data: string, iv: seq<byte>)
    requires |iv| == IvLength && AeadCorrect(p) && TextRoundTrip(p)
    ensures DecryptData(p, key, SealedBlob(p, key, data, iv)) == Ok(DropBom(data))
    ensures NoLeadingBom(data) ==> DecryptData(p, key, SealedBlob(p, key, data, iv)) == Ok(data)
  {
    DecryptFramed(p, key, iv, p.gcmEncrypt(key, iv, p.textEncode(data)));
  }

  /**
   * Text that starts with U+FEFF does not survive: decrypting its blob
   * gives the text without that first character.
   */
  lemma DecryptDropsBom(p: Primitives, key: Key, rest: string, iv: seq<byte>)
    requires |iv| == IvLength && AeadCorrect(p) && TextRoundTrip(p)
    ensures DecryptData(p, key, SealedBlob(p, key, [ByteOrderMark] + rest, iv)) == Ok(rest)
    ensures DecryptData(p, key, SealedBlob(p, key, [ByteOrderMark] + rest, iv)) != Ok([ByteOrderMark] + rest)
  {
    DecryptSealedBlob(p, key, [ByteOrderMark] + rest, iv);
    assert ([ByteOrderMark] + rest)[1..] == rest;
  }

  /**
   * Wrong-key rejection: when AES-GCM rejects the output sealed under one
   * key, decrypting the blob under another key throws that same error.
   */
  lemma DecryptWrongKey(p: Primitives, k1: Key, k2: Key, data: string, iv: seq<byte>)
    requires |iv| == IvLength
    requires p.gcmDecrypt(k2, iv, p.gcmEncrypt(k1, iv, p.textEncode(data))).Err?
    ensures DecryptData(p, k2, SealedBlob(p, k1, data, iv)) ==
            Err(p.gcmDecrypt(k2, iv, p.gcmEncrypt(k1, iv, p.textEncode(data))).error)
  {
    DecryptFramed(p, k2, iv, p.gcmEncrypt(k1, iv, p.textEncode(data)));
  }

  /**
   * A blob that decodes to 12 bytes or fewer is all IV: `slice(0, 12)`
   * clamps to the whole buffer and AES-GCM gets an empty input.
   */
  lemma DecryptShortData(p: Primitives, key: Key, encryptedData: string, data: seq<byte>)
    requires Decode(encryptedData) == Ok(data) && |data| <= IvLength
    ensures DecryptData(p, key, encryptedData) ==
            match p.gcmDecrypt(key, data, [])
            case Err(e) => Err(e)
            case Ok(plain) => Ok(p.textDecode(plain))
  {
    assert SplitFrame(data) == (data, []);
  }

  /**
   * `deriveKey` of the id decoded from its base64url text is the key of the
   * raw id itself: the key derived at login from the stored or asserted id
   * is the one derived at registration.
   */
  lemma DeriveKeyOfEncodedId(p: Primitives, rawId: seq<byte>)
    ensures Decode(Encode(rawId)).Ok?
    ensures DeriveKey(p, Decode(Encode(rawId)).value) == DeriveKey(p, rawId)
  {
    DecodeEncode(rawId);
  }

  /** Every blob is non-empty text: at least the 16 characters that encode the IV. */
  lemma SealedBlobLength(p: Primitives, key: Key, data: string, iv: seq<byte>)
    requires |iv| == IvLength
    ensures |SealedBlob(p, key, data, iv)| >= 16
  {
    EncodeAlphabet(iv + p.gcmEncrypt(key, iv, p.textEncode(data)));
  }
}

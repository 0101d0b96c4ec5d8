/** `com.phosa.encryption.AESGCMUtil`: AES in Galois/Counter Mode (NIST
    SP 800-38D) with a random 12-byte nonce and a 128-bit tag. The envelope is
    `nonce(12) || ciphertext || tag(16)` in standard Base64; plaintext and key
    are both taken as UTF-8, and every exception yields `null`. */
module AesGcmUtil {
  import opened JavaLang
  import opened Jce
  import opened JavaString
  import Base64
  import Utf8

  const Algorithm: string := "AES"
  const TransformationName: string := "AES/GCM/NoPadding"
  const GcmIvLength: nat := 12
  const GcmTagLength: nat := 128

  /** What happens inside `encrypt`'s try block with the random nonce `iv`. */
  function EncryptOutcome(p: Provider, iv: seq<byte>, plaintext: Option<string>, key: Option<string>): Result<string> {
    var gcmSpec := GcmParameterSpec(GcmTagLength, iv);
    if key.None? then Err(NullPointer)
    else match NewSecretKey(Utf8.Encode(key.value), Some(Algorithm))
      case Err(e) => Err(e)
      case Ok(keySpec) =>
        match GetInstance(Some(TransformationName))
        case Err(e) => Err(e)
        case Ok(t) =>
          match Init(t, keySpec, gcmSpec)
          case Err(e) => Err(e)
          case Ok(_) =>
            if plaintext.None? then Err(NullPointer)
            else match p.encrypt(t, keySpec.encoded, iv, Utf8.Encode(plaintext.value))
              case Err(e) => Err(e)
              case Ok(encryptedBytes) => Ok(Base64.Encode(iv + encryptedBytes))
  }

  /** `AESGCMUtil.encrypt`: draws the nonce from `entropy` and assembles the
      envelope in a fresh array. */
  method Encrypt(p: Provider, entropy: nat -> byte, plaintext: Option<string>, key: Option<string>)
    returns (r: Option<string>)
    ensures r == Nullable(EncryptOutcome(p, Draw(entropy, GcmIvLength), plaintext, key))
  {
    GcmNameLookup();
    var iv := new byte[GcmIvLength];
    NextBytes(iv, entropy);
    var gcmSpec := GcmParameterSpec(GcmTagLength, iv[..]);
    if key.None? {
      return None;
    }
    var keySpec := NewSecretKey(Utf8.Encode(key.value), Some(Algorithm));
    if keySpec.Err? {
      return None;
    }
    var cipher := GetInstance(Some(TransformationName));
    if cipher.Err? {
      return None;
    }
    var init := Init(cipher.value, keySpec.value, gcmSpec);
    if init.Err? {
      return None;
    }
    if plaintext.None? {
      return None;
    }
    var encryptedBytes := p.encrypt(cipher.value, keySpec.value.encoded, iv[..], Utf8.Encode(plaintext.value));
    if encryptedBytes.Err? {
      return None;
    }
    var encryptedMessage := Concatenate(iv[..], encryptedBytes.value);
    return Some(Base64.Encode(encryptedMessage[..]));
  }

  /** What happens inside `decrypt`'s try block: strict Base64 decoding, a
      negative array size when fewer than 12 bytes remain, the split at byte
      12, and tag verification by the cipher. */
  function DecryptOutcome(p: Provider, ciphertext: Option<string>, key: Option<string>): Result<string> {
    if ciphertext.None? then Err(NullPointer)
    else match Base64.DecodeStrict(ciphertext.value)
      case Err(e) => Err(e)
      case Ok(encryptedMessage) =>
        if |encryptedMessage| - GcmIvLength < 0 then Err(NegativeArraySize)
        else
          var iv := encryptedMessage[..GcmIvLength];
          var encryptedBytes := encryptedMessage[GcmIvLength..];
          if key.None? then Err(NullPointer)
          else match NewSecretKey(Utf8.Encode(key.value), Some(Algorithm))
            case Err(e) => Err(e)
            case Ok(keySpec) =>
              match GetInstance(Some(TransformationName))
              case Err(e) => Err(e)
              case Ok(t) =>
                match Init(t, keySpec, GcmParameterSpec(GcmTagLength, iv))
                case Err(e) => Err(e)
                case Ok(_) =>
                  match p.decrypt(t, keySpec.encoded, iv, encryptedBytes)
                  case Err(e) => Err(e)
                  case Ok(decryptedBytes) => Ok(Utf8.Decode(decryptedBytes))
  }

  /** `AESGCMUtil.decrypt`: copies the nonce and the rest of the envelope into
      fresh arrays before decrypting. */
  method Decrypt(p: Provider, ciphertext: Option<string>, key: Option<string>) returns (r: Option<string>)
    ensures r == Nullable(DecryptOutcome(p, ciphertext, key))
  {
    GcmNameLookup();
    if ciphertext.None? {
      return None;
    }
    var decoded := Base64.DecodeStrict(ciphertext.value);
    if decoded.Err? {
      return None;
    }
    var encryptedMessage := decoded.value;
    if |encryptedMessage| - GcmIvLength < 0 {
      return None;  // NegativeArraySizeException
    }
    var iv, encryptedBytes := SplitEnvelope(encryptedMessage);
    var gcmSpec := GcmParameterSpec(GcmTagLength, iv[..]);
    if key.None? {
      return None;
    }
    var keySpec := NewSecretKey(Utf8.Encode(key.value), Some(Algorithm));
    if keySpec.Err? {
      return None;
    }
    var cipher := GetInstance(Some(TransformationName));
    if cipher.Err? {
      return None;
    }
    var init := Init(cipher.value, keySpec.value, gcmSpec);
    if init.Err? {
      return None;
    }
    var decryptedBytes := p.decrypt(cipher.value, keySpec.value.encoded, iv[..], encryptedBytes[..]);
    if decryptedBytes.Err? {
      return None;
    }
    return Some(Utf8.Decode(decryptedBytes.value));
  }

  /** The nonce and the rest of an envelope of at least 12 bytes, copied
      into two fresh arrays by `System.arraycopy`. */
  method SplitEnvelope(m: seq<byte>) returns (iv: array<byte>, body: array<byte>)
    requires |m| >= GcmIvLength
    ensures fresh(iv) && fresh(body)
    ensures iv[..] == m[..GcmIvLength] && body[..] == m[GcmIvLength..]
  {
    iv := new byte[GcmIvLength];
    body := new byte[|m| - GcmIvLength];
    ArrayCopy(m, 0, iv, 0, GcmIvLength);
    ArrayCopy(m, GcmIvLength, body, 0, body.Length);
  }

  /** What happens inside `generateKey`'s try block: `KeyGenerator.init`
      accepts a key size that is a multiple of 8 giving 16, 24 or 32 bytes
      (InvalidParameterException otherwise); the key is that many random
      bytes, returned in Base64. */
  function GenerateKeyOutcome(keySize: int32, entropy: nat -> byte): Result<string> {
    if keySize % 8 != 0 || keySize / 8 !in {16, 24, 32} then Err(InvalidParameter)
    else Ok(Base64.Encode(Draw(entropy, keySize / 8)))
  }

  /** `AESGCMUtil.generateKey`. */
  function GenerateKey(keySize: int32, entropy: nat -> byte): (r: Option<string>)
    ensures r.Some? <==> GenerateKeyOutcome(keySize, entropy).Ok?
  {
    Nullable(GenerateKeyOutcome(keySize, entropy))
  }

  lemma GcmNameLookup()
    ensures GetInstance(Some(TransformationName)) == Ok(Transformation(AES, GCM, NoPadding))
    ensures EqualsIgnoreCase(Algorithm, "AES")
  {
    assert Lower(TransformationName) == "aes/gcm/nopadding";
  }

  /** The envelope is the nonce followed by the cipher output, which is the
      UTF-8 plaintext plus a 16-byte tag; it decodes back strictly. */
  lemma EnvelopeLayout(p: Provider, iv: seq<byte>, plaintext: string, key: string)
    requires Sound(p) && |iv| == GcmIvLength
    requires EncryptOutcome(p, iv, Some(plaintext), Some(key)).Ok?
    ensures var c := p.encrypt(Transformation(AES, GCM, NoPadding), Utf8.Encode(key), iv, Utf8.Encode(plaintext));
      var s := EncryptOutcome(p, iv, Some(plaintext), Some(key)).value;
      c.Ok? && Base64.DecodeStrict(s) == Ok(iv + c.value) &&
      |iv + c.value| == GcmIvLength + |Utf8.Encode(plaintext)| + 16
  {
    GcmNameLookup();
    var c := p.encrypt(Transformation(AES, GCM, NoPadding), Utf8.Encode(key), iv, Utf8.Encode(plaintext));
    assert GcmSound(p) && IsAesKey(Utf8.Encode(key));
    Base64.DecodeStrictEncode(iv + c.value);
  }

  /** Encryption succeeds exactly for keys of 16, 24 or 32 UTF-8 bytes. */
  lemma EncryptKeyLength(p: Provider, iv: seq<byte>, plaintext: string, key: string)
    requires Sound(p) && |iv| == GcmIvLength
    ensures EncryptOutcome(p, iv, Some(plaintext), Some(key)).Ok? <==> IsAesKey(Utf8.Encode(key))
  {
    if IsAesKey(Utf8.Encode(key)) {
      EncryptAccepts(p, iv, plaintext, key);
    } else {
      EncryptRejects(p, iv, plaintext, key);
    }
  }

  lemma EncryptAccepts(p: Provider, iv: seq<byte>, plaintext: string, key: string)
    requires Sound(p) && |iv| == GcmIvLength && IsAesKey(Utf8.Encode(key))
    ensures EncryptOutcome(p, iv, Some(plaintext), Some(key)).Ok?
  {
    GcmNameLookup();
    var k := Utf8.Encode(key);
    var keySpec := SecretKey(k, Algorithm);
    assert NewSecretKey(k, Some(Algorithm)) == Ok(keySpec);
    InitAesGcm(keySpec, iv);
    assert GcmSound(p);
    assert p.encrypt(Transformation(AES, GCM, NoPadding), k, iv, Utf8.Encode(plaintext)).Ok?;
  }

  lemma EncryptRejects(p: Provider, iv: seq<byte>, plaintext: string, key: string)
    requires !IsAesKey(Utf8.Encode(key))
    ensures EncryptOutcome(p, iv, Some(plaintext), Some(key)).Err?
  {
    GcmNameLookup();
    var k := Utf8.Encode(key);
    if |k| > 0 {
      var keySpec := SecretKey(k, Algorithm);
      assert NewSecretKey(k, Some(Algorithm)) == Ok(keySpec);
      assert !KeyFits(AES, keySpec);
    }
  }

  /** `decrypt(encrypt(p, k), k) == p` for every plaintext and every key of
      16, 24 or 32 UTF-8 bytes: both directions use UTF-8. */
  lemma RoundTrip(p: Provider, iv: seq<byte>, plaintext: string, key: string)
    requires Sound(p) && |iv| == GcmIvLength
    requires IsAesKey(Utf8.Encode(key))
    ensures var r := EncryptOutcome(p, iv, Some(plaintext), Some(key));
      r.Ok? && DecryptOutcome(p, Some(r.value), Some(key)) == Ok(plaintext)
  {
    EncryptKeyLength(p, iv, plaintext, key);
    EnvelopeLayout(p, iv, plaintext, key);
    var c := p.encrypt(Transformation(AES, GCM, NoPadding), Utf8.Encode(key), iv, Utf8.Encode(plaintext)).value;
    assert (iv + c)[..GcmIvLength] == iv && (iv + c)[GcmIvLength..] == c;
    Utf8.DecodeEncode(plaintext);
  }

  /** Text that is not strict Base64, a decoded envelope shorter than the
      nonce, and one too short to hold the tag all give `null`. */
  lemma MalformedEnvelopeIsNull(p: Provider, ciphertext: string, key: Option<string>)
    requires Sound(p)
    requires var d := Base64.DecodeStrict(ciphertext); d.Err? || |d.value| < GcmIvLength + 16
    ensures DecryptOutcome(p, Some(ciphertext), key).Err?
  {
    GcmNameLookup();
    var d := Base64.DecodeStrict(ciphertext);
    if d.Ok? && |d.value| >= GcmIvLength {
      assert GcmSound(p);
      assert |d.value[GcmIvLength..]| < 16;
    }
  }

  /** `generateKey(n)` answers for n = 128, 192 and 256 only, with the Base64
      text of n/8 random bytes: 24, 32 or 44 ASCII characters. */
  lemma GenerateKeySizes(keySize: int32, entropy: nat -> byte)
    ensures GenerateKey(keySize, entropy).Some? <==> keySize in {128, 192, 256}
    ensures GenerateKey(keySize, entropy).Some? ==>
      var s := GenerateKey(keySize, entropy).value;
      s == Base64.Encode(Draw(entropy, keySize / 8)) &&
      |s| == (if keySize == 128 then 24 else if keySize == 192 then 32 else 44) &&
      |Utf8.Encode(s)| == |s|
  {
    if keySize in {128, 192, 256} {
      KeyTextLength(Draw(entropy, keySize / 8));
    }
  }

  /** The Base64 text of 16, 24 or 32 random bytes: 24, 32 or 44 ASCII
      characters. */
  lemma KeyTextLength(b: seq<byte>)
    requires |b| == 16 || |b| == 24 || |b| == 32
    ensures var s := Base64.Encode(b);
      |s| == (if |b| == 16 then 24 else if |b| == 24 then 32 else 44) &&
      |Utf8.Encode(s)| == |s|
  {
    Base64.EncodeLength(b);
    Utf8.EncodeAscii(Base64.Encode(b));
  }

  /** A generated key is used as its Base64 text, not decoded: a 256-bit key
      is 44 characters, not an AES key length, so encryption with it returns
      `null`; 128- and 192-bit keys are 24 and 32 characters and work, as
      192- and 256-bit AES keys. */
  lemma GeneratedKeyAsKey(p: Provider, iv: seq<byte>, keySize: int32, entropy: nat -> byte, plaintext: string)
    requires Sound(p) && |iv| == GcmIvLength
    requires GenerateKey(keySize, entropy).Some?
    ensures var k := GenerateKey(keySize, entropy).value;
      EncryptOutcome(p, iv, Some(plaintext), Some(k)).Ok? <==> keySize != 256
  {
    GenerateKeySizes(keySize, entropy);
    EncryptKeyLength(p, iv, plaintext, GenerateKey(keySize, entropy).value);
  }
}

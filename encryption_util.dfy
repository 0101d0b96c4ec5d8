/** `com.phosa.encryption.EncryptionUtil`: encryption to a Base64 envelope
    `IV(16) || cipher output` under a caller-chosen key algorithm and cipher
    transformation, decryption of such an envelope, and the fixed AES/CBC
    shortcuts. Every exception is caught and turned into `null`. */
module EncryptionUtil {
  import opened JavaLang
  import opened Jce
  import opened JavaString
  import Base64
  import Utf8

  /** The IV length `baseEncrypt` and `baseDecrypt` hard-code, whatever the
      algorithm. */
  const IvLength: nat := 16

  /** The public, non-final static fields of `EncryptionUtil` that other
      classes read at call time: the key algorithm name and the default
      transformation. Any code may reassign them. */
  class Constants {
    var Aes: Option<string>
    var AesCbcPkcs5Padding: Option<string>

    /** The fields' initial values. */
    constructor ()
      ensures Aes == Some("AES") && AesCbcPkcs5Padding == Some("AES/CBC/PKCS5Padding")
    {
      Aes := Some("AES");
      AesCbcPkcs5Padding := Some("AES/CBC/PKCS5Padding");
    }
  }

  /** What happens inside `baseEncrypt`'s try block with the random IV `iv`:
      the Base64 text of the envelope, or the exception raised. The plaintext
      is encoded with the platform default charset `defaultCharset`, the key
      with UTF-8. */
  function BaseEncryptOutcome(p: Provider, defaultCharset: string -> seq<byte>, iv: seq<byte>,
                              algorithm: Option<string>, transformation: Option<string>,
                              plaintext: Option<string>, key: Option<string>): Result<string>
  {
    if key.None? then Err(NullPointer)
    else match NewSecretKey(Utf8.Encode(key.value), algorithm)
      case Err(e) => Err(e)
      case Ok(secret) =>
        match GetInstance(transformation)
        case Err(e) => Err(e)
        case Ok(t) =>
          match Init(t, secret, IvParameterSpec(iv))
          case Err(e) => Err(e)
          case Ok(_) =>
            if plaintext.None? then Err(NullPointer)
            else match p.encrypt(t, secret.encoded, iv, defaultCharset(plaintext.value))
              case Err(e) => Err(e)
              case Ok(cipherBytes) => Ok(Base64.Encode(iv + cipherBytes))
  }

  /** `EncryptionUtil.baseEncrypt`: draws a 16-byte IV from `entropy`, builds
      the envelope in a fresh array and returns its Base64 text, or `null` on
      any exception. */
  method BaseEncrypt(p: Provider, defaultCharset: string -> seq<byte>, entropy: nat -> byte,
                     algorithm: Option<string>, transformation: Option<string>,
                     plaintext: Option<string>, key: Option<string>) returns (r: Option<string>)
    ensures r == Nullable(BaseEncryptOutcome(p, defaultCharset, Draw(entropy, IvLength), algorithm,
                                             transformation, plaintext, key))
  {
    var initVector := new byte[IvLength];
    NextBytes(initVector, entropy);
    var iv := IvParameterSpec(initVector[..]);
    if key.None? {
      return None;
    }
    var secret := NewSecretKey(Utf8.Encode(key.value), algorithm);
    if secret.Err? {
      return None;
    }
    var cipher := GetInstance(transformation);
    if cipher.Err? {
      return None;
    }
    var init := Init(cipher.value, secret.value, iv);
    if init.Err? {
      return None;
    }
    if plaintext.None? {
      return None;
    }
    var cipherBytes := p.encrypt(cipher.value, secret.value.encoded, iv.iv, defaultCharset(plaintext.value));
    if cipherBytes.Err? {
      return None;
    }
    var messageBytes := Concatenate(initVector[..], cipherBytes.value);
    return Some(Base64.Encode(messageBytes[..]));
  }

  /** What happens inside `baseDecrypt`'s try block: the ciphertext is decoded
      leniently, bytes [0,16) become the IV and [16,len) the cipher input, and
      the output is read as UTF-8. A null ciphertext decodes to null, which
      `copyOfRange` dereferences. */
  function BaseDecryptOutcome(p: Provider, algorithm: Option<string>, transformation: Option<string>,
                              ciphertext: Option<string>, key: Option<string>): Result<string>
  {
    if ciphertext.None? then Err(NullPointer)
    else
      var cipherBytes := Base64.DecodeLenient(ciphertext.value);
      match CopyOfRange(cipherBytes, 0, IvLength)
      case Err(e) => Err(e)
      case Ok(initVector) =>
        match CopyOfRange(cipherBytes, IvLength, |cipherBytes|)
        case Err(e) => Err(e)
        case Ok(messageBytes) =>
          if key.None? then Err(NullPointer)
          else match NewSecretKey(Utf8.Encode(key.value), algorithm)
            case Err(e) => Err(e)
            case Ok(secret) =>
              match GetInstance(transformation)
              case Err(e) => Err(e)
              case Ok(t) =>
                match Init(t, secret, IvParameterSpec(initVector))
                case Err(e) => Err(e)
                case Ok(_) =>
                  match p.decrypt(t, secret.encoded, initVector, messageBytes)
                  case Err(e) => Err(e)
                  case Ok(plainBytes) => Ok(Utf8.Decode(plainBytes))
  }

  /** `EncryptionUtil.baseDecrypt`: the plaintext, or `null` on any exception. */
  function BaseDecrypt(p: Provider, algorithm: Option<string>, transformation: Option<string>,
                       ciphertext: Option<string>, key: Option<string>): (r: Option<string>)
    ensures r.Some? <==> BaseDecryptOutcome(p, algorithm, transformation, ciphertext, key).Ok?
  {
    Nullable(BaseDecryptOutcome(p, algorithm, transformation, ciphertext, key))
  }

  /** `EncryptionUtil.encrypt`: `baseEncrypt` with the literals "AES" and
      "AES/CBC/PKCS5Padding". */
  method Encrypt(p: Provider, defaultCharset: string -> seq<byte>, entropy: nat -> byte,
                 plaintext: Option<string>, key: Option<string>) returns (r: Option<string>)
    ensures r == Nullable(BaseEncryptOutcome(p, defaultCharset, Draw(entropy, IvLength), Some("AES"),
                                             Some("AES/CBC/PKCS5Padding"), plaintext, key))
  {
    r := BaseEncrypt(p, defaultCharset, entropy, Some("AES"), Some("AES/CBC/PKCS5Padding"), plaintext, key);
  }

  /** `EncryptionUtil.decrypt`: `baseDecrypt` with the same literals. */
  function Decrypt(p: Provider, ciphertext: Option<string>, key: Option<string>): (r: Option<string>)
    ensures r == BaseDecrypt(p, Some("AES"), Some("AES/CBC/PKCS5Padding"), ciphertext, key)
  {
    BaseDecrypt(p, Some("AES"), Some("AES/CBC/PKCS5Padding"), ciphertext, key)
  }

  /** Both operations see the transformation name only through
      `Cipher.getInstance`. */
  lemma OutcomesFollowLookup(p: Provider, defaultCharset: string -> seq<byte>, iv: seq<byte>,
                             algorithm: Option<string>, t1: Option<string>, t2: Option<string>,
                             text: Option<string>, key: Option<string>)
    requires GetInstance(t1) == GetInstance(t2)
    ensures BaseEncryptOutcome(p, defaultCharset, iv, algorithm, t1, text, key)
         == BaseEncryptOutcome(p, defaultCharset, iv, algorithm, t2, text, key)
    ensures BaseDecryptOutcome(p, algorithm, t1, text, key) == BaseDecryptOutcome(p, algorithm, t2, text, key)
  {
  }

  /** Unframing inverts framing: bytes [0,16) of `IV || body` are the IV and
      the rest is the body. */
  lemma UnframeFrame(iv: seq<byte>, body: seq<byte>)
    requires |iv| == IvLength
    ensures CopyOfRange(iv + body, 0, IvLength) == Ok(iv)
    ensures CopyOfRange(iv + body, IvLength, |iv + body|) == Ok(body)
  {
    assert (iv + body)[0..IvLength] == iv;
    assert (iv + body)[IvLength..|iv + body|] == body;
  }

  /** A successful `baseEncrypt` returns the Base64 text of the IV followed by
      the cipher output for the UTF-8 key bytes and the default-charset
      plaintext bytes; the envelope is 16 bytes longer than that output. */
  lemma EnvelopeLayout(p: Provider, defaultCharset: string -> seq<byte>, iv: seq<byte>,
                       algorithm: Option<string>, transformation: Option<string>,
                       plaintext: Option<string>, key: Option<string>)
    requires |iv| == IvLength
    requires BaseEncryptOutcome(p, defaultCharset, iv, algorithm, transformation, plaintext, key).Ok?
    ensures key.Some? && plaintext.Some? && GetInstance(transformation).Ok?
    ensures var t := GetInstance(transformation).value;
      var c := p.encrypt(t, Utf8.Encode(key.value), iv, defaultCharset(plaintext.value));
      var s := BaseEncryptOutcome(p, defaultCharset, iv, algorithm, transformation, plaintext, key).value;
      c.Ok? && Base64.DecodeLenient(s) == iv + c.value && |Base64.DecodeLenient(s)| == IvLength + |c.value|
  {
    var t := GetInstance(transformation).value;
    var c := p.encrypt(t, Utf8.Encode(key.value), iv, defaultCharset(plaintext.value));
    Base64.DecodeLenientEncode(iv + c.value);
  }

  /** A decoded envelope shorter than the IV cannot be split:
      `copyOfRange(bytes, 16, len)` has `from > to`, and the result is `null`. */
  lemma ShortEnvelopeIsNull(p: Provider, algorithm: Option<string>, transformation: Option<string>,
                            ciphertext: string, key: Option<string>)
    requires |Base64.DecodeLenient(ciphertext)| < IvLength
    ensures BaseDecryptOutcome(p, algorithm, transformation, Some(ciphertext), key) == Err(IllegalArgument)
    ensures BaseDecrypt(p, algorithm, transformation, Some(ciphertext), key) == None
  {
  }

  /** Among the transformations in the modelled table, the fixed 16-byte IV
      fits only AES in CBC mode: with a DES or DESede transformation (whose IV
      is 8 bytes), an ECB one (which takes no IV), an RSA one or AES/GCM,
      `init` fails and both directions return `null`. */
  lemma OnlyAesCbcAccepted(p: Provider, defaultCharset: string -> seq<byte>, iv: seq<byte>,
                           algorithm: Option<string>, transformation: Option<string>,
                           text: Option<string>, key: Option<string>)
    requires |iv| == IvLength
    requires GetInstance(transformation).Ok?
    requires var t := GetInstance(transformation).value; t.algorithm != AES || t.mode != CBC
    ensures BaseEncryptOutcome(p, defaultCharset, iv, algorithm, transformation, text, key).Err?
    ensures BaseDecrypt(p, algorithm, transformation, text, key) == None
  {
    var t := GetInstance(transformation).value;
    forall secret: SecretKey, v: seq<byte> | |v| == IvLength
      ensures Init(t, secret, IvParameterSpec(v)).Err?
    {
      InitWithSixteenByteIv(t, secret, v);
    }
    if text.Some? {
      var bytes := Base64.DecodeLenient(text.value);
      var v := CopyOfRange(bytes, 0, IvLength);
      assert v.Ok? ==> |v.value| == IvLength;
    }
  }

  /** Decrypting what `baseEncrypt` produced, with the same key, algorithm and
      transformation, yields the UTF-8 reading of the plaintext's
      default-charset bytes. */
  lemma BaseDecryptEncrypt(p: Provider, defaultCharset: string -> seq<byte>, iv: seq<byte>,
                           algorithm: Option<string>, transformation: Option<string>,
                           plaintext: Option<string>, key: Option<string>)
    requires Sound(p) && |iv| == IvLength
    requires BaseEncryptOutcome(p, defaultCharset, iv, algorithm, transformation, plaintext, key).Ok?
    ensures plaintext.Some?
    ensures var s := BaseEncryptOutcome(p, defaultCharset, iv, algorithm, transformation, plaintext, key).value;
      BaseDecryptOutcome(p, algorithm, transformation, Some(s), key) == Ok(Utf8.Decode(defaultCharset(plaintext.value)))
  {
    var t := GetInstance(transformation).value;
    var secret := NewSecretKey(Utf8.Encode(key.value), algorithm).value;
    var m := defaultCharset(plaintext.value);
    var c := p.encrypt(t, secret.encoded, iv, m).value;
    EnvelopeLayout(p, defaultCharset, iv, algorithm, transformation, plaintext, key);
    UnframeFrame(iv, c);
    InitWithSixteenByteIv(t, secret, iv);
    assert IsAesKey(secret.encoded);
    if t.padding == PKCS5Padding {
      assert CbcPaddedSound(p);
    } else {
      assert CbcUnpaddedSound(p);
    }
  }

  /** The round trip `baseDecrypt(baseEncrypt(p, k), k) == p` holds when
      the default charset encodes `p` as UTF-8 does. */
  lemma BaseRoundTrip(p: Provider, defaultCharset: string -> seq<byte>, iv: seq<byte>,
                      algorithm: Option<string>, transformation: Option<string>,
                      plaintext: string, key: Option<string>)
    requires Sound(p) && |iv| == IvLength
    requires BaseEncryptOutcome(p, defaultCharset, iv, algorithm, transformation, Some(plaintext), key).Ok?
    requires defaultCharset(plaintext) == Utf8.Encode(plaintext)
    ensures var s := BaseEncryptOutcome(p, defaultCharset, iv, algorithm, transformation, Some(plaintext), key).value;
      BaseDecrypt(p, algorithm, transformation, Some(s), key) == Some(plaintext)
  {
    BaseDecryptEncrypt(p, defaultCharset, iv, algorithm, transformation, Some(plaintext), key);
    Utf8.DecodeEncode(plaintext);
  }

  /** The key is the raw UTF-8 bytes of the key text: with AES/CBC/PKCS5Padding
      encryption succeeds exactly when those bytes number 16, 24 or 32. */
  lemma EncryptKeyLength(p: Provider, defaultCharset: string -> seq<byte>, iv: seq<byte>,
                         plaintext: string, key: string)
    requires Sound(p) && |iv| == IvLength
    ensures BaseEncryptOutcome(p, defaultCharset, iv, Some("AES"), Some("AES/CBC/PKCS5Padding"), Some(plaintext), Some(key)).Ok?
      <==> IsAesKey(Utf8.Encode(key))
  {
    GetInstanceAesCbcPkcs5("AES/CBC/PKCS5Padding");
    AesCbcKeyLength(p, defaultCharset, iv, "AES", Some("AES/CBC/PKCS5Padding"), plaintext, key);
  }

  /** For an "AES" key and a name that selects AES/CBC/PKCS5Padding, the
      outcome is decided by the key length alone. */
  lemma AesCbcKeyLength(p: Provider, defaultCharset: string -> seq<byte>, iv: seq<byte>,
                        algorithm: string, transformation: Option<string>, plaintext: string, key: string)
    requires Sound(p) && |iv| == IvLength && EqualsIgnoreCase(algorithm, "AES")
    requires GetInstance(transformation) == Ok(Transformation(AES, CBC, PKCS5Padding))
    ensures BaseEncryptOutcome(p, defaultCharset, iv, Some(algorithm), transformation, Some(plaintext), Some(key)).Ok?
      <==> IsAesKey(Utf8.Encode(key))
  {
    var k := Utf8.Encode(key);
    var t := Transformation(AES, CBC, PKCS5Padding);
    if |k| > 0 {
      var secret := SecretKey(k, algorithm);
      assert NewSecretKey(k, Some(algorithm)) == Ok(secret);
      assert KeyFits(AES, secret) <==> IsAesKey(k);
      if IsAesKey(k) {
        InitAesCbc(PKCS5Padding, secret, iv);
        assert CbcPaddedSound(p);
        assert p.encrypt(t, k, iv, defaultCharset(plaintext)).Ok?;
      } else {
        assert Init(t, secret, IvParameterSpec(iv)).Err?;
      }
    }
  }

  /** The fixed shortcuts round-trip for every plaintext whose default-charset
      bytes are its UTF-8 bytes, under every key whose UTF-8 encoding is 16,
      24 or 32 bytes long. */
  lemma EncryptDecryptRoundTrip(p: Provider, defaultCharset: string -> seq<byte>, iv: seq<byte>,
                                plaintext: string, key: string)
    requires Sound(p) && |iv| == IvLength
    requires IsAesKey(Utf8.Encode(key))
    requires defaultCharset(plaintext) == Utf8.Encode(plaintext)
    ensures var r := BaseEncryptOutcome(p, defaultCharset, iv, Some("AES"), Some("AES/CBC/PKCS5Padding"), Some(plaintext), Some(key));
      r.Ok? && Decrypt(p, Some(r.value), Some(key)) == Some(plaintext)
  {
    EncryptKeyLength(p, defaultCharset, iv, plaintext, key);
    BaseRoundTrip(p, defaultCharset, iv, Some("AES"), Some("AES/CBC/PKCS5Padding"), plaintext, Some(key));
  }
}

/** `com.phosa.AES256Util`, the older copy of the AES envelope: a 16-byte
    random IV, a UTF-8 key of algorithm "AES", the transformation written
    "AES/CBC/PKCS5PADDING", plaintext bytes in the default charset, output
    read as UTF-8, and `null` on any exception. */
module LegacyAes256Util {
  import opened JavaLang
  import opened Jce
  import opened JavaString
  import Base64
  import Utf8
  import EncryptionUtil

  const Transformation: string := "AES/CBC/PKCS5PADDING"

  /** `AES256Util.encrypt`: the same envelope `EncryptionUtil.baseEncrypt`
      builds for "AES" and "AES/CBC/PKCS5PADDING". */
  method Encrypt(p: Provider, defaultCharset: string -> seq<byte>, entropy: nat -> byte,
                 plaintext: Option<string>, key: Option<string>) returns (r: Option<string>)
    ensures r == Nullable(EncryptionUtil.BaseEncryptOutcome(p, defaultCharset, Draw(entropy, 16), Some("AES"),
                                                           Some(Transformation), plaintext, key))
  {
    var initVector := new byte[16];
    NextBytes(initVector, entropy);
    var iv := IvParameterSpec(initVector[..]);
    if key.None? {
      return None;
    }
    var skeySpec := NewSecretKey(Utf8.Encode(key.value), Some("AES"));
    if skeySpec.Err? {
      return None;
    }
    var cipher := GetInstance(Some(Transformation));
    if cipher.Err? {
      return None;
    }
    var init := Init(cipher.value, skeySpec.value, iv);
    if init.Err? || plaintext.None? {
      return None;
    }
    var cipherbytes := p.encrypt(cipher.value, skeySpec.value.encoded, iv.iv, defaultCharset(plaintext.value));
    if cipherbytes.Err? {
      return None;
    }
    var messagebytes := Concatenate(initVector[..], cipherbytes.value);
    return Some(Base64.Encode(messagebytes[..]));
  }

  /** `AES256Util.decrypt`: lenient Base64, bytes [0,16) as the IV and the
      rest as the cipher input, as in `EncryptionUtil.baseDecrypt`. */
  function Decrypt(p: Provider, ciphertext: Option<string>, key: Option<string>): (r: Option<string>)
    ensures r == EncryptionUtil.BaseDecrypt(p, Some("AES"), Some(Transformation), ciphertext, key)
  {
    Nullable(EncryptionUtil.BaseDecryptOutcome(p, Some("AES"), Some(Transformation), ciphertext, key))
  }

  lemma NameIgnoringCase()
    ensures EqualsIgnoreCase(Transformation, "AES/CBC/PKCS5Padding")
  {
    assert Lower(Transformation) == "aes/cbc/pkcs5padding";
    assert Lower("AES/CBC/PKCS5Padding") == "aes/cbc/pkcs5padding";
  }

  /** The transformation name is matched ignoring case, so the legacy class
      encrypts and decrypts exactly as `EncryptionUtil.encrypt`/`decrypt`. */
  lemma SameAsEncryptionUtil(p: Provider, defaultCharset: string -> seq<byte>, iv: seq<byte>,
                             text: Option<string>, key: Option<string>)
    ensures EncryptionUtil.BaseEncryptOutcome(p, defaultCharset, iv, Some("AES"), Some(Transformation), text, key)
         == EncryptionUtil.BaseEncryptOutcome(p, defaultCharset, iv, Some("AES"), Some("AES/CBC/PKCS5Padding"), text, key)
    ensures Decrypt(p, text, key) == EncryptionUtil.Decrypt(p, text, key)
  {
    NameIgnoringCase();
    GetInstanceIgnoresCase(Transformation, "AES/CBC/PKCS5Padding");
    EncryptionUtil.OutcomesFollowLookup(p, defaultCharset, iv, Some("AES"), Some(Transformation),
                                        Some("AES/CBC/PKCS5Padding"), text, key);
  }

  /** The envelope decodes to the 16-byte IV followed by the cipher output. */
  lemma EnvelopeLayout(p: Provider, defaultCharset: string -> seq<byte>, iv: seq<byte>,
                       plaintext: string, key: string)
    requires |iv| == 16
    requires EncryptionUtil.BaseEncryptOutcome(p, defaultCharset, iv, Some("AES"), Some(Transformation), Some(plaintext), Some(key)).Ok?
    ensures var c := p.encrypt(Jce.Transformation(AES, CBC, PKCS5Padding), Utf8.Encode(key), iv, defaultCharset(plaintext));
      var s := EncryptionUtil.BaseEncryptOutcome(p, defaultCharset, iv, Some("AES"), Some(Transformation), Some(plaintext), Some(key)).value;
      c.Ok? && Base64.DecodeLenient(s) == iv + c.value && |Base64.DecodeLenient(s)| == 16 + |c.value|
  {
    NameIgnoringCase();
    GetInstanceAesCbcPkcs5(Transformation);
    EncryptionUtil.EnvelopeLayout(p, defaultCharset, iv, Some("AES"), Some(Transformation), Some(plaintext), Some(key));
  }

  /** A decoded envelope shorter than 16 bytes gives `null`. */
  lemma ShortEnvelopeIsNull(p: Provider, ciphertext: string, key: Option<string>)
    requires |Base64.DecodeLenient(ciphertext)| < 16
    ensures Decrypt(p, Some(ciphertext), key) == None
  {
    EncryptionUtil.ShortEnvelopeIsNull(p, Some("AES"), Some(Transformation), ciphertext, key);
  }

  /** Round trip, conditional on the default charset agreeing with UTF-8 on
      the plaintext, for keys of 16, 24 or 32 UTF-8 bytes. */
  lemma RoundTrip(p: Provider, defaultCharset: string -> seq<byte>, iv: seq<byte>, plaintext: string, key: string)
    requires Sound(p) && |iv| == 16
    requires IsAesKey(Utf8.Encode(key))
    requires defaultCharset(plaintext) == Utf8.Encode(plaintext)
    ensures var r := EncryptionUtil.BaseEncryptOutcome(p, defaultCharset, iv, Some("AES"), Some(Transformation), Some(plaintext), Some(key));
      r.Ok? && Decrypt(p, Some(r.value), Some(key)) == Some(plaintext)
  {
    SameAsEncryptionUtil(p, defaultCharset, iv, Some(plaintext), Some(key));
    EncryptionUtil.EncryptDecryptRoundTrip(p, defaultCharset, iv, plaintext, key);
    var r := EncryptionUtil.BaseEncryptOutcome(p, defaultCharset, iv, Some("AES"), Some(Transformation), Some(plaintext), Some(key));
    SameAsEncryptionUtil(p, defaultCharset, iv, Some(r.value), Some(key));
  }
}

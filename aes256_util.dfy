/** `com.phosa.encryption.AES256Util`: `baseEncrypt` and `baseDecrypt` with
    the algorithm and transformation read, at call time, from
    `EncryptionUtil`'s static fields. */
module Aes256Util {
  import opened JavaLang
  import opened Jce
  import Utf8
  import EncryptionUtil

  /** `AES256Util.encrypt`. */
  method Encrypt(c: EncryptionUtil.Constants, p: Provider, defaultCharset: string -> seq<byte>,
                 entropy: nat -> byte, plaintext: Option<string>, key: Option<string>)
    returns (r: Option<string>)
    ensures r == Nullable(EncryptionUtil.BaseEncryptOutcome(p, defaultCharset, Draw(entropy, EncryptionUtil.IvLength),
                                                           c.Aes, c.AesCbcPkcs5Padding, plaintext, key))
  {
    r := EncryptionUtil.BaseEncrypt(p, defaultCharset, entropy, c.Aes, c.AesCbcPkcs5Padding, plaintext, key);
  }

  /** `AES256Util.decrypt`. */
  function Decrypt(c: EncryptionUtil.Constants, p: Provider, ciphertext: Option<string>, key: Option<string>): (r: Option<string>)
    reads c
    ensures r == EncryptionUtil.BaseDecrypt(p, c.Aes, c.AesCbcPkcs5Padding, ciphertext, key)
  {
    EncryptionUtil.BaseDecrypt(p, c.Aes, c.AesCbcPkcs5Padding, ciphertext, key)
  }

  /** With the fields at their initial values the class behaves as
      `EncryptionUtil.encrypt`/`decrypt`, and so round-trips every plaintext
      whose default-charset bytes are its UTF-8 bytes, under every key of 16,
      24 or 32 UTF-8 bytes. */
  lemma DefaultRoundTrip(c: EncryptionUtil.Constants, p: Provider, defaultCharset: string -> seq<byte>,
                         iv: seq<byte>, plaintext: string, key: string)
    requires c.Aes == Some("AES") && c.AesCbcPkcs5Padding == Some("AES/CBC/PKCS5Padding")
    requires Sound(p) && |iv| == EncryptionUtil.IvLength
    requires IsAesKey(Utf8.Encode(key))
    requires defaultCharset(plaintext) == Utf8.Encode(plaintext)
    ensures var r := EncryptionUtil.BaseEncryptOutcome(p, defaultCharset, iv, c.Aes, c.AesCbcPkcs5Padding, Some(plaintext), Some(key));
      r.Ok? && Decrypt(c, p, Some(r.value), Some(key)) == Some(plaintext)
  {
    EncryptionUtil.EncryptDecryptRoundTrip(p, defaultCharset, iv, plaintext, key);
  }

  /** Reassigning the transformation field to a name in the modelled table
      other than an AES/CBC one (the DES, DESede, ECB, RSA and GCM names)
      makes both methods return `null` for every input. */
  lemma ReassignedTransformation(c: EncryptionUtil.Constants, p: Provider, defaultCharset: string -> seq<byte>,
                                 iv: seq<byte>, text: Option<string>, key: Option<string>)
    requires |iv| == EncryptionUtil.IvLength
    requires GetInstance(c.AesCbcPkcs5Padding).Ok?
    requires var t := GetInstance(c.AesCbcPkcs5Padding).value; t.algorithm != AES || t.mode != CBC
    ensures EncryptionUtil.BaseEncryptOutcome(p, defaultCharset, iv, c.Aes, c.AesCbcPkcs5Padding, text, key).Err?
    ensures Decrypt(c, p, text, key) == None
  {
    EncryptionUtil.OnlyAesCbcAccepted(p, defaultCharset, iv, c.Aes, c.AesCbcPkcs5Padding, text, key);
  }
}

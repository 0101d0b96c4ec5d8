/** The parts of the Java Cryptography Architecture and of `java.util` that the
    encryption utilities call: `Cipher.getInstance`, `SecretKeySpec`, the
    checks `Cipher.init` makes, `Arrays.copyOfRange`, `System.arraycopy` and
    `nextBytes`. The block cipher itself (AES, DES, CBC chaining, GCM and its
    tag, PKCS#5 padding) is not modelled: a `Provider` value supplies it, and
    the predicate `Sound` states the properties the utilities rely on. */
module Jce {
  import opened JavaLang
  import opened JavaString

  datatype Algorithm = AES | DES | DESede | RSA
  datatype Mode = ECB | CBC | GCM
  datatype Padding = NoPadding | PKCS5Padding | PKCS1Padding | OAEPSha1Padding | OAEPSha256Padding
  datatype Transformation = Transformation(algorithm: Algorithm, mode: Mode, padding: Padding)

  /** `Cipher.getInstance(transformation)`: the provider's services are
      looked up ignoring case; a bare algorithm name selects its default
      mode and padding. */
  function GetInstance(transformation: Option<string>): (r: Result<Transformation>)
    ensures r.Err? ==> r.error == NoSuchAlgorithm
    ensures transformation.None? ==> r.Err?
    ensures r.Ok? && r.value.mode == CBC ==> r.value.padding in {NoPadding, PKCS5Padding}
    ensures r.Ok? && r.value.mode == GCM ==> r.value == Transformation(AES, GCM, NoPadding)
  {
    if transformation.None? then Err(NoSuchAlgorithm)
    else Lookup(Lower(transformation.value))
  }

  /** The provider's table of transformations, keyed by lower-case name. */
  function Lookup(n: string): (r: Result<Transformation>)
    ensures r.Err? ==> r.error == NoSuchAlgorithm
    ensures r.Ok? && r.value.mode == CBC ==> r.value.padding in {NoPadding, PKCS5Padding}
    ensures r.Ok? && r.value.mode == GCM ==> r.value == Transformation(AES, GCM, NoPadding)
  {
    if n == "aes/gcm/nopadding" then Ok(Transformation(AES, GCM, NoPadding))
    else if n == "aes/cbc/pkcs5padding" then Ok(Transformation(AES, CBC, PKCS5Padding))
    else if n == "aes/cbc/nopadding" then Ok(Transformation(AES, CBC, NoPadding))
    else if n == "aes/ecb/nopadding" then Ok(Transformation(AES, ECB, NoPadding))
    else if n == "aes/ecb/pkcs5padding" || n == "aes" then Ok(Transformation(AES, ECB, PKCS5Padding))
    else if n == "des/cbc/nopadding" then Ok(Transformation(DES, CBC, NoPadding))
    else if n == "des/cbc/pkcs5padding" then Ok(Transformation(DES, CBC, PKCS5Padding))
    else if n == "des/ecb/nopadding" then Ok(Transformation(DES, ECB, NoPadding))
    else if n == "des/ecb/pkcs5padding" || n == "des" then Ok(Transformation(DES, ECB, PKCS5Padding))
    else if n == "desede/cbc/nopadding" then Ok(Transformation(DESede, CBC, NoPadding))
    else if n == "desede/cbc/pkcs5padding" then Ok(Transformation(DESede, CBC, PKCS5Padding))
    else if n == "desede/ecb/nopadding" then Ok(Transformation(DESede, ECB, NoPadding))
    else if n == "desede/ecb/pkcs5padding" || n == "desede" then Ok(Transformation(DESede, ECB, PKCS5Padding))
    else if n == "rsa/ecb/pkcs1padding" || n == "rsa" then Ok(Transformation(RSA, ECB, PKCS1Padding))
    else if n == "rsa/ecb/oaepwithsha-1andmgf1padding" then Ok(Transformation(RSA, ECB, OAEPSha1Padding))
    else if n == "rsa/ecb/oaepwithsha-256andmgf1padding" then Ok(Transformation(RSA, ECB, OAEPSha256Padding))
    else Err(NoSuchAlgorithm)
  }

  /** The lookup sees only the lower-cased name. */
  lemma GetInstanceIgnoresCase(a: string, b: string)
    requires EqualsIgnoreCase(a, b)
    ensures GetInstance(Some(a)) == GetInstance(Some(b))
  {
  }

  lemma GetInstanceAesCbcPkcs5(name: string)
    requires EqualsIgnoreCase(name, "AES/CBC/PKCS5Padding")
    ensures GetInstance(Some(name)) == Ok(Transformation(AES, CBC, PKCS5Padding))
  {
    LowerAesCbcPkcs5();
  }

  lemma LowerAesCbcPkcs5()
    ensures Lower("AES/CBC/PKCS5Padding") == "aes/cbc/pkcs5padding"
  {
  }

  /** A `javax.crypto.spec.SecretKeySpec`: raw key bytes and an algorithm name. */
  datatype SecretKey = SecretKey(encoded: seq<byte>, algorithm: string)

  /** `new SecretKeySpec(key, algorithm)`: a null algorithm or an empty key is
      an IllegalArgumentException; the bytes are not checked against the
      algorithm until `Cipher.init`. */
  function NewSecretKey(key: seq<byte>, algorithm: Option<string>): (r: Result<SecretKey>)
    ensures r.Ok? <==> algorithm.Some? && |key| > 0
    ensures r.Ok? ==> r.value.encoded == key && r.value.algorithm == algorithm.value
  {
    if algorithm.None? || |key| == 0 then Err(IllegalArgument)
    else Ok(SecretKey(key, algorithm.value))
  }

  /** The algorithm parameters handed to `Cipher.init`. */
  datatype ParameterSpec =
    | IvParameterSpec(iv: seq<byte>)
    | GcmParameterSpec(tagBits: int, iv: seq<byte>)

  /** The cipher block size in bytes. */
  function BlockSize(a: Algorithm): nat {
    match a
    case AES => 16
    case DES => 8
    case DESede => 8
    case RSA => 0
  }

  /** The key check of the SunJCE block ciphers: the key's algorithm name and
      length must fit the cipher (AES keys are 128, 192 or 256 bits). */
  predicate KeyFits(a: Algorithm, key: SecretKey) {
    match a
    case AES => (EqualsIgnoreCase(key.algorithm, "AES") || EqualsIgnoreCase(key.algorithm, "Rijndael"))
                && |key.encoded| in {16, 24, 32}
    case DES => EqualsIgnoreCase(key.algorithm, "DES") && |key.encoded| >= 8
    case DESede => (EqualsIgnoreCase(key.algorithm, "DESede") || EqualsIgnoreCase(key.algorithm, "TripleDES"))
                   && |key.encoded| >= 24
    case RSA => false
  }

  /** `cipher.init(mode, key, params)` for a secret key and a parameter spec:
      RSA wants an RSA key, ECB refuses any IV, CBC wants an IV of exactly one
      block and GCM wants a GCM spec with a 96- to 128-bit tag. */
  function Init(t: Transformation, key: SecretKey, params: ParameterSpec): (r: Result<()>)
    ensures r.Ok? ==> t.algorithm != RSA && t.mode != ECB && KeyFits(t.algorithm, key)
    ensures r.Ok? && t.mode == CBC ==> params.IvParameterSpec? && |params.iv| == BlockSize(t.algorithm)
  {
    if t.algorithm == RSA then Err(InvalidKey)
    else if t.mode == ECB then Err(InvalidAlgorithmParameter)
    else if t.mode == CBC && !(params.IvParameterSpec? && |params.iv| == BlockSize(t.algorithm)) then
      Err(InvalidAlgorithmParameter)
    else if t.mode == GCM && !(params.GcmParameterSpec? && params.tagBits in {96, 104, 112, 120, 128} && |params.iv| > 0) then
      Err(InvalidAlgorithmParameter)
    else if !KeyFits(t.algorithm, key) then Err(InvalidKey)
    else Ok(())
  }

  /** The transformations that take a 16-byte IV: AES in CBC mode. Every DES or
      DESede transformation wants an 8-byte IV, and ECB takes none, so with
      an `IvParameterSpec` of 16 bytes their `init` fails. */
  lemma InitWithSixteenByteIv(t: Transformation, key: SecretKey, iv: seq<byte>)
    requires |iv| == 16
    ensures Init(t, key, IvParameterSpec(iv)).Ok? <==>
      t.algorithm == AES && t.mode == CBC && KeyFits(AES, key)
  {
  }

  /** An "AES" key of 16, 24 or 32 bytes and a GCM spec with a 128-bit tag
      pass `init` for AES/GCM/NoPadding. */
  lemma InitAesGcm(key: SecretKey, iv: seq<byte>)
    requires EqualsIgnoreCase(key.algorithm, "AES") && |key.encoded| in {16, 24, 32} && |iv| > 0
    ensures Init(Transformation(AES, GCM, NoPadding), key, GcmParameterSpec(128, iv)) == Ok(())
  {
  }

  /** An "AES" key of 16, 24 or 32 bytes and a 16-byte IV pass `init` for
      AES in CBC mode. */
  lemma InitAesCbc(padding: Padding, key: SecretKey, iv: seq<byte>)
    requires EqualsIgnoreCase(key.algorithm, "AES") && |key.encoded| in {16, 24, 32} && |iv| == 16
    ensures Init(Transformation(AES, CBC, padding), key, IvParameterSpec(iv)) == Ok(())
  {
  }

  /** The block cipher behind `Cipher.doFinal`, per transformation, key, IV
      (or nonce) and input; the result is the output bytes or the exception
      doFinal throws. */
  datatype Provider = Provider(
    encrypt: (Transformation, seq<byte>, seq<byte>, seq<byte>) -> Result<seq<byte>>,
    decrypt: (Transformation, seq<byte>, seq<byte>, seq<byte>) -> Result<seq<byte>>)

  predicate IsAesKey(key: seq<byte>) {
    |key| in {16, 24, 32}
  }

  /** AES/CBC with PKCS#5 padding pads to the next whole block (always adding
      at least one byte) and decryption with the same key and IV undoes it. */
  ghost predicate CbcPaddedSound(p: Provider) {
    forall key: seq<byte>, iv: seq<byte>, m: seq<byte> | IsAesKey(key) && |iv| == 16 ::
      var c := p.encrypt(Transformation(AES, CBC, PKCS5Padding), key, iv, m);
      c.Ok? && |c.value| == (|m| / 16 + 1) * 16 &&
      p.decrypt(Transformation(AES, CBC, PKCS5Padding), key, iv, c.value) == Ok(m)
  }

  /** AES/CBC without padding accepts whole blocks only and preserves length. */
  ghost predicate CbcUnpaddedSound(p: Provider) {
    forall key: seq<byte>, iv: seq<byte>, m: seq<byte> | IsAesKey(key) && |iv| == 16 ::
      var c := p.encrypt(Transformation(AES, CBC, NoPadding), key, iv, m);
      (c.Ok? <==> |m| % 16 == 0) &&
      (c.Ok? ==> |c.value| == |m| && p.decrypt(Transformation(AES, CBC, NoPadding), key, iv, c.value) == Ok(m))
  }

  /** AES/GCM (NIST SP 800-38D) appends a 128-bit tag; decryption with the same
      key and nonce returns the message, and input shorter than the tag
      fails. */
  ghost predicate GcmSound(p: Provider) {
    (forall key: seq<byte>, iv: seq<byte>, m: seq<byte> | IsAesKey(key) && |iv| > 0 ::
       var c := p.encrypt(Transformation(AES, GCM, NoPadding), key, iv, m);
       c.Ok? && |c.value| == |m| + 16 &&
       p.decrypt(Transformation(AES, GCM, NoPadding), key, iv, c.value) == Ok(m)) &&
    (forall key: seq<byte>, iv: seq<byte>, c: seq<byte> | |c| < 16 ::
       p.decrypt(Transformation(AES, GCM, NoPadding), key, iv, c).Err?)
  }

  ghost predicate Sound(p: Provider) {
    CbcPaddedSound(p) && CbcUnpaddedSound(p) && GcmSound(p)
  }

  /** `Arrays.copyOfRange(a, from, to)`: the bytes `a[from..to]`, padded with
      zeros where `to` runs past the end; `from > to` is an
      IllegalArgumentException and `from` past the end an
      ArrayIndexOutOfBoundsException. */
  function CopyOfRange(a: seq<byte>, from: int, to: int): (r: Result<seq<byte>>)
    ensures r.Ok? <==> 0 <= from <= to && from <= |a|
    ensures r.Ok? ==> |r.value| == to - from
    ensures r.Ok? ==> forall i :: from <= i < to ==> r.value[i - from] == if i < |a| then a[i] else 0
  {
    if from > to then Err(IllegalArgument)
    else if from < 0 || from > |a| then Err(IndexOutOfBounds)
    else if to <= |a| then Ok(a[from..to])
    else Ok(a[from..] + seq(to - |a|, _ => 0))
  }

  /** The bytes a random source hands out, in order. */
  function Draw(entropy: nat -> byte, n: nat): (r: seq<byte>)
    ensures |r| == n
  {
    seq(n, (i: int) requires 0 <= i => entropy(i))
  }

  /** `random.nextBytes(a)` (`java.util.Random` or `SecureRandom`): fills the
      array with the next bytes of the random source. */
  method NextBytes(a: array<byte>, entropy: nat -> byte)
    modifies a
    ensures a[..] == Draw(entropy, a.Length)
  {
    var i := 0;
    while i < a.Length
      invariant 0 <= i <= a.Length
      invariant a[..i] == Draw(entropy, i)
    {
      a[i] := entropy(i);
      i := i + 1;
    }
  }

  /** `System.arraycopy(src, srcPos, dest, destPos, length)` for ranges inside
      both arrays: `dest[destPos..destPos+length]` takes the source bytes and
      the rest of `dest` is unchanged. */
  method ArrayCopy(src: seq<byte>, srcPos: nat, dest: array<byte>, destPos: nat, length: nat)
    requires srcPos + length <= |src| && destPos + length <= dest.Length
    modifies dest
    ensures dest[..] == old(dest[..destPos]) + src[srcPos..srcPos + length] + old(dest[destPos + length..])
  {
    var i := 0;
    while i < length
      invariant 0 <= i <= length
      invariant dest[..destPos] == old(dest[..destPos])
      invariant dest[destPos..destPos + i] == src[srcPos..srcPos + i]
      invariant dest[destPos + length..] == old(dest[destPos + length..])
    {
      dest[destPos + i] := src[srcPos + i];
      i := i + 1;
    }
    assert dest[..] == dest[..destPos] + dest[destPos..destPos + length] + dest[destPos + length..];
  }

  /** A fresh array holding `a` followed by `b`, filled by two
      `System.arraycopy` calls. */
  method Concatenate(a: seq<byte>, b: seq<byte>) returns (m: array<byte>)
    ensures fresh(m) && m[..] == a + b
  {
    m := new byte[|a| + |b|];
    ArrayCopy(a, 0, m, 0, |a|);
    ArrayCopy(b, 0, m, |a|, |b|);
  }
}

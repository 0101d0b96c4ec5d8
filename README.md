# easyutil core, modelled in Dafny

This project models the core of the `easyutil` Java utility library and
proves properties of the model:

- **Encryption.**
  - `EncryptionUtil`: AES/CBC with a random 16-byte IV prepended to the
    ciphertext, and Base64 framing.
  - Its two wrappers `encryption.AES256Util` and the legacy
    `com.phosa.AES256Util`.
  - `AESGCMUtil`: AES/GCM with a 12-byte nonce, and key generation.
- **`StringUtil`**, `CollectionUtil`'s stream helpers, and `DateUtil`'s
  calendar arithmetic.
- **The JSON wrappers `JsonArray` and `JsonObject`.** This includes the
  keyed `sort`, whose comparator compares an element with itself.
- **`HttpRequest` and its `Builder`.** The builder and every request it
  builds share one header map.
- **`HttpUtil`.** The form-body construction, the header handling of every
  helper, and the error path of `execute`.

## How the model is built

- **Java values.** Java `null` is `Option.None`, and a thrown exception is
  `Result.Err` carrying the exception's class.
- **Methods that catch every exception and return `null`.** They are the
  function `JavaLang.Nullable` applied to the outcome of their `try` block.
- **Cipher primitives and randomness.** These are parameters:
  - a `Jce.Provider` of encrypt and decrypt functions;
  - an `entropy` function for the bytes a random source hands out.
- **Assumptions about the cipher.** The standard properties of the cipher
  (PKCS#5 lengths, the GCM tag length, decryption inverting encryption) are
  the predicate `Jce.Sound`. Lemmas that rely on them take it as a
  hypothesis.
- **Base64 and UTF-8.** Both are implemented concretely, so facts that
  depend on key lengths are proved rather than assumed. One example: a
  generated 256-bit key is 44 characters long and is therefore rejected as
  an AES key.
- **JSON.** JSON values are a datatype, and the containers are classes whose
  methods update the wrapped list or map in place.
- **Parameters for what the library does not define.** The parts of
  fastjson the wrappers rely on are a `Fastjson` parameter:
  - `toString`;
  - `toJSONString`;
  - the `getJSONObject` conversion.

  The network is a `Transport` parameter: the response, or the message of
  the exception `execute` caught.

## Model

| member | source | states |
|---|---|---|
| EncryptionUtil.Constants.constructor | src/main/java/com/phosa/encryption/EncryptionUtil.java:18-37 | the public static fields start as "AES" and "AES/CBC/PKCS5Padding" (they are not final and may be reassigned) |
| EncryptionUtil.BaseEncrypt | src/main/java/com/phosa/encryption/EncryptionUtil.java:54-82 | draws a 16-byte IV from the random source into an array; the result is `null` exactly when some step of the try block throws, and otherwise the Base64 text of IV followed by ciphertext |
| EncryptionUtil.BaseDecrypt | src/main/java/com/phosa/encryption/EncryptionUtil.java:91-120 | the plaintext exactly when lenient decoding, the split at byte 16, the key, `init`, `doFinal` and UTF-8 decoding all succeed; `null` otherwise |
| EncryptionUtil.Encrypt | src/main/java/com/phosa/encryption/EncryptionUtil.java:122-124 | is `baseEncrypt` with the literals "AES" and "AES/CBC/PKCS5Padding" |
| EncryptionUtil.Decrypt | src/main/java/com/phosa/encryption/EncryptionUtil.java:125-127 | is `baseDecrypt` with the same literals |
| EncryptionUtil.OutcomesFollowLookup | src/main/java/com/phosa/encryption/EncryptionUtil.java:65-66 | two transformation names that `Cipher.getInstance` resolves alike give the same encryption and decryption outcomes |
| EncryptionUtil.UnframeFrame | src/main/java/com/phosa/encryption/EncryptionUtil.java:97-100 | `copyOfRange` at 0..16 and 16..end of IV followed by ciphertext returns the IV and the ciphertext |
| EncryptionUtil.EnvelopeLayout | src/main/java/com/phosa/encryption/EncryptionUtil.java:69-77 | a successful encryption is the Base64 text of the IV followed by the cipher output under the resolved transformation |
| EncryptionUtil.ShortEnvelopeIsNull | src/main/java/com/phosa/encryption/EncryptionUtil.java:97-119 | a ciphertext that decodes to fewer than 16 bytes makes `copyOfRange` throw, so decryption returns `null` |
| EncryptionUtil.OnlyAesCbcAccepted | src/main/java/com/phosa/encryption/EncryptionUtil.java:57-66 | for every transformation in the modelled table other than AES/CBC (the DES, DESede, ECB, RSA and GCM names) the fixed 16-byte IV is refused by `init`: encryption fails and decryption returns `null` |
| EncryptionUtil.BaseDecryptEncrypt | src/main/java/com/phosa/encryption/EncryptionUtil.java:54-120 | decrypting what encryption produced, with the same key and names, gives back the UTF-8 decoding of the default-charset bytes of the plaintext |
| EncryptionUtil.BaseRoundTrip | src/main/java/com/phosa/encryption/EncryptionUtil.java:54-120 | decryption inverts encryption when the default charset agrees with UTF-8 on the plaintext |
| EncryptionUtil.EncryptKeyLength | src/main/java/com/phosa/encryption/EncryptionUtil.java:62-69 | `encrypt` succeeds exactly when the UTF-8 bytes of the key text number 16, 24 or 32 |
| EncryptionUtil.AesCbcKeyLength | src/main/java/com/phosa/encryption/EncryptionUtil.java:62-69 | the same key-length condition for any algorithm name equal to "AES" ignoring case and any name that resolves to AES/CBC/PKCS5Padding |
| EncryptionUtil.EncryptDecryptRoundTrip | src/main/java/com/phosa/encryption/EncryptionUtil.java:122-127 | `decrypt(encrypt(p, k), k) == p` for every AES-length key and every plaintext on which the default charset agrees with UTF-8 |
| Aes256Util.Encrypt | src/main/java/com/phosa/encryption/AES256Util.java:15-17 | delegates to `baseEncrypt` with the current values of the static fields |
| Aes256Util.Decrypt | src/main/java/com/phosa/encryption/AES256Util.java:27-29 | delegates to `baseDecrypt` with the current values of the static fields |
| Aes256Util.DefaultRoundTrip | src/main/java/com/phosa/encryption/AES256Util.java:15-29 | with the fields at their initial values, decryption inverts encryption |
| Aes256Util.ReassignedTransformation | src/main/java/com/phosa/encryption/AES256Util.java:15-29 | after the transformation field is reassigned to a transformation in the modelled table other than AES/CBC (the DES, DESede, ECB, RSA and GCM names), encryption fails and decryption returns `null` |
| LegacyAes256Util.Encrypt | src/main/java/com/phosa/AES256Util.java:23-52 | builds the same envelope as `EncryptionUtil.baseEncrypt` ("AES/CBC/PKCS5PADDING", a 16-byte IV, Base64) and returns `null` on any exception |
| LegacyAes256Util.Decrypt | src/main/java/com/phosa/AES256Util.java:55-80 | is `baseDecrypt` under the upper-case transformation name |
| LegacyAes256Util.NameIgnoringCase | src/main/java/com/phosa/AES256Util.java:34 | "AES/CBC/PKCS5PADDING" equals "AES/CBC/PKCS5Padding" ignoring case |
| LegacyAes256Util.SameAsEncryptionUtil | src/main/java/com/phosa/AES256Util.java:23-80 | the legacy class encrypts and decrypts exactly as `EncryptionUtil` does |
| LegacyAes256Util.EnvelopeLayout | src/main/java/com/phosa/AES256Util.java:38-47 | the envelope decodes to the 16-byte IV followed by the cipher output |
| LegacyAes256Util.ShortEnvelopeIsNull | src/main/java/com/phosa/AES256Util.java:59-79 | an envelope shorter than 16 bytes gives `null` |
| LegacyAes256Util.RoundTrip | src/main/java/com/phosa/AES256Util.java:23-80 | decryption inverts encryption for AES-length keys when the default charset agrees with UTF-8 |
| AesGcmUtil.Encrypt | src/main/java/com/phosa/encryption/AESGCMUtil.java:33-61 | draws a 12-byte nonce; the result is `null` exactly when the try block throws, and otherwise the Base64 text of the nonce followed by the GCM output |
| AesGcmUtil.Decrypt | src/main/java/com/phosa/encryption/AESGCMUtil.java:70-96 | strict Base64 decoding, the nonce split, `init` with a 128-bit tag, `doFinal` and UTF-8 decoding; `null` on any exception |
| AesGcmUtil.SplitEnvelope | src/main/java/com/phosa/encryption/AESGCMUtil.java:76-79 | the two fresh arrays hold the first 12 bytes and the rest of the envelope |
| AesGcmUtil.GenerateKey | src/main/java/com/phosa/encryption/AESGCMUtil.java:104-114 | a key text exactly when `KeyGenerator.init` accepts the size |
| AesGcmUtil.GcmNameLookup | src/main/java/com/phosa/encryption/AESGCMUtil.java:17-20 | "AES/GCM/NoPadding" resolves to AES in GCM mode without padding |
| AesGcmUtil.EnvelopeLayout | src/main/java/com/phosa/encryption/AESGCMUtil.java:49-56 | the envelope strictly decodes to the nonce followed by the ciphertext and its 16-byte tag |
| AesGcmUtil.EncryptKeyLength | src/main/java/com/phosa/encryption/AESGCMUtil.java:42-49 | encryption succeeds if and only if the key text has 16, 24 or 32 UTF-8 bytes |
| AesGcmUtil.EncryptAccepts | src/main/java/com/phosa/encryption/AESGCMUtil.java:42-49 | an AES-length key is accepted |
| AesGcmUtil.EncryptRejects | src/main/java/com/phosa/encryption/AESGCMUtil.java:42-46 | any other key length is refused |
| AesGcmUtil.RoundTrip | src/main/java/com/phosa/encryption/AESGCMUtil.java:33-96 | `decrypt(encrypt(p, k), k) == p` for every plaintext and every AES-length key |
| AesGcmUtil.MalformedEnvelopeIsNull | src/main/java/com/phosa/encryption/AESGCMUtil.java:73-95 | text that is not strict Base64, or decodes to fewer than nonce-plus-tag bytes, decrypts to `null` |
| AesGcmUtil.GenerateKeySizes | src/main/java/com/phosa/encryption/AESGCMUtil.java:104-114 | a key exists exactly for sizes 128, 192 and 256; it is the Base64 text of n/8 random bytes, which is 24, 32 or 44 ASCII characters |
| AesGcmUtil.GeneratedKeyAsKey | src/main/java/com/phosa/encryption/AESGCMUtil.java:42-114 | a generated key, used as text, encrypts exactly when it is not a 256-bit key |
| Jce.GetInstance | src/main/java/com/phosa/encryption/EncryptionUtil.java:65 | `Cipher.getInstance` fails with `NoSuchAlgorithmException` on unknown or `null` names; CBC pads with PKCS#5 or not at all; GCM is AES without padding |
| Jce.GetInstanceIgnoresCase | src/main/java/com/phosa/encryption/EncryptionUtil.java:65 | names equal ignoring case resolve alike |
| Jce.NewSecretKey | src/main/java/com/phosa/encryption/EncryptionUtil.java:62 | `SecretKeySpec` refuses a `null` algorithm or an empty key and otherwise keeps the bytes and name |
| Jce.Init | src/main/java/com/phosa/encryption/EncryptionUtil.java:66 | `init` succeeds only for a fitting key and, in CBC, an IV of one block |
| Jce.InitWithSixteenByteIv | src/main/java/com/phosa/encryption/EncryptionUtil.java:57-66 | a 16-byte IV passes `init` exactly for AES/CBC with a fitting AES key |
| Jce.CopyOfRange | src/main/java/com/phosa/encryption/EncryptionUtil.java:97-100 | `Arrays.copyOfRange` succeeds exactly when from <= to and from <= length, and pads with zeros past the end |
| Jce.NextBytes | src/main/java/com/phosa/encryption/EncryptionUtil.java:57-59 | fills the array with the next bytes of the random source |
| Jce.ArrayCopy | src/main/java/com/phosa/encryption/AESGCMUtil.java:52-54 | `System.arraycopy` replaces exactly the target range |
| Jce.Concatenate | src/main/java/com/phosa/encryption/EncryptionUtil.java:72-74 | a fresh array holding the IV followed by the ciphertext |
| Base64.EncodeLength | src/main/java/com/phosa/encryption/EncryptionUtil.java:77 | the encoding has four characters per three bytes, rounded up, all ASCII |
| Base64.DecodeStrictEncode | src/main/java/com/phosa/encryption/AESGCMUtil.java:56-73 | the strict decoder inverts the encoder |
| Base64.DecodeLenientEncode | src/main/java/com/phosa/encryption/EncryptionUtil.java:77-94 | the lenient decoder inverts the encoder |
| Base64.DecodeStrictRejects | src/main/java/com/phosa/encryption/AESGCMUtil.java:73 | the strict decoder refuses text with a character outside the alphabet |
| Utf8.DecodeEncode | src/main/java/com/phosa/encryption/EncryptionUtil.java:114 | `new String(s.getBytes(UTF_8), UTF_8)` is `s` |
| Utf8.EncodeAscii | src/main/java/com/phosa/encryption/EncryptionUtil.java:62 | an ASCII text has one byte per character |
| Utf8.EncodeNonAsciiLonger | src/main/java/com/phosa/encryption/EncryptionUtil.java:62 | a key text with a non-ASCII character has more bytes than characters |
| StringUtil.Tally | src/main/java/com/phosa/StringUtil.java:26-29 | the counting loop maps each element that occurs to its number of occurrences, and nothing else |
| StringUtil.FindMostFrequentChar | src/main/java/com/phosa/StringUtil.java:22-34 | `IllegalArgumentException` exactly for `null` or empty input; otherwise a character of the input whose count no other character exceeds |
| StringUtil.RemoveVowels | src/main/java/com/phosa/StringUtil.java:42-47 | `null` stays `null`; the result has no vowel and is no longer than the input |
| StringUtil.RemoveVowelsKeepsOthers | src/main/java/com/phosa/StringUtil.java:42-47 | every non-vowel keeps its number of occurrences and every vowel drops to zero |
| StringUtil.RemoveVowelsIdempotent | src/main/java/com/phosa/StringUtil.java:42-47 | removing vowels twice is removing them once |
| StringUtil.RemoveVowelsWithoutVowels | src/main/java/com/phosa/StringUtil.java:42-47 | a text without vowels is left alone |
| StringUtil.IsPalindrome | src/main/java/com/phosa/StringUtil.java:55-61 | false for `null`; otherwise whether the lower-cased ASCII letters and digits read the same backwards |
| StringUtil.IsPalindromeWithoutAlnum | src/main/java/com/phosa/StringUtil.java:55-61 | a text without letters or digits is a palindrome |
| StringUtil.IsPalindromeReverse | src/main/java/com/phosa/StringUtil.java:55-61 | reversing the input does not change the answer |
| StringUtil.IsPalindromeIgnoresCase | src/main/java/com/phosa/StringUtil.java:55-61 | lower-casing the input does not change the answer |
| StringUtil.WordFrequency | src/main/java/com/phosa/StringUtil.java:69-79 | an empty map for `null` or empty input; otherwise each token of the lower-cased input split at runs of non-word characters, mapped to its number of occurrences |
| StringUtil.WordCountsAddUp | src/main/java/com/phosa/StringUtil.java:69-79 | every count is positive and the counts add up to the number of tokens |
| StringUtil.WordsAreLowerCase | src/main/java/com/phosa/StringUtil.java:73 | no token has an upper-case letter |
| StringUtil.WordsLeadingEmpty | src/main/java/com/phosa/StringUtil.java:73 | a text starting with a non-word character and containing a word character yields an empty token |
| StringUtil.ExtractDigits | src/main/java/com/phosa/StringUtil.java:87-92 | "" for `null`; otherwise only digits, and no longer than the input |
| StringUtil.ExtractDigitsKeepsDigits | src/main/java/com/phosa/StringUtil.java:87-92 | every digit keeps its count and every other character is dropped |
| StringUtil.ExtractDigitsIdempotent | src/main/java/com/phosa/StringUtil.java:87-92 | extracting twice is extracting once |
| StringUtil.RemoveDuplicateChars | src/main/java/com/phosa/StringUtil.java:100-108 | `null` stays `null`; the result has the same set of characters as the input |
| StringUtil.RemoveDuplicateCharsFirstOccurrences | src/main/java/com/phosa/StringUtil.java:100-108 | no character repeats, and characters appear in order of first occurrence |
| StringUtil.RemoveDuplicateCharsIdempotent | src/main/java/com/phosa/StringUtil.java:100-108 | applying it twice is applying it once |
| StringUtil.SwapCase | src/main/java/com/phosa/StringUtil.java:120-127 | upper-case letters become their lower-case form and vice versa; other characters are unchanged |
| StringUtil.ReverseCase | src/main/java/com/phosa/StringUtil.java:116-131 | `null` stays `null`; otherwise the text with every character's case swapped |
| StringUtil.SwappedCaseInvolution | src/main/java/com/phosa/StringUtil.java:116-131 | the swap is character by character, and swapping twice gives the input back |
| StringUtil.CountWords | src/main/java/com/phosa/StringUtil.java:139-145 | zero exactly for `null` or blank input, and never negative |
| StringUtil.CountWordsRuns | src/main/java/com/phosa/StringUtil.java:139-145 | the count is the number of maximal runs of non-whitespace in the trimmed text |
| StringUtil.SortCharacters | src/main/java/com/phosa/StringUtil.java:153-161 | `null` stays `null`; the result is a permutation of the input |
| StringUtil.SortCharactersSorted | src/main/java/com/phosa/StringUtil.java:153-161 | the result is ascending |
| StringUtil.Collapse | src/main/java/com/phosa/StringUtil.java:173 | every whitespace character left is a single space, with no two in a row |
| StringUtil.CompressSpaces | src/main/java/com/phosa/StringUtil.java:169-174 | `null` stays `null` |
| StringUtil.CompressSpacesShape | src/main/java/com/phosa/StringUtil.java:169-174 | the result has no leading or trailing blank and no two adjacent whitespace characters, and its only whitespace is ' ' |
| StringUtil.CompressSpacesIdempotent | src/main/java/com/phosa/StringUtil.java:169-174 | compressing twice is compressing once |
| CollectionUtil.Review | src/main/java/com/phosa/CollectionUtil.java:27-37 | visits a prefix of the list in order and stops at the first element whose verdict is not `true`; returns true exactly when every verdict is `true`, false for a `false` verdict, and throws for a `null` verdict or a `null` collection |
| CollectionUtil.Filter | src/main/java/com/phosa/CollectionUtil.java:46-48 | a subsequence that keeps every satisfying element with its count and drops the rest; `null` throws |
| CollectionUtil.FindFirst | src/main/java/com/phosa/CollectionUtil.java:58-60 | the first satisfying element, or `null` when there is none; a `null` collection, or a first match that is itself `null` (which `Optional` cannot hold), throws `NullPointerException` |
| CollectionUtil.FindFirstHeadsFilter | src/main/java/com/phosa/CollectionUtil.java:46-60 | the element `findFirst` returns heads the list `filter` returns |
| CollectionUtil.Map | src/main/java/com/phosa/CollectionUtil.java:82-84 | the mapper applied to each element, in order, with the same length |
| CollectionUtil.MapThenFilter | src/main/java/com/phosa/CollectionUtil.java:46-84 | filtering after mapping is mapping after filtering by the composed test |
| CollectionUtil.AnyMatch | src/main/java/com/phosa/CollectionUtil.java:94-96 | true exactly when some element satisfies the predicate |
| CollectionUtil.AnyMatchFilter | src/main/java/com/phosa/CollectionUtil.java:46-96 | `anyMatch` holds exactly when `filter` keeps something |
| DateUtil.IsLeapYear | src/main/java/com/phosa/DateUtil.java:103-105 | `DateTimeException` exactly outside the year range; otherwise true exactly when the year is 366 days long |
| DateUtil.GetDaysInMonth | src/main/java/com/phosa/DateUtil.java:117-127 | defined exactly for valid years and months 1-12; between 28 and 31; February has 29 days exactly in leap years; other months have at least 30 |
| DateUtil.DaysBetween | src/main/java/com/phosa/DateUtil.java:73-75 | `null` throws; positive, zero or negative exactly when the start is before, equal to or after the end |
| DateUtil.DaysBetweenAdds | src/main/java/com/phosa/DateUtil.java:73-75 | zero from a date to itself, antisymmetric, and additive across an intermediate date |
| DateUtil.DayOfWeek | src/main/java/com/phosa/DateUtil.java:133-137 | `null` throws; otherwise a value from 1 to 7 |
| DateUtil.EpochIsThursday | src/main/java/com/phosa/DateUtil.java:133-137 | 1970-01-01 is epoch day 0 and a Thursday (4) |
| DateUtil.EpochDayTomorrow | src/main/java/com/phosa/DateUtil.java:73-75 | the next calendar day is one epoch day later |
| DateUtil.DayOfWeekTomorrow | src/main/java/com/phosa/DateUtil.java:133-137 | the next day's weekday follows, with Sunday wrapping to Monday |
| DateUtil.YearLength | src/main/java/com/phosa/DateUtil.java:103-105 | a leap year has 366 days and any other year 365 |
| DateUtil.MonthsFillYear | src/main/java/com/phosa/DateUtil.java:117-127 | the twelve month lengths add up to the year length |
| DateUtil.EpochDayOrder | src/main/java/com/phosa/DateUtil.java:73-75 | the epoch-day count follows calendar order |
| JsonModel.JsonArray.constructor | src/main/java/com/phosa/json/model/JsonArray.java:25-27 | a new array is empty |
| JsonModel.JsonArray.FromList | src/main/java/com/phosa/json/model/JsonArray.java:33-35 | wraps the given list, or an empty one for `null` |
| JsonModel.JsonArray.Add | src/main/java/com/phosa/json/model/JsonArray.java:68-77 | appends one element, unwrapping a wrapper object or array, and returns this array |
| JsonModel.JsonArray.AddAll | src/main/java/com/phosa/json/model/JsonArray.java:85-88 | appends the elements in order; `null` throws and changes nothing |
| JsonModel.JsonArray.Contains | src/main/java/com/phosa/json/model/JsonArray.java:159-161 | true exactly when some element equals the value |
| JsonModel.JsonArray.ContainsAll | src/main/java/com/phosa/json/model/JsonArray.java:168-170 | true exactly when every element of the other array occurs here |
| JsonModel.JsonArray.ContainsAny | src/main/java/com/phosa/json/model/JsonArray.java:177-185 | true exactly when some element of the other array occurs here |
| JsonModel.JsonArray.IsEmpty | src/main/java/com/phosa/json/model/JsonArray.java:191-193 | true exactly when there are no elements |
| JsonModel.JsonArray.IsNotEmpty | src/main/java/com/phosa/json/model/JsonArray.java:199-201 | the negation of `isEmpty` |
| JsonModel.JsonArray.IndexOf | src/main/java/com/phosa/json/model/JsonArray.java:208-210 | -1 exactly when the value is absent; otherwise the position of its first occurrence |
| JsonModel.JsonArray.Remove | src/main/java/com/phosa/json/model/JsonArray.java:217-223 | deletes only the first occurrence, keeping the rest in order; the multiset loses exactly one copy |
| JsonModel.JsonArray.RemoveAll | src/main/java/com/phosa/json/model/JsonArray.java:230-233 | keeps, in order, exactly the elements that do not occur in the other array |
| JsonModel.JsonArray.RetainAll | src/main/java/com/phosa/json/model/JsonArray.java:240-244 | keeps, in order, exactly the elements that occur in the other array |
| JsonModel.JsonArray.RetainAllOf | src/main/java/com/phosa/json/model/JsonArray.java:251-255 | the same for any collection; `null` throws and changes nothing |
| JsonModel.JsonArray.Clear | src/main/java/com/phosa/json/model/JsonArray.java:260-262 | the array becomes empty |
| JsonModel.JsonArray.Reset | src/main/java/com/phosa/json/model/JsonArray.java:267-270 | the array becomes empty |
| JsonModel.JsonArray.Sort | src/main/java/com/phosa/json/model/JsonArray.java:335-350 | on success the elements become the sort outcome; on an escaping exception the array is unchanged |
| JsonModel.JsonArray.SortDefault | src/main/java/com/phosa/json/model/JsonArray.java:310-312 | is `sort(true, null)` |
| JsonModel.JsonArray.SortDirection | src/main/java/com/phosa/json/model/JsonArray.java:318-320 | is `sort(ascending, null)` |
| JsonModel.JsonArray.SortOn | src/main/java/com/phosa/json/model/JsonArray.java:326-328 | is `sort(true, key)` |
| JsonModel.SortOutcome | src/main/java/com/phosa/json/model/JsonArray.java:335-350 | a successful sort is a permutation; a failure needs at least two elements and is never a swallowed `JSONException` |
| JsonModel.SortWithoutKey | src/main/java/com/phosa/json/model/JsonArray.java:338-342 | without a key the sort fails (`NullPointerException`) exactly when there are two or more elements and one is `null`; otherwise it is sorted by text and a permutation |
| JsonModel.KeyOrderNeverLess | src/main/java/com/phosa/json/model/JsonArray.java:340-342 | the keyed comparator computes both values from the first argument, so it never orders one element before another |
| JsonModel.SortWithKeyKeepsOrder | src/main/java/com/phosa/json/model/JsonArray.java:335-350 | with a key, a successful sort leaves the list exactly as it was |
| JsonModel.SortWithKeyIgnoresFirst | src/main/java/com/phosa/json/model/JsonArray.java:338-347 | with a key, the first element is never examined, so replacing it cannot change whether the sort fails |
| JsonModel.StringLessAsymmetric | src/main/java/com/phosa/json/model/JsonArray.java:342 | `compareTo` below zero is asymmetric |
| JsonModel.StringLessIrreflexive | src/main/java/com/phosa/json/model/JsonArray.java:342 | `compareTo` of a string with itself is not below zero |
| JsonModel.Without | src/main/java/com/phosa/json/model/JsonArray.java:230-233 | a subsequence that drops every occurrence of the given values and keeps the count of every other value |
| JsonModel.Within | src/main/java/com/phosa/json/model/JsonArray.java:240-244 | a subsequence that keeps the count of every given value and drops the rest |
| JsonModel.WalkAppend | src/main/java/com/phosa/json/model/JsonObject.java:105-115 | following `a + b` is following `a`, then `b` from where `a` ended, with errors propagating |
| JsonModel.NestedTextCases | src/main/java/com/phosa/json/model/JsonObject.java:105-115 | no keys gives the object's own JSON; one absent key gives "null"; an absent key followed by more keys throws `NullPointerException` |
| JsonModel.JsonObject.constructor | src/main/java/com/phosa/json/model/JsonObject.java:13-15 | a new object is empty |
| JsonModel.JsonObject.Wrap | src/main/java/com/phosa/json/model/JsonObject.java:16-18 | wraps the given object, `null` included |
| JsonModel.JsonObject.Put | src/main/java/com/phosa/json/model/JsonObject.java:28-36 | stores the unwrapped value under the key (a `null` key included) and returns the previous value, or `null` when the key was absent; a `null` inner object throws |
| JsonModel.JsonObject.FluentPut | src/main/java/com/phosa/json/model/JsonObject.java:38-41 | the same update, returning this object |
| JsonModel.JsonObject.ContainsAllEntries | src/main/java/com/phosa/json/model/JsonObject.java:78-80 | true exactly when every key of the other object is present here with an equal value; `null` on either side throws |
| JsonModel.JsonObject.ContainsAllKeys | src/main/java/com/phosa/json/model/JsonObject.java:81-88 | true exactly when every key, `null` included, is a key of the object; it stops at the first missing one, and an empty key list never touches the inner object |
| JsonModel.JsonObject.ContainsAnyKey | src/main/java/com/phosa/json/model/JsonObject.java:97-104 | true exactly when some key is present; it stops at the first present one |
| JsonModel.JsonObject.ContainsAnyOf | src/main/java/com/phosa/json/model/JsonObject.java:89-96 | true exactly when the two key sets meet |
| JsonModel.JsonObject.ToString | src/main/java/com/phosa/json/model/JsonObject.java:116-118 | "null" for a `null` inner object |
| JsonModel.JsonObject.GetAsJsonObject | src/main/java/com/phosa/json/model/JsonObject.java:51-53 | a fresh wrapper around the stored object; a `null` inner object throws |
| JsonModel.JsonObject.GetNestedValue | src/main/java/com/phosa/json/model/JsonObject.java:105-115 | the loop's result is the nested-lookup outcome along the keys |
| NetModel.HeaderMap.PutAll | src/main/java/com/phosa/net/model/HttpRequest.java:133-136 | adds every entry, replacing equal keys; `null` throws |
| NetModel.Request.constructor | src/main/java/com/phosa/net/model/HttpRequest.java:52-57 | copies url, method and body, and shares the builder's header map |
| NetModel.Builder.constructor | src/main/java/com/phosa/net/model/HttpRequest.java:64-80 | no url or body, method GET, and a fresh empty header map |
| NetModel.Builder.Url | src/main/java/com/phosa/net/model/HttpRequest.java:88-91 | replaces the url only and returns the builder |
| NetModel.Builder.Method | src/main/java/com/phosa/net/model/HttpRequest.java:99-102 | replaces the method only and returns the builder |
| NetModel.Builder.Body | src/main/java/com/phosa/net/model/HttpRequest.java:110-113 | replaces the body only and returns the builder |
| NetModel.Builder.Header | src/main/java/com/phosa/net/model/HttpRequest.java:122-125 | inserts or replaces one header, a `null` key or value included |
| NetModel.Builder.Headers | src/main/java/com/phosa/net/model/HttpRequest.java:133-136 | adds every entry, replacing equal keys; `null` throws and changes nothing |
| NetModel.Builder.Build | src/main/java/com/phosa/net/model/HttpRequest.java:143-145 | a fresh request with the builder's fields and the builder's own header map |
| NetModel.HeaderAfterBuild | src/main/java/com/phosa/net/model/HttpRequest.java:11-145 | the request is documented as immutable, yet a header set on the builder after `build()` appears in the request already built |
| HttpUtil.FormBody | src/main/java/com/phosa/net/HttpUtil.java:80-87 | "" for `null` parameters; `StringIndexOutOfBoundsException` for an empty map; otherwise the `key=value` pairs joined by `&` |
| HttpUtil.TerminatedJoined | src/main/java/com/phosa/net/HttpUtil.java:81-87 | what the loop appends is the joined pairs followed by one `&`, which `deleteCharAt` removes |
| HttpUtil.PiecesOfJoined | src/main/java/com/phosa/net/HttpUtil.java:80-87 | splitting the body at `&` gives back exactly the pairs when no pair contains `&` |
| HttpUtil.AmpersandInValueSplits | src/main/java/com/phosa/net/HttpUtil.java:84 | values are not encoded, so a value containing `&` splits into two pieces |
| HttpUtil.NullsWrittenAsText | src/main/java/com/phosa/net/HttpUtil.java:84 | a `null` key and a `null` value are both appended as the text `null` |
| JavaLang.ValueOf | src/main/java/com/phosa/net/HttpUtil.java:84 | appending a `null` string appends the text "null"; any other string is appended as it is |
| HttpUtil.BuildRequest | src/main/java/com/phosa/net/HttpUtil.java:89-93 | `null` headers throw; otherwise a fresh request whose headers are the caller's with the content type overriding |
| HttpUtil.Execute | src/main/java/com/phosa/net/HttpUtil.java:182-217 | never throws: a failure becomes code 500 with the message as body and `null` headers; otherwise the response |
| HttpUtil.Get | src/main/java/com/phosa/net/HttpUtil.java:41-49 | `null` headers throw before anything is sent; otherwise a GET with the caller's headers, returning the response body |
| HttpUtil.GetUrl | src/main/java/com/phosa/net/HttpUtil.java:30-32 | passes `null` headers on, so it always throws |
| HttpUtil.Post | src/main/java/com/phosa/net/HttpUtil.java:80-97 | an empty map throws `StringIndexOutOfBoundsException` first, then `null` headers throw; otherwise a form POST of the joined body |
| HttpUtil.PostUrl | src/main/java/com/phosa/net/HttpUtil.java:57-59 | always throws `NullPointerException` |
| HttpUtil.PostParams | src/main/java/com/phosa/net/HttpUtil.java:68-70 | always throws: `StringIndexOutOfBoundsException` for an empty map, otherwise `NullPointerException` |
| HttpUtil.SendJson | src/main/java/com/phosa/net/HttpUtil.java:107-157 | the given method, the caller's headers with a JSON content type, and the body as given |
| HttpUtil.PostJson | src/main/java/com/phosa/net/HttpUtil.java:107-117 | a fresh POST to the given url with the caller's headers, `Content-Type: application/json` imposed, and the body as given |
| HttpUtil.PatchJson | src/main/java/com/phosa/net/HttpUtil.java:127-137 | a fresh PATCH to the given url with the caller's headers, `Content-Type: application/json` imposed, and the body as given |
| HttpUtil.PutJson | src/main/java/com/phosa/net/HttpUtil.java:147-157 | a fresh PUT to the given url with the caller's headers, `Content-Type: application/json` imposed, and the body as given |
| HttpUtil.Delete | src/main/java/com/phosa/net/HttpUtil.java:166-174 | `null` headers throw before anything is sent; otherwise a fresh DELETE to the given url with the caller's headers only and no body |

## Left out

- The block ciphers themselves (AES, DES, DESede) and `KeyGenerator` are parameters. Their standard behaviour is the hypothesis `Jce.Sound`, not a definition.
- Jce.GetInstance: the table holds only the transformations named by the library's constants and their relatives (AES, DES and DESede in CBC and ECB, AES/GCM, RSA), with the default aliases. Other names the JCE accepts, such as AES/CTR, AES/CFB, AES/OFB, AES/PCBC or AES/CBC/ISO10126Padding, give `NoSuchAlgorithm` here, whereas the JCE would encrypt with the 16-byte IV. So `EncryptionUtil.OnlyAesCbcAccepted` and `Aes256Util.ReassignedTransformation` speak only of names in the table. No other provider is modelled.
- The default charset used by `getBytes()` in `baseEncrypt` and the legacy `encrypt` is a parameter. The round trips hold when it agrees with UTF-8 on the plaintext.
- `Utf8`: characters are Unicode scalar values. Java strings made of UTF-16 code units, and unpaired surrogates in particular, are not modelled.
- `JavaString.Lower`: ASCII letters only. Locale-dependent and non-ASCII case mapping are not modelled, and the same holds for `StringUtil`'s case operations.
- Exception messages and the stack traces printed by the `catch` blocks are not modelled. Only the exception's class, or the `null` result, is.
- The other public static fields of `EncryptionUtil` (the DES and DESede names) are not modelled. Reassigning them is covered only through `Aes256Util.ReassignedTransformation`.
- `DateUtil`'s clock, formatter and time-zone functions are not part of this model. Only the calendar arithmetic is.
- A `null` function argument in `CollectionUtil` is not modelled, because functions are total parameters.
- The log lines `review` writes are not modelled. Only the elements it visits are.
- `JsonModel.Value` holds nested containers as values, not references. Aliasing between a wrapped array or object and another holder of the same fastjson container is not modelled.
- The insertion order of JSON keys and the number types of fastjson (`Integer` vs `Long`, `BigDecimal`, floats) are not modelled. Numbers are integers.
- A `null` `JsonArray` or `JsonObject` argument is not modelled, because parameters are non-null references.
- A `null` varargs key array in `sort` is not modelled. A `null` key inside it is.
- fastjson's `toString`, `toJSONString` and `getJSONObject` are parameters. Only the sort's dependence on them is proved.
- `JsonArray` and `JsonObject`'s typed getters (`getString`, `getInteger`, …) are not part of this model.
- `JsonModel.JsonObject.ToString`: states only the `null` case. Otherwise it is the `toString` parameter.
- `JsonModel.SortOutcome`: TimSort's merging is not modelled. The stable insertion sort stands in for it, which gives the same result for a strict weak order. For the keyed comparator, the model keeps the exact comparison sequence that decides which exception escapes.
- `HttpUtil`'s parameter map is taken as a sequence in the map's iteration order. `HashMap` ordering is not modelled.
- The URI parsing, header validation and network exchange of `execute` are folded into the `Transport` outcome. This includes the client's refusal of a `null` header name, which `header(null, v)` itself accepts.
- `HttpResponse` is a passive datatype.
- Connection timeouts and the `HttpClient` instance are not modelled.
- `NetModel.HeaderMap.Put`, `NetModel.HeaderMap.constructor`: helper rows are not listed, and both are covered by `NetModel.Builder.Header` and `NetModel.Builder.constructor`.

/** Java-level vocabulary shared by every module of the model: bytes, 32-bit
    integers, nullable references, the exceptions the library raises or
    catches, and the outcome of a call that may throw. */
module JavaLang {

  /** A Java `byte`, taken by its unsigned value (the model never does signed
      arithmetic on bytes, so the sign convention is immaterial). */
  type byte = b: int | 0 <= b < 256

  /** A Java `int`. */
  type int32 = x: int | -0x8000_0000 <= x < 0x8000_0000

  /** A Java reference that may be `null`: `None` is `null`. */
  datatype Option<+T> = None | Some(value: T)

  /** The exceptions raised by the modelled code or by the library calls it
      makes. Messages are not modelled. */
  datatype Exception =
    | NullPointer                 // NullPointerException
    | IllegalArgument             // IllegalArgumentException (also Base64 decoding failures)
    | IndexOutOfBounds            // ArrayIndexOutOfBounds / StringIndexOutOfBounds
    | NegativeArraySize           // NegativeArraySizeException
    | ClassCast                   // ClassCastException
    | NoSuchAlgorithm             // NoSuchAlgorithmException / NoSuchPaddingException
    | InvalidKey                  // InvalidKeyException
    | InvalidAlgorithmParameter   // InvalidAlgorithmParameterException
    | InvalidParameter            // InvalidParameterException (KeyGenerator.init)
    | CipherFailure               // IllegalBlockSize, BadPadding, AEADBadTag from doFinal
    | DateTime                    // DateTimeException
    | Json                        // fastjson's JSONException

  /** The outcome of a Java call: a value, or the exception it throws. */
  datatype Result<+T> = Ok(value: T) | Err(error: Exception)

  /** The library's error policy: catch every exception and return `null`. */
  function Nullable<T>(r: Result<T>): (n: Option<T>)
    ensures n.Some? <==> r.Ok?
    ensures n.Some? ==> n.value == r.value
  {
    match r
    case Ok(v) => Some(v)
    case Err(_) => None
  }

  /** `String.valueOf` of a nullable string, which is also what
      `StringBuilder.append` adds for it: `null` becomes the text "null". */
  function ValueOf(s: Option<string>): (t: string)
    ensures s.Some? ==> t == s.value
    ensures s.None? ==> t == "null"
  {
    if s.Some? then s.value else "null"
  }
}

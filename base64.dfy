/** The Base64 text encoding of RFC 4648, section 4 (standard alphabet, with
    `=` padding), as the two libraries the encryption code calls implement it:

    - both `org.apache.commons.codec.binary.Base64.encodeBase64String` and
      `java.util.Base64.getEncoder().encodeToString` produce the padded,
      unchunked standard encoding (`Encode`);
    - `java.util.Base64.getDecoder().decode` is strict (`DecodeStrict`): a
      character outside the alphabet, a dangling single character, a wrong
      padding or anything after the padding throws IllegalArgumentException;
    - `org.apache.commons.codec.binary.Base64.decodeBase64` is lenient
      (`DecodeLenient`): it stops at the first `=`, skips every character
      outside the alphabet, also accepts the URL-safe `-` and `_`, and drops a
      dangling single character. */
module Base64 {
  import opened JavaLang

  /** A character of the standard alphabet (RFC 4648, table 1). */
  predicate IsStdChar(c: char) {
    ('A' <= c <= 'Z') || ('a' <= c <= 'z') || ('0' <= c <= '9') || c == '+' || c == '/'
  }

  /** A character the lenient decoder gives a value: the standard alphabet
      plus the URL-safe `-` and `_` (RFC 4648, section 5). */
  predicate IsDecodable(c: char) {
    IsStdChar(c) || c == '-' || c == '_'
  }

  /** The character that encodes the 6-bit value `v`. */
  function CharOf(v: int): (c: char)
    requires 0 <= v < 64
    ensures IsStdChar(c) && c != '=' && (c as int) < 128
  {
    if v < 26 then ('A' as int + v) as char
    else if v < 52 then ('a' as int + (v - 26)) as char
    else if v < 62 then ('0' as int + (v - 52)) as char
    else if v == 62 then '+'
    else '/'
  }

  /** The 6-bit value of an alphabet character. */
  function ValueOf(c: char): (v: int)
    requires IsDecodable(c)
    ensures 0 <= v < 64
  {
    if 'A' <= c <= 'Z' then c as int - 'A' as int
    else if 'a' <= c <= 'z' then c as int - 'a' as int + 26
    else if '0' <= c <= '9' then c as int - '0' as int + 52
    else if c == '+' || c == '-' then 62
    else 63
  }

  lemma ValueOfCharOf(v: int)
    requires 0 <= v < 64
    ensures ValueOf(CharOf(v)) == v
  {
  }

  /** The four characters of a complete group of three bytes. */
  function EncodeGroup(x: byte, y: byte, z: byte): (q: string)
    ensures |q| == 4
  {
    [CharOf(x / 4), CharOf(x % 4 * 16 + y / 16), CharOf(y % 16 * 4 + z / 64), CharOf(z % 64)]
  }

  /** The characters of the encoding before the padding: four per complete
      group of three bytes, then two for a trailing byte or three for two
      trailing bytes. */
  function EncodeData(b: seq<byte>): (s: string)
    ensures forall i :: 0 <= i < |s| ==> IsStdChar(s[i]) && s[i] != '=' && (s[i] as int) < 128
  {
    if |b| == 0 then ""
    else if |b| == 1 then EncodeGroup(b[0], 0, 0)[..2]
    else if |b| == 2 then EncodeGroup(b[0], b[1], 0)[..3]
    else EncodeGroup(b[0], b[1], b[2]) + EncodeData(b[3..])
  }

  /** The padding that completes the last group to four characters. */
  function Padding(n: nat): string {
    if n % 3 == 1 then "==" else if n % 3 == 2 then "=" else ""
  }

  /** The padded standard encoding. */
  function Encode(b: seq<byte>): string {
    EncodeData(b) + Padding(|b|)
  }

  lemma {:induction false} EncodeDataLength(b: seq<byte>)
    ensures |EncodeData(b)| == 4 * (|b| / 3) + (if |b| % 3 == 0 then 0 else |b| % 3 + 1)
    decreases |b|
  {
    if |b| >= 3 {
      EncodeDataLength(b[3..]);
      assert |b[3..]| / 3 == |b| / 3 - 1 && |b[3..]| % 3 == |b| % 3;
    }
  }

  /** Four characters per three bytes, rounded up: 16 bytes give 24
      characters, 24 give 32 and 32 give 44; every character is ASCII. */
  lemma EncodeLength(b: seq<byte>)
    ensures |Encode(b)| == 4 * ((|b| + 2) / 3)
    ensures forall i :: 0 <= i < |Encode(b)| ==> (Encode(b)[i] as int) < 128
  {
    EncodeDataLength(b);
    var n := |b|;
    var k := n / 3;
    assert n == 3 * k + n % 3;
    if n % 3 == 0 {
      assert (n + 2) / 3 == k;
    } else if n % 3 == 1 {
      assert (n + 2) / 3 == k + 1;
    } else {
      assert (n + 2) / 3 == k + 1;
    }
  }

  /** The three bytes of a complete group of four characters. */
  function DecodeGroup(s: string): (t: seq<byte>)
    requires |s| == 4 && forall i :: 0 <= i < 4 ==> IsDecodable(s[i])
    ensures |t| == 3
  {
    var v0, v1, v2, v3 := ValueOf(s[0]), ValueOf(s[1]), ValueOf(s[2]), ValueOf(s[3]);
    [v0 * 4 + v1 / 16, v1 % 16 * 16 + v2 / 4, v2 % 4 * 64 + v3]
  }

  /** The bytes of the unpadded characters `s`; a dangling single character
      carries fewer than 8 bits and yields nothing, and a final pair or triple
      yields the first one or two bytes of a group. */
  function DecodeData(s: string): (b: seq<byte>)
    requires forall i :: 0 <= i < |s| ==> IsDecodable(s[i])
  {
    if |s| < 2 then []
    else if |s| < 4 then DecodeGroup(s + "AAAA"[..4 - |s|])[..|s| - 1]
    else DecodeGroup(s[..4]) + DecodeData(s[4..])
  }

  /** The index of the first `=`, or the length when there is none. */
  function PadStart(s: string): (i: nat)
    ensures i <= |s|
    ensures forall j :: 0 <= j < i ==> s[j] != '='
    ensures i < |s| ==> s[i] == '='
  {
    if |s| == 0 then 0
    else if s[0] == '=' then 0
    else 1 + PadStart(s[1..])
  }

  /** `java.util.Base64.getDecoder().decode(s)`. */
  function DecodeStrict(s: string): Result<seq<byte>> {
    var i := PadStart(s);
    var data := s[..i];
    if exists j :: 0 <= j < i && !IsStdChar(s[j]) then Err(IllegalArgument)
    else if i % 4 == 1 then Err(IllegalArgument)
    else if i == |s| then Ok(DecodeData(data))
    else if i % 4 == 2 && s[i..] == "==" then Ok(DecodeData(data))
    else if i % 4 == 3 && s[i..] == "=" then Ok(DecodeData(data))
    else Err(IllegalArgument)
  }

  /** The alphabet characters of `s`, in order. */
  function KeepDecodable(s: string): (r: string)
    ensures forall i :: 0 <= i < |r| ==> IsDecodable(r[i])
  {
    if |s| == 0 then ""
    else (if IsDecodable(s[0]) then [s[0]] else []) + KeepDecodable(s[1..])
  }

  /** `org.apache.commons.codec.binary.Base64.decodeBase64(s)`; never fails. */
  function DecodeLenient(s: string): seq<byte> {
    DecodeData(KeepDecodable(s[..PadStart(s)]))
  }

  /** Splitting three bytes into four 6-bit values and joining them back
      gives the bytes again. */
  lemma DecodeEncodeGroup(x: byte, y: byte, z: byte)
    ensures DecodeGroup(EncodeGroup(x, y, z)) == [x, y, z]
  {
    ValueOfCharOf(x / 4);
    ValueOfCharOf(x % 4 * 16 + y / 16);
    ValueOfCharOf(y % 16 * 4 + z / 64);
    ValueOfCharOf(z % 64);
    assert (x % 4 * 16 + y / 16) / 16 == x % 4;
    assert (x % 4 * 16 + y / 16) % 16 == y / 16;
    assert (y % 16 * 4 + z / 64) / 4 == y % 16;
    assert (y % 16 * 4 + z / 64) % 4 == z / 64;
  }

  /** A final pair or triple decodes as the group it starts: the characters
      that are missing only contribute bits below the last whole byte. */
  lemma DecodeEncodePartial(x: byte, y: byte, n: nat)
    requires n == 2 || n == 3
    ensures var q := EncodeGroup(x, y, 0)[..n];
      DecodeData(q) == [x, y][..n - 1]
  {
    var q := EncodeGroup(x, y, 0);
    DecodeEncodeGroup(x, y, 0);
    var padded := q[..n] + "AAAA"[..4 - n];
    ValueOfCharOf(0);
    assert padded[..n] == q[..n];
    assert ValueOf(padded[3]) == ValueOf(q[3]) == 0;
    assert n == 2 ==> ValueOf(padded[2]) / 4 == 0 && ValueOf(q[2]) / 4 == y % 16;
  }

  /** Decoding a complete group followed by more characters. */
  lemma DecodeDataGroup(q: string, rest: string)
    requires |q| == 4
    requires forall i :: 0 <= i < |q| ==> IsDecodable(q[i])
    requires forall i :: 0 <= i < |rest| ==> IsDecodable(rest[i])
    ensures DecodeData(q + rest) == DecodeGroup(q) + DecodeData(rest)
  {
    var s := q + rest;
    assert s[..4] == q;
    assert s[4..] == rest;
  }

  /** One or two bytes encode to two or three characters that decode back. */
  lemma DecodeEncodeShort(b: seq<byte>)
    requires 0 < |b| < 3
    ensures DecodeData(EncodeData(b)) == b
  {
    var y := if |b| == 2 then b[1] else 0;
    var q := EncodeGroup(b[0], y, 0)[..|b| + 1];
    assert EncodeData(b) == q;
    DecodeEncodePartial(b[0], y, |b| + 1);
    assert DecodeData(q) == [b[0], y][..|b|];
    assert [b[0], y][..|b|] == b;
  }

  lemma {:induction false} DecodeEncodeData(b: seq<byte>)
    ensures DecodeData(EncodeData(b)) == b
    decreases |b|
  {
    if |b| == 0 {
    } else if |b| < 3 {
      DecodeEncodeShort(b);
    } else {
      var q, rest := EncodeGroup(b[0], b[1], b[2]), EncodeData(b[3..]);
      assert EncodeData(b) == q + rest;
      DecodeDataGroup(q, rest);
      DecodeEncodeGroup(b[0], b[1], b[2]);
      DecodeEncodeData(b[3..]);
      assert b == [b[0], b[1], b[2]] + b[3..];
    }
  }

  lemma {:induction false} PadStartAppend(d: string, p: string)
    requires forall i :: 0 <= i < |d| ==> d[i] != '='
    requires |p| == 0 || p[0] == '='
    ensures PadStart(d + p) == |d|
    decreases |d|
  {
    if |d| > 0 {
      assert (d + p)[1..] == d[1..] + p;
      PadStartAppend(d[1..], p);
    }
  }

  lemma PadStartOfEncoding(b: seq<byte>)
    ensures PadStart(Encode(b)) == |EncodeData(b)|
  {
    PadStartAppend(EncodeData(b), Padding(|b|));
  }

  lemma ModFour(k: nat, r: nat)
    requires r < 4
    ensures (4 * k + r) % 4 == r
  {
  }

  /** The strict decoder inverts the encoder. */
  lemma DecodeStrictEncode(b: seq<byte>)
    ensures DecodeStrict(Encode(b)) == Ok(b)
  {
    var s, d := Encode(b), EncodeData(b);
    var i := |d|;
    PadStartOfEncoding(b);
    EncodeDataLength(b);
    var r := if |b| % 3 == 0 then 0 else |b| % 3 + 1;
    ModFour(|b| / 3, r);
    assert s[..i] == d;
    assert s[i..] == Padding(|b|);
    assert forall j :: 0 <= j < i ==> IsStdChar(s[j]) by {
      forall j | 0 <= j < i ensures IsStdChar(s[j]) {
        assert s[j] == d[j];
      }
    }
    DecodeEncodeData(b);
  }

  lemma {:induction false} KeepDecodableOfAlphabet(s: string)
    requires forall i :: 0 <= i < |s| ==> IsDecodable(s[i])
    ensures KeepDecodable(s) == s
    decreases |s|
  {
    if |s| > 0 {
      KeepDecodableOfAlphabet(s[1..]);
    }
  }

  /** The lenient decoder inverts the encoder too. */
  lemma DecodeLenientEncode(b: seq<byte>)
    ensures DecodeLenient(Encode(b)) == b
  {
    var s, d := Encode(b), EncodeData(b);
    PadStartOfEncoding(b);
    assert s[..|d|] == d;
    KeepDecodableOfAlphabet(d);
    DecodeEncodeData(b);
  }

  /** What the strict decoder refuses: a character outside the standard
      alphabet before the padding, or a lone character after the last group. */
  lemma DecodeStrictRejects(s: string)
    requires (exists j :: 0 <= j < PadStart(s) && !IsStdChar(s[j])) || PadStart(s) % 4 == 1
    ensures DecodeStrict(s).Err?
  {
  }
}

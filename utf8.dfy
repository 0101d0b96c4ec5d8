/** UTF-8 as `String.getBytes(StandardCharsets.UTF_8)` and
    `new String(bytes, StandardCharsets.UTF_8)` apply it. A string is a
    sequence of Unicode scalar values (Dafny's `char`), so a Java string with
    a lone surrogate has no counterpart here. Decoding never fails: each
    ill-formed part of the input becomes one U+FFFD, the way the JDK's
    decoder replaces it. */
module Utf8 {
  import opened JavaLang

  const Replacement: char := '�'

  predicate IsContinuation(b: byte) {
    0x80 <= b < 0xC0
  }

  /** The one to four bytes that encode `c`. */
  function EncodeChar(c: char): (e: seq<byte>)
    ensures 1 <= |e| <= 4
    ensures |e| == 1 <==> (c as int) < 0x80
  {
    var v := c as int;
    if v < 0x80 then [v]
    else if v < 0x800 then [0xC0 + v / 64, 0x80 + v % 64]
    else if v < 0x10000 then [0xE0 + v / 64 / 64, 0x80 + v / 64 % 64, 0x80 + v % 64]
    else [0xF0 + v / 64 / 64 / 64, 0x80 + v / 64 / 64 % 64, 0x80 + v / 64 % 64, 0x80 + v % 64]
  }

  /** `s.getBytes(StandardCharsets.UTF_8)`. */
  function Encode(s: string): seq<byte> {
    if |s| == 0 then [] else EncodeChar(s[0]) + Encode(s[1..])
  }

  /** The character at the start of `b` and how many bytes it takes; an
      ill-formed start yields U+FFFD for its longest prefix that could still
      begin a well-formed sequence (at least one byte). */
  function DecodeOne(b: seq<byte>): (r: (char, nat))
    requires |b| > 0
    ensures 1 <= r.1 <= |b|
  {
    var b0: int := b[0];
    if b0 < 0x80 then (b0 as char, 1)
    else if 0xC2 <= b0 < 0xE0 then
      if |b| >= 2 && IsContinuation(b[1]) then (((b0 - 0xC0) * 64 + (b[1] as int - 0x80)) as char, 2)
      else (Replacement, 1)
    else if 0xE0 <= b0 < 0xF0 then
      var lo := if b0 == 0xE0 then 0xA0 else 0x80;
      if |b| >= 2 && lo <= b[1] < 0xC0 then
        if |b| >= 3 && IsContinuation(b[2]) then
          var v := ((b0 - 0xE0) * 64 + (b[1] as int - 0x80)) * 64 + (b[2] as int - 0x80);
          if 0xD800 <= v < 0xE000 then (Replacement, 3)  // an encoded surrogate
          else (v as char, 3)
        else (Replacement, 2)
      else (Replacement, 1)
    else if 0xF0 <= b0 < 0xF5 then
      var lo := if b0 == 0xF0 then 0x90 else 0x80;
      var hi := if b0 == 0xF4 then 0x90 else 0xC0;
      if |b| >= 2 && lo <= b[1] < hi then
        if |b| >= 3 && IsContinuation(b[2]) then
          if |b| >= 4 && IsContinuation(b[3]) then
            var v := (((b0 - 0xF0) * 64 + (b[1] as int - 0x80)) * 64 + (b[2] as int - 0x80)) * 64 + (b[3] as int - 0x80);
            (v as char, 4)
          else (Replacement, 3)
        else (Replacement, 2)
      else (Replacement, 1)
    else (Replacement, 1)
  }

  /** `new String(b, StandardCharsets.UTF_8)`. */
  function Decode(b: seq<byte>): string
    decreases |b|
  {
    if |b| == 0 then ""
    else
      var r := DecodeOne(b);
      [r.0] + Decode(b[r.1..])
  }

  /** A well-formed encoding of `c` is read back as `c`, whatever follows. */
  lemma DecodeOneEncodeChar(c: char, rest: seq<byte>)
    ensures DecodeOne(EncodeChar(c) + rest) == (c, |EncodeChar(c)|)
  {
    var v := c as int;
    if v < 0x80 {
    } else if v < 0x800 {
      DecodeOneTwo(v, rest);
    } else if v < 0x10000 {
      DecodeOneThree(v, rest);
    } else {
      DecodeOneFour(v, rest);
    }
  }

  lemma DecodeOneTwo(v: int, rest: seq<byte>)
    requires 0x80 <= v < 0x800
    ensures DecodeOne([0xC0 + v / 64, 0x80 + v % 64] + rest) == (v as char, 2)
  {
    var b := [0xC0 + v / 64, 0x80 + v % 64] + rest;
    assert b[0] == 0xC0 + v / 64 && b[1] == 0x80 + v % 64;
  }

  lemma DecodeOneThree(v: int, rest: seq<byte>)
    requires 0x800 <= v < 0x10000 && !(0xD800 <= v < 0xE000)
    ensures DecodeOne([0xE0 + v / 64 / 64, 0x80 + v / 64 % 64, 0x80 + v % 64] + rest) == (v as char, 3)
  {
    var b := [0xE0 + v / 64 / 64, 0x80 + v / 64 % 64, 0x80 + v % 64] + rest;
    assert b[0] == 0xE0 + v / 64 / 64 && b[1] == 0x80 + v / 64 % 64 && b[2] == 0x80 + v % 64;
    var w1 := v / 64;
    assert v == w1 * 64 + v % 64 && w1 == w1 / 64 * 64 + w1 % 64;
  }

  lemma DecodeOneFour(v: int, rest: seq<byte>)
    requires 0x10000 <= v < 0x110000
    ensures DecodeOne([0xF0 + v / 64 / 64 / 64, 0x80 + v / 64 / 64 % 64, 0x80 + v / 64 % 64, 0x80 + v % 64] + rest) == (v as char, 4)
  {
    var b := [0xF0 + v / 64 / 64 / 64, 0x80 + v / 64 / 64 % 64, 0x80 + v / 64 % 64, 0x80 + v % 64] + rest;
    assert b[0] == 0xF0 + v / 64 / 64 / 64 && b[1] == 0x80 + v / 64 / 64 % 64;
    assert b[2] == 0x80 + v / 64 % 64 && b[3] == 0x80 + v % 64;
    var w1 := v / 64;
    var w2 := w1 / 64;
    assert v == w1 * 64 + v % 64 && w1 == w2 * 64 + w1 % 64 && w2 == w2 / 64 * 64 + w2 % 64;
  }

  /** Decoding inverts encoding: a string survives the UTF-8 round trip. */
  lemma {:induction false} DecodeEncode(s: string)
    ensures Decode(Encode(s)) == s
  {
    if |s| > 0 {
      var e, rest := EncodeChar(s[0]), Encode(s[1..]);
      DecodeOneEncodeChar(s[0], rest);
      assert (e + rest)[|e|..] == rest;
      DecodeEncode(s[1..]);
    }
  }

  /** The encoding of an ASCII string is its characters' codes, one byte each. */
  lemma {:induction false} EncodeAscii(s: string)
    requires forall i :: 0 <= i < |s| ==> (s[i] as int) < 0x80
    ensures |Encode(s)| == |s|
    ensures forall i :: 0 <= i < |s| ==> Encode(s)[i] == s[i] as int
  {
    if |s| > 0 {
      EncodeAscii(s[1..]);
    }
  }

  /** A string with a character outside ASCII takes more bytes than it has
      characters. */
  lemma {:induction false} EncodeNonAsciiLonger(s: string, k: nat)
    requires k < |s| && (s[k] as int) >= 0x80
    ensures |Encode(s)| > |s|
  {
    EncodeLengthAtLeast(s);
    if k == 0 {
      EncodeLengthAtLeast(s[1..]);
    } else {
      EncodeNonAsciiLonger(s[1..], k - 1);
    }
  }

  lemma {:induction false} EncodeLengthAtLeast(s: string)
    ensures |Encode(s)| >= |s|
  {
    if |s| > 0 {
      EncodeLengthAtLeast(s[1..]);
    }
  }
}

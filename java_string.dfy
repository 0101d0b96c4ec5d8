/** The parts of `java.lang.String` and of `java.util.regex` that the
    library's string code relies on, restricted to ASCII where case is
    concerned: case mapping, `equalsIgnoreCase`, `trim`, the regex classes
    `\s` and `\w`, and `split` on a pattern of the form `[class]+`. */
module JavaString {
  import opened Sequences

  function LowerChar(c: char): (l: char)
    ensures !('A' <= l <= 'Z')
  {
    if 'A' <= c <= 'Z' then (c as int + 32) as char else c
  }

  function UpperChar(c: char): (u: char)
    ensures !('a' <= u <= 'z')
  {
    if 'a' <= c <= 'z' then (c as int - 32) as char else c
  }

  /** `String.toLowerCase` restricted to ASCII letters. */
  function Lower(s: string): (r: string)
    ensures |r| == |s|
    ensures forall i :: 0 <= i < |s| ==> r[i] == LowerChar(s[i])
  {
    seq(|s|, i requires 0 <= i < |s| => LowerChar(s[i]))
  }

  /** Lower-casing works character by character from the front. */
  lemma LowerCons(c: char, s: string)
    ensures Lower([c] + s) == [LowerChar(c)] + Lower(s)
  {
    var l, r := Lower([c] + s), [LowerChar(c)] + Lower(s);
    assert forall i :: 0 < i < |l| ==> l[i] == LowerChar(s[i - 1]) == r[i];
  }

  /** `String.equalsIgnoreCase` for ASCII text. */
  predicate EqualsIgnoreCase(a: string, b: string) {
    Lower(a) == Lower(b)
  }

  predicate IsUpper(c: char) {
    'A' <= c <= 'Z'
  }

  predicate IsLower(c: char) {
    'a' <= c <= 'z'
  }

  predicate IsDigit(c: char) {
    '0' <= c <= '9'
  }

  /** The regex class `\s`: space, tab, newline, vertical tab, form feed and
      carriage return. */
  predicate IsSpace(c: char) {
    c == ' ' || c == '\t' || c == '\n' || c == '\U{000B}' || c == '\U{000C}' || c == '\r'
  }

  /** The regex class `\w`: `[a-zA-Z0-9_]`. */
  predicate IsWordChar(c: char) {
    IsUpper(c) || IsLower(c) || IsDigit(c) || c == '_'
  }

  predicate IsNotWordChar(c: char) {
    !IsWordChar(c)
  }

  /** `trim` treats every character up to U+0020 as blank. */
  predicate IsBlank(c: char) {
    c <= ' '
  }

  /** Every `\s` character is blank in the sense of `trim`. */
  lemma SpaceIsBlank(c: char)
    ensures IsSpace(c) ==> IsBlank(c)
  {
  }

  /** The number of blank characters at the start of `s`. */
  function LeadingBlanks(s: string): (n: nat)
    ensures n <= |s|
    ensures forall i :: 0 <= i < n ==> IsBlank(s[i])
    ensures n < |s| ==> !IsBlank(s[n])
  {
    if |s| == 0 || !IsBlank(s[0]) then 0 else 1 + LeadingBlanks(s[1..])
  }

  /** The number of blank characters at the end of `s`. */
  function TrailingBlanks(s: string): (n: nat)
    ensures n <= |s|
    ensures forall i :: |s| - n <= i < |s| ==> IsBlank(s[i])
    ensures n < |s| ==> !IsBlank(s[|s| - 1 - n])
  {
    if |s| == 0 || !IsBlank(s[|s| - 1]) then 0 else 1 + TrailingBlanks(s[..|s| - 1])
  }

  /** `String.trim`: `s` without its leading and trailing blanks. The result
      is a slice of `s`; it is empty exactly when `s` is all blanks, and
      otherwise starts and ends with a character that is not blank. */
  function Trim(s: string): (r: string)
    ensures |r| == 0 <==> forall i :: 0 <= i < |s| ==> IsBlank(s[i])
    ensures |r| > 0 ==> !IsBlank(r[0]) && !IsBlank(r[|r| - 1])
    ensures |r| > 0 ==> r == s[LeadingBlanks(s)..|s| - TrailingBlanks(s)]
  {
    var a := LeadingBlanks(s);
    if a == |s| then ""
    else
      var b := TrailingBlanks(s);
      assert !IsBlank(s[a]);
      s[a..|s| - b]
  }

  /** A text that neither starts nor ends with a blank is its own trim. */
  lemma TrimFixed(t: string)
    requires |t| > 0 ==> !IsBlank(t[0]) && !IsBlank(t[|t| - 1])
    ensures Trim(t) == t
  {
    if |t| > 0 {
      assert LeadingBlanks(t) == 0 && TrailingBlanks(t) == 0;
      assert t[0..|t|] == t;
    }
  }

  /** The index of the first character of `s` in the class `sep`, or `|s|`. */
  function FirstIn(s: string, sep: char -> bool): (i: nat)
    ensures i <= |s|
    ensures i < |s| ==> sep(s[i])
  {
    if |s| == 0 || sep(s[0]) then 0 else 1 + FirstIn(s[1..], sep)
  }

  /** No character before `FirstIn(s, sep)` is in `sep`. */
  lemma {:induction false} FirstInFirst(s: string, sep: char -> bool)
    ensures forall k :: 0 <= k < FirstIn(s, sep) ==> !sep(s[k])
  {
    if |s| > 0 && !sep(s[0]) {
      FirstInFirst(s[1..], sep);
      assert forall k :: 0 < k < FirstIn(s, sep) ==> s[k] == s[1..][k - 1];
    }
  }

  /** `s` split at every maximal run of characters in `sep`, keeping the
      field before the first run and the field after the last one even when
      they are empty. */
  function Fields(s: string, sep: char -> bool): (r: seq<string>)
    ensures |r| > 0
    decreases |s|
  {
    if FirstIn(s, sep) == |s| then [s]
    else [s[..FirstIn(s, sep)]] + Fields(AfterRun(s, sep), sep)
  }

  /** What follows the first maximal run of `sep` characters in `s`. */
  function AfterRun(s: string, sep: char -> bool): (t: string)
    requires FirstIn(s, sep) < |s|
    ensures |t| < |s|
  {
    var i := FirstIn(s, sep);
    s[i + LeadingIn(s[i..], sep)..]
  }

  /** The number of characters of `sep` at the start of `s`. */
  function LeadingIn(s: string, sep: char -> bool): (n: nat)
    ensures n <= |s|
    ensures n < |s| ==> !sep(s[n])
    ensures |s| > 0 && sep(s[0]) ==> n > 0
  {
    if |s| == 0 || !sep(s[0]) then 0 else 1 + LeadingIn(s[1..], sep)
  }

  /** Every character before `LeadingIn(s, sep)` is in `sep`. */
  lemma {:induction false} LeadingInRun(s: string, sep: char -> bool)
    ensures forall k :: 0 <= k < LeadingIn(s, sep) ==> sep(s[k])
  {
    if |s| > 0 && sep(s[0]) {
      LeadingInRun(s[1..], sep);
      assert forall k :: 0 < k < LeadingIn(s, sep) ==> s[k] == s[1..][k - 1];
    }
  }

  /** `ts` without its trailing empty strings. */
  function DropTrailingEmpty(ts: seq<string>): (r: seq<string>)
    ensures |r| <= |ts| && r == ts[..|r|]
    ensures |r| > 0 ==> r[|r| - 1] != ""
    ensures forall k :: |r| <= k < |ts| ==> ts[k] == ""
  {
    if |ts| > 0 && ts[|ts| - 1] == "" then DropTrailingEmpty(ts[..|ts| - 1]) else ts
  }

  /** `s.split(regex)` for a regex `[sep]+`: the input itself when nothing
      matches; otherwise the fields between matches, with an empty leading
      field when `s` starts with a match and trailing empty fields removed. */
  function Split(s: string, sep: char -> bool): seq<string> {
    if FirstIn(s, sep) == |s| then [s] else DropTrailingEmpty(Fields(s, sep))
  }

  /** The number of maximal runs of characters outside `sep` in `s`, counted
      at the character that ends each run. */
  function RunCount(s: string, sep: char -> bool): nat {
    if |s| == 0 then 0
    else if !sep(s[0]) && (|s| == 1 || sep(s[1])) then 1 + RunCount(s[1..], sep)
    else RunCount(s[1..], sep)
  }

  /** The number of non-empty strings in `ts`. */
  function NonEmptyCount(ts: seq<string>): nat {
    if |ts| == 0 then 0 else (if ts[0] == "" then 0 else 1) + NonEmptyCount(ts[1..])
  }
}

/** `com.phosa.StringUtil`: character filters, deduplication, sorting, case
    swapping, palindrome testing, word counting and frequency maps. A Java
    `null` string is `None`. Case is ASCII case. */
module StringUtil {
  import opened JavaLang
  import opened JavaString
  import opened Sequences
  import opened SplitRuns

  /** Each distinct element of `xs` with its number of occurrences. */
  function Frequencies<T(==)>(xs: seq<T>): map<T, nat> {
    map x | x in xs :: Count(xs, x)
  }

  /** The counting loop of `findMostFrequentChar` and `wordFrequency`:
      `frequencyMap.put(x, frequencyMap.getOrDefault(x, 0) + 1)` for each
      element in turn. */
  method Tally<T(==)>(xs: seq<T>) returns (m: map<T, nat>)
    ensures forall x :: x in m <==> x in xs
    ensures forall x :: x in m ==> m[x] == Count(xs, x)
  {
    m := map[];
    var i := 0;
    while i < |xs|
      invariant 0 <= i <= |xs|
      invariant m == Frequencies(xs[..i])
    {
      var x := xs[i];
      var previous := if x in m then m[x] else 0;
      m := m[x := previous + 1];
      assert xs[..i + 1] == xs[..i] + [x];
      forall y
        ensures Count(xs[..i + 1], y) == Count(xs[..i], y) + (if y == x then 1 else 0)
      {
        CountAppend(xs[..i], [x], y);
      }
      i := i + 1;
    }
    assert xs[..i] == xs;
  }

  /** `findMostFrequentChar`: IllegalArgumentException for null or empty
      input; otherwise a character of the input that occurs at least as often
      as every other. The entries are visited in the hash map's order, which
      is left open, and a later entry replaces the current maximum only when
      its count is strictly greater. */
  method FindMostFrequentChar(str: Option<string>) returns (r: Result<char>)
    ensures r.Err? <==> str.None? || |str.value| == 0
    ensures r.Err? ==> r.error == IllegalArgument
    ensures r.Ok? ==> (r.value in str.value &&
      forall i :: 0 <= i < |str.value| ==> Count(str.value, str.value[i]) <= Count(str.value, r.value))
  {
    if str.None? || |str.value| == 0 {
      return Err(IllegalArgument);
    }
    var s := str.value;
    var frequencyMap := Tally(s);
    assert s[0] in frequencyMap;
    var pending := frequencyMap.Keys;
    var best :| best in pending;
    pending := pending - {best};
    while pending != {}
      invariant pending <= frequencyMap.Keys
      invariant best in frequencyMap
      invariant forall c :: c in frequencyMap && c !in pending ==> frequencyMap[c] <= frequencyMap[best]
      decreases |pending|
    {
      var c :| c in pending;
      if frequencyMap[c] > frequencyMap[best] {
        best := c;
      }
      pending := pending - {c};
    }
    assert forall i :: 0 <= i < |s| ==> s[i] in frequencyMap;
    return Ok(best);
  }

  predicate IsVowel(c: char) {
    c in "aeiouAEIOU"
  }

  predicate IsNotVowel(c: char) {
    !IsVowel(c)
  }

  /** `removeVowels`: the input without the characters `[aeiouAEIOU]`;
      `null` for `null`. */
  function RemoveVowels(str: Option<string>): (r: Option<string>)
    ensures r.Some? <==> str.Some?
    ensures r.Some? ==> |r.value| <= |str.value| && forall i :: 0 <= i < |r.value| ==> !IsVowel(r.value[i])
  {
    if str.None? then None else Some(Filter(str.value, IsNotVowel))
  }

  /** Every vowel is gone, every other character keeps its number of
      occurrences, and the survivors keep their order. */
  lemma RemoveVowelsKeepsOthers(s: string, c: char)
    ensures var r := RemoveVowels(Some(s)).value;
      Count(r, c) == (if IsVowel(c) then 0 else Count(s, c)) && IsSubsequence(r, s)
  {
    FilterCount(s, IsNotVowel, c);
    FilterIsSubsequence(s, IsNotVowel);
  }

  lemma RemoveVowelsIdempotent(str: Option<string>)
    ensures RemoveVowels(RemoveVowels(str)) == RemoveVowels(str)
  {
    if str.Some? {
      FilterIdempotent(str.value, IsNotVowel);
    }
  }

  /** The characters `[aeiouAEIOU]` are the only ones removed: a string
      without them is returned unchanged. */
  lemma RemoveVowelsWithoutVowels(s: string)
    requires forall i :: 0 <= i < |s| ==> !IsVowel(s[i])
    ensures RemoveVowels(Some(s)) == Some(s)
  {
    FilterKeepsAll(s, IsNotVowel);
  }

  /** `[a-zA-Z0-9]`. */
  predicate IsAsciiAlnum(c: char) {
    IsUpper(c) || IsLower(c) || IsDigit(c)
  }

  /** The text `isPalindrome` compares: the ASCII letters and digits of `s`,
      lower-cased. */
  function Cleaned(s: string): string {
    Lower(Filter(s, IsAsciiAlnum))
  }

  /** `isPalindrome`: false for `null`; otherwise whether the cleaned text
      reads the same from both ends. */
  function IsPalindrome(str: Option<string>): (b: bool)
    ensures str.None? ==> !b
    ensures str.Some? ==> (b <==> var c := Cleaned(str.value);
      forall i :: 0 <= i < |c| ==> c[i] == c[|c| - 1 - i])
  {
    str.Some? && Cleaned(str.value) == Reverse(Cleaned(str.value))
  }

  /** A text without letters or digits is a palindrome. */
  lemma IsPalindromeWithoutAlnum(s: string)
    requires forall i :: 0 <= i < |s| ==> !IsAsciiAlnum(s[i])
    ensures IsPalindrome(Some(s))
  {
  }

  /** Reversing the input does not change the answer. */
  lemma IsPalindromeReverse(s: string)
    ensures IsPalindrome(Some(Reverse(s))) == IsPalindrome(Some(s))
  {
    var c := Cleaned(s);
    FilterReverse(s, IsAsciiAlnum);
    assert Cleaned(Reverse(s)) == Reverse(c);
    ReverseReverse(c);
    if Reverse(c) == Reverse(Reverse(c)) {
      ReverseReverse(Reverse(c));
      assert c == Reverse(c);
    }
  }

  /** Upper- and lower-case letters compare equal. */
  lemma IsPalindromeIgnoresCase(s: string)
    ensures IsPalindrome(Some(Lower(s))) == IsPalindrome(Some(s))
  {
    LowerFilter(s);
    var c := Cleaned(s);
    assert Cleaned(Lower(s)) == Lower(Lower(Filter(s, IsAsciiAlnum)));
    assert Lower(c) == c;
  }

  lemma {:induction false} LowerFilter(s: string)
    ensures Filter(Lower(s), IsAsciiAlnum) == Lower(Filter(s, IsAsciiAlnum))
  {
    if |s| > 0 {
      var c, t := s[0], s[1..];
      assert s == [c] + t;
      LowerCons(c, t);
      var l := Lower(s);
      assert l[0] == LowerChar(c) && l[1..] == Lower(t);
      assert IsAsciiAlnum(LowerChar(c)) == IsAsciiAlnum(c);
      LowerFilter(t);
      if IsAsciiAlnum(c) {
        LowerCons(c, Filter(t, IsAsciiAlnum));
      }
    }
  }

  /** The tokens `wordFrequency` counts: the lower-cased input split at runs
      of non-word characters. */
  function Words(s: string): seq<string> {
    Split(Lower(s), IsNotWordChar)
  }

  /** `wordFrequency`: an empty map for `null` or empty input; otherwise each
      token with its number of occurrences. */
  method WordFrequency(str: Option<string>) returns (m: map<string, nat>)
    ensures str.None? || |str.value| == 0 ==> m == map[]
    ensures str.Some? && |str.value| > 0 ==>
      (forall w :: w in m <==> w in Words(str.value)) &&
      forall w :: w in m ==> m[w] == Count(Words(str.value), w)
  {
    if str.None? || |str.value| == 0 {
      return map[];
    }
    var words := Split(Lower(str.value), IsNotWordChar);
    m := Tally(words);
  }

  /** Every count is at least one, and the counts of the distinct tokens add
      up to the number of tokens. */
  lemma WordCountsAddUp(s: string)
    ensures forall i :: 0 <= i < |Words(s)| ==> Count(Words(s), Words(s)[i]) >= 1
    ensures SumCounts(Distinct(Words(s)), Words(s)) == |Words(s)|
  {
    var ws := Words(s);
    DistinctFirstOccurrences(ws);
    SumCountsTotal(Distinct(ws), ws);
  }

  /** No token has an upper-case letter. */
  lemma WordsAreLowerCase(s: string)
    ensures forall k, m :: 0 <= k < |Words(s)| && 0 <= m < |Words(s)[k]| ==> !IsUpper(Words(s)[k][m])
  {
    var l := Lower(s);
    FieldsKeep(l, IsNotWordChar, c => !IsUpper(c));
  }

  /** A text that starts with a non-word character and has a word character
      yields the empty string as a token: `split` keeps the empty leading
      field. */
  lemma WordsLeadingEmpty(s: string, i: nat)
    requires |s| > 0 && !IsWordChar(s[0]) && i < |s| && IsWordChar(s[i])
    ensures "" in Words(s)
  {
    var l := Lower(s);
    assert IsNotWordChar(l[0]) && !IsNotWordChar(l[i]);
    LeadingEmptyField(l, IsNotWordChar, i);
  }

  /** `extractDigits`: the digits of the input, `""` for `null`. */
  function ExtractDigits(str: Option<string>): (r: string)
    ensures str.None? ==> r == ""
    ensures str.Some? ==> |r| <= |str.value|
    ensures forall i :: 0 <= i < |r| ==> IsDigit(r[i])
  {
    if str.None? then "" else Filter(str.value, IsDigit)
  }

  /** Every digit keeps its number of occurrences, every other character is
      gone, and the digits keep their order. */
  lemma ExtractDigitsKeepsDigits(s: string, c: char)
    ensures var r := ExtractDigits(Some(s));
      Count(r, c) == (if IsDigit(c) then Count(s, c) else 0) && IsSubsequence(r, s)
  {
    FilterCount(s, IsDigit, c);
    FilterIsSubsequence(s, IsDigit);
  }

  lemma ExtractDigitsIdempotent(str: Option<string>)
    ensures ExtractDigits(Some(ExtractDigits(str))) == ExtractDigits(str)
  {
    if str.Some? {
      FilterIdempotent(str.value, IsDigit);
    } else {
      assert Filter("", IsDigit) == "";
    }
  }

  /** `removeDuplicateChars`: each character at its first occurrence only;
      `null` for `null`. */
  function RemoveDuplicateChars(str: Option<string>): (r: Option<string>)
    ensures r.Some? <==> str.Some?
    ensures r.Some? ==> (forall i :: 0 <= i < |r.value| ==> r.value[i] in str.value)
    ensures r.Some? ==> (forall i :: 0 <= i < |str.value| ==> str.value[i] in r.value)
  {
    if str.None? then None else Some(Distinct(str.value))
  }

  /** No character repeats, and the characters come in the order of their
      first occurrences in the input. */
  lemma RemoveDuplicateCharsFirstOccurrences(s: string)
    ensures var r := RemoveDuplicateChars(Some(s)).value;
      NoDuplicates(r) &&
      forall i, j :: 0 <= i < j < |r| ==> FirstIndex(s, r[i]) < FirstIndex(s, r[j])
  {
    DistinctFirstOccurrences(s);
  }

  lemma RemoveDuplicateCharsIdempotent(str: Option<string>)
    ensures RemoveDuplicateChars(RemoveDuplicateChars(str)) == RemoveDuplicateChars(str)
  {
    if str.Some? {
      DistinctFirstOccurrences(str.value);
      DistinctNoDuplicates(Distinct(str.value));
    }
  }

  /** `Character.toLowerCase`/`toUpperCase` as `reverseCase` applies them. */
  function SwapCase(c: char): (d: char)
    ensures IsUpper(c) ==> IsLower(d) && UpperChar(d) == c
    ensures IsLower(c) ==> IsUpper(d) && LowerChar(d) == c
    ensures !IsUpper(c) && !IsLower(c) ==> d == c
  {
    if IsUpper(c) then LowerChar(c) else if IsLower(c) then UpperChar(c) else c
  }

  /** The text `reverseCase` builds. */
  function SwappedCase(s: string): (r: string)
    ensures |r| == |s|
  {
    if |s| == 0 then "" else [SwapCase(s[0])] + SwappedCase(s[1..])
  }

  /** `reverseCase`: appends each character with its case swapped to a
      `StringBuilder`; `null` for `null`. */
  method ReverseCase(str: Option<string>) returns (r: Option<string>)
    ensures r.Some? <==> str.Some?
    ensures r.Some? ==> r.value == SwappedCase(str.value)
  {
    if str.None? {
      return None;
    }
    var s := str.value;
    var result := "";
    var i := 0;
    while i < |s|
      invariant 0 <= i <= |s|
      invariant result + SwappedCase(s[i..]) == SwappedCase(s)
    {
      assert s[i..][1..] == s[i + 1..];
      result := result + [SwapCase(s[i])];
      i := i + 1;
    }
    return Some(result);
  }

  /** Letters change case, other characters stay, and swapping twice gives
      the input back. */
  lemma {:induction false} SwappedCaseInvolution(s: string)
    ensures forall i :: 0 <= i < |s| ==> SwappedCase(s)[i] == SwapCase(s[i])
    ensures SwappedCase(SwappedCase(s)) == s
  {
    if |s| > 0 {
      SwappedCaseInvolution(s[1..]);
      var r := SwappedCase(s);
      assert r[1..] == SwappedCase(s[1..]);
    }
  }

  /** `countWords`: 0 for `null` or blank input; otherwise the number of
      tokens of the trimmed input split at runs of whitespace. */
  function CountWords(str: Option<string>): (n: int)
    ensures n >= 0
    ensures n == 0 <==> str.None? || forall i :: 0 <= i < |str.value| ==> IsBlank(str.value[i])
  {
    if str.None? || |Trim(str.value)| == 0 then 0
    else
      var t := Trim(str.value);
      SplitOfTrimmed(t, IsSpace);
      RunCountPositive(t, IsSpace, 0);
      |Split(t, IsSpace)|
  }

  /** The count is the number of maximal runs of non-whitespace characters
      in the trimmed input. */
  lemma CountWordsRuns(s: string)
    ensures CountWords(Some(s)) == RunCount(Trim(s), IsSpace)
  {
    var t := Trim(s);
    if |t| > 0 {
      SplitOfTrimmed(t, IsSpace);
    }
  }

  predicate CharLess(a: char, b: char) {
    a < b
  }

  /** `sortCharacters`: the characters in ascending order; `null` for
      `null`. */
  function SortCharacters(str: Option<string>): (r: Option<string>)
    ensures r.Some? <==> str.Some?
    ensures r.Some? ==> multiset(r.value) == multiset(str.value)
  {
    if str.None? then None else Some(SortBy(str.value, CharLess))
  }

  /** The result is ascending and a permutation of the input. */
  lemma SortCharactersSorted(s: string)
    ensures var r := SortCharacters(Some(s)).value;
      (forall i :: 0 < i < |r| ==> r[i - 1] <= r[i]) && multiset(r) == multiset(s)
  {
    SortBySorted(s, CharLess);
  }

  /** `s.replaceAll("\\s+", " ")`: every maximal run of whitespace becomes a
      single space. */
  function Collapse(s: string): (r: string)
    ensures |r| == 0 <==> |s| == 0
    ensures |s| > 0 ==> r[0] == if IsSpace(s[0]) then ' ' else s[0]
    ensures forall i :: 0 <= i < |r| && IsSpace(r[i]) ==> r[i] == ' '
    ensures forall i :: 0 < i < |r| && IsSpace(r[i]) ==> !IsSpace(r[i - 1])
    decreases |s|
  {
    if |s| == 0 then ""
    else if IsSpace(s[0]) then " " + Collapse(s[LeadingIn(s, IsSpace)..])
    else [s[0]] + Collapse(s[1..])
  }

  /** `compressSpaces`: whitespace runs collapsed to one space, then
      trimmed; `null` for `null`. */
  function CompressSpaces(str: Option<string>): (r: Option<string>)
    ensures r.Some? <==> str.Some?
  {
    if str.None? then None else Some(Trim(Collapse(str.value)))
  }

  /** The result has no two adjacent whitespace characters, its only
      whitespace is the plain space, and it neither starts nor ends with a
      blank. */
  lemma CompressSpacesShape(s: string)
    ensures var r := CompressSpaces(Some(s)).value;
      (forall i :: 0 < i < |r| ==> !(IsSpace(r[i]) && IsSpace(r[i - 1]))) &&
      (forall i :: 0 <= i < |r| && IsSpace(r[i]) ==> r[i] == ' ') &&
      (|r| > 0 ==> !IsBlank(r[0]) && !IsBlank(r[|r| - 1]))
  {
    var c := Collapse(s);
    var r := Trim(c);
    if |r| > 0 {
      var a := LeadingBlanks(c);
      forall i | 0 <= i < |r| ensures r[i] == c[a + i] {
      }
    }
  }

  /** A text whose whitespace is single plain spaces is left alone by
      `replaceAll("\\s+", " ")`. */
  lemma {:induction false} CollapseFixed(t: string)
    requires forall i :: 0 <= i < |t| && IsSpace(t[i]) ==> t[i] == ' '
    requires forall i :: 0 < i < |t| ==> !(IsSpace(t[i]) && IsSpace(t[i - 1]))
    ensures Collapse(t) == t
  {
    if |t| > 0 {
      CollapseFixed(t[1..]);
      if IsSpace(t[0]) {
        assert LeadingIn(t, IsSpace) == 1;
      }
    }
  }

  lemma CompressSpacesIdempotent(str: Option<string>)
    ensures CompressSpaces(CompressSpaces(str)) == CompressSpaces(str)
  {
    if str.Some? {
      var r := CompressSpaces(str).value;
      CompressSpacesShape(str.value);
      CollapseFixed(r);
      TrimFixed(r);
    }
  }
}

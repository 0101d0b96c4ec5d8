/** Facts about `split` on a pattern `[class]+`: how its fields line up
    with the maximal runs of characters outside the class. */
module SplitRuns {
  import opened JavaString

  /** One step of `Fields`: the field before the first run, then the fields
      of what follows that run. */
  lemma FieldsStep(s: string, sep: char -> bool, i: nat, j: nat)
    requires i == FirstIn(s, sep) < |s| && j == i + LeadingIn(s[i..], sep)
    ensures s[j..] == AfterRun(s, sep)
    ensures Fields(s, sep) == [s[..i]] + Fields(s[j..], sep)
  {
  }

  /** Every character of every field is a character of `s` outside `sep`:
      whatever holds of all characters of `s` holds of those of the fields. */
  lemma {:induction false} FieldsKeep(s: string, sep: char -> bool, q: char -> bool)
    requires forall m :: 0 <= m < |s| ==> q(s[m])
    ensures forall k, m :: 0 <= k < |Fields(s, sep)| && 0 <= m < |Fields(s, sep)[k]| ==>
      q(Fields(s, sep)[k][m]) && !sep(Fields(s, sep)[k][m])
    decreases |s|
  {
    var i := FirstIn(s, sep);
    FirstInFirst(s, sep);
    if i < |s| {
      var j := i + LeadingIn(s[i..], sep);
      var rest := s[j..];
      var f, g := Fields(s, sep), Fields(rest, sep);
      FieldsStep(s, sep, i, j);
      assert forall m :: 0 <= m < |rest| ==> rest[m] == s[j + m];
      FieldsKeep(rest, sep, q);
      forall k, m | 0 <= k < |f| && 0 <= m < |f[k]|
        ensures q(f[k][m]) && !sep(f[k][m])
      {
        if k > 0 {
          assert f[k] == g[k - 1];
        } else {
          assert f[k][m] == s[m];
        }
      }
    }
  }

  /** Runs end inside `a` exactly as they do in `a + b` when `b` is empty or
      starts with a separator. */
  lemma {:induction false} RunCountAppend(a: string, b: string, sep: char -> bool)
    requires |b| == 0 || sep(b[0])
    ensures RunCount(a + b, sep) == RunCount(a, sep) + RunCount(b, sep)
  {
    if |a| > 0 {
      assert (a + b)[1..] == a[1..] + b;
      RunCountAppend(a[1..], b, sep);
    } else {
      assert a + b == b;
    }
  }

  /** Separators in front of `b` end no run. */
  lemma {:induction false} RunCountSkip(p: string, b: string, sep: char -> bool)
    requires forall k :: 0 <= k < |p| ==> sep(p[k])
    ensures RunCount(p + b, sep) == RunCount(b, sep)
  {
    if |p| > 0 {
      assert (p + b)[1..] == p[1..] + b;
      RunCountSkip(p[1..], b, sep);
    } else {
      assert p + b == b;
    }
  }

  /** A non-empty string without separators is one run. */
  lemma {:induction false} RunCountWord(w: string, sep: char -> bool)
    requires |w| > 0 && forall k :: 0 <= k < |w| ==> !sep(w[k])
    ensures RunCount(w, sep) == 1
  {
    if |w| > 1 {
      RunCountWord(w[1..], sep);
    }
  }

  /** A leading run of separators ends no run. */
  lemma SkipRun(t: string, sep: char -> bool)
    ensures RunCount(t, sep) == RunCount(t[LeadingIn(t, sep)..], sep)
  {
    var n := LeadingIn(t, sep);
    LeadingInRun(t, sep);
    assert t == t[..n] + t[n..];
    RunCountSkip(t[..n], t[n..], sep);
  }

  /** The run before the first separator, if any, ends before it. */
  lemma FirstRun(s: string, sep: char -> bool, i: nat)
    requires i == FirstIn(s, sep) < |s|
    ensures RunCount(s, sep) == (if i > 0 then 1 else 0) + RunCount(s[i..], sep)
  {
    FirstInFirst(s, sep);
    assert s == s[..i] + s[i..];
    RunCountAppend(s[..i], s[i..], sep);
    if i > 0 {
      RunCountWord(s[..i], sep);
    }
  }

  /** The runs of `s`: the one before its first separator, if any, then
      those after the first run of separators. */
  lemma RunCountStep(s: string, sep: char -> bool, i: nat, j: nat)
    requires i == FirstIn(s, sep) < |s| && j == i + LeadingIn(s[i..], sep)
    ensures RunCount(s, sep) == (if i > 0 then 1 else 0) + RunCount(s[j..], sep)
  {
    FirstRun(s, sep, i);
    SkipRun(s[i..], sep);
    assert s[i..][j - i..] == s[j..];
  }

  /** The non-empty fields are the runs. */
  lemma {:induction false} FieldsAreRuns(s: string, sep: char -> bool)
    ensures NonEmptyCount(Fields(s, sep)) == RunCount(s, sep)
    decreases |s|
  {
    var i := FirstIn(s, sep);
    if i == |s| {
      if |s| > 0 {
        FirstInFirst(s, sep);
        RunCountWord(s, sep);
      }
    } else {
      var j := i + LeadingIn(s[i..], sep);
      var rest := s[j..];
      FieldsAreRuns(rest, sep);
      var head, g := s[..i], Fields(rest, sep);
      FieldsStep(s, sep, i, j);
      assert ([head] + g)[1..] == g;
      RunCountStep(s, sep, i, j);
    }
  }

  /** A field that is neither the first nor the last is never empty: it lies
      between two maximal runs of separators. */
  lemma {:induction false} InnerFieldsNonEmpty(s: string, sep: char -> bool)
    ensures forall k :: 0 < k < |Fields(s, sep)| - 1 ==> Fields(s, sep)[k] != ""
    decreases |s|
  {
    var i := FirstIn(s, sep);
    if i < |s| {
      var j := i + LeadingIn(s[i..], sep);
      var rest := s[j..];
      var f, g := Fields(s, sep), Fields(rest, sep);
      FieldsStep(s, sep, i, j);
      InnerFieldsNonEmpty(rest, sep);
      forall k | 0 < k < |f| - 1
        ensures f[k] != ""
      {
        assert f[k] == g[k - 1];
        if k == 1 {
          // `rest` has a separator, so it is not empty and starts outside `sep`.
          assert FirstIn(rest, sep) < |rest|;
          assert !sep(rest[0]);
          FirstField(rest, sep);
        }
      }
    }
  }

  /** The first field is empty exactly when `s` starts with a separator. */
  lemma FirstField(s: string, sep: char -> bool)
    ensures Fields(s, sep)[0] == s[..FirstIn(s, sep)]
  {
  }

  /** The last field is empty exactly when `s` ends with a separator. */
  lemma {:induction false} LastField(s: string, sep: char -> bool)
    ensures var f := Fields(s, sep);
      f[|f| - 1] == "" <==> |s| == 0 || sep(s[|s| - 1])
    decreases |s|
  {
    var i := FirstIn(s, sep);
    FirstInFirst(s, sep);
    if i < |s| {
      var j := i + LeadingIn(s[i..], sep);
      var rest := s[j..];
      var f, g := Fields(s, sep), Fields(rest, sep);
      FieldsStep(s, sep, i, j);
      assert f[|f| - 1] == g[|g| - 1];
      LastField(rest, sep);
      if |rest| > 0 {
        assert rest[|rest| - 1] == s[|s| - 1];
      } else {
        LeadingInRun(s[i..], sep);
        assert s[j - 1] == s[i..][j - 1 - i];
      }
    }
  }

  lemma {:induction false} NonEmptyCountAll(ts: seq<string>)
    requires forall k :: 0 <= k < |ts| ==> ts[k] != ""
    ensures NonEmptyCount(ts) == |ts|
  {
    if |ts| > 0 {
      NonEmptyCountAll(ts[1..]);
    }
  }

  lemma {:induction false} NonEmptyCountWitness(ts: seq<string>) returns (k: nat)
    requires NonEmptyCount(ts) > 0
    ensures k < |ts| && ts[k] != ""
  {
    if ts[0] == "" {
      k := NonEmptyCountWitness(ts[1..]);
      k := k + 1;
    } else {
      k := 0;
    }
  }

  /** A string with a character outside `sep` has a run. */
  lemma {:induction false} RunCountPositive(s: string, sep: char -> bool, i: nat)
    requires i < |s| && !sep(s[i])
    ensures RunCount(s, sep) > 0
  {
    if i == 0 {
      if |s| > 1 && !sep(s[1]) {
        RunCountPositive(s[1..], sep, 0);
      }
    } else {
      RunCountPositive(s[1..], sep, i - 1);
    }
  }

  /** Splitting a string that neither starts nor ends with a separator
      yields exactly its runs, none of them empty. */
  lemma SplitOfTrimmed(t: string, sep: char -> bool)
    requires |t| > 0 && !sep(t[0]) && !sep(t[|t| - 1])
    ensures |Split(t, sep)| == RunCount(t, sep)
    ensures forall k :: 0 <= k < |Split(t, sep)| ==> Split(t, sep)[k] != ""
  {
    if FirstIn(t, sep) == |t| {
      FirstInFirst(t, sep);
      RunCountWord(t, sep);
    } else {
      var f := Fields(t, sep);
      LastField(t, sep);
      InnerFieldsNonEmpty(t, sep);
      FirstField(t, sep);
      assert f[0] != "";
      assert DropTrailingEmpty(f) == f;
      NonEmptyCountAll(f);
      FieldsAreRuns(t, sep);
    }
  }

  /** A string that starts with a separator and has a character outside
      `sep` splits with an empty first field. */
  lemma LeadingEmptyField(s: string, sep: char -> bool, i: nat)
    requires |s| > 0 && sep(s[0]) && i < |s| && !sep(s[i])
    ensures |Split(s, sep)| > 0 && Split(s, sep)[0] == ""
  {
    var f := Fields(s, sep);
    FirstField(s, sep);
    FieldsAreRuns(s, sep);
    RunCountPositive(s, sep, i);
    var k := NonEmptyCountWitness(f);
    var r := DropTrailingEmpty(f);
    assert |r| > k;
    assert r[0] == f[0];
  }
}

/** Sequence vocabulary shared by the string, collection and JSON models:
    occurrence counts, order-preserving filtering, reversal, first-occurrence
    deduplication and a stable insertion sort. */
module Sequences {

  /** Number of occurrences of `x` in `s`. */
  function Count<T(==)>(s: seq<T>, x: T): (n: nat)
    ensures n <= |s|
    ensures n > 0 <==> x in s
  {
    if |s| == 0 then 0 else (if s[0] == x then 1 else 0) + Count(s[1..], x)
  }

  lemma {:induction false} CountAppend<T>(a: seq<T>, b: seq<T>, x: T)
    ensures Count(a + b, x) == Count(a, x) + Count(b, x)
  {
    if |a| == 0 {
      assert a + b == b;
    } else {
      assert (a + b)[1..] == a[1..] + b;
      CountAppend(a[1..], b, x);
    }
  }

  /** `r` occurs in `s` in order, possibly with gaps. */
  predicate IsSubsequence<T(==)>(r: seq<T>, s: seq<T>)
    decreases |s|
  {
    |r| == 0 || (|s| > 0 && if r[0] == s[0] then IsSubsequence(r[1..], s[1..]) else IsSubsequence(r, s[1..]))
  }

  /** The elements of `s` that satisfy `p`, in their order in `s`. */
  function Filter<T>(s: seq<T>, p: T -> bool): (r: seq<T>)
    ensures |r| <= |s|
    ensures forall i :: 0 <= i < |r| ==> r[i] in s && p(r[i])
    ensures forall i :: 0 <= i < |s| && p(s[i]) ==> s[i] in r
  {
    if |s| == 0 then []
    else if p(s[0]) then [s[0]] + Filter(s[1..], p)
    else Filter(s[1..], p)
  }

  /** Filtering keeps every satisfying occurrence and drops every other one. */
  lemma {:induction false} FilterCount<T>(s: seq<T>, p: T -> bool, x: T)
    ensures Count(Filter(s, p), x) == if p(x) then Count(s, x) else 0
  {
    if |s| > 0 {
      FilterCount(s[1..], p, x);
      if p(s[0]) {
        assert ([s[0]] + Filter(s[1..], p))[1..] == Filter(s[1..], p);
      }
    }
  }

  /** `FilterCount` for every value at once. */
  lemma FilterCounts<T>(s: seq<T>, p: T -> bool)
    ensures forall x :: Count(Filter(s, p), x) == if p(x) then Count(s, x) else 0
  {
    forall x {
      FilterCount(s, p, x);
    }
  }

  /** Filtering keeps the order of the elements it keeps. */
  lemma {:induction false} FilterIsSubsequence<T>(s: seq<T>, p: T -> bool)
    ensures IsSubsequence(Filter(s, p), s)
  {
    if |s| > 0 {
      FilterIsSubsequence(s[1..], p);
      var r := Filter(s, p);
      if p(s[0]) {
        assert r[0] == s[0] && r[1..] == Filter(s[1..], p);
      }
    }
  }

  /** Filtering twice by the same predicate is filtering once. */
  lemma {:induction false} FilterIdempotent<T>(s: seq<T>, p: T -> bool)
    ensures Filter(Filter(s, p), p) == Filter(s, p)
  {
    if |s| > 0 {
      FilterIdempotent(s[1..], p);
      if p(s[0]) {
        var r := Filter(s, p);
        assert r[0] == s[0] && r[1..] == Filter(s[1..], p);
      }
    }
  }

  /** A filter that every element passes changes nothing. */
  lemma {:induction false} FilterKeepsAll<T>(s: seq<T>, p: T -> bool)
    requires forall i :: 0 <= i < |s| ==> p(s[i])
    ensures Filter(s, p) == s
  {
    if |s| > 0 {
      FilterKeepsAll(s[1..], p);
    }
  }

  function Reverse<T>(s: seq<T>): (r: seq<T>)
    ensures |r| == |s|
    ensures forall i :: 0 <= i < |s| ==> r[i] == s[|s| - 1 - i]
  {
    if |s| == 0 then [] else Reverse(s[1..]) + [s[0]]
  }

  lemma ReverseReverse<T>(s: seq<T>)
    ensures Reverse(Reverse(s)) == s
  {
    var r := Reverse(Reverse(s));
    assert forall i :: 0 <= i < |s| ==> r[i] == s[i];
  }

  /** The index of the first occurrence of `x` in `s`. */
  function FirstIndex<T(==)>(s: seq<T>, x: T): (i: nat)
    requires x in s
    ensures i < |s| && s[i] == x
    ensures forall j :: 0 <= j < i ==> s[j] != x
  {
    if s[0] == x then 0 else 1 + FirstIndex(s[1..], x)
  }

  lemma FirstIndexPrefix<T>(s: seq<T>, n: nat, x: T)
    requires n <= |s| && x in s[..n]
    ensures FirstIndex(s, x) == FirstIndex(s[..n], x)
  {
    var i, j := FirstIndex(s, x), FirstIndex(s[..n], x);
    assert s[j] == x;
    assert i <= j;
    assert s[..n][i] == x;
  }

  predicate NoDuplicates<T(==)>(s: seq<T>) {
    forall i, j :: 0 <= i < j < |s| ==> s[i] != s[j]
  }

  /** `s` with every element after its first occurrence removed
      (`Stream.distinct` on an ordered stream). */
  function Distinct<T(==)>(s: seq<T>): (r: seq<T>)
    ensures forall i :: 0 <= i < |r| ==> r[i] in s
    ensures forall i :: 0 <= i < |s| ==> s[i] in r
  {
    if |s| == 0 then []
    else
      var d := Distinct(s[..|s| - 1]);
      assert forall i :: 0 <= i < |s| - 1 ==> s[i] == s[..|s| - 1][i];
      if s[|s| - 1] in d then d else d + [s[|s| - 1]]
  }

  /** One step of `Distinct`: the last element is kept exactly when it is
      new. */
  lemma DistinctStep<T>(s: seq<T>)
    requires |s| > 0
    ensures var d := Distinct(s[..|s| - 1]);
      Distinct(s) == if s[|s| - 1] in d then d else d + [s[|s| - 1]]
  {
  }

  /** A last element that `Distinct` has not met before occurs first at the
      end. */
  lemma NewLast<T>(s: seq<T>)
    requires |s| > 0 && s[|s| - 1] !in Distinct(s[..|s| - 1])
    ensures FirstIndex(s, s[|s| - 1]) == |s| - 1
  {
    var n := |s| - 1;
    assert forall i :: 0 <= i < n ==> s[i] == s[..n][i];
  }

  /** Appending an element that first occurs after every element of `d`
      keeps `d` in order of first occurrence. */
  lemma OrderAppend<T>(s: seq<T>, d: seq<T>, x: T)
    requires x in s
    requires forall i :: 0 <= i < |d| ==> d[i] in s && FirstIndex(s, d[i]) < FirstIndex(s, x)
    requires forall i, j :: 0 <= i < j < |d| ==> FirstIndex(s, d[i]) < FirstIndex(s, d[j])
    ensures forall i, j :: 0 <= i < j < |d + [x]| ==> FirstIndex(s, (d + [x])[i]) < FirstIndex(s, (d + [x])[j])
  {
    var r := d + [x];
    forall i, j | 0 <= i < j < |r|
      ensures FirstIndex(s, r[i]) < FirstIndex(s, r[j])
    {
      assert r[i] == d[i];
      if j < |d| {
        assert r[j] == d[j];
      }
    }
  }

  /** Each element appears once, and elements appear in the order of their
      first occurrences in the input. */
  lemma DistinctFirstOccurrences<T>(s: seq<T>)
    ensures NoDuplicates(Distinct(s))
    ensures forall i, j :: 0 <= i < j < |Distinct(s)| ==>
      FirstIndex(s, Distinct(s)[i]) < FirstIndex(s, Distinct(s)[j])
  {
    DistinctInOrder(s);
  }

  lemma {:induction false} DistinctInOrder<T>(s: seq<T>)
    ensures forall i, j :: 0 <= i < j < |Distinct(s)| ==>
      FirstIndex(s, Distinct(s)[i]) < FirstIndex(s, Distinct(s)[j])
  {
    if |s| > 0 {
      var n := |s| - 1;
      var p := s[..n];
      var d := Distinct(p);
      DistinctInOrder(p);
      DistinctStep(s);
      forall i | 0 <= i < |d|
        ensures d[i] in s && FirstIndex(s, d[i]) == FirstIndex(p, d[i]) < n
      {
        FirstIndexPrefix(s, n, d[i]);
      }
      if s[n] !in d {
        NewLast(s);
        OrderAppend(s, d, s[n]);
      }
    }
  }

  /** `x` inserted before the first element of `s` it is strictly less than. */
  function Insert<T>(x: T, s: seq<T>, lt: (T, T) -> bool): (r: seq<T>)
    ensures |r| == |s| + 1
    ensures multiset(r) == multiset(s) + multiset{x}
    ensures r[0] == x || (|s| > 0 && r[0] == s[0])
  {
    if |s| == 0 then [x]
    else if lt(x, s[0]) then [x] + s
    else
      assert s == [s[0]] + s[1..];
      [s[0]] + Insert(x, s[1..], lt)
  }

  /** Insertion sort: each element goes after every element it is not
      strictly less than, so elements that compare equal keep their order. */
  function SortBy<T>(s: seq<T>, lt: (T, T) -> bool): (r: seq<T>)
    ensures multiset(r) == multiset(s)
  {
    if |s| == 0 then []
    else
      assert s == s[..|s| - 1] + [s[|s| - 1]];
      Insert(s[|s| - 1], SortBy(s[..|s| - 1], lt), lt)
  }

  ghost predicate Asymmetric<T(!new)>(lt: (T, T) -> bool) {
    forall a, b :: lt(a, b) ==> !lt(b, a)
  }

  /** No element is strictly less than the one before it. */
  predicate SortedBy<T>(s: seq<T>, lt: (T, T) -> bool) {
    forall i :: 0 < i < |s| ==> !lt(s[i], s[i - 1])
  }

  lemma {:induction false} InsertSorted<T(!new)>(x: T, s: seq<T>, lt: (T, T) -> bool)
    requires Asymmetric(lt) && SortedBy(s, lt)
    ensures SortedBy(Insert(x, s, lt), lt)
  {
    if |s| > 0 && !lt(x, s[0]) {
      assert SortedBy(s[1..], lt) by {
        forall i | 0 < i < |s| - 1 ensures !lt(s[1..][i], s[1..][i - 1]) {
          assert s[1..][i] == s[i + 1];
        }
      }
      InsertSorted(x, s[1..], lt);
    }
  }

  /** The insertion sort's output is sorted and a permutation of its input. */
  lemma {:induction false} SortBySorted<T(!new)>(s: seq<T>, lt: (T, T) -> bool)
    requires Asymmetric(lt)
    ensures SortedBy(SortBy(s, lt), lt)
    ensures multiset(SortBy(s, lt)) == multiset(s)
  {
    if |s| > 0 {
      SortBySorted(s[..|s| - 1], lt);
      InsertSorted(s[|s| - 1], SortBy(s[..|s| - 1], lt), lt);
    }
  }

  /** Sorting under a relation that holds between no two elements changes
      nothing: every element is inserted at the end. */
  lemma {:induction false} SortByNeverLess<T>(s: seq<T>, lt: (T, T) -> bool)
    requires forall i, j :: 0 <= j < i < |s| ==> !lt(s[i], s[j])
    ensures SortBy(s, lt) == s
  {
    if |s| > 0 {
      var n := |s| - 1;
      var p := s[..n];
      SortByNeverLess(p, lt);
      InsertAtEnd(s[n], p, lt);
      assert SortBy(s, lt) == p + [s[n]];
      SnocTake(s);
    }
  }

  lemma SnocTake<T>(s: seq<T>)
    requires |s| > 0
    ensures s[..|s| - 1] + [s[|s| - 1]] == s
  {
  }

  lemma {:induction false} InsertAtEnd<T>(x: T, s: seq<T>, lt: (T, T) -> bool)
    requires forall i :: 0 <= i < |s| ==> !lt(x, s[i])
    ensures Insert(x, s, lt) == s + [x]
  {
    if |s| > 0 {
      InsertAtEnd(x, s[1..], lt);
      assert [s[0]] + (s[1..] + [x]) == s + [x];
    }
  }

  /** A sequence without repeats is its own deduplication. */
  lemma {:induction false} DistinctNoDuplicates<T>(s: seq<T>)
    requires NoDuplicates(s)
    ensures Distinct(s) == s
  {
    if |s| > 0 {
      var n := |s| - 1;
      var p := s[..n];
      assert NoDuplicates(p) by {
        forall i, j | 0 <= i < j < |p| ensures p[i] != p[j] {
          assert p[i] == s[i] && p[j] == s[j];
        }
      }
      DistinctNoDuplicates(p);
      assert s[n] !in p by {
        forall i | 0 <= i < |p| ensures p[i] != s[n] {
          assert p[i] == s[i];
        }
      }
      assert p + [s[n]] == s;
    }
  }

  lemma {:induction false} FilterAppend<T>(a: seq<T>, b: seq<T>, p: T -> bool)
    ensures Filter(a + b, p) == Filter(a, p) + Filter(b, p)
  {
    if |a| == 0 {
      assert a + b == b;
    } else {
      assert (a + b)[1..] == a[1..] + b;
      FilterAppend(a[1..], b, p);
    }
  }

  /** Filtering commutes with reversal. */
  lemma {:induction false} FilterReverse<T>(s: seq<T>, p: T -> bool)
    ensures Filter(Reverse(s), p) == Reverse(Filter(s, p))
  {
    if |s| > 0 {
      FilterReverse(s[1..], p);
      FilterAppend(Reverse(s[1..]), [s[0]], p);
      if p(s[0]) {
        var f := Filter(s, p);
        assert f[1..] == Filter(s[1..], p);
      }
    }
  }

  /** The occurrences in `ts` of the elements of `ws`, added up. */
  function SumCounts<T(==)>(ws: seq<T>, ts: seq<T>): nat {
    if |ws| == 0 then 0 else Count(ts, ws[0]) + SumCounts(ws[1..], ts)
  }

  lemma {:induction false} SumCountsCons<T>(ws: seq<T>, t: T, r: seq<T>)
    requires NoDuplicates(ws)
    ensures SumCounts(ws, [t] + r) == SumCounts(ws, r) + (if t in ws then 1 else 0)
  {
    if |ws| > 0 {
      assert ([t] + r)[1..] == r;
      assert NoDuplicates(ws[1..]) by {
        forall i, j | 0 <= i < j < |ws[1..]| ensures ws[1..][i] != ws[1..][j] {
          assert ws[1..][i] == ws[i + 1] && ws[1..][j] == ws[j + 1];
        }
      }
      SumCountsCons(ws[1..], t, r);
      if ws[0] == t {
        assert t !in ws[1..] by {
          forall i | 0 <= i < |ws[1..]| ensures ws[1..][i] != t {
            assert ws[1..][i] == ws[i + 1];
          }
        }
      } else {
        assert t in ws <==> t in ws[1..] by {
          assert ws == [ws[0]] + ws[1..];
        }
      }
    }
  }

  /** Counting every element of `ts` once per distinct value accounts for
      each element exactly once. */
  lemma {:induction false} SumCountsTotal<T>(ws: seq<T>, ts: seq<T>)
    requires NoDuplicates(ws)
    requires forall i :: 0 <= i < |ts| ==> ts[i] in ws
    ensures SumCounts(ws, ts) == |ts|
  {
    if |ts| == 0 {
      assert forall w :: Count(ts, w) == 0;
      SumCountsEmpty(ws, ts);
    } else {
      SumCountsTotal(ws, ts[1..]);
      assert ts == [ts[0]] + ts[1..];
      SumCountsCons(ws, ts[0], ts[1..]);
    }
  }

  lemma {:induction false} SumCountsEmpty<T>(ws: seq<T>, ts: seq<T>)
    requires |ts| == 0
    ensures SumCounts(ws, ts) == 0
  {
    if |ws| > 0 {
      SumCountsEmpty(ws[1..], ts);
    }
  }
}

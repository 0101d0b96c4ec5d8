/** `CollectionUtil`: an all-pass check with early exit, and the stream
    pipelines `filter`, `findFirst`, `map` and `anyMatch`. A collection is
    taken in its iteration order; `null` for the collection is `None`. */
module CollectionUtil {
  import opened JavaLang
  import S = Sequences

  /** `review`: applies `reviewAsset` to the elements in turn and returns
      `false` at the first one it rejects, `true` when all pass. The verdict
      is a `Boolean`, so a `null` verdict (`None`) throws when unboxed, as
      does a `null` collection. `reviewed` lists the elements handed to
      `reviewAsset`, which are the ones the library logs. */
  method Review<T>(assets: Option<seq<T>>, reviewAsset: T -> Option<bool>) returns (r: Result<bool>, reviewed: seq<T>)
    ensures assets.None? ==> r == Err(NullPointer) && reviewed == []
    ensures assets.Some? ==> |reviewed| <= |assets.value| && reviewed == assets.value[..|reviewed|]
    ensures forall i :: 0 <= i < |reviewed| - 1 ==> reviewAsset(reviewed[i]) == Some(true)
    ensures r == Ok(true) <==>
      assets.Some? && forall i :: 0 <= i < |assets.value| ==> reviewAsset(assets.value[i]) == Some(true)
    ensures r == Ok(true) ==> reviewed == assets.value
    ensures assets.Some? && r != Ok(true) ==>
      |reviewed| > 0 && reviewAsset(reviewed[|reviewed| - 1]) == (if r.Ok? then Some(false) else None)
    ensures r.Err? ==> r.error == NullPointer
  {
    if assets.None? {
      return Err(NullPointer), [];
    }
    var s := assets.value;
    reviewed := [];
    var i := 0;
    while i < |s|
      invariant 0 <= i <= |s|
      invariant reviewed == s[..i]
      invariant forall k :: 0 <= k < i ==> reviewAsset(s[k]) == Some(true)
    {
      reviewed := reviewed + [s[i]];
      var verdict := reviewAsset(s[i]);
      if verdict.None? {
        return Err(NullPointer), reviewed;
      }
      if !verdict.value {
        return Ok(false), reviewed;
      }
      i := i + 1;
    }
    return Ok(true), reviewed;
  }

  /** `filter`: the elements that satisfy `predicate`, in order — a
      subsequence of the input holding every satisfying occurrence and no
      other. */
  function Filter<T(==,!new)>(collection: Option<seq<T>>, pred: T -> bool): (r: Result<seq<T>>)
    ensures r.Ok? <==> collection.Some?
    ensures r.Err? ==> r.error == NullPointer
    ensures r.Ok? ==> S.IsSubsequence(r.value, collection.value)
    ensures r.Ok? ==> forall x :: S.Count(r.value, x) == if pred(x) then S.Count(collection.value, x) else 0
  {
    if collection.None? then Err(NullPointer)
    else
      var s := collection.value;
      S.FilterIsSubsequence(s, pred);
      S.FilterCounts(s, pred);
      Ok(S.Filter(s, pred))
  }

  /** The index of the first element of `s` satisfying `p`, or `|s|`. */
  function FirstMatch<T>(s: seq<T>, p: T -> bool): (k: nat)
    ensures k <= |s|
    ensures forall i :: 0 <= i < k ==> !p(s[i])
    ensures k < |s| ==> p(s[k])
  {
    if |s| == 0 || p(s[0]) then 0 else 1 + FirstMatch(s[1..], p)
  }

  /** `findFirst`: the first element satisfying `predicate`, or `null` when
      there is none. `Optional` cannot hold `null`, so a first match that is
      itself `null` throws. */
  function FindFirst<T>(collection: Option<seq<Option<T>>>, pred: Option<T> -> bool): (r: Result<Option<T>>)
    ensures r.Ok? || r.error == NullPointer
    ensures collection.None? ==> r.Err?
    ensures collection.Some? ==>
      var s := collection.value;
      (r == Ok(None) <==> forall i :: 0 <= i < |s| ==> !pred(s[i])) &&
      (r.Err? <==> exists k :: (0 <= k < |s| && s[k].None? && pred(s[k]) &&
                                 forall i :: 0 <= i < k ==> !pred(s[i]))) &&
      (r.Ok? && r.value.Some? ==> exists k :: (0 <= k < |s| && s[k] == r.value && pred(s[k]) &&
                                               forall i :: 0 <= i < k ==> !pred(s[i])))
  {
    if collection.None? then Err(NullPointer)
    else
      var s := collection.value;
      var k := FirstMatch(s, pred);
      if k == |s| then Ok(None)
      else if s[k].None? then Err(NullPointer)
      else Ok(s[k])
  }

  /** The element `findFirst` returns heads the list `filter` returns. */
  lemma {:induction false} FindFirstHeadsFilter<T>(s: seq<Option<T>>, pred: Option<T> -> bool)
    ensures var f := S.Filter(s, pred);
      FindFirst(Some(s), pred) ==
        if |f| == 0 then Ok(None) else if f[0].None? then Err(NullPointer) else Ok(f[0])
  {
    if |s| > 0 && !pred(s[0]) {
      FindFirstHeadsFilter(s[1..], pred);
      assert FirstMatch(s, pred) == 1 + FirstMatch(s[1..], pred);
    }
  }

  /** `map`: the mapper applied to every element, in order. */
  function Map<T, R>(collection: Option<seq<T>>, mapper: T -> R): (r: Result<seq<R>>)
    ensures r.Ok? <==> collection.Some?
    ensures r.Err? ==> r.error == NullPointer
    ensures r.Ok? ==> |r.value| == |collection.value|
    ensures r.Ok? ==> forall i :: 0 <= i < |r.value| ==> r.value[i] == mapper(collection.value[i])
  {
    if collection.None? then Err(NullPointer)
    else Ok(seq(|collection.value|, i requires 0 <= i < |collection.value| => mapper(collection.value[i])))
  }

  /** Mapping then filtering is filtering by the composed test then
      mapping. */
  lemma {:induction false} MapThenFilter<T, R>(s: seq<T>, mapper: T -> R, p: R -> bool)
    ensures S.Filter(Map(Some(s), mapper).value, p) == Map(Some(S.Filter(s, x => p(mapper(x)))), mapper).value
  {
    if |s| > 0 {
      var q := x => p(mapper(x));
      var t := s[1..];
      MapThenFilter(t, mapper, p);
      assert s == [s[0]] + t;
      MapCons(s[0], t, mapper);
      FilterCons(mapper(s[0]), Map(Some(t), mapper).value, p);
      FilterCons(s[0], t, q);
      if q(s[0]) {
        MapCons(s[0], S.Filter(t, q), mapper);
      }
    }
  }

  lemma MapCons<T, R>(x: T, t: seq<T>, mapper: T -> R)
    ensures Map(Some([x] + t), mapper).value == [mapper(x)] + Map(Some(t), mapper).value
  {
  }

  lemma FilterCons<T>(x: T, t: seq<T>, p: T -> bool)
    ensures S.Filter([x] + t, p) == if p(x) then [x] + S.Filter(t, p) else S.Filter(t, p)
  {
    assert ([x] + t)[1..] == t;
  }

  /** `anyMatch`: whether some element satisfies `predicate`; the stream
      stops at the first one that does. */
  function AnyMatch<T>(collection: Option<seq<T>>, pred: T -> bool): (r: Result<bool>)
    ensures r.Ok? <==> collection.Some?
    ensures r.Err? ==> r.error == NullPointer
    ensures r.Ok? ==> (r.value <==> exists i :: 0 <= i < |collection.value| && pred(collection.value[i]))
  {
    if collection.None? then Err(NullPointer)
    else Ok(FirstMatch(collection.value, pred) < |collection.value|)
  }

  /** `anyMatch` holds exactly when `filter` keeps something. */
  lemma {:induction false} AnyMatchFilter<T>(s: seq<T>, pred: T -> bool)
    ensures AnyMatch(Some(s), pred).value <==> |S.Filter(s, pred)| > 0
  {
    if |s| > 0 && !pred(s[0]) {
      AnyMatchFilter(s[1..], pred);
      assert FirstMatch(s, pred) == 1 + FirstMatch(s[1..], pred);
    }
  }
}

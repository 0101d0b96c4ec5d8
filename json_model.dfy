/** The JSON containers `JsonArray` and `JsonObject`: mutable wrappers
    around fastjson's `JSONArray` (a list) and `JSONObject` (a map whose
    keys are strings or `null`). Elements are compared with `equals`, which for nested
    containers is structural equality, so they are modelled as values. */
module JsonModel {
  import opened JavaLang
  import S = Sequences

  /** A value held by a container: `null`, a boolean, a number, a string,
      a `JSONObject` or a `JSONArray`. */
  datatype Value =
    | Null
    | Bool(b: bool)
    | Number(n: int)
    | Str(s: string)
    | Object(fields: map<Option<string>, Value>)
    | Array(elements: seq<Value>)

  /** The entries of a `JSONObject`; `None` is the `null` key, which the
      underlying map stores like any other. */
  type Fields = map<Option<string>, Value>

  /** The behaviour of fastjson that this library relies on without
      defining it: `toString()` of a non-null element, `JSON.toJSONString`
      of a value, and the conversion `JSONObject.getJSONObject` applies to
      a stored value that is neither a `JSONObject` nor `null` (it parses a
      string, copies a map, or throws `JSONException`). */
  datatype Fastjson = Fastjson(
    text: Value -> string,
    json: Value -> string,
    toObject: Value -> Result<Option<Fields>>)

  /** A nullable `JSONObject` as an element value. */
  function ObjectOrNull(o: Option<Fields>): Value {
    if o.Some? then Object(o.value) else Null
  }

  /** An argument of `add` or `put`: a plain value, or one of this
      library's wrappers, which is unwrapped to the container it holds. */
  datatype Arg = Plain(value: Value) | ObjectArg(obj: JsonObject) | ArrayArg(arr: JsonArray)
  {
    function Footprint(): set<object> {
      match this
      case Plain(_) => {}
      case ObjectArg(o) => {o}
      case ArrayArg(a) => {a}
    }
  }

  /** What `add` and `put` store for an argument: the wrapped
      `JSONObject` (which may be `null`) or `JSONArray`, or the value
      itself. */
  function Unwrap(a: Arg): Value
    reads a.Footprint()
  {
    match a
    case Plain(v) => v
    case ObjectArg(o) => ObjectOrNull(o.inner)
    case ArrayArg(x) => Array(x.items)
  }

  /** `String.compareTo(a, b) < 0`: at the first position where they differ
      `a` has the smaller char, or `a` is a proper prefix of `b`. */
  predicate StringLess(a: string, b: string) {
    if |a| == 0 then |b| > 0
    else if |b| == 0 then false
    else if a[0] != b[0] then a[0] < b[0]
    else StringLess(a[1..], b[1..])
  }

  lemma {:induction false} StringLessAsymmetric(a: string, b: string)
    ensures StringLess(a, b) ==> !StringLess(b, a)
  {
    if |a| > 0 && |b| > 0 && a[0] == b[0] {
      StringLessAsymmetric(a[1..], b[1..]);
    }
  }

  lemma {:induction false} StringLessIrreflexive(a: string)
    ensures !StringLess(a, a)
  {
    if |a| > 0 {
      StringLessIrreflexive(a[1..]);
    }
  }

  /** The elements of `s` that do not occur in `drop`, in order. */
  function Without(s: seq<Value>, drop: seq<Value>): (r: seq<Value>)
    ensures S.IsSubsequence(r, s)
    ensures forall x :: S.Count(r, x) == if x in drop then 0 else S.Count(s, x)
  {
    var keep := x => x !in drop;
    S.FilterIsSubsequence(s, keep);
    S.FilterCounts(s, keep);
    S.Filter(s, keep)
  }

  /** The elements of `s` that occur in `keep`, in order. */
  function Within(s: seq<Value>, keep: seq<Value>): (r: seq<Value>)
    ensures S.IsSubsequence(r, s)
    ensures forall x :: S.Count(r, x) == if x in keep then S.Count(s, x) else 0
  {
    var retain := x => x in keep;
    S.FilterIsSubsequence(s, retain);
    S.FilterCounts(s, retain);
    S.Filter(s, retain)
  }

  // ---------------------------------------------------------------------
  // Nested lookup (`JsonObject.getAsJsonObject` and `getNestedValue`)

  /** `JSONObject.getJSONObject(key)` on a non-null object: the stored
      object, `null` for an absent or `null` entry, and fastjson's
      conversion for any other value. */
  function GetObject(m: Fields, key: Option<string>, env: Fastjson): Result<Option<Fields>> {
    if key !in m || m[key].Null? then Ok(None)
    else if m[key].Object? then Ok(Some(m[key].fields))
    else env.toObject(m[key])
  }

  /** The object reached from `current` by `getAsJsonObject` along `keys`.
      Each step wraps what it finds, even `null`; the next step then reads
      through the `null` and throws `NullPointerException`. */
  function Walk(current: Option<Fields>, keys: seq<Option<string>>, env: Fastjson): Result<Option<Fields>>
    decreases |keys|
  {
    if |keys| == 0 then Ok(current)
    else if current.None? then Err(NullPointer)
    else match GetObject(current.value, keys[0], env)
      case Err(e) => Err(e)
      case Ok(next) => Walk(next, keys[1..], env)
  }

  /** `JSON.toJSONString` of a nullable `JSONObject`. */
  function ObjectText(o: Option<Fields>, env: Fastjson): string {
    if o.None? then "null" else env.json(Object(o.value))
  }

  /** What `getNestedValue(keys)` returns or throws on an object. */
  function NestedText(o: Option<Fields>, keys: seq<Option<string>>, env: Fastjson): Result<string> {
    match Walk(o, keys, env)
    case Ok(c) => Ok(ObjectText(c, env))
    case Err(e) => Err(e)
  }

  /** Following `a + b` is following `a`, then `b` from where `a` ended. */
  lemma {:induction false} WalkAppend(o: Option<Fields>, a: seq<Option<string>>, b: seq<Option<string>>, env: Fastjson)
    ensures Walk(o, a + b, env) == match Walk(o, a, env) { case Ok(c) => Walk(c, b, env) case Err(e) => Err(e) }
    decreases |a|
  {
    if |a| == 0 {
      assert a + b == b;
    } else if o.Some? {
      assert (a + b)[0] == a[0] && (a + b)[1..] == a[1..] + b;
      match GetObject(o.value, a[0], env)
      case Err(_) =>
      case Ok(next) => WalkAppend(next, a[1..], b, env);
    }
  }

  /** With no keys the result is the object's own JSON text; a single key
      that is absent gives the text `null`; an absent key followed by any
      further key throws `NullPointerException` rather than the library's
      own "Invalid key path" error, which is unreachable. */
  lemma NestedTextCases(m: Fields, keys: seq<Option<string>>, env: Fastjson)
    ensures |keys| == 0 ==> NestedText(Some(m), keys, env) == Ok(env.json(Object(m)))
    ensures |keys| == 1 && keys[0] !in m ==> NestedText(Some(m), keys, env) == Ok("null")
    ensures |keys| >= 2 && keys[0] !in m ==> NestedText(Some(m), keys, env) == Err(NullPointer)
  {
    if |keys| >= 1 && keys[0] !in m {
      assert GetObject(m, keys[0], env) == Ok(None);
      assert Walk(Some(m), keys, env) == Walk(None, keys[1..], env);
    }
  }

  // ---------------------------------------------------------------------
  // `JsonArray.sort`

  /** The comparator without a key, as "sorts strictly before": the
      `toString()` texts compared in ascending or, with the arguments
      swapped, descending order. */
  function TextOrder(ascending: bool, env: Fastjson): (Value, Value) -> bool {
    (a: Value, b: Value) =>
      if ascending then StringLess(env.text(a), env.text(b)) else StringLess(env.text(b), env.text(a))
  }

  /** `getNestedValue(key)` on element `a` cast to `JSONObject`: a `null`
      element casts but then cannot be read, any other non-object fails the
      cast. */
  function KeyText(a: Value, key: seq<Option<string>>, env: Fastjson): Result<string> {
    if a.Null? then NestedText(None, key, env)
    else if a.Object? then NestedText(Some(a.fields), key, env)
    else Err(ClassCast)
  }

  /** The keyed comparator, as "sorts strictly before". Both compared
      texts are computed from the first argument `a`, so the second
      argument is never looked at; a `JSONException` is caught and
      compares as equal. */
  function KeyOrder(ascending: bool, key: seq<Option<string>>, env: Fastjson): (Value, Value) -> bool {
    (a: Value, b: Value) =>
      match KeyText(a, key, env)
      case Err(_) => false
      case Ok(valA) =>
        var valB := KeyText(a, key, env).value;
        if ascending then StringLess(valA, valB) else StringLess(valB, valA)
  }

  /** The first exception the keyed comparator lets escape. While it
      returns 0, `List.sort` calls it on `(s[i], s[i-1])` for i = 1, 2, ...
      in turn; `s` here is the list without its first element, which is
      never a first argument. */
  function KeyFailure(s: seq<Value>, key: seq<Option<string>>, env: Fastjson): Option<Exception> {
    if |s| == 0 then None
    else match KeyText(s[0], key, env)
      case Err(e) => if e == Json then KeyFailure(s[1..], key, env) else Some(e)
      case Ok(_) => KeyFailure(s[1..], key, env)
  }

  /** What `sort(ascending, key...)` makes of the list: a stable sort by the
      comparator (the sorted copy replaces the contents), or the exception
      that escapes it. Fewer than two elements are never compared.
      Otherwise every comparison first reads `key[0]`; without a key a
      `null` element's `toString()` throws. */
  function SortOutcome(s: seq<Value>, ascending: bool, key: seq<Option<string>>, env: Fastjson): (r: Result<seq<Value>>)
    ensures r.Ok? ==> multiset(r.value) == multiset(s)
    ensures r.Err? ==> |s| >= 2 && r.error != Json
  {
    if |s| < 2 then Ok(s)
    else if |key| == 0 then Err(IndexOutOfBounds)
    else if key[0].None? then
      if Null in s then Err(NullPointer) else Ok(S.SortBy(s, TextOrder(ascending, env)))
    else
      var failure := KeyFailure(s[1..], key, env);
      KeyFailureNotJson(s[1..], key, env);
      if failure.Some? then Err(failure.value) else Ok(S.SortBy(s, KeyOrder(ascending, key, env)))
  }

  lemma {:induction false} KeyFailureNotJson(s: seq<Value>, key: seq<Option<string>>, env: Fastjson)
    ensures KeyFailure(s, key, env) != Some(Json)
  {
    if |s| > 0 {
      KeyFailureNotJson(s[1..], key, env);
    }
  }

  /** Without a key the sort succeeds exactly when there are fewer than two
      elements or none is `null`, and then yields a permutation in
      ascending (or descending) order of the elements' texts. */
  lemma SortWithoutKey(s: seq<Value>, ascending: bool, env: Fastjson)
    ensures var r := SortOutcome(s, ascending, [None], env);
      (r.Ok? <==> |s| < 2 || Null !in s) &&
      (r.Err? ==> r.error == NullPointer) &&
      (r.Ok? ==> multiset(r.value) == multiset(s) && S.SortedBy(r.value, TextOrder(ascending, env)))
  {
    var lt := TextOrder(ascending, env);
    forall a, b ensures lt(a, b) ==> !lt(b, a) {
      StringLessAsymmetric(env.text(a), env.text(b));
      StringLessAsymmetric(env.text(b), env.text(a));
    }
    assert S.Asymmetric(lt);
    S.SortBySorted(s, lt);
  }

  /** The keyed comparator never orders one element before another. */
  lemma KeyOrderNeverLess(ascending: bool, key: seq<Option<string>>, env: Fastjson, a: Value, b: Value)
    ensures !KeyOrder(ascending, key, env)(a, b)
  {
    match KeyText(a, key, env)
    case Err(_) =>
    case Ok(v) => StringLessIrreflexive(v);
  }

  /** With a key the sort never reorders anything: the result, when there
      is one, is the list as it was. */
  lemma SortWithKeyKeepsOrder(s: seq<Value>, ascending: bool, key: seq<Option<string>>, env: Fastjson)
    requires |key| > 0 && key[0].Some?
    ensures SortOutcome(s, ascending, key, env).Ok? ==> SortOutcome(s, ascending, key, env).value == s
  {
    if |s| >= 2 {
      var lt := KeyOrder(ascending, key, env);
      forall i, j | 0 <= j < i < |s| ensures !lt(s[i], s[j]) {
        KeyOrderNeverLess(ascending, key, env, s[i], s[j]);
      }
      S.SortByNeverLess(s, lt);
    }
  }

  /** With a key the first element is never examined, so replacing it
      (by `null`, say) changes nothing. */
  lemma SortWithKeyIgnoresFirst(s: seq<Value>, x: Value, ascending: bool, key: seq<Option<string>>, env: Fastjson)
    requires |s| > 0 && |key| > 0 && key[0].Some?
    ensures SortOutcome([x] + s[1..], ascending, key, env).Err? == SortOutcome(s, ascending, key, env).Err?
  {
    assert ([x] + s[1..])[1..] == s[1..];
  }

  // ---------------------------------------------------------------------
  // The wrappers

  class JsonArray {
    /** The wrapped `JSONArray`, which is never `null`. */
    var items: seq<Value>

    /** `new JsonArray()`: an empty array. */
    constructor ()
      ensures items == []
    {
      items := [];
    }

    /** `new JsonArray(jsonArray)`: the given list, or an empty one for `null`. */
    constructor FromList(init: Option<seq<Value>>)
      ensures init.None? ==> items == []
      ensures init.Some? ==> items == init.value
    {
      items := if init.Some? then init.value else [];
    }

    /** `add(value)`: appends one element, unwrapping a `JsonObject` or
        `JsonArray` to the container it holds. */
    method Add(value: Arg) returns (self: JsonArray)
      modifies this
      ensures self == this
      ensures items == old(items) + [old(Unwrap(value))]
    {
      var v := Unwrap(value);
      items := items + [v];
      self := this;
    }

    /** `addAll(values)`: appends the elements as they are, in order; a
        `null` collection throws. */
    method AddAll(values: Option<seq<Value>>) returns (r: Result<JsonArray>)
      modifies this
      ensures values.None? ==> r == Err(NullPointer) && items == old(items)
      ensures values.Some? ==> r == Ok(this) && items == old(items) + values.value
    {
      if values.None? {
        return Err(NullPointer);
      }
      items := items + values.value;
      return Ok(this);
    }

    /** `contains(value)`. */
    function Contains(value: Value): (b: bool)
      reads this
      ensures b <==> exists i :: 0 <= i < |items| && items[i] == value
    {
      value in items
    }

    /** `containsAll(other)`: every element of `other` occurs here. */
    function ContainsAll(other: JsonArray): (b: bool)
      reads this, other
      ensures b <==> forall i :: 0 <= i < |other.items| ==> other.items[i] in items
    {
      forall x :: x in other.items ==> x in items
    }

    /** `containsAny(other)`: looks up each distinct element of `other`
        here and stops at the first one found; an empty `other` gives
        false. */
    method ContainsAny(other: JsonArray) returns (b: bool)
      ensures b <==> exists i :: 0 <= i < |other.items| && other.items[i] in items
    {
      var valueSet := set x | x in other.items;
      while valueSet != {}
        invariant valueSet <= set x | x in other.items
        invariant forall i :: 0 <= i < |other.items| && other.items[i] !in valueSet ==> other.items[i] !in items
        decreases |valueSet|
      {
        var value :| value in valueSet;
        if value in items {
          return true;
        }
        valueSet := valueSet - {value};
      }
      return false;
    }

    /** `isEmpty()`. */
    function IsEmpty(): (b: bool)
      reads this
      ensures b <==> |items| == 0
    {
      items == []
    }

    /** `isNotEmpty()`: the negation of `isEmpty()`. */
    function IsNotEmpty(): (b: bool)
      reads this
      ensures b <==> !IsEmpty()
    {
      |items| > 0
    }

    /** `indexOf(value)`: the position of the first occurrence, or -1. */
    function IndexOf(value: Value): (i: int)
      reads this
      ensures -1 <= i < |items|
      ensures i == -1 <==> value !in items
      ensures i >= 0 ==> items[i] == value && forall j :: 0 <= j < i ==> items[j] != value
    {
      if value in items then S.FirstIndex(items, value) else -1
    }

    /** `remove(value)`: deletes the first occurrence only, if any. */
    method Remove(value: Value) returns (self: JsonArray)
      modifies this
      ensures self == this
      ensures value !in old(items) ==> items == old(items)
      ensures value in old(items) ==>
        var i := S.FirstIndex(old(items), value);
        items == old(items)[..i] + old(items)[i + 1..]
      ensures multiset(items) == multiset(old(items)) - multiset{value}
    {
      var index := IndexOf(value);
      if index != -1 {
        assert items == items[..index] + [items[index]] + items[index + 1..];
        items := items[..index] + items[index + 1..];
      }
      self := this;
    }

    /** `removeAll(other)`: deletes every occurrence of every element of
        `other`. */
    method RemoveAll(other: JsonArray) returns (self: JsonArray)
      modifies this
      ensures self == this
      ensures items == Without(old(items), old(other.items))
    {
      items := Without(items, other.items);
      self := this;
    }

    /** `retainAll(other)`: keeps exactly the elements that occur in
        `other`, in their order. */
    method RetainAll(other: JsonArray) returns (self: JsonArray)
      modifies this
      ensures self == this
      ensures items == Within(old(items), old(other.items))
    {
      var retainSet := other.items;
      items := Within(items, retainSet);
      self := this;
    }

    /** `retainAll(values)` for any collection; a `null` one throws. */
    method RetainAllOf(values: Option<seq<Value>>) returns (r: Result<JsonArray>)
      modifies this
      ensures values.None? ==> r == Err(NullPointer) && items == old(items)
      ensures values.Some? ==> r == Ok(this) && items == Within(old(items), values.value)
    {
      if values.None? {
        return Err(NullPointer);
      }
      items := Within(items, values.value);
      return Ok(this);
    }

    /** `clear()`. */
    method Clear()
      modifies this
      ensures items == []
    {
      items := [];
    }

    /** `reset()`: clears, then appends the elements of a new empty array. */
    method Reset()
      modifies this
      ensures items == []
    {
      items := [];
      items := items + [];
    }

    /** `sort(ascending, key...)`: sorts a copy and, if that succeeds,
        replaces the contents with it; an exception leaves the array as
        it was. */
    method Sort(ascending: bool, key: seq<Option<string>>, env: Fastjson) returns (failure: Option<Exception>)
      modifies this
      ensures var r := SortOutcome(old(items), ascending, key, env);
        (r.Ok? ==> failure.None? && items == r.value) &&
        (r.Err? ==> failure == Some(r.error) && items == old(items))
    {
      var sorted := SortOutcome(items, ascending, key, env);
      if sorted.Err? {
        return Some(sorted.error);
      }
      items := [];
      items := items + sorted.value;
      return None;
    }

    /** `sort()`: ascending, without a key. */
    method SortDefault(env: Fastjson) returns (failure: Option<Exception>)
      modifies this
      ensures var r := SortOutcome(old(items), true, [None], env);
        (r.Ok? ==> failure.None? && items == r.value) &&
        (r.Err? ==> failure == Some(r.error) && items == old(items))
    {
      failure := Sort(true, [None], env);
    }

    /** `sort(ascending)`: without a key. */
    method SortDirection(ascending: bool, env: Fastjson) returns (failure: Option<Exception>)
      modifies this
      ensures var r := SortOutcome(old(items), ascending, [None], env);
        (r.Ok? ==> failure.None? && items == r.value) &&
        (r.Err? ==> failure == Some(r.error) && items == old(items))
    {
      failure := Sort(ascending, [None], env);
    }

    /** `sort(key)`: ascending, by one key (a `null` key sorts by text). */
    method SortOn(key: Option<string>, env: Fastjson) returns (failure: Option<Exception>)
      modifies this
      ensures var r := SortOutcome(old(items), true, [key], env);
        (r.Ok? ==> failure.None? && items == r.value) &&
        (r.Err? ==> failure == Some(r.error) && items == old(items))
    {
      failure := Sort(true, [key], env);
    }
  }

  class JsonObject {
    /** The wrapped `JSONObject`. The constructor does not check it, so it
        may be `null`, and then every access to it throws. */
    var inner: Option<Fields>

    /** `new JsonObject()`: an empty object. */
    constructor ()
      ensures inner == Some(map[])
    {
      inner := Some(map[]);
    }

    /** `new JsonObject(jsonObject)`, `null` included. */
    constructor Wrap(o: Option<Fields>)
      ensures inner == o
    {
      inner := o;
    }

    /** `put(key, value)`: stores the (unwrapped) value under `key`,
        replacing any earlier one, and returns the earlier value (`null`
        when there was none). */
    method Put(key: Option<string>, value: Arg) returns (previous: Result<Value>)
      modifies this
      ensures old(inner).None? ==> previous == Err(NullPointer) && inner == old(inner)
      ensures old(inner).Some? ==>
        var m := old(inner).value;
        inner == Some(m[key := old(Unwrap(value))]) &&
        previous == Ok(if key in m then m[key] else Null)
    {
      var v := Unwrap(value);
      if inner.None? {
        return Err(NullPointer);
      }
      var m := inner.value;
      previous := Ok(if key in m then m[key] else Null);
      inner := Some(m[key := v]);
    }

    /** `fluentPut(key, value)`: the same update, returning this object. */
    method FluentPut(key: Option<string>, value: Arg) returns (r: Result<JsonObject>)
      modifies this
      ensures old(inner).None? ==> r == Err(NullPointer) && inner == old(inner)
      ensures old(inner).Some? ==> r == Ok(this) && inner == Some(old(inner).value[key := old(Unwrap(value))])
    {
      var previous := Put(key, value);
      if previous.Err? {
        return Err(previous.error);
      }
      return Ok(this);
    }

    /** `containsAll(other)`: every entry (key and equal value) of `other`
        is an entry here. */
    function ContainsAllEntries(other: JsonObject): (r: Result<bool>)
      reads this, other
      ensures r.Err? <==> inner.None? || other.inner.None?
      ensures r.Err? ==> r.error == NullPointer
      ensures r.Ok? ==>
        (r.value <==> forall k :: k in other.inner.value ==> k in inner.value && inner.value[k] == other.inner.value[k])
    {
      if inner.None? || other.inner.None? then Err(NullPointer)
      else
        var m, o := inner.value, other.inner.value;
        assert o.Items <= m.Items <==> forall k :: k in o ==> k in m && m[k] == o[k] by {
          if forall k :: k in o ==> k in m && m[k] == o[k] {
            forall e | e in o.Items ensures e in m.Items {
              assert e.0 in o && o[e.0] == e.1;
            }
          }
          if o.Items <= m.Items {
            forall k | k in o ensures k in m && m[k] == o[k] {
              assert (k, o[k]) in o.Items;
            }
          }
        }
        Ok(o.Items <= m.Items)
    }

    /** `containsAll(keys)`: true when every key is present. It stops at
        the first absent one; an empty array gives true without touching
        the wrapped object. */
    method ContainsAllKeys(keys: Option<seq<Option<string>>>) returns (r: Result<bool>)
      ensures keys.None? ==> r == Err(NullPointer)
      ensures keys.Some? && inner.None? ==> r == if |keys.value| == 0 then Ok(true) else Err(NullPointer)
      ensures keys.Some? && inner.Some? ==>
        r == Ok(forall i :: 0 <= i < |keys.value| ==> keys.value[i] in inner.value)
    {
      if keys.None? {
        return Err(NullPointer);
      }
      var ks := keys.value;
      for i := 0 to |ks|
        invariant inner.Some? ==> forall j :: 0 <= j < i ==> ks[j] in inner.value
        invariant inner.None? ==> i == 0
      {
        if inner.None? {
          return Err(NullPointer);
        }
        if ks[i] !in inner.value {
          return Ok(false);
        }
      }
      return Ok(true);
    }

    /** `containsAny(keys)`: true when some key is present. It stops at the
        first present one; an empty array gives false. */
    method ContainsAnyKey(keys: Option<seq<Option<string>>>) returns (r: Result<bool>)
      ensures keys.None? ==> r == Err(NullPointer)
      ensures keys.Some? && inner.None? ==> r == if |keys.value| == 0 then Ok(false) else Err(NullPointer)
      ensures keys.Some? && inner.Some? ==>
        r == Ok(exists i :: 0 <= i < |keys.value| && keys.value[i] in inner.value)
    {
      if keys.None? {
        return Err(NullPointer);
      }
      var ks := keys.value;
      for i := 0 to |ks|
        invariant inner.Some? ==> forall j :: 0 <= j < i ==> ks[j] !in inner.value
        invariant inner.None? ==> i == 0
      {
        if inner.None? {
          return Err(NullPointer);
        }
        if ks[i] in inner.value {
          return Ok(true);
        }
      }
      return Ok(false);
    }

    /** `containsAny(other)`: true when the two key sets meet. It walks
        the keys of `other` and stops at the first one present here. */
    method ContainsAnyOf(other: JsonObject) returns (r: Result<bool>)
      ensures other.inner.None? ==> r == Err(NullPointer)
      ensures other.inner.Some? && inner.None? ==>
        r == if other.inner.value == map[] then Ok(false) else Err(NullPointer)
      ensures other.inner.Some? && inner.Some? ==>
        r == Ok(exists k :: k in other.inner.value && k in inner.value)
    {
      if other.inner.None? {
        return Err(NullPointer);
      }
      var keySet := other.inner.value.Keys;
      while keySet != {}
        invariant keySet <= other.inner.value.Keys
        invariant inner.None? ==> keySet == other.inner.value.Keys
        invariant inner.Some? ==> forall k :: k in other.inner.value && k !in keySet ==> k !in inner.value
        decreases |keySet|
      {
        var k :| k in keySet;
        if inner.None? {
          return Err(NullPointer);
        }
        if k in inner.value {
          return Ok(true);
        }
        keySet := keySet - {k};
      }
      if inner.None? {
        assert other.inner.value.Keys == {};
        return Ok(false);
      }
      return Ok(false);
    }

    /** `toString()`: the JSON text of the wrapped object, `null` included. */
    function ToString(env: Fastjson): (t: string)
      reads this
      ensures inner.None? ==> t == "null"
    {
      ObjectText(inner, env)
    }

    /** `getAsJsonObject(key)`: a new wrapper around the object stored
        under `key`, which may be `null`. */
    method GetAsJsonObject(key: Option<string>, env: Fastjson) returns (r: Result<JsonObject>)
      ensures inner.None? ==> r == Err(NullPointer)
      ensures inner.Some? ==>
        var g := GetObject(inner.value, key, env);
        (g.Err? <==> r.Err?) && (g.Err? ==> r.error == g.error) &&
        (g.Ok? ==> fresh(r.value) && r.value.inner == g.value)
    {
      if inner.None? {
        return Err(NullPointer);
      }
      var g := GetObject(inner.value, key, env);
      if g.Err? {
        return Err(g.error);
      }
      var wrapper := new JsonObject.Wrap(g.value);
      return Ok(wrapper);
    }

    /** `getNestedValue(keys)`: follows `getAsJsonObject` along the keys
        and returns the JSON text of the object reached. The library checks
        the current wrapper for `null` before each step and after the last,
        but `getAsJsonObject` always returns a new wrapper, so `current` is
        a non-null reference here and those branches do not exist. */
    method GetNestedValue(keys: seq<Option<string>>, env: Fastjson) returns (r: Result<string>)
      ensures r == NestedText(inner, keys, env)
    {
      var current := this;
      var i := 0;
      while i < |keys|
        invariant 0 <= i <= |keys|
        invariant Walk(inner, keys, env) == Walk(current.inner, keys[i..], env)
      {
        var next := current.GetAsJsonObject(keys[i], env);
        if next.Err? {
          return Err(next.error);
        }
        current := next.value;
        i := i + 1;
      }
      return Ok(current.ToString(env));
    }
  }
}

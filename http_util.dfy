/** `HttpUtil`: the request each helper builds (form body, headers,
    content type) and the error policy of `execute`. The network exchange
    itself is an input: `execute`'s outcome is given as a `Transport`. */
module HttpUtil {
  import opened JavaLang
  import opened NetModel

  /** A form parameter: a key and a value, either of which may be `null`
      (a `HashMap` stores a `null` key too). The parameters of a map are
      taken in its iteration order. */
  type Param = (Option<string>, Option<string>)

  /** The headers a caller passes: a map whose keys and values may be
      `null`. */
  type Headers = map<Option<string>, Option<string>>

  const ContentType: Option<string> := Some("Content-Type")

  const FormContentType := "application/x-www-form-urlencoded"
  const JsonContentType := "application/json"

  /** One parameter as `post` appends it: `key=value`, nothing encoded,
      and a `null` key or value appended as the text `null`. */
  function Pair(p: Param): string {
    ValueOf(p.0) + "=" + ValueOf(p.1)
  }

  /** What the loop has appended after the parameters `ps`: each pair
      followed by `&`. */
  function Terminated(ps: seq<Param>): string {
    if |ps| == 0 then "" else Terminated(ps[..|ps| - 1]) + Pair(ps[|ps| - 1]) + "&"
  }

  /** The pairs joined by `&`. */
  function Joined(ps: seq<Param>): string
    requires |ps| > 0
  {
    if |ps| == 1 then Pair(ps[0]) else Joined(ps[..|ps| - 1]) + "&" + Pair(ps[|ps| - 1])
  }

  lemma {:induction false} TerminatedJoined(ps: seq<Param>)
    requires |ps| > 0
    ensures Terminated(ps) == Joined(ps) + "&"
  {
    if |ps| > 1 {
      TerminatedJoined(ps[..|ps| - 1]);
    } else {
      assert ps[..0] == [];
    }
  }

  /** The form body `post` builds: empty for `null` parameters, the pairs
      joined by `&` otherwise. An empty map leaves nothing to delete, so
      `deleteCharAt(-1)` throws. */
  method FormBody(params: Option<seq<Param>>) returns (r: Result<string>)
    ensures params.None? ==> r == Ok("")
    ensures params.Some? && |params.value| == 0 ==> r == Err(IndexOutOfBounds)
    ensures params.Some? && |params.value| > 0 ==> r == Ok(Joined(params.value))
  {
    var body := "";
    if params.Some? {
      var ps := params.value;
      for i := 0 to |ps|
        invariant body == Terminated(ps[..i])
      {
        assert ps[..i + 1][..i] == ps[..i];
        body := body + ValueOf(ps[i].0) + "=" + ValueOf(ps[i].1) + "&";
      }
      assert ps[..|ps|] == ps;
      if |body| == 0 {
        return Err(IndexOutOfBounds);
      }
      if |ps| > 0 {
        TerminatedJoined(ps);
      }
      body := body[..|body| - 1];
    }
    return Ok(body);
  }

  /** The position of the last `&` in `s`. */
  function LastAmp(s: string): (i: nat)
    requires '&' in s
    ensures i < |s| && s[i] == '&'
    ensures forall j :: i < j < |s| ==> s[j] != '&'
  {
    if s[|s| - 1] == '&' then |s| - 1
    else
      assert '&' in s[..|s| - 1] by {
        var k :| 0 <= k < |s| && s[k] == '&';
        assert s[..|s| - 1][k] == '&';
      }
      LastAmp(s[..|s| - 1])
  }

  /** The `&`-separated pieces of a form body, as a server splits it. */
  function Pieces(s: string): (r: seq<string>)
    ensures |r| > 0
    decreases |s|
  {
    if '&' !in s then [s]
    else
      var i := LastAmp(s);
      Pieces(s[..i]) + [s[i + 1..]]
  }

  /** A piece without `&` appended after a `&` is one more piece. */
  lemma PiecesOfJoin(a: string, b: string)
    requires '&' !in b
    ensures Pieces(a + "&" + b) == Pieces(a) + [b]
  {
    var s := a + "&" + b;
    assert s[|a|] == '&';
    assert LastAmp(s) == |a|;
    assert s[..|a|] == a && s[|a| + 1..] == b;
  }

  /** The pair texts of `ps`, in order. */
  function Texts(ps: seq<Param>): seq<string> {
    seq(|ps|, i requires 0 <= i < |ps| => Pair(ps[i]))
  }

  /** Without encoding, the body gives back exactly the pairs when no key
      or value contains `&`. */
  lemma {:induction false} PiecesOfJoined(ps: seq<Param>)
    requires |ps| > 0
    requires forall i :: 0 <= i < |ps| ==> '&' !in Pair(ps[i])
    ensures Pieces(Joined(ps)) == Texts(ps)
  {
    var last := Pair(ps[|ps| - 1]);
    if |ps| == 1 {
      assert Texts(ps) == [last];
    } else {
      var init := ps[..|ps| - 1];
      forall i | 0 <= i < |init| ensures '&' !in Pair(init[i]) {
        assert init[i] == ps[i];
      }
      PiecesOfJoined(init);
      var j := Joined(init);
      assert Joined(ps) == j + "&" + last;
      PiecesOfJoin(j, last);
      TextsSnoc(ps);
    }
  }

  lemma TextsSnoc(ps: seq<Param>)
    requires |ps| > 0
    ensures Texts(ps) == Texts(ps[..|ps| - 1]) + [Pair(ps[|ps| - 1])]
  {
    var init := ps[..|ps| - 1];
    assert forall i :: 0 <= i < |init| ==> Texts(ps)[i] == Texts(init)[i];
  }

  /** A value that contains `&` is not encoded, so it splits into two
      pieces. */
  lemma AmpersandInValueSplits()
    ensures Pieces(Joined([(Some("q"), Some("a&b"))])) == ["q=a", "b"]
  {
    var s := Joined([(Some("q"), Some("a&b"))]);
    assert s == "q=a&b";
    assert s[3] == '&';
    assert s[..3] == "q=a" && s[4..] == "b";
    assert LastAmp(s) == 3;
    assert '&' !in s[..3];
  }

  /** A `null` key and a `null` value are both sent as the text `null`. */
  lemma NullsWrittenAsText()
    ensures Pieces(Joined([(None, Some("v")), (Some("k"), None)])) == ["null=v", "k=null"]
  {
    var ps := [(None, Some("v")), (Some("k"), None)];
    assert Pair(ps[0]) == "null=v" && Pair(ps[1]) == "k=null";
    PiecesOfJoined(ps);
    assert Texts(ps) == ["null=v", "k=null"];
  }

  /** The builder chain shared by the helpers: url, method, the caller's
      headers (a `null` map throws), then, when given, `Content-Type`
      (set after the caller's headers, so it overrides theirs) and a
      body. */
  method BuildRequest(verb: string, url: Option<string>, headers: Option<Headers>,
                      contentType: Option<string>, body: Option<string>) returns (r: Result<Request>)
    ensures headers.None? ==> r == Err(NullPointer)
    ensures headers.Some? ==> r.Ok? && fresh(r.value) && fresh(r.value.headers)
    ensures headers.Some? ==>
      r.value.url == url && r.value.verb == Some(verb) && r.value.body == body &&
      r.value.headers.entries ==
        if contentType.Some? then headers.value[ContentType := contentType] else headers.value
    ensures headers.Some? && contentType.Some? ==>
      ContentType in r.value.headers.entries && r.value.headers.entries[ContentType] == contentType
  {
    var builder := new Builder();
    var _ := builder.Url(url);
    var _ := builder.Method(Some(verb));
    var added := builder.Headers(headers);
    if added.Err? {
      return Err(added.error);
    }
    if contentType.Some? {
      var _ := builder.Header(ContentType, contentType);
    }
    if body.Some? {
      var _ := builder.Body(body);
    }
    var request := builder.Build();
    return Ok(request);
  }

  /** What happened when `execute` built and sent a request: a response, or
      an exception (a `null` or malformed url, a header the client
      refuses, a network failure) with its message. */
  datatype Transport = Delivered(response: Response) | Failed(message: Option<string>)

  /** `execute`: never throws; any exception becomes a response with code
      500, the exception's message as body and no headers. */
  function Execute(outcome: Transport): (r: Response)
    ensures outcome.Failed? ==> r.code == 500 && r.body == outcome.message && r.headers.None?
    ensures outcome.Delivered? ==> r == outcome.response
  {
    match outcome
    case Delivered(response) => response
    case Failed(message) => Response(500, message, None)
  }

  /** `get(url, headers)`: the body of the response to a GET; `null`
      headers throw before anything is sent. */
  method Get(url: Option<string>, headers: Option<Headers>, outcome: Transport)
    returns (r: Result<Option<string>>, sent: Option<Request>)
    ensures headers.None? ==> r == Err(NullPointer) && sent.None?
    ensures headers.Some? ==> r == Ok(Execute(outcome).body) && sent.Some? && fresh(sent.value)
    ensures headers.Some? ==>
      sent.value.url == url && sent.value.verb == Some("GET") && sent.value.body.None? &&
      sent.value.headers.entries == headers.value
  {
    var request := BuildRequest("GET", url, headers, None, None);
    if request.Err? {
      return Err(request.error), None;
    }
    return Ok(Execute(outcome).body), Some(request.value);
  }

  /** `get(url)`: passes `null` headers on, so it always throws. */
  method GetUrl(url: Option<string>, outcome: Transport) returns (r: Result<Option<string>>)
    ensures r == Err(NullPointer)
  {
    var sent;
    r, sent := Get(url, None, outcome);
  }

  /** `post(url, headers, params)`: a form POST. The body is built first,
      so an empty map throws before the headers are looked at. */
  method Post(url: Option<string>, headers: Option<Headers>, params: Option<seq<Param>>,
              outcome: Transport) returns (r: Result<Option<string>>, sent: Option<Request>)
    ensures params.Some? && |params.value| == 0 ==> r == Err(IndexOutOfBounds) && sent.None?
    ensures (params.None? || |params.value| > 0) && headers.None? ==> r == Err(NullPointer) && sent.None?
    ensures (params.None? || |params.value| > 0) && headers.Some? ==>
      r == Ok(Execute(outcome).body) && sent.Some? && fresh(sent.value) &&
      sent.value.url == url && sent.value.verb == Some("POST") &&
      sent.value.body == Some(if params.None? then "" else Joined(params.value)) &&
      sent.value.headers.entries == headers.value[ContentType := Some(FormContentType)]
  {
    var body := FormBody(params);
    if body.Err? {
      return Err(body.error), None;
    }
    var request := BuildRequest("POST", url, headers, Some(FormContentType), Some(body.value));
    if request.Err? {
      return Err(request.error), None;
    }
    return Ok(Execute(outcome).body), Some(request.value);
  }

  /** `post(url)`: no headers and no parameters, so it always throws. */
  method PostUrl(url: Option<string>, outcome: Transport) returns (r: Result<Option<string>>)
    ensures r == Err(NullPointer)
  {
    var sent;
    r, sent := Post(url, None, None, outcome);
  }

  /** `post(url, params)`: no headers, so it always throws; an empty map
      throws first. */
  method PostParams(url: Option<string>, params: Option<seq<Param>>, outcome: Transport)
    returns (r: Result<Option<string>>)
    ensures r.Err?
    ensures r.error == if params.Some? && |params.value| == 0 then IndexOutOfBounds else NullPointer
  {
    var sent;
    r, sent := Post(url, None, params, outcome);
  }

  /** The three JSON helpers: the given method, the caller's headers with
      `Content-Type: application/json` imposed, and the body as given. */
  method SendJson(verb: string, url: Option<string>, headers: Option<Headers>,
                  body: Option<string>, outcome: Transport) returns (r: Result<Option<string>>, sent: Option<Request>)
    ensures headers.None? ==> r == Err(NullPointer) && sent.None?
    ensures headers.Some? ==>
      r == Ok(Execute(outcome).body) && sent.Some? && fresh(sent.value) &&
      sent.value.url == url && sent.value.verb == Some(verb) && sent.value.body == body &&
      sent.value.headers.entries == headers.value[ContentType := Some(JsonContentType)]
  {
    var request := BuildRequest(verb, url, headers, Some(JsonContentType), body);
    if request.Err? {
      return Err(request.error), None;
    }
    return Ok(Execute(outcome).body), Some(request.value);
  }

  /** `postJson(url, headers, body)`. */
  method PostJson(url: Option<string>, headers: Option<Headers>, body: Option<string>,
                  outcome: Transport) returns (r: Result<Option<string>>, sent: Option<Request>)
    ensures headers.None? ==> r == Err(NullPointer) && sent.None?
    ensures headers.Some? ==>
      r == Ok(Execute(outcome).body) && sent.Some? && fresh(sent.value) &&
      sent.value.url == url && sent.value.verb == Some("POST") && sent.value.body == body &&
      sent.value.headers.entries == headers.value[ContentType := Some(JsonContentType)]
  {
    r, sent := SendJson("POST", url, headers, body, outcome);
  }

  /** `patchJson(url, headers, body)`. */
  method PatchJson(url: Option<string>, headers: Option<Headers>, body: Option<string>,
                   outcome: Transport) returns (r: Result<Option<string>>, sent: Option<Request>)
    ensures headers.None? ==> r == Err(NullPointer) && sent.None?
    ensures headers.Some? ==>
      r == Ok(Execute(outcome).body) && sent.Some? && fresh(sent.value) &&
      sent.value.url == url && sent.value.verb == Some("PATCH") && sent.value.body == body &&
      sent.value.headers.entries == headers.value[ContentType := Some(JsonContentType)]
  {
    r, sent := SendJson("PATCH", url, headers, body, outcome);
  }

  /** `putJson(url, headers, body)`. */
  method PutJson(url: Option<string>, headers: Option<Headers>, body: Option<string>,
                 outcome: Transport) returns (r: Result<Option<string>>, sent: Option<Request>)
    ensures headers.None? ==> r == Err(NullPointer) && sent.None?
    ensures headers.Some? ==>
      r == Ok(Execute(outcome).body) && sent.Some? && fresh(sent.value) &&
      sent.value.url == url && sent.value.verb == Some("PUT") && sent.value.body == body &&
      sent.value.headers.entries == headers.value[ContentType := Some(JsonContentType)]
  {
    r, sent := SendJson("PUT", url, headers, body, outcome);
  }

  /** `delete(url, headers)`: a DELETE with the caller's headers only. */
  method Delete(url: Option<string>, headers: Option<Headers>, outcome: Transport)
    returns (r: Result<Option<string>>, sent: Option<Request>)
    ensures headers.None? ==> r == Err(NullPointer) && sent.None?
    ensures headers.Some? ==>
      r == Ok(Execute(outcome).body) && sent.Some? && fresh(sent.value) &&
      sent.value.url == url && sent.value.verb == Some("DELETE") && sent.value.body.None? &&
      sent.value.headers.entries == headers.value
  {
    var request := BuildRequest("DELETE", url, headers, None, None);
    if request.Err? {
      return Err(request.error), None;
    }
    return Ok(Execute(outcome).body), Some(request.value);
  }
}

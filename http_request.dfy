/** `HttpRequest` and its `Builder`. The builder keeps its headers in one
    `HashMap` that every request it builds refers to, so the header map is
    an object of its own here, shared by reference. */
module NetModel {
  import opened JavaLang

  /** A `HashMap<String, String>` of headers; a key or a value may be
      `null` (`None`), as a `HashMap` stores both. */
  class HeaderMap {
    var entries: map<Option<string>, Option<string>>

    constructor ()
      ensures entries == map[]
    {
      entries := map[];
    }

    /** `put(key, value)`: inserts or replaces one entry. */
    method Put(key: Option<string>, value: Option<string>)
      modifies this
      ensures entries == old(entries)[key := value]
    {
      entries := entries[key := value];
    }

    /** `putAll(m)`: every entry of `m`, replacing equal keys; a `null`
        map throws. */
    method PutAll(m: Option<map<Option<string>, Option<string>>>) returns (r: Result<()>)
      modifies this
      ensures m.None? ==> r == Err(NullPointer) && entries == old(entries)
      ensures m.Some? ==> r == Ok(()) && entries == old(entries) + m.value
    {
      if m.None? {
        return Err(NullPointer);
      }
      entries := entries + m.value;
      return Ok(());
    }
  }

  /** A built request: url, method and body are copied from the builder,
      the header map is the builder's own. */
  class Request {
    const url: Option<string>
    /** The HTTP method. */
    const verb: Option<string>
    const body: Option<string>
    const headers: HeaderMap

    /** The private constructor `HttpRequest(builder)`. */
    constructor (builder: Builder)
      ensures url == builder.url && verb == builder.verb && body == builder.body
      ensures headers == builder.headers
    {
      url := builder.url;
      verb := builder.verb;
      body := builder.body;
      headers := builder.headers;
    }
  }

  class Builder {
    var url: Option<string>
    /** The HTTP method. */
    var verb: Option<string>
    var body: Option<string>
    const headers: HeaderMap

    /** `new Builder()` (also `HttpRequest.newBuilder()`): no url or body,
        method `GET`, and a new empty header map. */
    constructor ()
      ensures url.None? && verb == Some("GET") && body.None?
      ensures fresh(headers) && headers.entries == map[]
    {
      url := None;
      verb := Some("GET");
      body := None;
      headers := new HeaderMap();
    }

    /** `url(u)`: replaces the url only. */
    method Url(u: Option<string>) returns (self: Builder)
      modifies this
      ensures self == this
      ensures url == u && verb == old(verb) && body == old(body)
    {
      url := u;
      self := this;
    }

    /** `method(m)`: replaces the method only. */
    method Method(m: Option<string>) returns (self: Builder)
      modifies this
      ensures self == this
      ensures verb == m && url == old(url) && body == old(body)
    {
      verb := m;
      self := this;
    }

    /** `body(b)`: replaces the body only. */
    method Body(b: Option<string>) returns (self: Builder)
      modifies this
      ensures self == this
      ensures body == b && url == old(url) && verb == old(verb)
    {
      body := b;
      self := this;
    }

    /** `header(key, value)`: inserts or replaces one header. */
    method Header(key: Option<string>, value: Option<string>) returns (self: Builder)
      modifies headers
      ensures self == this
      ensures headers.entries == old(headers.entries)[key := value]
    {
      headers.Put(key, value);
      self := this;
    }

    /** `headers(m)`: adds every entry of `m`, replacing equal keys; a
        `null` map throws `NullPointerException`. */
    method Headers(m: Option<map<Option<string>, Option<string>>>) returns (r: Result<Builder>)
      modifies headers
      ensures m.None? ==> r == Err(NullPointer) && headers.entries == old(headers.entries)
      ensures m.Some? ==> r == Ok(this) && headers.entries == old(headers.entries) + m.value
    {
      var done := headers.PutAll(m);
      if done.Err? {
        return Err(done.error);
      }
      return Ok(this);
    }

    /** `build()`: a new request over this builder's fields and header map. */
    method Build() returns (request: Request)
      ensures fresh(request)
      ensures request.url == url && request.verb == verb && request.body == body
      ensures request.headers == headers
    {
      request := new Request(this);
    }
  }

  /** The request is documented as immutable, yet a header set on the
      builder after `build()` shows up in the request already built. */
  method HeaderAfterBuild(builder: Builder, key: Option<string>, value: Option<string>) returns (request: Request)
    modifies builder.headers
    ensures request.headers == builder.headers
    ensures key in request.headers.entries && request.headers.entries[key] == value
  {
    request := builder.Build();
    var _ := builder.Header(key, value);
  }

  /** `HttpResponse`: a status code, a body and the headers, each of which
      may be `null`. */
  datatype Response = Response(code: int32, body: Option<string>, headers: Option<map<string, seq<string>>>)
}

/**
  Protocol::Rack::Body.wrap: turns the body of a rack response into a
  protocol-http body, after taking `content-length` out of the headers.

  The header list is a value here: the fields left after the deletion come
  back in the result, with a flag saying whether the rack body's `close` was
  called. Opening a file is replaced by the set of paths that exist.
*/
module BodyWrap {
  import opened Common
  import opened Http
  import opened BodyEnumerable

  const CONTENT_LENGTH := "content-length"

  lemma ContentLengthIsLower()
    ensures Downcase(CONTENT_LENGTH) == CONTENT_LENGTH
  {
    forall i | 0 <= i < |CONTENT_LENGTH|
      ensures !IsUpper(CONTENT_LENGTH[i])
    {
    }
    DowncaseNoUpper(CONTENT_LENGTH);
  }

  /** What `Body.wrap` leaves behind: the remaining headers, the body, and whether the rack body was closed. */
  datatype Wrapped = Wrapped(headers: Fields, body: Option<Body>, closedOriginal: bool)

  /**
    `Body.wrap(status, headers, body)`. `files` are the paths that can be
    opened. A content-length that `Integer()` rejects raises ArgumentError
    (after the header was removed).
  */
  function Wrap(status: int, headers: Fields, body: RackBody, files: set<string>): (r: Result<Wrapped>)
    ensures r.Raised? <==> Get(headers, CONTENT_LENGTH).Some? && ParseInteger(Get(headers, CONTENT_LENGTH).value).Raised?
    ensures r.Raised? ==> r.error.cls == ArgumentError
    ensures r.Ok? ==> r.value.headers == Without(headers, CONTENT_LENGTH)
    ensures r.Ok? && body.Passthrough? ==> r.value == Wrapped(r.value.headers, Some(body.body), false)
    ensures r.Ok? && !body.Passthrough? && r.value.body.Some? && r.value.body.value.File? ==>
      status == 200 && PathOf(body) == Some(r.value.body.value.path)
      && r.value.body.value.path in files
    ensures r.Ok? && r.value.closedOriginal ==> r.value.body.Some? && r.value.body.value.File? && RespondsToClose(body)
    ensures r.Ok? && r.value.body.None? ==> status == 200 && PathOf(body).Some? && PathOf(body).value !in files
  {
    var length := Get(headers, CONTENT_LENGTH);
    var rest := Without(headers, CONTENT_LENGTH);
    var parsed := if length.Some? then ParseInteger(length.value) else Ok(0);
    if parsed.Raised? then Raised(parsed.error)
    else
      var size := if length.Some? then Some(parsed.value) else None;
      var path := PathOf(body);
      if body.Passthrough? then Ok(Wrapped(rest, Some(body.body), false))
      else if status == 200 && path.Some? then
        if path.value in files then Ok(Wrapped(rest, Some(File(path.value)), RespondsToClose(body)))
        else Ok(Wrapped(rest, None, false))
      else if RespondsToEach(body) then Ok(Wrapped(rest, Some(Enumerable(body, WrapLength(body, size))), false))
      else Ok(Wrapped(rest, Some(Streaming(body)), false))
  }

  /** No `content-length` field survives a successful wrap. */
  lemma {:induction false} ContentLengthRemoved(status: int, headers: Fields, body: RackBody, files: set<string>)
    requires Wrap(status, headers, body, files).Ok?
    ensures forall i :: 0 <= i < |Wrap(status, headers, body, files).value.headers| ==>
      Downcase(Wrap(status, headers, body, files).value.headers[i].0) != CONTENT_LENGTH
  {
    var w := Wrap(status, headers, body, files).value;
    assert w.headers == Without(headers, CONTENT_LENGTH);
    forall i | 0 <= i < |w.headers|
      ensures Downcase(w.headers[i].0) != CONTENT_LENGTH
    {
      assert !Named(w.headers[i], CONTENT_LENGTH);
    }
  }

  /** Whether the content-length, if any, is one `Integer()` accepts (otherwise `Body.wrap` raises). */
  predicate LengthReadable(headers: Fields)
  {
    Get(headers, CONTENT_LENGTH).None? || ParseInteger(Get(headers, CONTENT_LENGTH).value).Ok?
  }

  /**
    A declared content-length that `Integer()` accepts reaches the
    Enumerable as the integer it spells, for any other fields around it and
    any rack body with `each` that is not served as a file (a status other
    than 200, say a partial 206 response, or a body without a path). The
    field leaves the headers.
  */
  lemma {:induction false} DeclaredLengthKept(status: int, headers: Fields, body: RackBody, files: set<string>, text: string, n: int)
    requires !body.Passthrough? && RespondsToEach(body) && !(status == 200 && PathOf(body).Some?)
    requires Get(headers, CONTENT_LENGTH) == Some(text) && ParseInteger(text) == Ok(n)
    ensures Wrap(status, headers, body, files)
         == Ok(Wrapped(Without(headers, CONTENT_LENGTH), Some(Enumerable(body, Some(n))), false))
  {
    assert WrapLength(body, Some(n)) == Some(n);
  }

  /**
    Without a content-length a rack body with `each` that is not served as a
    file is wrapped with the length `Enumerable.wrap` works out: an Array's
    byte count, nothing for any other body.
  */
  lemma {:induction false} ArrayMeasured(status: int, headers: Fields, body: RackBody, files: set<string>)
    requires !body.Passthrough? && RespondsToEach(body) && !(status == 200 && PathOf(body).Some?)
    requires Get(headers, CONTENT_LENGTH).None?
    ensures Wrap(status, headers, body, files)
         == Ok(Wrapped(headers, Some(Enumerable(body, if IsArray(body) then Some(|Concat(EachChunks(body))|) else None)), false))
  {
    WithoutAbsent(headers, CONTENT_LENGTH);
  }

  /**
    A rack body without `each` (one that only responds to `call`, or nil)
    that is not served as a file becomes a Streaming body, and the rack
    body is not closed.
  */
  lemma {:induction false} StreamingFallback(status: int, headers: Fields, body: RackBody, files: set<string>)
    requires !RespondsToEach(body) && !(status == 200 && PathOf(body).Some?)
    requires LengthReadable(headers)
    ensures Wrap(status, headers, body, files)
         == Ok(Wrapped(Without(headers, CONTENT_LENGTH), Some(Streaming(body)), false))
  {
  }

  /**
    With status 200 and a path that exists, the file replaces the body and
    the rack body is closed when it can be; a path that does not exist gives
    no body at all. A declared content-length does not change this.
  */
  lemma {:induction false} FileSubstitution(headers: Fields, kind: Kind, path: string, closeable: bool, files: set<string>)
    requires LengthReadable(headers)
    ensures var w := Wrap(200, headers, Object(kind, Some(path), closeable), files);
      && w.Ok? && w.value.headers == Without(headers, CONTENT_LENGTH)
      && (path in files ==> w.value.body == Some(File(path)) && w.value.closedOriginal == closeable)
      && (path !in files ==> w.value.body.None? && !w.value.closedOriginal)
  {
  }

  /** A protocol-http body is handed back as it is, whatever the status and headers. */
  lemma {:induction false} PassthroughKept(status: int, headers: Fields, body: Body, files: set<string>)
    requires LengthReadable(headers)
    ensures Wrap(status, headers, Passthrough(body), files)
         == Ok(Wrapped(Without(headers, CONTENT_LENGTH), Some(body), false))
  {
  }
}

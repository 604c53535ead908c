/**
  Minimal stand-ins for the protocol-http objects the adapter talks to: the
  request object, header field lists, the body classes and the response
  value. Only what the adapter reads or changes is kept.
*/
module Http {
  import opened Common

  /** Protocol::HTTP::Headers: an ordered list of (name, value) fields, duplicates kept. */
  type Fields = seq<(string, string)>

  /** A rack header value as an application returns it: one string or an array of strings. */
  datatype HeaderValue = Str(text: string) | Arr(items: seq<string>)

  /**
    The protocol-http body classes that reach the adapter, as tags:
    - Readable: a generic readable body yielding `chunks` (Buffered and friends),
      with a known `length` or nil, and whether it responds to `rewind`;
    - Rewindable: Protocol::HTTP::Body::Rewindable around another body;
    - RackInputWrapper: the Body::InputWrapper a request rebuilt from an env
      puts around `rack.input` (its contents are not followed);
    - File: Protocol::HTTP::Body::File opened on a path;
    - Enumerable: Protocol::Rack::Body::Enumerable over a rack body;
    - Streaming: Protocol::Rack::Body::Streaming over a rack body (opaque here);
    - Head: Protocol::HTTP::Body::Head standing for a body that is not sent.
  */
  datatype Body =
    | Readable(chunks: seq<string>, length: Option<nat>, canRewind: bool)
    | Rewindable(inner: Body)
    | RackInputWrapper
    | File(path: string)
    | Enumerable(rack: RackBody, size: Option<int>)
    | Streaming(rack: RackBody)
    | Head(original: Option<Body>)

  /**
    A rack response body as an application returns it. Ruby probes it by
    duck typing; here each capability is a constructor or a flag.
  */
  datatype RackBody =
    | NilBody
    | Passthrough(body: Body)     // already a Protocol::HTTP::Body::Readable
    | Object(kind: Kind, path: Option<string>, closeable: bool)  // to_path, close

  datatype Kind =
    | ArrayOf(chunks: seq<string>)   // an Array: each, empty?, to_ary
    | Eachable(chunks: seq<string>, raises: bool, reportsEmpty: Option<bool>, toAry: bool)
      // any other object with `each`: yields `chunks`, then raises when `raises`;
      // `reportsEmpty` is what its `empty?` answers, None when it has no `empty?`
    | Callable                       // responds to `call` only

  // ---------------------------------------------------------------------
  // Request bodies

  /** The chunks a request body yields, in order. */
  function Chunks(b: Body): seq<string>
  {
    match b
    case Readable(chunks, _, _) => chunks
    case Rewindable(inner) => Chunks(inner)
    case _ => []
  }

  /** `body.length`: known for readable bodies that say so and for wrapped rack bodies. */
  function Length(b: Body): Option<int>
  {
    match b
    case Readable(_, length, _) => if length.Some? then Some(length.value as int) else None
    case Rewindable(inner) => Length(inner)
    case Enumerable(_, size) => size
    case _ => None
  }

  /** `body.empty?` of a request body that has not been read yet. */
  predicate IsEmpty(b: Body)
  {
    match b
    case Readable(chunks, _, _) => chunks == []
    case Rewindable(inner) => IsEmpty(inner)
    case _ => false
  }

  /** `body.respond_to?(:rewind)`. */
  predicate CanRewind(b: Body)
  {
    match b
    case Readable(_, _, canRewind) => canRewind
    case Rewindable(_) => true
    case _ => false
  }

  /** `body.stream?`: true for streaming bodies and for enumerables over a body without `each`. */
  predicate IsStream(b: Body)
  {
    match b
    case Enumerable(rack, _) => !RespondsToEach(rack)
    case Streaming(_) => true
    case _ => false
  }

  // ---------------------------------------------------------------------
  // Rack body capabilities

  predicate RespondsToEach(r: RackBody)
  {
    match r
    case NilBody => false
    case Passthrough(_) => true
    case Object(kind, _, _) => !kind.Callable?
  }

  /** What `each` yields before it returns or raises. */
  function EachChunks(r: RackBody): seq<string>
  {
    match r
    case Passthrough(b) => Chunks(b)
    case Object(ArrayOf(chunks), _, _) => chunks
    case Object(Eachable(chunks, _, _, _), _, _) => chunks
    case _ => []
  }

  predicate EachRaises(r: RackBody)
  {
    r.Object? && r.kind.Eachable? && r.kind.raises
  }

  predicate RespondsToClose(r: RackBody)
  {
    match r
    case NilBody => false
    case Passthrough(_) => true
    case Object(_, _, closeable) => closeable
  }

  predicate RespondsToCall(r: RackBody)
  {
    r.Object? && r.kind.Callable?
  }

  predicate IsArray(r: RackBody)
  {
    r.Object? && r.kind.ArrayOf?
  }

  predicate RespondsToToAry(r: RackBody)
  {
    r.Object? && (r.kind.ArrayOf? || (r.kind.Eachable? && r.kind.toAry))
  }

  /** What `empty?` answers, or None when the body has no `empty?`. */
  function ReportsEmpty(r: RackBody): Option<bool>
  {
    match r
    case NilBody => None
    case Passthrough(b) => Some(IsEmpty(b))
    case Object(ArrayOf(chunks), _, _) => Some(chunks == [])
    case Object(Eachable(_, _, reportsEmpty, _), _, _) => reportsEmpty
    case Object(Callable, _, _) => None
  }

  /** `to_path`, or None when the body has none. */
  function PathOf(r: RackBody): Option<string>
  {
    if r.Object? then r.path else None
  }

  // ---------------------------------------------------------------------
  // Header fields

  /** Whether a field's name, downcased, is `key`. */
  predicate Named(field: (string, string), key: string)
  {
    Downcase(field.0) == key
  }

  /** The fields whose downcased name is not `key`, in order. */
  function Without(fields: Fields, key: string): (r: Fields)
    ensures forall i :: 0 <= i < |r| ==> !Named(r[i], key)
    ensures |r| <= |fields|
  {
    if fields == [] then []
    else
      var rest := Without(fields[..|fields| - 1], key);
      if Named(fields[|fields| - 1], key) then rest else rest + [fields[|fields| - 1]]
  }

  /** `headers[key]` for a single-valued field: the last value given for it. */
  function Get(fields: Fields, key: string): (r: Option<string>)
    ensures r.None? <==> forall i :: 0 <= i < |fields| ==> !Named(fields[i], key)
  {
    if fields == [] then None
    else if Named(fields[|fields| - 1], key) then Some(fields[|fields| - 1].1)
    else Get(fields[..|fields| - 1], key)
  }

  /** Removing a name no field has leaves the fields as they were. */
  lemma {:induction false} WithoutAbsent(fields: Fields, key: string)
    requires Get(fields, key).None?
    ensures Without(fields, key) == fields
  {
    if fields != [] {
      var n := |fields| - 1;
      WithoutAbsent(fields[..n], key);
      assert fields[..n] + [fields[n]] == fields;
    }
  }

  /**
    `headers.delete(key)`: removes every field with that name and returns its
    (last) value, or nil when there was none.
  */
  function Delete(fields: Fields, key: string): (r: (Fields, Option<string>))
  {
    (Without(fields, key), Get(fields, key))
  }

  /** `headers.extract(keys)`: splits the fields into those kept and those named in `keys`. */
  function Extract(fields: Fields, keys: seq<string>): (r: (Fields, Fields))
    ensures forall i :: 0 <= i < |r.0| ==> Downcase(r.0[i].0) !in keys
    ensures forall i :: 0 <= i < |r.1| ==> Downcase(r.1[i].0) in keys
    ensures |r.0| + |r.1| == |fields|
  {
    if fields == [] then ([], [])
    else
      var (kept, taken) := Extract(fields[..|fields| - 1], keys);
      var f := fields[|fields| - 1];
      if Downcase(f.0) in keys then (kept, taken + [f]) else (kept + [f], taken)
  }

  /** The values of the fields whose downcased name is `key`, in order. */
  function NamedValues(fields: Fields, key: string): seq<string>
  {
    if fields == [] then []
    else NamedValues(fields[..|fields| - 1], key)
         + (if Named(fields[|fields| - 1], key) then [fields[|fields| - 1].1] else [])
  }

  /**
    `headers.to_h`: one entry per downcased name, in the order the names
    first appear. A name in `multi` (a header protocol-http merges, such as
    set-cookie) maps to the Array of all its values; any other name maps to
    its last value.
  */
  function ToH(fields: Fields, multi: set<string>): Hash<HeaderValue>
  {
    if fields == [] then []
    else
      var h := ToH(fields[..|fields| - 1], multi);
      var (name, value) := fields[|fields| - 1];
      var key := Downcase(name);
      if key in multi then
        var before := Lookup(h, key);
        Store(h, key, Arr((if before.Some? && before.value.Arr? then before.value.items else []) + [value]))
      else Store(h, key, Str(value))
  }

  /**
    What `to_h` gives for a name: for a merged name the Array of every value
    given under it, in order; for any other name its last value; nothing for
    a name no field has. Its keys stay distinct.
  */
  lemma {:induction false} ToHValues(fields: Fields, multi: set<string>, key: string)
    ensures DistinctKeys(ToH(fields, multi))
    ensures key in multi ==>
      Lookup(ToH(fields, multi), key)
      == (if NamedValues(fields, key) == [] then None else Some(Arr(NamedValues(fields, key))))
    ensures key !in multi ==>
      Lookup(ToH(fields, multi), key)
      == (if Get(fields, key).Some? then Some(Str(Get(fields, key).value)) else None)
  {
    if fields != [] {
      var prefix := fields[..|fields| - 1];
      var (name, value) := fields[|fields| - 1];
      ToHValues(prefix, multi, key);
      ToHValues(prefix, multi, Downcase(name));
      var h := ToH(prefix, multi);
      var before := Lookup(h, Downcase(name));
      var stored := if Downcase(name) in multi
        then Arr((if before.Some? && before.value.Arr? then before.value.items else []) + [value])
        else Str(value);
      assert ToH(fields, multi) == Store(h, Downcase(name), stored);
      StoreDistinct(h, Downcase(name), stored);
      LookupStore(h, Downcase(name), stored, key);
      if Downcase(name) == key {
        assert NamedValues(fields, key) == NamedValues(prefix, key) + [value];
      } else {
        assert NamedValues(fields, key) == NamedValues(prefix, key);
      }
    }
  }

  // ---------------------------------------------------------------------
  // Request and response

  /** Protocol::HTTP::Request: the fields the adapter reads, writes or replaces. */
  class Request {
    var scheme: Option<string>
    var authority: Option<string>
    var requestMethod: Option<string>
    var path: Option<string>
    var version: Option<string>
    var headers: Fields
    var body: Option<Body>
    var protocol: Option<HeaderValue>
    /** How many times `close` was called on the request body. */
    var bodyCloses: nat

    constructor(scheme: Option<string>, authority: Option<string>, requestMethod: Option<string>,
                path: Option<string>, version: Option<string>, headers: Fields,
                body: Option<Body>, protocol: Option<HeaderValue>)
      ensures this.scheme == scheme && this.authority == authority
      ensures this.requestMethod == requestMethod && this.path == path && this.version == version
      ensures this.headers == headers && this.body == body && this.protocol == protocol
      ensures bodyCloses == 0
    {
      this.scheme := scheme;
      this.authority := authority;
      this.requestMethod := requestMethod;
      this.path := path;
      this.version := version;
      this.headers := headers;
      this.body := body;
      this.protocol := protocol;
      this.bodyCloses := 0;
    }

    /** `request.head?`. */
    predicate IsHead()
      reads this
    {
      requestMethod == Some("HEAD")
    }
  }

  /** Protocol::HTTP::Response as the adapter builds it. */
  datatype Response = Response(status: int, headers: Fields, body: Option<Body>, protocol: Option<HeaderValue>)

  /**
    `Protocol::HTTP::Response.for_exception`: a plain-text 500 response naming
    the exception's class and message.
  */
  function ForException(e: Error): (r: Response)
    ensures r.status == 500 && r.protocol.None?
    ensures r.body == Some(Readable([ClassName(e.cls) + ": " + e.message], None, false))
  {
    Response(500, [("content-type", "text/plain")],
             Some(Readable([ClassName(e.cls) + ": " + e.message], None, false)), None)
  }
}

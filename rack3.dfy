/**
  Protocol::Rack::Adapter::Rack3: builds a rack 3 env from a request, and
  turns a protocol-http response back into a rack triple.

  The env is a hash literal followed by `unwrap_request`. `$stderr` and the
  logger are tags; `Input.new(request.body)` is a fresh Input object.
*/
module AdapterRack3 {
  import opened Common
  import Http
  import opened RackEnv
  import opened RackInput
  import AdapterGeneric

  /** `request.path.split('?', 2)`: the path before the first `?`, and the query after it (`""` when there is none). */
  function SplitTarget(path: string): (r: (Option<string>, string))
    ensures '?' in path ==> r.0.Some? && '?' !in r.0.value && r.0.value + "?" + r.1 == path
    ensures '?' !in path ==> r.1 == "" && r.0 == (if path == "" then None else Some(path))
  {
    var (requestPath, query) := SplitFirst(path, '?');
    (requestPath, query.GetOr(""))
  }

  /**
    `(request.authority || '').split(':', 2)`: the host before the first `:`
    and the port after it; no `:` gives no port, and no authority gives neither.
  */
  function SplitAuthority(authority: Option<string>): (r: (Option<string>, Option<string>))
    ensures authority.None? ==> r == (None, None)
    ensures authority.Some? && ':' in authority.value ==>
      r.0.Some? && r.1.Some? && ':' !in r.0.value && r.0.value + ":" + r.1.value == authority.value
    ensures authority.Some? && ':' !in authority.value ==>
      r == (if authority.value == "" then (None, None) else (Some(authority.value), None))
  {
    SplitFirst(authority.GetOr(""), ':')
  }

  /** The CGI entries every adapter's hash literal ends with, REQUEST_METHOD to SERVER_PORT. */
  function CgiEntries(request: Http.Request): Entries
    reads request`scheme, request`authority, request`requestMethod, request`path, request`version
    requires request.path.Some?
  {
    var (pathInfo, query) := SplitTarget(request.path.value);
    var (name, port) := SplitAuthority(request.authority);
    [ (REQUEST_METHOD, StrOrNil(request.requestMethod)),
      (SCRIPT_NAME, Str("")),
      (PATH_INFO, StrOrNil(pathInfo)),
      (REQUEST_PATH, StrOrNil(pathInfo)),
      (REQUEST_URI, Str(request.path.value)),
      (QUERY_STRING, Str(query)),
      (SERVER_PROTOCOL, StrOrNil(request.version)),
      (RACK_URL_SCHEME, StrOrNil(request.scheme)),
      (SERVER_NAME, StrOrNil(name)),
      (SERVER_PORT, StrOrNil(port)) ]
  }

  /** The CGI keys are distinct. */
  lemma CgiDistinct(request: Http.Request)
    requires request.path.Some?
    ensures DistinctKeys(CgiEntries(request))
  {
  }

  /** The rack keys in front of the CGI ones. */
  function RackEntries(request: Http.Request, input: Input): Entries
    reads request`protocol
  {
    [ (PROTOCOL_HTTP_REQUEST, RequestRef(request)),
      (RACK_INPUT, InputRef(input)),
      (RACK_ERRORS, ErrorStream),
      (RACK_LOGGER, Logger),
      (RACK_PROTOCOL, ProtocolValue(request.protocol)) ]
  }

  /** The hash literal of `make_environment`, before `unwrap_request`. */
  function BaseEntries(request: Http.Request, input: Input): Entries
    reads request`scheme, request`authority, request`requestMethod, request`path, request`version, request`protocol
    requires request.path.Some?
  {
    RackEntries(request, input) + CgiEntries(request)
  }

  /** The rack keys are distinct and none of them is a CGI key. */
  lemma RackDistinct(request: Http.Request, input: Input)
    requires request.path.Some?
    ensures DistinctKeys(RackEntries(request, input))
    ensures Apart(RackEntries(request, input), CgiEntries(request))
  {
  }

  lemma BaseDistinct(request: Http.Request, input: Input)
    requires request.path.Some?
    ensures DistinctKeys(BaseEntries(request, input))
  {
    CgiDistinct(request);
    RackDistinct(request, input);
    DistinctApart(RackEntries(request, input), CgiEntries(request));
  }

  /**
    `make_environment(request)`: the hash literal, then `unwrap_request`. A
    request without a path raises NoMethodError (`nil.split`) before
    anything is built. `input` is the Input the env holds.
  */
  method MakeEnvironment(request: Http.Request) returns (r: Result<Env>, ghost input: Input?)
    modifies request`headers
    ensures request.path.None? <==> r.Raised?
    ensures r.Raised? ==> r.error.cls == NoMethodError && request.headers == old(request.headers)
    ensures r.Ok? ==>
      && fresh(r.value) && r.value.Valid() && input != null && fresh(input)
      && input.Valid() && input.body == request.body && input.buffer.None? && input.pos == 0
    ensures r.Ok? ==>
      && input != null && request.path.Some?
      && (r.value.entries, request.headers)
         == AdapterGeneric.UnwrapRequestSpec(BaseEntries(request, input), old(request.headers), request.body, request.authority)
  {
    if request.path.None? {
      return Raised(Error(NoMethodError, "undefined method 'split' for nil")), null;
    }
    var rackInput := new Input(request.body);
    input := rackInput;
    BaseDistinct(request, rackInput);
    var env := new Env(BaseEntries(request, rackInput));
    AdapterGeneric.UnwrapRequest(request, env);
    r := Ok(env);
  }

  /**
    What the env holds after `make_environment`: SCRIPT_NAME is empty,
    PATH_INFO and REQUEST_PATH are the path before the first `?`,
    REQUEST_URI the whole path, QUERY_STRING what follows the `?`,
    SERVER_NAME and SERVER_PORT the two sides of the authority's first `:`,
    and the request and its Input are reachable; `unwrap_request` touches
    none of these.
  */
  lemma {:induction false} Environment(request: Http.Request, input: Input, headers: Http.Fields)
    requires request.path.Some?
    ensures var env := AdapterGeneric.UnwrapRequestSpec(BaseEntries(request, input), headers, request.body, request.authority).0;
      var path := request.path.value;
      var (name, port) := SplitAuthority(request.authority);
      && Lookup(env, SCRIPT_NAME) == Some(Str(""))
      && Lookup(env, PATH_INFO) == Some(StrOrNil(SplitTarget(path).0))
      && Lookup(env, REQUEST_PATH) == Some(StrOrNil(SplitTarget(path).0))
      && Lookup(env, REQUEST_URI) == Some(Str(path))
      && Lookup(env, QUERY_STRING) == Some(Str(SplitTarget(path).1))
      && Lookup(env, SERVER_NAME) == Some(StrOrNil(name))
      && Lookup(env, SERVER_PORT) == Some(StrOrNil(port))
      && Lookup(env, REQUEST_METHOD) == Some(StrOrNil(request.requestMethod))
      && Lookup(env, PROTOCOL_HTTP_REQUEST) == Some(RequestRef(request))
      && Lookup(env, RACK_INPUT) == Some(InputRef(input))
  {
    var base := BaseEntries(request, input);
    BaseLookups(request, input);
    Kept(request, input, headers, SCRIPT_NAME);
    Kept(request, input, headers, PATH_INFO);
    Kept(request, input, headers, REQUEST_PATH);
    Kept(request, input, headers, REQUEST_URI);
    Kept(request, input, headers, QUERY_STRING);
    Kept(request, input, headers, SERVER_NAME);
    Kept(request, input, headers, SERVER_PORT);
    Kept(request, input, headers, REQUEST_METHOD);
    Kept(request, input, headers, PROTOCOL_HTTP_REQUEST);
    Kept(request, input, headers, RACK_INPUT);
  }

  /** SERVER_PROTOCOL is the request's version and rack.url_scheme its scheme, nil when absent. */
  lemma {:induction false} VersionAndScheme(request: Http.Request, input: Input, headers: Http.Fields)
    requires request.path.Some?
    ensures var env := AdapterGeneric.UnwrapRequestSpec(BaseEntries(request, input), headers, request.body, request.authority).0;
      && Lookup(env, SERVER_PROTOCOL) == Some(StrOrNil(request.version))
      && Lookup(env, RACK_URL_SCHEME) == Some(StrOrNil(request.scheme))
  {
    VersionLookups(request, input);
    Kept(request, input, headers, SERVER_PROTOCOL);
    Kept(request, input, headers, RACK_URL_SCHEME);
  }

  /** The version and scheme the hash literal gives. */
  lemma VersionLookups(request: Http.Request, input: Input)
    requires request.path.Some?
    ensures var base := BaseEntries(request, input);
      && Lookup(base, SERVER_PROTOCOL) == Some(StrOrNil(request.version))
      && Lookup(base, RACK_URL_SCHEME) == Some(StrOrNil(request.scheme))
  {
    var base := BaseEntries(request, input);
    BaseDistinct(request, input);
    LookupAt(base, 11);
    LookupAt(base, 12);
  }

  /** A key `unwrap_request` does not write keeps its value from the hash literal. */
  lemma Kept(request: Http.Request, input: Input, headers: Http.Fields, key: string)
    requires request.path.Some?
    requires |key| > 0 && key[0] != 'H' && key[0] != 'C'
    ensures Lookup(AdapterGeneric.UnwrapRequestSpec(BaseEntries(request, input), headers, request.body, request.authority).0, key)
      == Lookup(BaseEntries(request, input), key)
  {
    AdapterGeneric.UntouchedKey(key);
    AdapterGeneric.UnwrapRequestKeeps(BaseEntries(request, input), headers, request.body, request.authority, key);
  }

  /** The values the hash literal gives. */
  lemma BaseLookups(request: Http.Request, input: Input)
    requires request.path.Some?
    ensures var base := BaseEntries(request, input);
      var path := request.path.value;
      var (name, port) := SplitAuthority(request.authority);
      && Lookup(base, SCRIPT_NAME) == Some(Str(""))
      && Lookup(base, PATH_INFO) == Some(StrOrNil(SplitTarget(path).0))
      && Lookup(base, REQUEST_PATH) == Some(StrOrNil(SplitTarget(path).0))
      && Lookup(base, REQUEST_URI) == Some(Str(path))
      && Lookup(base, QUERY_STRING) == Some(Str(SplitTarget(path).1))
      && Lookup(base, SERVER_NAME) == Some(StrOrNil(name))
      && Lookup(base, SERVER_PORT) == Some(StrOrNil(port))
      && Lookup(base, REQUEST_METHOD) == Some(StrOrNil(request.requestMethod))
      && Lookup(base, PROTOCOL_HTTP_REQUEST) == Some(RequestRef(request))
      && Lookup(base, RACK_INPUT) == Some(InputRef(input))
  {
    var base := BaseEntries(request, input);
    BaseDistinct(request, input);
    LookupAt(base, 0);
    LookupAt(base, 1);
    LookupAt(base, 5);
    LookupAt(base, 6);
    LookupAt(base, 7);
    LookupAt(base, 8);
    LookupAt(base, 9);
    LookupAt(base, 10);
    LookupAt(base, 13);
    LookupAt(base, 14);
  }

  // -----------------------------------------------------------------------
  // The response direction

  /** The body `make_response` hands back to the rack server. */
  datatype RackBodyOut =
    | Plain(body: Option<Http.Body>)   // the protocol-http body itself, nil included
    | CallOf(stream: Http.Body)        // `body.method(:call)`: a streaming body, called with the stream
    | EmptyArray                       // `[]`: the body was hijacked (rack 2)

  /** A rack response triple, with the headers as a Hash. */
  datatype Triple<V> = Triple(status: int, headers: Hash<V>, body: RackBodyOut)

  /** `body = response.body and body.stream?`. */
  predicate Streams(body: Option<Http.Body>)
  {
    body.Some? && Http.IsStream(body.value)
  }

  /**
    `make_response(env, response)`: the status as it is, the headers as
    `to_h` gives them (`multi` is the set of names protocol-http merges)
    with `rack.protocol` set to the response protocol when there is one,
    and a streaming body handed back as its `call` method.
  */
  function MakeResponse(response: Http.Response, multi: set<string>): (r: Triple<Http.HeaderValue>)
    ensures r.status == response.status
    ensures Streams(response.body) ==> r.body == CallOf(response.body.value)
    ensures !Streams(response.body) ==> r.body == Plain(response.body)
    ensures response.protocol.Some? ==> Lookup(r.headers, RACK_PROTOCOL) == response.protocol
    ensures response.protocol.None? ==> r.headers == Http.ToH(response.headers, multi)
  {
    var converted := Http.ToH(response.headers, multi);
    var body := if Streams(response.body) then CallOf(response.body.value) else Plain(response.body);
    if response.protocol.Some? then
      LookupStore(converted, RACK_PROTOCOL, response.protocol.value, RACK_PROTOCOL);
      Triple(response.status, Store(converted, RACK_PROTOCOL, response.protocol.value), body)
    else
      Triple(response.status, converted, body)
  }

  /**
    Every other name keeps what `to_h` gave it, so the response headers
    reach the rack server unchanged apart from `rack.protocol`.
  */
  lemma {:induction false} MakeResponseHeaders(response: Http.Response, multi: set<string>, key: string)
    requires key != RACK_PROTOCOL
    ensures Lookup(MakeResponse(response, multi).headers, key) == Lookup(Http.ToH(response.headers, multi), key)
  {
    if response.protocol.Some? {
      LookupStore(Http.ToH(response.headers, multi), RACK_PROTOCOL, response.protocol.value, key);
    }
  }

  // -----------------------------------------------------------------------
  // Generic#call with this adapter's env

  /**
    `call(request)` on a Rack3 adapter: `env` is what `make_environment`
    gave the application (or what it raised) and `input` the Input it holds.
  */
  method Call(app: AdapterGeneric.App, request: Http.Request, files: set<string>)
    returns (response: Http.Response, closed: bool, ghost env: Result<Entries>, ghost input: Input?)
    requires app.callable
    modifies request`headers
    ensures env.Raised? <==> request.path.None?
    ensures env.Ok? ==>
      && input != null && request.path.Some?
      && (env.value, request.headers)
         == AdapterGeneric.UnwrapRequestSpec(BaseEntries(request, input), old(request.headers), request.body, request.authority)
    ensures AdapterGeneric.Handled(app, env, request.IsHead(), files, response, closed)
  {
    var made;
    made, input := MakeEnvironment(request);
    var built := if made.Ok? then Ok(made.value.entries) else Raised(made.error);
    env := built;
    response, closed := AdapterGeneric.Call(app, built, request.IsHead(), files);
  }
}

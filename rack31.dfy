/**
  Protocol::Rack::Adapter::Rack31: the rack 3.1 env. It differs from the
  rack 3 one in two ways: it carries an empty list of response-finished
  callbacks, and `rack.input` is only present for a request body that is
  not empty (an empty body is closed instead). `make_response` is the
  rack 3 one.
*/
module AdapterRack31 {
  import opened Common
  import Http
  import opened RackEnv
  import opened RackInput
  import AdapterGeneric
  import AdapterRack3

  /** The rack keys in front of the CGI ones. */
  function RackEntries(request: Http.Request): Entries
    reads request`protocol
  {
    [ (PROTOCOL_HTTP_REQUEST, RequestRef(request)),
      (RACK_ERRORS, ErrorStream),
      (RACK_LOGGER, Logger),
      (RACK_PROTOCOL, ProtocolValue(request.protocol)),
      (RACK_RESPONSE_FINISHED, EmptyList) ]
  }

  /** The hash literal of `make_environment`, before `rack.input` and `unwrap_request`. */
  function BaseEntries(request: Http.Request): Entries
    reads request`scheme, request`authority, request`requestMethod, request`path, request`version, request`protocol
    requires request.path.Some?
  {
    RackEntries(request) + AdapterRack3.CgiEntries(request)
  }

  /** The literal with `rack.input` added when there is an Input. */
  function WithInput(base: Entries, input: Input?): Entries
  {
    if input == null then base else Store(base, RACK_INPUT, InputRef(input))
  }

  /** The rack keys are distinct and none of them is a CGI key. */
  lemma RackDistinct(request: Http.Request)
    requires request.path.Some?
    ensures DistinctKeys(RackEntries(request))
    ensures Apart(RackEntries(request), AdapterRack3.CgiEntries(request))
  {
  }

  lemma BaseDistinct(request: Http.Request)
    requires request.path.Some?
    ensures DistinctKeys(BaseEntries(request))
  {
    AdapterRack3.CgiDistinct(request);
    RackDistinct(request);
    DistinctApart(RackEntries(request), AdapterRack3.CgiEntries(request));
  }

  /**
    `make_environment(request)`. A request without a path raises
    NoMethodError. An empty body is closed and gets no Input; a body that
    is not empty gets a fresh Input under `rack.input`; no body gets
    neither. `input` is the Input the env holds, or null.
  */
  method MakeEnvironment(request: Http.Request) returns (r: Result<Env>, ghost input: Input?)
    modifies request`headers, request`bodyCloses
    ensures request.path.None? <==> r.Raised?
    ensures r.Raised? ==> r.error.cls == NoMethodError && request.headers == old(request.headers)
    ensures r.Raised? || request.body.None? || !Http.IsEmpty(request.body.value) ==> request.bodyCloses == old(request.bodyCloses)
    ensures r.Ok? && request.body.Some? && Http.IsEmpty(request.body.value) ==>
      request.bodyCloses == old(request.bodyCloses) + 1 && input == null
    ensures r.Ok? && request.body.None? ==> input == null
    ensures r.Ok? && request.body.Some? && !Http.IsEmpty(request.body.value) ==>
      && input != null && fresh(input) && input.Valid()
      && input.body == request.body && input.buffer.None? && input.pos == 0
    ensures r.Ok? ==>
      && fresh(r.value) && r.value.Valid() && request.path.Some?
      && (r.value.entries, request.headers)
         == AdapterGeneric.UnwrapRequestSpec(WithInput(BaseEntries(request), input), old(request.headers), request.body, request.authority)
  {
    if request.path.None? {
      return Raised(Error(NoMethodError, "undefined method 'split' for nil")), null;
    }
    BaseDistinct(request);
    var env := new Env(BaseEntries(request));
    input := AttachBody(request, env);
    ghost var attached := env.entries;
    assert attached == WithInput(BaseEntries(request), input);
    AdapterGeneric.UnwrapRequest(request, env);
    r := Ok(env);
  }

  /** The `if body = request.body` step: close an empty body, or put an Input around one that is not. */
  method AttachBody(request: Http.Request, env: Env) returns (ghost input: Input?)
    requires env.Valid()
    modifies env, request`bodyCloses
    ensures env.Valid() && env.entries == WithInput(old(env.entries), input)
    ensures request.body.None? || !Http.IsEmpty(request.body.value) ==> request.bodyCloses == old(request.bodyCloses)
    ensures request.body.Some? && Http.IsEmpty(request.body.value) ==>
      request.bodyCloses == old(request.bodyCloses) + 1 && input == null
    ensures request.body.None? ==> input == null
    ensures request.body.Some? && !Http.IsEmpty(request.body.value) ==>
      && input != null && fresh(input) && input.Valid()
      && input.body == request.body && input.buffer.None? && input.pos == 0
  {
    input := null;
    if request.body.Some? {
      if Http.IsEmpty(request.body.value) {
        request.bodyCloses := request.bodyCloses + 1;
      } else {
        var rackInput := new Input(request.body);
        input := rackInput;
        env.Set(RACK_INPUT, InputRef(rackInput));
      }
    }
  }

  /**
    `rack.input` is in the env exactly when there is an Input (a body that
    is not empty), and the response-finished callbacks start as an empty
    list.
  */
  lemma {:induction false} Environment(request: Http.Request, input: Input?, headers: Http.Fields)
    requires request.path.Some?
    ensures var env := AdapterGeneric.UnwrapRequestSpec(WithInput(BaseEntries(request), input), headers, request.body, request.authority).0;
      && (input == null ==> Lookup(env, RACK_INPUT).None?)
      && (input != null ==> Lookup(env, RACK_INPUT) == Some(InputRef(input)))
      && Lookup(env, RACK_RESPONSE_FINISHED) == Some(EmptyList)
  {
    var base := BaseEntries(request);
    var withInput := WithInput(base, input);
    BaseDistinct(request);
    LookupAt(base, 4);
    assert Lookup(base, RACK_INPUT).None?;
    if input != null {
      LookupStore(base, RACK_INPUT, InputRef(input), RACK_RESPONSE_FINISHED);
    }
    AdapterGeneric.UntouchedKey(RACK_INPUT);
    AdapterGeneric.UnwrapRequestKeeps(withInput, headers, request.body, request.authority, RACK_INPUT);
    AdapterGeneric.UntouchedKey(RACK_RESPONSE_FINISHED);
    AdapterGeneric.UnwrapRequestKeeps(withInput, headers, request.body, request.authority, RACK_RESPONSE_FINISHED);
  }

  /**
    Every other key `unwrap_request` does not write has the value the
    rack 3 env gives it: path, query, server name and port, script name,
    method, scheme, protocol and the request itself.
  */
  lemma {:induction false} SameAsRack3(request: Http.Request, input: Input?, input3: Input, headers: Http.Fields, key: string)
    requires request.path.Some?
    requires |key| > 0 && key[0] != 'H' && key[0] != 'C'
    requires key != RACK_INPUT && key != RACK_RESPONSE_FINISHED
    ensures Lookup(AdapterGeneric.UnwrapRequestSpec(WithInput(BaseEntries(request), input), headers, request.body, request.authority).0, key)
         == Lookup(AdapterGeneric.UnwrapRequestSpec(AdapterRack3.BaseEntries(request, input3), headers, request.body, request.authority).0, key)
  {
    var base := BaseEntries(request);
    var base3 := AdapterRack3.BaseEntries(request, input3);
    AdapterGeneric.UntouchedKey(key);
    AdapterGeneric.UnwrapRequestKeeps(WithInput(base, input), headers, request.body, request.authority, key);
    AdapterGeneric.UnwrapRequestKeeps(base3, headers, request.body, request.authority, key);
    if input != null {
      LookupStore(base, RACK_INPUT, InputRef(input), key);
    }
    SameLiteral(request, input3, key);
  }

  /** Apart from `rack.input` and the callbacks, the two hash literals agree. */
  lemma {:induction false} SameLiteral(request: Http.Request, input3: Input, key: string)
    requires request.path.Some?
    requires key != RACK_INPUT && key != RACK_RESPONSE_FINISHED
    ensures Lookup(BaseEntries(request), key) == Lookup(AdapterRack3.BaseEntries(request, input3), key)
  {
    var cgi := AdapterRack3.CgiEntries(request);
    var head := [(PROTOCOL_HTTP_REQUEST, RequestRef(request))];
    var middle := [(RACK_ERRORS, ErrorStream), (RACK_LOGGER, Logger), (RACK_PROTOCOL, ProtocolValue(request.protocol))];
    var callbacks := [(RACK_RESPONSE_FINISHED, EmptyList)];
    var rackInput := [(RACK_INPUT, InputRef(input3))];
    assert BaseEntries(request) == head + (middle + (callbacks + cgi));
    assert AdapterRack3.BaseEntries(request, input3) == head + (rackInput + (middle + cgi));
    LookupAppend(head, middle + (callbacks + cgi), key);
    LookupAppend(middle, callbacks + cgi, key);
    LookupAppend(callbacks, cgi, key);
    LookupAppend(head, rackInput + (middle + cgi), key);
    LookupAppend(rackInput, middle + cgi, key);
    LookupAppend(middle, cgi, key);
  }

  /**
    `call(request)` on a Rack31 adapter: `env` is what `make_environment`
    gave the application (or what it raised) and `input` the Input it holds,
    if any.
  */
  method Call(app: AdapterGeneric.App, request: Http.Request, files: set<string>)
    returns (response: Http.Response, closed: bool, ghost env: Result<Entries>, ghost input: Input?)
    requires app.callable
    modifies request`headers, request`bodyCloses
    ensures env.Raised? <==> request.path.None?
    ensures env.Ok? ==>
      && request.path.Some?
      && (env.value, request.headers)
         == AdapterGeneric.UnwrapRequestSpec(WithInput(BaseEntries(request), input), old(request.headers), request.body, request.authority)
    ensures AdapterGeneric.Handled(app, env, request.IsHead(), files, response, closed)
  {
    var made;
    made, input := MakeEnvironment(request);
    var built := if made.Ok? then Ok(made.value.entries) else Raised(made.error);
    env := built;
    response, closed := AdapterGeneric.Call(app, built, request.IsHead(), files);
  }
}

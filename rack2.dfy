/**
  Protocol::Rack::Adapter::Rack2: the rack 2 env (the rack 3 hash literal
  with the four version keys in front), the newline convention rack 2 uses
  for headers with several values, and hijacking of streaming responses.

  `Rack2.wrap(app)` puts the adapter behind the Rewindable middleware, so a
  call first gives the request body a chance to be made rewindable.

  `Response.wrap` calls `Response.wrap_headers`, not the adapter's own
  `wrap_headers`; the latter is modelled here as written, with the
  round trip it completes with `make_response`.
*/
module AdapterRack2 {
  import opened Common
  import Http
  import opened RackEnv
  import opened RackInput
  import AdapterGeneric
  import AdapterRack3
  import RackResponse
  import RackRewindable

  const RACK_VERSION := "rack.version"
  const RACK_MULTITHREAD := "rack.multithread"
  const RACK_MULTIPROCESS := "rack.multiprocess"
  const RACK_RUN_ONCE := "rack.run_once"
  const RACK_IS_HIJACK := "rack.hijack?"
  const RACK_HIJACK := "rack.hijack"

  /** The entries the rack 2 hash literal starts with. */
  const VERSION_ENTRIES: Entries :=
    [ (RACK_VERSION, Version(2, 0)),
      (RACK_MULTITHREAD, Bool(false)),
      (RACK_MULTIPROCESS, Bool(true)),
      (RACK_RUN_ONCE, Bool(false)) ]

  /** The hash literal of `make_environment`, before `unwrap_request`. */
  function BaseEntries(request: Http.Request, input: Input): Entries
    reads request`scheme, request`authority, request`requestMethod, request`path, request`version, request`protocol
    requires request.path.Some?
  {
    VERSION_ENTRIES + AdapterRack3.BaseEntries(request, input)
  }

  /** The version keys are distinct and none of them is one of the rack 3 literal's keys. */
  lemma VersionDistinct(request: Http.Request, input: Input)
    requires request.path.Some?
    ensures DistinctKeys(VERSION_ENTRIES)
    ensures Apart(VERSION_ENTRIES, AdapterRack3.RackEntries(request, input))
    ensures Apart(VERSION_ENTRIES, AdapterRack3.CgiEntries(request))
  {
  }

  lemma BaseDistinct(request: Http.Request, input: Input)
    requires request.path.Some?
    ensures DistinctKeys(BaseEntries(request, input))
  {
    var rack := AdapterRack3.RackEntries(request, input);
    var cgi := AdapterRack3.CgiEntries(request);
    VersionDistinct(request, input);
    AdapterRack3.RackDistinct(request, input);
    AdapterRack3.CgiDistinct(request);
    DistinctApart(VERSION_ENTRIES, rack);
    ApartAppend(VERSION_ENTRIES, rack, cgi);
    DistinctApart(VERSION_ENTRIES + rack, cgi);
    AppendAssoc(VERSION_ENTRIES, rack, cgi);
  }

  /**
    `make_environment(request)`: as for rack 3, with the version keys in
    front. A request without a path raises NoMethodError (`nil.split`).
  */
  method MakeEnvironment(request: Http.Request) returns (r: Result<Env>, ghost input: Input?)
    modifies request`headers
    ensures request.path.None? <==> r.Raised?
    ensures r.Raised? ==> r.error.cls == NoMethodError && request.headers == old(request.headers)
    ensures r.Ok? ==>
      && fresh(r.value) && r.value.Valid() && input != null && fresh(input)
      && input.Valid() && input.body == request.body && input.buffer.None? && input.pos == 0
    ensures r.Ok? ==>
      && input != null && request.path.Some?
      && (r.value.entries, request.headers)
         == AdapterGeneric.UnwrapRequestSpec(BaseEntries(request, input), old(request.headers), request.body, request.authority)
  {
    if request.path.None? {
      return Raised(Error(NoMethodError, "undefined method 'split' for nil")), null;
    }
    var rackInput := new Input(request.body);
    input := rackInput;
    BaseDistinct(request, rackInput);
    var env := new Env(BaseEntries(request, rackInput));
    AdapterGeneric.UnwrapRequest(request, env);
    r := Ok(env);
  }

  /** The rack 2 env advertises version 2.0, a multi-process, single-threaded, long-running server. */
  lemma {:induction false} Versions(request: Http.Request, input: Input, headers: Http.Fields)
    requires request.path.Some?
    ensures var env := AdapterGeneric.UnwrapRequestSpec(BaseEntries(request, input), headers, request.body, request.authority).0;
      && Lookup(env, RACK_VERSION) == Some(Version(2, 0))
      && Lookup(env, RACK_MULTITHREAD) == Some(Bool(false))
      && Lookup(env, RACK_MULTIPROCESS) == Some(Bool(true))
      && Lookup(env, RACK_RUN_ONCE) == Some(Bool(false))
  {
    VersionKept(request, input, headers, 0);
    VersionKept(request, input, headers, 1);
    VersionKept(request, input, headers, 2);
    VersionKept(request, input, headers, 3);
  }

  /** Each version entry survives `unwrap_request`. */
  lemma VersionKept(request: Http.Request, input: Input, headers: Http.Fields, i: nat)
    requires request.path.Some? && i < |VERSION_ENTRIES|
    ensures Lookup(AdapterGeneric.UnwrapRequestSpec(BaseEntries(request, input), headers, request.body, request.authority).0, VERSION_ENTRIES[i].0)
         == Some(VERSION_ENTRIES[i].1)
  {
    var key := VERSION_ENTRIES[i].0;
    assert DistinctKeys(VERSION_ENTRIES);
    LookupAt(VERSION_ENTRIES, i);
    LookupAppend(VERSION_ENTRIES, AdapterRack3.BaseEntries(request, input), key);
    assert key[0] == 'r';
    AdapterGeneric.UntouchedKey(key);
    AdapterGeneric.UnwrapRequestKeeps(BaseEntries(request, input), headers, request.body, request.authority, key);
  }

  /**
    Every key `unwrap_request` does not write and the version keys do not
    hold has the value the rack 3 env gives it: path, query, server name
    and port, script name and method are split and filled as for rack 3.
  */
  lemma {:induction false} SameAsRack3(request: Http.Request, input: Input, headers: Http.Fields, key: string)
    requires request.path.Some?
    requires |key| > 0 && key[0] != 'H' && key[0] != 'C'
    requires forall i :: 0 <= i < |VERSION_ENTRIES| ==> VERSION_ENTRIES[i].0 != key
    ensures Lookup(AdapterGeneric.UnwrapRequestSpec(BaseEntries(request, input), headers, request.body, request.authority).0, key)
         == Lookup(AdapterGeneric.UnwrapRequestSpec(AdapterRack3.BaseEntries(request, input), headers, request.body, request.authority).0, key)
  {
    var base := AdapterRack3.BaseEntries(request, input);
    AdapterGeneric.UntouchedKey(key);
    AdapterGeneric.UnwrapRequestKeeps(BaseEntries(request, input), headers, request.body, request.authority, key);
    AdapterGeneric.UnwrapRequestKeeps(base, headers, request.body, request.authority, key);
    LookupAppend(VERSION_ENTRIES, base, key);
  }

  // -----------------------------------------------------------------------
  // The newline convention

  /** One field named `key` per line of `text` (`text.split("\n")`). */
  function Lines(key: string, text: string): (r: Http.Fields)
    ensures forall j :: 0 <= j < |r| ==> r[j].0 == key && '\n' !in r[j].1
  {
    RackResponse.Expand(key, Http.Arr(Split(text, '\n')))
  }

  /** What calling `split` on an Array raises. */
  const SPLIT_ERROR := Error(NoMethodError, "undefined method 'split' for an instance of Array")

  /** Whether every value `wrap_headers` has to split is a string (an Array has no `split`). */
  predicate AllSplittable(fields: RackResponse.RackHeaders)
  {
    forall i :: 0 <= i < |fields| ==> StartsWith(Downcase(fields[i].0), RackResponse.RACK_PREFIX) || fields[i].1.Str?
  }

  /** The fields are all splittable when those before the last are and the last one is. */
  lemma SplittableSnoc(fields: RackResponse.RackHeaders)
    requires fields != []
    ensures var n := |fields| - 1;
      (AllSplittable(fields) <==>
        AllSplittable(fields[..n]) && (StartsWith(Downcase(fields[n].0), RackResponse.RACK_PREFIX) || fields[n].1.Str?))
  {
    var n := |fields| - 1;
    assert forall i :: 0 <= i < n ==> fields[..n][i] == fields[i];
  }

  /**
    What the adapter's `wrap_headers` builds: names downcased, `rack.*`
    names into the metadata, any other value split into one field per line;
    an Array value outside `rack.*` raises NoMethodError.
  */
  function WrapHeadersSpec(fields: RackResponse.RackHeaders): (r: Result<(Http.Fields, map<string, Http.HeaderValue>)>)
    ensures r.Ok? <==> AllSplittable(fields)
    ensures r.Raised? ==> r.error.cls == NoMethodError
    ensures r.Ok? ==> forall j :: 0 <= j < |r.value.0| ==>
      && NoUpper(r.value.0[j].0) && !StartsWith(r.value.0[j].0, RackResponse.RACK_PREFIX) && '\n' !in r.value.0[j].1
    ensures r.Ok? ==> forall k :: k in r.value.1 ==> NoUpper(k) && StartsWith(k, RackResponse.RACK_PREFIX)
  {
    if fields == [] then Ok(([], map[]))
    else
      var n := |fields| - 1;
      var prior := WrapHeadersSpec(fields[..n]);
      SplittableSnoc(fields);
      var (name, value) := fields[n];
      var key := Downcase(name);
      DowncaseIsLower(name);
      if prior.Raised? then prior
      else if StartsWith(key, RackResponse.RACK_PREFIX) then Ok((prior.value.0, prior.value.1[key := value]))
      else if value.Arr? then Raised(SPLIT_ERROR)
      else Ok((prior.value.0 + Lines(key, value.text), prior.value.1))
  }

  /** One step of the adapter's `wrap_headers`: the fields up to `i` inclusive, from those before `i`. */
  lemma WrapHeadersStep(fields: RackResponse.RackHeaders, i: nat)
    requires i < |fields|
    ensures var prior := WrapHeadersSpec(fields[..i]);
      var key := Downcase(fields[i].0);
      WrapHeadersSpec(fields[..i + 1])
        == if prior.Raised? then prior
           else if StartsWith(key, RackResponse.RACK_PREFIX) then Ok((prior.value.0, prior.value.1[key := fields[i].1]))
           else if fields[i].1.Arr? then Raised(SPLIT_ERROR)
           else Ok((prior.value.0 + Lines(key, fields[i].1.text), prior.value.1))
  {
    assert fields[..i + 1][..i] == fields[..i];
  }

  /** The adapter's `wrap_headers(fields)`. */
  method WrapHeaders(fields: RackResponse.RackHeaders) returns (r: Result<(Http.Fields, map<string, Http.HeaderValue>)>)
    ensures r == WrapHeadersSpec(fields)
  {
    var headers: Http.Fields, meta: map<string, Http.HeaderValue> := [], map[];
    var i := 0;
    while i < |fields|
      invariant 0 <= i <= |fields|
      invariant WrapHeadersSpec(fields[..i]) == Ok((headers, meta))
    {
      var (name, value) := fields[i];
      var key := Downcase(name);
      WrapHeadersStep(fields, i);
      if StartsWith(key, RackResponse.RACK_PREFIX) {
        meta := meta[key := value];
      } else if value.Arr? {
        r := Raised(SPLIT_ERROR);
        FirstRaiseStays(fields, i + 1);
        return;
      } else {
        headers := RackResponse.AddFields(headers, key, Split(value.text, '\n'));
      }
      i := i + 1;
    }
    assert fields[..i] == fields;
    r := Ok((headers, meta));
  }

  /** Once a prefix of the fields raises, so do all the fields: the first error is the one raised. */
  lemma {:induction false} FirstRaiseStays(fields: RackResponse.RackHeaders, n: nat)
    requires n <= |fields| && WrapHeadersSpec(fields[..n]).Raised?
    ensures WrapHeadersSpec(fields) == WrapHeadersSpec(fields[..n])
    decreases |fields| - n
  {
    if n < |fields| {
      assert fields[..n + 1][..n] == fields[..n];
      FirstRaiseStays(fields, n + 1);
    } else {
      assert fields[..n] == fields;
    }
  }

  /**
    The newline round trip: a value `make_response` joined with `"\n"` from
    non-empty lines without newlines is split by `wrap_headers` into one
    field per original value, in order.
  */
  lemma NewlineRoundTrip(name: string, values: seq<string>)
    requires !StartsWith(Downcase(name), RackResponse.RACK_PREFIX)
    requires forall k :: 0 <= k < |values| ==> values[k] != "" && '\n' !in values[k]
    ensures WrapHeadersSpec([(name, Http.Str(Join(values, "\n")))])
         == Ok((RackResponse.Expand(Downcase(name), Http.Arr(values)), map[]))
  {
    var text := Join(values, "\n");
    var fields := [(name, Http.Str(text))];
    var key := Downcase(name);
    assert fields[..0] == [] && fields[0] == (name, Http.Str(text));
    assert WrapHeadersSpec(fields[..0]) == Ok(([], map[]));
    assert WrapHeadersSpec(fields) == Ok(([] + Lines(key, text), map[]));
    SplitJoinRoundTrip(values, '\n');
    assert [] + Lines(key, text) == RackResponse.Expand(key, Http.Arr(values));
  }

  // -----------------------------------------------------------------------
  // make_response

  /** A rack 2 header value: a header (string or Array) or the hijacked body under `rack.hijack`. */
  datatype Value2 = Header(value: Http.HeaderValue) | Hijacked(body: Http.Body)

  /** The `transform_values!` block: an Array becomes its elements joined with `"\n"`. */
  function JoinLines(v: Value2): (r: Value2)
    ensures !(r.Header? && r.value.Arr?)
  {
    if v.Header? && v.value.Arr? then Header(Http.Str(Join(v.value.items, "\n"))) else v
  }

  /** Whether the streaming body goes to `rack.hijack`: the server offers hijacking in the env. */
  predicate Hijacks(env: Entries, response: Http.Response)
  {
    AdapterRack3.Streams(response.body) && Truthy(Fetch(env, RACK_IS_HIJACK))
  }

  /**
    `make_response(env, response)`: `to_h` of the headers (`multi` the
    names protocol-http merges), `rack.protocol` when the response has a
    protocol, the streaming body moved to `rack.hijack` when the server
    offers hijacking, and every Array value joined with newlines.
  */
  function MakeResponse(env: Entries, response: Http.Response, multi: set<string>): (r: AdapterRack3.Triple<Value2>)
    ensures r.status == response.status
    ensures Hijacks(env, response) ==> r.body == AdapterRack3.EmptyArray
    ensures !Hijacks(env, response) ==> r.body == AdapterRack3.Plain(response.body)
    ensures forall i :: 0 <= i < |r.headers| ==> !(r.headers[i].1.Header? && r.headers[i].1.value.Arr?)
  {
    var converted := MapValues(Http.ToH(response.headers, multi), (v: Http.HeaderValue) => Header(v));
    var described := if response.protocol.Some? then Store(converted, RACK_PROTOCOL, Header(response.protocol.value)) else converted;
    var hijack := Hijacks(env, response);
    var headers := if hijack then Store(described, RACK_HIJACK, Hijacked(response.body.value)) else described;
    AdapterRack3.Triple(response.status, MapValues(headers, JoinLines),
                        if hijack then AdapterRack3.EmptyArray else AdapterRack3.Plain(response.body))
  }

  /**
    What each name holds after `make_response`: the hijacked body under
    `rack.hijack` when hijacking, the protocol under `rack.protocol` when
    there is one, and otherwise what `to_h` gave, with Arrays joined by
    newlines.
  */
  lemma {:induction false} MakeResponseHeaders(env: Entries, response: Http.Response, multi: set<string>, key: string)
    ensures var found := Lookup(MakeResponse(env, response, multi).headers, key);
      var converted := Lookup(Http.ToH(response.headers, multi), key);
      if key == RACK_HIJACK && Hijacks(env, response) then found == Some(Hijacked(response.body.value))
      else if key == RACK_PROTOCOL && response.protocol.Some? then found == Some(JoinLines(Header(response.protocol.value)))
      else found == (if converted.Some? then Some(JoinLines(Header(converted.value))) else None)
  {
    var h := Http.ToH(response.headers, multi);
    var header := (v: Http.HeaderValue) => Header(v);
    var converted := MapValues(h, header);
    LookupMapValues(h, header, key);
    var described := converted;
    if response.protocol.Some? {
      described := Store(converted, RACK_PROTOCOL, Header(response.protocol.value));
      LookupStore(converted, RACK_PROTOCOL, Header(response.protocol.value), key);
    }
    var headers := described;
    if Hijacks(env, response) {
      headers := Store(described, RACK_HIJACK, Hijacked(response.body.value));
      LookupStore(described, RACK_HIJACK, Hijacked(response.body.value), key);
    }
    assert MakeResponse(env, response, multi).headers == MapValues(headers, JoinLines);
    LookupMapValues(headers, JoinLines, key);
  }

  /**
    A header protocol-http merges, sent with several values, reaches the
    rack server as one newline-joined string, and the adapter's
    `wrap_headers` splits it back into one field per value.
  */
  lemma {:induction false} MergedHeaderRoundTrip(env: Entries, response: Http.Response, multi: set<string>, key: string)
    requires key in multi && key != RACK_HIJACK && key != RACK_PROTOCOL
    requires !StartsWith(key, RackResponse.RACK_PREFIX) && NoUpper(key)
    requires Http.NamedValues(response.headers, key) != []
    requires forall k :: 0 <= k < |Http.NamedValues(response.headers, key)| ==>
      Http.NamedValues(response.headers, key)[k] != "" && '\n' !in Http.NamedValues(response.headers, key)[k]
    ensures var values := Http.NamedValues(response.headers, key);
      && Lookup(MakeResponse(env, response, multi).headers, key) == Some(Header(Http.Str(Join(values, "\n"))))
      && WrapHeadersSpec([(key, Http.Str(Join(values, "\n")))]) == Ok((RackResponse.Expand(key, Http.Arr(values)), map[]))
  {
    Http.ToHValues(response.headers, multi, key);
    MakeResponseHeaders(env, response, multi, key);
    DowncaseNoUpper(key);
    NewlineRoundTrip(key, Http.NamedValues(response.headers, key));
  }

  // -----------------------------------------------------------------------
  // Rack2.wrap(app).call(request)

  /**
    `Rack2.wrap(app)` answering `call(request)`: the Rewindable middleware
    first replaces a body that needs rewinding (judged on the headers as
    they arrive), then the adapter builds the env and calls the app.
  */
  method Call(app: AdapterGeneric.App, request: Http.Request, files: set<string>)
    returns (response: Http.Response, closed: bool, ghost env: Result<Entries>, ghost input: Input?)
    requires app.callable
    modifies request`headers, request`body
    ensures old(request.body).Some? && RackRewindable.NeedsRewind(request.requestMethod, old(request.headers)) ==>
      request.body == Some(Http.Rewindable(old(request.body).value))
    ensures old(request.body).None? || !RackRewindable.NeedsRewind(request.requestMethod, old(request.headers)) ==>
      request.body == old(request.body)
    ensures env.Raised? <==> request.path.None?
    ensures env.Ok? ==>
      && input != null && request.path.Some?
      && (env.value, request.headers)
         == AdapterGeneric.UnwrapRequestSpec(BaseEntries(request, input), old(request.headers), request.body, request.authority)
    ensures AdapterGeneric.Handled(app, env, request.IsHead(), files, response, closed)
  {
    RackRewindable.RewindBody(request);
    var made;
    made, input := MakeEnvironment(request);
    var built := if made.Ok? then Ok(made.value.entries) else Raised(made.error);
    env := built;
    response, closed := AdapterGeneric.Call(app, built, request.IsHead(), files);
  }
}

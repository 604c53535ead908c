/**
  Protocol::Rack::Adapter::Generic: the behaviour every adapter shares.

  `unwrap_headers` and `unwrap_request` write the request's headers, content
  type, content length and host into the env in place, and take
  `content-type` out of the request's headers. `call` runs the application
  and turns whatever it raises into a 500 response.

  `request.remote_address` (REMOTE_ADDR) is not part of this model; the
  logger calls are dropped.
*/
module AdapterGeneric {
  import opened Common
  import Http
  import opened RackEnv
  import RackResponse
  import BodyWrap

  const HTTP_PREFIX := "HTTP_"
  const CONTENT_TYPE_FIELD := "content-type"

  /** The env key of a request header: `HTTP_`, then the name upcased with `-` turned to `_`. */
  function HttpKey(name: string): (r: string)
    ensures StartsWith(r, HTTP_PREFIX) && |r| == |HTTP_PREFIX| + |name|
    ensures forall c :: c in r[|HTTP_PREFIX|..] ==> c != '-' && !IsLower(c)
    ensures forall i :: 0 <= i < |name| ==>
      LowerChar(r[|HTTP_PREFIX|..][i]) == if name[i] == '-' then '_' else LowerChar(name[i])
  {
    var key := Tr(Upcase(name), '-', '_');
    assert (HTTP_PREFIX + key)[|HTTP_PREFIX|..] == key;
    HTTP_PREFIX + key
  }

  /**
    How `"#{value}"` renders an env value. Only strings are ever stored under
    `HTTP_` keys by the adapters; the other cases follow Ruby's `to_s` where
    it has no object identity in it.
  */
  function Interpolate(v: Value): string
  {
    match v
    case Str(s) => s
    case Bool(b) => if b then "true" else "false"
    case Nil => ""
    case Version(major, minor) => "[" + IntString(major) + ", " + IntString(minor) + "]"
    case EmptyList => "[]"
    case _ => "#<object>"
  }

  /**
    The env `unwrap_headers` leaves, one field after the other: a key that
    already holds a truthy value gets `;` and the new value appended,
    otherwise it takes the value.
  */
  function UnwrapHeadersSpec(fields: Http.Fields, entries: Entries): Entries
  {
    if fields == [] then entries
    else
      var before := UnwrapHeadersSpec(fields[..|fields| - 1], entries);
      var (name, value) := fields[|fields| - 1];
      var key := HttpKey(name);
      var current := Fetch(before, key);
      Store(before, key, if Truthy(current) then Str(Interpolate(current) + ";" + value) else Str(value))
  }

  /** `unwrap_headers(headers, env)`. */
  method UnwrapHeaders(headers: Http.Fields, env: Env)
    requires env.Valid()
    modifies env
    ensures env.Valid() && env.entries == UnwrapHeadersSpec(headers, old(env.entries))
  {
    var i := 0;
    while i < |headers|
      invariant 0 <= i <= |headers|
      invariant env.Valid() && env.entries == UnwrapHeadersSpec(headers[..i], old(env.entries))
    {
      var (name, value) := headers[i];
      var key := HttpKey(name);
      var current := env.Get(key);
      assert headers[..i + 1][..i] == headers[..i];
      if Truthy(current) {
        env.Set(key, Str(Interpolate(current) + ";" + value));
      } else {
        env.Set(key, Str(value));
      }
      i := i + 1;
    }
    assert headers[..i] == headers;
  }

  /** The values of the fields whose name maps to the env key `key`, in order. */
  function ValuesAt(fields: Http.Fields, key: string): seq<string>
  {
    if fields == [] then []
    else ValuesAt(fields[..|fields| - 1], key)
         + (if HttpKey(fields[|fields| - 1].0) == key then [fields[|fields| - 1].1] else [])
  }

  /**
    Duplicate headers are merged into one env value: starting from a key
    that holds nothing truthy, the key ends up holding the values of every
    field that maps to it, joined by `;` in the order they came; a key no
    field maps to is left as it was.
  */
  lemma {:induction false} UnwrapHeadersJoins(fields: Http.Fields, entries: Entries, key: string)
    requires !Truthy(Fetch(entries, key))
    ensures ValuesAt(fields, key) == [] ==>
      Lookup(UnwrapHeadersSpec(fields, entries), key) == Lookup(entries, key)
    ensures ValuesAt(fields, key) != [] ==>
      Lookup(UnwrapHeadersSpec(fields, entries), key) == Some(Str(Join(ValuesAt(fields, key), ";")))
  {
    if fields == [] {
      assert ValuesAt(fields, key) == [];
    } else {
      var prefix := fields[..|fields| - 1];
      var (name, value) := fields[|fields| - 1];
      UnwrapHeadersJoins(prefix, entries, key);
      var before := UnwrapHeadersSpec(prefix, entries);
      var current := Fetch(before, HttpKey(name));
      var stored := if Truthy(current) then Str(Interpolate(current) + ";" + value) else Str(value);
      LookupStore(before, HttpKey(name), stored, key);
      assert UnwrapHeadersSpec(fields, entries) == Store(before, HttpKey(name), stored);
      if HttpKey(name) == key {
        assert ValuesAt(fields, key) == ValuesAt(prefix, key) + [value];
        JoinStep(Fetch(before, key), ValuesAt(prefix, key), value);
      } else {
        assert ValuesAt(fields, key) == ValuesAt(prefix, key);
      }
    }
  }

  /**
    One more field for a key: the value already stored (nothing truthy when
    no earlier field mapped to the key, their join otherwise) with the new
    value added is the join of all of them.
  */
  lemma JoinStep(current: Value, earlier: seq<string>, value: string)
    requires earlier == [] ==> !Truthy(current)
    requires earlier != [] ==> current == Str(Join(earlier, ";"))
    ensures (if Truthy(current) then Str(Interpolate(current) + ";" + value) else Str(value))
         == Str(Join(earlier + [value], ";"))
  {
    var values := earlier + [value];
    if earlier == [] {
      assert values == [value];
    } else {
      assert values[..|values| - 1] == earlier;
    }
  }

  /** `unwrap_headers` writes nothing but `HTTP_` keys. */
  lemma {:induction false} UnwrapHeadersKeeps(fields: Http.Fields, entries: Entries, key: string)
    requires !StartsWith(key, HTTP_PREFIX)
    ensures Lookup(UnwrapHeadersSpec(fields, entries), key) == Lookup(entries, key)
  {
    if fields != [] {
      var prefix := fields[..|fields| - 1];
      var (name, value) := fields[|fields| - 1];
      UnwrapHeadersKeeps(prefix, entries, key);
      var before := UnwrapHeadersSpec(prefix, entries);
      var current := Fetch(before, HttpKey(name));
      var stored := if Truthy(current) then Str(Interpolate(current) + ";" + value) else Str(value);
      assert StartsWith(HttpKey(name), HTTP_PREFIX);
      LookupStore(before, HttpKey(name), stored, key);
    }
  }

  /** Two characters that the key mangling maps alike are the same letter up to case. */
  lemma CharCase(c: char, d: char)
    requires c != '_' && d != '_'
    requires (if UpperChar(c) == '-' then '_' else UpperChar(c)) == (if UpperChar(d) == '-' then '_' else UpperChar(d))
    ensures LowerChar(c) == LowerChar(d)
  {
  }

  /**
    For names without `_` the mangling loses nothing but letter case: two
    names that give the same env key are the same name once downcased.
  */
  lemma HttpKeyCase(a: string, b: string)
    requires '_' !in a && '_' !in b && HttpKey(a) == HttpKey(b)
    ensures Downcase(a) == Downcase(b)
  {
    var ta := Tr(Upcase(a), '-', '_');
    var tb := Tr(Upcase(b), '-', '_');
    assert ta == HttpKey(a)[|HTTP_PREFIX|..];
    assert tb == HttpKey(b)[|HTTP_PREFIX|..];
    forall i | 0 <= i < |a|
      ensures LowerChar(a[i]) == LowerChar(b[i])
    {
      assert ta[i] == tb[i];
      CharCase(a[i], b[i]);
    }
  }

  // -----------------------------------------------------------------------
  // unwrap_request

  /** The keys `unwrap_request` writes directly are not `HTTP_` keys, except HTTP_HOST. */
  lemma DirectKeys()
    ensures !StartsWith(CONTENT_TYPE, HTTP_PREFIX) && !StartsWith(CONTENT_LENGTH, HTTP_PREFIX)
    ensures StartsWith(HTTP_HOST, HTTP_PREFIX)
  {
    assert CONTENT_TYPE[..|HTTP_PREFIX|][0] == 'C';
    assert CONTENT_LENGTH[..|HTTP_PREFIX|][0] == 'C';
  }

  /** The length `unwrap_request` sees: that of the body, when there is one and it is known. */
  function BodyLength(body: Option<Http.Body>): Option<int>
  {
    if body.Some? then Http.Length(body.value) else None
  }

  /** The first two steps of `unwrap_request`: CONTENT_TYPE and CONTENT_LENGTH. */
  function ContentStage(entries: Entries, contentType: Option<string>, length: Option<int>): Entries
  {
    var typed := if contentType.Some? then Store(entries, CONTENT_TYPE, Str(contentType.value)) else entries;
    if length.Some? then Store(typed, CONTENT_LENGTH, Str(IntString(length.value))) else typed
  }

  /** The last step: `env[HTTP_HOST] ||= request.authority`. */
  function HostStage(entries: Entries, authority: Option<string>): Entries
  {
    if Truthy(Fetch(entries, HTTP_HOST)) then entries else Store(entries, HTTP_HOST, StrOrNil(authority))
  }

  /**
    What `unwrap_request` leaves: the env and the request's header fields.
    `content-type` is deleted from the headers and stored as CONTENT_TYPE; a
    body of known length gives CONTENT_LENGTH; the remaining headers are
    unwrapped; HTTP_HOST falls back to the authority (nil when there is none).
  */
  function UnwrapRequestSpec(entries: Entries, headers: Http.Fields, body: Option<Http.Body>, authority: Option<string>)
    : (Entries, Http.Fields)
  {
    var (rest, contentType) := Http.Delete(headers, CONTENT_TYPE_FIELD);
    (HostStage(UnwrapHeadersSpec(rest, ContentStage(entries, contentType, BodyLength(body))), authority), rest)
  }

  /** `unwrap_request(request, env)`. */
  method UnwrapRequest(request: Http.Request, env: Env)
    requires env.Valid()
    modifies request`headers, env
    ensures env.Valid()
    ensures (env.entries, request.headers)
      == UnwrapRequestSpec(old(env.entries), old(request.headers), request.body, request.authority)
  {
    var (rest, contentType) := Http.Delete(request.headers, CONTENT_TYPE_FIELD);
    request.headers := rest;
    if contentType.Some? {
      env.Set(CONTENT_TYPE, Str(contentType.value));
    }
    if request.body.Some? {
      var length := Http.Length(request.body.value);
      if length.Some? {
        env.Set(CONTENT_LENGTH, Str(IntString(length.value)));
      }
    }
    UnwrapHeaders(request.headers, env);
    if !Truthy(env.Get(HTTP_HOST)) {
      env.Set(HTTP_HOST, StrOrNil(request.authority));
    }
  }

  /** What the first two steps store, and that they touch no other key. */
  lemma ContentStageLookup(entries: Entries, contentType: Option<string>, length: Option<int>, key: string)
    ensures key == CONTENT_TYPE ==> (Lookup(ContentStage(entries, contentType, length), key)
      == if contentType.Some? then Some(Str(contentType.value)) else Lookup(entries, key))
    ensures key == CONTENT_LENGTH ==> (Lookup(ContentStage(entries, contentType, length), key)
      == if length.Some? then Some(Str(IntString(length.value))) else Lookup(entries, key))
    ensures key != CONTENT_TYPE && key != CONTENT_LENGTH ==>
      Lookup(ContentStage(entries, contentType, length), key) == Lookup(entries, key)
  {
    var typed := if contentType.Some? then Store(entries, CONTENT_TYPE, Str(contentType.value)) else entries;
    LookupStore(entries, CONTENT_TYPE, Str(contentType.GetOr("")), key);
    LookupStore(typed, CONTENT_LENGTH, Str(IntString(length.GetOr(0))), key);
  }

  /** What the last step stores, and that it touches no other key. */
  lemma HostStageLookup(entries: Entries, authority: Option<string>, key: string)
    ensures key == HTTP_HOST ==> (Lookup(HostStage(entries, authority), key)
      == if Truthy(Fetch(entries, HTTP_HOST)) then Lookup(entries, key) else Some(StrOrNil(authority)))
    ensures key != HTTP_HOST ==> Lookup(HostStage(entries, authority), key) == Lookup(entries, key)
  {
    LookupStore(entries, HTTP_HOST, StrOrNil(authority), key);
  }

  /**
    CONTENT_TYPE is the deleted `content-type` value when the request had
    one (and is otherwise left alone), and no `content-type` field remains in
    the request's headers.
  */
  lemma UnwrapRequestContentType(entries: Entries, headers: Http.Fields, body: Option<Http.Body>, authority: Option<string>)
    ensures var (env, rest) := UnwrapRequestSpec(entries, headers, body, authority);
      && Lookup(env, CONTENT_TYPE)
         == (if Http.Get(headers, CONTENT_TYPE_FIELD).Some? then Some(Str(Http.Get(headers, CONTENT_TYPE_FIELD).value))
             else Lookup(entries, CONTENT_TYPE))
      && forall i :: 0 <= i < |rest| ==> !Http.Named(rest[i], CONTENT_TYPE_FIELD)
  {
    var (rest, contentType) := Http.Delete(headers, CONTENT_TYPE_FIELD);
    var sized := ContentStage(entries, contentType, BodyLength(body));
    ContentStageLookup(entries, contentType, BodyLength(body), CONTENT_TYPE);
    DirectKeys();
    UnwrapHeadersKeeps(rest, sized, CONTENT_TYPE);
    HostStageLookup(UnwrapHeadersSpec(rest, sized), authority, CONTENT_TYPE);
  }

  /**
    CONTENT_LENGTH is set exactly when there is a body whose length is known,
    to a decimal string that `Integer()` reads back as that length.
  */
  lemma UnwrapRequestContentLength(entries: Entries, headers: Http.Fields, body: Option<Http.Body>, authority: Option<string>)
    ensures var env := UnwrapRequestSpec(entries, headers, body, authority).0;
      var length := if body.Some? then Http.Length(body.value) else None;
      && (length.Some? ==> Lookup(env, CONTENT_LENGTH) == Some(Str(IntString(length.value)))
                           && ParseInteger(IntString(length.value)) == Ok(length.value))
      && (length.None? ==> Lookup(env, CONTENT_LENGTH) == Lookup(entries, CONTENT_LENGTH))
  {
    var (rest, contentType) := Http.Delete(headers, CONTENT_TYPE_FIELD);
    var sized := ContentStage(entries, contentType, BodyLength(body));
    ContentStageLookup(entries, contentType, BodyLength(body), CONTENT_LENGTH);
    DirectKeys();
    UnwrapHeadersKeeps(rest, sized, CONTENT_LENGTH);
    HostStageLookup(UnwrapHeadersSpec(rest, sized), authority, CONTENT_LENGTH);
    if BodyLength(body).Some? {
      IntRoundTrip(BodyLength(body).value);
    }
  }

  /**
    HTTP_HOST: when the env held nothing truthy there, a `host` header wins
    (its values joined by `;`), and otherwise the request's authority is
    used, nil when there is none.
  */
  lemma UnwrapRequestHost(entries: Entries, headers: Http.Fields, body: Option<Http.Body>, authority: Option<string>)
    requires !Truthy(Fetch(entries, HTTP_HOST))
    ensures var rest := Http.Without(headers, CONTENT_TYPE_FIELD);
      var env := UnwrapRequestSpec(entries, headers, body, authority).0;
      Lookup(env, HTTP_HOST)
        == Some(if ValuesAt(rest, HTTP_HOST) != [] then Str(Join(ValuesAt(rest, HTTP_HOST), ";")) else StrOrNil(authority))
  {
    var (rest, contentType) := Http.Delete(headers, CONTENT_TYPE_FIELD);
    var sized := ContentStage(entries, contentType, BodyLength(body));
    ContentStageLookup(entries, contentType, BodyLength(body), HTTP_HOST);
    UnwrapHeadersJoins(rest, sized, HTTP_HOST);
    HostStageLookup(UnwrapHeadersSpec(rest, sized), authority, HTTP_HOST);
  }

  /**
    Every key other than CONTENT_TYPE, CONTENT_LENGTH and the `HTTP_` keys
    keeps the value it had before `unwrap_request`.
  */
  lemma UnwrapRequestKeeps(entries: Entries, headers: Http.Fields, body: Option<Http.Body>, authority: Option<string>, key: string)
    requires !StartsWith(key, HTTP_PREFIX) && key != CONTENT_TYPE && key != CONTENT_LENGTH
    ensures Lookup(UnwrapRequestSpec(entries, headers, body, authority).0, key) == Lookup(entries, key)
  {
    var (rest, contentType) := Http.Delete(headers, CONTENT_TYPE_FIELD);
    var sized := ContentStage(entries, contentType, BodyLength(body));
    ContentStageLookup(entries, contentType, BodyLength(body), key);
    UnwrapHeadersKeeps(rest, sized, key);
    DirectKeys();
    HostStageLookup(UnwrapHeadersSpec(rest, sized), authority, key);
  }

  /** A key whose first letter is neither `H` nor `C` is none of the keys `unwrap_request` writes. */
  lemma UntouchedKey(key: string)
    requires |key| > 0 && key[0] != 'H' && key[0] != 'C'
    ensures !StartsWith(key, HTTP_PREFIX) && key != CONTENT_TYPE && key != CONTENT_LENGTH
  {
  }

  /**
    The content type never shows up as HTTP_CONTENT_TYPE: when no header
    name contains `_`, the key `content-type` maps to is left as it was.
  */
  lemma UnwrapRequestNoHttpContentType(entries: Entries, headers: Http.Fields, body: Option<Http.Body>, authority: Option<string>)
    requires forall i :: 0 <= i < |headers| ==> '_' !in headers[i].0
    requires !Truthy(Fetch(entries, HttpKey(CONTENT_TYPE_FIELD)))
    ensures var env := UnwrapRequestSpec(entries, headers, body, authority).0;
      Lookup(env, HttpKey(CONTENT_TYPE_FIELD)) == Lookup(entries, HttpKey(CONTENT_TYPE_FIELD))
  {
    var key := HttpKey(CONTENT_TYPE_FIELD);
    var (rest, contentType) := Http.Delete(headers, CONTENT_TYPE_FIELD);
    var sized := ContentStage(entries, contentType, BodyLength(body));
    ContentTypeKey();
    ContentTypeName();
    DeletedMapsToNothing(headers, CONTENT_TYPE_FIELD);
    ContentStageLookup(entries, contentType, BodyLength(body), key);
    UnwrapHeadersJoins(rest, sized, key);
    HostStageLookup(UnwrapHeadersSpec(rest, sized), authority, key);
  }

  /** `HTTP_CONTENT_TYPE` is none of the keys `unwrap_request` writes directly. */
  lemma ContentTypeKey()
    ensures var key := HttpKey(CONTENT_TYPE_FIELD);
      key != CONTENT_TYPE && key != CONTENT_LENGTH && key != HTTP_HOST
  {
    var key := HttpKey(CONTENT_TYPE_FIELD);
    assert StartsWith(key, HTTP_PREFIX);
    DirectKeys();
    assert |key| != |HTTP_HOST|;
  }

  /**
    Once a lower-case name without `_` is deleted, no field left maps to its
    `HTTP_` key, provided no header name contains `_`.
  */
  lemma {:induction false} DeletedMapsToNothing(headers: Http.Fields, name: string)
    requires '_' !in name && Downcase(name) == name
    requires forall i :: 0 <= i < |headers| ==> '_' !in headers[i].0
    ensures ValuesAt(Http.Without(headers, name), HttpKey(name)) == []
  {
    var rest := Http.Without(headers, name);
    RackResponse.WithoutKeeps(headers, name);
    forall i | 0 <= i < |rest|
      ensures '_' !in rest[i].0
    {
      var j :| 0 <= j < |headers| && headers[j] == rest[i];
    }
    NoneMapsTo(rest, name);
  }

  lemma ContentTypeName()
    ensures Downcase(CONTENT_TYPE_FIELD) == CONTENT_TYPE_FIELD && '_' !in CONTENT_TYPE_FIELD
  {
    DowncaseNoUpper(CONTENT_TYPE_FIELD);
    NoUnderscore();
  }

  lemma NoUnderscore()
    ensures '_' !in CONTENT_TYPE_FIELD
  {
    forall i | 0 <= i < |CONTENT_TYPE_FIELD|
      ensures CONTENT_TYPE_FIELD[i] != '_'
    {
    }
  }

  /** Fields without `_` in their names and not named `name` contribute nothing to `name`'s key. */
  lemma {:induction false} NoneMapsTo(fields: Http.Fields, name: string)
    requires '_' !in name && Downcase(name) == name
    requires forall i :: 0 <= i < |fields| ==> '_' !in fields[i].0 && !Http.Named(fields[i], name)
    ensures ValuesAt(fields, HttpKey(name)) == []
  {
    if fields != [] {
      NoneMapsTo(fields[..|fields| - 1], name);
      var last := fields[|fields| - 1].0;
      if HttpKey(last) == HttpKey(name) {
        HttpKeyCase(last, name);
        assert false;
      }
    }
  }

  // -----------------------------------------------------------------------
  // The application and call

  /** What the rack application's `call(env)` does: return a triple or raise. */
  datatype AppResult =
    | Returned(status: int, headers: RackResponse.RackHeaders, body: Http.RackBody)
    | Threw(error: Error)

  /** A rack application: whether it responds to `call`, and what calling it with an env gives. */
  datatype App = App(callable: bool, respond: Entries -> AppResult)

  /** `Generic.new(app)`: an app that does not respond to `call` is refused. */
  function New(app: App): (r: Result<App>)
    ensures r.Ok? <==> app.callable
    ensures r.Ok? ==> r.value == app
    ensures r.Raised? ==> r.error.cls == ArgumentError
  {
    if app.callable then Ok(app) else Raised(Error(ArgumentError, "App must be callable!"))
  }

  /**
    What `call(request)` answers once `make_environment` has run (`env` is
    the env it built, or what it raised), with `head` for `request.head?`:
    whatever goes wrong becomes the 500 response for that exception, and
    when it was `Response.wrap` that raised, the rack body is closed if it
    can be; otherwise the response is the wrapped triple. `closed` says
    whether the rack body's `close` was called.
  */
  ghost predicate Handled(app: App, env: Result<Entries>, head: bool, files: set<string>, response: Http.Response, closed: bool)
  {
    && (env.Raised? ==> response == Http.ForException(env.error) && !closed)
    && (env.Ok? && app.respond(env.value).Threw? ==>
          response == Http.ForException(app.respond(env.value).error) && !closed)
    && (env.Ok? && app.respond(env.value).Returned? ==>
          var Returned(status, fields, body) := app.respond(env.value);
          var (headers, meta) := RackResponse.WrapHeadersSpec(fields);
          var w := BodyWrap.Wrap(status, Http.Extract(headers, RackResponse.HOP_HEADERS).0, body, files);
          && (w.Raised? ==> response == Http.ForException(w.error) && closed == Http.RespondsToClose(body))
          && (w.Ok? ==>
                && response.status == status
                && response.headers == w.value.headers
                && response.body == (if head then Some(Http.Head(w.value.body)) else w.value.body)
                && response.protocol == (if RackResponse.RACK_PROTOCOL in meta then Some(meta[RackResponse.RACK_PROTOCOL]) else None)
                && closed == w.value.closedOriginal))
  }

  /**
    `call` never raises: its response is the 500 failure response or
    carries the status the application returned, and the rack body is only
    closed when it responds to `close`.
  */
  lemma NeverRaises(app: App, env: Result<Entries>, head: bool, files: set<string>, response: Http.Response, closed: bool)
    requires Handled(app, env, head, files, response, closed)
    ensures response.status == 500 || (env.Ok? && app.respond(env.value).Returned? && response.status == app.respond(env.value).status)
    ensures closed ==> env.Ok? && app.respond(env.value).Returned? && Http.RespondsToClose(app.respond(env.value).body)
  {
    if env.Ok? && app.respond(env.value).Returned? {
      var Returned(status, fields, body) := app.respond(env.value);
      var (headers, meta) := RackResponse.WrapHeadersSpec(fields);
      var w := BodyWrap.Wrap(status, Http.Extract(headers, RackResponse.HOP_HEADERS).0, body, files);
      if w.Raised? {
        assert response.status == 500;
      }
    }
  }

  /**
    `call(request)` once `make_environment` has run. The app is callable
    because `New` refuses any other.
  */
  method Call(app: App, env: Result<Entries>, head: bool, files: set<string>) returns (response: Http.Response, closed: bool)
    requires app.callable
    ensures Handled(app, env, head, files, response, closed)
  {
    if env.Raised? {
      return Http.ForException(env.error), false;
    }
    var result := app.respond(env.value);
    if result.Threw? {
      return Http.ForException(result.error), false;
    }
    var wrapped := RackResponse.Wrap(result.status, result.headers, result.body, head, files);
    if wrapped.Raised? {
      return Http.ForException(wrapped.error), Http.RespondsToClose(result.body);
    }
    response, closed := wrapped.value.0, wrapped.value.1;
  }
}

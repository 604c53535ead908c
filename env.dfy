/**
  The rack `env`: a Ruby Hash from names to values, kept in insertion order
  (`Request.headers` walks it in that order).
*/
module RackEnv {
  import opened Common
  import Http
  import opened RackInput

  /** The values the adapter puts in an env. */
  datatype Value =
    | Nil
    | Str(s: string)
    | Bool(b: bool)
    | Version(major: int, minor: int)      // [2, 0]
    | Protocol(protocol: Http.HeaderValue) // request.protocol
    | RequestRef(request: Http.Request)
    | InputRef(input: Input)
    | EmptyList                            // [] (response-finished callbacks)
    | ErrorStream                          // $stderr
    | Logger                               // Console.logger

  /** Ruby truthiness: everything but nil and false. */
  predicate Truthy(v: Value)
  {
    !(v.Nil? || v == Bool(false))
  }

  type Entries = Hash<Value>

  /** `env[key]` as Ruby reads it: nil when the key is absent. */
  function Fetch(entries: Entries, key: string): Value
  {
    Lookup(entries, key).GetOr(Nil)
  }

  // -----------------------------------------------------------------------
  // Keys (the CGI meta-variables of section 4.1 of RFC 3875 and rack's own)

  const HTTP_HOST := "HTTP_HOST"
  const PATH_INFO := "PATH_INFO"
  const REQUEST_METHOD := "REQUEST_METHOD"
  const REQUEST_PATH := "REQUEST_PATH"
  const REQUEST_URI := "REQUEST_URI"
  const SCRIPT_NAME := "SCRIPT_NAME"
  const QUERY_STRING := "QUERY_STRING"
  const SERVER_PROTOCOL := "SERVER_PROTOCOL"
  const SERVER_NAME := "SERVER_NAME"
  const SERVER_PORT := "SERVER_PORT"
  const CONTENT_TYPE := "CONTENT_TYPE"
  const CONTENT_LENGTH := "CONTENT_LENGTH"

  const RACK_ERRORS := "rack.errors"
  const RACK_LOGGER := "rack.logger"
  const RACK_INPUT := "rack.input"
  const RACK_URL_SCHEME := "rack.url_scheme"
  const RACK_PROTOCOL := "rack.protocol"
  const RACK_RESPONSE_FINISHED := "rack.response_finished"
  const PROTOCOL_HTTP_REQUEST := "protocol.http.request"

  /** A string or nil, as an env value. */
  function StrOrNil(s: Option<string>): Value
  {
    if s.Some? then Str(s.value) else Nil
  }

  /** `request.protocol` as an env value. */
  function ProtocolValue(p: Option<Http.HeaderValue>): Value
  {
    if p.Some? then Protocol(p.value) else Nil
  }

  /** The env hash, updated in place by the adapters. */
  class Env {
    var entries: Entries

    ghost predicate Valid()
      reads this
    {
      DistinctKeys(entries)
    }

    constructor(entries: Entries)
      requires DistinctKeys(entries)
      ensures Valid() && this.entries == entries
    {
      this.entries := entries;
    }

    /** `env[key]`. */
    function Get(key: string): Value
      reads this
    {
      Fetch(entries, key)
    }

    /** `env[key] = value`. */
    method Set(key: string, value: Value)
      requires Valid()
      modifies this
      ensures Valid() && entries == Store(old(entries), key, value)
    {
      StoreDistinct(entries, key, value);
      entries := Store(entries, key, value);
    }
  }
}

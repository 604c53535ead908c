/**
  Protocol::Rack::Request: a protocol-http request rebuilt from a rack env,
  for rack middleware that wants to speak protocol-http. It reverses what
  the adapters do: `HTTP_*` keys become header fields again, the upgrade
  header or `rack.protocol` becomes the request protocol, and the request
  is cached in the env under `protocol.http.request`.
*/
module RackRequest {
  import opened Common
  import Http
  import opened RackEnv
  import AdapterGeneric

  const HTTP_UPGRADE := "HTTP_UPGRADE"

  // -----------------------------------------------------------------------
  // Header names

  /** A header name as `Request.headers` rebuilds it: `HTTP_` dropped, `_` turned to `-`, downcased. */
  function HeaderName(key: string): (name: string)
    requires |key| >= |AdapterGeneric.HTTP_PREFIX|
    ensures |name| == |key| - |AdapterGeneric.HTTP_PREFIX|
    ensures NoUpper(name) && '_' !in name
  {
    var name := Downcase(Tr(key[|AdapterGeneric.HTTP_PREFIX|..], '_', '-'));
    DowncaseIsLower(Tr(key[|AdapterGeneric.HTTP_PREFIX|..], '_', '-'));
    name
  }

  /** A header name made of lower-case letters, digits and `-`. */
  predicate TokenName(name: string)
  {
    forall i :: 0 <= i < |name| ==> IsLower(name[i]) || IsDigit(name[i]) || name[i] == '-'
  }

  /** Decoding the env key `unwrap_headers` gives a lower-case token name yields the name back. */
  lemma NameRoundTrip(name: string)
    requires TokenName(name)
    ensures HeaderName(AdapterGeneric.HttpKey(name)) == name
  {
    var key := AdapterGeneric.HttpKey(name);
    var mangled := Tr(Upcase(name), '-', '_');
    assert key[|AdapterGeneric.HTTP_PREFIX|..] == mangled;
    var back := HeaderName(key);
    forall i | 0 <= i < |name|
      ensures back[i] == name[i]
    {
      assert Upcase(name)[i] == UpperChar(name[i]);
    }
  }

  /** `HTTP_HOST` decodes to `host`. */
  lemma HostName()
    ensures HeaderName(HTTP_HOST) == "host"
  {
    var rest := HTTP_HOST[|AdapterGeneric.HTTP_PREFIX|..];
    assert rest == "HOST";
    assert Tr(rest, '_', '-') == "HOST";
  }

  // -----------------------------------------------------------------------
  // Request.headers(env)

  /** Whether `Request.headers` takes an env entry: an `HTTP_` key other than `HTTP_HOST`, holding a string. */
  predicate Taken(key: string, value: Value)
  {
    StartsWith(key, AdapterGeneric.HTTP_PREFIX) && key != HTTP_HOST && value.Str?
  }

  /** The fields `Request.headers(env)` builds, walking the env in order. */
  function HeadersSpec(entries: Entries): (r: Http.Fields)
    ensures |r| <= |entries|
    ensures forall j :: 0 <= j < |r| ==> NoUpper(r[j].0) && '_' !in r[j].0
  {
    if entries == [] then []
    else
      var n := |entries| - 1;
      var (key, value) := entries[n];
      HeadersSpec(entries[..n]) + (if Taken(key, value) then [(HeaderName(key), value.s)] else [])
  }

  /** `Request.headers(env)`. */
  method Headers(entries: Entries) returns (r: Http.Fields)
    ensures r == HeadersSpec(entries)
  {
    r := [];
    var i := 0;
    while i < |entries|
      invariant 0 <= i <= |entries|
      invariant r == HeadersSpec(entries[..i])
    {
      var (key, value) := entries[i];
      assert entries[..i + 1][..i] == entries[..i];
      if StartsWith(key, AdapterGeneric.HTTP_PREFIX) && key != HTTP_HOST && value.Str? {
        r := r + [(HeaderName(key), value.s)];
      }
      i := i + 1;
    }
    assert entries[..i] == entries;
  }

  /** No field maps to a key none of their names encode to. */
  lemma {:induction false} NoValuesAt(fields: Http.Fields, key: string)
    requires forall j :: 0 <= j < |fields| ==> AdapterGeneric.HttpKey(fields[j].0) != key
    ensures AdapterGeneric.ValuesAt(fields, key) == []
  {
    if fields != [] {
      NoValuesAt(fields[..|fields| - 1], key);
    }
  }

  /**
    The request-direction round trip: header fields with distinct lower-case
    token names other than `host`, written into an empty env by
    `unwrap_headers`, are read back by `Request.headers` as the same fields
    in the same order.
  */
  lemma {:induction false} HeadersRoundTrip(fields: Http.Fields)
    requires forall j :: 0 <= j < |fields| ==> TokenName(fields[j].0) && fields[j].0 != "host"
    requires forall i, j :: 0 <= i < j < |fields| ==> fields[i].0 != fields[j].0
    ensures HeadersSpec(AdapterGeneric.UnwrapHeadersSpec(fields, [])) == fields
  {
    if fields != [] {
      var n := |fields| - 1;
      var prefix := fields[..n];
      var (name, value) := fields[n];
      HeadersRoundTrip(prefix);
      var h := AdapterGeneric.UnwrapHeadersSpec(prefix, []);
      forall j | 0 <= j < |prefix|
        ensures TokenName(prefix[j].0) && prefix[j].0 != name
      {
        assert prefix[j] == fields[j];
        assert fields[j].0 != fields[n].0;
      }
      FreshKey(prefix, name);
      UnwrapSnoc(fields, h);
      TakenBack(h, name, value);
      assert prefix + [(name, value)] == fields;
    }
  }

  /** A name none of the earlier fields has is not yet in the env. */
  lemma {:induction false} FreshKey(prefix: Http.Fields, name: string)
    requires TokenName(name)
    requires forall j :: 0 <= j < |prefix| ==> TokenName(prefix[j].0) && prefix[j].0 != name
    ensures Lookup(AdapterGeneric.UnwrapHeadersSpec(prefix, []), AdapterGeneric.HttpKey(name)).None?
  {
    var key := AdapterGeneric.HttpKey(name);
    NameRoundTrip(name);
    forall j | 0 <= j < |prefix|
      ensures AdapterGeneric.HttpKey(prefix[j].0) != key
    {
      NameRoundTrip(prefix[j].0);
    }
    NoValuesAt(prefix, key);
    AdapterGeneric.UnwrapHeadersJoins(prefix, [], key);
  }

  /** The last field, under a key not yet in the env, is appended at the end. */
  lemma UnwrapSnoc(fields: Http.Fields, h: Entries)
    requires fields != [] && h == AdapterGeneric.UnwrapHeadersSpec(fields[..|fields| - 1], [])
    requires Lookup(h, AdapterGeneric.HttpKey(fields[|fields| - 1].0)).None?
    ensures AdapterGeneric.UnwrapHeadersSpec(fields, [])
         == h + [(AdapterGeneric.HttpKey(fields[|fields| - 1].0), Str(fields[|fields| - 1].1))]
  {
    LastStored(h, AdapterGeneric.HttpKey(fields[|fields| - 1].0), Str(fields[|fields| - 1].1));
  }

  /** `Request.headers` reads an appended `HTTP_` entry back as its field. */
  lemma TakenBack(h: Entries, name: string, value: string)
    requires TokenName(name) && name != "host"
    ensures HeadersSpec(h + [(AdapterGeneric.HttpKey(name), Str(value))]) == HeadersSpec(h) + [(name, value)]
  {
    var key := AdapterGeneric.HttpKey(name);
    NameRoundTrip(name);
    HostName();
    assert Taken(key, Str(value));
    assert (h + [(key, Str(value))])[..|h|] == h;
  }

  // -----------------------------------------------------------------------
  // Request.protocol(env)

  /** `s` without its leading whitespace. */
  function TrimLeft(s: string): (r: string)
    ensures |r| <= |s| && r == s[|s| - |r|..]
    ensures r != [] ==> !IsSpace(r[0])
  {
    if s != [] && IsSpace(s[0]) then TrimLeft(s[1..]) else s
  }

  /** `s` without its trailing whitespace. */
  function TrimRight(s: string): (r: string)
    ensures |r| <= |s| && r == s[..|r|]
    ensures r != [] ==> !IsSpace(r[|r| - 1])
  {
    if s != [] && IsSpace(s[|s| - 1]) then TrimRight(s[..|s| - 1]) else s
  }

  /**
    The pieces between commas with the whitespace next to the commas taken
    off: each piece loses its leading whitespace unless it is the first and
    its trailing whitespace unless it is the last.
  */
  function Trimmed(pieces: seq<string>): (r: seq<string>)
    ensures |r| == |pieces|
    ensures forall i :: 0 <= i < |r| ==> ',' !in pieces[i] ==> ',' !in r[i]
  {
    seq(|pieces|, i requires 0 <= i < |pieces| =>
      var p := if i > 0 then TrimLeft(pieces[i]) else pieces[i];
      if i < |pieces| - 1 then TrimRight(p) else p)
  }

  /** `protocols.split(/\s*,\s*\/)`: the comma-separated tokens, trailing empty ones dropped. */
  function UpgradeTokens(s: string): (r: seq<string>)
    ensures forall j :: 0 <= j < |r| ==> ',' !in r[j]
    ensures r != [] ==> r[|r| - 1] != ""
  {
    DropTrailingEmpty(Trimmed(Pieces(s, ',')))
  }

  /** A token without commas or surrounding whitespace. */
  predicate CleanToken(p: string)
  {
    p != "" && ',' !in p && !IsSpace(p[0]) && !IsSpace(p[|p| - 1])
  }

  /** The values as written with a comma and a space between them. */
  function Spaced(values: seq<string>): (r: seq<string>)
    ensures |r| == |values|
  {
    seq(|values|, i requires 0 <= i < |values| => if i == 0 then values[i] else " " + values[i])
  }

  lemma {:induction false} JoinSpaced(values: seq<string>)
    ensures Join(values, ", ") == Join(Spaced(values), ",")
    decreases |values|
  {
    if |values| > 1 {
      var n := |values| - 1;
      var spaced := Spaced(values);
      var left := Join(values[..n], ", ");
      SpacedPrefix(values, n);
      SpacedAt(values, n);
      JoinSpaced(values[..n]);
      assert Join(values, ", ") == left + ", " + values[n];
      assert Join(spaced, ",") == left + "," + (" " + values[n]);
      AppendAssoc(left + ",", " ", values[n]);
      AppendAssoc(left, ",", " ");
      assert "," + " " == ", ";
    } else if |values| == 1 {
      SpacedAt(values, 0);
      assert Spaced(values) == values;
    }
  }

  /** Spacing a prefix is the prefix of the spacing. */
  lemma SpacedPrefix(values: seq<string>, n: nat)
    requires 0 < n <= |values|
    ensures Spaced(values)[..n] == Spaced(values[..n])
  {
  }

  /** Every piece of the spacing of clean tokens is free of commas. */
  lemma {:induction false} SpacedNoComma(values: seq<string>)
    requires forall k :: 0 <= k < |values| ==> CleanToken(values[k])
    ensures forall k :: 0 <= k < |Spaced(values)| ==> ',' !in Spaced(values)[k]
  {
    forall k | 0 <= k < |values|
      ensures ',' !in Spaced(values)[k]
    {
      SpacedAt(values, k);
    }
  }

  /** The k-th spaced piece is the token, after a space unless it is the first. */
  lemma SpacedAt(values: seq<string>, k: nat)
    requires k < |values|
    ensures Spaced(values)[k] == if k == 0 then values[k] else " " + values[k]
  {
  }

  /** Trimming the spaced pieces of clean tokens gives the tokens back. */
  lemma {:induction false} TrimmedSpaced(values: seq<string>)
    requires forall k :: 0 <= k < |values| ==> CleanToken(values[k])
    ensures Trimmed(Spaced(values)) == values
  {
    var t := Trimmed(Spaced(values));
    forall k | 0 <= k < |values|
      ensures t[k] == values[k]
    {
      TrimmedAt(values, k);
    }
  }

  lemma {:induction false} TrimmedAt(values: seq<string>, k: nat)
    requires k < |values| && CleanToken(values[k])
    ensures Trimmed(Spaced(values))[k] == values[k]
  {
    SpacedAt(values, k);
    TrimmedClean(values[k]);
    if k > 0 {
      var s := Spaced(values)[k];
      assert s[1..] == values[k];
      assert TrimLeft(s) == TrimLeft(values[k]);
    }
  }

  /**
    The upgrade round trip: protocols joined as `"a, b"` (the way a client
    lists them) split back into the same protocols.
  */
  lemma {:induction false} UpgradeRoundTrip(values: seq<string>)
    requires forall k :: 0 <= k < |values| ==> CleanToken(values[k])
    ensures UpgradeTokens(Join(values, ", ")) == values
  {
    if values == [] {
      assert Pieces("", ',') == [""];
      assert Trimmed([""]) == [""];
    } else {
      JoinSpaced(values);
      SpacedNoComma(values);
      PiecesOfJoin(Spaced(values), ',');
      TrimmedSpaced(values);
      DropNothing(values);
    }
  }

  /** A clean token has no whitespace to trim on either side. */
  lemma TrimmedClean(p: string)
    requires CleanToken(p)
    ensures TrimLeft(p) == p && TrimRight(p) == p
  {
  }

  /** A list whose last element is not empty loses nothing to `DropTrailingEmpty`. */
  lemma DropNothing(values: seq<string>)
    requires values != [] && values[|values| - 1] != ""
    ensures DropTrailingEmpty(values) == values
  {
  }

  /** `Array(value)` for the values an env holds under `rack.protocol`; another object stands for itself. */
  function ArrayOf(v: Value): seq<string>
  {
    match v
    case Str(s) => [s]
    case Protocol(Str(s)) => [s]
    case Protocol(Arr(items)) => items
    case EmptyList => []
    case _ => [AdapterGeneric.Interpolate(v)]
  }

  /**
    `Request.protocol(env)`: `rack.protocol` wins, as an array; otherwise the
    upgrade header split at its commas; otherwise nil. An upgrade value that
    is not a string has no `split` and raises NoMethodError.
  */
  function ProtocolOf(entries: Entries): (r: Result<Option<seq<string>>>)
    ensures r == Ok(None) <==> !Truthy(Fetch(entries, RACK_PROTOCOL)) && !Truthy(Fetch(entries, HTTP_UPGRADE))
    ensures r.Raised? ==> r.error.cls == NoMethodError && !Truthy(Fetch(entries, RACK_PROTOCOL))
  {
    var given := Fetch(entries, RACK_PROTOCOL);
    var upgrade := Fetch(entries, HTTP_UPGRADE);
    if Truthy(given) then Ok(Some(ArrayOf(given)))
    else if !Truthy(upgrade) then Ok(None)
    else if upgrade.Str? then Ok(Some(UpgradeTokens(upgrade.s)))
    else Raised(Error(NoMethodError, "undefined method 'split'"))
  }

  /**
    The protocol an adapter put in the env (`rack.protocol` is
    `request.protocol`) comes back as the same protocols, whatever the
    upgrade header says.
  */
  lemma ProtocolRoundTrip(entries: Entries, protocol: Http.HeaderValue)
    requires Fetch(entries, RACK_PROTOCOL) == ProtocolValue(Some(protocol))
    ensures ProtocolOf(entries) == Ok(Some(match protocol case Str(s) => [s] case Arr(items) => items))
  {
  }

  // -----------------------------------------------------------------------
  // Request.new(env) and Request[env]

  /** An env value as a string field of the request: strings are kept, nil (or anything else) is none. */
  function Text(v: Value): Option<string>
  {
    if v.Str? then Some(v.s) else None
  }

  /**
    What `Request.new(env)` gives: the scheme, authority, method, path and
    version from `rack.url_scheme`, `HTTP_HOST`, `REQUEST_METHOD`,
    `PATH_INFO` and `SERVER_PROTOCOL`, the headers rebuilt from the `HTTP_`
    keys, an InputWrapper around `rack.input`, and the protocol.
  */
  ghost predicate Built(request: Http.Request, entries: Entries)
    reads request
  {
    && request.scheme == Text(Fetch(entries, RACK_URL_SCHEME))
    && request.authority == Text(Fetch(entries, HTTP_HOST))
    && request.requestMethod == Text(Fetch(entries, REQUEST_METHOD))
    && request.path == Text(Fetch(entries, PATH_INFO))
    && request.version == Text(Fetch(entries, SERVER_PROTOCOL))
    && request.headers == HeadersSpec(entries)
    && request.body == Some(Http.RackInputWrapper)
    && ProtocolOf(entries).Ok?
    && request.protocol == (if ProtocolOf(entries).value.Some? then Some(Http.Arr(ProtocolOf(entries).value.value)) else None)
    && request.bodyCloses == 0
  }

  /** `Request.new(env)`; raises when `Request.protocol` does. */
  method New(env: Env) returns (r: Result<Http.Request>)
    ensures r.Raised? <==> ProtocolOf(env.entries).Raised?
    ensures r.Ok? ==> fresh(r.value) && Built(r.value, env.entries)
  {
    var headers := Headers(env.entries);
    var protocols := ProtocolOf(env.entries);
    if protocols.Raised? {
      return Raised(protocols.error);
    }
    var protocol := if protocols.value.Some? then Some(Http.Arr(protocols.value.value)) else None;
    var request := new Http.Request(Text(env.Get(RACK_URL_SCHEME)), Text(env.Get(HTTP_HOST)),
                                    Text(env.Get(REQUEST_METHOD)), Text(env.Get(PATH_INFO)),
                                    Text(env.Get(SERVER_PROTOCOL)), headers,
                                    Some(Http.RackInputWrapper), protocol);
    r := Ok(request);
  }

  /**
    `Request[env]`: the request cached under `protocol.http.request` when
    that is set (`||=`), otherwise a new one, which is then cached. Answers
    the env value that stands for it.
  */
  method ForEnv(env: Env) returns (r: Result<Value>)
    requires env.Valid()
    modifies env
    ensures env.Valid()
    ensures Truthy(old(env.Get(PROTOCOL_HTTP_REQUEST))) ==>
      r == Ok(old(env.Get(PROTOCOL_HTTP_REQUEST))) && env.entries == old(env.entries)
    ensures !Truthy(old(env.Get(PROTOCOL_HTTP_REQUEST))) && r.Raised? ==>
      ProtocolOf(old(env.entries)).Raised? && env.entries == old(env.entries)
    ensures !Truthy(old(env.Get(PROTOCOL_HTTP_REQUEST))) && r.Ok? ==>
      && r.value.RequestRef? && fresh(r.value.request) && Built(r.value.request, old(env.entries))
      && env.entries == Store(old(env.entries), PROTOCOL_HTTP_REQUEST, r.value)
  {
    var cached := env.Get(PROTOCOL_HTTP_REQUEST);
    if Truthy(cached) {
      return Ok(cached);
    }
    var built := New(env);
    if built.Raised? {
      return Raised(built.error);
    }
    r := Ok(RequestRef(built.value));
    env.Set(PROTOCOL_HTTP_REQUEST, r.value);
  }

  /** Once `Request[env]` has stored a request, the next `Request[env]` finds that same request. */
  lemma CachedAfterStore(entries: Entries, request: Http.Request)
    ensures var stored := Store(entries, PROTOCOL_HTTP_REQUEST, RequestRef(request));
      Truthy(Fetch(stored, PROTOCOL_HTTP_REQUEST)) && Fetch(stored, PROTOCOL_HTTP_REQUEST) == RequestRef(request)
  {
    LookupStore(entries, PROTOCOL_HTTP_REQUEST, RequestRef(request), PROTOCOL_HTTP_REQUEST);
  }
}

/**
  Protocol::Rack::Response: adapts a rack `[status, headers, body]` triple
  into a protocol-http response.

  `wrap_headers` walks the rack headers once: names are downcased, `rack.*`
  names go to a metadata hash, an Array value gives one field per element
  and any other value one field. `wrap` then drops the hop-by-hop headers,
  wraps the body, hides it behind a Head body for HEAD requests and takes the
  response protocol from the `rack.protocol` metadata.
*/
module RackResponse {
  import opened Common
  import opened Http
  import BodyWrap

  /** Rack response headers as the application returns them, in order. */
  type RackHeaders = seq<(string, HeaderValue)>

  /**
    `HOP_HEADERS`: connection-level headers that are not passed on (five of
    those listed in section 13.5.1 of RFC 2616, with `public` added).
  */
  const HOP_HEADERS: seq<string> :=
    ["connection", "keep-alive", "public", "proxy-authenticate", "transfer-encoding", "upgrade"]

  const RACK_PREFIX := "rack."
  const RACK_PROTOCOL := "rack.protocol"

  /** The strings a header value stands for: itself, or each element of an Array. */
  function Items(value: HeaderValue): seq<string>
  {
    match value
    case Str(s) => [s]
    case Arr(items) => items
  }

  /** One field named `key` per item of `value`, in order. */
  function Expand(key: string, value: HeaderValue): (r: Fields)
    ensures |r| == |Items(value)|
    ensures forall j :: 0 <= j < |r| ==> r[j] == (key, Items(value)[j])
  {
    var items := Items(value);
    seq(|items|, j requires 0 <= j < |items| => (key, items[j]))
  }

  /**
    What `wrap_headers` builds from `fields`, one field after the other:
    the protocol-http fields and the `rack.*` metadata.
  */
  function WrapHeadersSpec(fields: RackHeaders): (r: (Fields, map<string, HeaderValue>))
    ensures forall j :: 0 <= j < |r.0| ==> NoUpper(r.0[j].0) && !StartsWith(r.0[j].0, RACK_PREFIX)
    ensures forall k :: k in r.1 ==> NoUpper(k) && StartsWith(k, RACK_PREFIX)
  {
    if fields == [] then ([], map[])
    else
      var (headers, meta) := WrapHeadersSpec(fields[..|fields| - 1]);
      var (name, value) := fields[|fields| - 1];
      var key := Downcase(name);
      DowncaseIsLower(name);
      if StartsWith(key, RACK_PREFIX) then (headers, meta[key := value])
      else (headers + Expand(key, value), meta)
  }

  /** `Response.wrap_headers(fields)`. */
  method WrapHeaders(fields: RackHeaders) returns (headers: Fields, meta: map<string, HeaderValue>)
    ensures (headers, meta) == WrapHeadersSpec(fields)
  {
    headers, meta := [], map[];
    var i := 0;
    while i < |fields|
      invariant 0 <= i <= |fields|
      invariant (headers, meta) == WrapHeadersSpec(fields[..i])
    {
      var (name, value) := fields[i];
      var key := Downcase(name);
      WrapHeadersStep(fields, i);
      if StartsWith(key, RACK_PREFIX) {
        meta := meta[key := value];
      } else {
        headers := AddFields(headers, key, Items(value));
      }
      i := i + 1;
    }
    assert fields[..i] == fields;
  }

  /** One step of `wrap_headers`: the fields up to `i` inclusive, from those before `i`. */
  lemma WrapHeadersStep(fields: RackHeaders, i: nat)
    requires i < |fields|
    ensures var (headers, meta) := WrapHeadersSpec(fields[..i]);
      var key := Downcase(fields[i].0);
      WrapHeadersSpec(fields[..i + 1])
        == if StartsWith(key, RACK_PREFIX) then (headers, meta[key := fields[i].1])
           else (headers + Expand(key, fields[i].1), meta)
  {
    assert fields[..i + 1][..i] == fields[..i];
  }

  /** `items.each {|item| headers[key] = item}`: one field per item, appended in order. */
  method AddFields(headers: Fields, key: string, items: seq<string>) returns (r: Fields)
    ensures r == headers + Expand(key, Arr(items))
  {
    r := headers;
    var j := 0;
    while j < |items|
      invariant 0 <= j <= |items|
      invariant r == headers + Expand(key, Arr(items[..j]))
    {
      ExpandSnoc(key, items[..j], items[j]);
      assert items[..j + 1] == items[..j] + [items[j]];
      r := r + [(key, items[j])];
      j := j + 1;
    }
    assert items[..j] == items;
  }

  /** Expanding one more item appends one more field. */
  lemma ExpandSnoc(key: string, items: seq<string>, item: string)
    ensures Expand(key, Arr(items + [item])) == Expand(key, Arr(items)) + [(key, item)]
  {
  }

  // -----------------------------------------------------------------------
  // What the spec promises

  /** The values of the fields named exactly `key`, in order. */
  function ValuesFor(fields: Fields, key: string): seq<string>
  {
    if fields == [] then []
    else ValuesFor(fields[..|fields| - 1], key)
         + (if fields[|fields| - 1].0 == key then [fields[|fields| - 1].1] else [])
  }

  /** The strings the rack headers give for the (downcased) name `key`, in order. */
  function ExpandedFor(fields: RackHeaders, key: string): seq<string>
  {
    if fields == [] then []
    else ExpandedFor(fields[..|fields| - 1], key)
         + (if Downcase(fields[|fields| - 1].0) == key then Items(fields[|fields| - 1].1) else [])
  }

  lemma {:induction false} ValuesForAppend(a: Fields, b: Fields, key: string)
    ensures ValuesFor(a + b, key) == ValuesFor(a, key) + ValuesFor(b, key)
    decreases |b|
  {
    if b == [] {
      assert a + b == a;
    } else {
      var n := |b| - 1;
      assert (a + b)[..|a + b| - 1] == a + b[..n];
      ValuesForAppend(a, b[..n], key);
    }
  }

  lemma {:induction false} ValuesForExpand(name: string, value: HeaderValue, key: string)
    ensures ValuesFor(Expand(name, value), key) == if name == key then Items(value) else []
    decreases |Items(value)|
  {
    var e := Expand(name, value);
    var items := Items(value);
    if items != [] {
      var m := |items| - 1;
      var shorter := Arr(items[..m]);
      assert e[..|e| - 1] == Expand(name, shorter);
      ValuesForExpand(name, shorter, key);
    }
  }

  /**
    For every name that is not `rack.*`, the fields `wrap_headers` emits carry
    the values the application gave under that name (in any letter case), in
    order: one per element of an Array value and exactly one for any other.
  */
  lemma {:induction false} WrapHeadersValues(fields: RackHeaders, key: string)
    requires !StartsWith(key, RACK_PREFIX)
    ensures ValuesFor(WrapHeadersSpec(fields).0, key) == ExpandedFor(fields, key)
  {
    if fields != [] {
      var prefix := fields[..|fields| - 1];
      var (name, value) := fields[|fields| - 1];
      WrapHeadersValues(prefix, key);
      var lower := Downcase(name);
      if !StartsWith(lower, RACK_PREFIX) {
        ValuesForAppend(WrapHeadersSpec(prefix).0, Expand(lower, value), key);
        ValuesForExpand(lower, value, key);
      } else {
        assert lower != key;
      }
    }
  }

  /** The last value the application gave for a `rack.*` name, if any. */
  function LastFor(fields: RackHeaders, key: string): Option<HeaderValue>
  {
    if fields == [] then None
    else if Downcase(fields[|fields| - 1].0) == key then Some(fields[|fields| - 1].1)
    else LastFor(fields[..|fields| - 1], key)
  }

  /**
    A `rack.*` name is in the metadata exactly when the application gave it,
    and then holds the last value given (a later one overwrites an earlier).
  */
  lemma {:induction false} WrapHeadersMeta(fields: RackHeaders, key: string)
    requires StartsWith(key, RACK_PREFIX)
    ensures var meta := WrapHeadersSpec(fields).1;
      (key in meta <==> LastFor(fields, key).Some?) && (key in meta ==> meta[key] == LastFor(fields, key).value)
  {
    if fields != [] {
      WrapHeadersMeta(fields[..|fields| - 1], key);
    }
  }

  // -----------------------------------------------------------------------
  // Response.wrap

  /**
    `Response.wrap(status, headers, body, request)`, with `head` standing for
    `request&.head?` and `files` for the paths `Body.wrap` can open. Answers
    the response and whether the rack body was closed on the way.
  */
  method Wrap(status: int, fields: RackHeaders, body: RackBody, head: bool, files: set<string>)
    returns (r: Result<(Response, bool)>)
    ensures var (headers, meta) := WrapHeadersSpec(fields);
      var w := BodyWrap.Wrap(status, Extract(headers, HOP_HEADERS).0, body, files);
      && (r.Raised? <==> w.Raised?)
      && (r.Raised? ==> r.error == w.error)
      && (r.Ok? ==>
        && r.value.0.status == status
        && r.value.0.headers == w.value.headers
        && r.value.0.body == (if head then Some(Head(w.value.body)) else w.value.body)
        && r.value.0.protocol == (if RACK_PROTOCOL in meta then Some(meta[RACK_PROTOCOL]) else None)
        && r.value.1 == w.value.closedOriginal)
    ensures r.Ok? ==> forall j :: 0 <= j < |r.value.0.headers| ==>
      r.value.0.headers[j].0 !in HOP_HEADERS && !StartsWith(r.value.0.headers[j].0, RACK_PREFIX)
  {
    var headers, meta := WrapHeaders(fields);
    var (kept, ignored) := Extract(headers, HOP_HEADERS);
    var w := BodyWrap.Wrap(status, kept, body, files);
    if w.Raised? {
      return Raised(w.error);
    }
    var out := if head then Some(Head(w.value.body)) else w.value.body;
    var protocol := if RACK_PROTOCOL in meta then Some(meta[RACK_PROTOCOL]) else None;
    r := Ok((Response(status, w.value.headers, out, protocol), w.value.closedOriginal));
    HeadersClean(headers, kept, w.value.headers);
  }

  /** Fields taken from the wrapped headers keep their lower-case, non-`rack.` names and lose the hop headers. */
  lemma HeadersClean(headers: Fields, kept: Fields, out: Fields)
    requires forall j :: 0 <= j < |headers| ==> NoUpper(headers[j].0) && !StartsWith(headers[j].0, RACK_PREFIX)
    requires kept == Extract(headers, HOP_HEADERS).0
    requires out == Without(kept, BodyWrap.CONTENT_LENGTH)
    ensures forall j :: 0 <= j < |out| ==> out[j].0 !in HOP_HEADERS && !StartsWith(out[j].0, RACK_PREFIX)
  {
    ExtractKeeps(headers, HOP_HEADERS);
    WithoutKeeps(kept, BodyWrap.CONTENT_LENGTH);
    forall j | 0 <= j < |out|
      ensures out[j].0 !in HOP_HEADERS && !StartsWith(out[j].0, RACK_PREFIX)
    {
      DowncaseNoUpper(out[j].0);
    }
  }

  /** Every field `Extract` keeps comes from its input. */
  lemma {:induction false} ExtractKeeps(fields: Fields, keys: seq<string>)
    ensures forall j :: 0 <= j < |Extract(fields, keys).0| ==> Extract(fields, keys).0[j] in fields
  {
    if fields != [] {
      ExtractKeeps(fields[..|fields| - 1], keys);
    }
  }

  /** Every field `Without` keeps comes from its input. */
  lemma {:induction false} WithoutKeeps(fields: Fields, key: string)
    ensures forall j :: 0 <= j < |Without(fields, key)| ==> Without(fields, key)[j] in fields
  {
    if fields != [] {
      WithoutKeeps(fields[..|fields| - 1], key);
    }
  }
}

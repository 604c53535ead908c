# protocol-rack in Dafny

A model of the core of `protocol-rack`, the Ruby library that sits between
a protocol-http server and a rack application. On the way in, an adapter
turns a protocol-http request into a rack `env`: a hash of CGI
meta-variables, `HTTP_*` header keys, and rack's own `rack.*` entries. On
the way out, it turns the rack triple `[status, headers, body]` back into a
protocol-http response. `Protocol::Rack::Request` goes the other way round
and rebuilds a protocol-http request from an env.

The modules follow the library's files:

| module | file | flavour |
|---|---|---|
| `Common` | Ruby core behaviour the library relies on (Hash order, `String#split`, `Integer()`, `to_s`, `downcase`) | pure |
| `Http` | the protocol-http values the library consumes: bodies, header fields, `Request`, `Response` | data |
| `RackInput` | `lib/protocol/rack/input.rb`: the `rack.input` stream over a request body | class |
| `RackEnv` | the env hash, kept in insertion order | class |
| `BodyEnumerable` | `lib/protocol/rack/body/enumerable.rb` | class |
| `BodyInputWrapper` | `lib/protocol/rack/body/input_wrapper.rb` | class |
| `BodyWrap` | `lib/protocol/rack/body.rb` | pure |
| `RackResponse` | `lib/protocol/rack/response.rb` | pure + loop |
| `AdapterGeneric` | `lib/protocol/rack/adapter/generic.rb` | mixed |
| `AdapterRack3` | `lib/protocol/rack/adapter/rack3.rb` | mixed |
| `AdapterRack2` | `lib/protocol/rack/adapter/rack2.rb` | mixed |
| `AdapterRack31` | `lib/protocol/rack/adapter/rack31.rb` | mixed |
| `RackRewindable` | `lib/protocol/rack/rewindable.rb` | mixed |
| `RackRequest` | `lib/protocol/rack/request.rb` | mixed |

Representation choices:

- The env is a `seq<(string, Value)>`.
  - Reading takes the first entry with the key.
  - Writing replaces that entry, or appends one.
  - This is how a Ruby Hash behaves, and `Request.headers` walks the env in this order.
- Objects whose fields the library updates are classes with `modifies` clauses:
  - `Input`
  - `Enumerable`
  - `InputWrapper`
  - `Env`
  - `Request`, for its headers, its body, and the number of times its body was closed
- Strings and byte buffers are both `string`, one character per byte (ASCII-8BIT).
- A protocol-http body is a value:
  - the chunks it yields;
  - its length;
  - whether it is empty;
  - whether it rewinds;
  - whether it is a stream.
- A rack response body is a value too. Its kind is Array, Readable, or some other object. It also records:
  - its `to_path`;
  - whether it has `each`, `call`, `close`, `to_ary` and `empty?`, and what they answer.
- The rack application is a function from env to either a returned triple or a raised error.
- The files on disk are given as a set of paths.

## Model

| member | source | states |
|---|---|---|
| `RackInput.Input.constructor` | lib/protocol/rack/input.rb:36-42 | A new Input has nothing buffered. Its unread data is the whole body, and it is finished exactly when there is no body. |
| `RackInput.Input.ReadNext` | lib/protocol/rack/input.rb:205-211 | Gives the next chunk of the body, or nil once the body is exhausted. Without a body it raises IOError. |
| `RackInput.Input.Read` | lib/protocol/rack/input.rb:81-118 | `read(0)` is `""` and changes nothing. Without a body it raises IOError. `read(n)` gives the first n bytes still unread, or nil when none are left. `read` with no length gives everything left. What it returns, followed by what stays unread, equals what was unread before. A supplied buffer ends up holding the result. |
| `RackInput.Input.ReadPartial` | lib/protocol/rack/input.rb:121-140 | Gives the buffered remainder if there is one, otherwise the next chunk, cut to `length`. It reads nothing from the body while a remainder is buffered. Nothing is lost or repeated. |
| `RackInput.Input.ReadNonblock` | lib/protocol/rack/input.rb:142-166 | Like `read_partial`, with a required length. A supplied buffer is replaced by the chunk, or cleared at the end. |
| `RackInput.Input.Gets` | lib/protocol/rack/input.rb:173-181 | Gives the buffered remainder or the next chunk, and drops exactly that element from the queue of pending pieces. |
| `RackInput.Input.Each` | lib/protocol/rack/input.rb:51-57 | Yields every pending piece in order. Together they make up all the unread data, and nothing is left afterwards. Without a body it raises IOError. |
| `RackInput.Input.Rewind` | lib/protocol/rack/input.rb:64-75 | Succeeds exactly when there is a body that can rewind. Then the whole body is unread again and the buffer is gone. Otherwise nothing changes. |
| `RackInput.Input.Fill` | lib/protocol/rack/input.rb:92-95 | The read loop: pulls chunks until the data reaches `length`, or until the body ends. No byte is lost. |
| `RackInput.Input.UnreadIsQueue` | lib/protocol/rack/input.rb:87-90 | The unread data is the buffered remainder followed by the chunks the body has not yet yielded. |
| `RackInput.FillTo` | lib/protocol/rack/input.rb:93-95 | The data the read loop collects is the given data followed by a prefix of the chunks. It is long enough, or all the chunks were taken, and every shorter prefix is still short of `length`: the loop stops at the first prefix that is long enough. |
| `RackInput.Upto` | lib/protocol/rack/input.rb:130-136 | Cutting to `length` keeps the first `length` bytes. Without a length it keeps everything. |
| `RackInput.AsWrittenRead` | lib/protocol/rack/input.rb:84-110 | `read(n)` exactly as written. Whenever the remainder it keeps has more than one byte, all of it but the first byte is also at the end of what it returns. |
| `RackInput.AsWrittenReadRepeatsRemainder` | lib/protocol/rack/input.rb:101-104 | On the chunks "quick", "brown", `read(3)` as written returns "quik" and keeps "ck" for the next read, so the caller gets "quik" and then "ck". |
| `RackInput.AsWrittenCut` | lib/protocol/rack/input.rb:130-137 | The cutting step of `read_partial` exactly as written. A piece longer than `length` keeps everything from `length` on as the remainder, and the answer is one byte shorter than the piece. The answer ends with all of the remainder but its first byte. A piece that fits is answered whole. |
| `RackInput.AsWrittenReadPartialRepeats` | lib/protocol/rack/input.rb:134-135 | On a "quick" chunk, `read_partial(3)` as written answers "quik" and keeps "ck", where the cut to 3 bytes is "qui". |
| `RackInput.AsWrittenReadKeepsStaleBuffer` | lib/protocol/rack/input.rb:84-90 | With nothing buffered, `read(1)` as written keeps the caller's old buffer contents and treats them as read. |
| `BodyEnumerable.WrapLength` | lib/protocol/rack/body/enumerable.rb:37-44 | A given length always wins. An Array without one is measured by the bytes of its chunks. Any other body keeps no length. |
| `BodyEnumerable.Enumerable.Wrap` | lib/protocol/rack/body/enumerable.rb:37-44 | The new Enumerable holds the body, and the length `WrapLength` gives: an Array without a length is measured. |
| `BodyEnumerable.Enumerable.constructor` | lib/protocol/rack/body/enumerable.rb:49-54 | Keeps the body and the length as given. Nothing has been read or closed yet. |
| `BodyEnumerable.EmptyOf` | lib/protocol/rack/body/enumerable.rb:63-65 | A nil body or one with only `call` is empty exactly when its length is 0. An Array is empty exactly when its length is 0 or it has no chunks. |
| `BodyEnumerable.ReadyOf` | lib/protocol/rack/body/enumerable.rb:68-70 | Every Array is ready. A ready body is a rack object that has `each`, never a nil body or a protocol-http body. |
| `BodyEnumerable.StreamOf` | lib/protocol/rack/body/enumerable.rb:93-95 | A body is a stream exactly when it is nil or has only `call`. A stream is never ready. |
| `BodyEnumerable.WrappedArrayEmpty` | lib/protocol/rack/body/enumerable.rb:37-44 | An Array wrapped without a length is empty exactly when its chunks hold no bytes. |
| `BodyEnumerable.ZeroLengthIsEmpty` | lib/protocol/rack/body/enumerable.rb:63-65 | A length of zero makes any body empty. |
| `BodyEnumerable.Enumerable.Close` | lib/protocol/rack/body/enumerable.rb:73-82 | Calls the rack body's `close` only if it has one, and at most once over the object's life. Afterwards the body is gone. |
| `BodyEnumerable.Enumerable.Each` | lib/protocol/rack/body/enumerable.rb:87-91 | Yields every chunk of the rack body and closes it, also when `each` raises. A body without `each` raises NoMethodError. |
| `BodyEnumerable.Enumerable.Call` | lib/protocol/rack/body/enumerable.rb:97-101 | Succeeds exactly when the body responds to `call`, and closes the body either way. |
| `BodyEnumerable.Enumerable.Read` | lib/protocol/rack/body/enumerable.rb:105-111 | Successive reads give the chunks in order, then nil. The chunks delivered so far grow by exactly the chunk returned. |
| `BodyInputWrapper.InputWrapper.constructor` | lib/protocol/rack/body/input_wrapper.rb:33-38 | The block size defaults to 4 KiB. A nil IO is closed from the start. |
| `BodyInputWrapper.InputWrapper.Close` | lib/protocol/rack/body/input_wrapper.rb:40-45 | Closes the IO once and forgets it. A second close does nothing. |
| `BodyInputWrapper.InputWrapper.Read` | lib/protocol/rack/body/input_wrapper.rb:47-49 | Gives the next block of at most the block size, and nil at the end or once closed. The bytes consumed grow by exactly the block returned. |
| `BodyInputWrapper.BlocksConcat` | lib/protocol/rack/body/input_wrapper.rb:47-49 | Reading until nil hands out the whole IO, in order. |
| `BodyWrap.Wrap` | lib/protocol/rack/body.rb:28-52 | `content-length` is always removed. It raises ArgumentError exactly when a given length is not an integer. A Readable body passes through. A file body is substituted only for status 200, and only when the file exists. The original body is closed only in that case. A missing file gives nil. |
| `BodyWrap.ContentLengthRemoved` | lib/protocol/rack/body.rb:29-33 | No header named `content-length`, in any case, is left. |
| `BodyWrap.PassthroughKept` | lib/protocol/rack/body.rb:30-37 | Whatever the status and headers, a Readable body is kept as it is and the headers lose only `content-length`. |
| `BodyWrap.FileSubstitution` | lib/protocol/rack/body.rb:30-46 | For status 200, any headers with a readable length and any body with `to_path`: the result is that file if it exists, with the original closed if it can be. Otherwise the result is nil and the body is left open. |
| `BodyWrap.DeclaredLengthKept` | lib/protocol/rack/body.rb:30-48 | For any headers whose `content-length` (last field, any capitalisation of the name) spells an integer, a body with `each` that is not served as a file becomes an Enumerable with that integer as its length, and the field is removed. |
| `BodyWrap.ArrayMeasured` | lib/protocol/rack/body.rb:37-48 | For any headers without `content-length`, a body with `each` that is not served as a file becomes an Enumerable. An Array gets the byte total of its chunks as its length; anything else gets none. The headers are unchanged. |
| `BodyWrap.StreamingFallback` | lib/protocol/rack/body.rb:30-50 | For any headers with a readable length, a body without `each` that is not served as a file becomes a Streaming body, and the original is not closed. |
| `Common.IntRoundTrip` | lib/protocol/rack/adapter/generic.rb:82-84 | The `CONTENT_LENGTH` the adapter writes with `to_s` reads back with `Integer()` as the same integer. |
| `RackResponse.WrapHeaders` | lib/protocol/rack/response.rb:56-75 | The loop computes the fold. Header names come out downcased. `rack.` keys go to the metadata, never to the headers. |
| `RackResponse.AddFields` | lib/protocol/rack/response.rb:65-68 | The inner loop appends one field per array element, in order, after the fields already there. |
| `RackResponse.WrapHeadersValues` | lib/protocol/rack/response.rb:60-72 | For every header name, the values in the result are the rack values for that name, in order, with arrays expanded one field per element. |
| `RackResponse.WrapHeadersMeta` | lib/protocol/rack/response.rb:63-64 | A `rack.` key is in the metadata exactly when some rack header has that name, and it holds the last such value. |
| `RackResponse.Wrap` | lib/protocol/rack/response.rb:82-106 | The response has the app's status and the wrapped headers and body. Its protocol comes from `rack.protocol`. A HEAD request gets a Head body. It raises exactly when `Body.wrap` does. No hop-by-hop header and no `rack.` header remains. |
| `RackResponse.ExtractKeeps` | lib/protocol/rack/response.rb:85 | Extracting hop headers keeps only fields that were there. |
| `AdapterGeneric.UnwrapHeaders` | lib/protocol/rack/adapter/generic.rb:55-65 | Writes the env in place as the fold over the header fields, and keeps the env's keys distinct. |
| `AdapterGeneric.UnwrapHeadersJoins` | lib/protocol/rack/adapter/generic.rb:57-63 | For a key the env did not already hold a truthy value under, the result is every header value that maps to it, joined with `;`. With no such header the key is unchanged. |
| `AdapterGeneric.UnwrapHeadersKeeps` | lib/protocol/rack/adapter/generic.rb:55-65 | Keys that do not start with `HTTP_` are untouched. |
| `AdapterGeneric.HttpKey` | lib/protocol/rack/adapter/generic.rb:57 | The key is `HTTP_` followed by one character per character of the name. None of them is `-` or a lower-case letter, and each downcases to the name's character downcased, with `-` read as `_`. |
| `AdapterGeneric.HttpKeyCase` | lib/protocol/rack/adapter/generic.rb:57 | Two header names without `_` map to the same `HTTP_` key only if they are equal ignoring case. |
| `AdapterGeneric.UnwrapRequest` | lib/protocol/rack/adapter/generic.rb:76-96 | Updates the env and the request's headers in place, as the specification function gives them. |
| `AdapterGeneric.UnwrapRequestContentType` | lib/protocol/rack/adapter/generic.rb:77-79 | `CONTENT_TYPE` is the request's `content-type` when there is one, otherwise unchanged. The request keeps no `content-type` field. |
| `AdapterGeneric.UnwrapRequestContentLength` | lib/protocol/rack/adapter/generic.rb:82-84 | `CONTENT_LENGTH` is the body's length written in decimal, when the body knows it, otherwise unchanged. |
| `AdapterGeneric.UnwrapRequestHost` | lib/protocol/rack/adapter/generic.rb:86-89 | `HTTP_HOST` is the joined `host` headers when there are any, otherwise the request authority (`||=`). |
| `AdapterGeneric.UnwrapRequestKeeps` | lib/protocol/rack/adapter/generic.rb:76-96 | Every other key keeps the value the adapter's literal gave it. |
| `AdapterGeneric.UnwrapRequestNoHttpContentType` | lib/protocol/rack/adapter/generic.rb:77-86 | The content type never also shows up as `HTTP_CONTENT_TYPE`. |
| `AdapterGeneric.New` | lib/protocol/rack/adapter/generic.rb:39-43 | An app that does not respond to `call` raises ArgumentError. Any other is kept. |
| `AdapterGeneric.Call` | lib/protocol/rack/adapter/generic.rb:101-113 | An error from building the env, from the app, or from wrapping the response gives the 500 response for that exception. The rack body is closed only when wrapping raised. Otherwise the response is the wrapped triple. |
| `AdapterGeneric.NeverRaises` | lib/protocol/rack/adapter/generic.rb:101-113 | The status is 500 or the one the app returned. The rack body is closed only if the app returned one that responds to `close`. |
| `AdapterRack3.SplitTarget` | lib/protocol/rack/adapter/rack3.rb:36 | Splitting at the first `?` gives two parts that join back to the path. Without a `?` the query is empty. |
| `AdapterRack3.SplitAuthority` | lib/protocol/rack/adapter/rack3.rb:37 | Splitting at the first `:` gives a name and a port that join back to the authority. Without an authority both are nil. |
| `AdapterRack3.BaseDistinct` | lib/protocol/rack/adapter/rack3.rb:39-72 | The env literal has no repeated key. |
| `AdapterRack3.MakeEnvironment` | lib/protocol/rack/adapter/rack3.rb:35-77 | A request without a path raises NoMethodError. Otherwise the result is a fresh env: the literal, with a fresh Input over the body, after `unwrap_request`. |
| `AdapterRack3.Environment` | lib/protocol/rack/adapter/rack3.rb:39-72 | The env holds `SCRIPT_NAME` `""`, the path and query halves, `REQUEST_URI`, the server name and port, the method, the request and its Input. |
| `AdapterRack3.VersionAndScheme` | lib/protocol/rack/adapter/rack3.rb:39-72 | `SERVER_PROTOCOL` is the request's version and `rack.url_scheme` its scheme, each nil when the request has none. |
| `AdapterRack3.MakeResponse` | lib/protocol/rack/adapter/rack3.rb:79-92 | Keeps the status. A streaming body becomes its `call`. `rack.protocol` carries the response protocol. |
| `AdapterRack3.MakeResponseHeaders` | lib/protocol/rack/adapter/rack3.rb:81-84 | Every header except `rack.protocol` is what `to_h` gives. |
| `AdapterRack3.Call` | lib/protocol/rack/adapter/rack3.rb:35-77 | Runs the generic call on the env `make_environment` built. |
| `AdapterRack2.MakeEnvironment` | lib/protocol/rack/adapter/rack2.rb:44-91 | Same as rack 3, with the four rack 2 version entries in front. |
| `AdapterRack2.Versions` | lib/protocol/rack/adapter/rack2.rb:49-52 | `rack.version` is `[2, 0]`, multithread and run-once are false, and multiprocess is true. |
| `AdapterRack2.SameAsRack3` | lib/protocol/rack/adapter/rack2.rb:54-85 | Every other key has the value the rack 3 env gives it. |
| `AdapterRack2.WrapHeadersSpec` | lib/protocol/rack/adapter/rack2.rb:95-112 | Succeeds exactly when every non-`rack.` value is a string. A value that is not raises NoMethodError. Names are downcased, `rack.` keys go to the metadata, and no header value holds a newline. |
| `AdapterRack2.WrapHeaders` | lib/protocol/rack/adapter/rack2.rb:95-112 | The loop computes the specification function. |
| `AdapterRack2.FirstRaiseStays` | lib/protocol/rack/adapter/rack2.rb:99-109 | Once a field raises, the fields after it do not change the outcome. |
| `AdapterRack2.NewlineRoundTrip` | lib/protocol/rack/adapter/rack2.rb:105-107 | A value of several lines joined with `\n` comes back as one field per line, in order. |
| `AdapterRack2.MakeResponse` | lib/protocol/rack/adapter/rack2.rb:114-135 | Keeps the status. A streaming body on a hijack-capable env becomes `[]`. No array value is left in the headers. |
| `AdapterRack2.MakeResponseHeaders` | lib/protocol/rack/adapter/rack2.rb:116-132 | `rack.hijack` carries the streaming body when hijacked. `rack.protocol` carries the protocol. Every other key is the `to_h` value with arrays joined by `\n`. |
| `AdapterRack2.MergedHeaderRoundTrip` | lib/protocol/rack/adapter/rack2.rb:130-132 | A repeated header that `make_response` joins with `\n` comes back as the same fields, in order, through `wrap_headers`. |
| `AdapterRack2.Call` | lib/protocol/rack/adapter/rack2.rb:40-42 | The Rewindable wrapper replaces the body when it needs rewinding, then the generic call runs on the rack 2 env. |
| `AdapterRack31.MakeEnvironment` | lib/protocol/rack/adapter/rack31.rb:14-66 | A request without a path raises NoMethodError. An empty body is closed once and gets no `rack.input`. A body that is not empty gets a fresh Input. |
| `AdapterRack31.AttachBody` | lib/protocol/rack/adapter/rack31.rb:55-61 | An empty body is closed once and gets no Input. A body that is not empty gets a fresh Input over it, at its start. The env changes only by that `rack.input` entry. Without a body nothing changes. |
| `AdapterRack31.Environment` | lib/protocol/rack/adapter/rack31.rb:18-61 | `rack.input` is present exactly when there is an Input. `rack.response_finished` starts as an empty list. |
| `AdapterRack31.SameAsRack3` | lib/protocol/rack/adapter/rack31.rb:18-53 | Every other key has the value the rack 3 env gives it. |
| `AdapterRack31.Call` | lib/protocol/rack/adapter/rack31.rb:13-66 | Runs the generic call on the env `make_environment` built. |
| `RackRewindable.Buffered` | lib/protocol/rack/rewindable.rb:14-19 | No content type matches nothing. A content type shorter than every buffered media type is never buffered. |
| `RackRewindable.NeedsRewind` | lib/protocol/rack/rewindable.rb:32-44 | A buffered content type needs rewinding whatever the method. Without a content type, exactly a POST needs rewinding. A request other than a POST that needs rewinding has a content type. |
| `RackRewindable.PostWithoutType` | lib/protocol/rack/rewindable.rb:35-37 | A POST without a content type needs rewinding. |
| `RackRewindable.MediaTypeNeedsRewind` | lib/protocol/rack/rewindable.rb:39-41 | A content type that contains one of the four buffered media types needs rewinding, whatever the method. |
| `RackRewindable.NoTypeNotPost` | lib/protocol/rack/rewindable.rb:32-44 | Without a content type, a method other than POST does not need rewinding. |
| `RackRewindable.WithoutMNotBuffered` | lib/protocol/rack/rewindable.rb:14-19 | Any content type without the letter `m` is not buffered, because every buffered media type has one. |
| `RackRewindable.JsonNotBuffered` | lib/protocol/rack/rewindable.rb:14-19 | `application/json` is not a buffered media type. |
| `RackRewindable.RewindBody` | lib/protocol/rack/rewindable.rb:53-59 | The body is replaced by a Rewindable over it exactly when there is a body and it needs rewinding. Otherwise it is unchanged. |
| `RackRequest.HeaderName` | lib/protocol/rack/request.rb:65 | A rebuilt header name is lower case and holds no `_`. |
| `RackRequest.NameRoundTrip` | lib/protocol/rack/request.rb:65 | A lower-case token name mapped to its `HTTP_` key and back is unchanged. |
| `RackRequest.HostName` | lib/protocol/rack/request.rb:64 | `HTTP_HOST` would map back to `host`, which is why it is skipped. |
| `RackRequest.HeadersSpec` | lib/protocol/rack/request.rb:60-70 | At most one field per env entry. Every name is lower case and holds no `_`. |
| `RackRequest.Headers` | lib/protocol/rack/request.rb:60-70 | The loop computes the fold over the env. Every name is lower case without `_`. |
| `RackRequest.HeadersRoundTrip` | lib/protocol/rack/request.rb:60-70 | Headers with distinct lower-case token names other than `host`, written into an env by `unwrap_headers`, come back unchanged. |
| `RackRequest.UpgradeTokens` | lib/protocol/rack/request.rb:56 | No token holds a comma, and the last token is never empty. |
| `RackRequest.UpgradeRoundTrip` | lib/protocol/rack/request.rb:55-56 | An upgrade header joined with `, ` splits back into the same protocols. |
| `RackRequest.ProtocolOf` | lib/protocol/rack/request.rb:52-58 | nil exactly when neither `rack.protocol` nor the upgrade header is set. A non-string upgrade value raises NoMethodError. |
| `RackRequest.ProtocolRoundTrip` | lib/protocol/rack/request.rb:53-54 | The protocol an adapter stores under `rack.protocol` comes back unchanged. |
| `RackRequest.New` | lib/protocol/rack/request.rb:35-48 | Each request field comes from its env key, the headers from the `HTTP_` keys, and the body is an InputWrapper. It raises exactly when `protocol` does. |
| `RackRequest.ForEnv` | lib/protocol/rack/request.rb:31-33 | A cached request is returned and the env is left alone. Otherwise a new request is built and stored under `protocol.http.request`. |
| `RackRequest.CachedAfterStore` | lib/protocol/rack/request.rb:31-33 | After storing, the next lookup finds that same request. |

## Left out

- Body::Streaming and its fibers (`lib/protocol/rack/body/streaming.rb`). A streaming response body is kept as an opaque value: it is what `Body.wrap` picks for a body without `each`, and what `make_response` turns into its `call`.
- `lib/protocol/rack/adapter.rb`, the version dispatch. The three adapters are modelled separately.
- Logging (`Console.logger`): the logger and `$stderr` appear in the env only as placeholder values.
- `REMOTE_ADDR`: `request.remote_address` is not part of this model.
- `failure_response` text formatting, beyond the class name and message of the error.
- `Input#close`, `closed?` and `empty?`. They refer to `close_read`, `close_write` and `@output`, which the class does not define.
- `RackInput.Input.ReadNext`: reads the request body. The source reads an `@input` that nothing sets, so as written every read raises IOError.
- `RackInput.Input.Each`: without a body it raises IOError, as the code does: `gets` reaches `read_next`, which raises when there is no body. The library's own test for a nil body (test/protocol/rack/input.rb:161-165) expects `each` to yield nothing instead, so this snapshot contradicts its test there. The model follows the code.
- `RackInput.Input.Read`: models `buffer.slice!(length)` as "keep the first `length` bytes". A supplied buffer is overwritten with the data read, even when no remainder is pending (see Findings).
- `RackInput.Input.ReadPartial`: cuts a long piece to its first `length` bytes, as the documentation says, instead of `buffer.slice!(length)`, which removes only one byte (see Findings; `RackInput.AsWrittenCut` keeps the written form).
- `RackRequest.HeadersSpec`: an env value under an `HTTP_` key that is not a string is skipped rather than stored, because header fields here hold strings only. The adapters only ever store strings under those keys.
- Integer widths do not matter here. Byte counts and statuses are unbounded integers.
- Encodings and `force_encoding` are not modelled. `downcase`/`upcase` act on ASCII letters only.
- `Integer()` is modelled for an optional sign and digits, with a leading zero meaning octal. Underscores, `0x`/`0b` prefixes and surrounding whitespace are not accepted.
- `AdapterGeneric.Interpolate`: a non-string, non-nil env value under an `HTTP_` key renders as a placeholder, not as Ruby's `inspect`. The adapters only store strings there.
- `RackRequest.New`: env values that are not strings become nil request fields. The contents of `rack.input` behind the InputWrapper are not tracked.
- `Body.wrap` is modelled with three arguments. `Response.wrap` passes it a fourth (`request&.body`), which the three-argument method in `lib/protocol/rack/body.rb` would reject.
- `Response.wrap` and `Generic#call` take the request as `head?` and the set of existing files. They do not take the request object.
- `Headers#to_h` is a parameter `multi`: the names whose values are collected into an array. The other names keep their last value. `Headers#delete` removes every field with the name.
- `Protocol::HTTP::Body::Head` and `Rewindable` are tags around the wrapped body; their own reading behaviour is not modelled.
- The Rewindable middleware's `make_environment` only delegates. `AdapterRack2.Call` therefore calls the rack 2 environment builder directly.
- `Rack2#wrap_headers` is modelled as the adapter defines it. `Response.wrap` itself uses the rack 3 form.
- `AdapterGeneric.Call` requires a callable app, because `Generic.new` refuses any other (`AdapterGeneric.New`).
- Validation of the status and headers the app returns ("Status must be an integer!") does not appear in `lib/protocol/rack/adapter/generic.rb` or `lib/protocol/rack/response.rb`. The status is an integer by type. Non-array, non-string header values are not modelled.
- Completion callbacks (`rack.response_finished`) appear only as the empty list the rack 3.1 env starts with. Firing them is not part of `lib/protocol/rack`.

## Findings

| source | as written | input that shows it | evidently intended | confidence | as-written member | corrected member |
|---|---|---|---|---|---|---|
| lib/protocol/rack/input.rb:101-104 | `@buffer` keeps the bytes from `length` on, but `buffer.slice!(length)` removes only the single byte at index `length`, so the returned string still holds all of the remainder except its first byte | a body of chunks "quick", "brown" and `read(3)`: returns "quik" and keeps "ck", so the caller gets "quik" and then "ck": the "k" is delivered twice and the "c" comes after it | return the first `length` bytes and keep the rest for the next read | not executed | `RackInput.AsWrittenReadRepeatsRemainder` | `RackInput.Input.Read` |
| lib/protocol/rack/input.rb:134-135 | `read_partial(length)` keeps `byteslice(length, ...)` pending and answers the piece after `slice!(length)`, which removes only the byte at index `length` | a "quick" chunk and `read_partial(3)`: answers "quik" and keeps "ck", so the "k" is delivered twice and the "c" comes after it | answer the first `length` bytes and keep the rest | not executed | `RackInput.AsWrittenReadPartialRepeats` | `RackInput.Input.ReadPartial` |
| lib/protocol/rack/input.rb:84-90 | a caller-supplied buffer is used as it is when nothing is buffered, so its old contents count as data read | `read(1, "Thequickbrownfo")` with nothing buffered and the body at its end: returns "Tequickbrownfo" | the supplied buffer is overwritten with the data read | not executed | `RackInput.AsWrittenReadKeepsStaleBuffer` | `RackInput.Input.Read` |

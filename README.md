# wasm_mock_rust: packet interception and HTTP/1.x heads, in Dafny

wasm_mock_rust builds WebAssembly guests for a mock server. The server hands a
guest each TCP packet it intercepts, as a `TcpPayload` (Base64 packet text plus
the local and remote addresses). The guest answers with either the literal
`/continue` or a MessagePack list of `TcpItem`s for the server to stream on.
This project models the core of those guests:

- **WebSocket interception** (`WsHandshake`, `WsChannel`, `WsPipeline`). A
  registry holds one `Channel` per connection key `Laddr-Raddr`. Each channel
  holds, per direction, a buffer, a one-way handshake state machine
  (`RecvRequest → Done`, `RecvResponse → Done`, the opening handshake of
  section 4 of RFC 6455) and a frame codec. The upgrade request has its
  Origin field rewritten. Once a direction's handshake is done, every packet
  gets one decode → guest closure → encode step.
- **MQTT interception** (`Mqtt`). A request buffer and a response buffer per
  connection keep undecoded bytes between packets. One packet is decoded per
  call. A global counter supplies the item Ids.
- **HTTP/1.x heads** (`HttpResponse`, `HttpRequest`, `MockUtil`, with the
  text layers `Text` and `Utf8`). This covers:
  - `find_slice`;
  - status-code classes and reason phrases;
  - status-line and header-block parsing;
  - `Response::from_head`, `try_from` and `content_len`;
  - the `Counter` iterator and `copy_until`;
  - method and version names;
  - `RequestBuilder`, including `parse_msg`, and `Request::new`;
  - `request_to_http1x` and `header_to_string`.

The libraries the pipelines call are not part of this model, so they are
inputs (`Codecs`). Each one is a record of functions:

- Base64 (section 4 of RFC 4648);
- `rmp_serde`;
- `bytecodec::ReadBuf::fill`;
- the `httpcodec` head decoders and request encoder;
- `websocket_codec::MessageCodec`;
- `mqtt_v5`'s codec.

The properties the pipelines rely on become predicates that callers require.
Examples are `Base64RoundTrips` and `WsLibsValid` (the re-encoded upgrade
request is UTF-8). The panic of `as_text().unwrap()` on a message the closure
passes on that is not text is modelled as the outcome `AsTextPanic`.
The global mutex-guarded maps become classes (`WsRegistry`, `MqttRegistry`)
whose methods run one call at a time.

Imperative code is modelled as classes with `modifies` clauses and loops. This
covers the registries, `Channel`, `Counter`, `RequestBuilder`, `find_slice`,
`copy_until`, `modify_request_origin` and `request_to_http1x`. Each method is
proved equal to a specification function over the old state. The properties
are then lemmas about those functions.

## Model

| member | source | states |
|---|---|---|
| MockUtil.ConnKey | crates/wasm-mock-websocket/src/lib.rs:69 | the registry key is the local address, '-', then the remote address |
| MockUtil.ConnKeyCollides | crates/wasm-mock-websocket/src/lib.rs:69 | two different address pairs can share one key when an address holds '-' |
| MockUtil.FieldLines | crates/wasm-mock-util/src/lib.rs:917-925 | one field line per header with a non-empty name, in order; never more lines than headers |
| MockUtil.RequestLines | crates/wasm-mock-util/src/lib.rs:913-916 | no request line without a method; with one, "METHOD / HTTP/1.1" |
| MockUtil.Http1x | crates/wasm-mock-util/src/lib.rs:911-928 | the rendered text always ends in CRLF |
| MockUtil.FieldLine | crates/wasm-mock-util/src/lib.rs:919-925 | a header adds a line exactly when its name is non-empty |
| MockUtil.FieldLinesSnoc | crates/wasm-mock-util/src/lib.rs:917-925 | one more header adds its own field line at the end |
| MockUtil.Http1xStep | crates/wasm-mock-util/src/lib.rs:917-925 | one loop iteration appends exactly that header's "name: value\r\n", or nothing |
| MockUtil.AppendFieldLines | crates/wasm-mock-util/src/lib.rs:917-925 | the header loop extends the text by the CRLF-closed field lines of all headers |
| MockUtil.RequestToHttp1x | crates/wasm-mock-util/src/lib.rs:911-928 | the imperative builder produces exactly the request line, the field lines and the blank line, each closed by CRLF |
| MockUtil.Http1xEmpty | crates/wasm-mock-util/src/lib.rs:926-927 | a request with no method and no named header renders as exactly "\r\n" |
| MockUtil.FieldLinesUnnamed | crates/wasm-mock-util/src/lib.rs:919 | headers with empty names contribute no line |
| MockUtil.Http1xStart | crates/wasm-mock-util/src/lib.rs:913-916 | with a method the text opens with "METHOD / HTTP/1.1\r\n"; without one it opens with the field lines |
| MockUtil.Http1xIgnoresTarget | crates/wasm-mock-util/src/lib.rs:913-916 | the request's path and version make no difference to the text |
| MockUtil.EncodeCharLead | crates/wasm-mock-util/src/lib.rs:922 | only a line feed encodes with a leading byte 10 |
| MockUtil.NoNewlineEncoded | crates/wasm-mock-util/src/lib.rs:922 | text whose UTF-8 holds no byte 10 holds no line feed |
| MockUtil.DecodeNoNewline | crates/wasm-mock-util/src/lib.rs:922 | a value without byte 10 decodes to text without a line feed |
| MockUtil.FieldLinesNoNewline | crates/wasm-mock-util/src/lib.rs:917-925 | field lines of newline-free headers have no line feed |
| MockUtil.Http1xLines | crates/wasm-mock-util/src/lib.rs:911-928 | split back into lines, the text gives the request line, one "name: value" per named header in order, and the closing empty line |
| MockUtil.HeaderToString | crates/wasm-mock-util/src/lib.rs:930-934 | the result is the header's value as text, whose UTF-8 bytes are the value; the name is not used |
| Base.Min | crates/wasm-mock-websocket/src/channel.rs:40 | the smaller of two counts |
| Base.DigitChar | crates/wasm-mock-mqtt/src/lib.rs:51 | the ASCII digit of a value below ten |
| Base.Decimal | crates/wasm-mock-mqtt/src/lib.rs:51 | decimal rendering: non-empty, digits only, no leading zero |
| Utf8.EncodeChar | crates/http_req/src/request.rs:572 | one scalar value is one to four bytes |
| Utf8.Encode | crates/http_req/src/request.rs:572 | `as_bytes` is never shorter than the text |
| Utf8.DecodeChar | crates/http_req/src/response.rs:40 | a well-formed sequence taken from the front is one to four bytes long |
| Utf8.Decode | crates/http_req/src/response.rs:40 | `from_utf8` never yields more characters than bytes |
| Utf8.DecodeEncodeChar | crates/http_req/src/response.rs:40 | one encoded scalar value decodes back to itself, whatever follows |
| Utf8.DecodeEncode | crates/http_req/src/response.rs:40 | `from_utf8` accepts the bytes of any text and returns that text |
| Utf8.EncodeDecodeChar | crates/http_req/src/response.rs:40 | a decoded scalar value re-encodes to the bytes it came from |
| Utf8.EncodeDecode | crates/wasm-mock-websocket/src/channel.rs:56 | text `from_utf8` accepts re-encodes to exactly the input bytes |
| Utf8.EncodeAppend | crates/http_req/src/request.rs:572 | encoding distributes over concatenation |
| Utf8.EncodeAscii | crates/wasm-mock-websocket/src/channel.rs:43 | ASCII text encodes as one byte per character, its code |
| Utf8.TrimStart | crates/http_req/src/response.rs:223 | drops exactly the leading whitespace |
| Utf8.TrimEnd | crates/http_req/src/response.rs:223 | drops exactly the trailing whitespace |
| Utf8.Trim | crates/http_req/src/response.rs:223 | the result is a slice of the input with whitespace only around it, and neither starts nor ends with whitespace |
| Utf8.TrimNoop | crates/http_req/src/response.rs:223 | text with no whitespace at either end is its own trim |
| Text.IndexOf | crates/http_req/src/response.rs:366 | the first occurrence of the character, None exactly when it is absent |
| Text.SplitOnce | crates/http_req/src/response.rs:366-367 | the text before and after the first separator; None exactly when there is none |
| Text.SplitOnceAt | crates/http_req/src/response.rs:366-367 | splitting a + c + b where a holds no c gives (a, b) |
| Text.SplitN2 | crates/http_req/src/response.rs:40 | `splitn(2, c)`: one piece exactly when c is absent, otherwise the pieces around the first c |
| Text.SplitN3 | crates/http_req/src/response.rs:223 | `splitn(3, c)`: one to three pieces, the first two without c, which joined with c give the text |
| Text.StripCr | crates/http_req/src/response.rs:362 | removes at most one trailing carriage return |
| Text.Lines | crates/http_req/src/response.rs:362 | `lines`: no line holds a line feed; only the empty text has no lines |
| Text.LinesCrLf | crates/http_req/src/response.rs:362 | a CRLF-closed line is the first line |
| Text.JoinCrLf | crates/http_req/src/request.rs:557-572 | lines each closed by CRLF; empty exactly for no lines |
| Text.JoinCrLfAppend | crates/http_req/src/request.rs:557-572 | joining distributes over concatenation of the line lists |
| Text.LinesJoinCrLf | crates/http_req/src/response.rs:362 | CRLF-joined newline-free lines split back into the same lines |
| Text.LowerAscii | crates/http_req/src/response.rs:248 | ASCII upper case maps to lower case; everything else is kept |
| Text.Fold | crates/http_req/src/response.rs:248 | the key under which `unicase::Ascii` compares: each character folded, same length |
| Text.FoldIdempotent | crates/http_req/src/response.rs:248 | folding twice is folding once |
| Text.ParseUnsigned | crates/http_req/src/response.rs:608-610 | `str::parse` of an unsigned: Some exactly for an optional '+' then digits whose value fits |
| Text.DigitsValueDecimal | crates/http_req/src/response.rs:608-610 | decimal rendering is all digits and reads back as the number |
| Text.ParseDecimal | crates/http_req/src/response.rs:608-610 | a rendered number within range parses back to itself |
| HttpResponse.FirstMatch | crates/http_req/src/response.rs:619-623 | the first match position at or after i, None exactly when there is none |
| HttpResponse.FindSliceSpec | crates/http_req/src/response.rs:614-628 | the end of the first match; None exactly when data is not longer than the pattern or nothing matches |
| HttpResponse.FindSlice | crates/http_req/src/response.rs:614-628 | the scan with early return computes the specification |
| HttpResponse.StatusCode.IsInfo | crates/http_req/src/response.rs:436-438 | 1xx: codes from 100 to 199 |
| HttpResponse.StatusCode.IsSuccess | crates/http_req/src/response.rs:449-451 | 2xx: codes from 200 to 299 |
| HttpResponse.StatusCode.IsRedirect | crates/http_req/src/response.rs:462-464 | 3xx: codes from 300 to 399 |
| HttpResponse.StatusCode.IsClientErr | crates/http_req/src/response.rs:475-477 | 4xx: codes from 400 to 499 |
| HttpResponse.StatusCode.IsServerErr | crates/http_req/src/response.rs:488-490 | 5xx: codes from 500 to 599 |
| HttpResponse.InfoReason | crates/http_req/src/response.rs:516-518 | a phrase exactly for 100, 101 and 102 |
| HttpResponse.SuccessReason | crates/http_req/src/response.rs:519-528 | a phrase exactly for 200 to 208 and 226 |
| HttpResponse.RedirectReason | crates/http_req/src/response.rs:529-536 | a phrase exactly for 300 to 305, 307 and 308 |
| HttpResponse.ClientErrReason | crates/http_req/src/response.rs:537-564 | a phrase exactly for the 28 tabled 4xx codes |
| HttpResponse.ServerErrReason | crates/http_req/src/response.rs:565-575 | a phrase exactly for 500 to 508, 510 and 511 |
| HttpResponse.StatusCode.Reason | crates/http_req/src/response.rs:514-584 | within each class, Some exactly for that class's tabled codes; a returned phrase is non-empty; no phrase outside 100 to 599 |
| HttpResponse.StatusClasses | crates/http_req/src/response.rs:436-490 | the five classes are pairwise disjoint and together are exactly 100 to 599 |
| HttpResponse.ReasonTable | crates/http_req/src/response.rs:514-584 | 101, 204 and 418 have their canonical phrases |
| HttpResponse.DefaultReason | crates/http_req/src/response.rs:226-229 | the canonical phrase of a tabled code; "Unknown" exactly for a code without one |
| HttpResponse.ParseStatus | crates/http_req/src/response.rs:222-233 | a trimmed line without a space is StatusErr; with a space it succeeds exactly when the second piece parses as a u16, and otherwise fails with Int; a result has a space-free version, a code that parses as u16, and the given reason or the default phrase |
| HttpResponse.DecimalNoSpace | crates/http_req/src/response.rs:608-610 | a rendered code holds no space |
| HttpResponse.StatusLineParts | crates/http_req/src/response.rs:223 | "version code reason" splits into exactly those three |
| HttpResponse.StatusLinePartsNoReason | crates/http_req/src/response.rs:223 | "version code" splits into exactly those two |
| HttpResponse.ParseStatusLine | crates/http_req/src/response.rs:222-233 | a written status line parses back to its version, code and reason |
| HttpResponse.ParseStatusNoReason | crates/http_req/src/response.rs:226-229 | without a reason the canonical phrase (or "Unknown") is taken |
| HttpResponse.Headers.Get | crates/http_req/src/response.rs:310-312 | a value exactly for a key present up to ASCII case |
| HttpResponse.Headers.Insert | crates/http_req/src/response.rs:328-334 | returns the old value, sets the new one, keeps the first spelling of a present key, stores a new key under the spelling given, and leaves other keys alone |
| HttpResponse.Headers.Set | crates/http_req/src/response.rs:328-334 | insert with the old value dropped: the key reads back, others unchanged |
| HttpResponse.EmptyHeaders | crates/http_req/src/response.rs:262 | no entries |
| HttpResponse.HeaderKey | crates/http_req/src/response.rs:366-367 | the text before the first ':' |
| HttpResponse.HeaderValue | crates/http_req/src/response.rs:367-368 | the trimmed text after the first ':' |
| HttpResponse.InsertLines | crates/http_req/src/response.rs:363-370 | inserting header lines keeps the map well formed |
| HttpResponse.LastValue | crates/http_req/src/response.rs:363-370 | the value of the last line for a key, None exactly when no line has it |
| HttpResponse.InsertLinesLastWins | crates/http_req/src/response.rs:363-370 | after the inserts a key has its last line's value, or its earlier value when no line has it |
| HttpResponse.ParseHeaders | crates/http_req/src/response.rs:359-376 | HeadersErr exactly when a line of the trimmed block lacks ':' |
| HttpResponse.ParseHeadersValues | crates/http_req/src/response.rs:359-376 | each key has the value of its last line; a key on no line is absent |
| HttpResponse.DefaultHttp | crates/http_req/src/response.rs:346-353 | Host (empty without a host) and Referer (the URI), and nothing else |
| HttpResponse.FromHead | crates/http_req/src/response.rs:39-45 | invalid UTF-8 is Utf8Error; a response is the status of the first line and the headers of the rest; a head without a line feed fails |
| HttpResponse.FromHeadParses | crates/http_req/src/response.rs:39-45 | the converse: a parsing status line, a line feed and a parsing header block give exactly the response of those two |
| HttpResponse.FromHeadErrorOrder | crates/http_req/src/response.rs:39-45 | the status line's error comes before the header block's; without a line feed a parsing status line gives HeadersErr |
| HttpResponse.HeadEnd | crates/http_req/src/response.rs:67-70 | just after the first CRLFCRLF, or the whole input when there is none |
| HttpResponse.HeadLength | crates/http_req/src/response.rs:67-70 | the `find_slice` fallback computes the head end |
| HttpResponse.WriteAll | crates/http_req/src/response.rs:73 | `write_all`: every byte reaches the writer, or it fails after taking a prefix |
| HttpResponse.TryFrom | crates/http_req/src/response.rs:63-77 | empty input is Parse(Empty); a head parse error is returned as it is with nothing written; after a parsed head the rest goes to the writer, giving the response or, when the write fails, IO |
| HttpResponse.ContentLen | crates/http_req/src/response.rs:176-187 | a parsing Content-Length wins; otherwise 0 for 204; otherwise unknown |
| HttpRequest.Tick | crates/http_req/src/request.rs:42-51 | fires exactly when the incremented count reaches stop, then resets to 0; a count below stop stays below it |
| HttpRequest.Fires | crates/http_req/src/request.rs:42-51 | call n yields true exactly when n is a multiple of a positive stop, and never with stop 0 |
| HttpRequest.FiresOnMultiples | crates/http_req/src/request.rs:42-51 | the step of call n reaches stop just when stop divides n |
| HttpRequest.CountAfter | crates/http_req/src/request.rs:42-51 | with a positive stop the count stays below stop |
| HttpRequest.Counter.constructor | crates/http_req/src/request.rs:34-36 | count 0 and the given stop |
| HttpRequest.Counter.Next | crates/http_req/src/request.rs:42-51 | never None; true exactly when the incremented count reaches stop, which resets it to 0 |
| HttpRequest.CountAfterRounds | crates/http_req/src/request.rs:42-51 | after q rounds and r more calls the count is r |
| HttpRequest.CounterFiresEvery | crates/http_req/src/request.rs:25-27 | true on exactly every stop-th call |
| HttpRequest.CounterStopZero | crates/http_req/src/request.rs:42-51 | with stop 0 the count only rises and never fires |
| HttpRequest.CopyLoop | crates/http_req/src/request.rs:105-129 | a result has consumed at least one more event, or all of them |
| HttpRequest.CopyLoopParts | crates/http_req/src/request.rs:97-132 | the two parts concatenated are exactly the bytes read |
| HttpRequest.CopyLoopStops | crates/http_req/src/request.rs:106-131 | end of stream leaves the first part empty, the deadline the second; when found, the first part ends just after the first occurrence |
| HttpRequest.Parts | crates/http_req/src/request.rs:131 | the two parts of a result, or its error |
| HttpRequest.CopyUntil | crates/http_req/src/request.rs:97-132 | the loop returns the parts of the recursive specification |
| HttpRequest.MethodText | crates/http_req/src/request.rs:146-162 | a non-empty upper-case name |
| HttpRequest.MethodTextInjective | crates/http_req/src/request.rs:146-162 | different methods have different names |
| HttpRequest.VersionText | crates/http_req/src/request.rs:172-182 | "HTTP/x.y", eight characters, no space |
| HttpRequest.VersionTextInjective | crates/http_req/src/request.rs:172-182 | different versions have different names |
| HttpRequest.HeaderFieldLines | crates/http_req/src/request.rs:566-570 | one "key: value" per header in iteration order, with the key as first spelt |
| HttpRequest.MessageHead | crates/http_req/src/request.rs:557-572 | the head opens with "METHOD resource VERSION\r\n" and ends with the blank line "\r\n\r\n" |
| HttpRequest.MessageHeadLines | crates/http_req/src/request.rs:557-572 | the head splits back into the request line, the field lines and the blank line |
| HttpRequest.FieldLineReadsBack | crates/http_req/src/request.rs:569 | a written field line parses back to its key and value |
| HttpRequest.RequestBuilder.constructor | crates/http_req/src/request.rs:246-255 | GET, HTTP/1.1, the `default_http` headers, no body, no timeout |
| HttpRequest.RequestBuilder.SetMethod | crates/http_req/src/request.rs:278-284 | sets the method, nothing else changes |
| HttpRequest.RequestBuilder.SetVersion | crates/http_req/src/request.rs:308-314 | sets the version, nothing else changes |
| HttpRequest.RequestBuilder.SetHeaders | crates/http_req/src/request.rs:341-347 | replaces the whole header set |
| HttpRequest.RequestBuilder.Header | crates/http_req/src/request.rs:369-376 | sets one key up to ASCII case; other keys keep their values |
| HttpRequest.RequestBuilder.SetBody | crates/http_req/src/request.rs:402-405 | sets the body, nothing else changes |
| HttpRequest.RequestBuilder.SetTimeout | crates/http_req/src/request.rs:429-435 | sets the timeout, nothing else changes |
| HttpRequest.RequestBuilder.ParseMsg | crates/http_req/src/request.rs:557-579 | the UTF-8 of the head, which decodes back to it, followed by exactly the body if one is set |
| HttpRequest.RequestBuilder.Build | crates/http_req/src/request.rs:597-605 | a new request around this builder with 60-second timeouts and no certificate |
| HttpRequest.Request.constructor | crates/http_req/src/request.rs:647-658 | a default builder plus "Connection: Close", Host and Referer kept, 60-second timeouts |
| HttpRequest.Request.FromBuilder | crates/http_req/src/request.rs:597-605 | the builder and 60-second timeouts |
| Codecs.ContinueEncodes | crates/wasm-mock-websocket/src/channel.rs:43 | the "/continue" reply is the UTF-8 of that text |
| Codecs.ContinueText | crates/wasm-mock-websocket/src/channel.rs:43 | and decodes back to it |
| Codecs.Serialized | crates/wasm-mock-websocket/src/channel.rs:62 | the serialised list, or SerializeError exactly when serialisation fails |
| Codecs.Fill | crates/wasm-mock-websocket/src/lib.rs:73 | the old buffered bytes followed by a prefix of the packet |
| Codecs.Taken | crates/wasm-mock-websocket/src/channel.rs:40 | a decoder never takes more than the buffer holds |
| Codecs.AsText | crates/wasm-mock-websocket/src/lib.rs:201 | Some exactly for a text message with UTF-8 data, whose encoding is the data |
| Codecs.ClientCodec | crates/wasm-mock-websocket/src/channel.rs:29 | masks; no frame read yet |
| Codecs.ServerCodec | crates/wasm-mock-websocket/src/channel.rs:30 | does not mask; no frame read yet |
| WsHandshake.BoolDebug | crates/wasm-mock-websocket/src/handshake.rs:12 | "true" exactly for true, otherwise "false" |
| WsHandshake.HandshakeDebug | crates/wasm-mock-websocket/src/handshake.rs:8-20 | "Handshake Done { .. }", or "Handshake RecvRequest " + idle flag + " { .. }" |
| WsHandshake.HandshakeDebugDistinguishes | crates/wasm-mock-websocket/src/handshake.rs:8-20 | the rendering tells the states apart and shows the idle flag |
| WsChannel.IsOriginName | crates/wasm-mock-websocket/src/channel.rs:131 | exactly the spellings "origin" and "Origin" |
| WsChannel.RewriteField | crates/wasm-mock-websocket/src/channel.rs:128-136 | the name is kept; an Origin field takes the override, any other field is kept whole |
| WsChannel.RewriteFields | crates/wasm-mock-websocket/src/channel.rs:128-136 | every field rewritten, same count, same order |
| WsChannel.RewriteOrigin | crates/wasm-mock-websocket/src/channel.rs:125-139 | same method, target, version and field names in order; exactly "origin"/"Origin" take the override |
| WsChannel.RewriteOriginIdempotent | crates/wasm-mock-websocket/src/channel.rs:125-139 | rewriting twice is rewriting once |
| WsChannel.RewriteOriginNoOrigin | crates/wasm-mock-websocket/src/channel.rs:133-135 | a request without an Origin field is unchanged |
| WsChannel.RewriteOriginCaseSensitive | crates/wasm-mock-websocket/src/channel.rs:131 | a field spelt "ORIGIN" keeps its value |
| WsChannel.ModifyRequestOrigin | crates/wasm-mock-websocket/src/channel.rs:125-139 | the field loop builds exactly the rewritten request |
| WsChannel.HandshakeItem | crates/wasm-mock-websocket/src/channel.rs:54-60 | String encodes to the request bytes, Payload is their Base64, Id "laddr-raddr:Handshake" |
| WsChannel.HandshakeReqStep | crates/wasm-mock-websocket/src/channel.rs:37-77 | the buffer left is a suffix of the one given |
| WsChannel.HandshakeReqWaits | crates/wasm-mock-websocket/src/channel.rs:38-44 | stays receiving exactly when the decoder is mid-message without error, keeps the bytes taken, replies "/continue" |
| WsChannel.HandshakeReqDoneStays | crates/wasm-mock-websocket/src/channel.rs:71-74 | once done: done, "/continue", buffer untouched |
| WsChannel.HandshakeReqReply | crates/wasm-mock-websocket/src/channel.rs:45-69 | a whole request gives one serialised item for the rewritten request; anything else replies "/continue" |
| WsChannel.StatusText | crates/wasm-mock-websocket/src/channel.rs:90-94 | "handshake res ok" exactly for 101, otherwise the "not ok" text with the status |
| WsChannel.HandshakeResStep | crates/wasm-mock-websocket/src/channel.rs:78-123 | the buffer left is a suffix of the one given |
| WsChannel.HandshakeResWaits | crates/wasm-mock-websocket/src/channel.rs:83-87 | stays receiving exactly while the response is incomplete; done leaves the buffer alone |
| WsChannel.HandshakeResReply | crates/wasm-mock-websocket/src/channel.rs:78-123 | "/continue" only while incomplete; otherwise one item with the original packet, "handshake res ok" iff complete with 101, "handshake " iff nothing was decoded |
| WsChannel.Channel.constructor | crates/wasm-mock-websocket/src/channel.rs:23-34 | empty buffers, both handshakes receiving with fresh decoders, client and server codecs, the addresses |
| WsChannel.Channel.ProcessHandshakeReq | crates/wasm-mock-websocket/src/channel.rs:37-77 | reply, handshake and request buffer are those of the step function; the response side and codecs are unchanged |
| WsChannel.Channel.ProcessHandshakeRes | crates/wasm-mock-websocket/src/channel.rs:78-123 | reply, handshake and response buffer are those of the step function; the request side and codecs are unchanged |
| WsPipeline.FrameItem | crates/wasm-mock-websocket/src/lib.rs:199-205 | text message whose String encodes to its data, Payload the Base64 of the frame, Id "laddr-raddr " |
| WsPipeline.FrameReady | crates/wasm-mock-websocket/src/lib.rs:187-192 | a frame header was read, its length fits in the bytes read, and a message was decoded |
| WsPipeline.ClosureSpec | crates/wasm-mock-websocket/src/lib.rs:173-225 | the buffer is always left empty; a reply other than "/continue" comes only from a ready frame |
| WsPipeline.ClosureEmptyBuffer | crates/wasm-mock-websocket/src/lib.rs:177-179 | an empty buffer replies "/continue" and changes nothing |
| WsPipeline.ClosureDrains | crates/wasm-mock-websocket/src/lib.rs:180-186 | a non-empty buffer is drained whole; the codec keeps its new state |
| WsPipeline.ClosureNotRun | crates/wasm-mock-websocket/src/lib.rs:187-192 | unless a frame is ready the closure makes no difference |
| WsPipeline.ClosureReply | crates/wasm-mock-websocket/src/lib.rs:187-224 | the closure's error; for a message that encodes, one item if it is text and the `as_text` panic if not; otherwise "/continue" |
| WsPipeline.ClosurePanics | crates/wasm-mock-websocket/src/lib.rs:194-201 | the step panics exactly when a ready frame passes the closure and encodes but is not text |
| WsPipeline.PassThroughPanics | crates/wasm-mock-websocket/src/lib.rs:34-38 | the usage example's closure, which leaves messages as they are, panics on a ready non-text frame that re-encodes |
| WsPipeline.ProcessClosure | crates/wasm-mock-websocket/src/lib.rs:173-225 | for any closure, reply, buffer and codec are those of the frame-step specification |
| WsPipeline.ReqPacket | crates/wasm-mock-websocket/src/lib.rs:73-81 | once done the handshake stays done and the buffer ends empty; while still receiving the reply is "/continue" and the codec is untouched |
| WsPipeline.ResPacket | crates/wasm-mock-websocket/src/lib.rs:148-156 | the same on the response side |
| WsPipeline.InitialReqSide | crates/wasm-mock-websocket/src/channel.rs:25-29 | a new channel's request side: receiving, empty, client codec |
| WsPipeline.InitialResSide | crates/wasm-mock-websocket/src/channel.rs:26-30 | a new channel's response side: receiving, empty, server codec |
| WsPipeline.ReqClosureUnusedBeforeHandshake | crates/wasm-mock-websocket/src/lib.rs:74-77 | while the request handshake receives, the closure is never consulted and the codec is untouched |
| WsPipeline.ResClosureUnusedBeforeHandshake | crates/wasm-mock-websocket/src/lib.rs:149-152 | while the response handshake receives, the closure is never consulted and the codec is untouched |
| WsPipeline.ReqHandshakeMonotone | crates/wasm-mock-websocket/src/lib.rs:78-80 | once the request handshake is done it stays done |
| WsPipeline.ResHandshakeMonotone | crates/wasm-mock-websocket/src/lib.rs:153-155 | once the response handshake is done it stays done |
| WsPipeline.DispatchReq | crates/wasm-mock-websocket/src/lib.rs:73-81 | fill then handshake or frame step on the request side; the response side is unchanged |
| WsPipeline.DispatchRes | crates/wasm-mock-websocket/src/lib.rs:148-156 | fill then handshake or frame step on the response side; the request side is unchanged |
| WsPipeline.WsRegistry.constructor | crates/wasm-mock-websocket/src/lib.rs:17-20 | an empty registry |
| WsPipeline.WsRegistry.HandleWsReq | crates/wasm-mock-websocket/src/lib.rs:67-97 | Base64 failure first and changes nothing; otherwise get or create the key's channel, run the request packet on it and insert it if new; other channels unchanged |
| WsPipeline.WsRegistry.HandleWsRes | crates/wasm-mock-websocket/src/lib.rs:142-172 | the same for the response side, with the original packet text |
| Mqtt.MqttChannel.constructor | crates/wasm-mock-mqtt/src/lib.rs:25-34 | both buffers empty and the given addresses |
| Mqtt.PacketOf | crates/wasm-mock-mqtt/src/lib.rs:44-52 | at most one item; the buffer left is a suffix |
| Mqtt.PacketOfItem | crates/wasm-mock-mqtt/src/lib.rs:45-51 | an item exactly when a packet decodes, carrying the rewritten packet encoded in Base64 and its Debug text after the rewrite |
| Mqtt.PacketOfKeepsRest | crates/wasm-mock-mqtt/src/lib.rs:44-45 | bytes the codec does not consume stay for the next call |
| Mqtt.DecodePacket | crates/wasm-mock-mqtt/src/lib.rs:45-52 | the decode, closure and encode compute the packet step |
| Mqtt.MqttRegistry.constructor | crates/wasm-mock-mqtt/src/lib.rs:9-13 | no channels; the count is 0 |
| Mqtt.MqttRegistry.Lookup | crates/wasm-mock-mqtt/src/lib.rs:43-54 | the stored channel, or a fresh one with empty buffers for an unseen key |
| Mqtt.MqttRegistry.HandleReq | crates/wasm-mock-mqtt/src/lib.rs:38-66 | Base64 failure first and changes nothing; appends to the request buffer only; items of the packet step with Id the count; the count is unchanged |
| Mqtt.MqttRegistry.HandleRes | crates/wasm-mock-mqtt/src/lib.rs:67-96 | the same on the response buffer; the count rises by exactly one per call past the Base64 decode |

## Left out

- The `lazy_static` mutexes around both registries and `Count` are left out. Each registry is a class whose methods run one at a time.
- Library internals are not part of this model. That covers Base64, `rmp_serde`, `ReadBuf`, the `httpcodec` decoders and encoder, `MessageCodec` frame decoding, and `mqtt_v5`. They are function-valued inputs, with the properties relied on stated as predicates.
- A WebSocket closure is a function from the decoded message to the message it leaves behind, or to an error text. The `Vec<u8>` it returns on success is not modelled, because `process_closure` ignores it.
- The `MessageCodec` state is modelled only as masking plus `frame_length`. The `mqtt_v5` codec is a stateless function of the buffer and is the same for both directions.
- `ReadBuf`'s capacity (4096 bytes) and layout are not modelled. How much a fill takes is the `fill` input.
- The error path of `ReadBuf::fill` is left out, because a `Cursor` over a vector never fails to read. `read_to_end` on the buffer is likewise taken to succeed.
- A head decoder's progress is what it has been fed plus an abstract step outcome. `is_idle` is an abstract function of that.
- The `Debug` text of an `httpcodec` status code is the `statusDebug` input.
- Most `unwrap`s are taken as preconditions rather than panics. These are: the UTF-8 of the re-encoded upgrade request (`WsLibsValid`, which asks it of every request), the encoder's `start_encoding`/`encode_all`, and the MQTT `encode`. The `as_text().unwrap()` after the closure is the outcome `AsTextPanic` instead. The model keeps the state as it stands at the panic: the buffer drained and the codec updated. It does not capture that a panicking guest traps and never replies. The header values in `request_to_http1x`/`header_to_string` are covered by `NamedValuesUtf8`.
- Mqtt.MqttRegistry.HandleRes: `Count` is an unbounded `nat`, so the overflow of the source's `i32` after 2^31 − 1 calls is not modelled.
- HttpRequest.Counter.Next: the count is a `nat`, so `usize` overflow (reachable only with stop 0) is not modelled.
- `copy_until` reads into an 80-byte buffer. Here the reader is a list of events, each delivering any number of bytes. The clock is a per-event flag saying whether the deadline has passed when it is looked at.
- The write of `copy_until` into its `Vec` cannot fail and is not modelled.
- The generic writer of `try_from` is the `WriteOutcome` input: it takes every byte, or it fails with an `io::Error` after some of them. The `Error` enum is modelled only as its `Parse` and `IO` cases.
- `Headers` is a map from the ASCII-folded key to the first spelling and the value. `HashMap` iteration order is the `order` input of `ParseMsg`.
- `Uri` is not part of this model. It is a record of its text, resource and host header.
- The `Request` setters that only delegate to the builder are left out. So are `connect_timeout`, `read_timeout`, `write_timeout`, `root_cert_file_pem` and `timeout` on `Request`.
- The following are network I/O, wall-clock deadlines or host calls, and are left out: `RequestBuilder::send`, `write_msg`, `read_head`; `copy_with_timeout`; `copy_exact`; `Request::send`; `get`, `head`, `post`.
- The macros and host-call wrappers of the util crate, the proc-macro and codegen crates, and the examples are left out.
- HttpResponse.StatusCode.Reason: the contract states which codes have a phrase. The phrases themselves are stated only in the class table bodies, with the spot checks of `ReasonTable`.
- HttpResponse.ParseStatus: the version and code are checked as pieces of the trimmed line. The code's range check is `ParseUnsigned` with the `u16` maximum.

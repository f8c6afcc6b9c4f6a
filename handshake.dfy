/** The two one-way opening handshakes of a WebSocket connection (section
    4 of RFC 6455) as crates/wasm-mock-websocket/src/handshake.rs keeps
    them: each direction waits for its HTTP head, then is done for good. */
module WsHandshake {
  import opened Base
  import opened Codecs

  /** A partial `RequestDecoder<NoBodyDecoder>`: the bytes it has taken. */
  datatype RequestDecoder = RequestDecoder(fed: seq<byte>)

  /** A partial `ResponseDecoder<BodyDecoder<RemainingBytesDecoder>>`. */
  datatype ResponseDecoder = ResponseDecoder(fed: seq<byte>)

  /** `Handshake`: waiting for the upgrade request, or done. */
  datatype Handshake = RecvRequest(decoder: RequestDecoder) | Done

  /** `HandshakeRes`: waiting for the upgrade response, or done. */
  datatype HandshakeRes = RecvResponse(decoder: ResponseDecoder) | ResDone

  /** Rust's `{:?}` of a `bool`. */
  function BoolDebug(b: bool): (s: string)
    ensures s == "true" || s == "false"
    ensures s == "true" <==> b
  {
    if b then "true" else "false"
  }

  /** `Debug for Handshake`, with the decoder's `is_idle` flag supplied by
      the request decoder. */
  function HandshakeDebug(h: Handshake, d: HeadDecoder<RequestHead>): (s: string)
    ensures h.Done? ==> s == "Handshake Done { .. }"
    ensures h.RecvRequest? ==> s == "Handshake RecvRequest " + BoolDebug(d.idle(h.decoder.fed)) + " { .. }"
  {
    match h
    case RecvRequest(dec) => "Handshake RecvRequest " + BoolDebug(d.idle(dec.fed)) + " { .. }"
    case Done => "Handshake Done { .. }"
  }

  /** The rendering tells the two states apart and, while receiving, shows
      whether the decoder is idle. */
  lemma HandshakeDebugDistinguishes(h1: Handshake, h2: Handshake, d: HeadDecoder<RequestHead>)
    requires HandshakeDebug(h1, d) == HandshakeDebug(h2, d)
    ensures h1.Done? <==> h2.Done?
    ensures h1.RecvRequest? && h2.RecvRequest? ==> d.idle(h1.decoder.fed) == d.idle(h2.decoder.fed)
  {
    var s1, s2 := HandshakeDebug(h1, d), HandshakeDebug(h2, d);
    assert s1[10] == s2[10];
    if h1.RecvRequest? && h2.RecvRequest? {
      assert s1[22] == s2[22];
    }
  }
}

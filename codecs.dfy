/** The libraries the interception pipelines call into, as values: Base64,
    MessagePack serialisation (`rmp_serde`), the `bytecodec::ReadBuf` fill,
    the `httpcodec` head decoders and request encoder, the
    `websocket_codec::MessageCodec` frame codec and the `mqtt_v5` codec.
    Their sources are not part of this model, so each is a record of
    functions, and the properties the pipelines rely on are predicates the
    callers require. */
module Codecs {
  import opened Base
  import opened Utf8
  import opened MockUtil

  /** How a guest entry point fails: the error it returns (`Box<dyn
      Error>`), by origin, or the panic of an `unwrap` on `as_text`, which
      ends the call without a reply. */
  datatype CallError = Base64Error | SerializeError | ClosureError(message: string) | AsTextPanic

  /** The reply that tells the mock server to forward the packet as it is. */
  const CONTINUE: seq<byte> := [47, 99, 111, 110, 116, 105, 110, 117, 101]

  /** The reply is the UTF-8 encoding of the text `/continue`. */
  lemma ContinueEncodes()
    ensures Encode("/continue") == CONTINUE
  {
    EncodeAscii("/continue");
  }

  /** ... and reads back as that text. */
  lemma ContinueText()
    ensures Decode(CONTINUE) == Some("/continue")
  {
    ContinueEncodes();
    DecodeEncode("/continue");
  }

  /** `base64::engine::general_purpose::STANDARD` (section 4 of RFC 4648). */
  datatype Base64 = Base64(encode: seq<byte> -> string, decode: string -> Option<seq<byte>>)

  /** Decoding what was encoded gives the bytes back. */
  ghost predicate Base64RoundTrips(b: Base64) {
    forall x :: b.decode(b.encode(x)) == Some(x)
  }

  /** `rmp_serde::to_vec` of an item list; None stands for its error. */
  type Serializer = seq<TcpItem> -> Option<seq<byte>>

  /** The reply for a list of items: the serialised list, or the
      serialiser's error. */
  function Serialized(ser: Serializer, items: seq<TcpItem>): (r: Result<seq<byte>, CallError>)
    ensures r.Ok? <==> ser(items).Some?
    ensures r.Ok? ==> r.value == ser(items).value
    ensures r.Err? ==> r.error == SerializeError
  {
    match ser(items)
    case None => Err(SerializeError)
    case Some(b) => Ok(b)
  }

  /** `ReadBuf::fill` from a cursor over one packet: how many of the
      packet's bytes the buffer takes, given what it already holds. */
  type FillTake = (seq<byte>, seq<byte>) -> nat

  /** The buffered bytes after a fill: the old ones followed by a prefix
      of the packet. */
  function Fill(take: FillTake, buffered: seq<byte>, packet: seq<byte>): (r: seq<byte>)
    ensures |buffered| <= |r| <= |buffered| + |packet|
    ensures r[..|buffered|] == buffered
    ensures r[|buffered|..] == packet[..|r| - |buffered|]
  {
    buffered + packet[..Min(take(buffered, packet), |packet|)]
  }

  /** `httpcodec::HeaderField`. */
  datatype Field = Field(name: string, value: string)

  /** `httpcodec::Request<()>`: the parts `modify_request_origin` reads. */
  datatype RequestHead = RequestHead(methodName: string, target: string, version: string, fields: seq<Field>)

  /** `httpcodec::Response<Vec<u8>>`: only its status code is read. */
  datatype ResponseHead = ResponseHead(statusCode: u16)

  /** What one `decode_from_read_buf` and, when needed, `finish_decoding`
      come to: the decoder took `used` bytes and is still mid-message
      without error, or it holds a whole message, or it failed. */
  datatype DecodeStep<M> = NeedMore(used: nat) | Complete(msg: M, used: nat) | Failed(used: nat)

  /** An `httpcodec` head decoder, whose state is the bytes fed to it so
      far: `step(fed, available)` is the outcome of offering it the
      buffered bytes, `idle(fed)` its `is_idle` flag. */
  datatype HeadDecoder<M> = HeadDecoder(step: (seq<byte>, seq<byte>) -> DecodeStep<M>,
                                        idle: seq<byte> -> bool)

  /** The bytes a decoder took from a buffer: never more than it holds. */
  function Taken<M>(s: DecodeStep<M>, available: seq<byte>): (k: nat)
    ensures k <= |available|
  {
    Min(s.used, |available|)
  }

  /** `websocket_codec::Opcode`. */
  datatype Opcode = Text | Binary | Close | Ping | Pong

  /** `websocket_codec::Message`. */
  datatype Message = Message(opcode: Opcode, data: seq<byte>)

  /** `Message::as_text`: the payload of a text message as a string. */
  function AsText(m: Message): (r: Option<string>)
    ensures r.Some? ==> m.opcode == Text && Encode(r.value) == m.data
    ensures m.opcode == Text && Decode(m.data).Some? ==> r.Some?
  {
    if m.opcode == Text then
      match Decode(m.data)
      case None => None
      case Some(s) => EncodeDecode(m.data); Some(s)
    else None
  }

  /** `websocket_codec::MessageCodec`: whether it masks what it encodes
      and the `frame_length` of the last frame header it read. */
  datatype MessageCodec = MessageCodec(useMask: bool, frameLength: Option<nat>)

  /** `MessageCodec::client()`: masks, as a client must. */
  function ClientCodec(): (c: MessageCodec)
    ensures c.useMask && c.frameLength.None?
  {
    MessageCodec(true, None)
  }

  /** `MessageCodec::server()`: does not mask. */
  function ServerCodec(): (c: MessageCodec)
    ensures !c.useMask && c.frameLength.None?
  {
    MessageCodec(false, None)
  }

  /** What `Decoder::decode` returned. */
  datatype FrameOutcome = NoMessage | Decoded(msg: Message) | DecodeError

  /** The frame codec: `decode` gives the updated codec and the outcome;
      `encode` gives the frame bytes or None for an error. */
  datatype FrameCodec = FrameCodec(decode: (MessageCodec, seq<byte>) -> (MessageCodec, FrameOutcome),
                                   encode: (MessageCodec, Message) -> Option<seq<byte>>)

  /** A guest's WebSocket closure: it may rewrite the message, and fails
      with an error message. */
  type WsClosure = Message -> Result<Message, string>

  /** Everything the WebSocket pipeline calls into. */
  datatype WsLibs = WsLibs(base64: Base64, serialize: Serializer, fill: FillTake,
                           requestDecoder: HeadDecoder<RequestHead>,
                           responseDecoder: HeadDecoder<ResponseHead>,
                           encodeRequest: RequestHead -> seq<byte>,
                           statusDebug: u16 -> string,
                           frames: FrameCodec)

  /** The `from_utf8(..).unwrap()` on the encoded request succeeds. */
  ghost predicate WsLibsValid(l: WsLibs) {
    forall h :: Decode(l.encodeRequest(h)).Some?
  }

  /** `mqtt_v5::codec::MqttCodec` over packets `P`: `decode` gives the
      packet found (for `Ok(Some(..))`) and how many bytes it took,
      `encode` the packet's bytes, `render` its `Debug` text. */
  datatype MqttCodec<!P> = MqttCodec(decode: seq<byte> -> (Option<P>, nat),
                                    encode: P -> seq<byte>,
                                    render: P -> string)
}

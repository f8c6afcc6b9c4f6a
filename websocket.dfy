/** The WebSocket interception entry points (crates/wasm-mock-websocket/src/lib.rs):
    a registry of channels keyed by connection, the per-direction
    dispatch between handshake and frame processing, and the frame step
    that runs the guest's closure on one decoded message. */
module WsPipeline {
  import opened Base
  import opened Utf8
  import opened MockUtil
  import opened Codecs
  import opened WsHandshake
  import opened WsChannel

  /** What `process_closure` leaves behind: the reply, the buffer and the
      frame codec. */
  datatype ClosureStep = ClosureStep(out: Result<seq<byte>, CallError>, buf: seq<byte>, codec: MessageCodec)

  /** The item reporting a frame the closure passed on. */
  function FrameItem(libs: WsLibs, encoded: seq<byte>, m: Message, laddr: string, raddr: string): (item: TcpItem)
    requires AsText(m).Some?
    ensures Encode(item.String) == m.data && m.opcode == Text
    ensures Base64RoundTrips(libs.base64) ==> libs.base64.decode(item.Payload) == Some(encoded)
    ensures item.Id == ConnKey(laddr, raddr) + " "
    ensures item.Laddr == laddr && item.Raddr == raddr
  {
    TcpItem(libs.base64.encode(encoded), AsText(m).value, laddr + "-" + raddr + " ", laddr, raddr)
  }

  /** Whether the closure runs: the codec has read a frame header whose
      length fits in the bytes read, and decode gave a message. */
  predicate FrameReady(codec: MessageCodec, outcome: FrameOutcome, read: seq<byte>) {
    codec.frameLength.Some? && codec.frameLength.value <= |read| && outcome.Decoded?
  }

  /** `process_closure` on values. A message the closure passes on that
      encodes but is not UTF-8 text (a binary, close, ping or pong frame)
      makes the `as_text().unwrap()` panic. */
  function ClosureSpec(libs: WsLibs, buf: seq<byte>, codec: MessageCodec, laddr: string, raddr: string,
                       closure: WsClosure): (r: ClosureStep)
    ensures r.buf == []
    ensures r.out.Ok? && r.out.value != CONTINUE ==>
              buf != [] && FrameReady(libs.frames.decode(codec, buf).0, libs.frames.decode(codec, buf).1, buf)
  {
    if buf == [] then ClosureStep(Ok(CONTINUE), buf, codec)
    else
      var (after, outcome) := libs.frames.decode(codec, buf);
      if FrameReady(after, outcome, buf) then
        match closure(outcome.msg)
        case Err(e) => ClosureStep(Err(ClosureError(e)), [], after)
        case Ok(m) =>
          match libs.frames.encode(after, m)
          case None => ClosureStep(Ok(CONTINUE), [], after)
          case Some(encoded) =>
            if AsText(m).None? then ClosureStep(Err(AsTextPanic), [], after)
            else ClosureStep(Serialized(libs.serialize, [FrameItem(libs, encoded, m, laddr, raddr)]), [], after)
      else ClosureStep(Ok(CONTINUE), [], after)
  }

  /** An empty buffer replies "/continue" and changes nothing, whatever
      the codec and the closure. */
  lemma ClosureEmptyBuffer(libs: WsLibs, codec: MessageCodec, laddr: string, raddr: string, closure: WsClosure)
    ensures ClosureSpec(libs, [], codec, laddr, raddr, closure) == ClosureStep(Ok(CONTINUE), [], codec)
  {
  }

  /** A non-empty buffer is drained whole into one decode; bytes the codec
      does not consume are dropped, and the codec keeps its new state. */
  lemma ClosureDrains(libs: WsLibs, buf: seq<byte>, codec: MessageCodec, laddr: string, raddr: string, closure: WsClosure)
    requires buf != []
    ensures ClosureSpec(libs, buf, codec, laddr, raddr, closure).buf == []
    ensures ClosureSpec(libs, buf, codec, laddr, raddr, closure).codec == libs.frames.decode(codec, buf).0
  {
  }

  /** Unless a frame is ready, the closure makes no difference. */
  lemma ClosureNotRun(libs: WsLibs, buf: seq<byte>, codec: MessageCodec, laddr: string, raddr: string,
                      c1: WsClosure, c2: WsClosure)
    requires buf == [] || !FrameReady(libs.frames.decode(codec, buf).0, libs.frames.decode(codec, buf).1, buf)
    ensures ClosureSpec(libs, buf, codec, laddr, raddr, c1) == ClosureSpec(libs, buf, codec, laddr, raddr, c2)
  {
  }

  /** The reply of the frame step: the closure's error; or, when the
      message the closure passed on encodes, one item for it (its frame
      in Base64, its text, Id "laddr-raddr ") if it is text and the panic
      otherwise; or "/continue". */
  lemma ClosureReply(libs: WsLibs, buf: seq<byte>, codec: MessageCodec, laddr: string, raddr: string, closure: WsClosure)
    requires Base64RoundTrips(libs.base64) && buf != []
    ensures var r := ClosureSpec(libs, buf, codec, laddr, raddr, closure);
            var (after, outcome) := libs.frames.decode(codec, buf);
            && (!FrameReady(after, outcome, buf) ==> r.out == Ok(CONTINUE))
            && (FrameReady(after, outcome, buf) && closure(outcome.msg).Err? ==>
                  r.out == Err(ClosureError(closure(outcome.msg).error)))
            && (FrameReady(after, outcome, buf) && closure(outcome.msg).Ok? ==>
                  var m := closure(outcome.msg).value;
                  && (libs.frames.encode(after, m).None? ==> r.out == Ok(CONTINUE))
                  && (libs.frames.encode(after, m).Some? && AsText(m).None? ==> r.out == Err(AsTextPanic))
                  && (libs.frames.encode(after, m).Some? && AsText(m).Some? ==>
                        exists item: TcpItem ::
                          && r.out == Serialized(libs.serialize, [item])
                          && libs.base64.decode(item.Payload) == libs.frames.encode(after, m)
                          && m.opcode == Text && Encode(item.String) == m.data
                          && item.Id == ConnKey(laddr, raddr) + " "
                          && item.Laddr == laddr && item.Raddr == raddr))
  {
    var (after, outcome) := libs.frames.decode(codec, buf);
    if FrameReady(after, outcome, buf) && closure(outcome.msg).Ok? {
      var m := closure(outcome.msg).value;
      if libs.frames.encode(after, m).Some? && AsText(m).Some? {
        var item := FrameItem(libs, libs.frames.encode(after, m).value, m, laddr, raddr);
        assert ClosureSpec(libs, buf, codec, laddr, raddr, closure).out == Serialized(libs.serialize, [item]);
      }
    }
  }

  /** The frame step panics exactly when a frame is ready, the closure
      succeeds and the message it passes on encodes but is not text. */
  lemma ClosurePanics(libs: WsLibs, buf: seq<byte>, codec: MessageCodec, laddr: string, raddr: string, closure: WsClosure)
    ensures var (after, outcome) := libs.frames.decode(codec, buf);
            ClosureSpec(libs, buf, codec, laddr, raddr, closure).out == Err(AsTextPanic)
            <==> (&& buf != [] && FrameReady(after, outcome, buf) && closure(outcome.msg).Ok?
                  && libs.frames.encode(after, closure(outcome.msg).value).Some?
                  && AsText(closure(outcome.msg).value).None?)
  {
    if buf != [] {
      var (after, outcome) := libs.frames.decode(codec, buf);
      if FrameReady(after, outcome, buf) && closure(outcome.msg).Ok? {
        var m := closure(outcome.msg).value;
        if libs.frames.encode(after, m).Some? && AsText(m).Some? {
          var item := FrameItem(libs, libs.frames.encode(after, m).value, m, laddr, raddr);
          assert Serialized(libs.serialize, [item]).Err? ==> Serialized(libs.serialize, [item]).error == SerializeError;
        }
      }
    }
  }

  /** The pass-through closure of the crate's own usage example, which
      leaves every message as it is, panics on any ready frame that is not
      a text message once it re-encodes (a close frame, say). */
  lemma PassThroughPanics(libs: WsLibs, buf: seq<byte>, codec: MessageCodec, laddr: string, raddr: string)
    requires buf != []
    requires var (after, outcome) := libs.frames.decode(codec, buf);
             FrameReady(after, outcome, buf) && outcome.msg.opcode != Text && libs.frames.encode(after, outcome.msg).Some?
    ensures ClosureSpec(libs, buf, codec, laddr, raddr, (m: Message) => Ok(m)).out == Err(AsTextPanic)
  {
  }

  /** `process_closure`: the buffer and the codec are the channel's, passed
      in and handed back. */
  method ProcessClosure(libs: WsLibs, readBuf: seq<byte>, frameDecoder: MessageCodec, laddr: string, raddr: string,
                        closure: WsClosure)
    returns (r: Result<seq<byte>, CallError>, newBuf: seq<byte>, newCodec: MessageCodec)
    ensures ClosureStep(r, newBuf, newCodec) == ClosureSpec(libs, readBuf, frameDecoder, laddr, raddr, closure)
  {
    newBuf, newCodec := readBuf, frameDecoder;
    var consolidated: seq<TcpItem> := [];
    if |newBuf| == 0 {
      return Ok(CONTINUE), newBuf, newCodec;
    }
    var buf := newBuf;
    newBuf := [];
    var bufLen := |buf|;
    var decoded := libs.frames.decode(newCodec, buf);
    newCodec := decoded.0;
    var result := decoded.1;
    if newCodec.frameLength.Some? {
      var fl := newCodec.frameLength.value;
      if fl > bufLen {
      } else if result.Decoded? {
        var rr := closure(result.msg);
        if rr.Err? {
          return Err(ClosureError(rr.error)), newBuf, newCodec;
        }
        var m := rr.value;
        var bytes := libs.frames.encode(newCodec, m);
        if bytes.Some? {
          var encodedMessage := libs.base64.encode(bytes.value);
          if AsText(m).None? {
            return Err(AsTextPanic), newBuf, newCodec;
          }
          consolidated := consolidated + [TcpItem(encodedMessage, AsText(m).value, laddr + "-" + raddr + " ", laddr, raddr)];
          assert consolidated == [FrameItem(libs, bytes.value, m, laddr, raddr)];
        }
      }
    }
    if |consolidated| > 0 {
      var out := libs.serialize(consolidated);
      if out.None? {
        return Err(SerializeError), newBuf, newCodec;
      }
      return Ok(out.value), newBuf, newCodec;
    }
    return Ok(CONTINUE), newBuf, newCodec;
  }

  /** The request-direction state of a channel. */
  datatype ReqSide = ReqSide(handshake: Handshake, buf: seq<byte>, codec: MessageCodec)

  /** The response-direction state of a channel. */
  datatype ResSide = ResSide(handshakeRes: HandshakeRes, buf: seq<byte>, codec: MessageCodec)

  function ReqSideOf(ch: Channel): ReqSide
    reads ch
  {
    ReqSide(ch.handshake, ch.wsReqBuf, ch.frameReqDecoder)
  }

  function ResSideOf(ch: Channel): ResSide
    reads ch
  {
    ResSide(ch.handshakeRes, ch.wsResBuf, ch.frameResDecoder)
  }

  /** The request side of a new channel. */
  function InitialReqSide(): (s: ReqSide)
    ensures s.handshake.RecvRequest? && s.buf == [] && s.codec == ClientCodec()
  {
    ReqSide(RecvRequest(RequestDecoder([])), [], ClientCodec())
  }

  /** The response side of a new channel. */
  function InitialResSide(): (s: ResSide)
    ensures s.handshakeRes.RecvResponse? && s.buf == [] && s.codec == ServerCodec()
  {
    ResSide(RecvResponse(ResponseDecoder([])), [], ServerCodec())
  }

  /** One request packet on one channel's request side: fill the buffer,
      then the handshake step while it is receiving, the frame step once
      it is done. */
  function ReqPacket(libs: WsLibs, s: ReqSide, packet: seq<byte>, origin: string, laddr: string, raddr: string,
                     c: WsClosure): (r: (Result<seq<byte>, CallError>, ReqSide))
    requires WsLibsValid(libs)
    ensures s.handshake.Done? ==> r.1.handshake.Done? && r.1.buf == []
    ensures r.1.handshake.RecvRequest? ==> r.0 == Ok(CONTINUE) && r.1.codec == s.codec
  {
    var buf := Fill(libs.fill, s.buf, packet);
    match s.handshake
    case RecvRequest(_) =>
      var st := HandshakeReqStep(libs, s.handshake, buf, origin, laddr, raddr);
      (st.out, ReqSide(st.handshake, st.buf, s.codec))
    case Done =>
      var cs := ClosureSpec(libs, buf, s.codec, laddr, raddr, c);
      (cs.out, ReqSide(Done, cs.buf, cs.codec))
  }

  /** One response packet on one channel's response side; `original` is
      the packet's Base64 text. */
  function ResPacket(libs: WsLibs, s: ResSide, packet: seq<byte>, original: string, laddr: string, raddr: string,
                     c: WsClosure): (r: (Result<seq<byte>, CallError>, ResSide))
    ensures s.handshakeRes.ResDone? ==> r.1.handshakeRes.ResDone? && r.1.buf == []
    ensures r.1.handshakeRes.RecvResponse? ==> r.0 == Ok(CONTINUE) && r.1.codec == s.codec
  {
    var buf := Fill(libs.fill, s.buf, packet);
    match s.handshakeRes
    case RecvResponse(_) =>
      var st := HandshakeResStep(libs, s.handshakeRes, buf, original, laddr, raddr);
      (st.out, ResSide(st.handshakeRes, st.buf, s.codec))
    case ResDone =>
      var cs := ClosureSpec(libs, buf, s.codec, laddr, raddr, c);
      (cs.out, ResSide(ResDone, cs.buf, cs.codec))
  }

  /** While the request handshake is receiving, the closure is never
      consulted and the frame codec is untouched. */
  lemma ReqClosureUnusedBeforeHandshake(libs: WsLibs, s: ReqSide, packet: seq<byte>, origin: string,
                                        laddr: string, raddr: string, c1: WsClosure, c2: WsClosure)
    requires WsLibsValid(libs) && s.handshake.RecvRequest?
    ensures ReqPacket(libs, s, packet, origin, laddr, raddr, c1) == ReqPacket(libs, s, packet, origin, laddr, raddr, c2)
    ensures ReqPacket(libs, s, packet, origin, laddr, raddr, c1).1.codec == s.codec
  {
  }

  /** While the response handshake is receiving, the closure is never
      consulted and the frame codec is untouched. */
  lemma ResClosureUnusedBeforeHandshake(libs: WsLibs, s: ResSide, packet: seq<byte>, original: string,
                                        laddr: string, raddr: string, c1: WsClosure, c2: WsClosure)
    requires s.handshakeRes.RecvResponse?
    ensures ResPacket(libs, s, packet, original, laddr, raddr, c1) == ResPacket(libs, s, packet, original, laddr, raddr, c2)
    ensures ResPacket(libs, s, packet, original, laddr, raddr, c1).1.codec == s.codec
  {
  }

  /** Once the request handshake is done it stays done. */
  lemma ReqHandshakeMonotone(libs: WsLibs, s: ReqSide, packet: seq<byte>, origin: string,
                             laddr: string, raddr: string, c: WsClosure)
    requires WsLibsValid(libs) && s.handshake.Done?
    ensures ReqPacket(libs, s, packet, origin, laddr, raddr, c).1.handshake.Done?
  {
  }

  /** Once the response handshake is done it stays done. */
  lemma ResHandshakeMonotone(libs: WsLibs, s: ResSide, packet: seq<byte>, original: string,
                             laddr: string, raddr: string, c: WsClosure)
    requires s.handshakeRes.ResDone?
    ensures ResPacket(libs, s, packet, original, laddr, raddr, c).1.handshakeRes.ResDone?
  {
  }

  /** The request-direction dispatch of `handle_ws_req` on one channel. */
  method DispatchReq(libs: WsLibs, channel: Channel, file: seq<byte>, changeOrigin: string, c: WsClosure)
    returns (r: Result<seq<byte>, CallError>)
    requires WsLibsValid(libs)
    modifies channel
    ensures (r, ReqSideOf(channel)) == ReqPacket(libs, old(ReqSideOf(channel)), file, changeOrigin, channel.laddr, channel.raddr, c)
    ensures ResSideOf(channel) == old(ResSideOf(channel))
  {
    channel.wsReqBuf := Fill(libs.fill, channel.wsReqBuf, file);
    match channel.handshake {
      case RecvRequest(_) =>
        r := channel.ProcessHandshakeReq(libs, changeOrigin);
      case Done =>
        var newBuf, newCodec;
        r, newBuf, newCodec := ProcessClosure(libs, channel.wsReqBuf, channel.frameReqDecoder, channel.laddr, channel.raddr, c);
        channel.wsReqBuf, channel.frameReqDecoder := newBuf, newCodec;
    }
  }

  /** The response-direction dispatch of `handle_ws_res` on one channel. */
  method DispatchRes(libs: WsLibs, channel: Channel, file: seq<byte>, original: string, c: WsClosure)
    returns (r: Result<seq<byte>, CallError>)
    modifies channel
    ensures (r, ResSideOf(channel)) == ResPacket(libs, old(ResSideOf(channel)), file, original, channel.laddr, channel.raddr, c)
    ensures ReqSideOf(channel) == old(ReqSideOf(channel))
  {
    channel.wsResBuf := Fill(libs.fill, channel.wsResBuf, file);
    match channel.handshakeRes {
      case RecvResponse(_) =>
        r := channel.ProcessHandshakeRes(libs, original);
      case ResDone =>
        var newBuf, newCodec;
        r, newBuf, newCodec := ProcessClosure(libs, channel.wsResBuf, channel.frameResDecoder, channel.laddr, channel.raddr, c);
        channel.wsResBuf, channel.frameResDecoder := newBuf, newCodec;
    }
  }

  /** `CHANNEL_MAP`: the channels by connection key. */
  class WsRegistry {
    var channels: map<string, Channel>

    /** One channel per key, stored under its own addresses' key. */
    ghost predicate Valid()
      reads this
    {
      && (forall k :: k in channels ==> ConnKey(channels[k].laddr, channels[k].raddr) == k)
      && (forall k1, k2 :: k1 in channels && k2 in channels && k1 != k2 ==> channels[k1] != channels[k2])
    }

    constructor ()
      ensures Valid() && channels == map[]
    {
      channels := map[];
    }

    /** `handle_ws_req`: a packet from the local side. */
    method HandleWsReq(libs: WsLibs, payload: TcpPayload, changeOrigin: string, c: WsClosure)
      returns (r: Result<seq<byte>, CallError>)
      requires Valid() && WsLibsValid(libs)
      modifies this, channels.Values
      ensures Valid()
      ensures libs.base64.decode(payload.Payload).None? ==>
                r == Err(Base64Error) && channels == old(channels)
                && forall ch :: ch in old(channels.Values) ==> unchanged(ch)
      ensures libs.base64.decode(payload.Payload).Some? ==>
                var key := ConnKey(payload.Laddr, payload.Raddr);
                && key in channels
                && (key in old(channels) ==> channels == old(channels))
                && (key !in old(channels) ==>
                      && fresh(channels[key]) && channels == old(channels)[key := channels[key]]
                      && channels[key].laddr == payload.Laddr && channels[key].raddr == payload.Raddr)
                && (forall ch :: ch in old(channels.Values) && ch != channels[key] ==> unchanged(ch))
      ensures libs.base64.decode(payload.Payload).Some? ==>
                var key := ConnKey(payload.Laddr, payload.Raddr);
                key in channels &&
                var ch := channels[key];
                && (r, ReqSideOf(ch)) == ReqPacket(libs, if key in old(channels) then old(ReqSideOf(channels[key])) else InitialReqSide(),
                                                  libs.base64.decode(payload.Payload).value, changeOrigin, ch.laddr, ch.raddr, c)
                && ResSideOf(ch) == (if key in old(channels) then old(ResSideOf(channels[key])) else InitialResSide())
    {
      var conn := payload.Laddr + "-" + payload.Raddr;
      var decoded := libs.base64.decode(payload.Payload);
      if decoded.None? {
        return Err(Base64Error);
      }
      var file := decoded.value;
      if conn in channels {
        var channel := channels[conn];
        r := DispatchReq(libs, channel, file, changeOrigin, c);
      } else {
        var channel := new Channel(payload.Laddr, payload.Raddr);
        r := DispatchReq(libs, channel, file, changeOrigin, c);
        channels := channels[conn := channel];
      }
    }

    /** `handle_ws_res`: a packet from the remote side. */
    method HandleWsRes(libs: WsLibs, payload: TcpPayload, c: WsClosure)
      returns (r: Result<seq<byte>, CallError>)
      requires Valid()
      modifies this, channels.Values
      ensures Valid()
      ensures libs.base64.decode(payload.Payload).None? ==>
                r == Err(Base64Error) && channels == old(channels)
                && forall ch :: ch in old(channels.Values) ==> unchanged(ch)
      ensures libs.base64.decode(payload.Payload).Some? ==>
                var key := ConnKey(payload.Laddr, payload.Raddr);
                && key in channels
                && (key in old(channels) ==> channels == old(channels))
                && (key !in old(channels) ==>
                      && fresh(channels[key]) && channels == old(channels)[key := channels[key]]
                      && channels[key].laddr == payload.Laddr && channels[key].raddr == payload.Raddr)
                && (forall ch :: ch in old(channels.Values) && ch != channels[key] ==> unchanged(ch))
      ensures libs.base64.decode(payload.Payload).Some? ==>
                var key := ConnKey(payload.Laddr, payload.Raddr);
                key in channels &&
                var ch := channels[key];
                && (r, ResSideOf(ch)) == ResPacket(libs, if key in old(channels) then old(ResSideOf(channels[key])) else InitialResSide(),
                                                  libs.base64.decode(payload.Payload).value, payload.Payload, ch.laddr, ch.raddr, c)
                && ReqSideOf(ch) == (if key in old(channels) then old(ReqSideOf(channels[key])) else InitialReqSide())
    {
      var conn := payload.Laddr + "-" + payload.Raddr;
      var decoded := libs.base64.decode(payload.Payload);
      if decoded.None? {
        return Err(Base64Error);
      }
      var file := decoded.value;
      if conn in channels {
        var channel := channels[conn];
        r := DispatchRes(libs, channel, file, payload.Payload, c);
      } else {
        var channel := new Channel(payload.Laddr, payload.Raddr);
        r := DispatchRes(libs, channel, file, payload.Payload, c);
        channels := channels[conn := channel];
      }
    }
  }
}

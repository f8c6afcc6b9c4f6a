/** One intercepted WebSocket connection (crates/wasm-mock-websocket/src/channel.rs):
    a buffer, a handshake state and a frame codec per direction, and the
    two handshake steps with the Origin rewrite of the upgrade request. */
module WsChannel {
  import opened Base
  import opened Utf8
  import opened MockUtil
  import opened Codecs
  import opened WsHandshake

  /** The header names whose value the rewrite replaces: these two
      spellings exactly, not any other capitalisation. */
  predicate IsOriginName(name: string) {
    name == "origin" || name == "Origin"
  }

  /** One field after the rewrite: the name is kept, and only an Origin
      field takes the new value. */
  function RewriteField(f: Field, origin: string): (r: Field)
    ensures r.name == f.name
    ensures IsOriginName(f.name) ==> r.value == origin
    ensures !IsOriginName(f.name) ==> r == f
  {
    if IsOriginName(f.name) then Field(f.name, origin) else f
  }

  function RewriteFields(fs: seq<Field>, origin: string): (r: seq<Field>)
    ensures |r| == |fs|
    ensures forall i :: 0 <= i < |fs| ==> r[i] == RewriteField(fs[i], origin)
  {
    seq(|fs|, i requires 0 <= i < |fs| => RewriteField(fs[i], origin))
  }

  /** The request `modify_request_origin` builds. */
  function RewriteOrigin(request: RequestHead, origin: string): (r: RequestHead)
    ensures r.methodName == request.methodName && r.target == request.target
    ensures r.version == request.version
    ensures |r.fields| == |request.fields|
    ensures forall i :: 0 <= i < |r.fields| ==> r.fields[i].name == request.fields[i].name
    ensures forall i :: 0 <= i < |r.fields| ==>
              r.fields[i].value == (if IsOriginName(request.fields[i].name) then origin else request.fields[i].value)
  {
    RequestHead(request.methodName, request.target, request.version, RewriteFields(request.fields, origin))
  }

  /** Rewriting twice is rewriting once. */
  lemma RewriteOriginIdempotent(request: RequestHead, origin: string)
    ensures RewriteOrigin(RewriteOrigin(request, origin), origin) == RewriteOrigin(request, origin)
  {
  }

  /** A request without an Origin field passes through unchanged. */
  lemma RewriteOriginNoOrigin(request: RequestHead, origin: string)
    requires forall i :: 0 <= i < |request.fields| ==> !IsOriginName(request.fields[i].name)
    ensures RewriteOrigin(request, origin) == request
  {
    assert RewriteOrigin(request, origin).fields == request.fields;
  }

  /** A field spelt "ORIGIN" keeps its value. */
  lemma RewriteOriginCaseSensitive(value: string, origin: string)
    ensures RewriteOrigin(RequestHead("GET", "/", "HTTP/1.1", [Field("ORIGIN", value)]), origin).fields
            == [Field("ORIGIN", value)]
  {
  }

  /** `modify_request_origin`: a new request with the same method, target
      and version, then every field of the old one in order, added with
      the override as value when it is named "origin" or "Origin". */
  method ModifyRequestOrigin(request: RequestHead, origin: string) returns (r: RequestHead)
    ensures r == RewriteOrigin(request, origin)
  {
    r := RequestHead(request.methodName, request.target, request.version, []);
    var fields := request.fields;
    for i := 0 to |fields|
      invariant r == RequestHead(request.methodName, request.target, request.version, RewriteFields(fields[..i], origin))
    {
      var field := fields[i];
      var name := field.name;
      var value := field.value;
      assert RewriteFields(fields[..i + 1], origin) == RewriteFields(fields[..i], origin) + [RewriteField(field, origin)];
      if name == "origin" || name == "Origin" {
        r := r.(fields := r.fields + [Field(name, origin)]);
      } else {
        r := r.(fields := r.fields + [Field(name, value)]);
      }
    }
    assert fields[..|fields|] == fields;
  }

  /** The reply and the new request-side state after a request handshake
      step. */
  datatype ReqStep = ReqStep(out: Result<seq<byte>, CallError>, handshake: Handshake, buf: seq<byte>)

  /** The reply and the new response-side state after a response
      handshake step. */
  datatype ResStep = ResStep(out: Result<seq<byte>, CallError>, handshakeRes: HandshakeRes, buf: seq<byte>)

  /** The item reporting the upgrade request as re-encoded. */
  function HandshakeItem(libs: WsLibs, encoded: seq<byte>, laddr: string, raddr: string): (item: TcpItem)
    requires Decode(encoded).Some?
    ensures Encode(item.String) == encoded
    ensures Base64RoundTrips(libs.base64) ==> libs.base64.decode(item.Payload) == Some(encoded)
    ensures item.Id == ConnKey(laddr, raddr) + ":Handshake"
    ensures item.Laddr == laddr && item.Raddr == raddr
  {
    EncodeDecode(encoded);
    TcpItem(libs.base64.encode(encoded), Decode(encoded).value, laddr + "-" + raddr + ":Handshake", laddr, raddr)
  }

  /** `process_handshake_req` on values: the handshake, the buffered
      bytes, the Origin override and the channel's addresses. */
  function HandshakeReqStep(libs: WsLibs, h: Handshake, buf: seq<byte>, origin: string,
                            laddr: string, raddr: string): (r: ReqStep)
    requires WsLibsValid(libs)
    ensures |r.buf| <= |buf| && r.buf == buf[|buf| - |r.buf|..]
  {
    match h
    case Done => ReqStep(Ok(CONTINUE), Done, buf)
    case RecvRequest(d) =>
      var s := libs.requestDecoder.step(d.fed, buf);
      var k := Taken(s, buf);
      match s
      case NeedMore(_) => ReqStep(Ok(CONTINUE), RecvRequest(RequestDecoder(d.fed + buf[..k])), buf[k..])
      case Failed(_) => ReqStep(Ok(CONTINUE), Done, buf[k..])
      case Complete(request, _) =>
        var encoded := libs.encodeRequest(RewriteOrigin(request, origin));
        ReqStep(Serialized(libs.serialize, [HandshakeItem(libs, encoded, laddr, raddr)]), Done, buf[k..])
  }

  /** The request handshake stays open exactly when the decoder took the
      buffered bytes without error and is mid-message; it then keeps
      those bytes and replies "/continue". */
  lemma HandshakeReqWaits(libs: WsLibs, h: Handshake, buf: seq<byte>, origin: string, laddr: string, raddr: string)
    requires WsLibsValid(libs)
    ensures var r := HandshakeReqStep(libs, h, buf, origin, laddr, raddr);
            r.handshake.RecvRequest? <==> h.RecvRequest? && libs.requestDecoder.step(h.decoder.fed, buf).NeedMore?
    ensures var r := HandshakeReqStep(libs, h, buf, origin, laddr, raddr);
            r.handshake.RecvRequest? ==>
              r.out == Ok(CONTINUE) && r.handshake.decoder.fed == h.decoder.fed + buf[..|buf| - |r.buf|]
  {
  }

  /** Once done, the request handshake stays done, replies "/continue"
      and leaves the buffer alone. */
  lemma HandshakeReqDoneStays(libs: WsLibs, buf: seq<byte>, origin: string, laddr: string, raddr: string)
    requires WsLibsValid(libs)
    ensures HandshakeReqStep(libs, Done, buf, origin, laddr, raddr) == ReqStep(Ok(CONTINUE), Done, buf)
  {
  }

  /** A whole upgrade request is reported as one item: the rewritten
      request re-encoded, in Base64 and as text, under the connection's
      handshake Id; anything else replies "/continue". */
  lemma HandshakeReqReply(libs: WsLibs, h: Handshake, buf: seq<byte>, origin: string, laddr: string, raddr: string)
    requires WsLibsValid(libs) && Base64RoundTrips(libs.base64)
    ensures var r := HandshakeReqStep(libs, h, buf, origin, laddr, raddr);
            h.RecvRequest? && libs.requestDecoder.step(h.decoder.fed, buf).Complete? ==>
              var encoded := libs.encodeRequest(RewriteOrigin(libs.requestDecoder.step(h.decoder.fed, buf).msg, origin));
              exists item: TcpItem ::
                && r.out == Serialized(libs.serialize, [item])
                && libs.base64.decode(item.Payload) == Some(encoded)
                && Encode(item.String) == encoded
                && item.Id == ConnKey(laddr, raddr) + ":Handshake"
                && item.Laddr == laddr && item.Raddr == raddr
    ensures var r := HandshakeReqStep(libs, h, buf, origin, laddr, raddr);
            !(h.RecvRequest? && libs.requestDecoder.step(h.decoder.fed, buf).Complete?) ==> r.out == Ok(CONTINUE)
  {
    if h.RecvRequest? {
      var s := libs.requestDecoder.step(h.decoder.fed, buf);
      if s.Complete? {
        var encoded := libs.encodeRequest(RewriteOrigin(s.msg, origin));
        var item := HandshakeItem(libs, encoded, laddr, raddr);
        assert HandshakeReqStep(libs, h, buf, origin, laddr, raddr).out == Serialized(libs.serialize, [item]);
      }
    }
  }

  /** The String of the item for a whole upgrade response. */
  function StatusText(libs: WsLibs, code: u16): (t: string)
    ensures t == "handshake res ok" <==> code == 101
    ensures code != 101 ==> t == "handshake res not ok, status code " + libs.statusDebug(code)
  {
    if code == 101 then "handshake res ok"
    else
      var t := "handshake res not ok, status code " + libs.statusDebug(code);
      assert |t| > |"handshake res ok"|;
      t
  }

  /** `process_handshake_res` on values; `original` is the packet's Base64
      text, reported as it is. */
  function HandshakeResStep(libs: WsLibs, h: HandshakeRes, buf: seq<byte>, original: string,
                            laddr: string, raddr: string): (r: ResStep)
    ensures |r.buf| <= |buf| && r.buf == buf[|buf| - |r.buf|..]
  {
    var id := ConnKey(laddr, raddr) + ":Handshake res";
    match h
    case ResDone => ResStep(Serialized(libs.serialize, [TcpItem(original, "handshake ", id, laddr, raddr)]), ResDone, buf)
    case RecvResponse(d) =>
      var s := libs.responseDecoder.step(d.fed, buf);
      var k := Taken(s, buf);
      match s
      case NeedMore(_) => ResStep(Ok(CONTINUE), RecvResponse(ResponseDecoder(d.fed + buf[..k])), buf[k..])
      case Complete(response, _) =>
        ResStep(Serialized(libs.serialize, [TcpItem(original, StatusText(libs, response.statusCode), id, laddr, raddr)]),
                ResDone, buf[k..])
      case Failed(_) => ResStep(Serialized(libs.serialize, [TcpItem(original, "handshake ", id, laddr, raddr)]), ResDone, buf[k..])
  }

  /** The response handshake stays open exactly when the decoder is
      mid-message, keeping the bytes it took; otherwise it is done. */
  lemma HandshakeResWaits(libs: WsLibs, h: HandshakeRes, buf: seq<byte>, original: string, laddr: string, raddr: string)
    ensures var r := HandshakeResStep(libs, h, buf, original, laddr, raddr);
            r.handshakeRes.RecvResponse? <==> h.RecvResponse? && libs.responseDecoder.step(h.decoder.fed, buf).NeedMore?
    ensures var r := HandshakeResStep(libs, h, buf, original, laddr, raddr);
            r.handshakeRes.RecvResponse? ==> r.handshakeRes.decoder.fed == h.decoder.fed + buf[..|buf| - |r.buf|]
    ensures h.ResDone? ==> HandshakeResStep(libs, h, buf, original, laddr, raddr).buf == buf
  {
  }

  /** The response step replies "/continue" while the response is
      incomplete, and otherwise reports one item carrying the original
      packet: "handshake res ok" exactly for a whole response with status
      101 (section 4.2.2 of RFC 6455), "handshake " exactly when no whole
      response was decoded. */
  lemma HandshakeResReply(libs: WsLibs, h: HandshakeRes, buf: seq<byte>, original: string, laddr: string, raddr: string)
    ensures var r := HandshakeResStep(libs, h, buf, original, laddr, raddr);
            h.RecvResponse? && libs.responseDecoder.step(h.decoder.fed, buf).NeedMore? ==> r.out == Ok(CONTINUE)
    ensures var r := HandshakeResStep(libs, h, buf, original, laddr, raddr);
            var complete := h.RecvResponse? && libs.responseDecoder.step(h.decoder.fed, buf).Complete?;
            !(h.RecvResponse? && libs.responseDecoder.step(h.decoder.fed, buf).NeedMore?) ==>
              exists t: string ::
                && r.out == Serialized(libs.serialize, [TcpItem(original, t, ConnKey(laddr, raddr) + ":Handshake res", laddr, raddr)])
                && (t == "handshake res ok" <==> complete && libs.responseDecoder.step(h.decoder.fed, buf).msg.statusCode == 101)
                && (t == "handshake " <==> !complete)
  {
    var r := HandshakeResStep(libs, h, buf, original, laddr, raddr);
    var id := ConnKey(laddr, raddr) + ":Handshake res";
    if h.RecvResponse? {
      var s := libs.responseDecoder.step(h.decoder.fed, buf);
      if s.Complete? {
        var t := StatusText(libs, s.msg.statusCode);
        assert t != "handshake " by {
          if s.msg.statusCode != 101 {
            assert |t| > |"handshake "|;
          }
        }
        assert r.out == Serialized(libs.serialize, [TcpItem(original, t, id, laddr, raddr)]);
      } else if s.Failed? {
        assert r.out == Serialized(libs.serialize, [TcpItem(original, "handshake ", id, laddr, raddr)]);
      }
    } else {
      assert r.out == Serialized(libs.serialize, [TcpItem(original, "handshake ", id, laddr, raddr)]);
    }
  }

  /** `Channel`: per-direction buffer, handshake and frame codec, and the
      connection's addresses. */
  class Channel {
    var wsReqBuf: seq<byte>
    var wsResBuf: seq<byte>
    var handshake: Handshake
    var handshakeRes: HandshakeRes
    var frameReqDecoder: MessageCodec
    var frameResDecoder: MessageCodec
    const laddr: string
    const raddr: string

    /** `Channel::new`: empty buffers, both handshakes receiving with
        fresh decoders, a client codec for requests and a server codec for
        responses. */
    constructor (laddr: string, raddr: string)
      ensures this.laddr == laddr && this.raddr == raddr
      ensures wsReqBuf == [] && wsResBuf == []
      ensures handshake == RecvRequest(RequestDecoder([]))
      ensures handshakeRes == RecvResponse(ResponseDecoder([]))
      ensures frameReqDecoder == ClientCodec() && frameResDecoder == ServerCodec()
    {
      this.laddr := laddr;
      this.raddr := raddr;
      wsReqBuf := [];
      wsResBuf := [];
      handshake := RecvRequest(RequestDecoder([]));
      handshakeRes := RecvResponse(ResponseDecoder([]));
      frameReqDecoder := ClientCodec();
      frameResDecoder := ServerCodec();
    }

    /** `process_handshake_req`: takes the handshake out (leaving Done),
        offers the decoder the buffered request bytes, and either puts it
        back or reports the rewritten request. */
    method ProcessHandshakeReq(libs: WsLibs, origin: string) returns (r: Result<seq<byte>, CallError>)
      requires WsLibsValid(libs)
      modifies this
      ensures ReqStep(r, handshake, wsReqBuf) == HandshakeReqStep(libs, old(handshake), old(wsReqBuf), origin, laddr, raddr)
      ensures wsResBuf == old(wsResBuf) && handshakeRes == old(handshakeRes)
      ensures frameReqDecoder == old(frameReqDecoder) && frameResDecoder == old(frameResDecoder)
    {
      var h := handshake;
      handshake := Done;
      match h {
        case RecvRequest(decoder) =>
          var s := libs.requestDecoder.step(decoder.fed, wsReqBuf);
          var k := Taken(s, wsReqBuf);
          var taken := wsReqBuf[..k];
          wsReqBuf := wsReqBuf[k..];
          if s.NeedMore? {
            handshake := RecvRequest(RequestDecoder(decoder.fed + taken));
            return Ok(CONTINUE);
          }
          if s.Complete? {
            var newReq := ModifyRequestOrigin(s.msg, origin);
            var buf := libs.encodeRequest(newReq);
            var consolidated: seq<TcpItem> := [];
            var item := TcpItem(libs.base64.encode(buf), Decode(buf).value,
                                laddr + "-" + raddr + ":Handshake", laddr, raddr);
            consolidated := consolidated + [item];
            assert consolidated == [HandshakeItem(libs, buf, laddr, raddr)];
            var out := libs.serialize(consolidated);
            if out.None? {
              return Err(SerializeError);
            }
            return Ok(out.value);
          }
          return Ok(CONTINUE);
        case Done =>
          return Ok(CONTINUE);
      }
    }

    /** `process_handshake_res`: takes the handshake out (leaving Done),
        offers the decoder the buffered response bytes, and either puts it
        back or reports the outcome with the original packet. */
    method ProcessHandshakeRes(libs: WsLibs, original: string) returns (r: Result<seq<byte>, CallError>)
      modifies this
      ensures ResStep(r, handshakeRes, wsResBuf) == HandshakeResStep(libs, old(handshakeRes), old(wsResBuf), original, laddr, raddr)
      ensures wsReqBuf == old(wsReqBuf) && handshake == old(handshake)
      ensures frameReqDecoder == old(frameReqDecoder) && frameResDecoder == old(frameResDecoder)
    {
      var consolidated: seq<TcpItem> := [];
      var h := handshakeRes;
      handshakeRes := ResDone;
      match h {
        case RecvResponse(decoder) =>
          var s := libs.responseDecoder.step(decoder.fed, wsResBuf);
          var k := Taken(s, wsResBuf);
          var taken := wsResBuf[..k];
          wsResBuf := wsResBuf[k..];
          if s.NeedMore? {
            handshakeRes := RecvResponse(ResponseDecoder(decoder.fed + taken));
            return Ok(CONTINUE);
          }
          if s.Complete? {
            var status := s.msg.statusCode;
            var handshakeOk;
            if status == 101 {
              handshakeOk := "handshake res ok";
            } else {
              handshakeOk := "handshake res not ok, status code " + libs.statusDebug(status);
            }
            var items: seq<TcpItem> := [];
            items := items + [TcpItem(original, handshakeOk, laddr + "-" + raddr + ":Handshake res", laddr, raddr)];
            assert items == [TcpItem(original, StatusText(libs, status), ConnKey(laddr, raddr) + ":Handshake res", laddr, raddr)];
            var out := libs.serialize(items);
            if out.None? {
              return Err(SerializeError);
            }
            return Ok(out.value);
          }
        case ResDone =>
      }
      var item := TcpItem(original, "handshake ", laddr + "-" + raddr + ":Handshake res", laddr, raddr);
      consolidated := consolidated + [item];
      assert consolidated == [TcpItem(original, "handshake ", ConnKey(laddr, raddr) + ":Handshake res", laddr, raddr)];
      var out := libs.serialize(consolidated);
      if out.None? {
        return Err(SerializeError);
      }
      return Ok(out.value);
    }
  }
}

/** The MQTT interception entry points (crates/wasm-mock-mqtt/src/lib.rs):
    per-connection request and response buffers that keep undecoded bytes
    between packets, one decode, closure, encode step per packet, and the
    shared counter behind item Ids. */
module Mqtt {
  import opened Base
  import opened MockUtil
  import opened Codecs

  /** `Channel`: the bytes not yet decoded in each direction, and the
      connection's addresses. */
  class MqttChannel {
    var reqbuf: seq<byte>
    var resbuf: seq<byte>
    const laddr: string
    const raddr: string

    /** `Channel::new`: both buffers empty. */
    constructor (laddr: string, raddr: string)
      ensures this.laddr == laddr && this.raddr == raddr
      ensures reqbuf == [] && resbuf == []
    {
      this.laddr := laddr;
      this.raddr := raddr;
      reqbuf := [];
      resbuf := [];
    }
  }

  /** The items of one call and the bytes left in the buffer. */
  datatype PacketStep = PacketStep(items: seq<TcpItem>, rest: seq<byte>)

  /** One decode on a buffer: at most one packet, which the closure
      rewrites before it is rendered and encoded into the item. */
  function PacketOf<P>(codec: MqttCodec<P>, base64: Base64, closure: P -> P, buf: seq<byte>,
                       id: string, laddr: string, raddr: string): (r: PacketStep)
    ensures |r.items| <= 1
    ensures |r.rest| <= |buf| && r.rest == buf[|buf| - |r.rest|..]
  {
    var (packet, used) := codec.decode(buf);
    var k := Min(used, |buf|);
    match packet
    case None => PacketStep([], buf[k..])
    case Some(p) =>
      var q := closure(p);
      PacketStep([TcpItem(base64.encode(codec.encode(q)), codec.render(q), id, laddr, raddr)], buf[k..])
  }

  /** An item comes out exactly when the codec finds a packet; it carries
      the rewritten packet, encoded and in Base64, and its `Debug` text
      after the rewrite. */
  lemma PacketOfItem<P>(codec: MqttCodec<P>, base64: Base64, closure: P -> P, buf: seq<byte>,
                          id: string, laddr: string, raddr: string)
    requires Base64RoundTrips(base64)
    ensures var r := PacketOf(codec, base64, closure, buf, id, laddr, raddr);
            r.items == [] <==> codec.decode(buf).0.None?
    ensures var r := PacketOf(codec, base64, closure, buf, id, laddr, raddr);
            codec.decode(buf).0.Some? ==>
              var q := closure(codec.decode(buf).0.value);
              && base64.decode(r.items[0].Payload) == Some(codec.encode(q))
              && r.items[0].String == codec.render(q)
              && r.items[0].Id == id && r.items[0].Laddr == laddr && r.items[0].Raddr == raddr
  {
  }

  /** Bytes the codec leaves are kept: with nothing taken, the whole
      buffer stays for the next packet. */
  lemma PacketOfKeepsRest<P>(codec: MqttCodec<P>, base64: Base64, closure: P -> P, buf: seq<byte>,
                               id: string, laddr: string, raddr: string)
    ensures var r := PacketOf(codec, base64, closure, buf, id, laddr, raddr);
            r.rest == buf[Min(codec.decode(buf).1, |buf|)..]
    ensures codec.decode(buf).1 == 0 ==> PacketOf(codec, base64, closure, buf, id, laddr, raddr).rest == buf
  {
  }

  /** The decode, closure and encode of `handle_req` and `handle_res` on
      the buffer after the append. */
  method DecodePacket<P>(codec: MqttCodec<P>, base64: Base64, c: P -> P, buf: seq<byte>,
                         id: string, laddr: string, raddr: string)
    returns (consolidated: seq<TcpItem>, rest: seq<byte>)
    ensures PacketStep(consolidated, rest) == PacketOf(codec, base64, c, buf, id, laddr, raddr)
  {
    consolidated := [];
    var (packet, used) := codec.decode(buf);
    rest := buf[Min(used, |buf|)..];
    if packet.Some? {
      var q := c(packet.value);
      var s := codec.render(q);
      var b := codec.encode(q);
      consolidated := consolidated + [TcpItem(base64.encode(b), s, id, laddr, raddr)];
    }
  }

  /** `CHANNEL_MAP` and `Count`. */
  class MqttRegistry {
    var channels: map<string, MqttChannel>
    var count: nat

    /** One channel per key, stored under its own addresses' key. */
    ghost predicate Valid()
      reads this
    {
      && (forall k :: k in channels ==> ConnKey(channels[k].laddr, channels[k].raddr) == k)
      && (forall k1, k2 :: k1 in channels && k2 in channels && k1 != k2 ==> channels[k1] != channels[k2])
    }

    constructor ()
      ensures Valid() && channels == map[] && count == 0
    {
      channels := map[];
      count := 0;
    }

    /** The channel for `key`, creating it if unseen; a new channel is
        put in the map only after the caller has used it. */
    method Lookup(key: string, laddr: string, raddr: string) returns (channel: MqttChannel, isNew: bool)
      requires Valid() && key == ConnKey(laddr, raddr)
      ensures isNew <==> key !in channels
      ensures !isNew ==> channel == channels[key]
      ensures isNew ==> fresh(channel) && channel.laddr == laddr && channel.raddr == raddr
                        && channel.reqbuf == [] && channel.resbuf == []
    {
      if key in channels {
        channel, isNew := channels[key], false;
      } else {
        channel := new MqttChannel(laddr, raddr);
        isNew := true;
      }
    }

    /** `handle_req`: a packet from the local side goes to the end of the
        request buffer; at most one packet is decoded from it. */
    method HandleReq<P>(base64: Base64, codec: MqttCodec<P>, payload: TcpPayload, c: P -> P)
      returns (r: Result<seq<TcpItem>, CallError>)
      requires Valid()
      modifies this, channels.Values
      ensures Valid() && count == old(count)
      ensures base64.decode(payload.Payload).None? ==>
                r == Err(Base64Error) && channels == old(channels)
                && forall ch :: ch in old(channels.Values) ==> unchanged(ch)
      ensures base64.decode(payload.Payload).Some? ==>
                var key := ConnKey(payload.Laddr, payload.Raddr);
                && key in channels
                && (key in old(channels) ==> channels == old(channels))
                && (key !in old(channels) ==>
                      && fresh(channels[key]) && channels == old(channels)[key := channels[key]]
                      && channels[key].laddr == payload.Laddr && channels[key].raddr == payload.Raddr)
                && (forall ch :: ch in old(channels.Values) && ch != channels[key] ==> unchanged(ch))
      ensures base64.decode(payload.Payload).Some? ==>
                var key := ConnKey(payload.Laddr, payload.Raddr);
                key in channels &&
                var ch := channels[key];
                var before := if key in old(channels) then old(channels[key].reqbuf) else [];
                var st := PacketOf(codec, base64, c, before + base64.decode(payload.Payload).value,
                                     Decimal(count), payload.Laddr, payload.Raddr);
                && r == Ok(st.items) && ch.reqbuf == st.rest
                && ch.resbuf == (if key in old(channels) then old(channels[key].resbuf) else [])
    {
      var conn := payload.Laddr + "-" + payload.Raddr;
      var decoded := base64.decode(payload.Payload);
      if decoded.None? {
        return Err(Base64Error);
      }
      var payloadBytes := decoded.value;
      var channel, isNew := Lookup(conn, payload.Laddr, payload.Raddr);
      channel.reqbuf := channel.reqbuf + payloadBytes;
      var consolidated, rest := DecodePacket(codec, base64, c, channel.reqbuf, Decimal(count), payload.Laddr, payload.Raddr);
      channel.reqbuf := rest;
      if isNew {
        channels := channels[conn := channel];
      }
      return Ok(consolidated);
    }

    /** `handle_res`: a packet from the remote side goes to the end of the
        response buffer; every call that gets past the Base64 decode
        counts once. */
    method HandleRes<P>(base64: Base64, codec: MqttCodec<P>, payload: TcpPayload, c: P -> P)
      returns (r: Result<seq<TcpItem>, CallError>)
      requires Valid()
      modifies this, channels.Values
      ensures Valid()
      ensures base64.decode(payload.Payload).None? ==>
                r == Err(Base64Error) && channels == old(channels) && count == old(count)
                && forall ch :: ch in old(channels.Values) ==> unchanged(ch)
      ensures base64.decode(payload.Payload).Some? ==>
                var key := ConnKey(payload.Laddr, payload.Raddr);
                && count == old(count) + 1
                && key in channels
                && (key in old(channels) ==> channels == old(channels))
                && (key !in old(channels) ==>
                      && fresh(channels[key]) && channels == old(channels)[key := channels[key]]
                      && channels[key].laddr == payload.Laddr && channels[key].raddr == payload.Raddr)
                && (forall ch :: ch in old(channels.Values) && ch != channels[key] ==> unchanged(ch))
      ensures base64.decode(payload.Payload).Some? ==>
                var key := ConnKey(payload.Laddr, payload.Raddr);
                key in channels &&
                var ch := channels[key];
                var before := if key in old(channels) then old(channels[key].resbuf) else [];
                var st := PacketOf(codec, base64, c, before + base64.decode(payload.Payload).value,
                                     Decimal(old(count)), payload.Laddr, payload.Raddr);
                && r == Ok(st.items) && ch.resbuf == st.rest
                && ch.reqbuf == (if key in old(channels) then old(channels[key].reqbuf) else [])
    {
      var conn := payload.Laddr + "-" + payload.Raddr;
      var decoded := base64.decode(payload.Payload);
      if decoded.None? {
        return Err(Base64Error);
      }
      var payloadBytes := decoded.value;
      var channel, isNew := Lookup(conn, payload.Laddr, payload.Raddr);
      channel.resbuf := channel.resbuf + payloadBytes;
      var consolidated, rest := DecodePacket(codec, base64, c, channel.resbuf, Decimal(count), payload.Laddr, payload.Raddr);
      channel.resbuf := rest;
      if isNew {
        channels := channels[conn := channel];
      }
      count := count + 1;
      return Ok(consolidated);
    }
  }
}

/** The shared records of the mock guest crates (crates/wasm-mock-util/src/lib.rs):
    the packet a mock server hands to a guest, the items a guest hands
    back, and the rendering of an `httparse` request as HTTP/1.1 text. */
module MockUtil {
  import opened Base
  import opened Utf8
  import opened Text

  /** `TcpItem`: one message for the mock server to stream on; `Payload` is
      Base64 text, `String` a readable rendering, and a non-empty `Id`
      marks the message as one that expects a reply. */
  datatype TcpItem = TcpItem(Payload: string, String: string, Id: string, Laddr: string, Raddr: string)

  /** `TcpPayload`: one intercepted packet (Base64 text) and the local and
      remote addresses of its connection. */
  datatype TcpPayload = TcpPayload(Payload: string, Laddr: string, Raddr: string)

  /** `httparse::Header`: a name and raw value bytes; parsing leaves unused
      slots with an empty name. */
  datatype Header = Header(name: string, value: seq<byte>)

  /** `httparse::Request`: the parts found so far. */
  datatype ParsedRequest = ParsedRequest(methodName: Option<string>, path: Option<string>,
                                         version: Option<nat>, headers: seq<Header>)

  /** The registry key of a connection: local address, '-', remote address. */
  function ConnKey(laddr: string, raddr: string): (k: string)
    ensures k == laddr + ['-'] + raddr
    ensures |k| == |laddr| + |raddr| + 1
  {
    laddr + "-" + raddr
  }

  /** Two different address pairs may share a key: the key is not a
      faithful encoding of the pair when an address holds '-'. */
  lemma ConnKeyCollides()
    ensures ConnKey("1-2", "3") == ConnKey("1", "2-3")
  {
  }

  /** The unwraps in `request_to_http1x` and `header_to_string` succeed:
      every value that is written out is UTF-8. */
  predicate NamedValuesUtf8(hs: seq<Header>) {
    forall i :: 0 <= i < |hs| && hs[i].name != [] ==> Decode(hs[i].value).Some?
  }

  /** The field lines `request_to_http1x` writes, in order: one per header
      with a non-empty name. */
  function FieldLines(hs: seq<Header>): (r: seq<string>)
    requires NamedValuesUtf8(hs)
    ensures |r| <= |hs|
    decreases |hs|
  {
    if hs == [] then []
    else
      var last := hs[|hs| - 1];
      assert NamedValuesUtf8(hs[..|hs| - 1]) by {
        assert forall i :: 0 <= i < |hs| - 1 ==> hs[..|hs| - 1][i] == hs[i];
      }
      FieldLines(hs[..|hs| - 1])
      + (if last.name == [] then [] else [last.name + ": " + Decode(last.value).value])
  }

  /** The request line `request_to_http1x` writes, if any: target "/" and
      version HTTP/1.1 whatever the request held. */
  function RequestLines(methodName: Option<string>): (r: seq<string>)
    ensures methodName.None? <==> r == []
    ensures methodName.Some? ==> r == [methodName.value + " / HTTP/1.1"]
  {
    match methodName
    case None => []
    case Some(m) => [m + " / HTTP/1.1"]
  }

  /** The text `request_to_http1x` produces: the request line, the field
      lines and the blank line, each closed by CRLF. */
  function Http1x(r: ParsedRequest): (s: string)
    requires NamedValuesUtf8(r.headers)
    ensures |s| >= 2 && s[|s| - 2..] == "\r\n"
  {
    var ls := RequestLines(r.methodName) + FieldLines(r.headers) + [""];
    JoinCrLfAppend(RequestLines(r.methodName) + FieldLines(r.headers), [""]);
    JoinCrLf(ls)
  }

  /** The field line a header adds, if any. */
  function FieldLine(h: Header): (r: seq<string>)
    requires h.name != [] ==> Decode(h.value).Some?
    ensures h.name == [] <==> r == []
  {
    if h.name == [] then [] else [h.name + ": " + Decode(h.value).value]
  }

  lemma FieldLinesSnoc(hs: seq<Header>, x: nat)
    requires x < |hs| && NamedValuesUtf8(hs)
    ensures NamedValuesUtf8(hs[..x]) && NamedValuesUtf8(hs[..x + 1])
    ensures FieldLines(hs[..x + 1]) == FieldLines(hs[..x]) + FieldLine(hs[x])
  {
    assert hs[..x + 1][..x] == hs[..x];
    assert forall i :: 0 <= i < x ==> hs[..x][i] == hs[i];
    assert forall i :: 0 <= i <= x ==> hs[..x + 1][i] == hs[i];
  }

  /** The text one more header adds to the rendering. */
  function FieldText(h: Header): string
    requires h.name != [] ==> Decode(h.value).Some?
  {
    if h.name == [] then "" else h.name + ": " + Decode(h.value).value + "\r\n"
  }

  lemma Http1xStep(start: seq<string>, hs: seq<Header>, x: nat)
    requires x < |hs| && NamedValuesUtf8(hs)
    ensures NamedValuesUtf8(hs[..x]) && NamedValuesUtf8(hs[..x + 1])
    ensures JoinCrLf(start + FieldLines(hs[..x + 1])) == JoinCrLf(start + FieldLines(hs[..x])) + FieldText(hs[x])
  {
    FieldLinesSnoc(hs, x);
    var done := start + FieldLines(hs[..x]);
    assert start + FieldLines(hs[..x + 1]) == done + FieldLine(hs[x]);
    JoinCrLfAppend(done, FieldLine(hs[x]));
  }

  /** The header loop of `request_to_http1x`: appends a field line per
      named header to the text so far. */
  method AppendFieldLines(s0: string, ghost start: seq<string>, hs: seq<Header>) returns (s: string)
    requires NamedValuesUtf8(hs) && s0 == JoinCrLf(start)
    ensures s == JoinCrLf(start + FieldLines(hs))
  {
    s := s0;
    assert start + FieldLines(hs[..0]) == start;
    for x := 0 to |hs|
      invariant NamedValuesUtf8(hs[..x])
      invariant s == JoinCrLf(start + FieldLines(hs[..x]))
    {
      Http1xStep(start, hs, x);
      var h := hs[x];
      if h.name != "" {
        var value := Decode(h.value).value;
        ghost var before := s;
        s := s + h.name;
        s := s + ": ";
        s := s + value;
        s := s + "\r\n";
        assert s == before + FieldText(h);
      }
    }
    assert hs[..|hs|] == hs;
  }

  /** `request_to_http1x`: appends the request line, then a field line per
      named header, then the final CRLF. */
  method RequestToHttp1x(r: ParsedRequest) returns (s: string)
    requires NamedValuesUtf8(r.headers)
    ensures s == Http1x(r)
  {
    var start := RequestLines(r.methodName);
    s := "";
    if r.methodName.Some? {
      s := s + r.methodName.value;
      s := s + " / HTTP/1.1\r\n";
    }
    assert s == JoinCrLf(start);
    s := AppendFieldLines(s, start, r.headers);
    s := s + "\r\n";
    JoinCrLfAppend(start + FieldLines(r.headers), [""]);
  }

  /** A request with no method and no named header renders as just CRLF. */
  lemma Http1xEmpty(r: ParsedRequest)
    requires r.methodName.None? && forall i :: 0 <= i < |r.headers| ==> r.headers[i].name == []
    ensures NamedValuesUtf8(r.headers) && Http1x(r) == "\r\n"
  {
    FieldLinesUnnamed(r.headers);
  }

  lemma {:induction false} FieldLinesUnnamed(hs: seq<Header>)
    requires forall i :: 0 <= i < |hs| ==> hs[i].name == []
    ensures NamedValuesUtf8(hs) && FieldLines(hs) == []
    decreases |hs|
  {
    if hs != [] {
      assert forall i :: 0 <= i < |hs| - 1 ==> hs[..|hs| - 1][i] == hs[i];
      FieldLinesUnnamed(hs[..|hs| - 1]);
    }
  }

  /** With a method the text opens with "METHOD / HTTP/1.1" and CRLF; without
      one it opens directly with the field lines. */
  lemma Http1xStart(r: ParsedRequest)
    requires NamedValuesUtf8(r.headers)
    ensures r.methodName.Some? ==> Http1x(r) == r.methodName.value + " / HTTP/1.1\r\n"
                                             + JoinCrLf(FieldLines(r.headers) + [""])
    ensures r.methodName.None? ==> Http1x(r) == JoinCrLf(FieldLines(r.headers) + [""])
  {
    var rest := FieldLines(r.headers) + [""];
    assert RequestLines(r.methodName) + FieldLines(r.headers) + [""] == RequestLines(r.methodName) + rest;
    JoinCrLfAppend(RequestLines(r.methodName), rest);
  }

  /** The path and version the request carried make no difference. */
  lemma Http1xIgnoresTarget(r: ParsedRequest, path: Option<string>, version: Option<nat>)
    requires NamedValuesUtf8(r.headers)
    ensures Http1x(r.(path := path, version := version)) == Http1x(r)
  {
  }

  predicate NoNewline(hs: seq<Header>) {
    forall i :: 0 <= i < |hs| ==> '\n' !in hs[i].name && (hs[i].name != [] ==> 10 !in hs[i].value)
  }

  /** Only a line feed encodes with a leading byte 10. */
  lemma EncodeCharLead(c: char)
    ensures (EncodeChar(c)[0] == 10) == (c == '\n')
  {
  }

  lemma {:induction false} NoNewlineEncoded(s: string)
    requires 10 !in Encode(s)
    ensures '\n' !in s
  {
    if s != [] {
      var e := Encode(s);
      assert e == EncodeChar(s[0]) + Encode(s[1..]);
      assert e[0] == EncodeChar(s[0])[0] && e[0] != 10;
      EncodeCharLead(s[0]);
      assert forall j :: 0 <= j < |Encode(s[1..])| ==> Encode(s[1..])[j] == e[|EncodeChar(s[0])| + j];
      NoNewlineEncoded(s[1..]);
      assert s == [s[0]] + s[1..];
    }
  }

  /** A value without byte 10 decodes to text without a line feed. */
  lemma DecodeNoNewline(b: seq<byte>)
    requires Decode(b).Some? && 10 !in b
    ensures '\n' !in Decode(b).value
  {
    EncodeDecode(b);
    NoNewlineEncoded(Decode(b).value);
  }

  lemma {:induction false} FieldLinesNoNewline(hs: seq<Header>)
    requires NamedValuesUtf8(hs) && NoNewline(hs)
    ensures forall i :: 0 <= i < |FieldLines(hs)| ==> '\n' !in FieldLines(hs)[i]
    decreases |hs|
  {
    if hs != [] {
      var init := hs[..|hs| - 1];
      assert forall i :: 0 <= i < |hs| - 1 ==> init[i] == hs[i];
      FieldLinesNoNewline(init);
      var last := hs[|hs| - 1];
      if last.name != [] {
        DecodeNoNewline(last.value);
        assert '\n' !in last.name + ": " + Decode(last.value).value;
      }
    }
  }

  /** Split back into lines, the text gives the request line (when there
      is a method), one "name: value" line per named header in order, and
      the closing empty line. */
  lemma Http1xLines(r: ParsedRequest)
    requires NamedValuesUtf8(r.headers) && NoNewline(r.headers)
    requires r.methodName.Some? ==> '\n' !in r.methodName.value
    ensures Lines(Http1x(r)) == RequestLines(r.methodName) + FieldLines(r.headers) + [""]
  {
    FieldLinesNoNewline(r.headers);
    var ls := RequestLines(r.methodName) + FieldLines(r.headers) + [""];
    assert forall i :: 0 <= i < |ls| ==> '\n' !in ls[i] by {
      forall i | 0 <= i < |ls|
        ensures '\n' !in ls[i]
      {
        var k := |RequestLines(r.methodName)|;
        if i >= k && i < |ls| - 1 {
          assert ls[i] == FieldLines(r.headers)[i - k];
        }
      }
    }
    LinesJoinCrLf(ls);
  }

  /** `header_to_string`: the value as text; the name is not used. */
  method HeaderToString(h: Header) returns (s: string)
    requires Decode(h.value).Some?
    ensures Encode(s) == h.value
    ensures Decode(h.value) == Some(s)
  {
    s := "";
    s := s + Decode(h.value).value;
    assert s == Decode(h.value).value;
    EncodeDecode(h.value);
  }
}

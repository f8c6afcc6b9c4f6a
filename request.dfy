/** The request side of the `http_req` crate (crates/http_req/src/request.rs):
    the `Counter` iterator, `copy_until` over a reader, method and version
    names, the `RequestBuilder` with its defaults, setters and message
    serialisation, and the defaults of `Request`. */
module HttpRequest {
  import opened Base
  import opened Utf8
  import opened Text
  import opened HttpResponse

  /** How many reads pass between two looks at the clock. */
  const TEST_FREQ: nat := 100

  // ---------------------------------------------------------------------
  // Counter

  /** One step of the counter from `count`: whether this step reaches
      `stop`, and the count after it (back to 0 when it does). */
  function Tick(count: nat, stop: nat): (r: (bool, nat))
    ensures r.0 <==> count + 1 == stop
    ensures r.0 ==> r.1 == 0
    ensures count < stop ==> r.1 < stop
  {
    var next := count + 1;
    if next == stop then (true, 0) else (false, next)
  }

  /** The count after `n` steps from 0. */
  function CountAfter(stop: nat, n: nat): (c: nat)
    ensures stop > 0 ==> c < stop
    decreases n
  {
    if n == 0 then 0 else Tick(CountAfter(stop, n - 1), stop).1
  }

  /** What the `n`-th call of `next` (counting from 1) yields: true
      exactly on the multiples of a positive `stop`, never for 0. */
  function Fires(stop: nat, n: nat): (fired: bool)
    requires n >= 1
    ensures stop > 0 ==> (fired <==> n % stop == 0)
    ensures stop == 0 ==> !fired
  {
    if stop > 0 then FiresOnMultiples(stop, n); Tick(CountAfter(stop, n - 1), stop).0
    else Tick(CountAfter(stop, n - 1), stop).0
  }

  /** The step of call `n` reaches `stop` just when `n` is a multiple of
      it. */
  lemma FiresOnMultiples(stop: nat, n: nat)
    requires stop > 0 && n >= 1
    ensures Tick(CountAfter(stop, n - 1), stop).0 <==> n % stop == 0
  {
    var q, r := (n - 1) / stop, (n - 1) % stop;
    assert n - 1 == q * stop + r;
    CountAfterRounds(stop, q, r);
    MultipleAfterRound(stop, q, r);
  }

  /** Multiplication by a count is monotone. */
  lemma {:induction false} MulMonotone(x: nat, y: nat, d: nat)
    requires x <= y
    ensures x * d <= y * d
    decreases y - x
  {
    if x < y {
      MulMonotone(x, y - 1, d);
      assert (y - 1) * d + d == y * d;
    }
  }

  /** Euclidean division is unique: `a * d + b` with `b < d` has quotient
      `a` and remainder `b`. */
  lemma ModUnique(n: nat, d: nat, a: nat, b: nat)
    requires d > 0 && n == a * d + b && b < d
    ensures n / d == a && n % d == b
  {
    var q, m := n / d, n % d;
    assert n == q * d + m;
    var k := q - a;
    assert k * d == b - m;
    if k > 0 {
      MulMonotone(1, k, d);
      assert false;
    } else if k < 0 {
      assert (-k) * d == m - b;
      MulMonotone(1, -k, d);
      assert false;
    }
  }

  /** Call `q * stop + r + 1` is a multiple of `stop` just when `r` ends a
      round. */
  lemma MultipleAfterRound(stop: nat, q: nat, r: nat)
    requires 0 <= r < stop
    ensures (q * stop + r + 1) % stop == 0 <==> r == stop - 1
  {
    if r == stop - 1 {
      assert q * stop + r + 1 == (q + 1) * stop + 0;
      ModUnique(q * stop + r + 1, stop, q + 1, 0);
    } else {
      ModUnique(q * stop + r + 1, stop, q, r + 1);
    }
  }

  /** `Counter`: counts calls of `next`. */
  class Counter {
    var count: nat
    var stop: nat

    /** `Counter::new`. */
    constructor (stop: nat)
      ensures count == 0 && this.stop == stop
    {
      count := 0;
      this.stop := stop;
    }

    /** `Counter::next`: never None; true exactly when the incremented count
        reaches `stop`, which also sets the count back to 0. */
    method Next() returns (r: Option<bool>)
      modifies this
      ensures r.Some?
      ensures r.value <==> old(count) + 1 == stop
      ensures count == (if r.value then 0 else old(count) + 1)
      ensures (r.value, count) == Tick(old(count), stop) && stop == old(stop)
    {
      count := count + 1;
      var breakpoint := count == stop;
      if breakpoint {
        count := 0;
      }
      return Some(breakpoint);
    }
  }

  /** With a positive `stop`, after `q` whole rounds and `r` more calls
      the count is `r`. */
  lemma {:induction false} CountAfterRounds(stop: nat, q: nat, r: nat)
    requires 0 <= r < stop
    ensures CountAfter(stop, q * stop + r) == r
    decreases q, r
  {
    if r > 0 {
      CountAfterRounds(stop, q, r - 1);
    } else if q > 0 {
      CountAfterRounds(stop, q - 1, stop - 1);
      assert (q - 1) * stop + (stop - 1) == q * stop - 1;
    }
  }

  /** `next` yields true on exactly every `stop`-th call: call number
      `q * stop + r + 1` yields true just when `r` is `stop - 1`. */
  lemma CounterFiresEvery(stop: nat, q: nat, r: nat)
    requires 0 <= r < stop
    ensures Fires(stop, q * stop + r + 1) <==> r == stop - 1
  {
    CountAfterRounds(stop, q, r);
  }

  /** With `stop` 0 the counter counts up and never yields true. */
  lemma {:induction false} CounterStopZero(n: nat)
    ensures CountAfter(0, n) == n
    ensures n >= 1 ==> !Fires(0, n)
    decreases n
  {
    if n > 0 {
      CounterStopZero(n - 1);
    }
  }

  // ---------------------------------------------------------------------
  // copy_until

  /** The error an I/O call returns. */
  datatype IoError = IoError(kind: string)

  /** What one `read` into the 80-byte buffer returns: some bytes (none at
      end of stream) together with whether the deadline has passed when
      the clock is next looked at, an interruption, or another error. After
      the last event the reader is at end of stream. */
  datatype ReadEvent = Data(bytes: seq<byte>, late: bool) | Interrupted | Failed(error: IoError)

  /** Why `copy_until` stopped. */
  datatype Stop = Found | EndOfStream | Deadline

  /** The two parts `copy_until` returns, why it stopped, and how many
      reader events it consumed. */
  datatype Copied = Copied(head: seq<byte>, rest: seq<byte>, why: Stop, used: nat)

  /** The bytes a reader event delivers. */
  function Chunk(e: ReadEvent): seq<byte> {
    if e.Data? then e.bytes else []
  }

  /** The bytes events `i` to `j` (exclusive) deliver. */
  function DataBetween(events: seq<ReadEvent>, i: nat, j: nat): seq<byte>
    requires i <= j <= |events|
    decreases j - i
  {
    if i == j then [] else Chunk(events[i]) + DataBetween(events, i + 1, j)
  }

  /** The loop of `copy_until` from event `i`, with `writer` read so far and
      the counter at `count`. */
  function CopyLoop(events: seq<ReadEvent>, val: seq<byte>, i: nat, writer: seq<byte>, count: nat)
    : (r: Result<Copied, IoError>)
    requires i <= |events|
    ensures r.Ok? ==> i < r.value.used <= |events| || (i == r.value.used == |events|)
    decreases |events| - i
  {
    if i == |events| then Ok(Copied([], writer, EndOfStream, i))
    else
      match events[i]
      case Interrupted => CopyLoop(events, val, i + 1, writer, count)
      case Failed(e) => Err(e)
      case Data(bytes, late) =>
        if bytes == [] then Ok(Copied([], writer, EndOfStream, i + 1))
        else
          var w := writer + bytes;
          match FindSliceSpec(w, val)
          case Some(k) => Ok(Copied(w[..k], w[k..], Found, i + 1))
          case None =>
            var (fire, count') := Tick(count, TEST_FREQ);
            if fire && late then Ok(Copied(w, [], Deadline, i + 1))
            else CopyLoop(events, val, i + 1, w, count')
  }

  /** The two parts together are exactly the bytes read. */
  lemma {:induction false} CopyLoopParts(events: seq<ReadEvent>, val: seq<byte>, i: nat, writer: seq<byte>, count: nat)
    requires i <= |events|
    ensures var r := CopyLoop(events, val, i, writer, count);
            r.Ok? ==> r.value.head + r.value.rest == writer + DataBetween(events, i, r.value.used)
    decreases |events| - i
  {
    if i < |events| {
      match events[i]
      case Interrupted =>
        CopyLoopParts(events, val, i + 1, writer, count);
      case Failed(e) =>
      case Data(bytes, late) =>
        var w := writer + bytes;
        if bytes != [] {
          match FindSliceSpec(w, val)
          case Some(k) =>
            assert w[..k] + w[k..] == w;
          case None =>
            var (fire, count') := Tick(count, TEST_FREQ);
            if !(fire && late) {
              var r := CopyLoop(events, val, i + 1, w, count');
              assert CopyLoop(events, val, i, writer, count) == r;
              CopyLoopParts(events, val, i + 1, w, count');
              if r.Ok? {
                assert DataBetween(events, i, r.value.used) == bytes + DataBetween(events, i + 1, r.value.used);
                assert writer + DataBetween(events, i, r.value.used) == w + DataBetween(events, i + 1, r.value.used);
              }
            }
        }
    }
  }

  /** How the loop stopped decides the split: at end of stream the first
      part is empty, at the deadline the second, and when `val` is found
      the first part ends right after its first occurrence. */
  lemma {:induction false} CopyLoopStops(events: seq<ReadEvent>, val: seq<byte>, i: nat, writer: seq<byte>, count: nat)
    requires i <= |events|
    ensures var r := CopyLoop(events, val, i, writer, count);
            && (r.Ok? && r.value.why == EndOfStream ==> r.value.head == [])
            && (r.Ok? && r.value.why == Deadline ==> r.value.rest == [])
            && (r.Ok? && r.value.why == Found ==> FindSliceSpec(r.value.head + r.value.rest, val) == Some(|r.value.head|))
    decreases |events| - i
  {
    if i < |events| {
      match events[i]
      case Interrupted =>
        CopyLoopStops(events, val, i + 1, writer, count);
      case Failed(e) =>
      case Data(bytes, late) =>
        if bytes != [] {
          var w := writer + bytes;
          match FindSliceSpec(w, val)
          case Some(k) =>
            assert w[..k] + w[k..] == w;
          case None =>
            var (fire, count') := Tick(count, TEST_FREQ);
            if !(fire && late) {
              CopyLoopStops(events, val, i + 1, w, count');
            }
        }
    }
  }

  /** The two parts `copy_until` returns. */
  function Parts(r: Result<Copied, IoError>): (p: Result<(seq<byte>, seq<byte>), IoError>)
    ensures p.Ok? <==> r.Ok?
    ensures p.Ok? ==> p.value == (r.value.head, r.value.rest)
    ensures p.Err? ==> p.error == r.error
  {
    match r
    case Ok(c) => Ok((c.head, c.rest))
    case Err(e) => Err(e)
  }

  /** `copy_until`: reads until `val` has been seen (the first part then ends
      right after its first occurrence), the stream ends (the first part is
      empty), or the deadline has passed at a look at the clock (the second
      part is empty). Interruptions are retried; other errors are returned. */
  method CopyUntil(reader: seq<ReadEvent>, val: seq<byte>) returns (r: Result<(seq<byte>, seq<byte>), IoError>)
    ensures r == Parts(CopyLoop(reader, val, 0, [], 0))
  {
    var writer: seq<byte> := [];
    var counter := new Counter(TEST_FREQ);
    var i := 0;
    while i < |reader|
      invariant 0 <= i <= |reader| && counter.stop == TEST_FREQ
      invariant CopyLoop(reader, val, 0, [], 0) == CopyLoop(reader, val, i, writer, counter.count)
      decreases |reader| - i
    {
      var event := reader[i];
      i := i + 1;
      match event
      case Interrupted =>
      case Failed(e) =>
        return Err(e);
      case Data(bytes, late) =>
        if bytes == [] {
          return Ok(([], writer));
        }
        writer := writer + bytes;
        var found := FindSlice(writer, val);
        if found.Some? {
          var splitIdx := found.value;
          return Ok((writer[..splitIdx], writer[splitIdx..]));
        }
        var breakpoint := counter.Next();
        if breakpoint.value && late {
          var splitIdx := |writer|;
          assert writer[..splitIdx] == writer && writer[splitIdx..] == [];
          return Ok((writer[..splitIdx], writer[splitIdx..]));
        }
    }
    assert CopyLoop(reader, val, i, writer, counter.count) == Ok(Copied([], writer, EndOfStream, i));
    return Ok(([], writer));
  }

  // ---------------------------------------------------------------------
  // Method and HttpVersion

  /** HTTP request methods. */
  datatype Method = GET | HEAD | POST | PUT | DELETE | OPTIONS | PATCH

  /** `Method`'s `Display`: its upper-case name. */
  function MethodText(m: Method): (s: string)
    ensures s != [] && forall i :: 0 <= i < |s| ==> 'A' <= s[i] <= 'Z'
  {
    match m
    case GET => "GET"
    case HEAD => "HEAD"
    case POST => "POST"
    case PUT => "PUT"
    case DELETE => "DELETE"
    case OPTIONS => "OPTIONS"
    case PATCH => "PATCH"
  }

  /** Different methods have different names. */
  lemma MethodTextInjective(a: Method, b: Method)
    ensures MethodText(a) == MethodText(b) ==> a == b
  {
  }

  /** HTTP versions. */
  datatype HttpVersion = Http10 | Http11 | Http20

  /** `HttpVersion::as_str`, also its `Display`. */
  function VersionText(v: HttpVersion): (s: string)
    ensures |s| == 8 && s[..5] == "HTTP/" && s[6] == '.'
    ensures ' ' !in s
  {
    match v
    case Http10 => "HTTP/1.0"
    case Http11 => "HTTP/1.1"
    case Http20 => "HTTP/2.0"
  }

  lemma VersionTextInjective(a: HttpVersion, b: HttpVersion)
    ensures VersionText(a) == VersionText(b) ==> a == b
  {
  }

  // ---------------------------------------------------------------------
  // RequestBuilder

  /** `std::time::Duration`. */
  datatype Duration = Duration(secs: nat, nanos: nat)

  function FromSecs(secs: nat): Duration {
    Duration(secs, 0)
  }

  /** `order` lists each key of `h` once: the order in which the `HashMap`
      happens to be iterated. */
  predicate IsIterationOrder(h: Headers, order: seq<string>) {
    |order| == |h.entries.Keys|
    && (forall i :: 0 <= i < |order| ==> order[i] in h.entries)
    && (forall i, j :: 0 <= i < j < |order| ==> order[i] != order[j])
  }

  /** The field lines `parse_msg` writes, each key as first spelt. */
  function HeaderFieldLines(h: Headers, order: seq<string>): (r: seq<string>)
    requires forall i :: 0 <= i < |order| ==> order[i] in h.entries
    ensures |r| == |order|
    ensures forall i :: 0 <= i < |order| ==> r[i] == h.entries[order[i]].0 + ": " + h.entries[order[i]].1
  {
    seq(|order|, i requires 0 <= i < |order| => h.entries[order[i]].0 + ": " + h.entries[order[i]].1)
  }

  /** The head of the request message: the request line, a field line per
      header and the empty line, each closed by CRLF. */
  function MessageHead(m: Method, resource: string, v: HttpVersion, h: Headers, order: seq<string>)
    : (s: string)
    requires forall i :: 0 <= i < |order| ==> order[i] in h.entries
    ensures var requestLine := MethodText(m) + " " + resource + " " + VersionText(v) + "\r\n";
            |s| >= |requestLine| + 2 && s[..|requestLine|] == requestLine
    ensures |s| >= 4 && s[|s| - 4..] == "\r\n\r\n"
  {
    var line := MethodText(m) + " " + resource + " " + VersionText(v);
    var fields := HeaderFieldLines(h, order);
    JoinCrLfHead(line, fields);
    JoinCrLf([line] + fields + [""])
  }

  /** CRLF-closed lines after a first line, then a blank line: the text
      opens with the first line and ends with an empty line. */
  lemma JoinCrLfHead(line: string, fields: seq<string>)
    ensures var s := JoinCrLf([line] + fields + [""]);
            |s| >= |line| + 4 && s[..|line| + 2] == line + "\r\n" && s[|s| - 4..] == "\r\n\r\n"
  {
    JoinCrLfAppend([line] + fields, [""]);
    JoinCrLfAppend([line], fields);
    assert [line][1..] == [] && [""][1..] == [];
    JoinCrLfEndsCrLf([line] + fields);
  }

  /** The head splits back into exactly its lines when no part holds a line
      feed. */
  lemma MessageHeadLines(m: Method, resource: string, v: HttpVersion, h: Headers, order: seq<string>)
    requires forall i :: 0 <= i < |order| ==> order[i] in h.entries
    requires '\n' !in resource
    requires forall k :: k in h.entries ==> '\n' !in h.entries[k].0 && '\n' !in h.entries[k].1
    ensures Lines(MessageHead(m, resource, v, h, order))
            == [MethodText(m) + " " + resource + " " + VersionText(v)] + HeaderFieldLines(h, order) + [""]
  {
    var fields := HeaderFieldLines(h, order);
    var ls := [MethodText(m) + " " + resource + " " + VersionText(v)] + fields + [""];
    assert forall i :: 0 <= i < |ls| ==> '\n' !in ls[i] by {
      forall i | 0 <= i < |ls|
        ensures '\n' !in ls[i]
      {
        if 1 <= i <= |fields| {
          assert ls[i] == fields[i - 1];
        }
      }
    }
    LinesJoinCrLf(ls);
  }

  /** A field line reads back as its key and value when the key holds no
      ':' and the value has no whitespace at either end. */
  lemma FieldLineReadsBack(key: string, value: string)
    requires ':' !in key
    requires value == [] || (!IsWhitespace(value[0]) && !IsWhitespace(value[|value| - 1]))
    ensures ':' in key + ": " + value
    ensures HeaderKey(key + ": " + value) == key
    ensures HeaderValue(key + ": " + value) == value
  {
    var l := key + ": " + value;
    assert l == key + [':'] + (" " + value);
    SplitOnceAt(key, ':', " " + value);
    assert (" " + value)[1..] == value;
    assert TrimStart(" " + value) == TrimStart(value);
    TrimNoop(value);
    assert TrimEnd(TrimStart(value)) == value;
  }

  /** `RequestBuilder`: the request being put together. */
  class RequestBuilder {
    const uri: Uri
    var httpMethod: Method
    var version: HttpVersion
    var headers: Headers
    var body: Option<seq<byte>>
    var timeout: Option<Duration>

    /** `RequestBuilder::new`: GET, HTTP/1.1, the default Host and Referer
        headers, no body and no timeout. */
    constructor (uri: Uri)
      ensures this.uri == uri && httpMethod == GET && version == Http11
      ensures headers == DefaultHttp(uri) && headers.Valid()
      ensures body.None? && timeout.None?
    {
      this.uri := uri;
      httpMethod := GET;
      version := Http11;
      headers := DefaultHttp(uri);
      body := None;
      timeout := None;
    }

    /** `RequestBuilder::method`. */
    method SetMethod(m: Method)
      modifies this
      ensures httpMethod == m
      ensures version == old(version) && headers == old(headers)
      ensures body == old(body) && timeout == old(timeout)
    {
      httpMethod := m;
    }

    /** `RequestBuilder::version`. */
    method SetVersion(v: HttpVersion)
      modifies this
      ensures version == v
      ensures httpMethod == old(httpMethod) && headers == old(headers)
      ensures body == old(body) && timeout == old(timeout)
    {
      version := v;
    }

    /** `RequestBuilder::headers`: replaces all headers. */
    method SetHeaders(h: Headers)
      requires h.Valid()
      modifies this
      ensures headers == h
      ensures httpMethod == old(httpMethod) && version == old(version)
      ensures body == old(body) && timeout == old(timeout)
    {
      headers := h;
    }

    /** `RequestBuilder::header`: sets one header, compared ignoring ASCII
        case; the others keep their values. */
    method Header(key: string, val: string)
      requires headers.Valid()
      modifies this
      ensures headers.Valid() && headers == old(headers).Insert(key, val).0
      ensures headers.Get(key) == Some(val)
      ensures forall k :: Fold(k) != Fold(key) ==> headers.Get(k) == old(headers).Get(k)
      ensures httpMethod == old(httpMethod) && version == old(version)
      ensures body == old(body) && timeout == old(timeout)
    {
      var (updated, _) := headers.Insert(key, val);
      headers := updated;
    }

    /** `RequestBuilder::body`. */
    method SetBody(b: seq<byte>)
      modifies this
      ensures body == Some(b)
      ensures httpMethod == old(httpMethod) && version == old(version)
      ensures headers == old(headers) && timeout == old(timeout)
    {
      body := Some(b);
    }

    /** `RequestBuilder::timeout`. */
    method SetTimeout(t: Option<Duration>)
      modifies this
      ensures timeout == t
      ensures httpMethod == old(httpMethod) && version == old(version)
      ensures headers == old(headers) && body == old(body)
    {
      timeout := t;
    }

    /** `RequestBuilder::parse_msg`, with the headers iterated in `order`:
        the UTF-8 bytes of the head, then the body when one is set. */
    function ParseMsg(order: seq<string>): (r: seq<byte>)
      reads this
      requires IsIterationOrder(headers, order)
      ensures var head := MessageHead(httpMethod, uri.resource, version, headers, order);
              |Encode(head)| <= |r| && Decode(r[..|Encode(head)|]) == Some(head)
              && r[|Encode(head)|..] == (if body.Some? then body.value else [])
    {
      var head := MessageHead(httpMethod, uri.resource, version, headers, order);
      var msg := Encode(head);
      var r := if body.Some? then msg + body.value else msg;
      DecodeEncode(head);
      assert r[..|msg|] == msg;
      r
    }

    /** `RequestBuilder::build`: the request with 60-second connect, read
        and write timeouts. */
    method Build() returns (req: Request)
      ensures fresh(req) && req.inner == this
      ensures req.connectTimeout == Some(FromSecs(60)) && req.readTimeout == Some(FromSecs(60))
      ensures req.writeTimeout == Some(FromSecs(60)) && req.rootCertFilePem.None?
    {
      req := new Request.FromBuilder(this);
    }
  }

  /** `Request`: a builder plus socket timeouts and a root certificate. */
  class Request {
    var inner: RequestBuilder
    var connectTimeout: Option<Duration>
    var readTimeout: Option<Duration>
    var writeTimeout: Option<Duration>
    var rootCertFilePem: Option<string>

    /** `Request::new`: a default builder with the header
        `Connection: Close`, and 60-second timeouts. */
    constructor (uri: Uri)
      ensures fresh(inner)
      ensures inner.uri == uri && inner.httpMethod == GET && inner.version == Http11
      ensures inner.headers.Valid() && inner.headers == DefaultHttp(uri).Set("Connection", "Close")
      ensures inner.headers.Get("Connection") == Some("Close")
      ensures inner.headers.Get("Referer") == Some(uri.text)
      ensures inner.body.None? && inner.timeout.None?
      ensures connectTimeout == Some(FromSecs(60)) && readTimeout == Some(FromSecs(60))
      ensures writeTimeout == Some(FromSecs(60)) && rootCertFilePem.None?
    {
      var builder := new RequestBuilder(uri);
      builder.Header("Connection", "Close");
      assert Fold("Referer") != Fold("Connection");
      inner := builder;
      connectTimeout := Some(FromSecs(60));
      readTimeout := Some(FromSecs(60));
      writeTimeout := Some(FromSecs(60));
      rootCertFilePem := None;
    }

    constructor FromBuilder(builder: RequestBuilder)
      ensures inner == builder
      ensures connectTimeout == Some(FromSecs(60)) && readTimeout == Some(FromSecs(60))
      ensures writeTimeout == Some(FromSecs(60)) && rootCertFilePem.None?
    {
      inner := builder;
      connectTimeout := Some(FromSecs(60));
      readTimeout := Some(FromSecs(60));
      writeTimeout := Some(FromSecs(60));
      rootCertFilePem := None;
    }
  }
}

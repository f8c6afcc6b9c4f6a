/** The HTTP/1.x response-head parser of the `http_req` crate
    (crates/http_req/src/response.rs): locating the end of the head,
    status codes and their reason phrases, the status line, the header
    block, and the content length. */
module HttpResponse {
  import opened Base
  import opened Utf8
  import opened Text

  /** The blank line that ends a head: CR LF CR LF. */
  const CR_LF_2: seq<byte> := [13, 10, 13, 10]

  /** Parse failures. */
  datatype ParseErr = Empty | StatusErr | HeadersErr | Int | Utf8Error

  // ---------------------------------------------------------------------
  // find_slice

  predicate MatchAt<T(==)>(data: seq<T>, e: seq<T>, i: nat) {
    i + |e| <= |data| && data[i..i + |e|] == e
  }

  /** The first position at or after `i` where `e` occurs in `data`. */
  function FirstMatch<T(==)>(data: seq<T>, e: seq<T>, i: nat): (r: Option<nat>)
    ensures r.Some? ==> i <= r.value && MatchAt(data, e, r.value)
                        && forall j :: i <= j < r.value ==> !MatchAt(data, e, j)
    ensures r.None? ==> forall j :: i <= j ==> !MatchAt(data, e, j)
    decreases |data| - i
  {
    if i + |e| > |data| then None
    else if data[i..i + |e|] == e then Some(i)
    else FirstMatch(data, e, i + 1)
  }

  /** What `find_slice` returns: the end of the first occurrence of `e` in
      `data`, looked for only when `data` is strictly longer than `e`. */
  function FindSliceSpec<T(==)>(data: seq<T>, e: seq<T>): (r: Option<nat>)
    ensures r.Some? <==> |data| > |e| && exists i :: MatchAt(data, e, i)
    ensures r.Some? ==> |e| <= r.value <= |data| && MatchAt(data, e, r.value - |e|)
                        && forall j :: 0 <= j < r.value - |e| ==> !MatchAt(data, e, j)
    ensures |data| <= |e| ==> r.None?
  {
    if |data| > |e| then
      match FirstMatch(data, e, 0)
      case Some(i) => Some(i + |e|)
      case None => None
    else None
  }

  /** `find_slice`: scans every start position in turn and returns at the
      first match. */
  method FindSlice<T(==)>(data: seq<T>, e: seq<T>) returns (r: Option<nat>)
    ensures r == FindSliceSpec(data, e)
  {
    if |data| > |e| {
      var i := 0;
      while i <= |data| - |e|
        invariant 0 <= i <= |data| - |e| + 1
        invariant FirstMatch(data, e, 0) == FirstMatch(data, e, i)
      {
        if data[i..i + |e|] == e {
          return Some(i + |e|);
        }
        i := i + 1;
      }
    }
    return None;
  }

  // ---------------------------------------------------------------------
  // StatusCode

  /** A status code, held as Rust's `u16`. */
  datatype StatusCode = StatusCode(code: u16) {
    /** 1xx, Informational. */
    predicate IsInfo() { 100 <= code < 200 }
    /** 2xx, Successful. */
    predicate IsSuccess() { 200 <= code < 300 }
    /** 3xx, Redirection. */
    predicate IsRedirect() { 300 <= code < 400 }
    /** 4xx, Client Error. */
    predicate IsClientErr() { 400 <= code < 500 }
    /** 5xx, Server Error. */
    predicate IsServerErr() { 500 <= code < 600 }

    /** The canonical reason phrase for a tabled code, None otherwise. */
    function Reason(): (r: Option<string>)
      ensures IsInfo() ==> (r.Some? <==> code in INFO_CODES)
      ensures IsSuccess() ==> (r.Some? <==> code in SUCCESS_CODES)
      ensures IsRedirect() ==> (r.Some? <==> code in REDIRECT_CODES)
      ensures IsClientErr() ==> (r.Some? <==> code in CLIENT_ERR_CODES)
      ensures IsServerErr() ==> (r.Some? <==> code in SERVER_ERR_CODES)
      ensures r.Some? ==> r.value != []
      ensures r.Some? ==> IsInfo() || IsSuccess() || IsRedirect() || IsClientErr() || IsServerErr()
    {
      var reason :=
        if IsInfo() then InfoReason(code)
        else if IsSuccess() then SuccessReason(code)
        else if IsRedirect() then RedirectReason(code)
        else if IsClientErr() then ClientErrReason(code)
        else if IsServerErr() then ServerErrReason(code)
        else "";
      if reason != [] then Some(reason) else None
    }
  }

  /** The 1xx codes with a phrase. */
  const INFO_CODES: set<u16> := {100, 101, 102}

  /** The 2xx codes with a phrase. */
  const SUCCESS_CODES: set<u16> := {200, 201, 202, 203, 204, 205, 206, 207, 208, 226}

  /** The 3xx codes with a phrase. */
  const REDIRECT_CODES: set<u16> := {300, 301, 302, 303, 304, 305, 307, 308}

  /** The 4xx codes with a phrase. */
  const CLIENT_ERR_CODES: set<u16> := {400, 401, 402, 403, 404, 405, 406, 407, 408, 409, 410, 411, 412, 413, 414, 415, 416, 417, 418, 421, 422, 423, 424, 426, 428, 429, 431, 451}

  /** The 5xx codes with a phrase. */
  const SERVER_ERR_CODES: set<u16> := {500, 501, 502, 503, 504, 505, 506, 507, 508, 510, 511}

  /** The phrases of the tabled 1xx codes; "" for the others. */
  function InfoReason(code: u16): (phrase: string)
    ensures phrase != [] <==> code in INFO_CODES
  {
    match code
    case 100 => "Continue"
    case 101 => "Switching Protocols"
    case 102 => "Processing"
    case _ => ""
  }

  /** The phrases of the tabled 2xx codes; "" for the others. */
  function SuccessReason(code: u16): (phrase: string)
    ensures phrase != [] <==> code in SUCCESS_CODES
  {
    match code
    case 200 => "OK"
    case 201 => "Created"
    case 202 => "Accepted"
    case 203 => "Non Authoritative Information"
    case 204 => "No Content"
    case 205 => "Reset Content"
    case 206 => "Partial Content"
    case 207 => "Multi-Status"
    case 208 => "Already Reported"
    case 226 => "IM Used"
    case _ => ""
  }

  /** The phrases of the tabled 3xx codes; "" for the others. */
  function RedirectReason(code: u16): (phrase: string)
    ensures phrase != [] <==> code in REDIRECT_CODES
  {
    match code
    case 300 => "Multiple Choices"
    case 301 => "Moved Permanently"
    case 302 => "Found"
    case 303 => "See Other"
    case 304 => "Not Modified"
    case 305 => "Use Proxy"
    case 307 => "Temporary Redirect"
    case 308 => "Permanent Redirect"
    case _ => ""
  }

  /** The phrases of the tabled 4xx codes; "" for the others. */
  function ClientErrReason(code: u16): (phrase: string)
    ensures phrase != [] <==> code in CLIENT_ERR_CODES
  {
    match code
    case 400 => "Bad Request"
    case 401 => "Unauthorized"
    case 402 => "Payment Required"
    case 403 => "Forbidden"
    case 404 => "Not Found"
    case 405 => "Method Not Allowed"
    case 406 => "Not Acceptable"
    case 407 => "Proxy Authentication Required"
    case 408 => "Request Timeout"
    case 409 => "Conflict"
    case 410 => "Gone"
    case 411 => "Length Required"
    case 412 => "Precondition Failed"
    case 413 => "Payload Too Large"
    case 414 => "URI Too Long"
    case 415 => "Unsupported Media Type"
    case 416 => "Range Not Satisfiable"
    case 417 => "Expectation Failed"
    case 418 => "I'm a teapot"
    case 421 => "Misdirected Request"
    case 422 => "Unprocessable Entity"
    case 423 => "Locked"
    case 424 => "Failed Dependency"
    case 426 => "Upgrade Required"
    case 428 => "Precondition Required"
    case 429 => "Too Many Requests"
    case 431 => "Request Header Fields Too Large"
    case 451 => "Unavailable For Legal Reasons"
    case _ => ""
  }

  /** The phrases of the tabled 5xx codes; "" for the others. */
  function ServerErrReason(code: u16): (phrase: string)
    ensures phrase != [] <==> code in SERVER_ERR_CODES
  {
    match code
    case 500 => "Internal Server Error"
    case 501 => "Not Implemented"
    case 502 => "Bad Gateway"
    case 503 => "Service Unavailable"
    case 504 => "Gateway Timeout"
    case 505 => "HTTP Version Not Supported"
    case 506 => "Variant Also Negotiates"
    case 507 => "Insufficient Storage"
    case 508 => "Loop Detected"
    case 510 => "Not Extended"
    case 511 => "Network Authentication Required"
    case _ => ""
  }

  /** The five classes are disjoint, and together they are exactly the
      codes from 100 to 599. */
  lemma StatusClasses(c: StatusCode)
    ensures (c.IsInfo() || c.IsSuccess() || c.IsRedirect() || c.IsClientErr() || c.IsServerErr())
            <==> 100 <= c.code < 600
    ensures c.IsInfo() ==> !c.IsSuccess() && !c.IsRedirect() && !c.IsClientErr() && !c.IsServerErr()
    ensures c.IsSuccess() ==> !c.IsRedirect() && !c.IsClientErr() && !c.IsServerErr()
    ensures c.IsRedirect() ==> !c.IsClientErr() && !c.IsServerErr()
    ensures c.IsClientErr() ==> !c.IsServerErr()
  {
  }

  /** Spot checks of the table: the phrases of tabled codes. */
  lemma ReasonTable()
    ensures StatusCode(101).Reason() == Some("Switching Protocols")
    ensures StatusCode(204).Reason() == Some("No Content")
    ensures StatusCode(418).Reason() == Some("I'm a teapot")
  {
  }

  // ---------------------------------------------------------------------
  // Status

  datatype Status = Status(version: string, code: StatusCode, reason: string)

  /** The reason used when the status line carries none. */
  function DefaultReason(code: StatusCode): (reason: string)
    ensures code.Reason().Some? ==> reason == code.Reason().value
    ensures reason == "Unknown" <==> code.Reason().None?
  {
    match code.Reason()
    case Some(r) => r
    case None => "Unknown"
  }

  /** `Status::from_str`: trim the line, split it at the first two spaces
      into version, code and reason; a line without a code is `StatusErr`,
      a code that is not a `u16` is `Int`, and a missing reason is the
      canonical phrase, or "Unknown". */
  function ParseStatus(line: string): (r: Result<Status, ParseErr>)
    ensures ' ' !in Trim(line) ==> r == Err(StatusErr)
    ensures ' ' in Trim(line) ==> (r.Ok? <==> ParseUnsigned(SplitN3(Trim(line), ' ')[1], 0xFFFF).Some?)
    ensures ' ' in Trim(line) && r.Err? ==> r.error == Int
    ensures r.Ok? ==> ' ' !in r.value.version
    ensures r.Ok? ==> exists codeText: string ::
              ' ' !in codeText && ParseUnsigned(codeText, 0xFFFF) == Some(r.value.code.code as nat)
              && (Trim(line) == r.value.version + " " + codeText + " " + r.value.reason
                  || (Trim(line) == r.value.version + " " + codeText && r.value.reason == DefaultReason(r.value.code)))
  {
    var t := Trim(line);
    var parts := SplitN3(t, ' ');
    if |parts| < 2 then Err(StatusErr)
    else match ParseUnsigned(parts[1], 0xFFFF)
      case None => Err(Int)
      case Some(n) =>
        var code := StatusCode(n);
        var reason := if |parts| == 3 then parts[2] else DefaultReason(code);
        assert ' ' !in parts[1] && ParseUnsigned(parts[1], 0xFFFF) == Some(code.code as nat);
        Ok(Status(parts[0], code, reason))
  }

  lemma DecimalNoSpace(n: nat)
    ensures ' ' !in Decimal(n)
  {
    var d := Decimal(n);
    assert forall i :: 0 <= i < |d| ==> '0' <= d[i] <= '9';
  }

  lemma StatusLineParts(version: string, d: string, reason: string)
    requires ' ' !in version && ' ' !in d
    ensures SplitN3(version + " " + d + " " + reason, ' ') == [version, d, reason]
  {
    assert version + " " + d + " " + reason == version + [' '] + (d + " " + reason);
    SplitOnceAt(version, ' ', d + " " + reason);
    assert d + " " + reason == d + [' '] + reason;
    SplitOnceAt(d, ' ', reason);
  }

  lemma StatusLinePartsNoReason(version: string, d: string)
    requires ' ' !in version && ' ' !in d
    ensures SplitN3(version + " " + d, ' ') == [version, d]
  {
    assert version + " " + d == version + [' '] + d;
    SplitOnceAt(version, ' ', d);
  }

  /** A status line written as version, code and reason parses back to
      them. */
  lemma ParseStatusLine(version: string, code: u16, reason: string)
    requires version != [] && ' ' !in version && !IsWhitespace(version[0])
    requires reason != [] && !IsWhitespace(reason[|reason| - 1])
    ensures ParseStatus(version + " " + Decimal(code) + " " + reason)
            == Ok(Status(version, StatusCode(code), reason))
  {
    var d := Decimal(code);
    var line := version + " " + d + " " + reason;
    assert line[0] == version[0] && line[|line| - 1] == reason[|reason| - 1];
    TrimNoop(line);
    DecimalNoSpace(code);
    StatusLineParts(version, d, reason);
    ParseDecimal(code, 0xFFFF);
  }

  /** Without a reason phrase the status takes the canonical one. */
  lemma ParseStatusNoReason(version: string, code: u16)
    requires version != [] && ' ' !in version && !IsWhitespace(version[0])
    ensures ParseStatus(version + " " + Decimal(code))
            == Ok(Status(version, StatusCode(code), DefaultReason(StatusCode(code))))
  {
    var d := Decimal(code);
    var line := version + " " + d;
    assert line[0] == version[0] && line[|line| - 1] == d[|d| - 1];
    TrimNoop(line);
    DecimalNoSpace(code);
    StatusLinePartsNoReason(version, d);
    ParseDecimal(code, 0xFFFF);
  }

  // ---------------------------------------------------------------------
  // Headers

  /** `Headers`: a `HashMap<Ascii<String>, String>`. Keys compare
      ASCII-case-insensitively, so the map is indexed by the folded key and
      keeps the key as first inserted (a `HashMap` never replaces a key
      that compares equal) alongside the value. */
  datatype Headers = Headers(entries: map<string, (string, string)>) {
    /** Every entry is filed under the fold of its own key. */
    ghost predicate Valid() {
      forall k :: k in entries ==> Fold(entries[k].0) == k
    }

    /** `Headers::get`: the value of the key, compared ignoring ASCII case. */
    function Get(k: string): (r: Option<string>)
      ensures r.Some? <==> Fold(k) in entries
      ensures r.Some? ==> r.value == entries[Fold(k)].1
    {
      if Fold(k) in entries then Some(entries[Fold(k)].1) else None
    }

    /** `Headers::insert`: the updated headers and the value the key had. */
    function Insert(k: string, v: string): (r: (Headers, Option<string>))
      requires Valid()
      ensures r.0.Valid()
      ensures r.1 == Get(k)
      ensures r.0.Get(k) == Some(v)
      ensures forall k' :: Fold(k') != Fold(k) ==> r.0.Get(k') == Get(k')
      ensures r.0.entries.Keys == entries.Keys + {Fold(k)}
      ensures Fold(k) in entries ==> r.0.entries[Fold(k)].0 == entries[Fold(k)].0
      ensures Fold(k) !in entries ==> r.0.entries[Fold(k)].0 == k
    {
      var key := Fold(k);
      FoldIdempotent(k);
      if key in entries then
        (Headers(entries[key := (entries[key].0, v)]), Some(entries[key].1))
      else
        (Headers(entries[key := (k, v)]), None)
    }

    /** `Headers::insert` when the old value is dropped. */
    function Set(k: string, v: string): (h: Headers)
      requires Valid()
      ensures h.Valid() && h.Get(k) == Some(v)
      ensures forall k' :: Fold(k') != Fold(k) ==> h.Get(k') == Get(k')
    {
      Insert(k, v).0
    }
  }

  function EmptyHeaders(): (h: Headers)
    ensures h.Valid() && h.entries == map[]
  {
    Headers(map[])
  }

  /** The key of a header line: the text before its first ':'. */
  function HeaderKey(l: string): (r: string)
    requires ':' in l
    ensures ':' !in r && |r| < |l| && l[..|r|] == r && l[|r|] == ':'
  {
    var (k, rest) := SplitOnce(l, ':').value;
    assert l == k + ":" + rest;
    k
  }

  /** The value of a header line: the text after its first ':', trimmed. */
  function HeaderValue(l: string): (r: string)
    requires ':' in l
    ensures r == Trim(l[|HeaderKey(l)| + 1..])
  {
    Trim(SplitOnce(l, ':').value.1)
  }

  predicate AllHaveColon(ls: seq<string>) {
    forall i :: 0 <= i < |ls| ==> ':' in ls[i]
  }

  /** Inserts header lines one after the other. */
  function InsertLines(h: Headers, ls: seq<string>): (r: Headers)
    requires h.Valid() && AllHaveColon(ls)
    ensures r.Valid()
    decreases |ls|
  {
    if ls == [] then h
    else InsertLines(h.Set(HeaderKey(ls[0]), HeaderValue(ls[0])), ls[1..])
  }

  /** Whether header line `l` is for key `k`, ignoring ASCII case. */
  predicate KeyIs(l: string, k: string)
    requires ':' in l
  {
    Fold(HeaderKey(l)) == Fold(k)
  }

  /** Line `i` is the last of `ls` for key `k`. */
  predicate LastLineFor(ls: seq<string>, k: string, i: int)
    requires AllHaveColon(ls)
  {
    0 <= i < |ls| && KeyIs(ls[i], k) && forall j :: i < j < |ls| ==> !KeyIs(ls[j], k)
  }

  /** The value the last line for `k` gives it, None when no line is for
      `k`. */
  function LastValue(ls: seq<string>, k: string): (r: Option<string>)
    requires AllHaveColon(ls)
    ensures r.None? <==> forall i :: 0 <= i < |ls| ==> !KeyIs(ls[i], k)
    ensures r.Some? ==> exists i :: LastLineFor(ls, k, i) && r.value == HeaderValue(ls[i])
    decreases |ls|
  {
    if ls == [] then None
    else
      assert forall i :: 1 <= i < |ls| ==> ls[i] == ls[1..][i - 1];
      var later := LastValue(ls[1..], k);
      if later.Some? then
        ghost var i :| LastLineFor(ls[1..], k, i) && later.value == HeaderValue(ls[1..][i]);
        assert LastLineFor(ls, k, i + 1);
        later
      else if KeyIs(ls[0], k) then
        assert LastLineFor(ls, k, 0);
        Some(HeaderValue(ls[0]))
      else None
  }

  /** Inserting the lines leaves a key with the value of its last line, or
      with the value it had when no line is for it. */
  lemma {:induction false} InsertLinesLastWins(h: Headers, ls: seq<string>, k: string)
    requires h.Valid() && AllHaveColon(ls)
    ensures InsertLines(h, ls).Get(k) == if LastValue(ls, k).Some? then LastValue(ls, k) else h.Get(k)
    decreases |ls|
  {
    if ls != [] {
      var k0, v0 := HeaderKey(ls[0]), HeaderValue(ls[0]);
      var h' := h.Set(k0, v0);
      assert AllHaveColon(ls[1..]);
      InsertLinesLastWins(h', ls[1..], k);
      if Fold(k0) == Fold(k) {
        assert h'.Get(k) == Some(v0) by {
          assert h'.Get(k0) == Some(v0);
        }
      }
    }
  }

  /** `Headers::from_str`: the trimmed block, line by line; every line must
      hold a ':', otherwise the whole block is `HeadersErr`. */
  function ParseHeaders(s: string): (r: Result<Headers, ParseErr>)
    ensures r.Err? <==> !AllHaveColon(Lines(Trim(s)))
    ensures r.Err? ==> r.error == HeadersErr
    ensures r.Ok? ==> r.value.Valid()
  {
    var ls := Lines(Trim(s));
    if AllHaveColon(ls) then Ok(InsertLines(EmptyHeaders(), ls)) else Err(HeadersErr)
  }

  /** Each key of the block has the value of its last line, and a key on
      no line has no value. */
  lemma ParseHeadersValues(s: string, k: string)
    requires ParseHeaders(s).Ok?
    ensures ParseHeaders(s).value.Get(k) == LastValue(Lines(Trim(s)), k)
  {
    InsertLinesLastWins(EmptyHeaders(), Lines(Trim(s)), k);
  }

  /** The input of `default_http`; `Uri` itself is not part of this model:
      its text (its `Display`), its resource and its `host_header`. */
  datatype Uri = Uri(text: string, resource: string, hostHeader: Option<string>)

  /** `Headers::default_http`: Host (empty when the URI has none) and
      Referer (the whole URI). */
  function DefaultHttp(uri: Uri): (h: Headers)
    ensures h.Valid()
    ensures h.Get("Host") == Some(if uri.hostHeader.Some? then uri.hostHeader.value else "")
    ensures h.Get("Referer") == Some(uri.text)
    ensures forall k :: Fold(k) != "host" && Fold(k) != "referer" ==> h.Get(k).None?
  {
    var host := if uri.hostHeader.Some? then uri.hostHeader.value else "";
    assert Fold("Host") == "host" && Fold("Referer") == "referer";
    EmptyHeaders().Set("Host", host).Set("Referer", uri.text)
  }

  // ---------------------------------------------------------------------
  // Response

  datatype Response = Response(status: Status, headers: Headers)

  /** `Response::from_head`: UTF-8 text, its first line the status line and
      the rest the header block. The status line is parsed first, so its
      error wins over a missing header block. */
  function FromHead(head: seq<byte>): (r: Result<Response, ParseErr>)
    ensures Decode(head).None? ==> r == Err(Utf8Error)
    ensures r.Ok? ==> exists line, rest ::
              (Decode(head) == Some(line + "\n" + rest) && '\n' !in line
               && ParseStatus(line) == Ok(r.value.status) && ParseHeaders(rest) == Ok(r.value.headers))
    ensures Decode(head).Some? && '\n' !in Decode(head).value ==> r.Err?
  {
    match Decode(head)
    case None => Err(Utf8Error)
    case Some(text) =>
      match SplitOnce(text, '\n')
      case None =>
        (match ParseStatus(text)
         case Err(e) => Err(e)
         case Ok(_) => Err(HeadersErr))
      case Some((line, rest)) =>
        assert text == line + "\n" + rest;
        match ParseStatus(line)
        case Err(e) => Err(e)
        case Ok(status) =>
          match ParseHeaders(rest)
          case Err(e) => Err(e)
          case Ok(headers) => Ok(Response(status, headers))
  }

  /** A head whose first line is a status line that parses and whose rest
      is a header block that parses gives the response of those two. */
  lemma FromHeadParses(line: string, rest: string)
    requires '\n' !in line && ParseStatus(line).Ok? && ParseHeaders(rest).Ok?
    ensures FromHead(Encode(line + "\n" + rest)) == Ok(Response(ParseStatus(line).value, ParseHeaders(rest).value))
  {
    DecodeEncode(line + "\n" + rest);
    assert line + "\n" + rest == line + ['\n'] + rest;
    SplitOnceAt(line, '\n', rest);
  }

  /** The errors of `from_head` in their order: invalid UTF-8, then the
      status line's error, then a missing header block, then the header
      block's error. */
  lemma FromHeadErrorOrder(head: seq<byte>)
    ensures Decode(head).Some? && '\n' !in Decode(head).value ==>
              FromHead(head) == (if ParseStatus(Decode(head).value).Err? then Err(ParseStatus(Decode(head).value).error)
                                 else Err(HeadersErr))
    ensures Decode(head).Some? && '\n' in Decode(head).value ==>
              var (line, rest) := SplitOnce(Decode(head).value, '\n').value;
              && (ParseStatus(line).Err? ==> FromHead(head) == Err(ParseStatus(line).error))
              && (ParseStatus(line).Ok? && ParseHeaders(rest).Err? ==> FromHead(head) == Err(ParseHeaders(rest).error))
  {
  }

  /** The end of the head inside a whole response: just after the first
      CR LF CR LF, or the whole input when there is none. */
  function HeadEnd(res: seq<byte>): (pos: nat)
    ensures pos <= |res|
    ensures pos < |res| ==> pos >= 4 && MatchAt(res, CR_LF_2, pos - 4)
    ensures forall j :: 0 <= j && j + 4 < pos ==> !MatchAt(res, CR_LF_2, j)
    ensures (forall j :: !MatchAt(res, CR_LF_2, j)) ==> pos == |res|
  {
    match FindSliceSpec(res, CR_LF_2)
    case Some(v) => v
    case None => |res|
  }

  /** The head length `try_from` settles on: where `find_slice` finds the
      blank line, else the whole input. */
  method HeadLength(res: seq<byte>) returns (pos: nat)
    ensures pos == HeadEnd(res)
  {
    var found := FindSlice(res, CR_LF_2);
    pos := if found.Some? then found.value else |res|;
  }

  /** The error `try_from` returns: a parse error, or the writer's
      `io::Error`, which the `?` converts. */
  datatype Error = Parse(err: ParseErr) | IO

  /** What the generic writer does with `write_all`: it takes every byte,
      or it fails with an `io::Error` after taking `accepted` of them. */
  datatype WriteOutcome = WritesAll | FailsAfter(accepted: nat)

  /** What `write_all` leaves with the writer, and whether it failed. */
  function WriteAll(bytes: seq<byte>, writer: WriteOutcome): (r: (bool, seq<byte>))
    ensures r.0 <==> writer.WritesAll?
    ensures writer.WritesAll? ==> r.1 == bytes
    ensures writer.FailsAfter? ==> r.1 == bytes[..Min(writer.accepted, |bytes|)]
  {
    match writer
    case WritesAll => (true, bytes)
    case FailsAfter(n) => (false, bytes[..Min(n, |bytes|)])
  }

  /** `Response::try_from`: rejects empty input; otherwise parses the head
      and, only when that succeeds, writes the rest to the writer, whose
      behaviour is `writer`: `written` is what reached it. */
  method TryFrom(res: seq<byte>, writer: WriteOutcome) returns (r: Result<Response, Error>, written: seq<byte>)
    ensures res == [] ==> r == Err(Parse(Empty)) && written == []
    ensures res != [] && FromHead(res[..HeadEnd(res)]).Err? ==>
              r == Err(Parse(FromHead(res[..HeadEnd(res)]).error)) && written == []
    ensures res != [] && FromHead(res[..HeadEnd(res)]).Ok? ==>
              && (writer.WritesAll? ==> r == Ok(FromHead(res[..HeadEnd(res)]).value))
              && (writer.FailsAfter? ==> r == Err(IO))
    ensures res != [] && FromHead(res[..HeadEnd(res)]).Ok? ==> WriteAll(res[HeadEnd(res)..], writer).1 == written
  {
    if res == [] {
      return Err(Parse(Empty)), [];
    }
    var pos := HeadLength(res);
    var head := FromHead(res[..pos]);
    var (ok, out) := WriteAll(res[pos..], writer);
    if head.Err? {
      return Err(Parse(head.error)), [];
    }
    written := out;
    r := if ok then Ok(head.value) else Err(IO);
  }

  /** `Response::content_len`: Content-Length when it parses as a `usize`;
      otherwise 0 for a 204 response; otherwise unknown. */
  function ContentLen(resp: Response): (r: Option<nat>)
    ensures resp.headers.Get("Content-Length").Some?
            && ParseUnsigned(resp.headers.Get("Content-Length").value, USIZE_MAX).Some?
            ==> r == ParseUnsigned(resp.headers.Get("Content-Length").value, USIZE_MAX)
    ensures (resp.headers.Get("Content-Length").None?
             || ParseUnsigned(resp.headers.Get("Content-Length").value, USIZE_MAX).None?)
            ==> r == (if resp.status.code.code == 204 then Some(0) else None)
  {
    var fromHeader :=
      match resp.headers.Get("Content-Length")
      case Some(len) => ParseUnsigned(len, USIZE_MAX)
      case None => None;
    if fromHeader.Some? then fromHeader
    else if resp.status.code.code == 204 then Some(0)
    else None
  }
}

/** UTF-8 as Rust's `str::from_utf8` (decoding, with validation) and
    `str::as_bytes` (encoding) define it, and `str::trim` with Rust's
    `char::is_whitespace`. Dafny's `char` is a Unicode scalar value, as
    Rust's is. */
module Utf8 {
  import opened Base

  /** A continuation byte 10xxxxxx. */
  predicate IsCont(b: byte) { 0x80 <= b < 0xC0 }

  /** Bytes of one scalar value, shortest form: the value's bits in groups
      of six, the leading group tagged with the sequence length and every
      other group with the continuation tag. */
  function EncodeChar(c: char): (r: seq<byte>)
    ensures 1 <= |r| <= 4
  {
    var n := c as int;
    var n1, g0 := n / 64, n % 64;
    var n2, g1 := n1 / 64, n1 % 64;
    var n3, g2 := n2 / 64, n2 % 64;
    if n < 0x80 then [n]
    else if n < 0x800 then [0xC0 + n1, 0x80 + g0]
    else if n < 0x1_0000 then [0xE0 + n2, 0x80 + g1, 0x80 + g0]
    else [0xF0 + n3, 0x80 + g2, 0x80 + g1, 0x80 + g0]
  }

  /** `str::as_bytes`. */
  function Encode(s: string): (r: seq<byte>)
    ensures |r| >= |s|
  {
    if s == [] then [] else EncodeChar(s[0]) + Encode(s[1..])
  }

  /** Decodes the scalar value that starts `b`, with its length in bytes;
      None for an ill-formed sequence (a stray continuation byte, a
      truncated sequence, an overlong form, a surrogate, or a value above
      U+10FFFF), exactly the sequences `from_utf8` rejects. */
  function DecodeChar(b: seq<byte>): (r: Option<(char, nat)>)
    requires |b| > 0
    ensures r.Some? ==> 1 <= r.value.1 <= |b| && r.value.1 <= 4
  {
    var b0: int := b[0];
    if b0 < 0x80 then Some((b0 as char, 1))
    else if 0xC2 <= b0 < 0xE0 then
      if |b| < 2 || !IsCont(b[1]) then None
      else Some((((b0 - 0xC0) * 64 + (b[1] as int - 0x80)) as char, 2))
    else if 0xE0 <= b0 < 0xF0 then
      if |b| < 3 || !IsCont(b[1]) || !IsCont(b[2]) then None
      else
        var cp := ((b0 - 0xE0) * 64 + (b[1] as int - 0x80)) * 64 + (b[2] as int - 0x80);
        if cp < 0x800 || (0xD800 <= cp < 0xE000) then None else Some((cp as char, 3))
    else if 0xF0 <= b0 < 0xF5 then
      if |b| < 4 || !IsCont(b[1]) || !IsCont(b[2]) || !IsCont(b[3]) then None
      else
        var cp := (((b0 - 0xF0) * 64 + (b[1] as int - 0x80)) * 64 + (b[2] as int - 0x80)) * 64
                  + (b[3] as int - 0x80);
        if cp < 0x1_0000 || cp >= 0x11_0000 then None else Some((cp as char, 4))
    else None
  }

  /** `str::from_utf8`: the text, or None when `b` is not valid UTF-8. */
  function Decode(b: seq<byte>): (r: Option<string>)
    ensures r.Some? ==> |r.value| <= |b|
    decreases |b|
  {
    if b == [] then Some([])
    else match DecodeChar(b)
      case None => None
      case Some((c, n)) =>
        match Decode(b[n..])
        case None => None
        case Some(rest) => Some([c] + rest)
  }

  lemma DecodeEncode2(c: char, rest: seq<byte>)
    requires 0x80 <= c as int < 0x800
    ensures DecodeChar(EncodeChar(c) + rest) == Some((c, 2))
  {
    var n := c as int;
    var n1, g0 := n / 64, n % 64;
    assert n == n1 * 64 + g0;
    var e := EncodeChar(c) + rest;
    assert e[0] as int == 0xC0 + n1 && e[1] as int == 0x80 + g0;
  }

  lemma DecodeEncode3(c: char, rest: seq<byte>)
    requires 0x800 <= c as int < 0x1_0000
    ensures DecodeChar(EncodeChar(c) + rest) == Some((c, 3))
  {
    var n := c as int;
    var n1, g0 := n / 64, n % 64;
    var n2, g1 := n1 / 64, n1 % 64;
    assert n == n1 * 64 + g0 && n1 == n2 * 64 + g1;
    assert 32 <= n1 < 1024 && n2 < 16;
    var e := EncodeChar(c) + rest;
    assert e[0] as int == 0xE0 + n2 && e[1] as int == 0x80 + g1 && e[2] as int == 0x80 + g0;
  }

  lemma DecodeEncode4(c: char, rest: seq<byte>)
    requires 0x1_0000 <= c as int
    ensures DecodeChar(EncodeChar(c) + rest) == Some((c, 4))
  {
    var n := c as int;
    var n1, g0 := n / 64, n % 64;
    var n2, g1 := n1 / 64, n1 % 64;
    var n3, g2 := n2 / 64, n2 % 64;
    assert n == n1 * 64 + g0 && n1 == n2 * 64 + g1 && n2 == n3 * 64 + g2;
    assert 1024 <= n1 < 0x4400;
    assert 16 <= n2 < 0x110;
    assert n3 < 5;
    var e := EncodeChar(c) + rest;
    assert e[0] as int == 0xF0 + n3 && e[1] as int == 0x80 + g2;
    assert e[2] as int == 0x80 + g1 && e[3] as int == 0x80 + g0;
  }

  /** The shortest form of a scalar value decodes back to it. */
  lemma DecodeEncodeChar(c: char, rest: seq<byte>)
    ensures DecodeChar(EncodeChar(c) + rest) == Some((c, |EncodeChar(c)|))
  {
    var n := c as int;
    if n < 0x80 {
    } else if n < 0x800 {
      DecodeEncode2(c, rest);
    } else if n < 0x1_0000 {
      DecodeEncode3(c, rest);
    } else {
      DecodeEncode4(c, rest);
    }
  }

  /** Encoding then validating gives the text back: the bytes `as_bytes`
      produces are always accepted by `from_utf8`. */
  lemma {:induction false} DecodeEncode(s: string)
    ensures Decode(Encode(s)) == Some(s)
  {
    if s != [] {
      var e := EncodeChar(s[0]);
      assert Encode(s) == e + Encode(s[1..]);
      DecodeEncodeChar(s[0], Encode(s[1..]));
      assert (e + Encode(s[1..]))[|e|..] == Encode(s[1..]);
      DecodeEncode(s[1..]);
      assert [s[0]] + s[1..] == s;
    }
  }

  lemma DivMod64(q: int, r: int)
    requires 0 <= q && 0 <= r < 64
    ensures (q * 64 + r) / 64 == q && (q * 64 + r) % 64 == r
  {
  }

  lemma EncodeDecode3(b: seq<byte>)
    requires |b| > 0 && 0xE0 <= b[0] < 0xF0 && DecodeChar(b).Some?
    ensures EncodeChar(DecodeChar(b).value.0) == b[..3]
  {
    var b0: int := b[0];
    var hi := (b0 - 0xE0) * 64 + (b[1] as int - 0x80);
    DivMod64(hi, b[2] as int - 0x80);
    DivMod64(b0 - 0xE0, b[1] as int - 0x80);
    assert EncodeChar(DecodeChar(b).value.0) == [b[0], b[1], b[2]];
  }

  lemma EncodeDecode4(b: seq<byte>)
    requires |b| > 0 && 0xF0 <= b[0] && DecodeChar(b).Some?
    ensures EncodeChar(DecodeChar(b).value.0) == b[..4]
  {
    var b0: int := b[0];
    var hi := (b0 - 0xF0) * 64 + (b[1] as int - 0x80);
    var mid := hi * 64 + (b[2] as int - 0x80);
    DivMod64(mid, b[3] as int - 0x80);
    DivMod64(hi, b[2] as int - 0x80);
    DivMod64(b0 - 0xF0, b[1] as int - 0x80);
    assert EncodeChar(DecodeChar(b).value.0) == [b[0], b[1], b[2], b[3]];
  }

  /** A decoded scalar value re-encodes to the bytes it was decoded from. */
  lemma EncodeDecodeChar(b: seq<byte>)
    requires |b| > 0 && DecodeChar(b).Some?
    ensures EncodeChar(DecodeChar(b).value.0) == b[..DecodeChar(b).value.1]
  {
    var b0: int := b[0];
    if 0xC2 <= b0 < 0xE0 {
      DivMod64(b0 - 0xC0, b[1] as int - 0x80);
      assert EncodeChar(DecodeChar(b).value.0) == [b[0], b[1]];
    } else if 0xE0 <= b0 < 0xF0 {
      EncodeDecode3(b);
    } else if 0xF0 <= b0 {
      EncodeDecode4(b);
    }
  }

  /** Validation then encoding gives the bytes back: `from_utf8` accepts
      only the bytes of the text it returns. */
  lemma {:induction false} EncodeDecode(b: seq<byte>)
    requires Decode(b).Some?
    ensures Encode(Decode(b).value) == b
    decreases |b|
  {
    if b != [] {
      var (c, n) := DecodeChar(b).value;
      EncodeDecodeChar(b);
      EncodeDecode(b[n..]);
      var s := Decode(b).value;
      assert s == [c] + Decode(b[n..]).value;
      assert s[0] == c && s[1..] == Decode(b[n..]).value;
      assert b == b[..n] + b[n..];
    }
  }

  lemma {:induction false} EncodeAppend(a: string, b: string)
    ensures Encode(a + b) == Encode(a) + Encode(b)
  {
    if a == [] {
      assert a + b == b;
    } else {
      assert (a + b)[0] == a[0] && (a + b)[1..] == a[1..] + b;
      EncodeAppend(a[1..], b);
      assert Encode(a + b) == EncodeChar(a[0]) + Encode(a[1..] + b);
      assert EncodeChar(a[0]) + (Encode(a[1..]) + Encode(b)) == (EncodeChar(a[0]) + Encode(a[1..])) + Encode(b);
    }
  }

  /** ASCII text encodes as one byte per character, its code. */
  lemma {:induction false} EncodeAscii(s: string)
    requires forall i :: 0 <= i < |s| ==> s[i] < '\U{80}'
    ensures |Encode(s)| == |s|
    ensures forall i :: 0 <= i < |s| ==> Encode(s)[i] == s[i] as int
  {
    if s != [] {
      EncodeAscii(s[1..]);
      assert EncodeChar(s[0]) == [s[0] as int];
    }
  }

  /** Rust's `char::is_whitespace`: the Unicode White_Space property. */
  predicate IsWhitespace(c: char) {
    ('\t' <= c <= '\r') || c == ' ' || c == '\U{85}' || c == '\U{A0}' || c == '\U{1680}'
    || ('\U{2000}' <= c <= '\U{200A}') || c == '\U{2028}' || c == '\U{2029}' || c == '\U{202F}'
    || c == '\U{205F}' || c == '\U{3000}'
  }

  /** `str::trim_start`. */
  function TrimStart(s: string): (r: string)
    ensures |r| <= |s| && r == s[|s| - |r|..]
    ensures forall i :: 0 <= i < |s| - |r| ==> IsWhitespace(s[i])
    ensures r == [] || !IsWhitespace(r[0])
  {
    if s != [] && IsWhitespace(s[0]) then TrimStart(s[1..]) else s
  }

  /** `str::trim_end`. */
  function TrimEnd(s: string): (r: string)
    ensures |r| <= |s| && r == s[..|r|]
    ensures forall i :: |r| <= i < |s| ==> IsWhitespace(s[i])
    ensures r == [] || !IsWhitespace(r[|r| - 1])
  {
    if s != [] && IsWhitespace(s[|s| - 1]) then TrimEnd(s[..|s| - 1]) else s
  }

  /** `r` is `s` with the whitespace before offset `i` and after `i + |r|`
      removed. */
  predicate TrimmedAt(s: string, r: string, i: nat) {
    i + |r| <= |s| && r == s[i..i + |r|]
    && (forall k :: 0 <= k < i ==> IsWhitespace(s[k]))
    && (forall k :: i + |r| <= k < |s| ==> IsWhitespace(s[k]))
  }

  /** `str::trim`: `s` less the whitespace on either side, so that what is
      left neither starts nor ends with whitespace. */
  function Trim(s: string): (r: string)
    ensures exists i: nat :: TrimmedAt(s, r, i)
    ensures r == [] || (!IsWhitespace(r[0]) && !IsWhitespace(r[|r| - 1]))
  {
    var t := TrimStart(s);
    var r := TrimEnd(t);
    var i := |s| - |t|;
    assert r == s[i..i + |r|];
    assert forall k :: i + |r| <= k < |s| ==> s[k] == t[k - i];
    assert TrimmedAt(s, r, i);
    r
  }

  /** A text with no whitespace at either end is its own trim. */
  lemma TrimNoop(s: string)
    requires s == [] || (!IsWhitespace(s[0]) && !IsWhitespace(s[|s| - 1]))
    ensures Trim(s) == s
  {
  }
}

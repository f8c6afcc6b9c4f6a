/** The `str` operations the HTTP head parser is built from: searching for a
    character, `splitn`, `lines`, ASCII case-insensitive comparison (the
    `unicase::Ascii` key wrapper) and parsing unsigned integers. */
module Text {
  import opened Base

  /** Index of the first `c` in `s`. */
  function IndexOf(s: string, c: char): (r: Option<nat>)
    ensures r.Some? ==> r.value < |s| && s[r.value] == c && c !in s[..r.value]
    ensures r.None? <==> c !in s
  {
    if s == [] then None
    else if s[0] == c then Some(0)
    else match IndexOf(s[1..], c)
      case None => None
      case Some(i) => assert s[..i + 1] == [s[0]] + s[1..][..i]; Some(i + 1)
  }

  /** The first two items of `s.splitn(2, c)`: the text before the first
      `c` and the text after it, or None when there is no `c`. */
  function SplitOnce(s: string, c: char): (r: Option<(string, string)>)
    ensures r.None? <==> c !in s
    ensures r.Some? ==> c !in r.value.0 && s == r.value.0 + [c] + r.value.1
  {
    match IndexOf(s, c)
    case None => None
    case Some(i) => assert s == s[..i] + [c] + s[i + 1..]; Some((s[..i], s[i + 1..]))
  }

  /** The split is at the first `c`: the only one with no `c` before it. */
  lemma SplitOnceAt(a: string, c: char, b: string)
    requires c !in a
    ensures SplitOnce(a + [c] + b, c) == Some((a, b))
  {
    var s := a + [c] + b;
    var i := IndexOf(s, c).value;
    assert s[|a|] == c;
    assert forall j :: 0 <= j < |a| ==> s[j] == a[j];
    assert forall j :: 0 <= j < i ==> s[j] == s[..i][j];
    assert i == |a|;
    assert s[..i] == a && s[i + 1..] == b;
  }

  /** `s.splitn(2, c)` collected: the text itself, or the pieces around
      the first `c`. */
  function SplitN2(s: string, c: char): (r: seq<string>)
    ensures 1 <= |r| <= 2
    ensures |r| == 1 <==> c !in s
    ensures |r| == 1 ==> r[0] == s
    ensures |r| == 2 ==> c !in r[0] && s == r[0] + [c] + r[1]
  {
    match SplitOnce(s, c)
    case None => [s]
    case Some((a, b)) => [a, b]
  }

  /** `s.splitn(3, c)` collected: one, two or three pieces; the last piece
      holds the rest of the text, separators included. */
  function SplitN3(s: string, c: char): (r: seq<string>)
    ensures 1 <= |r| <= 3
    ensures |r| == 1 <==> c !in s
    ensures |r| == 1 ==> r[0] == s
    ensures |r| >= 2 ==> c !in r[0] && c !in r[1]
    ensures |r| == 2 ==> s == r[0] + [c] + r[1]
    ensures |r| == 3 ==> s == r[0] + [c] + r[1] + [c] + r[2]
  {
    match SplitOnce(s, c)
    case None => [s]
    case Some((a, rest)) =>
      var tail := SplitN2(rest, c);
      SplitN3Parts(s, c, a, rest, tail);
      [a] + tail
  }

  /** Regrouping the pieces around two separators. */
  lemma SplitN3Parts(s: string, c: char, a: string, rest: string, tail: seq<string>)
    requires s == a + [c] + rest && 1 <= |tail| <= 2
    requires |tail| == 2 ==> rest == tail[0] + [c] + tail[1]
    ensures |tail| == 2 ==> s == a + [c] + tail[0] + [c] + tail[1]
  {
  }

  /** A line less one trailing carriage return. */
  function StripCr(l: string): (r: string)
    ensures r == l || l == r + ['\r']
  {
    if |l| > 0 && l[|l| - 1] == '\r' then l[..|l| - 1] else l
  }

  /** `str::lines`: lines end at "\n" or "\r\n", which are not part of
      them; a final line ending is optional, so "" has no lines. */
  function Lines(s: string): (r: seq<string>)
    ensures s == [] <==> r == []
    ensures forall i :: 0 <= i < |r| ==> '\n' !in r[i]
    decreases |s|
  {
    if s == [] then []
    else match SplitOnce(s, '\n')
      case None => [s]
      case Some((l, rest)) => [StripCr(l)] + Lines(rest)
  }

  /** A line closed by CRLF is the first of the lines. */
  lemma LinesCrLf(l: string, rest: string)
    requires '\n' !in l
    ensures Lines(l + "\r\n" + rest) == [l] + Lines(rest)
  {
    var s := l + "\r\n" + rest;
    assert s == (l + "\r") + ['\n'] + rest;
    assert '\n' !in l + "\r";
    SplitOnceAt(l + "\r", '\n', rest);
    assert StripCr(l + "\r") == l;
  }

  /** Lines, each closed by CRLF. */
  function JoinCrLf(ls: seq<string>): (r: string)
    ensures ls == [] <==> r == []
    ensures |r| >= 2 * |ls|
  {
    if ls == [] then [] else ls[0] + "\r\n" + JoinCrLf(ls[1..])
  }

  lemma {:induction false} JoinCrLfAppend(a: seq<string>, b: seq<string>)
    ensures JoinCrLf(a + b) == JoinCrLf(a) + JoinCrLf(b)
  {
    if a == [] {
      assert a + b == b;
    } else {
      assert (a + b)[0] == a[0] && (a + b)[1..] == a[1..] + b;
      JoinCrLfAppend(a[1..], b);
    }
  }

  /** Text written as CRLF-closed lines ends with CRLF unless there are
      none. */
  lemma {:induction false} JoinCrLfEndsCrLf(ls: seq<string>)
    requires ls != []
    ensures |JoinCrLf(ls)| >= 2 && JoinCrLf(ls)[|JoinCrLf(ls)| - 2..] == "\r\n"
  {
    if ls[1..] != [] {
      JoinCrLfEndsCrLf(ls[1..]);
    }
  }

  /** Text written as CRLF-closed lines splits back into those lines. */
  lemma {:induction false} LinesJoinCrLf(ls: seq<string>)
    requires forall i :: 0 <= i < |ls| ==> '\n' !in ls[i]
    ensures Lines(JoinCrLf(ls)) == ls
  {
    if ls != [] {
      var rest := JoinCrLf(ls[1..]);
      assert JoinCrLf(ls) == ls[0] + "\r\n" + rest;
      assert '\n' !in ls[0];
      LinesCrLf(ls[0], rest);
      LinesJoinCrLf(ls[1..]);
      assert ls == [ls[0]] + ls[1..];
    }
  }

  /** ASCII lower case, the folding `eq_ignore_ascii_case` applies. */
  function LowerAscii(c: char): (r: char)
    ensures 'A' <= c <= 'Z' ==> r as int == c as int + 32
    ensures !('A' <= c <= 'Z') ==> r == c
  {
    if 'A' <= c <= 'Z' then (c as int + 32) as char else c
  }

  /** The case-folded form under which a `unicase::Ascii` key compares. */
  function Fold(s: string): (r: string)
    ensures |r| == |s|
    ensures forall i :: 0 <= i < |s| ==> r[i] == LowerAscii(s[i])
  {
    seq(|s|, i requires 0 <= i < |s| => LowerAscii(s[i]))
  }

  /** Two keys are equal as `unicase::Ascii` values exactly when they fold
      to the same text. */
  predicate EqIgnoreAsciiCase(a: string, b: string) {
    Fold(a) == Fold(b)
  }

  lemma FoldIdempotent(s: string)
    ensures Fold(Fold(s)) == Fold(s)
  {
  }

  predicate IsDigit(c: char) { '0' <= c <= '9' }

  predicate AllDigits(s: string) { forall i :: 0 <= i < |s| ==> IsDigit(s[i]) }

  /** Value of a run of decimal digits, most significant first. */
  function DigitsValue(s: string): nat
    requires AllDigits(s)
    decreases |s|
  {
    if s == [] then 0
    else DigitsValue(s[..|s| - 1]) * 10 + (s[|s| - 1] as int - '0' as int)
  }

  /** `str::parse` for an unsigned integer type whose largest value is
      `max`: an optional '+', then at least one ASCII digit and nothing
      else, and a value no larger than `max`. */
  function ParseUnsigned(s: string, max: nat): (r: Option<nat>)
    ensures r.Some? ==> r.value <= max
    ensures r.Some? ==> exists d :: (s == d || s == "+" + d) && d != [] && AllDigits(d) && r.value == DigitsValue(d)
    ensures s == [] || s == "+" ==> r.None?
    ensures forall d :: (s == d || s == "+" + d) && d != [] && AllDigits(d) && DigitsValue(d) <= max
                        ==> r == Some(DigitsValue(d))
  {
    var d := if |s| > 0 && s[0] == '+' then s[1..] else s;
    if d == [] || !AllDigits(d) then None
    else if DigitsValue(d) > max then None
    else
      assert s == d || s == "+" + d;
      Some(DigitsValue(d))
  }

  /** `Decimal` and `DigitsValue` are inverse. */
  lemma {:induction false} DigitsValueDecimal(n: nat)
    ensures AllDigits(Decimal(n)) && DigitsValue(Decimal(n)) == n
    decreases n
  {
    if n >= 10 {
      DigitsValueDecimal(n / 10);
      var s := Decimal(n);
      assert s[..|s| - 1] == Decimal(n / 10);
    }
  }

  /** Rendering a number in decimal and parsing it back gives the number. */
  lemma ParseDecimal(n: nat, max: nat)
    requires n <= max
    ensures ParseUnsigned(Decimal(n), max) == Some(n)
  {
    DigitsValueDecimal(n);
  }
}

/** Python strings as code points, lone surrogates included, their UTF-16 and UTF-8 encodings, and the order of byte
    strings. */
module Texts {
  import opened Prelude

  // Plain integers: the ranges are stated where something depends on them.
  type Byte = int
  type Bytes = seq<Byte>
  type CodeUnit = int
  type CodePoint = int

  /** A Python `str`: code points 0..0x10FFFF, lone surrogates included. */
  type Text = seq<CodePoint>

  predicate Scalar(c: CodePoint) {
    0 <= c < 0xD800 || 0xE000 <= c < 0x11_0000
  }

  /** No lone surrogate (and no number that is not a code point at all). */
  predicate SurrogateFree(s: Text) {
    s == [] || (Scalar(s[0]) && SurrogateFree(s[1..]))
  }

  lemma {:induction false} CleanConcat(a: Text, b: Text)
    ensures SurrogateFree(a + b) <==> SurrogateFree(a) && SurrogateFree(b)
  {
    if a == [] {
      assert a + b == b;
    } else {
      assert (a + b)[1..] == a[1..] + b;
      CleanConcat(a[1..], b);
    }
  }

  lemma {:induction false} CleanIffAllScalar(s: Text)
    ensures SurrogateFree(s) <==> forall i | 0 <= i < |s| :: Scalar(s[i])
  {
    if s != [] {
      CleanIffAllScalar(s[1..]);
      assert forall i | 0 < i < |s| :: s[i] == s[1..][i - 1];
    }
  }

  predicate IsBytes(b: Bytes) {
    forall i | 0 <= i < |b| :: 0 <= b[i] < 256
  }

  /** A Dafny literal as a `Text`. */
  function Of(s: string): (t: Text)
    ensures |t| == |s| && forall i | 0 <= i < |s| :: t[i] == s[i] as int
  {
    seq(|s|, i requires 0 <= i < |s| => s[i] as int)
  }

  lemma OfIsClean(s: string)
    ensures SurrogateFree(Of(s))
  {
    CleanIffAllScalar(Of(s));
  }

  /** That many characters "0". */
  function Zeros(n: nat): (t: Text)
    ensures |t| == n
  {
    if n == 0 then [] else [0x30] + Zeros(n - 1)
  }

  lemma {:induction false} ZerosAreClean(n: nat)
    ensures SurrogateFree(Zeros(n))
  {
    if n > 0 {
      ZerosAreClean(n - 1);
      assert Zeros(n)[1..] == Zeros(n - 1);
    }
  }

  // ---------- lexicographic order ----------

  /** The order Python gives `bytes`, `str` and lists of numbers. */
  predicate LexLess(a: seq<int>, b: seq<int>) {
    b != [] && (a == [] || a[0] < b[0] || (a[0] == b[0] && LexLess(a[1..], b[1..])))
  }

  lemma {:induction false} LexTotal(a: seq<int>, b: seq<int>)
    ensures LexLess(a, b) || LexLess(b, a) || a == b
    ensures !(LexLess(a, b) && LexLess(b, a))
    ensures !LexLess(a, a)
  {
    if a != [] {
      LexTotal(a[1..], a[1..]);
      if b != [] && a[0] == b[0] {
        LexTotal(a[1..], b[1..]);
        assert a == [a[0]] + a[1..] && b == [b[0]] + b[1..];
      }
    }
  }

  lemma {:induction false} LexTransitive(a: seq<int>, b: seq<int>, c: seq<int>)
    requires LexLess(a, b) && LexLess(b, c)
    ensures LexLess(a, c)
  {
    if a != [] && a[0] == b[0] == c[0] {
      LexTransitive(a[1..], b[1..], c[1..]);
    }
  }

  // ---------- UTF-16 ----------

  function Units(c: CodePoint): (u: seq<CodeUnit>) {
    if c < 0x1_0000 then [c]
    else [0xD800 + (c - 0x1_0000) / 0x400, 0xDC00 + (c - 0x1_0000) % 0x400]
  }

  /** `s.encode("utf-16", "surrogatepass")` as code units. */
  function Utf16(s: Text): seq<CodeUnit> {
    if s == [] then [] else Units(s[0]) + Utf16(s[1..])
  }

  /** Code units in big-endian byte order. */
  function BigEndian(u: seq<CodeUnit>): Bytes {
    if u == [] then [] else [u[0] / 0x100, u[0] % 0x100] + BigEndian(u[1..])
  }

  /** Comparing big-endian bytes is comparing code units. */
  lemma {:induction false} BigEndianKeepsOrder(u: seq<CodeUnit>, v: seq<CodeUnit>)
    ensures LexLess(BigEndian(u), BigEndian(v)) <==> LexLess(u, v)
  {
    if u != [] && v != [] {
      BigEndianKeepsOrder(u[1..], v[1..]);
      var x, y := BigEndian(u), BigEndian(v);
      assert x[1..][1..] == BigEndian(u[1..]) && y[1..][1..] == BigEndian(v[1..]);
      assert LexLess(x, y) <==> x[0] < y[0] || (x[0] == y[0] && LexLess(x[1..], y[1..]));
      assert LexLess(x[1..], y[1..]) <==>
        x[1] < y[1] || (x[1] == y[1] && LexLess(x[1..][1..], y[1..][1..]));
      SplitByte(u[0], v[0]);
    }
  }

  lemma SplitByte(a: CodeUnit, b: CodeUnit)
    ensures a < b <==> a / 0x100 < b / 0x100 || (a / 0x100 == b / 0x100 && a % 0x100 < b % 0x100)
    ensures a == b <==> a / 0x100 == b / 0x100 && a % 0x100 == b % 0x100
  {
  }

  /** Reads one code point off the front of well-formed UTF-16. */
  function FirstPoint(u: seq<CodeUnit>): (r: (CodePoint, seq<CodeUnit>))
    requires u != []
    ensures |r.1| < |u|
  {
    if 0xD800 <= u[0] < 0xDC00 && |u| > 1 && 0xDC00 <= u[1] < 0xE000 then
      (0x1_0000 + (u[0] - 0xD800) * 0x400 + (u[1] - 0xDC00), u[2..])
    else (u[0], u[1..])
  }

  function FromUtf16(u: seq<CodeUnit>): Text
    decreases |u|
  {
    if u == [] then [] else var (c, rest) := FirstPoint(u); [c] + FromUtf16(rest)
  }

  lemma FirstPointOfUnits(c: CodePoint, rest: seq<CodeUnit>)
    requires Scalar(c)
    ensures FirstPoint(Units(c) + rest) == (c, rest)
  {
    var u := Units(c) + rest;
    if c < 0x1_0000 {
      assert u[0] == c && u[1..] == rest;
    } else {
      var d := c - 0x1_0000;
      assert u[0] == 0xD800 + d / 0x400 && u[1] == 0xDC00 + d % 0x400;
      assert d / 0x400 < 0x400;
      assert u[2..] == rest;
    }
  }

  lemma {:induction false} Utf16RoundTrip(s: Text)
    requires SurrogateFree(s)
    ensures FromUtf16(Utf16(s)) == s
  {
    if s != [] {
      assert Scalar(s[0]);
      FirstPointOfUnits(s[0], Utf16(s[1..]));
      Utf16RoundTrip(s[1..]);
    }
  }

  // ---------- UTF-8 ----------

  function PointBytes(c: CodePoint): Bytes {
    if c < 0x80 then [c]
    else if c < 0x800 then [0xC0 + c / 0x40, 0x80 + c % 0x40]
    else if c < 0x1_0000 then [0xE0 + c / 0x1000, 0x80 + c / 0x40 % 0x40, 0x80 + c % 0x40]
    else [0xF0 + c / 0x4_0000, 0x80 + c / 0x1000 % 0x40, 0x80 + c / 0x40 % 0x40, 0x80 + c % 0x40]
  }

  /** `s.encode("utf-8")`; raises on a surrogate. */
  function Utf8(s: Text): Bytes
    requires SurrogateFree(s)
  {
    if s == [] then [] else PointBytes(s[0]) + Utf8(s[1..])
  }

  predicate Continuation(b: Byte) {
    0x80 <= b < 0xC0
  }

  /** Strict UTF-8: shortest form only, no surrogates, nothing above U+10FFFF. */
  function FirstBytes(b: Bytes): (r: Option<(CodePoint, Bytes)>)
    requires b != []
    ensures r.Some? ==> |r.value.1| < |b|
  {
    if b[0] < 0x80 then Some((b[0], b[1..]))
    else if 0xC2 <= b[0] < 0xE0 && |b| > 1 && Continuation(b[1]) then
      Some(((b[0] - 0xC0) * 0x40 + (b[1] - 0x80), b[2..]))
    else if 0xE0 <= b[0] < 0xF0 && |b| > 2 && Continuation(b[1]) && Continuation(b[2]) then
      var c := (b[0] - 0xE0) * 0x1000 + (b[1] - 0x80) * 0x40 + (b[2] - 0x80);
      if c >= 0x800 && Scalar(c) then Some((c, b[3..])) else None
    else if 0xF0 <= b[0] < 0xF8 && |b| > 3 && Continuation(b[1]) && Continuation(b[2]) && Continuation(b[3]) then
      var c := (b[0] - 0xF0) * 0x4_0000 + (b[1] - 0x80) * 0x1000 + (b[2] - 0x80) * 0x40 + (b[3] - 0x80);
      if 0x1_0000 <= c < 0x11_0000 then Some((c, b[4..])) else None
    else None
  }

  /** `b.decode("utf-8", errors="strict")`; None is UnicodeDecodeError. */
  function FromUtf8(b: Bytes): Option<Text>
    decreases |b|
  {
    if b == [] then Some([])
    else
      match FirstBytes(b)
      case None => None
      case Some((c, rest)) =>
        match FromUtf8(rest)
        case None => None
        case Some(s) => Some([c] + s)
  }

  lemma ThreeDigits(c: int)
    requires 0 <= c < 0x1_0000
    ensures c == c / 0x1000 * 0x1000 + c / 0x40 % 0x40 * 0x40 + c % 0x40
    ensures 0 <= c / 0x1000 < 0x10
  {
    assert c == c / 0x40 * 0x40 + c % 0x40;
    var d := c / 0x40;
    assert d == d / 0x40 * 0x40 + d % 0x40;
    assert d / 0x40 == c / 0x1000;
  }

  lemma FourDigits(c: int)
    requires 0 <= c < 0x11_0000
    ensures c == c / 0x4_0000 * 0x4_0000 + c / 0x1000 % 0x40 * 0x1000 + c / 0x40 % 0x40 * 0x40 + c % 0x40
    ensures 0 <= c / 0x4_0000 < 0x8
  {
    var d := c / 0x1000;
    assert d == d / 0x40 * 0x40 + d % 0x40;
    assert d / 0x40 == c / 0x4_0000;
    var e := c / 0x40;
    assert e == e / 0x40 * 0x40 + e % 0x40;
    assert e / 0x40 == d;
    assert c == e * 0x40 + c % 0x40;
  }

  lemma FirstBytesOfPoint(c: CodePoint, rest: Bytes)
    requires Scalar(c)
    ensures FirstBytes(PointBytes(c) + rest) == Some((c, rest))
  {
    var b := PointBytes(c) + rest;
    if c < 0x80 {
      assert b[1..] == rest;
    } else if c < 0x800 {
      assert b[2..] == rest;
    } else if c < 0x1_0000 {
      ThreeDigits(c);
      assert b[3..] == rest;
    } else {
      FourDigits(c);
      assert b[4..] == rest;
    }
  }

  lemma {:induction false} Utf8RoundTrip(s: Text)
    requires SurrogateFree(s)
    ensures FromUtf8(Utf8(s)) == Some(s)
  {
    if s != [] {
      assert Scalar(s[0]);
      FirstBytesOfPoint(s[0], Utf8(s[1..]));
      Utf8RoundTrip(s[1..]);
      assert Utf8(s) != [] && [s[0]] + s[1..] == s;
    }
  }
}

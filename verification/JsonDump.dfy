/** What `json.dumps` writes, and what `json.loads` makes of it. */
module JsonDump {
  // Compact separators and ASCII only: everything else is escaped by UTF-16 unit, so a reader joins surrogate pairs.

  import opened Prelude
  import opened Texts
  import opened Decimals
  import opened Json
  import opened Jcs
  import opened JsonParser
  import opened JcsNumber
  import opened JcsRoundTrip

  // ---------- strings ----------

  /** `\uXXXX`. */
  function HexText(u: CodeUnit): (t: Text)
    ensures |t| == 6
  {
    [BACKSLASH, 0x75, HexDigit(u / 0x1000 % 16), HexDigit(u / 0x100 % 16), HexDigit(u / 0x10 % 16), HexDigit(u % 16)]
  }

  function UnitText(u: CodeUnit): Text {
    match u
    case 0x22 => [BACKSLASH, QUOTE]
    case 0x5C => [BACKSLASH, BACKSLASH]
    case 0x08 => [BACKSLASH, 0x62]
    case 0x09 => [BACKSLASH, 0x74]
    case 0x0A => [BACKSLASH, 0x6E]
    case 0x0C => [BACKSLASH, 0x66]
    case 0x0D => [BACKSLASH, 0x72]
    case _ => if 0x20 <= u <= 0x7E then [u] else HexText(u)
  }

  /** A character beyond U+FFFF is written as its two surrogates. */
  function PointText(c: CodePoint): Text {
    if c < 0x1_0000 then UnitText(c) else UnitText(Units(c)[0]) + UnitText(Units(c)[1])
  }

  function BodyText(s: Text): Text {
    if s == [] then [] else PointText(s[0]) + BodyText(s[1..])
  }

  function UnitsText(u: seq<CodeUnit>): Text {
    if u == [] then [] else UnitText(u[0]) + UnitsText(u[1..])
  }

  lemma {:induction false} UnitsTextConcat(a: seq<CodeUnit>, b: seq<CodeUnit>)
    ensures UnitsText(a + b) == UnitsText(a) + UnitsText(b)
  {
    if a == [] {
      assert a + b == b;
    } else {
      assert (a + b)[0] == a[0] && (a + b)[1..] == a[1..] + b;
      UnitsTextConcat(a[1..], b);
      Regroup(UnitText(a[0]), UnitsText(a[1..]), UnitsText(b));
    }
  }

  lemma PointIsUnits(c: CodePoint)
    ensures PointText(c) == UnitsText(Units(c))
  {
    hide UnitText;
    var u := Units(c);
    if c < 0x1_0000 {
      assert u[1..] == [];
    } else {
      assert u == [u[0]] + [u[1]];
      UnitsTextConcat([u[0]], [u[1]]);
      assert [u[0]][1..] == [] && [u[1]][1..] == [];
    }
  }

  /** Writing by character is writing by UTF-16 unit. */
  lemma {:induction false} BodyIsUnits(s: Text)
    ensures BodyText(s) == UnitsText(Utf16(s))
  {
    if s != [] {
      hide UnitText, PointText;
      BodyIsUnits(s[1..]);
      PointIsUnits(s[0]);
      UnitsTextConcat(Units(s[0]), Utf16(s[1..]));
    }
  }

  /** What a Python string can hold. */
  predicate Points(s: Text) {
    s == [] || (0 <= s[0] < 0x11_0000 && Points(s[1..]))
  }

  predicate SixteenBits(u: seq<CodeUnit>) {
    u == [] || (0 <= u[0] < 0x1_0000 && SixteenBits(u[1..]))
  }

  lemma {:induction false} SixteenBitsConcat(a: seq<CodeUnit>, b: seq<CodeUnit>)
    ensures SixteenBits(a + b) <==> SixteenBits(a) && SixteenBits(b)
  {
    if a == [] {
      assert a + b == b;
    } else {
      assert (a + b)[0] == a[0] && (a + b)[1..] == a[1..] + b;
      SixteenBitsConcat(a[1..], b);
    }
  }

  lemma {:induction false} UnitsOfPoints(s: Text)
    requires Points(s)
    ensures SixteenBits(Utf16(s))
  {
    if s != [] {
      UnitsOfPoints(s[1..]);
      var u := Units(s[0]);
      if |u| == 2 {
        assert u == [u[0]] + [u[1]];
        SixteenBitsConcat([u[0]], [u[1]]);
      }
      SixteenBitsConcat(u, Utf16(s[1..]));
    }
  }

  lemma {:induction false} CleanIsPoints(s: Text)
    requires SurrogateFree(s)
    ensures Points(s)
  {
    if s != [] {
      CleanIsPoints(s[1..]);
    }
  }

  /** What a reader makes of a written string: a high surrogate and a low one after it become one character. */
  function Joined(s: Text): Text {
    FromUtf16(Utf16(s))
  }

  // ---------- reading strings back ----------

  lemma HexDigitReads(d: int)
    requires 0 <= d < 16
    ensures HexValue(HexDigit(d)) == Some(d)
  {
  }

  lemma FourNibbles(u: CodeUnit)
    requires 0 <= u < 0x1_0000
    ensures u / 0x1000 % 16 * 0x1000 + u / 0x100 % 16 * 0x100 + u / 0x10 % 16 * 0x10 + u % 16 == u
  {
    var a, b := u / 0x10, u / 0x100;
    assert u == a * 0x10 + u % 16;
    assert a == a / 0x10 * 0x10 + a % 16 && a / 0x10 == b;
    assert b == b / 0x10 * 0x10 + b % 16 && b / 0x10 == u / 0x1000;
  }

  lemma HexReadsBack(u: CodeUnit, rest: Text)
    requires 0 <= u < 0x1_0000
    ensures ParseHex4((HexText(u) + rest)[2..]) == Got(u, rest)
  {
    var t := (HexText(u) + rest)[2..];
    var a, b, c, d := u / 0x1000 % 16, u / 0x100 % 16, u / 0x10 % 16, u % 16;
    assert t[0] == HexDigit(a) && t[1] == HexDigit(b) && t[2] == HexDigit(c) && t[3] == HexDigit(d) && t[4..] == rest;
    HexDigitReads(a);
    HexDigitReads(b);
    HexDigitReads(c);
    HexDigitReads(d);
    FourNibbles(u);
  }

  predicate High(u: CodeUnit) {
    0xD800 <= u < 0xDC00
  }

  predicate Low(u: CodeUnit) {
    0xDC00 <= u < 0xE000
  }

  /** Units other than a high surrogate stand for themselves. */
  lemma UnitReadsBack(u: CodeUnit, rest: Text)
    requires 0 <= u < 0x1_0000 && !High(u)
    ensures ParseChar(UnitText(u) + rest) == Got(u, rest)
    ensures UnitText(u) != [] && UnitText(u)[0] != QUOTE
  {
    hide ParseHex4;
    var t := UnitText(u) + rest;
    if |UnitText(u)| == 6 {
      HexReadsBack(u, rest);
      assert t[0] == BACKSLASH && t[1..][0] == 0x75 && t[1..][1..] == t[2..];
    } else if |UnitText(u)| == 2 {
      assert t[0] == BACKSLASH && t[1..][0] == UnitText(u)[1] && t[1..][1..] == rest;
    } else {
      assert t[0] == u && t[1..] == rest;
    }
  }

  /** A high surrogate is alone unless the escape of a low one follows. */
  lemma HighReadsBack(u: CodeUnit, rest: Text)
    requires High(u)
    ensures ParseChar(UnitText(u) + rest) ==
      if |rest| >= 2 && rest[0] == BACKSLASH && rest[1] == 0x75 && ParseHex4(rest[2..]).Fail? then Fail
      else if |rest| >= 2 && rest[0] == BACKSLASH && rest[1] == 0x75 && Low(ParseHex4(rest[2..]).value) then
        Got(0x1_0000 + (u - 0xD800) * 0x400 + (ParseHex4(rest[2..]).value - 0xDC00), ParseHex4(rest[2..]).rest)
      else Got(u, rest)
    ensures UnitText(u) != [] && UnitText(u)[0] != QUOTE
  {
    hide ParseHex4;
    var t := UnitText(u) + rest;
    HexReadsBack(u, rest);
    assert t[0] == BACKSLASH && t[1..][0] == 0x75 && t[1..][1..] == t[2..];
  }

  lemma LowIsEscaped(u: CodeUnit, rest: Text)
    requires Low(u)
    ensures var t := UnitText(u) + rest;
      |t| >= 2 && t[0] == BACKSLASH && t[1] == 0x75 && ParseHex4(t[2..]) == Got(u, rest)
  {
    HexReadsBack(u, rest);
  }

  /** What follows a unit that is no low surrogate is never taken for one. */
  lemma NoLowFollows(u: CodeUnit, rest: Text)
    requires 0 <= u < 0x1_0000 && !Low(u)
    ensures var t := UnitText(u) + rest;
      |t| >= 2 && t[0] == BACKSLASH && t[1] == 0x75 ==> ParseHex4(t[2..]) == Got(u, rest)
    ensures UnitText(u) != []
  {
    var t := UnitText(u) + rest;
    if |UnitText(u)| == 6 {
      HexReadsBack(u, rest);
    } else {
      assert t[0] == UnitText(u)[0];
      if |UnitText(u)| == 2 {
        assert t[1] == UnitText(u)[1];
      }
    }
  }

  /** A high surrogate and what is written after it. */
  lemma HighThenUnit(u: CodeUnit, w: CodeUnit, more: Text)
    requires High(u) && 0 <= w < 0x1_0000
    ensures ParseChar(UnitText(u) + (UnitText(w) + more)) ==
      if Low(w) then Got(0x1_0000 + (u - 0xD800) * 0x400 + (w - 0xDC00), more) else Got(u, UnitText(w) + more)
    ensures UnitText(u) != [] && UnitText(u)[0] != QUOTE
  {
    hide ParseChar, ParseHex4, UnitText;
    HighReadsBack(u, UnitText(w) + more);
    if Low(w) {
      LowIsEscaped(w, more);
    } else {
      NoLowFollows(w, more);
    }
  }

  lemma UnitsTextFirst(u: seq<CodeUnit>, after: Text)
    requires u != []
    ensures UnitsText(u) + after == UnitText(u[0]) + (UnitsText(u[1..]) + after)
  {
    hide UnitText;
    Regroup(UnitText(u[0]), UnitsText(u[1..]), after);
  }

  lemma NoUnits(after: Text)
    ensures UnitsText([]) + after == after
  {
  }

  /** One character of a written string. */
  lemma CharReadsBack(u: seq<CodeUnit>, after: Text)
    requires u != [] && SixteenBits(u) && after != [] && after[0] == QUOTE
    ensures var (c, more) := FirstPoint(u);
      && ParseChar(UnitsText(u) + after) == Got(c, UnitsText(more) + after)
      && UnitsText(u) != [] && UnitsText(u)[0] != QUOTE && SixteenBits(more)
  {
    hide ParseChar, ParseHex4, UnitText, UnitsText;
    UnitsTextFirst(u, after);
    FirstUnit(u);
    var rest := u[1..];
    if !High(u[0]) {
      UnitReadsBack(u[0], UnitsText(rest) + after);
    } else if |u| == 1 {
      NoUnits(after);
      HighReadsBack(u[0], after);
    } else {
      UnitsTextFirst(rest, after);
      assert rest[1..] == u[2..] && rest[0] == u[1];
      HighThenUnit(u[0], u[1], UnitsText(u[2..]) + after);
    }
  }

  lemma FirstUnit(u: seq<CodeUnit>)
    requires u != []
    ensures |UnitsText(u)| >= |UnitText(u[0])| >= 1 && UnitsText(u)[0] == UnitText(u[0])[0]
  {
  }

  lemma {:induction false} UnitsReadBack(u: seq<CodeUnit>, rest: Text)
    requires SixteenBits(u)
    ensures ParseString(UnitsText(u) + ([QUOTE] + rest)) == Got(FromUtf16(u), rest)
    decreases |u|
  {
    var after := [QUOTE] + rest;
    assert after[1..] == rest;
    if u == [] {
      assert UnitsText(u) + after == after;
    } else {
      hide ParseChar, UnitText, FirstPoint;
      CharReadsBack(u, after);
      UnitsReadBack(FirstPoint(u).1, rest);
    }
  }

  /** A written string is read with its surrogate pairs joined. */
  lemma BodyReadsBack(s: Text, rest: Text)
    requires Points(s)
    ensures ParseString(BodyText(s) + [QUOTE] + rest) == Got(Joined(s), rest)
  {
    BodyIsUnits(s);
    UnitsOfPoints(s);
    UnitsReadBack(Utf16(s), rest);
    Regroup(BodyText(s), [QUOTE], rest);
  }

  // ---------- numbers ----------

  /** At least two digits. */
  function Padded(n: nat): Text {
    if n < 10 then [ZERO] + Digits(n) else Digits(n)
  }

  function ReprTail(k: Option<int>): Text {
    if k.None? then [] else [LETTER_E, if k.value >= 0 then PLUS else MINUS] + Padded(Abs(k.value))
  }

  /** The layout of `repr`: a point always, and an exponent below 1e-4 and from 1e16 on. */
  function ReprLayout(digits: Text, e10: int): Text
    requires digits != []
  {
    var n := e10 + |digits|;
    if -4 < n <= 16 then
      if n >= |digits| then digits + Zeros(n - |digits|) + [POINT, ZERO]
      else if n > 0 then digits[..n] + [POINT] + digits[n..]
      else [ZERO, POINT] + Zeros(-n) + digits
    else
      (if |digits| == 1 then digits else [digits[0], POINT] + digits[1..]) + ReprTail(Some(n - 1))
  }

  /** `float.__repr__`. */
  function ReprText(d: Decimal): Text {
    var c := Canon(d);
    if c.m == 0 then [ZERO, POINT, ZERO] else SignText(c.m < 0) + ReprLayout(Digits(Abs(c.m)), c.e)
  }

  /** The same number, with the zero after the point when there is one. */
  function ReprBack(d: Decimal): Decimal {
    var c := Canon(d);
    if c.m == 0 then Decimal(0, -1)
    else if c.e >= 0 && c.e + |Digits(Abs(c.m))| <= 16 then Decimal(Scale(c.m, c.e + 1), -1)
    else c
  }

  lemma PaddedIsNat(n: nat)
    ensures AllDigits(Padded(n)) && NatOf(Padded(n)) == n
  {
    NatOfDigits(n);
    if n < 10 {
      hide NatOf, Digits;
      OneZero();
      DigitsConcat([ZERO], Digits(n));
      NatOfConcat([ZERO], Digits(n));
      NatOfZero([ZERO]);
      ScaleZero(|Digits(n)|);
    }
  }

  lemma ReprTailReadsBack(k: Option<int>, rest: Text)
    requires Terminated(rest)
    ensures ReadsAs(ReprTail(k), k, rest)
  {
    hide ReadDigits, NatOf, Padded, AllDigits;
    if k.None? {
      assert ReprTail(k) + rest == rest;
    } else {
      var digits := Padded(Abs(k.value));
      PaddedIsNat(Abs(k.value));
      DigitsReadBack(digits, rest);
      PaddedStarts(Abs(k.value));
      var t := ReprTail(k) + rest;
      assert t[0] == LETTER_E && t[1] == (if k.value >= 0 then PLUS else MINUS);
      assert t[2..] == digits + rest && t[2] == digits[0];
    }
  }

  lemma PaddedStarts(n: nat)
    ensures Padded(n) != [] && Digit(Padded(n)[0])
  {
    hide Digits;
  }

  /** The parts of a layout, and the number they denote. */
  lemma ReprParts(digits: Text, e10: int) returns (i: Text, f: Text, k: Option<int>)
    requires AllDigits(digits) && digits != [] && digits[0] != ZERO
    ensures ReprLayout(digits, e10) == i + (FractionText(f) + ReprTail(k))
    ensures WholePart(i) && AllDigits(f) && (f != [] || k.Some?)
    ensures if e10 >= 0 && e10 + |digits| <= 16 then
        k.None? && |f| == 1 && NatOf(i + f) == Scale(NatOf(digits), e10 + 1)
      else NatOf(i + f) == NatOf(digits) && (if k.Some? then k.value else 0) - |f| == e10
  {
    hide NatOf, Scale, ReprTail, Zeros, ReprLayout;
    var n := e10 + |digits|;
    k := None;
    NoTail();
    ReprLayouts(digits, e10);
    if -4 < n <= 16 && n >= |digits| {
      i, f := digits + Zeros(e10), [ZERO];
      WholeLayout(digits, e10);
      OneMoreZero(digits, e10);
    } else if 0 < n <= 16 {
      i, f := digits[..n], digits[n..];
      assert i + f == digits;
      DigitsConcat(i, f);
    } else if -4 < n <= 0 {
      i, f := [ZERO], Zeros(-n) + digits;
      LeadingZeros(-n, digits);
    } else {
      i, f, k := [digits[0]], digits[1..], Some(n - 1);
      assert i + f == digits;
      DigitsConcat(i, f);
    }
  }

  /** The layouts, cut where a reader cuts them. */
  lemma ReprLayouts(digits: Text, e10: int)
    requires digits != []
    ensures var n := e10 + |digits|;
      ReprLayout(digits, e10) ==
      if -4 < n <= 16 then
        if n >= |digits| then digits + Zeros(e10) + (FractionText([ZERO]) + [])
        else if n > 0 then digits[..n] + (FractionText(digits[n..]) + [])
        else [ZERO] + (FractionText(Zeros(-n) + digits) + [])
      else [digits[0]] + (FractionText(digits[1..]) + ReprTail(Some(n - 1)))
  {
    hide ReprTail, Zeros, FractionText;
    var n := e10 + |digits|;
    if n > 16 || n <= -4 {
      WideLayout(digits, ReprTail(Some(n - 1)));
    } else if n >= |digits| {
      PointThen([ZERO]);
    } else if n > 0 {
      PointThen(digits[n..]);
      Regroup(digits[..n], [POINT], digits[n..]);
    } else {
      PointThen(Zeros(-n) + digits);
      LeadingPoint(Zeros(-n), digits);
    }
  }

  lemma PointThen(f: Text)
    requires f != []
    ensures FractionText(f) + [] == [POINT] + f
  {
  }

  lemma LeadingPoint(zeros: Text, digits: Text)
    ensures [ZERO, POINT] + zeros + digits == [ZERO] + ([POINT] + (zeros + digits))
  {
  }

  lemma WideLayout(digits: Text, tail: Text)
    requires digits != []
    ensures (if |digits| == 1 then digits else [digits[0], POINT] + digits[1..]) + tail ==
      [digits[0]] + (FractionText(digits[1..]) + tail)
  {
    if |digits| == 1 {
      assert digits == [digits[0]] && digits[1..] == [];
    } else {
      assert [digits[0], POINT] + digits[1..] == [digits[0]] + ([POINT] + digits[1..]);
      Regroup([digits[0]], [POINT] + digits[1..], tail);
    }
  }

  lemma NoTail()
    ensures ReprTail(None) == []
  {
  }

  lemma OneMoreZero(digits: Text, k: nat)
    requires AllDigits(digits) && digits != [] && digits[0] != ZERO
    ensures NatOf(digits + Zeros(k) + [ZERO]) == Scale(NatOf(digits), k + 1)
  {
    ZerosAtEnd(k);
    Regroup(digits, Zeros(k), [ZERO]);
    WholeLayout(digits, k + 1);
  }

  lemma ReprReadsBack(negative: bool, digits: Text, e10: int, rest: Text)
    requires AllDigits(digits) && digits != [] && digits[0] != ZERO && Terminated(rest)
    ensures ParseNumber(SignText(negative) + ReprLayout(digits, e10) + rest) ==
      Got(if e10 >= 0 && e10 + |digits| <= 16 then Num(Decimal(Signed(negative, Scale(NatOf(digits), e10 + 1)), -1))
          else Num(Decimal(Signed(negative, NatOf(digits)), e10)), rest)
  {
    hide ParseNumber, ReprLayout, NatOf, Scale, WholePart, FractionText, ReprTail, ReadsAs;
    var i, f, k := ReprParts(digits, e10);
    DigitsOfNat(digits);
    ScalePositive(NatOf(digits), if e10 >= 0 then e10 + 1 else 0);
    ReprTailReadsBack(k, rest);
    PartsReadBack(negative, i, f, ReprTail(k), k, rest);
    Regroup(i, FractionText(f) + ReprTail(k), rest);
    Regroup(FractionText(f), ReprTail(k), rest);
    Regroup(SignText(negative), ReprLayout(digits, e10), rest);
  }

  lemma ReprStarts(digits: Text, e10: int)
    requires digits != [] && Digit(digits[0])
    ensures ReprLayout(digits, e10) != [] && Digit(ReprLayout(digits, e10)[0])
  {
    hide ReprTail;
  }

  lemma ZeroReadsBack(negative: bool, rest: Text)
    requires Terminated(rest)
    ensures ParseValue(SignText(negative) + [ZERO, POINT, ZERO] + rest) ==
      Got(if negative then MinusZero else Num(Decimal(0, -1)), rest)
  {
    hide ParseNumber, ParseValue, Scale, NatOf, AllDigits, ReadsAs, FractionText, ReprTail;
    var t: Text := [ZERO, POINT, ZERO];
    SignStarts(negative, t);
    NumberUnfold(SignText(negative) + t, rest);
    ReprTailReadsBack(None, rest);
    NoTail();
    OneZero();
    PartsReadBack(negative, [ZERO], [ZERO], [], None, rest);
    ZeroParts();
    assert [] + rest == rest;
    Regroup(SignText(negative), t, rest);
    Regroup([ZERO], [POINT, ZERO], rest);
  }

  lemma ZeroParts()
    ensures NatOf([ZERO] + [ZERO]) == 0 && FractionText([ZERO]) == [POINT, ZERO]
    ensures [ZERO] + [POINT, ZERO] == [ZERO, POINT, ZERO]
  {
    assert Zeros(2) == [ZERO] + Zeros(1) && Zeros(1) == [ZERO] + Zeros(0);
    assert [ZERO] + [ZERO] == Zeros(2);
    ZerosAreZero(2);
  }

  lemma OneZero()
    ensures WholePart([ZERO]) && AllDigits([ZERO])
  {
    assert [ZERO][1..] == [];
  }

  lemma FloatReadsBack(d: Decimal, rest: Text)
    requires Terminated(rest)
    ensures ParseValue(ReprText(d) + rest) == Got(Num(ReprBack(d)), rest)
  {
    hide ParseNumber, ReprLayout, Canon, Digits, ParseValue;
    var c := Canon(d);
    if c.m == 0 {
      ZeroReadsBack(false, rest);
      assert SignText(false) + [ZERO, POINT, ZERO] == [ZERO, POINT, ZERO];
    } else {
      var digits := Digits(Abs(c.m));
      NatOfDigits(Abs(c.m));
      LeadingDigit(Abs(c.m));
      ReprStarts(digits, c.e);
      SignStarts(c.m < 0, ReprLayout(digits, c.e));
      NumberUnfold(ReprText(d), rest);
      ReprReadsBack(c.m < 0, digits, c.e, rest);
      if c.e >= 0 {
        ScaleNegative(c.m, c.e + 1);
      }
    }
  }

  /** It is the same number. */
  lemma ReprDenotes(d: Decimal)
    ensures Canon(ReprBack(d)) == Canon(d)
  {
    hide Canon, Digits, Scale;
    var c := Canon(d);
    CanonIsFixed(d);
    ScaleByNone(c.m);
    if c.m != 0 && c.e >= 0 {
      ScaleByNone(Scale(c.m, c.e + 1));
      CanonIffSame(Decimal(Scale(c.m, c.e + 1), -1), c);
    } else if c.m == 0 {
      CanonOfZero(c);
      CanonOfZero(Decimal(0, -1));
    }
  }

  lemma CanonOfZero(d: Decimal)
    requires d.m == 0
    ensures Canon(d) == Decimal(0, 0)
  {
  }

  // ---------- values ----------

  function WordText(word: NonNumber): Text {
    match word
    case NaN => NAN_WORD
    case Infinity => INFINITY_WORD
    case MinusInfinity => [MINUS] + INFINITY_WORD
  }

  function Quoted(s: Text): Text {
    [QUOTE] + BodyText(s) + [QUOTE]
  }

  /** `json.dumps(v, separators=(",", ":"))`: members in insertion order. */
  function Dump(v: Json): Text
    decreases v
  {
    match v
    case Null => NULL_WORD
    case Bool(b) => if b then TRUE_WORD else FALSE_WORD
    case Int(n) => IntText(n)
    case Num(d) => ReprText(d)
    case MinusZero => [MINUS, ZERO, POINT, ZERO]
    case NotFinite(word) => WordText(word)
    case Str(s) => Quoted(s)
    case Arr(items) => [OPEN_BRACKET] + DumpItems(items) + [CLOSE_BRACKET]
    case Obj(members) => [OPEN_BRACE] + DumpMembers(members) + [CLOSE_BRACE]
  }

  function DumpItems(items: seq<Json>): Text
    decreases items
  {
    if items == [] then []
    else Dump(items[0]) + if |items| == 1 then [] else [COMMA] + DumpItems(items[1..])
  }

  function DumpMembers(members: seq<Member>): Text
    decreases members
  {
    if members == [] then []
    else
      Quoted(members[0].key) + [COLON] + Dump(members[0].value) +
      if |members| == 1 then [] else [COMMA] + DumpMembers(members[1..])
  }

  /** The value as a reader of its text gets it. */
  function ReadBack(v: Json): Json
    decreases v
  {
    match v
    case Num(d) => Num(ReprBack(d))
    case Str(s) => Str(Joined(s))
    case Arr(items) => Arr(ReadItems(items))
    case Obj(members) => Obj(ReadMembers(members, []))
    case _ => v
  }

  function ReadItems(items: seq<Json>): (r: seq<Json>)
    ensures |r| == |items| && forall i | 0 <= i < |r| :: r[i] == ReadBack(items[i])
    decreases items
  {
    if items == [] then [] else [ReadBack(items[0])] + ReadItems(items[1..])
  }

  /** Keys that become equal when surrogates are joined fall together. */
  function ReadMembers(members: seq<Member>, before: seq<Member>): seq<Member>
    decreases members
  {
    if members == [] then before
    else ReadMembers(members[1..], Put(before, Joined(members[0].key), ReadBack(members[0].value)))
  }

  /** `sys.int_info.default_max_str_digits`. */
  const MAX_INT_DIGITS: nat := 4300

  /** What Python can hold and `json.dumps` prints: dictionaries, strings of code points, and no integer of more digits
      than `str` prints. */
  predicate Dumpable(v: Json)
    decreases v
  {
    match v
    case Int(n) => |Digits(Abs(n))| <= MAX_INT_DIGITS
    case Str(s) => Points(s)
    case Arr(items) => AllDumpable(items)
    case Obj(members) => DistinctKeys(members) && MembersDumpable(members)
    case _ => true
  }

  predicate AllDumpable(items: seq<Json>)
    decreases items
  {
    items == [] || (Dumpable(items[0]) && AllDumpable(items[1..]))
  }

  predicate MembersDumpable(members: seq<Member>)
    decreases members
  {
    members == [] || (Points(members[0].key) && Dumpable(members[0].value) && MembersDumpable(members[1..]))
  }

  // ---------- reading a text back ----------

  lemma WordTextReadsBack(word: NonNumber, rest: Text)
    ensures ParseValue(WordText(word) + rest) == Got(NotFinite(word), rest)
  {
    hide ParseNumber, ParseString, ParseArray, ParseObject;
    var t := WordText(word) + rest;
    LiteralReadsBack(WordText(word), NotFinite(word), rest);
    assert t[0] == WordText(word)[0] && t[1] == WordText(word)[1];
    NoWhite(t);
  }

  lemma StringValueReadsBack(s: Text, rest: Text)
    requires Points(s)
    ensures ParseValue(Quoted(s) + rest) == Got(Str(Joined(s)), rest)
  {
    hide ParseNumber, ParseString, ParseArray, ParseObject, Joined, BodyText, Points;
    var tail := BodyText(s) + [QUOTE] + rest;
    BodyReadsBack(s, rest);
    Enclosed([QUOTE], BodyText(s), [QUOTE], rest);
    Prepended(QUOTE, tail);
    NoWhite([QUOTE] + tail);
  }

  lemma LeafReadsBack(v: Json, rest: Text)
    requires Dumpable(v) && !v.Arr? && !v.Obj? && Terminated(rest)
    ensures ParseValue(Dump(v) + rest) == Got(ReadBack(v), rest)
  {
    hide ParseValue, ParseNumber, IntText, ReprText, Points, Joined, Quoted, ReprBack;
    match v
    case Null => WordReadsBack(NULL_WORD, v, rest);
    case Bool(b) => WordReadsBack(if b then TRUE_WORD else FALSE_WORD, v, rest);
    case Int(n) =>
      IntStarts(n);
      NumberUnfold(IntText(n), rest);
      IntReadsBack(n, rest);
    case Num(d) => FloatReadsBack(d, rest);
    case MinusZero =>
      ZeroReadsBack(true, rest);
      assert SignText(true) + [ZERO, POINT, ZERO] == [MINUS, ZERO, POINT, ZERO];
    case NotFinite(word) => WordTextReadsBack(word, rest);
    case Str(s) => StringValueReadsBack(s, rest);
  }

  /** The first character settles what a value is. */
  lemma DumpStarts(v: Json)
    ensures var t := Dump(v); t != [] && !White(t[0]) && t[0] != CLOSE_BRACKET && t[0] != CLOSE_BRACE
  {
    hide DumpItems, DumpMembers, BodyText, ReprLayout, Digits;
    match v
    case Int(n) => SignStarts(n < 0, Digits(Abs(n)));
    case Num(d) =>
      var c := Canon(d);
      if c.m != 0 {
        ReprStarts(Digits(Abs(c.m)), c.e);
        SignStarts(c.m < 0, ReprLayout(Digits(Abs(c.m)), c.e));
      }
    case _ =>
  }

  /** A value's text, in any context that does not run on, is read as the value with its surrogates joined. */
  lemma {:induction false} DumpReadsBack(v: Json, rest: Text)
    requires Dumpable(v) && (v.Arr? || v.Obj? || Terminated(rest))
    ensures ParseValue(Dump(v) + rest) == Got(ReadBack(v), rest)
    decreases v
  {
    hide ParseValue, ParseArray, ParseObject, DumpItems, DumpMembers, ReadItems, ReadMembers;
    match v
    case Arr(items) =>
      ItemsTextReadsBack(items, rest);
      ArrayUnfold(DumpItems(items) + [CLOSE_BRACKET] + rest);
      Enclosed([OPEN_BRACKET], DumpItems(items), [CLOSE_BRACKET], rest);
    case Obj(members) =>
      MembersTextReadsBack(members, rest);
      ObjectUnfold(DumpMembers(members) + [CLOSE_BRACE] + rest);
      Enclosed([OPEN_BRACE], DumpMembers(members), [CLOSE_BRACE], rest);
    case _ => LeafReadsBack(v, rest);
  }

  lemma {:induction false} ItemsTextReadsBack(items: seq<Json>, rest: Text)
    requires AllDumpable(items)
    ensures ParseArray(DumpItems(items) + [CLOSE_BRACKET] + rest) == Got(Arr(ReadItems(items)), rest)
    decreases items, 1
  {
    hide ParseItems, Dump, ReadBack;
    var t := DumpItems(items) + [CLOSE_BRACKET] + rest;
    if items == [] {
      assert t == [CLOSE_BRACKET] + rest;
      Prepended(CLOSE_BRACKET, rest);
    } else {
      DumpStarts(items[0]);
      assert t[0] == Dump(items[0])[0];
      SomeItemsReadBack(items, rest);
    }
    NoWhite(t);
  }

  /** What follows the first item. */
  function AfterItem(items: seq<Json>, rest: Text): Text {
    if |items| <= 1 then [CLOSE_BRACKET] + rest else [COMMA] + (DumpItems(items[1..]) + [CLOSE_BRACKET] + rest)
  }

  lemma ItemsSplit(items: seq<Json>, rest: Text)
    requires items != []
    ensures DumpItems(items) + [CLOSE_BRACKET] + rest == Dump(items[0]) + AfterItem(items, rest)
  {
    hide Dump;
    if |items| > 1 {
      var first, others := Dump(items[0]), DumpItems(items[1..]);
      Regroup(first, [COMMA] + others, [CLOSE_BRACKET]);
      Regroup(first, [COMMA] + others + [CLOSE_BRACKET], rest);
      Regroup([COMMA], others, [CLOSE_BRACKET]);
      Regroup([COMMA], others + [CLOSE_BRACKET], rest);
    } else {
      Regroup(Dump(items[0]), [CLOSE_BRACKET], rest);
    }
  }

  lemma {:induction false} SomeItemsReadBack(items: seq<Json>, rest: Text)
    requires items != [] && AllDumpable(items)
    ensures ParseItems(DumpItems(items) + [CLOSE_BRACKET] + rest) == Got(ReadItems(items), rest)
    decreases items, 0
  {
    hide ParseValue, Dump, ReadBack, DumpItems;
    var after := AfterItem(items, rest);
    ItemsSplit(items, rest);
    DumpReadsBack(items[0], after);
    NoWhite(after);
    if |items| == 1 {
      Prepended(CLOSE_BRACKET, rest);
      assert ReadItems(items) == [ReadBack(items[0])];
      assert AfterItem(items, rest) == [CLOSE_BRACKET] + rest;
    } else {
      SomeItemsReadBack(items[1..], rest);
      Prepended(COMMA, DumpItems(items[1..]) + [CLOSE_BRACKET] + rest);
    }
  }

  lemma {:induction false} MembersTextReadsBack(members: seq<Member>, rest: Text)
    requires MembersDumpable(members)
    ensures ParseObject(DumpMembers(members) + [CLOSE_BRACE] + rest) == Got(Obj(ReadMembers(members, [])), rest)
    decreases members, 1
  {
    hide ParseMembers, Dump, ReadBack, BodyText;
    var t := DumpMembers(members) + [CLOSE_BRACE] + rest;
    if members == [] {
      assert t == [CLOSE_BRACE] + rest;
      Prepended(CLOSE_BRACE, rest);
    } else {
      assert t[0] == QUOTE;
      SomeMembersReadBack(members, [], rest);
    }
    NoWhite(t);
  }

  /** What follows the first member's value. */
  function AfterValue(members: seq<Member>, rest: Text): Text {
    if |members| <= 1 then [CLOSE_BRACE] + rest else [COMMA] + (DumpMembers(members[1..]) + [CLOSE_BRACE] + rest)
  }

  lemma MembersTextSplit(members: seq<Member>, rest: Text)
    requires members != []
    ensures DumpMembers(members) + [CLOSE_BRACE] + rest ==
      [QUOTE] + (BodyText(members[0].key) + [QUOTE] + ([COLON] + (Dump(members[0].value) + AfterValue(members, rest))))
  {
    hide Dump, BodyText;
    var head, value := Quoted(members[0].key) + [COLON], Dump(members[0].value);
    var after := AfterValue(members, rest);
    if |members| > 1 {
      var others := DumpMembers(members[1..]);
      Regroup(head + value, [COMMA] + others, [CLOSE_BRACE]);
      Regroup(head + value, [COMMA] + others + [CLOSE_BRACE], rest);
      Regroup([COMMA], others, [CLOSE_BRACE]);
      Regroup([COMMA], others + [CLOSE_BRACE], rest);
    } else {
      Regroup(head + value, [CLOSE_BRACE], rest);
    }
    Regroup(head, value, after);
    Regroup(Quoted(members[0].key), [COLON], value + after);
    Enclosed([QUOTE], BodyText(members[0].key), [QUOTE], [COLON] + (value + after));
  }

  lemma {:induction false} SomeMembersReadBack(members: seq<Member>, before: seq<Member>, rest: Text)
    requires members != [] && MembersDumpable(members)
    ensures ParseMembers(DumpMembers(members) + [CLOSE_BRACE] + rest, before) == Got(ReadMembers(members, before), rest)
    decreases members, 0
  {
    hide ParseValue, ParseMembers, ParseString, Dump, ReadBack, DumpMembers, BodyText, Put, Joined, Points;
    var m := members[0];
    var key, v := Joined(m.key), ReadBack(m.value);
    var after := AfterValue(members, rest);
    var value := Dump(m.value) + after;
    MembersTextSplit(members, rest);
    DumpReadsBack(m.value, after);
    BodyReadsBack(m.key, [COLON] + value);
    MemberUnfold(key, BodyText(m.key) + [QUOTE] + ([COLON] + value), value, v, after, before);
    if |members| == 1 {
      Prepended(CLOSE_BRACE, rest);
      assert members[1..] == [];
    } else {
      SomeMembersReadBack(members[1..], Put(before, key, v), rest);
      Prepended(COMMA, DumpMembers(members[1..]) + [CLOSE_BRACE] + rest);
    }
  }

  // ---------- the text as bytes ----------

  /** Printable ASCII. */
  predicate Ascii(t: Text) {
    t == [] || (0x20 <= t[0] <= 0x7E && Ascii(t[1..]))
  }

  lemma {:induction false} AsciiConcat(a: Text, b: Text)
    ensures Ascii(a + b) <==> Ascii(a) && Ascii(b)
  {
    if a == [] {
      assert a + b == b;
    } else {
      assert (a + b)[0] == a[0] && (a + b)[1..] == a[1..] + b;
      AsciiConcat(a[1..], b);
    }
  }

  lemma {:induction false} AsciiIffAll(t: Text)
    ensures Ascii(t) <==> forall i | 0 <= i < |t| :: 0x20 <= t[i] <= 0x7E
  {
    if t != [] {
      AsciiIffAll(t[1..]);
      assert forall i | 0 < i < |t| :: t[i] == t[1..][i - 1];
    }
  }

  lemma HexTextIsAscii(u: CodeUnit)
    ensures Ascii(HexText(u))
  {
    hide Ascii;
    AsciiIffAll(HexText(u));
  }

  lemma UnitIsAscii(u: CodeUnit)
    ensures Ascii(UnitText(u))
  {
    hide Ascii, HexText;
    HexTextIsAscii(u);
    AsciiIffAll(UnitText(u));
    AsciiIffAll(HexText(u));
  }

  lemma PointIsAscii(c: CodePoint)
    ensures Ascii(PointText(c))
  {
    hide Ascii, UnitText;
    if c < 0x1_0000 {
      UnitIsAscii(c);
    } else {
      UnitIsAscii(Units(c)[0]);
      UnitIsAscii(Units(c)[1]);
      AsciiConcat(UnitText(Units(c)[0]), UnitText(Units(c)[1]));
    }
  }

  lemma {:induction false} BodyIsAscii(s: Text)
    ensures Ascii(BodyText(s))
  {
    hide PointText;
    if s != [] {
      BodyIsAscii(s[1..]);
      PointIsAscii(s[0]);
      AsciiConcat(PointText(s[0]), BodyText(s[1..]));
    }
  }

  lemma QuotedIsAscii(s: Text)
    ensures Ascii(Quoted(s))
  {
    BodyIsAscii(s);
    AsciiIffAll([QUOTE]);
    AsciiConcat([QUOTE], BodyText(s));
    AsciiConcat([QUOTE] + BodyText(s), [QUOTE]);
  }

  lemma {:induction false} DigitsAreAscii(t: Text)
    requires AllDigits(t)
    ensures Ascii(t)
  {
    if t != [] {
      DigitsAreAscii(t[1..]);
    }
  }

  lemma IntIsAscii(n: int)
    ensures Ascii(IntText(n))
  {
    NatOfDigits(Abs(n));
    DigitsAreAscii(Digits(Abs(n)));
    AsciiIffAll(SignText(n < 0));
    AsciiConcat(SignText(n < 0), Digits(Abs(n)));
  }

  lemma ReprTailIsAscii(k: Option<int>)
    ensures Ascii(ReprTail(k))
  {
    hide Padded, NatOf, AllDigits;
    if k.Some? {
      var head := [LETTER_E, if k.value >= 0 then PLUS else MINUS];
      PaddedIsNat(Abs(k.value));
      DigitsAreAscii(Padded(Abs(k.value)));
      AsciiIffAll(head);
      AsciiConcat(head, Padded(Abs(k.value)));
    }
  }

  lemma ReprIsAscii(d: Decimal)
    ensures Ascii(ReprText(d))
  {
    hide Canon, Digits, ReprLayout, NatOf, Scale, ReprTail, Ascii, WholePart;
    var c := Canon(d);
    if c.m == 0 {
      AsciiIffAll([ZERO, POINT, ZERO]);
    } else {
      var digits := Digits(Abs(c.m));
      NatOfDigits(Abs(c.m));
      LeadingDigit(Abs(c.m));
      var i, f, k := ReprParts(digits, c.e);
      DigitsAreAscii(i) by { assert AllDigits(i) by { WholeIsDigits(i); } }
      DigitsAreAscii(f);
      AsciiIffAll([POINT]);
      AsciiIffAll([]);
      AsciiConcat([POINT], f);
      ReprTailIsAscii(k);
      AsciiConcat(FractionText(f), ReprTail(k));
      AsciiConcat(i, FractionText(f) + ReprTail(k));
      AsciiIffAll(SignText(c.m < 0));
      AsciiConcat(SignText(c.m < 0), ReprLayout(digits, c.e));
    }
  }

  lemma WholeIsDigits(i: Text)
    requires WholePart(i)
    ensures AllDigits(i)
  {
  }

  lemma LeafIsAscii(v: Json)
    requires !v.Arr? && !v.Obj?
    ensures Ascii(Dump(v))
  {
    hide Ascii, IntText, ReprText, Quoted;
    match v
    case Null => AsciiIffAll(NULL_WORD);
    case Bool(b) => AsciiIffAll(if b then TRUE_WORD else FALSE_WORD);
    case Int(n) => IntIsAscii(n);
    case Num(d) => ReprIsAscii(d);
    case MinusZero => AsciiIffAll([MINUS, ZERO, POINT, ZERO]);
    case NotFinite(word) => AsciiIffAll(WordText(word));
    case Str(s) => QuotedIsAscii(s);
  }

  lemma EncloseAscii(open: CodePoint, body: Text, close: CodePoint)
    requires 0x20 <= open <= 0x7E && 0x20 <= close <= 0x7E && Ascii(body)
    ensures Ascii([open] + body + [close])
  {
    AsciiIffAll([open]);
    AsciiIffAll([close]);
    AsciiConcat([open], body);
    AsciiConcat([open] + body, [close]);
  }

  /** The text holds printable ASCII and nothing else, so no newline. */
  lemma {:induction false} DumpIsAscii(v: Json)
    ensures Ascii(Dump(v))
    decreases v
  {
    hide Ascii, DumpItems, DumpMembers;
    match v
    case Arr(items) =>
      ItemsAreAscii(items);
      EncloseAscii(OPEN_BRACKET, DumpItems(items), CLOSE_BRACKET);
    case Obj(members) =>
      MembersAreAscii(members);
      EncloseAscii(OPEN_BRACE, DumpMembers(members), CLOSE_BRACE);
    case _ => LeafIsAscii(v);
  }

  lemma {:induction false} ItemsAreAscii(items: seq<Json>)
    ensures Ascii(DumpItems(items))
    decreases items
  {
    hide Ascii, Dump;
    AsciiIffAll([]);
    if items != [] {
      DumpIsAscii(items[0]);
      AsciiConcat(Dump(items[0]), []);
      if |items| > 1 {
        ItemsAreAscii(items[1..]);
        AsciiIffAll([COMMA]);
        AsciiConcat([COMMA], DumpItems(items[1..]));
        AsciiConcat(Dump(items[0]), [COMMA] + DumpItems(items[1..]));
      }
    }
  }

  lemma {:induction false} MembersAreAscii(members: seq<Member>)
    ensures Ascii(DumpMembers(members))
    decreases members
  {
    hide Ascii, Dump, Quoted;
    AsciiIffAll([]);
    if members != [] {
      var head := Quoted(members[0].key) + [COLON];
      QuotedIsAscii(members[0].key);
      AsciiIffAll([COLON]);
      AsciiConcat(Quoted(members[0].key), [COLON]);
      DumpIsAscii(members[0].value);
      AsciiConcat(head, Dump(members[0].value));
      AsciiConcat(head + Dump(members[0].value), []);
      if |members| > 1 {
        MembersAreAscii(members[1..]);
        AsciiIffAll([COMMA]);
        AsciiConcat([COMMA], DumpMembers(members[1..]));
        AsciiConcat(head + Dump(members[0].value), [COMMA] + DumpMembers(members[1..]));
      }
    }
  }

  /** ASCII characters are their own bytes. */
  predicate OneByteEach(t: Text) {
    t == [] || (0 <= t[0] < 0x80 && OneByteEach(t[1..]))
  }

  lemma {:induction false} OneByteText(t: Text)
    requires OneByteEach(t)
    ensures SurrogateFree(t) && Utf8(t) == t && FromUtf8(t) == Some(t)
  {
    if t != [] {
      OneByteText(t[1..]);
      assert t == [t[0]] + t[1..];
    }
  }

  lemma {:induction false} AsciiIsOneByte(t: Text, end: Text)
    requires Ascii(t) && OneByteEach(end)
    ensures OneByteEach(t + end)
  {
    if t == [] {
      assert t + end == end;
    } else {
      assert (t + end)[0] == t[0] && (t + end)[1..] == t[1..] + end;
      AsciiIsOneByte(t[1..], end);
    }
  }

  lemma AsciiText(t: Text)
    requires Ascii(t)
    ensures SurrogateFree(t) && Utf8(t) == t && FromUtf8(t) == Some(t)
  {
    AsciiIsOneByte(t, []);
    assert t + [] == t;
    OneByteText(t);
  }

  /** `json.dumps(...).encode("utf-8")`. */
  function Encoded(v: Json): (b: Bytes)
    ensures b == Dump(v)
  {
    DumpIsAscii(v);
    AsciiText(Dump(v));
    Utf8(Dump(v))
  }

  /** A written object is read back, with or without a newline after it. */
  lemma EncodedReadsBack(v: Json)
    requires Dumpable(v) && v.Obj?
    ensures LoadsBytes(Encoded(v)) == Some(ReadBack(v))
    ensures LoadsBytes(Encoded(v) + [0x0A]) == Some(ReadBack(v))
  {
    hide Dump, ReadBack, ParseValue, Dumpable;
    var t := Dump(v);
    DumpIsAscii(v);
    AsciiText(t);
    AsciiIsOneByte(t, [0x0A]);
    OneByteText(t + [0x0A]);
    DumpReadsBack(v, []);
    DumpReadsBack(v, [0x0A]);
    assert t + [] == t;
    assert SkipWhite([0x0A]) == SkipWhite([0x0A][1..]) && [0x0A][1..] == [];
  }

  // ---------- what reading back changes ----------

  lemma CleanIsJoined(s: Text)
    requires SurrogateFree(s)
    ensures Joined(s) == s
  {
    Utf16RoundTrip(s);
  }

  /** The members with their values read back. */
  function Mapped(members: seq<Member>): (r: seq<Member>)
    ensures |r| == |members|
    ensures forall i | 0 <= i < |r| :: r[i] == Keyed(members[i].key, ReadBack(members[i].value))
  {
    if members == [] then [] else [Keyed(members[0].key, ReadBack(members[0].value))] + Mapped(members[1..])
  }

  /** A dictionary whose keys hold no surrogates keeps its members. */
  lemma {:induction false} CleanMembersReadBack(members: seq<Member>, before: seq<Member>)
    requires DistinctKeys(members) && CleanKeys(members)
    requires forall i | 0 <= i < |members| :: !HasKey(before, members[i].key)
    ensures ReadMembers(members, before) == before + Mapped(members)
    decreases members
  {
    hide ReadBack, Joined;
    if members == [] {
      assert before + Mapped(members) == before;
    } else {
      var m, v := members[0], ReadBack(members[0].value);
      CleanIsJoined(m.key);
      PutNew(before, m.key, v);
      MembersTail(members, before, v);
      CleanMembersReadBack(members[1..], before + [Keyed(m.key, v)]);
      Regroup(before, [Keyed(m.key, v)], Mapped(members[1..]));
    }
  }

  lemma CleanObjectReadsBack(members: seq<Member>)
    requires DistinctKeys(members) && CleanKeys(members)
    ensures ReadBack(Obj(members)) == Obj(Mapped(members))
  {
    hide ReadMembers, Mapped;
    CleanMembersReadBack(members, []);
    assert [] + Mapped(members) == Mapped(members);
  }

  lemma SameNumberItself(v: Json)
    ensures NumberOf(v).Some? ==> SameNumber(NumberOf(v).value, NumberOf(v).value)
  {
  }

  /** What can be canonicalized is the same value when it is read back. */
  lemma {:induction false} ReadBackIsSame(v: Json)
    requires WellFormed(v) && Canonicalizable(v)
    ensures SameValue(v, ReadBack(v)) && WellFormed(ReadBack(v)) && Canonicalizable(ReadBack(v))
    decreases v
  {
    match v
    case Num(d) =>
      hide ReprBack, SameNumber;
      ReprDenotes(d);
      CanonIffSame(d, ReprBack(d));
    case Str(s) => CleanIsJoined(s);
    case Arr(items) =>
      forall i | 0 <= i < |items|
        ensures SameValue(items[i], ReadBack(items[i])) && WellFormed(ReadBack(items[i]))
        ensures Canonicalizable(ReadBack(items[i]))
      {
        ReadBackIsSame(items[i]);
      }
    case Obj(members) =>
      KeysOfPrintable(members);
      forall i | 0 <= i < |members|
        ensures SameValue(members[i].value, ReadBack(members[i].value)) && WellFormed(ReadBack(members[i].value))
        ensures Printable(Keyed(members[i].key, ReadBack(members[i].value)))
      {
        assert Printable(members[i]);
        ReadBackIsSame(members[i].value);
      }
      CleanObjectReadsBack(members);
      SameMembers(members);
    case _ => SameNumberItself(v);
  }

  lemma SameMembers(members: seq<Member>)
    requires forall i | 0 <= i < |members| :: SameValue(members[i].value, ReadBack(members[i].value))
    ensures SameValue(Obj(members), Obj(Mapped(members)))
  {
    hide Mapped;
    var b := Mapped(members);
    var same := (i: nat, j: nat) =>
      i < |members| && j < |b| && members[i].key == b[j].key && SameValue(members[i].value, b[j].value);
    forall i: nat | i < |members| ensures HasRight(i, |b|, same) && HasLeft(i, |members|, same) {
      assert same(i, i);
    }
    assert TwoWay(|members|, |b|, same);
  }

  /** So it has the same canonical bytes. */
  lemma ReadBackPrintsAlike(v: Json)
    requires WellFormed(v) && CanonicalBytes(v).Ok?
    ensures CanonicalBytes(ReadBack(v)) == CanonicalBytes(v) && WellFormed(ReadBack(v))
  {
    hide WellFormed, Canonicalizable, SameValue, ReadBack, CanonicalBytes;
    BytesIffCanonicalizable(v);
    BytesIffCanonicalizable(ReadBack(v));
    ReadBackIsSame(v);
    CanonicalBytesIdentify(v, ReadBack(v));
  }

  lemma BytesIffCanonicalizable(v: Json)
    ensures CanonicalBytes(v).Ok? <==> Canonicalizable(v)
  {
    JcsSucceedsIff(v);
  }
}

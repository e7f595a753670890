/** Floats: from the parts that `repr` gives of one to the text printed for it, and from that text back to the
    number. */
module JcsNumber {
  import opened Prelude
  import opened Texts
  import opened Decimals
  import opened Json
  import opened Jcs
  import opened JsonParser

  /** The parts `repr` gives of a finite float, `[-]intPart.fracPart e exponent`; NaN and infinity have none. */
  datatype Float = Special | Finite(negative: bool, intPart: Text, fracPart: Text, exponent: int)

  datatype NumberError = NoJsonRepresentation

  /** What `repr` promises about its parts. */
  predicate FromRepr(f: Float) {
    f.Finite? ==> f.intPart != [] && AllDigits(f.intPart) && AllDigits(f.fracPart)
  }

  function Signed(negative: bool, m: int): int {
    if negative then -m else m
  }

  // ---------- reading digits ----------

  lemma ReadOne(d: CodePoint, acc: nat, rest: Text)
    requires Digit(d)
    ensures ReadDigits([d] + rest, acc) == ReadDigits(rest, 10 * acc + (d - 0x30))
  {
    assert ([d] + rest)[1..] == rest;
  }

  predicate NoDigitFirst(rest: Text) {
    rest == [] || !Digit(rest[0])
  }

  /** A run of digits is read onto the number so far. */
  lemma {:induction false} DigitsReadOn(t: Text, acc: nat, rest: Text)
    requires AllDigits(t) && NoDigitFirst(rest)
    ensures Scale(acc, |t|) + NatOf(t) >= 0 && ReadDigits(t + rest, acc) == (Scale(acc, |t|) + NatOf(t), rest)
    decreases |t|
  {
    if t == [] {
      assert t + rest == rest;
    } else {
      var d, tail := t[0], t[1..];
      assert t == [d] + tail;
      Regroup([d], tail, rest);
      ReadOne(d, acc, tail + rest);
      DigitsReadOn(tail, 10 * acc + (d - 0x30), rest);
      NatOfConcat([d], tail);
      ScaleAdds(10 * acc, d - 0x30, |tail|);
      ScaleTen(acc, |tail|);
    }
  }

  lemma {:induction false} ScaleAdds(a: int, b: int, k: nat)
    ensures Scale(a + b, k) == Scale(a, k) + Scale(b, k)
  {
    if k > 0 {
      ScaleAdds(a, b, k - 1);
    }
  }

  lemma DigitsReadBack(t: Text, rest: Text)
    requires AllDigits(t) && NoDigitFirst(rest)
    ensures NatOf(t) >= 0 && ReadDigits(t + rest, 0) == (NatOf(t), rest)
  {
    DigitsReadOn(t, 0, rest);
    ScaleZero(|t|);
  }

  /** Digits that do not begin with a zero, or a zero alone. */
  predicate WholePart(i: Text) {
    AllDigits(i) && i != [] && (i[0] == ZERO ==> |i| == 1)
  }

  lemma NatReadsBack(i: Text, rest: Text)
    requires WholePart(i) && NoDigitFirst(rest)
    ensures NatOf(i) >= 0 && ParseNat(i + rest) == Got(NatOf(i), rest)
  {
    hide ReadDigits, NatOf;
    DigitsReadBack(i, rest);
    var d, tail := i[0], i[1..];
    assert i == [d] + tail;
    Regroup([d], tail, rest);
    ReadOne(d, 0, tail + rest);
    assert (i + rest)[0] == d && (i + rest)[1..] == tail + rest;
    if d == ZERO {
      assert tail == [] && tail + rest == rest;
      NatOfZero(i);
    }
  }

  lemma NatOfZero(i: Text)
    requires |i| == 1 && i[0] == ZERO
    ensures NatOf(i) == 0
  {
  }

  // ---------- reading a number ----------

  /** After a number the canonical text has a separator, a closing bracket, or ends. */
  predicate Terminated(rest: Text) {
    rest == [] || rest[0] == COMMA || rest[0] == CLOSE_BRACKET || rest[0] == CLOSE_BRACE
  }

  function FractionText(f: Text): Text {
    if f == [] then [] else [POINT] + f
  }

  function TailText(k: Option<int>): Text {
    if k.None? then [] else ExponentText(k.value)
  }

  lemma FractionReadsBack(n: nat, f: Text, tail: Text)
    requires AllDigits(f) && NoDigitFirst(tail) && (tail != [] ==> tail[0] != POINT)
    ensures Scale(n, |f|) + NatOf(f) >= 0
    ensures ReadFraction(FractionText(f) + tail, n) == (Scale(n, |f|) + NatOf(f), |f|, tail)
  {
    hide ReadDigits, NatOf;
    DigitsReadOn(f, n, tail);
    if f == [] {
      assert FractionText(f) + tail == tail && f + tail == tail;
      NatOfNothing();
    } else {
      Regroup([POINT], f, tail);
      var t := FractionText(f) + tail;
      assert t[0] == POINT && t[1..] == f + tail && t[1] == f[0];
    }
  }

  lemma NatOfNothing()
    ensures NatOf([]) == 0
  {
  }

  lemma ExponentReadsBack(k: Option<int>, rest: Text)
    requires Terminated(rest)
    ensures ReadExponent(TailText(k) + rest) == (k, rest)
    ensures NoDigitFirst(TailText(k) + rest) && (TailText(k) + rest != [] ==> (TailText(k) + rest)[0] != POINT)
  {
    if k.None? {
      assert TailText(k) + rest == rest;
    } else {
      hide ReadDigits, NatOf, Digits;
      var a := Abs(k.value);
      NatOfDigits(a);
      DigitsReadBack(Digits(a), rest);
      var t := TailText(k) + rest;
      assert t[0] == LETTER_E && t[1] == (if k.value >= 0 then PLUS else MINUS);
      assert t[2..] == Digits(a) + rest;
    }
  }

  /** The value of a number with these parts: a float when it has a fraction or an exponent. */
  function ValueOf(negative: bool, i: Text, f: Text, k: Option<int>): Json {
    if f == [] && k.None? then Int(Signed(negative, NatOf(i)))
    else FloatOf(negative, NatOf(i + f), (if k.Some? then k.value else 0) - |f|)
  }

  /** A text that a reader takes as the exponent `k` before `rest`. */
  predicate ReadsAs(x: Text, k: Option<int>, rest: Text) {
    ReadExponent(x + rest) == (k, rest) && NoDigitFirst(x + rest) && (x + rest != [] ==> (x + rest)[0] != POINT)
  }

  lemma TailReadsBack(negative: bool, n: nat, f: Text, x: Text, k: Option<int>, rest: Text)
    requires AllDigits(f) && ReadsAs(x, k, rest)
    ensures ParseTail(negative, n, FractionText(f) + (x + rest)) ==
      (if f == [] && k.None? then Int(Signed(negative, n))
       else FloatOf(negative, Scale(n, |f|) + NatOf(f), (if k.Some? then k.value else 0) - |f|),
       rest)
  {
    hide ReadFraction, ReadExponent, ReadDigits, NatOf, FractionText, FloatOf;
    FractionReadsBack(n, f, x + rest);
    if f == [] {
      NatOfNothing();
      ScaleByNone(n);
    }
  }

  /** A number with these parts, whatever way its exponent is written. */
  lemma PartsReadBack(negative: bool, i: Text, f: Text, x: Text, k: Option<int>, rest: Text)
    requires WholePart(i) && AllDigits(f) && ReadsAs(x, k, rest)
    ensures ParseNumber(SignText(negative) + (i + (FractionText(f) + (x + rest)))) ==
      Got(ValueOf(negative, i, f, k), rest)
  {
    hide ParseNat, ParseTail, NatOf, FloatOf;
    var tail := FractionText(f) + (x + rest);
    var t := SignText(negative) + (i + tail);
    TailStarts(f, x + rest);
    NatReadsBack(i, tail);
    TailReadsBack(negative, NatOf(i), f, x, k, rest);
    NatOfConcat(i, f);
    if negative {
      assert t[0] == MINUS && t[1..] == i + tail;
    } else {
      assert t == i + tail && t[0] == i[0];
    }
  }

  lemma TailStarts(f: Text, tail: Text)
    requires NoDigitFirst(tail)
    ensures NoDigitFirst(FractionText(f) + tail)
  {
    if f == [] {
      assert FractionText(f) + tail == tail;
    }
  }

  lemma NumberReadsBack(negative: bool, i: Text, f: Text, k: Option<int>, rest: Text)
    requires WholePart(i) && AllDigits(f) && Terminated(rest)
    ensures ParseNumber(SignText(negative) + (i + (FractionText(f) + (TailText(k) + rest)))) ==
      Got(ValueOf(negative, i, f, k), rest)
  {
    hide ParseNumber, ReadExponent, ValueOf, TailText;
    ExponentReadsBack(k, rest);
    PartsReadBack(negative, i, f, TailText(k), k, rest);
  }

  lemma IntReadsBack(n: int, rest: Text)
    requires Terminated(rest)
    ensures ParseNumber(IntText(n) + rest) == Got(Int(n), rest)
  {
    hide ParseNumber;
    var i := Digits(Abs(n));
    NatOfDigits(Abs(n));
    LeadingDigit(Abs(n));
    NumberReadsBack(n < 0, i, [], None, rest);
    assert i + (FractionText([]) + (TailText(None) + rest)) == i + rest;
    Regroup(SignText(n < 0), i, rest);
  }

  // ---------- reading a layout ----------

  /** The parts of a layout, and that they denote the digits times the power of ten. */
  lemma LayoutParts(digits: Text, e10: int) returns (i: Text, f: Text, k: Option<int>)
    requires AllDigits(digits) && digits != [] && digits[0] != ZERO
    ensures Layout(digits, e10) == i + (FractionText(f) + TailText(k))
    ensures WholePart(i) && AllDigits(f)
    ensures if e10 >= 0 && e10 + |digits| <= 21 then f == [] && k.None? && NatOf(i) == Scale(NatOf(digits), e10)
      else (f != [] || k.Some?) && NatOf(i + f) == NatOf(digits) && (if k.Some? then k.value else 0) - |f| == e10
  {
    hide NatOf, Scale, ExponentText;
    var n := e10 + |digits|;
    k := None;
    if 0 < n <= 21 && n >= |digits| {
      i, f := digits + Zeros(e10), [];
      WholeLayout(digits, e10);
      assert i + (FractionText(f) + TailText(k)) == i;
    } else if 0 < n <= 21 {
      i, f := digits[..n], digits[n..];
      assert i + f == digits;
      DigitsConcat(i, f);
    } else if -6 < n <= 0 {
      i, f := [ZERO], Zeros(-n) + digits;
      LeadingZeros(-n, digits);
      assert [ZERO, POINT] + Zeros(-n) + digits == [ZERO] + ([POINT] + f);
    } else {
      i, f, k := [digits[0]], digits[1..], Some(n - 1);
      assert i + f == digits;
      DigitsConcat(i, f);
      if |digits| == 1 {
        assert i == digits && f == [];
      } else {
        assert [digits[0], POINT] + digits[1..] + ExponentText(n - 1) == i + ([POINT] + f + ExponentText(n - 1));
      }
    }
  }

  lemma WholeLayout(digits: Text, k: nat)
    requires AllDigits(digits) && digits != [] && digits[0] != ZERO
    ensures WholePart(digits + Zeros(k)) && NatOf(digits + Zeros(k)) == Scale(NatOf(digits), k)
  {
    ZerosAreZero(k);
    DigitsConcat(digits, Zeros(k));
    NatOfConcat(digits, Zeros(k));
  }

  lemma LeadingZeros(k: nat, digits: Text)
    requires AllDigits(digits) && digits != []
    ensures AllDigits(Zeros(k) + digits) && WholePart([ZERO])
    ensures NatOf([ZERO] + (Zeros(k) + digits)) == NatOf(digits)
  {
    ZerosAreZero(k);
    ZerosAreZero(k + 1);
    DigitsConcat(Zeros(k), digits);
    NatOfConcat(Zeros(k + 1), digits);
    ScaleZero(|digits|);
    assert [ZERO] + (Zeros(k) + digits) == Zeros(k + 1) + digits;
  }

  /** Every layout, read in any context, is the number digits * 10^e10. */
  lemma LayoutDenotes(negative: bool, digits: Text, e10: int, rest: Text)
    requires AllDigits(digits) && digits != [] && digits[0] != ZERO && Terminated(rest)
    ensures ParseNumber(SignText(negative) + Layout(digits, e10) + rest) ==
      Got(if e10 >= 0 && e10 + |digits| <= 21 then Int(Signed(negative, Scale(NatOf(digits), e10)))
          else Num(Decimal(Signed(negative, NatOf(digits)), e10)), rest)
  {
    hide ParseNumber, Layout, NatOf, Scale, WholePart, FractionText, TailText;
    var i, f, k := LayoutParts(digits, e10);
    DigitsOfNat(digits);
    NumberReadsBack(negative, i, f, k, rest);
    Regroup(i, FractionText(f) + TailText(k), rest);
    Regroup(FractionText(f), TailText(k), rest);
    Regroup(SignText(negative), Layout(digits, e10), rest);
  }

  // ---------- a float as it is read again ----------

  /** What a JSON reader makes of a printed float: an `int` when it was laid out as one. */
  function Reread(d: Decimal): Json {
    var c := Canon(d);
    if c.m == 0 then Int(0)
    else if c.e >= 0 && c.e + |Digits(Abs(c.m))| <= 21 then Int(Scale(c.m, c.e))
    else Num(c)
  }

  lemma NumReadsBack(d: Decimal, rest: Text)
    requires Terminated(rest)
    ensures ParseNumber(NumText(d) + rest) == Got(Reread(d), rest)
  {
    hide ParseNumber, Layout, Canon, Digits;
    var c := Canon(d);
    if c.m == 0 {
      IntReadsBack(0, rest);
      ZeroText();
    } else {
      var digits := Digits(Abs(c.m));
      NatOfDigits(Abs(c.m));
      LeadingDigit(Abs(c.m));
      LayoutDenotes(c.m < 0, digits, c.e, rest);
      if c.e >= 0 {
        ScaleNegative(c.m, c.e);
      }
    }
  }

  lemma ZeroText()
    ensures IntText(0) == [ZERO]
  {
  }

  /** It is the same number. */
  lemma RereadDenotes(d: Decimal)
    ensures NumberOf(Reread(d)).Some? && Canon(NumberOf(Reread(d)).value) == Canon(d)
  {
    hide Canon, Digits;
    var c := Canon(d);
    CanonIsFixed(d);
    if c.m != 0 && c.e >= 0 {
      CanonIffSame(Decimal(Scale(c.m, c.e), 0), c);
    } else if c.m == 0 {
      CanonIffSame(Decimal(0, 0), c);
    }
  }

  /** A safe integer written as a float is read as that integer. */
  lemma SafeIsReread(n: int)
    requires SafeInteger(n)
    ensures Reread(Decimal(n, 0)) == Int(n)
    ensures NumText(Decimal(n, 0)) == IntText(n)
  {
    hide Digits, Scale, Canon, Layout;
    ZeroText();
    var c := Canon(Decimal(n, 0));
    if n != 0 {
      WholeIsScaled(Decimal(n, 0));
      ScaleByNone(n);
      SafeLayout(n, c);
    }
  }

  lemma SafeLayout(n: int, c: Decimal)
    requires SafeInteger(n) && n != 0 && c.e >= 0 && Scale(c.m, c.e) == n
    ensures var digits := Digits(Abs(c.m));
      c.m != 0 && c.e + |digits| <= 21 && Layout(digits, c.e) == Digits(Abs(n)) && (c.m < 0 <==> n < 0)
  {
    hide Digits, Scale;
    ScalePositive(c.m, c.e);
    ScaleOfAbs(c.m, c.e);
    DigitsOfScale(Abs(c.m), c.e);
    SafeHasSixteenDigits(Abs(n));
  }

  lemma ScaleOfAbs(m: int, k: nat)
    ensures Abs(Scale(m, k)) == Scale(Abs(m), k)
  {
    ScaleNegative(m, k);
    ScalePositive(m, k);
    ScalePositive(-m, k);
  }

  // ---------- from the parts of `repr` to the text ----------

  function LStrip(t: Text): (r: Text)
    ensures |r| <= |t|
    ensures r != [] ==> r[0] != ZERO
  {
    if t != [] && t[0] == ZERO then LStrip(t[1..]) else t
  }

  function RStrip(t: Text): (r: Text)
    ensures |r| <= |t|
    ensures r != [] ==> r[|r| - 1] != ZERO
  {
    if t != [] && t[|t| - 1] == ZERO then RStrip(t[..|t| - 1]) else t
  }

  lemma {:induction false} LStripKeeps(t: Text)
    requires AllDigits(t)
    ensures AllDigits(LStrip(t)) && NatOf(t) == NatOf(LStrip(t))
  {
    if t != [] && t[0] == ZERO {
      LStripKeeps(t[1..]);
      NatOfConcat([ZERO], t[1..]);
      ScaleZero(|t[1..]|);
      assert [ZERO] + t[1..] == t;
    }
  }

  lemma {:induction false} RStripKeeps(t: Text)
    requires AllDigits(t)
    ensures AllDigits(RStrip(t)) && NatOf(t) == Scale(NatOf(RStrip(t)), |t| - |RStrip(t)|)
    decreases |t|
  {
    if t != [] && t[|t| - 1] == ZERO {
      var front := t[..|t| - 1];
      assert front + [ZERO] == t;
      DigitsConcat(front, [ZERO]);
      RStripKeeps(front);
    }
  }

  lemma {:induction false} RStripNonEmpty(t: Text)
    requires t != [] && t[0] != ZERO
    ensures RStrip(t) != []
    decreases |t|
  {
    if t[|t| - 1] == ZERO {
      RStripNonEmpty(t[..|t| - 1]);
    }
  }

  /** Digits without zeros at either end, and the power of ten of the last one. */
  function Significant(f: Float): (Text, int)
    requires f.Finite?
  {
    var all := LStrip(f.intPart + f.fracPart);
    var digits := RStrip(all);
    (digits, f.exponent - |f.fracPart| + (|all| - |digits|))
  }

  /** `v == 0.0`: nothing but zeros was written. */
  predicate IsZero(f: Float)
    requires f.Finite?
  {
    LStrip(f.intPart + f.fracPart) == []
  }

  function FloatText(f: Float): Result<Text, NumberError>
    requires FromRepr(f)
  {
    match f
    case Special => Err(NoJsonRepresentation)
    case Finite(negative, _, _, _) =>
      if IsZero(f) then Ok([ZERO])
      else
        RStripNonEmpty(LStrip(f.intPart + f.fracPart));
        var (digits, e10) := Significant(f);
        Ok(SignText(negative) + Layout(digits, e10))
  }

  /** The float branch of `_jcs_number`, which updates its locals step by step. */
  method JcsFloat(f: Float) returns (r: Result<Text, NumberError>)
    requires FromRepr(f)
    ensures r == FloatText(f)
  {
    hide LStrip, RStrip, Zeros, ExponentText;
    if f.Special? {
      return Err(NoJsonRepresentation);
    }
    if IsZero(f) {
      return Ok([ZERO]);
    }
    RStripNonEmpty(LStrip(f.intPart + f.fracPart));
    var sign: Text := [];
    if f.negative {
      sign := [MINUS];
    }
    var digits := LStrip(f.intPart + f.fracPart);
    var stripped := RStrip(digits);
    var trailingZeros := |digits| - |stripped|;
    digits := stripped;
    var e10 := f.exponent - |f.fracPart| + trailingZeros;
    var n := e10 + |digits|;
    var out: Text;
    if -6 < n <= 21 {
      if n > 0 {
        if n >= |digits| {
          out := digits + Zeros(n - |digits|);
        } else {
          out := digits[..n] + [POINT] + digits[n..];
        }
      } else {
        out := [ZERO, POINT] + Zeros(-n) + digits;
      }
    } else {
      if |digits| == 1 {
        out := digits;
      } else {
        out := [digits[0], POINT] + digits[1..];
      }
      var exponent := n - 1;
      out := out + ExponentText(exponent);
    }
    assert out == Layout(digits, e10);
    return Ok(sign + out);
  }

  /** Stripping zeros does not change the number. */
  lemma SignificantDenotes(f: Float)
    requires f.Finite? && FromRepr(f)
    ensures var (digits, e10) := Significant(f);
      AllDigits(digits) && e10 >= f.exponent - |f.fracPart|
      && NatOf(f.intPart + f.fracPart) == Scale(NatOf(digits), e10 - (f.exponent - |f.fracPart|))
  {
    DigitsConcat(f.intPart, f.fracPart);
    LStripKeeps(f.intPart + f.fracPart);
    RStripKeeps(LStrip(f.intPart + f.fracPart));
  }

  lemma RStripKeepsFirst(t: Text)
    requires t != [] && t[0] != ZERO
    ensures RStrip(t) != [] && RStrip(t)[0] == t[0]
    decreases |t|
  {
    if t[|t| - 1] == ZERO {
      RStripKeepsFirst(t[..|t| - 1]);
    }
  }

  lemma LastDigitCounts(t: Text)
    requires AllDigits(t) && t != [] && t[|t| - 1] != ZERO
    ensures NatOf(t) % 10 != 0
  {
    var front, last := t[..|t| - 1], t[|t| - 1];
    assert t == front + [last];
    DigitsConcat(front, [last]);
    EndsInDigit(NatOf(front), last - 0x30);
  }

  lemma EndsInDigit(m: int, d: int)
    requires 0 < d < 10
    ensures (10 * m + d) % 10 != 0
  {
  }

  /** The number whose digits `repr` wrote. */
  function Written(f: Float): Decimal
    requires f.Finite?
  {
    Decimal(Signed(f.negative, NatOf(f.intPart + f.fracPart)), f.exponent - |f.fracPart|)
  }

  lemma SignedScale(negative: bool, m: int, k: nat)
    ensures Signed(negative, Scale(m, k)) == Scale(Signed(negative, m), k)
  {
    ScaleNegative(m, k);
  }

  lemma SignificantDigits(f: Float)
    requires f.Finite? && FromRepr(f) && !IsZero(f)
    ensures var digits := Significant(f).0;
      && AllDigits(digits) && digits != []
      && NatOf(digits) > 0 && Digits(NatOf(digits)) == digits && NatOf(digits) % 10 != 0
  {
    hide NatOf, Scale, Digits, LStrip, RStrip, AllDigits;
    RStripKeepsFirst(LStrip(f.intPart + f.fracPart));
    SignificantDenotes(f);
    DigitsOfNat(Significant(f).0);
    LastDigitCounts(Significant(f).0);
  }

  /** Stripping is what brings a number into the form without zeros at the end. */
  lemma SignificantIsCanon(f: Float)
    requires f.Finite? && FromRepr(f) && !IsZero(f)
    ensures var (digits, e10) := Significant(f);
      && AllDigits(digits) && digits != [] && NatOf(digits) > 0 && Digits(NatOf(digits)) == digits
      && Canon(Written(f)) == Decimal(Signed(f.negative, NatOf(digits)), e10)
  {
    hide NatOf, Scale, Digits, AllDigits, SameNumber, Significant, IsZero, Canon, FromRepr;
    var (digits, e10) := Significant(f);
    var e := f.exponent - |f.fracPart|;
    SignificantDigits(f);
    SignificantDenotes(f);
    var c := Decimal(Signed(f.negative, NatOf(digits)), e10);
    SignedScale(f.negative, NatOf(digits), e10 - e);
    SameAtExponent(c, Written(f).m, e);
    CanonIffSame(Written(f), c);
    CanonOfStripped(c);
  }

  lemma SameAtExponent(c: Decimal, m: int, e: int)
    requires e <= c.e && m == Scale(c.m, c.e - e)
    ensures SameNumber(Decimal(m, e), c)
  {
    ScaleByNone(m);
  }

  lemma CanonOfStripped(c: Decimal)
    requires c.m % 10 != 0
    ensures Canon(c) == c
  {
  }

  /** The text computed from the parts of `repr` is the text of the number they write. */
  lemma FloatTextIsNumText(f: Float)
    requires f.Finite? && FromRepr(f)
    ensures FloatText(f) == Ok(NumText(Written(f)))
  {
    hide NatOf, Scale, Digits, LStrip, RStrip, Layout, Canon;
    if IsZero(f) {
      DigitsConcat(f.intPart, f.fracPart);
      LStripKeeps(f.intPart + f.fracPart);
      NatOfNothing();
    } else {
      RStripNonEmpty(LStrip(f.intPart + f.fracPart));
      SignificantIsCanon(f);
    }
  }

  /** The text of a finite float, read in any context, is the number `repr` wrote. */
  lemma FloatTextDenotes(f: Float, rest: Text)
    requires f.Finite? && FromRepr(f) && Terminated(rest)
    ensures FloatText(f).Ok?
    ensures var r := ParseNumber(FloatText(f).value + rest);
      && r.Got? && r.rest == rest
      && NumberOf(r.value).Some? && SameNumber(NumberOf(r.value).value, Written(f))
  {
    hide ParseNumber, Reread, NumText, FloatText, Canon;
    FloatTextIsNumText(f);
    NumReadsBack(Written(f), rest);
    RereadDenotes(Written(f));
    CanonIffSame(NumberOf(Reread(Written(f))).value, Written(f));
  }

  // ---------- where an exponent is written ----------

  lemma {:induction false} DigitsHaveNoLetter(t: Text)
    requires AllDigits(t)
    ensures LETTER_E !in t
  {
    if t != [] {
      DigitsHaveNoLetter(t[1..]);
      assert t == [t[0]] + t[1..];
    }
  }

  lemma NoLetterInZeros(k: nat)
    ensures LETTER_E !in Zeros(k)
  {
    ZerosAreZero(k);
    DigitsHaveNoLetter(Zeros(k));
  }

  lemma NoLetterInParts(digits: Text, n: nat)
    requires LETTER_E !in digits && n <= |digits|
    ensures LETTER_E !in digits[..n] + [POINT] + digits[n..]
  {
    assert digits == digits[..n] + digits[n..];
  }

  lemma LetterAfter(t: Text, digits: Text, tail: Text)
    requires digits != [] && tail != [] && tail[0] == LETTER_E
    requires t == (if |digits| == 1 then digits else [digits[0], POINT] + digits[1..]) + tail
    ensures LETTER_E in t && |t| > 1 && t[1] == if |digits| == 1 then LETTER_E else POINT
  {
    assert t[if |digits| == 1 then 1 else |digits| + 1] == tail[0];
  }

  /** An exponent is written exactly when the decimal point is out of range, and then after one digit. */
  lemma ExponentIffOutOfRange(digits: Text, e10: int)
    requires AllDigits(digits) && digits != []
    ensures var t := Layout(digits, e10);
      if -6 < e10 + |digits| <= 21 then LETTER_E !in t
      else LETTER_E in t && |t| > 1 && t[1] == if |digits| == 1 then LETTER_E else POINT
  {
    var n := e10 + |digits|;
    if -6 < n <= 21 {
      PlainHasNoLetter(digits, e10);
    } else {
      assert ExponentText(n - 1)[0] == LETTER_E;
      LetterAfter(Layout(digits, e10), digits, ExponentText(n - 1));
    }
  }

  lemma PlainHasNoLetter(digits: Text, e10: int)
    requires AllDigits(digits) && digits != [] && -6 < e10 + |digits| <= 21
    ensures LETTER_E !in Layout(digits, e10)
  {
    var n := e10 + |digits|;
    DigitsHaveNoLetter(digits);
    if n >= |digits| {
      NoLetterInZeros(n - |digits|);
    } else if n > 0 {
      NoLetterInParts(digits, n);
    } else {
      NoLetterInZeros(-n);
    }
  }
}

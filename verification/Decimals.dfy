/** Numbers m * 10^e, their digits, when two of them are the same, and the layout of RFC 8785 section 3.2.2.3 (ECMA-262
    Number::toString). */
module Decimals {
  import opened Prelude
  import opened Texts

  const MINUS: CodePoint := 0x2D
  const PLUS: CodePoint := 0x2B
  const POINT: CodePoint := 0x2E
  const ZERO: CodePoint := 0x30
  const LETTER_E: CodePoint := 0x65

  predicate Digit(c: CodePoint) {
    0x30 <= c <= 0x39
  }

  predicate AllDigits(t: Text) {
    t == [] || (Digit(t[0]) && AllDigits(t[1..]))
  }

  lemma {:induction false} DigitsConcat(a: Text, b: Text)
    ensures AllDigits(a + b) <==> AllDigits(a) && AllDigits(b)
  {
    if a == [] {
      assert a + b == b;
    } else {
      assert (a + b)[1..] == a[1..] + b;
      DigitsConcat(a[1..], b);
    }
  }

  /** `str(n)` for a natural number. */
  function Digits(n: nat): (t: Text)
    ensures t != [] && Digit(t[0])
  {
    if n < 10 then [0x30 + n] else Digits(n / 10) + [0x30 + n % 10]
  }

  function NatOf(t: Text): int {
    if t == [] then 0 else 10 * NatOf(t[..|t| - 1]) + (t[|t| - 1] - 0x30)
  }

  // ---------- powers of ten ----------

  /** m * 10^k. */
  function Scale(m: int, k: nat): int {
    if k == 0 then m else 10 * Scale(m, k - 1)
  }

  lemma {:induction false} ScaleAgain(m: int, j: nat, k: nat)
    ensures Scale(Scale(m, j), k) == Scale(m, j + k)
  {
    if k > 0 {
      ScaleAgain(m, j, k - 1);
    }
  }

  lemma {:induction false} ScaleZero(k: nat)
    ensures Scale(0, k) == 0
  {
    if k > 0 {
      ScaleZero(k - 1);
    }
  }

  lemma {:induction false} ScaleNegative(m: int, k: nat)
    ensures Scale(-m, k) == -Scale(m, k)
  {
    if k > 0 {
      ScaleNegative(m, k - 1);
    }
  }

  lemma {:induction false} ScalePositive(m: int, k: nat)
    ensures Scale(m, k) > 0 <==> m > 0
    ensures Scale(m, k) == 0 <==> m == 0
  {
    if k > 0 {
      ScalePositive(m, k - 1);
    }
  }

  lemma ScaleTen(m: int, k: nat)
    ensures Scale(10 * m, k) == 10 * Scale(m, k)
  {
    ScaleAgain(m, 1, k);
    assert Scale(m, 1) == 10 * Scale(m, 0);
    assert Scale(m, 1 + k) == 10 * Scale(m, k);
  }

  lemma {:induction false} NatOfConcat(a: Text, b: Text)
    ensures NatOf(a + b) == Scale(NatOf(a), |b|) + NatOf(b)
  {
    if b == [] {
      assert a + b == a;
    } else {
      var c := b[..|b| - 1];
      assert (a + b)[..|a + b| - 1] == a + c;
      NatOfConcat(a, c);
    }
  }

  lemma {:induction false} ZerosAreZero(k: nat)
    ensures AllDigits(Zeros(k)) && NatOf(Zeros(k)) == 0
  {
    if k > 0 {
      ZerosAreZero(k - 1);
      NatOfConcat([ZERO], Zeros(k - 1));
      ScaleZero(k - 1);
    }
  }

  lemma {:induction false} NatOfDigits(n: nat)
    ensures AllDigits(Digits(n)) && NatOf(Digits(n)) == n
    decreases n
  {
    if n >= 10 {
      NatOfDigits(n / 10);
      DigitsConcat(Digits(n / 10), [0x30 + n % 10]);
      NatOfConcat(Digits(n / 10), [0x30 + n % 10]);
    }
  }

  /** The first digit of a positive number is not zero. */
  lemma {:induction false} LeadingDigit(n: nat)
    ensures Digit(Digits(n)[0]) && (n > 0 ==> Digits(n)[0] != ZERO)
    decreases n
  {
    if n >= 10 {
      LeadingDigit(n / 10);
    }
  }

  lemma {:induction false} ZerosAtEnd(k: nat)
    ensures Zeros(k) + [ZERO] == Zeros(k + 1)
  {
    if k > 0 {
      ZerosAtEnd(k - 1);
      assert Zeros(k) + [ZERO] == [ZERO] + (Zeros(k - 1) + [ZERO]);
    }
  }

  /** Multiplying by a power of ten appends zeros. */
  lemma {:induction false} DigitsOfScale(m: nat, k: nat)
    requires m > 0
    ensures Scale(m, k) > 0 && Digits(Scale(m, k)) == Digits(m) + Zeros(k)
  {
    ScalePositive(m, k);
    if k == 0 {
      assert Digits(m) + Zeros(0) == Digits(m);
    } else {
      DigitsOfScale(m, k - 1);
      ScalePositive(m, k - 1);
      var n := Scale(m, k - 1);
      assert Scale(m, k) == 10 * n && 10 * n / 10 == n && 10 * n % 10 == 0;
      assert Digits(10 * n) == Digits(n) + [ZERO];
      Regroup(Digits(m), Zeros(k - 1), [ZERO]);
      ZerosAtEnd(k - 1);
    }
  }

  /** A text of digits without leading zeros is what its value prints. */
  lemma {:induction false} DigitsOfNat(t: Text)
    requires AllDigits(t) && t != [] && t[0] != ZERO
    ensures NatOf(t) > 0 && Digits(NatOf(t)) == t
    decreases |t|
  {
    var front, last := t[..|t| - 1], t[|t| - 1];
    assert t == front + [last];
    DigitsConcat(front, [last]);
    assert AllDigits([last]) ==> Digit(last);
    if front != [] {
      DigitsOfNat(front);
    } else {
      assert t == [last];
    }
  }

  /** A number below 10^k has at most k digits. */
  lemma {:induction false} FewDigits(n: nat, k: nat)
    requires n < Scale(1, k) && k > 0
    ensures |Digits(n)| <= k
    decreases k
  {
    if n >= 10 {
      assert k > 1;
      FewDigits(n / 10, k - 1);
    }
  }

  lemma SafeHasSixteenDigits(n: nat)
    requires n <= MAX_SAFE_INTEGER
    ensures |Digits(n)| <= 16
  {
    assert Scale(1, 4) == 10000;
    ScaleAgain(1, 4, 4);
    assert Scale(10000, 4) == 100000000;
    ScaleAgain(1, 8, 8);
    assert Scale(100000000, 4) == 1000000000000;
    ScaleAgain(100000000, 4, 4);
    assert Scale(1000000000000, 4) == 10000000000000000;
    FewDigits(n, 16);
  }

  // ---------- decimals ----------

  /** The number m * 10^e. */
  datatype Decimal = Decimal(m: int, e: int)

  /** Both denote one number: they agree once brought to the smaller exponent. */
  predicate SameNumber(a: Decimal, b: Decimal) {
    var e := if a.e <= b.e then a.e else b.e;
    Scale(a.m, a.e - e) == Scale(b.m, b.e - e)
  }

  function Abs(m: int): nat {
    if m < 0 then -m else m
  }

  /** The one way to write a number with no zero at the end of m. */
  function Canon(d: Decimal): (c: Decimal)
    ensures if d.m == 0 then c == Decimal(0, 0) else c.m % 10 != 0 && (c.m < 0 <==> d.m < 0) && d.e <= c.e
    decreases Abs(d.m)
  {
    if d.m == 0 then Decimal(0, 0)
    else if d.m % 10 == 0 then Canon(Decimal(d.m / 10, d.e + 1))
    else d
  }

  lemma StripOne(d: Decimal, x: Decimal)
    requires d.m % 10 == 0
    ensures SameNumber(d, x) <==> SameNumber(Decimal(d.m / 10, d.e + 1), x)
  {
    if x.e <= d.e {
      ScaleTen(d.m / 10, d.e - x.e);
    }
  }

  lemma SameNumberFlips(a: Decimal, b: Decimal)
    ensures SameNumber(a, b) <==> SameNumber(b, a)
  {
  }

  lemma {:induction false} CanonKeeps(d: Decimal, x: Decimal)
    requires d.m != 0
    ensures SameNumber(d, x) <==> SameNumber(Canon(d), x)
    decreases Abs(d.m)
  {
    if d.m % 10 == 0 {
      StripOne(d, x);
      CanonKeeps(Decimal(d.m / 10, d.e + 1), x);
    }
  }

  lemma ScaledEndsInZero(m: int, k: nat)
    requires k > 0
    ensures Scale(m, k) % 10 == 0
  {
  }

  lemma StrippedAreUnique(a: Decimal, b: Decimal)
    requires a.m % 10 != 0 && b.m % 10 != 0 && SameNumber(a, b)
    ensures a == b
  {
    hide Scale;
    ScaleByNone(a.m);
    ScaleByNone(b.m);
    if a.e < b.e {
      ScaledEndsInZero(b.m, b.e - a.e);
    } else if b.e < a.e {
      ScaledEndsInZero(a.m, a.e - b.e);
    }
  }

  lemma ScaleByNone(m: int)
    ensures Scale(m, 0) == m
  {
  }

  /** Numbers are the same exactly when they are written the same way. */
  lemma CanonIffSame(a: Decimal, b: Decimal)
    ensures SameNumber(a, b) <==> Canon(a) == Canon(b)
  {
    var e := if a.e <= b.e then a.e else b.e;
    ScalePositive(a.m, a.e - e);
    ScalePositive(b.m, b.e - e);
    if a.m != 0 && b.m != 0 {
      CanonKeeps(a, b);
      SameNumberFlips(Canon(a), b);
      CanonKeeps(b, Canon(a));
      SameNumberFlips(Canon(b), Canon(a));
      if SameNumber(a, b) {
        StrippedAreUnique(Canon(a), Canon(b));
      }
    }
  }

  lemma {:induction false} CanonIsFixed(d: Decimal)
    ensures Canon(Canon(d)) == Canon(d)
    decreases Abs(d.m)
  {
    if d.m != 0 && d.m % 10 == 0 {
      CanonIsFixed(Decimal(d.m / 10, d.e + 1));
    }
  }

  /** A whole number is its digits with the zeros back at the end. */
  lemma {:induction false} WholeIsScaled(d: Decimal)
    requires d.e >= 0 && d.m != 0
    ensures Canon(d).e >= 0 && Scale(Canon(d).m, Canon(d).e) == Scale(d.m, d.e)
    decreases Abs(d.m)
  {
    if d.m % 10 == 0 {
      WholeIsScaled(Decimal(d.m / 10, d.e + 1));
      ScaleTen(d.m / 10, d.e);
    }
  }

  // ---------- layout ----------

  /** The exponent part of the fourth layout. */
  function ExponentText(k: int): Text {
    [LETTER_E, if k >= 0 then PLUS else MINUS] + Digits(Abs(k))
  }

  /** The four layouts. With `n` the position of the decimal point relative to the first digit:
      an integer, an inner point, a leading "0.", or an exponent. */
  function Layout(digits: Text, e10: int): Text
    requires digits != []
  {
    var n := e10 + |digits|;
    if -6 < n <= 21 then
      if n > 0 then
        if n >= |digits| then digits + Zeros(n - |digits|)
        else digits[..n] + [POINT] + digits[n..]
      else [ZERO, POINT] + Zeros(-n) + digits
    else
      (if |digits| == 1 then digits else [digits[0], POINT] + digits[1..]) + ExponentText(n - 1)
  }

  function SignText(negative: bool): Text {
    if negative then [MINUS] else []
  }

  /** `str(n)`. */
  function IntText(n: int): Text {
    SignText(n < 0) + Digits(Abs(n))
  }

  /** A float, as `_jcs_number` prints it: its significant digits, laid out. */
  function NumText(d: Decimal): Text {
    var c := Canon(d);
    if c.m == 0 then [ZERO] else SignText(c.m < 0) + Layout(Digits(Abs(c.m)), c.e)
  }

  // ---------- the text is plain ----------

  lemma {:induction false} DigitsArePlain(t: Text)
    requires AllDigits(t)
    ensures SurrogateFree(t)
  {
    if t != [] {
      DigitsArePlain(t[1..]);
    }
  }

  lemma PlainThree(a: Text, c: CodePoint, b: Text)
    requires SurrogateFree(a) && Scalar(c) && SurrogateFree(b)
    ensures SurrogateFree(a + [c] + b)
  {
    CleanConcat(a, [c]);
    CleanConcat(a + [c], b);
  }

  lemma ExponentIsPlain(k: int)
    ensures SurrogateFree(ExponentText(k))
  {
    NatOfDigits(Abs(k));
    DigitsArePlain(Digits(Abs(k)));
    CleanConcat([LETTER_E, if k >= 0 then PLUS else MINUS], Digits(Abs(k)));
  }

  lemma LayoutIsPlain(digits: Text, e10: int)
    requires AllDigits(digits) && digits != []
    ensures SurrogateFree(Layout(digits, e10))
  {
    hide AllDigits, SurrogateFree, ExponentText, Zeros;
    var n := e10 + |digits|;
    DigitsArePlain(digits);
    if 0 < n <= 21 && n >= |digits| {
      ZerosAreClean(n - |digits|);
      CleanConcat(digits, Zeros(n - |digits|));
    } else if 0 < n <= 21 {
      assert digits[..n] + digits[n..] == digits;
      CleanConcat(digits[..n], digits[n..]);
      PlainThree(digits[..n], POINT, digits[n..]);
    } else if -6 < n <= 0 {
      ZerosAreClean(-n);
      CleanIffAllScalar([ZERO, POINT]);
      CleanConcat([ZERO, POINT], Zeros(-n));
      CleanConcat([ZERO, POINT] + Zeros(-n), digits);
    } else {
      ExponentIsPlain(n - 1);
      assert [digits[0]] + digits[1..] == digits;
      CleanConcat([digits[0]], digits[1..]);
      PlainThree([digits[0]], POINT, digits[1..]);
      assert [digits[0]] + [POINT] + digits[1..] == [digits[0], POINT] + digits[1..];
      CleanConcat(if |digits| == 1 then digits else [digits[0], POINT] + digits[1..], ExponentText(n - 1));
    }
  }

  lemma SignIsPlain(negative: bool, t: Text)
    requires SurrogateFree(t)
    ensures SurrogateFree(SignText(negative) + t)
  {
    CleanIffAllScalar(SignText(negative));
    CleanConcat(SignText(negative), t);
  }

  lemma IntIsPlain(n: int)
    ensures SurrogateFree(IntText(n))
  {
    NatOfDigits(Abs(n));
    DigitsArePlain(Digits(Abs(n)));
    SignIsPlain(n < 0, Digits(Abs(n)));
  }

  lemma NumIsPlain(d: Decimal)
    ensures SurrogateFree(NumText(d))
  {
    var c := Canon(d);
    if c.m != 0 {
      NatOfDigits(Abs(c.m));
      LayoutIsPlain(Digits(Abs(c.m)), c.e);
      SignIsPlain(c.m < 0, Layout(Digits(Abs(c.m)), c.e));
    }
  }
}

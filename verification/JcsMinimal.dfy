/** Canonical text is the shortest and the only one of its length. */
module JcsMinimal {
  // Among the texts a reader takes for the same value: strings, and whole documents without fractions; and it has no
  // white space to lose.

  import opened Prelude
  import opened Texts
  import opened Decimals
  import opened Json
  import opened Jcs
  import opened JsonParser
  import opened JcsRoundTrip
  import JcsNumber
  import Cut = JsonCut

  // ---------- strings ----------

  /** No capital among the digits of an escape. */
  predicate SmallDigits(t: Text) {
    if t == [] then true
    else if t[0] == 0x5C && |t| >= 6 && t[1] == 0x75 then
      Small(t[2]) && Small(t[3]) && Small(t[4]) && Small(t[5]) && SmallDigits(t[6..])
    else if t[0] == 0x5C && |t| >= 2 then SmallDigits(t[2..])
    else SmallDigits(t[1..])
  }

  predicate Small(c: CodePoint) {
    !(0x41 <= c <= 0x46)
  }

  lemma SmallDigit(c: CodePoint, d: int)
    requires HexValue(c) == Some(d) && Small(c)
    ensures 0 <= d < 16 && c == HexDigit(d)
  {
  }

  lemma HexIsFour(t: Text)
    requires ParseHex4(t).Got?
    ensures |t| >= 4 && ParseHex4(t).rest == t[4..]
    ensures ParseHex4(t).value < 0x20 && Small(t[2]) && Small(t[3]) && Small(t[0]) && Small(t[1]) ==>
      var u := ParseHex4(t).value;
      u >= 0 && t[..4] == [0x30, 0x30, HexDigit(u / 16), HexDigit(u % 16)]
  {
    var u := ParseHex4(t).value;
    if u < 0x20 && Small(t[2]) && Small(t[3]) && Small(t[0]) && Small(t[1]) {
      var a, b, c, d := HexValue(t[0]).value, HexValue(t[1]).value, HexValue(t[2]).value, HexValue(t[3]).value;
      SmallDigit(t[0], a);
      SmallDigit(t[1], b);
      SmallDigit(t[2], c);
      SmallDigit(t[3], d);
      assert u == a * 0x1000 + b * 0x100 + c * 0x10 + d;
      assert a == 0 && b == 0 && u / 16 == c && u % 16 == d;
      assert t[..4] == [t[0], t[1], t[2], t[3]];
    }
  }

  lemma UnicodeIsLong(t: Text)
    requires ParseUnicode(t).Got?
    ensures var n := |t| - |ParseUnicode(t).rest|;
      && (n == 4 || n == 10) && |t| >= n && ParseUnicode(t).rest == t[n..]
      && (n == 4 ==> ParseHex4(t) == ParseUnicode(t)) && (n == 10 ==> ParseUnicode(t).value >= 0x1_0000)
  {
    hide ParseHex4;
    HexIsFour(t);
    var rest := ParseHex4(t).rest;
    if ParseUnicode(t).rest != rest {
      HexIsFour(rest[2..]);
    }
  }

  /** What a character costs: at least its escape, and exactly that only when it is spelled so. */
  predicate Costs(t: Text, c: CodePoint, n: nat)
    requires n <= |t|
  {
    && 0 < n && n >= |Escape(c)| && |Escape(c)| <= 6
    && (n == |Escape(c)| && SmallDigits(t) ==> t[..n] == Escape(c) && SmallDigits(t[n..]))
  }

  lemma LiteralIsMinimal(t: Text)
    requires t != [] && t[0] != QUOTE && t[0] != BACKSLASH && t[0] >= 0x20
    ensures ParseChar(t) == Got(t[0], t[1..]) && Costs(t, t[0], 1)
  {
    assert t[..1] == [t[0]];
  }

  lemma ShortIsMinimal(t: Text)
    requires |t| >= 2 && t[0] == BACKSLASH && t[1] != 0x75 && ParseChar(t).Got?
    ensures ParseChar(t).rest == t[2..] && Costs(t, ParseChar(t).value, 2)
  {
    hide ParseUnicode;
    assert t[1..][0] == t[1] && t[1..][1..] == t[2..];
    assert t[..2] == [t[0], t[1]];
    AfterTwo(t);
  }

  lemma AfterTwo(t: Text)
    requires |t| >= 2 && t[0] == BACKSLASH && t[1] != 0x75
    ensures SmallDigits(t) <==> SmallDigits(t[2..])
  {
  }

  lemma AfterSix(t: Text)
    requires |t| >= 6 && t[0] == BACKSLASH && t[1] == 0x75
    ensures SmallDigits(t) <==> Small(t[2]) && Small(t[3]) && Small(t[4]) && Small(t[5]) && SmallDigits(t[6..])
  {
  }

  lemma LongEscape(c: CodePoint)
    ensures 1 <= |Escape(c)| <= 6
    ensures |Escape(c)| == 6 ==>
      0 <= c < 0x20 && Escape(c) == [0x5C, 0x75, 0x30, 0x30, HexDigit(c / 16), HexDigit(c % 16)]
  {
  }

  lemma UnicodeIsMinimal(t: Text)
    requires |t| >= 2 && t[0] == BACKSLASH && t[1] == 0x75 && ParseChar(t).Got?
    ensures var n := |t| - |ParseChar(t).rest|;
      6 <= n <= |t| && ParseChar(t).rest == t[n..] && Costs(t, ParseChar(t).value, n)
  {
    hide ParseHex4, ParseUnicode, Escape, SmallDigits;
    var u, c := t[2..], ParseChar(t).value;
    assert t[1..][0] == t[1] && t[1..][1..] == u;
    UnicodeIsLong(u);
    LongEscape(c);
    var m := |u| - |ParseUnicode(u).rest|;
    assert u[m..] == t[2 + m..];
    if m == 4 {
      HexIsFour(u);
      AfterSix(t);
      assert t[..6] == [t[0], t[1]] + u[..4];
    }
  }

  /** One character read takes at least as many characters as its escape, and as many only when it is spelled so. */
  lemma CharIsMinimal(t: Text)
    requires t != [] && t[0] != QUOTE && ParseChar(t).Got?
    ensures var n := |t| - |ParseChar(t).rest|;
      0 < n <= |t| && ParseChar(t).rest == t[n..] && Costs(t, ParseChar(t).value, n)
  {
    hide ParseUnicode, Costs;
    if t[0] != BACKSLASH {
      LiteralIsMinimal(t);
    } else if t[1..] != [] && t[1] != 0x75 {
      ShortIsMinimal(t);
    } else if t[1..] != [] {
      UnicodeIsMinimal(t);
    }
  }

  /** A string body read takes at least as many characters as the escaped string and its quote, and as many only when it
      is spelled so. */
  lemma {:induction false} StringIsMinimal(t: Text)
    requires ParseString(t).Got? && SurrogateFree(ParseString(t).value)
    ensures var s, rest := ParseString(t).value, ParseString(t).rest;
      var n := |t| - |rest|;
      && 0 < n <= |t| && rest == t[n..] && n >= |Escaped(s)| + 1
      && (n == |Escaped(s)| + 1 && SmallDigits(t) ==> t[..n] == Escaped(s) + [QUOTE])
      && (n == |Escaped(s)| + 1 && SmallDigits(t) ==> SmallDigits(rest))
    decreases |t|
  {
    hide ParseChar, Escape, SmallDigits;
    if t != [] && t[0] == QUOTE {
      assert t[..1] == [] + [QUOTE];
      if SmallDigits(t) {
        AfterOne(t);
      }
    } else {
      var c, rest := ParseChar(t).value, ParseChar(t).rest;
      var s := ParseString(rest).value;
      assert ParseString(t).value == [c] + s && ([c] + s)[1..] == s;
      ParsedCharIsText(t);
      CharIsMinimal(t);
      StringIsMinimal(rest);
      var k, n := |t| - |rest|, |rest| - |ParseString(rest).rest|;
      assert t[..k + n] == t[..k] + t[k..][..n];
      assert t[k + n..] == t[k..][n..];
      Regroup(Escape(c), Escaped(s), [QUOTE]);
    }
  }

  lemma AfterOne(t: Text)
    requires t != [] && t[0] != BACKSLASH && SmallDigits(t)
    ensures SmallDigits(t[1..])
  {
  }

  lemma ParsedCharIsText(t: Text)
    requires ParseChar(t).Got?
    ensures t != []
  {
  }

  /** For a string without surrogates no spelling is shorter than the canonical one, and no other of the same length
      writes its digits small. */
  lemma EscapedIsMinimal(s: Text, t: Text)
    requires SurrogateFree(s) && ParseString(t + [QUOTE]) == Got(s, [])
    ensures |Escaped(s)| <= |t|
    ensures |Escaped(s)| == |t| && SmallDigits(t + [QUOTE]) ==> t == Escaped(s)
  {
    hide ParseString, Escaped, SmallDigits, SurrogateFree;
    var u := t + [QUOTE];
    StringIsMinimal(u);
    assert u[..|u|] == u;
    if |Escaped(s)| == |t| && SmallDigits(u) {
      assert u == Escaped(s) + [QUOTE];
      assert t == u[..|u| - 1] && Escaped(s) == (Escaped(s) + [QUOTE])[..|u| - 1];
    }
  }

  // ---------- documents without fractions ----------

  /** The text without white space, members as they stand; fractions, and what cannot be canonicalized, count for
      nothing. */
  function Compact(v: Json): Text
    decreases v
  {
    match v
    case Null => NULL_WORD
    case Bool(b) => if b then TRUE_WORD else FALSE_WORD
    case Int(n) => IntText(n)
    case Str(s) => Quoted(s)
    case Arr(items) => [OPEN_BRACKET] + ItemsTail(items)
    case Obj(members) => [OPEN_BRACE] + MembersTail(members)
    case _ => []
  }

  function Quoted(s: Text): Text {
    if SurrogateFree(s) then [QUOTE] + (Escaped(s) + [QUOTE]) else []
  }

  /** What follows the opening bracket. */
  function ItemsTail(items: seq<Json>): Text
    decreases items
  {
    if items == [] then [CLOSE_BRACKET]
    else if |items| == 1 then Compact(items[0]) + [CLOSE_BRACKET]
    else Compact(items[0]) + ([COMMA] + ItemsTail(items[1..]))
  }

  function MemberText(m: Member): Text
    decreases m
  {
    Quoted(m.key) + ([COLON] + Compact(m.value))
  }

  /** What follows the opening brace. */
  function MembersTail(members: seq<Member>): Text
    decreases members
  {
    if members == [] then [CLOSE_BRACE]
    else if |members| == 1 then MemberText(members[0]) + [CLOSE_BRACE]
    else MemberText(members[0]) + ([COMMA] + MembersTail(members[1..]))
  }

  /** `rest` ends `t`; what stands before it is at least as long as `c`, and is `c` when it is no longer and its digits
      are small. */
  predicate Tight(t: Text, rest: Text, c: Text) {
    && |rest| <= |t| && t[|t| - |rest|..] == rest && |c| <= |t| - |rest|
    && (|c| == |t| - |rest| && SmallDigits(t) ==> t[..|c|] == c && SmallDigits(rest))
  }

  lemma TightThen(t: Text, mid: Text, rest: Text, a: Text, b: Text)
    requires Tight(t, mid, a) && Tight(mid, rest, b)
    ensures Tight(t, rest, a + b)
  {
    hide SmallDigits;
    var k, n := |t| - |mid|, |mid| - |rest|;
    assert t[k..][n..] == t[k + n..];
    if |a + b| == |t| - |rest| && SmallDigits(t) {
      assert t[..k + n] == t[..k] + t[k..][..n];
    }
  }

  lemma TightChar(t: Text)
    requires t != [] && t[0] != BACKSLASH
    ensures Tight(t, t[1..], [t[0]])
  {
    assert t[..1] == [t[0]];
  }

  lemma TightCharThen(t: Text, rest: Text, c: Text)
    requires t != [] && t[0] != BACKSLASH && Tight(t[1..], rest, c)
    ensures Tight(t, rest, [t[0]] + c)
  {
    hide Tight;
    TightChar(t);
    TightThen(t, t[1..], rest, [t[0]], c);
  }

  lemma TightSame(t: Text)
    ensures Tight(t, t, [])
  {
    assert t[|t| - |t|..] == t && t[..0] == [];
  }

  lemma TightThenSame(t: Text, mid: Text, rest: Text, c: Text)
    requires Tight(t, mid, []) && Tight(mid, rest, c)
    ensures Tight(t, rest, c)
  {
    hide Tight;
    TightThen(t, mid, rest, [], c);
    assert [] + c == c;
  }

  lemma {:induction false} WhiteIsLoose(t: Text)
    ensures Tight(t, SkipWhite(t), [])
  {
    hide Tight;
    if t != [] && White(t[0]) {
      WhiteIsLoose(t[1..]);
      TightCharThen(t, SkipWhite(t), []);
      TightShorter(t, SkipWhite(t), [t[0]] + []);
    } else {
      TightSame(t);
    }
  }

  lemma TightShorter(t: Text, rest: Text, c: Text)
    requires Tight(t, rest, c) && c != []
    ensures Tight(t, rest, [])
  {
  }

  // ---------- numbers ----------

  lemma {:induction false} DigitsAreRun(t: Text, acc: nat) returns (k: nat)
    ensures k <= |t| && AllDigits(t[..k]) && ReadDigits(t, acc).1 == t[k..]
    ensures ReadDigits(t, acc).0 == Scale(acc, k) + NatOf(t[..k])
    decreases |t|
  {
    if t != [] && Digit(t[0]) {
      k := DigitsAreRun(t[1..], 10 * acc + (t[0] - 0x30));
      var run := t[1..][..k];
      assert t[..k + 1] == [t[0]] + run && ([t[0]] + run)[1..] == run && t[1..][k..] == t[k + 1..];
      NatOfConcat([t[0]], run);
      JcsNumber.ScaleAdds(10 * acc, t[0] - 0x30, k);
      ScaleTen(acc, k);
      k := k + 1;
    } else {
      k := 0;
      assert t[..0] == [] && t[0..] == t;
    }
  }

  lemma {:induction false} PlainIsTight(c: Text, rest: Text)
    requires AllDigits(c)
    ensures Tight(c + rest, rest, c)
  {
    if c == [] {
      assert c + rest == rest;
      TightSame(rest);
    } else {
      hide Tight;
      var t := c + rest;
      PlainIsTight(c[1..], rest);
      assert t[1..] == c[1..] + rest && t[0] == c[0];
      TightCharThen(t, rest, c[1..]);
      assert [c[0]] + c[1..] == c;
    }
  }

  /** An unsigned number is written in one way. */
  lemma NatIsDigits(t: Text)
    requires ParseNat(t).Got?
    ensures t == Digits(ParseNat(t).value) + ParseNat(t).rest && AllDigits(Digits(ParseNat(t).value))
  {
    hide Scale, NatOf;
    NatOfDigits(ParseNat(t).value);
    if t[0] == ZERO {
      assert Digits(0) == [ZERO] && t == [ZERO] + t[1..];
    } else {
      var k := DigitsAreRun(t[1..], t[0] - 0x30);
      var run := t[1..][..k];
      var c := [t[0]] + run;
      assert t == c + t[1..][k..];
      assert c[1..] == run && AllDigits(c);
      NatOfConcat([t[0]], run);
      OneDigit(t[0]);
      DigitsOfNat(c);
    }
  }

  lemma OneDigit(c: CodePoint)
    ensures NatOf([c]) == c - 0x30
  {
    assert [c][..0] == [];
  }

  /** An integer is written in one way, zero in two. */
  lemma NumberIsMinimal(t: Text)
    requires ParseNumber(t).Got?
    ensures Tight(t, ParseNumber(t).rest, Compact(ParseNumber(t).value)) && |ParseNumber(t).rest| < |t|
  {
    hide ReadFraction, ReadExponent, ParseNat, FloatOf, Tight, Digits;
    var negative := t[0] == MINUS;
    var s := if negative then t[1..] else t;
    var n, rest := ParseNat(s).value, ParseNat(s).rest;
    var end := ParseNumber(t).rest;
    NatIsDigits(s);
    PlainIsTight(Digits(n), rest);
    if negative {
      TightCharThen(t, rest, Digits(n));
    }
    TailIsLoose(negative, n, rest);
    if ParseNumber(t).value.Int? {
      WholeTail(negative, n, rest);
      if negative && n == 0 {
        TightLonger(t, rest, [MINUS] + Digits(0), [ZERO]);
      }
      var m: int := n;
      IntIs(if negative then 0 - m else m);
    } else {
      var eaten := if negative then [MINUS] + Digits(n) else Digits(n);
      TightShorter(t, rest, eaten);
      TightThenSame(t, rest, end, []);
    }
  }

  lemma IntIs(n: int)
    ensures Compact(Int(n)) == (if n < 0 then [MINUS] + Digits(-n) else Digits(n)) && Digits(0) == [ZERO]
  {
    hide Digits;
    assert [] + Digits(Abs(n)) == Digits(Abs(n));
    ZeroDigits();
  }

  lemma ZeroDigits()
    ensures Digits(0) == [ZERO]
  {
  }

  lemma TightLonger(t: Text, rest: Text, c: Text, d: Text)
    requires Tight(t, rest, c) && |d| < |c|
    ensures Tight(t, rest, d)
  {
  }

  lemma TailIsLoose(negative: bool, n: nat, t: Text)
    ensures Tight(t, ParseTail(negative, n, t).1, [])
    ensures var v := ParseTail(negative, n, t).0; v.Int? || v.Num? || v.MinusZero?
  {
    hide Tight, ReadDigits;
    var middle := ReadFraction(t, n).2;
    FractionIsLoose(t, n);
    ExponentIsLoose(middle);
    TightThenSame(t, middle, ReadExponent(middle).1, []);
  }

  lemma FractionIsLoose(t: Text, n: nat)
    ensures Tight(t, ReadFraction(t, n).2, [])
    ensures ReadFraction(t, n).1 == 0 ==> ReadFraction(t, n).2 == t && ReadFraction(t, n).0 == n
  {
    hide Tight;
    if |t| > 1 && t[0] == POINT && Digit(t[1]) {
      RunIsLoose(t[1..], n);
      TightCharThen(t, ReadFraction(t, n).2, []);
      TightShorter(t, ReadFraction(t, n).2, [t[0]] + []);
    } else {
      TightSame(t);
    }
  }

  lemma {:induction false} RunIsLoose(t: Text, acc: nat)
    ensures Tight(t, ReadDigits(t, acc).1, [])
    ensures t != [] && Digit(t[0]) ==> |ReadDigits(t, acc).1| < |t|
    decreases |t|
  {
    hide Tight;
    if t != [] && Digit(t[0]) {
      RunIsLoose(t[1..], 10 * acc + (t[0] - 0x30));
      TightCharThen(t, ReadDigits(t, acc).1, []);
      TightShorter(t, ReadDigits(t, acc).1, [t[0]] + []);
    } else {
      TightSame(t);
    }
  }

  lemma ExponentIsLoose(t: Text)
    ensures Tight(t, ReadExponent(t).1, [])
    ensures ReadExponent(t).0.None? ==> ReadExponent(t).1 == t
  {
    hide Tight, ReadDigits;
    var rest := ReadExponent(t).1;
    TightSame(t);
    if ReadExponent(t).0.Some? {
      if t[1] == PLUS || t[1] == MINUS {
        assert t[1..][1..] == t[2..];
        RunIsLoose(t[2..], 0);
        TightCharThen(t[1..], rest, []);
        TightShorter(t[1..], rest, [t[1]] + []);
      } else {
        RunIsLoose(t[1..], 0);
      }
      TightCharThen(t, rest, []);
      TightShorter(t, rest, [t[0]] + []);
    }
  }

  lemma WholeTail(negative: bool, n: nat, t: Text)
    requires ParseTail(negative, n, t).0.Int?
    ensures ParseTail(negative, n, t) == (Int(if negative then 0 - n else n), t)
  {
    hide ReadFraction, ReadExponent, Tight, FloatOf;
    var (m, places, middle) := ReadFraction(t, n);
    var exponent := ReadExponent(middle).0;
    FractionIsLoose(t, n);
    ExponentIsLoose(middle);
    FloatIsNoInt(negative, m, (if exponent.Some? then exponent.value else 0) - places);
  }

  lemma FloatIsNoInt(negative: bool, m: int, e: int)
    ensures !FloatOf(negative, m, e).Int?
  {
  }

  // ---------- values ----------

  lemma LiteralIsTight(word: Text, v: Json, t: Text)
    requires word in [NULL_WORD, TRUE_WORD, FALSE_WORD, NAN_WORD, INFINITY_WORD, [MINUS] + INFINITY_WORD]
    requires Literal(word, v, t).Got?
    ensures Tight(t, Literal(word, v, t).rest, word) && |Literal(word, v, t).rest| < |t|
    ensures Literal(word, v, t).value == v
  {
    hide Tight, AllPlain;
    PlainIffAll(word);
    assert t == word + t[|word|..];
    WordIsTight(word, t[|word|..]);
  }

  predicate AllPlain(word: Text) {
    word == [] || (word[0] != BACKSLASH && AllPlain(word[1..]))
  }

  lemma {:induction false} PlainIffAll(word: Text)
    ensures AllPlain(word) <==> forall i | 0 <= i < |word| :: word[i] != BACKSLASH
  {
    if word != [] {
      PlainIffAll(word[1..]);
      assert forall i | 0 < i < |word| :: word[i] == word[1..][i - 1];
    }
  }

  lemma {:induction false} WordIsTight(c: Text, rest: Text)
    requires AllPlain(c)
    ensures Tight(c + rest, rest, c)
  {
    if c == [] {
      assert c + rest == rest;
      TightSame(rest);
    } else {
      hide Tight;
      var t := c + rest;
      WordIsTight(c[1..], rest);
      assert t[1..] == c[1..] + rest && t[0] == c[0];
      TightCharThen(t, rest, c[1..]);
      assert [c[0]] + c[1..] == c;
    }
  }

  /** A string with its quotes. */
  lemma QuotedIsTight(t: Text)
    requires t != [] && t[0] == QUOTE && ParseString(t[1..]).Got?
    ensures Tight(t, ParseString(t[1..]).rest, Quoted(ParseString(t[1..]).value)) && |ParseString(t[1..]).rest| < |t|
  {
    hide ParseString, SurrogateFree, SmallDigits, Escaped;
    var s, rest := ParseString(t[1..]).value, ParseString(t[1..]).rest;
    if SurrogateFree(s) {
      StringIsMinimal(t[1..]);
      TightCharThen(t, rest, Escaped(s) + [QUOTE]);
    } else {
      Cut.QuotedIsBalanced(t);
      TightEaten(t, rest);
    }
  }

  lemma TightEaten(t: Text, rest: Text)
    requires |rest| < |t| && t[|t| - |rest|..] == rest
    ensures Tight(t, rest, [])
  {
  }

  lemma {:induction false} ValueIsMinimal(t: Text)
    ensures ParseValue(t).Got? ==> Tight(t, ParseValue(t).rest, Compact(ParseValue(t).value))
    decreases |t|, 1
  {
    hide Tight, ParseArray, ParseObject, ParseString, ParseNumber, Literal, Quoted, ItemsTail, MembersTail;
    if ParseValue(t).Got? {
      var s := SkipWhite(t);
      var v, rest := ParseValue(t).value, ParseValue(t).rest;
      WhiteIsLoose(t);
      SkipsOnce(t);
      if s[0] == QUOTE {
        QuotedIsTight(s);
      } else if s[0] == OPEN_BRACKET {
        ArrayIsMinimal(s[1..]);
        TightCharThen(s, rest, ItemsTail(v.items));
      } else if s[0] == OPEN_BRACE {
        ObjectIsMinimal(s[1..]);
        TightCharThen(s, rest, MembersTail(v.members));
      } else {
        assert ParseValue(s) == ParseValue(t);
        LeafIsMinimal(s);
      }
      TightThenSame(t, s, rest, Compact(v));
    }
  }

  /** Words and numbers. */
  lemma LeafIsMinimal(t: Text)
    requires t != [] && SkipWhite(t) == t && ParseValue(t).Got?
    requires t[0] != QUOTE && t[0] != OPEN_BRACKET && t[0] != OPEN_BRACE
    ensures Tight(t, ParseValue(t).rest, Compact(ParseValue(t).value))
  {
    hide Tight, ParseNumber, ParseString, ParseArray, ParseObject, Literal, SkipWhite;
    if t[0] == 0x6E {
      LiteralIsTight(NULL_WORD, Null, t);
    } else if t[0] == 0x74 {
      LiteralIsTight(TRUE_WORD, Bool(true), t);
    } else if t[0] == 0x66 {
      LiteralIsTight(FALSE_WORD, Bool(false), t);
    } else if t[0] == NAN_WORD[0] {
      LiteralIsTight(NAN_WORD, NotFinite(NaN), t);
      TightShorter(t, ParseValue(t).rest, NAN_WORD);
    } else if t[0] == INFINITY_WORD[0] {
      LiteralIsTight(INFINITY_WORD, NotFinite(Infinity), t);
      TightShorter(t, ParseValue(t).rest, INFINITY_WORD);
    } else if |t| > 1 && t[0] == MINUS && t[1] == INFINITY_WORD[0] {
      LiteralIsTight([MINUS] + INFINITY_WORD, NotFinite(MinusInfinity), t);
      TightShorter(t, ParseValue(t).rest, [MINUS] + INFINITY_WORD);
    } else {
      NumberIsMinimal(t);
    }
  }

  lemma {:induction false} SkipsOnce(t: Text)
    ensures SkipWhite(SkipWhite(t)) == SkipWhite(t)
  {
    if t != [] && White(t[0]) {
      SkipsOnce(t[1..]);
    }
  }

  /** A value and the white space after it. */
  lemma ValueThenWhite(t: Text, c: Text)
    requires ParseValue(t).Got? && Tight(t, ParseValue(t).rest, c)
    ensures Tight(t, SkipWhite(ParseValue(t).rest), c)
  {
    hide Tight, ParseValue;
    var rest := ParseValue(t).rest;
    WhiteIsLoose(rest);
    TightThen(t, rest, SkipWhite(rest), c, []);
    assert c + [] == c;
  }

  lemma {:induction false} ArrayIsMinimal(t: Text)
    ensures ParseArray(t).Got? ==> ParseArray(t).value.Arr?
    ensures ParseArray(t).Got? ==>
      Tight(t, ParseArray(t).rest, ItemsTail(ParseArray(t).value.items))
    decreases |t|, 3
  {
    hide Tight, ParseItems, Compact;
    var body := SkipWhite(t);
    WhiteIsLoose(t);
    if ParseArray(t).Got? {
      if body != [] && body[0] == CLOSE_BRACKET {
        TightChar(body);
      } else {
        ItemsAreMinimal(body);
      }
      TightThenSame(t, body, ParseArray(t).rest, ItemsTail(ParseArray(t).value.items));
    }
  }

  lemma {:induction false} ItemsAreMinimal(t: Text)
    ensures ParseItems(t).Got? ==> ParseItems(t).value != []
    ensures ParseItems(t).Got? ==>
      Tight(t, ParseItems(t).rest, ItemsTail(ParseItems(t).value))
    decreases |t|, 2
  {
    hide Tight, ParseValue, Compact;
    ValueIsMinimal(t);
    if ParseItems(t).Got? {
      var v, rest := ParseValue(t).value, ParseItems(t).rest;
      var after := SkipWhite(ParseValue(t).rest);
      ValueThenWhite(t, Compact(v));
      if after[0] == CLOSE_BRACKET {
        TightChar(after);
        TightThen(t, after, rest, Compact(v), [CLOSE_BRACKET]);
      } else {
        ItemsAreMinimal(after[1..]);
        var items := ParseItems(after[1..]).value;
        assert ([v] + items)[1..] == items;
        TightCharThen(after, rest, ItemsTail(items));
        TightThen(t, after, rest, Compact(v), [COMMA] + ItemsTail(items));
      }
    }
  }

  // ---------- objects ----------

  /** How long the members are with a separator after each. */
  function Length(members: seq<Member>): nat {
    if members == [] then 0 else |MemberText(members[0])| + 1 + Length(members[1..])
  }

  lemma {:induction false} LengthOfTail(members: seq<Member>)
    requires members != []
    ensures |MembersTail(members)| == Length(members)
  {
    hide MemberText;
    if |members| == 1 {
      assert members[1..] == [];
    } else {
      LengthOfTail(members[1..]);
    }
  }

  /** A repeated key costs more than it leaves. */
  lemma {:induction false} LengthAfterPut(members: seq<Member>, key: Text, v: Json)
    ensures var more := Length(members) + |MemberText(Keyed(key, v))| + 1;
      Length(Put(members, key, v)) <= more && (Length(Put(members, key, v)) == more ==> !HasKey(members, key))
  {
    hide Compact, Quoted;
    if members == [] {
      assert [Keyed(key, v)][1..] == [];
    } else if members[0].key == key {
      assert ([Keyed(key, v)] + members[1..])[1..] == members[1..];
    } else {
      LengthAfterPut(members[1..], key, v);
      HasKeyStep(members, key);
      assert ([members[0]] + Put(members[1..], key, v))[1..] == Put(members[1..], key, v);
    }
  }

  lemma {:induction false} ObjectIsMinimal(t: Text)
    ensures ParseObject(t).Got? ==> ParseObject(t).value.Obj?
    ensures ParseObject(t).Got? ==>
      Tight(t, ParseObject(t).rest, MembersTail(ParseObject(t).value.members))
    decreases |t|, 3
  {
    hide Tight, ParseMembers, MemberText, Compact;
    var body := SkipWhite(t);
    WhiteIsLoose(t);
    if ParseObject(t).Got? {
      if body != [] && body[0] == CLOSE_BRACE {
        TightChar(body);
      } else {
        MembersAreMinimal(body, []);
        WholeIsTight(body, ParseObject(t).rest, ParseObject(t).value.members);
      }
      TightThenSame(t, body, ParseObject(t).rest, MembersTail(ParseObject(t).value.members));
    }
  }

  /** What was read onto the members so far is as long as what it added, and when it is no longer it is the text of some
      new members put after them. */
  ghost predicate Grows(t: Text, rest: Text, before: seq<Member>, final: seq<Member>) {
    && |rest| <= |t| && t[|t| - |rest|..] == rest && Length(final) <= Length(before) + |t| - |rest|
    && (Length(final) == Length(before) + |t| - |rest| && SmallDigits(t) ==> Adds(t, rest, before, final))
  }

  ghost predicate Adds(t: Text, rest: Text, before: seq<Member>, final: seq<Member>)
    requires |rest| <= |t|
  {
    && |before| < |final| && final[..|before|] == before
    && t[..|t| - |rest|] == MembersTail(final[|before|..]) && SmallDigits(rest)
  }

  lemma WholeIsTight(t: Text, rest: Text, final: seq<Member>)
    requires Grows(t, rest, [], final) && final != []
    ensures Tight(t, rest, MembersTail(final))
  {
    hide SmallDigits, MembersTail;
    LengthOfTail(final);
    assert Length([]) == 0;
    if Length(final) == |t| - |rest| && SmallDigits(t) {
      assert Adds(t, rest, [], final) && final[0..] == final;
    }
  }

  /** A key with its colon, and the value with the white space after it. */
  lemma MemberIsMinimal(t: Text)
    requires t != [] && t[0] == QUOTE && ParseString(t[1..]).Got?
    ensures var rest := SkipWhite(ParseString(t[1..]).rest);
      rest != [] && rest[0] == COLON ==> Tight(t, rest[1..], Quoted(ParseString(t[1..]).value) + [COLON])
  {
    hide Tight, ParseString, Quoted;
    var key, end := ParseString(t[1..]).value, ParseString(t[1..]).rest;
    var rest := SkipWhite(end);
    QuotedIsTight(t);
    WhiteIsLoose(end);
    TightThen(t, end, rest, Quoted(key), []);
    assert Quoted(key) + [] == Quoted(key);
    if rest != [] && rest[0] == COLON {
      TightChar(rest);
      TightThen(t, rest, rest[1..], Quoted(key), [COLON]);
    }
  }

  lemma LastMember(t: Text, after: Text, before: seq<Member>, key: Text, v: Json)
    requires Tight(t, after, MemberText(Keyed(key, v))) && after != [] && after[0] == CLOSE_BRACE
    ensures Grows(t, after[1..], before, Put(before, key, v))
  {
    hide SmallDigits, MemberText, Compact;
    var m := Keyed(key, v);
    TightChar(after);
    TightThen(t, after, after[1..], MemberText(m), [CLOSE_BRACE]);
    LengthAfterPut(before, key, v);
    var final := Put(before, key, v);
    if Length(final) == Length(before) + |t| - |after[1..]| && SmallDigits(t) {
      PutNew(before, key, v);
      assert final[|before|..] == [m];
      assert t[..|t| - |after[1..]|] == MemberText(m) + [CLOSE_BRACE];
    }
  }

  lemma MoreMembers(
    t: Text, after: Text, rest: Text, before: seq<Member>, key: Text, v: Json, final: seq<Member>)
    requires Tight(t, after, MemberText(Keyed(key, v))) && after != [] && after[0] == COMMA
    requires Grows(after[1..], rest, Put(before, key, v), final)
    ensures Grows(t, rest, before, final)
  {
    hide SmallDigits, MemberText, Compact, MembersTail;
    var m := Keyed(key, v);
    TightChar(after);
    TightThen(t, after, after[1..], MemberText(m), [COMMA]);
    LengthAfterPut(before, key, v);
    var k := |t| - |after[1..]|;
    assert t[k..][|after[1..]| - |rest|..] == t[|t| - |rest|..];
    if Length(final) == Length(before) + |t| - |rest| && SmallDigits(t) {
      PutNew(before, key, v);
      var added := final[|before|..];
      assert final[..|before| + 1] == before + [m];
      assert final[|before|] == final[..|before| + 1][|before|] == m;
      assert added[0] == m && added[1..] == final[|before| + 1..] && final[..|before|] == before;
      assert t[..|t| - |rest|] == t[..k] + t[k..][..|after[1..]| - |rest|];
      TailOfMore(added);
      Regroup(MemberText(m), [COMMA], MembersTail(added[1..]));
    }
  }

  lemma TailOfMore(members: seq<Member>)
    requires |members| > 1
    ensures MembersTail(members) == MemberText(members[0]) + ([COMMA] + MembersTail(members[1..]))
  {
    hide MemberText;
  }

  lemma {:induction false} MembersAreMinimal(t: Text, before: seq<Member>)
    ensures ParseMembers(t, before).Got? ==>
      && ParseMembers(t, before).value != []
      && Grows(t, ParseMembers(t, before).rest, before, ParseMembers(t, before).value)
    decreases |t|, 2
  {
    hide Tight, Grows, ParseValue, ParseString, Put, Compact, Quoted;
    if ParseMembers(t, before).Got? {
      var final, end := ParseMembers(t, before).value, ParseMembers(t, before).rest;
      var s := SkipWhite(t);
      var key, value := ParseString(s[1..]).value, SkipWhite(ParseString(s[1..]).rest)[1..];
      var v, after := ParseValue(value).value, SkipWhite(ParseValue(value).rest);
      WhiteIsLoose(t);
      MemberIsMinimal(s);
      ValueIsMinimal(value);
      ValueThenWhite(value, Compact(v));
      TightThen(s, value, after, Quoted(key) + [COLON], Compact(v));
      Regroup(Quoted(key), [COLON], Compact(v));
      TightThenSame(t, s, after, MemberText(Keyed(key, v)));
      PutIsSome(before, key, v);
      if after[0] == CLOSE_BRACE {
        LastMember(t, after, before, key, v);
      } else {
        MembersAreMinimal(after[1..], Put(before, key, v));
        MoreMembers(t, after, end, before, key, v, final);
      }
    }
  }

  lemma PutIsSome(members: seq<Member>, key: Text, v: Json)
    ensures Put(members, key, v) != []
  {
  }

  // ---------- canonical text is compact ----------

  /** In canonical order all the way down, and every number a safe integer. */
  ghost predicate Whole(v: Json) {
    match v
    case Int(n) => SafeInteger(n)
    case Str(s) => SurrogateFree(s)
    case Arr(items) => forall i | 0 <= i < |items| :: Whole(items[i])
    case Obj(members) =>
      Sorted(members) && CleanKeys(members) && forall i | 0 <= i < |members| :: Whole(members[i].value)
    case Num(_) => false
    case MinusZero => false
    case NotFinite(_) => false
    case _ => true
  }

  lemma {:induction false} WholeIsCompact(v: Json)
    requires Whole(v)
    ensures JcsValue(v) == Ok(Compact(v))
    decreases v, 1, 0
  {
    hide Sort, IntText, Escaped, SurrogateFree, ItemsTail, MembersTail, JcsItems, JcsMembers;
    match v
    case Str(s) => Regroup([QUOTE], Escaped(s), [QUOTE]);
    case Arr(items) =>
      ItemsAreCompact(items, v);
      Regroup([OPEN_BRACKET], JcsItems(items, v).value, [CLOSE_BRACKET]);
    case Obj(members) =>
      SortedIsFixed(members);
      forall m | m in members ensures m.value < v {
      }
      MembersAreCompact(members, v);
      Regroup([OPEN_BRACE], JcsMembers(members, v).value, [CLOSE_BRACE]);
    case _ =>
  }

  lemma {:induction false} ItemsAreCompact(items: seq<Json>, whole: Json)
    requires forall i | 0 <= i < |items| :: items[i] < whole && Whole(items[i])
    ensures JcsItems(items, whole).Ok? && JcsItems(items, whole).value + [CLOSE_BRACKET] == ItemsTail(items)
    decreases whole, 0, |items|
  {
    if items != [] {
      hide Compact, JcsValue, Whole;
      WholeIsCompact(items[0]);
      if |items| > 1 {
        ItemsAreCompact(items[1..], whole);
        Regroup(Compact(items[0]) + [COMMA], JcsItems(items[1..], whole).value, [CLOSE_BRACKET]);
        Regroup(Compact(items[0]), [COMMA], ItemsTail(items[1..]));
      }
    }
  }

  lemma {:induction false} MembersAreCompact(members: seq<Member>, whole: Json)
    requires forall m | m in members :: m.value < whole
    requires forall i | 0 <= i < |members| :: Whole(members[i].value) && SurrogateFree(members[i].key)
    ensures JcsMembers(members, whole).Ok? && JcsMembers(members, whole).value + [CLOSE_BRACE] == MembersTail(members)
    decreases whole, 0, |members|
  {
    if members != [] {
      hide Compact, JcsValue, Whole, Escaped, SurrogateFree;
      var m := members[0];
      WholeIsCompact(m.value);
      MemberIsCompact(m);
      var first := StringText(m.key).value + [COLON] + JcsValue(m.value).value;
      if |members| > 1 {
        MembersAreCompact(members[1..], whole);
        Regroup(first + [COMMA], JcsMembers(members[1..], whole).value, [CLOSE_BRACE]);
        Regroup(first, [COMMA], MembersTail(members[1..]));
      }
    }
  }

  lemma MemberIsCompact(m: Member)
    requires SurrogateFree(m.key) && JcsValue(m.value) == Ok(Compact(m.value))
    ensures StringText(m.key).Ok? && MemberText(m) == StringText(m.key).value + [COLON] + JcsValue(m.value).value
  {
    hide Compact, JcsValue, Escaped, SurrogateFree;
    Regroup([QUOTE], Escaped(m.key), [QUOTE]);
    Regroup(Quoted(m.key), [COLON], Compact(m.value));
  }

  /** Every float is laid out as a safe integer. */
  ghost predicate NoFractions(v: Json) {
    match v
    case Num(d) => JcsNumber.Reread(d).Int? && SafeInteger(JcsNumber.Reread(d).n)
    case Arr(items) => forall i | 0 <= i < |items| :: NoFractions(items[i])
    case Obj(members) => forall i | 0 <= i < |members| :: NoFractions(members[i].value)
    case _ => true
  }

  lemma {:induction false} NormIsWhole(v: Json)
    requires WellFormed(v) && Canonicalizable(v) && NoFractions(v)
    ensures Whole(Norm(v)) && Rereadable(v)
    decreases v
  {
    hide JcsNumber.Reread, Sorted, CleanKeys, SurrogateFree;
    match v
    case Arr(items) =>
      forall i | 0 <= i < |items| ensures Whole(Norm(v).items[i]) && Rereadable(items[i]) {
        NormIsWhole(items[i]);
      }
    case Obj(members) =>
      KeysOfPrintable(members);
      forall i | 0 <= i < |members| ensures Whole(Norm(members[i].value)) && Rereadable(members[i].value) {
        assert Printable(members[i]);
        NormIsWhole(members[i].value);
      }
      ObjectIsWhole(members);
    case _ =>
  }

  lemma ObjectIsWhole(members: seq<Member>)
    requires DistinctKeys(members) && CleanKeys(members)
    requires forall i | 0 <= i < |members| :: Whole(Norm(members[i].value))
    ensures Whole(Norm(Obj(members)))
  {
    hide Sorted, SurrogateFree, Norm;
    NormObject(members);
    var normal := Norm(Obj(members)).members;
    NormMembersSorted(members);
    forall j | 0 <= j < |normal| ensures Whole(normal[j].value) && SurrogateFree(normal[j].key) {
      var i := NormMemberFrom(members, normal[j]);
    }
  }

  lemma NormObject(members: seq<Member>)
    ensures Norm(Obj(members)).Obj?
  {
  }

  /** When no number is printed as a fraction, no text that reads back as the same document is shorter than the
      canonical one, and no other of the same length writes its digits small. */
  lemma CanonicalIsShortest(v: Json, t: Text)
    requires WellFormed(v) && JcsValue(v).Ok? && NoFractions(v)
    requires Loads(t) == Some(Norm(v))
    ensures |JcsValue(v).value| <= |t|
    ensures |JcsValue(v).value| == |t| && SmallDigits(t) ==> t == JcsValue(v).value
  {
    hide JcsValue, Norm, Whole, WellFormed, Canonicalizable, NoFractions, Compact, ParseValue, Tight, Rereadable;
    var w := Norm(v);
    JcsSucceedsIff(v);
    NormIsWhole(v);
    NormPrintsIff(v);
    NormIsFixed(v);
    SameNormPrintsAlike(w, v);
    WholeIsCompact(w);
    ValueIsMinimal(t);
    ValueThenWhite(t, Compact(w));
    TightWhole(t, Compact(w));
  }

  lemma TightWhole(t: Text, c: Text)
    requires Tight(t, [], c)
    ensures |c| <= |t| && (|c| == |t| && SmallDigits(t) ==> t == c)
  {
    hide SmallDigits;
    assert t[..|t|] == t;
  }

  /** A float printed with an exponent has a shorter spelling: a reader does not need the plus sign. */
  lemma FractionsAreNot()
    ensures var v := Num(Decimal(1, 21));
      var shorter := [0x31, LETTER_E, 0x32, 0x31];
      && JcsValue(v) == Ok([0x31, LETTER_E, PLUS, 0x32, 0x31])
      && Loads(shorter) == Some(Norm(v)) && |shorter| < |JcsValue(v).value|
  {
    var v := Num(Decimal(1, 21));
    var shorter: Text := [0x31, LETTER_E, 0x32, 0x31];
    assert Digits(1) == [0x31] && Digits(2) == [0x32];
    assert Digits(21) == Digits(2) + [0x31];
    assert Digits(21) == [0x32, 0x31] && ExponentText(21) == [LETTER_E, PLUS, 0x32, 0x31];
    assert Canon(Decimal(1, 21)) == Decimal(1, 21) && Abs(1) == 1;
    assert Layout([0x31], 21) == [0x31] + ExponentText(21);
    assert NumText(Decimal(1, 21)) == [] + ([0x31] + ExponentText(21));
    assert [] + ([0x31] + ExponentText(21)) == [0x31, LETTER_E, PLUS, 0x32, 0x31];
    assert shorter[1..] == [LETTER_E, 0x32, 0x31] && shorter[1..][1..] == [0x32, 0x31];
    assert [0x32, 0x31][1..] == [0x31] && [0x31][1..] == [];
    assert ReadDigits([0x32, 0x31], 0) == ReadDigits([0x31], 2) == ReadDigits([], 21) == (21, []);
    assert ReadExponent(shorter[1..]) == (Some(21), []);
    assert ReadDigits(shorter[1..], 1) == (1, shorter[1..]);
    assert ParseNumber(shorter) == Got(Num(Decimal(1, 21)), []);
  }

  // ---------- no white space ----------

  /** White space stands in strings only. */
  predicate WhiteInside(t: Text, q: Cut.Mode) {
    t == [] || (!(q.Outside? && White(t[0])) && WhiteInside(t[1..], Cut.Next(q, t[0])))
  }

  /** A piece of text that begins and ends outside strings and has no white space there. */
  predicate Solid(t: Text) {
    WhiteInside(t, Cut.Outside) && Cut.Scan(t, Cut.Outside) == Cut.Outside
  }

  lemma {:induction false} WhiteInsideConcat(a: Text, b: Text, q: Cut.Mode)
    ensures WhiteInside(a + b, q) <==> WhiteInside(a, q) && WhiteInside(b, Cut.Scan(a, q))
    ensures Cut.Scan(a + b, q) == Cut.Scan(b, Cut.Scan(a, q))
  {
    if a == [] {
      assert a + b == b;
    } else {
      assert (a + b)[0] == a[0] && (a + b)[1..] == a[1..] + b;
      WhiteInsideConcat(a[1..], b, Cut.Next(q, a[0]));
    }
  }

  lemma SolidConcat(a: Text, b: Text)
    requires Solid(a) && Solid(b)
    ensures Solid(a + b)
  {
    WhiteInsideConcat(a, b, Cut.Outside);
  }

  lemma {:induction false} DenseIsSolid(t: Text)
    requires forall i | 0 <= i < |t| :: !White(t[i]) && t[i] != QUOTE && t[i] != BACKSLASH
    ensures Solid(t)
  {
    if t != [] {
      DenseIsSolid(t[1..]);
    }
  }

  lemma {:induction false} EscapedStaysInside(s: Text)
    requires SurrogateFree(s)
    ensures WhiteInside(Escaped(s) + [QUOTE], Cut.Inside) && Cut.Scan(Escaped(s) + [QUOTE], Cut.Inside) == Cut.Outside
  {
    if s == [] {
      assert Escaped(s) + [QUOTE] == [QUOTE] && [QUOTE][1..] == [];
    } else {
      hide Escape, WhiteInside, Cut.Scan;
      EscapedStaysInside(s[1..]);
      EscapeStaysInside(s[0]);
      WhiteInsideConcat(Escape(s[0]), Escaped(s[1..]) + [QUOTE], Cut.Inside);
      Regroup(Escape(s[0]), Escaped(s[1..]), [QUOTE]);
    }
  }

  lemma EscapeStaysInside(c: CodePoint)
    requires Scalar(c)
    ensures WhiteInside(Escape(c), Cut.Inside) && Cut.Scan(Escape(c), Cut.Inside) == Cut.Inside
  {
    var t := Escape(c);
    if |t| == 6 {
      SixInside(t);
    } else if |t| == 2 {
      assert t == [t[0]] + [t[1]] && [t[0]][1..] == [] && [t[1]][1..] == [];
      WhiteInsideConcat([t[0]], [t[1]], Cut.Inside);
    } else {
      assert t[1..] == [];
    }
  }

  lemma SixInside(t: Text)
    requires |t| == 6 && t[0] == BACKSLASH && forall i | 2 <= i < 6 :: t[i] != QUOTE && t[i] != BACKSLASH
    ensures WhiteInside(t, Cut.Inside) && Cut.Scan(t, Cut.Inside) == Cut.Inside
  {
    PlainInside(t[2..]);
    assert t == [t[0], t[1]] + t[2..];
    assert [t[0], t[1]][1..] == [t[1]] && [t[1]][1..] == [];
    WhiteInsideConcat([t[0], t[1]], t[2..], Cut.Inside);
  }

  lemma {:induction false} PlainInside(t: Text)
    requires forall i | 0 <= i < |t| :: t[i] != QUOTE && t[i] != BACKSLASH
    ensures WhiteInside(t, Cut.Inside) && Cut.Scan(t, Cut.Inside) == Cut.Inside
  {
    if t != [] {
      PlainInside(t[1..]);
    }
  }

  lemma StringIsSolid(s: Text)
    requires SurrogateFree(s)
    ensures Solid([QUOTE] + Escaped(s) + [QUOTE])
  {
    hide Escaped, SurrogateFree;
    EscapedStaysInside(s);
    var body := Escaped(s) + [QUOTE];
    Regroup([QUOTE], Escaped(s), [QUOTE]);
    assert ([QUOTE] + body)[1..] == body;
  }

  lemma {:induction false} DigitsAreDense(t: Text)
    requires AllDigits(t)
    ensures forall i | 0 <= i < |t| :: Digit(t[i])
  {
    if t != [] {
      DigitsAreDense(t[1..]);
      assert forall i | 0 < i < |t| :: t[i] == t[1..][i - 1];
    }
  }

  lemma IntIsSolid(n: int)
    ensures Solid(IntText(n))
  {
    hide Digits;
    NatOfDigits(Abs(n));
    DigitsAreDense(Digits(Abs(n)));
    DenseIsSolid(IntText(n));
  }

  lemma NumIsSolid(d: Decimal)
    ensures Solid(NumText(d))
  {
    hide Digits, Canon, Layout, NatOf, AllDigits;
    var c := Canon(d);
    if c.m == 0 {
      DenseIsSolid([ZERO]);
    } else {
      var digits := Digits(Abs(c.m));
      NatOfDigits(Abs(c.m));
      LeadingDigit(Abs(c.m));
      LayoutIsSolid(digits, c.e);
      DenseIsSolid(SignText(c.m < 0));
      SolidConcat(SignText(c.m < 0), Layout(digits, c.e));
    }
  }

  lemma LayoutIsSolid(digits: Text, e10: int)
    requires AllDigits(digits) && digits != [] && digits[0] != ZERO
    ensures Solid(Layout(digits, e10))
  {
    hide Layout, NatOf, AllDigits, Digits, Solid;
    var i, f, k := JcsNumber.LayoutParts(digits, e10);
    RunIsSolid(i) by {
      WholeIsRun(i);
    }
    RunIsSolid(f);
    DenseIsSolid([POINT]);
    DenseIsSolid([]);
    SolidConcat([POINT], f);
    var tail := JcsNumber.TailText(k);
    if k.Some? {
      NatOfDigits(Abs(k.value));
      RunIsSolid(Digits(Abs(k.value)));
      var head := [LETTER_E, if k.value >= 0 then PLUS else MINUS];
      DenseIsSolid(head);
      SolidConcat(head, Digits(Abs(k.value)));
    }
    SolidConcat(JcsNumber.FractionText(f), tail);
    SolidConcat(i, JcsNumber.FractionText(f) + tail);
  }

  lemma WholeIsRun(i: Text)
    requires JcsNumber.WholePart(i)
    ensures AllDigits(i)
  {
  }

  lemma RunIsSolid(t: Text)
    requires AllDigits(t)
    ensures Solid(t)
  {
    DigitsAreDense(t);
    DenseIsSolid(t);
  }

  lemma BracketsAreSolid(open: CodePoint, body: Text, close: CodePoint)
    requires Solid(body) && open in [OPEN_BRACE, OPEN_BRACKET] && close in [CLOSE_BRACE, CLOSE_BRACKET]
    ensures Solid([open] + body + [close])
  {
    hide Solid;
    DenseIsSolid([open]);
    DenseIsSolid([close]);
    SolidConcat([open], body);
    SolidConcat([open] + body, [close]);
  }

  /** Canonical text has white space in strings only. */
  lemma {:induction false} CanonicalIsSolid(v: Json)
    requires JcsValue(v).Ok?
    ensures Solid(JcsValue(v).value)
    decreases v, 1, 0
  {
    hide Solid, Sort, IntText, NumText, Escaped, SurrogateFree, JcsItems, JcsMembers;
    match v
    case Null => DenseIsSolid(NULL_WORD);
    case Bool(b) => DenseIsSolid(if b then TRUE_WORD else FALSE_WORD);
    case Int(n) => IntIsSolid(n);
    case Num(d) => NumIsSolid(d);
    case MinusZero => DenseIsSolid([ZERO]);
    case Str(s) => StringIsSolid(s);
    case Arr(items) =>
      ItemsAreSolid(items, v);
      BracketsAreSolid(OPEN_BRACKET, JcsItems(items, v).value, CLOSE_BRACKET);
    case Obj(members) =>
      SortKeepsMembers(members);
      MembersAreSolid(Sort(members), v);
      BracketsAreSolid(OPEN_BRACE, JcsMembers(Sort(members), v).value, CLOSE_BRACE);
  }

  lemma {:induction false} ItemsAreSolid(items: seq<Json>, whole: Json)
    requires forall i | 0 <= i < |items| :: items[i] < whole
    requires JcsItems(items, whole).Ok?
    ensures Solid(JcsItems(items, whole).value)
    decreases whole, 0, |items|
  {
    hide Solid, JcsValue;
    if items == [] {
      DenseIsSolid([]);
    } else {
      CanonicalIsSolid(items[0]);
      if |items| > 1 {
        ItemsAreSolid(items[1..], whole);
        DenseIsSolid([COMMA]);
        SolidConcat(JcsValue(items[0]).value, [COMMA]);
        SolidConcat(JcsValue(items[0]).value + [COMMA], JcsItems(items[1..], whole).value);
      }
    }
  }

  lemma {:induction false} MembersAreSolid(members: seq<Member>, whole: Json)
    requires forall m | m in members :: m.value < whole
    requires JcsMembers(members, whole).Ok?
    ensures Solid(JcsMembers(members, whole).value)
    decreases whole, 0, |members|
  {
    hide Solid, JcsValue, Escaped, SurrogateFree;
    if members == [] {
      DenseIsSolid([]);
    } else {
      var key, value := StringText(members[0].key).value, JcsValue(members[0].value).value;
      StringIsSolid(members[0].key);
      CanonicalIsSolid(members[0].value);
      DenseIsSolid([COLON]);
      SolidConcat(key, [COLON]);
      SolidConcat(key + [COLON], value);
      if |members| > 1 {
        MembersAreSolid(members[1..], whole);
        DenseIsSolid([COMMA]);
        SolidConcat(key + [COLON] + value, [COMMA]);
        SolidConcat(key + [COLON] + value + [COMMA], JcsMembers(members[1..], whole).value);
      }
    }
  }
}

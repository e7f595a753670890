/** No proper end of a JSON object's text is itself a JSON text. */
module JsonCut {
  // A scanner that only knows strings, escapes and brackets: what the reader accepts it finds balanced, and an end of
  // an object's text is not.

  import opened Prelude
  import opened Texts
  import opened Decimals
  import opened Json
  import opened Jcs
  import opened JsonParser
  import opened JcsRoundTrip
  import opened JsonDump

  // ---------- the scanner ----------

  /** Outside of strings a backslash has no meaning. */
  datatype Mode = Outside | Inside | Escaped | Broken

  function Next(q: Mode, c: CodePoint): Mode {
    match q
    case Outside => if c == QUOTE then Inside else if c == BACKSLASH then Broken else Outside
    case Inside => if c == QUOTE then Outside else if c == BACKSLASH then Escaped else Inside
    case Escaped => Inside
    case Broken => Broken
  }

  /** How many brackets a character opens. */
  function Delta(q: Mode, c: CodePoint): int {
    if !q.Outside? then 0
    else if c == OPEN_BRACE || c == OPEN_BRACKET then 1
    else if c == CLOSE_BRACE || c == CLOSE_BRACKET then -1
    else 0
  }

  function Scan(t: Text, q: Mode): Mode {
    if t == [] then q else Scan(t[1..], Next(q, t[0]))
  }

  function Depth(t: Text, q: Mode): int {
    if t == [] then 0 else Delta(q, t[0]) + Depth(t[1..], Next(q, t[0]))
  }

  /** Started at depth `d`, no character stands below depth 0. */
  predicate Above(t: Text, q: Mode, d: int) {
    t == [] || (d >= 0 && Above(t[1..], Next(q, t[0]), d + Delta(q, t[0])))
  }

  lemma {:induction false} ScanConcat(a: Text, b: Text, q: Mode, d: int)
    ensures Scan(a + b, q) == Scan(b, Scan(a, q))
    ensures Depth(a + b, q) == Depth(a, q) + Depth(b, Scan(a, q))
    ensures Above(a + b, q, d) <==> Above(a, q, d) && Above(b, Scan(a, q), d + Depth(a, q))
  {
    if a == [] {
      assert a + b == b;
    } else {
      assert (a + b)[0] == a[0] && (a + b)[1..] == a[1..] + b;
      ScanConcat(a[1..], b, Next(q, a[0]), d + Delta(q, a[0]));
    }
  }

  lemma {:induction false} AboveHigher(t: Text, q: Mode, d: int, e: int)
    requires Above(t, q, d) && d <= e
    ensures Above(t, q, e)
  {
    if t != [] {
      AboveHigher(t[1..], Next(q, t[0]), d + Delta(q, t[0]), e + Delta(q, t[0]));
    }
  }

  lemma {:induction false} BrokenStays(t: Text)
    ensures Scan(t, Broken) == Broken
  {
    if t != [] {
      BrokenStays(t[1..]);
    }
  }

  /** A text that ends outside strings when begun outside does not when begun inside: every quote turns both. */
  lemma {:induction false} OneParity(t: Text)
    ensures !(Scan(t, Outside) == Outside && Scan(t, Inside) == Outside)
  {
    if t != [] {
      if t[0] == BACKSLASH {
        BrokenStays(t[1..]);
      } else {
        OneParity(t[1..]);
      }
    }
  }

  // ---------- what the reader consumes ----------

  /** `rest` ends `t`, and what stands before it leads from one mode to the other, raises the depth by `n` and never
      goes below where it began. */
  predicate Eats(t: Text, rest: Text, q: Mode, r: Mode, n: int) {
    && |rest| <= |t| && t[|t| - |rest|..] == rest
    && var c := t[..|t| - |rest|];
       Scan(c, q) == r && Depth(c, q) == n && Above(c, q, 0)
  }

  lemma EatsNothing(t: Text, q: Mode)
    ensures Eats(t, t, q, q, 0)
  {
    assert t[..|t| - |t|] == [] && t[|t| - |t|..] == t;
  }

  lemma EatsThen(t: Text, mid: Text, rest: Text, q: Mode, m: Mode, r: Mode, k: nat, n: int)
    requires Eats(t, mid, q, m, k) && Eats(mid, rest, m, r, n)
    ensures Eats(t, rest, q, r, k + n)
  {
    hide Scan, Depth, Above;
    var a, b := t[..|t| - |mid|], mid[..|mid| - |rest|];
    assert t == a + mid && mid == b + rest;
    assert t[..|t| - |rest|] == a + b;
    ScanConcat(a, b, q, 0);
    AboveHigher(b, m, 0, k);
  }

  lemma EatsOne(t: Text, q: Mode)
    requires t != []
    ensures Eats(t, t[1..], q, Next(q, t[0]), Delta(q, t[0]))
  {
    var c := t[..|t| - |t[1..]|];
    assert c == [t[0]] && c[1..] == [];
  }

  /** One character, then the rest. */
  lemma EatsOneThen(t: Text, rest: Text, q: Mode, r: Mode, n: int)
    requires t != [] && Delta(q, t[0]) >= 0 && Eats(t[1..], rest, Next(q, t[0]), r, n)
    ensures Eats(t, rest, q, r, Delta(q, t[0]) + n)
  {
    hide Eats, Next, Delta;
    EatsOne(t, q);
    EatsThen(t, t[1..], rest, q, Next(q, t[0]), r, Delta(q, t[0]), n);
  }

  /** No quote, backslash or bracket. */
  predicate Dull(c: CodePoint) {
    Next(Outside, c) == Outside && Delta(Outside, c) == 0
  }

  lemma EatsDull(t: Text, rest: Text, r: Mode, n: int)
    requires t != [] && Dull(t[0]) && Eats(t[1..], rest, Outside, r, n)
    ensures Eats(t, rest, Outside, r, n)
  {
    hide Eats;
    EatsOneThen(t, rest, Outside, r, n);
  }

  lemma {:induction false} WhiteIsDull(t: Text)
    ensures Eats(t, SkipWhite(t), Outside, Outside, 0)
  {
    hide Eats;
    if t != [] && JsonParser.White(t[0]) {
      WhiteIsDull(t[1..]);
      EatsDull(t, SkipWhite(t), Outside, 0);
    } else {
      EatsNothing(t, Outside);
    }
  }

  // ---------- numbers ----------

  lemma {:induction false} DigitsAreDull(t: Text, acc: nat)
    ensures Eats(t, ReadDigits(t, acc).1, Outside, Outside, 0)
    decreases |t|
  {
    hide Eats;
    if t != [] && Digit(t[0]) {
      DigitsAreDull(t[1..], 10 * acc + (t[0] - 0x30));
      EatsDull(t, ReadDigits(t, acc).1, Outside, 0);
    } else {
      EatsNothing(t, Outside);
    }
  }

  lemma NatIsDull(t: Text)
    ensures ParseNat(t).Got? ==> Eats(t, ParseNat(t).rest, Outside, Outside, 0)
  {
    hide Eats, ReadDigits;
    if t != [] && Digit(t[0]) {
      EatsNothing(t[1..], Outside);
      DigitsAreDull(t[1..], t[0] - 0x30);
      EatsDull(t, ParseNat(t).rest, Outside, 0);
    }
  }

  lemma FractionIsDull(t: Text, n: nat)
    ensures Eats(t, ReadFraction(t, n).2, Outside, Outside, 0)
  {
    hide Eats, ReadDigits;
    if |t| > 1 && t[0] == POINT && Digit(t[1]) {
      DigitsAreDull(t[1..], n);
      EatsDull(t, ReadFraction(t, n).2, Outside, 0);
    } else {
      EatsNothing(t, Outside);
    }
  }

  lemma ExponentIsDull(t: Text)
    ensures Eats(t, ReadExponent(t).1, Outside, Outside, 0)
  {
    hide Eats, ReadDigits;
    var rest := ReadExponent(t).1;
    EatsNothing(t, Outside);
    if ReadExponent(t).0.Some? {
      if t[1] == PLUS || t[1] == MINUS {
        assert t[1..][1..] == t[2..];
        DigitsAreDull(t[2..], 0);
        EatsDull(t[1..], rest, Outside, 0);
      } else {
        DigitsAreDull(t[1..], 0);
      }
      EatsDull(t, rest, Outside, 0);
    }
  }

  lemma NumberIsDull(t: Text)
    ensures ParseNumber(t).Got? ==> Eats(t, ParseNumber(t).rest, Outside, Outside, 0)
  {
    hide Eats, ParseNat, ReadFraction, ReadExponent, FloatOf;
    var negative := t != [] && t[0] == MINUS;
    var s := if negative then t[1..] else t;
    NatIsDull(s);
    if ParseNat(s).Got? {
      var n, rest := ParseNat(s).value, ParseNat(s).rest;
      FractionIsDull(rest, n);
      var after := ReadFraction(rest, n).2;
      ExponentIsDull(after);
      var end := ReadExponent(after).1;
      EatsThen(rest, after, end, Outside, Outside, Outside, 0, 0);
      EatsThen(s, rest, end, Outside, Outside, Outside, 0, 0);
      if negative {
        EatsDull(t, end, Outside, 0);
      }
    }
  }

  // ---------- strings ----------

  lemma HexIsInside(t: Text)
    requires t != [] && HexValue(t[0]).Some?
    ensures Next(Inside, t[0]) == Inside && Delta(Inside, t[0]) == 0
  {
  }

  lemma Hex4IsInside(t: Text)
    ensures ParseHex4(t).Got? ==> Eats(t, ParseHex4(t).rest, Inside, Inside, 0)
  {
    hide Eats, Next, Delta, HexValue;
    if ParseHex4(t).Got? {
      var t1, t2, t3, t4 := t[1..], t[2..], t[3..], t[4..];
      assert t1[1..] == t2 && t2[1..] == t3 && t3[1..] == t4;
      assert t1[0] == t[1] && t2[0] == t[2] && t3[0] == t[3];
      HexIsInside(t);
      HexIsInside(t1);
      HexIsInside(t2);
      HexIsInside(t3);
      EatsNothing(t4, Inside);
      EatsOneThen(t3, t4, Inside, Inside, 0);
      EatsOneThen(t2, t4, Inside, Inside, 0);
      EatsOneThen(t1, t4, Inside, Inside, 0);
      EatsOneThen(t, t4, Inside, Inside, 0);
    }
  }

  /** A backslash and the character after it. */
  lemma EatsEscape(t: Text, rest: Text)
    requires |t| > 1 && t[0] == BACKSLASH && Eats(t[2..], rest, Inside, Inside, 0)
    ensures Eats(t, rest, Inside, Inside, 0)
  {
    hide Eats;
    assert t[1..][1..] == t[2..];
    EatsOneThen(t[1..], rest, Escaped, Inside, 0);
    EatsOneThen(t, rest, Inside, Inside, 0);
  }

  lemma UnicodeIsInside(t: Text)
    ensures ParseUnicode(t).Got? ==> Eats(t, ParseUnicode(t).rest, Inside, Inside, 0)
  {
    hide Eats, ParseHex4;
    Hex4IsInside(t);
    if ParseUnicode(t).Got? {
      var rest := ParseHex4(t).rest;
      EatsNothing(rest, Inside);
      if ParseUnicode(t).rest != rest {
        Hex4IsInside(rest[2..]);
        EatsEscape(rest, ParseUnicode(t).rest);
      }
      EatsThen(t, rest, ParseUnicode(t).rest, Inside, Inside, Inside, 0, 0);
    }
  }

  lemma CharIsInside(t: Text)
    requires t == [] || t[0] != QUOTE
    ensures ParseChar(t).Got? ==> Eats(t, ParseChar(t).rest, Inside, Inside, 0)
  {
    hide Eats, ParseUnicode;
    if ParseChar(t).Got? {
      if t[0] == BACKSLASH {
        assert t[1..][1..] == t[2..];
        EatsNothing(t[2..], Inside);
        UnicodeIsInside(t[2..]);
        EatsEscape(t, ParseChar(t).rest);
      } else {
        EatsNothing(t[1..], Inside);
        EatsOneThen(t, t[1..], Inside, Inside, 0);
      }
    }
  }

  lemma {:induction false} StringEnds(t: Text)
    ensures ParseString(t).Got? ==> Eats(t, ParseString(t).rest, Inside, Outside, 0)
    decreases |t|
  {
    hide Eats, ParseChar;
    if ParseString(t).Got? {
      if t != [] && t[0] == QUOTE {
        EatsOne(t, Inside);
      } else {
        var rest := ParseChar(t).rest;
        CharIsInside(t);
        StringEnds(rest);
        EatsThen(t, rest, ParseString(t).rest, Inside, Inside, Outside, 0, 0);
      }
    }
  }

  /** A whole string, its opening quote included. */
  lemma QuotedIsBalanced(t: Text)
    requires t != [] && t[0] == QUOTE && ParseString(t[1..]).Got?
    ensures Eats(t, ParseString(t[1..]).rest, Outside, Outside, 0)
  {
    hide Eats, ParseString;
    StringEnds(t[1..]);
    EatsOneThen(t, ParseString(t[1..]).rest, Outside, Outside, 0);
  }

  // ---------- values ----------

  predicate AllDull(word: Text) {
    word == [] || (Dull(word[0]) && AllDull(word[1..]))
  }

  lemma {:induction false} DullPrefix(word: Text, t: Text)
    requires word <= t && AllDull(word)
    ensures Eats(t, t[|word|..], Outside, Outside, 0)
  {
    hide Eats;
    if word == [] {
      EatsNothing(t, Outside);
    } else {
      assert word[1..] <= t[1..] && t[1..][|word| - 1..] == t[|word|..];
      DullPrefix(word[1..], t[1..]);
      EatsDull(t, t[|word|..], Outside, 0);
    }
  }

  lemma {:induction false} DullIffAll(word: Text)
    ensures AllDull(word) <==> forall i | 0 <= i < |word| :: Dull(word[i])
  {
    if word != [] {
      DullIffAll(word[1..]);
      assert forall i | 0 < i < |word| :: word[i] == word[1..][i - 1];
    }
  }

  lemma LiteralIsDull(word: Text, v: Json, t: Text)
    requires word in [NULL_WORD, TRUE_WORD, FALSE_WORD, NAN_WORD, INFINITY_WORD, [MINUS] + INFINITY_WORD]
    ensures Literal(word, v, t).Got? ==> Eats(t, Literal(word, v, t).rest, Outside, Outside, 0)
  {
    hide Eats, AllDull;
    DullIffAll(word);
    if Literal(word, v, t).Got? {
      DullPrefix(word, t);
    }
  }

  /** What the reader takes for a value is balanced. */
  lemma {:induction false} ValueIsBalanced(t: Text)
    ensures ParseValue(t).Got? ==> Eats(t, ParseValue(t).rest, Outside, Outside, 0)
    decreases |t|, 1
  {
    hide Eats, ParseArray, ParseObject, ParseString, ParseNumber, Literal;
    var s := SkipWhite(t);
    if ParseValue(t).Got? {
      var rest := ParseValue(t).rest;
      WhiteIsDull(t);
      LiteralIsDull(NULL_WORD, Null, s);
      LiteralIsDull(TRUE_WORD, Bool(true), s);
      LiteralIsDull(FALSE_WORD, Bool(false), s);
      LiteralIsDull(NAN_WORD, NotFinite(NaN), s);
      LiteralIsDull(INFINITY_WORD, NotFinite(Infinity), s);
      LiteralIsDull([MINUS] + INFINITY_WORD, NotFinite(MinusInfinity), s);
      NumberIsDull(s);
      if s[0] == QUOTE {
        QuotedIsBalanced(s);
      } else if s[0] == OPEN_BRACKET {
        ArrayCloses(s[1..]);
        EatsOneThen(s, rest, Outside, Outside, -1);
      } else if s[0] == OPEN_BRACE {
        ObjectCloses(s[1..]);
        EatsOneThen(s, rest, Outside, Outside, -1);
      }
      EatsThen(t, s, rest, Outside, Outside, Outside, 0, 0);
    }
  }

  lemma {:induction false} ArrayCloses(t: Text)
    ensures ParseArray(t).Got? ==> Eats(t, ParseArray(t).rest, Outside, Outside, -1)
    decreases |t|, 3
  {
    hide Eats, ParseItems;
    var body := SkipWhite(t);
    WhiteIsDull(t);
    if ParseArray(t).Got? {
      if body != [] && body[0] == CLOSE_BRACKET {
        EatsOne(body, Outside);
      } else {
        ItemsClose(body);
      }
      EatsThen(t, body, ParseArray(t).rest, Outside, Outside, Outside, 0, -1);
    }
  }

  lemma {:induction false} ObjectCloses(t: Text)
    ensures ParseObject(t).Got? ==> Eats(t, ParseObject(t).rest, Outside, Outside, -1)
    decreases |t|, 3
  {
    hide Eats, ParseMembers;
    var body := SkipWhite(t);
    WhiteIsDull(t);
    if ParseObject(t).Got? {
      if body != [] && body[0] == CLOSE_BRACE {
        EatsOne(body, Outside);
      } else {
        MembersClose(body, []);
      }
      EatsThen(t, body, ParseObject(t).rest, Outside, Outside, Outside, 0, -1);
    }
  }

  /** A value and the white space after it. */
  lemma ValueThenWhite(t: Text)
    requires ParseValue(t).Got? && Eats(t, ParseValue(t).rest, Outside, Outside, 0)
    ensures Eats(t, SkipWhite(ParseValue(t).rest), Outside, Outside, 0)
  {
    hide Eats, ParseValue;
    var rest := ParseValue(t).rest;
    WhiteIsDull(rest);
    EatsThen(t, rest, SkipWhite(rest), Outside, Outside, Outside, 0, 0);
  }

  lemma {:induction false} ItemsClose(t: Text)
    ensures ParseItems(t).Got? ==> Eats(t, ParseItems(t).rest, Outside, Outside, -1)
    decreases |t|, 2
  {
    hide Eats, ParseValue;
    ValueIsBalanced(t);
    if ParseItems(t).Got? {
      var after := SkipWhite(ParseValue(t).rest);
      ValueThenWhite(t);
      if after[0] == CLOSE_BRACKET {
        EatsOne(after, Outside);
      } else {
        ItemsClose(after[1..]);
        EatsDull(after, ParseItems(t).rest, Outside, -1);
      }
      EatsThen(t, after, ParseItems(t).rest, Outside, Outside, Outside, 0, -1);
    }
  }

  /** A key with its colon. */
  lemma KeyIsBalanced(t: Text)
    requires t != [] && t[0] == QUOTE && ParseString(t[1..]).Got?
    ensures var rest := SkipWhite(ParseString(t[1..]).rest);
      rest != [] && rest[0] == COLON ==> Eats(t, rest[1..], Outside, Outside, 0)
  {
    hide Eats, ParseString;
    var end := ParseString(t[1..]).rest;
    var rest := SkipWhite(end);
    QuotedIsBalanced(t);
    WhiteIsDull(end);
    EatsThen(t, end, rest, Outside, Outside, Outside, 0, 0);
    if rest != [] && rest[0] == COLON {
      EatsOne(rest, Outside);
      EatsThen(t, rest, rest[1..], Outside, Outside, Outside, 0, 0);
    }
  }

  lemma {:induction false} MembersClose(t: Text, members: seq<Member>)
    ensures ParseMembers(t, members).Got? ==> Eats(t, ParseMembers(t, members).rest, Outside, Outside, -1)
    decreases |t|, 2
  {
    hide Eats, ParseValue, ParseString, Put;
    if ParseMembers(t, members).Got? {
      var end := ParseMembers(t, members).rest;
      var s := SkipWhite(t);
      WhiteIsDull(t);
      KeyIsBalanced(s);
      var key, value := ParseString(s[1..]).value, SkipWhite(ParseString(s[1..]).rest)[1..];
      ValueIsBalanced(value);
      ValueThenWhite(value);
      var after := SkipWhite(ParseValue(value).rest);
      if after[0] == CLOSE_BRACE {
        EatsOne(after, Outside);
      } else {
        MembersClose(after[1..], Put(members, key, ParseValue(value).value));
        EatsDull(after, end, Outside, -1);
      }
      EatsThen(value, after, end, Outside, Outside, Outside, 0, -1);
      EatsThen(s, value, end, Outside, Outside, Outside, 0, -1);
      EatsThen(t, s, end, Outside, Outside, Outside, 0, -1);
    }
  }

  // ---------- cutting ----------

  /** A text that loads ends outside strings with every bracket closed. */
  lemma LoadsIsBalanced(t: Text)
    requires Loads(t).Some?
    ensures Scan(t, Outside) == Outside && Depth(t, Outside) == 0
  {
    hide ParseValue, Scan, Depth, Above;
    var rest := ParseValue(t).rest;
    ValueIsBalanced(t);
    WhiteIsDull(rest);
    EatsThen(t, rest, [], Outside, Outside, Outside, 0, 0);
    assert t[..|t| - 0] == t;
  }

  /** An end of what follows an opening bracket does not load: it closes a bracket it did not open, or it begins inside
      a string. */
  lemma CutInside(c: Text, p: nat)
    requires Eats(c, [], Outside, Outside, -1) && p < |c|
    ensures Loads(c[p..]).None?
  {
    hide Scan, Depth, Above, Loads;
    var a, s := c[..p], c[p..];
    assert c == a + s && c[..|c| - 0] == c;
    ScanConcat(a, s, Outside, 0);
    StaysAbove(s, Scan(a, Outside), Depth(a, Outside));
    if Loads(s).Some? {
      LoadsIsBalanced(s);
      match Scan(a, Outside)
      case Outside =>
      case Inside => OneParity(s);
      case Escaped => CutInEscape(s);
      case Broken => BrokenStays(s);
    }
  }

  lemma StaysAbove(s: Text, q: Mode, d: int)
    requires s != [] && Above(s, q, d)
    ensures d >= 0
  {
  }

  /** After a backslash: a quote would open a string instead of being escaped, and close brackets all the same. */
  lemma CutInEscape(s: Text)
    requires s != [] && Scan(s, Escaped) == Outside && Depth(s, Escaped) < 0
    ensures !(Scan(s, Outside) == Outside && Depth(s, Outside) == 0)
  {
    if s[0] == BACKSLASH {
      BrokenStays(s[1..]);
    } else if s[0] != QUOTE {
      OneParity(s[1..]);
    }
  }

  /** No proper end of the text of an object loads. */
  lemma CutNeverLoads(t: Text, p: nat)
    requires t != [] && t[0] == OPEN_BRACE && ParseValue(t).Got? && ParseValue(t).rest == []
    requires 0 < p < |t|
    ensures Loads(t) == Some(ParseValue(t).value) && Loads(t[p..]) == None
  {
    hide Eats, ParseObject, Loads;
    assert t == [OPEN_BRACE] + t[1..];
    ObjectUnfold(t[1..]);
    ObjectCloses(t[1..]);
    CutInside(t[1..], p - 1);
    assert t[1..][p - 1..] == t[p..];
    NothingLeft(t);
  }

  lemma NothingLeft(t: Text)
    requires ParseValue(t).Got? && ParseValue(t).rest == []
    ensures Loads(t) == Some(ParseValue(t).value)
  {
    hide ParseValue;
  }

  lemma EndIsAscii(t: Text, p: nat)
    requires Ascii(t) && p <= |t|
    ensures Ascii(t[p..])
  {
    assert t == t[..p] + t[p..];
    AsciiConcat(t[..p], t[p..]);
  }

  /** No proper end of a written object loads. */
  lemma EncodedCutNeverLoads(v: Json, p: nat)
    requires Dumpable(v) && v.Obj? && 0 < p < |Encoded(v)|
    ensures LoadsBytes(Encoded(v)[p..]) == None
  {
    hide ParseValue, Dumpable, DumpMembers, Ascii, ReadBack, Loads;
    var t := Dump(v);
    DumpIsAscii(v);
    EndIsAscii(t, p);
    AsciiText(t[p..]);
    DumpReadsBack(v, []);
    assert t + [] == t;
    CutNeverLoads(t, p);
  }
}

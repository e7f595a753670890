/** The JSON reader and the grammar of RFC 8259, with the additions of `json.loads`: what a text spells is said here
    without the reader, and every text is read as what it spells and as nothing else. */
module JsonGrammar {
  import opened Prelude
  import opened Texts
  import opened Decimals
  import opened Json
  import opened Jcs
  import opened JsonParser
  import opened JcsNumber
  import opened JcsRoundTrip
  import opened JsonDump
  import Minimal = JcsMinimal

  // ---------- white space and words ----------

  predicate AllWhite(t: Text) {
    t == [] || ((t[0] == 0x20 || t[0] == 0x09 || t[0] == 0x0A || t[0] == 0x0D) && AllWhite(t[1..]))
  }

  predicate InkFirst(t: Text) {
    t == [] || !(t[0] == 0x20 || t[0] == 0x09 || t[0] == 0x0A || t[0] == 0x0D)
  }

  lemma {:induction false} WhiteIsSkipped(w: Text, rest: Text)
    requires AllWhite(w) && InkFirst(rest)
    ensures SkipWhite(w + rest) == rest
  {
    if w == [] {
      assert w + rest == rest;
    } else {
      assert (w + rest)[0] == w[0] && (w + rest)[1..] == w[1..] + rest;
      WhiteIsSkipped(w[1..], rest);
    }
  }

  lemma {:induction false} SkippedIsWhite(t: Text) returns (w: Text)
    ensures AllWhite(w) && t == w + SkipWhite(t) && InkFirst(SkipWhite(t))
  {
    if t != [] && White(t[0]) {
      var v := SkippedIsWhite(t[1..]);
      w := [t[0]] + v;
      assert w[1..] == v;
      Regroup([t[0]], v, SkipWhite(t));
    } else {
      w := [];
      assert [] + t == t;
    }
  }

  // ---------- strings ----------

  function Hex(c: CodePoint): int {
    if 0x30 <= c <= 0x39 then c - 0x30
    else if 0x41 <= c <= 0x46 then c - 0x37
    else if 0x61 <= c <= 0x66 then c - 0x57
    else -1
  }

  /** The value of `\u` and four hexadecimal digits. */
  function UnicodeAt(t: Text): Option<CodeUnit> {
    if |t| >= 6 && t[0] == '\\' as int && t[1] == 'u' as int &&
       Hex(t[2]) >= 0 && Hex(t[3]) >= 0 && Hex(t[4]) >= 0 && Hex(t[5]) >= 0
    then Some(0x1000 * Hex(t[2]) + 0x100 * Hex(t[3]) + 0x10 * Hex(t[4]) + Hex(t[5]))
    else None
  }

  /** What a backslash makes of a letter. */
  function ShortOf(c: CodePoint): Option<CodePoint> {
    if c == '\"' as int || c == '\\' as int || c == '/' as int then Some(c)
    else if c == 'b' as int then Some(0x08)
    else if c == 'f' as int then Some(0x0C)
    else if c == 'n' as int then Some(0x0A)
    else if c == 'r' as int then Some(0x0D)
    else if c == 't' as int then Some(0x09)
    else None
  }

  /** The characters of a string and its closing quote. A high surrogate takes a low one that follows it. */
  predicate BodySpells(t: Text, s: Text)
    decreases |t|
  {
    if s == [] then t == ['\"' as int]
    else if t == [] then false
    else if t[0] != '\\' as int then
      t[0] >= 0x20 && t[0] != '\"' as int && s[0] == t[0] && BodySpells(t[1..], s[1..])
    else if |t| < 2 then false
    else if t[1] != 'u' as int then ShortOf(t[1]) == Some(s[0]) && BodySpells(t[2..], s[1..])
    else
      match UnicodeAt(t)
      case None => false
      case Some(u) =>
        if Pair(u, UnicodeAt(t[6..])) then
          s[0] == 0x1_0000 + (u - 0xD800) * 0x400 + (UnicodeAt(t[6..]).value - 0xDC00) && BodySpells(t[12..], s[1..])
        else s[0] == u && BodySpells(t[6..], s[1..])
  }

  predicate Pair(u: CodeUnit, w: Option<CodeUnit>) {
    0xD800 <= u < 0xDC00 && w.Some? && 0xDC00 <= w.value < 0xE000
  }

  lemma HexIs(c: CodePoint)
    ensures HexValue(c) == (if Hex(c) >= 0 then Some(Hex(c)) else None) && Hex(c) < 16
  {
  }

  lemma UnicodeIs(x: Text)
    requires |x| >= 2 && x[0] == BACKSLASH && x[1] == 0x75
    ensures ParseHex4(x[2..]) == match UnicodeAt(x) case None => Fail case Some(u) => Got(u, x[6..])
  {
    var s := x[2..];
    if |s| >= 4 {
      HexIs(x[2]);
      HexIs(x[3]);
      HexIs(x[4]);
      HexIs(x[5]);
      assert s[0] == x[2] && s[1] == x[3] && s[2] == x[4] && s[3] == x[5] && s[4..] == x[6..];
    }
  }

  lemma UnicodeMore(t: Text, rest: Text)
    requires |t| >= 6
    ensures UnicodeAt(t + rest) == UnicodeAt(t) && (t + rest)[6..] == t[6..] + rest
  {
  }

  /** What one character after a backslash is read as. */
  lemma ShortIs(x: Text)
    requires |x| >= 2 && x[0] == BACKSLASH && x[1] != 0x75
    ensures ParseChar(x) == match ShortOf(x[1]) case None => Fail case Some(c) => Got(c, x[2..])
  {
    hide ParseUnicode;
    assert x[1..][0] == x[1] && x[1..][1..] == x[2..];
  }

  lemma LongIs(x: Text)
    requires |x| >= 2 && x[0] == BACKSLASH && x[1] == 0x75
    ensures ParseChar(x) ==
      match UnicodeAt(x)
      case None => Fail
      case Some(u) =>
        var after := x[6..];
        if 0xD800 <= u < 0xDC00 && |after| >= 2 && after[0] == BACKSLASH && after[1] == 0x75 then
          match UnicodeAt(after)
          case None => Fail
          case Some(w) =>
            if 0xDC00 <= w < 0xE000 then Got(0x1_0000 + (u - 0xD800) * 0x400 + (w - 0xDC00), x[12..])
            else Got(u, after)
        else Got(u, after)
  {
    hide ParseHex4, UnicodeAt;
    assert x[1..][0] == x[1] && x[1..][1..] == x[2..];
    UnicodeIs(x);
    if UnicodeAt(x).Some? {
      LongEnough(x);
      var after := x[6..];
      if |after| >= 2 && after[0] == BACKSLASH && after[1] == 0x75 {
        UnicodeIs(after);
        if UnicodeAt(after).Some? {
          LongEnough(after);
          assert after[6..] == x[12..];
        }
      }
    }
  }

  lemma LongEnough(x: Text)
    requires UnicodeAt(x).Some?
    ensures |x| >= 6 && x[0] == BACKSLASH && x[1] == 0x75
  {
  }

  /** A spelled string is read, whatever follows it. */
  lemma {:induction false} BodyIsRead(t: Text, s: Text, rest: Text)
    requires BodySpells(t, s)
    ensures ParseString(t + rest) == Got(s, rest)
    decreases |t|
  {
    hide ParseChar, UnicodeAt, ShortOf;
    var x := t + rest;
    if s == [] {
      assert x[0] == QUOTE && x[1..] == rest;
    } else {
      assert x[0] == t[0] && [s[0]] + s[1..] == s;
      if t[0] != BACKSLASH {
        BodyIsRead(t[1..], s[1..], rest);
        PlainIs(x);
        assert x[1..] == t[1..] + rest;
      } else if t[1] != 0x75 {
        BodyIsRead(t[2..], s[1..], rest);
        ShortIs(x);
        assert x[1] == t[1] && x[2..] == t[2..] + rest;
      } else {
        assert x[1] == t[1];
        LongIs(x);
        LongEnough(t);
        UnicodeMore(t, rest);
        var u := UnicodeAt(t).value;
        if Pair(u, UnicodeAt(t[6..])) {
          LongEnough(t[6..]);
          UnicodeMore(t[6..], rest);
          assert x[12..] == t[12..] + rest;
          BodyIsRead(t[12..], s[1..], rest);
        } else {
          BodyIsRead(t[6..], s[1..], rest);
          NoPairFollows(t[6..], s[1..], rest);
        }
      }
    }
  }

  lemma PlainIs(x: Text)
    requires x != [] && x[0] >= 0x20 && x[0] != BACKSLASH
    ensures ParseChar(x) == Got(x[0], x[1..])
  {
  }

  lemma BodyIsSome(t: Text, s: Text)
    requires BodySpells(t, s)
    ensures t != []
  {
  }

  /** When an escape follows in a spelled body it is a whole one. */
  lemma NoPairFollows(t: Text, s: Text, rest: Text)
    requires BodySpells(t, s)
    ensures var x := t + rest;
      |x| >= 2 && x[0] == BACKSLASH && x[1] == 0x75 ==> UnicodeAt(x).Some? && UnicodeAt(x) == UnicodeAt(t)
  {
    hide UnicodeAt;
    var x := t + rest;
    BodyIsSome(t, s);
    assert x[0] == t[0];
    if |x| >= 2 && x[0] == BACKSLASH && x[1] == 0x75 {
      if s != [] && |t| >= 2 {
        assert x[1] == t[1];
        LongEnough(t);
        UnicodeMore(t, rest);
      }
    }
  }

  /** What is read as a string spells it. */
  lemma {:induction false} ReadBodySpells(x: Text) returns (t: Text)
    requires ParseString(x).Got?
    ensures x == t + ParseString(x).rest && BodySpells(t, ParseString(x).value)
    decreases |x|
  {
    hide ParseChar, UnicodeAt, ShortOf;
    if x[..1] == [QUOTE] {
      t := [QUOTE];
      assert x == [QUOTE] + x[1..];
    } else {
      var c, after := ParseChar(x).value, ParseChar(x).rest;
      CharIsText(x);
      var s := ParseString(after).value;
      var u := ReadBodySpells(after);
      assert ([c] + s)[1..] == s;
      if x[0] != BACKSLASH {
        PlainIsRead(x);
        t := [x[0]] + u;
        assert t[1..] == u;
        Regroup([x[0]], u, ParseString(x).rest);
      } else if x[1] != 0x75 {
        ShortIs(x);
        t := [x[0], x[1]] + u;
        assert t[2..] == u;
        Regroup([x[0], x[1]], u, ParseString(x).rest);
      } else {
        LongIs(x);
        t := UnicodeSpells(x, u, s);
      }
    }
  }

  lemma CharIsText(x: Text)
    requires ParseChar(x).Got?
    ensures x != [] && (x[0] == BACKSLASH ==> |x| >= 2)
  {
  }

  lemma PlainIsRead(x: Text)
    requires ParseChar(x).Got? && x != [] && x[0] != BACKSLASH
    ensures x[0] >= 0x20 && ParseChar(x) == Got(x[0], x[1..])
  {
  }

  lemma UnicodeSpells(x: Text, u: Text, s: Text) returns (t: Text)
    requires |x| >= 2 && x[0] == BACKSLASH && x[1] == 0x75 && ParseChar(x).Got?
    requires ParseString(ParseChar(x).rest).Got? && ParseString(ParseChar(x).rest).value == s
    requires ParseChar(x).rest == u + ParseString(ParseChar(x).rest).rest && BodySpells(u, s)
    ensures x == t + ParseString(ParseChar(x).rest).rest && BodySpells(t, [ParseChar(x).value] + s)
  {
    hide ParseChar, UnicodeAt, ShortOf;
    LongIs(x);
    LongEnough(x);
    var c, after := ParseChar(x).value, ParseChar(x).rest;
    var rest := ParseString(after).rest;
    assert ([c] + s)[1..] == s;
    var v := UnicodeAt(x).value;
    var k := |x| - |after|;
    if k == 6 {
      t := x[..6] + u;
      assert x == x[..6] + x[6..];
      Regroup(x[..6], u, rest);
      UnicodePrefix(x, t);
      assert t[6..] == u;
      AtSix(x, after);
      NoPairFollows(u, s, rest);
      if Pair(v, UnicodeAt(u)) {
        LongEnough(u);
        UnicodeMore(u, rest);
      }
    } else {
      LongEnough(x[6..]);
      t := x[..12] + u;
      assert x == x[..12] + x[12..];
      Regroup(x[..12], u, rest);
      UnicodePrefix(x, t);
      assert t[6..] == x[6..12] + u && t[12..] == u;
      UnicodePrefix(x[6..], t[6..]);
    }
  }

  lemma AtSix(x: Text, after: Text)
    requires |x| >= 6 && ParseChar(x).Got? && ParseChar(x).rest == after && |after| == |x| - 6
    requires x[0] == BACKSLASH && x[1] == 0x75
    ensures after == x[6..]
  {
    hide UnicodeAt, ParseChar;
    LongIs(x);
    if UnicodeAt(x[6..]).Some? {
      LongEnough(x[6..]);
    }
  }

  lemma UnicodePrefix(x: Text, t: Text)
    requires |x| >= 6 && |t| >= 6 && t[..6] == x[..6]
    ensures UnicodeAt(t) == UnicodeAt(x) && t[0] == x[0] && t[1] == x[1]
  {
    assert forall i | 0 <= i < 6 :: t[i] == t[..6][i] && x[i] == x[..6][i];
  }

  // ---------- numbers ----------

  predicate DigitRun(t: Text) {
    t != [] && AllDigits(t)
  }

  /** An exponent and its value, or nothing. */
  predicate PowerSpells(x: Text, k: Option<int>) {
    if k.None? then x == []
    else
      |x| > 1 && (x[0] == 'e' as int || x[0] == 'E' as int) &&
      if x[1] == '+' as int then DigitRun(x[2..]) && k.value == NatOf(x[2..])
      else if x[1] == '-' as int then DigitRun(x[2..]) && k.value == -NatOf(x[2..])
      else DigitRun(x[1..]) && k.value == NatOf(x[1..])
  }

  function NumberText(negative: bool, i: Text, f: Text, x: Text): Text {
    (if negative then ['-' as int] else []) + (i + ((if f == [] then [] else ['.' as int] + f) + x))
  }

  /** An integer, unless a fraction or an exponent makes it a float. */
  function NumberValue(negative: bool, i: Text, f: Text, k: Option<int>): Json {
    var m := NatOf(i + f);
    if f == [] && k.None? then Int(if negative then -m else m)
    else if negative && m == 0 then MinusZero
    else Num(Decimal(if negative then -m else m, (if k.None? then 0 else k.value) - |f|))
  }

  /** What does not continue a number. */
  predicate Stops(rest: Text) {
    rest == [] || !(Digit(rest[0]) || rest[0] == '.' as int || rest[0] == 'e' as int || rest[0] == 'E' as int)
  }

  lemma PowerIsRead(x: Text, k: Option<int>, rest: Text)
    requires PowerSpells(x, k) && Stops(rest)
    ensures ReadsAs(x, k, rest)
  {
    hide ReadDigits, NatOf, AllDigits;
    var t := x + rest;
    if k.None? {
      assert t == rest;
    } else {
      var signed := x[1] == PLUS || x[1] == MINUS;
      var digits := if signed then x[2..] else x[1..];
      assert t[0] == x[0] && t[1] == x[1];
      assert (if signed then t[2..] else t[1..]) == digits + rest;
      FirstDigit(digits);
      DigitsReadBack(digits, rest);
    }
  }

  lemma FirstDigit(t: Text)
    requires DigitRun(t)
    ensures Digit(t[0])
  {
  }

  lemma NumberIsRead(negative: bool, i: Text, f: Text, x: Text, k: Option<int>, rest: Text)
    requires WholePart(i) && AllDigits(f) && PowerSpells(x, k) && Stops(rest)
    ensures ParseNumber(NumberText(negative, i, f, x) + rest) == Got(NumberValue(negative, i, f, k), rest)
  {
    hide ParseNumber, NatOf, ReadsAs, WholePart, PowerSpells, AllDigits;
    PowerIsRead(x, k, rest);
    PartsReadBack(negative, i, f, x, k, rest);
    var sign, point := SignText(negative), FractionText(f);
    Regroup(sign, i + (point + x), rest);
    Regroup(i, point + x, rest);
    Regroup(point, x, rest);
    assert f == [] ==> i + f == i;
  }

  /** The digits that are read, when there are any. */
  lemma RunSpelled(t: Text, n: nat) returns (f: Text)
    requires t != [] && Digit(t[0])
    ensures var r := ReadDigits(t, n); t == f + r.1 && r.0 == Scale(n, |f|) + NatOf(f) && AllDigits(f) && f != []
  {
    hide ReadDigits, NatOf, Scale, AllDigits;
    var k := Minimal.DigitsAreRun(t, n);
    Minimal.RunIsLoose(t, n);
    f := t[..k];
  }

  lemma FractionSpelled(t: Text, n: nat) returns (f: Text)
    ensures var r := ReadFraction(t, n);
      AllDigits(f) && t == FractionText(f) + r.2 && r.0 == Scale(n, |f|) + NatOf(f) && r.1 == |f|
  {
    hide ReadDigits, NatOf, Scale;
    if |t| > 1 && t[0] == POINT && Digit(t[1]) {
      f := RunSpelled(t[1..], n);
      assert t == [POINT] + t[1..];
      Regroup([POINT], f, ReadDigits(t[1..], n).1);
    } else {
      f := [];
      assert t == [] + t;
      NatOfNothing();
      ScaleByNone(n);
    }
  }

  lemma PowerSpelled(t: Text) returns (x: Text)
    ensures t == x + ReadExponent(t).1 && PowerSpells(x, ReadExponent(t).0)
  {
    hide ReadDigits, NatOf, Scale;
    if ReadExponent(t).0.None? {
      x := [];
      assert t == [] + t;
    } else {
      var n := if t[1] == PLUS || t[1] == MINUS then 2 else 1;
      var k := Minimal.DigitsAreRun(t[n..], 0);
      Minimal.RunIsLoose(t[n..], 0);
      ScaleZero(k);
      x := t[..n + k];
      assert x[n..] == t[n..][..k] && t[n..][k..] == t[n + k..];
      assert x[0] == t[0] && x[1] == t[1];
    }
  }

  lemma WholeSpelled(t: Text)
    requires ParseNat(t).Got?
    ensures var i := Digits(ParseNat(t).value);
      WholePart(i) && t == i + ParseNat(t).rest && NatOf(i) == ParseNat(t).value
  {
    hide ParseNat, Digits, NatOf;
    Minimal.NatIsDigits(t);
    NatOfDigits(ParseNat(t).value);
    LeadingDigit(ParseNat(t).value);
    Minimal.ZeroDigits();
  }

  lemma NumberSpelled(t: Text) returns (negative: bool, i: Text, f: Text, x: Text, k: Option<int>)
    requires ParseNumber(t).Got?
    ensures WholePart(i) && AllDigits(f) && PowerSpells(x, k)
    ensures t == NumberText(negative, i, f, x) + ParseNumber(t).rest
    ensures ParseNumber(t).value == NumberValue(negative, i, f, k)
  {
    hide ParseNat, ReadFraction, ReadExponent, NatOf, Scale, PowerSpells, WholePart, AllDigits, Digits;
    negative := t != [] && t[0] == MINUS;
    var s := if negative then t[1..] else t;
    var n, afterWhole := ParseNat(s).value, ParseNat(s).rest;
    WholeSpelled(s);
    i := Digits(n);
    f := FractionSpelled(afterWhole, n);
    var afterFraction := ReadFraction(afterWhole, n).2;
    x := PowerSpelled(afterFraction);
    k := ReadExponent(afterFraction).0;
    NatOfConcat(i, f);
    var rest := ReadExponent(afterFraction).1;
    Regroup(FractionText(f), x, rest);
    Regroup(i, FractionText(f) + x, rest);
    Regroup(SignText(negative), i + (FractionText(f) + x), rest);
    assert t == SignText(negative) + s;
    assert f == [] ==> i + f == i;
  }

  // ---------- values ----------

  /** A text of JSON taken apart: every piece of it, white space included. */
  datatype Tree =
    | Word(text: Text, value: Json)
    | Number(negative: bool, whole: Text, fraction: Text, exponent: Text, power: Option<int>)
    | Quoted(body: Text, s: Text)
    | NoItems(white: Text)
    | NoMembers(white: Text)
    | Array(items: Items)
    | Object(members: Members)

  /** A value between white space. */
  datatype Slot = Slot(before: Text, tree: Tree, after: Text)

  /** A member name between white space. */
  datatype Name = Name(before: Text, body: Text, key: Text, after: Text)

  datatype Items = LastItem(slot: Slot) | ItemThen(slot: Slot, rest: Items)

  datatype Members = LastMember(name: Name, slot: Slot) | MemberThen(name: Name, slot: Slot, rest: Members)

  function Written(tree: Tree): Text {
    match tree
    case Word(text, _) => text
    case Number(negative, i, f, x, _) => NumberText(negative, i, f, x)
    case Quoted(body, _) => ['\"' as int] + body
    case NoItems(white) => ['[' as int] + (white + [']' as int])
    case NoMembers(white) => ['{' as int] + (white + ['}' as int])
    case Array(items) => ['[' as int] + ItemsText(items)
    case Object(members) => ['{' as int] + MembersText(members)
  }

  function SlotText(slot: Slot): Text {
    slot.before + (Written(slot.tree) + slot.after)
  }

  function NameText(name: Name): Text {
    name.before + (['\"' as int] + (name.body + (name.after + [':' as int])))
  }

  function ItemsText(items: Items): Text {
    SlotText(items.slot) + if items.LastItem? then [']' as int] else [',' as int] + ItemsText(items.rest)
  }

  function MembersText(members: Members): Text {
    NameText(members.name) +
    (SlotText(members.slot) + if members.LastMember? then ['}' as int] else [',' as int] + MembersText(members.rest))
  }

  /** Every piece is what the grammar allows in its place. */
  predicate Grammatical(tree: Tree) {
    match tree
    case Word(text, v) => WordSpells(text, v)
    case Number(_, i, f, x, k) => WholePart(i) && AllDigits(f) && PowerSpells(x, k)
    case Quoted(body, s) => BodySpells(body, s)
    case NoItems(white) => AllWhite(white)
    case NoMembers(white) => AllWhite(white)
    case Array(items) => ItemsGrammatical(items)
    case Object(members) => MembersGrammatical(members)
  }

  predicate SlotGrammatical(slot: Slot) {
    AllWhite(slot.before) && Grammatical(slot.tree) && AllWhite(slot.after)
  }

  predicate NameGrammatical(name: Name) {
    AllWhite(name.before) && BodySpells(name.body, name.key) && AllWhite(name.after)
  }

  predicate ItemsGrammatical(items: Items) {
    SlotGrammatical(items.slot) && (items.ItemThen? ==> ItemsGrammatical(items.rest))
  }

  predicate MembersGrammatical(members: Members) {
    NameGrammatical(members.name) && SlotGrammatical(members.slot) &&
    (members.MemberThen? ==> MembersGrammatical(members.rest))
  }

  predicate WordSpells(text: Text, v: Json) {
    || (v == Null && text == Of("null"))
    || (v == Bool(true) && text == Of("true"))
    || (v == Bool(false) && text == Of("false"))
    || (v == NotFinite(NaN) && text == Of("NaN"))
    || (v == NotFinite(Infinity) && text == Of("Infinity"))
    || (v == NotFinite(MinusInfinity) && text == Of("-Infinity"))
  }

  /** The value it writes down. */
  function Meaning(tree: Tree): Json {
    match tree
    case Word(_, v) => v
    case Number(negative, i, f, _, k) => NumberValue(negative, i, f, k)
    case Quoted(_, s) => Str(s)
    case NoItems(_) => Arr([])
    case NoMembers(_) => Obj([])
    case Array(items) => Arr(ItemsMean(items))
    case Object(members) => Obj(MembersMean(members, []))
  }

  function ItemsMean(items: Items): seq<Json> {
    [Meaning(items.slot.tree)] + if items.LastItem? then [] else ItemsMean(items.rest)
  }

  /** The dictionary: a key that comes again keeps its place and takes the later value. */
  function MembersMean(members: Members, before: seq<Member>): seq<Member> {
    var grown := Put(before, members.name.key, Meaning(members.slot.tree));
    if members.LastMember? then grown else MembersMean(members.rest, grown)
  }

  // ---------- what is spelled is read ----------

  /** The first character settles what a value is. */
  lemma TreeStarts(tree: Tree)
    requires Grammatical(tree)
    ensures var t := Written(tree); t != [] && InkFirst(t) && t[0] != CLOSE_BRACKET && t[0] != CLOSE_BRACE
  {
    hide BodySpells, PowerSpells, ItemsText, MembersText, NatOf;
  }

  lemma PaddedIsRead(white: Text, t: Text)
    requires AllWhite(white) && InkFirst(t)
    ensures ParseValue(white + t) == ParseValue(t)
  {
    hide ParseNumber, ParseString, ParseArray, ParseObject, Literal;
    WhiteIsSkipped(white, t);
    assert [] + t == t;
    WhiteIsSkipped([], t);
  }

  lemma WordIsRead(text: Text, v: Json, rest: Text)
    requires WordSpells(text, v)
    ensures ParseValue(text + rest) == Got(v, rest)
  {
    hide ParseValue;
    if v.NotFinite? {
      assert text == WordText(v.word);
      WordTextReadsBack(v.word, rest);
    } else {
      assert text == (if v.Null? then NULL_WORD else if v.b then TRUE_WORD else FALSE_WORD);
      WordReadsBack(text, v, rest);
    }
  }

  lemma LeafIsRead(tree: Tree, rest: Text)
    requires Grammatical(tree) && Stops(rest) && !tree.Array? && !tree.Object?
    ensures ParseValue(Written(tree) + rest) == Got(Meaning(tree), rest)
  {
    hide ParseNumber, ParseString, BodySpells, PowerSpells, NumberValue, WordSpells, Stops, AllWhite;
    match tree
    case Word(text, v) => WordIsRead(text, v, rest);
    case Number(negative, i, f, x, k) =>
      NumberIsRead(negative, i, f, x, k, rest);
      SignStarts(negative, i + (FractionText(f) + x));
      NumberUnfold(Written(tree), rest);
    case Quoted(body, s) =>
      BodyIsRead(body, s, rest);
      Regroup([QUOTE], body, rest);
      Prepended(QUOTE, body + rest);
      NoWhite([QUOTE] + (body + rest));
    case NoItems(white) => EmptyIsRead(OPEN_BRACKET, white, CLOSE_BRACKET, rest);
    case NoMembers(white) => EmptyIsRead(OPEN_BRACE, white, CLOSE_BRACE, rest);
  }

  lemma EmptyIsRead(open: CodePoint, white: Text, close: CodePoint, rest: Text)
    requires AllWhite(white)
    requires (open == OPEN_BRACKET && close == CLOSE_BRACKET) || (open == OPEN_BRACE && close == CLOSE_BRACE)
    ensures ParseValue([open] + (white + [close]) + rest) ==
      Got(if open == OPEN_BRACKET then Arr([]) else Obj([]), rest)
  {
    hide ParseItems, ParseMembers;
    var tail := white + ([close] + rest);
    Regroup([open], white + [close], rest);
    Regroup(white, [close], rest);
    Prepended(close, rest);
    WhiteIsSkipped(white, [close] + rest);
    if open == OPEN_BRACKET {
      ArrayUnfold(tail);
    } else {
      ObjectUnfold(tail);
    }
  }

  /** A text in which `rest` follows a value directly: a separator or a closing bracket. */
  predicate Closes(rest: Text) {
    rest != [] && (rest[0] == COMMA || rest[0] == CLOSE_BRACKET || rest[0] == CLOSE_BRACE)
  }

  lemma WhiteStops(white: Text, rest: Text)
    requires AllWhite(white) && (rest == [] || Closes(rest))
    ensures Stops(white + rest) && InkFirst(rest)
  {
    assert white == [] ==> white + rest == rest;
  }

  lemma {:induction false} TreeIsRead(tree: Tree, rest: Text)
    requires Grammatical(tree) && Stops(rest)
    ensures ParseValue(Written(tree) + rest) == Got(Meaning(tree), rest)
    decreases tree
  {
    hide ParseValue, ParseItems, ParseMembers, ItemsText, MembersText, Stops, ItemsMean, MembersMean;
    match tree
    case Array(items) =>
      var t := ItemsText(items) + rest;
      ItemsAreRead(items, rest);
      ItemsStart(items, rest);
      Regroup([OPEN_BRACKET], ItemsText(items), rest);
      ArrayUnfold(t);
      ItemsSkipped(t);
    case Object(members) =>
      var t := MembersText(members) + rest;
      MembersAreRead(members, [], rest);
      MembersStart(members, rest);
      Regroup([OPEN_BRACE], MembersText(members), rest);
      ObjectUnfold(t);
      MembersSkipped(t);
    case _ => LeafIsRead(tree, rest);
  }

  lemma WhiteIsNothing(t: Text)
    ensures ParseValue(SkipWhite(t)) == ParseValue(t)
  {
    hide ParseNumber, ParseString, ParseArray, ParseObject, Literal, SkipWhite;
    Minimal.SkipsOnce(t);
  }

  lemma ItemsSkipped(t: Text)
    ensures ParseItems(SkipWhite(t)) == ParseItems(t)
  {
    hide ParseValue, SkipWhite;
    WhiteIsNothing(t);
  }

  lemma MembersSkipped(t: Text)
    ensures ParseMembers(SkipWhite(t), []) == ParseMembers(t, [])
  {
    hide ParseValue, ParseString;
    Minimal.SkipsOnce(t);
  }

  lemma ItemsStart(items: Items, rest: Text)
    requires ItemsGrammatical(items)
    ensures var t := SkipWhite(ItemsText(items) + rest); t == [] || t[0] != CLOSE_BRACKET
  {
    hide Written, Grammatical, AllWhite;
    var slot := items.slot;
    TreeStarts(slot.tree);
    var more := if items.LastItem? then [CLOSE_BRACKET] else [COMMA] + ItemsText(items.rest);
    var t := Written(slot.tree) + (slot.after + (more + rest));
    assert t[0] == Written(slot.tree)[0];
    Regroup(SlotText(slot), more, rest);
    Regroup(slot.before, Written(slot.tree) + slot.after, more + rest);
    Regroup(Written(slot.tree), slot.after, more + rest);
    WhiteIsSkipped(slot.before, t);
  }

  lemma MembersStart(members: Members, rest: Text)
    requires MembersGrammatical(members)
    ensures var t := SkipWhite(MembersText(members) + rest); t == [] || t[0] != CLOSE_BRACE
  {
    hide BodySpells, AllWhite;
    var name := members.name;
    var end := if members.LastMember? then ['}' as int] else [',' as int] + MembersText(members.rest);
    var more := SlotText(members.slot) + end;
    var tail := name.body + (name.after + [COLON]);
    var t := [QUOTE] + tail + (more + rest);
    assert t[0] == QUOTE;
    Regroup(NameText(name), more, rest);
    Regroup(name.before, [QUOTE] + tail, more + rest);
    WhiteIsSkipped(name.before, t);
  }

  /** A value between white space, before a separator or a closing bracket. */
  lemma {:induction false} SlotIsRead(slot: Slot, rest: Text)
    requires SlotGrammatical(slot) && Closes(rest)
    ensures ParseValue(SlotText(slot) + rest) == Got(Meaning(slot.tree), slot.after + rest)
    ensures SkipWhite(slot.after + rest) == rest
    decreases slot
  {
    hide ParseValue, Written, Grammatical, Meaning, AllWhite, Stops, Closes, InkFirst;
    var t := Written(slot.tree);
    WhiteStops(slot.after, rest);
    TreeIsRead(slot.tree, slot.after + rest);
    TreeStarts(slot.tree);
    InkStays(t, slot.after + rest);
    Regroup(slot.before, t + slot.after, rest);
    Regroup(t, slot.after, rest);
    PaddedIsRead(slot.before, t + (slot.after + rest));
    WhiteIsSkipped(slot.after, rest);
  }

  lemma InkStays(t: Text, rest: Text)
    requires t != [] && InkFirst(t)
    ensures InkFirst(t + rest)
  {
  }

  lemma {:induction false} ItemsAreRead(items: Items, rest: Text)
    requires ItemsGrammatical(items)
    ensures ParseItems(ItemsText(items) + rest) == Got(ItemsMean(items), rest)
    decreases items
  {
    hide ParseValue, SlotText, SlotGrammatical, Meaning, SkipWhite;
    var slot := items.slot;
    if items.LastItem? {
      Regroup(SlotText(slot), [CLOSE_BRACKET], rest);
      SlotIsRead(slot, [CLOSE_BRACKET] + rest);
      Prepended(CLOSE_BRACKET, rest);
      assert [Meaning(slot.tree)] + [] == [Meaning(slot.tree)];
    } else {
      var more := ItemsText(items.rest) + rest;
      Regroup(SlotText(slot), [COMMA] + ItemsText(items.rest), rest);
      Regroup([COMMA], ItemsText(items.rest), rest);
      SlotIsRead(slot, [COMMA] + more);
      Prepended(COMMA, more);
      ItemsAreRead(items.rest, rest);
    }
  }

  /** A name up to its colon. */
  lemma NameIsRead(name: Name, rest: Text)
    requires NameGrammatical(name)
    ensures var t := SkipWhite(NameText(name) + rest);
      t != [] && t[0] == QUOTE && ParseString(t[1..]) == Got(name.key, name.after + ([COLON] + rest))
    ensures SkipWhite(name.after + ([COLON] + rest)) == [COLON] + rest
  {
    hide ParseString, BodySpells, AllWhite;
    var tail := name.after + ([COLON] + rest);
    Regroup(name.before, [QUOTE] + (name.body + (name.after + [COLON])), rest);
    Regroup([QUOTE], name.body + (name.after + [COLON]), rest);
    Regroup(name.body, name.after + [COLON], rest);
    Regroup(name.after, [COLON], rest);
    Prepended(QUOTE, name.body + tail);
    Prepended(COLON, rest);
    WhiteIsSkipped(name.before, [QUOTE] + (name.body + tail));
    WhiteIsSkipped(name.after, [COLON] + rest);
    BodyIsRead(name.body, name.key, tail);
  }

  lemma {:induction false} MembersAreRead(members: Members, before: seq<Member>, rest: Text)
    requires MembersGrammatical(members)
    ensures ParseMembers(MembersText(members) + rest, before) == Got(MembersMean(members, before), rest)
    decreases members
  {
    hide ParseValue, ParseString, SlotText, SlotGrammatical, NameText, NameGrammatical, Meaning, SkipWhite, Put;
    var name, slot := members.name, members.slot;
    var last := members.LastMember?;
    var more := if last then [CLOSE_BRACE] else [COMMA] + MembersText(members.rest);
    var tail := SlotText(slot) + (more + rest);
    Regroup(NameText(name), SlotText(slot) + more, rest);
    Regroup(SlotText(slot), more, rest);
    NameIsRead(name, tail);
    Prepended(COLON, tail);
    SlotIsRead(slot, more + rest);
    if last {
      Prepended(CLOSE_BRACE, rest);
    } else {
      Regroup([COMMA], MembersText(members.rest), rest);
      Prepended(COMMA, MembersText(members.rest) + rest);
      MembersAreRead(members.rest, Put(before, name.key, Meaning(slot.tree)), rest);
    }
  }

  // ---------- what is read is spelled ----------

  lemma LiteralSpelled(word: Text, v: Json, t: Text)
    requires word != [] && Literal(word, v, t).Got?
    ensures t == word + Literal(word, v, t).rest && Literal(word, v, t).value == v
  {
  }

  /** A word, a number, or a string. */
  lemma LeafSpelled(t: Text) returns (tree: Tree)
    requires ParseValue(t).Got? && InkFirst(t) && t != [] && t[0] != OPEN_BRACKET && t[0] != OPEN_BRACE
    ensures Grammatical(tree) && t == Written(tree) + ParseValue(t).rest && ParseValue(t).value == Meaning(tree)
  {
    hide ParseNumber, ParseString, ParseArray, ParseObject, Literal, BodySpells, PowerSpells, NumberValue, WordSpells,
      NumberText, WholePart, AllDigits;
    NoWhite(t);
    if t[0] == QUOTE {
      var body := ReadBodySpells(t[1..]);
      tree := Quoted(body, ParseString(t[1..]).value);
      Regroup([QUOTE], body, ParseString(t[1..]).rest);
      assert t == [QUOTE] + t[1..];
    } else if t[0] == 0x6E {
      tree := WordSpelled(NULL_WORD, Null, t);
    } else if t[0] == 0x74 {
      tree := WordSpelled(TRUE_WORD, Bool(true), t);
    } else if t[0] == 0x66 {
      tree := WordSpelled(FALSE_WORD, Bool(false), t);
    } else if t[0] == NAN_WORD[0] {
      tree := WordSpelled(NAN_WORD, NotFinite(NaN), t);
    } else if t[0] == INFINITY_WORD[0] {
      tree := WordSpelled(INFINITY_WORD, NotFinite(Infinity), t);
    } else if |t| > 1 && t[0] == MINUS && t[1] == INFINITY_WORD[0] {
      tree := WordSpelled([MINUS] + INFINITY_WORD, NotFinite(MinusInfinity), t);
    } else {
      var negative, i, f, x, k := NumberSpelled(t);
      tree := Number(negative, i, f, x, k);
    }
  }

  lemma WordSpelled(word: Text, v: Json, t: Text) returns (tree: Tree)
    requires v.Null? || v.Bool? || v.NotFinite?
    requires word == match v case Null => NULL_WORD case Bool(b) => if b then TRUE_WORD else FALSE_WORD
      case NotFinite(w) => WordText(w)
    requires Literal(word, v, t).Got?
    ensures Grammatical(tree) && t == Written(tree) + Literal(word, v, t).rest
    ensures Literal(word, v, t).value == v == Meaning(tree)
  {
    LiteralSpelled(word, v, t);
    tree := Word(word, v);
    assert Of("null") == NULL_WORD && Of("true") == TRUE_WORD && Of("false") == FALSE_WORD;
    assert Of("NaN") == NAN_WORD && Of("Infinity") == INFINITY_WORD && Of("-Infinity") == [MINUS] + INFINITY_WORD;
  }

  /** What is read as a value is white space and a value that the grammar spells. */
  lemma {:induction false} ValueSpelled(t: Text) returns (white: Text, tree: Tree)
    requires ParseValue(t).Got?
    ensures AllWhite(white) && Grammatical(tree)
    ensures t == white + (Written(tree) + ParseValue(t).rest) && ParseValue(t).value == Meaning(tree)
    decreases |t|, 1
  {
    hide ParseValue, SkipWhite, AllWhite, Written, Grammatical, Meaning;
    white := SkippedIsWhite(t);
    var s := SkipWhite(t);
    WhiteIsNothing(t);
    if s[0] == OPEN_BRACKET {
      assert s == [OPEN_BRACKET] + s[1..];
      ArrayUnfold(s[1..]);
      tree := ArraySpelled(s[1..]);
    } else if s[0] == OPEN_BRACE {
      assert s == [OPEN_BRACE] + s[1..];
      ObjectUnfold(s[1..]);
      tree := ObjectSpelled(s[1..]);
    } else {
      tree := LeafSpelled(s);
    }
  }

  lemma {:induction false} ArraySpelled(t: Text) returns (tree: Tree)
    requires ParseArray(t).Got?
    ensures Grammatical(tree) && [OPEN_BRACKET] + t == Written(tree) + ParseArray(t).rest
    ensures ParseArray(t).value == Meaning(tree)
    decreases |t|, 3
  {
    hide ParseItems, AllWhite, ItemsText, ItemsGrammatical, ItemsMean, SkipWhite;
    var body, rest := SkipWhite(t), ParseArray(t).rest;
    if body != [] && body[0] == CLOSE_BRACKET {
      var white := SkippedIsWhite(t);
      tree := NoItems(white);
      assert body == [CLOSE_BRACKET] + rest;
      Regroup(white, [CLOSE_BRACKET], rest);
      Regroup([OPEN_BRACKET], white + [CLOSE_BRACKET], rest);
    } else {
      ItemsSkipped(t);
      var items := ItemsSpelled(t);
      tree := Array(items);
      Regroup([OPEN_BRACKET], ItemsText(items), rest);
    }
  }

  lemma {:induction false} ObjectSpelled(t: Text) returns (tree: Tree)
    requires ParseObject(t).Got?
    ensures Grammatical(tree) && [OPEN_BRACE] + t == Written(tree) + ParseObject(t).rest
    ensures ParseObject(t).value == Meaning(tree)
    decreases |t|, 3
  {
    hide ParseMembers, AllWhite, MembersText, MembersGrammatical, MembersMean, SkipWhite;
    var body, rest := SkipWhite(t), ParseObject(t).rest;
    if body != [] && body[0] == CLOSE_BRACE {
      var white := SkippedIsWhite(t);
      tree := NoMembers(white);
      assert body == [CLOSE_BRACE] + rest;
      Regroup(white, [CLOSE_BRACE], rest);
      Regroup([OPEN_BRACE], white + [CLOSE_BRACE], rest);
    } else {
      MembersSkipped(t);
      var members := MembersSpelled(t, []);
      tree := Object(members);
      Regroup([OPEN_BRACE], MembersText(members), rest);
    }
  }

  /** A value and the white space around it, up to what follows. */
  lemma {:induction false} SlotSpelled(t: Text) returns (slot: Slot)
    requires ParseValue(t).Got?
    ensures SlotGrammatical(slot) && ParseValue(t).value == Meaning(slot.tree)
    ensures t == SlotText(slot) + SkipWhite(ParseValue(t).rest)
    decreases |t|, 2, 0
  {
    hide ParseValue, AllWhite, Written, Grammatical, Meaning;
    var before, tree := ValueSpelled(t);
    var rest := ParseValue(t).rest;
    var after := SkippedIsWhite(rest);
    slot := Slot(before, tree, after);
    Regroup(Written(tree), after, SkipWhite(rest));
    Regroup(before, Written(tree) + after, SkipWhite(rest));
  }

  lemma {:induction false} ItemsSpelled(t: Text) returns (items: Items)
    requires ParseItems(t).Got?
    ensures ItemsGrammatical(items) && t == ItemsText(items) + ParseItems(t).rest
    ensures ParseItems(t).value == ItemsMean(items)
    decreases |t|, 2, 1
  {
    hide ParseValue, SlotText, SlotGrammatical, Meaning, SkipWhite;
    var slot := SlotSpelled(t);
    var after, rest := SkipWhite(ParseValue(t).rest), ParseItems(t).rest;
    assert after == [after[0]] + after[1..];
    if after[0] == CLOSE_BRACKET {
      items := LastItem(slot);
      Regroup(SlotText(slot), [CLOSE_BRACKET], rest);
      assert [Meaning(slot.tree)] + [] == [Meaning(slot.tree)];
    } else {
      var others := ItemsSpelled(after[1..]);
      items := ItemThen(slot, others);
      Regroup([COMMA], ItemsText(others), rest);
      Regroup(SlotText(slot), [COMMA] + ItemsText(others), rest);
    }
  }

  /** A name, up to what follows its colon. */
  lemma NameSpelled(t: Text) returns (name: Name)
    requires SkipWhite(t) != [] && SkipWhite(t)[0] == QUOTE && ParseString(SkipWhite(t)[1..]).Got?
    requires var u := SkipWhite(ParseString(SkipWhite(t)[1..]).rest); u != [] && u[0] == COLON
    ensures NameGrammatical(name) && name.key == ParseString(SkipWhite(t)[1..]).value
    ensures t == NameText(name) + SkipWhite(ParseString(SkipWhite(t)[1..]).rest)[1..]
  {
    hide ParseString, BodySpells, AllWhite, SkipWhite;
    var s := SkipWhite(t);
    var before := SkippedIsWhite(t);
    var body := ReadBodySpells(s[1..]);
    var rest := ParseString(s[1..]).rest;
    var after := SkippedIsWhite(rest);
    var end := SkipWhite(rest)[1..];
    name := Name(before, body, ParseString(s[1..]).value, after);
    assert s == [QUOTE] + s[1..] && SkipWhite(rest) == [COLON] + end;
    Regroup(after, [COLON], end);
    Regroup(body, after + [COLON], end);
    Regroup([QUOTE], body + (after + [COLON]), end);
    Regroup(before, [QUOTE] + (body + (after + [COLON])), end);
  }

  lemma {:induction false} MembersSpelled(t: Text, before: seq<Member>) returns (members: Members)
    requires ParseMembers(t, before).Got?
    ensures MembersGrammatical(members) && t == MembersText(members) + ParseMembers(t, before).rest
    ensures ParseMembers(t, before).value == MembersMean(members, before)
    decreases |t|, 2, 1
  {
    hide ParseValue, ParseString, SlotText, SlotGrammatical, NameText, NameGrammatical, Meaning, SkipWhite, Put;
    var name := NameSpelled(t);
    var value := SkipWhite(ParseString(SkipWhite(t)[1..]).rest)[1..];
    var slot := SlotSpelled(value);
    var after, rest := SkipWhite(ParseValue(value).rest), ParseMembers(t, before).rest;
    assert after == [after[0]] + after[1..];
    if after[0] == CLOSE_BRACE {
      members := LastMember(name, slot);
      Regroup(SlotText(slot), [CLOSE_BRACE], rest);
      Regroup(NameText(name), SlotText(slot) + [CLOSE_BRACE], rest);
    } else {
      var others := MembersSpelled(after[1..], Put(before, name.key, Meaning(slot.tree)));
      members := MemberThen(name, slot, others);
      var more := [COMMA] + MembersText(others);
      Regroup([COMMA], MembersText(others), rest);
      Regroup(SlotText(slot), more, rest);
      Regroup(NameText(name), SlotText(slot) + more, rest);
    }
  }

  // ---------- the reader and the grammar ----------

  /** A text is loaded as a value exactly when it is a grammatical text of that value between white space. */
  lemma LoadsIff(t: Text, v: Json)
    ensures Loads(t) == Some(v) <==>
      exists slot :: SlotGrammatical(slot) && SlotText(slot) == t && Meaning(slot.tree) == v
  {
    hide ParseValue, SkipWhite, SlotText, SlotGrammatical, Meaning;
    if Loads(t) == Some(v) {
      var slot := SlotSpelled(t);
      assert SlotText(slot) + [] == SlotText(slot);
    }
    forall slot | SlotGrammatical(slot) && SlotText(slot) == t && Meaning(slot.tree) == v
      ensures Loads(t) == Some(v)
    {
      SlotLoads(slot);
    }
  }

  lemma SlotLoads(slot: Slot)
    requires SlotGrammatical(slot)
    ensures Loads(SlotText(slot)) == Some(Meaning(slot.tree))
  {
    hide ParseValue, Written, Grammatical, Meaning, AllWhite, Stops, InkFirst;
    var t := Written(slot.tree);
    WhiteStops(slot.after, []);
    assert slot.after + [] == slot.after;
    TreeIsRead(slot.tree, slot.after);
    TreeStarts(slot.tree);
    InkStays(t, slot.after);
    PaddedIsRead(slot.before, t + slot.after);
    WhiteIsSkipped(slot.after, []);
  }
}

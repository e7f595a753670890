/** Canonical bytes read back, and identify a JSON value. */
module JcsRoundTrip {
  import opened Prelude
  import opened Texts
  import opened Decimals
  import opened Json
  import opened Jcs
  import opened JsonParser
  import opened JcsNumber

  // ---------- what the text denotes ----------

  /** Dictionaries all the way down: no key occurs twice in one object. */
  ghost predicate WellFormed(v: Json) {
    match v
    case Arr(items) => forall i | 0 <= i < |items| :: WellFormed(items[i])
    case Obj(members) => DistinctKeys(members) && forall i | 0 <= i < |members| :: WellFormed(members[i].value)
    case _ => true
  }

  /** The same value as a reader of its canonical text gets it: every object's members in canonical order, and floats
      that were laid out as integers as integers. */
  function Norm(v: Json): Json
    decreases v, 1, 0
  {
    match v
    case Num(d) => Reread(d)
    case MinusZero => Int(0)
    case Arr(items) => Arr(NormItems(items, v))
    case Obj(members) =>
      SortKeepsMembers(members);
      Obj(NormMembers(Sort(members), v))
    case _ => v
  }

  function NormItems(items: seq<Json>, ghost whole: Json): (r: seq<Json>)
    requires forall i | 0 <= i < |items| :: items[i] < whole
    ensures |r| == |items| && forall i | 0 <= i < |r| :: r[i] == Norm(items[i])
    decreases whole, 0, |items|
  {
    if items == [] then [] else [Norm(items[0])] + NormItems(items[1..], whole)
  }

  function NormMembers(members: seq<Member>, ghost whole: Json): (r: seq<Member>)
    requires forall m | m in members :: m.value < whole
    ensures |r| == |members|
    ensures forall i | 0 <= i < |r| :: r[i] == Keyed(members[i].key, Norm(members[i].value))
    decreases whole, 0, |members|
  {
    if members == [] then []
    else [Keyed(members[0].key, Norm(members[0].value))] + NormMembers(members[1..], whole)
  }

  // ---------- scalars ----------

  lemma Prepended(c: CodePoint, tail: Text)
    ensures ([c] + tail)[0] == c && ([c] + tail)[1..] == tail
  {
  }

  /** The two-character escapes. */
  lemma ShortEscapeReadsBack(c: CodePoint, rest: Text)
    requires Scalar(c) && |Escape(c)| == 2
    ensures ParseChar(Escape(c) + rest) == Got(c, rest)
  {
    hide ParseUnicode;
    var letter := Escape(c)[1];
    assert Escape(c) + rest == [BACKSLASH] + ([letter] + rest);
    Prepended(BACKSLASH, [letter] + rest);
    Prepended(letter, rest);
  }

  lemma Hex4ReadsBack(d: int, e: int, rest: Text)
    requires 0 <= d < 16 && 0 <= e < 16
    ensures ParseHex4([0x30, 0x30, HexDigit(d), HexDigit(e)] + rest) == Got(16 * d + e, rest)
  {
    var t := [0x30, 0x30, HexDigit(d), HexDigit(e)] + rest;
    assert t[0] == 0x30 && t[1] == 0x30 && t[2] == HexDigit(d) && t[3] == HexDigit(e) && t[4..] == rest;
  }

  /** The six-character escapes of the other control characters. */
  lemma LongEscapeReadsBack(c: CodePoint, rest: Text)
    requires Scalar(c) && |Escape(c)| == 6
    ensures ParseChar(Escape(c) + rest) == Got(c, rest)
  {
    hide ParseHex4;
    var digits := [0x30, 0x30, HexDigit(c / 16), HexDigit(c % 16)];
    assert Escape(c) + rest == [BACKSLASH] + ([0x75] + (digits + rest));
    Prepended(BACKSLASH, [0x75] + (digits + rest));
    Prepended(0x75, digits + rest);
    Hex4ReadsBack(c / 16, c % 16, rest);
  }

  lemma EscapeReadsBack(c: CodePoint, rest: Text)
    requires Scalar(c)
    ensures ParseChar(Escape(c) + rest) == Got(c, rest)
    ensures Escape(c) != [] && Escape(c)[0] != QUOTE
  {
    hide ParseEscape;
    if |Escape(c)| == 6 {
      LongEscapeReadsBack(c, rest);
    } else if |Escape(c)| == 2 {
      ShortEscapeReadsBack(c, rest);
    } else {
      Prepended(c, rest);
    }
  }

  lemma {:induction false} StringReadsBack(s: Text, rest: Text)
    requires SurrogateFree(s)
    ensures ParseString(Escaped(s) + [QUOTE] + rest) == Got(s, rest)
  {
    if s == [] {
      assert (Escaped(s) + [QUOTE] + rest)[1..] == rest;
    } else {
      var after := Escaped(s[1..]) + [QUOTE] + rest;
      assert Escaped(s) + [QUOTE] + rest == Escape(s[0]) + after;
      EscapeReadsBack(s[0], after);
      StringReadsBack(s[1..], rest);
      assert [s[0]] + s[1..] == s;
    }
  }

  lemma SignStarts(negative: bool, t: Text)
    requires t != [] && Digit(t[0])
    ensures var s := SignText(negative) + t;
      s != [] && (Digit(s[0]) || (s[0] == MINUS && |s| > 1 && Digit(s[1])))
  {
  }

  lemma IntStarts(n: int)
    ensures NumberStart(IntText(n))
  {
    SignStarts(n < 0, Digits(Abs(n)));
  }

  lemma LayoutStarts(digits: Text, e10: int)
    requires digits != [] && Digit(digits[0])
    ensures Layout(digits, e10) != [] && Digit(Layout(digits, e10)[0])
  {
  }

  lemma NumStarts(d: Decimal)
    ensures NumberStart(NumText(d))
  {
    hide Layout, Digits;
    var c := Canon(d);
    if c.m != 0 {
      LayoutStarts(Digits(Abs(c.m)), c.e);
      SignStarts(c.m < 0, Layout(Digits(Abs(c.m)), c.e));
    }
  }

  /** A digit, or a minus sign and a digit. */
  predicate NumberStart(t: Text) {
    t != [] && (Digit(t[0]) || (t[0] == MINUS && |t| > 1 && Digit(t[1])))
  }

  /** Such a text is read as a number. */
  lemma NumberUnfold(t: Text, rest: Text)
    requires NumberStart(t)
    ensures ParseValue(t + rest) == ParseNumber(t + rest)
  {
    hide ParseNumber, ParseString, ParseArray, ParseObject;
    NoWhite(t + rest);
    assert (t + rest)[0] == t[0] && (|t| > 1 ==> (t + rest)[1] == t[1]);
  }

  lemma LiteralReadsBack(word: Text, v: Json, rest: Text)
    requires word != []
    ensures Literal(word, v, word + rest) == Got(v, rest)
  {
    assert (word + rest)[|word|..] == rest;
  }

  // ---------- values ----------

  /** The text of a value starts with a character that settles what it is, never white space. */
  lemma FirstCharacter(v: Json)
    requires JcsValue(v).Ok?
    ensures var t := JcsValue(v).value;
      t != [] && !White(t[0]) && t[0] != CLOSE_BRACKET && t[0] != CLOSE_BRACE
  {
    match v
    case Int(n) => IntStarts(n);
    case Num(d) => NumStarts(d);
    case _ =>
  }

  lemma NoWhite(t: Text)
    requires t == [] || !White(t[0])
    ensures SkipWhite(t) == t
  {
  }

  lemma Enclosed(open: Text, body: Text, close: Text, rest: Text)
    ensures open + body + close + rest == open + (body + close + rest)
  {
  }

  lemma ScalarReadsBack(v: Json, rest: Text)
    requires !v.Arr? && !v.Obj? && JcsValue(v).Ok? && Terminated(rest)
    ensures ParseValue(JcsValue(v).value + rest) == Got(Norm(v), rest)
  {
    hide ParseNumber, ParseString, ParseArray, ParseObject, IntText, NumText, Reread, Escaped;
    match v
    case Null => WordReadsBack(NULL_WORD, v, rest);
    case Bool(b) => WordReadsBack(if b then TRUE_WORD else FALSE_WORD, v, rest);
    case Int(n) =>
      IntStarts(n);
      NumberUnfold(IntText(n), rest);
      IntReadsBack(n, rest);
    case Num(d) =>
      NumStarts(d);
      NumberUnfold(NumText(d), rest);
      NumReadsBack(d, rest);
    case MinusZero =>
      ZeroText();
      IntStarts(0);
      NumberUnfold(IntText(0), rest);
      IntReadsBack(0, rest);
    case Str(s) =>
      var t := StringText(s).value + rest;
      NoWhite(t);
      assert t[0] == QUOTE && t[1..] == Escaped(s) + [QUOTE] + rest;
      StringReadsBack(s, rest);
  }

  lemma WordReadsBack(word: Text, v: Json, rest: Text)
    requires (word == NULL_WORD && v == Null) || (word == TRUE_WORD && v == Bool(true)) ||
             (word == FALSE_WORD && v == Bool(false))
    ensures ParseValue(word + rest) == Got(v, rest)
  {
    hide ParseNumber, ParseString, ParseArray, ParseObject;
    LiteralReadsBack(word, v, rest);
    assert (word + rest)[0] == word[0];
    NoWhite(word + rest);
  }

  lemma ArrayUnfold(tail: Text)
    ensures ParseValue([OPEN_BRACKET] + tail) == ParseArray(tail)
  {
    Prepended(OPEN_BRACKET, tail);
    NoWhite([OPEN_BRACKET] + tail);
  }

  lemma ObjectUnfold(tail: Text)
    ensures ParseValue([OPEN_BRACE] + tail) == ParseObject(tail)
  {
    Prepended(OPEN_BRACE, tail);
    NoWhite([OPEN_BRACE] + tail);
  }

  /** A parser that reads the canonical text of a value, in any context, gives that value and stops after it. */
  lemma {:induction false} ValueReadsBack(v: Json, rest: Text)
    requires WellFormed(v) && JcsValue(v).Ok? && Terminated(rest)
    ensures ParseValue(JcsValue(v).value + rest) == Got(Norm(v), rest)
    decreases v, 1, 0
  {
    match v
    case Arr(items) =>
      var body := JcsItems(items, v).value;
      ArrayReadsBack(items, v, rest);
      ArrayUnfold(body + [CLOSE_BRACKET] + rest);
      Enclosed([OPEN_BRACKET], body, [CLOSE_BRACKET], rest);
    case Obj(members) =>
      SortKeepsMembers(members);
      MembersAreWellFormed(members);
      var body := JcsMembers(Sort(members), v).value;
      ObjectReadsBack(Sort(members), v, rest);
      ObjectUnfold(body + [CLOSE_BRACE] + rest);
      Enclosed([OPEN_BRACE], body, [CLOSE_BRACE], rest);
    case _ => ScalarReadsBack(v, rest);
  }

  lemma MembersAreWellFormed(members: seq<Member>)
    requires WellFormed(Obj(members)) && JcsValue(Obj(members)).Ok?
    ensures DistinctKeys(Sort(members))
    ensures forall i | 0 <= i < |Sort(members)| :: WellFormed(Sort(members)[i].value)
  {
    JcsSucceedsIff(Obj(members));
    SortSorts(members);
    SortKeepsMembers(members);
    forall i | 0 <= i < |Sort(members)|
      ensures WellFormed(Sort(members)[i].value)
    {
      assert Sort(members)[i] in members;
    }
  }

  lemma {:induction false} ArrayReadsBack(items: seq<Json>, whole: Json, rest: Text)
    requires forall i | 0 <= i < |items| :: items[i] < whole && WellFormed(items[i])
    requires JcsItems(items, whole).Ok?
    ensures ParseArray(JcsItems(items, whole).value + [CLOSE_BRACKET] + rest) == Got(Arr(NormItems(items, whole)), rest)
    decreases whole, 0, |items| + 1
  {
    var t := JcsItems(items, whole).value + [CLOSE_BRACKET] + rest;
    if items == [] {
      assert t == [CLOSE_BRACKET] + rest;
      assert t[1..] == rest;
    } else {
      FirstCharacter(items[0]);
      assert t[0] == JcsValue(items[0]).value[0];
      ItemsReadBack(items, whole, rest);
    }
    NoWhite(t);
  }

  lemma {:induction false} ObjectReadsBack(members: seq<Member>, whole: Json, rest: Text)
    requires forall m | m in members :: m.value < whole
    requires JcsMembers(members, whole).Ok? && DistinctKeys(members)
    requires forall i | 0 <= i < |members| :: WellFormed(members[i].value)
    ensures ParseObject(JcsMembers(members, whole).value + [CLOSE_BRACE] + rest) ==
      Got(Obj(NormMembers(members, whole)), rest)
    decreases whole, 0, |members| + 1
  {
    var t := JcsMembers(members, whole).value + [CLOSE_BRACE] + rest;
    if members == [] {
      assert t == [CLOSE_BRACE] + rest;
      assert t[1..] == rest;
    } else {
      assert t[0] == QUOTE;
      MembersReadBack(members, [], whole, rest);
      assert [] + NormMembers(members, whole) == NormMembers(members, whole);
    }
    NoWhite(t);
  }

  lemma {:induction false} ItemsReadBack(items: seq<Json>, whole: Json, rest: Text)
    requires forall i | 0 <= i < |items| :: items[i] < whole
    requires items != [] && JcsItems(items, whole).Ok?
    requires forall i | 0 <= i < |items| :: WellFormed(items[i])
    ensures ParseItems(JcsItems(items, whole).value + [CLOSE_BRACKET] + rest) == Got(NormItems(items, whole), rest)
    decreases whole, 0, |items|
  {
    var first := JcsValue(items[0]).value;
    if |items| == 1 {
      var after := [CLOSE_BRACKET] + rest;
      assert first + [CLOSE_BRACKET] + rest == first + after;
      ValueReadsBack(items[0], after);
      NoWhite(after);
      assert after[1..] == rest;
      assert JcsItems(items, whole).value == first;
      assert NormItems(items, whole) == [Norm(items[0])];
    } else {
      var others := JcsItems(items[1..], whole).value + [CLOSE_BRACKET] + rest;
      var after := [COMMA] + others;
      assert JcsItems(items, whole).value + [CLOSE_BRACKET] + rest == first + after;
      ValueReadsBack(items[0], after);
      NoWhite(after);
      assert after[1..] == others;
      ItemsReadBack(items[1..], whole, rest);
    }
  }

  lemma MemberUnfold(key: Text, keyText: Text, value: Text, v: Json, after: Text, before: seq<Member>)
    requires ParseString(keyText) == Got(key, [COLON] + value)
    requires ParseValue(value) == Got(v, after)
    requires after != [] && (after[0] == CLOSE_BRACE || after[0] == COMMA)
    ensures ParseMembers([QUOTE] + keyText, before) ==
      if after[0] == CLOSE_BRACE then Got(Put(before, key, v), after[1..])
      else ParseMembers(after[1..], Put(before, key, v))
  {
    Prepended(QUOTE, keyText);
    Prepended(COLON, value);
    NoWhite([QUOTE] + keyText);
    NoWhite([COLON] + value);
    NoWhite(after);
  }

  lemma Regroup6(a: Text, b: Text, c: Text, d: Text, e: Text, f: Text)
    ensures a + b + c + d + e + f == a + (b + c + (d + (e + f)))
  {
  }

  /** One turn of the member loop, up to the comma or brace after the value. */
  lemma MemberReadsBack(key: Text, value: Text, v: Json, after: Text, before: seq<Member>)
    requires SurrogateFree(key)
    requires ParseValue(value + after) == Got(v, after)
    requires after != [] && (after[0] == CLOSE_BRACE || after[0] == COMMA)
    ensures ParseMembers([QUOTE] + Escaped(key) + [QUOTE] + [COLON] + value + after, before) ==
      if after[0] == CLOSE_BRACE then Got(Put(before, key, v), after[1..])
      else ParseMembers(after[1..], Put(before, key, v))
  {
    var tail := [COLON] + (value + after);
    StringReadsBack(key, tail);
    MemberUnfold(key, Escaped(key) + [QUOTE] + tail, value + after, v, after, before);
    Regroup6([QUOTE], Escaped(key), [QUOTE], [COLON], value, after);
  }

  lemma {:induction false} MembersReadBack(members: seq<Member>, before: seq<Member>, whole: Json, rest: Text)
    requires forall m | m in members :: m.value < whole
    requires members != [] && JcsMembers(members, whole).Ok?
    requires forall i | 0 <= i < |members| :: WellFormed(members[i].value)
    requires DistinctKeys(members)
    requires forall i | 0 <= i < |members| :: !HasKey(before, members[i].key)
    ensures ParseMembers(JcsMembers(members, whole).value + [CLOSE_BRACE] + rest, before) ==
      Got(before + NormMembers(members, whole), rest)
    decreases whole, 0, |members|
  {
    var v := Norm(members[0].value);
    MembersSplit(members, whole, rest);
    AfterMemberParts(members, whole, rest);
    ValueReadsBack(members[0].value, AfterMember(members, whole, rest));
    MembersStep(members, before, whole, rest);
    NormMembersStep(members, before, whole);
    if |members| > 1 {
      MembersTail(members, before, v);
      MembersReadBack(members[1..], before + [Keyed(members[0].key, v)], whole, rest);
    }
  }

  lemma MembersStep(members: seq<Member>, before: seq<Member>, whole: Json, rest: Text)
    requires forall m | m in members :: m.value < whole
    requires members != [] && JcsMembers(members, whole).Ok? && JcsValue(members[0].value).Ok?
    requires !HasKey(before, members[0].key)
    requires var after := AfterMember(members, whole, rest);
      ParseValue(JcsValue(members[0].value).value + after) == Got(Norm(members[0].value), after)
    ensures var grown := before + [Keyed(members[0].key, Norm(members[0].value))];
      ParseMembers(JcsMembers(members, whole).value + [CLOSE_BRACE] + rest, before) ==
      if |members| == 1 then Got(grown, rest)
      else ParseMembers(JcsMembers(members[1..], whole).value + [CLOSE_BRACE] + rest, grown)
  {
    var m := members[0];
    MembersSplit(members, whole, rest);
    AfterMemberParts(members, whole, rest);
    MemberReadsBack(m.key, JcsValue(m.value).value, Norm(m.value), AfterMember(members, whole, rest), before);
    PutNew(before, m.key, Norm(m.value));
  }

  lemma AfterMemberParts(members: seq<Member>, whole: Json, rest: Text)
    requires forall m | m in members :: m.value < whole
    requires members != [] && JcsMembers(members, whole).Ok?
    ensures var after := AfterMember(members, whole, rest);
      && after != [] && Terminated(after)
      && (if |members| == 1 then after[0] == CLOSE_BRACE && after[1..] == rest
          else after[0] == COMMA && after[1..] == JcsMembers(members[1..], whole).value + [CLOSE_BRACE] + rest)
  {
  }

  lemma NormMembersStep(members: seq<Member>, before: seq<Member>, whole: Json)
    requires forall m | m in members :: m.value < whole
    requires members != []
    ensures var grown := before + [Keyed(members[0].key, Norm(members[0].value))];
      before + NormMembers(members, whole) ==
      if |members| == 1 then grown else grown + NormMembers(members[1..], whole)
  {
    var others := NormMembers(members[1..], whole);
    Regroup(before, [Keyed(members[0].key, Norm(members[0].value))], others);
    if |members| == 1 {
      assert others == [];
    }
  }

  /** What follows the first member's value. */
  ghost function AfterMember(members: seq<Member>, whole: Json, rest: Text): Text
    requires forall m | m in members :: m.value < whole
    requires members != [] && JcsMembers(members, whole).Ok?
  {
    if |members| == 1 then [CLOSE_BRACE] + rest
    else [COMMA] + (JcsMembers(members[1..], whole).value + [CLOSE_BRACE] + rest)
  }

  lemma MembersUnfold(members: seq<Member>, whole: Json)
    requires forall m | m in members :: m.value < whole
    requires members != [] && JcsMembers(members, whole).Ok?
    ensures JcsValue(members[0].value).Ok?
    ensures |members| > 1 ==> JcsMembers(members[1..], whole).Ok?
    ensures JcsMembers(members, whole).value ==
      [QUOTE] + Escaped(members[0].key) + [QUOTE] + [COLON] + JcsValue(members[0].value).value +
      if |members| == 1 then [] else [COMMA] + JcsMembers(members[1..], whole).value
  {
    var key := StringText(members[0].key);
    var value := JcsValue(members[0].value);
    assert key.Ok? && value.Ok?;
    if |members| > 1 {
      Regroup(key.value + [COLON] + value.value, [COMMA], JcsMembers(members[1..], whole).value);
    }
  }

  lemma MembersSplit(members: seq<Member>, whole: Json, rest: Text)
    requires forall m | m in members :: m.value < whole
    requires members != [] && JcsMembers(members, whole).Ok?
    ensures JcsValue(members[0].value).Ok?
    ensures JcsMembers(members, whole).value + [CLOSE_BRACE] + rest ==
      [QUOTE] + Escaped(members[0].key) + [QUOTE] + [COLON] + JcsValue(members[0].value).value +
      AfterMember(members, whole, rest)
  {
    MembersUnfold(members, whole);
    var head := [QUOTE] + Escaped(members[0].key) + [QUOTE] + [COLON] + JcsValue(members[0].value).value;
    if |members| > 1 {
      Regroup4(head, [COMMA], JcsMembers(members[1..], whole).value, rest);
    } else {
      Regroup4(head, [], [], rest);
      assert [] + ([] + [CLOSE_BRACE] + rest) == [CLOSE_BRACE] + rest;
    }
  }

  lemma Regroup4(a: Text, b: Text, c: Text, d: Text)
    ensures a + (b + c) + [CLOSE_BRACE] + d == a + (b + (c + [CLOSE_BRACE] + d))
  {
  }

  lemma MembersTail(members: seq<Member>, before: seq<Member>, v: Json)
    requires members != [] && DistinctKeys(members)
    requires forall i | 0 <= i < |members| :: !HasKey(before, members[i].key)
    ensures DistinctKeys(members[1..])
    ensures forall i | 0 <= i < |members[1..]| :: !HasKey(before + [Keyed(members[0].key, v)], members[1..][i].key)
  {
    forall i | 0 <= i < |members[1..]|
      ensures !HasKey(before + [Keyed(members[0].key, v)], members[1..][i].key)
    {
      assert members[1..][i] == members[i + 1];
    }
  }

  /** The canonical bytes parse back to the value. */
  lemma CanonicalBytesReadBack(v: Json)
    requires WellFormed(v) && CanonicalBytes(v).Ok?
    ensures LoadsBytes(CanonicalBytes(v).value) == Some(Norm(v))
  {
    var t := JcsValue(v).value;
    JcsIsClean(v);
    Utf8RoundTrip(t);
    ValueReadsBack(v, []);
    assert t + [] == t;
  }

  // ---------- canonical bytes identify the value ----------

  ghost predicate HasRight(i: nat, m: nat, r: (nat, nat) -> bool) {
    exists j: nat :: j < m && r(i, j)
  }

  ghost predicate HasLeft(j: nat, n: nat, r: (nat, nat) -> bool) {
    exists i: nat :: i < n && r(i, j)
  }

  /** Each of the first `n` indices has a partner among the first `m`, and the other way round. */
  ghost predicate TwoWay(n: nat, m: nat, r: (nat, nat) -> bool) {
    && (forall i: nat | i < n :: HasRight(i, m, r))
    && (forall j: nat | j < m :: HasLeft(j, n, r))
  }

  lemma TwoWayWeakens(n: nat, m: nat, r: (nat, nat) -> bool, q: (nat, nat) -> bool)
    requires forall i: nat, j: nat | i < n && j < m :: r(i, j) ==> q(i, j)
    requires TwoWay(n, m, r)
    ensures TwoWay(n, m, q)
  {
    forall i: nat | i < n
      ensures HasRight(i, m, q)
    {
      assert HasRight(i, m, r);
      var j: nat :| j < m && r(i, j);
      assert q(i, j);
    }
    forall j: nat | j < m
      ensures HasLeft(j, n, q)
    {
      assert HasLeft(j, n, r);
      var i: nat :| i < n && r(i, j);
      assert q(i, j);
    }
  }

  /** Equality of JSON values: members of an object are compared as a set, integers and floats by value. */
  ghost predicate SameValue(v: Json, w: Json)
    decreases v
  {
    match (v, w)
    case (Arr(a), Arr(b)) => |a| == |b| && forall i | 0 <= i < |a| :: SameValue(a[i], b[i])
    case (Obj(a), Obj(b)) =>
      TwoWay(|a|, |b|, (i: nat, j: nat) =>
        i < |a| && j < |b| && a[i].key == b[j].key && SameValue(a[i].value, b[j].value))
    case _ =>
      if NumberOf(v).Some? && NumberOf(w).Some? then SameNumber(NumberOf(v).value, NumberOf(w).value) else v == w
  }

  lemma NormMemberFrom(members: seq<Member>, m: Member) returns (i: nat)
    requires m in Norm(Obj(members)).members
    ensures i < |members| && m == Keyed(members[i].key, Norm(members[i].value))
  {
    SortKeepsMembers(members);
    var sorted := Sort(members);
    var normal := NormMembers(sorted, Obj(members));
    var k :| 0 <= k < |normal| && normal[k] == m;
    assert sorted[k] in members;
    i :| 0 <= i < |members| && members[i] == sorted[k];
  }

  lemma NormMemberTo(members: seq<Member>, i: nat)
    requires i < |members|
    ensures Keyed(members[i].key, Norm(members[i].value)) in Norm(Obj(members)).members
  {
    SortKeepsMembers(members);
    var sorted := Sort(members);
    assert members[i] in sorted;
    var k :| 0 <= k < |sorted| && sorted[k] == members[i];
    assert NormMembers(sorted, Obj(members))[k] == Keyed(members[i].key, Norm(members[i].value));
  }

  /** The members of a normalized object are the normalized members. */
  lemma NormMembersOf(members: seq<Member>, m: Member)
    ensures m in Norm(Obj(members)).members <==>
      exists i :: 0 <= i < |members| && m == Keyed(members[i].key, Norm(members[i].value))
  {
    if m in Norm(Obj(members)).members {
      var i := NormMemberFrom(members, m);
    }
    if i :| 0 <= i < |members| && m == Keyed(members[i].key, Norm(members[i].value)) {
      NormMemberTo(members, i);
    }
  }

  lemma NormMembersSorted(members: seq<Member>)
    requires DistinctKeys(members) && CleanKeys(members)
    ensures Sorted(Norm(Obj(members)).members)
  {
    SortKeepsMembers(members);
    SortSorts(members);
  }

  /** Equal values are exactly those with one normal form. */
  lemma {:induction false} SameIffNorm(v: Json, w: Json)
    requires WellFormed(v) && WellFormed(w) && Canonicalizable(v) && Canonicalizable(w)
    ensures SameValue(v, w) <==> Norm(v) == Norm(w)
    decreases v
  {
    match (v, w)
    case (Arr(a), Arr(b)) =>
      forall i | 0 <= i < |a| && i < |b|
        ensures SameValue(a[i], b[i]) <==> Norm(a[i]) == Norm(b[i])
      {
        SameIffNorm(a[i], b[i]);
      }
      if SameValue(v, w) {
        assert NormItems(a, v) == NormItems(b, w);
      }
      if Norm(v) == Norm(w) {
        assert forall i | 0 <= i < |a| :: NormItems(a, v)[i] == NormItems(b, w)[i];
      }
    case (Obj(a), Obj(b)) =>
      var same := (i: nat, j: nat) =>
        i < |a| && j < |b| && a[i].key == b[j].key && SameValue(a[i].value, b[j].value);
      forall i: nat, j: nat | i < |a| && j < |b|
        ensures same(i, j) == Alike(a, b)(i, j)
      {
        SameIffNorm(a[i].value, b[j].value);
      }
      if TwoWay(|a|, |b|, same) {
        TwoWayWeakens(|a|, |b|, same, Alike(a, b));
      }
      if TwoWay(|a|, |b|, Alike(a, b)) {
        TwoWayWeakens(|a|, |b|, Alike(a, b), same);
      }
      ObjectsAlikeIffNorm(a, b);
    case _ => SameScalarIffNorm(v, w);
  }

  lemma SameScalarIffNorm(v: Json, w: Json)
    requires Canonicalizable(v) && Canonicalizable(w) && !(v.Arr? && w.Arr?) && !(v.Obj? && w.Obj?)
    ensures SameValue(v, w) <==> Norm(v) == Norm(w)
  {
    hide Reread, SameNumber, Canonicalizable;
    if NumberOf(v).Some? && NumberOf(w).Some? {
      NormIsReread(v);
      NormIsReread(w);
      var a, b := NumberOf(v).value, NumberOf(w).value;
      CanonIffSame(a, b);
      RereadDenotes(a);
      RereadDenotes(b);
      RereadOfCanon(a, b);
    } else if NumberOf(v).Some? {
      NormIsReread(v);
      RereadDenotes(NumberOf(v).value);
    } else if NumberOf(w).Some? {
      NormIsReread(w);
      RereadDenotes(NumberOf(w).value);
    }
  }

  lemma RereadOfCanon(a: Decimal, b: Decimal)
    ensures Canon(a) == Canon(b) ==> Reread(a) == Reread(b)
  {
  }

  /** Safe integers too are what a reader makes of their text. */
  lemma NormIsReread(v: Json)
    requires NumberOf(v).Some? && Canonicalizable(v)
    ensures Norm(v) == Reread(NumberOf(v).value)
    ensures JcsValue(v) == Ok(NumText(NumberOf(v).value))
  {
    if v.Int? {
      SafeIsReread(v.n);
    }
  }

  /** Member `i` of one object and member `j` of the other have one key and one normal value. */
  ghost function Alike(a: seq<Member>, b: seq<Member>): (nat, nat) -> bool {
    (i: nat, j: nat) => i < |a| && j < |b| && a[i].key == b[j].key && Norm(a[i].value) == Norm(b[j].value)
  }

  lemma ObjectsAlikeIffNorm(a: seq<Member>, b: seq<Member>)
    requires DistinctKeys(a) && CleanKeys(a) && DistinctKeys(b) && CleanKeys(b)
    ensures TwoWay(|a|, |b|, Alike(a, b)) <==> Norm(Obj(a)) == Norm(Obj(b))
  {
    var na, nb := Norm(Obj(a)).members, Norm(Obj(b)).members;
    if TwoWay(|a|, |b|, Alike(a, b)) {
      NormMembersSorted(a);
      NormMembersSorted(b);
      forall m
        ensures m in na <==> m in nb
      {
        AlikeMember(a, b, m);
      }
      SortedIsUnique(na, nb);
    }
    if na == nb {
      forall i: nat | i < |a|
        ensures HasRight(i, |b|, Alike(a, b))
      {
        var m := Keyed(a[i].key, Norm(a[i].value));
        NormMembersOf(a, m);
        NormMembersOf(b, m);
        AlikeRight(a, b, i);
      }
      forall j: nat | j < |b|
        ensures HasLeft(j, |a|, Alike(a, b))
      {
        var m := Keyed(b[j].key, Norm(b[j].value));
        NormMembersOf(a, m);
        NormMembersOf(b, m);
        AlikeLeft(a, b, j);
      }
    }
  }

  lemma AlikeRight(a: seq<Member>, b: seq<Member>, i: nat)
    requires i < |a|
    ensures HasRight(i, |b|, Alike(a, b)) <==>
      exists j :: 0 <= j < |b| && Keyed(a[i].key, Norm(a[i].value)) == Keyed(b[j].key, Norm(b[j].value))
  {
    if HasRight(i, |b|, Alike(a, b)) {
      var j: nat :| j < |b| && Alike(a, b)(i, j);
    }
    if j :| 0 <= j < |b| && Keyed(a[i].key, Norm(a[i].value)) == Keyed(b[j].key, Norm(b[j].value)) {
      assert Alike(a, b)(i, j);
    }
  }

  lemma AlikeLeft(a: seq<Member>, b: seq<Member>, j: nat)
    requires j < |b|
    ensures HasLeft(j, |a|, Alike(a, b)) <==>
      exists i :: 0 <= i < |a| && Keyed(b[j].key, Norm(b[j].value)) == Keyed(a[i].key, Norm(a[i].value))
  {
    if HasLeft(j, |a|, Alike(a, b)) {
      var i: nat :| i < |a| && Alike(a, b)(i, j);
    }
    if i :| 0 <= i < |a| && Keyed(b[j].key, Norm(b[j].value)) == Keyed(a[i].key, Norm(a[i].value)) {
      assert Alike(a, b)(i, j);
    }
  }

  lemma AlikeMember(a: seq<Member>, b: seq<Member>, m: Member)
    requires TwoWay(|a|, |b|, Alike(a, b))
    ensures m in Norm(Obj(a)).members <==> m in Norm(Obj(b)).members
  {
    NormMembersOf(a, m);
    NormMembersOf(b, m);
    if m in Norm(Obj(a)).members {
      var i: nat :| i < |a| && m == Keyed(a[i].key, Norm(a[i].value));
      assert HasRight(i, |b|, Alike(a, b));
      AlikeRight(a, b, i);
    }
    if m in Norm(Obj(b)).members {
      var j: nat :| j < |b| && m == Keyed(b[j].key, Norm(b[j].value));
      assert HasLeft(j, |a|, Alike(a, b));
      AlikeLeft(a, b, j);
    }
  }

  lemma ItemsOfNorm(a: seq<Json>, b: seq<Json>)
    requires Norm(Arr(a)) == Norm(Arr(b))
    ensures |a| == |b| && forall i | 0 <= i < |a| :: Norm(a[i]) == Norm(b[i])
  {
    var na, nb := NormItems(a, Arr(a)), NormItems(b, Arr(b));
    assert na == nb;
    forall i | 0 <= i < |a| ensures Norm(a[i]) == Norm(b[i]) {
      assert na[i] == nb[i];
    }
  }

  lemma MembersOfNorm(a: seq<Member>, b: seq<Member>)
    requires Norm(Obj(a)) == Norm(Obj(b))
    ensures var sa, sb := Sort(a), Sort(b);
      |sa| == |sb| && forall i | 0 <= i < |sa| :: sa[i].key == sb[i].key && Norm(sa[i].value) == Norm(sb[i].value)
  {
    SortKeepsMembers(a);
    SortKeepsMembers(b);
    var sa, sb := Sort(a), Sort(b);
    var na, nb := NormMembers(sa, Obj(a)), NormMembers(sb, Obj(b));
    assert na == nb;
    forall i | 0 <= i < |sa| ensures sa[i].key == sb[i].key && Norm(sa[i].value) == Norm(sb[i].value) {
      assert na[i] == nb[i];
    }
  }

  lemma SortedPrintable(a: seq<Member>)
    requires Canonicalizable(Obj(a))
    ensures forall i | 0 <= i < |Sort(a)| :: Canonicalizable(Sort(a)[i].value)
  {
    hide Canonicalizable;
    SortKeepsMembers(a);
    var sorted := Sort(a);
    forall i | 0 <= i < |sorted| ensures Canonicalizable(sorted[i].value) {
      assert sorted[i] in multiset(sorted);
      MemberIsPrintable(a, sorted[i]);
    }
  }

  /** Values with one normal form print alike. */
  lemma {:induction false} SameNormPrintsAlike(v: Json, w: Json)
    requires Canonicalizable(v) && Canonicalizable(w) && Norm(v) == Norm(w)
    ensures JcsValue(v) == JcsValue(w)
    decreases v, 1, 0
  {
    hide Norm, NumText, IntText, StringText, Sort, JcsItems, JcsMembers;
    match (v, w)
    case (Arr(a), Arr(b)) =>
      ItemsOfNorm(a, b);
      ItemsPrintAlike(a, v, b, w);
    case (Obj(a), Obj(b)) =>
      MembersOfNorm(a, b);
      SortedPrintable(a);
      SortedPrintable(b);
      SortKeepsMembers(a);
      SortKeepsMembers(b);
      MembersPrintAlike(Sort(a), v, Sort(b), w);
    case _ => ScalarsPrintAlike(v, w);
  }

  lemma MemberIsPrintable(members: seq<Member>, m: Member)
    requires Canonicalizable(Obj(members)) && m in members
    ensures Canonicalizable(m.value)
  {
    var i :| 0 <= i < |members| && members[i] == m;
    assert Printable(members[i]);
  }

  lemma ScalarsPrintAlike(v: Json, w: Json)
    requires Canonicalizable(v) && Canonicalizable(w) && Norm(v) == Norm(w)
    requires !(v.Arr? && w.Arr?) && !(v.Obj? && w.Obj?)
    ensures JcsValue(v) == JcsValue(w)
  {
    hide Reread, SameNumber, Canonicalizable, NumText;
    if NumberOf(v).Some? {
      NormIsReread(v);
      RereadDenotes(NumberOf(v).value);
    }
    if NumberOf(w).Some? {
      NormIsReread(w);
      RereadDenotes(NumberOf(w).value);
    }
    if NumberOf(v).Some? && NumberOf(w).Some? {
      TextOfCanon(NumberOf(v).value, NumberOf(w).value);
    }
  }

  lemma TextOfCanon(a: Decimal, b: Decimal)
    ensures Canon(a) == Canon(b) ==> NumText(a) == NumText(b)
  {
  }

  lemma {:induction false} ItemsPrintAlike(a: seq<Json>, wholeA: Json, b: seq<Json>, wholeB: Json)
    requires |a| == |b|
    requires forall i | 0 <= i < |a| :: a[i] < wholeA && b[i] < wholeB && Norm(a[i]) == Norm(b[i])
    requires forall i | 0 <= i < |a| :: Canonicalizable(a[i]) && Canonicalizable(b[i])
    ensures JcsItems(a, wholeA) == JcsItems(b, wholeB)
    decreases wholeA, 0, |a|
  {
    if a != [] {
      SameNormPrintsAlike(a[0], b[0]);
      ItemsPrintAlike(a[1..], wholeA, b[1..], wholeB);
    }
  }

  lemma {:induction false} MembersPrintAlike(a: seq<Member>, wholeA: Json, b: seq<Member>, wholeB: Json)
    requires |a| == |b|
    requires forall m | m in a :: m.value < wholeA
    requires forall m | m in b :: m.value < wholeB
    requires forall i | 0 <= i < |a| :: a[i].key == b[i].key && Norm(a[i].value) == Norm(b[i].value)
    requires forall i | 0 <= i < |a| :: Canonicalizable(a[i].value) && Canonicalizable(b[i].value)
    ensures JcsMembers(a, wholeA) == JcsMembers(b, wholeB)
    decreases wholeA, 0, |a|
  {
    if a != [] {
      SameNormPrintsAlike(a[0].value, b[0].value);
      MembersPrintAlike(a[1..], wholeA, b[1..], wholeB);
    }
  }

  /** Two values have the same canonical bytes exactly when they are equal as JSON values. */
  lemma CanonicalBytesIdentify(v: Json, w: Json)
    requires WellFormed(v) && WellFormed(w) && CanonicalBytes(v).Ok? && CanonicalBytes(w).Ok?
    ensures CanonicalBytes(v) == CanonicalBytes(w) <==> SameValue(v, w)
  {
    JcsSucceedsIff(v);
    JcsSucceedsIff(w);
    SameIffNorm(v, w);
    CanonicalBytesReadBack(v);
    CanonicalBytesReadBack(w);
    if Norm(v) == Norm(w) {
      SameNormPrintsAlike(v, w);
    }
  }

  // ---------- printing again what was read ----------

  lemma SortedIsFixed<V>(ms: seq<Keyed<V>>)
    requires Sorted(ms)
    ensures Sort(ms) == ms
    decreases |ms|
  {
    if ms != [] {
      SortedIsFixed(ms[1..]);
      if |ms| > 1 {
        var u, w := BigEndian(Utf16(ms[0].key)), BigEndian(Utf16(ms[1].key));
        assert KeyLess(ms[0].key, ms[1].key);
        LexTotal(u, w);
        assert ms[1..][0] == ms[1];
      }
      assert Sort(ms) == [ms[0]] + ms[1..];
    }
  }

  lemma RereadIsFixed(d: Decimal)
    ensures Norm(Reread(d)) == Reread(d)
  {
    hide Digits, Scale;
    CanonIsFixed(d);
  }

  /** Reading changes nothing the second time. */
  lemma {:induction false} NormIsFixed(v: Json)
    requires WellFormed(v) && Canonicalizable(v)
    ensures Norm(Norm(v)) == Norm(v)
    decreases v
  {
    match v
    case Num(d) => RereadIsFixed(d);
    case Arr(items) =>
      forall i | 0 <= i < |items| ensures Norm(Norm(items[i])) == Norm(items[i]) {
        NormIsFixed(items[i]);
      }
      assert NormItems(NormItems(items, v), Norm(v)) == NormItems(items, v);
    case Obj(members) =>
      SortKeepsMembers(members);
      KeysOfPrintable(members);
      NormMembersSorted(members);
      var sorted := Sort(members);
      var normal := NormMembers(sorted, v);
      SortedIsFixed(normal);
      forall i | 0 <= i < |sorted| ensures Norm(Norm(sorted[i].value)) == Norm(sorted[i].value) {
        assert sorted[i] in members;
        MemberIsPrintable(members, sorted[i]);
        MemberIsWellFormed(members, sorted[i]);
        NormIsFixed(sorted[i].value);
      }
      assert NormMembers(normal, Obj(normal)) == normal;
    case _ =>
  }

  lemma KeysOfPrintable(members: seq<Member>)
    requires Canonicalizable(Obj(members))
    ensures CleanKeys(members)
  {
    assert forall i | 0 <= i < |members| :: Printable(members[i]);
  }

  lemma MemberIsWellFormed(members: seq<Member>, m: Member)
    requires WellFormed(Obj(members)) && m in members
    ensures WellFormed(m.value)
  {
    var i :| 0 <= i < |members| && members[i] == m;
  }

  /** No float is laid out as an integer that is not a safe one. */
  ghost predicate Rereadable(v: Json) {
    match v
    case Num(d) => Reread(d).Int? ==> SafeInteger(Reread(d).n)
    case Arr(items) => forall i | 0 <= i < |items| :: Rereadable(items[i])
    case Obj(members) => forall i | 0 <= i < |members| :: Rereadable(members[i].value)
    case _ => true
  }

  lemma {:induction false} NormPrintsIff(v: Json)
    requires Canonicalizable(v)
    ensures Canonicalizable(Norm(v)) <==> Rereadable(v)
    decreases v
  {
    match v
    case Arr(items) =>
      forall i | 0 <= i < |items| ensures Canonicalizable(Norm(v).items[i]) <==> Rereadable(items[i]) {
        NormPrintsIff(items[i]);
      }
    case Obj(members) =>
      forall i | 0 <= i < |members| ensures Canonicalizable(Norm(members[i].value)) <==> Rereadable(members[i].value) {
        assert Printable(members[i]);
        NormPrintsIff(members[i].value);
      }
      NormObjectPrintsIff(members);
    case _ =>
  }

  lemma NormObjectPrintsIff(members: seq<Member>)
    requires Canonicalizable(Obj(members))
    ensures Canonicalizable(Norm(Obj(members))) <==>
      forall i | 0 <= i < |members| :: Canonicalizable(Norm(members[i].value))
  {
    var normal := Norm(Obj(members)).members;
    if Canonicalizable(Obj(normal)) {
      forall i | 0 <= i < |members| ensures Canonicalizable(Norm(members[i].value)) {
        NormMemberTo(members, i);
        MemberIsPrintable(normal, Keyed(members[i].key, Norm(members[i].value)));
      }
    }
    if forall i | 0 <= i < |members| :: Canonicalizable(Norm(members[i].value)) {
      forall j | 0 <= j < |normal| ensures Printable(normal[j]) {
        var i := NormMemberFrom(members, normal[j]);
        assert Printable(members[i]);
      }
    }
  }

  /** What was read from canonical bytes prints the same bytes again, exactly when no float in the value was laid out as
      an integer beyond the safe range; otherwise printing it again raises. */
  lemma PrintsAgainIff(v: Json)
    requires WellFormed(v) && CanonicalBytes(v).Ok?
    ensures LoadsBytes(CanonicalBytes(v).value).Some?
    ensures var again := CanonicalBytes(LoadsBytes(CanonicalBytes(v).value).value);
      if Rereadable(v) then again == CanonicalBytes(v) else again.Err?
  {
    JcsSucceedsIff(v);
    JcsSucceedsIff(Norm(v));
    CanonicalBytesReadBack(v);
    NormPrintsIff(v);
    if Rereadable(v) {
      NormIsFixed(v);
      SameNormPrintsAlike(Norm(v), v);
    }
  }

  /** One such float: 1e20 prints as an integer, which is read as one and then refused. */
  lemma WideFloatIsRefused()
    ensures var v := Num(Decimal(1, 20));
      && CanonicalBytes(v).Ok? && LoadsBytes(CanonicalBytes(v).value) == Some(Int(Scale(1, 20)))
      && CanonicalBytes(Int(Scale(1, 20))) == Err(UnsafeInteger)
  {
    var v := Num(Decimal(1, 20));
    OneTwenty();
    CanonicalBytesReadBack(v);
  }

  lemma OneTwenty()
    ensures Scale(1, 20) > MAX_SAFE_INTEGER && Reread(Decimal(1, 20)) == Int(Scale(1, 20))
  {
    assert Scale(1, 4) == 10000;
    ScaleAgain(1, 4, 4);
    assert Scale(10000, 4) == 100000000;
    ScaleAgain(1, 8, 8);
    assert Scale(100000000, 4) == 1000000000000;
    ScaleAgain(100000000, 4, 4);
    assert Scale(1000000000000, 4) == 10000000000000000;
    ScaleAgain(1, 16, 4);
    assert Digits(1) == [0x31];
  }
}

/** The canonical printer of `execution_report.py` (RFC 8785): strings with minimal escapes, integers in the safe range,
    floats, and objects with their members sorted. */
module Jcs {
  import opened Prelude
  import opened Texts
  import opened Decimals
  import opened Json

  datatype JcsError = UnsafeInteger | LoneSurrogate | NotANumber

  const QUOTE: CodePoint := 0x22
  const COMMA: CodePoint := 0x2C
  const COLON: CodePoint := 0x3A
  const BACKSLASH: CodePoint := 0x5C
  const OPEN_BRACKET: CodePoint := 0x5B
  const CLOSE_BRACKET: CodePoint := 0x5D
  const OPEN_BRACE: CodePoint := 0x7B
  const CLOSE_BRACE: CodePoint := 0x7D

  // ---------- strings ----------

  function HexDigit(d: int): CodePoint
    requires 0 <= d < 16
  {
    if d < 10 then 0x30 + d else 0x61 + (d - 10)
  }

  /** Reading accepts both cases. */
  function HexValue(c: CodePoint): Option<int> {
    if 0x30 <= c <= 0x39 then Some(c - 0x30)
    else if 0x61 <= c <= 0x66 then Some(c - 0x61 + 10)
    else if 0x41 <= c <= 0x46 then Some(c - 0x41 + 10)
    else None
  }

  /** What one character of a string is printed as. */
  function Escape(o: CodePoint): Text {
    match o
    case 0x22 => [BACKSLASH, QUOTE]
    case 0x5C => [BACKSLASH, BACKSLASH]
    case 0x08 => [BACKSLASH, 0x62]
    case 0x09 => [BACKSLASH, 0x74]
    case 0x0A => [BACKSLASH, 0x6E]
    case 0x0C => [BACKSLASH, 0x66]
    case 0x0D => [BACKSLASH, 0x72]
    case _ =>
      if 0 <= o < 0x20 then [BACKSLASH, 0x75, 0x30, 0x30, HexDigit(o / 16), HexDigit(o % 16)]
      else [o]
  }

  function Escaped(s: Text): Text {
    if s == [] then [] else Escape(s[0]) + Escaped(s[1..])
  }

  function StringText(s: Text): Result<Text, JcsError> {
    if SurrogateFree(s) then Ok([QUOTE] + Escaped(s) + [QUOTE]) else Err(LoneSurrogate)
  }

  lemma {:induction false} EscapedAppend(s: Text, c: CodePoint)
    ensures Escaped(s + [c]) == Escaped(s) + Escape(c)
  {
    if s == [] {
      assert s + [c] == [c] && [c][1..] == [];
    } else {
      assert (s + [c])[1..] == s[1..] + [c];
      EscapedAppend(s[1..], c);
    }
  }

  lemma NothingEscaped()
    ensures Escaped([]) == []
  {
  }

  /** `_jcs_string`: the output is built character by character. */
  method JcsString(s: Text) returns (r: Result<Text, JcsError>)
    ensures r == StringText(s)
  {
    hide Escaped, Escape;
    NothingEscaped();
    var out: Text := [QUOTE];
    for i := 0 to |s|
      invariant SurrogateFree(s[..i])
      invariant out == [QUOTE] + Escaped(s[..i])
    {
      var o := s[i];
      if !Scalar(o) {
        assert s == s[..i] + s[i..];
        CleanConcat(s[..i], s[i..]);
        return Err(LoneSurrogate);
      }
      EscapedAppend(s[..i], o);
      assert s[..i + 1] == s[..i] + [o];
      CleanConcat(s[..i], [o]);
      out := out + Escape(o);
    }
    assert s[..|s|] == s;
    return Ok(out + [QUOTE]);
  }

  const NULL_WORD: Text := [0x6E, 0x75, 0x6C, 0x6C]
  const TRUE_WORD: Text := [0x74, 0x72, 0x75, 0x65]
  const FALSE_WORD: Text := [0x66, 0x61, 0x6C, 0x73, 0x65]

  // ---------- integers ----------

  predicate SafeInteger(n: int) {
    -MAX_SAFE_INTEGER <= n <= MAX_SAFE_INTEGER
  }

  // ---------- values ----------

  /** `_jcs_value`. */
  function JcsValue(v: Json): Result<Text, JcsError>
    decreases v, 1, 0
  {
    match v
    case Null => Ok(NULL_WORD)
    case Bool(b) => Ok(if b then TRUE_WORD else FALSE_WORD)
    case Int(n) => if SafeInteger(n) then Ok(IntText(n)) else Err(UnsafeInteger)
    case Num(d) => Ok(NumText(d))
    case MinusZero => Ok([ZERO])
    case NotFinite(_) => Err(NotANumber)
    case Str(s) => StringText(s)
    case Arr(items) =>
      var body :- JcsItems(items, v);
      Ok([OPEN_BRACKET] + body + [CLOSE_BRACKET])
    case Obj(members) =>
      SortKeepsMembers(members);
      var body :- JcsMembers(Sort(members), v);
      Ok([OPEN_BRACE] + body + [CLOSE_BRACE])
  }

  function JcsItems(items: seq<Json>, ghost whole: Json): Result<Text, JcsError>
    requires forall i | 0 <= i < |items| :: items[i] < whole
    decreases whole, 0, |items|
  {
    if items == [] then Ok([])
    else
      var first :- JcsValue(items[0]);
      if |items| == 1 then Ok(first)
      else
        var others :- JcsItems(items[1..], whole);
        Ok(first + [COMMA] + others)
  }

  function JcsMembers(members: seq<Member>, ghost whole: Json): Result<Text, JcsError>
    requires forall m | m in members :: m.value < whole
    decreases whole, 0, |members|
  {
    if members == [] then Ok([])
    else
      var key :- StringText(members[0].key);
      var value :- JcsValue(members[0].value);
      var first := key + [COLON] + value;
      if |members| == 1 then Ok(first)
      else
        var others :- JcsMembers(members[1..], whole);
        Ok(first + [COMMA] + others)
  }

  lemma {:induction false} EscapedIsClean(s: Text)
    requires SurrogateFree(s)
    ensures SurrogateFree(Escaped(s))
  {
    if s != [] {
      EscapedIsClean(s[1..]);
      CleanIffAllScalar(Escape(s[0]));
      CleanConcat(Escape(s[0]), Escaped(s[1..]));
    }
  }

  lemma Enclose(open: CodePoint, body: Text, close: CodePoint)
    requires Scalar(open) && Scalar(close) && SurrogateFree(body)
    ensures SurrogateFree([open] + body + [close])
  {
    CleanConcat([open], body);
    CleanConcat([open] + body, [close]);
  }

  lemma Separate(a: Text, c: CodePoint, b: Text)
    requires Scalar(c) && SurrogateFree(a) && SurrogateFree(b)
    ensures SurrogateFree(a + [c] + b)
  {
    CleanConcat(a, [c]);
    CleanConcat(a + [c], b);
  }

  /** The canonical text never holds a surrogate, so it can be encoded. */
  lemma {:induction false} JcsIsClean(v: Json)
    requires JcsValue(v).Ok?
    ensures SurrogateFree(JcsValue(v).value)
    decreases v, 1, 0
  {
    hide SurrogateFree, Escaped, IntText, NumText, Sort, JcsItems, JcsMembers;
    match v
    case Null => CleanIffAllScalar(NULL_WORD);
    case Bool(b) => CleanIffAllScalar(if b then TRUE_WORD else FALSE_WORD);
    case Int(n) => IntIsPlain(n);
    case Num(d) => NumIsPlain(d);
    case MinusZero => CleanIffAllScalar([ZERO]);
    case Str(s) =>
      EscapedIsClean(s);
      Enclose(QUOTE, Escaped(s), QUOTE);
    case Arr(items) =>
      ItemsAreClean(items, v);
      Enclose(OPEN_BRACKET, JcsItems(items, v).value, CLOSE_BRACKET);
    case Obj(members) =>
      SortKeepsMembers(members);
      MembersAreClean(Sort(members), v);
      Enclose(OPEN_BRACE, JcsMembers(Sort(members), v).value, CLOSE_BRACE);
  }

  lemma {:induction false} ItemsAreClean(items: seq<Json>, whole: Json)
    requires forall i | 0 <= i < |items| :: items[i] < whole
    requires JcsItems(items, whole).Ok?
    ensures SurrogateFree(JcsItems(items, whole).value)
    decreases whole, 0, |items|
  {
    if items != [] {
      JcsIsClean(items[0]);
      if |items| > 1 {
        ItemsAreClean(items[1..], whole);
        Separate(JcsValue(items[0]).value, COMMA, JcsItems(items[1..], whole).value);
      }
    }
  }

  lemma {:induction false} MembersAreClean(members: seq<Member>, whole: Json)
    requires forall m | m in members :: m.value < whole
    requires JcsMembers(members, whole).Ok?
    ensures SurrogateFree(JcsMembers(members, whole).value)
    decreases whole, 0, |members|
  {
    if members != [] {
      EscapedIsClean(members[0].key);
      Enclose(QUOTE, Escaped(members[0].key), QUOTE);
      JcsIsClean(members[0].value);
      Separate(StringText(members[0].key).value, COLON, JcsValue(members[0].value).value);
      if |members| > 1 {
        MembersAreClean(members[1..], whole);
        Separate(StringText(members[0].key).value + [COLON] + JcsValue(members[0].value).value,
          COMMA, JcsMembers(members[1..], whole).value);
      }
    }
  }

  /** `canonical_bytes`: the canonical text in UTF-8. */
  function CanonicalBytes(v: Json): Result<Bytes, JcsError> {
    match JcsValue(v)
    case Err(e) => Err(e)
    case Ok(t) =>
      JcsIsClean(v);
      Ok(Utf8(t))
  }

  // ---------- what can be canonicalized ----------

  /** Every integer is safe, every float finite, and every string, keys included, free of surrogates. */
  ghost predicate Canonicalizable(v: Json) {
    match v
    case Int(n) => SafeInteger(n)
    case NotFinite(_) => false
    case Str(s) => SurrogateFree(s)
    case Arr(items) => forall i | 0 <= i < |items| :: Canonicalizable(items[i])
    case Obj(members) =>
      forall i | 0 <= i < |members| :: Printable(members[i])
    case _ => true
  }

  ghost predicate Printable(m: Member)
    decreases m
  {
    SurrogateFree(m.key) && Canonicalizable(m.value)
  }

  /** Canonicalization fails exactly on an unsafe integer, NaN, an infinity or a surrogate somewhere inside. */
  lemma {:induction false} JcsSucceedsIff(v: Json)
    ensures JcsValue(v).Ok? <==> Canonicalizable(v)
    decreases v, 1, 0
  {
    match v
    case Arr(items) => ItemsSucceedIff(items, v);
    case Obj(members) =>
      SortKeepsMembers(members);
      MembersSucceedIff(Sort(members), v);
      assert (forall m | m in Sort(members) :: Printable(m)) <==> (forall m | m in members :: Printable(m));
      assert (forall m | m in members :: Printable(m)) <==> (forall i | 0 <= i < |members| :: Printable(members[i]));
    case _ =>
  }

  lemma {:induction false} ItemsSucceedIff(items: seq<Json>, whole: Json)
    requires forall i | 0 <= i < |items| :: items[i] < whole
    ensures JcsItems(items, whole).Ok? <==> forall i | 0 <= i < |items| :: Canonicalizable(items[i])
    decreases whole, 0, |items|
  {
    if items != [] {
      JcsSucceedsIff(items[0]);
      ItemsSucceedIff(items[1..], whole);
      assert forall i | 0 < i < |items| :: items[i] == items[1..][i - 1];
      if |items| == 1 {
        assert items[1..] == [];
      }
    }
  }

  lemma MembersOkStep(members: seq<Member>, whole: Json)
    requires members != [] && forall m | m in members :: m.value < whole
    ensures JcsMembers(members, whole).Ok? <==>
      && SurrogateFree(members[0].key) && JcsValue(members[0].value).Ok?
      && (|members| == 1 || JcsMembers(members[1..], whole).Ok?)
  {
  }

  lemma AllPrintableStep(members: seq<Member>)
    requires members != []
    ensures (forall m | m in members :: Printable(m)) <==>
      Printable(members[0]) && forall m | m in members[1..] :: Printable(m)
  {
    assert members == [members[0]] + members[1..];
    assert forall m :: m in members <==> m == members[0] || m in members[1..];
  }

  lemma {:induction false} MembersSucceedIff(members: seq<Member>, whole: Json)
    requires forall m | m in members :: m.value < whole
    ensures JcsMembers(members, whole).Ok? <==> forall m | m in members :: Printable(m)
    decreases whole, 0, |members|
  {
    if members != [] {
      hide JcsMembers, JcsValue;
      JcsSucceedsIff(members[0].value);
      MembersSucceedIff(members[1..], whole);
      MembersOkStep(members, whole);
      AllPrintableStep(members);
      if |members| == 1 {
        assert members[1..] == [];
      }
    }
  }
}

/** A JSON reader (RFC 8259) with `json.loads` semantics: white space is skipped, all escapes are understood, the last
    of two equal keys wins, NaN and the infinities are read too. A number is read as the decimal it denotes. */
module JsonParser {
  import opened Prelude
  import opened Texts
  import opened Decimals
  import opened Json
  import opened Jcs

  datatype Parsed<+T> = Fail | Got(value: T, rest: Text)

  predicate White(c: CodePoint) {
    c == 0x20 || c == 0x09 || c == 0x0A || c == 0x0D
  }

  function SkipWhite(t: Text): (r: Text)
    ensures |r| <= |t|
  {
    if t != [] && White(t[0]) then SkipWhite(t[1..]) else t
  }

  // ---------- numbers ----------

  /** Reads a maximal run of digits onto the number read so far. */
  function ReadDigits(t: Text, acc: nat): (r: (nat, Text))
    ensures |r.1| <= |t|
    decreases |t|
  {
    if t != [] && Digit(t[0]) then ReadDigits(t[1..], 10 * acc + (t[0] - 0x30)) else (acc, t)
  }

  /** A zero, or digits that do not begin with one. */
  function ParseNat(t: Text): (r: Parsed<nat>)
    ensures r.Got? ==> |r.rest| < |t|
  {
    if t == [] || !Digit(t[0]) then Fail
    else if t[0] == ZERO then Got(0, t[1..])
    else
      var (n, rest) := ReadDigits(t[1..], t[0] - 0x30);
      Got(n, rest)
  }

  /** A point and digits, read onto `n`: the number without the point, how many digits followed it, and the rest. */
  function ReadFraction(t: Text, n: nat): (r: (nat, nat, Text))
    ensures |r.2| <= |t|
  {
    if |t| > 1 && t[0] == POINT && Digit(t[1]) then
      var (m, rest) := ReadDigits(t[1..], n);
      (m, |t| - 1 - |rest|, rest)
    else (n, 0, t)
  }

  /** The letter, a sign or none, and digits. */
  function ReadExponent(t: Text): (r: (Option<int>, Text))
    ensures |r.1| <= |t|
  {
    if t == [] || (t[0] != LETTER_E && t[0] != 0x45) then (None, t)
    else
      var signed := |t| > 1 && (t[1] == PLUS || t[1] == MINUS);
      var digits := if signed then t[2..] else t[1..];
      if digits == [] || !Digit(digits[0]) then (None, t)
      else
        var (k, rest) := ReadDigits(digits, 0);
        (Some(if signed && t[1] == MINUS then 0 - k else k), rest)
  }

  /** The float m * 10^e with a sign; zero has two. */
  function FloatOf(negative: bool, m: int, e: int): Json {
    if negative && m == 0 then MinusZero else Num(Decimal(if negative then 0 - m else m, e))
  }

  /** What follows the integer digits: a fraction or an exponent makes a float. */
  function ParseTail(negative: bool, n: nat, t: Text): (r: (Json, Text))
    ensures |r.1| <= |t|
  {
    var (m, places, afterFraction) := ReadFraction(t, n);
    var (exponent, rest) := ReadExponent(afterFraction);
    if places == 0 && exponent.None? then (Int(if negative then 0 - m else m), rest)
    else (FloatOf(negative, m, (if exponent.Some? then exponent.value else 0) - places), rest)
  }

  function ParseNumber(t: Text): (r: Parsed<Json>)
    ensures r.Got? ==> |r.rest| < |t|
  {
    var negative := t != [] && t[0] == MINUS;
    match ParseNat(if negative then t[1..] else t)
    case Fail => Fail
    case Got(n, rest) =>
      var (v, after) := ParseTail(negative, n, rest);
      Got(v, after)
  }

  // ---------- strings ----------

  /** The four hexadecimal digits after `\u`. */
  function ParseHex4(t: Text): (r: Parsed<CodeUnit>)
    ensures r.Got? ==> |r.rest| < |t|
  {
    if |t| < 4 then Fail
    else
      match (HexValue(t[0]), HexValue(t[1]), HexValue(t[2]), HexValue(t[3]))
      case (Some(a), Some(b), Some(c), Some(d)) =>
        var u := a * 0x1000 + b * 0x100 + c * 0x10 + d;
        if 0 <= u < 0x1_0000 then Got(u, t[4..]) else Fail
      case _ => Fail
  }

  /** `\uXXXX`; a high surrogate takes a following `\u` low surrogate with it. */
  function ParseUnicode(t: Text): (r: Parsed<CodePoint>)
    ensures r.Got? ==> |r.rest| < |t|
  {
    match ParseHex4(t)
    case Fail => Fail
    case Got(u, rest) =>
      if 0xD800 <= u < 0xDC00 && |rest| >= 2 && rest[0] == BACKSLASH && rest[1] == 0x75 then
        match ParseHex4(rest[2..])
        case Fail => Fail
        case Got(w, rest2) =>
          if 0xDC00 <= w < 0xE000 then Got(0x1_0000 + (u - 0xD800) * 0x400 + (w - 0xDC00), rest2)
          else Got(u, rest)
      else Got(u, rest)
  }

  /** What follows a backslash. */
  function ParseEscape(t: Text): (r: Parsed<CodePoint>)
    ensures r.Got? ==> |r.rest| < |t|
  {
    if t == [] then Fail
    else
      match t[0]
      case 0x22 => Got(0x22, t[1..])
      case 0x5C => Got(0x5C, t[1..])
      case 0x2F => Got(0x2F, t[1..])
      case 0x62 => Got(0x08, t[1..])
      case 0x66 => Got(0x0C, t[1..])
      case 0x6E => Got(0x0A, t[1..])
      case 0x72 => Got(0x0D, t[1..])
      case 0x74 => Got(0x09, t[1..])
      case 0x75 => ParseUnicode(t[1..])
      case _ => Fail
  }

  /** One character of a string body. */
  function ParseChar(t: Text): (r: Parsed<CodePoint>)
    ensures r.Got? ==> |r.rest| < |t|
  {
    if t == [] || t[0] < 0x20 then Fail
    else if t[0] == BACKSLASH then ParseEscape(t[1..])
    else Got(t[0], t[1..])
  }

  /** A string body up to and including its closing quote. */
  function ParseString(t: Text): (r: Parsed<Text>)
    ensures r.Got? ==> |r.rest| < |t|
    decreases |t|
  {
    if t != [] && t[0] == QUOTE then Got([], t[1..])
    else
      match ParseChar(t)
      case Fail => Fail
      case Got(c, rest) =>
        match ParseString(rest)
        case Fail => Fail
        case Got(s, rest2) => Got([c] + s, rest2)
  }

  // ---------- values ----------

  function Literal(word: Text, v: Json, t: Text): (r: Parsed<Json>)
    requires word != []
    ensures r.Got? ==> |r.rest| < |t|
  {
    if word <= t then Got(v, t[|word|..]) else Fail
  }

  const NAN_WORD: Text := [0x4E, 0x61, 0x4E]
  const INFINITY_WORD: Text := [0x49, 0x6E, 0x66, 0x69, 0x6E, 0x69, 0x74, 0x79]

  function ParseValue(t: Text): (r: Parsed<Json>)
    ensures r.Got? ==> |r.rest| < |t|
    decreases |t|, 1
  {
    var t := SkipWhite(t);
    if t == [] then Fail
    else if t[0] == 0x6E then Literal(NULL_WORD, Null, t)
    else if t[0] == 0x74 then Literal(TRUE_WORD, Bool(true), t)
    else if t[0] == 0x66 then Literal(FALSE_WORD, Bool(false), t)
    else if t[0] == QUOTE then
      match ParseString(t[1..])
      case Fail => Fail
      case Got(s, rest) => Got(Str(s), rest)
    else if t[0] == OPEN_BRACKET then ParseArray(t[1..])
    else if t[0] == OPEN_BRACE then ParseObject(t[1..])
    else if t[0] == NAN_WORD[0] then Literal(NAN_WORD, NotFinite(NaN), t)
    else if t[0] == INFINITY_WORD[0] then Literal(INFINITY_WORD, NotFinite(Infinity), t)
    else if |t| > 1 && t[0] == MINUS && t[1] == INFINITY_WORD[0] then
      Literal([MINUS] + INFINITY_WORD, NotFinite(MinusInfinity), t)
    else ParseNumber(t)
  }

  /** What follows an opening bracket. */
  function ParseArray(t: Text): (r: Parsed<Json>)
    ensures r.Got? ==> |r.rest| < |t|
    decreases |t|, 3
  {
    var body := SkipWhite(t);
    if body != [] && body[0] == CLOSE_BRACKET then Got(Arr([]), body[1..])
    else
      match ParseItems(body)
      case Fail => Fail
      case Got(items, rest) => Got(Arr(items), rest)
  }

  /** What follows an opening brace. */
  function ParseObject(t: Text): (r: Parsed<Json>)
    ensures r.Got? ==> |r.rest| < |t|
    decreases |t|, 3
  {
    var body := SkipWhite(t);
    if body != [] && body[0] == CLOSE_BRACE then Got(Obj([]), body[1..])
    else
      match ParseMembers(body, [])
      case Fail => Fail
      case Got(members, rest) => Got(Obj(members), rest)
  }

  /** The items of an array and its closing bracket. */
  function ParseItems(t: Text): (r: Parsed<seq<Json>>)
    ensures r.Got? ==> |r.rest| < |t|
    decreases |t|, 2
  {
    match ParseValue(t)
    case Fail => Fail
    case Got(v, rest) =>
      var rest := SkipWhite(rest);
      if rest == [] then Fail
      else if rest[0] == CLOSE_BRACKET then Got([v], rest[1..])
      else if rest[0] == COMMA then
        match ParseItems(rest[1..])
        case Fail => Fail
        case Got(items, rest2) => Got([v] + items, rest2)
      else Fail
  }

  /** The members of an object, put one by one into the dictionary, and its closing brace. */
  function ParseMembers(t: Text, members: seq<Member>): (r: Parsed<seq<Member>>)
    ensures r.Got? ==> |r.rest| < |t|
    decreases |t|, 2
  {
    var t := SkipWhite(t);
    if t == [] || t[0] != QUOTE then Fail
    else
      match ParseString(t[1..])
      case Fail => Fail
      case Got(key, rest) =>
        var rest := SkipWhite(rest);
        if rest == [] || rest[0] != COLON then Fail
        else
          match ParseValue(rest[1..])
          case Fail => Fail
          case Got(v, rest2) =>
            var rest2 := SkipWhite(rest2);
            if rest2 == [] then Fail
            else if rest2[0] == CLOSE_BRACE then Got(Put(members, key, v), rest2[1..])
            else if rest2[0] == COMMA then ParseMembers(rest2[1..], Put(members, key, v))
            else Fail
  }

  /** `json.loads`: one value and nothing but white space after it. */
  function Loads(t: Text): Option<Json> {
    match ParseValue(t)
    case Fail => None
    case Got(v, rest) => if SkipWhite(rest) == [] then Some(v) else None
  }

  /** `json.loads(b.decode("utf-8"))`. */
  function LoadsBytes(b: Bytes): Option<Json> {
    match FromUtf8(b)
    case None => None
    case Some(t) => Loads(t)
  }
}

/** Base64 as RFC 4648 section 4 writes it, the tolerance of the decoder for aliases, and the check that removes it, so
    that bytes have one accepted text. */
module Base64 {
  import opened Prelude
  import opened Texts

  const PAD: CodePoint := 0x3D

  datatype Base64Error = NotBase64 | NotCanonical

  /** The alphabet: A-Z, a-z, 0-9, +, /. */
  function Symbol(v: int): CodePoint {
    if v < 26 then 0x41 + v
    else if v < 52 then 0x61 + (v - 26)
    else if v < 62 then 0x30 + (v - 52)
    else if v == 62 then 0x2B
    else 0x2F
  }

  function ValueOf(c: CodePoint): Option<int> {
    if 0x41 <= c <= 0x5A then Some(c - 0x41)
    else if 0x61 <= c <= 0x7A then Some(c - 0x61 + 26)
    else if 0x30 <= c <= 0x39 then Some(c - 0x30 + 52)
    else if c == 0x2B then Some(62)
    else if c == 0x2F then Some(63)
    else None
  }

  lemma SymbolRoundTrip(v: int)
    requires 0 <= v < 64
    ensures ValueOf(Symbol(v)) == Some(v) && Symbol(v) != PAD
  {
  }

  // ---------- encoding ----------

  function ThreeToFour(x: Byte, y: Byte, z: Byte): Text {
    [Symbol(x / 4), Symbol(x % 4 * 16 + y / 16), Symbol(y % 16 * 4 + z / 64), Symbol(z % 64)]
  }

  function Encode(b: Bytes): Text {
    if b == [] then []
    else if |b| == 1 then [Symbol(b[0] / 4), Symbol(b[0] % 4 * 16), PAD, PAD]
    else if |b| == 2 then [Symbol(b[0] / 4), Symbol(b[0] % 4 * 16 + b[1] / 16), Symbol(b[1] % 16 * 4), PAD]
    else ThreeToFour(b[0], b[1], b[2]) + Encode(b[3..])
  }

  // ---------- decoding ----------

  /** The bits a final group holds beyond its last byte are dropped without a look: aliases decode. */
  function LastGroup(a: CodePoint, b: CodePoint, c: CodePoint, d: CodePoint): Option<Bytes> {
    if ValueOf(a).None? || ValueOf(b).None? then None
    else
      var first := ValueOf(a).value * 4 + ValueOf(b).value / 16;
      if c == PAD && d == PAD then Some([first])
      else if ValueOf(c).None? then None
      else
        var second := ValueOf(b).value % 16 * 16 + ValueOf(c).value / 4;
        if d == PAD then Some([first, second])
        else if ValueOf(d).None? then None
        else Some([first, second, ValueOf(c).value % 4 * 64 + ValueOf(d).value])
  }

  /** `b64decode(text, validate=True)`. */
  function Decode(t: Text): Option<Bytes> {
    if t == [] then Some([])
    else if |t| < 4 then None
    else if |t| == 4 then LastGroup(t[0], t[1], t[2], t[3])
    else if t[2] == PAD || t[3] == PAD then None
    else
      match (LastGroup(t[0], t[1], t[2], t[3]), Decode(t[4..]))
      case (Some(three), Some(rest)) => Some(three + rest)
      case _ => None
  }

  /** `_b64_canonical`: accepted only when encoding gives the same characters back. */
  function Canonical(t: Text): Result<Bytes, Base64Error> {
    match Decode(t)
    case None => Err(NotBase64)
    case Some(raw) => if Encode(raw) == t then Ok(raw) else Err(NotCanonical)
  }

  // ---------- round trip ----------

  lemma SymbolsRead(v: int, w: int, x: int, y: int)
    requires 0 <= v < 64 && 0 <= w < 64 && 0 <= x < 64 && 0 <= y < 64
    ensures LastGroup(Symbol(v), Symbol(w), PAD, PAD) == Some([v * 4 + w / 16])
    ensures LastGroup(Symbol(v), Symbol(w), Symbol(x), PAD) == Some([v * 4 + w / 16, w % 16 * 16 + x / 4])
    ensures LastGroup(Symbol(v), Symbol(w), Symbol(x), Symbol(y)) ==
      Some([v * 4 + w / 16, w % 16 * 16 + x / 4, x % 4 * 64 + y])
    ensures Symbol(x) != PAD && Symbol(y) != PAD
  {
    hide Symbol, ValueOf;
    SymbolRoundTrip(v);
    SymbolRoundTrip(w);
    SymbolRoundTrip(x);
    SymbolRoundTrip(y);
  }

  lemma GroupRoundTrip(x: Byte, y: Byte, z: Byte)
    requires 0 <= x < 256 && 0 <= y < 256 && 0 <= z < 256
    ensures var g := ThreeToFour(x, y, z);
      LastGroup(g[0], g[1], g[2], g[3]) == Some([x, y, z]) && g[2] != PAD && g[3] != PAD
  {
    hide Symbol, LastGroup;
    SymbolsRead(x / 4, x % 4 * 16 + y / 16, y % 16 * 4 + z / 64, z % 64);
  }

  lemma DecodeFour(a: CodePoint, b: CodePoint, c: CodePoint, d: CodePoint)
    ensures Decode([a, b, c, d]) == LastGroup(a, b, c, d)
  {
  }

  lemma OneByteRoundTrip(x: Byte)
    requires 0 <= x < 256
    ensures Decode(Encode([x])) == Some([x])
  {
    hide Symbol, LastGroup, Decode;
    SymbolsRead(x / 4, x % 4 * 16, 0, 0);
    DecodeFour(Symbol(x / 4), Symbol(x % 4 * 16), PAD, PAD);
  }

  lemma TwoBytesRoundTrip(x: Byte, y: Byte)
    requires 0 <= x < 256 && 0 <= y < 256
    ensures Decode(Encode([x, y])) == Some([x, y])
  {
    hide Symbol, LastGroup, Decode;
    SymbolsRead(x / 4, x % 4 * 16 + y / 16, y % 16 * 4, 0);
    DecodeFour(Symbol(x / 4), Symbol(x % 4 * 16 + y / 16), Symbol(y % 16 * 4), PAD);
  }

  lemma ShortRoundTrip(b: Bytes)
    requires IsBytes(b) && 1 <= |b| <= 2
    ensures Decode(Encode(b)) == Some(b)
  {
    hide Decode, Encode;
    if |b| == 2 {
      assert b == [b[0], b[1]];
      TwoBytesRoundTrip(b[0], b[1]);
    } else {
      assert b == [b[0]];
      OneByteRoundTrip(b[0]);
    }
  }

  lemma DecodeGroup(g: Text, rest: Text)
    requires |g| == 4 && rest != [] && g[2] != PAD && g[3] != PAD
    ensures Decode(g + rest) == match (LastGroup(g[0], g[1], g[2], g[3]), Decode(rest)) {
      case (Some(three), Some(more)) => Some(three + more)
      case _ => None
    }
  {
    var t := g + rest;
    assert t[0] == g[0] && t[1] == g[1] && t[2] == g[2] && t[3] == g[3] && t[4..] == rest;
  }

  lemma {:induction false} RoundTrip(b: Bytes)
    requires IsBytes(b)
    ensures Decode(Encode(b)) == Some(b)
    decreases |b|
  {
    if 1 <= |b| <= 2 {
      ShortRoundTrip(b);
    } else if |b| >= 3 {
      hide LastGroup;
      GroupRoundTrip(b[0], b[1], b[2]);
      var g := ThreeToFour(b[0], b[1], b[2]);
      assert b == [b[0], b[1], b[2]] + b[3..];
      if |b| == 3 {
        LastThree(b[0], b[1], b[2]);
        assert b[3..] == [] && b == [b[0], b[1], b[2]];
      } else {
        RoundTrip(b[3..]);
        EncodeNonEmpty(b[3..]);
        DecodeGroup(g, Encode(b[3..]));
      }
    }
  }

  lemma LastThree(x: Byte, y: Byte, z: Byte)
    requires 0 <= x < 256 && 0 <= y < 256 && 0 <= z < 256
    ensures Decode(Encode([x, y, z])) == Some([x, y, z])
  {
    var b, g := [x, y, z], ThreeToFour(x, y, z);
    assert b[3..] == [] && Encode(b) == g + [] == g;
    GroupRoundTrip(x, y, z);
  }

  lemma EncodeNonEmpty(b: Bytes)
    requires b != []
    ensures Encode(b) != []
  {
  }

  /** The accepted texts are exactly the encodings: bytes and canonical text determine each other. */
  lemma CanonicalIffEncoded(t: Text, raw: Bytes)
    requires IsBytes(raw)
    ensures Canonical(t) == Ok(raw) <==> t == Encode(raw)
  {
    RoundTrip(raw);
  }

  lemma {:induction false} DecodedAreBytes(t: Text)
    requires Decode(t).Some?
    ensures IsBytes(Decode(t).value)
    decreases |t|
  {
    if |t| >= 4 {
      hide LastGroup;
      GroupIsBytes(t[0], t[1], t[2], t[3]);
      if |t| > 4 {
        DecodedAreBytes(t[4..]);
        }
    }
  }

  lemma GroupIsBytes(a: CodePoint, b: CodePoint, c: CodePoint, d: CodePoint)
    requires LastGroup(a, b, c, d).Some?
    ensures IsBytes(LastGroup(a, b, c, d).value)
  {
  }

  /** Accepted texts are the encodings of byte strings, and nothing else. */
  lemma AcceptedIffEncoding(t: Text)
    ensures Canonical(t).Ok? <==> exists raw :: IsBytes(raw) && t == Encode(raw)
  {
    if Canonical(t).Ok? {
      DecodedAreBytes(t);
      assert IsBytes(Canonical(t).value) && t == Encode(Canonical(t).value);
    }
    if raw :| IsBytes(raw) && t == Encode(raw) {
      RoundTrip(raw);
    }
  }

  /** The decoder alone would accept two spellings of the same bytes; the check refuses the alias. */
  lemma AliasIsRefused()
    ensures var alias, text := [0x41, 0x41, 0x48, PAD], [0x41, 0x41, 0x45, PAD];
      && Decode(alias) == Decode(text) == Some([0, 1])
      && Canonical(text) == Ok([0, 1]) && Canonical(alias) == Err(NotCanonical)
  {
    hide Decode;
    assert Encode([0, 1]) == [0x41, 0x41, 0x45, PAD];
    DecodeFour(0x41, 0x41, 0x48, PAD);
    DecodeFour(0x41, 0x41, 0x45, PAD);
  }

  // ---------- the text is the number of the bytes ----------

  /** Consecutive characters. */
  function Run(first: char, n: nat): (t: Text)
    ensures |t| == n && forall i | 0 <= i < n :: t[i] == first as int + i
  {
    if n == 0 then [] else Run(first, n - 1) + [first as int + (n - 1)]
  }

  /** The alphabet of RFC 4648 section 4, in order. */
  lemma AlphabetIs(v: int)
    requires 0 <= v < 64
    ensures Symbol(v) == (Run('A', 26) + Run('a', 26) + Run('0', 10) + ['+' as int, '/' as int])[v]
  {
    hide Run;
  }

  /** Bytes as digits in base 256, read on after `acc`. */
  function BytesNumber(b: Bytes, acc: int): int {
    if b == [] then acc else BytesNumber(b[1..], 256 * acc + b[0])
  }

  /** Symbols as digits in base 64; padding counts for nothing. */
  function SymbolsNumber(t: Text, acc: int): int {
    if t == [] then acc
    else if ValueOf(t[0]).None? then SymbolsNumber(t[1..], acc)
    else SymbolsNumber(t[1..], 64 * acc + ValueOf(t[0]).value)
  }

  lemma SymbolStep(v: int, rest: Text, acc: int)
    requires 0 <= v < 64
    ensures SymbolsNumber([Symbol(v)] + rest, acc) == SymbolsNumber(rest, 64 * acc + v)
  {
    hide Symbol, ValueOf;
    SymbolRoundTrip(v);
    assert ([Symbol(v)] + rest)[1..] == rest;
  }

  lemma FourSymbols(v: int, w: int, x: int, y: int, rest: Text, acc: int)
    requires 0 <= v < 64 && 0 <= w < 64 && 0 <= x < 64 && 0 <= y < 64
    ensures SymbolsNumber([Symbol(v), Symbol(w), Symbol(x), Symbol(y)] + rest, acc) ==
      SymbolsNumber(rest, 64 * (64 * (64 * (64 * acc + v) + w) + x) + y)
  {
    hide Symbol, SymbolsNumber;
    var t := [Symbol(y)] + rest;
    SymbolStep(v, [Symbol(w)] + ([Symbol(x)] + t), acc);
    SymbolStep(w, [Symbol(x)] + t, 64 * acc + v);
    SymbolStep(x, t, 64 * (64 * acc + v) + w);
    SymbolStep(y, rest, 64 * (64 * (64 * acc + v) + w) + x);
    assert [Symbol(v)] + ([Symbol(w)] + ([Symbol(x)] + t)) == [Symbol(v), Symbol(w), Symbol(x), Symbol(y)] + rest;
  }

  lemma PadStep(rest: Text, acc: int)
    ensures SymbolsNumber([PAD] + rest, acc) == SymbolsNumber(rest, acc)
  {
    assert ([PAD] + rest)[1..] == rest;
  }

  lemma NoSymbols(acc: int)
    ensures SymbolsNumber([], acc) == acc
  {
  }

  lemma ByteStep(x: Byte, rest: Bytes, acc: int)
    ensures BytesNumber([x] + rest, acc) == BytesNumber(rest, 256 * acc + x)
  {
    assert ([x] + rest)[1..] == rest;
  }

  lemma ThreeBytes(x: Byte, y: Byte, z: Byte, rest: Bytes, acc: int)
    ensures BytesNumber([x, y, z] + rest, acc) == BytesNumber(rest, 256 * (256 * (256 * acc + x) + y) + z)
  {
    hide BytesNumber;
    ByteStep(x, [y] + ([z] + rest), acc);
    ByteStep(y, [z] + rest, 256 * acc + x);
    ByteStep(z, rest, 256 * (256 * acc + x) + y);
    assert [x] + ([y] + ([z] + rest)) == [x, y, z] + rest;
  }

  /** How many padding characters end the text. */
  function Padding(n: nat): nat {
    if n % 3 == 0 then 0 else 3 - n % 3
  }

  predicate Padded(t: Text, n: nat) {
    n <= |t| && forall i | 0 <= i < |t| :: t[i] == '=' as int <==> i >= |t| - n
  }

  lemma GroupBits(x: Byte, y: Byte, z: Byte, acc: int)
    requires 0 <= x < 256 && 0 <= y < 256 && 0 <= z < 256
    ensures 64 * (64 * (64 * (64 * acc + x / 4) + (x % 4 * 16 + y / 16)) + (y % 16 * 4 + z / 64)) + z % 64 ==
      256 * (256 * (256 * acc + x) + y) + z
  {
  }

  lemma OneByteNumber(x: Byte, acc: int)
    requires 0 <= x < 256
    ensures SymbolsNumber(Encode([x]), acc) == 16 * BytesNumber([x], acc)
    ensures |Encode([x])| == 4 && Padded(Encode([x]), 2)
  {
    hide Symbol, SymbolsNumber, BytesNumber;
    var v, w := x / 4, x % 4 * 16;
    SymbolStep(v, [Symbol(w)] + ([PAD] + ([PAD] + [])), acc);
    SymbolStep(w, [PAD] + ([PAD] + []), 64 * acc + v);
    PadStep([PAD] + [], 64 * (64 * acc + v) + w);
    PadStep([], 64 * (64 * acc + v) + w);
    NoSymbols(64 * (64 * acc + v) + w);
    assert Encode([x]) == [Symbol(v)] + ([Symbol(w)] + ([PAD] + ([PAD] + [])));
    ByteStep(x, [], acc);
    assert [x] + [] == [x];
    NoBytes(256 * acc + x);
    SymbolRoundTrip(v);
    SymbolRoundTrip(w);
  }

  lemma NoBytes(acc: int)
    ensures BytesNumber([], acc) == acc
  {
  }

  lemma TwoBytesNumber(x: Byte, y: Byte, acc: int)
    requires 0 <= x < 256 && 0 <= y < 256
    ensures SymbolsNumber(Encode([x, y]), acc) == 4 * BytesNumber([x, y], acc)
    ensures |Encode([x, y])| == 4 && Padded(Encode([x, y]), 1)
  {
    hide Symbol, SymbolsNumber, BytesNumber;
    var v, w, u := x / 4, x % 4 * 16 + y / 16, y % 16 * 4;
    SymbolStep(v, [Symbol(w)] + ([Symbol(u)] + ([PAD] + [])), acc);
    SymbolStep(w, [Symbol(u)] + ([PAD] + []), 64 * acc + v);
    SymbolStep(u, [PAD] + [], 64 * (64 * acc + v) + w);
    PadStep([], 64 * (64 * (64 * acc + v) + w) + u);
    NoSymbols(64 * (64 * (64 * acc + v) + w) + u);
    assert Encode([x, y]) == [Symbol(v)] + ([Symbol(w)] + ([Symbol(u)] + ([PAD] + [])));
    ByteStep(x, [y] + [], acc);
    ByteStep(y, [], 256 * acc + x);
    assert [x] + ([y] + []) == [x, y];
    NoBytes(256 * (256 * acc + x) + y);
    SymbolRoundTrip(v);
    SymbolRoundTrip(w);
    SymbolRoundTrip(u);
  }

  /** The factor that the bits up to a whole symbol make. */
  function Filled(n: nat): int {
    if n % 3 == 0 then 1 else if n % 3 == 1 then 16 else 4
  }

  /** An encoding is the number that the bytes are, with zero bits up to a whole symbol, and padding up to a whole
      group. */
  lemma {:induction false} EncodedNumber(b: Bytes, acc: int)
    requires IsBytes(b)
    ensures SymbolsNumber(Encode(b), acc) == Filled(|b|) * BytesNumber(b, acc)
    ensures |Encode(b)| == (|b| + 2) / 3 * 4 && Padded(Encode(b), Padding(|b|))
    decreases |b|
  {
    hide SymbolsNumber, BytesNumber, Padded, ThreeToFour;
    if b == [] {
      NoSymbols(acc);
      NoBytes(acc);
      NotPadded();
    } else if |b| == 1 {
      assert b == [b[0]];
      OneByteNumber(b[0], acc);
    } else if |b| == 2 {
      assert b == [b[0], b[1]];
      TwoBytesNumber(b[0], b[1], acc);
    } else {
      EncodedNumber(b[3..], 256 * (256 * (256 * acc + b[0]) + b[1]) + b[2]);
      NumberStep(b[0], b[1], b[2], b[3..], acc);
      assert b == [b[0], b[1], b[2]] + b[3..];
    }
  }

  lemma EncodeStep(x: Byte, y: Byte, z: Byte, rest: Bytes)
    ensures Encode([x, y, z] + rest) == ThreeToFour(x, y, z) + Encode(rest)
  {
    assert ([x, y, z] + rest)[3..] == rest;
  }

  /** One more group in front. */
  lemma NumberStep(x: Byte, y: Byte, z: Byte, rest: Bytes, acc: int)
    requires 0 <= x < 256 && 0 <= y < 256 && 0 <= z < 256 && Padded(Encode(rest), Padding(|rest|))
    requires var after := 256 * (256 * (256 * acc + x) + y) + z;
      SymbolsNumber(Encode(rest), after) == Filled(|rest|) * BytesNumber(rest, after)
    ensures var b := [x, y, z] + rest;
      && SymbolsNumber(Encode(b), acc) == Filled(|b|) * BytesNumber(b, acc)
      && |Encode(b)| == 4 + |Encode(rest)| && Padded(Encode(b), Padding(|b|))
  {
    hide SymbolsNumber, BytesNumber, Padded, ThreeToFour, Encode;
    EncodeStep(x, y, z, rest);
    GroupNumber(x, y, z, rest, acc);
    PaddedMore(x, y, z, Encode(rest), Padding(|rest|));
  }

  lemma NotPadded()
    ensures Padded([], 0)
  {
  }

  lemma GroupNumber(x: Byte, y: Byte, z: Byte, rest: Bytes, acc: int)
    requires 0 <= x < 256 && 0 <= y < 256 && 0 <= z < 256
    ensures var after := 256 * (256 * (256 * acc + x) + y) + z;
      SymbolsNumber(ThreeToFour(x, y, z) + Encode(rest), acc) == SymbolsNumber(Encode(rest), after) &&
      BytesNumber([x, y, z] + rest, acc) == BytesNumber(rest, after)
  {
    hide SymbolsNumber, BytesNumber, Symbol, Encode;
    ThreeBytes(x, y, z, rest, acc);
    FourSymbols(x / 4, x % 4 * 16 + y / 16, y % 16 * 4 + z / 64, z % 64, Encode(rest), acc);
    GroupBits(x, y, z, acc);
  }

  lemma PaddedMore(x: Byte, y: Byte, z: Byte, t: Text, n: nat)
    requires 0 <= x < 256 && 0 <= y < 256 && 0 <= z < 256 && Padded(t, n)
    ensures Padded(ThreeToFour(x, y, z) + t, n) && |ThreeToFour(x, y, z)| == 4
  {
    hide Symbol;
    SymbolRoundTrip(x / 4);
    SymbolRoundTrip(x % 4 * 16 + y / 16);
    SymbolRoundTrip(y % 16 * 4 + z / 64);
    SymbolRoundTrip(z % 64);
  }
}

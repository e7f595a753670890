/** Percent-encoded spellings of a path. */
module EgressSpellings {
  // What decoding once makes of them, and that no spelling of a dot segment is admitted.

  import opened Prelude
  import opened Texts
  import opened Jcs
  import opened EgressPaths
  import opened EgressPolicy

  /** A hexadecimal digit of value `d`, in either case. */
  predicate HexOf(c: CodePoint, d: int) {
    (0 <= d < 10 && c == 0x30 + d) || (10 <= d < 16 && (c == 0x41 + (d - 10) || c == 0x61 + (d - 10)))
  }

  /** A percent sign and the two digits of a byte. */
  predicate Escapes(p: Text, b: Byte) {
    |p| == 3 && p[0] == 0x25 && HexOf(p[1], b / 16) && HexOf(p[2], b % 16)
  }

  /** `p` spells `t`: every character stands for itself, unless it is a percent sign, or is an ASCII character and
      escaped. */
  predicate Spells(p: Text, t: Text) {
    if t == [] then p == []
    else
      || (p != [] && t[0] != 0x25 && p[0] == t[0] && Spells(p[1..], t[1..]))
      || (|p| >= 3 && 0 <= t[0] < 0x80 && Escapes(p[..3], t[0]) && Spells(p[3..], t[1..]))
  }

  /** `p` is one escape after another of these bytes, none of them ASCII. */
  predicate SpellsHigh(p: Text, b: Bytes) {
    if b == [] then p == []
    else |p| >= 3 && 0x80 <= b[0] < 0x100 && Escapes(p[..3], b[0]) && SpellsHigh(p[3..], b[1..])
  }

  lemma HexOfValue(c: CodePoint, d: int)
    requires 0 <= d < 16
    ensures HexOf(c, d) <==> HexValue(c) == Some(d)
  {
  }

  lemma EscapeIsByte(p: Text, b: Byte, rest: Text)
    requires 0 <= b < 0x100 && Escapes(p, b)
    ensures EscapeAt(p + rest) == Some(b) && (p + rest)[3..] == rest
  {
    HexOfValue(p[1], b / 16);
    HexOfValue(p[2], b % 16);
    assert (p + rest)[1] == p[1] && (p + rest)[2] == p[2];
  }

  lemma LiteralStep(high: Bytes -> Text, c: CodePoint, rest: Text)
    requires c != PERCENT
    ensures Unquote(high, [c] + rest) == [c] + Unquote(high, rest)
  {
    assert ([c] + rest)[1..] == rest;
  }

  lemma EscapeStep(high: Bytes -> Text, p: Text, b: Byte, rest: Text)
    requires 0 <= b < 0x80 && Escapes(p, b)
    ensures Unquote(high, p + rest) == [b] + Unquote(high, rest)
  {
    EscapeIsByte(p, b, rest);
  }

  /** Decoding once turns every spelling of a text into the text, whatever follows. */
  lemma {:induction false} SpellingIsDecoded(high: Bytes -> Text, p: Text, t: Text, rest: Text)
    requires Spells(p, t)
    ensures Unquote(high, p + rest) == t + Unquote(high, rest)
    decreases |t|
  {
    hide Unquote, Escapes;
    if t == [] {
      assert p + rest == rest && t + Unquote(high, rest) == Unquote(high, rest);
    } else {
      var c, tail := t[0], t[1..];
      if p != [] && c != 0x25 && p[0] == c && Spells(p[1..], tail) {
        SpellingIsDecoded(high, p[1..], tail, rest);
        LiteralStep(high, c, p[1..] + rest);
        assert p + rest == [c] + (p[1..] + rest);
      } else {
        SpellingIsDecoded(high, p[3..], tail, rest);
        EscapeStep(high, p[..3], c, p[3..] + rest);
        assert p + rest == p[..3] + (p[3..] + rest);
      }
      Regroup([c], tail, Unquote(high, rest));
      assert [c] + tail == t;
    }
  }

  /** Whatever the path spells, a dot segment in it is refused by every policy. */
  lemma DotSpellingIsRefused(p: Policy, u: Url, t: Text)
    requires u.Url? && Spells(u.path, t) && DotSegmentIn(t)
    ensures MatchOf(p, u) == None
  {
    hide Unquote, DotSegmentIn, Spells;
    SpellingIsDecoded(p.high, u.path, t, []);
    UnquoteNothing(p.high);
    assert u.path + [] == u.path && t + [] == t;
  }

  /** The run of escaped bytes above 0x7F is taken whole. */
  lemma {:induction false} HighRunOf(p: Text, b: Bytes, rest: Text)
    requires SpellsHigh(p, b)
    requires EscapeAt(rest).Some? ==> EscapeAt(rest).value < 0x80
    ensures HighRun(p + rest) == (b, rest)
    decreases |b|
  {
    if b == [] {
      assert p + rest == rest;
    } else {
      EscapeIsByte(p[..3], b[0], p[3..] + rest);
      assert p + rest == p[..3] + (p[3..] + rest);
      HighRunOf(p[3..], b[1..], rest);
      assert [b[0]] + b[1..] == b;
    }
  }

  /** Consecutive escapes of higher bytes are decoded together. */
  lemma HighBytesAreDecoded(high: Bytes -> Text, p: Text, b: Bytes, rest: Text)
    requires b != [] && SpellsHigh(p, b)
    requires EscapeAt(rest).Some? ==> EscapeAt(rest).value < 0x80
    ensures Unquote(high, p + rest) == high(b) + Unquote(high, rest)
  {
    hide HighRun;
    HighRunOf(p, b, rest);
    EscapeIsByte(p[..3], b[0], p[3..] + rest);
    assert p + rest == p[..3] + (p[3..] + rest);
  }

  /** A percent sign that two hexadecimal digits do not follow stays. */
  lemma MalformedEscapeStays(high: Bytes -> Text, rest: Text)
    requires forall d, e | 0 <= d < 16 && 0 <= e < 16 :: !(|rest| >= 2 && HexOf(rest[0], d) && HexOf(rest[1], e))
    ensures Unquote(high, [0x25] + rest) == [0x25] + Unquote(high, rest)
  {
    var t := [PERCENT] + rest;
    assert t[1..] == rest;
    if |rest| >= 2 {
      assert t[1] == rest[0] && t[2] == rest[1];
      match (HexValue(rest[0]), HexValue(rest[1])) {
        case (Some(d), Some(e)) =>
          HexOfValue(rest[0], d);
          HexOfValue(rest[1], e);
        case _ =>
      }
    }
  }
}

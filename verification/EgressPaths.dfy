/** Paths of mediated requests: segments, dot segments before and after percent-decoding, and the match of a path with
    an allowlisted prefix. */
module EgressPaths {
  import opened Prelude
  import opened Texts
  import opened Jcs

  const SLASH: CodePoint := 0x2F
  const DOT: CodePoint := 0x2E
  const PERCENT: CodePoint := 0x25

  // ---------- segments ----------

  /** The length of the first segment. */
  function FirstLength(t: Text): (n: nat)
    ensures n <= |t| && SLASH !in t[..n] && (n < |t| ==> t[n] == SLASH)
  {
    if t == [] || t[0] == SLASH then 0
    else
      var n := FirstLength(t[1..]);
      assert t[..n + 1] == [t[0]] + t[1..][..n];
      n + 1
  }

  /** `path.split("/")`. */
  function Segments(t: Text): (r: seq<Text>)
    ensures r != []
    decreases |t|
  {
    var n := FirstLength(t);
    if n == |t| then [t] else [t[..n]] + Segments(t[n + 1..])
  }

  function Join(segments: seq<Text>): Text {
    if segments == [] then []
    else if |segments| == 1 then segments[0]
    else segments[0] + [SLASH] + Join(segments[1..])
  }

  predicate IsDot(segment: Text) {
    segment == [DOT] || segment == [DOT, DOT]
  }

  predicate AnyDot(segments: seq<Text>) {
    segments != [] && (IsDot(segments[0]) || AnyDot(segments[1..]))
  }

  predicate DotSegmentIn(path: Text) {
    AnyDot(Segments(path))
  }

  lemma {:induction false} FirstLengthOf(a: Text, b: Text)
    requires SLASH !in a && (b == [] || b[0] == SLASH)
    ensures FirstLength(a + b) == |a|
  {
    if a == [] {
      assert a + b == b;
    } else {
      assert (a + b)[0] == a[0] && a[0] in a && (a + b)[1..] == a[1..] + b;
      FirstLengthOf(a[1..], b);
    }
  }

  /** One segment, a slash, and the rest. */
  lemma SegmentsStep(a: Text, b: Text)
    requires SLASH !in a
    ensures Segments(a + [SLASH] + b) == [a] + Segments(b)
    ensures Segments(a) == [a]
  {
    var t := a + [SLASH] + b;
    assert t == a + ([SLASH] + b);
    FirstLengthOf(a, [SLASH] + b);
    assert t[..|a|] == a && t[|a| + 1..] == b;
    FirstLengthOf(a, []);
    assert a + [] == a;
  }

  lemma Cut(t: Text, n: nat)
    requires n < |t| && t[n] == SLASH
    ensures t == t[..n] + [SLASH] + t[n + 1..]
  {
  }

  lemma {:induction false} SegmentsConcat(a: Text, b: Text)
    ensures Segments(a + [SLASH] + b) == Segments(a) + Segments(b)
    decreases |a|
  {
    hide Segments;
    var n := FirstLength(a);
    if n == |a| {
      assert a[..n] == a;
      SegmentsStep(a, b);
    } else {
      var head, rest := a[..n], a[n + 1..];
      Cut(a, n);
      SegmentsConcat(rest, b);
      SegmentsStep(head, rest);
      Regroup(head + [SLASH], rest, [SLASH] + b);
      Regroup(rest, [SLASH], b);
      Regroup(a, [SLASH], b);
      SegmentsStep(head, rest + [SLASH] + b);
      Regroup([head], Segments(rest), Segments(b));
    }
  }

  lemma JoinStep(segment: Text, rest: seq<Text>)
    requires rest != []
    ensures Join([segment] + rest) == segment + [SLASH] + Join(rest)
  {
    assert ([segment] + rest)[1..] == rest;
  }

  lemma JoinOne(segment: Text)
    ensures Join([segment]) == segment
  {
  }

  lemma {:induction false} JoinSegments(t: Text)
    ensures Join(Segments(t)) == t
    decreases |t|
  {
    hide Segments, Join;
    var n := FirstLength(t);
    if n < |t| {
      Cut(t, n);
      JoinSegments(t[n + 1..]);
      SegmentsStep(t[..n], t[n + 1..]);
      JoinStep(t[..n], Segments(t[n + 1..]));
    } else {
      assert t[..n] == t;
      SegmentsStep(t, []);
      JoinOne(t);
    }
  }

  lemma {:induction false} JoinConcat(a: seq<Text>, b: seq<Text>)
    requires a != [] && b != []
    ensures Join(a + b) == Join(a) + [SLASH] + Join(b)
  {
    if |a| == 1 {
      assert (a + b)[0] == a[0] && (a + b)[1..] == b;
    } else {
      assert (a + b)[0] == a[0] && (a + b)[1..] == a[1..] + b;
      JoinConcat(a[1..], b);
      assert a[0] + [SLASH] + (Join(a[1..]) + [SLASH] + Join(b)) == a[0] + [SLASH] + Join(a[1..]) + [SLASH] + Join(b);
    }
  }

  // ---------- RFC 3986 section 5.2.4 ----------

  /** The output buffer without its last segment and the slash before it. */
  function DropLast(out: Text): (r: Text)
    ensures |r| <= |out|
  {
    if out == [] then [] else if out[|out| - 1] == SLASH then out[..|out| - 1] else DropLast(out[..|out| - 1])
  }

  /** Where the first segment ends that step E moves, counting its leading slash. */
  function MoveLength(input: Text): (n: nat)
    requires input != []
    ensures 1 <= n <= |input|
  {
    if input[0] == SLASH then 1 + FirstLength(input[1..]) else FirstLength(input)
  }

  /** remove_dot_segments: steps A to E of the standard, on an input and an output buffer. */
  function RemoveDots(input: Text, out: Text): Text
    decreases |input|
  {
    if input == [] then out
    else if [DOT, DOT, SLASH] <= input then RemoveDots(input[3..], out)
    else if [DOT, SLASH] <= input then RemoveDots(input[2..], out)
    else if [SLASH, DOT, SLASH] <= input then RemoveDots(input[2..], out)
    else if input == [SLASH, DOT] then RemoveDots([SLASH], out)
    else if [SLASH, DOT, DOT, SLASH] <= input then RemoveDots(input[3..], DropLast(out))
    else if input == [SLASH, DOT, DOT] then RemoveDots([SLASH], DropLast(out))
    else if IsDot(input) then RemoveDots([], out)
    else
      var n := MoveLength(input);
      RemoveDots(input[n..], out + input[..n])
  }

  /** Whether one of the steps A to D applies: the first segment, after a leading slash if any, is a dot segment. */
  predicate DotFirst(input: Text) {
    IsDot(input[..FirstLength(input)]) ||
    (input != [] && input[0] == SLASH && IsDot(input[1..][..FirstLength(input[1..])]))
  }

  lemma {:induction false} RemoveDotsShrinks(input: Text, out: Text)
    ensures |RemoveDots(input, out)| <= |input| + |out|
    decreases |input|
  {
    if input == [] {
    } else if [DOT, DOT, SLASH] <= input {
      RemoveDotsShrinks(input[3..], out);
    } else if [DOT, SLASH] <= input || [SLASH, DOT, SLASH] <= input {
      RemoveDotsShrinks(input[2..], out);
    } else if input == [SLASH, DOT] {
      RemoveDotsShrinks([SLASH], out);
    } else if [SLASH, DOT, DOT, SLASH] <= input {
      RemoveDotsShrinks(input[3..], DropLast(out));
    } else if input == [SLASH, DOT, DOT] {
      RemoveDotsShrinks([SLASH], DropLast(out));
    } else if !IsDot(input) {
      var n := MoveLength(input);
      RemoveDotsShrinks(input[n..], out + input[..n]);
    }
  }

  /** Read off the first characters: which step comes next. */
  lemma DotFirstCases(input: Text)
    requires input != []
    ensures DotFirst(input) <==>
      || [DOT, DOT, SLASH] <= input || [DOT, SLASH] <= input || [SLASH, DOT, SLASH] <= input || input == [SLASH, DOT]
      || [SLASH, DOT, DOT, SLASH] <= input || input == [SLASH, DOT, DOT] || IsDot(input)
  {
    DotHead(input);
    if input[0] == SLASH {
      DotHead(input[1..]);
      assert FirstLength(input) == 0;
      assert [SLASH, DOT, SLASH] <= input <==> [DOT, SLASH] <= input[1..];
      assert [SLASH, DOT, DOT, SLASH] <= input <==> [DOT, DOT, SLASH] <= input[1..];
      assert input == [SLASH] + input[1..];
    }
  }

  lemma DotHead(t: Text)
    ensures IsDot(t[..FirstLength(t)]) <==> [DOT, DOT, SLASH] <= t || [DOT, SLASH] <= t || IsDot(t)
  {
    var n := FirstLength(t);
    if n < |t| {
      assert t[..n + 1] == t[..n] + [SLASH];
    } else {
      assert t[..n] == t;
    }
    if [DOT, SLASH] <= t {
      assert t == [DOT] + t[1..];
      FirstLengthOf([DOT], t[1..]);
    } else if [DOT, DOT, SLASH] <= t {
      assert t == [DOT, DOT] + t[2..];
      FirstLengthOf([DOT, DOT], t[2..]);
    } else if IsDot(t) {
      FirstLengthOf(t, []);
      assert t + [] == t;
    }
  }

  lemma DotStepShrinks(input: Text, out: Text)
    requires input != [] && DotFirst(input)
    ensures |RemoveDots(input, out)| < |input| + |out|
  {
    DotFirstCases(input);
    if [DOT, DOT, SLASH] <= input {
      RemoveDotsShrinks(input[3..], out);
    } else if [DOT, SLASH] <= input || [SLASH, DOT, SLASH] <= input {
      RemoveDotsShrinks(input[2..], out);
    } else if input == [SLASH, DOT] {
      RemoveDotsShrinks([SLASH], out);
    } else if [SLASH, DOT, DOT, SLASH] <= input {
      RemoveDotsShrinks(input[3..], DropLast(out));
    } else if input == [SLASH, DOT, DOT] {
      RemoveDotsShrinks([SLASH], DropLast(out));
    }
  }

  lemma PlainStep(input: Text, out: Text)
    requires input != [] && !DotFirst(input)
    ensures var n := MoveLength(input); RemoveDots(input, out) == RemoveDots(input[n..], out + input[..n])
  {
    DotFirstCases(input);
  }

  /** After the first segment was moved, the dot segments left are the ones there were. */
  lemma MoveKeepsDots(input: Text)
    requires input != [] && !DotFirst(input)
    ensures DotSegmentIn(input[MoveLength(input)..]) <==> DotSegmentIn(input)
  {
    hide DotSegmentIn, IsDot;
    if input[0] == SLASH {
      var tail := input[1..];
      var k := FirstLength(tail);
      assert tail == tail[..k] + tail[k..] && tail[k..] == input[k + 1..];
      RestDots(input, tail);
      PlainHead(tail[..k], tail[k..]);
    } else {
      var n := FirstLength(input);
      assert input == input[..n] + input[n..];
      PlainHead(input[..n], input[n..]);
    }
  }

  lemma PlainHead(s: Text, rest: Text)
    requires SLASH !in s && !IsDot(s) && (rest == [] || rest[0] == SLASH)
    ensures DotSegmentIn(s + rest) <==> DotSegmentIn(rest)
  {
    hide Segments, AnyDot, IsDot;
    if rest == [] {
      assert s + rest == s && [s] + [] == [s];
      SegmentsStep(s, []);
      AnyDotStep(s, []);
      EmptyHasNoDots();
      NoSegmentsNoDots();
    } else {
      var tail := rest[1..];
      assert s + rest == s + [SLASH] + tail;
      SegmentsStep(s, tail);
      AnyDotStep(s, Segments(tail));
      RestDots(rest, tail);
    }
  }

  lemma NoSegmentsNoDots()
    ensures !AnyDot([])
  {
  }

  lemma AnyDotStep(s: Text, rest: seq<Text>)
    ensures AnyDot([s] + rest) <==> IsDot(s) || AnyDot(rest)
  {
    assert ([s] + rest)[1..] == rest;
  }

  lemma EmptyHasNoDots()
    ensures !DotSegmentIn([])
  {
    SegmentsStep([], []);
    AnyDotStep([], []);
  }

  lemma RestDots(rest: Text, tail: Text)
    requires rest != [] && rest[0] == SLASH && tail == rest[1..]
    ensures DotSegmentIn(rest) <==> DotSegmentIn(tail)
  {
    assert rest == [] + [SLASH] + tail;
    SegmentsStep([], tail);
    AnyDotStep([], Segments(tail));
  }

  lemma DotFirstIsDot(input: Text)
    requires input != [] && DotFirst(input)
    ensures DotSegmentIn(input)
  {
    var n := FirstLength(input);
    if IsDot(input[..n]) {
      if n == |input| {
        assert input[..n] == input;
        AnyDotStep(input, []);
      } else {
        AnyDotStep(input[..n], Segments(input[n + 1..]));
      }
    } else {
      var tail := input[1..];
      RestDots(input, tail);
      var k := FirstLength(tail);
      if k == |tail| {
        assert tail[..k] == tail;
        AnyDotStep(tail, []);
      } else {
        AnyDotStep(tail[..k], Segments(tail[k + 1..]));
      }
    }
  }

  lemma RemoveDotsFromNothing(out: Text)
    ensures RemoveDots([], out) == out == out + []
  {
  }

  lemma {:induction false} RemoveDotsOn(input: Text, out: Text)
    ensures DotSegmentIn(input) ==> |RemoveDots(input, out)| < |input| + |out|
    ensures !DotSegmentIn(input) ==> RemoveDots(input, out) == out + input
    decreases |input|
  {
    hide RemoveDots, DotSegmentIn, DotFirst, MoveLength;
    if input == [] {
      EmptyHasNoDots();
      RemoveDotsFromNothing(out);
    } else if DotFirst(input) {
      DotStepShrinks(input, out);
      DotFirstIsDot(input);
    } else {
      var n := MoveLength(input);
      var moved, rest := input[..n], input[n..];
      assert input == moved + rest;
      PlainStep(input, out);
      MoveKeepsDots(input);
      RemoveDotsOn(rest, out + moved);
      Regroup(out, moved, rest);
    }
  }

  /** A path has no dot segment exactly when normalization leaves it as it is. */
  lemma NoDotSegmentIffFixed(path: Text)
    ensures !DotSegmentIn(path) <==> RemoveDots(path, []) == path
  {
    RemoveDotsOn(path, []);
    assert [] + path == path;
  }

  // ---------- percent-decoding ----------

  /** The byte that a well-formed escape at the front stands for. */
  function EscapeAt(t: Text): Option<Byte> {
    if |t| < 3 || t[0] != PERCENT then None
    else
      match (HexValue(t[1]), HexValue(t[2]))
      case (Some(a), Some(b)) => Some(16 * a + b)
      case _ => None
  }

  /** The longest run of escapes of bytes above 0x7F at the front, and what follows it. */
  function HighRun(t: Text): (r: (Bytes, Text))
    ensures |r.1| <= |t|
    ensures EscapeAt(t).Some? && EscapeAt(t).value >= 0x80 ==> |r.1| < |t|
    decreases |t|
  {
    match EscapeAt(t)
    case Some(v) =>
      if v < 0x80 then ([], t)
      else
        var rest := HighRun(t[3..]);
        ([v] + rest.0, rest.1)
    case None => ([], t)
  }

  /** `urllib.parse.unquote`: ASCII escapes are single characters, runs of higher bytes are decoded by `high`
      (UTF-8 with replacement), malformed escapes stay. */
  function Unquote(high: Bytes -> Text, t: Text): Text
    decreases |t|
  {
    if t == [] then []
    else
      match EscapeAt(t)
      case None => [t[0]] + Unquote(high, t[1..])
      case Some(v) =>
        if v < 0x80 then [v] + Unquote(high, t[3..])
        else
          var run := HighRun(t);
          high(run.0) + Unquote(high, run.1)
  }

  lemma {:induction false} UnquoteLiteral(high: Bytes -> Text, a: Text, b: Text)
    requires PERCENT !in a
    ensures Unquote(high, a + b) == a + Unquote(high, b)
  {
    if a == [] {
      assert a + b == b;
    } else {
      var t := a + b;
      assert t[0] == a[0] && a[0] in a && t[1..] == a[1..] + b;
      UnquoteLiteral(high, a[1..], b);
      assert [a[0]] + (a[1..] + Unquote(high, b)) == a + Unquote(high, b);
    }
  }

  // ---------- the allowlist's prefix match ----------

  /** `_has_dot_segment`. */
  predicate HasDotSegment(high: Bytes -> Text, path: Text) {
    DotSegmentIn(path) || DotSegmentIn(Unquote(high, path))
  }

  /** `_path_allowed`. */
  predicate PathAllowed(path: Text, entry: Text) {
    || entry == [] || entry == [SLASH]
    || path == entry
    || (if entry[|entry| - 1] == SLASH then entry else entry + [SLASH]) <= path
  }

  lemma PrefixOfSegments(path: Text, entry: Text)
    ensures Segments(entry) <= Segments(path) <==> path == entry || entry + [SLASH] <= path
  {
    if entry + [SLASH] <= path {
      var rest := path[|entry| + 1..];
      assert path == entry + [SLASH] + rest;
      SegmentsConcat(entry, rest);
    }
    if Segments(entry) <= Segments(path) {
      var more := Segments(path)[|Segments(entry)|..];
      assert Segments(path) == Segments(entry) + more;
      JoinSegments(path);
      JoinSegments(entry);
      if more == [] {
        assert Segments(path) == Segments(entry);
      } else {
        JoinConcat(Segments(entry), more);
      }
    }
  }

  /** The entry is matched segment by segment: its segments are the first ones of the path. An entry that ends in a
      slash asks for at least one segment more; the entry `/` or an empty one admits the whole host. */
  lemma PathAllowedIff(path: Text, entry: Text)
    ensures entry == [] || entry == [SLASH] ==> PathAllowed(path, entry)
    ensures entry != [] && entry[|entry| - 1] != SLASH ==>
      (PathAllowed(path, entry) <==> Segments(entry) <= Segments(path))
    ensures |entry| > 1 && entry[|entry| - 1] == SLASH ==>
      (PathAllowed(path, entry) <==> Segments(entry[..|entry| - 1]) < Segments(path))
  {
    hide Segments;
    if entry == [] || entry == [SLASH] {
    } else if entry[|entry| - 1] != SLASH {
      PrefixOfSegments(path, entry);
    } else {
      var base := entry[..|entry| - 1];
      assert entry == base + [SLASH];
      PrefixOfSegments(path, base);
      ProperPrefix(path, base);
    }
  }

  lemma ProperPrefix(path: Text, base: Text)
    ensures Segments(base) < Segments(path) <==> Segments(base) <= Segments(path) && path != base
  {
    JoinSegments(path);
    JoinSegments(base);
  }

  /** An admitted path without dot segments, as sent and as decoded once, stays what it is under normalization and lies
      below the entry on a segment boundary. */
  lemma AdmittedPathIsContained(high: Bytes -> Text, path: Text, entry: Text)
    requires !HasDotSegment(high, path) && PathAllowed(path, entry) && PERCENT !in entry
    ensures RemoveDots(path, []) == path && RemoveDots(Unquote(high, path), []) == Unquote(high, path)
    ensures PathAllowed(Unquote(high, path), entry)
  {
    hide DotSegmentIn, RemoveDots, Unquote;
    NoDotSegmentIffFixed(path);
    NoDotSegmentIffFixed(Unquote(high, path));
    if entry != [] && entry != [SLASH] {
      if path == entry {
        UnquoteLiteral(high, entry, []);
        UnquoteNothing(high);
        assert entry + [] == entry;
      } else {
        var boundary := if entry[|entry| - 1] == SLASH then entry else entry + [SLASH];
        assert path == boundary + path[|boundary|..];
        UnquoteLiteral(high, boundary, path[|boundary|..]);
      }
    }
  }

  lemma UnquoteNothing(high: Bytes -> Text)
    ensures Unquote(high, []) == []
  {
  }
}

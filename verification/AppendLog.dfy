/** The shared append-only log, read whole and by its tail. */
module AppendLog {
  // Also deciding and appending under the writer lock.

  import opened Prelude
  import opened Texts

  datatype LogError = LineLongerThanWindow | NoLineInWindow | Refused

  const NEWLINE: Byte := 0x0A

  /** The bytes that `bytes.strip()` removes. */
  predicate White(b: Byte) {
    b == 0x20 || 0x09 <= b <= 0x0D
  }

  predicate Blank(line: Bytes) {
    line == [] || (White(line[0]) && Blank(line[1..]))
  }

  /** A line is blank when it is spaces, tabs, newlines, carriage returns, vertical tabs and form feeds only. */
  lemma {:induction false} BlankIff(line: Bytes)
    ensures Blank(line) <==>
      forall i | 0 <= i < |line| :: line[i] in [' ' as int, '\t' as int, '\n' as int, '\r' as int, 0x0B, 0x0C]
  {
    if line != [] {
      BlankIff(line[1..]);
      assert forall i | 0 < i < |line| :: line[i] == line[1..][i - 1];
    }
  }

  // ---------- lines ----------

  /** `data.split(b"\n")`: pieces without the newlines, at least one. */
  function Split(s: Bytes): (r: seq<Bytes>)
    ensures r != []
  {
    if s == [] then [[]]
    else
      var r := Split(s[1..]);
      if s[0] == NEWLINE then [[]] + r else [[s[0]] + r[0]] + r[1..]
  }

  /** Iterating over a binary file: lines that keep their newline, the last one perhaps without. */
  function FileLines(s: Bytes): seq<Bytes> {
    if s == [] then []
    else
      var r := FileLines(s[1..]);
      if s[0] == NEWLINE then [[NEWLINE]] + r
      else if r == [] then [[s[0]]]
      else [[s[0]] + r[0]] + r[1..]
  }

  function NonBlank(lines: seq<Bytes>): seq<Bytes> {
    if lines == [] then []
    else (if Blank(lines[0]) then [] else [lines[0]]) + NonBlank(lines[1..])
  }

  /** The line without its newline. */
  function Chomp(line: Bytes): Bytes {
    if line != [] && Last(line) == NEWLINE then line[..|line| - 1] else line
  }

  function ChompAll(lines: seq<Bytes>): (r: seq<Bytes>)
    ensures |r| == |lines|
  {
    if lines == [] then [] else [Chomp(lines[0])] + ChompAll(lines[1..])
  }

  /** `read_lines`. */
  function ReadLinesOf(data: Bytes): seq<Bytes> {
    NonBlank(FileLines(data))
  }

  function WindowStart(data: Bytes, window: nat): nat {
    if |data| <= window then 0 else |data| - window
  }

  /** `tail_line`. */
  function TailOf(data: Bytes, window: nat): Result<Option<Bytes>, LogError> {
    if data == [] then Ok(None)
    else
      var start := WindowStart(data, window);
      var chunk := data[start..];
      if start > 0 && NEWLINE !in chunk then Err(LineLongerThanWindow)
      else
        var lines := NonBlank(Split(chunk));
        if lines == [] then Err(NoLineInWindow) else Ok(Some(Last(lines)))
  }

  /** The log file and its writer. `decide` is run on the last line while the exclusive lock is held. */
  class AppendLog {
    var data: Bytes
    const tailWindow: nat

    constructor (tailWindow: nat)
      ensures data == [] && this.tailWindow == tailWindow
    {
      data := [];
      this.tailWindow := tailWindow;
    }

    method ReadLines() returns (lines: seq<Bytes>)
      ensures lines == ReadLinesOf(data)
    {
      lines := NonBlank(FileLines(data));
    }

    method TailLine() returns (r: Result<Option<Bytes>, LogError>)
      ensures r == TailOf(data, tailWindow)
    {
      var size := |data|;
      if size == 0 {
        return Ok(None);
      }
      var start := if size - tailWindow > 0 then size - tailWindow else 0;
      var chunk := data[start..];
      if start > 0 && NEWLINE !in chunk {
        return Err(LineLongerThanWindow);
      }
      var lines := NonBlank(Split(chunk));
      if lines == [] {
        return Err(NoLineInWindow);
      }
      return Ok(Some(Last(lines)));
    }

    /** The file only ever grows by the one payload that was decided, and not at all when deciding raises. */
    method DecideAndAppend<T>(decide: Option<Bytes> -> Result<(T, Bytes), LogError>)
      returns (r: Result<(T, Bytes), LogError>)
      modifies this
      ensures r == match TailOf(old(data), tailWindow) { case Err(e) => Err(e) case Ok(last) => decide(last) }
      ensures data == old(data) + if r.Ok? then r.value.1 else []
    {
      var last := TailLine();
      if last.Err? {
        assert data + [] == data;
        return Err(last.error);
      }
      r := decide(last.value);
      match r {
        case Err(_) =>
          assert data + [] == data;
        case Ok((_, payload)) =>
          Write(payload);
      }
    }

    /** `os.write` and `os.fsync`. */
    method Write(payload: Bytes)
      modifies this
      ensures data == old(data) + payload
    {
      data := data + payload;
    }
  }

  // ---------- reading whole agrees with splitting ----------

  lemma {:induction false} NonBlankConcat(a: seq<Bytes>, b: seq<Bytes>)
    ensures NonBlank(a + b) == NonBlank(a) + NonBlank(b)
  {
    if a == [] {
      assert a + b == b;
    } else {
      assert (a + b)[1..] == a[1..] + b;
      NonBlankConcat(a[1..], b);
    }
  }

  lemma {:induction false} BlankConcat(a: Bytes, b: Bytes)
    ensures Blank(a + b) <==> Blank(a) && Blank(b)
  {
    if a == [] {
      assert a + b == b;
    } else {
      assert (a + b)[1..] == a[1..] + b;
      BlankConcat(a[1..], b);
    }
  }

  lemma ChompKeepsBlank(line: Bytes)
    ensures Blank(Chomp(line)) <==> Blank(line)
  {
    if line != [] && Last(line) == NEWLINE {
      assert line == Chomp(line) + [NEWLINE];
      BlankConcat(Chomp(line), [NEWLINE]);
    }
  }

  lemma {:induction false} ChompNonBlank(lines: seq<Bytes>)
    ensures ChompAll(NonBlank(lines)) == NonBlank(ChompAll(lines))
  {
    if lines != [] {
      ChompNonBlank(lines[1..]);
      ChompKeepsBlank(lines[0]);
      assert ChompAll(lines)[1..] == ChompAll(lines[1..]);
      if Blank(lines[0]) {
        assert NonBlank(lines) == NonBlank(lines[1..]);
        assert NonBlank(ChompAll(lines)) == NonBlank(ChompAll(lines[1..]));
      } else {
        assert NonBlank(lines)[1..] == NonBlank(lines[1..]);
      }
    }
  }

  lemma ChompFirst(c: Byte, line: Bytes)
    requires line != []
    ensures Chomp([c] + line) == [c] + Chomp(line)
  {
  }

  predicate EndsInNewline(s: Bytes) {
    s == [] || Last(s) == NEWLINE
  }

  lemma SplitStep(c: Byte, t: Bytes)
    ensures Split([c] + t) ==
      if c == NEWLINE then [[]] + Split(t) else [[c] + Split(t)[0]] + Split(t)[1..]
  {
    assert ([c] + t)[1..] == t;
  }

  lemma FileLinesStep(c: Byte, t: Bytes)
    ensures var r := FileLines(t);
      FileLines([c] + t) ==
      if c == NEWLINE then [[NEWLINE]] + r else if r == [] then [[c]] else [[c] + r[0]] + r[1..]
  {
    assert ([c] + t)[1..] == t;
  }

  lemma ChompAllStep(line: Bytes, rest: seq<Bytes>)
    ensures ChompAll([line] + rest) == [Chomp(line)] + ChompAll(rest)
  {
    assert ([line] + rest)[1..] == rest;
  }

  function AfterNewline(s: Bytes): seq<Bytes> {
    if EndsInNewline(s) then [[]] else []
  }

  /** The split has the same pieces, and an empty one more after a final newline. */
  lemma {:induction false} SplitIsFileLines(s: Bytes)
    ensures Split(s) == ChompAll(FileLines(s)) + AfterNewline(s)
    ensures s == [] <==> FileLines(s) == []
    ensures FileLines(s) != [] ==> FileLines(s)[0] != []
  {
    if s != [] {
      hide Split, FileLines, ChompAll, Chomp, AfterNewline;
      var c, t := s[0], s[1..];
      assert s == [c] + t;
      SplitIsFileLines(t);
      SplitStep(c, t);
      FileLinesStep(c, t);
      LastPiece(c, t);
      var r, end := FileLines(t), AfterNewline(t);
      if c == NEWLINE {
        ChompAllStep([NEWLINE], r);
        ChompNewline();
        Regroup([[]], ChompAll(r), end);
      } else if r == [] {
        ChompAllStep([c], []);
        NothingChomped();
        ChompText([c]);
        var empty: seq<Bytes> := [[]];
        assert Split(t) == empty && empty[1..] == [] && [c] + empty[0] == [c];
        assert [[c]] + [] == [[c]];
      } else {
        assert r == [r[0]] + r[1..];
        ChompAllStep(r[0], r[1..]);
        ChompAllStep([c] + r[0], r[1..]);
        ChompFirst(c, r[0]);
        ReplaceHead([Chomp(r[0])] + ChompAll(r[1..]), [c] + Chomp(r[0]), end);
        assert ([Chomp(r[0])] + ChompAll(r[1..]))[1..] == ChompAll(r[1..]);
      }
    }
  }

  lemma LastPiece(c: Byte, t: Bytes)
    ensures t != [] ==> AfterNewline([c] + t) == AfterNewline(t)
    ensures t == [] && c == NEWLINE ==> AfterNewline([c] + t) == AfterNewline(t)
    ensures t == [] && c != NEWLINE ==> AfterNewline([c] + t) == [] && Split(t) == [[]]
  {
    assert Last([c] + t) == if t == [] then c else Last(t);
  }

  lemma ChompNewline()
    ensures Chomp([NEWLINE]) == []
  {
  }

  lemma NothingChomped()
    ensures ChompAll([]) == []
  {
  }

  lemma ChompText(line: Bytes)
    requires line != [] && Last(line) != NEWLINE
    ensures Chomp(line) == line
  {
  }

  /** What `read_lines` returns, without newlines, are the non-blank pieces. */
  lemma ReadLinesAreSplit(data: Bytes)
    ensures ChompAll(ReadLinesOf(data)) == NonBlank(Split(data))
  {
    SplitIsFileLines(data);
    ChompNonBlank(FileLines(data));
    NonBlankConcat(ChompAll(FileLines(data)), AfterNewline(data));
    assert NonBlank([[]]) == [];
  }

  // ---------- reading the tail agrees with reading whole ----------

  /** Position of the last byte that is not white space; -1 in a blank file. */
  function LastInk(s: Bytes): (e: int)
    ensures -1 <= e < |s|
  {
    if s == [] then -1
    else if !White(Last(s)) then |s| - 1
    else LastInk(s[..|s| - 1])
  }

  /** Where the line containing position `e` begins. */
  function LineStart(s: Bytes, e: nat): (b: nat)
    requires e < |s|
    ensures b <= e
  {
    if e == 0 || s[e - 1] == NEWLINE then e else LineStart(s, e - 1)
  }

  lemma LastInkStep(t: Bytes, b: Byte)
    ensures LastInk(t + [b]) == if White(b) then LastInk(t) else |t|
  {
    assert (t + [b])[..|t|] == t && Last(t + [b]) == b;
  }

  lemma {:induction false} InkSplits(s: Bytes)
    ensures Blank(s[LastInk(s) + 1..])
    ensures LastInk(s) >= 0 ==> !White(s[LastInk(s)])
    decreases |s|
  {
    hide Blank, LastInk;
    if s == [] {
      NoInk();
    } else {
      var t, b := s[..|s| - 1], Last(s);
      assert s == t + [b];
      LastInkStep(t, b);
      if White(b) {
        InkSplits(t);
        var blank := t[LastInk(t) + 1..];
        assert s[LastInk(t) + 1..] == blank + [b];
        BlankConcat(blank, [b]);
        OneBlank(b);
      } else {
        assert s[|t| + 1..] == [];
        NoInk();
      }
    }
  }

  lemma NoInk()
    ensures LastInk([]) == -1 && Blank([])
  {
  }

  lemma OneBlank(b: Byte)
    ensures Blank([b]) <==> White(b)
  {
  }

  lemma {:induction false} LineHasNoNewline(s: Bytes, e: nat)
    requires e < |s| && s[e] != NEWLINE
    ensures NEWLINE !in s[LineStart(s, e)..e + 1]
    ensures LineStart(s, e) == 0 || s[LineStart(s, e) - 1] == NEWLINE
  {
    if e == 0 || s[e - 1] == NEWLINE {
      assert s[e..e + 1] == [s[e]];
    } else {
      LineHasNoNewline(s, e - 1);
      assert s[LineStart(s, e)..e + 1] == s[LineStart(s, e)..e] + [s[e]];
    }
  }

  /** Text without a newline only lengthens the first piece of what follows. */
  lemma {:induction false} SplitAfterText(u: Bytes, w: Bytes)
    requires NEWLINE !in u
    ensures Split(u + w) == [u + Split(w)[0]] + Split(w)[1..]
  {
    if u == [] {
      assert u + w == w;
      assert [] + Split(w)[0] == Split(w)[0];
    } else {
      assert (u + w)[1..] == u[1..] + w;
      assert u[0] != NEWLINE;
      SplitAfterText(u[1..], w);
      assert [u[0]] + (u[1..] + Split(w)[0]) == u + Split(w)[0];
    }
  }

  /** Split over concatenation, when the left part ends a line: its last, empty, piece is replaced. */
  lemma {:induction false} LinesInFront(p: Bytes, q: Bytes) returns (front: seq<Bytes>)
    requires p != [] && EndsInNewline(p)
    ensures front != [] && Split(p) == front + [[]] && Split(p + q) == front + Split(q)
    decreases |p|
  {
    var c, t := p[0], p[1..];
    assert p == [c] + t && p + q == [c] + (t + q);
    SplitStep(c, t);
    SplitStep(c, t + q);
    if t == [] {
      assert t + q == q;
      front := [[]];
    } else {
      hide Split;
      assert Last(t) == Last(p);
      var f := LinesInFront(t, q);
      if c == NEWLINE {
        front := [[]] + f;
        Regroup([[]], f, [[]]);
        Regroup([[]], f, Split(q));
      } else {
        front := [[c] + f[0]] + f[1..];
        ReplaceHead(f, [c] + f[0], [[]]);
        ReplaceHead(f, [c] + f[0], Split(q));
      }
    }
  }

  lemma ReplaceHead<T>(f: seq<T>, x: T, g: seq<T>)
    requires f != []
    ensures [x] + (f + g)[1..] == [x] + f[1..] + g
    ensures (f + g)[0] == f[0]
  {
  }

  /** Complete lines in front only add their own pieces. */
  lemma SplitAfterLines(p: Bytes, q: Bytes)
    requires EndsInNewline(p)
    ensures NonBlank(Split(p + q)) == NonBlank(Split(p)) + NonBlank(Split(q))
  {
    EmptyPieceIsBlank();
    if p == [] {
      assert p + q == q;
    } else {
      hide Split, NonBlank;
      var front := LinesInFront(p, q);
      NonBlankConcat(front, [[]]);
      NonBlankConcat(front, Split(q));
    }
  }

  lemma EmptyPieceIsBlank()
    ensures NonBlank([[]]) == [] && Split([]) == [[]]
  {
  }

  lemma {:induction false} BlankPieces(w: Bytes)
    requires Blank(w)
    ensures Blank(Split(w)[0]) && NonBlank(Split(w)) == []
  {
    if w != [] {
      BlankPieces(w[1..]);
      var r := Split(w[1..]);
      assert r == [r[0]] + r[1..];
      if w[0] != NEWLINE {
        assert Blank([w[0]] + r[0]);
        assert Split(w)[1..] == r[1..];
      }
    }
  }

  lemma InkIsNotBlank(u: Bytes, w: Bytes)
    requires u != [] && !White(Last(u))
    ensures !Blank(u + w)
  {
    assert u == u[..|u| - 1] + [Last(u)];
    BlankConcat(u[..|u| - 1], [Last(u)]);
    BlankConcat(u, w);
  }

  /** When the last ink of `u + w` is the last byte of a newline-free `u`, there is one line, and it starts with `u`. */
  lemma OneLine(u: Bytes, w: Bytes)
    requires u != [] && NEWLINE !in u && !White(Last(u)) && Blank(w)
    ensures NonBlank(Split(u + w)) == [u + Split(w)[0]]
  {
    SplitAfterText(u, w);
    BlankPieces(w);
    InkIsNotBlank(u, Split(w)[0]);
    assert Split(w) == [Split(w)[0]] + Split(w)[1..];
    var pieces := [u + Split(w)[0]] + Split(w)[1..];
    assert pieces[0] == u + Split(w)[0] && pieces[1..] == Split(w)[1..];
    NonBlankConcat([Split(w)[0]], Split(w)[1..]);
  }

  /** The last line of a file with ink in it: the ink from its start, then blank bytes up to a newline or the end. */
  function LastLine(data: Bytes): Bytes
    requires LastInk(data) >= 0
  {
    data[LineStart(data, LastInk(data))..LastInk(data) + 1] + Split(data[LastInk(data) + 1..])[0]
  }

  lemma LinesThenOne(p: Bytes, u: Bytes, w: Bytes)
    requires EndsInNewline(p)
    requires u != [] && NEWLINE !in u && !White(Last(u)) && Blank(w)
    ensures var lines := NonBlank(Split(p + (u + w))); lines != [] && Last(lines) == u + Split(w)[0]
  {
    SplitAfterLines(p, u + w);
    OneLine(u, w);
  }

  /** A file with ink in it is complete lines, the ink of its last line, and blank bytes. */
  lemma Pieces(data: Bytes) returns (front: Bytes, u: Bytes, w: Bytes)
    requires LastInk(data) >= 0
    ensures data == front + (u + w) && |front| == LineStart(data, LastInk(data))
    ensures EndsInNewline(front) && u != [] && NEWLINE !in u && !White(Last(u)) && Blank(w)
    ensures LastLine(data) == u + Split(w)[0]
  {
    hide NonBlank, Split, Blank, LastInk, LineStart;
    var e := LastInk(data);
    var b := LineStart(data, e);
    InkSplits(data);
    LineHasNoNewline(data, e);
    front, u, w := data[..b], data[b..e + 1], data[e + 1..];
    assert front != [] ==> Last(front) == data[b - 1];
    assert Last(u) == data[e];
  }

  lemma DropInFront<T>(p: seq<T>, q: seq<T>, start: nat)
    requires start <= |p|
    ensures (p + q)[start..] == p[start..] + q
    ensures p[start..] != [] ==> Last(p[start..]) == Last(p)
  {
  }

  /** The last piece of every suffix that begins at or before the start of the last line is that line. */
  lemma SuffixKeepsLastLine(data: Bytes, start: nat)
    requires LastInk(data) >= 0 && start <= LineStart(data, LastInk(data))
    ensures NonBlank(Split(data[start..])) != [] && Last(NonBlank(Split(data[start..]))) == LastLine(data)
  {
    hide NonBlank, Split, Blank, LastInk, LineStart, LastLine;
    var front, u, w := Pieces(data);
    DropInFront(front, u + w, start);
    LinesThenOne(front[start..], u, w);
  }

  lemma PartOfLine(x: Bytes, u: Bytes, w: Bytes)
    requires x != [] && u != [] && NEWLINE !in u && !White(Last(u)) && Blank(w)
    ensures var lines := NonBlank(Split(u + w)); lines != [] && Last(lines) != x + u + Split(w)[0]
  {
    OneLine(u, w);
    assert |x + u + Split(w)[0]| > |u + Split(w)[0]|;
  }

  lemma DropWithin<T>(p: seq<T>, u: seq<T>, w: seq<T>, start: nat)
    requires |p| < start < |p| + |u|
    ensures (p + (u + w))[start..] == u[start - |p|..] + w
    ensures u == u[..start - |p|] + u[start - |p|..]
    ensures u[start - |p|..] != [] && Last(u[start - |p|..]) == Last(u)
    ensures u[..start - |p|] != []
  {
  }

  lemma DropPast<T>(p: seq<T>, u: seq<T>, w: seq<T>, start: nat)
    requires |p| + |u| <= start <= |p| + |u| + |w|
    ensures (p + (u + w))[start..] == w[start - |p| - |u|..]
    ensures w == w[..start - |p| - |u|] + w[start - |p| - |u|..]
  {
  }

  /** A suffix that begins later holds a proper part of the last line, or nothing. */
  lemma LaterSuffixLosesLastLine(data: Bytes, start: nat)
    requires LastInk(data) >= 0 && LineStart(data, LastInk(data)) < start <= |data|
    ensures var lines := NonBlank(Split(data[start..])); lines == [] || Last(lines) != LastLine(data)
  {
    hide NonBlank, Split, Blank, LastInk, LineStart, LastLine;
    var front, u, w := Pieces(data);
    if start < |front| + |u| {
      DropWithin(front, u, w, start);
      var k := start - |front|;
      assert u[..k] + u[k..] + Split(w)[0] == u + Split(w)[0];
      PartOfLine(u[..k], u[k..], w);
    } else {
      DropPast(front, u, w, start);
      var k := start - |front| - |u|;
      BlankConcat(w[..k], w[k..]);
      BlankPieces(w[k..]);
    }
  }

  /** `tail_line` returns the last line that `read_lines` returns, without its newline, exactly when that line
      begins inside the window and the guard lets the window through: it reaches back to the start of the file
      or holds a newline. */
  lemma TailAgreesWithReadIff(data: Bytes, window: nat)
    requires ReadLinesOf(data) != []
    ensures LastInk(data) >= 0
    ensures var start := WindowStart(data, window);
      TailOf(data, window) == Ok(Some(Chomp(Last(ReadLinesOf(data))))) <==>
      (start == 0 || NEWLINE in data[start..]) && start <= LineStart(data, LastInk(data))
  {
    InkIffLines(data);
    ReadLinesAreSplit(data);
    SuffixKeepsLastLine(data, 0);
    assert data[0..] == data;
    LastChomped(ReadLinesOf(data));
    var start := WindowStart(data, window);
    if start <= LineStart(data, LastInk(data)) {
      SuffixKeepsLastLine(data, start);
    } else {
      LaterSuffixLosesLastLine(data, start);
    }
  }

  lemma InkIffLines(data: Bytes)
    ensures LastInk(data) >= 0 <==> ReadLinesOf(data) != []
  {
    ReadLinesAreSplit(data);
    if LastInk(data) >= 0 {
      SuffixKeepsLastLine(data, 0);
      assert data[0..] == data;
    } else {
      InkSplits(data);
      assert data[0..] == data;
      BlankPieces(data);
    }
  }

  lemma {:induction false} LastChomped(lines: seq<Bytes>)
    requires lines != []
    ensures Last(ChompAll(lines)) == Chomp(Last(lines))
  {
    if |lines| > 1 {
      LastChomped(lines[1..]);
    }
  }

  /** The guard looks for any newline at all: a last line longer than the window that ends in a newline
      passes it and comes back cut. */
  lemma GuardMissesLongLine()
    ensures TailOf([0x61, 0x62, NEWLINE], 2) == Ok(Some([0x62]))
    ensures ReadLinesOf([0x61, 0x62, NEWLINE]) == [[0x61, 0x62, NEWLINE]]
  {
    var data, line := [0x61, 0x62, NEWLINE], [0x61, 0x62];
    EndedLine([0x62]);
    assert data[1..] == [0x62] + [NEWLINE];
    assert data == line + [NEWLINE];
    EndedLine(line);
  }

  /** A single ended line with ink in it. */
  lemma EndedLine(line: Bytes)
    requires NEWLINE !in line && !Blank(line)
    ensures NonBlank(Split(line + [NEWLINE])) == [line]
    ensures ReadLinesOf(line + [NEWLINE]) == [line + [NEWLINE]]
  {
    SplitAfterText(line, [NEWLINE]);
    SplitStep(NEWLINE, []);
    assert [NEWLINE] + [] == [NEWLINE];
    var two: seq<Bytes> := [[], []];
    assert Split([NEWLINE]) == two && two[1..] == [[]] && line + two[0] == line;
    NonBlankConcat([line], [[]]);
    assert NonBlank([[]]) == [] && NonBlank([line]) == [line] + NonBlank([]);
    FileLinesAfterLine(line, []);
    assert line + [NEWLINE] + [] == line + [NEWLINE];
    BlankConcat(line, [NEWLINE]);
    assert NonBlank([line + [NEWLINE]]) == [line + [NEWLINE]] + NonBlank([]);
  }

  // ---------- a log this writer produced ----------

  /** Records written one per line. */
  function Written(records: seq<Bytes>): Bytes {
    if records == [] then [] else records[0] + [NEWLINE] + Written(records[1..])
  }

  function Terminate(records: seq<Bytes>): seq<Bytes> {
    if records == [] then [] else [records[0] + [NEWLINE]] + Terminate(records[1..])
  }

  /** An encoded record is one non-blank line. */
  ghost predicate OneLineEach(records: seq<Bytes>) {
    forall r | r in records :: NEWLINE !in r && !Blank(r)
  }

  lemma {:induction false} FileLinesAfterLine(r: Bytes, rest: Bytes)
    requires NEWLINE !in r
    ensures FileLines(r + [NEWLINE] + rest) == [r + [NEWLINE]] + FileLines(rest)
  {
    var s := r + [NEWLINE] + rest;
    if r == [] {
      assert s[1..] == rest;
      assert [] + [NEWLINE] == [NEWLINE];
    } else {
      assert s[1..] == r[1..] + [NEWLINE] + rest;
      assert r[0] != NEWLINE;
      FileLinesAfterLine(r[1..], rest);
      assert [r[0]] + (r[1..] + [NEWLINE]) == r + [NEWLINE];
    }
  }

  /** Reading a log back gives the records written, in order. */
  lemma {:induction false} WrittenReadsBack(records: seq<Bytes>)
    requires OneLineEach(records)
    ensures ReadLinesOf(Written(records)) == Terminate(records)
  {
    if records != [] {
      var r := records[0];
      assert r in records;
      assert OneLineEach(records[1..]);
      WrittenReadsBack(records[1..]);
      FileLinesAfterLine(r, Written(records[1..]));
      BlankConcat(r, [NEWLINE]);
      var lines := [r + [NEWLINE]] + FileLines(Written(records[1..]));
      assert lines[1..] == FileLines(Written(records[1..]));
    }
  }

  lemma {:induction false} WrittenEndsInNewline(records: seq<Bytes>)
    ensures EndsInNewline(Written(records))
  {
    if records != [] {
      WrittenEndsInNewline(records[1..]);
    }
  }

  lemma {:induction false} WrittenConcat(a: seq<Bytes>, b: seq<Bytes>)
    ensures Written(a + b) == Written(a) + Written(b)
  {
    if a == [] {
      assert a + b == b;
    } else {
      assert (a + b)[1..] == a[1..] + b;
      WrittenConcat(a[1..], b);
    }
  }

  lemma WrittenEnd(records: seq<Bytes>) returns (front: Bytes)
    requires records != []
    ensures Written(records) == front + (Last(records) + [NEWLINE]) && EndsInNewline(front)
  {
    var init := records[..|records| - 1];
    assert records == init + [Last(records)];
    WrittenConcat(init, [Last(records)]);
    WrittenEndsInNewline(init);
    front := Written(init);
    assert Written([Last(records)]) == Last(records) + [NEWLINE];
  }

  /** In a log this writer produced the tail is the record written last, if that record fits in the window. */
  lemma WrittenTail(records: seq<Bytes>, window: nat)
    requires records != [] && NEWLINE !in Last(records) && !Blank(Last(records)) && |Last(records)| + 1 <= window
    ensures TailOf(Written(records), window) == Ok(Some(Last(records)))
  {
    hide NonBlank, Split, Blank, Written;
    var last := Last(records);
    var front := WrittenEnd(records);
    var start := WindowStart(Written(records), window);
    DropInFront(front, last + [NEWLINE], start);
    SplitAfterLines(front[start..], last + [NEWLINE]);
    EndedLine(last);
    assert (last + [NEWLINE])[|last|] == NEWLINE;
  }

  /** Otherwise the guard finds the newline after it, and the tail is the end of the record. */
  lemma WrittenTailIsCut(records: seq<Bytes>, window: nat)
    requires records != [] && NEWLINE !in Last(records) && 2 <= window <= |Last(records)|
    requires !White(Last(Last(records)))
    ensures TailOf(Written(records), window) == Ok(Some(Last(records)[|Last(records)| + 1 - window..]))
  {
    hide NonBlank, Split, Blank, Written, White;
    var last := Last(records);
    var k := |last| + 1 - window;
    var front := WrittenEnd(records);
    DropWithin(front, last, [NEWLINE], |front| + k);
    EndOfLine(last, k);
  }

  lemma EndOfLine(line: Bytes, k: nat)
    requires NEWLINE !in line && k < |line| && !White(Last(line))
    ensures NonBlank(Split(line[k..] + [NEWLINE])) == [line[k..]] && NEWLINE in line[k..] + [NEWLINE]
  {
    hide NonBlank, Split, Blank, White;
    var end := line[k..];
    InkIsNotBlank(end, []);
    assert end + [] == end && forall i | 0 <= i < |end| :: end[i] == line[k + i];
    EndedLine(end);
    assert (end + [NEWLINE])[|end|] == NEWLINE;
  }
}

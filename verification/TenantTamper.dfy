/** Which edits of a tenant's lines a replay notices. */
module TenantTamper {
  // From nothing but the totals the lines carry.

  import opened Prelude
  import opened TenantBook

  /** The kinds that move the totals: a settle adds a run, a refusal adds to `refused`. */
  predicate Counted(line: Line) {
    line.Line? && (line.kind.Settle? || line.kind.Refuse?)
  }

  /** The number every line's block carries: how many counted lines there are up to and including it. */
  function Ticket(line: Line): int
    requires line.Line?
  {
    line.totals.runs + line.totals.refused
  }

  function Number(a: Account): int {
    a.runs + a.refused
  }

  function CountedOf(lines: seq<Line>): seq<Line> {
    if lines == [] then []
    else (if Counted(lines[0]) then [lines[0]] else []) + CountedOf(lines[1..])
  }

  predicate Replays(lines: seq<Line>) {
    AllParsed(lines) && ApplyAll(EMPTY, lines).Ok?
  }

  // ---------- the ticket of a line is its place ----------

  lemma ApplyCounts(a: Account, line: Line)
    requires line.Line? && Apply(a, line).Ok?
    ensures Number(Apply(a, line).value) == Number(a) + if Counted(line) then 1 else 0
    ensures Ticket(line) == Number(Apply(a, line).value)
  {
  }

  lemma {:induction false} NumberAfter(a: Account, lines: seq<Line>)
    requires AllParsed(lines) && ApplyAll(a, lines).Ok?
    ensures Number(ApplyAll(a, lines).value) == Number(a) + |CountedOf(lines)|
    decreases |lines|
  {
    if lines != [] {
      ApplyCounts(a, lines[0]);
      NumberAfter(Apply(a, lines[0]).value, lines[1..]);
    }
  }

  /** A replay reaches every line, in the account that the lines before it leave. */
  lemma Reaches(a: Account, p: seq<Line>, line: Line, q: seq<Line>)
    requires AllParsed(p + [line] + q)
    ensures AllParsed(p) && line.Line? && AllParsed(q)
    ensures ApplyAll(a, p + [line] + q).Ok? <==>
      && ApplyAll(a, p).Ok? && Apply(ApplyAll(a, p).value, line).Ok?
      && ApplyAll(Apply(ApplyAll(a, p).value, line).value, q).Ok?
  {
    ParsedConcat(p + [line], q);
    ParsedConcat(p, [line]);
    assert p + [line] + q == p + ([line] + q);
    ParsedConcat([line], q);
    ApplyConcat(a, p, [line] + q);
    assert ([line] + q)[0] == line && ([line] + q)[1..] == q;
  }

  /** In a book that replays, each line carries the number of counted lines up to it. */
  lemma TicketIsPlace(p: seq<Line>, line: Line, q: seq<Line>)
    requires Replays(p + [line] + q)
    ensures AllParsed(p) && line.Line?
    ensures Ticket(line) == |CountedOf(p)| + if Counted(line) then 1 else 0
  {
    Reaches(EMPTY, p, line, q);
    NumberAfter(EMPTY, p);
    ApplyCounts(ApplyAll(EMPTY, p).value, line);
  }

  lemma {:induction false} TicketOfCounted(a: Account, lines: seq<Line>, k: nat)
    requires AllParsed(lines) && ApplyAll(a, lines).Ok? && k < |CountedOf(lines)|
    ensures CountedOf(lines)[k].Line? && Ticket(CountedOf(lines)[k]) == Number(a) + k + 1
    decreases |lines|
  {
    ApplyCounts(a, lines[0]);
    var b := Apply(a, lines[0]).value;
    if !Counted(lines[0]) {
      TicketOfCounted(b, lines[1..], k);
    } else if k > 0 {
      assert CountedOf(lines)[k] == CountedOf(lines[1..])[k - 1];
      TicketOfCounted(b, lines[1..], k - 1);
    }
  }

  lemma {:induction false} CountedIn(lines: seq<Line>, line: Line)
    ensures line in CountedOf(lines) <==> line in lines && Counted(line)
  {
    if lines != [] {
      CountedIn(lines[1..], line);
      assert line in lines <==> line == lines[0] || line in lines[1..];
    }
  }

  /** Whatever selection, repetition and order of a book's own counted lines still replays, mixed with any other
      lines: its counted lines are the first ones of the book, in the book's order. */
  lemma CountedLinesAreAPrefix(book: seq<Line>, other: seq<Line>)
    requires Replays(book) && Replays(other)
    requires forall line :: line in other && Counted(line) ==> line in book
    ensures CountedOf(other) <= CountedOf(book)
  {
    var theirs := CountedOf(other);
    if theirs != [] {
      CountedLineAt(book, other, |theirs| - 1);
      forall k | 0 <= k < |theirs|
        ensures k < |CountedOf(book)| && CountedOf(book)[k] == theirs[k]
      {
        CountedLineAt(book, other, k);
      }
    }
  }

  lemma CountedLineAt(book: seq<Line>, other: seq<Line>, k: nat)
    requires Replays(book) && Replays(other) && k < |CountedOf(other)|
    requires forall line :: line in other && Counted(line) ==> line in book
    ensures k < |CountedOf(book)| && CountedOf(book)[k] == CountedOf(other)[k]
  {
    hide CountedOf, ApplyAll, AllParsed, Counted, Number, Ticket;
    EmptyNumber();
    var line := CountedOf(other)[k];
    CountedIn(other, line);
    CountedIn(book, line);
    TicketOfCounted(EMPTY, other, k);
    FoundByTicket(book, line);
  }

  lemma EmptyNumber()
    ensures Number(EMPTY) == 0
  {
  }

  lemma FoundByTicket(book: seq<Line>, line: Line)
    requires Replays(book) && line in CountedOf(book)
    ensures line.Line? && 1 <= Ticket(line) <= |CountedOf(book)| && CountedOf(book)[Ticket(line) - 1] == line
  {
    hide CountedOf, ApplyAll, AllParsed, Number, Ticket;
    EmptyNumber();
    var m :| 0 <= m < |CountedOf(book)| && CountedOf(book)[m] == line;
    TicketOfCounted(EMPTY, book, m);
  }

  lemma {:induction false} CountedConcat(a: seq<Line>, b: seq<Line>)
    ensures CountedOf(a + b) == CountedOf(a) + CountedOf(b)
  {
    if a == [] {
      assert a + b == b;
    } else {
      assert (a + b)[0] == a[0] && (a + b)[1..] == a[1..] + b;
      CountedConcat(a[1..], b);
      var head := if Counted(a[0]) then [a[0]] else [];
      assert head + (CountedOf(a[1..]) + CountedOf(b)) == head + CountedOf(a[1..]) + CountedOf(b);
    }
  }

  /** Swapping two counted lines is noticed. */
  lemma SwapIsNoticed(p: seq<Line>, x: Line, q: seq<Line>, y: Line, r: seq<Line>)
    requires Counted(x) && Counted(y) && Replays(p + [x] + (q + [y] + r))
    ensures !Replays(p + [y] + (q + [x] + r))
  {
    TicketIsPlace(p, x, q + [y] + r);
    var before := p + [x] + q;
    assert p + [x] + (q + [y] + r) == before + [y] + r;
    TicketIsPlace(before, y, r);
    CountedConcat(p + [x], q);
    CountedConcat(p, [x]);
    assert CountedOf([x]) == [x] + CountedOf([x][1..]);
    assert |CountedOf(before)| == |CountedOf(p)| + 1 + |CountedOf(q)|;
    if Replays(p + [y] + (q + [x] + r)) {
      TicketIsPlace(p, y, q + [x] + r);
    }
  }

  /** A copy of a counted line is noticed, wherever it is put. */
  lemma CopyIsNoticed(p: seq<Line>, x: Line, q: seq<Line>)
    requires Replays(p + q) && Counted(x) && x in p + q
    ensures !Replays(p + [x] + q)
  {
    CountedConcat(p + [x], q);
    CountedConcat(p, [x]);
    CountedConcat(p, q);
    assert CountedOf([x]) == [x] + CountedOf([x][1..]);
    assert |CountedOf(p + [x] + q)| == |CountedOf(p + q)| + 1;
    if Replays(p + [x] + q) {
      CountedLinesAreAPrefix(p + q, p + [x] + q);
    }
  }

  /** A settle with another charge under the same totals is noticed. */
  lemma ChargeEditIsNoticed(p: seq<Line>, line: Line, charge: Charge, q: seq<Line>)
    requires Replays(p + [line] + q) && line.Line? && line.kind.Settle? && charge != line.charge
    ensures !Replays(p + [line.(charge := charge)] + q)
  {
    var edited := line.(charge := charge);
    Reaches(EMPTY, p, line, q);
    if Replays(p + [edited] + q) {
      Reaches(EMPTY, p, edited, q);
    }
  }

  // ---------- exactly which deletions are noticed ----------

  lemma {:induction false} KeysOfPut(open: seq<Slot>, s: Slot, id: string)
    ensures IsOpen(PutSlot(open, s), id) <==> id == s.id || IsOpen(open, id)
  {
    if open != [] {
      KeysOfPut(open[1..], s, id);
      assert ([s] + open[1..])[1..] == open[1..];
      assert ([open[0]] + PutSlot(open[1..], s))[1..] == PutSlot(open[1..], s);
    }
  }

  lemma {:induction false} KeysOfDrop(open: seq<Slot>, key: string, id: string)
    ensures IsOpen(DropSlot(open, key), id) <==> id != key && IsOpen(open, id)
  {
    if open != [] {
      KeysOfDrop(open[1..], key, id);
      assert ([open[0]] + DropSlot(open[1..], key))[1..] == DropSlot(open[1..], key);
    }
  }

  /** The ids open after a line was folded. */
  predicate OpenAfter(a: Account, line: Line, id: string)
    requires line.Line?
  {
    if line.admitId != Some(id) || line.kind.Refuse? || line.kind.OtherKind? then IsOpen(a.open, id)
    else line.kind.Admit?
  }

  lemma FoldMovesKeys(a: Account, line: Line, id: string)
    requires line.Line? && Fold(a, line).Ok?
    ensures IsOpen(Fold(a, line).value.open, id) <==> OpenAfter(a, line, id)
  {
    if line.admitId.Some? {
      KeysOfPut(a.open, Slot(line.admitId.value, line.charge, line.expires), id);
      KeysOfDrop(a.open, line.admitId.value, id);
    }
  }

  /** Equal in everything the totals show. */
  predicate SameTotals(a: Account, b: Account) {
    a.(open := []) == b.(open := [])
  }

  /** Folding needs only the totals and, for a settle, that its id is open. */
  lemma FoldNeeds(a: Account, b: Account, line: Line)
    requires line.Line? && SameTotals(a, b) && Apply(a, line).Ok?
    ensures Apply(b, line).Ok? <==> (line.kind.Settle? ==> IsOpen(b.open, line.admitId.value))
    ensures Apply(b, line).Ok? ==> SameTotals(Apply(a, line).value, Apply(b, line).value)
  {
  }

  ghost predicate Wider(a: Account, b: Account) {
    SameTotals(a, b) && forall id :: IsOpen(a.open, id) ==> IsOpen(b.open, id)
  }

  /** More open admissions never make a replay fail. */
  lemma {:induction false} WiderReplays(a: Account, b: Account, lines: seq<Line>)
    requires AllParsed(lines) && Wider(a, b) && ApplyAll(a, lines).Ok?
    ensures ApplyAll(b, lines).Ok?
    decreases |lines|
  {
    if lines != [] {
      var line := lines[0];
      FoldNeeds(a, b, line);
      var a1, b1 := Apply(a, line).value, Apply(b, line).value;
      forall id | IsOpen(a1.open, id) ensures IsOpen(b1.open, id) {
        FoldMovesKeys(a, line, id);
        FoldMovesKeys(b, line, id);
      }
      WiderReplays(a1, b1, lines[1..]);
    }
  }

  /** An admit line with another charge and another expiry: noticed only when no charge can have that amount. Reserving
      nothing and lapsing at once are edits a replay accepts. */
  lemma AdmitEditIsNoticedIff(p: seq<Line>, line: Line, charge: Charge, expires: Option<int>, q: seq<Line>)
    requires Replays(p + [line] + q) && line.Line? && line.kind.Admit?
    ensures !Replays(p + [line.(charge := charge).(expires := expires)] + q) <==> !InRange(charge)
  {
    hide AllParsed, ApplyAll, InRange, PutSlot, IsOpen;
    var edited := line.(charge := charge).(expires := expires);
    Reaches(EMPTY, p, line, q);
    ParsedWithin(p, edited, q);
    Reaches(EMPTY, p, edited, q);
    var a := ApplyAll(EMPTY, p).value;
    if InRange(charge) {
      var b, c := Apply(a, line).value, Apply(a, edited).value;
      forall id | IsOpen(b.open, id) ensures IsOpen(c.open, id) {
        FoldMovesKeys(a, line, id);
        FoldMovesKeys(a, edited, id);
      }
      WiderReplays(b, c, q);
    }
  }

  lemma ParsedWithin(p: seq<Line>, line: Line, q: seq<Line>)
    requires AllParsed(p) && line.Line? && AllParsed(q)
    ensures AllParsed(p + [line] + q)
  {
    ParsedConcat(p, [line]);
    ParsedConcat(p + [line], q);
  }

  /** The first line that opens, books or drops admission `id`. */
  function FirstNaming(lines: seq<Line>, id: string): Option<Kind>
    requires AllParsed(lines)
  {
    if lines == [] then None
    else if lines[0].admitId == Some(id) && !lines[0].kind.Refuse? && !lines[0].kind.OtherKind? then Some(lines[0].kind)
    else FirstNaming(lines[1..], id)
  }

  /** `b` has open what `a` has, but not the admission `id`. */
  ghost predicate Lacks(a: Account, b: Account, id: string) {
    SameTotals(a, b) && !IsOpen(b.open, id) && forall k :: k != id && IsOpen(a.open, k) ==> IsOpen(b.open, k)
  }

  lemma {:induction false} LackingReplaysUnlessSettled(a: Account, b: Account, id: string, lines: seq<Line>)
    requires AllParsed(lines) && Lacks(a, b, id) && ApplyAll(a, lines).Ok?
    ensures ApplyAll(b, lines).Ok? <==> FirstNaming(lines, id) != Some(Settle)
    decreases |lines|
  {
    if lines != [] {
      var line := lines[0];
      FoldNeeds(a, b, line);
      if Apply(b, line).Ok? {
        var a1, b1 := Apply(a, line).value, Apply(b, line).value;
        forall k
          ensures (IsOpen(a1.open, k) <==> OpenAfter(a, line, k)) && (IsOpen(b1.open, k) <==> OpenAfter(b, line, k))
        {
          FoldMovesKeys(a, line, k);
          FoldMovesKeys(b, line, k);
        }
        if line.admitId == Some(id) && !line.kind.Refuse? {
          WiderReplays(a1, b1, lines[1..]);
        } else {
          LackingReplaysUnlessSettled(a1, b1, id, lines[1..]);
        }
      }
    }
  }

  /** When the loss of `line`, found between `p` and `q`, shows: a counted line as soon as anything follows, an expire
      line never, an admit line when its id was not open before and the next line naming it is a settle. */
  predicate LossShows(p: seq<Line>, line: Line, q: seq<Line>)
    requires AllParsed(p) && ApplyAll(EMPTY, p).Ok? && line.Line? && (line.admitId.Some? || Counted(line))
    requires AllParsed(q)
  {
    if Counted(line) then q != []
    else if line.kind.Expire? then false
    else
      && !IsOpen(ApplyAll(EMPTY, p).value.open, line.admitId.value)
      && FirstNaming(q, line.admitId.value) == Some(Settle)
  }

  lemma WithoutCounted(p: seq<Line>, line: Line, q: seq<Line>)
    requires Replays(p + [line] + q) && Counted(line) && q != []
    ensures !Replays(p + q)
  {
    var x, r := q[0], q[1..];
    assert p + q == p + [x] + r;
    assert p + [line] + q == (p + [line]) + [x] + r;
    TicketIsPlace(p + [line], x, r);
    CountedConcat(p, [line]);
    assert CountedOf([line]) == [line] + CountedOf([line][1..]);
    if Replays(p + q) {
      TicketIsPlace(p, x, r);
    }
  }

  /** Deleting one line of a book that replays is noticed exactly when `LossShows`. */
  lemma {:induction false} DeletionIsNoticedIff(p: seq<Line>, line: Line, q: seq<Line>)
    requires Replays(p + [line] + q)
    ensures AllParsed(p) && AllParsed(q) && ApplyAll(EMPTY, p).Ok?
    ensures line.Line? && (line.admitId.Some? || Counted(line))
    ensures !Replays(p + q) <==> LossShows(p, line, q)
  {
    Reaches(EMPTY, p, line, q);
    ParsedConcat(p, q);
    ApplyConcat(EMPTY, p, q);
    var a := ApplyAll(EMPTY, p).value;
    var a1 := Apply(a, line).value;
    if Counted(line) {
      if q == [] {
        assert p + q == p;
      } else {
        WithoutCounted(p, line, q);
      }
    } else {
      var id := line.admitId.value;
      forall k ensures IsOpen(a1.open, k) <==> OpenAfter(a, line, k) {
        FoldMovesKeys(a, line, k);
      }
      if line.kind.Expire? || IsOpen(a.open, id) {
        WiderReplays(a1, a, q);
      } else {
        LackingReplaysUnlessSettled(a1, a, id, q);
      }
    }
  }

  // ---------- edits of one line ----------

  /** The line with what a replay never reads taken out. */
  function Stripped(line: Line): Line
    requires line.Line?
  {
    Line(line.versionKnown, line.kind, line.tenant,
         if line.kind.Refuse? then None else line.admitId,
         if line.kind.Expire? || line.kind.Refuse? then ZERO else line.charge,
         if line.kind.Admit? then line.expires else None,
         line.kind.Settle? && line.violation, line.kind.Settle? && line.unknown, line.totals, 0)
  }

  /** A stamp, the flags of a line that settles nothing, the expiry of one that admits nothing and the amounts of one
      that does neither can be edited unseen: every account folds both lines alike. */
  lemma {:induction false} UnreadEditIsUnseen(p: seq<Line>, x: Line, y: Line, q: seq<Line>)
    requires Replays(p + [x] + q) && x.Line? && y.Line? && !x.kind.OtherKind? && Stripped(x) == Stripped(y)
    ensures Replays(p + [y] + q)
    ensures ApplyAll(EMPTY, p + [y] + q) == ApplyAll(EMPTY, p + [x] + q)
  {
    Reaches(EMPTY, p, x, q);
    ParsedWithin(p, y, q);
    Reaches(EMPTY, p, y, q);
    var a := ApplyAll(EMPTY, p).value;
    assert Apply(a, x) == Apply(a, y);
    AfterMiddle(EMPTY, p, x, q);
    AfterMiddle(EMPTY, p, y, q);
  }

  lemma AfterMiddle(a: Account, p: seq<Line>, line: Line, q: seq<Line>)
    requires AllParsed(p + [line] + q) && ApplyAll(a, p + [line] + q).Ok?
    ensures AllParsed(p) && line.Line? && AllParsed(q)
    ensures ApplyAll(a, p).Ok? && Apply(ApplyAll(a, p).value, line).Ok?
    ensures ApplyAll(a, p + [line] + q) == ApplyAll(Apply(ApplyAll(a, p).value, line).value, q)
  {
    Reaches(a, p, line, q);
    assert p + [line] + q == p + ([line] + q);
    ParsedConcat([line], q);
    ApplyConcat(a, p, [line] + q);
    assert ([line] + q)[0] == line && ([line] + q)[1..] == q;
  }

  /** A settle with another flag under the same totals is noticed. */
  lemma FlagEditIsNoticed(p: seq<Line>, line: Line, violation: bool, unknown: bool, q: seq<Line>)
    requires Replays(p + [line] + q) && line.Line? && line.kind.Settle?
    requires violation != line.violation || unknown != line.unknown
    ensures !Replays(p + [line.(violation := violation).(unknown := unknown)] + q)
  {
    var edited := line.(violation := violation).(unknown := unknown);
    Reaches(EMPTY, p, line, q);
    if Replays(p + [edited] + q) {
      Reaches(EMPTY, p, edited, q);
    }
  }

  /** When naming another admission in `line`, found between `p` and `q`, shows. */
  predicate IdEditShows(p: seq<Line>, line: Line, other: string, q: seq<Line>)
    requires AllParsed(p) && ApplyAll(EMPTY, p).Ok? && line.Line? && (line.admitId.Some? || line.kind.Refuse?)
    requires AllParsed(q)
  {
    var open := ApplyAll(EMPTY, p).value.open;
    match line.kind
    case Admit => !IsOpen(open, line.admitId.value) && FirstNaming(q, line.admitId.value) == Some(Settle)
    case Settle => !IsOpen(open, other) || FirstNaming(q, other) == Some(Settle)
    case Expire => IsOpen(open, other) && FirstNaming(q, other) == Some(Settle)
    case _ => false
  }

  /** Naming another admission in a line is noticed exactly when `IdEditShows`: in an admit line when the admission it
      opened is settled next, in an expire line when the one it drops instead is open and is settled next, in a settle
      line when the one it books instead is not open or is settled again next. */
  lemma {:induction false} IdEditIsNoticedIff(p: seq<Line>, line: Line, other: string, q: seq<Line>)
    requires Replays(p + [line] + q) && line.Line? && line.admitId != Some(other)
    ensures AllParsed(p) && AllParsed(q) && ApplyAll(EMPTY, p).Ok? && (line.admitId.Some? || line.kind.Refuse?)
    ensures !Replays(p + [line.(admitId := Some(other))] + q) <==> IdEditShows(p, line, other, q)
  {
    hide InRange, PutSlot, DropSlot, FirstNaming;
    var edited := line.(admitId := Some(other));
    Reaches(EMPTY, p, line, q);
    ParsedWithin(p, edited, q);
    Reaches(EMPTY, p, edited, q);
    var a := ApplyAll(EMPTY, p).value;
    if Apply(a, edited).Ok? {
      var b, c := Apply(a, line).value, Apply(a, edited).value;
      forall k
        ensures (IsOpen(b.open, k) <==> OpenAfter(a, line, k)) && (IsOpen(c.open, k) <==> OpenAfter(a, edited, k))
      {
        FoldMovesKeys(a, line, k);
        FoldMovesKeys(a, edited, k);
      }
      match line.kind
      case Admit =>
        if IsOpen(a.open, line.admitId.value) {
          WiderReplays(b, c, q);
        } else {
          LackingReplaysUnlessSettled(b, c, line.admitId.value, q);
        }
      case Settle => LackingReplaysUnlessSettled(b, c, other, q);
      case Expire =>
        if IsOpen(a.open, other) {
          LackingReplaysUnlessSettled(b, c, other, q);
        } else {
          WiderReplays(b, c, q);
        }
      case _ => WiderReplays(b, c, q);
    }
  }

  // ---------- order ----------

  lemma {:induction false} CountedOfPrefix(a: seq<Line>, b: seq<Line>)
    ensures CountedOf(a) <= CountedOf(a + b)
  {
    CountedConcat(a, b);
  }

  /** In whatever arrangement of a book's lines still replays, every line of the book stands after exactly the counted
      lines it stood after in the book. */
  lemma {:induction false} EveryLineKeepsItsPlace(
    p: seq<Line>, line: Line, q: seq<Line>, before: seq<Line>, after: seq<Line>)
    requires Replays(p + [line] + q) && Replays(before + [line] + after)
    requires forall x :: x in before + [line] + after && Counted(x) ==> x in p + [line] + q
    ensures CountedOf(before) == CountedOf(p)
  {
    hide CountedOf, ApplyAll, AllParsed, Counted;
    var book, other := p + [line] + q, before + [line] + after;
    TicketIsPlace(p, line, q);
    TicketIsPlace(before, line, after);
    CountedLinesAreAPrefix(book, other);
    CountedOfPrefix(p, [line] + q);
    Regroup(p, [line], q);
    CountedOfPrefix(before, [line] + after);
    Regroup(before, [line], after);
    SamePrefix(CountedOf(before), CountedOf(p), CountedOf(other), CountedOf(book));
  }

  lemma SamePrefix<T>(a: seq<T>, b: seq<T>, c: seq<T>, d: seq<T>)
    requires |a| == |b| && a <= c <= d && b <= d
    ensures a == b
  {
  }

  lemma ReachesTwo(p: seq<Line>, x: Line, y: Line, q: seq<Line>)
    requires AllParsed(p) && ApplyAll(EMPTY, p).Ok? && x.Line? && y.Line? && AllParsed(q)
    ensures var a := ApplyAll(EMPTY, p).value;
      Replays(p + [x, y] + q) <==>
      Apply(a, x).Ok? && Apply(Apply(a, x).value, y).Ok? && ApplyAll(Apply(Apply(a, x).value, y).value, q).Ok?
  {
    hide Apply;
    assert p + [x, y] + q == p + [x] + ([y] + q);
    ParsedWithin([], y, q);
    assert [] + [y] + q == [y] + q;
    ParsedWithin(p, x, [y] + q);
    Reaches(EMPTY, p, x, [y] + q);
    assert ([y] + q)[0] == y && ([y] + q)[1..] == q;
  }

  /** Two neighbours that are not counted can change places unseen, unless one drops the admission that the next one
      gives again and a settle of it follows. */
  lemma {:induction false} SwapUncountedIsNoticedIff(p: seq<Line>, x: Line, y: Line, q: seq<Line>)
    requires Replays(p + [x, y] + q) && !Counted(x) && !Counted(y)
    ensures AllParsed(q) && x.Line? && y.Line?
    ensures !Replays(p + [y, x] + q) <==>
      && x.kind.Expire? && y.kind.Admit? && x.admitId == y.admitId && x.admitId.Some?
      && FirstNaming(q, x.admitId.value) == Some(Settle)
  {
    hide InRange, PutSlot, DropSlot, FirstNaming, ApplyAll, AllParsed, IsOpen;
    PartsAreParsed(p, x, y, q);
    ReachesTwo(p, x, y, q);
    ReachesTwo(p, y, x, q);
    var a := ApplyAll(EMPTY, p).value;
    var b, c := Apply(a, x).value, Apply(a, y).value;
    UncountedApplies(a, x, y);
    UncountedApplies(a, y, x);
    var xy, yx := Apply(b, y).value, Apply(c, x).value;
    forall k
      ensures (IsOpen(xy.open, k) <==> OpenAfter(b, y, k)) && (IsOpen(yx.open, k) <==> OpenAfter(c, x, k))
      ensures (IsOpen(b.open, k) <==> OpenAfter(a, x, k)) && (IsOpen(c.open, k) <==> OpenAfter(a, y, k))
    {
      FoldMovesKeys(a, x, k);
      FoldMovesKeys(b, y, k);
      FoldMovesKeys(a, y, k);
      FoldMovesKeys(c, x, k);
    }
    if x.kind.Expire? && y.kind.Admit? && x.admitId == y.admitId {
      LackingReplaysUnlessSettled(xy, yx, x.admitId.value, q);
    } else {
      WiderReplays(xy, yx, q);
    }
  }

  lemma PartsAreParsed(p: seq<Line>, x: Line, y: Line, q: seq<Line>)
    requires Replays(p + [x, y] + q)
    ensures AllParsed(p) && ApplyAll(EMPTY, p).Ok? && x.Line? && y.Line? && AllParsed(q)
  {
    assert p + [x, y] + q == p + [x] + ([y] + q);
    Reaches(EMPTY, p, x, [y] + q);
    assert ([y] + q)[0] == y && ([y] + q)[1..] == q;
  }

  /** An uncounted line that applies after another one applies before it too. */
  lemma UncountedApplies(a: Account, x: Line, y: Line)
    requires x.Line? && y.Line? && !Counted(x) && !Counted(y)
    requires Apply(a, x).Ok?
    ensures SameTotals(a, Apply(a, x).value) && (x.kind.Admit? || x.kind.Expire?) && x.admitId.Some?
    ensures Apply(Apply(a, x).value, y).Ok? <==> Apply(a, y).Ok?
  {
    hide InRange, PutSlot, DropSlot;
  }

  /** The same for the file, in which tenants share one book: only the line's own tenant can notice. */
  lemma {:induction false} BookDeletionIsNoticedIff(p: seq<Line>, line: Line, q: seq<Line>, reader: string)
    requires ReplayOf(p + [line] + q, reader).Ok?
    ensures AllParsed(p) && AllParsed(q) && line.Line?
    ensures line.tenant != Some(reader) ==> ReplayOf(p + q, reader) == ReplayOf(p + [line] + q, reader)
    ensures line.tenant == Some(reader) ==>
      var mine, after := LinesOf(p, reader), LinesOf(q, reader);
      && ApplyAll(EMPTY, mine).Ok? && (line.admitId.Some? || Counted(line))
      && (ReplayOf(p + q, reader).Err? <==> LossShows(mine, line, after))
  {
    ParsedConcat(p + [line], q);
    ParsedConcat(p, [line]);
    ParsedConcat(p, q);
    LinesConcat(p + [line], q, reader);
    LinesConcat(p, [line], reader);
    LinesConcat(p, q, reader);
    var mine, after := LinesOf(p, reader), LinesOf(q, reader);
    assert LinesOf([line], reader) == if line.tenant == Some(reader) then [line] else [];
    if line.tenant == Some(reader) {
      DeletionIsNoticedIff(mine, line, after);
    } else {
      assert mine + [] == mine;
    }
  }
}

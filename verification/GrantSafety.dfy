/** What holds of the grant book after every run. */
module GrantSafety {
  // Any number of writers; also which edits the two checks of the book notice.

  import opened Prelude
  import opened GrantBook
  import WP = WriterProtocol

  type History = WP.History<Op, Line>

  ghost predicate Valid(h: History, now: int) {
    WP.Valid(Decide, h, now)
  }

  // ---------- the two readings agree ----------

  /** A replay that does not raise returns what the lines imply. */
  lemma {:induction false} ReplayIsImplied(book: seq<Line>, id: string)
    ensures ReplayOf(book, id).Ok? ==> ReplayOf(book, id).value == Implied(book, id)
    decreases |book|
  {
    if book != [] {
      ReplayIsImplied(Front(book), id);
    }
  }

  /** Some line stops the replay of `id`: it is not JSON, or it names the grant and does not agree. */
  predicate Stops(book: seq<Line>, id: string) {
    book != [] &&
    (|| Stops(Front(book), id)
     || Last(book).NotJson?
     || (Names(Last(book), id) && BadAfter(Front(book), Last(book))))
  }

  lemma {:induction false} ReplayRaisesIff(book: seq<Line>, id: string)
    ensures ReplayOf(book, id).Err? <==> Stops(book, id)
    decreases |book|
  {
    if book != [] {
      ReplayRaisesIff(Front(book), id);
      ReplayIsImplied(Front(book), id);
    }
  }

  predicate AllNamed(book: seq<Line>) {
    book == [] || (AllNamed(Front(book)) && Last(book).Line?)
  }

  ghost predicate AllReplay(book: seq<Line>) {
    forall id :: ReplayOf(book, id) == Ok(Implied(book, id))
  }

  lemma AllReplayOneMore(front: seq<Line>, line: Line)
    requires line.Line?
    ensures AllReplay(front + [line]) <==> AllReplay(front) && !BadAfter(front, line)
  {
    hide ReplayOf, Implied, ApplyLine;
    if AllReplay(front + [line]) {
      forall id ensures ReplayOf(front, id) == Ok(Implied(front, id)) {
        OneMore(front, line, id);
        ReplayIsImplied(front, id);
      }
      OneMore(front, line, line.grantId);
    }
    if AllReplay(front) && !BadAfter(front, line) {
      forall id ensures ReplayOf(front + [line], id) == Ok(Implied(front + [line], id)) {
        OneMore(front, line, id);
      }
    }
  }

  /** `verify` reports nothing exactly when every line names a grant and every grant's replay succeeds, with the very
      state that the one pass holds for it. */
  lemma {:induction false} VerifyAgreesWithReplay(book: seq<Line>)
    ensures Problems(book) == [] <==> AllNamed(book) && AllReplay(book)
    decreases |book|
  {
    if book != [] {
      var front, line := Front(book), Last(book);
      assert book == front + [line];
      VerifyAgreesWithReplay(front);
      if line.Line? {
        AllReplayOneMore(front, line);
      }
    }
  }

  // ---------- editing one call line ----------

  lemma {:induction false} EditKeepsImplied(p: seq<Line>, line: Line, booked: Booked, q: seq<Line>, id: string)
    requires line.Line? && line.kind.Call?
    ensures Implied(p + [line.(booked := booked)] + q, id) == Implied(p + [line] + q, id)
    decreases |q|
  {
    if q == [] {
      OneMore(p, line, id);
      OneMore(p, line.(booked := booked), id);
      assert p + [line] + q == p + [line] && p + [line.(booked := booked)] + q == p + [line.(booked := booked)];
    } else {
      EditKeepsImplied(p, line, booked, Front(q), id);
      Extend(p, line, q, id);
      Extend(p, line.(booked := booked), q, id);
    }
  }

  /** `OneMore` for a book with a marked line. */
  lemma Extend(p: seq<Line>, line: Line, q: seq<Line>, id: string)
    requires q != []
    ensures var before, book, last := p + [line] + Front(q), p + [line] + q, Last(q);
      && |book| == |before| + 1
      && Implied(book, id) == (if Names(last, id) then ApplyLine(Implied(before, id), last).0 else Implied(before, id))
      && Problems(book) == Problems(before) + (if BadAfter(before, last) then [|book|] else [])
      && ReplayOf(book, id) == match ReplayOf(before, id) {
           case Err(n) => Err(n)
           case Ok(s) =>
             if last.NotJson? then Err(|book|)
             else if !Names(last, id) then Ok(s)
             else if ApplyLine(s, last).1 then Err(|book|)
             else Ok(ApplyLine(s, last).0)
         }
  {
    assert p + [line] + q == (p + [line] + Front(q)) + [Last(q)];
    OneMore(p + [line] + Front(q), Last(q), id);
  }

  lemma {:induction false} PrefixIsClean(p: seq<Line>, line: Line, q: seq<Line>)
    requires Problems(p + [line] + q) == []
    ensures Problems(p + [line]) == [] && Problems(p) == [] && !BadAfter(p, line)
    ensures q != [] ==> Problems(p + [line] + Front(q)) == [] && !BadAfter(p + [line] + Front(q), Last(q))
    decreases |q|
  {
    if q == [] {
      assert p + [line] + q == p + [line];
      OneMore(p, line, "");
    } else {
      Extend(p, line, q, "");
      PrefixIsClean(p, line, Front(q));
    }
  }

  /** In a book without problems, altering the count that one call line books gives exactly one problem, at that
      line, makes the replay of its grant raise there, and leaves every other grant's replay as it was. */
  lemma {:induction false} OneEditOneProblem(p: seq<Line>, line: Line, booked: Booked, q: seq<Line>)
    requires Problems(p + [line] + q) == [] && line.Line? && line.kind.Call? && booked != line.booked
    ensures var edited := p + [line.(booked := booked)] + q;
      && Problems(edited) == [|p| + 1]
      && ReplayOf(edited, line.grantId) == Err(|p| + 1)
      && forall id :: id != line.grantId ==> ReplayOf(edited, id) == ReplayOf(p + [line] + q, id)
    decreases |q|
  {
    hide ReplayOf, Implied, ApplyLine, Problems, BadAfter;
    PrefixIsClean(p, line, q);
    var line2 := line.(booked := booked);
    if q == [] {
      assert p + [line] + q == p + [line] && p + [line2] + q == p + [line2];
      EditLast(p, line, booked);
    } else {
      OneEditOneProblem(p, line, booked, Front(q));
      EditEarlier(p, line, booked, q);
    }
  }

  lemma EditLast(p: seq<Line>, line: Line, booked: Booked)
    requires Problems(p) == [] && line.Line? && line.kind.Call? && booked != line.booked && !BadAfter(p, line)
    ensures var edited := p + [line.(booked := booked)];
      && Problems(edited) == [|p| + 1]
      && ReplayOf(edited, line.grantId) == Err(|p| + 1)
      && forall id :: id != line.grantId ==> ReplayOf(edited, id) == ReplayOf(p + [line], id)
  {
    hide ReplayOf, Implied, Problems;
    var line2 := line.(booked := booked);
    VerifyAgreesWithReplay(p);
    assert ReplayOf(p, line.grantId) == Ok(Implied(p, line.grantId));
    OneMore(p, line2, line.grantId);
    forall id | id != line.grantId ensures ReplayOf(p + [line2], id) == ReplayOf(p + [line], id) {
      OneMore(p, line, id);
      OneMore(p, line2, id);
    }
  }

  lemma EditEarlier(p: seq<Line>, line: Line, booked: Booked, q: seq<Line>)
    requires q != [] && line.Line? && line.kind.Call?
    requires !BadAfter(p + [line] + Front(q), Last(q))
    ensures var line2 := line.(booked := booked);
      var edited, shorter := p + [line2] + q, p + [line2] + Front(q);
      && Problems(edited) == Problems(shorter)
      && (ReplayOf(shorter, line.grantId).Err? ==> ReplayOf(edited, line.grantId) == ReplayOf(shorter, line.grantId))
      && forall id :: ReplayOf(shorter, id) == ReplayOf(p + [line] + Front(q), id) ==>
           ReplayOf(edited, id) == ReplayOf(p + [line] + q, id)
  {
    hide ReplayOf, Implied, Problems;
    var line2 := line.(booked := booked);
    var last := Last(q);
    assert last.Line?;
    EditKeepsImplied(p, line, booked, Front(q), last.grantId);
    Extend(p, line2, q, line.grantId);
    forall id | ReplayOf(p + [line2] + Front(q), id) == ReplayOf(p + [line] + Front(q), id)
      ensures ReplayOf(p + [line2] + q, id) == ReplayOf(p + [line] + q, id)
    {
      Extend(p, line, q, id);
      Extend(p, line2, q, id);
    }
  }

  // ---------- deleting a call line ----------

  /** A line that carries the count of the grant: a call, or a refusal at the cap. */
  predicate CarriesCount(line: Line, id: string) {
    Names(line, id) && (line.kind.Call? || (line.kind.Refuse? && !line.booked.Absent?))
  }

  predicate CountFollows(q: seq<Line>, id: string) {
    q != [] && (CountFollows(Front(q), id) || CarriesCount(Last(q), id))
  }

  /** Deleting a call line is noticed exactly when a later line of the grant carries its count. */
  lemma {:induction false} CallDeletionIsNoticedIff(p: seq<Line>, line: Line, q: seq<Line>)
    requires line.Line? && line.kind.Call? && ReplayOf(p + [line] + q, line.grantId).Ok?
    ensures ReplayOf(p + q, line.grantId).Err? <==> CountFollows(q, line.grantId)
    ensures !CountFollows(q, line.grantId) ==>
      var with, without := ReplayOf(p + [line] + q, line.grantId).value, ReplayOf(p + q, line.grantId).value;
      without == with.(calls := with.calls - 1)
    decreases |q|
  {
    hide ReplayOf, Implied, Problems;
    var id := line.grantId;
    if q == [] {
      assert p + [line] + q == p + [line] && p + q == p;
      OneMore(p, line, id);
    } else {
      Extend(p, line, q, id);
      CallDeletionIsNoticedIff(p, line, Front(q));
      assert p + q == (p + Front(q)) + [Last(q)];
      OneMore(p + Front(q), Last(q), id);
    }
  }

  // ---------- deleting a refuse or revoke line ----------

  /** A line that moves nothing: its loss shows nowhere. */
  lemma {:induction false} IdleLossIsUnseen(p: seq<Line>, line: Line, q: seq<Line>)
    requires line.Line? && ReplayOf(p + [line] + q, line.grantId).Ok? && ReplayOf(p, line.grantId).Ok?
    requires ApplyLine(ReplayOf(p, line.grantId).value, line).0 == ReplayOf(p, line.grantId).value
    ensures ReplayOf(p + q, line.grantId) == ReplayOf(p + [line] + q, line.grantId)
    decreases |q|
  {
    hide ReplayOf, Implied, Problems, ApplyLine;
    var id := line.grantId;
    if q == [] {
      assert p + [line] + q == p + [line] && p + q == p;
      OneMore(p, line, id);
    } else {
      Extend(p, line, q, id);
      IdleLossIsUnseen(p, line, Front(q));
      assert p + q == (p + Front(q)) + [Last(q)];
      OneMore(p + Front(q), Last(q), id);
    }
  }

  lemma {:induction false} PrefixReplays(p: seq<Line>, line: Line, q: seq<Line>, id: string)
    requires ReplayOf(p + [line] + q, id).Ok?
    ensures ReplayOf(p, id).Ok? && (Names(line, id) ==> !ApplyLine(ReplayOf(p, id).value, line).1)
    decreases |q|
  {
    hide ReplayOf, Implied, Problems, ApplyLine;
    if q == [] {
      assert p + [line] + q == p + [line];
      OneMore(p, line, id);
    } else {
      Extend(p, line, q, id);
      PrefixReplays(p, line, Front(q), id);
    }
  }

  /** Deleting a refuse line is never noticed and changes no state. */
  lemma RefusalLossIsUnseen(p: seq<Line>, line: Line, q: seq<Line>)
    requires line.Line? && line.kind.Refuse? && ReplayOf(p + [line] + q, line.grantId).Ok?
    ensures ReplayOf(p + q, line.grantId) == ReplayOf(p + [line] + q, line.grantId)
  {
    hide ReplayOf;
    PrefixReplays(p, line, q, line.grantId);
    IdleLossIsUnseen(p, line, q);
  }

  /** The stamp of the first revocation of the grant that carries one. */
  function FirstStamp(q: seq<Line>, id: string): Stamped {
    if q == [] then Missing
    else if !FirstStamp(Front(q), id).Missing? then FirstStamp(Front(q), id)
    else if Names(Last(q), id) && Last(q).kind.Revoke? then Last(q).at
    else Missing
  }

  /** What the revocation field is when `line`, which set it, is gone. */
  function RevokedBy(stamp: Stamped): Option<int> {
    if stamp.At? then Some(stamp.moment) else None
  }

  lemma {:induction false} RevocationLoss(p: seq<Line>, line: Line, q: seq<Line>)
    requires line.Line? && line.kind.Revoke? && line.at.At? && ReplayOf(p + [line] + q, line.grantId).Ok?
    requires ReplayOf(p, line.grantId).Ok? && ReplayOf(p, line.grantId).value.revokedAt.None?
    ensures var with, without := ReplayOf(p + [line] + q, line.grantId), ReplayOf(p + q, line.grantId);
      && with.value.revokedAt.Some?
      && (without.Err? <==> FirstStamp(q, line.grantId).BadStamp?)
      && (without.Ok? ==> without.value == with.value.(revokedAt := RevokedBy(FirstStamp(q, line.grantId))))
    decreases |q|
  {
    hide ReplayOf, Implied, Problems;
    var id := line.grantId;
    if q == [] {
      assert p + [line] + q == p + [line] && p + q == p;
      OneMore(p, line, id);
    } else {
      Extend(p, line, q, id);
      RevocationLoss(p, line, Front(q));
      assert p + q == (p + Front(q)) + [Last(q)];
      OneMore(p + Front(q), Last(q), id);
    }
  }

  /** Deleting a revoke line is noticed exactly when it was the one that counted and the next stamped revocation of the
      grant has an unreadable stamp. Otherwise the replay goes on, and the grant is revoked from the next readable stamp
      on, or not at all. */
  lemma RevokeDeletionIsNoticedIff(p: seq<Line>, line: Line, q: seq<Line>)
    requires line.Line? && line.kind.Revoke? && ReplayOf(p + [line] + q, line.grantId).Ok?
    ensures ReplayOf(p, line.grantId).Ok?
    ensures var counted := line.at.At? && ReplayOf(p, line.grantId).value.revokedAt.None?;
      var with, without := ReplayOf(p + [line] + q, line.grantId), ReplayOf(p + q, line.grantId);
      && (without.Err? <==> counted && FirstStamp(q, line.grantId).BadStamp?)
      && (without.Ok? ==>
            without.value ==
            (if counted then with.value.(revokedAt := RevokedBy(FirstStamp(q, line.grantId))) else with.value))
  {
    hide ReplayOf, FirstStamp;
    PrefixReplays(p, line, q, line.grantId);
    if line.at.At? && ReplayOf(p, line.grantId).value.revokedAt.None? {
      RevocationLoss(p, line, q);
    } else {
      IdleLossIsUnseen(p, line, q);
    }
  }

  // ---------- every interleaving ----------

  predicate RevokedIn(book: seq<Line>, id: string) {
    book != [] && (RevokedIn(Front(book), id) || (Names(Last(book), id) && Last(book).kind.Revoke?))
  }

  lemma {:induction false} ImpliedCounts(book: seq<Line>, id: string)
    ensures Implied(book, id).calls == CallsIn(book, id)
    decreases |book|
  {
    if book != [] {
      ImpliedCounts(Front(book), id);
    }
  }

  /** This writer always stamps a revocation, and its other lines agree with the book they were decided on. */
  lemma WrittenLine(op: Op, book: seq<Line>, time: int)
    requires Decide(op, book, time).Ok?
    ensures var line := Decide(op, book, time).value;
      && line.Line? && (line.kind.Revoke? ==> !line.at.Missing?)
      && (BadAfter(book, line) <==> op.RevokeGrant? && op.clock.Naive? && Implied(book, op.grantId).revokedAt.None?)
  {
    hide ReplayOf, Implied;
    if op.RecordCall? {
      ReplayIsImplied(book, op.grant.grantId);
    }
  }

  /** So it either counts or stops the replay. */
  lemma {:induction false} RevocationHolds(h: History, now: int, id: string)
    requires Valid(h, now)
    ensures var book := WP.Lines(h);
      RevokedIn(book, id) && ReplayOf(book, id).Ok? ==> ReplayOf(book, id).value.revokedAt.Some?
  {
    match h
    case Start =>
    case Then(before, op, time, line) =>
      hide ReplayOf, RevokedIn, Decide;
      RevocationHolds(before, time, id);
      WrittenLine(op, WP.Lines(before), time);
      OneMore(WP.Lines(before), line, id);
      RevokedOneMore(WP.Lines(before), line, id);
  }

  lemma RevokedOneMore(book: seq<Line>, line: Line, id: string)
    ensures RevokedIn(book + [line], id) <==> RevokedIn(book, id) || (Names(line, id) && line.kind.Revoke?)
  {
    assert Front(book + [line]) == book && Last(book + [line]) == line;
  }

  /** What an approval rests on, in terms of the lines before it and of the grant that was presented. */
  predicate Rightful(op: Op, before: seq<Line>, line: Line) {
    line.Line? && line.kind.Call? ==>
      && op.RecordCall? && line.grantId == op.grant.grantId
      && line.booked == Whole(CallsIn(before, line.grantId) + 1)
      && (op.grant.maxCalls.Some? ==> CallsIn(before, line.grantId) + 1 <= op.grant.maxCalls.value)
      && (op.grant.notBefore.Bound? ==> op.clock.Aware? && op.grant.notBefore.moment <= op.clock.moment)
      && (op.grant.notAfter.Bound? ==> op.clock.Aware? && op.clock.moment < op.grant.notAfter.moment)
      && !op.grant.notBefore.Malformed? && !op.grant.notAfter.Malformed?
      && !RevokedIn(before, line.grantId)
  }

  /** What stands behind an approval, in terms of the replayed state. */
  lemma Approved(op: Op, book: seq<Line>, time: int)
    requires Decide(op, book, time).Ok? && Decide(op, book, time).value.kind.Call?
    ensures op.RecordCall? && ReplayOf(book, op.grant.grantId).Ok?
    ensures var g, s, line := op.grant, ReplayOf(book, op.grant.grantId).value, Decide(op, book, time).value;
      && line.grantId == g.grantId && line.booked == Whole(s.calls + 1) && s.revokedAt.None?
      && (g.maxCalls.Some? ==> s.calls + 1 <= g.maxCalls.value)
      && (g.notBefore.Bound? ==> op.clock.Aware? && g.notBefore.moment <= op.clock.moment)
      && (g.notAfter.Bound? ==> op.clock.Aware? && op.clock.moment < g.notAfter.moment)
      && !g.notBefore.Malformed? && !g.notAfter.Malformed?
  {
    hide ReplayOf;
  }

  /** On a book that replays, with bounds that parse, a call is approved exactly when the grant is not revoked, the
      clock lies in the window and one call is left; the approval then books the next count, and a refusal spends
      nothing. */
  lemma ApprovesExactly(g: Grant, clock: Clock, book: seq<Line>)
    requires ReplayOf(book, g.grantId).Ok? && !g.notBefore.Malformed? && !g.notAfter.Malformed?
    ensures var s, r := ReplayOf(book, g.grantId).value, Charge(g, clock, book);
      && (r.Ok? && r.value.0.allowed <==>
            && s.revokedAt.None?
            && (g.notBefore.Bound? ==> clock.Aware? && g.notBefore.moment <= clock.moment)
            && (g.notAfter.Bound? ==> clock.Aware? && clock.moment < g.notAfter.moment)
            && (g.maxCalls.Some? ==> CallsIn(book, g.grantId) < g.maxCalls.value))
      && (r.Ok? ==> var (decision, line) := r.value;
            && decision.calls == CallsIn(book + [line], g.grantId)
            && decision.calls == CallsIn(book, g.grantId) + (if decision.allowed then 1 else 0)
            && (decision.limit == Some(Revoked) <==> s.revokedAt.Some?)
            && (decision.limit == Some(NotBefore) <==> s.revokedAt.None? && Early(g, clock))
            && (decision.limit == Some(Expired) <==> s.revokedAt.None? && !Early(g, clock) && Late(g, clock))
            && (decision.limit == Some(MaxCalls) <==>
                  s.revokedAt.None? && !Early(g, clock) && !Late(g, clock) &&
                  g.maxCalls.Some? && CallsIn(book, g.grantId) >= g.maxCalls.value)
            && (decision.allowed <==> decision.limit.None?))
      && (r.Err? <==> s.revokedAt.None? && clock.Naive? && (g.notBefore.Bound? || g.notAfter.Bound?))
  {
    hide ReplayOf, CallsIn;
    ReplayIsImplied(book, g.grantId);
    ImpliedCounts(book, g.grantId);
    var r := Charge(g, clock, book);
    if r.Ok? {
      CallsOneMore(book, r.value.1, g.grantId);
    }
  }

  /** Before the lower bound, at or past the upper one. */
  predicate Early(g: Grant, clock: Clock) {
    g.notBefore.Bound? && clock.Aware? && clock.moment < g.notBefore.moment
  }

  predicate Late(g: Grant, clock: Clock) {
    g.notAfter.Bound? && clock.Aware? && clock.moment >= g.notAfter.moment
  }

  /** Nothing is decided on a bound that does not parse or a book that does not replay. */
  lemma ChargeRaises(g: Grant, clock: Clock, book: seq<Line>)
    ensures var r := Charge(g, clock, book);
      && (r == Err(MalformedBound) <==> g.notBefore.Malformed? || g.notAfter.Malformed?)
      && (r == Err(Tampered) <==>
            !g.notBefore.Malformed? && !g.notAfter.Malformed? && ReplayOf(book, g.grantId).Err?)
      && r != Err(EmptyId)
  {
    hide ReplayOf;
  }

  /** The line a call writes: an approval carries the new count, a refusal by the cap the old one, any other refusal
      none; the stamp is the clock's millisecond. */
  lemma ChargeWritesLine(g: Grant, clock: Clock, book: seq<Line>)
    requires Charge(g, clock, book).Ok?
    ensures var (decision, line) := Charge(g, clock, book).value;
      && line.Line? && line.grantId == g.grantId
      && line.kind == (if decision.allowed then Call else Refuse)
      && line.booked == (if decision.allowed then Whole(CallsIn(book, g.grantId) + 1)
                         else if decision.limit == Some(MaxCalls) then Whole(CallsIn(book, g.grantId))
                         else Absent)
      && line.at == (match clock case Aware(m) => At(m / 1000 * 1000) case Naive => BadStamp)
  {
    hide ReplayOf, CallsIn;
    ReplayIsImplied(book, g.grantId);
    ImpliedCounts(book, g.grantId);
  }

  /** A revocation needs an id and nothing of the book. */
  lemma RevokeWritesLine(id: string, clock: Clock, book: seq<Line>, time: int)
    ensures var r := Decide(RevokeGrant(id, clock), book, time);
      && (r.Ok? <==> |id| > 0)
      && (r.Ok? ==> r.value.Line? && r.value.grantId == id && r.value.kind == Revoke && r.value.booked == Absent)
      && (r.Ok? ==> r.value.at == match clock case Aware(m) => At(m / 1000 * 1000) case Naive => BadStamp)
  {
  }

  /** The clock of the first revocation of a grant. */
  function FirstRevocation(h: History, id: string): Option<Clock> {
    match h
    case Start => None
    case Then(before, op, _, _) =>
      if FirstRevocation(before, id).Some? then FirstRevocation(before, id)
      else if op.RevokeGrant? && op.grantId == id then Some(op.clock)
      else None
  }

  /** How many calls of a grant were approved. */
  function Approvals(h: History, id: string): nat {
    match h
    case Start => 0
    case Then(before, op, _, line) =>
      Approvals(before, id) + if op.RecordCall? && op.grant.grantId == id && line.Line? && line.kind.Call? then 1 else 0
  }

  /** After every history, what `usage` shows of a grant is how many of its calls were approved, and the millisecond of
      its first revocation; it raises when that one used a clock without an offset. */
  lemma {:induction false} UsageIsHistory(h: History, now: int, id: string)
    requires Valid(h, now)
    ensures ReplayOf(WP.Lines(h), id) ==
      match FirstRevocation(h, id)
      case None => Ok(GrantState(Approvals(h, id), None))
      case Some(Aware(m)) => Ok(GrantState(Approvals(h, id), Some(m / 1000 * 1000)))
      case Some(Naive) => Err(FirstBad(h, id))
    decreases h
  {
    match h
    case Start =>
    case Then(before, op, time, line) =>
      UsageIsHistory(before, time, id);
      OneMore(WP.Lines(before), line, id);
      StepUsage(op, WP.Lines(before), time, line, id);
  }

  /** The number of the line that revoked without an offset. */
  function FirstBad(h: History, id: string): nat {
    match h
    case Start => 0
    case Then(before, op, _, _) =>
      if FirstRevocation(before, id).Some? then FirstBad(before, id) else |WP.Lines(before)| + 1
  }

  /** What one written line does to the state of a grant. */
  lemma StepUsage(op: Op, book: seq<Line>, time: int, line: Line, id: string)
    requires Decide(op, book, time) == Ok(line)
    ensures line.Line? && line.grantId == (if op.RecordCall? then op.grant.grantId else op.grantId)
    ensures ReplayOf(book, id).Ok? && line.grantId == id ==>
      var s := ReplayOf(book, id).value;
      ApplyLine(s, line) ==
        if op.RevokeGrant? then
          if s.revokedAt.Some? then (s, false)
          else if op.clock.Naive? then (s, true)
          else (GrantState(s.calls, Some(op.clock.moment / 1000 * 1000)), false)
        else if line.kind.Call? then (GrantState(s.calls + 1, s.revokedAt), false)
        else (s, false)
  {
    hide ReplayOf;
  }

  lemma CallsOneMore(book: seq<Line>, line: Line, id: string)
    ensures CallsIn(book + [line], id) == CallsIn(book, id) + if Names(line, id) && line.kind.Call? then 1 else 0
  {
    assert Front(book + [line]) == book && Last(book + [line]) == line;
  }

  predicate AllRightful(h: History) {
    match h
    case Start => true
    case Then(before, op, _, line) => AllRightful(before) && line.Line? && Rightful(op, WP.Lines(before), line)
  }

  /** In every valid book the k-th call line of a grant books k, k is within the cap of the grant that approved it,
      the clock it used lies in the window, and no revocation of that grant comes before it. */
  lemma {:induction false} CallsAreRightful(h: History, now: int)
    requires Valid(h, now)
    ensures AllRightful(h)
  {
    match h
    case Start =>
    case Then(before, op, time, line) =>
      hide Decide, ReplayOf, Implied, CallsIn, RevokedIn;
      CallsAreRightful(before, time);
      var book := WP.Lines(before);
      WrittenLine(op, book, time);
      if line.kind.Call? {
        Approved(op, book, time);
        var id := op.grant.grantId;
        ReplayIsImplied(book, id);
        ImpliedCounts(book, id);
        RevocationHolds(before, time, id);
      }
  }

  /** The same for the lock protocol: any number of writers, any schedule, crashes anywhere. */
  lemma EveryRunIsRightful(began: int, events: seq<WP.Event<Op>>)
    requires WP.Run(Decide, WP.Initial(began), events).Some?
    ensures var t := WP.Run(Decide, WP.Initial(began), events).value;
      AllRightful(t.history) && t.book == WP.Lines(t.history)
  {
    WP.InitialIsValid(Decide, began);
    WP.EveryRunIsValid(Decide, WP.Initial(began), events);
    var t := WP.Run(Decide, WP.Initial(began), events).value;
    CallsAreRightful(t.history, t.now);
  }

  /** Every revocation used a clock with an offset, or came after the grant was already revoked. */
  predicate RevokedWithOffset(h: History) {
    match h
    case Start => true
    case Then(before, op, _, _) =>
      && RevokedWithOffset(before)
      && (op.RevokeGrant? ==> op.clock.Aware? || Implied(WP.Lines(before), op.grantId).revokedAt.Some?)
  }

  /** `revoke` writes without folding its own line, so a book written here verifies exactly when no revocation that
      mattered used a clock without an offset. */
  lemma {:induction false} WrittenBookVerifiesIff(h: History, now: int)
    requires Valid(h, now)
    ensures Problems(WP.Lines(h)) == [] <==> RevokedWithOffset(h)
  {
    match h
    case Start =>
    case Then(before, op, time, line) =>
      hide Decide, Problems, BadAfter, Implied;
      WrittenBookVerifiesIff(before, time);
      OneMore(WP.Lines(before), line, "");
      WrittenLine(op, WP.Lines(before), time);
  }
}

/** The grant book: caps, windows and revocations. */
module GrantBook {
  // Enforced by replaying one append-only file.

  import opened Prelude

  /** A moment is a number of microseconds. The `at` field of a line, as `_parse_bound` reads it. */
  datatype Stamped = Missing | BadStamp | At(moment: int)

  /** The `calls_after` field: a Boolean is an `int` to Python, a float is not, but may still equal one. */
  datatype Booked = Absent | Whole(n: int) | Float(x: real) | OtherValue

  datatype Kind = Call | Revoke | Refuse | UnknownKind

  datatype Line =
    | NotJson
    | NotObject
    | NoGrantId
    | Line(grantId: string, kind: Kind, booked: Booked, at: Stamped)

  datatype GrantState = GrantState(calls: int, revokedAt: Option<int>)

  const UNUSED := GrantState(0, None)

  predicate Names(line: Line, id: string) {
    line.Line? && line.grantId == id
  }

  /** `_apply`: the state always advances by what the line implies; the flag says that the line does not agree. */
  function ApplyLine(s: GrantState, line: Line): (GrantState, bool)
    requires line.Line?
  {
    match line.kind
    case Call => (s.(calls := s.calls + 1), line.booked != Whole(s.calls + 1))
    case Revoke =>
      if s.revokedAt.Some? then (s, false)
      else
        (match line.at
         case Missing => (s, false)
         case BadStamp => (s, true)
         case At(m) => (s.(revokedAt := Some(m)), false))
    case Refuse => (s, !RefusalAgrees(line.booked, s.calls))
    case UnknownKind => (s, true)
  }

  predicate RefusalAgrees(b: Booked, calls: int) {
    match b
    case Absent => true
    case Whole(n) => n == calls
    case Float(x) => x == calls as real
    case OtherValue => false
  }

  /** What the book implies about one grant, whether or not its lines agree. */
  function Implied(book: seq<Line>, id: string): GrantState {
    if book == [] then UNUSED
    else
      var s := Implied(Front(book), id);
      if Names(Last(book), id) then ApplyLine(s, Last(book)).0 else s
  }

  /** How many call lines name the grant. */
  function CallsIn(book: seq<Line>, id: string): nat {
    if book == [] then 0
    else CallsIn(Front(book), id) + if Names(Last(book), id) && Last(book).kind.Call? then 1 else 0
  }

  /** A line that `verify` reports: unreadable, or in disagreement with the lines before it. */
  predicate BadAfter(before: seq<Line>, line: Line) {
    !line.Line? || ApplyLine(Implied(before, line.grantId), line).1
  }

  /** The numbers of the bad lines, counted from 1. */
  function Problems(book: seq<Line>): seq<nat> {
    if book == [] then []
    else Problems(Front(book)) + if BadAfter(Front(book), Last(book)) then [|book|] else []
  }

  /** `_replay`: raises at the first line that is not JSON, or names the grant and does not agree. */
  function ReplayOf(book: seq<Line>, id: string): Result<GrantState, nat> {
    if book == [] then Ok(UNUSED)
    else
      var s :- ReplayOf(Front(book), id);
      var line := Last(book);
      if line.NotJson? then Err(|book|)
      else if !Names(line, id) then Ok(s)
      else if ApplyLine(s, line).1 then Err(|book|)
      else Ok(ApplyLine(s, line).0)
  }

  // ---------- deciding ----------

  /** A bound of the grant, parsed before the lock is taken. */
  datatype Bound = NoBound | Bound(moment: int) | Malformed

  /** `now`: without an offset it cannot be compared with a bound. */
  datatype Clock = Aware(moment: int) | Naive

  datatype Grant = Grant(grantId: string, maxCalls: Option<int>, notBefore: Bound, notAfter: Bound)

  datatype Op = RecordCall(grant: Grant, clock: Clock) | RevokeGrant(grantId: string, clock: Clock)

  datatype Limit = Revoked | NotBefore | Expired | MaxCalls

  datatype Decision = Decision(allowed: bool, calls: int, limit: Option<Limit>)

  datatype GrantError = MalformedBound | Tampered | NaiveClock | EmptyId

  function StampOf(clock: Clock): Stamped {
    match clock
    case Aware(m) => At(1000 * (m / 1000))
    case Naive => BadStamp
  }

  /** The gates in their order; a comparison with a clock that has no offset raises. */
  function Gate(g: Grant, s: GrantState, clock: Clock): Result<Option<Limit>, GrantError> {
    if s.revokedAt.Some? then Ok(Some(Revoked))
    else if g.notBefore.Bound? && clock.Naive? then Err(NaiveClock)
    else if g.notBefore.Bound? && clock.moment < g.notBefore.moment then Ok(Some(NotBefore))
    else if g.notAfter.Bound? && clock.Naive? then Err(NaiveClock)
    else if g.notAfter.Bound? && clock.moment >= g.notAfter.moment then Ok(Some(Expired))
    else if g.maxCalls.Some? && s.calls + 1 > g.maxCalls.value then Ok(Some(MaxCalls))
    else Ok(None)
  }

  /** What `record_call` answers and writes. */
  function Charge(g: Grant, clock: Clock, book: seq<Line>): Result<(Decision, Line), GrantError> {
    if g.notBefore.Malformed? || g.notAfter.Malformed? then Err(MalformedBound)
    else
      match ReplayOf(book, g.grantId)
      case Err(_) => Err(Tampered)
      case Ok(s) =>
        var limit :- Gate(g, s, clock);
        if limit.Some? then
          var booked := if limit.value.MaxCalls? then Whole(s.calls) else Absent;
          Ok((Decision(false, s.calls, limit), Line(g.grantId, Refuse, booked, StampOf(clock))))
        else
          Ok((Decision(true, s.calls + 1, None), Line(g.grantId, Call, Whole(s.calls + 1), StampOf(clock))))
  }

  /** The line an operation writes; `revoke` does not look at the book. The clock is read before the lock. */
  function Decide(op: Op, book: seq<Line>, time: int): Result<Line, GrantError> {
    match op
    case RecordCall(g, clock) => var r :- Charge(g, clock, book); Ok(r.1)
    case RevokeGrant(id, clock) => if id == "" then Err(EmptyId) else Ok(Line(id, Revoke, Absent, StampOf(clock)))
  }

  /** The book and its one writer. */
  class GrantLedger {
    var book: seq<Line>

    constructor ()
      ensures book == []
    {
      book := [];
    }

    /** `usage`: the state of one grant, or the first line that stops the replay. */
    method Usage(id: string) returns (r: Result<GrantState, nat>)
      ensures r == ReplayOf(book, id)
    {
      var state := UNUSED;
      for i := 0 to |book|
        invariant ReplayOf(book[..i], id) == Ok(state)
      {
        PrefixFront(book, i);
        var line := book[i];
        if line.NotJson? {
          ErrorsStay(book, i + 1, id);
          return Err(i + 1);
        }
        if Names(line, id) {
          var (next, disagrees) := ApplyLine(state, line);
          if disagrees {
            ErrorsStay(book, i + 1, id);
            return Err(i + 1);
          }
          state := next;
        }
      }
      assert book[..|book|] == book;
      return Ok(state);
    }

    /** One pass over the whole book, one state per grant seen. */
    method Verify() returns (problems: seq<nat>)
      ensures problems == Problems(book)
    {
      problems := [];
      var seen: map<string, GrantState> := map[];
      for i := 0 to |book|
        invariant problems == Problems(book[..i])
        invariant forall id :: Implied(book[..i], id) == if id in seen then seen[id] else UNUSED
      {
        PrefixFront(book, i);
        var line := book[i];
        if !line.Line? {
          problems := problems + [i + 1];
        } else {
          var state := if line.grantId in seen then seen[line.grantId] else UNUSED;
          var (next, disagrees) := ApplyLine(state, line);
          seen := seen[line.grantId := next];
          if disagrees {
            problems := problems + [i + 1];
          }
        }
      }
      assert book[..|book|] == book;
    }

    method Record(g: Grant, clock: Clock) returns (r: Result<Decision, GrantError>)
      modifies this
      ensures match Charge(g, clock, old(book)) {
                case Ok((decision, line)) => r == Ok(decision) && book == old(book) + [line]
                case Err(e) => r == Err(e) && book == old(book)
              }
    {
      if g.notBefore.Malformed? || g.notAfter.Malformed? {
        return Err(MalformedBound);
      }
      var replayed := Usage(g.grantId);
      if replayed.Err? {
        return Err(Tampered);
      }
      var state := replayed.value;
      var limit :- Gate(g, state, clock);
      if limit.Some? {
        var booked := if limit.value.MaxCalls? then Whole(state.calls) else Absent;
        book := book + [Line(g.grantId, Refuse, booked, StampOf(clock))];
        return Ok(Decision(false, state.calls, limit));
      }
      book := book + [Line(g.grantId, Call, Whole(state.calls + 1), StampOf(clock))];
      return Ok(Decision(true, state.calls + 1, None));
    }

    method RevokeId(id: string, clock: Clock) returns (r: Result<Line, GrantError>)
      modifies this
      ensures r == Decide(RevokeGrant(id, clock), old(book), 0)
      ensures book == if r.Ok? then old(book) + [r.value] else old(book)
      ensures r.Ok? <==> id != ""
      ensures r.Ok? ==> r.value == Line(id, Revoke, Absent, StampOf(clock))
    {
      if id == "" {
        return Err(EmptyId);
      }
      var line := Line(id, Revoke, Absent, StampOf(clock));
      book := book + [line];
      return Ok(line);
    }
  }

  lemma PrefixFront<T>(s: seq<T>, i: nat)
    requires i < |s|
    ensures s[..i + 1] != [] && Front(s[..i + 1]) == s[..i] && Last(s[..i + 1]) == s[i]
  {
  }

  lemma {:induction false} ErrorsStay(book: seq<Line>, i: nat, id: string)
    requires i <= |book| && ReplayOf(book[..i], id).Err?
    ensures ReplayOf(book, id) == ReplayOf(book[..i], id)
    decreases |book|
  {
    if i == |book| {
      assert book[..i] == book;
    } else {
      assert Front(book)[..i] == book[..i];
      ErrorsStay(Front(book), i, id);
    }
  }

  // ---------- one more line ----------

  lemma OneMore(book: seq<Line>, line: Line, id: string)
    ensures var more := book + [line];
      && Implied(more, id) == (if Names(line, id) then ApplyLine(Implied(book, id), line).0 else Implied(book, id))
      && Problems(more) == Problems(book) + (if BadAfter(book, line) then [|book| + 1] else [])
      && ReplayOf(more, id) == match ReplayOf(book, id) {
           case Err(n) => Err(n)
           case Ok(s) =>
             if line.NotJson? then Err(|book| + 1)
             else if !Names(line, id) then Ok(s)
             else if ApplyLine(s, line).1 then Err(|book| + 1)
             else Ok(ApplyLine(s, line).0)
         }
  {
    var more := book + [line];
    assert Front(more) == book && Last(more) == line;
  }
}

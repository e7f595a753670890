/** The objects that do the tenant bookkeeping, each method tied to the function that specifies it, for whose results
    the theorems are stated. */
module TenantStore {
  import opened Prelude
  import opened TenantBook

  /** A tenant's lines folded into fields, one line at a time. */
  class Replay {
    const now: int
    var runs: int
    var charged: Charge
    var violations: int
    var refused: int
    var unknown: int
    var open: seq<Slot>

    constructor (now: int)
      ensures this.now == now && State() == EMPTY
    {
      this.now := now;
      runs, charged, violations, refused, unknown, open := 0, ZERO, 0, 0, 0, [];
    }

    ghost function State(): Account
      reads this
    {
      Account(runs, charged, violations, refused, unknown, open)
    }

    method Copied() returns (clone: Replay)
      ensures fresh(clone) && clone.now == now && clone.State() == State()
    {
      clone := new Replay(now);
      clone.runs, clone.charged, clone.violations := runs, charged, violations;
      clone.refused, clone.unknown, clone.open := refused, unknown, open;
    }

    /** Adds up the active reservations one by one; raises as soon as a partial sum is too large. */
    method Reserved() returns (r: Result<Charge, Error>)
      requires OpenInRange(open)
      ensures r == TenantBook.Reserved(open, now)
    {
      var total := ZERO;
      for i := 0 to |open|
        invariant InRange(total) && OpenInRange(open[i..])
        invariant forall d: Dim :: !d.Runs? ==>
          ActiveSum(open, now, d) == Amount(total, d) + ActiveSum(open[i..], now, d)
      {
        ghost var rest := open[i..];
        assert rest[0] == open[i] && rest[1..] == open[i + 1..];
        ActiveSumBounds(rest[1..], now, Fuel);
        ActiveSumBounds(rest[1..], now, OutputBytes);
        ActiveSumBounds(rest[1..], now, WallMs);
        if Active(open[i], now) {
          total :- Plus(total, open[i].reserve);
        }
      }
      assert open[|open|..] == [];
      return Ok(total);
    }

    method UsageNow() returns (r: Result<Usage, Error>)
      requires OpenInRange(open)
      ensures r == UsageOf(State(), now)
    {
      var reserved :- Reserved();
      return Ok(Usage(runs, charged, reserved, ActiveSum(open, now, Runs), violations, refused, unknown));
    }

    /** Folds one line into the fields; an exception leaves them as they were. */
    method FoldLine(line: Line) returns (r: Result<(), Error>)
      requires line.Line?
      modifies this
      ensures match Fold(old(State()), line) {
                case Ok(a) => r == Ok(()) && State() == a
                case Err(e) => r == Err(e) && State() == old(State())
              }
    {
      if !line.versionKnown {
        return Err(UnknownVersion);
      }
      match line.kind {
        case Admit =>
          if !InRange(line.charge) {
            return Err(BadCharge);
          }
          if line.admitId.None? {
            return Err(MissingId);
          }
          open := PutSlot(open, Slot(line.admitId.value, line.charge, line.expires));
        case Settle =>
          if line.admitId.None? {
            return Err(MissingId);
          }
          if !IsOpen(open, line.admitId.value) {
            return Err(UnknownAdmission);
          }
          if !InRange(line.charge) {
            return Err(BadCharge);
          }
          charged :- Plus(charged, line.charge);
          open := DropSlot(open, line.admitId.value);
          runs := runs + 1;
          if line.violation {
            violations := violations + 1;
          }
          if line.unknown {
            unknown := unknown + 1;
          }
        case Expire =>
          if line.admitId.None? {
            return Err(MissingId);
          }
          open := DropSlot(open, line.admitId.value);
        case Refuse =>
          refused := refused + 1;
        case OtherKind =>
          return Err(UnknownKind);
      }
      return Ok(());
    }

    /** Folds one line of a file and compares the block it carries; a mismatch is seen only after folding. */
    method ApplyLine(line: Line) returns (r: Result<(), Error>)
      requires line.Line?
      modifies this
      ensures r == match Apply(old(State()), line) { case Ok(_) => Ok(()) case Err(e) => Err(e) }
      ensures State() == match Fold(old(State()), line) { case Ok(a) => a case Err(_) => old(State()) }
    {
      var _ :- FoldLine(line);
      var expected := Totals(runs, charged.fuel, charged.outputBytes, charged.wallMs, violations, refused, unknown);
      if line.totals != expected {
        return Err(TotalsMismatch);
      }
      return Ok(());
    }

    /** The draft with the block it will be checked against, derived on a copy. */
    method Sealed(draft: Line) returns (r: Result<Line, Error>)
      requires draft.Line?
      ensures r == Seal(State(), draft)
    {
      var probe := Copied();
      var _ :- probe.FoldLine(draft);
      return Ok(draft.(totals := Totals(probe.runs, probe.charged.fuel, probe.charged.outputBytes,
                                        probe.charged.wallMs, probe.violations, probe.refused, probe.unknown)));
    }
  }

  /** The store over one append-only book. Each method is one critical section: `clock` is read inside it. */
  class TenantStore {
    var book: seq<Line>

    constructor ()
      ensures book == []
    {
      book := [];
    }

    /** All lines of one tenant; a malformed line raises wherever it stands. */
    method Entries(tenant: string) returns (r: Result<seq<Line>, Error>)
      ensures r == if AllParsed(book) then Ok(LinesOf(book, tenant)) else Err(NotJson)
    {
      var out: seq<Line> := [];
      for i := 0 to |book|
        invariant AllParsed(book) <==> AllParsed(book[i..])
        invariant AllParsed(book) ==> LinesOf(book, tenant) == out + LinesOf(book[i..], tenant)
      {
        ghost var rest := book[i..];
        assert rest[0] == book[i] && rest[1..] == book[i + 1..];
        var line := book[i];
        if line.Malformed? {
          return Err(NotJson);
        }
        if line.tenant == Some(tenant) {
          out := out + [line];
        }
      }
      assert book[|book|..] == [] && out + [] == out;
      return Ok(out);
    }

    method ReplayTenant(tenant: string, now: int) returns (r: Result<Replay, Error>)
      ensures match ReplayOf(book, tenant) {
                case Err(e) => r == Err(e)
                case Ok(a) => r.Ok? && fresh(r.value) && r.value.State() == a && r.value.now == now && Sound(a)
              }
    {
      var lines :- Entries(tenant);
      var replay := new Replay(now);
      for i := 0 to |lines|
        invariant AllParsed(lines[i..]) && Sound(replay.State())
        invariant ApplyAll(EMPTY, lines) == ApplyAll(replay.State(), lines[i..])
      {
        ghost var rest := lines[i..];
        assert rest[0] == lines[i] && rest[1..] == lines[i + 1..];
        ghost var before := replay.State();
        var checked := replay.ApplyLine(lines[i]);
        if checked.Err? {
          return Err(checked.error);
        }
        FoldKeepsSound(before, lines[i]);
      }
      assert lines[|lines|..] == [];
      return Ok(replay);
    }

    /** Reserves a run's worst case or books a refusal; an exception writes nothing. */
    method AdmitTenant(tenant: string, reserve: Charge, budget: Option<Budget>, ttl: int, id: string, clock: int)
      returns (r: Result<Admission, Error>)
      modifies this
      ensures match Answer(AdmitRun(tenant, reserve, budget, ttl, id), old(book), clock) {
                case Ok((admission, line)) => r == Ok(admission) && book == old(book) + [line]
                case Err(e) => r == Err(e) && book == old(book)
              }
    {
      hide ReplayOf, FirstOver, Fold, TenantOk, InRange, BudgetOk, TenantBook.Reserved;
      var _ :- Checked(AdmitRun(tenant, reserve, budget, ttl, id));
      var state :- ReplayTenant(tenant, clock);
      var usage :- state.UsageNow();
      var balance :- Plus(usage.charged, usage.reserved);
      var runs := usage.runs + usage.inflight;
      var prospective :- Plus(balance, reserve);
      var limit: Option<Dim> := None;
      if budget.Some? {
        limit := Violation(budget.value, runs + 1, prospective);
      }
      var draft: Line, admission: Admission;
      if limit.Some? {
        admission := Admission(false, None, limit, runs, balance);
        draft := Draft(Refuse, tenant, clock);
      } else {
        admission := Admission(true, Some(id), None, runs + 1, prospective);
        draft := Draft(Admit, tenant, clock);
        draft := draft.(admitId := Some(id), charge := reserve, expires := Some(Stamp(clock + ttl)));
      }
      var line :- state.Sealed(draft);
      book := book + [line];
      return Ok(admission);
    }

    /** Books the measured charge of one open admission, lapsed or not. */
    method SettleTenant(tenant: string, admitId: string, charge: Charge, violation: bool, unknown: bool, clock: int)
      returns (r: Result<Line, Error>)
      modifies this
      ensures r == Decide(SettleRun(tenant, admitId, charge, violation, unknown), old(book), clock)
      ensures book == if r.Ok? then old(book) + [r.value] else old(book)
    {
      var _ :- Checked(SettleRun(tenant, admitId, charge, violation, unknown));
      var state :- ReplayTenant(tenant, clock);
      if !IsOpen(state.open, admitId) {
        return Err(UnknownAdmission);
      }
      var draft := Draft(Settle, tenant, clock);
      var line :- state.Sealed(
        draft.(admitId := Some(admitId), charge := charge, violation := violation, unknown := unknown));
      book := book + [line];
      return Ok(line);
    }

    /** Closes an open admission without a charge. */
    method ExpireTenant(tenant: string, admitId: string, clock: int) returns (r: Result<Line, Error>)
      modifies this
      ensures r == Decide(ExpireRun(tenant, admitId), old(book), clock)
      ensures book == if r.Ok? then old(book) + [r.value] else old(book)
    {
      var _ :- Checked(ExpireRun(tenant, admitId));
      var state :- ReplayTenant(tenant, clock);
      if !IsOpen(state.open, admitId) {
        return Err(UnknownAdmission);
      }
      var draft := Draft(Expire, tenant, clock);
      var line :- state.Sealed(draft.(admitId := Some(admitId)));
      book := book + [line];
      return Ok(line);
    }

    method UsageAt(tenant: string, now: int) returns (r: Result<Usage, Error>)
      ensures r == if !TenantOk(tenant) then Err(BadTenant)
                   else match ReplayOf(book, tenant) { case Err(e) => Err(e) case Ok(a) => UsageOf(a, now) }
    {
      if !TenantOk(tenant) {
        return Err(BadTenant);
      }
      var state :- ReplayTenant(tenant, now);
      r := state.UsageNow();
    }
  }
}

/** One sandbox run around its tenant's book. */
module BilledRun {
  // Admit, execute, then settle or expire.

  import opened Prelude
  import opened TenantBook
  import opened TenantCaps
  import opened TenantUsage
  import TS = TenantStore

  const MAX_OUTPUT_BYTES := 10000

  datatype Config = Config(maxFuel: Option<nat>, ioBudgetBytes: Option<nat>, timeoutMs: nat)

  function OrZero(v: Option<nat>): nat {
    if v.Some? then v.value else 0
  }

  /** `reservation`: the ceilings of the configuration; an unlimited one reserves nothing. */
  function Reservation(c: Config): Charge {
    Charge(OrZero(c.maxFuel), 2 * MAX_OUTPUT_BYTES + OrZero(c.ioBudgetBytes), c.timeoutMs)
  }

  datatype Status = Success | Timeout | FuelExhausted | MemoryExceeded | OtherStatus

  /** What executing the guest brings: an exception, or measured consumption. */
  datatype Executed =
    | Crash
    | Finish(status: Status, fuelConsumed: Option<nat>, stdoutBytes: nat, stderrBytes: nat, ioBytesWritten: Option<nat>,
             ioBudgetExceeded: bool, wallMs: nat)

  function ChargeOf(x: Executed): Charge
    requires x.Finish?
  {
    Charge(OrZero(x.fuelConsumed), x.stdoutBytes + x.stderrBytes + OrZero(x.ioBytesWritten), x.wallMs)
  }

  predicate Breach(x: Executed)
    requires x.Finish?
  {
    x.ioBudgetExceeded || x.status.Timeout? || x.status.FuelExhausted? || x.status.MemoryExceeded?
  }

  /** One call of `run` with a tenant: `id` is the admission id drawn for it, the clocks are read inside the two
      critical sections. The store's default TTL is 900 seconds. */
  datatype Job = Job(config: Config, tenant: string, budget: Option<Budget>, id: string, guest: Executed,
                     admitClock: int, closeClock: int)

  const TTL := 900_000_000

  function AdmitOp(j: Job): Op {
    AdmitRun(j.tenant, Reservation(j.config), j.budget, TTL, j.id)
  }

  function SettleOp(j: Job): Op
    requires j.guest.Finish?
  {
    SettleRun(j.tenant, j.id, ChargeOf(j.guest), Breach(j.guest), j.guest.fuelConsumed.None?)
  }

  datatype Ending =
    | AdmitRaised(error: Error)
    | BudgetRefused(limit: Option<Dim>)
    | Crashed
    | Completed
    | SettleRaised(error: Error)

  /** The billing part of `run`, as a function of the book. */
  function Billed(j: Job, book: seq<Line>): (Ending, seq<Line>) {
    match Answer(AdmitOp(j), book, j.admitClock)
    case Err(e) => (AdmitRaised(e), book)
    case Ok(admitted) =>
      var held := book + [admitted.1];
      if !admitted.0.allowed then (BudgetRefused(admitted.0.limit), held)
      else if j.guest.Crash? then
        match Decide(ExpireRun(j.tenant, j.id), held, j.closeClock)
        case Ok(line) => (Crashed, held + [line])
        case Err(_) => (Crashed, held)
      else
        match Decide(SettleOp(j), held, j.closeClock)
        case Ok(line) => (Completed, held + [line])
        case Err(e) => (SettleRaised(e), held)
  }

  method Run(j: Job, store: TS.TenantStore) returns (ending: Ending)
    modifies store
    ensures (ending, store.book) == Billed(j, old(store.book))
  {
    var admitted := store.AdmitTenant(j.tenant, Reservation(j.config), j.budget, TTL, j.id, j.admitClock);
    if admitted.Err? {
      return AdmitRaised(admitted.error);
    }
    if !admitted.value.allowed {
      return BudgetRefused(admitted.value.limit);
    }
    if j.guest.Crash? {
      var _ := store.ExpireTenant(j.tenant, j.id, j.closeClock);
      return Crashed;
    }
    var unmetered := j.guest.fuelConsumed.None?;
    var settled := store.SettleTenant(j.tenant, j.id, ChargeOf(j.guest), Breach(j.guest), unmetered, j.closeClock);
    return if settled.Ok? then Completed else SettleRaised(settled.error);
  }

  // ---------- what one run leaves behind ----------

  lemma {:induction false} PutThenDrop(open: seq<Slot>, s: Slot)
    requires !IsOpen(open, s.id)
    ensures IsOpen(PutSlot(open, s), s.id) && DropSlot(PutSlot(open, s), s.id) == open
  {
    if open == [] {
      assert [s][1..] == [];
    } else {
      PutThenDrop(open[1..], s);
      var put := PutSlot(open[1..], s);
      assert ([open[0]] + put)[1..] == put;
    }
  }

  /** The kinds and ids of the lines an operation writes. */
  lemma LineOf(op: Op, a: Account, clock: int, line: Line)
    requires Writes(op, a, clock) == Ok(line)
    ensures line.Line? && line.tenant == Some(op.tenant)
    ensures op.AdmitRun? && DecideAdmit(op, a, clock).value.0.allowed ==>
      line.kind.Admit? && line.admitId == Some(op.id)
    ensures op.AdmitRun? && !DecideAdmit(op, a, clock).value.0.allowed ==> line.kind.Refuse?
    ensures op.SettleRun? ==> line.kind.Settle? && line.admitId == Some(op.admitId)
    ensures op.ExpireRun? ==> line.kind.Expire? && line.admitId == Some(op.admitId)
  {
  }

  /** The measured charge fits the account. */
  predicate Fits(j: Job, book: seq<Line>) {
    j.guest.Finish? && ReplayOf(book, j.tenant).Ok? ==>
      InRange(ChargeOf(j.guest)) && InRange(Sum(ReplayOf(book, j.tenant).value.charged, ChargeOf(j.guest)))
  }

  lemma Admits(j: Job, book: seq<Line>, a: Account)
    requires ReplayOf(book, j.tenant) == Ok(a) && Answer(AdmitOp(j), book, j.admitClock).Ok?
    ensures var (admission, line) := Answer(AdmitOp(j), book, j.admitClock).value;
      && Decide(AdmitOp(j), book, j.admitClock) == Ok(line)
      && line.Line? && line.tenant == Some(j.tenant) && AllParsed(book + [line])
      && (if admission.allowed then line.kind.Admit? && line.admitId == Some(j.id) else line.kind.Refuse?)
      && ReplayOf(book + [line], j.tenant) == Ok(After(AdmitOp(j), a, line, j.admitClock))
  {
    hide DecideAdmit, ReplayOf, Checked, After;
    var line := Answer(AdmitOp(j), book, j.admitClock).value.1;
    LineOf(AdmitOp(j), a, j.admitClock, line);
    DecidedLineReplays(AdmitOp(j), book, j.admitClock, j.tenant);
  }

  /** Closing an admission just taken: the settle fails only when the charge does not fit, the expire never does. */
  lemma Closes(j: Job, book: seq<Line>, a: Account)
    requires ReplayOf(book, j.tenant) == Ok(a) && TenantOk(j.tenant) && IsOpen(a.open, j.id)
    ensures Decide(ExpireRun(j.tenant, j.id), book, j.closeClock).Ok?
    ensures j.guest.Finish? ==>
      (Decide(SettleOp(j), book, j.closeClock).Ok? <==>
        InRange(ChargeOf(j.guest)) && InRange(Sum(a.charged, ChargeOf(j.guest))))
  {
    hide IsOpen, DropSlot, ReplayOf, InRange, Sum;
  }

  /** The account after a run that was admitted and billed. */
  function Charged(a: Account, j: Job): Account
    requires j.guest.Finish?
  {
    a.(charged := Sum(a.charged, ChargeOf(j.guest)), runs := a.runs + 1,
       violations := a.violations + Count(Breach(j.guest)), unknown := a.unknown + Count(j.guest.fuelConsumed.None?))
  }

  predicate ClosedBy(j: Job, book: seq<Line>, after: seq<Line>, kind: Kind) {
    && |after| == |book| + 2 && after[..|book|] == book
    && after[|book|].Line? && after[|book|].kind.Admit? && after[|book|].admitId == Some(j.id)
    && after[|book|].tenant == Some(j.tenant)
    && after[|book| + 1].Line? && after[|book| + 1].kind == kind && after[|book| + 1].admitId == Some(j.id)
    && after[|book| + 1].tenant == Some(j.tenant)
  }

  /** What a run has added to the book, and what it leaves of the account, by the way it ended. */
  predicate Recorded(j: Job, book: seq<Line>, a: Account, ending: Ending, after: seq<Line>) {
    match ending
    case AdmitRaised(_) => after == book
    case BudgetRefused(_) =>
      && |after| == |book| + 1 && after[..|book|] == book && after[|book|].Line? && after[|book|].kind.Refuse?
      && after[|book|].tenant == Some(j.tenant) && ReplayOf(after, j.tenant) == Ok(a.(refused := a.refused + 1))
    case Crashed => j.guest.Crash? && ClosedBy(j, book, after, Expire) && ReplayOf(after, j.tenant) == Ok(a)
    case Completed =>
      j.guest.Finish? && ClosedBy(j, book, after, Settle) && ReplayOf(after, j.tenant) == Ok(Charged(a, j))
    case SettleRaised(_) => j.guest.Finish? && !Fits(j, book) && |after| == |book| + 1 && after[..|book|] == book
  }

  /** Each run on a book that replays adds exactly one refuse line, or one admit line closed by exactly one settle or
      expire line of the same id, and the account is back to what was open before; only an exception at admission adds
      nothing, and only a charge that does not fit leaves the admission open. */
  lemma RunAddsOneRecord(j: Job, book: seq<Line>, a: Account)
    requires ReplayOf(book, j.tenant) == Ok(a) && !IsOpen(a.open, j.id)
    ensures Recorded(j, book, a, Billed(j, book).0, Billed(j, book).1)
  {
    hide Answer, Decide, ReplayOf, IsOpen, ClosedBy;
    if Answer(AdmitOp(j), book, j.admitClock).Ok? {
      var answer := Answer(AdmitOp(j), book, j.admitClock).value;
      if answer.0.allowed {
        AllowedRun(j, book, a, answer.1);
      } else {
        RefusedRun(j, book, a, answer.1);
      }
    }
  }

  lemma RefusedRun(j: Job, book: seq<Line>, a: Account, line: Line)
    requires ReplayOf(book, j.tenant) == Ok(a) && Answer(AdmitOp(j), book, j.admitClock).Ok?
    requires !Answer(AdmitOp(j), book, j.admitClock).value.0.allowed
    requires line == Answer(AdmitOp(j), book, j.admitClock).value.1
    ensures line.Line? && line.kind.Refuse? && line.tenant == Some(j.tenant)
    ensures ReplayOf(book + [line], j.tenant) == Ok(a.(refused := a.refused + 1))
    ensures |book + [line]| == |book| + 1 && (book + [line])[..|book|] == book && (book + [line])[|book|] == line
  {
    hide Answer, Decide, ReplayOf, IsOpen;
    Admits(j, book, a);
  }

  lemma AllowedRun(j: Job, book: seq<Line>, a: Account, line: Line)
    requires ReplayOf(book, j.tenant) == Ok(a) && !IsOpen(a.open, j.id) && Answer(AdmitOp(j), book, j.admitClock).Ok?
    requires Answer(AdmitOp(j), book, j.admitClock).value.0.allowed
    requires line == Answer(AdmitOp(j), book, j.admitClock).value.1
    ensures var held := book + [line];
      var expire := Decide(ExpireRun(j.tenant, j.id), held, j.closeClock);
      && |held| == |book| + 1
      && expire.Ok? && ClosedBy(j, book, held + [expire.value], Expire)
      && ReplayOf(held + [expire.value], j.tenant) == Ok(a)
      && (j.guest.Finish? ==>
            var settle := Decide(SettleOp(j), held, j.closeClock);
            && (settle.Ok? <==> Fits(j, book))
            && (settle.Ok? ==> ClosedBy(j, book, held + [settle.value], Settle) &&
                               ReplayOf(held + [settle.value], j.tenant) == Ok(Charged(a, j))))
  {
    hide Answer, Decide, ReplayOf, IsOpen, PutSlot, Fits, Charged, Stamp;
    Admits(j, book, a);
    AdmittedThenClosed(j, book, a, line);
    var held := book + [line];
    TwoMore(book, line, Decide(ExpireRun(j.tenant, j.id), held, j.closeClock).value);
    if j.guest.Finish? && Decide(SettleOp(j), held, j.closeClock).Ok? {
      TwoMore(book, line, Decide(SettleOp(j), held, j.closeClock).value);
    }
  }

  lemma TwoMore<T>(s: seq<T>, x: T, y: T)
    ensures var t := s + [x] + [y]; |t| == |s| + 2 && t[..|s|] == s && t[|s|] == x && t[|s| + 1] == y
  {
  }

  lemma AdmittedThenClosed(j: Job, book: seq<Line>, a: Account, line: Line)
    requires ReplayOf(book, j.tenant) == Ok(a) && !IsOpen(a.open, j.id)
    requires Decide(AdmitOp(j), book, j.admitClock) == Ok(line) && line.Line? && line.kind.Admit?
    ensures var held := book + [line];
      var slot := Slot(j.id, Reservation(j.config), Some(Stamp(j.admitClock + TTL)));
      && ReplayOf(held, j.tenant) == Ok(a.(open := PutSlot(a.open, slot)))
      && var expire := Decide(ExpireRun(j.tenant, j.id), held, j.closeClock);
      && expire.Ok? && expire.value.Line? && expire.value.kind.Expire? && expire.value.admitId == Some(j.id)
      && expire.value.tenant == Some(j.tenant) && ReplayOf(held + [expire.value], j.tenant) == Ok(a)
      && (j.guest.Finish? ==>
            var settle := Decide(SettleOp(j), held, j.closeClock);
            && (settle.Ok? <==> Fits(j, book))
            && (settle.Ok? ==>
                  && settle.value.Line? && settle.value.kind.Settle? && settle.value.admitId == Some(j.id)
                  && settle.value.tenant == Some(j.tenant)
                  && ReplayOf(held + [settle.value], j.tenant) == Ok(Charged(a, j))))
  {
    hide ReplayOf, IsOpen, PutSlot, DropSlot, Sum, InRange, Writes;
    var held := book + [line];
    var slot := Slot(j.id, Reservation(j.config), Some(Stamp(j.admitClock + TTL)));
    var b := a.(open := PutSlot(a.open, slot));
    DecidedLineReplays(AdmitOp(j), book, j.admitClock, j.tenant);
    PutThenDrop(a.open, slot);
    Closes(j, held, b);
    var expire := ExpireRun(j.tenant, j.id);
    LineOf(expire, b, j.closeClock, Decide(expire, held, j.closeClock).value);
    DecidedLineReplays(expire, held, j.closeClock, j.tenant);
    if j.guest.Finish? && Decide(SettleOp(j), held, j.closeClock).Ok? {
      LineOf(SettleOp(j), b, j.closeClock, Decide(SettleOp(j), held, j.closeClock).value);
      DecidedLineReplays(SettleOp(j), held, j.closeClock, j.tenant);
    }
  }

  // ---------- what a run costs ----------

  /** A completed run adds to its tenant's account what was measured, field by field: the fuel, or none when none was
      reported; everything written to the two streams and through the sandbox; the time; one run; one violation when it
      ran out of its output budget, time, fuel or memory; and one run of unknown fuel when none was reported. */
  lemma CompletedRunBills(j: Job, book: seq<Line>, a: Account)
    requires ReplayOf(book, j.tenant) == Ok(a) && !IsOpen(a.open, j.id) && Billed(j, book).0.Completed?
    ensures j.guest.Finish? && ReplayOf(Billed(j, book).1, j.tenant).Ok?
    ensures var x, b := j.guest, ReplayOf(Billed(j, book).1, j.tenant).value;
      && b.charged.fuel == a.charged.fuel + (match x.fuelConsumed case Some(n) => n case None => 0)
      && b.charged.outputBytes == a.charged.outputBytes + x.stdoutBytes + x.stderrBytes +
         (match x.ioBytesWritten case Some(n) => n case None => 0)
      && b.charged.wallMs == a.charged.wallMs + x.wallMs
      && b.runs == a.runs + 1
      && b.violations == a.violations +
         (if x.ioBudgetExceeded || x.status in {Timeout, FuelExhausted, MemoryExceeded} then 1 else 0)
      && b.unknown == a.unknown + (if x.fuelConsumed == None then 1 else 0)
      && b.refused == a.refused && b.open == a.open
  {
    hide Billed, ReplayOf, IsOpen, ClosedBy;
    RunAddsOneRecord(j, book, a);
  }

  /** The account has room for what was measured. */
  predicate Room(a: Account, x: Executed)
    requires x.Finish?
  {
    && a.charged.fuel + (match x.fuelConsumed case Some(n) => n case None => 0) <= MAX_SAFE_INTEGER
    && a.charged.outputBytes + x.stdoutBytes + x.stderrBytes +
       (match x.ioBytesWritten case Some(n) => n case None => 0) <= MAX_SAFE_INTEGER
    && a.charged.wallMs + x.wallMs <= MAX_SAFE_INTEGER
  }

  lemma FitsIsRoom(j: Job, book: seq<Line>, a: Account)
    requires ReplayOf(book, j.tenant) == Ok(a) && j.guest.Finish?
    ensures Fits(j, book) <==> Room(a, j.guest)
  {
    hide ReplayOf;
    AccountIsSound(book, j.tenant);
  }

  /** How a run ends: as `admit` answers, unless it admits; then crashed, completed, or, when the account has no room
      for what was measured, with the exception of the settlement. */
  lemma EndsExactly(j: Job, book: seq<Line>, a: Account)
    requires ReplayOf(book, j.tenant) == Ok(a) && !IsOpen(a.open, j.id)
    ensures var answer, ending := Answer(AdmitOp(j), book, j.admitClock), Billed(j, book).0;
      match ending
      case AdmitRaised(e) => answer == Err(e)
      case BudgetRefused(limit) => answer.Ok? && !answer.value.0.allowed && limit == answer.value.0.limit
      case Crashed => answer.Ok? && answer.value.0.allowed && j.guest.Crash?
      case Completed => answer.Ok? && answer.value.0.allowed && j.guest.Finish? && Room(a, j.guest)
      case SettleRaised(_) => answer.Ok? && answer.value.0.allowed && j.guest.Finish? && !Room(a, j.guest)
  {
    hide Answer, Decide, ReplayOf, IsOpen, ClosedBy, Fits, Room;
    if j.guest.Finish? {
      FitsIsRoom(j, book, a);
    }
    if Answer(AdmitOp(j), book, j.admitClock).Ok? {
      var answer := Answer(AdmitOp(j), book, j.admitClock).value;
      if answer.0.allowed {
        AllowedRun(j, book, a, answer.1);
      }
    }
  }

  /** From its admission until 900 seconds later the run holds the most its configuration lets it take, beside whatever
      was held before: its fuel, two full streams of 10000 bytes and the output budget, and its time. From then on it
      holds nothing. */
  lemma RunHoldsItsCeiling(j: Job, book: seq<Line>, a: Account, at: int)
    requires ReplayOf(book, j.tenant) == Ok(a) && !IsOpen(a.open, j.id) && j.admitClock <= at
    requires Answer(AdmitOp(j), book, j.admitClock).Ok? && Answer(AdmitOp(j), book, j.admitClock).value.0.allowed
    ensures var held := ReplayOf(book + [Answer(AdmitOp(j), book, j.admitClock).value.1], j.tenant);
      && held.Ok? && UsageOf(a, at).Ok? && UsageOf(held.value, at).Ok?
      && var u, v := UsageOf(a, at).value, UsageOf(held.value, at).value;
      && v.charged == u.charged && v.runs == u.runs
      && if at < (j.admitClock + 900_000_000) / 1000 * 1000 then
           && v.inflight == u.inflight + 1
           && v.reserved.fuel == u.reserved.fuel + (match j.config.maxFuel case Some(n) => n case None => 0)
           && v.reserved.outputBytes == u.reserved.outputBytes + 20000 +
              (match j.config.ioBudgetBytes case Some(n) => n case None => 0)
           && v.reserved.wallMs == u.reserved.wallMs + j.config.timeoutMs
         else v.inflight == u.inflight && v.reserved == u.reserved
  {
    hide ReplayOf, IsOpen, PutSlot, ActiveSum, DecideAdmit, Sound, Checked;
    var op := AdmitOp(j);
    var slot := Slot(j.id, Reservation(j.config), Some(Stamp(j.admitClock + TTL)));
    Admits(j, book, a);
    AccountIsSound(book, j.tenant);
    AdmitIsChecked(j, book, a);
    ReservesFit(op, a, j.admitClock);
    NewSlotCounts(a.open, slot, at);
    HeldLater(a, op.reserve, j.admitClock, at);
    assert slot.expires == Some((j.admitClock + 900_000_000) / 1000 * 1000);
  }

  lemma AccountIsSound(book: seq<Line>, tenant: string)
    requires ReplayOf(book, tenant).Ok?
    ensures Sound(ReplayOf(book, tenant).value)
  {
    ApplyAllKeepsSound(EMPTY, LinesOf(book, tenant));
  }

  lemma AdmitIsChecked(j: Job, book: seq<Line>, a: Account)
    requires ReplayOf(book, j.tenant) == Ok(a) && Answer(AdmitOp(j), book, j.admitClock).Ok?
    ensures Checked(AdmitOp(j)).Ok? && DecideAdmit(AdmitOp(j), a, j.admitClock).Ok? && InRange(Reservation(j.config))
  {
    hide ReplayOf, DecideAdmit, InRange;
  }

  /** What fits beside the reservations fits beside those that are left later. */
  lemma HeldLater(a: Account, reserve: Charge, clock: int, at: int)
    requires Sound(a) && clock <= at && InRange(reserve) && InRange(Sum(ActiveCharge(a.open, clock), reserve))
    ensures InRange(ActiveCharge(a.open, at)) && InRange(Sum(ActiveCharge(a.open, at), reserve))
  {
    hide ActiveSum, OpenInRange;
    Bounds(a, at);
    ActiveSumFalls(a.open, clock, at, Fuel);
    ActiveSumFalls(a.open, clock, at, OutputBytes);
    ActiveSumFalls(a.open, clock, at, WallMs);
  }

  // ---------- any sequence of runs ----------

  /** Admit lines minus settle and expire lines. */
  function Outstanding(lines: seq<Line>): int {
    if lines == [] then 0
    else
      Outstanding(lines[1..]) +
      (if !lines[0].Line? then 0
       else if lines[0].kind.Admit? then 1
       else if lines[0].kind.Settle? || lines[0].kind.Expire? then -1
       else 0)
  }

  lemma {:induction false} OutstandingConcat(a: seq<Line>, b: seq<Line>)
    ensures Outstanding(a + b) == Outstanding(a) + Outstanding(b)
  {
    if a == [] {
      assert a + b == b;
    } else {
      assert (a + b)[0] == a[0] && (a + b)[1..] == a[1..] + b;
      OutstandingConcat(a[1..], b);
    }
  }

  lemma OutstandingOfTwo(x: Line, y: Line)
    requires x.Line? && x.kind.Admit? && y.Line? && (y.kind.Settle? || y.kind.Expire?)
    ensures Outstanding([x, y]) == 0
  {
    OutstandingConcat([x], [y]);
    assert [x, y] == [x] + [y] && [x][1..] == [] && [y][1..] == [];
    assert Outstanding([x]) == 1 && Outstanding([y]) == -1;
  }

  lemma OutstandingOfRefusal(x: Line)
    requires x.Line? && x.kind.Refuse?
    ensures Outstanding([x]) == 0
  {
    assert [x][1..] == [];
  }

  /** Nothing of the tenant is in flight, and its admissions are all closed. */
  predicate Balanced(book: seq<Line>, tenant: string) {
    && AllParsed(book) && ReplayOf(book, tenant).Ok? && ReplayOf(book, tenant).value.open == []
    && Outstanding(LinesOf(book, tenant)) == 0
  }

  /** Two lines of one tenant, seen by every reader. */
  lemma LinesOfMore(book: seq<Line>, added: seq<Line>, reader: string)
    requires AllParsed(book) && AllParsed(added)
    ensures AllParsed(book + added)
    ensures Outstanding(LinesOf(book + added, reader)) ==
      Outstanding(LinesOf(book, reader)) + Outstanding(LinesOf(added, reader))
  {
    LinesConcat(book, added, reader);
    OutstandingConcat(LinesOf(book, reader), LinesOf(added, reader));
  }

  lemma LinesOfOne(x: Line, reader: string)
    requires x.Line?
    ensures AllParsed([x]) && LinesOf([x], reader) == if x.tenant == Some(reader) then [x] else []
  {
    assert [x][1..] == [];
  }

  lemma LinesOfTwo(x: Line, y: Line, reader: string)
    requires x.Line? && y.Line? && x.tenant == y.tenant
    ensures AllParsed([x, y]) && LinesOf([x, y], reader) == if x.tenant == Some(reader) then [x, y] else []
  {
    assert [x, y][1..] == [y];
    LinesOfOne(y, reader);
  }

  /** A run of one tenant leaves every other tenant's replay alone. */
  lemma OtherTenantsUntouched(j: Job, book: seq<Line>, reader: string)
    requires reader != j.tenant
    ensures ReplayOf(Billed(j, book).1, reader) == ReplayOf(book, reader)
  {
    hide ReplayOf, Writes, After, DecideAdmit, Checked;
    if Decide(AdmitOp(j), book, j.admitClock).Ok? {
      DecidedLineReplays(AdmitOp(j), book, j.admitClock, reader);
      var held := book + [Decide(AdmitOp(j), book, j.admitClock).value];
      if Decide(ExpireRun(j.tenant, j.id), held, j.closeClock).Ok? {
        DecidedLineReplays(ExpireRun(j.tenant, j.id), held, j.closeClock, reader);
      }
      if j.guest.Finish? && Decide(SettleOp(j), held, j.closeClock).Ok? {
        DecidedLineReplays(SettleOp(j), held, j.closeClock, reader);
      }
    }
    AnswerIsDecided(j, book);
  }

  lemma AnswerIsDecided(j: Job, book: seq<Line>)
    ensures var answer := Answer(AdmitOp(j), book, j.admitClock);
      Decide(AdmitOp(j), book, j.admitClock) == if answer.Ok? then Ok(answer.value.1) else Err(answer.error)
  {
    hide DecideAdmit, ReplayOf, Checked;
  }

  lemma RunKeepsBalance(j: Job, book: seq<Line>, reader: string)
    requires Balanced(book, reader) && Balanced(book, j.tenant) && Fits(j, book)
    ensures Balanced(Billed(j, book).1, reader)
  {
    hide ReplayOf, Billed, Fits, LinesOf, AllParsed, Outstanding;
    var a := ReplayOf(book, j.tenant).value;
    NothingOpen(j.id);
    RunAddsOneRecord(j, book, a);
    var (ending, after) := Billed(j, book);
    if ending.BudgetRefused? {
      var x := after[|book|];
      assert after == book + [x];
      LinesOfOne(x, reader);
      LinesOfMore(book, [x], reader);
      OutstandingOfRefusal(x);
      NoneOutstanding();
    } else if !ending.AdmitRaised? {
      var x, y := after[|book|], after[|book| + 1];
      assert after == book + [x, y];
      LinesOfTwo(x, y, reader);
      LinesOfMore(book, [x, y], reader);
      OutstandingOfTwo(x, y);
      NoneOutstanding();
    }
    if reader != j.tenant {
      OtherTenantsUntouched(j, book, reader);
    }
  }

  lemma NothingOpen(id: string)
    ensures !IsOpen([], id)
  {
  }

  lemma NoneOutstanding()
    ensures Outstanding([]) == 0
  {
  }

  /** Runs one after the other. */
  function AllBilled(jobs: seq<Job>, book: seq<Line>): seq<Line> {
    if jobs == [] then book else AllBilled(jobs[1..], Billed(jobs[0], book).1)
  }

  predicate AllFit(jobs: seq<Job>, book: seq<Line>) {
    jobs == [] || (Fits(jobs[0], book) && AllFit(jobs[1..], Billed(jobs[0], book).1))
  }

  ghost predicate AllBalanced(book: seq<Line>) {
    forall tenant :: Balanced(book, tenant)
  }

  lemma {:induction false} RunsKeepBalance(jobs: seq<Job>, book: seq<Line>)
    requires AllBalanced(book) && AllFit(jobs, book)
    ensures AllBalanced(AllBilled(jobs, book))
    decreases |jobs|
  {
    if jobs != [] {
      hide Balanced, Billed, Fits;
      forall tenant ensures Balanced(Billed(jobs[0], book).1, tenant) {
        RunKeepsBalance(jobs[0], book, tenant);
      }
      RunsKeepBalance(jobs[1..], Billed(jobs[0], book).1);
    }
  }

  /** Sequential runs of any tenants over a new book, however they end, leave nothing in flight, and every tenant's
      admissions number its settlements plus its expiries. */
  lemma SequentialRunsLeaveNothingInFlight(jobs: seq<Job>, tenant: string, now: int)
    requires AllFit(jobs, [])
    ensures var book := AllBilled(jobs, []);
      && Balanced(book, tenant)
      && UsageOf(ReplayOf(book, tenant).value, now).Ok?
      && UsageOf(ReplayOf(book, tenant).value, now).value.inflight == 0
      && UsageOf(ReplayOf(book, tenant).value, now).value.reserved == ZERO
  {
    forall t ensures Balanced([], t) {
    }
    RunsKeepBalance(jobs, []);
    assert Balanced(AllBilled(jobs, []), tenant);
  }
}

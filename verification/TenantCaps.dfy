/** What holds of the tenant book after every run. */
module TenantCaps {
  // Any number of writers: the book replays for every reader, and the caps bound what was spent, up to charges the
  // reservations did not cover.

  import opened Prelude
  import opened TenantBook
  import WP = WriterProtocol

  type History = WP.History<Op, Line>

  ghost predicate Valid(h: History, now: int) {
    WP.Valid(Decide, h, now)
  }

  // ---------- writer and reader agree ----------

  /** The account after an operation has succeeded: each operation moves its own fields and no others. */
  function After(op: Op, a: Account, line: Line, clock: int): Account {
    match op
    case AdmitRun(_, reserve, _, ttl, id) =>
      if line.Line? && line.kind.Admit? then
        a.(open := PutSlot(a.open, Slot(id, reserve, Some(Stamp(clock + ttl)))))
      else a.(refused := a.refused + 1)
    case SettleRun(_, admitId, charge, violation, unknown) =>
      a.(charged := Sum(a.charged, charge), open := DropSlot(a.open, admitId), runs := a.runs + 1,
         violations := a.violations + Count(violation), unknown := a.unknown + Count(unknown))
    case ExpireRun(_, admitId) => a.(open := DropSlot(a.open, admitId))
  }

  /** Each line `sealed` produces extends the book to one that replays for the writing tenant, with the state the
      operation means, and leaves every other tenant's replay as it was. */
  lemma DecidedLineReplays(op: Op, book: seq<Line>, clock: int, reader: string)
    requires Decide(op, book, clock).Ok?
    ensures ReplayOf(book, op.tenant).Ok? && AllParsed(book)
    ensures var line := Decide(op, book, clock).value;
      && AllParsed(book + [line]) && line.tenant == Some(op.tenant)
      && ReplayOf(book + [line], reader) ==
         if reader == op.tenant then Ok(After(op, ReplayOf(book, op.tenant).value, line, clock))
         else ReplayOf(book, reader)
  {
    var line := Decide(op, book, clock).value;
    var a := ReplayOf(book, op.tenant).value;
    SealedApplies(op, a, clock, line);
    ReplayOneMore(book, line, reader);
  }

  /** Sealing is what makes a line acceptable to the reader's fold. */
  lemma SealedApplies(op: Op, a: Account, clock: int, line: Line)
    requires Writes(op, a, clock) == Ok(line)
    ensures line.Line? && line.tenant == Some(op.tenant) && Apply(a, line) == Ok(After(op, a, line, clock))
  {
  }

  lemma {:induction false} EveryBookReplays(h: History, now: int, tenant: string)
    requires Valid(h, now)
    ensures AllParsed(WP.Lines(h)) && ReplayOf(WP.Lines(h), tenant).Ok? && Sound(ReplayOf(WP.Lines(h), tenant).value)
  {
    match h
    case Start =>
    case Then(before, op, time, line) =>
      EveryBookReplays(before, time, tenant);
      DecidedLineReplays(op, WP.Lines(before), time, tenant);
      ApplyAllKeepsSound(EMPTY, LinesOf(WP.Lines(h), tenant));
  }

  /** The account that a valid book gives a tenant. */
  ghost function AccountOf(h: History, tenant: string): Account {
    match ReplayOf(WP.Lines(h), tenant)
    case Ok(a) => a
    case Err(_) => EMPTY
  }

  /** One more commit, seen from any tenant. */
  lemma Committed(h: History, now: int, tenant: string)
    requires Valid(h, now) && h.Then?
    ensures Sound(AccountOf(h.before, tenant)) && Sound(AccountOf(h, tenant))
    ensures Decide(h.op, WP.Lines(h.before), h.time) == Ok(h.line) && h.time <= now
    ensures AccountOf(h, tenant) ==
      if tenant == h.op.tenant then After(h.op, AccountOf(h.before, tenant), h.line, h.time)
      else AccountOf(h.before, tenant)
    ensures tenant == h.op.tenant ==> Decided(h.op, AccountOf(h.before, tenant), h.time, h.line)
  {
    EveryBookReplays(h, now, tenant);
    EveryBookReplays(h.before, h.time, tenant);
    DecidedLineReplays(h.op, WP.Lines(h.before), h.time, tenant);
  }

  /** `line` is what `op` writes on account `a`. */
  ghost predicate Decided(op: Op, a: Account, clock: int, line: Line) {
    Checked(op).Ok? && Writes(op, a, clock) == Ok(line)
  }

  /** An accepted admission fits: what was counted at that moment, plus its reservation, is within range and caps. */
  lemma AdmittedFits(op: Op, a: Account, clock: int, line: Line, d: Dim)
    requires op.AdmitRun? && Sound(a) && Decided(op, a, clock, line) && line.kind.Admit?
    ensures InRange(op.reserve) && op.ttl > 0
    ensures !d.Runs? ==> Settled(a, d) + ActiveSum(a.open, clock, d) + Amount(op.reserve, d) <= MAX_SAFE_INTEGER
    ensures op.budget.Some? && Cap(op.budget.value, d).Some? ==>
      Settled(a, d) + ActiveSum(a.open, clock, d) + Amount(op.reserve, d) <= Cap(op.budget.value, d).value
  {
    var usage := UsageOf(a, clock).value;
    var balance := Plus(usage.charged, usage.reserved).value;
    var prospective := Plus(balance, op.reserve).value;
    if op.budget.Some? {
      assert !Over(op.budget.value, d, usage.runs + usage.inflight + 1, prospective);
    }
  }

  function Max0(x: int): int {
    if x > 0 then x else 0
  }

  /** What one settle charges beyond what was reserved for it at that moment: all of it when the TTL has lapsed. */
  function Uncovered(a: Account, op: Op, clock: int, d: Dim): int {
    if op.SettleRun? && IsOpen(a.open, op.admitId) then
      var slot := SlotOf(a.open, op.admitId);
      if Active(slot, clock) then Max0(Amount(op.charge, d) - Amount(slot.reserve, d)) else Amount(op.charge, d)
    else 0
  }

  /** The answer of `admit`, in full: it raises exactly when a sum leaves the safe range, and otherwise refuses exactly
      when some cap would be passed, naming the first such dimension. */
  lemma AdmitsExactly(op: Op, a: Account, clock: int)
    requires op.AdmitRun? && Sound(a) && InRange(op.reserve)
    ensures var answer := DecideAdmit(op, a, clock);
      && (answer.Ok? <==> forall d: Dim ::
            d.Runs? || Settled(a, d) + ActiveSum(a.open, clock, d) + Amount(op.reserve, d) <= MAX_SAFE_INTEGER)
      && (answer.Ok? ==> (answer.value.0.allowed <==> forall d: Dim :: !Exceeds(op, a, clock, d)))
      && (answer.Ok? && !answer.value.0.allowed ==>
            var limit := answer.value.0.limit;
            limit.Some? && Exceeds(op, a, clock, limit.value) &&
            forall d: Dim :: Rank(d) < Rank(limit.value) ==> !Exceeds(op, a, clock, d))
  {
    hide DecideAdmit, Over, Exceeds;
    AdmitSums(op, a, clock);
    if DecideAdmit(op, a, clock).Ok? {
      AdmitLimit(op, a, clock);
      if op.budget.Some? {
        forall d: Dim
          ensures Over(op.budget.value, d, Runs1(a, clock), Needed(op, a, clock)) <==> Exceeds(op, a, clock, d)
        {
          OverIsExceeds(op, a, clock, d);
        }
      } else {
        forall d: Dim ensures !Exceeds(op, a, clock, d) {
          OverIsExceeds(op, a, clock, d);
        }
      }
    }
  }

  function Runs1(a: Account, clock: int): int {
    a.runs + ActiveSum(a.open, clock, Runs) + 1
  }

  /** Settled, reserved and this run together. */
  function Needed(op: Op, a: Account, clock: int): Charge
    requires op.AdmitRun?
  {
    Sum(Sum(a.charged, ActiveCharge(a.open, clock)), op.reserve)
  }

  lemma AdmitSums(op: Op, a: Account, clock: int)
    requires op.AdmitRun? && Sound(a) && InRange(op.reserve)
    ensures DecideAdmit(op, a, clock).Ok? <==>
      forall d: Dim ::
        d.Runs? || Settled(a, d) + ActiveSum(a.open, clock, d) + Amount(op.reserve, d) <= MAX_SAFE_INTEGER
  {
    hide ActiveSum, OpenInRange;
    Bounds(a, clock);
    var needed: Dim -> int := d => Settled(a, d) + ActiveSum(a.open, clock, d) + Amount(op.reserve, d);
    assert (forall d: Dim :: d.Runs? || needed(d) <= MAX_SAFE_INTEGER) <==>
      needed(Fuel) <= MAX_SAFE_INTEGER && needed(OutputBytes) <= MAX_SAFE_INTEGER && needed(WallMs) <= MAX_SAFE_INTEGER;
  }

  lemma AdmitLimit(op: Op, a: Account, clock: int)
    requires op.AdmitRun? && DecideAdmit(op, a, clock).Ok?
    ensures var admission := DecideAdmit(op, a, clock).value.0;
      var limit := if op.budget.Some? then FirstOver(op.budget.value, Runs1(a, clock), Needed(op, a, clock)) else None;
      (admission.allowed <==> limit.None?) && (limit.Some? ==> admission.limit == limit)
  {
    hide ActiveSum, FirstOver;
  }

  lemma OverIsExceeds(op: Op, a: Account, clock: int, d: Dim)
    requires op.AdmitRun?
    ensures op.budget.Some? ==>
      (Over(op.budget.value, d, Runs1(a, clock), Needed(op, a, clock)) <==> Exceeds(op, a, clock, d))
    ensures op.budget.None? ==> !Exceeds(op, a, clock, d)
  {
    hide ActiveSum;
  }

  lemma Bounds(a: Account, clock: int)
    requires Sound(a)
    ensures forall d: Dim :: ActiveSum(a.open, clock, d) >= 0
  {
    forall d: Dim ensures ActiveSum(a.open, clock, d) >= 0 {
      ActiveSumBounds(a.open, clock, d);
    }
  }

  /** With this reservation the account would pass the budget's cap in dimension `d`. */
  predicate Exceeds(op: Op, a: Account, clock: int, d: Dim)
    requires op.AdmitRun?
  {
    op.budget.Some? && Cap(op.budget.value, d).Some? &&
    Settled(a, d) + ActiveSum(a.open, clock, d) + Amount(op.reserve, d) > Cap(op.budget.value, d).value
  }

  predicate Admitted(op: Op, line: Line) {
    op.AdmitRun? && line.Line? && line.kind.Admit?
  }

  /** How much an operation at `clock` can raise what is reserved, and what is settled plus reserved, at `now`. */
  lemma StepBalance(op: Op, a: Account, clock: int, line: Line, now: int, d: Dim)
    requires Sound(a) && Decided(op, a, clock, line) && clock <= now
    ensures var b := After(op, a, line, clock);
      && ActiveSum(b.open, now, d) <=
         ActiveSum(a.open, clock, d) + (if Admitted(op, line) then Amount(op.reserve, d) else 0)
      && Settled(b, d) + ActiveSum(b.open, now, d) <= Settled(a, d) + ActiveSum(a.open, clock, d)
         + if Admitted(op, line) then Amount(op.reserve, d) else Uncovered(a, op, clock, d)
  {
    ActiveSumFalls(a.open, clock, now, d);
    match op
    case AdmitRun(_, reserve, _, ttl, id) =>
      PutSum(a.open, Slot(id, reserve, Some(Stamp(clock + ttl))), now, d);
    case SettleRun(_, id, charge, _, _) =>
      DropSum(a.open, id, clock, d);
      ActiveSumFalls(DropSlot(a.open, id), clock, now, d);
    case ExpireRun(_, id) => DropSum(a.open, id, now, d);
  }

  // ---------- the reading is defined ----------

  lemma {:induction false} ReservationsStayInRange(h: History, now: int, tenant: string, d: Dim)
    requires Valid(h, now) && !d.Runs?
    ensures ActiveSum(AccountOf(h, tenant).open, now, d) <= MAX_SAFE_INTEGER
  {
    match h
    case Start =>
    case Then(before, op, time, line) =>
      ReservationsStayInRange(before, time, tenant, d);
      Balanced(h, now, tenant, d);
  }

  /** `StepBalance` for the last commit of a history; another tenant's account only loses lapsed reservations. */
  lemma Balanced(h: History, now: int, tenant: string, d: Dim)
    requires Valid(h, now) && h.Then?
    ensures var a, b := AccountOf(h.before, tenant), AccountOf(h, tenant);
      if h.op.tenant != tenant then
        a == b && ActiveSum(b.open, now, d) <= ActiveSum(a.open, h.time, d)
      else if Admitted(h.op, h.line) then
        var reserve := Amount(h.op.reserve, d);
        && Settled(b, d) + ActiveSum(b.open, now, d) <= Settled(a, d) + ActiveSum(a.open, h.time, d) + reserve
        && ActiveSum(b.open, now, d) <= ActiveSum(a.open, h.time, d) + reserve
        && Settled(a, d) >= 0
        && (!d.Runs? ==> Settled(a, d) + ActiveSum(a.open, h.time, d) + reserve <= MAX_SAFE_INTEGER)
        && (h.op.budget.Some? && Cap(h.op.budget.value, d).Some? ==>
              Settled(a, d) + ActiveSum(a.open, h.time, d) + reserve <= Cap(h.op.budget.value, d).value)
      else
        && Settled(b, d) + ActiveSum(b.open, now, d) <=
           Settled(a, d) + ActiveSum(a.open, h.time, d) + Uncovered(a, h.op, h.time, d)
        && ActiveSum(b.open, now, d) <= ActiveSum(a.open, h.time, d)
  {
    hide ActiveSum, After, Checked, Writes, DecideAdmit, DecideSettle, DecideExpire, Fold, Seal;
    Committed(h, now, tenant);
    var a := AccountOf(h.before, tenant);
    ActiveSumFalls(a.open, h.time, now, d);
    if tenant == h.op.tenant {
      StepBalance(h.op, a, h.time, h.line, now, d);
      if Admitted(h.op, h.line) {
        AdmittedFits(h.op, a, h.time, h.line, d);
      }
    }
  }

  /** After any run, reading any tenant's usage at any moment from the last write on succeeds. */
  lemma UsageIsDefined(h: History, now: int, tenant: string)
    requires Valid(h, now)
    ensures UsageOf(AccountOf(h, tenant), now).Ok?
  {
    var a := AccountOf(h, tenant);
    EveryBookReplays(h, now, tenant);
    ReservationsStayInRange(h, now, tenant, Fuel);
    ReservationsStayInRange(h, now, tenant, OutputBytes);
    ReservationsStayInRange(h, now, tenant, WallMs);
    ActiveSumBounds(a.open, now, Fuel);
    ActiveSumBounds(a.open, now, OutputBytes);
    ActiveSumBounds(a.open, now, WallMs);
  }

  // ---------- cap safety ----------

  /** Every admission of the tenant was decided under a cap of at most `cap` in dimension `d`. */
  ghost predicate CappedBy(h: History, tenant: string, d: Dim, cap: int) {
    match h
    case Start => true
    case Then(before, op, _, _) =>
      && CappedBy(before, tenant, d, cap)
      && (op.AdmitRun? && op.tenant == tenant ==>
           op.budget.Some? && Cap(op.budget.value, d).Some? && Cap(op.budget.value, d).value <= cap)
  }

  ghost function Excess(h: History, tenant: string, d: Dim): int {
    match h
    case Start => 0
    case Then(before, op, time, _) =>
      Excess(before, tenant, d)
      + if op.tenant == tenant then Uncovered(AccountOf(before, tenant), op, time, d) else 0
  }

  /** Settled plus still reserved never exceeds the cap plus the charges no live reservation covered, in every
      dimension, at every moment from the last write on, whatever the writers did. */
  lemma {:induction false} CapHolds(h: History, now: int, tenant: string, d: Dim, cap: int)
    requires Valid(h, now) && CappedBy(h, tenant, d, cap) && cap >= 0
    ensures var a := AccountOf(h, tenant);
      Settled(a, d) + ActiveSum(a.open, now, d) <= cap + Excess(h, tenant, d)
  {
    match h
    case Start =>
    case Then(before, op, time, line) =>
      CapHolds(before, time, tenant, d, cap);
      ExcessIsPositive(before, time, tenant, d);
      Balanced(h, now, tenant, d);
  }

  /** What one decided operation charges without cover. */
  lemma UncoveredIs(op: Op, a: Account, clock: int, line: Line, d: Dim)
    requires Decided(op, a, clock, line)
    ensures Uncovered(a, op, clock, d) >= 0
    ensures op.SettleRun? ==>
      IsOpen(a.open, op.admitId) && var slot := SlotOf(a.open, op.admitId);
      Uncovered(a, op, clock, d) == 0 <==>
        if Active(slot, clock) then Amount(op.charge, d) <= Amount(slot.reserve, d) else Amount(op.charge, d) == 0
  {
    hide IsOpen, SlotOf, DropSlot, PutSlot, DecideAdmit, Fold;
  }

  lemma {:induction false} ExcessIsPositive(h: History, now: int, tenant: string, d: Dim)
    requires Valid(h, now)
    ensures Excess(h, tenant, d) >= 0
  {
    match h
    case Start =>
    case Then(before, op, time, line) =>
      hide Uncovered, Decided, AccountOf, After, Decide;
      ExcessIsPositive(before, time, tenant, d);
      Committed(h, now, tenant);
      if op.tenant == tenant {
        UncoveredIs(op, AccountOf(before, tenant), time, line, d);
      }
  }

  /** Every settle of the tenant came before its admission lapsed and charged no more than was reserved. */
  ghost predicate Covered(h: History, tenant: string, d: Dim) {
    match h
    case Start => true
    case Then(before, op, time, _) =>
      && Covered(before, tenant, d)
      && (op.SettleRun? && op.tenant == tenant ==>
           var a := AccountOf(before, tenant);
           IsOpen(a.open, op.admitId) && var slot := SlotOf(a.open, op.admitId);
           if Active(slot, time) then Amount(op.charge, d) <= Amount(slot.reserve, d) else Amount(op.charge, d) == 0)
  }

  /** The correction vanishes exactly when every settle was covered by its live reservation. */
  lemma {:induction false} NoExcessIffCovered(h: History, now: int, tenant: string, d: Dim)
    requires Valid(h, now)
    ensures Excess(h, tenant, d) == 0 <==> Covered(h, tenant, d)
  {
    match h
    case Start =>
    case Then(before, op, time, line) =>
      hide Uncovered, Decided, AccountOf, After, Decide, IsOpen, Active;
      NoExcessIffCovered(before, time, tenant, d);
      ExcessIsPositive(before, time, tenant, d);
      Committed(h, now, tenant);
      if op.tenant == tenant {
        UncoveredIs(op, AccountOf(before, tenant), time, line, d);
        if !op.SettleRun? {
          OnlySettlesCount(AccountOf(before, tenant), op, time, d);
        }
      }
  }

  lemma OnlySettlesCount(a: Account, op: Op, clock: int, d: Dim)
    requires !op.SettleRun?
    ensures Uncovered(a, op, clock, d) == 0
  {
  }

  /** The same for the lock protocol: any number of writers, any schedule, crashes anywhere. */
  lemma EveryRunIsSafe(began: int, events: seq<WP.Event<Op>>, tenant: string, d: Dim, cap: int)
    requires WP.Run(Decide, WP.Initial(began), events).Some?
    ensures var t := WP.Run(Decide, WP.Initial(began), events).value;
      && ReplayOf(t.book, tenant).Ok?
      && var a := ReplayOf(t.book, tenant).value;
      && UsageOf(a, t.now).Ok?
      && (cap >= 0 && CappedBy(t.history, tenant, d, cap) ==>
            Settled(a, d) + ActiveSum(a.open, t.now, d) <= cap + Excess(t.history, tenant, d))
  {
    WP.InitialIsValid(Decide, began);
    WP.EveryRunIsValid(Decide, WP.Initial(began), events);
    var t := WP.Run(Decide, WP.Initial(began), events).value;
    EveryBookReplays(t.history, t.now, tenant);
    UsageIsDefined(t.history, t.now, tenant);
    if cap >= 0 && CappedBy(t.history, tenant, d, cap) {
      CapHolds(t.history, t.now, tenant, d, cap);
    }
  }

  // ---------- the bare cap does not hold ----------

  /** Committing an operation that the account allows. */
  lemma Extend(h: History, now: int, op: Op, clock: int, d: Dim, cap: int) returns (next: History)
    requires Valid(h, now) && now <= clock && Checked(op).Ok?
    requires Writes(op, AccountOf(h, op.tenant), clock).Ok?
    ensures var a := AccountOf(h, op.tenant);
      var line := Writes(op, a, clock).value;
      && Valid(next, clock) && AccountOf(next, op.tenant) == After(op, a, line, clock)
      && Excess(next, op.tenant, d) == Excess(h, op.tenant, d) + Uncovered(a, op, clock, d)
    ensures CappedBy(next, op.tenant, d, cap) <==> CappedBy(h, op.tenant, d, cap) && (op.AdmitRun? ==>
      op.budget.Some? && Cap(op.budget.value, d).Some? && Cap(op.budget.value, d).value <= cap)
  {
    hide Writes, Checked, After, Uncovered;
    EveryBookReplays(h, now, op.tenant);
    WP.LaterIsValid(Decide, h, now, clock);
    next := WP.Then(h, op, clock, Writes(op, AccountOf(h, op.tenant), clock).value);
    Committed(next, clock, op.tenant);
  }

  const TEN := Charge(10, 0, 0)
  const FUEL_CAP := Budget(Some(10), None, None, None)

  const FIRST := Slot("a", TEN, Some(1000))
  const SECOND := Slot("b", TEN, Some(3000))

  lemma FirstThenSecond()
    ensures IsOpen([FIRST, SECOND], "a") && SlotOf([FIRST, SECOND], "a") == FIRST
    ensures DropSlot([FIRST, SECOND], "a") == [SECOND]
    ensures IsOpen([SECOND], "b") && SlotOf([SECOND], "b") == SECOND && DropSlot([SECOND], "b") == []
    ensures PutSlot([], FIRST) == [FIRST] && PutSlot([FIRST], SECOND) == [FIRST, SECOND]
    ensures ActiveCharge([FIRST], 2000) == ZERO
    ensures ActiveCharge([], 0) == ZERO
  {
    var none: seq<Slot> := [];
    assert !Active(FIRST, 2000);
    assert forall d: Dim :: ActiveSum(none, 2000, d) == 0;
    assert forall d: Dim :: ActiveSum([FIRST], 2000, d) == ActiveSum([FIRST][1..], 2000, d);
    assert [SECOND][1..] == none && [FIRST, SECOND][1..] == [SECOND] && [FIRST][1..] == none;
    assert DropSlot([SECOND], "b") == DropSlot(none, "b");
    assert DropSlot([SECOND], "a") == [SECOND] + DropSlot(none, "a");
    assert PutSlot([FIRST], SECOND) == [FIRST] + PutSlot(none, SECOND);
  }

  /** With nothing counted, ten more fit under a cap of ten. */
  lemma TenFits(a: Account, clock: int, id: string)
    requires a == EMPTY.(open := a.open) && ActiveCharge(a.open, clock) == ZERO
    ensures var op := AdmitRun("t", TEN, Some(FUEL_CAP), 1000, id);
      && Checked(op).Ok? && Writes(op, a, clock).Ok?
      && After(op, a, Writes(op, a, clock).value, clock) ==
         EMPTY.(open := PutSlot(a.open, Slot(id, TEN, Some(Stamp(clock + 1000)))))
  {
    hide ActiveSum, PutSlot, Sum;
    ZeroAdds();
    var op := AdmitRun("t", TEN, Some(FUEL_CAP), 1000, id);
    assert FirstOver(FUEL_CAP, ActiveSum(a.open, clock, Runs) + 1, TEN) == None;
    assert DecideAdmit(op, a, clock).Ok? && DecideAdmit(op, a, clock).value.1.kind == Admit;
  }

  lemma ZeroAdds()
    ensures Sum(ZERO, ZERO) == ZERO && Sum(ZERO, TEN) == TEN && Sum(TEN, TEN) == Charge(20, 0, 0)
  {
    hide Sum;
    SumIs(ZERO, ZERO);
    SumIs(ZERO, TEN);
    SumIs(TEN, TEN);
  }

  lemma SumIs(a: Charge, b: Charge)
    ensures Sum(a, b) == Charge(a.fuel + b.fuel, a.outputBytes + b.outputBytes, a.wallMs + b.wallMs)
  {
  }

  lemma TenSettles(a: Account, clock: int, id: string)
    requires IsOpen(a.open, id) && InRange(Sum(a.charged, TEN))
    ensures var op := SettleRun("t", id, TEN, false, false);
      && Checked(op).Ok? && Writes(op, a, clock).Ok?
      && After(op, a, Writes(op, a, clock).value, clock) ==
         a.(charged := Sum(a.charged, TEN), open := DropSlot(a.open, id), runs := a.runs + 1)
      && Uncovered(a, op, clock, Fuel) ==
         (if Active(SlotOf(a.open, id), clock) then Max0(10 - SlotOf(a.open, id).reserve.fuel) else 10)
  {
    hide IsOpen, DropSlot, Sum;
  }

  /** A lapsed admission makes room for a second one, and then both settle: twice the cap is spent. */
  lemma LateSettleExceedsCap() returns (h: History)
    ensures Valid(h, 2000) && CappedBy(h, "t", Fuel, 10)
    ensures Settled(AccountOf(h, "t"), Fuel) == 20 && Excess(h, "t", Fuel) == 10
  {
    hide PutSlot, DropSlot, SlotOf, IsOpen, ActiveSum, Writes, After, Checked;
    hide Uncovered, Excess, CappedBy, AccountOf, Sum;
    FirstThenSecond();
    ZeroAdds();
    Unused();
    TenFits(EMPTY, 0, "a");
    var h1 := Extend(WP.Start, 0, AdmitRun("t", TEN, Some(FUEL_CAP), 1000, "a"), 0, Fuel, 10);
    TenFits(EMPTY.(open := [FIRST]), 2000, "b");
    var h2 := Extend(h1, 0, AdmitRun("t", TEN, Some(FUEL_CAP), 1000, "b"), 2000, Fuel, 10);
    assert Uncovered(EMPTY, AdmitRun("t", TEN, Some(FUEL_CAP), 1000, "a"), 0, Fuel) == 0;
    TenSettles(AccountOf(h2, "t"), 2000, "a");
    var h3 := Extend(h2, 2000, SettleRun("t", "a", TEN, false, false), 2000, Fuel, 10);
    TenSettles(AccountOf(h3, "t"), 2000, "b");
    h := Extend(h3, 2000, SettleRun("t", "b", TEN, false, false), 2000, Fuel, 10);
  }

  lemma Unused()
    ensures Valid(WP.Start, 0) && AccountOf(WP.Start, "t") == EMPTY
    ensures Excess(WP.Start, "t", Fuel) == 0 && CappedBy(WP.Start, "t", Fuel, 10)
    ensures forall a: Account, op: Op, clock: int, d: Dim :: !op.SettleRun? ==> Uncovered(a, op, clock, d) == 0
  {
  }

  // ---------- reading an earlier moment ----------

  const WHOLE := Charge(MAX_SAFE_INTEGER, 0, 0)

  const OLD := Slot("a", WHOLE, Some(1000))
  const NEW := Slot("b", WHOLE, Some(3000))

  lemma OldThenNew()
    ensures PutSlot([], OLD) == [OLD] && PutSlot([OLD], NEW) == [OLD, NEW]
    ensures ActiveCharge([OLD], 2000) == ZERO && ActiveSum([OLD, NEW], 0, Fuel) == 2 * MAX_SAFE_INTEGER
  {
    var none: seq<Slot> := [];
    assert [OLD][1..] == none && [OLD, NEW][1..] == [NEW] && [NEW][1..] == none;
    assert forall d: Dim :: ActiveSum([OLD], 2000, d) == ActiveSum([OLD][1..], 2000, d);
    assert forall d: Dim :: ActiveSum(none, 2000, d) == 0;
    assert ActiveSum([OLD, NEW], 0, Fuel) == MAX_SAFE_INTEGER + ActiveSum([NEW], 0, Fuel);
    assert ActiveSum([NEW], 0, Fuel) == MAX_SAFE_INTEGER + ActiveSum(none, 0, Fuel);
    assert PutSlot([OLD], NEW) == [OLD] + PutSlot(none, NEW);
  }

  lemma WholeFits(a: Account, clock: int, id: string)
    requires a == EMPTY.(open := a.open) && ActiveCharge(a.open, clock) == ZERO
    ensures var op := AdmitRun("t", WHOLE, None, 1000, id);
      && Checked(op).Ok? && Writes(op, a, clock).Ok?
      && After(op, a, Writes(op, a, clock).value, clock) ==
         EMPTY.(open := PutSlot(a.open, Slot(id, WHOLE, Some(Stamp(clock + 1000)))))
  {
    hide ActiveSum, PutSlot, Sum;
    ZeroAdds();
    SumIs(ZERO, WHOLE);
    var op := AdmitRun("t", WHOLE, None, 1000, id);
    assert DecideAdmit(op, a, clock).Ok? && DecideAdmit(op, a, clock).value.1.kind == Admit;
  }

  /** Only from the last write on is a reading defined: an earlier one can count a lapsed reservation again, beside the
      one that took its place, and overflow. */
  lemma EarlierReadingOverflows() returns (h: History)
    ensures Valid(h, 2000) && UsageOf(AccountOf(h, "t"), 2000).Ok? && UsageOf(AccountOf(h, "t"), 0).Err?
  {
    hide PutSlot, DropSlot, SlotOf, IsOpen, ActiveSum, Writes, After, Checked;
    hide Uncovered, Excess, CappedBy, AccountOf, Sum;
    OldThenNew();
    FirstThenSecond();
    Unused();
    WholeFits(EMPTY, 0, "a");
    var h1 := Extend(WP.Start, 0, AdmitRun("t", WHOLE, None, 1000, "a"), 0, Fuel, 10);
    WholeFits(EMPTY.(open := [OLD]), 2000, "b");
    h := Extend(h1, 0, AdmitRun("t", WHOLE, None, 1000, "b"), 2000, Fuel, 10);
    UsageIsDefined(h, 2000, "t");
  }
}

/** What a tenant's usage shows, read off the operations that were written. */
module TenantUsage {
  // Counted from the history and from no account, so that it says what every field of the account means.

  import opened Prelude
  import opened TenantBook
  import opened TenantCaps
  import WP = WriterProtocol

  /** Settled runs and what they were charged, refusals, and what is held by admissions nobody has closed. */
  datatype Tally = Tally(
    runs: int, fuel: int, outputBytes: int, wallMs: int, violations: int, refused: int, unknown: int,
    inflight: int, heldFuel: int, heldOutput: int, heldWall: int)

  function Nothing(): Tally {
    Tally(0, 0, 0, 0, 0, 0, 0, 0, 0, 0, 0)
  }

  function Add(s: Tally, t: Tally): Tally {
    Tally(s.runs + t.runs, s.fuel + t.fuel, s.outputBytes + t.outputBytes, s.wallMs + t.wallMs,
          s.violations + t.violations, s.refused + t.refused, s.unknown + t.unknown,
          s.inflight + t.inflight, s.heldFuel + t.heldFuel, s.heldOutput + t.heldOutput, s.heldWall + t.heldWall)
  }

  /** One admission, counted at `at` until its expiry; one without an expiry is counted for ever. */
  function Held(reserve: Charge, expires: Option<int>, at: int): Tally {
    if expires.None? || at < expires.value then
      Tally(0, 0, 0, 0, 0, 0, 0, 1, reserve.fuel, reserve.outputBytes, reserve.wallMs)
    else Nothing()
  }

  function Refusal(): Tally {
    Tally(0, 0, 0, 0, 0, 1, 0, 0, 0, 0, 0)
  }

  function Settlement(charge: Charge, violation: bool, unknown: bool): Tally {
    Tally(1, charge.fuel, charge.outputBytes, charge.wallMs,
          if violation then 1 else 0, 0, if unknown then 1 else 0, 0, 0, 0, 0)
  }

  /** What an operation adds to the tally. An admission expires at the millisecond of its clock reading plus its time to
      live. */
  function Effect(op: Op, time: int, line: Line, at: int, closed: set<string>): Tally {
    match op
    case AdmitRun(_, reserve, _, ttl, id) =>
      if line.Line? && line.kind.Refuse? then Refusal()
      else if id in closed then Nothing()
      else Held(reserve, Some((time + ttl) / 1000 * 1000), at)
    case SettleRun(_, _, charge, violation, unknown) => Settlement(charge, violation, unknown)
    case ExpireRun(_, _) => Nothing()
  }

  /** The admissions that are closed, or given again, from this operation on. */
  function Closed(op: Op, line: Line, closed: set<string>): set<string> {
    match op
    case AdmitRun(_, _, _, _, id) => if line.Line? && line.kind.Refuse? then closed else closed + {id}
    case SettleRun(_, id, _, _, _) => closed + {id}
    case ExpireRun(_, id) => closed + {id}
  }

  /** The operations of one tenant, the last one first; `closed` are the admissions that a later line closed or gave
      again. */
  function TallyOf(h: History, tenant: string, at: int, closed: set<string>): Tally {
    match h
    case Start => Nothing()
    case Then(before, op, time, line) =>
      if op.tenant != tenant then TallyOf(before, tenant, at, closed)
      else
        Add(TallyOf(before, tenant, at, Closed(op, line, closed)), Effect(op, time, line, at, closed))
  }

  // ---------- the same of an account ----------

  function HeldBy(open: seq<Slot>, at: int, closed: set<string>): Tally {
    if open == [] then Nothing()
    else
      Add(HeldBy(open[1..], at, closed),
          if open[0].id in closed then Nothing() else Held(open[0].reserve, open[0].expires, at))
  }

  function SettledTally(a: Account): Tally {
    Tally(a.runs, a.charged.fuel, a.charged.outputBytes, a.charged.wallMs, a.violations, a.refused, a.unknown,
          0, 0, 0, 0)
  }

  function AccountTally(a: Account, at: int, closed: set<string>): Tally {
    Add(SettledTally(a), HeldBy(a.open, at, closed))
  }

  lemma AddShuffles(s: Tally, t: Tally, u: Tally)
    ensures Add(Add(s, t), u) == Add(Add(s, u), t) && Add(s, Nothing()) == s
    ensures Add(Add(s, t), u) == Add(s, Add(t, u))
  {
  }

  predicate NoIdTwice(open: seq<Slot>) {
    open == [] || (!IsOpen(open[1..], open[0].id) && NoIdTwice(open[1..]))
  }

  lemma {:induction false} HeldWithout(open: seq<Slot>, at: int, closed: set<string>, id: string)
    requires !IsOpen(open, id)
    ensures HeldBy(open, at, closed + {id}) == HeldBy(open, at, closed)
  {
    hide Add, Held;
    if open != [] {
      HeldWithout(open[1..], at, closed, id);
    }
  }

  lemma {:induction false} StillNotOpen(open: seq<Slot>, s: Slot, id: string)
    requires !IsOpen(open, id) && id != s.id
    ensures !IsOpen(PutSlot(open, s), id)
  {
    if open != [] {
      StillNotOpen(open[1..], s, id);
      assert ([s] + open[1..])[1..] == open[1..];
      assert ([open[0]] + PutSlot(open[1..], s))[1..] == PutSlot(open[1..], s);
    } else {
      assert [s][1..] == [];
    }
  }

  lemma {:induction false} HeldAfterPut(open: seq<Slot>, s: Slot, at: int, closed: set<string>)
    requires NoIdTwice(open)
    ensures NoIdTwice(PutSlot(open, s))
    ensures HeldBy(PutSlot(open, s), at, closed) ==
      Add(HeldBy(open, at, closed + {s.id}), if s.id in closed then Nothing() else Held(s.reserve, s.expires, at))
  {
    hide Add, Held;
    var more := if s.id in closed then Nothing() else Held(s.reserve, s.expires, at);
    if open == [] {
      assert [s][1..] == [];
    } else if open[0].id == s.id {
      HeldWithout(open[1..], at, closed, s.id);
      AddShuffles(HeldBy(open[1..], at, closed), Nothing(), Nothing());
      assert ([s] + open[1..])[1..] == open[1..];
    } else {
      HeldAfterPut(open[1..], s, at, closed);
      AddShuffles(HeldBy(open[1..], at, closed + {s.id}), more,
                  if open[0].id in closed then Nothing() else Held(open[0].reserve, open[0].expires, at));
      StillNotOpen(open[1..], s, open[0].id);
      assert ([open[0]] + PutSlot(open[1..], s))[1..] == PutSlot(open[1..], s);
    }
  }

  lemma {:induction false} GoneAfterDrop(open: seq<Slot>, id: string, other: string)
    requires !IsOpen(open, other)
    ensures !IsOpen(DropSlot(open, id), other)
  {
    if open != [] {
      GoneAfterDrop(open[1..], id, other);
      assert ([open[0]] + DropSlot(open[1..], id))[1..] == DropSlot(open[1..], id);
    }
  }

  lemma {:induction false} HeldAfterDrop(open: seq<Slot>, id: string, at: int, closed: set<string>)
    requires NoIdTwice(open)
    ensures NoIdTwice(DropSlot(open, id))
    ensures HeldBy(DropSlot(open, id), at, closed) == HeldBy(open, at, closed + {id})
  {
    hide Add, Held;
    if open != [] {
      HeldAfterDrop(open[1..], id, at, closed);
      AddShuffles(HeldBy(open[1..], at, closed + {id}), Nothing(), Nothing());
      GoneAfterDrop(open[1..], id, open[0].id);
      assert ([open[0]] + DropSlot(open[1..], id))[1..] == DropSlot(open[1..], id);
    }
  }

  lemma AfterAdmit(a: Account, op: Op, line: Line, clock: int, at: int, closed: set<string>)
    requires NoIdTwice(a.open) && op.AdmitRun? && line.Line? && (line.kind.Admit? || line.kind.Refuse?)
    ensures var b := After(op, a, line, clock);
      && NoIdTwice(b.open)
      && AccountTally(b, at, closed) ==
         Add(AccountTally(a, at, Closed(op, line, closed)), Effect(op, clock, line, at, closed))
  {
    hide Held, HeldBy, NoIdTwice, PutSlot;
    if line.kind.Admit? {
      hide Add;
      var slot := Slot(op.id, op.reserve, Some(Stamp(clock + op.ttl)));
      HeldAfterPut(a.open, slot, at, closed);
      AddShuffles(SettledTally(a), HeldBy(a.open, at, closed + {op.id}),
                  if op.id in closed then Nothing() else Held(op.reserve, slot.expires, at));
    }
  }

  lemma AfterClose(a: Account, op: Op, line: Line, clock: int, at: int, closed: set<string>)
    requires NoIdTwice(a.open) && !op.AdmitRun?
    ensures var b := After(op, a, line, clock);
      && NoIdTwice(b.open)
      && AccountTally(b, at, closed) ==
         Add(AccountTally(a, at, Closed(op, line, closed)), Effect(op, clock, line, at, closed))
  {
    hide HeldBy, NoIdTwice, DropSlot;
    HeldAfterDrop(a.open, op.admitId, at, closed);
  }

  lemma EmptyTally(at: int, closed: set<string>)
    ensures AccountTally(EMPTY, at, closed) == Nothing() && NoIdTwice(EMPTY.open)
  {
  }

  /** What the account holds is what the history says. */
  lemma {:induction false} AccountIsTally(h: History, now: int, tenant: string, at: int, closed: set<string>)
    requires Valid(h, now)
    ensures NoIdTwice(AccountOf(h, tenant).open)
    ensures AccountTally(AccountOf(h, tenant), at, closed) == TallyOf(h, tenant, at, closed)
    decreases h
  {
    match h
    case Start => EmptyTally(at, closed);
    case Then(before, op, time, line) =>
      hide AccountOf, Writes, NoIdTwice, Valid, AccountTally, Add, Effect, Closed, After, Sound, Nothing;
      BeforeIsValid(h, now);
      Committed(h, now, tenant);
      var a := AccountOf(before, tenant);
      if op.tenant != tenant {
        AccountIsTally(before, time, tenant, at, closed);
      } else {
        AccountIsTally(before, time, tenant, at, Closed(op, line, closed));
        if op.AdmitRun? {
          AdmitLine(op, a, time, line);
          AfterAdmit(a, op, line, time, at, closed);
        } else {
          AfterClose(a, op, line, time, at, closed);
        }
      }
  }

  lemma BeforeIsValid(h: History, now: int)
    requires Valid(h, now) && h.Then?
    ensures Valid(h.before, h.time)
  {
  }

  lemma AdmitLine(op: Op, a: Account, clock: int, line: Line)
    requires op.AdmitRun? && Decided(op, a, clock, line)
    ensures line.Line? && (line.kind.Admit? || line.kind.Refuse?)
  {
  }

  /** `usage()` reads these sums off the open admissions. */
  lemma {:induction false} HeldIsActive(open: seq<Slot>, at: int, closed: set<string>)
    requires closed == {}
    ensures HeldBy(open, at, closed) ==
      Tally(0, 0, 0, 0, 0, 0, 0, ActiveSum(open, at, Runs), ActiveSum(open, at, Fuel),
            ActiveSum(open, at, OutputBytes), ActiveSum(open, at, WallMs))
  {
    if open == [] {
    } else {
      hide Held, Nothing;
      HeldIsActive(open[1..], at, closed);
      HeldIsShare(open[0], at);
    }
  }

  lemma HeldIsShare(s: Slot, at: int)
    ensures Held(s.reserve, s.expires, at) ==
      Tally(0, 0, 0, 0, 0, 0, 0,
            Share(s, at, Runs), Share(s, at, Fuel), Share(s, at, OutputBytes), Share(s, at, WallMs))
  {
  }

  /** The sums are safe integers. */
  predicate HeldInRange(t: Tally) {
    0 <= t.heldFuel <= 0x1F_FFFF_FFFF_FFFF && 0 <= t.heldOutput <= 0x1F_FFFF_FFFF_FFFF &&
    0 <= t.heldWall <= 0x1F_FFFF_FFFF_FFFF
  }

  /** After every history and at every moment, reading a tenant's usage raises exactly when what its open admissions
      hold is out of range, and otherwise shows the tally of the history, field by field. */
  lemma UsageIsTally(h: History, now: int, tenant: string, at: int)
    requires Valid(h, now)
    ensures ReplayOf(WP.Lines(h), tenant).Ok?
    ensures var t := TallyOf(h, tenant, at, {});
      match UsageOf(ReplayOf(WP.Lines(h), tenant).value, at)
      case Err(_) => !HeldInRange(t)
      case Ok(u) =>
        && HeldInRange(t) && u.runs == t.runs && u.violations == t.violations && u.refused == t.refused
        && u.unknown == t.unknown && u.inflight == t.inflight
        && u.charged == Charge(t.fuel, t.outputBytes, t.wallMs)
        && u.reserved == Charge(t.heldFuel, t.heldOutput, t.heldWall)
  {
    hide TallyOf, HeldBy, ActiveSum;
    EveryBookReplays(h, now, tenant);
    AccountIsTally(h, now, tenant, at, {});
    HeldIsActive(AccountOf(h, tenant).open, at, {});
  }

  // ---------- what admit projects ----------

  /** What `admit` reports beside its answer is the account with everything counted at that moment, and, when it admits,
      this run on top. */
  lemma AdmissionProjects(op: Op, a: Account, clock: int)
    requires op.AdmitRun? && DecideAdmit(op, a, clock).Ok?
    ensures var u, r := UsageOf(a, clock), DecideAdmit(op, a, clock).value.0;
      && u.Ok?
      && r.projectedRuns == u.value.runs + u.value.inflight + (if r.allowed then 1 else 0)
      && r.projectedCharge == Charge(
           u.value.charged.fuel + u.value.reserved.fuel + (if r.allowed then op.reserve.fuel else 0),
           u.value.charged.outputBytes + u.value.reserved.outputBytes +
             (if r.allowed then op.reserve.outputBytes else 0),
           u.value.charged.wallMs + u.value.reserved.wallMs + (if r.allowed then op.reserve.wallMs else 0))
  {
    hide ActiveSum, FirstOver, Seal;
  }

  /** An admission that reaches past its own millisecond is in the usage right after it, as projected. */
  lemma ProjectionIsUsageAfter(h: History, now: int)
    requires Valid(h, now) && h.Then? && h.op.AdmitRun? && h.line.Line? && h.line.kind.Admit?
    requires !IsOpen(AccountOf(h.before, h.op.tenant).open, h.op.id) && h.time < (h.time + h.op.ttl) / 1000 * 1000
    ensures var r := DecideAdmit(h.op, AccountOf(h.before, h.op.tenant), h.time);
      var u := UsageOf(AccountOf(h, h.op.tenant), h.time);
      && r.Ok? && r.value.0.allowed && u.Ok?
      && r.value.0.projectedRuns == u.value.runs + u.value.inflight
      && r.value.0.projectedCharge == Charge(
           u.value.charged.fuel + u.value.reserved.fuel,
           u.value.charged.outputBytes + u.value.reserved.outputBytes,
           u.value.charged.wallMs + u.value.reserved.wallMs)
  {
    hide AccountOf, ActiveSum, FirstOver, Valid, Sound, DecideAdmit, PutSlot;
    var op, a := h.op, AccountOf(h.before, h.op.tenant);
    BeforeIsValid(h, now);
    Committed(h, now, op.tenant);
    AdmitAnswer(op, a, h.time, h.line);
    AdmissionProjects(op, a, h.time);
    NewSlotCounts(a.open, Slot(op.id, op.reserve, Some(Stamp(h.time + op.ttl))), h.time);
    ReservesFit(op, a, h.time);
    assert Stamp(h.time + op.ttl) == (h.time + op.ttl) / 1000 * 1000;
    assert ActiveCharge(AccountOf(h, op.tenant).open, h.time) == Sum(ActiveCharge(a.open, h.time), op.reserve);
  }

  lemma AdmitAnswer(op: Op, a: Account, clock: int, line: Line)
    requires op.AdmitRun? && Decided(op, a, clock, line) && line.Line? && line.kind.Admit?
    ensures DecideAdmit(op, a, clock).Ok? && DecideAdmit(op, a, clock).value.0.allowed
  {
  }

  /** A new admission is counted until it expires, and not from then on. */
  lemma {:induction false} NewSlotCounts(open: seq<Slot>, s: Slot, at: int)
    requires !IsOpen(open, s.id)
    ensures var more := PutSlot(open, s);
      var t := Held(s.reserve, s.expires, at);
      && ActiveSum(more, at, Runs) == ActiveSum(open, at, Runs) + t.inflight
      && ActiveSum(more, at, Fuel) == ActiveSum(open, at, Fuel) + t.heldFuel
      && ActiveSum(more, at, OutputBytes) == ActiveSum(open, at, OutputBytes) + t.heldOutput
      && ActiveSum(more, at, WallMs) == ActiveSum(open, at, WallMs) + t.heldWall
  {
    if open == [] {
      assert [s][1..] == [];
    } else {
      NewSlotCounts(open[1..], s, at);
      assert ([open[0]] + PutSlot(open[1..], s))[1..] == PutSlot(open[1..], s);
    }
  }

  /** An admitted run fits beside what is reserved. */
  lemma ReservesFit(op: Op, a: Account, clock: int)
    requires op.AdmitRun? && Sound(a) && Checked(op).Ok? && DecideAdmit(op, a, clock).Ok?
    ensures InRange(Sum(ActiveCharge(a.open, clock), op.reserve))
  {
    hide ActiveSum, FirstOver, Seal, OpenInRange;
    Bounds(a, clock);
  }
}

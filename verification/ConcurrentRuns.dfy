/** Billed runs beside each other. */
module ConcurrentRuns {
  // What admissions and their closings amount to after any interleaving of writers.

  import opened Prelude
  import opened TenantBook
  import opened TenantCaps
  import B = BilledRun
  import T = TenantTamper
  import WP = WriterProtocol

  // ---------- counting lines ----------

  predicate Of(line: Line, tenant: string, kind: Kind) {
    line.Line? && line.tenant == Some(tenant) && line.kind == kind
  }

  ghost function CountOf(h: History, tenant: string, kind: Kind): nat {
    match h
    case Start => 0
    case Then(before, _, _, line) => CountOf(before, tenant, kind) + if Of(line, tenant, kind) then 1 else 0
  }

  /** How many admissions of the tenant were given the id of one that was still open. */
  ghost function Reused(h: History, tenant: string): nat {
    match h
    case Start => 0
    case Then(before, op, _, line) =>
      Reused(before, tenant) +
      if Of(line, tenant, Admit) && op.AdmitRun? && IsOpen(AccountOf(before, tenant).open, op.id) then 1 else 0
  }

  /** No id is given twice to the admissions of the tenant. */
  ghost predicate FreshIds(h: History, tenant: string) {
    match h
    case Start => true
    case Then(before, op, _, line) =>
      FreshIds(before, tenant) &&
      (Of(line, tenant, Admit) && op.AdmitRun? ==> LastNaming(before, tenant, op.id).None?)
  }

  predicate NamesId(line: Line, tenant: string, id: string) {
    && line.Line? && line.tenant == Some(tenant) && line.admitId == Some(id)
    && (line.kind.Admit? || line.kind.Settle? || line.kind.Expire?)
  }

  /** What the last line of the tenant that names the admission is. */
  ghost function LastNaming(h: History, tenant: string, id: string): Option<Kind> {
    match h
    case Start => None
    case Then(before, _, _, line) =>
      if NamesId(line, tenant, id) then Some(line.kind) else LastNaming(before, tenant, id)
  }

  // ---------- the dictionary of open admissions ----------

  predicate DistinctIds(open: seq<Slot>) {
    open == [] || (!IsOpen(open[1..], open[0].id) && DistinctIds(open[1..]))
  }

  lemma {:induction false} PutSize(open: seq<Slot>, s: Slot)
    requires DistinctIds(open)
    ensures DistinctIds(PutSlot(open, s))
    ensures |PutSlot(open, s)| == |open| + if IsOpen(open, s.id) then 0 else 1
  {
    if open == [] {
      assert [s][1..] == [];
    } else {
      PutSize(open[1..], s);
      T.KeysOfPut(open[1..], s, open[0].id);
      assert ([s] + open[1..])[1..] == open[1..];
      assert ([open[0]] + PutSlot(open[1..], s))[1..] == PutSlot(open[1..], s);
    }
  }

  lemma {:induction false} DropAbsent(open: seq<Slot>, id: string)
    requires !IsOpen(open, id)
    ensures DropSlot(open, id) == open
  {
    if open != [] {
      DropAbsent(open[1..], id);
    }
  }

  lemma {:induction false} DropSize(open: seq<Slot>, id: string)
    requires DistinctIds(open)
    ensures DistinctIds(DropSlot(open, id))
    ensures |DropSlot(open, id)| == |open| - if IsOpen(open, id) then 1 else 0
  {
    if open != [] {
      DropSize(open[1..], id);
      if open[0].id == id {
        DropAbsent(open[1..], id);
      }
      T.KeysOfDrop(open[1..], id, open[0].id);
      assert ([open[0]] + DropSlot(open[1..], id))[1..] == DropSlot(open[1..], id);
    }
  }

  // ---------- one commit ----------

  /** What an operation does to the open admissions of its own tenant, read off the line it writes. */
  lemma CommitMoves(op: Op, a: Account, clock: int, line: Line)
    requires Decided(op, a, clock, line)
    ensures line.Line? && line.tenant == Some(op.tenant)
    ensures var b := After(op, a, line, clock);
      match op {
        case AdmitRun(_, reserve, _, ttl, id) =>
          if line.kind.Admit? then
            line.admitId == Some(id) && b.open == PutSlot(a.open, Slot(id, reserve, Some(Stamp(clock + ttl))))
          else line.kind.Refuse? && b.open == a.open
        case SettleRun(_, id, _, _, _) =>
          line.kind.Settle? && line.admitId == Some(id) && IsOpen(a.open, id) && b.open == DropSlot(a.open, id)
        case ExpireRun(_, id) =>
          line.kind.Expire? && line.admitId == Some(id) && IsOpen(a.open, id) && b.open == DropSlot(a.open, id)
      }
  {
    hide PutSlot, DropSlot, IsOpen, Stamp;
    B.LineOf(op, a, clock, line);
  }

  // ---------- what is open ----------

  lemma CommitOpens(op: Op, a: Account, clock: int, line: Line, id: string)
    requires Decided(op, a, clock, line)
    ensures IsOpen(After(op, a, line, clock).open, id) <==>
      if NamesId(line, op.tenant, id) then line.kind.Admit? else IsOpen(a.open, id)
  {
    hide Decided, After, DropSlot, PutSlot, IsOpen, Stamp;
    CommitMoves(op, a, clock, line);
    match op {
      case AdmitRun(_, reserve, _, ttl, k) => T.KeysOfPut(a.open, Slot(k, reserve, Some(Stamp(clock + ttl))), id);
      case SettleRun(_, k, _, _, _) => T.KeysOfDrop(a.open, k, id);
      case ExpireRun(_, k) => T.KeysOfDrop(a.open, k, id);
    }
  }

  /** An admission is open exactly when the last line naming it is an admit line. */
  lemma {:induction false} OpenIffLastAdmits(h: History, now: int, tenant: string, id: string)
    requires Valid(h, now)
    ensures IsOpen(AccountOf(h, tenant).open, id) <==> LastNaming(h, tenant, id) == Some(Admit)
  {
    match h
    case Start =>
    case Then(before, op, time, line) =>
      hide AccountOf, Decided, After, Valid, IsOpen;
      ValidBefore(h, now);
      OpenIffLastAdmits(before, time, tenant, id);
      Committed(h, now, tenant);
      CommittedLine(h, now);
      if tenant == op.tenant {
        CommitOpens(op, AccountOf(before, tenant), time, line, id);
      }
  }

  lemma ValidBefore(h: History, now: int)
    requires Valid(h, now) && h.Then?
    ensures Valid(h.before, h.time)
  {
  }

  lemma CommittedLine(h: History, now: int)
    requires Valid(h, now) && h.Then?
    ensures h.line.Line? && h.line.tenant == Some(h.op.tenant)
  {
    hide ReplayOf, Writes, Checked;
    B.LineOf(h.op, ReplayOf(WP.Lines(h.before), h.op.tenant).value, h.time, h.line);
  }

  lemma CommitSize(op: Op, a: Account, clock: int, line: Line)
    requires Decided(op, a, clock, line) && DistinctIds(a.open)
    ensures line.Line? && line.tenant == Some(op.tenant) && (line.kind.Admit? ==> op.AdmitRun?)
    ensures var b := After(op, a, line, clock);
      && DistinctIds(b.open)
      && |b.open| == |a.open| +
         match line.kind {
           case Admit => if IsOpen(a.open, op.id) then 0 else 1
           case Refuse => 0
           case _ => -1
         }
  {
    hide Decided, After, DropSlot, PutSlot, IsOpen, DistinctIds, Stamp;
    CommitMoves(op, a, clock, line);
    match op {
      case AdmitRun(_, reserve, _, ttl, id) => PutSize(a.open, Slot(id, reserve, Some(Stamp(clock + ttl))));
      case SettleRun(_, id, _, _, _) => DropSize(a.open, id);
      case ExpireRun(_, id) => DropSize(a.open, id);
    }
  }

  /** After any interleaving each tenant's admissions are its settlements, its expiries and what is open, but for ids
      given again while still open. */
  lemma {:induction false} AdmissionsAreAccountedFor(h: History, now: int, tenant: string)
    requires Valid(h, now)
    ensures DistinctIds(AccountOf(h, tenant).open)
    ensures CountOf(h, tenant, Admit) ==
      CountOf(h, tenant, Settle) + CountOf(h, tenant, Expire) + |AccountOf(h, tenant).open| + Reused(h, tenant)
  {
    match h
    case Start =>
    case Then(before, op, time, line) =>
      hide AccountOf, Decided, After, Valid, DropSlot, PutSlot, IsOpen, DistinctIds;
      ValidBefore(h, now);
      AdmissionsAreAccountedFor(before, time, tenant);
      Committed(h, now, tenant);
      CommittedLine(h, now);
      if tenant == op.tenant {
        CommitSize(op, AccountOf(before, tenant), time, line);
        KindOfLine(op, AccountOf(before, tenant), time, line);
      }
  }

  lemma KindOfLine(op: Op, a: Account, clock: int, line: Line)
    requires Decided(op, a, clock, line)
    ensures line.Line? && !line.kind.OtherKind?
  {
    hide PutSlot, DropSlot, IsOpen, Stamp, After;
    CommitMoves(op, a, clock, line);
  }

  lemma {:induction false} FreshIsNotReused(h: History, now: int, tenant: string)
    requires Valid(h, now) && FreshIds(h, tenant)
    ensures Reused(h, tenant) == 0
  {
    match h
    case Start =>
    case Then(before, op, time, line) =>
      hide AccountOf, IsOpen, Valid;
      ValidBefore(h, now);
      FreshIsNotReused(before, time, tenant);
      if op.AdmitRun? {
        OpenIffLastAdmits(before, time, tenant, op.id);
      }
  }

  // ---------- one admission ----------

  ghost function Admissions(h: History, tenant: string, id: string): nat {
    match h
    case Start => 0
    case Then(before, _, _, line) =>
      Admissions(before, tenant, id) + if NamesId(line, tenant, id) && line.kind.Admit? then 1 else 0
  }

  ghost function Closings(h: History, tenant: string, id: string): nat {
    match h
    case Start => 0
    case Then(before, _, _, line) =>
      Closings(before, tenant, id) + if NamesId(line, tenant, id) && !line.kind.Admit? then 1 else 0
  }

  /** With fresh ids each admission is closed at most once, and it is open exactly until then. */
  lemma {:induction false} ClosedAtMostOnce(h: History, now: int, tenant: string, id: string)
    requires Valid(h, now) && FreshIds(h, tenant)
    ensures Closings(h, tenant, id) <= Admissions(h, tenant, id) <= 1
    ensures IsOpen(AccountOf(h, tenant).open, id) <==>
      Admissions(h, tenant, id) == 1 && Closings(h, tenant, id) == 0
    ensures LastNaming(h, tenant, id).None? <==> Admissions(h, tenant, id) == 0
  {
    OpenIffLastAdmits(h, now, tenant, id);
    match h
    case Start =>
    case Then(before, op, time, line) =>
      hide AccountOf, Decided, After, Valid, IsOpen, PutSlot, DropSlot;
      ValidBefore(h, now);
      ClosedAtMostOnce(before, time, tenant, id);
      OpenIffLastAdmits(before, time, tenant, id);
      Committed(h, now, tenant);
      CommittedLine(h, now);
      if tenant == op.tenant {
        CommitMoves(op, AccountOf(before, tenant), time, line);
      }
  }

  /** After any interleaving a closing succeeds exactly when the last line naming its admission is an admit line and,
      for a settle, the charge fits what the tenant has been charged by then. */
  lemma CloseSucceedsIff(h: History, now: int, op: Op, clock: int)
    requires Valid(h, now) && !op.AdmitRun?
    ensures Decide(op, WP.Lines(h), clock).Ok? <==>
      && TenantOk(op.tenant) && LastNaming(h, op.tenant, op.admitId) == Some(Admit)
      && (op.SettleRun? ==>
            InRange(op.charge) && InRange(Sum(AccountOf(h, op.tenant).charged, op.charge)))
  {
    hide ReplayOf, IsOpen, DropSlot, InRange, Sum, TenantOk;
    EveryBookReplays(h, now, op.tenant);
    OpenIffLastAdmits(h, now, op.tenant, op.admitId);
  }

  /** `later` adds to `h` no operation on the admission `id` of the tenant. */
  ghost predicate LeavesAlone(later: History, h: History, tenant: string, id: string) {
    later == h ||
    (later.Then? && LeavesAlone(later.before, h, tenant, id) &&
     (later.op.tenant == tenant ==> (if later.op.AdmitRun? then later.op.id else later.op.admitId) != id))
  }

  lemma {:induction false} StaysOpen(later: History, h: History, now: int, tenant: string, id: string)
    requires Valid(later, now) && LeavesAlone(later, h, tenant, id) && LastNaming(h, tenant, id) == Some(Admit)
    ensures LastNaming(later, tenant, id) == Some(Admit)
    decreases later
  {
    if later != h {
      hide AccountOf, Decided, After, Valid, IsOpen, PutSlot, DropSlot;
      ValidBefore(later, now);
      StaysOpen(later.before, h, later.time, tenant, id);
      Committed(later, now, later.op.tenant);
      CommitMoves(later.op, AccountOf(later.before, later.op.tenant), later.time, later.line);
    }
  }

  lemma AdmittedIsNamed(h: History, now: int)
    requires Valid(h, now) && h.Then? && h.op.AdmitRun? && h.line.Line? && h.line.kind.Admit?
    ensures LastNaming(h, h.op.tenant, h.op.id) == Some(Admit) && TenantOk(h.op.tenant)
  {
    hide AccountOf, After, PutSlot, DropSlot, ReplayOf, Writes, TenantOk;
    Committed(h, now, h.op.tenant);
    CommitMoves(h.op, AccountOf(h.before, h.op.tenant), h.time, h.line);
  }

  /** A run that was admitted, whoever else wrote what about other admissions since: its crash is always closed by an
      expire line, and its settle fails only when the charge does not fit the account it then meets. */
  lemma RunClosesIffItFits(j: B.Job, h: History, later: History, now: int)
    requires Valid(h, now) && h.Then? && h.op == B.AdmitOp(j) && h.line.Line? && h.line.kind.Admit?
    requires Valid(later, now) && LeavesAlone(later, h, j.tenant, j.id)
    ensures Decide(ExpireRun(j.tenant, j.id), WP.Lines(later), j.closeClock).Ok?
    ensures j.guest.Finish? ==>
      (Decide(B.SettleOp(j), WP.Lines(later), j.closeClock).Ok? <==>
        InRange(B.ChargeOf(j.guest)) && InRange(Sum(AccountOf(later, j.tenant).charged, B.ChargeOf(j.guest))))
  {
    hide Decide, AccountOf, Valid, InRange, Sum, TenantOk;
    AdmittedIsNamed(h, now);
    StaysOpen(later, h, now, j.tenant, j.id);
    CloseSucceedsIff(later, now, ExpireRun(j.tenant, j.id), j.closeClock);
    if j.guest.Finish? {
      CloseSucceedsIff(later, now, B.SettleOp(j), j.closeClock);
    }
  }

  /** The count for every schedule of the lock protocol, when no id is given twice. */
  lemma EveryRunIsAccountedFor(began: int, events: seq<WP.Event<Op>>, tenant: string)
    requires WP.Run(Decide, WP.Initial(began), events).Some?
    ensures var t := WP.Run(Decide, WP.Initial(began), events).value;
      && ReplayOf(t.book, tenant).Ok?
      && (FreshIds(t.history, tenant) ==>
            CountOf(t.history, tenant, Admit) == CountOf(t.history, tenant, Settle) +
              CountOf(t.history, tenant, Expire) + |ReplayOf(t.book, tenant).value.open|)
  {
    hide Decide, ReplayOf, CountOf, Reused, FreshIds;
    WP.InitialIsValid(Decide, began);
    WP.EveryRunIsValid(Decide, WP.Initial(began), events);
    var t := WP.Run(Decide, WP.Initial(began), events).value;
    EveryBookReplays(t.history, t.now, tenant);
    AdmissionsAreAccountedFor(t.history, t.now, tenant);
    if FreshIds(t.history, tenant) {
      FreshIsNotReused(t.history, t.now, tenant);
    }
  }
}

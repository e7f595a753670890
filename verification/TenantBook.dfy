/** The tenant book: what one line does to an account, what a replay accepts, and what the writer writes. */
module TenantBook {
  import opened Prelude

  /** The four capped dimensions, in the order in which a refusal names them. */
  datatype Dim = Fuel | OutputBytes | WallMs | Runs

  /** An amount that `int()` cannot read is represented by -1: either way the constructor raises. */
  datatype Charge = Charge(fuel: int, outputBytes: int, wallMs: int)

  datatype Budget = Budget(
    maxFuel: Option<int>, maxOutputBytes: Option<int>, maxWallMs: Option<int>, maxRuns: Option<int>)

  /** An admission that no settle or expire line has closed. */
  datatype Slot = Slot(id: string, reserve: Charge, expires: Option<int>)

  /** The block a line carries; a missing or unreadable entry is -1, which no account ever holds. */
  datatype Totals = Totals(
    runs: int, fuel: int, outputBytes: int, wallMs: int, violations: int, refused: int, unknown: int)

  datatype Kind = Admit | Settle | Expire | Refuse | OtherKind

  /** A line of the file: not a JSON object at all, or the fields a replay reads. */
  datatype Line =
    | Malformed
    | Line(versionKnown: bool, kind: Kind, tenant: Option<string>, admitId: Option<string>, charge: Charge,
           expires: Option<int>, violation: bool, unknown: bool, totals: Totals, at: int)

  /** One tenant's state. `open` is a dict: insertion order, no id twice. */
  datatype Account = Account(runs: int, charged: Charge, violations: int, refused: int, unknown: int, open: seq<Slot>)

  datatype Usage = Usage(runs: int, charged: Charge, reserved: Charge, inflight: int,
                         violations: int, refused: int, unknown: int)

  datatype Error =
    | BadTenant | BadTtl | BadCharge | BadBudget | NotJson | UnknownVersion | UnknownKind
    | MissingId | UnknownAdmission | TotalsMismatch

  // ---------- amounts ----------

  function Amount(c: Charge, d: Dim): int {
    match d
    case Fuel => c.fuel
    case OutputBytes => c.outputBytes
    case WallMs => c.wallMs
    case Runs => 1
  }

  const ZERO := Charge(0, 0, 0)

  /** What the constructor of `Charge` accepts. */
  predicate InRange(c: Charge) {
    0 <= c.fuel <= MAX_SAFE_INTEGER && 0 <= c.outputBytes <= MAX_SAFE_INTEGER && 0 <= c.wallMs <= MAX_SAFE_INTEGER
  }

  function Sum(a: Charge, b: Charge): Charge {
    Charge(a.fuel + b.fuel, a.outputBytes + b.outputBytes, a.wallMs + b.wallMs)
  }

  /** `Charge.plus`: a sum outside the safe range raises. */
  function Plus(a: Charge, b: Charge): Result<Charge, Error> {
    if InRange(Sum(a, b)) then Ok(Sum(a, b)) else Err(BadCharge)
  }

  function Cap(b: Budget, d: Dim): Option<int> {
    match d
    case Fuel => b.maxFuel
    case OutputBytes => b.maxOutputBytes
    case WallMs => b.maxWallMs
    case Runs => b.maxRuns
  }

  predicate BudgetOk(b: Budget) {
    forall d: Dim :: Cap(b, d).Some? ==> 0 < Cap(b, d).value <= MAX_SAFE_INTEGER
  }

  predicate Over(b: Budget, d: Dim, runs: int, used: Charge) {
    Cap(b, d).Some? && (if d.Runs? then runs else Amount(used, d)) > Cap(b, d).value
  }

  /** Position of a dimension in the refusal order. */
  function Rank(d: Dim): nat {
    match d case Fuel => 0 case OutputBytes => 1 case WallMs => 2 case Runs => 3
  }

  /** `CumulativeBudget.violation`: the first dimension over its cap. */
  method Violation(b: Budget, runs: int, used: Charge) returns (r: Option<Dim>)
    ensures r == FirstOver(b, runs, used)
  {
    var limits := [(Fuel, used.fuel), (OutputBytes, used.outputBytes), (WallMs, used.wallMs), (Runs, runs)];
    for i := 0 to |limits|
      invariant i > 0 ==> !Over(b, Fuel, runs, used)
      invariant i > 1 ==> !Over(b, OutputBytes, runs, used)
      invariant i > 2 ==> !Over(b, WallMs, runs, used)
      invariant i > 3 ==> !Over(b, Runs, runs, used)
    {
      var cap := Cap(b, limits[i].0);
      if cap.Some? && limits[i].1 > cap.value {
        return Some(limits[i].0);
      }
    }
    return None;
  }

  function FirstOver(b: Budget, runs: int, used: Charge): (r: Option<Dim>)
    ensures r.None? <==> forall d: Dim :: !Over(b, d, runs, used)
    ensures r.Some? ==> Over(b, r.value, runs, used)
    ensures r.Some? ==> forall d: Dim :: Rank(d) < Rank(r.value) ==> !Over(b, d, runs, used)
  {
    if Over(b, Fuel, runs, used) then Some(Fuel)
    else if Over(b, OutputBytes, runs, used) then Some(OutputBytes)
    else if Over(b, WallMs, runs, used) then Some(WallMs)
    else if Over(b, Runs, runs, used) then Some(Runs)
    else None
  }

  // ---------- open admissions ----------

  predicate Active(s: Slot, now: int) {
    s.expires.None? || s.expires.value > now
  }

  predicate IsOpen(open: seq<Slot>, id: string) {
    open != [] && (open[0].id == id || IsOpen(open[1..], id))
  }

  function SlotOf(open: seq<Slot>, id: string): (s: Slot)
    requires IsOpen(open, id)
    ensures s.id == id
  {
    if open[0].id == id then open[0] else SlotOf(open[1..], id)
  }

  /** `open[id] = …`: a known id keeps its place. */
  function PutSlot(open: seq<Slot>, s: Slot): seq<Slot> {
    if open == [] then [s]
    else if open[0].id == s.id then [s] + open[1..]
    else [open[0]] + PutSlot(open[1..], s)
  }

  /** `open.pop(id, None)`. */
  function DropSlot(open: seq<Slot>, id: string): seq<Slot> {
    if open == [] then []
    else if open[0].id == id then DropSlot(open[1..], id)
    else [open[0]] + DropSlot(open[1..], id)
  }

  /** What the admissions still counted at `now` reserve in one dimension; in runs, how many they are. */
  function ActiveSum(open: seq<Slot>, now: int, d: Dim): int {
    if open == [] then 0
    else (if Active(open[0], now) then Amount(open[0].reserve, d) else 0) + ActiveSum(open[1..], now, d)
  }

  function ActiveCharge(open: seq<Slot>, now: int): Charge {
    Charge(ActiveSum(open, now, Fuel), ActiveSum(open, now, OutputBytes), ActiveSum(open, now, WallMs))
  }

  /** `reserved()`: summing raises as soon as a partial sum leaves the safe range. */
  function Reserved(open: seq<Slot>, now: int): Result<Charge, Error> {
    if InRange(ActiveCharge(open, now)) then Ok(ActiveCharge(open, now)) else Err(BadCharge)
  }

  function Settled(a: Account, d: Dim): int {
    if d.Runs? then a.runs else Amount(a.charged, d)
  }

  function UsageOf(a: Account, now: int): Result<Usage, Error> {
    var reserved :- Reserved(a.open, now);
    Ok(Usage(a.runs, a.charged, reserved, ActiveSum(a.open, now, Runs), a.violations, a.refused, a.unknown))
  }

  // ---------- folding ----------

  const EMPTY := Account(0, ZERO, 0, 0, 0, [])

  function TotalsOf(a: Account): Totals {
    Totals(a.runs, a.charged.fuel, a.charged.outputBytes, a.charged.wallMs, a.violations, a.refused, a.unknown)
  }

  function Count(b: bool): int {
    if b then 1 else 0
  }

  /** `fold`: the account after one line, or the exception. */
  function Fold(a: Account, line: Line): Result<Account, Error>
    requires line.Line?
  {
    if !line.versionKnown then Err(UnknownVersion)
    else
      match line.kind
      case Admit =>
        if !InRange(line.charge) then Err(BadCharge)
        else if line.admitId.None? then Err(MissingId)
        else Ok(a.(open := PutSlot(a.open, Slot(line.admitId.value, line.charge, line.expires))))
      case Settle =>
        if line.admitId.None? then Err(MissingId)
        else if !IsOpen(a.open, line.admitId.value) then Err(UnknownAdmission)
        else if !InRange(line.charge) then Err(BadCharge)
        else
          var charged :- Plus(a.charged, line.charge);
          Ok(a.(charged := charged, open := DropSlot(a.open, line.admitId.value), runs := a.runs + 1,
                violations := a.violations + Count(line.violation), unknown := a.unknown + Count(line.unknown)))
      case Expire =>
        if line.admitId.None? then Err(MissingId)
        else Ok(a.(open := DropSlot(a.open, line.admitId.value)))
      case Refuse => Ok(a.(refused := a.refused + 1))
      case OtherKind => Err(UnknownKind)
  }

  /** `apply`: fold, then compare the block the line carries. */
  function Apply(a: Account, line: Line): Result<Account, Error>
    requires line.Line?
  {
    var folded :- Fold(a, line);
    if line.totals == TotalsOf(folded) then Ok(folded) else Err(TotalsMismatch)
  }

  predicate AllParsed(lines: seq<Line>) {
    lines == [] || (lines[0].Line? && AllParsed(lines[1..]))
  }

  function ApplyAll(a: Account, lines: seq<Line>): Result<Account, Error>
    requires AllParsed(lines)
    decreases |lines|
  {
    if lines == [] then Ok(a)
    else
      var next :- Apply(a, lines[0]);
      ApplyAll(next, lines[1..])
  }

  /** The tenant's lines, in order, of a book in which every line is an object. */
  function LinesOf(book: seq<Line>, tenant: string): (r: seq<Line>)
    requires AllParsed(book)
    ensures AllParsed(r)
  {
    if book == [] then []
    else
      var rest := LinesOf(book[1..], tenant);
      if book[0].tenant != Some(tenant) then rest
      else
        assert ([book[0]] + rest)[1..] == rest;
        [book[0]] + rest
  }

  /** `_replay`: any malformed line raises, whoever wrote it; other tenants' lines are passed over. */
  function ReplayOf(book: seq<Line>, tenant: string): Result<Account, Error> {
    if !AllParsed(book) then Err(NotJson) else ApplyAll(EMPTY, LinesOf(book, tenant))
  }

  // ---------- writing ----------

  /** `sealed`: the line with the block a reader will derive, or the exception that folding it raises. */
  function Seal(a: Account, draft: Line): Result<Line, Error>
    requires draft.Line?
  {
    var folded :- Fold(a, draft);
    Ok(draft.(totals := TotalsOf(folded)))
  }

  /** `_stamp`: milliseconds. A moment is a number of microseconds. */
  function Stamp(moment: int): int {
    1000 * (moment / 1000)
  }

  predicate TenantChar(c: char) {
    'a' <= c <= 'z' || 'A' <= c <= 'Z' || '0' <= c <= '9' || c in "._:-"
  }

  /** `TenantId`: padding characters are outside the alphabet anyway. */
  predicate TenantOk(t: string) {
    1 <= |t| <= 128 && t[0] != '.' && forall i :: 0 <= i < |t| ==> TenantChar(t[i])
  }

  datatype Op =
    | AdmitRun(tenant: string, reserve: Charge, budget: Option<Budget>, ttl: int, id: string)
    | SettleRun(tenant: string, admitId: string, charge: Charge, violation: bool, unknown: bool)
    | ExpireRun(tenant: string, admitId: string)

  const NO_TOTALS := Totals(-1, -1, -1, -1, -1, -1, -1)

  function Draft(kind: Kind, tenant: string, clock: int): (r: Line)
    ensures r.Line?
  {
    Line(true, kind, Some(tenant), None, ZERO, None, false, false, NO_TOTALS, Stamp(clock))
  }

  datatype Admission = Admission(allowed: bool, admitId: Option<string>, limit: Option<Dim>,
                                 projectedRuns: int, projectedCharge: Charge)

  /** What `admit` decides inside the lock, on the account and the clock it reads there. */
  function DecideAdmit(op: Op, a: Account, clock: int): Result<(Admission, Line), Error>
    requires op.AdmitRun?
  {
    var usage :- UsageOf(a, clock);
    var balance :- Plus(usage.charged, usage.reserved);
    var runs := usage.runs + usage.inflight;
    var prospective :- Plus(balance, op.reserve);
    var limit := if op.budget.Some? then FirstOver(op.budget.value, runs + 1, prospective) else None;
    if limit.Some? then
      var line :- Seal(a, Draft(Refuse, op.tenant, clock));
      Ok((Admission(false, None, limit, runs, balance), line))
    else
      var draft := Draft(Admit, op.tenant, clock)
        .(admitId := Some(op.id), charge := op.reserve, expires := Some(Stamp(clock + op.ttl)));
      var line :- Seal(a, draft);
      Ok((Admission(true, Some(op.id), None, runs + 1, prospective), line))
  }

  function DecideSettle(op: Op, a: Account, clock: int): Result<Line, Error>
    requires op.SettleRun?
  {
    if !IsOpen(a.open, op.admitId) then Err(UnknownAdmission)
    else
      var draft := Draft(Settle, op.tenant, clock);
      Seal(a, draft.(admitId := Some(op.admitId), charge := op.charge, violation := op.violation,
                     unknown := op.unknown))
  }

  function DecideExpire(op: Op, a: Account, clock: int): Result<Line, Error>
    requires op.ExpireRun?
  {
    if !IsOpen(a.open, op.admitId) then Err(UnknownAdmission)
    else
      var draft := Draft(Expire, op.tenant, clock);
      Seal(a, draft.(admitId := Some(op.admitId)))
  }

  /** What is checked before the lock is taken; charges and budgets are checked where they are constructed. */
  function Checked(op: Op): Result<(), Error> {
    if op.AdmitRun? && !InRange(op.reserve) then Err(BadCharge)
    else if op.AdmitRun? && op.budget.Some? && !BudgetOk(op.budget.value) then Err(BadBudget)
    else if op.SettleRun? && !InRange(op.charge) then Err(BadCharge)
    else if !TenantOk(op.tenant) then Err(BadTenant)
    else if op.AdmitRun? && op.ttl <= 0 then Err(BadTtl)
    else Ok(())
  }

  /** What `admit` returns and writes on a given book at a given clock, or the exception it raises. */
  function Answer(op: Op, book: seq<Line>, clock: int): Result<(Admission, Line), Error>
    requires op.AdmitRun?
  {
    var _ :- Checked(op);
    var a :- ReplayOf(book, op.tenant);
    DecideAdmit(op, a, clock)
  }

  /** The line an operation writes on a given account. */
  function Writes(op: Op, a: Account, clock: int): Result<Line, Error> {
    match op
    case AdmitRun(_, _, _, _, _) => var r :- DecideAdmit(op, a, clock); Ok(r.1)
    case SettleRun(_, _, _, _, _) => DecideSettle(op, a, clock)
    case ExpireRun(_, _) => DecideExpire(op, a, clock)
  }

  /** The line an operation writes on a given book at a given clock, or the exception that leaves the book alone. */
  function Decide(op: Op, book: seq<Line>, clock: int): Result<Line, Error> {
    var _ :- Checked(op);
    var a :- ReplayOf(book, op.tenant);
    Writes(op, a, clock)
  }

  // ---------- sums over open admissions ----------

  predicate OpenInRange(open: seq<Slot>) {
    open == [] || (InRange(open[0].reserve) && OpenInRange(open[1..]))
  }

  /** What one admission contributes at `now`. */
  function Share(s: Slot, now: int, d: Dim): int {
    if Active(s, now) then Amount(s.reserve, d) else 0
  }

  lemma {:induction false} ActiveSumBounds(open: seq<Slot>, now: int, d: Dim)
    requires OpenInRange(open)
    ensures ActiveSum(open, now, d) >= 0
  {
    if open != [] {
      ActiveSumBounds(open[1..], now, d);
    }
  }

  /** Time only releases reservations. */
  lemma {:induction false} ActiveSumFalls(open: seq<Slot>, now: int, later: int, d: Dim)
    requires OpenInRange(open) && now <= later
    ensures ActiveSum(open, later, d) <= ActiveSum(open, now, d)
  {
    if open != [] {
      ActiveSumFalls(open[1..], now, later, d);
    }
  }

  lemma {:induction false} PutSum(open: seq<Slot>, s: Slot, now: int, d: Dim)
    requires OpenInRange(open) && InRange(s.reserve)
    ensures OpenInRange(PutSlot(open, s))
    ensures ActiveSum(PutSlot(open, s), now, d) <= ActiveSum(open, now, d) + Share(s, now, d)
  {
    if open == [] {
      assert [s][1..] == [];
    } else {
      PutSum(open[1..], s, now, d);
      assert ([s] + open[1..])[1..] == open[1..];
      assert ([open[0]] + PutSlot(open[1..], s))[1..] == PutSlot(open[1..], s);
    }
  }

  lemma {:induction false} DropSum(open: seq<Slot>, id: string, now: int, d: Dim)
    requires OpenInRange(open)
    ensures OpenInRange(DropSlot(open, id))
    ensures ActiveSum(DropSlot(open, id), now, d) <= ActiveSum(open, now, d)
    ensures IsOpen(open, id) ==>
      ActiveSum(DropSlot(open, id), now, d) + Share(SlotOf(open, id), now, d) <= ActiveSum(open, now, d)
  {
    if open != [] {
      DropSum(open[1..], id, now, d);
      assert ([open[0]] + DropSlot(open[1..], id))[1..] == DropSlot(open[1..], id);
    }
  }

  /** Everything a fold can build is made of constructed charges. */
  predicate Sound(a: Account) {
    InRange(a.charged) && OpenInRange(a.open) && a.runs >= 0 && a.violations >= 0 && a.refused >= 0 && a.unknown >= 0
  }

  lemma FoldKeepsSound(a: Account, line: Line)
    requires Sound(a) && line.Line? && Fold(a, line).Ok?
    ensures Sound(Fold(a, line).value)
  {
    if line.admitId.Some? {
      var id := line.admitId.value;
      DropSum(a.open, id, 0, Runs);
      if InRange(line.charge) {
        PutSum(a.open, Slot(id, line.charge, line.expires), 0, Runs);
      }
    }
  }

  lemma {:induction false} ApplyAllKeepsSound(a: Account, lines: seq<Line>)
    requires Sound(a) && AllParsed(lines) && ApplyAll(a, lines).Ok?
    ensures Sound(ApplyAll(a, lines).value)
    decreases |lines|
  {
    if lines != [] {
      FoldKeepsSound(a, lines[0]);
      ApplyAllKeepsSound(Apply(a, lines[0]).value, lines[1..]);
    }
  }

  // ---------- concatenation ----------

  lemma {:induction false} ParsedConcat(a: seq<Line>, b: seq<Line>)
    ensures AllParsed(a + b) <==> AllParsed(a) && AllParsed(b)
  {
    if a == [] {
      assert a + b == b;
    } else {
      assert (a + b)[1..] == a[1..] + b;
      ParsedConcat(a[1..], b);
    }
  }

  lemma {:induction false} LinesConcat(a: seq<Line>, b: seq<Line>, tenant: string)
    requires AllParsed(a) && AllParsed(b)
    ensures AllParsed(a + b)
    ensures LinesOf(a + b, tenant) == LinesOf(a, tenant) + LinesOf(b, tenant)
  {
    ParsedConcat(a, b);
    if a == [] {
      assert a + b == b;
    } else {
      assert (a + b)[1..] == a[1..] + b;
      LinesConcat(a[1..], b, tenant);
    }
  }

  lemma {:induction false} ApplyConcat(s: Account, a: seq<Line>, b: seq<Line>)
    requires AllParsed(a) && AllParsed(b)
    ensures AllParsed(a + b)
    ensures ApplyAll(s, a + b) == match ApplyAll(s, a) { case Err(e) => Err(e) case Ok(t) => ApplyAll(t, b) }
    decreases |a|
  {
    ParsedConcat(a, b);
    if a == [] {
      assert a + b == b;
    } else {
      assert (a + b)[1..] == a[1..] + b;
      if Apply(s, a[0]).Ok? {
        ApplyConcat(Apply(s, a[0]).value, a[1..], b);
      }
    }
  }

  /** Replaying one more line. */
  lemma ReplayOneMore(book: seq<Line>, line: Line, tenant: string)
    requires AllParsed(book) && line.Line?
    ensures AllParsed(book + [line])
    ensures ReplayOf(book + [line], tenant) ==
      match ReplayOf(book, tenant) {
        case Err(e) => Err(e)
        case Ok(a) => if line.tenant == Some(tenant) then Apply(a, line) else Ok(a)
      }
  {
    LinesConcat(book, [line], tenant);
    assert LinesOf([line], tenant) == if line.tenant == Some(tenant) then [line] else [];
    ApplyConcat(EMPTY, LinesOf(book, tenant), LinesOf([line], tenant));
    assert line.tenant == Some(tenant) ==> ApplyAll(EMPTY, LinesOf(book, tenant)).Ok? ==>
      var a := ApplyAll(EMPTY, LinesOf(book, tenant)).value;
      ApplyAll(a, [line]) == Apply(a, line);
  }
}

/** Mediated calls by any number of processes. */
module MediatedRuns {
  // Mediation is a client of the lock protocol. The charge and the start of the fetch are separate steps, and a process
  // can die before, between and after them.

  import opened Prelude
  import opened GrantBook
  import GS = GrantSafety
  import WP = WriterProtocol
  import E = EgressFetch
  import P = EgressPolicy

  /** Where a process stands with its request: past both allowlists, inside `record_call`, or holding an approval. */
  datatype Stage =
    | Cleared(call: E.Call)
    | Charging(call: E.Call)
    | Approved(ticket: nat)

  /** One approval: the call, and the number of the line that booked it. */
  datatype Ticket = Ticket(call: E.Call, line: nat)

  datatype Fate = Waiting(w: WP.Writer) | Started | Lost

  datatype State = State(
    wp: WP.State<Op, Line>,
    stages: map<WP.Writer, Stage>,
    tickets: seq<Ticket>,
    fates: seq<Fate>)

  /** `Step` is a step of the lock protocol; `Die` is the end of a process outside the critical section. */
  datatype Event =
    | Ask(w: WP.Writer, call: E.Call)
    | Step(e: WP.Event<Op>)
    | Fetch(w: WP.Writer)
    | Die(w: WP.Writer)

  function OpOf(c: E.Call): Op {
    RecordCall(c.grant, c.clock)
  }

  ghost function Initial(began: int): State {
    State(WP.Initial(began), map[], [], [])
  }

  /** A call is charged only for a request that was asked and cleared; other processes may revoke. */
  ghost predicate Enabled(s: State, ev: Event) {
    match ev
    case Ask(w, _) => w !in s.stages && s.wp.PhaseOf(w).Idle?
    case Step(e) =>
      WP.Enabled(s.wp, e) &&
      (e.Acquire? ==>
         if e.op.RecordCall? then e.w in s.stages && s.stages[e.w].Cleared? && e.op == OpOf(s.stages[e.w].call)
         else e.w !in s.stages)
    case Fetch(w) => w in s.stages && s.stages[w].Approved? && s.wp.PhaseOf(w).Idle?
    case Die(w) => w in s.stages && s.wp.PhaseOf(w).Idle?
  }

  /** A process is gone; an approval it had not used is lost. */
  function Gone(fates: seq<Fate>, stages: map<WP.Writer, Stage>, w: WP.Writer): seq<Fate> {
    if w in stages && stages[w].Approved? && stages[w].ticket < |fates| then fates[stages[w].ticket := Lost] else fates
  }

  ghost function Next(s: State, ev: Event): State
    requires Enabled(s, ev)
  {
    match ev
    case Ask(w, call) => if E.Cleared(call) then State(s.wp, s.stages[w := Cleared(call)], s.tickets, s.fates) else s
    case Step(e) => Stepped(s, e, WP.Next(Decide, s.wp, e))
    case Fetch(w) =>
      var i := s.stages[w].ticket;
      State(s.wp, s.stages - {w}, s.tickets, if i < |s.fates| then s.fates[i := Started] else s.fates)
    case Die(w) => State(s.wp, s.stages - {w}, s.tickets, Gone(s.fates, s.stages, w))
  }

  /** What a step of the protocol means for the process that takes it. */
  ghost function Stepped(s: State, e: WP.Event<Op>, after: WP.State<Op, Line>): State {
    match e
    case Acquire(w, op) =>
      if w in s.stages && s.stages[w].Cleared? then
        State(after, s.stages[w := Charging(s.stages[w].call)], s.tickets, s.fates)
      else State(after, s.stages, s.tickets, s.fates)
    case Write(w) =>
      if IsCall(s.wp.PhaseOf(w)) && w in s.stages && s.stages[w].Charging? then
        State(after, s.stages[w := Approved(|s.tickets|)],
              s.tickets + [Ticket(s.stages[w].call, |s.wp.book|)], s.fates + [Waiting(w)])
      else State(after, s.stages, s.tickets, s.fates)
    case Release(w) =>
      if w in s.stages && s.stages[w].Charging? then State(after, s.stages - {w}, s.tickets, s.fates)
      else State(after, s.stages, s.tickets, s.fates)
    case Crash(w) => State(after, s.stages - {w}, s.tickets, Gone(s.fates, s.stages, w))
    case _ => State(after, s.stages, s.tickets, s.fates)
  }

  /** A call line is about to be written. */
  predicate IsCall(p: WP.Phase<Op, Line>) {
    p.Decided? && p.line.Line? && p.line.kind.Call?
  }

  ghost function Run(s: State, evs: seq<Event>): Option<State>
    decreases |evs|
  {
    if evs == [] then Some(s)
    else if !Enabled(s, evs[0]) then None
    else Run(Next(s, evs[0]), evs[1..])
  }

  // ---------- what every step keeps ----------

  /** The tickets are the call lines of the book, in order, each with the call that was decided. */
  ghost predicate Matched(h: GS.History, tickets: seq<Ticket>) {
    match h
    case Start => tickets == []
    case Then(before, op, _, line) =>
      if line.Line? && line.kind.Call? then
        && tickets != [] && Matched(before, Front(tickets))
        && Last(tickets).line == |WP.Lines(before)| && op == OpOf(Last(tickets).call)
      else Matched(before, tickets)
  }

  /** The operation a process is in the middle of, if any. */
  function OpIn(p: WP.Phase<Op, Line>): Option<Op> {
    if p.Locked? || p.Replayed? || p.Decided? then Some(p.op) else None
  }

  ghost predicate StageOk(p: WP.Phase<Op, Line>, w: WP.Writer, stage: Stage, fates: seq<Fate>) {
    match stage
    case Cleared(call) => E.Cleared(call) && p.Idle?
    case Charging(call) => E.Cleared(call) && (p.Done? || OpIn(p) == Some(OpOf(call)))
    case Approved(i) => i < |fates| && fates[i] == Waiting(w) && (p.Idle? || p.Done?)
  }

  ghost predicate StagesOk(wp: WP.State<Op, Line>, stages: map<WP.Writer, Stage>, fates: seq<Fate>) {
    && (forall w | w in stages :: StageOk(wp.PhaseOf(w), w, stages[w], fates))
    && (forall w: WP.Writer | OpIn(wp.PhaseOf(w)).Some? && OpIn(wp.PhaseOf(w)).value.RecordCall? ::
          w in stages && stages[w].Charging?)
  }

  ghost predicate FatesOk(stages: map<WP.Writer, Stage>, fates: seq<Fate>) {
    forall i | 0 <= i < |fates| && fates[i].Waiting? ::
      fates[i].w in stages && stages[fates[i].w] == Approved(i)
  }

  ghost predicate AllCleared(tickets: seq<Ticket>) {
    forall i | 0 <= i < |tickets| :: E.Cleared(tickets[i].call)
  }

  ghost predicate Inv(s: State) {
    && WP.Invariant(Decide, s.wp)
    && |s.fates| == |s.tickets|
    && Matched(s.wp.history, s.tickets) && AllCleared(s.tickets)
    && StagesOk(s.wp, s.stages, s.fates) && FatesOk(s.stages, s.fates)
  }

  /** A process leaves, and its approval, if it had one, is settled one way or the other. */
  lemma LeaveKeeps(wp: WP.State<Op, Line>, after: WP.State<Op, Line>, stages: map<WP.Writer, Stage>, fates: seq<Fate>,
                   w: WP.Writer, fates': seq<Fate>)
    requires StagesOk(wp, stages, fates) && FatesOk(stages, fates)
    requires after.PhaseOf(w).Idle? && forall v: WP.Writer | v != w :: after.PhaseOf(v) == wp.PhaseOf(v)
    requires if w in stages && stages[w].Approved? then
        (fates' == fates[stages[w].ticket := Started] || fates' == fates[stages[w].ticket := Lost])
      else fates' == fates
    ensures StagesOk(after, stages - {w}, fates') && FatesOk(stages - {w}, fates') && |fates'| == |fates|
  {
    if w in stages {
      assert StageOk(wp.PhaseOf(w), w, stages[w], fates);
    }
    forall v | v in stages && v != w ensures StageOk(after.PhaseOf(v), v, stages[v], fates') {
      assert StageOk(wp.PhaseOf(v), v, stages[v], fates);
    }
  }

  /** A step of the protocol that changes one process's phase and stage, and no fate. */
  lemma MoveKeeps(wp: WP.State<Op, Line>, after: WP.State<Op, Line>, stages: map<WP.Writer, Stage>, fates: seq<Fate>,
                  w: WP.Writer, stage: Stage)
    requires StagesOk(wp, stages, fates) && FatesOk(stages, fates)
    requires forall v: WP.Writer | v != w :: after.PhaseOf(v) == wp.PhaseOf(v)
    requires w in stages ==> !stages[w].Approved?
    requires !stage.Approved? && StageOk(after.PhaseOf(w), w, stage, fates)
    requires OpIn(after.PhaseOf(w)).Some? && OpIn(after.PhaseOf(w)).value.RecordCall? ==> stage.Charging?
    ensures StagesOk(after, stages[w := stage], fates) && FatesOk(stages[w := stage], fates)
  {
    hide StageOk;
    forall v | v in stages && v != w ensures StageOk(after.PhaseOf(v), v, stages[v], fates) {
      assert StageOk(wp.PhaseOf(v), v, stages[v], fates);
    }
  }

  /** A step that changes one process's phase only. */
  lemma StayKeeps(wp: WP.State<Op, Line>, after: WP.State<Op, Line>, stages: map<WP.Writer, Stage>, fates: seq<Fate>,
                  w: WP.Writer)
    requires StagesOk(wp, stages, fates)
    requires forall v: WP.Writer | v != w :: after.PhaseOf(v) == wp.PhaseOf(v)
    requires w in stages ==> StageOk(after.PhaseOf(w), w, stages[w], fates)
    requires OpIn(after.PhaseOf(w)).Some? && OpIn(after.PhaseOf(w)).value.RecordCall? ==>
      w in stages && stages[w].Charging?
    ensures StagesOk(after, stages, fates)
  {
    forall v | v in stages && v != w ensures StageOk(after.PhaseOf(v), v, stages[v], fates) {
      assert StageOk(wp.PhaseOf(v), v, stages[v], fates);
    }
  }

  /** The call line of a process becomes its ticket. */
  lemma ApproveKeeps(wp: WP.State<Op, Line>, after: WP.State<Op, Line>, stages: map<WP.Writer, Stage>, fates: seq<Fate>,
                     w: WP.Writer)
    requires StagesOk(wp, stages, fates) && FatesOk(stages, fates) && w in stages && stages[w].Charging?
    requires after.PhaseOf(w).Done? && forall v: WP.Writer | v != w :: after.PhaseOf(v) == wp.PhaseOf(v)
    ensures StagesOk(after, stages[w := Approved(|fates|)], fates + [Waiting(w)])
    ensures FatesOk(stages[w := Approved(|fates|)], fates + [Waiting(w)])
  {
    hide StageOk;
    var stages' := stages[w := Approved(|fates|)];
    var fates' := fates + [Waiting(w)];
    forall v | v in stages' ensures StageOk(after.PhaseOf(v), v, stages'[v], fates') {
      if v == w {
        NewTicketOk(after.PhaseOf(w), w, fates);
      } else {
        assert StageOk(wp.PhaseOf(v), v, stages[v], fates);
        MoreFates(wp.PhaseOf(v), v, stages[v], fates, Waiting(w));
      }
    }
    forall i | 0 <= i < |fates'| && fates'[i].Waiting?
      ensures fates'[i].w in stages' && stages'[fates'[i].w] == Approved(i)
    {
      if i < |fates| {
        assert fates'[i] == fates[i];
      }
    }
  }

  lemma NewTicketOk(p: WP.Phase<Op, Line>, w: WP.Writer, fates: seq<Fate>)
    requires p.Done?
    ensures StageOk(p, w, Approved(|fates|), fates + [Waiting(w)])
  {
  }

  lemma MoreFates(p: WP.Phase<Op, Line>, v: WP.Writer, stage: Stage, fates: seq<Fate>, more: Fate)
    requires StageOk(p, v, stage, fates)
    ensures StageOk(p, v, stage, fates + [more])
  {
  }

  /** Only the process of the step changes its phase. */
  lemma OthersStay(s: State, e: WP.Event<Op>)
    requires Inv(s) && WP.Enabled(s.wp, e)
    ensures WP.Invariant(Decide, WP.Next(Decide, s.wp, e))
    ensures e.Tick? ==> forall v: WP.Writer :: WP.Next(Decide, s.wp, e).PhaseOf(v) == s.wp.PhaseOf(v)
    ensures !e.Tick? ==> forall v: WP.Writer | v != e.w :: WP.Next(Decide, s.wp, e).PhaseOf(v) == s.wp.PhaseOf(v)
    ensures !e.Write? ==> WP.Next(Decide, s.wp, e).history == s.wp.history
  {
    hide Decide, Matched, StagesOk, FatesOk;
    WP.StepKeepsInvariant(Decide, s.wp, e);
  }

  lemma AskKeepsInv(s: State, w: WP.Writer, call: E.Call)
    requires Inv(s) && Enabled(s, Ask(w, call))
    ensures Inv(Next(s, Ask(w, call)))
  {
    hide Matched;
    if E.Cleared(call) {
      MoveKeeps(s.wp, s.wp, s.stages, s.fates, w, Cleared(call));
    }
  }

  lemma LeaveKeepsInv(s: State, ev: Event)
    requires Inv(s) && Enabled(s, ev) && (ev.Fetch? || ev.Die?)
    ensures Inv(Next(s, ev))
  {
    hide Matched;
    LeaveKeeps(s.wp, s.wp, s.stages, s.fates, ev.w, Next(s, ev).fates);
  }

  lemma CrashKeepsInv(s: State, e: WP.Event<Op>)
    requires Inv(s) && Enabled(s, Step(e)) && e.Crash?
    ensures Inv(Next(s, Step(e)))
  {
    hide Matched;
    OthersStay(s, e);
    LeaveKeeps(s.wp, WP.Next(Decide, s.wp, e), s.stages, s.fates, e.w, Next(s, Step(e)).fates);
  }

  lemma QuietKeepsInv(s: State, e: WP.Event<Op>)
    requires Inv(s) && Enabled(s, Step(e)) && !e.Crash? && !e.Write?
    ensures Inv(Next(s, Step(e)))
  {
    hide Matched;
    OthersStay(s, e);
    var after := WP.Next(Decide, s.wp, e);
    if e.Tick? {
      StayKeeps(s.wp, after, s.stages, s.fates, 0);
    } else if e.Acquire? && e.w in s.stages {
      MoveKeeps(s.wp, after, s.stages, s.fates, e.w, Charging(s.stages[e.w].call));
    } else if e.Release? && e.w in s.stages && s.stages[e.w].Charging? {
      LeaveKeeps(s.wp, after, s.stages, s.fates, e.w, s.fates);
    } else {
      if e.w in s.stages {
        assert StageOk(s.wp.PhaseOf(e.w), e.w, s.stages[e.w], s.fates);
      }
      StayKeeps(s.wp, after, s.stages, s.fates, e.w);
    }
  }

  lemma MatchedWithCall(h: GS.History, tickets: seq<Ticket>, op: Op, time: int, line: Line, t: Ticket)
    requires Matched(h, tickets) && line.Line? && line.kind.Call? && t.line == |WP.Lines(h)| && op == OpOf(t.call)
    ensures Matched(WP.Then(h, op, time, line), tickets + [t])
  {
    assert Front(tickets + [t]) == tickets;
  }

  lemma MatchedWithOther(h: GS.History, tickets: seq<Ticket>, op: Op, time: int, line: Line)
    requires Matched(h, tickets) && !(line.Line? && line.kind.Call?)
    ensures Matched(WP.Then(h, op, time, line), tickets)
  {
  }

  /** Who writes a call line is charging for the very call that was decided. */
  lemma WriterIsCharging(s: State, w: WP.Writer)
    requires Inv(s) && IsCall(s.wp.PhaseOf(w))
    ensures w in s.stages && s.stages[w].Charging? && s.wp.PhaseOf(w).op == OpOf(s.stages[w].call)
    ensures E.Cleared(s.stages[w].call)
  {
    hide Decide, Matched, FatesOk;
    var p := s.wp.PhaseOf(w);
    assert s.wp.holder == Some(w);
    GS.Approved(p.op, s.wp.book, p.time);
    assert OpIn(p) == Some(p.op);
    assert StageOk(p, w, s.stages[w], s.fates);
  }

  lemma WriteKeepsInv(s: State, e: WP.Event<Op>)
    requires Inv(s) && Enabled(s, Step(e)) && e.Write?
    ensures Inv(Next(s, Step(e)))
  {
    hide Decide, Matched, FatesOk, StagesOk;
    var p, after := s.wp.PhaseOf(e.w), WP.Next(Decide, s.wp, e);
    OthersStay(s, e);
    if IsCall(p) {
      WriterIsCharging(s, e.w);
      ApproveKeeps(s.wp, after, s.stages, s.fates, e.w);
      var t := Ticket(s.stages[e.w].call, |s.wp.book|);
      MatchedWithCall(s.wp.history, s.tickets, p.op, p.time, p.line, t);
    } else {
      WriteStays(s, e);
      MatchedWithOther(s.wp.history, s.tickets, p.op, p.time, p.line);
    }
  }

  lemma WriteStays(s: State, e: WP.Event<Op>)
    requires Inv(s) && Enabled(s, Step(e)) && e.Write? && !IsCall(s.wp.PhaseOf(e.w))
    ensures StagesOk(WP.Next(Decide, s.wp, e), s.stages, s.fates)
  {
    hide Decide, Matched, FatesOk;
    OthersStay(s, e);
    if e.w in s.stages {
      assert StageOk(s.wp.PhaseOf(e.w), e.w, s.stages[e.w], s.fates);
    }
    StayKeeps(s.wp, WP.Next(Decide, s.wp, e), s.stages, s.fates, e.w);
  }

  lemma StepKeepsInv(s: State, ev: Event)
    requires Inv(s) && Enabled(s, ev)
    ensures Inv(Next(s, ev))
  {
    hide Inv, Enabled, Next;
    match ev
    case Ask(w, call) => AskKeepsInv(s, w, call);
    case Fetch(_) => LeaveKeepsInv(s, ev);
    case Die(_) => LeaveKeepsInv(s, ev);
    case Step(e) =>
      if e.Write? {
        WriteKeepsInv(s, e);
      } else if e.Crash? {
        CrashKeepsInv(s, e);
      } else {
        QuietKeepsInv(s, e);
      }
  }

  lemma {:induction false} RunKeepsInv(s: State, evs: seq<Event>)
    requires Inv(s) && Run(s, evs).Some?
    ensures Inv(Run(s, evs).value)
    decreases |evs|
  {
    hide Inv, Enabled, Next;
    if evs != [] {
      StepKeepsInv(s, evs[0]);
      RunKeepsInv(Next(s, evs[0]), evs[1..]);
    }
  }

  lemma InitialIsInv(began: int)
    ensures Inv(Initial(began))
  {
    WP.InitialIsValid(Decide, began);
  }

  // ---------- fetches ----------

  /** How the approvals of one grant were used. */
  datatype Use = Use(started: nat, waiting: nat, lost: nat)

  function UseOf(tickets: seq<Ticket>, fates: seq<Fate>, id: string): Use
    requires |tickets| == |fates|
  {
    if tickets == [] then Use(0, 0, 0)
    else
      var u := UseOf(Front(tickets), Front(fates), id);
      if Last(tickets).call.grant.grantId != id then u
      else
        match Last(fates)
        case Started => Use(u.started + 1, u.waiting, u.lost)
        case Waiting(_) => Use(u.started, u.waiting + 1, u.lost)
        case Lost => Use(u.started, u.waiting, u.lost + 1)
  }

  lemma {:induction false} UsesAreCalls(h: GS.History, now: int, tickets: seq<Ticket>, fates: seq<Fate>, id: string)
    requires GS.Valid(h, now) && Matched(h, tickets) && |tickets| == |fates|
    ensures var u := UseOf(tickets, fates, id);
      CallsIn(WP.Lines(h), id) == u.started + u.waiting + u.lost
  {
    match h
    case Start =>
    case Then(before, op, time, line) =>
      hide Decide, CallsIn;
      GS.WrittenLine(op, WP.Lines(before), time);
      GS.CallsOneMore(WP.Lines(before), line, id);
      if line.kind.Call? {
        GS.Approved(op, WP.Lines(before), time);
        UsesAreCalls(before, time, Front(tickets), Front(fates), id);
      } else {
        UsesAreCalls(before, time, tickets, fates, id);
      }
  }

  /** Every grant document presented under `id` allows at most `m` calls. */
  predicate Within(c: E.Call, id: string, m: nat) {
    c.grant.grantId == id ==> c.grant.maxCalls.Some? && c.grant.maxCalls.value <= m
  }

  lemma {:induction false} CallsWithin(h: GS.History, tickets: seq<Ticket>, id: string, m: nat)
    requires GS.AllRightful(h) && Matched(h, tickets)
    requires forall i | 0 <= i < |tickets| :: Within(tickets[i].call, id, m)
    ensures CallsIn(WP.Lines(h), id) <= m
  {
    match h
    case Start =>
    case Then(before, op, _, line) =>
      hide CallsIn;
      GS.CallsOneMore(WP.Lines(before), line, id);
      if line.kind.Call? {
        assert forall i | 0 <= i < |tickets| - 1 :: Front(tickets)[i] == tickets[i];
        CallsWithin(before, Front(tickets), id, m);
      } else {
        CallsWithin(before, tickets, id, m);
      }
  }

  lemma {:induction false} UseAfterUpdate(
    tickets: seq<Ticket>, fates: seq<Fate>, id: string, i: nat, w: WP.Writer, fate: Fate)
    requires |tickets| == |fates| && i < |fates| && fates[i] == Waiting(w) && !fate.Waiting?
    ensures var u, v := UseOf(tickets, fates, id), UseOf(tickets, fates[i := fate], id);
      if tickets[i].call.grant.grantId != id then v == u
      else if fate.Started? then v.started == u.started + 1 && v.lost == u.lost
      else v.started == u.started && v.lost == u.lost + 1
    decreases |fates|
  {
    if i + 1 == |fates| {
      assert Front(fates[i := fate]) == Front(fates);
    } else {
      assert Front(fates[i := fate]) == Front(fates)[i := fate];
      UseAfterUpdate(Front(tickets), Front(fates), id, i, w, fate);
    }
  }

  lemma UseOneMore(tickets: seq<Ticket>, fates: seq<Fate>, id: string, t: Ticket, w: WP.Writer)
    requires |tickets| == |fates|
    ensures UseOf(tickets + [t], fates + [Waiting(w)], id).started == UseOf(tickets, fates, id).started
  {
    assert Front(tickets + [t]) == tickets && Front(fates + [Waiting(w)]) == fates;
  }

  /** Whether a step starts a fetch under the grant. */
  ghost predicate Starts(s: State, ev: Event, id: string) {
    && ev.Fetch? && ev.w in s.stages && s.stages[ev.w].Approved? && s.stages[ev.w].ticket < |s.tickets|
    && s.tickets[s.stages[ev.w].ticket].call.grant.grantId == id
  }

  lemma OnlyFetchStarts(s: State, ev: Event, id: string)
    requires Inv(s) && Enabled(s, ev) && |Next(s, ev).tickets| == |Next(s, ev).fates|
    ensures var t := Next(s, ev);
      UseOf(t.tickets, t.fates, id).started ==
        UseOf(s.tickets, s.fates, id).started + if Starts(s, ev, id) then 1 else 0
  {
    hide Decide, Matched, UseOf;
    var w := if ev.Ask? || ev.Fetch? || ev.Die? then ev.w else if ev.e.Tick? then 0 else ev.e.w;
    if w in s.stages {
      assert StageOk(s.wp.PhaseOf(w), w, s.stages[w], s.fates);
      if s.stages[w].Approved? {
        UseAfterUpdate(s.tickets, s.fates, id, s.stages[w].ticket, w, Started);
        UseAfterUpdate(s.tickets, s.fates, id, s.stages[w].ticket, w, Lost);
      } else if s.stages[w].Charging? {
        UseOneMore(s.tickets, s.fates, id, Ticket(s.stages[w].call, |s.wp.book|), w);
      }
    }
  }

  /** How many fetches a schedule starts under the grant. */
  ghost function FetchesIn(s: State, evs: seq<Event>, id: string): nat
    decreases |evs|
  {
    if evs == [] || !Enabled(s, evs[0]) then 0
    else (if Starts(s, evs[0], id) then 1 else 0) + FetchesIn(Next(s, evs[0]), evs[1..], id)
  }

  lemma {:induction false} FetchesAreUses(s: State, evs: seq<Event>, id: string)
    requires Inv(s) && Run(s, evs).Some?
    ensures var t := Run(s, evs).value;
      && |t.tickets| == |t.fates|
      && UseOf(t.tickets, t.fates, id).started == UseOf(s.tickets, s.fates, id).started + FetchesIn(s, evs, id)
    decreases |evs|
  {
    hide Enabled, Next, WP.Invariant, Matched, StagesOk, FatesOk, UseOf, Starts;
    if evs != [] {
      StepKeepsInv(s, evs[0]);
      OnlyFetchStarts(s, evs[0], id);
      FetchesAreUses(Next(s, evs[0]), evs[1..], id);
    }
  }

  /** In every schedule the call lines of a grant are the fetches started under it, the approvals whose process has not
      started its fetch yet, and the approvals whose process died first. */
  lemma CallLinesAreAccountedFor(began: int, evs: seq<Event>, id: string)
    requires Run(Initial(began), evs).Some?
    ensures var t := Run(Initial(began), evs).value;
      && |t.tickets| == |t.fates|
      && CallsIn(t.wp.book, id) ==
         FetchesIn(Initial(began), evs, id) + UseOf(t.tickets, t.fates, id).waiting + UseOf(t.tickets, t.fates, id).lost
  {
    hide Decide, FetchesIn, Run, CallsIn;
    InitialIsInv(began);
    RunKeepsInv(Initial(began), evs);
    FetchesAreUses(Initial(began), evs, id);
    var t := Run(Initial(began), evs).value;
    UsesAreCalls(t.wp.history, t.wp.now, t.tickets, t.fates, id);
  }

  // ---------- the cap ----------

  /** Every document presented under `id` in the schedule allows at most `m` calls. */
  ghost predicate AsksWithin(evs: seq<Event>, id: string, m: nat) {
    evs == [] || ((evs[0].Ask? ==> Within(evs[0].call, id, m)) && AsksWithin(evs[1..], id, m))
  }

  ghost predicate AllWithin(s: State, id: string, m: nat) {
    && (forall i | 0 <= i < |s.tickets| :: Within(s.tickets[i].call, id, m))
    && (forall w | w in s.stages && !s.stages[w].Approved? :: Within(s.stages[w].call, id, m))
  }

  lemma {:induction false} RunKeepsWithin(s: State, evs: seq<Event>, id: string, m: nat)
    requires AllWithin(s, id, m) && AsksWithin(evs, id, m) && Run(s, evs).Some?
    ensures AllWithin(Run(s, evs).value, id, m)
    decreases |evs|
  {
    hide Within, Decide, E.Cleared;
    if evs != [] {
      StepKeepsWithin(s, evs[0], id, m);
      RunKeepsWithin(Next(s, evs[0]), evs[1..], id, m);
    }
  }

  lemma StepKeepsWithin(s: State, ev: Event, id: string, m: nat)
    requires AllWithin(s, id, m) && Enabled(s, ev) && (ev.Ask? ==> Within(ev.call, id, m))
    ensures AllWithin(Next(s, ev), id, m)
  {
    hide Within, Decide, E.Cleared;
  }

  /** Whatever the interleaving and whoever dies where, the fetches started under a grant never exceed its cap. */
  lemma FetchesWithinCap(began: int, evs: seq<Event>, id: string, m: nat)
    requires Run(Initial(began), evs).Some? && AsksWithin(evs, id, m)
    ensures FetchesIn(Initial(began), evs, id) <= CallsIn(Run(Initial(began), evs).value.wp.book, id) <= m
  {
    hide Decide, FetchesIn, Run, AsksWithin, CallsIn;
    InitialIsInv(began);
    RunKeepsInv(Initial(began), evs);
    RunKeepsWithin(Initial(began), evs, id, m);
    CallLinesAreAccountedFor(began, evs, id);
    var t := Run(Initial(began), evs).value;
    GS.CallsAreRightful(t.wp.history, t.wp.now);
    CallsWithin(t.wp.history, t.tickets, id, m);
  }

  // ---------- each fetch has its own line ----------

  lemma {:induction false} TicketLines(h: GS.History, tickets: seq<Ticket>, i: nat)
    requires GS.AllRightful(h) && Matched(h, tickets) && i < |tickets|
    ensures var book, t := WP.Lines(h), tickets[i];
      && t.line < |book|
      && Names(book[t.line], t.call.grant.grantId) && book[t.line].kind.Call?
      && GS.Rightful(OpOf(t.call), book[..t.line], book[t.line])
    ensures forall j | 0 <= j < i :: tickets[j].line < tickets[i].line
  {
    match h
    case Start =>
    case Then(before, op, _, line) =>
      hide GS.Rightful;
      var book := WP.Lines(before);
      if line.kind.Call? && i + 1 == |tickets| {
        assert (book + [line])[..|book|] == book;
        assert GS.Rightful(op, book, line);
        NamesItsGrant(op, book, line);
        forall j | 0 <= j < i ensures tickets[j].line < |book| {
          TicketLines(before, Front(tickets), j);
        }
      } else {
        var earlier := if line.kind.Call? then Front(tickets) else tickets;
        TicketLines(before, earlier, i);
        assert (book + [line])[..tickets[i].line] == book[..tickets[i].line];
        assert forall j | 0 <= j < i :: earlier[j] == tickets[j];
      }
  }

  lemma NamesItsGrant(op: Op, before: seq<Line>, line: Line)
    requires GS.Rightful(op, before, line) && line.Line? && line.kind.Call?
    ensures op.RecordCall? && Names(line, op.grant.grantId)
  {
  }

  /** When a process starts its fetch, after any schedule, its request had cleared the grant's allowlist and the
      ceiling, and the book holds the call line of its own approval: no other approval has it, it was rightful where it
      stands, and it was not used before. */
  lemma FetchIsPaidFor(began: int, evs: seq<Event>, w: WP.Writer)
    requires Run(Initial(began), evs).Some? && Enabled(Run(Initial(began), evs).value, Fetch(w))
    ensures var s := Run(Initial(began), evs).value;
      var i := s.stages[w].ticket;
      && i < |s.tickets| == |s.fates| && s.fates[i] == Waiting(w) && Next(s, Fetch(w)).fates == s.fates[i := Started]
      && E.Clean(s.tickets[i].call)
      && var line := s.tickets[i].line;
         && line < |s.wp.book|
         && s.wp.book[line].Line? && s.wp.book[line].kind.Call?
         && s.wp.book[line].grantId == s.tickets[i].call.grant.grantId
         && GS.Rightful(OpOf(s.tickets[i].call), s.wp.book[..line], s.wp.book[line])
         && forall j | 0 <= j < |s.tickets| && j != i :: s.tickets[j].line != line
  {
    hide Decide, Run, GS.Rightful;
    InitialIsInv(began);
    RunKeepsInv(Initial(began), evs);
    var s := Run(Initial(began), evs).value;
    GS.CallsAreRightful(s.wp.history, s.wp.now);
    assert StageOk(s.wp.PhaseOf(w), w, s.stages[w], s.fates);
    var i := s.stages[w].ticket;
    TicketLines(s.wp.history, s.tickets, i);
    E.ClearedIsClean(s.tickets[i].call);
    forall j | 0 <= j < |s.tickets| && j != i ensures s.tickets[j].line != s.tickets[i].line {
      TicketLines(s.wp.history, s.tickets, j);
    }
  }

  /** Every approval of every schedule was given to a request that both allowlists pass, and whose URL, when the
      policies are valid, lies below an entry of each. */
  lemma ApprovalsAreClean(began: int, evs: seq<Event>, i: nat)
    requires Run(Initial(began), evs).Some? && i < |Run(Initial(began), evs).value.tickets|
    ensures var call := Run(Initial(began), evs).value.tickets[i].call;
      && E.Clean(call)
      && (P.PolicyOk(call.policy) && (call.ceiling.Some? ==> P.PolicyOk(call.ceiling.value)) ==>
            && E.Within(call.policy, call.request.value.url)
            && (call.ceiling.Some? ==> E.Within(call.ceiling.value, call.request.value.url)))
  {
    hide Decide, Run, E.Clean, E.Cleared, E.Within, P.PolicyOk;
    InitialIsInv(began);
    RunKeepsInv(Initial(began), evs);
    var call := Run(Initial(began), evs).value.tickets[i].call;
    E.ClearedIsClean(call);
    CleanHasRequest(call);
    if P.PolicyOk(call.policy) && (call.ceiling.Some? ==> P.PolicyOk(call.ceiling.value)) {
      E.CleanIsContained(call);
    }
  }

  lemma CleanHasRequest(call: E.Call)
    requires E.Clean(call)
    ensures call.request.Some?
  {
  }

  /** What became of an approval is never undone, so it pays for at most one fetch. */
  lemma FatesAreFinal(s: State, ev: Event, i: nat)
    requires Inv(s) && Enabled(s, ev) && i < |s.fates| && !s.fates[i].Waiting?
    ensures i < |Next(s, ev).fates| && Next(s, ev).fates[i] == s.fates[i]
  {
    hide Decide, Matched;
    var w := if ev.Ask? || ev.Fetch? || ev.Die? then ev.w else if ev.e.Tick? then 0 else ev.e.w;
    if w in s.stages {
      assert StageOk(s.wp.PhaseOf(w), w, s.stages[w], s.fates);
    }
  }

  // ---------- one process, undisturbed ----------

  lemma RunStep(s: State, ev: Event, rest: seq<Event>)
    requires Enabled(s, ev)
    ensures Run(s, [ev] + rest) == Run(Next(s, ev), rest)
  {
    assert ([ev] + rest)[1..] == rest;
  }

  /** Ask, lock, replay, decide. */
  function Entry(w: WP.Writer, call: E.Call): seq<Event> {
    [Ask(w, call), Step(WP.Acquire(w, OpOf(call))), Step(WP.Replay(w)), Step(WP.Decide(w))]
  }

  lemma AloneEnters(s: State, w: WP.Writer, call: E.Call, rest: seq<Event>) returns (t: State)
    requires Inv(s) && s.wp.holder.None? && w !in s.stages && E.Cleared(call)
    ensures Run(s, Entry(w, call) + rest) == Run(t, rest)
    ensures Inv(t) && t.wp.book == s.wp.book && t.tickets == s.tickets && t.fates == s.fates
    ensures w in t.stages && t.stages[w] == Charging(call)
    ensures match Charge(call.grant, call.clock, s.wp.book) {
              case Ok(r) => t.wp.PhaseOf(w) == WP.Decided(OpOf(call), s.wp.now, r.1)
              case Err(_) => t.wp.PhaseOf(w).Done?
            }
  {
    hide Charge, Run, E.Cleared;
    assert s.wp.PhaseOf(w).Idle?;
    var s1 := Next(s, Ask(w, call));
    var s2 := Next(s1, Step(WP.Acquire(w, OpOf(call))));
    var s3 := Next(s2, Step(WP.Replay(w)));
    t := Next(s3, Step(WP.Decide(w)));
    StepKeepsInv(s, Ask(w, call));
    StepKeepsInv(s1, Step(WP.Acquire(w, OpOf(call))));
    StepKeepsInv(s2, Step(WP.Replay(w)));
    StepKeepsInv(s3, Step(WP.Decide(w)));
    var last := [Step(WP.Decide(w))] + rest;
    var third := [Step(WP.Replay(w))] + last;
    var second := [Step(WP.Acquire(w, OpOf(call)))] + third;
    assert Entry(w, call) + rest == [Ask(w, call)] + second;
    RunStep(s, Ask(w, call), second);
    RunStep(s1, Step(WP.Acquire(w, OpOf(call))), third);
    RunStep(s2, Step(WP.Replay(w)), last);
    RunStep(s3, Step(WP.Decide(w)), rest);
  }

  /** Write, release, and fetch when the line is a call line. */
  lemma AloneLeaves(s: State, w: WP.Writer, call: E.Call) returns (t: State)
    requires Inv(s) && s.wp.PhaseOf(w).Decided? && w in s.stages && s.stages[w] == Charging(call)
    requires s.wp.PhaseOf(w).line.Line?
    ensures var line := s.wp.PhaseOf(w).line;
      && Run(s, [Step(WP.Write(w)), Step(WP.Release(w))] + if line.kind.Call? then [Fetch(w)] else []) == Some(t)
      && t.wp.book == s.wp.book + [line]
      && t.tickets == (if line.kind.Call? then s.tickets + [Ticket(call, |s.wp.book|)] else s.tickets)
      && t.fates == if line.kind.Call? then s.fates + [Started] else s.fates
  {
    hide Decide, Matched, StagesOk, FatesOk, Run;
    var fetches := s.wp.PhaseOf(w).line.kind.Call?;
    var s1 := Next(s, Step(WP.Write(w)));
    var s2 := Next(s1, Step(WP.Release(w)));
    var rest := if fetches then [Fetch(w)] else [];
    var last := [Step(WP.Release(w))] + rest;
    assert [Step(WP.Write(w)), Step(WP.Release(w))] + rest == [Step(WP.Write(w))] + last;
    RunStep(s, Step(WP.Write(w)), last);
    RunStep(s1, Step(WP.Release(w)), rest);
    t := s2;
    if fetches {
      t := Next(s2, Fetch(w));
      assert [Fetch(w)] + [] == [Fetch(w)];
      RunStep(s2, Fetch(w), []);
    }
    RunNothing(t);
  }

  lemma RunNothing(s: State)
    ensures Run(s, []) == Some(s)
  {
  }

  /** The steps of one mediated call when nobody else takes any. */
  function Alone(w: WP.Writer, call: E.Call, book: seq<Line>): seq<Event> {
    if !E.Cleared(call) then [Ask(w, call)]
    else
      Entry(w, call) +
      match Charge(call.grant, call.clock, book)
      case Err(_) => [Step(WP.Release(w))]
      case Ok(r) => [Step(WP.Write(w)), Step(WP.Release(w))] + if r.1.kind.Call? then [Fetch(w)] else []
  }

  lemma AloneRaises(s: State, w: WP.Writer, call: E.Call) returns (t: State)
    requires s.wp.PhaseOf(w).Done? && w in s.stages && s.stages[w] == Charging(call)
    ensures Run(s, [Step(WP.Release(w))]) == Some(t)
    ensures t.wp.book == s.wp.book && t.tickets == s.tickets && t.fates == s.fates
  {
    hide Run;
    t := Next(s, Step(WP.Release(w)));
    assert [Step(WP.Release(w))] + [] == [Step(WP.Release(w))];
    RunStep(s, Step(WP.Release(w)), []);
    RunNothing(t);
  }

  lemma AloneIsRefused(s: State, w: WP.Writer, call: E.Call)
    requires Inv(s) && s.wp.holder.None? && w !in s.stages && !E.Cleared(call)
    ensures Run(s, [Ask(w, call)]) == Some(s)
  {
    hide Run, Matched, StagesOk, FatesOk, E.Cleared;
    assert s.wp.PhaseOf(w).Idle?;
    assert [Ask(w, call)] + [] == [Ask(w, call)];
    RunStep(s, Ask(w, call), []);
    RunNothing(s);
  }

  lemma ChargeWrites(call: E.Call, book: seq<Line>)
    ensures var r := Charge(call.grant, call.clock, book);
      r.Ok? ==> r.value.1.Line? && (r.value.1.kind.Call? <==> r.value.0.allowed)
  {
    hide ReplayOf;
  }

  /** Undisturbed, the steps of one process are the mediated call: the same book, and a fetch exactly when that call
      ends in one. */
  lemma AloneIsMediated(s: State, w: WP.Writer, call: E.Call)
    requires Inv(s) && s.wp.holder.None? && w !in s.stages
    ensures var t := Run(s, Alone(w, call, s.wp.book));
      var mediated := E.Mediated(call, s.wp.book);
      && t.Some? && t.value.wp.book == mediated.1
      && t.value.tickets ==
           (if mediated.0.Fetching? then s.tickets + [Ticket(call, |s.wp.book|)] else s.tickets)
      && t.value.fates == if mediated.0.Fetching? then s.fates + [Started] else s.fates
  {
    hide Run, Inv, Entry, E.Allowed, Charge;
    if !E.Cleared(call) {
      AloneIsRefused(s, w, call);
    } else {
      var charge := Charge(call.grant, call.clock, s.wp.book);
      ChargeWrites(call, s.wp.book);
      var rest := if charge.Err? then [Step(WP.Release(w))]
        else [Step(WP.Write(w)), Step(WP.Release(w))] + if charge.value.1.kind.Call? then [Fetch(w)] else [];
      var t := AloneEnters(s, w, call, rest);
      if charge.Ok? {
        var last := AloneLeaves(t, w, call);
      } else {
        var last := AloneRaises(t, w, call);
      }
    }
  }
}

/** Many writers, one exclusive lock. */
module WriterProtocol {
  // Each writer takes the lock, replays the book, decides, writes at most one line, and releases. `decide` is the rule
  // of the book; an `Err` is an exception that leaves the critical section without writing.

  import opened Prelude

  type Writer = nat

  /** Where one writer stands. `Done` still holds the lock. */
  datatype Phase<Op, Line> =
    | Idle
    | Locked(op: Op)
    | Replayed(op: Op, seen: seq<Line>)
    | Decided(op: Op, time: int, line: Line)
    | Done

  /** What was written, oldest first, with the operation and the clock reading that produced each line. */
  datatype History<Op, Line> = Start | Then(before: History<Op, Line>, op: Op, time: int, line: Line)

  function Lines<Op, Line>(h: History<Op, Line>): seq<Line> {
    match h
    case Start => []
    case Then(before, _, _, line) => Lines(before) + [line]
  }

  /** Every line is what `decide` answers on exactly the lines before it, at a clock that never goes back. */
  ghost predicate Valid<Op, Line, E>(
    decide: (Op, seq<Line>, int) -> Result<Line, E>, h: History<Op, Line>, now: int)
  {
    match h
    case Start => true
    case Then(before, op, time, line) =>
      time <= now && decide(op, Lines(before), time) == Ok(line) && Valid(decide, before, time)
  }

  datatype State<Op, Line> = State(
    book: seq<Line>,
    holder: Option<Writer>,
    phases: map<Writer, Phase<Op, Line>>,
    now: int,
    history: History<Op, Line>)
  {
    function PhaseOf(w: Writer): Phase<Op, Line> {
      if w in phases then phases[w] else Idle
    }

    function In(w: Writer, p: Phase<Op, Line>): State<Op, Line> {
      this.(phases := phases[w := p])
    }
  }

  datatype Event<Op> =
    | Acquire(w: Writer, op: Op)
    | Replay(w: Writer)
    | Decide(w: Writer)
    | Write(w: Writer)
    | Release(w: Writer)
    | Crash(w: Writer)
    | Tick(elapsed: nat)

  ghost function Initial<Op, Line>(now: int): State<Op, Line> {
    State([], None, map[], now, Start)
  }

  ghost predicate Enabled<Op, Line>(s: State<Op, Line>, e: Event<Op>) {
    match e
    case Acquire(w, _) => s.holder.None? && s.PhaseOf(w).Idle?
    case Replay(w) => s.PhaseOf(w).Locked?
    case Decide(w) => s.PhaseOf(w).Replayed?
    case Write(w) => s.PhaseOf(w).Decided?
    case Release(w) => s.PhaseOf(w).Done?
    case Crash(w) => !s.PhaseOf(w).Idle?
    case Tick(_) => true
  }

  /** The state after one step. A process that dies gives its lock back, whatever it had got to. */
  ghost function Next<Op, Line, E>(
    decide: (Op, seq<Line>, int) -> Result<Line, E>, s: State<Op, Line>, e: Event<Op>): State<Op, Line>
    requires Enabled(s, e)
  {
    match e
    case Acquire(w, op) => s.In(w, Locked(op)).(holder := Some(w))
    case Replay(w) => s.In(w, Replayed(s.PhaseOf(w).op, s.book))
    case Decide(w) =>
      var p := s.PhaseOf(w);
      (match decide(p.op, p.seen, s.now)
       case Ok(line) => s.In(w, Decided(p.op, s.now, line))
       case Err(_) => s.In(w, Done))
    case Write(w) =>
      var p := s.PhaseOf(w);
      s.In(w, Done).(book := s.book + [p.line], history := Then(s.history, p.op, p.time, p.line))
    case Release(w) => s.In(w, Idle).(holder := None)
    case Crash(w) => s.In(w, Idle).(holder := None)
    case Tick(elapsed) => s.(now := s.now + elapsed)
  }

  /** The state after a whole schedule; `None` when some step of it is not enabled. */
  ghost function Run<Op, Line, E>(
    decide: (Op, seq<Line>, int) -> Result<Line, E>, s: State<Op, Line>, events: seq<Event<Op>>):
    Option<State<Op, Line>>
    decreases |events|
  {
    if events == [] then Some(s)
    else if !Enabled(s, events[0]) then None
    else Run(decide, Next(decide, s, events[0]), events[1..])
  }

  // ---------- what every step keeps ----------

  /** Only the holder is inside the critical section. */
  ghost predicate Exclusive<Op, Line>(s: State<Op, Line>) {
    forall w: Writer :: s.PhaseOf(w).Idle? <==> s.holder != Some(w)
  }

  /** What a writer inside the section saw or decided still describes the book. */
  ghost predicate Current<Op, Line, E>(
    decide: (Op, seq<Line>, int) -> Result<Line, E>, s: State<Op, Line>, p: Phase<Op, Line>)
  {
    && (p.Replayed? ==> p.seen == s.book)
    && (p.Decided? ==> decide(p.op, s.book, p.time) == Ok(p.line) && p.time <= s.now)
    && (p.Decided? ==> Valid(decide, s.history, p.time))
  }

  ghost predicate Invariant<Op, Line, E>(decide: (Op, seq<Line>, int) -> Result<Line, E>, s: State<Op, Line>) {
    && Exclusive(s)
    && s.book == Lines(s.history)
    && Valid(decide, s.history, s.now)
    && (s.holder.Some? ==> Current(decide, s, s.PhaseOf(s.holder.value)))
  }

  lemma LaterIsValid<Op, Line, E>(
    decide: (Op, seq<Line>, int) -> Result<Line, E>, h: History<Op, Line>, now: int, later: int)
    requires Valid(decide, h, now) && now <= later
    ensures Valid(decide, h, later)
  {
  }

  lemma StepKeepsInvariant<Op, Line, E>(
    decide: (Op, seq<Line>, int) -> Result<Line, E>, s: State<Op, Line>, e: Event<Op>)
    requires Invariant(decide, s) && Enabled(s, e)
    ensures Invariant(decide, Next(decide, s, e))
    ensures s.book <= Next(decide, s, e).book && |Next(decide, s, e).book| <= |s.book| + 1
  {
    var t := Next(decide, s, e);
    if e.Tick? {
      LaterIsValid(decide, s.history, s.now, t.now);
      assert forall w: Writer :: t.PhaseOf(w) == s.PhaseOf(w);
    } else {
      assert forall w: Writer :: w != e.w ==> t.PhaseOf(w) == s.PhaseOf(w);
      if !e.Acquire? {
        assert s.holder == Some(e.w);
      }
    }
  }

  /** Whatever the interleaving, and whoever crashes where, the book is a valid history: every line was decided on
      exactly the lines before it, and nothing already written is lost. */
  lemma {:induction false} EveryRunIsValid<Op, Line, E>(
    decide: (Op, seq<Line>, int) -> Result<Line, E>, s: State<Op, Line>, events: seq<Event<Op>>)
    requires Invariant(decide, s) && Run(decide, s, events).Some?
    ensures var t := Run(decide, s, events).value; Invariant(decide, t) && s.book <= t.book
    decreases |events|
  {
    if events != [] {
      StepKeepsInvariant(decide, s, events[0]);
      EveryRunIsValid(decide, Next(decide, s, events[0]), events[1..]);
    }
  }

  lemma InitialIsValid<Op, Line, E>(decide: (Op, seq<Line>, int) -> Result<Line, E>, now: int)
    ensures Invariant(decide, Initial<Op, Line>(now))
  {
  }

  // ---------- every valid history is some run ----------

  /** One undisturbed pass through the critical section. */
  function Solo<Op>(w: Writer, op: Op, elapsed: nat): seq<Event<Op>> {
    [Tick(elapsed), Acquire(w, op), Replay(w), Decide(w), Write(w), Release(w)]
  }

  lemma RunStep<Op, Line, E>(decide: (Op, seq<Line>, int) -> Result<Line, E>, s: State<Op, Line>,
                             e: Event<Op>, rest: seq<Event<Op>>)
    requires Enabled(s, e)
    ensures Run(decide, s, [e] + rest) == Run(decide, Next(decide, s, e), rest)
  {
    assert ([e] + rest)[1..] == rest;
  }

  /** An undisturbed writer commits exactly what its rule answers on the book it found. */
  lemma SoloCommits<Op, Line, E>(
    decide: (Op, seq<Line>, int) -> Result<Line, E>, s: State<Op, Line>, w: Writer, op: Op, elapsed: nat)
    requires Invariant(decide, s) && s.holder.None?
    requires decide(op, s.book, s.now + elapsed).Ok?
    ensures var line := decide(op, s.book, s.now + elapsed).value;
      var t := Run(decide, s, Solo(w, op, elapsed));
      && t.Some? && t.value.holder.None? && t.value.now == s.now + elapsed
      && t.value.history == Then(s.history, op, s.now + elapsed, line)
      && t.value.book == s.book + [line] && Invariant(decide, t.value)
  {
    assert s.PhaseOf(w).Idle?;
    var s1 := Next(decide, s, Tick(elapsed));
    var s2 := Next(decide, s1, Acquire(w, op));
    var s3 := Next(decide, s2, Replay(w));
    var s4 := Next(decide, s3, Decide(w));
    var s5 := Next(decide, s4, Write(w));
    var s6 := Next(decide, s5, Release(w));
    assert Run(decide, s6, []) == Some(s6);
    RunStep(decide, s5, Release(w), []);
    RunStep(decide, s4, Write(w), [Release(w)]);
    RunStep(decide, s3, Decide(w), [Write(w), Release(w)]);
    RunStep(decide, s2, Replay(w), [Decide(w), Write(w), Release(w)]);
    RunStep(decide, s1, Acquire(w, op), [Replay(w), Decide(w), Write(w), Release(w)]);
    RunStep(decide, s, Tick(elapsed), [Acquire(w, op), Replay(w), Decide(w), Write(w), Release(w)]);
    EveryRunIsValid(decide, s, Solo(w, op, elapsed));
  }

  lemma {:induction false} RunConcat<Op, Line, E>(decide: (Op, seq<Line>, int) -> Result<Line, E>,
                                                  s: State<Op, Line>, a: seq<Event<Op>>, b: seq<Event<Op>>)
    requires Run(decide, s, a).Some?
    ensures Run(decide, s, a + b) == Run(decide, Run(decide, s, a).value, b)
    decreases |a|
  {
    if a == [] {
      assert a + b == b;
    } else {
      assert (a + b)[1..] == a[1..] + b;
      RunConcat(decide, Next(decide, s, a[0]), a[1..], b);
    }
  }

  ghost predicate StartsAfter<Op, Line>(h: History<Op, Line>, time: int) {
    h.Then? ==> time <= h.time && StartsAfter(h.before, time)
  }

  /** So the valid histories are exactly what the lock protocol can produce. */
  lemma {:induction false} EveryValidHistoryRuns<Op, Line, E>(
    decide: (Op, seq<Line>, int) -> Result<Line, E>, h: History<Op, Line>, began: int, now: int)
    returns (events: seq<Event<Op>>)
    requires Valid(decide, h, now) && StartsAfter(h, began)
    ensures var t := Run(decide, Initial(began), events);
      t.Some? && t.value.history == h && t.value.book == Lines(h) && t.value.now <= (if h.Then? then h.time else began)
    ensures Run(decide, Initial(began), events).value.holder.None?
    decreases h
  {
    InitialIsValid(decide, began);
    match h
    case Start =>
      events := [];
    case Then(before, op, time, _) =>
      var first := EveryValidHistoryRuns(decide, before, began, time);
      var s := Run(decide, Initial(began), first).value;
      EveryRunIsValid(decide, Initial(began), first);
      SoloCommits(decide, s, 0, op, time - s.now);
      RunConcat(decide, Initial(began), first, Solo(0, op, time - s.now));
      events := first + Solo(0, op, time - s.now);
  }
}

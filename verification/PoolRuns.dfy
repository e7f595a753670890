/** The pool of engines under any schedule of threads. */
module PoolRuns {
  // `engine_for` and `close` are one locked section each, `retain` and `release` are two, a lookup and a count, and the
  // sections of different threads come in any order. Entries are numbered as they are built.

  import opened Texts
  import opened Json
  import opened Eviction

  /** What a thread inside `retain` (`up`) or `release` has looked up and not yet counted. */
  datatype Look = Look(entry: int, up: bool)

  datatype Pool = Pool(slots: seq<Keyed<int>>, counts: map<int, int>, looks: map<int, Look>, made: int)

  datatype Event =
    | EngineFor(key: Text)
    | LookUp(user: int, entry: int, up: bool)
    | Count(user: int)
    | Close

  const NEW := Pool([], map[], map[], 0)

  function CountOf(p: Pool, entry: int): int {
    if entry in p.counts then p.counts[entry] else 0
  }

  ghost function Busy(p: Pool): set<int> {
    set e | e in p.counts && p.counts[e] > 0
  }

  ghost predicate Pooled(p: Pool, entry: int) {
    Holds(p.slots, entry)
  }

  function Counted(p: Pool, user: int): Pool
    requires user in p.looks
  {
    var look := p.looks[user];
    var n := CountOf(p, look.entry);
    var more := if look.up then n + 1 else if n > 0 then n - 1 else 0;
    Pool(p.slots, p.counts[look.entry := more], p.looks - {user}, p.made)
  }

  /** One locked section. A lookup of an entry that is not pooled raises, and a thread is in one call at a time. */
  ghost function Next(max: nat, p: Pool, ev: Event): Pool {
    match ev
    case EngineFor(key) =>
      var known := IndexOf(p.slots, key).Some?;
      Pool(Asked(p.slots, Busy(p), max, key, p.made), p.counts, p.looks, if known then p.made else p.made + 1)
    case LookUp(user, entry, up) =>
      if user in p.looks || !Pooled(p, entry) then p
      else Pool(p.slots, p.counts, p.looks[user := Look(entry, up)], p.made)
    case Count(user) => if user in p.looks then Counted(p, user) else p
    case Close => Pool([], p.counts, p.looks, p.made)
  }

  ghost function Run(max: nat, p: Pool, evs: seq<Event>): Pool
    decreases |evs|
  {
    if evs == [] then p else Run(max, Next(max, p, evs[0]), evs[1..])
  }

  /** Entries are numbered below `made` and pooled once. */
  ghost predicate Sane(p: Pool) {
    && NoRepeat(p.slots)
    && (forall e :: Holds(p.slots, e) ==> e < p.made)
    && (forall u | u in p.looks :: p.looks[u].entry < p.made)
    && (forall e | e in p.counts :: e < p.made)
  }

  /** Which steps leave a pooled entry pooled: every one but `close` and a request that evicts it. */
  ghost predicate Spares(max: nat, p: Pool, ev: Event, entry: int) {
    match ev
    case EngineFor(key) => Spared(p.slots, Busy(p), max, key, entry)
    case Close => false
    case _ => true
  }

  ghost predicate SparesAll(max: nat, p: Pool, evs: seq<Event>, entry: int)
    decreases |evs|
  {
    evs == [] || (Spares(max, p, evs[0], entry) && SparesAll(max, Next(max, p, evs[0]), evs[1..], entry))
  }

  lemma StepPooledIff(max: nat, p: Pool, ev: Event, entry: int)
    requires max >= 1 && Sane(p) && entry < p.made
    ensures Pooled(Next(max, p, ev), entry) <==> Pooled(p, entry) && Spares(max, p, ev, entry)
    ensures p.made <= Next(max, p, ev).made
  {
    hide Holds, NoRepeat, Spared, Asked;
    if ev.EngineFor? {
      AskedKeepsIff(p.slots, Busy(p), max, ev.key, p.made, entry);
    } else if ev.Close? {
      NoneHeld(entry);
    }
  }

  lemma NoneHeld(entry: int)
    ensures !Holds([], entry)
  {
  }

  lemma StepKeepsSane(max: nat, p: Pool, ev: Event)
    requires max >= 1 && Sane(p)
    ensures Sane(Next(max, p, ev))
  {
    hide Holds, NoRepeat, Asked, IndexOf;
    var q := Next(max, p, ev);
    if ev.EngineFor? {
      AskedKeepsIff(p.slots, Busy(p), max, ev.key, p.made, p.made + 1);
      forall e | Holds(q.slots, e) ensures e < q.made {
        if e != p.made {
          AskedKeepsIff(p.slots, Busy(p), max, ev.key, p.made, e);
        }
      }
    } else if ev.Close? {
      forall e ensures !Holds(q.slots, e) {
        NoneHeld(e);
      }
      Alone();
    }
  }

  lemma Alone()
    ensures NoRepeat<int>([])
  {
  }

  lemma {:induction false} RunKeepsSane(max: nat, p: Pool, evs: seq<Event>)
    requires max >= 1 && Sane(p)
    ensures Sane(Run(max, p, evs))
    decreases |evs|
  {
    hide Sane, Next;
    if evs != [] {
      StepKeepsSane(max, p, evs[0]);
      RunKeepsSane(max, Next(max, p, evs[0]), evs[1..]);
    }
  }

  /** After any schedule an entry is pooled exactly when it was and every step spared it. */
  lemma {:induction false} PooledIffSpared(max: nat, p: Pool, evs: seq<Event>, entry: int)
    requires max >= 1 && Sane(p) && entry < p.made
    ensures Sane(Run(max, p, evs)) && p.made <= Run(max, p, evs).made
    ensures Pooled(Run(max, p, evs), entry) <==> Pooled(p, entry) && SparesAll(max, p, evs, entry)
    decreases |evs|
  {
    hide Sane, Spares, Pooled, Next;
    if evs != [] {
      StepKeepsSane(max, p, evs[0]);
      StepPooledIff(max, p, evs[0], entry);
      PooledIffSpared(max, Next(max, p, evs[0]), evs[1..], entry);
    }
  }

  // ---------- who is evicted ----------

  /** How many of the entries before place `i` no run has counted. */
  function IdleBefore(p: Pool, i: nat): nat
    requires i <= |p.slots|
  {
    if i == 0 then 0
    else IdleBefore(p, i - 1) + if CountOf(p, p.slots[i - 1].value) <= 0 then 1 else 0
  }

  lemma {:induction false} IdleSnoc(slots: seq<Keyed<int>>, s: Keyed<int>, live: set<int>)
    ensures |Idle(slots + [s], live)| == |Idle(slots, live)| + if s.value in live then 0 else 1
  {
    if slots == [] {
      assert [] + [s] == [s] && [s] + [] == [s];
      FirstStep(s, [], live);
    } else {
      assert (slots + [s])[0] == slots[0] && (slots + [s])[1..] == slots[1..] + [s];
      IdleSnoc(slots[1..], s, live);
    }
  }

  lemma {:induction false} IdleIsUncounted(p: Pool, i: nat)
    requires i <= |p.slots|
    ensures |Idle(p.slots[..i], Busy(p))| == IdleBefore(p, i)
  {
    if i > 0 {
      IdleIsUncounted(p, i - 1);
      assert p.slots[..i] == p.slots[..i - 1] + [p.slots[i - 1]];
      IdleSnoc(p.slots[..i - 1], p.slots[i - 1], Busy(p));
    }
  }

  /** On the counts alone: a request leaves the entry at place `i` pooled exactly when its fingerprint is known, or
      there is room, or a run has counted the entry, or as many uncounted entries stand before it as have to go. */
  lemma RequestSparesIff(max: nat, p: Pool, key: Text, i: nat)
    requires max >= 1 && Sane(p) && i < |p.slots|
    ensures Pooled(Next(max, p, EngineFor(key)), p.slots[i].value) <==>
      || (exists j :: 0 <= j < |p.slots| && p.slots[j].key == key)
      || |p.slots| < max
      || CountOf(p, p.slots[i].value) > 0
      || IdleBefore(p, i) >= |p.slots| - max + 1
  {
    hide IndexOf, Ahead, Idle, Asked, NoRepeat;
    var entry := p.slots[i].value;
    HoldsAt(p.slots, i);
    StepPooledIff(max, p, EngineFor(key), entry);
    assert IndexOf(p.slots, key).Some? ==> p.slots[IndexOf(p.slots, key).value].key == key;
    AheadIsIdleBefore(p.slots, Busy(p), i);
    IdleIsUncounted(p, i);
  }

  /** No count falls below zero, in any schedule. */
  lemma {:induction false} NeverBelowZero(max: nat, p: Pool, evs: seq<Event>)
    requires forall e | e in p.counts :: p.counts[e] >= 0
    ensures forall e | e in Run(max, p, evs).counts :: Run(max, p, evs).counts[e] >= 0
    decreases |evs|
  {
    hide Asked, IndexOf;
    if evs != [] {
      NeverBelowZero(max, Next(max, p, evs[0]), evs[1..]);
    }
  }

  // ---------- retain ----------

  /** No step of `evs` counts what this thread has looked up. */
  ghost predicate Without(evs: seq<Event>, ev: Event) {
    evs == [] || (evs[0] != ev && Without(evs[1..], ev))
  }

  lemma StepKeepsLook(max: nat, p: Pool, ev: Event, user: int)
    requires user in p.looks && ev != Count(user)
    ensures user in Next(max, p, ev).looks && Next(max, p, ev).looks[user] == p.looks[user]
  {
  }

  lemma {:induction false} LookKept(max: nat, p: Pool, evs: seq<Event>, user: int)
    requires user in p.looks && Without(evs, Count(user))
    ensures user in Run(max, p, evs).looks && Run(max, p, evs).looks[user] == p.looks[user]
    decreases |evs|
  {
    hide Next;
    if evs != [] {
      StepKeepsLook(max, p, evs[0], user);
      LookKept(max, Next(max, p, evs[0]), evs[1..], user);
    }
  }

  /** "Retained implies pooled", exactly: whatever other threads do between the lookup and the count of `retain`, the
      entry is counted once more, and it is still pooled exactly when no `close` and no evicting request came
      between. */
  lemma RetainedIsPooledIff(max: nat, p: Pool, user: int, entry: int, gap: seq<Event>)
    requires max >= 1 && Sane(p) && user !in p.looks && Pooled(p, entry) && Without(gap, Count(user))
    ensures var looked := Next(max, p, LookUp(user, entry, true));
      var before := Run(max, looked, gap);
      var after := Next(max, before, Count(user));
      && Sane(after) && CountOf(after, entry) == CountOf(before, entry) + 1
      && (Pooled(after, entry) <==> SparesAll(max, looked, gap, entry))
  {
    hide NoRepeat, SparesAll, Run;
    var looked := Next(max, p, LookUp(user, entry, true));
    StepKeepsSane(max, p, LookUp(user, entry, true));
    PooledIffSpared(max, looked, gap, entry);
    LookKept(max, looked, gap, user);
    StepKeepsSane(max, Run(max, looked, gap), Count(user));
  }

  // ---------- counted entries stay ----------

  ghost predicate BusyAll(max: nat, p: Pool, evs: seq<Event>, entry: int)
    decreases |evs|
  {
    evs == [] || (CountOf(p, entry) > 0 && BusyAll(max, Next(max, p, evs[0]), evs[1..], entry))
  }

  lemma BusyIsSpared(max: nat, p: Pool, ev: Event, entry: int)
    requires CountOf(p, entry) > 0 && ev != Close
    ensures Spares(max, p, ev, entry)
  {
    hide IndexOf, Ahead;
  }

  /** A pooled entry stays pooled, without `close`, for as long as its count is positive. */
  lemma {:induction false} BusyStaysPooled(max: nat, p: Pool, evs: seq<Event>, entry: int)
    requires max >= 1 && Sane(p) && Pooled(p, entry) && Without(evs, Close) && BusyAll(max, p, evs, entry)
    ensures SparesAll(max, p, evs, entry) && Pooled(Run(max, p, evs), entry)
    decreases |evs|
  {
    hide Spares, Next;
    if evs != [] {
      BusyIsSpared(max, p, evs[0], entry);
      StepKeepsSane(max, p, evs[0]);
      StepPooledIff(max, p, evs[0], entry);
      BusyStaysPooled(max, Next(max, p, evs[0]), evs[1..], entry);
    }
  }

  // ---------- leases ----------

  /** Runs lease engines: each retains when it holds none and releases the one it holds. `held` says which run holds
      which engine, from its count up to its count down. */
  ghost predicate Proper(held: map<int, int>, ev: Event) {
    match ev
    case LookUp(user, entry, up) => if up then user !in held else user in held && held[user] == entry
    case _ => true
  }

  function HeldAfter(p: Pool, held: map<int, int>, ev: Event): map<int, int> {
    match ev
    case Count(user) =>
      if user !in p.looks then held
      else if p.looks[user].up then held[user := p.looks[user].entry]
      else held - {user}
    case _ => held
  }

  ghost predicate ProperAll(max: nat, p: Pool, held: map<int, int>, evs: seq<Event>)
    decreases |evs|
  {
    evs == [] ||
    (Proper(held, evs[0]) && ProperAll(max, Next(max, p, evs[0]), HeldAfter(p, held, evs[0]), evs[1..]))
  }

  ghost function HeldIn(max: nat, p: Pool, held: map<int, int>, evs: seq<Event>): map<int, int>
    decreases |evs|
  {
    if evs == [] then held else HeldIn(max, Next(max, p, evs[0]), HeldAfter(p, held, evs[0]), evs[1..])
  }

  ghost function Holders(held: map<int, int>, entry: int): set<int> {
    set u | u in held && held[u] == entry
  }

  /** The count of every engine is the number of runs that hold it. */
  ghost predicate CountsHolders(p: Pool, held: map<int, int>) {
    && (forall u | u in p.looks ::
          if p.looks[u].up then u !in held else u in held && held[u] == p.looks[u].entry)
    && (forall e :: CountOf(p, e) == |Holders(held, e)|)
  }

  lemma HolderJoins(held: map<int, int>, user: int, entry: int, e: int)
    requires user !in held
    ensures |Holders(held[user := entry], e)| == |Holders(held, e)| + if e == entry then 1 else 0
  {
    assert Holders(held[user := entry], e) == if e == entry then Holders(held, e) + {user} else Holders(held, e);
  }

  lemma HolderLeaves(held: map<int, int>, user: int, e: int)
    requires user in held
    ensures |Holders(held - {user}, e)| == |Holders(held, e)| - if e == held[user] then 1 else 0
  {
    assert Holders(held - {user}, e) == Holders(held, e) - {user};
    assert user in Holders(held, e) <==> e == held[user];
  }

  lemma StepKeepsCounts(max: nat, p: Pool, held: map<int, int>, ev: Event)
    requires CountsHolders(p, held) && Proper(held, ev)
    ensures CountsHolders(Next(max, p, ev), HeldAfter(p, held, ev))
  {
    hide Asked, IndexOf, Holders;
    if ev.Count? && ev.user in p.looks {
      var look := p.looks[ev.user];
      forall e ensures CountOf(Next(max, p, ev), e) == |Holders(HeldAfter(p, held, ev), e)| {
        if look.up {
          HolderJoins(held, ev.user, look.entry, e);
        } else {
          HolderLeaves(held, ev.user, e);
        }
      }
    }
  }

  /** In every schedule of leases the count of each engine is the number of runs that hold it. */
  lemma {:induction false} LeasesAreCounted(max: nat, p: Pool, held: map<int, int>, evs: seq<Event>)
    requires CountsHolders(p, held) && ProperAll(max, p, held, evs)
    ensures CountsHolders(Run(max, p, evs), HeldIn(max, p, held, evs))
    decreases |evs|
  {
    hide CountsHolders, Proper, Next, HeldAfter;
    if evs != [] {
      StepKeepsCounts(max, p, held, evs[0]);
      LeasesAreCounted(max, Next(max, p, evs[0]), HeldAfter(p, held, evs[0]), evs[1..]);
    }
  }

  lemma HolderIsBusy(p: Pool, held: map<int, int>, user: int)
    requires CountsHolders(p, held) && user in held
    ensures CountOf(p, held[user]) > 0
  {
    assert user in Holders(held, held[user]);
  }

  /** Until it counts down, a run that holds a pooled engine finds it pooled, whatever the others do short of
      `close`. */
  lemma {:induction false} LeaseStaysPooled(
    max: nat, p: Pool, held: map<int, int>, evs: seq<Event>, user: int)
    requires max >= 1 && Sane(p) && CountsHolders(p, held) && ProperAll(max, p, held, evs)
    requires user in held && Pooled(p, held[user]) && Without(evs, Close) && Without(evs, Count(user))
    ensures Pooled(Run(max, p, evs), held[user])
    ensures user in HeldIn(max, p, held, evs) && HeldIn(max, p, held, evs)[user] == held[user]
    decreases |evs|
  {
    hide CountsHolders, Proper, Spares, Sane, Next;
    if evs != [] {
      var entry := held[user];
      HolderIsBusy(p, held, user);
      BusyIsSpared(max, p, evs[0], entry);
      StepKeepsCounts(max, p, held, evs[0]);
      StepKeepsSane(max, p, evs[0]);
      IsBelow(p, entry);
      StepPooledIff(max, p, evs[0], entry);
      LeaseStaysPooled(max, Next(max, p, evs[0]), HeldAfter(p, held, evs[0]), evs[1..], user);
    }
  }

  lemma IsBelow(p: Pool, entry: int)
    requires Sane(p) && Pooled(p, entry)
    ensures entry < p.made
  {
    hide Holds;
  }

  /** A whole lease: a run looks an engine up, other steps come, it counts, and more steps come. At the end the engine
      is pooled, so that looking it up for `release` succeeds, exactly when it was spared between lookup and count. */
  lemma LeaseSucceedsIff(
    max: nat, p: Pool, held: map<int, int>, user: int, entry: int, gap: seq<Event>, evs: seq<Event>)
    requires max >= 1 && Sane(p) && CountsHolders(p, held) && user !in held && user !in p.looks && Pooled(p, entry)
    requires Without(gap, Count(user)) && Without(evs, Count(user)) && Without(evs, Close)
    requires var looked := Next(max, p, LookUp(user, entry, true));
      var before, holding := Run(max, looked, gap), HeldIn(max, looked, held, gap);
      && ProperAll(max, looked, held, gap)
      && ProperAll(max, Next(max, before, Count(user)), HeldAfter(before, holding, Count(user)), evs)
    ensures var looked := Next(max, p, LookUp(user, entry, true));
      var after := Next(max, Run(max, looked, gap), Count(user));
      Pooled(Run(max, after, evs), entry) <==> SparesAll(max, looked, gap, entry)
  {
    hide CountsHolders, ProperAll, Sane, SparesAll, Run, Pooled;
    var looked := Next(max, p, LookUp(user, entry, true));
    var before, holding := Run(max, looked, gap), HeldIn(max, looked, held, gap);
    var after := Next(max, before, Count(user));
    StepKeepsCounts(max, p, held, LookUp(user, entry, true));
    LeasesAreCounted(max, looked, held, gap);
    StepKeepsCounts(max, before, holding, Count(user));
    LookKept(max, looked, gap, user);
    RetainedIsPooledIff(max, p, user, entry, gap);
    if Pooled(after, entry) {
      LeaseStaysPooled(max, after, HeldAfter(before, holding, Count(user)), evs, user);
    } else {
      StillBelow(max, p, LookUp(user, entry, true), gap, Count(user), entry);
      PooledIffSpared(max, after, evs, entry);
    }
  }

  lemma StillBelow(max: nat, p: Pool, first: Event, gap: seq<Event>, last: Event, entry: int)
    requires max >= 1 && Sane(p) && Pooled(p, entry)
    ensures entry < Next(max, Run(max, Next(max, p, first), gap), last).made
  {
    hide Sane, Pooled;
    IsBelow(p, entry);
    StepPooledIff(max, p, first, entry);
    StepKeepsSane(max, p, first);
    PooledIffSpared(max, Next(max, p, first), gap, entry);
    StepPooledIff(max, Run(max, Next(max, p, first), gap), last, entry);
  }

  /** An entry once out never comes back: looking it up raises for ever, and, unless a `release` had looked it up
      before, its count never falls. */
  lemma {:induction false} GoneForGood(max: nat, p: Pool, evs: seq<Event>, entry: int)
    requires max >= 1 && Sane(p) && entry < p.made && !Pooled(p, entry)
    requires forall u | u in p.looks :: p.looks[u] != Look(entry, false)
    ensures var q := Run(max, p, evs);
      && !Pooled(q, entry) && CountOf(q, entry) >= CountOf(p, entry)
      && forall user, up :: Next(max, q, LookUp(user, entry, up)) == q
    decreases |evs|
  {
    hide Sane, Pooled, Asked, IndexOf;
    if evs != [] {
      StepKeepsSane(max, p, evs[0]);
      StepPooledIff(max, p, evs[0], entry);
      GoneForGood(max, Next(max, p, evs[0]), evs[1..], entry);
    }
  }

  lemma NewIsSane()
    ensures Sane(NEW) && CountsHolders(NEW, map[])
  {
    Alone();
    forall e ensures CountOf(NEW, e) == |Holders(map[], e)| {
      assert Holders(map[], e) == {};
    }
  }

  /** From the empty pool: in every schedule of leases without `close`, an engine that was pooled when a run counted it
      is pooled until that run counts it down. */
  lemma EveryLeaseHolds(max: nat, start: seq<Event>, user: int, evs: seq<Event>)
    requires max >= 1 && ProperAll(max, NEW, map[], start) && Without(evs, Close) && Without(evs, Count(user))
    requires var p, held := Run(max, NEW, start), HeldIn(max, NEW, map[], start);
      user in held && Pooled(p, held[user]) && ProperAll(max, p, held, evs)
    ensures var p, held := Run(max, NEW, start), HeldIn(max, NEW, map[], start);
      && Pooled(Run(max, p, evs), held[user])
      && (forall e :: CountOf(p, e) == |Holders(held, e)|)
  {
    hide ProperAll, Pooled, Sane;
    NewIsSane();
    LeasesAreCounted(max, NEW, map[], start);
    RunKeepsSane(max, NEW, start);
    LeaseStaysPooled(max, Run(max, NEW, start), HeldIn(max, NEW, map[], start), evs, user);
  }
}

/** Which entries a pool of limited size gives up. */
module Eviction {
  // Entries are any values: objects in the pool itself, numbers in its schedules.

  import opened Prelude
  import opened Texts
  import opened Json

  ghost function FirstIdle<V>(slots: seq<Keyed<V>>, live: set<V>): (r: Option<nat>)
    ensures r.Some? ==> r.value < |slots| && slots[r.value].value !in live
  {
    if slots == [] then None
    else if slots[0].value !in live then Some(0)
    else
      match FirstIdle(slots[1..], live)
      case None => None
      case Some(i) => Some(i + 1)
  }

  function Drop<T>(s: seq<T>, i: nat): seq<T>
    requires i < |s|
  {
    s[..i] + s[i + 1..]
  }

  /** `_evict_locked`: while there is no room, the first entry without a live run goes; if all are live, all stay. */
  ghost function Evicted<V>(slots: seq<Keyed<V>>, live: set<V>, max: nat): seq<Keyed<V>>
    decreases |slots|
  {
    if |slots| < max then slots
    else
      match FirstIdle(slots, live)
      case None => slots
      case Some(i) => Evicted(Drop(slots, i), live, max)
  }

  ghost function Idle<V>(slots: seq<Keyed<V>>, live: set<V>): seq<Keyed<V>> {
    if slots == [] then []
    else if slots[0].value in live then Idle(slots[1..], live)
    else [slots[0]] + Idle(slots[1..], live)
  }

  ghost function Live<V>(slots: seq<Keyed<V>>, live: set<V>): seq<Keyed<V>> {
    if slots == [] then []
    else if slots[0].value in live then [slots[0]] + Live(slots[1..], live)
    else Live(slots[1..], live)
  }

  lemma FirstStep<V>(s: Keyed<V>, rest: seq<Keyed<V>>, live: set<V>)
    ensures Idle([s] + rest, live) == (if s.value in live then Idle(rest, live) else [s] + Idle(rest, live))
    ensures Live([s] + rest, live) == (if s.value in live then [s] + Live(rest, live) else Live(rest, live))
    ensures FirstIdle([s] + rest, live) ==
      if s.value !in live then Some(0)
      else if FirstIdle(rest, live).None? then None
      else Some(FirstIdle(rest, live).value + 1)
  {
    assert ([s] + rest)[1..] == rest;
  }

  lemma Behead<T>(s: seq<T>, i: nat)
    requires 0 < i <= |s|
    ensures s == [s[0]] + s[1..] && s[..i] == [s[0]] + s[1..][..i - 1]
  {
  }

  lemma DropStep<T>(s: T, rest: seq<T>, i: nat)
    requires i <= |rest|
    ensures Drop([s] + rest, i) == if i == 0 then rest else [s] + Drop(rest, i - 1)
  {
  }

  lemma {:induction false} DropIdle<V>(slots: seq<Keyed<V>>, live: set<V>)
    ensures FirstIdle(slots, live).None? ==> Idle(slots, live) == [] && Live(slots, live) == slots
    ensures FirstIdle(slots, live).Some? ==>
      var i := FirstIdle(slots, live).value;
      var rest := Drop(slots, i);
      Idle(slots, live) == [slots[i]] + Idle(rest, live) && Live(rest, live) == Live(slots, live)
  {
    if slots != [] {
      hide Idle, Live, FirstIdle, Drop;
      DropIdle(slots[1..], live);
      DropIdleStep(slots[0], slots[1..], live);
      Behead(slots, |slots|);
    }
  }

  lemma DropIdleStep<V>(s: Keyed<V>, rest: seq<Keyed<V>>, live: set<V>)
    requires FirstIdle(rest, live).None? ==> Idle(rest, live) == [] && Live(rest, live) == rest
    requires FirstIdle(rest, live).Some? ==>
      var i := FirstIdle(rest, live).value;
      Idle(rest, live) == [rest[i]] + Idle(Drop(rest, i), live) && Live(Drop(rest, i), live) == Live(rest, live)
    ensures FirstIdle([s] + rest, live).None? ==> Idle([s] + rest, live) == [] && Live([s] + rest, live) == [s] + rest
    ensures FirstIdle([s] + rest, live).Some? ==>
      var i := FirstIdle([s] + rest, live).value;
      && Idle([s] + rest, live) == [([s] + rest)[i]] + Idle(Drop([s] + rest, i), live)
      && Live(Drop([s] + rest, i), live) == Live([s] + rest, live)
  {
    hide Idle, Live, FirstIdle, Drop;
    FirstStep(s, rest, live);
    if s.value !in live {
      DropStep(s, rest, 0);
    } else if FirstIdle(rest, live).Some? {
      var i := FirstIdle(rest, live).value;
      DropStep(s, rest, i + 1);
      FirstStep(s, Drop(rest, i), live);
    }
  }

  /** Eviction keeps every live entry, takes idle ones from the front, that is the least recently used, and stops as
      soon as there is room for one more or no idle entry is left. */
  lemma {:induction false} EvictsOldestIdle<V>(slots: seq<Keyed<V>>, live: set<V>, max: nat) returns (k: nat)
    ensures k <= |Idle(slots, live)|
    ensures var left := Evicted(slots, live, max);
      && Live(left, live) == Live(slots, live) && Idle(left, live) == Idle(slots, live)[k..]
      && (|left| < max || Idle(left, live) == [])
      && (if |slots| < max then k == 0 && left == slots else |left| + 1 >= max)
    decreases |slots|
  {
    k := 0;
    if |slots| >= max {
      DropIdle(slots, live);
      match FirstIdle(slots, live)
      case None =>
      case Some(i) =>
        var j := EvictsOldestIdle(Drop(slots, i), live, max);
        k := j + 1;
    }
  }

  /** Being a subsequence that keeps order, without naming positions. */
  lemma {:induction false} EvictedIsSub<V>(slots: seq<Keyed<V>>, live: set<V>, max: nat, s: Keyed<V>)
    ensures s in Evicted(slots, live, max) ==> s in slots
    ensures s in slots && s.value in live ==> s in Evicted(slots, live, max)
    decreases |slots|
  {
    if |slots| >= max {
      match FirstIdle(slots, live)
      case None =>
      case Some(i) =>
        EvictedIsSub(Drop(slots, i), live, max, s);
        DropMembers(slots, i, s);
    }
  }

  lemma DropMembers<V>(slots: seq<Keyed<V>>, i: nat, s: Keyed<V>)
    requires i < |slots|
    ensures s in Drop(slots, i) ==> s in slots
    ensures s in slots && s != slots[i] ==> s in Drop(slots, i)
  {
    var rest := Drop(slots, i);
    if s in slots && s != slots[i] {
      var j :| 0 <= j < |slots| && slots[j] == s;
      assert rest[if j < i then j else j - 1] == s;
    }
    if s in rest {
      var j :| 0 <= j < |rest| && rest[j] == s;
      assert slots[if j < i then j else j + 1] == s;
    }
  }

  function IndexOf<V>(ms: seq<Keyed<V>>, key: Text): (r: Option<nat>)
    ensures r.Some? ==> r.value < |ms| && ms[r.value].key == key
    ensures r.None? ==> forall i | 0 <= i < |ms| :: ms[i].key != key
  {
    if ms == [] then None
    else if ms[0].key == key then Some(0)
    else
      match IndexOf(ms[1..], key)
      case None =>
        assert forall i | 0 < i < |ms| :: ms[i] == ms[1..][i - 1];
        None
      case Some(i) => Some(i + 1)
  }

  ghost predicate NoRepeat<V>(slots: seq<Keyed<V>>) {
    forall i, j | 0 <= i < j < |slots| :: slots[i].value != slots[j].value
  }

  ghost predicate Holds<V>(slots: seq<Keyed<V>>, entry: V) {
    exists i :: 0 <= i < |slots| && slots[i].value == entry
  }

  lemma {:induction false} IdleMember<V>(slots: seq<Keyed<V>>, live: set<V>, s: Keyed<V>)
    ensures s in Idle(slots, live) ==> s in slots && s.value !in live
  {
    if slots != [] {
      IdleMember(slots[1..], live, s);
    }
  }

  lemma AddKeepsDistinct<V>(slots: seq<Keyed<V>>, s: Keyed<V>)
    requires DistinctKeys(slots) && NoRepeat(slots)
    requires forall i | 0 <= i < |slots| :: slots[i].value != s.value && slots[i].key != s.key
    ensures DistinctKeys(slots + [s]) && NoRepeat(slots + [s])
  {
  }

  lemma DropLeavesOthers<V>(slots: seq<Keyed<V>>, i: nat)
    requires DistinctKeys(slots) && NoRepeat(slots) && i < |slots|
    ensures forall j | 0 <= j < |Drop(slots, i)| ::
      Drop(slots, i)[j].value != slots[i].value && Drop(slots, i)[j].key != slots[i].key
  {
  }

  lemma DropAt<T>(s: seq<T>, i: nat, j: nat)
    requires i < |s| && j + 1 < |s|
    ensures Drop(s, i)[j] == s[if j < i then j else j + 1]
  {
  }

  lemma DropKeepsDistinct<V>(slots: seq<Keyed<V>>, i: nat)
    requires DistinctKeys(slots) && NoRepeat(slots) && i < |slots|
    ensures DistinctKeys(Drop(slots, i)) && NoRepeat(Drop(slots, i))
  {
  }

  lemma DropKeepsHeld<V>(slots: seq<Keyed<V>>, i: nat, entry: V)
    requires i < |slots| && NoRepeat(slots)
    ensures Holds(Drop(slots, i), entry) <==> Holds(slots, entry) && entry != slots[i].value
  {
    var rest := Drop(slots, i);
    if Holds(slots, entry) && entry != slots[i].value {
      var j :| 0 <= j < |slots| && slots[j].value == entry;
      assert rest[if j < i then j else j - 1].value == entry;
    }
    if Holds(rest, entry) {
      var j :| 0 <= j < |rest| && rest[j].value == entry;
      assert slots[if j < i then j else j + 1].value == entry;
    }
  }

  lemma {:induction false} FirstIdleAt<V>(slots: seq<Keyed<V>>, live: set<V>, i: nat)
    requires i <= |slots| && forall j | 0 <= j < i :: slots[j].value in live
    ensures i == |slots| ==> FirstIdle(slots, live) == None
    ensures i < |slots| && slots[i].value !in live ==> FirstIdle(slots, live) == Some(i)
  {
    if i > 0 {
      assert slots[0].value in live;
      FirstIdleAt(slots[1..], live, i - 1);
    }
  }

  // ---------- the fate of one entry ----------

  /** How many entries without a live run stand before `entry`. */
  ghost function Ahead<V>(slots: seq<Keyed<V>>, live: set<V>, entry: V): nat {
    if slots == [] || slots[0].value == entry then 0
    else (if slots[0].value in live then 0 else 1) + Ahead(slots[1..], live, entry)
  }

  lemma AheadStep<V>(s: Keyed<V>, rest: seq<Keyed<V>>, live: set<V>, entry: V)
    ensures Ahead([s] + rest, live, entry) ==
      if s.value == entry then 0 else (if s.value in live then 0 else 1) + Ahead(rest, live, entry)
    ensures Holds([s] + rest, entry) <==> s.value == entry || Holds(rest, entry)
  {
    assert ([s] + rest)[1..] == rest;
    if Holds(rest, entry) {
      var i :| 0 <= i < |rest| && rest[i].value == entry;
      assert ([s] + rest)[i + 1].value == entry;
    }
    if s.value == entry {
      assert ([s] + rest)[0].value == entry;
    }
  }

  /** Taking the first idle entry takes this one, or one that stood before it. */
  lemma {:induction false} FirstIdleIsAhead<V>(slots: seq<Keyed<V>>, live: set<V>, entry: V)
    requires Holds(slots, entry) && entry !in live
    ensures FirstIdle(slots, live).Some?
    ensures var i := FirstIdle(slots, live).value;
      if slots[i].value == entry then Ahead(slots, live, entry) == 0
      else Ahead(slots, live, entry) == Ahead(Drop(slots, i), live, entry) + 1
  {
    hide Ahead, Drop, FirstIdle, Holds;
    HeldIsSome(slots, entry);
    var s, rest := slots[0], slots[1..];
    assert slots == [s] + rest;
    AheadStep(s, rest, live, entry);
    FirstStep(s, rest, live);
    if s.value in live {
      FirstIdleIsAhead(rest, live, entry);
      var i := FirstIdle(rest, live).value;
      DropStep(s, rest, i + 1);
      AheadStep(s, Drop(rest, i), live, entry);
    } else {
      DropStep(s, rest, 0);
    }
  }

  lemma HeldIsSome<V>(slots: seq<Keyed<V>>, entry: V)
    requires Holds(slots, entry)
    ensures slots != []
  {
  }

  lemma {:induction false} EvictedHoldsOnly<V>(slots: seq<Keyed<V>>, live: set<V>, max: nat, entry: V)
    requires NoRepeat(slots)
    ensures NoRepeat(Evicted(slots, live, max)) && (Holds(Evicted(slots, live, max), entry) ==> Holds(slots, entry))
    decreases |slots|
  {
    hide Holds, NoRepeat, Drop;
    if |slots| >= max && FirstIdle(slots, live).Some? {
      var i := FirstIdle(slots, live).value;
      DropShrinks(slots, i);
      DropKeepsHeld(slots, i, entry);
      EvictedHoldsOnly(Drop(slots, i), live, max, entry);
    }
  }

  lemma DropShrinks<V>(slots: seq<Keyed<V>>, i: nat)
    requires i < |slots|
    ensures |Drop(slots, i)| == |slots| - 1 && (NoRepeat(slots) ==> NoRepeat(Drop(slots, i)))
  {
  }

  /** An entry survives one eviction exactly when there is room, or it has a live run, or as many idle entries stand
      before it as have to go. */
  lemma {:induction false} SurvivesIff<V>(slots: seq<Keyed<V>>, live: set<V>, max: nat, entry: V)
    requires NoRepeat(slots) && Holds(slots, entry) && max >= 1
    ensures Holds(Evicted(slots, live, max), entry) <==>
      |slots| < max || entry in live || Ahead(slots, live, entry) >= |slots| - max + 1
    decreases |slots|
  {
    hide Holds, NoRepeat, Drop, Ahead;
    if |slots| >= max {
      if entry !in live {
        FirstIdleIsAhead(slots, live, entry);
      }
      if FirstIdle(slots, live).Some? {
        var i := FirstIdle(slots, live).value;
        DropShrinks(slots, i);
        DropKeepsHeld(slots, i, entry);
        if slots[i].value == entry {
          EvictedHoldsOnly(Drop(slots, i), live, max, entry);
        } else {
          SurvivesIff(Drop(slots, i), live, max, entry);
        }
      }
    }
  }

  /** The same with positions: the idle entries before position `i` are counted. */
  lemma {:induction false} AheadIsIdleBefore<V>(slots: seq<Keyed<V>>, live: set<V>, i: nat)
    requires NoRepeat(slots) && i < |slots|
    ensures Ahead(slots, live, slots[i].value) == |Idle(slots[..i], live)|
  {
    if i > 0 {
      var s, rest := slots[0], slots[1..];
      RestIsDistinct(slots, i);
      Behead(slots, i);
      AheadIsIdleBefore(rest, live, i - 1);
      hide Ahead, Idle, NoRepeat, Holds;
      FirstStep(s, rest[..i - 1], live);
      AheadStep(s, rest, live, slots[i].value);
    }
  }

  lemma RestIsDistinct<V>(slots: seq<Keyed<V>>, i: nat)
    requires NoRepeat(slots) && 0 < i < |slots|
    ensures NoRepeat(slots[1..]) && slots[1..][i - 1] == slots[i] && slots[0].value != slots[i].value
  {
  }

  // ---------- a request ----------

  /** `engine_for` on the entries: a known key moves to the end; otherwise eviction makes room and `made` is added. */
  ghost function Asked<V>(slots: seq<Keyed<V>>, live: set<V>, max: nat, key: Text, made: V): seq<Keyed<V>> {
    match IndexOf(slots, key)
    case Some(i) => Drop(slots, i) + [slots[i]]
    case None => Evicted(slots, live, max) + [Keyed(key, made)]
  }

  lemma AddedHolds<V>(slots: seq<Keyed<V>>, s: Keyed<V>, entry: V)
    ensures Holds(slots + [s], entry) <==> Holds(slots, entry) || entry == s.value
    ensures NoRepeat(slots) && !Holds(slots, s.value) ==> NoRepeat(slots + [s])
  {
    var more := slots + [s];
    assert more[|slots|] == s;
    if Holds(slots, entry) {
      var i :| 0 <= i < |slots| && slots[i].value == entry;
      assert more[i].value == entry;
    }
  }

  /** A known key changes nobody's place in the pool. */
  lemma KnownKeepsAll<V>(slots: seq<Keyed<V>>, live: set<V>, max: nat, key: Text, made: V, entry: V)
    requires NoRepeat(slots) && IndexOf(slots, key).Some?
    ensures var asked := Asked(slots, live, max, key, made);
      NoRepeat(asked) && (Holds(asked, entry) <==> Holds(slots, entry))
  {
    hide Holds, NoRepeat, Drop, IndexOf;
    var i := IndexOf(slots, key).value;
    DropShrinks(slots, i);
    DropKeepsHeld(slots, i, entry);
    DropKeepsHeld(slots, i, slots[i].value);
    AddedHolds(Drop(slots, i), slots[i], entry);
    HoldsAt(slots, i);
  }

  lemma HoldsAt<V>(slots: seq<Keyed<V>>, i: nat)
    requires i < |slots|
    ensures Holds(slots, slots[i].value)
  {
  }

  /** Which requests an entry survives. */
  ghost predicate Spared<V>(slots: seq<Keyed<V>>, live: set<V>, max: nat, key: Text, entry: V) {
    IndexOf(slots, key).Some? || |slots| < max || entry in live || Ahead(slots, live, entry) >= |slots| - max + 1
  }

  lemma AskedKeepsIff<V>(slots: seq<Keyed<V>>, live: set<V>, max: nat, key: Text, made: V, entry: V)
    requires NoRepeat(slots) && max >= 1 && !Holds(slots, made) && entry != made
    ensures var asked := Asked(slots, live, max, key, made);
      && NoRepeat(asked)
      && (Holds(asked, entry) <==> Holds(slots, entry) && Spared(slots, live, max, key, entry))
      && (Holds(asked, made) <==> IndexOf(slots, key).None?)
  {
    hide Holds, NoRepeat, IndexOf, Evicted, Ahead;
    if IndexOf(slots, key).Some? {
      KnownKeepsAll(slots, live, max, key, made, entry);
      KnownKeepsAll(slots, live, max, key, made, made);
    } else {
      EvictedHoldsOnly(slots, live, max, entry);
      EvictedHoldsOnly(slots, live, max, made);
      AddedHolds(Evicted(slots, live, max), Keyed(key, made), entry);
      AddedHolds(Evicted(slots, live, max), Keyed(key, made), made);
      if Holds(slots, entry) {
        SurvivesIff(slots, live, max, entry);
      }
    }
  }
}

/** The pool of engines: least recently used first, live entries never evicted, an index by engine that stays the
    inverse of the entries, modules cached by content. */
module EnginePool {
  import opened Prelude
  import opened Texts
  import opened Json
  import opened Eviction

  /** The fields of a configuration that the fingerprint covers. */
  datatype ConfigKey = ConfigKey(maxMemoryMb: int, maxFuel: Option<int>, maxThreads: int, memory64: bool)

  /** SHA-256 over the encoded key and over module bytes; not assumed injective. */
  datatype Digests = Digests(ofKey: ConfigKey -> Text, ofBytes: Bytes -> Bytes)

  /** What `build_engine_config` sets from a configuration. */
  class Engine {
    const metered: bool
    const memory64: bool

    constructor (maxFuel: Option<int>, memory64: bool)
      ensures this.metered == maxFuel.Some? && this.memory64 == memory64
    {
      metered, this.memory64 := maxFuel.Some?, memory64;
    }
  }

  class Module {
    const engine: Engine
    const bytes: Bytes

    constructor (engine: Engine, bytes: Bytes)
      ensures this.engine == engine && this.bytes == bytes
    {
      this.engine, this.bytes := engine, bytes;
    }
  }

  /** One pooled engine; `key` records, for the proof only, which configuration it was built for. */
  class EngineEntry {
    const engine: Engine
    ghost const key: ConfigKey
    var modules: seq<Keyed<Module>>
    var refcount: nat

    constructor (engine: Engine, ghost key: ConfigKey)
      ensures this.engine == engine && this.key == key && modules == [] && refcount == 0
    {
      this.engine, this.key, modules, refcount := engine, key, [], 0;
    }
  }

  type Slot = Keyed<EngineEntry>

  // ---------- the pool ----------

  /** `_by_engine_id` is the inverse of `_entries`. */
  ghost predicate InverseOf(slots: seq<Slot>, byEngine: map<Engine, EngineEntry>) {
    && (forall i | 0 <= i < |slots| ::
          slots[i].value.engine in byEngine && byEngine[slots[i].value.engine] == slots[i].value)
    && (forall e | e in byEngine :: byEngine[e].engine == e && Holds(slots, byEngine[e]))
  }

  /** The order of the entries is the order of last use. */
  ghost predicate Ordered(slots: seq<Slot>, lastUse: map<EngineEntry, nat>, clock: nat) {
    && (forall i | 0 <= i < |slots| :: slots[i].value in lastUse && lastUse[slots[i].value] < clock)
    && (forall i, j | 0 <= i < j < |slots| :: lastUse[slots[i].value] < lastUse[slots[j].value])
  }

  lemma {:induction false} IdleIsOrdered(
    slots: seq<Slot>, live: set<EngineEntry>, lastUse: map<EngineEntry, nat>, clock: nat)
    requires Ordered(slots, lastUse, clock)
    ensures Ordered(Idle(slots, live), lastUse, clock)
  {
    if slots != [] {
      IdleIsOrdered(slots[1..], live, lastUse, clock);
      var rest := Idle(slots[1..], live);
      forall j | 0 <= j < |rest| ensures lastUse[slots[0].value] < lastUse[rest[j].value] {
        IdleMember(slots[1..], live, rest[j]);
        var i :| 0 <= i < |slots[1..]| && slots[1..][i] == rest[j];
        assert rest[j] == slots[i + 1];
      }
    }
  }

  /** Every entry that eviction takes was used longer ago than every idle entry it leaves, no live entry goes, and
      afterwards there is room for one more or everything left is live. */
  lemma EvictsLeastRecentlyUsed(
    slots: seq<Slot>, live: set<EngineEntry>, max: nat, lastUse: map<EngineEntry, nat>, clock: nat) returns (k: nat)
    requires Ordered(slots, lastUse, clock)
    ensures var idle, left := Idle(slots, live), Evicted(slots, live, max);
      && k <= |idle| && Idle(left, live) == idle[k..] && Live(left, live) == Live(slots, live)
      && (forall i | 0 <= i < |idle| :: idle[i].value in lastUse)
      && (forall i, j | 0 <= i < k <= j < |idle| :: lastUse[idle[i].value] < lastUse[idle[j].value])
      && (|left| + 1 <= max || Idle(left, live) == [])
  {
    k := EvictsOldestIdle(slots, live, max);
    IdleIsOrdered(slots, live, lastUse, clock);
  }

  lemma DropKeepsOrdered(slots: seq<Slot>, lastUse: map<EngineEntry, nat>, clock: nat, i: nat)
    requires Ordered(slots, lastUse, clock) && i < |slots|
    ensures Ordered(Drop(slots, i), lastUse, clock)
  {
  }

  lemma AddKeepsOrdered(slots: seq<Slot>, lastUse: map<EngineEntry, nat>, clock: nat, s: Slot)
    requires Ordered(slots, lastUse, clock) && forall i | 0 <= i < |slots| :: slots[i].value != s.value
    ensures Ordered(slots + [s], lastUse[s.value := clock], clock + 1)
  {
  }

  lemma DropKeepsInverse(slots: seq<Slot>, byEngine: map<Engine, EngineEntry>, i: nat)
    requires InverseOf(slots, byEngine) && NoRepeat(slots) && i < |slots|
    ensures InverseOf(Drop(slots, i), byEngine - {slots[i].value.engine})
  {
    var rest, gone := Drop(slots, i), slots[i].value.engine;
    forall j | 0 <= j < |rest|
      ensures rest[j].value.engine != gone && rest[j].value.engine in byEngine
      ensures byEngine[rest[j].value.engine] == rest[j].value
    {
      DropAt(slots, i, j);
    }
    forall e | e in byEngine && e != gone ensures Holds(rest, byEngine[e]) {
      DropKeepsHeld(slots, i, byEngine[e]);
    }
  }

  lemma Indexed(slots: seq<Slot>, byEngine: map<Engine, EngineEntry>, i: nat)
    requires InverseOf(slots, byEngine) && i < |slots|
    ensures slots[i].value.engine in byEngine && byEngine[slots[i].value.engine] == slots[i].value
  {
  }

  lemma MoveIndex(byEngine: map<Engine, EngineEntry>, entry: EngineEntry)
    ensures entry.engine in byEngine && byEngine[entry.engine] == entry ==>
      (byEngine - {entry.engine})[entry.engine := entry] == byEngine
  {
  }

  lemma AddKeepsInverse(slots: seq<Slot>, byEngine: map<Engine, EngineEntry>, s: Slot)
    requires InverseOf(slots, byEngine) && s.value.engine !in byEngine
    ensures InverseOf(slots + [s], byEngine[s.value.engine := s.value])
  {
    var more := slots + [s];
    forall e | e in byEngine ensures Holds(more, byEngine[e]) {
      var j :| 0 <= j < |slots| && slots[j].value == byEngine[e];
      assert more[j].value == byEngine[e];
    }
    assert more[|slots|].value == s.value;
  }

  lemma MoveKeepsInverse(slots: seq<Slot>, byEngine: map<Engine, EngineEntry>, i: nat)
    requires InverseOf(slots, byEngine) && NoRepeat(slots) && i < |slots|
    ensures InverseOf(Drop(slots, i) + [slots[i]], byEngine)
  {
    var e := slots[i].value.engine;
    DropKeepsInverse(slots, byEngine, i);
    AddKeepsInverse(Drop(slots, i), byEngine - {e}, slots[i]);
    assert (byEngine - {e})[e := slots[i].value] == byEngine;
  }

  datatype PoolError = NotManaged

  class EnginePool {
    const digests: Digests
    const maxEngines: nat
    const maxModules: nat
    var entries: seq<Slot>
    var byEngine: map<Engine, EngineEntry>
    ghost var lastUse: map<EngineEntry, nat>
    ghost var clock: nat

    constructor (digests: Digests, maxEngines: nat, maxModules: nat)
      requires maxEngines >= 1
      ensures Valid() && entries == [] && this.maxEngines == maxEngines && this.maxModules == maxModules
      ensures this.digests == digests
    {
      this.digests, this.maxEngines, this.maxModules := digests, maxEngines, maxModules;
      entries, byEngine, lastUse, clock := [], map[], map[], 0;
    }

    ghost function Pooled(): set<EngineEntry>
      reads this
    {
      set i | 0 <= i < |entries| :: entries[i].value
    }

    /** An entry stands under the fingerprint of a configuration its engine was built for, and caches modules of that
        engine under the digest of their bytes. */
    ghost predicate SlotOk(s: Slot)
      reads s.value
    {
      && s.key == digests.ofKey(s.value.key)
      && s.value.engine.metered == s.value.key.maxFuel.Some? && s.value.engine.memory64 == s.value.key.memory64
      && ModulesOk(s.value.modules, s.value.engine)
    }

    ghost predicate ModulesOk(modules: seq<Keyed<Module>>, engine: Engine)
    {
      && |modules| <= maxModules
      && forall m | m in modules :: m.value.engine == engine && m.key == digests.ofBytes(m.value.bytes)
    }

    ghost predicate Valid()
      reads this, Pooled()
    {
      && maxEngines >= 1
      && DistinctKeys(entries) && NoRepeat(entries)
      && (forall i | 0 <= i < |entries| :: SlotOk(entries[i]))
      && InverseOf(entries, byEngine) && Ordered(entries, lastUse, clock)
    }

    /** The entries with a live run. */
    ghost function LiveEntries(): set<EngineEntry>
      reads this, Pooled()
    {
      set e | e in Pooled() && e.refcount > 0
    }

    /** Reference counts play no part in `Valid`. */
    twostate lemma CountsDoNotMatter()
      requires old(Valid()) && unchanged(this)
      requires forall e | e in Pooled() :: e.modules == old(e.modules)
      ensures Valid()
    {
      forall i | 0 <= i < |entries| ensures SlotOk(entries[i]) {
        assert old(SlotOk(entries[i])) && entries[i].value in Pooled();
      }
    }

    /** Changing the cache of one entry keeps `Valid` when the new cache is sound. */
    twostate lemma ModulesDoNotMatter(entry: EngineEntry)
      requires old(Valid()) && unchanged(this) && entry in Pooled() && ModulesOk(entry.modules, entry.engine)
      requires forall e | e in Pooled() && e != entry :: e.modules == old(e.modules)
      ensures Valid()
    {
      forall i | 0 <= i < |entries| ensures SlotOk(entries[i]) {
        assert old(SlotOk(entries[i])) && entries[i].value in Pooled();
      }
    }

    /** `_entry_for`. */
    method EntryFor(engine: Engine) returns (r: Result<EngineEntry, PoolError>)
      requires Valid()
      ensures r.Ok? <==> engine in byEngine
      ensures r.Ok? ==> r.value == byEngine[engine] && r.value in Pooled() && r.value.engine == engine
    {
      if engine !in byEngine {
        return Err(NotManaged);
      }
      assert Holds(entries, byEngine[engine]);
      return Ok(byEngine[engine]);
    }

    /** The second half of `retain`: counting an entry looked up before, whether or not it is still pooled. */
    method CountUp(entry: EngineEntry)
      requires Valid()
      modifies entry`refcount
      ensures Valid() && entry.refcount == old(entry.refcount) + 1
    {
      entry.refcount := entry.refcount + 1;
      CountsDoNotMatter();
    }

    /** `retain` when nothing comes between its two halves: a retained engine is pooled. */
    method Retain(engine: Engine) returns (r: Result<(), PoolError>)
      requires Valid()
      modifies Pooled()
      ensures Valid() && (r.Ok? <==> engine in byEngine)
      ensures r.Ok? ==> byEngine[engine].refcount == old(byEngine[engine].refcount) + 1
      ensures forall e | e in Pooled() && (r.Err? || e != byEngine[engine]) :: e.refcount == old(e.refcount)
    {
      var entry :- EntryFor(engine);
      CountUp(entry);
      return Ok(());
    }

    /** The second half of `release`, in the same way. */
    method CountDown(entry: EngineEntry)
      requires Valid()
      modifies entry`refcount
      ensures Valid() && entry.refcount == if old(entry.refcount) > 0 then old(entry.refcount) - 1 else 0
    {
      entry.refcount := if entry.refcount > 0 then entry.refcount - 1 else 0;
      CountsDoNotMatter();
    }

    /** `release` when nothing comes between its two halves. */
    method Release(engine: Engine) returns (r: Result<(), PoolError>)
      requires Valid()
      modifies Pooled()
      ensures Valid() && (r.Ok? <==> engine in byEngine)
      ensures r.Ok? ==>
        var before := old(byEngine[engine].refcount);
        byEngine[engine].refcount == if before > 0 then before - 1 else 0
      ensures forall e | e in Pooled() && (r.Err? || e != byEngine[engine]) :: e.refcount == old(e.refcount)
    {
      var entry :- EntryFor(engine);
      CountDown(entry);
      return Ok(());
    }

    /** The search of `_evict_locked`: the first entry without a live run. */
    method FindIdle(ghost live: set<EngineEntry>) returns (i: nat)
      requires forall j | 0 <= j < |entries| :: entries[j].value in live <==> entries[j].value.refcount > 0
      ensures i <= |entries|
      ensures FirstIdle(entries, live) == if i < |entries| then Some(i) else None
    {
      i := 0;
      while i < |entries| && entries[i].value.refcount != 0
        invariant i <= |entries|
        invariant forall j | 0 <= j < i :: entries[j].value in live
      {
        i := i + 1;
      }
      FirstIdleAt(entries, live, i);
    }

    /** `_evict_locked`. */
    method EvictLocked()
      requires Valid()
      modifies this
      ensures Valid() && clock == old(clock)
      ensures Pooled() <= old(Pooled()) && forall s | s in entries :: s in old(entries)
      ensures entries == Evicted(old(entries), old(LiveEntries()), maxEngines) && lastUse == old(lastUse)
    {
      hide FirstIdle, InverseOf, Drop;
      ghost var live := LiveEntries();
      while |entries| >= maxEngines
        invariant Valid() && clock == old(clock)
        invariant Pooled() <= old(Pooled()) && forall s | s in entries :: s in old(entries)
        invariant Evicted(entries, live, maxEngines) == Evicted(old(entries), live, maxEngines)
        invariant lastUse == old(lastUse)
        decreases |entries|
      {
        forall j | 0 <= j < |entries| ensures entries[j].value in live <==> entries[j].value.refcount > 0 {
          assert entries[j].value in Pooled();
        }
        var i := FindIdle(live);
        if i == |entries| {
          return;
        }
        RemoveAt(i);
      }
    }

    /** Takes one entry out of both indexes. */
    method RemoveAt(i: nat)
      requires Valid() && i < |entries|
      modifies this
      ensures Valid() && clock == old(clock) && entries == Drop(old(entries), i) && |entries| + 1 == |old(entries)|
      ensures Pooled() <= old(Pooled()) && forall s | s in entries :: s in old(entries)
      ensures byEngine == old(byEngine) - {old(entries)[i].value.engine} && lastUse == old(lastUse)
    {
      ghost var before := entries;
      var gone := entries[i].value.engine;
      DropKeepsDistinct(entries, i);
      DropKeepsOrdered(entries, lastUse, clock, i);
      DropKeepsInverse(entries, byEngine, i);
      entries := entries[..i] + entries[i + 1..];
      byEngine := byEngine - {gone};
      assert entries == Drop(before, i);
      forall j | 0 <= j < |entries| ensures entries[j] == before[if j < i then j else j + 1] {
        DropAt(before, i, j);
      }
      forall j | 0 <= j < |entries| ensures SlotOk(entries[j]) {
        assert old(SlotOk(before[if j < i then j else j + 1]));
      }
    }

    /** Puts an entry used just now at the end. */
    method AddLast(fingerprint: Text, entry: EngineEntry)
      requires Valid() && forall i | 0 <= i < |entries| :: entries[i].key != fingerprint && entries[i].value != entry
      requires entry.engine !in byEngine && SlotOk(Keyed(fingerprint, entry))
      modifies this
      ensures Valid() && entries == old(entries) + [Keyed(fingerprint, entry)]
      ensures byEngine == old(byEngine)[entry.engine := entry]
      ensures lastUse == old(lastUse)[entry := old(clock)] && clock == old(clock) + 1
    {
      ghost var before := entries;
      var slot := Keyed(fingerprint, entry);
      AddKeepsDistinct(entries, slot);
      AddKeepsOrdered(entries, lastUse, clock, slot);
      AddKeepsInverse(entries, byEngine, slot);
      byEngine := byEngine[entry.engine := entry];
      entries := entries + [slot];
      lastUse, clock := lastUse[entry := clock], clock + 1;
      forall j | 0 <= j < |entries| ensures SlotOk(entries[j]) {
        assert old(SlotOk(slot));
        if j < |before| {
          assert entries[j] == before[j] && old(SlotOk(before[j]));
        }
      }
    }

    ghost predicate Collides(key: ConfigKey) {
      exists other :: other != key && digests.ofKey(other) == digests.ofKey(key)
    }

    lemma BuiltFor(s: Slot, key: ConfigKey)
      requires SlotOk(s) && s.key == digests.ofKey(key)
      ensures (s.value.engine.metered == key.maxFuel.Some? && s.value.engine.memory64 == key.memory64) || Collides(key)
    {
      if s.value.key != key {
        assert digests.ofKey(s.value.key) == digests.ofKey(key);
      }
    }

    /** `engine_for`: a known fingerprint moves to the end; an unknown one gets a new engine after eviction. Reference
        counts and cached modules stay as they are. */
    method EngineFor(key: ConfigKey) returns (engine: Engine)
      requires Valid()
      modifies this
      ensures Valid() && engine in byEngine
      ensures entries == Asked(old(entries), old(LiveEntries()), maxEngines, digests.ofKey(key), byEngine[engine])
      ensures lastUse == old(lastUse)[byEngine[engine] := old(clock)] && clock == old(clock) + 1
      ensures (engine.metered == key.maxFuel.Some? && engine.memory64 == key.memory64) || Collides(key)
      ensures match IndexOf(old(entries), digests.ofKey(key)) {
                case Some(i) =>
                  && engine == old(entries)[i].value.engine && byEngine == old(byEngine)
                  && entries == Drop(old(entries), i) + [old(entries)[i]]
                case None =>
                  && entries != [] && fresh(entries[|entries| - 1].value)
                  && entries[|entries| - 1].value.engine == engine
                  && fresh(engine)
                  && entries[|entries| - 1].key == digests.ofKey(key) && entries[|entries| - 1].value.refcount == 0
                  && entries[..|entries| - 1] == Evicted(old(entries), old(LiveEntries()), maxEngines)
              }
    {
      hide IndexOf, FirstIdle, InverseOf, Evicted, Drop, Ordered;
      var fingerprint := digests.ofKey(key);
      var known := IndexOf(entries, fingerprint);
      if known.Some? {
        var slot := entries[known.value];
        BuiltFor(slot, key);
        Indexed(entries, byEngine, known.value);
        engine := slot.value.engine;
        MoveLast(known.value);
      } else {
        ghost var before := entries;
        engine := new Engine(key.maxFuel, key.memory64);
        var entry := new EngineEntry(engine, key);
        EvictLocked();
        NotPooledYet(before, fingerprint, engine, entry);
        AddLast(fingerprint, entry);
      }
    }

    /** Nothing left after eviction has the new fingerprint, the new entry or the new engine. */
    lemma NotPooledYet(before: seq<Slot>, fingerprint: Text, engine: Engine, entry: EngineEntry)
      requires forall i | 0 <= i < |before| ::
        before[i].key != fingerprint && before[i].value != entry && before[i].value.engine != engine
      requires Valid() && forall s | s in entries :: s in before
      ensures forall i | 0 <= i < |entries| :: entries[i].key != fingerprint && entries[i].value != entry
      ensures engine !in byEngine
    {
      forall i | 0 <= i < |entries|
        ensures entries[i].key != fingerprint && entries[i].value != entry && entries[i].value.engine != engine
      {
        assert entries[i] in before;
      }
      assert engine in byEngine ==> Holds(entries, byEngine[engine]);
    }

    /** `move_to_end` after a hit. */
    method MoveLast(i: nat)
      requires Valid() && i < |entries|
      modifies this
      ensures Valid() && entries == Drop(old(entries), i) + [old(entries)[i]] && byEngine == old(byEngine)
      ensures lastUse == old(lastUse)[old(entries)[i].value := old(clock)] && clock == old(clock) + 1
    {
      hide InverseOf, Ordered, SlotOk, Drop;
      var slot := entries[i];
      MoveIndex(byEngine, slot.value);
      Indexed(entries, byEngine, i);
      assert SlotOk(slot);
      DropLeavesOthers(entries, i);
      MoveKeepsInverse(entries, byEngine, i);
      RemoveAt(i);
      AddLast(slot.key, slot.value);
    }

    /** `close`. */
    method Close()
      requires Valid()
      modifies this
      ensures Valid() && entries == [] && byEngine == map[]
    {
      entries, byEngine := [], map[];
    }

    /** The entry of a pooled engine stands somewhere in the pool, with its invariant. */
    lemma EntryIsOk(entry: EngineEntry)
      requires Valid() && entry in Pooled()
      ensures ModulesOk(entry.modules, entry.engine)
    {
      var i :| 0 <= i < |entries| && entries[i].value == entry;
      assert SlotOk(entries[i]);
    }

    ghost predicate BytesCollide(bytes: Bytes) {
      exists other :: other != bytes && digests.ofBytes(other) == digests.ofBytes(bytes)
    }

    /** `cached_module_data`: a hit moves to the end, a miss compiles and drops the oldest; the module was compiled on
        this engine from exactly these bytes, or the digest collides. */
    method CachedModuleData(engine: Engine, bytes: Bytes) returns (r: Result<Module, PoolError>)
      requires Valid()
      modifies Pooled()
      ensures Valid() && (r.Ok? <==> engine in byEngine)
      ensures r.Ok? ==> r.value.engine == engine && (r.value.bytes == bytes || BytesCollide(bytes))
      ensures r.Ok? ==> match IndexOf(old(byEngine[engine].modules), digests.ofBytes(bytes)) {
          case Some(i) =>
            var cached := old(byEngine[engine].modules);
            r.value == cached[i].value && byEngine[engine].modules == Drop(cached, i) + [cached[i]]
          case None =>
            fresh(r.value) && byEngine[engine].modules ==
              Newest(old(byEngine[engine].modules) + [Keyed(digests.ofBytes(bytes), r.value)], maxModules)
        }
      ensures forall e | e in Pooled() :: e.refcount == old(e.refcount)
      ensures forall e | e in Pooled() && (r.Err? || e != byEngine[engine]) :: e.modules == old(e.modules)
    {
      hide IndexOf, Drop, Newest, ModulesOk, SlotOk, InverseOf;
      var entry :- EntryFor(engine);
      EntryIsOk(entry);
      var key := digests.ofBytes(bytes);
      var known := IndexOf(entry.modules, key);
      var module_: Module;
      if known.Some? {
        var hit := entry.modules[known.value];
        HitIsOk(entry.modules, engine, known.value, bytes);
        module_ := hit.value;
        entry.modules := Drop(entry.modules, known.value) + [hit];
      } else {
        module_ := new Module(engine, bytes);
        MissIsOk(entry.modules, engine, module_);
        var kept := Recent(entry.modules + [Keyed(key, module_)]);
        entry.modules := kept;
      }
      ModulesDoNotMatter(entry);
      return Ok(module_);
    }

    /** Oldest first out, until the cache is small enough. */
    method Recent(all: seq<Keyed<Module>>) returns (modules: seq<Keyed<Module>>)
      ensures modules == Newest(all, maxModules)
    {
      modules := all;
      ghost var dropped := 0;
      while |modules| > maxModules
        invariant dropped <= |all| && modules == all[dropped..]
        invariant dropped > 0 ==> |modules| >= maxModules
      {
        modules := modules[1..];
        dropped := dropped + 1;
      }
    }

    lemma HitIsOk(modules: seq<Keyed<Module>>, engine: Engine, i: nat, bytes: Bytes)
      requires ModulesOk(modules, engine) && i < |modules| && modules[i].key == digests.ofBytes(bytes)
      ensures ModulesOk(Drop(modules, i) + [modules[i]], engine)
      ensures modules[i].value.engine == engine && (modules[i].value.bytes == bytes || BytesCollide(bytes))
    {
      MovedMembers(modules, i);
      assert modules[i] in modules;
    }

    lemma MissIsOk(modules: seq<Keyed<Module>>, engine: Engine, added: Module)
      requires ModulesOk(modules, engine) && added.engine == engine
      ensures ModulesOk(Newest(modules + [Keyed(digests.ofBytes(added.bytes), added)], maxModules), engine)
    {
    }
  }

  /** When an eviction comes between the two halves, a retained engine is not pooled: with room for one engine, look
      the first up, ask for a second, then count. */
  method RetainedButEvicted(digests: Digests, first: ConfigKey, second: ConfigKey)
    returns (pool: EnginePool, engine: Engine, entry: EngineEntry)
    requires digests.ofKey(first) != digests.ofKey(second)
    ensures pool.Valid() && entry.engine == engine && entry.refcount == 1
    ensures engine !in pool.byEngine && entry !in pool.Pooled()
  {
    hide InverseOf;
    pool := new EnginePool(digests, 1, 1);
    NothingToEvict(pool.LiveEntries());
    engine := pool.EngineFor(first);
    ghost var slot := pool.entries[0];
    assert pool.entries == [slot];
    Indexed(pool.entries, pool.byEngine, 0);
    var looked := pool.EntryFor(engine);
    entry := looked.value;
    OneIdleGoes(slot, pool.LiveEntries());
    OnlyKey(slot, digests.ofKey(second));
    var other := pool.EngineFor(second);
    ghost var left := pool.entries[0];
    assert pool.entries == [left];
    OnlyIndexed(left, pool.byEngine, engine);
    pool.CountUp(entry);
  }

  lemma NothingToEvict(live: set<EngineEntry>)
    ensures Evicted([], live, 1) == [] && IndexOf<EngineEntry>([], []).None?
    ensures forall key :: IndexOf<EngineEntry>([], key).None?
  {
  }

  lemma OneIdleGoes(s: Slot, live: set<EngineEntry>)
    ensures s.value !in live ==> Evicted([s], live, 1) == []
  {
    assert Drop([s], 0) == [];
  }

  lemma OnlyKey(s: Slot, key: Text)
    ensures IndexOf([s], key).Some? ==> s.key == key
  {
  }

  lemma OnlyIndexed(s: Slot, byEngine: map<Engine, EngineEntry>, engine: Engine)
    requires InverseOf([s], byEngine)
    ensures engine in byEngine ==> s.value.engine == engine
  {
  }

  /** The last `max` of a list; all of it when it is shorter. */
  function Newest<T>(s: seq<T>, max: nat): (r: seq<T>)
    ensures |r| <= max && |r| <= |s| && (|r| < max ==> |r| == |s|)
    ensures forall i | 0 <= i < |r| :: r[i] == s[|s| - |r| + i]
  {
    if |s| > max then s[|s| - max..] else s
  }

  lemma MovedMembers<T>(s: seq<T>, i: nat)
    requires i < |s|
    ensures forall m :: m in Drop(s, i) + [s[i]] ==> m in s
  {
  }
}

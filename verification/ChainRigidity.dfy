/** The last entry of an accepted chain fixes all of it. */
module ChainRigidity {
  // Unless a collision of the hash is found; each entry names its place and the digest of the one before.

  import opened Prelude
  import opened Texts
  import opened Decimals
  import opened Json
  import opened Jcs
  import opened JcsRoundTrip
  import opened HashChain

  // ---------- what acceptance says of each entry ----------

  function Seals(env: Env, entries: seq<Json>, i: nat, expected: Text): Text
    requires i <= |entries| && forall j | 0 <= j < i :: entries[j].Obj? && CanonicalBytes(Payload(entries[j])).Ok?
  {
    if i == 0 then expected else env.sha(CanonicalBytes(Payload(entries[i - 1])).value)
  }

  ghost predicate Digestible(entries: seq<Json>) {
    forall j | 0 <= j < |entries| :: entries[j].Obj? && CanonicalBytes(Payload(entries[j])).Ok?
  }

  /** A longer chain is accepted when the shorter one is and the new entry continues it. */
  lemma {:induction false} BreakAtEnd(
    env: Env, check: Option<Checker>, entries: seq<Json>, entry: Json, position: nat, expected: Text)
    ensures BreakFrom(env, check, entries + [entry], position, expected) == Ok(None) <==>
      && BreakFrom(env, check, entries, position, expected) == Ok(None)
      && Digestible(entries) && entry.Obj? && CanonicalBytes(Payload(entry)).Ok?
      && EntryBreak(check, entry, position + |entries|, Seals(env, entries, |entries|, expected)) == None
    decreases |entries|
  {
    hide CanonicalBytes, EntryBreak;
    var all := entries + [entry];
    if entries == [] {
      assert all == [entry] && [entry][1..] == [];
      BreakStep(env, check, [entry], position, expected);
      BreakStep(env, check, [], position, expected);
      if EntryBreak(check, entry, position, expected) == None {
        BreakNeedsObject(check, entry, position, expected);
      }
    } else {
      assert all[0] == entries[0] && all[1..] == entries[1..] + [entry];
      BreakStep(env, check, all, position, expected);
      BreakStep(env, check, entries, position, expected);
      if EntryBreak(check, entries[0], position, expected) == None {
        BreakNeedsObject(check, entries[0], position, expected);
        if CanonicalBytes(Payload(entries[0])).Ok? {
          var digest := EntryDigest(env, entries[0]).value;
          BreakAtEnd(env, check, entries[1..], entry, position + 1, digest);
          DigestibleTail(env, entries, expected);
        }
      }
    }
  }

  lemma BreakNeedsObject(check: Option<Checker>, entry: Json, position: nat, expected: Text)
    requires EntryBreak(check, entry, position, expected) == None
    ensures entry.Obj?
  {
  }

  lemma BreakStep(env: Env, check: Option<Checker>, entries: seq<Json>, position: nat, expected: Text)
    ensures BreakFrom(env, check, entries, position, expected) == Ok(None) <==>
      entries == [] ||
      (&& EntryBreak(check, entries[0], position, expected) == None && entries[0].Obj?
       && CanonicalBytes(Payload(entries[0])).Ok?
       && BreakFrom(env, check, entries[1..], position + 1,
             env.sha(CanonicalBytes(Payload(entries[0])).value)) == Ok(None))
  {
    hide CanonicalBytes;
  }

  lemma DigestibleTail(env: Env, entries: seq<Json>, expected: Text)
    requires entries != [] && entries[0].Obj? && CanonicalBytes(Payload(entries[0])).Ok?
    ensures Digestible(entries) <==> Digestible(entries[1..])
    ensures Digestible(entries) ==>
      Seals(env, entries, |entries|, expected) ==
      Seals(env, entries[1..], |entries| - 1, env.sha(CanonicalBytes(Payload(entries[0])).value))
  {
    hide CanonicalBytes;
    assert forall j | 0 < j < |entries| :: entries[j] == entries[1..][j - 1];
    if Digestible(entries[1..]) {
      forall j | 0 <= j < |entries| ensures entries[j].Obj? && CanonicalBytes(Payload(entries[j])).Ok? {
        if j > 0 {
          assert entries[j] == entries[1..][j - 1];
        }
      }
    }
  }

  /** Each entry names its position and the digest of the one before it. */
  lemma {:induction false} AcceptedAt(
    env: Env, check: Option<Checker>, entries: seq<Json>, position: nat, expected: Text, i: nat)
    requires BreakFrom(env, check, entries, position, expected) == Ok(None) && i < |entries|
    ensures Digestible(entries)
    ensures EntryBreak(check, entries[i], position + i, Seals(env, entries, i, expected)) == None
    decreases |entries|
  {
    hide CanonicalBytes, EntryBreak, BreakFrom, Payload;
    var front, last := entries[..|entries| - 1], entries[|entries| - 1];
    assert entries == front + [last];
    BreakAtEnd(env, check, front, last, position, expected);
    if i < |front| {
      AcceptedAt(env, check, front, position, expected, i);
    }
  }

  /** A number, or a truth value, that Python finds equal to this position. */
  predicate IsPosition(v: Json, n: int) {
    || v == Int(n)
    || (v == Bool(false) && n == 0) || (v == Bool(true) && n == 1)
    || (v == MinusZero && n == 0)
    || (v.Num? && SameNumber(v.d, Decimal(n, 0)))
  }

  /** The hexadecimal text of bytes, in either case, white space between them. */
  predicate SpellsBytes(t: Text, b: Bytes)
    decreases |t|
  {
    if t != [] && (t[0] == 0x20 || 0x09 <= t[0] <= 0x0D) then SpellsBytes(t[1..], b)
    else if b == [] then t == []
    else
      && |t| >= 2 && HexValue(t[0]).Some? && HexValue(t[1]).Some?
      && b[0] == 16 * HexValue(t[0]).value + HexValue(t[1]).value && SpellsBytes(t[2..], b[1..])
  }

  lemma {:induction false} FromHexIff(t: Text, b: Bytes)
    ensures FromHex(t) == Some(b) <==> SpellsBytes(t, b)
    decreases |t|
  {
    if t == [] {
    } else if t[0] == 0x20 || 0x09 <= t[0] <= 0x0D {
      FromHexIff(t[1..], b);
    } else if |t| >= 2 && HexValue(t[0]).Some? && HexValue(t[1]).Some? {
      var v := 16 * HexValue(t[0]).value + HexValue(t[1]).value;
      if b != [] {
        FromHexIff(t[2..], b[1..]);
        assert [b[0]] + b[1..] == b;
      }
      if FromHex(t) == Some(b) {
        assert b[0] == v && b[1..] == FromHex(t[2..]).value;
      }
    }
  }

  /** What a signature under a pinned algorithm must be. */
  ghost predicate Attested(check: Checker, entry: Json)
    requires entry.Obj?
  {
    && (check.expectedAlg.Some? ==> Get(entry.members, Of("alg")) == Some(Str(check.expectedAlg.value)))
    && CanonicalBytes(Payload(entry)).Ok?
    && exists t, raw :: Get(entry.members, Of("signature")) == Some(Str(t)) && SpellsBytes(t, raw) &&
         check.verify(CanonicalBytes(Payload(entry)).value, raw)
  }

  /** What an entry must hold to stand at `position` after an entry of digest `expected`. */
  ghost predicate Continues(check: Option<Checker>, entry: Json, position: nat, expected: Text) {
    && entry.Obj?
    && Get(entry.members, Of("ledger_version")) == Some(Str(Of("v1")))
    && Get(entry.members, Of("sequence")).Some?
    && IsPosition(Get(entry.members, Of("sequence")).value, position)
    && Get(entry.members, Of("prev_hash")) == Some(Str(expected))
    && (check.Some? ==> Attested(check.value, entry))
  }

  lemma SignatureIsAttested(check: Checker, entry: Json)
    requires entry.Obj?
    ensures SignatureOk(entry, check) <==> Attested(check, entry)
  {
    hide CanonicalBytes, Get, Of, FromHex, SpellsBytes;
    var v := Get(entry.members, SIGNATURE);
    if SignatureOk(entry, check) {
      FromHexIff(v.value.s, FromHex(v.value.s).value);
    }
    if Attested(check, entry) {
      var t, raw :| Get(entry.members, Of("signature")) == Some(Str(t)) && SpellsBytes(t, raw) &&
        check.verify(CanonicalBytes(Payload(entry)).value, raw);
      FromHexIff(t, raw);
    }
  }

  lemma PositionIs(v: Option<Json>, n: int)
    ensures EqualsInt(v, n) <==> v.Some? && IsPosition(v.value, n)
  {
    hide SameNumber;
  }

  lemma UnbrokenIff(check: Option<Checker>, entry: Json, position: nat, expected: Text)
    ensures EntryBreak(check, entry, position, expected) == None <==> Continues(check, entry, position, expected)
  {
    hide SignatureOk, Attested, Get, Of, EqualsInt, IsPosition;
    if entry.Obj? {
      PositionIs(Field(entry, SEQUENCE), position);
      if check.Some? {
        SignatureIsAttested(check.value, entry);
      }
    }
  }

  /** A chain is accepted exactly when it has an entry, all of them can be digested, and each is of the known version,
      names its position, seals the one before it, the first one 64 zeros, and is signed when signatures are asked
      for. */
  lemma {:induction false} AcceptedIff(env: Env, check: Option<Checker>, entries: seq<Json>)
    ensures Accepted(env, check, entries) <==>
      && entries != [] && Digestible(entries)
      && forall i | 0 <= i < |entries| :: Continues(check, entries[i], i, Seals(env, entries, i, Zeros(64)))
  {
    hide CanonicalBytes, EntryBreak, BreakFrom, Payload, Continues;
    if Accepted(env, check, entries) {
      forall i | 0 <= i < |entries|
        ensures Digestible(entries) && Continues(check, entries[i], i, Seals(env, entries, i, Zeros(64)))
      {
        AcceptedAt(env, check, entries, 0, GENESIS, i);
        UnbrokenIff(check, entries[i], i, Seals(env, entries, i, GENESIS));
      }
      AcceptedAt(env, check, entries, 0, GENESIS, 0);
    }
    if entries != [] && Digestible(entries) &&
       forall i | 0 <= i < |entries| :: Continues(check, entries[i], i, Seals(env, entries, i, Zeros(64)))
    {
      ContinuesToEnd(env, check, entries, |entries|);
      assert entries[..|entries|] == entries;
    }
  }

  lemma {:induction false} ContinuesToEnd(env: Env, check: Option<Checker>, entries: seq<Json>, n: nat)
    requires Digestible(entries) && n <= |entries|
    requires forall i | 0 <= i < |entries| :: Continues(check, entries[i], i, Seals(env, entries, i, Zeros(64)))
    ensures BreakFrom(env, check, entries[..n], 0, GENESIS) == Ok(None)
  {
    hide CanonicalBytes, EntryBreak, BreakFrom, Payload, Continues;
    if n == 0 {
      BreakStep(env, check, [], 0, GENESIS);
      assert entries[..0] == [];
    } else {
      ContinuesToEnd(env, check, entries, n - 1);
      assert entries[..n] == entries[..n - 1] + [entries[n - 1]];
      UnbrokenIff(check, entries[n - 1], n - 1, Seals(env, entries, n - 1, GENESIS));
      BreakAtEnd(env, check, entries[..n - 1], entries[n - 1], 0, GENESIS);
    }
  }

  lemma {:induction false} BreakOfPrefix(
    env: Env, check: Option<Checker>, entries: seq<Json>, more: seq<Json>, position: nat, expected: Text)
    requires BreakFrom(env, check, entries + more, position, expected) == Ok(None)
    ensures BreakFrom(env, check, entries, position, expected) == Ok(None)
    decreases |more|
  {
    hide CanonicalBytes, EntryBreak, BreakFrom;
    if more == [] {
      assert entries + more == entries;
    } else {
      var front, last := more[..|more| - 1], Last(more);
      assert entries + more == entries + front + [last];
      BreakAtEnd(env, check, entries + front, last, position, expected);
      BreakOfPrefix(env, check, entries, front, position, expected);
    }
  }

  /** A chain chopped at the end is accepted still: every prefix of an accepted chain is, but for the empty one. */
  lemma ChoppedTailIsUnseen(env: Env, check: Option<Checker>, entries: seq<Json>, n: nat)
    requires Accepted(env, check, entries) && 0 < n <= |entries|
    ensures Accepted(env, check, entries[..n])
  {
    hide BreakFrom;
    assert entries == entries[..n] + entries[n..];
    BreakOfPrefix(env, check, entries[..n], entries[n..], 0, GENESIS);
  }

  // ---------- dictionaries and their fields ----------

  lemma {:induction false} WithoutIsSub(ms: seq<Member>, key: Text, m: Member)
    ensures m in Without(ms, key) <==> m in ms && m.key != key
  {
    if ms != [] {
      WithoutIsSub(ms[1..], key, m);
      assert m in ms <==> m == ms[0] || m in ms[1..];
    }
  }

  lemma {:induction false} GetWithout(ms: seq<Member>, key: Text, other: Text)
    ensures Get(Without(ms, key), other) == if other == key then None else Get(ms, other)
  {
    if ms != [] {
      GetWithout(ms[1..], key, other);
      assert ([ms[0]] + Without(ms[1..], key))[1..] == Without(ms[1..], key);
    }
  }

  lemma {:induction false} WithoutKeepsDistinct(ms: seq<Member>, key: Text)
    requires DistinctKeys(ms)
    ensures DistinctKeys(Without(ms, key))
  {
    if ms != [] {
      WithoutKeepsDistinct(ms[1..], key);
      var rest := Without(ms[1..], key);
      forall j | 0 <= j < |rest| ensures rest[j].key != ms[0].key {
        WithoutIsSub(ms[1..], key, rest[j]);
        var k :| 0 <= k < |ms[1..]| && ms[1..][k] == rest[j];
        assert ms[k + 1].key != ms[0].key;
      }
    }
  }

  lemma PayloadIsWellFormed(entry: Json)
    requires entry.Obj? && WellFormed(entry)
    ensures WellFormed(Payload(entry))
  {
    var ms, rest := entry.members, Without(entry.members, SIGNATURE);
    WithoutKeepsDistinct(ms, SIGNATURE);
    forall i | 0 <= i < |rest| ensures WellFormed(rest[i].value) {
      WithoutIsSub(ms, SIGNATURE, rest[i]);
      var k :| 0 <= k < |ms| && ms[k] == rest[i];
    }
  }

  /** Equal dictionaries hold equal values under every key. */
  lemma SameField(a: seq<Member>, b: seq<Member>, key: Text)
    requires SameValue(Obj(a), Obj(b)) && DistinctKeys(a) && DistinctKeys(b) && Get(a, key).Some?
    ensures Get(b, key).Some? && SameValue(Get(a, key).value, Get(b, key).value)
  {
    GetNone(a, key);
    var i :| 0 <= i < |a| && a[i].key == key;
    GetAt(a, i);
    var r := (i: nat, j: nat) => i < |a| && j < |b| && a[i].key == b[j].key && SameValue(a[i].value, b[j].value);
    assert TwoWay(|a|, |b|, r);
    assert HasRight(i, |b|, r);
    var j: nat :| j < |b| && r(i, j);
    GetAt(b, j);
  }

  // ---------- rigidity ----------

  ghost predicate Collision(env: Env, x: Bytes, y: Bytes) {
    x != y && env.sha(x) == env.sha(y)
  }

  /** Equal apart from their signatures, as JSON values. */
  ghost predicate SameUnsigned(a: Json, b: Json)
    requires a.Obj? && b.Obj?
  {
    SameValue(Payload(a), Payload(b))
  }

  ghost predicate AllWellFormed(entries: seq<Json>) {
    forall j | 0 <= j < |entries| :: WellFormed(entries[j])
  }

  /** What an accepted entry holds in the fields that the chain is about. */
  lemma ChainFields(env: Env, check: Option<Checker>, a: seq<Json>, i: nat)
    requires Accepted(env, check, a) && i < |a| && AllWellFormed(a)
    ensures Digestible(a)
    ensures a[i].Obj? && DistinctKeys(Payload(a[i]).members) && WellFormed(Payload(a[i]))
    ensures EqualsInt(Get(Payload(a[i]).members, SEQUENCE), i)
    ensures Get(Payload(a[i]).members, PREV_HASH) == Some(Str(Seals(env, a, i, GENESIS)))
  {
    hide CanonicalBytes, BreakFrom, WellFormed, DistinctKeys, Payload, EntryBreak, Get, EqualsInt;
    AcceptedAt(env, check, a, 0, GENESIS, i);
    PayloadIsWellFormed(a[i]);
    DistinctWhenWellFormed(Payload(a[i]));
    EntryFields(check, a[i], i, Seals(env, a, i, GENESIS));
  }

  lemma EntryFields(check: Option<Checker>, entry: Json, position: nat, expected: Text)
    requires EntryBreak(check, entry, position, expected) == None
    ensures entry.Obj?
    ensures EqualsInt(Get(Payload(entry).members, SEQUENCE), position)
    ensures Get(Payload(entry).members, PREV_HASH) == Some(Str(expected))
  {
    hide CanonicalBytes, Get, Without, SignatureOk;
    NamesDiffer();
    GetWithout(entry.members, SIGNATURE, SEQUENCE);
    GetWithout(entry.members, SIGNATURE, PREV_HASH);
  }

  lemma DistinctWhenWellFormed(v: Json)
    requires v.Obj? && WellFormed(v)
    ensures DistinctKeys(v.members)
  {
  }

  lemma NamesDiffer()
    ensures SEQUENCE != SIGNATURE && PREV_HASH != SIGNATURE && LEDGER_VERSION != SIGNATURE && ALG != SIGNATURE
  {
    assert SEQUENCE[0] == 's' as int && SEQUENCE[1] == 'e' as int && SIGNATURE[1] == 'i' as int;
    assert PREV_HASH[0] == 'p' as int && LEDGER_VERSION[0] == 'l' as int && SIGNATURE[0] == 's' as int;
    assert ALG[0] == 'a' as int;
  }

  lemma ChainLink(env: Env, check: Option<Checker>, a: seq<Json>, i: nat)
    requires Accepted(env, check, a) && 0 < i < |a| && AllWellFormed(a)
    ensures a[i - 1].Obj? && WellFormed(Payload(a[i - 1])) && CanonicalBytes(Payload(a[i - 1])).Ok?
    ensures a[i].Obj? && WellFormed(Payload(a[i]))
    ensures Get(Payload(a[i]).members, PREV_HASH) == Some(Str(env.sha(CanonicalBytes(Payload(a[i - 1])).value)))
  {
    hide CanonicalBytes, BreakFrom, WellFormed, Payload, Accepted, Get, EqualsInt;
    ChainFields(env, check, a, i);
    ChainFields(env, check, a, i - 1);
  }

  lemma SameString(p: Json, q: Json, key: Text, x: Text, y: Text)
    requires p.Obj? && q.Obj? && WellFormed(p) && WellFormed(q) && SameValue(p, q)
    requires Get(p.members, key) == Some(Str(x)) && Get(q.members, key) == Some(Str(y))
    ensures x == y
  {
    hide Get;
    SameField(p.members, q.members, key);
  }

  /** Equal values name one position. */
  lemma SamePosition(v: Option<Json>, w: Option<Json>, i: int, j: int)
    requires EqualsInt(v, i) && EqualsInt(w, j) && SameValue(v.value, w.value)
    ensures i == j
  {
    if NumberOf(v.value).Some? {
      var a, b := NumberOf(v.value).value, NumberOf(w.value).value;
      CanonIffSame(a, Decimal(i, 0));
      CanonIffSame(b, Decimal(j, 0));
      CanonIffSame(a, b);
      CanonIffSame(Decimal(i, 0), Decimal(j, 0));
    }
  }

  /** Where two accepted chains agree, they agree one entry earlier, or their digests collide. */
  lemma OneBack(env: Env, va: Option<Checker>, a: seq<Json>, vb: Option<Checker>, b: seq<Json>, i: nat)
    requires Accepted(env, va, a) && Accepted(env, vb, b) && AllWellFormed(a) && AllWellFormed(b)
    requires 0 < i < |a| && i < |b| && a[i].Obj? && b[i].Obj? && SameUnsigned(a[i], b[i])
    ensures a[i - 1].Obj? && b[i - 1].Obj?
    ensures CanonicalBytes(Payload(a[i - 1])).Ok? && CanonicalBytes(Payload(b[i - 1])).Ok?
    ensures SameUnsigned(a[i - 1], b[i - 1]) ||
      Collision(env, CanonicalBytes(Payload(a[i - 1])).value, CanonicalBytes(Payload(b[i - 1])).value)
  {
    hide CanonicalBytes, SameValue, BreakFrom, WellFormed, Accepted, AllWellFormed, Payload, Get;
    ChainLink(env, va, a, i);
    ChainLink(env, vb, b, i);
    var p, q := Payload(a[i - 1]), Payload(b[i - 1]);
    SameString(Payload(a[i]), Payload(b[i]), PREV_HASH,
               env.sha(CanonicalBytes(p).value), env.sha(CanonicalBytes(q).value));
    CanonicalBytesIdentify(p, q);
  }

  ghost predicate AgreeUpTo(a: seq<Json>, b: seq<Json>, n: nat)
    requires n <= |a| && n <= |b|
  {
    forall j | 0 <= j < n :: a[j].Obj? && b[j].Obj? && SameUnsigned(a[j], b[j])
  }

  lemma {:induction false} AllTheWayBack(
    env: Env, va: Option<Checker>, a: seq<Json>, vb: Option<Checker>, b: seq<Json>, i: nat)
    returns (x: Bytes, y: Bytes)
    requires Accepted(env, va, a) && Accepted(env, vb, b) && AllWellFormed(a) && AllWellFormed(b)
    requires i < |a| && i < |b| && a[i].Obj? && b[i].Obj? && SameUnsigned(a[i], b[i])
    ensures AgreeUpTo(a, b, i + 1) || Collision(env, x, y)
  {
    hide CanonicalBytes, SameValue, BreakFrom, WellFormed;
    x, y := [], [];
    if i > 0 {
      OneBack(env, va, a, vb, b, i);
      if SameUnsigned(a[i - 1], b[i - 1]) {
        x, y := AllTheWayBack(env, va, a, vb, b, i - 1);
      } else {
        x, y := CanonicalBytes(Payload(a[i - 1])).value, CanonicalBytes(Payload(b[i - 1])).value;
      }
    }
  }

  /** Two accepted chains whose last entries agree apart from the signature have one length and agree entry by entry
      apart from signatures; otherwise the two byte strings returned collide under the hash. */
  lemma LastEntryFixesTheChain(env: Env, va: Option<Checker>, a: seq<Json>, vb: Option<Checker>, b: seq<Json>)
    returns (x: Bytes, y: Bytes)
    requires Accepted(env, va, a) && Accepted(env, vb, b) && AllWellFormed(a) && AllWellFormed(b)
    requires a[|a| - 1].Obj? && b[|b| - 1].Obj? && SameUnsigned(a[|a| - 1], b[|b| - 1])
    ensures |a| == |b| && (AgreeUpTo(a, b, |a|) || Collision(env, x, y))
  {
    hide CanonicalBytes, SameValue, BreakFrom, WellFormed, AllWellFormed, Payload, Get;
    var i, j := |a| - 1, |b| - 1;
    ChainFields(env, va, a, i);
    ChainFields(env, vb, b, j);
    SameField(Payload(a[i]).members, Payload(b[j]).members, SEQUENCE);
    SamePosition(Get(Payload(a[i]).members, SEQUENCE), Get(Payload(b[j]).members, SEQUENCE), i, j);
    x, y := AllTheWayBack(env, va, a, vb, b, i);
  }
}

/** Everything the JSON reader returns is made of dictionaries: no object holds a key twice, so that a field can be
    looked up before or after the document was brought into canonical order. */
module ParsedValues {
  import opened Prelude
  import opened Texts
  import opened Json
  import opened Jcs
  import opened JsonParser
  import opened JcsRoundTrip

  ghost predicate GoodMembers(ms: seq<Member>) {
    DistinctKeys(ms) && forall i | 0 <= i < |ms| :: WellFormed(ms[i].value)
  }

  lemma {:induction false} PutHasKey(ms: seq<Member>, key: Text, v: Json, other: Text)
    ensures HasKey(Put(ms, key, v), other) <==> other == key || HasKey(ms, other)
  {
    if ms == [] {
      assert Put(ms, key, v)[0].key == key;
    } else {
      HasKeyStep(ms, other);
      HasKeyStep(Put(ms, key, v), other);
      if ms[0].key == key {
        assert Put(ms, key, v)[1..] == ms[1..];
      } else {
        PutHasKey(ms[1..], key, v, other);
        assert Put(ms, key, v)[1..] == Put(ms[1..], key, v);
      }
    }
  }

  lemma {:induction false} PutKeepsGood(ms: seq<Member>, key: Text, v: Json)
    requires GoodMembers(ms) && WellFormed(v)
    ensures GoodMembers(Put(ms, key, v))
  {
    if ms != [] && ms[0].key != key {
      PutKeepsGood(ms[1..], key, v);
      PutHasKey(ms[1..], key, v, ms[0].key);
      var rest := Put(ms[1..], key, v);
      assert !HasKey(ms[1..], ms[0].key);
      assert forall j | 0 <= j < |rest| :: rest[j].key != ms[0].key;
    }
  }

  lemma NumberIsWellFormed(t: Text)
    ensures ParseNumber(t).Got? ==> WellFormed(ParseNumber(t).value)
  {
    hide ParseNat, ReadFraction, ReadExponent;
  }

  lemma {:induction false} ValueIsWellFormed(t: Text)
    ensures ParseValue(t).Got? ==> WellFormed(ParseValue(t).value)
    decreases |t|, 1
  {
    hide ParseArray, ParseObject, ParseString, ParseNumber;
    var s := SkipWhite(t);
    NumberIsWellFormed(s);
    if s != [] && s[0] == OPEN_BRACKET {
      ArrayIsWellFormed(s[1..]);
    } else if s != [] && s[0] == OPEN_BRACE {
      ObjectIsWellFormed(s[1..]);
    }
  }

  lemma {:induction false} ArrayIsWellFormed(t: Text)
    ensures ParseArray(t).Got? ==> WellFormed(ParseArray(t).value)
    decreases |t|, 3
  {
    hide ParseItems;
    ItemsAreWellFormed(SkipWhite(t));
  }

  lemma {:induction false} ObjectIsWellFormed(t: Text)
    ensures ParseObject(t).Got? ==> WellFormed(ParseObject(t).value)
    decreases |t|, 3
  {
    hide ParseMembers;
    MembersAreGood(SkipWhite(t), []);
  }

  lemma {:induction false} ItemsAreWellFormed(t: Text)
    ensures ParseItems(t).Got? ==> forall i | 0 <= i < |ParseItems(t).value| :: WellFormed(ParseItems(t).value[i])
    decreases |t|, 2
  {
    hide ParseValue, WellFormed;
    ValueIsWellFormed(t);
    if ParseValue(t).Got? {
      var rest := SkipWhite(ParseValue(t).rest);
      if rest != [] && rest[0] == COMMA {
        ItemsAreWellFormed(rest[1..]);
      }
    }
  }

  lemma {:induction false} MembersAreGood(t: Text, ms: seq<Member>)
    requires GoodMembers(ms)
    ensures ParseMembers(t, ms).Got? ==> GoodMembers(ParseMembers(t, ms).value)
    decreases |t|, 2
  {
    hide ParseValue, ParseString, GoodMembers, Put, WellFormed;
    var s := SkipWhite(t);
    if s != [] && s[0] == QUOTE && ParseString(s[1..]).Got? {
      var key, rest := ParseString(s[1..]).value, SkipWhite(ParseString(s[1..]).rest);
      if rest != [] && rest[0] == COLON && ParseValue(rest[1..]).Got? {
        ValueIsWellFormed(rest[1..]);
        var v, after := ParseValue(rest[1..]).value, SkipWhite(ParseValue(rest[1..]).rest);
        PutKeepsGood(ms, key, v);
        if after != [] && after[0] == COMMA {
          MembersAreGood(after[1..], Put(ms, key, v));
        }
      }
    }
  }

  /** What `json.loads` returns is well formed. */
  lemma LoadedIsWellFormed(b: Bytes)
    requires LoadsBytes(b).Some?
    ensures WellFormed(LoadsBytes(b).value)
  {
    hide ParseValue;
    ValueIsWellFormed(FromUtf8(b).value);
  }

  // ---------- looking fields up after normalization ----------

  /** A field of the normalized document is the normalized field. */
  lemma GetNorm(ms: seq<Member>, key: Text)
    requires DistinctKeys(ms) && CleanKeys(ms)
    ensures Get(Norm(Obj(ms)).members, key) == match Get(ms, key) { case None => None case Some(v) => Some(Norm(v)) }
  {
    hide NormMembers, Get, Sorted;
    var normal := Norm(Obj(ms)).members;
    NormMembersSorted(ms);
    SortedAreDistinct(normal);
    GetNone(ms, key);
    GetNone(normal, key);
    if HasKey(ms, key) {
      var i :| 0 <= i < |ms| && ms[i].key == key;
      GetAt(ms, i);
      NormMemberTo(ms, i);
      var j :| 0 <= j < |normal| && normal[j] == Keyed(ms[i].key, Norm(ms[i].value));
      GetAt(normal, j);
    }
    if HasKey(normal, key) {
      var j :| 0 <= j < |normal| && normal[j].key == key;
      var i := NormMemberFrom(ms, normal[j]);
    }
  }
}

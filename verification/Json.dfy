/** JSON values as Python holds them, and dictionaries as ordered member lists: lookup, insertion, and the order of
    member names by UTF-16 code units. */
module Json {
  import opened Prelude
  import opened Texts
  import opened Decimals

  /** One dictionary item; generic so that values can be JSON or already printed text. */
  datatype Keyed<+V> = Keyed(key: Text, value: V)

  datatype NonNumber = NaN | Infinity | MinusInfinity

  /** A float is the decimal number its shortest digits denote, negative zero, or no number. */
  datatype Json =
    | Null
    | Bool(b: bool)
    | Int(n: int)
    | Num(d: Decimal)
    | MinusZero
    | NotFinite(word: NonNumber)
    | Str(s: Text)
    | Arr(items: seq<Json>)
    | Obj(members: seq<Keyed<Json>>)

  type Member = Keyed<Json>

  /** The number of an `int` or a finite `float`. */
  function NumberOf(v: Json): Option<Decimal> {
    match v
    case Int(n) => Some(Decimal(n, 0))
    case Num(d) => Some(d)
    case MinusZero => Some(Decimal(0, 0))
    case _ => None
  }

  // ---------- dictionaries in insertion order ----------

  predicate DistinctKeys<V>(ms: seq<Keyed<V>>) {
    forall i, j | 0 <= i < j < |ms| :: ms[i].key != ms[j].key
  }

  predicate HasKey<V>(ms: seq<Keyed<V>>, key: Text) {
    exists i | 0 <= i < |ms| :: ms[i].key == key
  }

  /** `d.get(key)` on the first member of that key. */
  function Get<V>(ms: seq<Keyed<V>>, key: Text): Option<V> {
    if ms == [] then None
    else if ms[0].key == key then Some(ms[0].value)
    else Get(ms[1..], key)
  }

  /** `None` for an absent key. */
  function OrNull(v: Option<Json>): Json {
    if v.Some? then v.value else Null
  }

  /** `d[key] = value`: an existing key keeps its place. */
  function Put<V>(ms: seq<Keyed<V>>, key: Text, value: V): seq<Keyed<V>> {
    if ms == [] then [Keyed(key, value)]
    else if ms[0].key == key then [Keyed(key, value)] + ms[1..]
    else [ms[0]] + Put(ms[1..], key, value)
  }

  lemma {:induction false} GetAt<V>(ms: seq<Keyed<V>>, i: nat)
    requires DistinctKeys(ms) && i < |ms|
    ensures Get(ms, ms[i].key) == Some(ms[i].value)
  {
    if i > 0 {
      assert ms[0].key != ms[i].key;
      GetAt(ms[1..], i - 1);
    }
  }

  /** The first member of a key is what a lookup finds. */
  lemma {:induction false} FirstAt<V>(ms: seq<Keyed<V>>, key: Text, i: nat)
    requires i < |ms| && ms[i].key == key && forall j | 0 <= j < i :: ms[j].key != key
    ensures Get(ms, key) == Some(ms[i].value)
  {
    if i > 0 {
      assert ms[0].key != key;
      FirstAt(ms[1..], key, i - 1);
    }
  }

  lemma {:induction false} GetNone<V>(ms: seq<Keyed<V>>, key: Text)
    ensures Get(ms, key) == None <==> !HasKey(ms, key)
  {
    if ms != [] {
      GetNone(ms[1..], key);
      HasKeyStep(ms, key);
    }
  }

  lemma HasKeyStep<V>(ms: seq<Keyed<V>>, key: Text)
    requires ms != []
    ensures HasKey(ms, key) <==> ms[0].key == key || HasKey(ms[1..], key)
  {
    if HasKey(ms[1..], key) {
      var i :| 0 <= i < |ms[1..]| && ms[1..][i].key == key;
      assert ms[i + 1].key == key;
    }
    if HasKey(ms, key) && ms[0].key != key {
      var i :| 0 <= i < |ms| && ms[i].key == key;
      assert ms[1..][i - 1].key == key;
    }
  }

  lemma {:induction false} PutNew<V>(ms: seq<Keyed<V>>, key: Text, value: V)
    requires !HasKey(ms, key)
    ensures Put(ms, key, value) == ms + [Keyed(key, value)]
  {
    if ms != [] {
      assert ms[0].key != key;
      assert forall i | 0 <= i < |ms[1..]| :: ms[1..][i] == ms[i + 1];
      PutNew(ms[1..], key, value);
    }
  }

  // ---------- sorting members by UTF-16 code units ----------

  /** The sort key of `_jcs_object`: the big-endian UTF-16 bytes of the member name. */
  predicate KeyLess(a: Text, b: Text) {
    LexLess(BigEndian(Utf16(a)), BigEndian(Utf16(b)))
  }

  function Insert<V>(m: Keyed<V>, ms: seq<Keyed<V>>): seq<Keyed<V>> {
    if ms == [] then [m]
    else if KeyLess(ms[0].key, m.key) then [ms[0]] + Insert(m, ms[1..])
    else [m] + ms
  }

  /** `sorted(..., key=...)`: a stable sort. */
  function Sort<V>(ms: seq<Keyed<V>>): (r: seq<Keyed<V>>) {
    if ms == [] then [] else Insert(ms[0], Sort(ms[1..]))
  }

  ghost predicate Sorted<V>(ms: seq<Keyed<V>>) {
    forall i, j | 0 <= i < j < |ms| :: KeyLess(ms[i].key, ms[j].key)
  }

  lemma {:induction false} InsertKeepsMembers<V>(m: Keyed<V>, ms: seq<Keyed<V>>)
    ensures |Insert(m, ms)| == |ms| + 1
    ensures multiset(Insert(m, ms)) == multiset(ms) + multiset{m}
  {
    if ms != [] {
      assert ms == [ms[0]] + ms[1..];
      InsertKeepsMembers(m, ms[1..]);
    }
  }

  /** Sorting loses and invents no member. */
  lemma {:induction false} SortKeepsMembers<V>(ms: seq<Keyed<V>>)
    ensures |Sort(ms)| == |ms| && multiset(Sort(ms)) == multiset(ms)
    ensures forall m :: m in Sort(ms) <==> m in ms
  {
    if ms != [] {
      assert ms == [ms[0]] + ms[1..];
      SortKeepsMembers(ms[1..]);
      InsertKeepsMembers(ms[0], Sort(ms[1..]));
    }
    forall m
      ensures m in Sort(ms) <==> m in ms
    {
      assert m in Sort(ms) <==> m in multiset(Sort(ms));
      assert m in ms <==> m in multiset(ms);
    }
  }

  /** Surrogate-free names that compare equal as UTF-16 are equal. */
  lemma KeysCompare(a: Text, b: Text)
    requires SurrogateFree(a) && SurrogateFree(b) && a != b
    ensures KeyLess(a, b) != KeyLess(b, a)
  {
    Utf16RoundTrip(a);
    Utf16RoundTrip(b);
    BigEndianKeepsOrder(Utf16(a), Utf16(b));
    BigEndianKeepsOrder(Utf16(b), Utf16(a));
    LexTotal(Utf16(a), Utf16(b));
  }

  lemma KeyLessTransitive(a: Text, b: Text, c: Text)
    requires KeyLess(a, b) && KeyLess(b, c)
    ensures KeyLess(a, c)
  {
    LexTransitive(BigEndian(Utf16(a)), BigEndian(Utf16(b)), BigEndian(Utf16(c)));
  }

  /** Comparing by bytes, as the code does, is comparing by code units, as RFC 8785 section 3.2.3 asks. */
  lemma KeyOrderIsCodeUnitOrder(a: Text, b: Text)
    ensures KeyLess(a, b) <==> LexLess(Utf16(a), Utf16(b))
  {
    BigEndianKeepsOrder(Utf16(a), Utf16(b));
  }

  /** The order is not that of code points: U+10000 sorts before U+E000. */
  lemma KeyOrderIsNotCodePointOrder()
    ensures KeyLess([0x1_0000], [0xE000]) && LexLess([0xE000], [0x1_0000])
  {
    assert Utf16([0x1_0000]) == Units(0x1_0000) + Utf16([]) == [0xD800, 0xDC00];
    assert Utf16([0xE000]) == Units(0xE000) + Utf16([]) == [0xE000];
    KeyOrderIsCodeUnitOrder([0x1_0000], [0xE000]);
  }

  ghost predicate CleanKeys<V>(ms: seq<Keyed<V>>) {
    forall i | 0 <= i < |ms| :: SurrogateFree(ms[i].key)
  }

  lemma {:induction false} InsertSorts<V>(m: Keyed<V>, ms: seq<Keyed<V>>)
    requires Sorted(ms) && CleanKeys(ms) && SurrogateFree(m.key)
    requires forall i | 0 <= i < |ms| :: ms[i].key != m.key
    ensures Sorted(Insert(m, ms)) && CleanKeys(Insert(m, ms))
  {
    if ms == [] {
    } else if KeyLess(ms[0].key, m.key) {
      InsertSorts(m, ms[1..]);
      InsertKeepsMembers(m, ms[1..]);
      var r := Insert(m, ms[1..]);
      forall i | 0 <= i < |r|
        ensures KeyLess(ms[0].key, r[i].key)
      {
        assert r[i] in multiset(r);
        assert r[i] == m || r[i] in multiset(ms[1..]);
      }
    } else {
      KeysCompare(ms[0].key, m.key);
      forall i | 0 < i < |ms|
        ensures KeyLess(m.key, ms[i].key)
      {
        KeyLessTransitive(m.key, ms[0].key, ms[i].key);
      }
    }
  }

  /** A dictionary's members come out strictly increasing. */
  lemma {:induction false} SortSorts<V>(ms: seq<Keyed<V>>)
    requires DistinctKeys(ms) && CleanKeys(ms)
    ensures Sorted(Sort(ms)) && CleanKeys(Sort(ms)) && DistinctKeys(Sort(ms))
  {
    if ms != [] {
      SortSorts(ms[1..]);
      SortKeepsMembers(ms[1..]);
      var r := Sort(ms[1..]);
      forall i | 0 <= i < |r|
        ensures r[i].key != ms[0].key
      {
        assert r[i] in r;
        assert r[i] in multiset(r);
        assert r[i] in multiset(ms[1..]);
        var j :| 0 <= j < |ms[1..]| && ms[1..][j] == r[i];
        assert ms[j + 1].key != ms[0].key;
      }
      InsertSorts(ms[0], r);
    }
    SortedAreDistinct(Sort(ms));
  }

  lemma SortedAreDistinct<V>(ms: seq<Keyed<V>>)
    requires Sorted(ms)
    ensures DistinctKeys(ms)
  {
    forall i, j | 0 <= i < j < |ms|
      ensures ms[i].key != ms[j].key
    {
      var u := BigEndian(Utf16(ms[i].key));
      LexTotal(u, u);
    }
  }

  lemma LeastFirst<V>(ms: seq<Keyed<V>>, ns: seq<Keyed<V>>)
    requires Sorted(ms) && Sorted(ns) && ms != [] && ns != []
    requires forall m :: m in ms <==> m in ns
    ensures ms[0] == ns[0]
  {
    assert ms[0] in ns && ns[0] in ms;
    var i :| 0 <= i < |ns| && ns[i] == ms[0];
    var j :| 0 <= j < |ms| && ms[j] == ns[0];
    if i > 0 && j > 0 {
      assert KeyLess(ns[0].key, ns[i].key) && KeyLess(ms[0].key, ms[j].key);
      LexTotal(BigEndian(Utf16(ms[0].key)), BigEndian(Utf16(ns[0].key)));
    }
  }

  /** A set of members has one sorted order: the result cannot depend on insertion order. */
  lemma {:induction false} SortedIsUnique<V>(ms: seq<Keyed<V>>, ns: seq<Keyed<V>>)
    requires Sorted(ms) && Sorted(ns)
    requires forall m :: m in ms <==> m in ns
    ensures ms == ns
  {
    EmptyTogether(ms, ns);
    if ms != [] {
      LeastFirst(ms, ns);
      SortedAreDistinct(ms);
      SortedAreDistinct(ns);
      forall m
        ensures m in ms[1..] <==> m in ns[1..]
      {
        TailMember(ms, m);
        TailMember(ns, m);
      }
      SortedIsUnique(ms[1..], ns[1..]);
      assert ms == [ms[0]] + ms[1..] && ns == [ns[0]] + ns[1..];
    }
  }

  lemma EmptyTogether<V>(ms: seq<Keyed<V>>, ns: seq<Keyed<V>>)
    requires forall m :: m in ms <==> m in ns
    ensures ms == [] <==> ns == []
  {
    if ms != [] {
      assert ms[0] in ns;
    }
    if ns != [] {
      assert ns[0] in ms;
    }
  }

  lemma TailMember<V>(ms: seq<Keyed<V>>, m: Keyed<V>)
    requires ms != [] && DistinctKeys(ms)
    ensures m in ms[1..] <==> m in ms && m != ms[0]
  {
    if m in ms[1..] {
      var i :| 0 <= i < |ms[1..]| && ms[1..][i] == m;
      assert ms[i + 1] == m;
    }
  }

  /** Two insertion orders of one dictionary sort to the same list. */
  lemma SortIgnoresInsertionOrder<V>(ms: seq<Keyed<V>>, ns: seq<Keyed<V>>)
    requires DistinctKeys(ms) && CleanKeys(ms) && multiset(ms) == multiset(ns)
    ensures Sort(ms) == Sort(ns)
  {
    forall m
      ensures m in ms <==> m in ns
    {
      assert m in ms <==> m in multiset(ms);
      assert m in ns <==> m in multiset(ns);
    }
    forall i, j | 0 <= i < j < |ns|
      ensures ns[i].key != ns[j].key
    {
      PairDistinct(ms, ns, i, j);
    }
    forall i | 0 <= i < |ns|
      ensures SurrogateFree(ns[i].key)
    {
      assert ns[i] in ms;
    }
    SortSorts(ms);
    SortSorts(ns);
    SortKeepsMembers(ms);
    SortKeepsMembers(ns);
    SortedIsUnique(Sort(ms), Sort(ns));
  }

  lemma TwiceIn<T>(s: seq<T>, i: nat, j: nat)
    requires i < j < |s| && s[i] == s[j]
    ensures multiset(s)[s[i]] >= 2
  {
    assert s == s[..j] + s[j..];
    assert s[..j][i] == s[i] && s[j..][0] == s[j];
  }

  lemma PairDistinct<V>(ms: seq<Keyed<V>>, ns: seq<Keyed<V>>, i: nat, j: nat)
    requires DistinctKeys(ms) && multiset(ms) == multiset(ns) && i < j < |ns|
    ensures ns[i].key != ns[j].key
  {
    assert ns[i] in multiset(ns) && ns[j] in multiset(ns);
    assert ns[i] in ms && ns[j] in ms;
    var p :| 0 <= p < |ms| && ms[p] == ns[i];
    var q :| 0 <= q < |ms| && ms[q] == ns[j];
    if p == q {
      TwiceIn(ns, i, j);
      OnceOnly(ms, ns[i]);
    }
  }

  lemma {:induction false} OnceOnly<V>(ms: seq<Keyed<V>>, m: Keyed<V>)
    requires DistinctKeys(ms)
    ensures multiset(ms)[m] <= 1
  {
    if ms != [] {
      assert ms == [ms[0]] + ms[1..];
      OnceOnly(ms[1..], m);
      if m == ms[0] && m in ms[1..] {
        TailMember(ms, m);
      }
      assert m in ms[1..] <==> m in multiset(ms[1..]);
    }
  }
}

/** The lines of the hash-chained ledger: what a record's text is read back as, which records can be written, and what
    of a record a verifier finds again. */
module LedgerLines {
  import opened Prelude
  import opened Texts
  import opened Decimals
  import opened Json
  import opened Jcs
  import opened JsonParser
  import opened JcsRoundTrip
  import opened JsonDump
  import opened JsonCut
  import opened HashChain
  import ChainRigidity
  import Log = AppendLog

  // ---------- the members of a record ----------

  lemma {:induction false} Absent(ms: seq<Member>, key: Text)
    requires forall j | 0 <= j < |ms| :: ms[j].key != key
    ensures Get(ms, key) == None && Without(ms, key) == ms
  {
    if ms != [] {
      assert ms[0].key != key;
      assert forall j | 0 <= j < |ms[1..]| :: ms[1..][j] == ms[j + 1];
      Absent(ms[1..], key);
    }
  }

  lemma {:induction false} WithoutLast(ms: seq<Member>, m: Member)
    requires Without(ms, m.key) == ms
    ensures Without(ms + [m], m.key) == ms
  {
    if ms == [] {
      assert ms + [m] == [m] && [m][1..] == [];
    } else {
      assert (ms + [m])[0] == ms[0] && (ms + [m])[1..] == ms[1..] + [m];
      WithoutShrinks(ms[1..], m.key);
      assert ms == [ms[0]] + ms[1..];
      WithoutLast(ms[1..], m);
    }
  }

  lemma {:induction false} WithoutShrinks(ms: seq<Member>, key: Text)
    ensures |Without(ms, key)| <= |ms|
  {
    if ms != [] {
      WithoutShrinks(ms[1..], key);
    }
  }

  lemma Listed(f: Fields)
    ensures var ms := ToDict(f).members;
      && |ms| == 9
      && ms[0] == Keyed(LEDGER_VERSION, Str(f.ledgerVersion)) && ms[1] == Keyed(SEQUENCE, Int(f.sequence))
      && ms[2] == Keyed(APPENDED_AT, Str(f.appendedAt)) && ms[3] == Keyed(PREV_HASH, Str(f.prevHash))
      && ms[4] == Keyed(PRE_EXEC_ID, f.preExecId) && ms[5] == Keyed(PRE_EXEC_DIGEST, f.preExecDigest)
      && ms[6] == Keyed(RECEIPT_DIGEST, f.receiptDigest) && ms[7] == Keyed(MODULE_SHA256, f.moduleSha256)
      && ms[8] == Keyed(CONFIG_FINGERPRINT, f.configFingerprint)
  {
    hide Of;
  }

  lemma NameLengths()
    ensures |LEDGER_VERSION| == 14 && |SEQUENCE| == 8 && |APPENDED_AT| == 11 && |PREV_HASH| == 9 && |PRE_EXEC_ID| == 11
    ensures |PRE_EXEC_DIGEST| == 15 && |RECEIPT_DIGEST| == 14 && |MODULE_SHA256| == 13 && |CONFIG_FINGERPRINT| == 18
    ensures |ALG| == 3 && |SIGNATURE| == 9
    ensures PREV_HASH != SIGNATURE && LEDGER_VERSION != RECEIPT_DIGEST && APPENDED_AT != PRE_EXEC_ID
  {
    hide Of;
    assert PREV_HASH[0] == 'p' as int && SIGNATURE[0] == 's' as int;
    assert LEDGER_VERSION[0] == 'l' as int && RECEIPT_DIGEST[0] == 'r' as int;
    assert APPENDED_AT[0] == 'a' as int && PRE_EXEC_ID[0] == 'p' as int;
  }

  lemma Names(f: Fields)
    ensures var ms := ToDict(f).members;
      && |ms| == 9
      && ms[0] == Keyed(LEDGER_VERSION, Str(f.ledgerVersion))
      && ms[1] == Keyed(SEQUENCE, Int(f.sequence))
      && ms[3] == Keyed(PREV_HASH, Str(f.prevHash))
      && (forall j | 0 <= j < 9 :: ms[j].key != SIGNATURE && ms[j].key != ALG)
      && (forall j | 0 <= j < 1 :: ms[j].key != SEQUENCE)
      && (forall j | 0 <= j < 3 :: ms[j].key != PREV_HASH)
    ensures ALG != SIGNATURE
  {
    hide ToDict;
    NameLengths();
    Listed(f);
  }

  lemma KeysAreClean()
    ensures SurrogateFree(LEDGER_VERSION) && SurrogateFree(SEQUENCE) && SurrogateFree(APPENDED_AT)
    ensures SurrogateFree(PREV_HASH) && SurrogateFree(PRE_EXEC_ID) && SurrogateFree(PRE_EXEC_DIGEST)
    ensures SurrogateFree(RECEIPT_DIGEST) && SurrogateFree(MODULE_SHA256) && SurrogateFree(CONFIG_FINGERPRINT)
    ensures SurrogateFree(V1) && SurrogateFree(ALG) && SurrogateFree(SIGNATURE)
  {
    hide Of, SurrogateFree;
    OfIsClean("ledger_version");
    OfIsClean("sequence");
    OfIsClean("appended_at");
    OfIsClean("prev_hash");
    OfIsClean("pre_exec_id");
    OfIsClean("pre_exec_digest");
    OfIsClean("receipt_digest");
    OfIsClean("module_sha256");
    OfIsClean("config_fingerprint");
    OfIsClean("v1");
    OfIsClean("alg");
    OfIsClean("signature");
  }

  /** The members of a signed record, or of an unsigned one when nothing is added. */
  function Members(f: Fields, added: seq<Member>): seq<Member> {
    ToDict(f).members + added
  }

  /** What signing adds: the algorithm, then the signature. */
  predicate Added(added: seq<Member>) {
    && |added| <= 2
    && (|added| > 0 ==> added[0].key == ALG)
    && (|added| > 1 ==> added[1].key == SIGNATURE)
  }

  lemma MembersAreDistinct(f: Fields, added: seq<Member>)
    requires Added(added)
    ensures DistinctKeys(Members(f, added)) && CleanKeys(Members(f, added))
  {
    hide Of, ToDict, SurrogateFree;
    NameLengths();
    Listed(f);
    KeysAreClean();
    var ms, all := ToDict(f).members, Members(f, added);
    assert forall j | 0 <= j < 9 :: all[j] == ms[j];
    assert forall j | 9 <= j < |all| :: all[j] == added[j - 9];
  }

  // ---------- a record read back ----------

  /** The fields as they are read back from the line. */
  function Back(f: Fields): Fields {
    Fields(ReadBack(f.preExecDigest), ReadBack(f.receiptDigest), ReadBack(f.preExecId), ReadBack(f.moduleSha256),
           ReadBack(f.configFingerprint), Joined(f.appendedAt), Joined(f.ledgerVersion), f.sequence, Joined(f.prevHash))
  }

  lemma MappedConcat(a: seq<Member>, b: seq<Member>)
    ensures Mapped(a + b) == Mapped(a) + Mapped(b)
  {
    hide ReadBack, Mapped;
    assert forall i | 0 <= i < |a| :: (a + b)[i] == a[i];
    assert forall i | |a| <= i < |a| + |b| :: (a + b)[i] == b[i - |a|];
  }

  lemma DictIsMapped(f: Fields)
    ensures Mapped(ToDict(f).members) == ToDict(Back(f)).members
  {
    hide Of, ToDict, Mapped, Joined;
    Listed(f);
    Listed(Back(f));
  }

  /** A record read back is the record of the fields read back. */
  lemma RecordReadsBack(f: Fields, added: seq<Member>)
    requires Added(added)
    ensures ReadBack(Obj(Members(f, added))) == Obj(Members(Back(f), Mapped(added)))
  {
    hide ReadBack, ToDict, Mapped;
    MembersAreDistinct(f, added);
    CleanObjectReadsBack(Members(f, added));
    MappedConcat(ToDict(f).members, added);
    DictIsMapped(f);
  }

  /** Whether or not it is signed, a record read back holds its version, its position and its seal. */
  lemma BackFields(f: Fields, added: seq<Member>)
    ensures var entry := Obj(Members(f, added));
      && Field(entry, LEDGER_VERSION) == Some(Str(f.ledgerVersion))
      && Field(entry, SEQUENCE) == Some(Int(f.sequence))
      && Field(entry, PREV_HASH) == Some(Str(f.prevHash))
      && Field(entry, PRE_EXEC_ID) == Some(f.preExecId)
  {
    hide Get, Of, ToDict;
    Names(f);
    NameLengths();
    Listed(f);
    var ms, all := ToDict(f).members, Members(f, added);
    assert forall j | 0 <= j < 9 :: all[j] == ms[j];
    FirstAt(all, LEDGER_VERSION, 0);
    FirstAt(all, SEQUENCE, 1);
    FirstAt(all, PREV_HASH, 3);
    FirstAt(all, PRE_EXEC_ID, 4);
  }

  // ---------- signed records ----------

  function Algorithm(alg: Text): seq<Member> {
    [Keyed(ALG, Str(alg))]
  }

  function Signature(alg: Text, raw: Bytes): seq<Member>
    requires IsBytes(raw)
  {
    Algorithm(alg) + [Keyed(SIGNATURE, Str(Hex(raw)))]
  }

  lemma PayloadOfSigned(f: Fields, alg: Text, signature: Text)
    ensures var record := Obj(Members(f, Algorithm(alg) + [Keyed(SIGNATURE, Str(signature))]));
      && Payload(record) == Obj(Members(f, Algorithm(alg)))
      && Field(record, SIGNATURE) == Some(Str(signature)) && Field(record, ALG) == Some(Str(alg))
  {
    hide Get, Without, Of, ToDict;
    Names(f);
    var ms := ToDict(f).members;
    var unsigned := Members(f, Algorithm(alg));
    var all := Members(f, Algorithm(alg) + [Keyed(SIGNATURE, Str(signature))]);
    assert all == unsigned + [Keyed(SIGNATURE, Str(signature))];
    assert forall j | 0 <= j < 9 :: unsigned[j] == ms[j];
    Absent(unsigned, SIGNATURE);
    WithoutLast(unsigned, Keyed(SIGNATURE, Str(signature)));
    assert forall j | 0 <= j < 10 :: all[j] == unsigned[j];
    FirstAt(all, SIGNATURE, 10);
    FirstAt(all, ALG, 9);
  }

  /** What signing gives. */
  lemma SignedIs(f: Fields, signer: Signer, alg: Text, record: Json) returns (raw: Bytes)
    requires Signed(f, signer, alg) == Ok(record)
    ensures var bytes := CanonicalBytes(Obj(Members(f, Algorithm(alg))));
      && bytes.Ok? && signer(bytes.value) == Some(raw) && IsBytes(raw)
      && record == Obj(Members(f, Signature(alg, raw)))
  {
    hide CanonicalBytes, ToDict, Hex, Of;
    raw := signer(CanonicalBytes(Obj(Members(f, Algorithm(alg)))).value).value;
    Regroup(ToDict(f).members, Algorithm(alg), [Keyed(SIGNATURE, Str(Hex(raw)))]);
  }

  lemma {:induction false} HexIsClean(b: Bytes)
    requires IsBytes(b)
    ensures SurrogateFree(Hex(b))
  {
    if b != [] {
      HexIsClean(b[1..]);
      CleanIffAllScalar(HexPair(b[0]));
      CleanConcat(HexPair(b[0]), Hex(b[1..]));
    }
  }

  lemma {:induction false} DumpableIsWellFormed(v: Json)
    requires Dumpable(v)
    ensures WellFormed(v)
    decreases v
  {
    match v
    case Arr(items) =>
      forall i | 0 <= i < |items| ensures WellFormed(items[i]) {
        ItemIsDumpable(items, i);
        DumpableIsWellFormed(items[i]);
      }
    case Obj(members) =>
      forall i | 0 <= i < |members| ensures WellFormed(members[i].value) {
        MemberIsDumpable(members, i);
        DumpableIsWellFormed(members[i].value);
      }
    case _ =>
  }

  lemma {:induction false} ItemIsDumpable(items: seq<Json>, i: nat)
    requires AllDumpable(items) && i < |items|
    ensures Dumpable(items[i])
  {
    hide Dumpable;
    if i > 0 {
      ItemIsDumpable(items[1..], i - 1);
    }
  }

  lemma {:induction false} MemberIsDumpable(members: seq<Member>, i: nat)
    requires MembersDumpable(members) && i < |members|
    ensures Points(members[i].key) && Dumpable(members[i].value)
  {
    hide Dumpable, Points;
    if i > 0 {
      MemberIsDumpable(members[1..], i - 1);
    }
  }

  lemma {:induction false} AllMembersDumpable(members: seq<Member>)
    requires forall i | 0 <= i < |members| :: Points(members[i].key) && Dumpable(members[i].value)
    ensures MembersDumpable(members)
  {
    hide Dumpable, Points;
    if members != [] {
      assert forall i | 0 <= i < |members[1..]| :: members[1..][i] == members[i + 1];
      AllMembersDumpable(members[1..]);
    }
  }

  /** The algorithm of a record that can be signed holds no surrogate. */
  lemma AlgorithmIsClean(f: Fields, alg: Text)
    requires CanonicalBytes(Obj(Members(f, Algorithm(alg)))).Ok?
    ensures SurrogateFree(alg)
  {
    hide CanonicalBytes, ToDict, SurrogateFree, Printable, Of;
    var ms := Members(f, Algorithm(alg));
    BytesIffCanonicalizable(Obj(ms));
    Names(f);
    assert ms[9] == Keyed(ALG, Str(alg)) && ms[9] in ms;
    MemberIsPrintable(ms, ms[9]);
  }

  /** A signed record, read back, is checked against the bytes that were signed and the very signature that the signer
      gave: the text between them changes neither. */
  lemma SignedVerifiesIff(f: Fields, signer: Signer, alg: Text, record: Json, check: Checker)
    requires Signed(f, signer, alg) == Ok(record) && Dumpable(record)
    ensures var bytes, entry := CanonicalBytes(Obj(Members(f, Algorithm(alg)))), ReadBack(record);
      && bytes.Ok? && signer(bytes.value).Some?
      && entry.Obj? && CanonicalBytes(Payload(entry)) == bytes
      && (SignatureOk(entry, check) <==>
          (check.expectedAlg.Some? ==> check.expectedAlg.value == alg) &&
          check.verify(bytes.value, signer(bytes.value).value))
  {
    hide CanonicalBytes, Get, Without, Of, Hex, FromHex, ToDict, ReadBack, Dumpable, WellFormed, Mapped, IsBytes;
    hide SurrogateFree, Joined;
    var raw := SignedIs(f, signer, alg, record);
    var signature := Hex(raw);
    var unsigned := Obj(Members(f, Algorithm(alg)));
    PayloadOfSigned(f, alg, signature);
    DumpableIsWellFormed(record);
    ChainRigidity.PayloadIsWellFormed(record);
    ReadBackPrintsAlike(unsigned);
    AlgorithmIsClean(f, alg);
    CleanIsJoined(alg);
    HexIsClean(raw);
    CleanIsJoined(signature);
    MappedTwo(alg, signature);
    RecordReadsBack(f, Algorithm(alg));
    RecordReadsBack(f, Signature(alg, raw));
    PayloadOfSigned(Back(f), alg, signature);
    HexRoundTrip(raw);
  }

  lemma MappedTwo(alg: Text, signature: Text)
    requires Joined(alg) == alg && Joined(signature) == signature
    ensures Mapped(Algorithm(alg)) == Algorithm(alg)
    ensures var both := Algorithm(alg) + [Keyed(SIGNATURE, Str(signature))]; Mapped(both) == both
  {
    hide Joined, Mapped;
  }

  // ---------- lines ----------

  /** One line of the file: it has no newline, ends in ink, loads as this entry with or without its newline, and no
      proper end of it loads. */
  ghost predicate EntryLine(line: Bytes, entry: Json) {
    && Log.NEWLINE !in line && line != [] && !Log.White(Last(line)) && entry.Obj?
    && LoadsBytes(line) == Some(entry) && LoadsBytes(line + [Log.NEWLINE]) == Some(entry)
    && forall p | 0 < p < |line| :: LoadsBytes(EndOf(line, p)) == None
  }

  function EndOf(line: Bytes, p: nat): Bytes
    requires p <= |line|
  {
    line[p..]
  }

  lemma EncodedIsLine(record: Json)
    requires Dumpable(record) && record.Obj?
    ensures EntryLine(Encoded(record), ReadBack(record))
  {
    hide Dumpable, LoadsBytes, ReadMembers, DumpMembers, Ascii;
    var line := Encoded(record);
    DumpIsAscii(record);
    AsciiIffAll(line);
    EncodedReadsBack(record);
    forall p | 0 < p < |line| ensures LoadsBytes(EndOf(line, p)) == None {
      EncodedCutNeverLoads(record, p);
    }
    assert Last(line) == CLOSE_BRACE;
  }

  // ---------- how long a line is ----------

  lemma {:induction false} BodyIsLonger(s: Text)
    ensures |BodyText(s)| >= |s|
  {
    if s != [] {
      hide UnitText;
      BodyIsLonger(s[1..]);
      UnitIsText(if s[0] < 0x1_0000 then s[0] else Units(s[0])[0]);
    }
  }

  lemma UnitIsText(u: CodeUnit)
    ensures 1 <= |UnitText(u)| <= 6
  {
  }

  lemma {:induction false} MemberIsShorter(members: seq<Member>, i: nat)
    requires i < |members|
    ensures |Dump(members[i].value)| <= |DumpMembers(members)|
  {
    hide Dump, Quoted;
    if i > 0 {
      MemberIsShorter(members[1..], i - 1);
    }
  }

  /** A record is at least as long as the id in it. */
  lemma RecordIsLonger(f: Fields, added: seq<Member>, id: Text)
    requires f.preExecId == Str(id)
    ensures |Encoded(Obj(Members(f, added)))| > |id|
  {
    hide ToDict, Of, DumpMembers, BodyText;
    Listed(f);
    var ms := Members(f, added);
    assert ms[4] == Keyed(PRE_EXEC_ID, Str(id));
    MemberIsShorter(ms, 4);
    BodyIsLonger(id);
  }

  lemma {:induction false} BodyIsAtMost(s: Text)
    ensures |BodyText(s)| <= 12 * |s|
  {
    if s != [] {
      hide UnitText;
      BodyIsAtMost(s[1..]);
      UnitIsText(Units(s[0])[0]);
      UnitIsText(if s[0] < 0x1_0000 then s[0] else Units(s[0])[1]);
    }
  }

  lemma FirstMemberLength(members: seq<Member>)
    requires members != []
    ensures |DumpMembers(members)| <=
      |BodyText(members[0].key)| + |Dump(members[0].value)| + |DumpMembers(members[1..])| + 4
  {
    hide Dump, BodyText;
  }

  lemma {:induction false} MembersAreAtMost(members: seq<Member>, n: nat)
    requires forall i | 0 <= i < |members| :: |members[i].key| <= 18 && |Dump(members[i].value)| <= n
    ensures |DumpMembers(members)| <= |members| * (n + 220)
  {
    hide Dump, BodyText, DumpMembers;
    if members == [] {
      NoMembers();
    } else {
      assert forall i | 0 <= i < |members[1..]| :: members[1..][i] == members[i + 1];
      MembersAreAtMost(members[1..], n);
      BodyIsAtMost(members[0].key);
      FirstMemberLength(members);
      OneMoreTimes(|members| - 1, n + 220);
    }
  }

  lemma NoMembers()
    ensures DumpMembers([]) == []
  {
  }

  lemma OneMoreTimes(k: nat, x: nat)
    ensures (k + 1) * x == k * x + x
  {
  }

  lemma RecordIsAtMost(f: Fields, n: nat)
    requires |ToDict(f).members| == 9 && forall i | 0 <= i < 9 :: |Dump(ToDict(f).members[i].value)| <= n
    ensures |Encoded(ToDict(f))| <= 9 * (n + 220) + 2
  {
    hide ToDict, Of, Dump, DumpMembers;
    NameLengths();
    Listed(f);
    var ms := ToDict(f).members;
    MembersAreAtMost(ms, n);
    ObjectLength(ms);
  }

  lemma ObjectLength(members: seq<Member>)
    ensures |Dump(Obj(members))| == |DumpMembers(members)| + 2
  {
    hide DumpMembers;
  }
}

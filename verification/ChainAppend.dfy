/** Which appends make a chain that verifies. */
module ChainAppend {
  // The book is the bytes of the file: every append reads its tail back from JSON, and so does every verification.

  import opened Prelude
  import opened Texts
  import opened Decimals
  import opened Json
  import opened Jcs
  import opened JsonParser
  import opened JsonDump
  import JcsNumber
  import opened HashChain
  import opened ChainRigidity
  import opened LedgerLines
  import Log = AppendLog
  import WP = WriterProtocol

  datatype Op = Append(fields: Fields, signer: Option<Signer>, alg: Text, now: Text)

  /** The record that is appended after a given entry. */
  function RecordAfter(env: Env, op: Op, previous: Option<Json>): Result<Json, LedgerError> {
    AppendedAfter(env, op.fields, op.signer, op.alg, op.now, previous)
  }

  /** `append` on the lines of the file, as the rule of a book; the time is already in `now`. */
  function Rule(env: Env): (Op, seq<Bytes>, int) -> Result<Bytes, LedgerError> {
    (op: Op, lines: seq<Bytes>, time: int) =>
      match Log.TailOf(Log.Written(lines), TAIL_WINDOW)
      case Err(e) => Err(LogRaised(e))
      case Ok(last) =>
        match Appended(env, op.fields, op.signer, op.alg, op.now, last)
        case Err(e) => Err(e)
        case Ok(record) => Ok(Encoded(record))
  }

  /** What a verifier reads from a file of these lines. */
  function Entries(lines: seq<Bytes>): seq<Json> {
    match EntriesOf(Log.Written(lines)) case Ok(entries) => entries case Err(_) => []
  }

  function Previous(entries: seq<Json>): Option<Json> {
    if entries == [] then None else Some(Last(entries))
  }

  // ---------- the lines of a file ----------

  /** Every line of the file is the line of the entry read from it. */
  ghost predicate LinesOf(lines: seq<Bytes>, entries: seq<Json>) {
    && |lines| == |entries| && EntriesOf(Log.Written(lines)) == Ok(entries)
    && forall i | 0 <= i < |lines| :: EntryLine(lines[i], entries[i])
  }

  lemma NoLines()
    ensures LinesOf([], [])
  {
  }

  lemma OneMoreLine(lines: seq<Bytes>, entries: seq<Json>, line: Bytes, entry: Json)
    requires LinesOf(lines, entries) && EntryLine(line, entry)
    ensures LinesOf(lines + [line], entries + [entry])
  {
    hide LoadsBytes, LoadAll;
    LinesAreWhole(lines, entries);
    LinesAreWhole([line], [entry]);
    var all := lines + [line];
    assert Log.OneLineEach(all);
    Log.WrittenReadsBack(lines);
    Log.WrittenReadsBack(all);
    TerminateConcat(lines, line);
    LoadAllConcat(Log.Terminate(lines), [line + [Log.NEWLINE]], 1);
    LoadOne(line + [Log.NEWLINE], entry, 1 + |Log.Terminate(lines)|);
  }

  lemma LoadOne(line: Bytes, entry: Json, number: nat)
    requires LoadsBytes(line) == Some(entry)
    ensures LoadAll([line], number) == Ok([entry])
  {
    hide LoadsBytes;
    assert [line][1..] == [] && LoadAll([], number + 1) == Ok([]);
    assert [entry] + [] == [entry];
  }

  lemma LinesAreWhole(lines: seq<Bytes>, entries: seq<Json>)
    requires |lines| == |entries| && forall i | 0 <= i < |lines| :: EntryLine(lines[i], entries[i])
    ensures Log.OneLineEach(lines)
  {
    hide LoadsBytes;
    forall r | r in lines ensures Log.NEWLINE !in r && !Log.Blank(r) {
      var i :| 0 <= i < |lines| && lines[i] == r;
      assert EntryLine(lines[i], entries[i]);
      Log.InkIsNotBlank(r, []);
      assert r + [] == r;
    }
  }

  lemma {:induction false} TerminateConcat(lines: seq<Bytes>, line: Bytes)
    ensures Log.Terminate(lines + [line]) == Log.Terminate(lines) + [line + [Log.NEWLINE]]
  {
    if lines == [] {
      assert lines + [line] == [line] && [line][1..] == [];
    } else {
      assert (lines + [line])[0] == lines[0] && (lines + [line])[1..] == lines[1..] + [line];
      TerminateConcat(lines[1..], line);
    }
  }

  /** Whatever stands before it, a line that fits the window is read back as its entry; of a longer one the end is
      read, which is not JSON. */
  lemma RuleAfter(env: Env, lines: seq<Bytes>, line: Bytes, entry: Json, op: Op, time: int)
    requires EntryLine(line, entry)
    ensures Rule(env)(op, lines + [line], time) ==
      if |line| >= TAIL_WINDOW then Err(NotJson)
      else match RecordAfter(env, op, Some(entry)) case Err(e) => Err(e) case Ok(record) => Ok(Encoded(record))
  {
    hide LoadsBytes, AppendedAfter, Encoded, Log.TailOf, Log.Written;
    var all := lines + [line];
    assert Last(all) == line;
    if |line| >= TAIL_WINDOW {
      Log.WrittenTailIsCut(all, TAIL_WINDOW);
      assert LoadsBytes(EndOf(line, |line| + 1 - TAIL_WINDOW)) == None;
    } else {
      Log.InkIsNotBlank(line, []);
      assert line + [] == line;
      Log.WrittenTail(all, TAIL_WINDOW);
    }
  }

  lemma RuleAtStart(env: Env, op: Op, time: int)
    ensures Rule(env)(op, [], time) ==
      match RecordAfter(env, op, None) case Err(e) => Err(e) case Ok(record) => Ok(Encoded(record))
  {
    hide AppendedAfter, Encoded;
    assert Log.Written([]) == [] && Log.TailOf([], TAIL_WINDOW) == Ok(None);
  }

  /** What `append` does to the file of these lines is the file of the lines that the rule gives. */
  lemma FileAfter(env: Env, lines: seq<Bytes>, op: Op, time: int)
    ensures var r := Rule(env)(op, lines, time);
      Log.Written(lines) + (if r.Ok? then r.value + [Log.NEWLINE] else []) ==
      Log.Written(if r.Ok? then lines + [r.value] else lines)
  {
    hide Rule;
    var r := Rule(env)(op, lines, time);
    if r.Ok? {
      Log.WrittenConcat(lines, [r.value]);
      assert [r.value][1..] == [] && Log.Written([r.value]) == r.value + [Log.NEWLINE] + [];
    } else {
      assert Log.Written(lines) + [] == Log.Written(lines);
    }
  }

  /** A record that is written is an object that can be. */
  lemma RecordIsObject(env: Env, op: Op, previous: Option<Json>)
    requires RecordAfter(env, op, previous).Ok?
    ensures RecordAfter(env, op, previous).value.Obj? && Dumpable(RecordAfter(env, op, previous).value)
  {
    hide PlacedAfter, CanonicalBytes, Dumpable;
  }

  // ---------- histories ----------

  /** The file of any history reads back line by line, and each line is the record for what was read before it. */
  lemma {:induction false} HistoryReads(env: Env, h: WP.History<Op, Bytes>, now: int)
    requires WP.Valid(Rule(env), h, now)
    ensures LinesOf(WP.Lines(h), Entries(WP.Lines(h)))
    decreases h
  {
    match h
    case Start => NoLines();
    case Then(before, op, time, line) =>
      hide Rule, Entries, LinesOf, AppendedAfter;
      HistoryReads(env, before, time);
      var record := LineIsRecord(env, h, now);
      hide Encoded, ReadBack, EntryLine;
      OneMoreLine(WP.Lines(before), Entries(WP.Lines(before)), line, ReadBack(record));
      EntriesAre(WP.Lines(h), Entries(WP.Lines(before)) + [ReadBack(record)]);
  }

  lemma EntriesAre(lines: seq<Bytes>, entries: seq<Json>)
    requires LinesOf(lines, entries)
    ensures Entries(lines) == entries
  {
    hide EntriesOf;
  }

  /** The record that the last line of a history was written for. */
  lemma LineIsRecord(env: Env, h: WP.History<Op, Bytes>, now: int) returns (record: Json)
    requires WP.Valid(Rule(env), h, now) && h.Then?
    requires LinesOf(WP.Lines(h.before), Entries(WP.Lines(h.before)))
    ensures RecordAfter(env, h.op, Previous(Entries(WP.Lines(h.before)))) == Ok(record)
    ensures record.Obj? && Dumpable(record) && h.line == Encoded(record) && EntryLine(h.line, ReadBack(record))
  {
    hide Rule, Entries, EntriesOf, AppendedAfter, Encoded, ReadBack, EntryLine;
    var lines := WP.Lines(h.before);
    var entries := Entries(lines);
    if lines == [] {
      RuleAtStart(env, h.op, h.time);
    } else {
      var last := |lines| - 1;
      assert lines == lines[..last] + [lines[last]] && EntryLine(lines[last], entries[last]);
      RuleAfter(env, lines[..last], lines[last], entries[last], h.op, h.time);
    }
    record := RecordAfter(env, h.op, Previous(entries)).value;
    RecordIsObject(env, h.op, Previous(entries));
    EncodedIsLine(record);
  }

  /** One more line, one more entry: the record read back. */
  lemma HistoryGrows(env: Env, h: WP.History<Op, Bytes>, now: int) returns (record: Json)
    requires WP.Valid(Rule(env), h, now) && h.Then?
    ensures RecordAfter(env, h.op, Previous(Entries(WP.Lines(h.before)))) == Ok(record)
    ensures record.Obj? && Dumpable(record) && h.line == Encoded(record) && EntryLine(h.line, ReadBack(record))
    ensures Entries(WP.Lines(h)) == Entries(WP.Lines(h.before)) + [ReadBack(record)]
    ensures EntriesOf(Log.Written(WP.Lines(h))).Ok? && |Entries(WP.Lines(h.before))| == |WP.Lines(h.before)|
  {
    hide Rule, Entries, EntriesOf, AppendedAfter, Encoded, ReadBack, EntryLine;
    HistoryReads(env, h.before, h.time);
    HistoryReads(env, h, now);
    record := LineIsRecord(env, h, now);
    OneMoreLine(WP.Lines(h.before), Entries(WP.Lines(h.before)), h.line, ReadBack(record));
    EntriesAre(WP.Lines(h), Entries(WP.Lines(h.before)) + [ReadBack(record)]);
  }

  // ---------- one append ----------

  /** The digest is printed in plain characters, as hexadecimal is. */
  ghost predicate CleanDigests(env: Env) {
    forall b :: SurrogateFree(env.sha(b))
  }

  /** Every field the caller supplies can be canonicalized once its surrogate pairs are joined, and so can the
      position. */
  ghost predicate Plain(op: Op, position: nat) {
    var f := Back(op.fields);
    && SurrogateFree(f.ledgerVersion) && SurrogateFree(Joined(op.now)) && SafeInteger(position)
    && Canonicalizable(f.preExecId) && Canonicalizable(f.preExecDigest) && Canonicalizable(f.receiptDigest)
    && Canonicalizable(f.moduleSha256) && Canonicalizable(f.configFingerprint)
  }

  /** What the signer is asked to sign when the entry is appended to this book. */
  function ToSign(env: Env, op: Op, book: seq<Json>): Result<Bytes, JcsError> {
    CanonicalBytes(Obj(Members(PlacedAfter(env, op.fields, Previous(book), op.now).0, Algorithm(op.alg))))
  }

  /** The verifier pins no other algorithm and accepts what this signer answers to those bytes. */
  predicate Trusts(env: Env, check: Checker, op: Op, signer: Signer, book: seq<Json>) {
    && (check.expectedAlg.Some? ==> check.expectedAlg.value == op.alg)
    && var bytes := ToSign(env, op, book);
       bytes.Ok? && signer(bytes.value).Some? && check.verify(bytes.value, signer(bytes.value).value)
  }

  /** What an entry must be, before it is appended, for the chain to go on: of the known version and, unsigned, plain
      where no signature is asked for, or, signed, by a signer the verifier trusts. */
  ghost predicate Fit(env: Env, check: Option<Checker>, op: Op, book: seq<Json>) {
    && op.fields.ledgerVersion == V1
    && match op.signer
       case None => check.None? && Plain(op, |book|)
       case Some(signer) => check.Some? ==> Trusts(env, check.value, op, signer, book)
  }

  /** A record of the fields read back can be digested exactly when they can be canonicalized. */
  lemma UnsignedDigestsIff(env: Env, op: Op, position: nat, seal: Text)
    requires SurrogateFree(seal)
    ensures var entry := ReadBack(ToDict(At(op.fields, position, seal, op.now)));
      && entry == ToDict(Back(At(op.fields, position, seal, op.now)))
      && (EntryDigest(env, entry).Ok? <==> Plain(op, position))
      && CanonicalBytes(Payload(entry)).Ok? == EntryDigest(env, entry).Ok?
      && Field(entry, SIGNATURE) == None
  {
    hide Of, ToDict, SurrogateFree, Without, Get, Canonicalizable, Printable, ReadBack, Joined;
    var f := At(op.fields, position, seal, op.now);
    var ms := ToDict(Back(f)).members;
    RecordReadsBack(f, []);
    assert Members(f, []) == ToDict(f).members && Members(Back(f), []) == ms && Mapped([]) == [];
    CleanIsJoined(seal);
    Names(Back(f));
    Listed(Back(f));
    Absent(ms, SIGNATURE);
    assert ToDict(Back(f)) == Obj(ms) && Payload(ToDict(Back(f))) == Obj(ms);
    KeysAreClean();
    JcsSucceedsIff(Obj(ms));
    PrintableNine(ms);
    forall i | 0 <= i < 9 ensures PrintableParts(ms[i]) {
      PrintableIs(ms[i]);
    }
  }

  /** What makes a member printable, for the kinds of values a record has of its own. */
  ghost predicate PrintableParts(m: Member) {
    && (Printable(m) <==> SurrogateFree(m.key) && Canonicalizable(m.value))
    && (m.value.Str? ==> (Canonicalizable(m.value) <==> SurrogateFree(m.value.s)))
    && (m.value.Int? ==> (Canonicalizable(m.value) <==> SafeInteger(m.value.n)))
  }

  lemma PrintableIs(m: Member)
    ensures PrintableParts(m)
  {
  }

  lemma PrintableNine(ms: seq<Member>)
    requires |ms| == 9
    ensures Canonicalizable(Obj(ms)) <==>
      && Printable(ms[0]) && Printable(ms[1]) && Printable(ms[2]) && Printable(ms[3]) && Printable(ms[4])
      && Printable(ms[5]) && Printable(ms[6]) && Printable(ms[7]) && Printable(ms[8])
  {
    hide Printable;
  }

  lemma PlacedNext(env: Env, check: Option<Checker>, f: Fields, now: Text, book: seq<Json>)
    requires book == [] || Accepted(env, check, book)
    ensures Digestible(book)
    ensures PlacedAfter(env, f, Previous(book), now) == (At(f, |book|, Seals(env, book, |book|, GENESIS), now), None)
  {
    hide CanonicalBytes, Get, SignatureOk, BreakFrom, IntOf, EqualsInt;
    if book != [] {
      AcceptedAt(env, check, book, 0, GENESIS, |book| - 1);
      PositionOf(env, Field(book[|book| - 1], SEQUENCE), |book| - 1);
    }
  }

  lemma SealIsClean(env: Env, book: seq<Json>)
    requires CleanDigests(env) && Digestible(book)
    ensures SurrogateFree(Seals(env, book, |book|, GENESIS))
  {
    ZerosAreClean(64);
  }

  /** A version read back is the known one exactly when it was written. */
  lemma JoinedVersion(version: Text)
    ensures Joined(version) == V1 <==> version == V1
  {
    KeysAreClean();
    CleanIsJoined(V1);
    if Joined(version) == V1 {
      hide Of;
      NoPairInVersion(Utf16(version));
      PointsOfUnits(version);
    }
  }

  lemma NoPairInVersion(u: seq<CodeUnit>)
    requires FromUtf16(u) == V1
    ensures u == V1
  {
    assert V1 == [0x76, 0x31] by {
      assert V1[0] == 'v' as int && V1[1] == '1' as int;
    }
    var rest := FirstPoint(u).1;
    assert FromUtf16(u)[0] == FirstPoint(u).0 && FromUtf16(u)[1..] == FromUtf16(rest) == [0x31];
    var end := FirstPoint(rest).1;
    assert FromUtf16(rest)[0] == FirstPoint(rest).0 && FromUtf16(rest)[1..] == FromUtf16(end) == [];
    assert u == [0x76] + rest && rest == [0x31] + end && end == [];
  }

  lemma PointsOfUnits(s: Text)
    requires Utf16(s) == V1
    ensures s == V1
  {
    assert V1 == [0x76, 0x31] by {
      assert V1[0] == 'v' as int && V1[1] == '1' as int;
    }
    assert Utf16(s)[0] == Units(s[0])[0];
    assert Utf16(s)[1..] == Utf16(s[1..]);
    assert Utf16(s[1..])[0] == Units(s[1..][0])[0];
    assert Utf16(s[1..])[1..] == Utf16(s[1..][1..]);
    assert s == [s[0]] + s[1..] && s[1..] == [s[1]] + s[1..][1..];
  }

  /** What a written record was made of. */
  lemma RecordParts(env: Env, op: Op, previous: Option<Json>) returns (f: Fields, added: seq<Member>)
    requires RecordAfter(env, op, previous).Ok?
    ensures PlacedAfter(env, op.fields, previous, op.now) == (f, None) && Added(added)
    ensures RecordAfter(env, op, previous).value == Obj(Members(f, added))
    ensures Record(f, op.signer, op.alg) == RecordAfter(env, op, previous)
  {
    hide PlacedAfter, CanonicalBytes, Dumpable, ToDict, Of;
    f := PlacedAfter(env, op.fields, previous, op.now).0;
    added := [];
    assert Members(f, []) == ToDict(f).members;
    if op.signer.Some? {
      var raw := SignedIs(f, op.signer.value, op.alg, RecordAfter(env, op, previous).value);
      added := Signature(op.alg, raw);
    }
  }

  /** Digesting and, when asked for, the signature of the next entry come down to the entry being fit. */
  lemma NextIsFit(env: Env, check: Option<Checker>, op: Op, book: seq<Json>)
    requires CleanDigests(env) && (book == [] || Accepted(env, check, book))
    requires RecordAfter(env, op, Previous(book)).Ok?
    ensures var entry := ReadBack(RecordAfter(env, op, Previous(book)).value);
      && entry.Obj?
      && (Fit(env, check, op, book) <==>
          && op.fields.ledgerVersion == V1 && CanonicalBytes(Payload(entry)).Ok?
          && (check.Some? ==> SignatureOk(entry, check.value)))
  {
    hide CanonicalBytes, PlacedAfter, Accepted, ReadBack, AppendedAfter, Plain, SignatureOk, Trusts;
    PlacedNext(env, check, op.fields, op.now, book);
    SealIsClean(env, book);
    var seal := Seals(env, book, |book|, GENESIS);
    match op.signer
    case None => UnsignedIsPlain(env, op, book, seal, check);
    case Some(signer) => SignedIsTrusted(env, check, op, signer, book, At(op.fields, |book|, seal, op.now));
  }

  lemma UnsignedIsPlain(env: Env, op: Op, book: seq<Json>, seal: Text, check: Option<Checker>)
    requires PlacedAfter(env, op.fields, Previous(book), op.now) == (At(op.fields, |book|, seal, op.now), None)
    requires SurrogateFree(seal) && op.signer.None? && RecordAfter(env, op, Previous(book)).Ok?
    ensures var entry := ReadBack(RecordAfter(env, op, Previous(book)).value);
      && entry.Obj? && (CanonicalBytes(Payload(entry)).Ok? <==> Plain(op, |book|))
      && (check.Some? ==> !SignatureOk(entry, check.value))
  {
    hide CanonicalBytes, Get, PlacedAfter, Of, ToDict, ReadBack, Dumpable, Plain, SignatureOk;
    UnsignedDigestsIff(env, op, |book|, seal);
    if check.Some? {
      UnsignedDoesNotVerify(ReadBack(RecordAfter(env, op, Previous(book)).value), check.value);
    }
  }

  lemma UnsignedDoesNotVerify(entry: Json, check: Checker)
    requires Field(entry, SIGNATURE) == None
    ensures !SignatureOk(entry, check)
  {
  }

  lemma SignedIsTrusted(
    env: Env, check: Option<Checker>, op: Op, signer: Signer, book: seq<Json>, placed: Fields)
    requires PlacedAfter(env, op.fields, Previous(book), op.now) == (placed, None) && op.signer == Some(signer)
    requires RecordAfter(env, op, Previous(book)).Ok?
    ensures var entry := ReadBack(RecordAfter(env, op, Previous(book)).value);
      && entry.Obj? && CanonicalBytes(Payload(entry)).Ok?
      && (check.Some? ==> (SignatureOk(entry, check.value) <==> Trusts(env, check.value, op, signer, book)))
  {
    hide CanonicalBytes, PlacedAfter, ReadBack, Dumpable, SignatureOk, Signed;
    SignedVerifiesIff(placed, signer, op.alg, RecordAfter(env, op, Previous(book)).value,
                      if check.Some? then check.value else Checker((m, s) => true, None));
  }

  /** The next entry holds its version, its place and its seal. */
  lemma NextHolds(env: Env, check: Option<Checker>, op: Op, book: seq<Json>)
    requires CleanDigests(env) && (book == [] || Accepted(env, check, book))
    requires RecordAfter(env, op, Previous(book)).Ok?
    ensures Digestible(book)
    ensures var entry := ReadBack(RecordAfter(env, op, Previous(book)).value);
      && Field(entry, LEDGER_VERSION) == Some(Str(Joined(op.fields.ledgerVersion)))
      && Field(entry, SEQUENCE) == Some(Int(|book|))
      && Field(entry, PREV_HASH) == Some(Str(Seals(env, book, |book|, GENESIS)))
  {
    hide CanonicalBytes, Get, PlacedAfter, ReadBack, AppendedAfter, Accepted, Mapped, Joined, ToDict, Of, CleanDigests;
    PlacedNext(env, check, op.fields, op.now, book);
    SealIsClean(env, book);
    CleanIsJoined(Seals(env, book, |book|, GENESIS));
    var f, added := RecordParts(env, op, Previous(book));
    RecordReadsBack(f, added);
    BackFields(Back(f), Mapped(added));
  }

  /** One append carries an accepted chain on exactly when the entry was fit for it. */
  lemma OneAppend(env: Env, check: Option<Checker>, op: Op, book: seq<Json>)
    requires CleanDigests(env) && (book == [] || Accepted(env, check, book))
    requires RecordAfter(env, op, Previous(book)).Ok?
    ensures Accepted(env, check, book + [ReadBack(RecordAfter(env, op, Previous(book)).value)]) <==>
      Fit(env, check, op, book)
  {
    hide CanonicalBytes, Get, SignatureOk, BreakFrom, AppendedAfter, Fit, ReadBack, Joined, CleanDigests;
    var entry := ReadBack(RecordAfter(env, op, Previous(book)).value);
    NextHolds(env, check, op, book);
    JoinedVersion(op.fields.ledgerVersion);
    NextIsFit(env, check, op, book);
    BreakAtEnd(env, check, book, entry, 0, GENESIS);
    EmptyUnbroken(env, check);
  }

  lemma EmptyUnbroken(env: Env, check: Option<Checker>)
    ensures BreakFrom(env, check, [], 0, GENESIS) == Ok(None)
  {
  }

  // ---------- every run ----------

  ghost predicate AllFit(env: Env, check: Option<Checker>, h: WP.History<Op, Bytes>) {
    match h
    case Start => true
    case Then(before, op, _, _) => AllFit(env, check, before) && Fit(env, check, op, Entries(WP.Lines(before)))
  }

  /** After any run of any writers every line of the file loads, and the entries are a chain that verifies exactly when
      every one of them was fit. */
  lemma {:induction false} RunsFormChains(env: Env, check: Option<Checker>, h: WP.History<Op, Bytes>, now: int)
    requires CleanDigests(env) && WP.Valid(Rule(env), h, now)
    ensures EntriesOf(Log.Written(WP.Lines(h))) == Ok(Entries(WP.Lines(h))) && |Entries(WP.Lines(h))| == |WP.Lines(h)|
    ensures h.Then? ==> (Accepted(env, check, Entries(WP.Lines(h))) <==> AllFit(env, check, h))
  {
    hide Rule, Accepted, Fit, CleanDigests, EntryLine, EntriesOf, Entries, AppendedAfter, ReadBack, Encoded;
    HistoryReads(env, h, now);
    match h
    case Start =>
    case Then(before, op, time, line) =>
      RunsFormChains(env, check, before, time);
      var record := HistoryGrows(env, h, now);
      var book := Entries(WP.Lines(before));
      if before.Start? || Accepted(env, check, book) {
        OneAppend(env, check, op, book);
      } else {
        BrokenStaysBroken(env, check, book, ReadBack(record));
      }
  }

  lemma BrokenStaysBroken(env: Env, check: Option<Checker>, book: seq<Json>, entry: Json)
    requires book != [] && !Accepted(env, check, book)
    ensures !Accepted(env, check, book + [entry])
  {
    hide CanonicalBytes, EntryBreak, BreakFrom;
    BreakAtEnd(env, check, book, entry, 0, GENESIS);
  }

  /** An entry of the known version signed by a signer the verifier accepts, under the pinned algorithm, is fit for
      every chain it can be appended to. */
  lemma SignedIsFit(env: Env, check: Checker, op: Op, book: seq<Json>)
    requires RecordAfter(env, op, Previous(book)).Ok? && op.fields.ledgerVersion == V1 && op.signer.Some?
    requires check.expectedAlg.Some? ==> check.expectedAlg.value == op.alg
    requires forall m :: op.signer.value(m).Some? ==> check.verify(m, op.signer.value(m).value)
    ensures Fit(env, Some(check), op, book) && Fit(env, None, op, book)
  {
    hide CanonicalBytes, PlacedAfter, Dumpable;
  }

  // ---------- when a ledger is stuck ----------

  /** What a written record holds when it is read back. */
  lemma RecordIsPlaced(env: Env, op: Op, previous: Option<Json>) returns (f: Fields)
    requires RecordAfter(env, op, previous).Ok?
    ensures PlacedAfter(env, op.fields, previous, op.now) == (f, None)
    ensures ReadBack(RecordAfter(env, op, previous).value).Obj?
    ensures Field(ReadBack(RecordAfter(env, op, previous).value), SEQUENCE) == Some(Int(f.sequence))
  {
    hide AppendedAfter, PlacedAfter, Record, Get, ReadBack, Mapped, Joined, ToDict, Of;
    var added: seq<Member>;
    f, added := RecordParts(env, op, previous);
    RecordReadsBack(f, added);
    BackFields(Back(f), Mapped(added));
  }

  /** Where the next entry goes. */
  lemma PlacedIs(env: Env, f: Fields, previous: Option<Json>, now: Text, position: nat)
    requires CleanDigests(env) && PlacedAfter(env, f, previous, now).1.None?
    requires if position == 0 then previous.None?
      else previous.Some? && previous.value.Obj? && Field(previous.value, SEQUENCE) == Some(Int(position - 1))
    ensures var placed := PlacedAfter(env, f, previous, now).0;
      placed == At(f, position, placed.prevHash, now) && SurrogateFree(placed.prevHash)
  {
    hide EntryDigest, Get, SurrogateFree, CleanDigests;
    ZerosAreClean(64);
    if previous.Some? {
      DigestIsClean(env, previous.value);
    }
  }

  /** Every written record is read back with its place, whatever else it holds, and was given a seal in plain
      characters. */
  lemma {:induction false} EntryIsPlaced(env: Env, h: WP.History<Op, Bytes>, now: int) returns (seal: Text)
    requires CleanDigests(env) && WP.Valid(Rule(env), h, now) && h.Then?
    ensures var position, entries := |WP.Lines(h.before)|, Entries(WP.Lines(h));
      && entries != [] && Last(entries).Obj? && EntryLine(h.line, Last(entries))
      && Field(Last(entries), SEQUENCE) == Some(Int(position))
      && SurrogateFree(seal)
      && PlacedAfter(env, h.op.fields, Previous(Entries(WP.Lines(h.before))), h.op.now) ==
         (At(h.op.fields, position, seal, h.op.now), None)
  {
    hide Rule, Entries, EntriesOf, EntryLine, AppendedAfter, PlacedAfter, Get, CleanDigests, Encoded, ReadBack;
    hide Dumpable, SurrogateFree;
    var record := HistoryGrows(env, h, now);
    var previous := Previous(Entries(WP.Lines(h.before)));
    var f := RecordIsPlaced(env, h.op, previous);
    seal := f.prevHash;
    if h.before.Then? {
      var s := EntryIsPlaced(env, h.before, h.time);
    }
    PlacedIs(env, h.op.fields, previous, h.op.now, |WP.Lines(h.before)|);
  }

  lemma DigestIsClean(env: Env, entry: Json)
    requires CleanDigests(env) && entry.Obj?
    ensures EntryDigest(env, entry).Ok? ==> SurrogateFree(EntryDigest(env, entry).value)
  {
    hide CanonicalBytes;
  }

  /** The next append gets past a line: line and newline fit the window, and the entry read from it can be digested. */
  predicate GoesOn(env: Env, line: Bytes) {
    && |line| + 1 <= TAIL_WINDOW
    && LoadsBytes(line).Some? && LoadsBytes(line).value.Obj? && EntryDigest(env, LoadsBytes(line).value).Ok?
  }

  /** The entry holds what Python can, and nothing too long to print. */
  predicate Writable(op: Op, position: nat) {
    && Dumpable(op.fields.preExecId) && Dumpable(op.fields.preExecDigest) && Dumpable(op.fields.receiptDigest)
    && Dumpable(op.fields.moduleSha256) && Dumpable(op.fields.configFingerprint)
    && Points(op.fields.ledgerVersion) && Points(op.now) && |Digits(position)| <= MAX_INT_DIGITS
  }

  lemma WritableIff(op: Op, position: nat, seal: Text)
    requires SurrogateFree(seal)
    ensures Dumpable(ToDict(At(op.fields, position, seal, op.now))) <==> Writable(op, position)
  {
    hide Of, ToDict, Points, Digits, SurrogateFree, Dumpable;
    var f := At(op.fields, position, seal, op.now);
    var ms := ToDict(f).members;
    Listed(f);
    MembersAreDistinct(f, []);
    assert Members(f, []) == ms;
    CleanIsPoints(seal);
    KeysArePoints();
    NineDumpable(ms);
    TextDumpableIff(op.fields.ledgerVersion);
    TextDumpableIff(op.now);
    TextDumpableIff(seal);
    IntDumpableIff(position);
  }

  lemma TextDumpableIff(s: Text)
    ensures Dumpable(Str(s)) <==> Points(s)
  {
    hide Points;
  }

  lemma IntDumpableIff(n: nat)
    ensures Dumpable(Int(n)) <==> |Digits(n)| <= MAX_INT_DIGITS
  {
    hide Digits;
  }

  lemma NineDumpable(ms: seq<Member>)
    requires |ms| == 9 && DistinctKeys(ms) && forall i | 0 <= i < 9 :: Points(ms[i].key)
    ensures Dumpable(Obj(ms)) <==>
      && Dumpable(ms[0].value) && Dumpable(ms[1].value) && Dumpable(ms[2].value) && Dumpable(ms[3].value)
      && Dumpable(ms[4].value) && Dumpable(ms[5].value) && Dumpable(ms[6].value) && Dumpable(ms[7].value)
      && Dumpable(ms[8].value)
  {
    hide Dumpable, Points, MembersDumpable;
    ObjectDumpableIff(ms);
    if MembersDumpable(ms) {
      forall i | 0 <= i < 9 ensures Dumpable(ms[i].value) {
        MemberIsDumpable(ms, i);
      }
    }
    if forall i | 0 <= i < 9 :: Dumpable(ms[i].value) {
      AllMembersDumpable(ms);
    }
  }

  lemma ObjectDumpableIff(members: seq<Member>)
    ensures Dumpable(Obj(members)) <==> DistinctKeys(members) && MembersDumpable(members)
  {
    hide DistinctKeys, MembersDumpable;
  }

  lemma KeysArePoints()
    ensures Points(LEDGER_VERSION) && Points(SEQUENCE) && Points(APPENDED_AT) && Points(PREV_HASH)
    ensures Points(PRE_EXEC_ID) && Points(PRE_EXEC_DIGEST) && Points(RECEIPT_DIGEST) && Points(MODULE_SHA256)
    ensures Points(CONFIG_FINGERPRINT)
  {
    hide Of, SurrogateFree, Points;
    KeysAreClean();
    CleanIsPoints(LEDGER_VERSION);
    CleanIsPoints(SEQUENCE);
    CleanIsPoints(APPENDED_AT);
    CleanIsPoints(PREV_HASH);
    CleanIsPoints(PRE_EXEC_ID);
    CleanIsPoints(PRE_EXEC_DIGEST);
    CleanIsPoints(RECEIPT_DIGEST);
    CleanIsPoints(MODULE_SHA256);
    CleanIsPoints(CONFIG_FINGERPRINT);
  }

  /** In every history an append goes on only when the last record with its newline fits the window and can be digested
      as it is read back; an unsigned append of what can be written then always does. */
  lemma AppendsGoOnIff(env: Env, h: WP.History<Op, Bytes>, now: int, op: Op, time: int)
    requires CleanDigests(env) && WP.Valid(Rule(env), h, now) && h.Then?
    ensures Rule(env)(op, WP.Lines(h), time).Ok? ==> GoesOn(env, Last(WP.Lines(h)))
    ensures op.signer.None? ==>
      (Rule(env)(op, WP.Lines(h), time).Ok? <==>
       GoesOn(env, Last(WP.Lines(h))) && Writable(op, |WP.Lines(h)|))
  {
    hide Rule, Entries, EntryDigest, Get, Signed, LoadsBytes, Writable, Dumpable, ToDict, CleanDigests;
    var seal := EntryIsPlaced(env, h, now);
    var entry := Last(Entries(WP.Lines(h)));
    RuleAfter(env, WP.Lines(h.before), h.line, entry, op, time);
    if EntryDigest(env, entry).Ok? {
      DigestIsClean(env, entry);
      WritableIff(op, |WP.Lines(h)|, EntryDigest(env, entry).value);
    }
  }

  /** The last record lets the next append go on exactly when its line with the newline fits the window and it is signed
      or plain: signing canonicalizes first. */
  lemma StuckIff(env: Env, h: WP.History<Op, Bytes>, now: int)
    requires CleanDigests(env) && WP.Valid(Rule(env), h, now) && h.Then?
    ensures GoesOn(env, Last(WP.Lines(h))) <==>
      |h.line| + 1 <= TAIL_WINDOW && (h.op.signer.Some? || Plain(h.op, |WP.Lines(h.before)|))
  {
    hide Rule, CanonicalBytes, Get, Plain, ToDict, Signed, LoadsBytes, Entries, EntriesOf, ReadBack, Dumpable, Encoded;
    hide PlacedAfter;
    var seal := EntryIsPlaced(env, h, now);
    var record := HistoryGrows(env, h, now);
    var position := |WP.Lines(h.before)|;
    var f := At(h.op.fields, position, seal, h.op.now);
    if h.op.signer.None? {
      UnsignedDigestsIff(env, h.op, position, seal);
    } else {
      SignedVerifiesIff(f, h.op.signer.value, h.op.alg, record, Checker((m, s) => true, None));
    }
  }

  /** A line that the window cuts, whoever wrote it and whatever stands before it, ends the ledger: a run id of the
      window's length is enough. */
  lemma LongIdSticks(env: Env, h: WP.History<Op, Bytes>, now: int, id: Text)
    requires WP.Valid(Rule(env), h, now) && h.Then?
    requires h.op.fields.preExecId == Str(id) && |id| >= TAIL_WINDOW
    ensures forall op, time :: Rule(env)(op, WP.Lines(h), time) == Err(NotJson)
  {
    hide Rule, Entries, EntriesOf, EntryLine, ReadBack, Encoded, Dumpable, LoadsBytes, Record, Signed;
    var record := HistoryGrows(env, h, now);
    var f, added := RecordParts(env, h.op, Previous(Entries(WP.Lines(h.before))));
    RecordIsLonger(f, added, id);
    forall op, time ensures Rule(env)(op, WP.Lines(h), time) == Err(NotJson) {
      RuleAfter(env, WP.Lines(h.before), h.line, ReadBack(record), op, time);
    }
  }

  // ---------- three first entries ----------

  /** An unsigned entry of the known version for a run with this id. */
  function WithId(id: Text): Op {
    Append(Fields(Null, Null, Str(id), Null, Null, [], V1, -1, []), None, [], [])
  }

  /** Written to an empty ledger, it loads; it is accepted, and can be digested, exactly when its id holds no surrogate
      once pairs are joined. */
  lemma FirstEntry(env: Env, id: Text, time: int) returns (line: Bytes, entry: Json)
    requires Points(id)
    ensures Rule(env)(WithId(id), [], time) == Ok(line) && EntryLine(line, entry)
    ensures |id| < |line| && (|id| <= 64 ==> |line| + 1 <= TAIL_WINDOW)
    ensures EntriesOf(Log.Written([line])) == Ok([entry]) && Field(entry, PRE_EXEC_ID) == Some(Str(Joined(id)))
    ensures EntryDigest(env, entry).Ok? <==> SurrogateFree(Joined(id))
    ensures Accepted(env, None, [entry]) <==> SurrogateFree(Joined(id))
  {
    hide LoadsBytes, EntriesOf, EntryDigest, Get, Encoded, Dumpable, ToDict, ReadBack, Of, Canonicalizable, Joined;
    hide Points, SurrogateFree, CanonicalBytes, BreakFrom, EntryLine, WithId;
    var op := WithId(id);
    var f := At(op.fields, 0, GENESIS, op.now);
    ZerosAreClean(64);
    RuleAtStart(env, op, time);
    IdIsWritable(id);
    WritableIff(op, 0, GENESIS);
    line, entry := Encoded(ToDict(f)), ReadBack(ToDict(f));
    IdIsUnsigned(id);
    EncodedIsLine(ToDict(f));
    NoLines();
    OneMoreLine([], [], line, entry);
    assert [] + [line] == [line] && [] + [entry] == [entry];
    assert Members(f, []) == ToDict(f).members;
    RecordIsLonger(f, [], id);
    if |id| <= 64 {
      ShortIdIsShort(id);
    }
    UnsignedDigestsIff(env, op, 0, GENESIS);
    IdIsPlainIff(id);
    BackFields(Back(f), []);
    assert Members(Back(f), []) == ToDict(Back(f)).members;
    IdReadsBack(id);
    CleanIsJoined(GENESIS);
    KeysAreClean();
    CleanIsJoined(V1);
    BreakStep(env, None, [entry], 0, GENESIS);
    assert [entry][1..] == [];
    EmptyRest(env);
  }

  lemma ShortIdIsShort(id: Text)
    requires |id| <= 64
    ensures |Encoded(ToDict(At(WithId(id).fields, 0, GENESIS, [])))| < TAIL_WINDOW
  {
    hide Of, ToDict, Encoded, Dump;
    var f := At(WithId(id).fields, 0, GENESIS, []);
    var ms := ToDict(f).members;
    Listed(f);
    TextIsAtMost(id);
    TextIsAtMost(GENESIS);
    TextIsAtMost(V1);
    TextIsAtMost([]);
    NullAndZero();
    forall i | 0 <= i < 9 ensures |Dump(ms[i].value)| <= 1000 {
    }
    RecordIsAtMost(f, 1000);
  }

  lemma TextIsAtMost(s: Text)
    ensures |Dump(Str(s))| <= 12 * |s| + 2
  {
    hide BodyText;
    BodyIsAtMost(s);
  }

  lemma NullAndZero()
    ensures |Dump(Null)| == 4 && |Dump(Int(0))| == 1
  {
    JcsNumber.ZeroText();
  }

  lemma IdReadsBack(id: Text)
    ensures ReadBack(Str(id)) == Str(Joined(id))
  {
  }

  lemma EmptyRest(env: Env)
    ensures forall position, expected :: BreakFrom(env, None, [], position, expected) == Ok(None)
  {
  }

  lemma IdIsUnsigned(id: Text)
    ensures WithId(id).signer == None && WithId(id).now == []
    ensures WithId(id).fields.preExecId == Str(id) && WithId(id).fields.ledgerVersion == V1
  {
  }

  lemma NothingIsClean()
    ensures SurrogateFree([]) && Points([]) && Joined([]) == [] && |Digits(0)| == 1
  {
  }

  lemma IdIsWritable(id: Text)
    requires Points(id)
    ensures Writable(WithId(id), 0)
  {
    hide Of, Points, SurrogateFree, Digits, Joined;
    KeysAreClean();
    CleanIsPoints(V1);
    NothingIsClean();
  }

  lemma IdIsPlainIff(id: Text)
    ensures Plain(WithId(id), 0) <==> SurrogateFree(Joined(id))
  {
    hide Of, Joined, SurrogateFree, Points, Digits;
    KeysAreClean();
    CleanIsJoined(V1);
    NothingIsClean();
  }

  /** A lone surrogate: the entry is written, the ledger then does not verify, and nothing is ever written after it. */
  lemma LoneSurrogateSticks(env: Env, time: int)
    ensures var written := Rule(env)(WithId([0xD800]), [], time);
      && written.Ok? && EntriesOf(Log.Written([written.value])).Ok?
      && !Accepted(env, None, EntriesOf(Log.Written([written.value])).value)
      && forall op, lines, later :: Rule(env)(op, lines + [written.value], later).Err?
  {
    hide Rule, Accepted, EntriesOf, EntryDigest, EntryLine;
    var id: Text := [0xD800];
    assert Utf16(id) == Units(0xD800) + Utf16([]) == [0xD800];
    assert Joined(id) == [0xD800] + FromUtf16([0xD800][1..]) && !SurrogateFree(Joined(id));
    var line, entry := FirstEntry(env, id, time);
    forall op, lines, later ensures Rule(env)(op, lines + [line], later).Err? {
      RuleAfter(env, lines, line, entry, op, later);
      NothingAfter(env, op, entry);
    }
  }

  lemma NothingAfter(env: Env, op: Op, entry: Json)
    requires entry.Obj? && EntryDigest(env, entry).Err?
    ensures RecordAfter(env, op, Some(entry)).Err?
  {
    hide EntryDigest, Get, Record;
  }

  /** An id as long as the window: the entry is written and the ledger verifies, but no append ever gets past it. */
  lemma LongEntrySticks(env: Env, id: Text, time: int)
    requires SurrogateFree(id) && |id| >= TAIL_WINDOW
    ensures var written := Rule(env)(WithId(id), [], time);
      && written.Ok? && EntriesOf(Log.Written([written.value])).Ok?
      && Accepted(env, None, EntriesOf(Log.Written([written.value])).value)
      && forall op, lines, later :: Rule(env)(op, lines + [written.value], later) == Err(NotJson)
  {
    hide Rule, Accepted, EntriesOf, EntryDigest, EntryLine, Joined, SurrogateFree, Points, WithId;
    CleanIsPoints(id);
    CleanIsJoined(id);
    var line, entry := FirstEntry(env, id, time);
    forall op, lines, later ensures Rule(env)(op, lines + [line], later) == Err(NotJson) {
      RuleAfter(env, lines, line, entry, op, later);
    }
  }

  /** Both halves of U+1F600: the entry is written as two surrogates and read back as one character, the ledger
      verifies, and the next unsigned append goes on. */
  lemma JoinedPairGoesOn(env: Env, time: int, op: Op, later: int)
    requires CleanDigests(env) && op.signer.None? && Writable(op, 1)
    ensures !SurrogateFree([0xD83D, 0xDE00])
    ensures var written := Rule(env)(WithId([0xD83D, 0xDE00]), [], time);
      && written.Ok? && EntriesOf(Log.Written([written.value])).Ok?
      && var entries := EntriesOf(Log.Written([written.value])).value;
         && |entries| == 1 && Field(entries[0], PRE_EXEC_ID) == Some(Str([0x1_F600]))
         && Accepted(env, None, entries) && Rule(env)(op, [written.value], later).Ok?
  {
    hide Rule, Accepted, EntriesOf, EntryDigest, EntryLine, Writable, Get, CleanDigests;
    var id: Text := [0xD83D, 0xDE00];
    PairIsJoined();
    var line, entry := FirstEntry(env, id, time);
    var h := WP.Then(WP.Start, WithId(id), time, line);
    assert WP.Lines(h) == [line];
    AppendsGoOnIff(env, h, time, op, later);
    EntryLineLoads(line, entry);
  }

  lemma EntryLineLoads(line: Bytes, entry: Json)
    requires EntryLine(line, entry)
    ensures LoadsBytes(line) == Some(entry) && entry.Obj?
  {
    hide LoadsBytes;
  }

  lemma PairIsJoined()
    ensures Joined([0xD83D, 0xDE00]) == [0x1_F600] && Points([0xD83D, 0xDE00])
    ensures !SurrogateFree([0xD83D, 0xDE00]) && SurrogateFree([0x1_F600])
  {
    var id: Text := [0xD83D, 0xDE00];
    assert id[1..] == [0xDE00] && [0xDE00][1..] == [] && [0x1_F600][1..] == [];
    assert Utf16([0xDE00]) == Units(0xDE00) + Utf16([]) == [0xDE00];
    assert Utf16(id) == Units(0xD83D) + Utf16([0xDE00]) == id;
    assert FirstPoint(id) == (0x1_F600, id[2..]) && id[2..] == [];
  }
}

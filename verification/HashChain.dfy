/** The hash-chained ledger: what `append` writes, what `chain_break` accepts, and why the last entry fixes the rest. */
module HashChain {
  import opened Prelude
  import opened Texts
  import opened Decimals
  import opened Json
  import opened Jcs
  import opened JsonParser
  import opened JsonDump
  import Log = AppendLog

  const SEQUENCE: Text := Of("sequence")
  const PREV_HASH: Text := Of("prev_hash")
  const LEDGER_VERSION: Text := Of("ledger_version")
  const APPENDED_AT: Text := Of("appended_at")
  const PRE_EXEC_ID: Text := Of("pre_exec_id")
  const PRE_EXEC_DIGEST: Text := Of("pre_exec_digest")
  const RECEIPT_DIGEST: Text := Of("receipt_digest")
  const MODULE_SHA256: Text := Of("module_sha256")
  const CONFIG_FINGERPRINT: Text := Of("config_fingerprint")
  const SIGNATURE: Text := Of("signature")
  const ALG: Text := Of("alg")
  const V1: Text := Of("v1")
  const GENESIS: Text := Zeros(64)

  /** What is not computed here: SHA-256 as hex text, and `int()` of a string. */
  datatype Env = Env(sha: Bytes -> Text, intOf: Text -> Option<int>)

  /** A signature check, with the algorithm the caller pins, if any. */
  datatype Checker = Checker(verify: (Bytes, Bytes) -> bool, expectedAlg: Option<Text>)

  function Field(entry: Json, key: Text): Option<Json> {
    if entry.Obj? then Get(entry.members, key) else None
  }

  function Without(ms: seq<Member>, key: Text): seq<Member> {
    if ms == [] then []
    else if ms[0].key == key then Without(ms[1..], key)
    else [ms[0]] + Without(ms[1..], key)
  }

  /** Everything but the signature. */
  function Payload(entry: Json): (p: Json)
    requires entry.Obj?
    ensures p.Obj?
  {
    Obj(Without(entry.members, SIGNATURE))
  }

  /** `signed_entry_digest`. */
  function EntryDigest(env: Env, entry: Json): Result<Text, JcsError>
    requires entry.Obj?
  {
    var bytes :- CanonicalBytes(Payload(entry));
    Ok(env.sha(bytes))
  }

  // ---------- signatures ----------

  function HexPair(b: Byte): Text
    requires 0 <= b < 256
  {
    [HexDigit(b / 16), HexDigit(b % 16)]
  }

  /** `bytes.hex()`. */
  function Hex(b: Bytes): Text
    requires IsBytes(b)
  {
    if b == [] then [] else HexPair(b[0]) + Hex(b[1..])
  }

  /** `bytes.fromhex`: white space may stand between bytes. */
  function FromHex(t: Text): Option<Bytes> {
    if t == [] then Some([])
    else if t[0] == 0x20 || 0x09 <= t[0] <= 0x0D then FromHex(t[1..])
    else if |t| < 2 || HexValue(t[0]).None? || HexValue(t[1]).None? then None
    else
      match FromHex(t[2..])
      case None => None
      case Some(rest) => Some([16 * HexValue(t[0]).value + HexValue(t[1]).value] + rest)
  }

  lemma ReadPair(b: Byte, rest: Text)
    requires 0 <= b < 256
    ensures FromHex(HexPair(b) + rest) == match FromHex(rest) { case None => None case Some(more) => Some([b] + more) }
  {
    var t := HexPair(b) + rest;
    assert t[0] == HexDigit(b / 16) && t[1] == HexDigit(b % 16) && t[2..] == rest;
    assert HexValue(t[0]) == Some(b / 16) && HexValue(t[1]) == Some(b % 16);
  }

  lemma {:induction false} HexRoundTrip(b: Bytes)
    requires IsBytes(b)
    ensures FromHex(Hex(b)) == Some(b)
  {
    if b != [] {
      HexRoundTrip(b[1..]);
      ReadPair(b[0], Hex(b[1..]));
      assert [b[0]] + b[1..] == b;
    }
  }

  /** `ExecutionReport.verify`: every malformed input is a plain no. */
  predicate SignatureOk(entry: Json, check: Checker) {
    && entry.Obj?
    && (check.expectedAlg.Some? ==> Field(entry, ALG) == Some(Str(check.expectedAlg.value)))
    && Field(entry, SIGNATURE).Some? && Field(entry, SIGNATURE).value.Str?
    && FromHex(Field(entry, SIGNATURE).value.s).Some?
    && CanonicalBytes(Payload(entry)).Ok?
    && check.verify(CanonicalBytes(Payload(entry)).value, FromHex(Field(entry, SIGNATURE).value.s).value)
  }

  // ---------- checking a chain ----------

  datatype Break =
    | NoEntries
    | NotObject(at: nat)
    | BadVersion(at: nat)
    | BadSequence(at: nat)
    | BadPrevHash(at: nat)
    | BadSignature(at: nat)

  /** Python's `v == n`: a Boolean equals 0 or 1, a float the integer it is the value of. */
  predicate EqualsInt(v: Option<Json>, n: int) {
    v.Some? &&
    match v.value
    case Bool(b) => n == if b then 1 else 0
    case Int(m) => m == n
    case Num(d) => SameNumber(d, Decimal(n, 0))
    case MinusZero => n == 0
    case _ => false
  }

  /** Why one entry does not continue the chain at `position` after digest `expected`. */
  function EntryBreak(check: Option<Checker>, entry: Json, position: nat, expected: Text): Option<Break> {
    if !entry.Obj? then Some(NotObject(position))
    else if Field(entry, LEDGER_VERSION) != Some(Str(V1)) then Some(BadVersion(position))
    else if !EqualsInt(Field(entry, SEQUENCE), position) then Some(BadSequence(position))
    else if Field(entry, PREV_HASH) != Some(Str(expected)) then Some(BadPrevHash(position))
    else if check.Some? && !SignatureOk(entry, check.value) then Some(BadSignature(position))
    else None
  }

  function BreakFrom(env: Env, check: Option<Checker>, entries: seq<Json>, position: nat, expected: Text):
    Result<Option<Break>, JcsError>
    decreases |entries|
  {
    if entries == [] then Ok(None)
    else
      var broken := EntryBreak(check, entries[0], position, expected);
      if broken.Some? then Ok(broken)
      else
        var digest :- EntryDigest(env, entries[0]);
        BreakFrom(env, check, entries[1..], position + 1, digest)
  }

  /** `chain_break`: why the chain is broken, `None` when it is intact; digesting an entry may raise. */
  method ChainBreak(env: Env, check: Option<Checker>, entries: seq<Json>) returns (r: Result<Option<Break>, JcsError>)
    ensures r == if entries == [] then Ok(Some(NoEntries)) else BreakFrom(env, check, entries, 0, GENESIS)
    ensures r == Ok(None) <==> Accepted(env, check, entries)
  {
    if entries == [] {
      return Ok(Some(NoEntries));
    }
    var expectedPrev := GENESIS;
    for position := 0 to |entries|
      invariant BreakFrom(env, check, entries, 0, GENESIS) ==
                BreakFrom(env, check, entries[position..], position, expectedPrev)
    {
      assert entries[position..][0] == entries[position] && entries[position..][1..] == entries[position + 1..];
      var broken := EntryBreak(check, entries[position], position, expectedPrev);
      if broken.Some? {
        return Ok(broken);
      }
      expectedPrev :- EntryDigest(env, entries[position]);
    }
    return Ok(None);
  }

  predicate Accepted(env: Env, check: Option<Checker>, entries: seq<Json>) {
    entries != [] && BreakFrom(env, check, entries, 0, GENESIS) == Ok(None)
  }

  // ---------- appending ----------

  /** The fields of a `LedgerEntry`. */
  datatype Fields = Fields(
    preExecDigest: Json, receiptDigest: Json, preExecId: Json, moduleSha256: Json, configFingerprint: Json,
    appendedAt: Text, ledgerVersion: Text, sequence: int, prevHash: Text)

  /** `to_dict`. */
  function ToDict(f: Fields): (d: Json)
    ensures d.Obj?
  {
    Obj([Keyed(LEDGER_VERSION, Str(f.ledgerVersion)),
         Keyed(SEQUENCE, Int(f.sequence)),
         Keyed(APPENDED_AT, Str(f.appendedAt)),
         Keyed(PREV_HASH, Str(f.prevHash)),
         Keyed(PRE_EXEC_ID, f.preExecId),
         Keyed(PRE_EXEC_DIGEST, f.preExecDigest),
         Keyed(RECEIPT_DIGEST, f.receiptDigest),
         Keyed(MODULE_SHA256, f.moduleSha256),
         Keyed(CONFIG_FINGERPRINT, f.configFingerprint)])
  }

  datatype LedgerError =
    | LogRaised(log: Log.LogError)
    | NotJson
    | BadPrevious
    | NotCanonical(error: JcsError)
    | SignerFailed
    | NotDumpable

  type Signer = Bytes -> Option<Bytes>

  /** `sign`: the algorithm is part of what is signed, the signature goes last. */
  function Signed(f: Fields, signer: Signer, alg: Text): Result<Json, LedgerError> {
    var record := Obj(ToDict(f).members + [Keyed(ALG, Str(alg))]);
    match CanonicalBytes(record)
    case Err(e) => Err(NotCanonical(e))
    case Ok(bytes) =>
      match signer(bytes)
      case None => Err(SignerFailed)
      case Some(raw) =>
        if !IsBytes(raw) then Err(SignerFailed)
        else Ok(Obj(record.members + [Keyed(SIGNATURE, Str(Hex(raw)))]))
  }

  /** Signing succeeds exactly when the record with its algorithm can be canonicalized and the signer answers with bytes
      for that text; the signature is their hexadecimal text, in the last member. */
  lemma SignsExactly(f: Fields, signer: Signer, alg: Text)
    ensures var members, r := ToDict(f).members + [Keyed(ALG, Str(alg))], Signed(f, signer, alg);
      var bytes := CanonicalBytes(Obj(members));
      && (r.Ok? <==> bytes.Ok? && signer(bytes.value).Some? && IsBytes(signer(bytes.value).value))
      && (r.Ok? ==> r.value == Obj(members + [Keyed(SIGNATURE, Str(Hex(signer(bytes.value).value)))]))
  {
    hide CanonicalBytes, ToDict, Hex, Of;
  }

  function Record(f: Fields, signer: Option<Signer>, alg: Text): Result<Json, LedgerError> {
    if signer.Some? then Signed(f, signer.value, alg) else Ok(ToDict(f))
  }

  /** `int()` of a float: towards zero. */
  function Truncated(d: Decimal): int {
    if d.e >= 0 then Scale(d.m, d.e)
    else if d.m >= 0 then Dropped(d.m, -d.e)
    else 0 - Dropped(-d.m, -d.e)
  }

  /** Without its last `k` digits. */
  function Dropped(m: nat, k: nat): nat {
    if k == 0 then m else Dropped(m / 10, k - 1)
  }

  lemma {:induction false} DroppedZeros(n: nat, k: nat)
    ensures Scale(n, k) >= 0 && Dropped(Scale(n, k), k) == n
  {
    if k > 0 {
      DroppedZeros(n, k - 1);
    }
  }

  /** What is left is the number without its last digits. */
  lemma {:induction false} DroppedIsFloor(m: nat, k: nat)
    ensures Scale(Dropped(m, k), k) <= m < Scale(Dropped(m, k) + 1, k)
    decreases k
  {
    if k > 0 {
      DroppedIsFloor(m / 10, k - 1);
    }
  }

  /** Truncation never passes the number and comes within one of it, on the side of zero. */
  lemma TruncatedIs(d: Decimal)
    ensures var n := Truncated(d);
      if d.e >= 0 then n == Scale(d.m, d.e)
      else if d.m >= 0 then n >= 0 && Scale(n, -d.e) <= d.m < Scale(n + 1, -d.e)
      else n <= 0 && Scale(n - 1, -d.e) < d.m <= Scale(n, -d.e)
  {
    if d.e < 0 {
      var m := if d.m >= 0 then d.m else -d.m;
      DroppedIsFloor(m, -d.e);
      ScaleNegative(Dropped(m, -d.e), -d.e);
      ScaleNegative(Dropped(m, -d.e) + 1, -d.e);
    }
  }

  /** A position that a float equals is the integer it truncates to. */
  lemma PositionOf(env: Env, v: Option<Json>, n: nat)
    requires EqualsInt(v, n)
    ensures IntOf(env, v) == Some(n)
  {
    if v.value.Num? && v.value.d.e < 0 {
      DroppedZeros(n, -v.value.d.e);
    }
  }

  /** `int(previous["sequence"])`; NaN and the infinities raise. */
  function IntOf(env: Env, v: Option<Json>): Option<int> {
    if v.None? then None
    else
      match v.value
      case Int(n) => Some(n)
      case Num(d) => Some(Truncated(d))
      case MinusZero => Some(0)
      case Bool(b) => Some(if b then 1 else 0)
      case Str(s) => env.intOf(s)
      case _ => None
  }

  function At(f: Fields, sequence: int, prevHash: Text, now: Text): Fields {
    Fields(f.preExecDigest, f.receiptDigest, f.preExecId, f.moduleSha256, f.configFingerprint, now, f.ledgerVersion,
           sequence, prevHash)
  }

  /** The fields after the position is assigned, and the exception that stopped it, if any: the sequence is assigned
      before the digest of the previous entry is taken. */
  function PlacedAfter(env: Env, f: Fields, previous: Option<Json>, now: Text): (Fields, Option<LedgerError>) {
    if previous.None? then (At(f, 0, GENESIS, now), None)
    else
      var n := IntOf(env, Field(previous.value, SEQUENCE));
      if n.None? then (f, Some(BadPrevious))
      else
        var digest := EntryDigest(env, previous.value);
        if digest.Err? then (At(f, n.value + 1, f.prevHash, f.appendedAt), Some(NotCanonical(digest.error)))
        else (At(f, n.value + 1, digest.value, now), None)
  }

  /** The same after the last line of the file, which is read first. */
  function Placed(env: Env, f: Fields, last: Option<Bytes>, now: Text): (Fields, Option<LedgerError>) {
    if last.None? then PlacedAfter(env, f, None, now)
    else
      var previous := LoadsBytes(last.value);
      if previous.None? then (f, Some(NotJson)) else PlacedAfter(env, f, previous, now)
  }

  /** Field by field: what `append` assigns when it goes through, and what is left assigned when it raises. */
  lemma PlacedIs(env: Env, f: Fields, last: Option<Bytes>, now: Text)
    ensures var g, raised := Placed(env, f, last, now).0, Placed(env, f, last, now).1;
      && g.preExecDigest == f.preExecDigest && g.receiptDigest == f.receiptDigest && g.preExecId == f.preExecId
      && g.moduleSha256 == f.moduleSha256 && g.configFingerprint == f.configFingerprint
      && g.ledgerVersion == f.ledgerVersion
      && (last.None? ==> raised.None? && g.sequence == 0)
      && (last.None? ==> |g.prevHash| == 64 && forall c | c in g.prevHash :: c == '0' as int)
      && (last.Some? && LoadsBytes(last.value).None? ==> g == f && raised == Some(NotJson))
      && (raised.None? ==> g.appendedAt == now)
      && (raised.Some? ==> g.appendedAt == f.appendedAt && g.prevHash == f.prevHash)
    ensures last.Some? && LoadsBytes(last.value).Some? ==>
      var g, raised := Placed(env, f, last, now).0, Placed(env, f, last, now).1;
      var previous := LoadsBytes(last.value).value;
      var n := IntOf(env, Field(previous, SEQUENCE));
      && (raised == Some(BadPrevious) <==> n.None?)
      && (n.None? ==> g == f)
      && (n.Some? ==> g.sequence == n.value + 1 && previous.Obj?)
      && (n.Some? && CanonicalBytes(Payload(previous)).Ok? ==>
            raised.None? && g.prevHash == env.sha(CanonicalBytes(Payload(previous)).value))
      && (n.Some? && CanonicalBytes(Payload(previous)).Err? ==> raised.Some?)
  {
    hide CanonicalBytes, LoadsBytes, Payload, Get, Of;
    GenesisIs();
  }

  lemma GenesisIs()
    ensures |GENESIS| == 64 && forall c | c in GENESIS :: c == '0' as int
  {
    AllZeros(64);
  }

  lemma {:induction false} AllZeros(k: nat)
    ensures |Zeros(k)| == k && forall c | c in Zeros(k) :: c == '0' as int
  {
    if k > 0 {
      AllZeros(k - 1);
    }
  }

  /** The record `append` writes after a given entry. */
  function AppendedAfter(env: Env, f: Fields, signer: Option<Signer>, alg: Text, now: Text, previous: Option<Json>):
    Result<Json, LedgerError>
  {
    var p := PlacedAfter(env, f, previous, now);
    if p.1.Some? then Err(p.1.value)
    else
      var record :- Record(p.0, signer, alg);
      if Dumpable(record) then Ok(record) else Err(NotDumpable)
  }

  /** The record it writes after a given last line. */
  function Appended(env: Env, f: Fields, signer: Option<Signer>, alg: Text, now: Text, last: Option<Bytes>):
    Result<Json, LedgerError>
  {
    if last.None? then AppendedAfter(env, f, signer, alg, now, None)
    else
      var previous := LoadsBytes(last.value);
      if previous.None? then Err(NotJson) else AppendedAfter(env, f, signer, alg, now, previous)
  }

  // ---------- reading the file ----------

  /** How far back from the end of the file a line must fit. */
  const TAIL_WINDOW: nat := 65_536

  /** Every line loaded, or the number of the first that is not JSON. */
  function LoadAll(lines: seq<Bytes>, number: nat): Result<seq<Json>, nat>
    decreases |lines|
  {
    if lines == [] then Ok([])
    else
      match LoadsBytes(lines[0])
      case None => Err(number)
      case Some(entry) =>
        var rest :- LoadAll(lines[1..], number + 1);
        Ok([entry] + rest)
  }

  /** `entries`. */
  function EntriesOf(data: Bytes): Result<seq<Json>, nat> {
    LoadAll(Log.ReadLinesOf(data), 1)
  }

  lemma {:induction false} LoadAllConcat(a: seq<Bytes>, b: seq<Bytes>, number: nat)
    ensures LoadAll(a + b, number) ==
      match LoadAll(a, number)
      case Err(n) => Err(n)
      case Ok(front) =>
        (match LoadAll(b, number + |a|) case Err(n) => Err(n) case Ok(end) => Ok(front + end))
  {
    hide LoadsBytes;
    if a == [] {
      assert a + b == b;
      if LoadAll(b, number).Ok? {
        assert [] + LoadAll(b, number).value == LoadAll(b, number).value;
      }
    } else {
      assert (a + b)[0] == a[0] && (a + b)[1..] == a[1..] + b;
      LoadAllConcat(a[1..], b, number + 1);
      if LoadsBytes(a[0]).Some? && LoadAll(a[1..], number + 1).Ok? && LoadAll(b, number + |a|).Ok? {
        Regroup([LoadsBytes(a[0]).value], LoadAll(a[1..], number + 1).value, LoadAll(b, number + |a|).value);
      }
    }
  }

  /** One position in the chain; what `append` assigns are its variables. */
  class LedgerEntry {
    const preExecDigest: Json
    const receiptDigest: Json
    const preExecId: Json
    const moduleSha256: Json
    const configFingerprint: Json
    const ledgerVersion: Text
    var appendedAt: Text
    var sequence: int
    var prevHash: Text

    constructor (f: Fields)
      ensures Value() == f
    {
      preExecDigest, receiptDigest, preExecId := f.preExecDigest, f.receiptDigest, f.preExecId;
      moduleSha256, configFingerprint, ledgerVersion := f.moduleSha256, f.configFingerprint, f.ledgerVersion;
      appendedAt, sequence, prevHash := f.appendedAt, f.sequence, f.prevHash;
    }

    function Value(): Fields
      reads this
    {
      Fields(preExecDigest, receiptDigest, preExecId, moduleSha256, configFingerprint, appendedAt, ledgerVersion,
             sequence, prevHash)
    }
  }

  datatype VerifyError = BadLine(number: nat) | BadDigest(error: JcsError)

  /** The ledger file, one entry a line. */
  class Ledger {
    const log: Log.AppendLog

    constructor ()
      ensures fresh(log) && log.data == [] && log.tailWindow == TAIL_WINDOW
    {
      log := new Log.AppendLog(TAIL_WINDOW);
    }

    /** Assigns the next position in the entry itself, signs, and writes one line, or raises and writes none. */
    method Append(env: Env, entry: LedgerEntry, signer: Option<Signer>, alg: Text, now: Text)
      returns (r: Result<Json, LedgerError>)
      modifies log, entry
      ensures match Log.TailOf(old(log.data), log.tailWindow)
        case Err(e) => r == Err(LogRaised(e)) && entry.Value() == old(entry.Value())
        case Ok(last) =>
          && entry.Value() == Placed(env, old(entry.Value()), last, now).0
          && r == Appended(env, old(entry.Value()), signer, alg, now, last)
      ensures log.data == old(log.data) + if r.Ok? then Encoded(r.value) + [Log.NEWLINE] else []
    {
      hide Record, EntryDigest, Get, Dumpable, Encoded, LoadsBytes;
      assert log.data + [] == log.data;
      var tail := log.TailLine();
      if tail.Err? {
        return Err(LogRaised(tail.error));
      }
      if tail.value.None? {
        entry.sequence := 0;
        entry.prevHash := GENESIS;
      } else {
        var previous := LoadsBytes(tail.value.value);
        if previous.None? {
          return Err(NotJson);
        }
        var n := IntOf(env, Field(previous.value, SEQUENCE));
        if n.None? {
          return Err(BadPrevious);
        }
        entry.sequence := n.value + 1;
        var digest := EntryDigest(env, previous.value);
        if digest.Err? {
          return Err(NotCanonical(digest.error));
        }
        entry.prevHash := digest.value;
      }
      entry.appendedAt := now;
      var record :- Record(entry.Value(), signer, alg);
      if !Dumpable(record) {
        return Err(NotDumpable);
      }
      log.Write(Encoded(record) + [Log.NEWLINE]);
      return Ok(record);
    }

    /** Every line in file order; the first one that is not JSON raises with its number. */
    method Entries() returns (r: Result<seq<Json>, nat>)
      ensures r == EntriesOf(log.data)
    {
      hide LoadsBytes;
      var lines := log.ReadLines();
      var out: seq<Json> := [];
      assert lines[0..] == lines;
      assert LoadAll(lines, 1).Ok? ==> [] + LoadAll(lines, 1).value == LoadAll(lines, 1).value;
      for i := 0 to |lines|
        invariant LoadAll(lines, 1) ==
          match LoadAll(lines[i..], 1 + i) case Err(n) => Err(n) case Ok(end) => Ok(out + end)
      {
        assert lines[i..][0] == lines[i] && lines[i..][1..] == lines[i + 1..];
        match LoadsBytes(lines[i]) {
          case None =>
            return Err(1 + i);
          case Some(entry) =>
            OneMore(out, entry, lines[i + 1..], 2 + i);
            out := out + [entry];
        }
      }
      assert out + [] == out;
      return Ok(out);
    }

    method Verify(env: Env, check: Option<Checker>) returns (r: Result<bool, VerifyError>)
      ensures r.Err? && r.error.BadLine? <==> EntriesOf(log.data).Err?
      ensures r == Ok(true) <==> EntriesOf(log.data).Ok? && Accepted(env, check, EntriesOf(log.data).value)
    {
      var entries := Entries();
      if entries.Err? {
        return Err(BadLine(entries.error));
      }
      var broken := ChainBreak(env, check, entries.value);
      if broken.Err? {
        return Err(BadDigest(broken.error));
      }
      return Ok(broken.value.None?);
    }
  }

  lemma OneMore(out: seq<Json>, entry: Json, lines: seq<Bytes>, number: nat)
    ensures LoadAll(lines, number).Ok? ==>
      out + ([entry] + LoadAll(lines, number).value) == out + [entry] + LoadAll(lines, number).value
  {
  }
}

# Verified model of Cell's host-side books, canonical encoding and egress decisions

Cell runs WebAssembly guests. What it promises about them rests on host-side bookkeeping: append-only files whose
replayed contents are the enforcement (the tenant book, the grant book, the hash-chained ledger), one canonical JSON
encoding under every digest and signature, the procedure that lets a mediated request out, and the pool of engines that
runs share. This project models that layer in Dafny, following the Python code branch by branch, and proves what holds
of it over every input, every history and every interleaving of writers.

## How it is built

| files | what they model |
|---|---|
| `Prelude`, `Texts`, `Decimals`, `Json` | results and exceptions; text as code points with UTF-8 and UTF-16; decimal numbers, their digits and their layout; JSON values and Python dictionaries in insertion order |
| `Jcs`, `JcsNumber`, `JsonParser`, `ParsedValues`, `JcsRoundTrip`, `JcsMinimal` | RFC 8785 canonicalization, the float branch from `repr` to text, a JSON reader with `json.loads` semantics, the round trip between them, and why no other text will do |
| `JsonDump`, `JsonCut`, `JsonGrammar` | the ASCII text that `json.dumps` writes and what a reader makes of it, surrogate pairs joined; why no end of an object's text is JSON; the grammar, and that the reader reads it and nothing else |
| `AppendLog`, `WriterProtocol` | the shared log file at byte level; the lock protocol (acquire, replay, decide, write, release, crash) with any number of writers |
| `TenantBook`, `TenantStore`, `TenantCaps`, `TenantUsage`, `TenantTamper`, `BilledRun`, `ConcurrentRuns` | the tenant book as functions, the objects that implement them, cap safety, what usage shows of a history, tamper detection, the billed run around it, alone and beside others |
| `GrantBook`, `GrantSafety` | the grant book: caps, windows, revocation, its two checks |
| `HashChain`, `ChainRigidity`, `LedgerLines`, `ChainAppend`, `RecordChain` | the hash-chained ledger over the bytes of its file, and the receipt that refers back to a record |
| `Base64`, `Dsse`, `GrantTrust`, `GrantEnvelope` | canonical base64, the pre-authentication encoding, grants, trust root and signed envelopes |
| `EgressPaths`, `EgressSpellings`, `EgressPolicy`, `EgressFetch`, `MediatedRuns` | dot segments, percent-encoded spellings and path containment, allowlist matching and redirect chains, the bounded read loop and one mediated call; mediation by any number of processes, with the charge and the fetch as separate steps |
| `Eviction`, `EnginePool`, `PoolRuns` | which entries an LRU pool gives up; the pool with reference counts and a content-keyed module cache; its locked sections under any schedule of threads |

Conventions. An exception is an `Err`; the call that raised has done nothing else unless its contract says what it did.
A book rule is a function `decide(operation, lines, clock)`; `WriterProtocol` proves that whatever the writers do, the
book is a history in which every line is what `decide` answered on exactly the lines before it at a clock that never
went back, and, conversely, that every such history is some run. The book theorems are then stated over all such
histories, and once more over all runs. Clocks, admission ids, digests, signature checks, stamp parsing and URL
splitting are parameters. A float is the decimal number that its shortest digits denote. SHA-256 is never assumed
injective: results about digests say "equal, or here are two byte strings with one digest". Where the source loops over
changing variables or updates an object, there is a method or a class, and its contract ties it to the function the
theorems are about.

Where the code and its documentation disagree, the model follows the code:

- `dsse_pae` is described as the DSSE encoding, but uses little-endian four-byte lengths and no separators; `Dsse.Pae` does too.
- The replay of the tenant book is described as noticing any dropped or reordered line; it notices exactly what
  `TenantTamper.DeletionIsNoticedIff` and `TenantTamper.SwapUncountedIsNoticedIff` say, which leaves out expire lines and
  most admit lines.
- The grant book is described as noticing a deleted call line; it does so exactly when a later line carries the grant's count.
- The tail guard of the log is described as refusing lines longer than the window; `AppendLog.GuardMissesLongLine` is one it lets through.
- A retained engine is described as never evicted. Retaining looks it up and counts it in two locked sections, so it is
  still pooled exactly when nothing between them evicts it (`PoolRuns.RetainedIsPooledIff`, with the condition on the pool
  before each request in `Eviction.SurvivesIff`); from then on it stays until its count is down
  (`PoolRuns.EveryLeaseHolds`), and otherwise it never comes back and releasing it raises (`PoolRuns.GoneForGood`).
  `EnginePool.RetainedButEvicted` is a run in which it is lost.
- Canonical bytes are described as what every verifier recomputes. A float between 2^53 and 1e21 is printed as an
  integer, which a reader of those bytes gets as an `int` and then cannot canonicalize: `JcsRoundTrip.PrintsAgainIff` is
  the exact condition, `JcsRoundTrip.WideFloatIsRefused` an example.
- A ledger is described as append-only, with entries of a few hundred bytes. Nothing checks how long an entry is: after a
  line that does not fit the tail window with its newline, signed or not, the next append reads the end of it, which is
  never JSON (`JsonCut.CutNeverLoads`), and raises for ever; the ledger still verifies (`ChainAppend.LongEntrySticks`,
  and `ChainAppend.LongIdSticks` for every history).
- An unsigned ledger entry is written without being canonicalized, so it can be one that cannot be digested when it is
  read back. The text in between joins a pair of surrogates into one character, so only what is still a surrogate then
  (`ChainAppend.LoneSurrogateSticks`, against `ChainAppend.JoinedPairGoesOn`), an unsafe integer or a float that is no
  number ends the ledger. `ChainAppend.AppendsGoOnIff` and `ChainAppend.StuckIff` are the exact conditions.
- A settle is accepted after its admission has lapsed, so a cap bounds spending only up to `TenantCaps.Excess`;
  `TenantCaps.LateSettleExceedsCap` spends twice the cap.

## Model

| member | source | states |
|---|---|---|
| `Texts.Utf16RoundTrip` | ephemora_cell/execution_report.py:879-889 | the UTF-16 code units used as sort key determine the member name |
| `Texts.BigEndianKeepsOrder` | ephemora_cell/execution_report.py:885-888 | comparing big-endian bytes orders code-unit sequences as comparing the units does |
| `Texts.Utf8RoundTrip` | ephemora_cell/execution_report.py:921-938 | encoding surrogate-free text and decoding it gives the text back |
| `Json.KeyOrderIsCodeUnitOrder` | ephemora_cell/execution_report.py:879-889 | RFC 8785 section 3.2.3: the byte comparison is exactly comparison by UTF-16 code units, supplementary characters included |
| `Json.KeyOrderIsNotCodePointOrder` | ephemora_cell/execution_report.py:879-889 | U+10000 sorts before U+E000, unlike code point order |
| `Json.SortSorts` | ephemora_cell/execution_report.py:885-889 | a dictionary's members come out strictly increasing and stay distinct |
| `Json.SortIgnoresInsertionOrder` | ephemora_cell/execution_report.py:885-889 | two insertion orders of one dictionary sort to the same list |
| `Jcs.JcsString` | ephemora_cell/execution_report.py:844-876 | the character loop produces the minimally escaped string, or raises exactly when a surrogate occurs |
| `Jcs.JcsSucceedsIff` | ephemora_cell/execution_report.py:777-905 | canonicalization fails exactly on an integer outside the safe range, NaN, an infinity, or a surrogate in some string or key, at any depth |
| `Jcs.JcsIsClean` | ephemora_cell/execution_report.py:892-938 | canonical text never holds a surrogate, so it can always be encoded as UTF-8 |
| `JcsRoundTrip.StringReadsBack` | ephemora_cell/execution_report.py:844-876 | reading an escaped string gives the characters back (RFC 8785 section 3.2.2.2) |
| `JcsRoundTrip.CanonicalBytesReadBack` | ephemora_cell/execution_report.py:892-938 | a JSON reader applied to the canonical bytes of any value returns that value, members in canonical order and floats laid out as integers as integers |
| `JcsRoundTrip.SameIffNorm` | ephemora_cell/execution_report.py:879-905 | equality of JSON values, objects compared as sets of members and numbers by value, is equality of what is read back |
| `JcsRoundTrip.SameNormPrintsAlike` | ephemora_cell/execution_report.py:777-905 | values that read back alike, whatever the order of their members and whether their numbers are integers or floats, have one canonical text |
| `JcsRoundTrip.CanonicalBytesIdentify` | ephemora_cell/execution_report.py:777-938 | canonical bytes are equal exactly when the JSON values are equal |
| `JcsRoundTrip.PrintsAgainIff` | ephemora_cell/execution_report.py:777-938 | what was read from canonical bytes prints the same bytes again exactly when no float was laid out as an integer beyond the safe range, and raises otherwise |
| `JcsRoundTrip.WideFloatIsRefused` | ephemora_cell/execution_report.py:796-841 | 1e20 prints, reads back as an integer, and that integer is refused |
| `JcsMinimal.EscapedIsMinimal` | ephemora_cell/execution_report.py:844-876 | of all the bodies a reader takes for a surrogate-free string none is shorter than the escaped one, and no other of its length writes its digits small |
| `JcsMinimal.CanonicalIsSolid` | ephemora_cell/execution_report.py:879-905 | canonical text has white space in strings only |
| `JcsMinimal.ValueIsMinimal` | ephemora_cell/execution_report.py:892-905 | whatever text a reader takes for a value is at least as long as its compact text, fractions counted as nothing, and is that text when it is no longer |
| `JcsMinimal.CanonicalIsShortest` | ephemora_cell/execution_report.py:777-905 | when no number is printed as a fraction the canonical text is the shortest that reads back as the document in canonical order, and the only one of its length with small digits |
| `JcsMinimal.FractionsAreNot` | ephemora_cell/execution_report.py:837-840 | 1e21 is printed with a plus sign a reader does not need, so the canonical text of a fraction is not the shortest |
| `JcsNumber.IntReadsBack` | ephemora_cell/execution_report.py:796-803 | reading a printed integer, in any context, gives the integer back |
| `JcsNumber.JcsFloat` | ephemora_cell/execution_report.py:804-841 | the code that strips zeros, places the point and appends the exponent computes the layout function, sign and zero included |
| `JcsNumber.LayoutDenotes` | ephemora_cell/execution_report.py:824-840 | each of the four layouts, read in any context, is the digits times the power of ten, an integer exactly when there is no point and no exponent |
| `JcsNumber.NumReadsBack` | ephemora_cell/execution_report.py:804-841 | the text of a float, read in any context, is the number with no zero at the end of its digits, or an integer of at most 21 digits |
| `JcsNumber.FloatTextIsNumText` | ephemora_cell/execution_report.py:804-841 | the text computed from the parts of `repr` is the text of the number those parts write |
| `JcsNumber.FloatTextDenotes` | ephemora_cell/execution_report.py:777-841 | the text computed from the parts of `repr`, read in any context, is the number those parts write |
| `JcsNumber.ExponentIffOutOfRange` | ephemora_cell/execution_report.py:826-840 | exponent notation is chosen exactly when the decimal point position is outside -6 < n <= 21 (RFC 8785 section 3.2.2.3) |
| `JsonDump.BodyReadsBack` | ephemora_cell/ledger.py:328-333 | a string written in ASCII with its UTF-16 units escaped is read, in any context, with every high surrogate joined to a low one after it |
| `JsonDump.FloatReadsBack` | ephemora_cell/ledger.py:328-333 | a float written as `repr` does, point, padded exponent and all, is read as the same decimal number |
| `JsonDump.DumpReadsBack` | ephemora_cell/ledger.py:322-345 | the text of any value, in any context, is read as the value with its strings and keys joined, and keys that became equal merged |
| `JsonDump.EncodedReadsBack` | ephemora_cell/ledger.py:322-345 | a written record loads, with or without the newline of its line, as the record read back |
| `JsonDump.ReadBackIsSame` | ephemora_cell/ledger.py:328-333 | what can be canonicalized is the same JSON value when it is read back, and can be canonicalized again |
| `JsonDump.ReadBackPrintsAlike` | ephemora_cell/ledger.py:183-186 | so it has the same canonical bytes, and the same digest |
| `JsonCut.ValueIsBalanced` | ephemora_cell/ledger.py:322-345 | whatever a JSON reader takes for a value ends outside strings, closes every bracket it opens and no other |
| `JsonCut.CutNeverLoads` | ephemora_cell/ledger.py:318-324 | no proper end of the text of a JSON object is itself JSON |
| `JsonGrammar.LoadsIff` | ephemora_cell/ledger.py:338-348 | a text loads as a value exactly when it is, piece by piece and white space included, a text of the JSON grammar (with NaN and the infinities) that means this value, the last of equal keys counting |
| `ParsedValues.LoadedIsWellFormed` | ephemora_cell/grant_trust.py:402-403 | what the JSON reader returns holds no key twice in any object |
| `ParsedValues.GetNorm` | ephemora_cell/egress_sidecar.py:1026-1056 | a field looked up in the canonical document is the canonical form of the field |
| `AppendLog.AppendLog.TailLine` | ephemora_cell/_appendlog.py:91-111 | the backward read with its guard computes the tail function of the bytes and the window |
| `AppendLog.AppendLog.ReadLines` | ephemora_cell/_appendlog.py:113-126 | reading yields the non-blank lines in file order |
| `AppendLog.AppendLog.DecideAndAppend` | ephemora_cell/_appendlog.py:142-164 | the file grows by exactly the payload decided from its tail, and not at all when deciding raises |
| `AppendLog.ReadLinesAreSplit` | ephemora_cell/_appendlog.py:107-126 | iterating over lines and splitting at newlines give the same non-blank lines up to the newline |
| `AppendLog.TailAgreesWithReadIff` | ephemora_cell/_appendlog.py:91-126 | the tail is the last line of the full read, without its newline, exactly when that line begins inside the window and the window reaches the start of the file or holds a newline, for every file and window |
| `AppendLog.GuardMissesLongLine` | ephemora_cell/_appendlog.py:103-107 | a file whose over-long last line passes the guard and comes back cut |
| `AppendLog.WrittenReadsBack` | ephemora_cell/_appendlog.py:113-126 | a log of one-line records reads back as those records in order |
| `AppendLog.WrittenTailIsCut` | ephemora_cell/_appendlog.py:91-111 | when it does not, the guard finds its newline and the tail is as much of the record's end as the window holds |
| `AppendLog.WrittenTail` | ephemora_cell/_appendlog.py:91-111 | in such a log the tail is the last record whenever record and newline fit the window |
| `WriterProtocol.StepKeepsInvariant` | ephemora_cell/_appendlog.py:152-163 | every step, crashes included, keeps the lock exclusive, the replayed view current and the history valid, and adds at most one line |
| `WriterProtocol.EveryRunIsValid` | ephemora_cell/_appendlog.py:142-164 | after any schedule each line is what the rule answered on exactly the lines before it, and nothing written is lost |
| `WriterProtocol.SoloCommits` | ephemora_cell/_appendlog.py:142-164 | an undisturbed writer commits exactly the rule's answer and gives the lock back |
| `WriterProtocol.EveryValidHistoryRuns` | ephemora_cell/_appendlog.py:142-164 | conversely every valid history is produced by some schedule |
| `TenantBook.Violation` | ephemora_cell/tenant.py:154-165 | the loop finds the first dimension over its cap, none exactly when all are within |
| `TenantBook.FoldKeepsSound` | ephemora_cell/tenant.py:557-585 | folding keeps every amount a constructible charge and every count non-negative |
| `TenantBook.PutSum` | ephemora_cell/tenant.py:504-515 | opening an admission raises what is reserved by at most its own live share |
| `TenantBook.DropSum` | ephemora_cell/tenant.py:504-515 | closing an open admission lowers what is reserved by at least its live share |
| `TenantBook.ActiveSumFalls` | ephemora_cell/tenant.py:504-515 | time only releases reservations |
| `TenantBook.ReplayOneMore` | ephemora_cell/tenant.py:417-436 | one more line changes only its tenant's replay, and by exactly one application |
| `TenantStore.Replay.FoldLine` | ephemora_cell/tenant.py:557-585 | the field updates of one fold are the fold function; an exception leaves the fields alone |
| `TenantStore.Replay.ApplyLine` | ephemora_cell/tenant.py:587-596 | raises exactly when folding raises or the carried totals differ from the folded ones |
| `TenantStore.Replay.Sealed` | ephemora_cell/tenant.py:546-555 | the draft gets the totals a reader will derive, computed on a copy |
| `TenantStore.Replay.Reserved` | ephemora_cell/tenant.py:504-515 | summing one by one raises exactly when the total of live reservations leaves the safe range |
| `TenantStore.TenantStore.Entries` | ephemora_cell/tenant.py:417-430 | the tenant's lines in order; any malformed line raises |
| `TenantStore.TenantStore.ReplayTenant` | ephemora_cell/tenant.py:432-436 | the loop computes the replay function or raises as it does |
| `TenantStore.TenantStore.AdmitTenant` | ephemora_cell/tenant.py:260-344 | appends exactly the decided admit or refuse line; an exception leaves the book unchanged |
| `TenantStore.TenantStore.SettleTenant` | ephemora_cell/tenant.py:346-387 | appends exactly the decided settle line; an unknown admission or an overflow leaves the book unchanged |
| `TenantStore.TenantStore.ExpireTenant` | ephemora_cell/tenant.py:389-406 | appends exactly the decided expire line, or raises and leaves the book unchanged |
| `TenantStore.TenantStore.UsageAt` | ephemora_cell/tenant.py:410-415 | reading replays the tenant and counts reservations live at the given moment |
| `TenantCaps.AdmitsExactly` | ephemora_cell/tenant.py:283-341 | admit raises exactly when a sum leaves the safe range, and refuses exactly when some cap would be passed, naming the first such dimension |
| `TenantCaps.DecidedLineReplays` | ephemora_cell/tenant.py:283-406 | each written line extends the book to one that replays for its tenant with the state the operation means, and leaves every other tenant's replay as it was |
| `TenantCaps.EveryBookReplays` | ephemora_cell/tenant.py:283-406 | after any history the book replays for every tenant |
| `TenantCaps.UsageIsDefined` | ephemora_cell/tenant.py:410-415 | after any history reading any tenant's usage from the last write on succeeds |
| `TenantCaps.EarlierReadingOverflows` | ephemora_cell/tenant.py:410-415 | a history whose usage can be read at the last write and raises at an earlier moment |
| `TenantCaps.CapHolds` | ephemora_cell/tenant.py:283-384 | over all histories, in each capped dimension settled plus live reservations never exceed the cap plus the charges no live reservation covered |
| `TenantCaps.NoExcessIffCovered` | ephemora_cell/tenant.py:365-384 | that correction is zero exactly when every settle came in time and charged no more than was reserved |
| `TenantCaps.LateSettleExceedsCap` | ephemora_cell/tenant.py:366-384 | a history that spends twice the cap through a settle after expiry, so the bare cap does not hold |
| `TenantCaps.EveryRunIsSafe` | ephemora_cell/tenant.py:283-406 | replay, readable usage and the cap bound for every schedule of the lock protocol |
| `TenantUsage.UsageIsTally` | ephemora_cell/tenant.py:410-415 | after every history and at every moment, usage shows field by field what the operations written say: settled runs and their charges, violations, refusals, runs of unknown fuel, and what unexpired open admissions hold; it raises exactly when that is out of range |
| `TenantUsage.AdmissionProjects` | ephemora_cell/tenant.py:279-341 | what admit reports is everything counted at that moment, and this run on top when it admits |
| `TenantUsage.ProjectionIsUsageAfter` | ephemora_cell/tenant.py:279-415 | an admission that reaches past its own millisecond is in the usage right after it, as projected |
| `TenantUsage.NewSlotCounts` | ephemora_cell/tenant.py:504-515 | an admission is counted, with what it reserved, until the moment it expires and not from then on |
| `TenantTamper.TicketIsPlace` | ephemora_cell/tenant.py:532-596 | in a book that replays each line's totals count the settle and refuse lines up to it |
| `TenantTamper.CountedLinesAreAPrefix` | ephemora_cell/tenant.py:532-596 | any selection, repetition and order of a book's own lines that replays has the book's first counted lines, in order |
| `TenantTamper.SwapIsNoticed` | ephemora_cell/tenant.py:557-596 | swapping two counted lines makes replay raise |
| `TenantTamper.CopyIsNoticed` | ephemora_cell/tenant.py:557-596 | inserting a copy of a counted line anywhere makes replay raise |
| `TenantTamper.ChargeEditIsNoticed` | ephemora_cell/tenant.py:557-596 | changing a settle's charge without its totals makes replay raise |
| `TenantTamper.AdmitEditIsNoticedIff` | ephemora_cell/tenant.py:557-596 | giving an admit line another charge and another expiry is noticed only when no charge can have that amount |
| `TenantTamper.FlagEditIsNoticed` | ephemora_cell/tenant.py:557-596 | changing a settle's violation or unknown flag without its totals makes replay raise |
| `TenantTamper.IdEditIsNoticedIff` | ephemora_cell/tenant.py:557-596 | naming another admission is noticed exactly: in an admit line when the one it opened was not open and is settled next, in an expire line when the other one is open and settled next, in a settle line when the other one is not open or settled again next, in a refuse line never |
| `TenantTamper.UnreadEditIsUnseen` | ephemora_cell/tenant.py:557-596 | stamps, and the fields that a line of its kind does not use, can be edited: the replay ends in the same account |
| `TenantTamper.EveryLineKeepsItsPlace` | ephemora_cell/tenant.py:532-596 | in any arrangement of a book's lines that replays, every line, counted or not, stands after exactly the counted lines it stood after |
| `TenantTamper.SwapUncountedIsNoticedIff` | ephemora_cell/tenant.py:557-596 | exchanging two neighbouring admit or expire lines is noticed exactly when one drops the admission the next one gives again and a settle of it follows |
| `TenantTamper.DeletionIsNoticedIff` | ephemora_cell/tenant.py:557-596 | exactly which deletions are noticed: a counted line when anything follows, an expire line never, an admit line when its id was not open before and the next line naming it is a settle |
| `TenantTamper.BookDeletionIsNoticedIff` | ephemora_cell/tenant.py:417-436 | the same for the shared file: only the line's own tenant can notice |
| `BilledRun.Run` | ephemora_cell/wasi_runtime.py:626-710 | admit, execute, then settle or expire: the book after a run is the billing function of the book before |
| `BilledRun.RunAddsOneRecord` | ephemora_cell/wasi_runtime.py:647-710 | a run adds one refuse line, or one admit closed by one settle or expire of the same id with nothing left open; only an admission that raises adds nothing and only a charge that does not fit leaves it open |
| `BilledRun.EndsExactly` | ephemora_cell/wasi_runtime.py:647-710 | a run ends as admit answers, and when admitted crashed, completed, or, exactly when the account has no room for what was measured, with an exception |
| `BilledRun.CompletedRunBills` | ephemora_cell/wasi_runtime.py:687-707 | a completed run adds its fuel, its streams and sandbox output and its time, one run, one violation when it ran out of output, time, fuel or memory, one unknown when no fuel was reported, and nothing else |
| `BilledRun.RunHoldsItsCeiling` | ephemora_cell/wasi_runtime.py:647-730 | from admission until 900 seconds later the usage shows the configured fuel, 20000 bytes plus the output budget, and the timeout reserved on top of what others hold; from then on nothing |
| `BilledRun.SequentialRunsLeaveNothingInFlight` | ephemora_cell/wasi_runtime.py:626-710 | sequential runs of any tenants, however they end, leave nothing in flight, and admits equal settles plus expires for each tenant |
| `ConcurrentRuns.OpenIffLastAdmits` | ephemora_cell/tenant.py:557-585 | after any history an admission is open exactly when the last line naming it is an admit line |
| `ConcurrentRuns.AdmissionsAreAccountedFor` | ephemora_cell/tenant.py:283-406 | after any history each tenant's admissions are its settlements, its expiries and what is open, but for ids given again while open |
| `ConcurrentRuns.ClosedAtMostOnce` | ephemora_cell/tenant.py:346-406 | when no id is given twice, each admission is closed at most once and is open exactly until then |
| `ConcurrentRuns.CloseSucceedsIff` | ephemora_cell/tenant.py:346-406 | after any history a settle or expire succeeds exactly when the last line naming the admission is an admit line and a settled charge fits what was charged by then |
| `ConcurrentRuns.RunClosesIffItFits` | ephemora_cell/wasi_runtime.py:647-710 | a run that was admitted can close whatever others wrote meanwhile: always after a crash, and otherwise exactly when its charge fits the account it then meets |
| `ConcurrentRuns.EveryRunIsAccountedFor` | ephemora_cell/tenant.py:283-406 | the count for every schedule of the lock protocol, when no id is given twice |
| `GrantBook.GrantLedger.Usage` | ephemora_cell/grant_ledger.py:336-350 | the replay loop returns the state of one grant or raises at the first line that stops it |
| `GrantBook.GrantLedger.Verify` | ephemora_cell/grant_ledger.py:158-185 | the one pass with a state per grant reports exactly the bad lines, by number |
| `GrantBook.GrantLedger.Record` | ephemora_cell/grant_ledger.py:189-307 | appends exactly the decided call or refuse line, or raises and appends nothing |
| `GrantBook.GrantLedger.RevokeId` | ephemora_cell/grant_ledger.py:309-332 | refused exactly for an empty id, and otherwise appends a revoke line of that id with the millisecond of the clock, without looking at the book |
| `GrantSafety.ReplayRaisesIff` | ephemora_cell/grant_ledger.py:336-391 | a grant's replay raises exactly when some line is not JSON or names the grant and disagrees |
| `GrantSafety.VerifyAgreesWithReplay` | ephemora_cell/grant_ledger.py:158-391 | verify reports nothing exactly when every line names a grant and every grant's replay succeeds with the state the one pass holds |
| `GrantSafety.OneEditOneProblem` | ephemora_cell/grant_ledger.py:353-391 | altering one call line's count in a clean book gives exactly one problem, at that line, and makes only that grant's replay raise |
| `GrantSafety.CallDeletionIsNoticedIff` | ephemora_cell/grant_ledger.py:353-391 | deleting a call line is noticed exactly when a later line of the grant carries its count |
| `GrantSafety.RefusalLossIsUnseen` | ephemora_cell/grant_ledger.py:353-391 | deleting a refuse line is never noticed and changes no state |
| `GrantSafety.RevokeDeletionIsNoticedIff` | ephemora_cell/grant_ledger.py:353-391 | deleting a revoke line is noticed exactly when it was the one that counted and the next stamped revocation has an unreadable stamp; otherwise the grant is revoked from the next readable stamp on, or not at all |
| `GrantSafety.ApprovesExactly` | ephemora_cell/grant_ledger.py:213-304 | a call is approved exactly when the grant is not revoked, the clock lies in the window and a call is left; it books the next count, a refusal spends nothing |
| `GrantSafety.ChargeRaises` | ephemora_cell/grant_ledger.py:213-250 | a call is not decided exactly on a bound that does not parse, a book that does not replay, or a clock without offset against a bound |
| `GrantSafety.ChargeWritesLine` | ephemora_cell/grant_ledger.py:213-304 | the line of an approval carries the new count, of a refusal by the cap the old one, of any other refusal none, with the clock's millisecond |
| `GrantSafety.UsageIsHistory` | ephemora_cell/grant_ledger.py:309-391 | after every history usage shows how many calls were approved and the millisecond of the first revocation, and raises at its line when that one used a clock without offset |
| `GrantSafety.CallsAreRightful` | ephemora_cell/grant_ledger.py:189-332 | in every history the k-th call line books k, within the cap and window of the grant that approved it, with no revocation before it |
| `GrantSafety.EveryRunIsRightful` | ephemora_cell/grant_ledger.py:189-332 | the same for every schedule of the lock protocol |
| `GrantSafety.WrittenBookVerifiesIff` | ephemora_cell/grant_ledger.py:309-332 | a book written here verifies exactly when no revocation that mattered used a clock without an offset |
| `HashChain.HexRoundTrip` | ephemora_cell/ledger.py:145-163 | a signature written as hexadecimal reads back |
| `HashChain.PlacedIs` | ephemora_cell/ledger.py:317-327 | field by field, what append assigns: position 0 and 64 zeros in an empty ledger, otherwise one more than the last position and the digest of the last entry; after an exception what had been assigned by then |
| `HashChain.TruncatedIs` | ephemora_cell/ledger.py:323-324 | a position that is a float is cut towards zero |
| `HashChain.SignsExactly` | ephemora_cell/ledger.py:145-163 | an entry is signed exactly when it can be canonicalized with its algorithm and the signer answers with bytes for that text, whose hexadecimal text is the last member |
| `HashChain.ChainBreak` | ephemora_cell/ledger.py:210-247 | the loop returns the first break with its position, nothing exactly for an accepted chain, and raises as digesting does |
| `HashChain.Ledger.Append` | ephemora_cell/ledger.py:298-336 | reads the last line back through the tail window, assigns position and seal in the entry itself and appends exactly the text of that record with a newline, or raises and leaves the file alone, with the entry's fields after a failure stated |
| `HashChain.Ledger.Entries` | ephemora_cell/ledger.py:338-348 | every non-blank line loaded in file order, or the number of the first that is not JSON |
| `HashChain.Ledger.Verify` | ephemora_cell/ledger.py:350-356 | verifies exactly when every line loads and the entries are an accepted chain |
| `ChainRigidity.AcceptedIff` | ephemora_cell/ledger.py:210-247 | a chain is accepted exactly when it has an entry, all can be digested, and each is of the known version, names its position, seals the one before, the first one 64 zeros, and is signed over its bytes when a check is given |
| `ChainRigidity.AcceptedAt` | ephemora_cell/ledger.py:229-247 | in an accepted chain each entry names its position and the digest of the one before |
| `ChainRigidity.LastEntryFixesTheChain` | ephemora_cell/ledger.py:183-247 | two accepted chains whose last entries agree apart from signatures have one length and agree entry by entry, or two colliding byte strings are returned |
| `ChainRigidity.ChoppedTailIsUnseen` | ephemora_cell/ledger.py:250-266 | every nonempty prefix of an accepted chain is accepted |
| `LedgerLines.SignedVerifiesIff` | ephemora_cell/ledger.py:145-202 | a signed record, written and read back, is checked against the bytes that were signed and the very signature the signer gave |
| `LedgerLines.RecordReadsBack` | ephemora_cell/ledger.py:125-163 | a record read back has the same members in the same order, each field read back |
| `ChainAppend.HistoryReads` | ephemora_cell/ledger.py:298-348 | after any history of appends every line of the file loads, and no proper end of a line does |
| `ChainAppend.FileAfter` | ephemora_cell/_appendlog.py:142-164 | the bytes an append leaves are the lines before and the line the rule gives, or the same bytes |
| `ChainAppend.RunsFormChains` | ephemora_cell/ledger.py:298-348 | after any history of appends the entries read from the file are an accepted chain exactly when each was fit before its append: of the known version and, unsigned, with fields that can be canonicalized once surrogate pairs are joined where no signature is asked for, or, signed, under the pinned algorithm with an answer the verifier accepts |
| `ChainAppend.SignedIsFit` | ephemora_cell/ledger.py:145-163 | entries of the known version signed by a signer the verifier accepts under the pinned algorithm are fit for every chain |
| `ChainAppend.AppendsGoOnIff` | ephemora_cell/ledger.py:317-336 | in every history an append goes on only when the last record with its newline fits the tail window and, read back, can be digested; an unsigned append of anything that can be written does exactly then |
| `ChainAppend.StuckIff` | ephemora_cell/ledger.py:317-336 | the last record lets appends go on exactly when its line with the newline fits the window and it is signed or, with surrogate pairs joined, every field can be canonicalized |
| `ChainAppend.LongIdSticks` | ephemora_cell/ledger.py:317-336 | after any history whose last run id is as long as the window, signed or not, every append raises |
| `ChainAppend.LongEntrySticks` | ephemora_cell/ledger.py:317-336 | for every surrogate-free run id of that length: the entry is written, the ledger verifies, and no append ever gets past it |
| `ChainAppend.LoneSurrogateSticks` | ephemora_cell/ledger.py:317-336 | an unsigned entry with a lone surrogate in its run id is written, breaks the chain, and ends the ledger |
| `ChainAppend.JoinedPairGoesOn` | ephemora_cell/ledger.py:317-336 | an unsigned entry with both surrogates of a character is read back with the character, verifies, and the next append goes on |
| `RecordChain.ReceiptBindsOneRecord` | ephemora_cell/execution_report.py:736-764 | two records that verify with one receipt agree apart from signatures, or their payloads collide |
| `Base64.RoundTrip` | ephemora_cell/grant_trust.py:339-355 | decoding an encoding gives the bytes back |
| `Base64.EncodedNumber` | ephemora_cell/grant_trust.py:544-553 | an encoding is the number that the bytes are, in base 64, with zero bits up to a whole symbol and padding up to a group of four |
| `Base64.CanonicalIffEncoded` | ephemora_cell/grant_trust.py:339-355 | a text is accepted for given bytes exactly when it is their encoding |
| `Base64.AcceptedIffEncoding` | ephemora_cell/grant_trust.py:339-355 | the accepted texts are the encodings of byte strings and nothing else |
| `Base64.AliasIsRefused` | ephemora_cell/grant_trust.py:339-355 | an alias that decodes to the same bytes is refused |
| `Dsse.PaeInjective` | ephemora_cell/execution_report.py:961-975 | what is signed determines the payload type and the payload |
| `Dsse.PaeLayout` | ephemora_cell/execution_report.py:961-975 | what is signed is the six letters, the low-first four-byte length of the type, the type, that of the payload, the payload; it raises exactly for a surrogate or a length beyond four bytes |
| `GrantTrust.FalsyAre` | ephemora_cell/grant_trust.py:400-443 | an id or tool is missing exactly when it is null, false, a zero or empty |
| `GrantTrust.VerifyEnvelope` | ephemora_cell/grant_trust.py:212-336 | the loop over signatures with its list of used keys computes the verification function, steps in order |
| `GrantEnvelope.PayloadIsCanonical` | ephemora_cell/grant_trust.py:400-443 | a payload that reads as a grant is the canonical bytes of that grant, and decodes to its ten fields and no other |
| `GrantEnvelope.GrantReadsBack` | ephemora_cell/grant_trust.py:400-443 | the canonical bytes of a grant read back as that grant exactly when it has an id, a tool and a valid allowlist, readable bounds, and a cap that is absent or a natural number |
| `GrantEnvelope.GrantOfIff` | ephemora_cell/grant_trust.py:400-443 | a payload reads as a grant exactly when it is the canonical bytes of that grant, which has an id, a tool, a valid allowlist, readable bounds and a usable cap |
| `GrantEnvelope.SignsExactly` | ephemora_cell/grant_trust.py:511-554 | signing succeeds exactly for a grant that names no other key and can be canonicalized, when the signer answers with bytes |
| `GrantEnvelope.SignedGrantVerifiesIff` | ephemora_cell/grant_trust.py:511-554 | a signed grant verifies to itself with the signing key's id exactly when the key is not retired and the moment lies between the stamps of its bounds, the grant is complete with readable bounds and a usable cap, and the moment is before the stamp of its own upper bound |
| `GrantEnvelope.KeyNamedIff` | ephemora_cell/grant_trust.py:281-288 | the key a signature is checked against is the first of the root with the id it names |
| `GrantEnvelope.AcceptedEnvelopeIs` | ephemora_cell/grant_trust.py:212-336 | every accepted envelope carries the one canonical base64 of its grant's canonical bytes, every signature was made over it by a trusted key at a moment between the stamps of the key's bounds, and the grant names one of those keys and its own upper stamp lies ahead |
| `GrantEnvelope.VerifiedIff` | ephemora_cell/grant_trust.py:212-336 | and the other way round: whatever envelope meets all of this verifies to that grant, so acceptance is exactly these conditions on the fields of envelope, root, keys and grant |
| `GrantEnvelope.PayloadTextIdentifiesGrant` | ephemora_cell/grant_trust.py:212-355 | among accepted envelopes of one root payload text and grant determine each other |
| `EgressPaths.SegmentsConcat` | ephemora_cell/egress_sidecar.py:278-281 | splitting at slashes distributes over joining with a slash |
| `EgressPaths.NoDotSegmentIffFixed` | ephemora_cell/egress_sidecar.py:270-281 | a path has no dot segment exactly when remove_dot_segments of RFC 3986 section 5.2.4 leaves it unchanged |
| `EgressPaths.UnquoteLiteral` | ephemora_cell/egress_sidecar.py:270-281 | text without a percent sign is untouched by decoding, whatever follows it |
| `EgressPaths.PathAllowedIff` | ephemora_cell/egress_sidecar.py:284-298 | the prefix match is a prefix match on segments; an entry ending in a slash asks for at least one more, an empty one or `/` admits every path |
| `EgressPaths.AdmittedPathIsContained` | ephemora_cell/egress_sidecar.py:270-298 | an admitted path, as sent and as decoded once, is fixed under normalization and lies below the entry on a segment boundary |
| `EgressSpellings.SpellingIsDecoded` | ephemora_cell/egress_sidecar.py:270-281 | decoding once turns every spelling of a text, each ASCII character as itself or escaped in either case, into the text |
| `EgressSpellings.DotSpellingIsRefused` | ephemora_cell/egress_sidecar.py:270-281 | no policy admits any spelling of a path with a dot segment |
| `EgressSpellings.HighBytesAreDecoded` | ephemora_cell/egress_sidecar.py:270-281 | consecutive escapes of bytes above 0x7F are decoded together |
| `EgressSpellings.MalformedEscapeStays` | ephemora_cell/egress_sidecar.py:270-281 | a percent sign without two hexadecimal digits stays as it is |
| `EgressPolicy.UrlMatchesAllowlist` | ephemora_cell/egress_sidecar.py:490-526 | the checks and the loop over entries compute the position of the matching entry, fail closed |
| `EgressPolicy.MatchIsFirst` | ephemora_cell/egress_sidecar.py:511-525 | a match is the first matching entry with no unreadable port of the same host before it, and the other way round |
| `EgressPolicy.MatchIff` | ephemora_cell/egress_sidecar.py:490-526 | the decision on the fields of URL and entries: a URL gets an entry exactly when it has one of the two schemes, no user information, fragment or absurd port, a path that normalization leaves alone before and after decoding, and this is the first entry of its scheme, host and port (443 or 80 when there is none) with its path in front, none before it ending the search |
| `EgressPolicy.AcceptedUrlIsContained` | ephemora_cell/egress_sidecar.py:315-340 | under a valid policy the decoded path of an accepted URL lies below the entry as well |
| `EgressPolicy.RedirectHandler.RedirectRequest` | ephemora_cell/egress_sidecar.py:409-449 | one redirect response moves the handler's fields as the hop function does; a refused hop changes neither the chain nor the visit counts |
| `EgressPolicy.HopKeepsSane` | ephemora_cell/egress_sidecar.py:409-449 | each hop keeps: every followed target cleared both policies under the first scheme, and visits add up to the hops |
| `EgressPolicy.EveryChain` | ephemora_cell/egress_sidecar.py:382-449 | in any redirect chain every followed hop clears both policies and keeps the first scheme, and there are at most 37 |
| `EgressPolicy.LongestChain` | ephemora_cell/egress_sidecar.py:409-449 | the bound of 37 is reached, by any ten different targets that both policies allow |
| `EgressFetch.ReadBody` | ephemora_cell/egress_sidecar.py:650-667 | for every way the stream is split into reads the loop ends with exactly the first min(length, cap) bytes, truncated exactly when the stream is longer, unless a clock reading passes the deadline |
| `EgressFetch.MediateWithGrant` | ephemora_cell/egress_sidecar.py:832-938 | parse, grant allowlist, ceiling, ledger, in that order, with the ledger's book after the call |
| `EgressFetch.RefusedExactly` | ephemora_cell/egress_sidecar.py:530-580 | a call is refused by parser, grant allowlist or ceiling exactly when the document was not understood, or its method is not listed, its URL matches no entry or a header is none of the three names, in that order; it comes to the ledger exactly otherwise |
| `EgressFetch.CleanIsContained` | ephemora_cell/egress_sidecar.py:490-526 | under valid policies every URL that reaches the ledger lies below an entry of the grant and of the ceiling |
| `EgressFetch.LedgerOutcome` | ephemora_cell/egress_sidecar.py:897-937 | from there on the outcome is what the ledger decided |
| `EgressFetch.OneCallOneLine` | ephemora_cell/egress_sidecar.py:832-938 | one undisturbed call: a refusal by parser, allowlist or ceiling leaves the book alone, a refusal by the ledger spends no call, a fetch spends exactly one call of its own grant |
| `MediatedRuns.StepKeepsInv` | ephemora_cell/egress_sidecar.py:832-938 | every step of any process, deaths included, keeps the approvals matched one to one with the call lines of the book, in order, and every approved request cleared by both allowlists |
| `MediatedRuns.CallLinesAreAccountedFor` | ephemora_cell/egress_sidecar.py:832-938 | after any schedule a grant's call lines are the fetches started under it, the approvals not used yet, and those whose process died first |
| `MediatedRuns.FetchesWithinCap` | ephemora_cell/egress_sidecar.py:832-938 | when every document presented under an id allows at most m calls, no schedule starts more than m fetches under it |
| `MediatedRuns.FetchIsPaidFor` | ephemora_cell/egress_sidecar.py:832-938 | whenever a fetch starts, its request had cleared both allowlists and the book holds a call line that no other approval has, rightful where it stands |
| `MediatedRuns.ApprovalsAreClean` | ephemora_cell/egress_sidecar.py:832-938 | every approval of every schedule was given to a request that both allowlists pass, with its URL below an entry of each |
| `MediatedRuns.FatesAreFinal` | ephemora_cell/egress_sidecar.py:907-938 | an approval that was used or lost is never used again |
| `MediatedRuns.AloneIsMediated` | ephemora_cell/egress_sidecar.py:832-938 | undisturbed, the steps of one process leave the book that the mediated call leaves, and start a fetch exactly when it ends in one |
| `Eviction.EvictsOldestIdle` | ephemora_cell/engine_pool.py:170-181 | eviction keeps live entries, takes idle ones from the front, and stops as soon as there is room or nothing idle is left |
| `Eviction.EvictedIsSub` | ephemora_cell/engine_pool.py:170-181 | nothing appears, and every entry with a live run stays |
| `Eviction.SurvivesIff` | ephemora_cell/engine_pool.py:170-181 | an entry survives exactly when there is room, or it has a live run, or as many idle entries stand before it as have to go |
| `Eviction.AskedKeepsIff` | ephemora_cell/engine_pool.py:151-181 | a request leaves an entry pooled exactly when its fingerprint is known or the entry survives the eviction; it adds an engine exactly when the fingerprint is unknown |
| `EnginePool.EvictsLeastRecentlyUsed` | ephemora_cell/engine_pool.py:170-181 | every entry taken was used longer ago than every idle entry left, and there is room for one more or everything left is live |
| `EnginePool.EnginePool.EvictLocked` | ephemora_cell/engine_pool.py:170-181 | the nested search computes the eviction function on both indexes |
| `EnginePool.EnginePool.EngineFor` | ephemora_cell/engine_pool.py:151-168 | a known fingerprint moves to the end, an unknown one gets a new engine after eviction; the engine was built for this configuration's metering and memory64 or fingerprints collide; the id index stays the inverse |
| `EnginePool.EnginePool.Retain` | ephemora_cell/engine_pool.py:207-212 | when nothing comes between lookup and count, one more live run on an engine that is pooled; refused for any other |
| `EnginePool.RetainedButEvicted` | ephemora_cell/engine_pool.py:207-225 | an eviction between the two locked sections of retain leaves an engine counted as live and no longer pooled |
| `PoolRuns.PooledIffSpared` | ephemora_cell/engine_pool.py:151-181 | after any schedule of locked sections an entry is pooled exactly when it was and every step spared it |
| `PoolRuns.RequestSparesIff` | ephemora_cell/engine_pool.py:151-181 | on the counts alone: a request leaves an entry pooled exactly when its fingerprint is known, there is room, a run has counted the entry, or as many uncounted entries stand before it as have to go |
| `PoolRuns.RetainedIsPooledIff` | ephemora_cell/engine_pool.py:207-225 | whatever comes between the lookup and the count of retain, the entry is counted once more and is pooled exactly when no close and no evicting request came between |
| `PoolRuns.BusyStaysPooled` | ephemora_cell/engine_pool.py:170-218 | without close, a pooled entry stays pooled in every schedule for as long as its count is positive |
| `PoolRuns.LeasesAreCounted` | ephemora_cell/engine_pool.py:183-218 | when each run releases the engine it retained, the count of every engine is the number of runs that hold it, in every schedule |
| `PoolRuns.EveryLeaseHolds` | ephemora_cell/engine_pool.py:183-218 | from the empty pool, in every schedule of leases without close, an engine pooled when a run counted it is pooled until that run counts it down |
| `PoolRuns.LeaseSucceedsIff` | ephemora_cell/engine_pool.py:183-225 | at the end of a lease the engine can be looked up for release exactly when it was spared between the lookup and the count of retain |
| `PoolRuns.GoneForGood` | ephemora_cell/engine_pool.py:207-225 | an entry once out never comes back, looking it up raises for ever, and, unless a release had looked it up before, its count never falls |
| `EnginePool.EnginePool.Release` | ephemora_cell/engine_pool.py:214-218 | when nothing comes between lookup and count, one live run less, never below zero; refused for an engine that is not pooled |
| `EnginePool.EnginePool.CachedModuleData` | ephemora_cell/engine_pool.py:242-260 | the module was compiled on this engine from exactly the given bytes, or the digest collides; the cache keeps its newest entries |
| `EnginePool.EnginePool.Close` | ephemora_cell/engine_pool.py:273-279 | both indexes are empty afterwards |

## Left out

- Jcs.JcsSucceedsIff: keys that are not strings, which raise, are not values of its input type.
- JcsRoundTrip.CanonicalBytesReadBack: a float is its shortest decimal digits and a number text is read as the decimal it writes; that these digits come back as the same double, which `repr` and `float` promise each other, is not modelled.
- GrantEnvelope.PayloadIsCanonical: rounding to a double is not modelled, so a number written with more digits than any double's shortest form, which the code refuses as not canonical, is taken as it is written; the fields that are compared or enforced hold no floats.
- HashChain.Ledger.Append: a foreign last line in UTF-16 or UTF-32, or with a byte order mark, which `json.loads` detects, does not load here; the limits of the interpreter on recursion, and on integers of more than 4300 digits in a foreign line, are not modelled; a version, stamp or seal that is not a string is not an input. `head` is not modelled.
- ChainAppend.RunsFormChains: assumes that the digest is printed without surrogates, as hexadecimal is; `AppendsGoOnIff` and `StuckIff` do too.
- JsonDump.DumpReadsBack: a float is its shortest decimal digits; that reading them gives the same double, which `repr` and `float` promise each other, is not modelled.
- TenantTamper.UnreadEditIsUnseen: the limit named in a refuse line, like every other field a replay does not look at, is not part of a line here at all.
- GrantBook.GrantLedger.Record: grant ids are Dafny strings, and tenant ids too, so ids holding surrogates are not inputs; in the code a grant id given as the two surrogates of one character is read back as that character, so its own call lines are never counted for it.
- RecordChain.ReceiptBindsOneRecord: the record id is compared as a JSON value; that Python also finds True equal to 1 is not modelled.
- TenantCaps.UsageIsDefined: for moments from the last write on; an earlier moment may count lapsed reservations again and overflow, as in `TenantCaps.EarlierReadingOverflows`.
- TenantStore.TenantStore.AdmitTenant: the TTL is a whole number of microseconds, so a positive TTL that rounds to none is not an input.
- EnginePool.EnginePool.Retain: lookup and increment are one step; in the code they are two locked sections, which `PoolRuns` takes apart.
- EnginePool.EnginePool.Release: lookup and decrement are one step; in the code they are two locked sections, which `PoolRuns` takes apart.
- EnginePool.EnginePool.CachedModuleData: lookup and cache update are one step; in the code they are under the pool's lock and the entry's, and an engine evicted in between still gets its module, cached where no later lookup finds it.
- PoolRuns.PooledIffSpared: modules, tickers and the engines themselves are not part of the schedules; entries are numbers.
- BilledRun.RunAddsOneRecord: nobody else writes between a run's admit and its close; `ConcurrentRuns` is about runs beside each other.
- EgressFetch.MediateWithGrant: ends where the fetch starts; `MediatedRuns` makes its start a step of its own.
- EgressFetch.ReadBody: the cap is not negative; sockets, resolver and error paths of the fetch around the loop are not modelled.
- EgressPolicy.AcceptedUrlIsContained: URLs are taken already split, with the fields `urlsplit` yields.
- WriterProtocol.StepKeepsInvariant: the tail read that precedes each decision is part of `AppendLog` only; when it raises on a file with a foreign or over-long last line, nothing is written, which the protocol covers as a decision that raises.
- WriterProtocol.EveryRunIsValid: a line is appended whole or not at all; torn writes, fsync, symbolic links and file locks across file systems are not modelled.
- Loading a trust root document (duplicate ids, replacement chains, unknown fields) and loading a directory of grants: validation of one document at a time, with no property across operations.
- Request documents, header rules beyond the allowed names, audit entries and response documents: plumbing around the decisions.
- Epoch tickers, wasmtime, linkers, subprocess isolation, operating-system limits: foreign calls without semantics here.
- The address registry and resolver guard, proxies and timeouts of a fetch: network input and output.
- SHA-256, Ed25519 and PEM parsing: a digest function and a signature check are parameters.
- Stamps: parsing an ISO-8601 stamp is a parameter; naive stamps in tenant lines, which raise when compared, are not inputs.
- Execution reports, detached JWS, security baselines and profiles, state files, the CLI, inspector, MCP package and benchmarks: outside this layer.

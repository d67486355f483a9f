# Craton HSM Enterprise: verified models

Dafny models of the parts of Craton HSM Enterprise whose correctness rests on state that
outlives one call, and proofs about them for all inputs, all interleavings or all runs.

- **The AES-GCM invocation counter** (`Gcm*.dfy`). A reservation advances a per-key counter; a
  journal file keeps a ceiling ahead of it so that a restart never hands out a count again.
  `GcmJournal` and `GcmFile` model the bytes of the journal: records, the tolerant parser, the
  version marker, the MAC footer, the backwards footer scan, truncating recovery and rewriting.
  `GcmProtocol` states each operation once, over any representation of the journal; `GcmRuns` and
  `GcmLedger` prove it over maps; `GcmEviction` is about sweeps, `GcmWrites` about how often the
  journal is written; `GcmRefinement`, `GcmBackend`, `GcmUnsafe` and `GcmTampering` carry the theorems
  down to the bytes and to the classes that change state.
- **Signed binaries** (`MetadataJson.dfy`, `SignedBinary.dfy`). The envelope around a binary, its
  canonical JSON and the exact set of byte strings that verification accepts.
- **The FIPS 140-3 state machine** (`Fsm*.dfy`). The validator against declarative rules, and the
  runtime as atomic steps of any number of interleaved threads.
- **The KMIP key store** (`Kmip*.dfy`). Object lifecycle, ownership, identifiers and what callers are
  told, down to the wording of refusals, over whole runs of the request handlers.
- **Server caches** (`Replay.dfy`, `RateLimiter.dfy`). Each against a full-history specification.
- **DER and RSA exponents** (`Der.dfy`, `RsaExponent.dfy`, over `BigEndian.dfy`).

HMAC and SHA-256 are function parameters, so the theorems hold for every such function; where two
different inputs must not hash alike, that is a stated premise. Clock readings, random bytes, HKDF
output, the fate of each file write and the answers of installed guards are parameters too.

## What the proofs found

- A journal that is opened without a footer and ends inside a line, or holds a line that is not
  UTF-8, is accepted, but records written to it are not read back, so counts repeat after a restart.
  `GcmUnsafe.BareFragmentRepeats` gives the one-byte file `x`. `GcmUnsafe.NeverRepeatsIff` gives the
  exact condition for every file that opens: it is append-safe, or it has exactly 16 malformed lines
  and ends in an unterminated record, which the next write turns into a seventeenth malformed line,
  after which no process comes up again.
- In every reachable state of the file-backed counter the flush before an eviction finds its count
  already covered, so it never writes and the failure streak stays at zero (`GcmRuns.EvictOneSafe`).
- Near the limit a key costs one journal write more than one at first sight and one at the limit: the
  refusal there writes a POISONED record too (`GcmWrites.WritesPerBatch`, `GcmWrites.ThreeWrites`).
- The error latch is never cleared, so a module that errs, is powered off, comes up again and errs a
  second time in CryptoOfficerMode is not zeroized (`FsmErrors.SecondErrorNotZeroized`);
  `FsmErrors.FollowedIff` says exactly what is followed by a zeroization.
- Register does not enter the type index, so Locate by type never finds an imported object
  (`KmipEffects.LocateByType`).
- A KMIP client may register a name that Create will generate later; Create then replaces that
  object. `KmipRuns.KeptIff` says exactly which objects are safe from this.
- Refusals are meant to hide whether another owner's object exists. `KmipRuns.Masked` says exactly
  which answers tell: Register, Activate, Revoke and Destroy under its name; Get and Check if it is
  destroyed; DeriveKey with a valid length if it is not. For Activate, Revoke, Destroy and DeriveKey,
  and for Get and Check, only the text of the refusal differs (`KmipRuns.ActivateTells`).
- `der_encode_integer` on the empty input gives `02 00`, which is not a DER INTEGER; this is the
  only such input (`Der.IntegerRoundTrip`).

Where code and comments disagree the model follows the code: the module comment of
`craton-hsm-awslc/src/lib.rs` says that counts start again at zero after a restart or an eviction,
while the code takes them from the journal; the one of `gcm_counter.rs` says that the journal is
append-only and names version 1 of the key derivation, while the code rewrites the file and uses
version 2, with version 1 only as a fallback.

## Model

| member | source | states |
|---|---|---|
| GcmJournal.ParseRecords | craton-hsm-awslc/src/gcm_counter.rs:868-943 | the line loop builds the map and the malformed count of the recursive reading: lines up to the first that is not UTF-8, comments and blanks skipped, ceilings by maximum, a ceiling of 2^32 poisons |
| GcmJournal.ParseRecordLine | craton-hsm-awslc/src/gcm_counter.rs:615-618 | a written record, after any amount of white space, is read as exactly what it says |
| GcmJournal.ParseAppend | craton-hsm-awslc/src/gcm_counter.rs:603-662 | a record added to an append-safe body changes what a load sees by exactly that record, adds no malformed line and keeps the body append-safe |
| GcmJournal.UnsafeAppendLosesRecord | craton-hsm-awslc/src/gcm_counter.rs:868-943 | the converse: after any other body the record of a new fingerprint is not read back |
| GcmJournal.ParseExtended | craton-hsm-awslc/src/gcm_counter.rs:868-943 | what any ASCII line written after any body does: it is glued to an unterminated last line and lost behind a line that is not UTF-8 |
| GcmJournal.AppendMalformed | craton-hsm-awslc/src/gcm_counter.rs:868-943 | a record adds one malformed line exactly when it is glued to an unterminated well-formed record, and none otherwise |
| GcmJournal.ParseMarksLimit | craton-hsm-awslc/src/gcm_counter.rs:920-932 | every body loads to a map whose entries are poisoned exactly from 2^32 on |
| GcmFile.FindLastSubslice | craton-hsm-awslc/src/gcm_counter.rs:850-860 | finds the rightmost occurrence of a non-empty needle, or none if there is none |
| GcmFile.SplitFooter | craton-hsm-awslc/src/gcm_counter.rs:809-848 | terminates on every input and splits at the last newline-terminated UTF-8 line starting with `#MAC `, missing none |
| GcmFile.VerifyFile | craton-hsm-awslc/src/gcm_counter.rs:703-787 | marker, footer, MAC and parse give the verdict, map and length of the load specification, for every file |
| GcmFile.OpenFile | craton-hsm-awslc/src/gcm_counter.rs:226-267 | load under the current key, retry of unmarked files under the legacy key, truncation of an unverified tail |
| GcmFile.ReadBody | craton-hsm-awslc/src/gcm_counter.rs:792-807 | strips the marker and the last usable footer |
| GcmFile.AppendRecord | craton-hsm-awslc/src/gcm_counter.rs:603-662 | the file written is marker, body with the record, and the footer over both |
| GcmFile.LoadIgnoresTail | craton-hsm-awslc/src/gcm_counter.rs:703-787 | loading a sealed file ignores every tail that brings no footer line of its own |
| GcmFile.OpenIgnoresTail | craton-hsm-awslc/src/gcm_counter.rs:232-267 | opening such a file recovers its map and truncates it back to what it was before the tail |
| GcmFile.OpenIdempotent | craton-hsm-awslc/src/gcm_counter.rs:232-267 | for every file, opening what an open leaves behind finds the same entries and verdict and changes nothing |
| GcmFile.SealLoads | craton-hsm-awslc/src/gcm_counter.rs:603-662 | a body written with marker and footer is found again, verifies under its key and is parsed as it stands |
| GcmFile.OpenReadsBody | craton-hsm-awslc/src/gcm_counter.rs:792-807 | what an open reports is what the body of the file it leaves says, for marked, unmarked and footerless files |
| GcmFile.WriteThenOpen | craton-hsm-awslc/src/gcm_counter.rs:603-662 | reopening after a write gives the map the write meant, the MAC verifies and no line is malformed that was not before |
| GcmFile.RecordReadBack | craton-hsm-awslc/src/gcm_counter.rs:603-662 | a first record is read back if and only if the body it is added to is append-safe |
| GcmRuns.ReserveSafe | craton-hsm-awslc/src/lib.rs:206-313 | a reservation keeps the invariant between counter, handle and journal, lowers no key's floor and releases exactly the count above the floor |
| GcmRuns.ReserveSucceeds | craton-hsm-awslc/src/lib.rs:232-313 | it succeeds if and only if counts are left and the window is open or its extension is written |
| GcmRuns.EvictOneSafe | craton-hsm-awslc/src/lib.rs:400-460 | in every reachable state an eviction writes nothing, drops the one counter and lowers no floor |
| GcmRuns.EvictExact | craton-hsm-awslc/src/lib.rs:335-460 | in every reachable state a sweep over the whole map leaves exactly the counters from the threshold up to below 2^32, unchanged |
| GcmRuns.EvictQuiet | craton-hsm-awslc/src/lib.rs:400-460 | however the journal is kept, a sweep does not write it while the ceilings cover the counters |
| GcmRuns.FlushCovers | craton-hsm-awslc/src/gcm_counter.rs:392-416 | a successful flush leaves handle and journal at or above the count; a failed one leaves the handle's entry |
| GcmRuns.EvictFails | craton-hsm-awslc/src/lib.rs:416-457 | an entry whose flush fails keeps its count; at the fifth failure in a row a written record ends the key |
| GcmRuns.ResetEffect | craton-hsm-awslc/src/lib.rs:321-325 | the reset key goes on above its ceiling; no other counter changes |
| GcmRuns.StepSafe | craton-hsm-awslc/src/lib.rs:206-460 | every reservation, eviction sweep, reset and restart, with any write outcome, keeps the invariant and releases at most the next count |
| GcmRuns.RunSafe | craton-hsm-awslc/src/lib.rs:206-460 | in every run the counts released for a key strictly increase across process lives and stay within 2^32 |
| GcmRuns.ReleasesBounded | craton-hsm-awslc/src/gcm_counter.rs:368-372 | releases of a key are paid for by the rise of its floor, hence at most 2^32 over all process lives |
| GcmRuns.SpentForever | craton-hsm-awslc/src/lib.rs:232-271 | a key at the limit is never served again, whatever follows |
| GcmRuns.SpentBecause | craton-hsm-awslc/src/gcm_counter.rs:921-932 | a refusal with working writes, a POISONED record or a ceiling of 2^32 at a restart puts a key at the limit |
| GcmLedger.JournalAboveReleases | craton-hsm-awslc/src/gcm_counter.rs:334-374 | after any run, whatever failed, a load resumes strictly above every count ever released |
| GcmLedger.RunSynced | craton-hsm-awslc/src/gcm_counter.rs:285-308 | when no write fails, journal and live handle agree at every moment of every run |
| GcmLedger.RestartSynced | craton-hsm-awslc/src/gcm_counter.rs:921-932 | a restart then changes no answer but the poison flag at 2^32 |
| GcmLedger.RehydrationSkip | craton-hsm-awslc/src/lib.rs:239-282 | with working writes each rehydration, by restart, reset or eviction sweep, skips at most 1024 counts |
| GcmWrites.RunWrites | craton-hsm-awslc/src/gcm_counter.rs:334-441 | the records written for a key are exactly its ceiling extensions and its POISONED records |
| GcmWrites.WritesPerBatch | craton-hsm-awslc/src/gcm_counter.rs:345-373 | between rehydrations, with working writes, r reservations of a key write at most r/1024 + 1 records, one more on reaching 2^32 and one more when a reservation is refused there |
| GcmWrites.ThreeWrites | craton-hsm-awslc/src/gcm_counter.rs:345-373 | the bound is met: from ceiling 2^32 - 2, three reservations release two counts and write three records |
| GcmRefinement.RunRefines | craton-hsm-awslc/src/lib.rs:206-460 | every run over a faithful journal representation is, release by release, the run over the map it stands for |
| GcmRefinement.RunTwins | craton-hsm-awslc/src/lib.rs:206-460 | the same, release by release, when a write may leave a journal that never opens again |
| GcmRefinement.FailedReleasesNothing | craton-hsm-awslc/src/gcm_counter.rs:334-345 | a journal whose integrity check failed releases nothing in any run |
| GcmBackend.PersistentGcmCounter.FileBacked | craton-hsm-awslc/src/gcm_counter.rs:192-280 | loading, legacy retry and truncation give the opened file, map and verdict, and fail exactly for the files that must be refused |
| GcmBackend.PersistentGcmCounter.Rewrite | craton-hsm-awslc/src/gcm_counter.rs:603-662 | reads the body, adds the record and seals it again, unless the write leaves the old file |
| GcmBackend.PersistentGcmCounter.RecordAdvance | craton-hsm-awslc/src/gcm_counter.rs:334-374 | the new file, map and result, for every outcome of the write, are those of the protocol step |
| GcmBackend.PersistentGcmCounter.FlushFingerprint | craton-hsm-awslc/src/gcm_counter.rs:392-416 | likewise for the flush before an eviction |
| GcmBackend.PersistentGcmCounter.RecordPoison | craton-hsm-awslc/src/gcm_counter.rs:419-441 | likewise for a POISONED record |
| GcmBackend.GcmCounters.ReserveGcmNonce | craton-hsm-awslc/src/lib.rs:206-313 | counter, journal and result are those of the protocol step, rollback included |
| GcmBackend.GcmCounters.ResetGcmCounter | craton-hsm-awslc/src/lib.rs:321-325 | forgets the one counter and nothing else |
| GcmEviction.SelectNth | craton-hsm-awslc/src/lib.rs:373-375 | an element with n others at most as large and the rest at least as large |
| GcmEviction.SnapshotCounts | craton-hsm-awslc/src/lib.rs:348-358 | a walk over the map puts the count of every live entry into the snapshot once, and nothing else |
| GcmEviction.SweepBound | craton-hsm-awslc/src/lib.rs:366-399 | a sweep happens only when more than the maximum are live, and then at most the maximum many are below its threshold |
| GcmBackend.GcmCounters.EvictGcmCounters | craton-hsm-awslc/src/lib.rs:335-460 | drops the exhausted entries; if more than the maximum are left, the threshold is the maximum-th smallest live count and every entry of the walk below it is flushed and dropped, or kept and after five failures poisoned |
| GcmBackend.JournalFaithful | craton-hsm-awslc/src/gcm_counter.rs:603-787 | over readable files, writing and reopening bytes is applying a record to, and keeping, the map a load reads |
| GcmBackend.CountsNeverRepeat | craton-hsm-awslc/src/lib.rs:206-460 | over the journal bytes, from any file that opens and is append-safe or failed its check, no count of a key is released twice in any run, and at most 2^32 are |
| GcmBackend.SpentAtOpen | craton-hsm-awslc/src/gcm_counter.rs:921-932 | a key that the opened file shows POISONED or at 2^32 is never served in any run |
| GcmBackend.RefusedForever | craton-hsm-awslc/src/lib.rs:232-271 | over the journal bytes: once a reservation with a working write is refused, the key is never served again in any run |
| GcmBackend.JournalAgrees | craton-hsm-awslc/src/gcm_counter.rs:603-662 | the bytes after any run open, verify and show no new malformed line; a load is above every release and, without write failures, answers as the live handle |
| GcmBackend.NewJournalServes | craton-hsm-awslc/src/gcm_counter.rs:232-267 | a new file opens, is append-safe and serves count 1, then 1026 after a restart |
| GcmTampering.TagDecides | craton-hsm-awslc/src/gcm_counter.rs:703-787 | for every marked, terminated body and every tag: loading verifies if and only if the tag is the MAC of marker and body |
| GcmTampering.UnmarkedTagDecides | craton-hsm-awslc/src/gcm_counter.rs:703-787 | likewise for unmarked files and the MAC of the body |
| GcmTampering.MarkedOpens | craton-hsm-awslc/src/gcm_counter.rs:226-267 | a marked file opens as verified under the current key only |
| GcmTampering.UnmarkedOpens | craton-hsm-awslc/src/gcm_counter.rs:231-249 | an unmarked file opens as verified if and only if its tag is that of the current or of the legacy key |
| GcmTampering.OtherVersionRefused | craton-hsm-awslc/src/gcm_counter.rs:675-698 | a file that names another format version is refused |
| GcmTampering.MarkedVerdict | craton-hsm-awslc/src/gcm_counter.rs:757-781 | a marked file, whatever else it holds, is verified if and only if its last footer carries the MAC of everything before it |
| GcmTampering.TamperedReleasesNothing | craton-hsm-awslc/src/gcm_counter.rs:285-308 | on any other marked file no run releases anything, and every key it lists is reported as POISONED |
| GcmUnsafe.UnsafeJournalRepeats | craton-hsm-awslc/src/gcm_counter.rs:742-786 | from every opened journal that is neither append-safe nor closed by the next record, reserve, restart, reserve releases count 1 twice |
| GcmUnsafe.NeverRepeatsIff | craton-hsm-awslc/src/gcm_counter.rs:742-786 | for every journal that opens and a key not in it: no run repeats a count if and only if it is append-safe or the next record closes it |
| GcmUnsafe.ClosingNeverRepeats | craton-hsm-awslc/src/gcm_counter.rs:728-738 | a journal that the next record closes repeats nothing in any run |
| GcmUnsafe.ClosingJournal | craton-hsm-awslc/src/gcm_counter.rs:728-738 | such a journal exists: sixteen malformed lines and an unterminated record |
| GcmUnsafe.BareFragmentRepeats | craton-hsm-awslc/src/gcm_counter.rs:742-786 | the file holding the single byte `x` opens cleanly and lets a count repeat |
| MetadataJson.JsonEncodeString | craton-hsm-certified/src/binary_sign.rs:152-177 | appends the quoted and escaped string to the buffer and changes nothing before it |
| MetadataJson.CanonicalMetaJson | craton-hsm-certified/src/binary_sign.rs:105-145 | prints the five members in key order with an empty tag |
| MetadataJson.TakeEscaped | craton-hsm-certified/src/binary_sign.rs:152-177 | escaping is uniquely decodable: string and end are found again, whatever follows |
| MetadataJson.DecodeCanonical | craton-hsm-certified/src/binary_sign.rs:105-145 | a decoder inverts the printer for every metadata |
| MetadataJson.ReadCanonical | craton-hsm-certified/src/binary_sign.rs:105-145 | a reader of JSON objects that knows no names finds each field under its own name, the tag empty, and the names in ascending order |
| SignedBinary.HexDecodeTag | craton-hsm-certified/src/binary_sign.rs:278-304 | the fixed-buffer loop accepts exactly 64 hex digits of either case and gives their bytes |
| SignedBinary.ParsedLayout | craton-hsm-certified/src/binary_sign.rs:322-427 | whatever parses is binary, magic, version, length, JSON, JSON length and tag put together, and the HMAC covers all but the tag |
| SignedBinary.ParseWritten | craton-hsm-certified/src/binary_sign.rs:322-427 | whatever has that layout parses into its parts |
| SignedBinary.SignedAccepted | craton-hsm-certified/src/binary_sign.rs:188-274 | a signed and embedded binary is accepted and comes apart into what went in |
| SignedBinary.AcceptedSigned | craton-hsm-certified/src/binary_sign.rs:474-497 | whatever is accepted is signing and embedding of its own parts, so print after parse is the identity |
| SignedBinary.AcceptedForm | craton-hsm-certified/src/binary_sign.rs:322-427 | the accepted form byte by byte: magic, version 1, both lengths, at most 1 MiB of JSON, the MAC of all before it, and a key of at least 32 bytes |
| SignedBinary.VerifyIff | craton-hsm-certified/src/binary_sign.rs:474-497 | verification accepts exactly the image of signing and embedding under a key of at least 32 bytes with at most 1 MiB of JSON |
| SignedBinary.Nested | craton-hsm-certified/src/binary_sign.rs:322-427 | an envelope signed again keeps the inner envelope and binary intact |
| SignedBinary.MessageInjective | craton-hsm-certified/src/binary_sign.rs:205-216 | the HMAC input determines the binary and the four signed fields |
| SignedBinary.DecodeJsonReadsCanonical | craton-hsm-certified/src/binary_sign.rs:322-427 | the premise on the JSON reader is met by a concrete decoder |
| FsmModel.BuildAdjacency | craton-hsm-certified/src/fsm.rs:355-359 | each state's list holds exactly the targets of its edges |
| FsmModel.Search | craton-hsm-certified/src/fsm.rs:361-372 | the stack search marks exactly the states with a path from the initial one |
| FsmModel.CheckStates | craton-hsm-certified/src/fsm.rs:373-393 | reports exactly the unreachable states and the dead states other than PowerOff |
| FsmModel.CheckExits | craton-hsm-certified/src/fsm.rs:395-438 | reports exactly a missing exit from PowerOn to SelfTest and the forbidden exits of PowerOn, ErrorState and the operational states |
| FsmModel.CheckDuplicates | craton-hsm-certified/src/fsm.rs:440-450 | reports exactly the repeated (state, event) pairs |
| FsmModel.ValidateFsm | craton-hsm-certified/src/fsm.rs:342-453 | reports exactly the violations there are, and none if and only if the model is well-formed |
| FsmModel.ReorderingIrrelevant | craton-hsm-certified/src/fsm.rs:145-174 | in a well-formed model no reordering of the transitions changes what an event does, guards included |
| FsmModel.StepMeaning | craton-hsm-certified/src/fsm.rs:145-174 | in a well-formed model an event succeeds exactly along an edge whose guard holds, is unknown exactly when no edge answers, and is refused exactly when the edge's guard fails |
| FsmRuntime.StepKeeps | craton-hsm-certified/src/fsm.rs:958-1040 | each atomic step of each thread keeps the invariant tying the state byte to the justified changes |
| FsmRuntime.EveryChangeJustified | craton-hsm-certified/src/fsm.rs:958-1040 | in every interleaving each change of the state byte is a model edge whose guard came out true for that thread, or a move to ErrorState |
| FsmRuntime.CallsExplained | craton-hsm-certified/src/fsm.rs:958-1040 | in every interleaving each result is explained by the call's own last act: the edge taken, the state loaded that has no edge, the guard that failed, or ErrorState forced or found |
| FsmRuntime.EnterEnds | craton-hsm-certified/src/fsm.rs:1027-1039 | an error call never returns but with the module in ErrorState, however often it loses the race |
| FsmRuntime.ZeroizedExactlyOnce | craton-hsm-certified/src/fsm.rs:1014-1040 | in every interleaving the hook fires at most once, and exactly once, with the latch set, when all started error calls have returned |
| FsmErrors.FollowedIff | craton-hsm-certified/src/fsm.rs:1014-1040 | when all error calls have returned, anything that happened is followed by a zeroization if and only if an error call was made and the one zeroization had not happened before |
| FsmErrors.EnterAlone | craton-hsm-certified/src/fsm.rs:1014-1040 | undisturbed, an error call zeroizes exactly when it finds the latch clear, and forces the state either way |
| FsmErrors.SecondErrorNotZeroized | craton-hsm-certified/src/fsm.rs:1014-1040 | a run of the default model whose second error in CryptoOfficerMode is followed by no zeroization, with none since that state was entered |
| FsmRuntime.OfficerOnlyAfterSelfTest | craton-hsm-certified/src/fsm.rs:232-331 | over the default model CryptoOfficerMode is entered only from SelfTest with `all_kats_pass` true for that step, and a module that was there and is powered off went through the error latch |
| FsmRuntime.DefaultWellFormed | craton-hsm-certified/src/fsm.rs:232-331 | the default model satisfies every rule |
| KmipStore.ConstantTimeEqual | _scratch/agent_operations.rs:843-868 | the padded fold with the length bit decides string equality |
| KmipStore.CheckOwnerAcl | _scratch/agent_operations.rs:909-955 | access is allowed exactly to the text owner, or to ownerless objects unless strict mode meets a known caller |
| KmipStore.InMemoryKeyStore.constructor | _scratch/agent_operations.rs:395-403 | the empty store, numbering from 1 |
| KmipStore.InMemoryKeyStore.NowEpoch | _scratch/agent_operations.rs:437-456 | the reading is the later of the wall clock and the floor, which it raises |
| KmipStore.InMemoryKeyStore.Create | _scratch/agent_operations.rs:459-480 | the next generated identifier names a fresh PreActive object, entered in the type index; the number advances, wrapping at 2^64 |
| KmipStore.InMemoryKeyStore.Register | _scratch/agent_operations.rs:653-689 | adds an object under a free name and never overwrites |
| KmipStore.InMemoryKeyStore.Activate | _scratch/agent_operations.rs:486-500 | moves along an allowed transition to Active or refuses with the store unchanged |
| KmipStore.InMemoryKeyStore.Revoke | _scratch/agent_operations.rs:502-516 | moves along an allowed transition to Deactivated or refuses with the store unchanged |
| KmipStore.InMemoryKeyStore.Destroy | _scratch/agent_operations.rs:518-545 | moves along an allowed transition to Destroyed, drops the material and leaves the type index, or refuses with the store unchanged |
| KmipStore.InMemoryKeyStore.AddAttributes | _scratch/agent_operations.rs:691-734 | adds all or none, in whatever order the names are walked, and a refusal names a fault of some name |
| KmipStore.InMemoryKeyStore.ModifyAttributes | _scratch/agent_operations.rs:736-757 | replaces all unless some name is immutable |
| KmipStore.InMemoryKeyStore.DeleteAttributes | _scratch/agent_operations.rs:759-780 | removes all unless some name is immutable |
| KmipStore.InMemoryKeyStore.DecrementUsageCounter | _scratch/agent_operations.rs:782-796 | lowers an integer usage counter by one, not below zero, and nothing else |
| KmipStore.InMemoryKeyStore.Locate | _scratch/agent_operations.rs:547-590 | the live objects of the walk whose attributes equal the filter; by type only those in the index |
| KmipStore.InMemoryKeyStore.GetAttributes | _scratch/agent_operations.rs:592-650 | the stored attributes without those that shadow the four synthetic ones, and these |
| KmipHandlers.ProcessCreate | _scratch/agent_operations.rs:978-1100 | store and answer for every request, refusal texts included: algorithm and length rules, last attribute of a name wins, owner attached, key of length/8 drawn bytes |
| KmipHandlers.ProcessRegister | _scratch/agent_operations.rs:1313-1405 | store and answer for every request, refusal texts included: owner check, object type, material kept out of the attributes, owner attached |
| KmipHandlers.ProcessGet | _scratch/agent_operations.rs:1104-1133 | the material of a live object its caller may see, or the refusal: missing, destroyed (looked at first) or hidden as missing |
| KmipHandlers.ProcessGetAttributes | _scratch/agent_operations.rs:1260-1294 | all attributes of an object its caller may see, or the refusal |
| KmipHandlers.ProcessLocate | _scratch/agent_operations.rs:1582-1624 | what the store finds, reduced to what the caller may see, cut at a thousand with a notice |
| KmipHandlers.ProcessMove | _scratch/agent_operations.rs:960-975 | owner check hidden as missing, then the store's transition and its verdict with the operation and identifier in the text |
| KmipHandlers.ProcessCheck | _scratch/agent_operations.rs:1408-1455 | counts one use of a live object its caller may see, or the refusal: missing, destroyed (looked at first) or hidden as missing |
| KmipHandlers.ProcessAdd | _scratch/agent_operations.rs:1462-1560 | the first name at fault decides the refusal and its text; otherwise all are added, even though the store checks again in its own order |
| KmipHandlers.ProcessModify | _scratch/agent_operations.rs:1918-1971 | the first name at fault decides the refusal and its text; otherwise all are replaced |
| KmipHandlers.ProcessDelete | _scratch/agent_operations.rs:1978-2027 | the first name at fault decides the refusal and its text; otherwise all are removed |
| KmipHandlers.ProcessDerive | _scratch/agent_operations.rs:1800-1910 | store and answer for every request, refusal texts included: length, owner and material rules, HKDF over salt, key and info, then a creation of length/8 bytes |
| KmipHandlers.Process | _scratch/agent_operations.rs:978-2027 | dispatch: every request does to the store and answers what the specification says |
| KmipRuns.GeneratedInjective | _scratch/agent_operations.rs:465-466 | different numbers give different identifiers |
| KmipRuns.IdValue | _scratch/agent_operations.rs:465-466 | an identifier is `kmip-` and at least eight hexadecimal digits of its number |
| KmipRuns.StepLawful | _scratch/agent_operations.rs:978-2027 | every request leaves the store alone, changes the object it names along the rules, or adds one under a free or the next generated name |
| KmipRuns.RunSound | _scratch/agent_operations.rs:437-545 | in every run: created <= modified <= floor, Destroyed holds no material, Compromised is never reached |
| KmipRuns.ObjectLaw | _scratch/agent_operations.rs:1645-1654 | in every run an object whose name is not still to be generated stays, moves only along allowed transitions and keeps material (until destroyed), owner, other immutable attributes, type and creation time |
| KmipRuns.MaterialLength | _scratch/agent_operations.rs:1073-1090 | a key made or derived has exactly the length asked for as long as it is live, in every run |
| KmipRuns.Lifecycle | _scratch/agent_operations.rs:1645-1654 | the same for all objects and all pairs of moments of every run in which clients never register a generated name |
| KmipRuns.KeptIff | _scratch/agent_operations.rs:465-480 | the law holds of an object in every run if and only if its name is not one still to be generated |
| KmipRuns.Overwritten | _scratch/agent_operations.rs:465-480 | for every other name, a run of creations of 256-bit keys that replaces the key |
| KmipRuns.Isolation | _scratch/agent_operations.rs:909-975 | a request by anyone else leaves an object with a text owner exactly as it is |
| KmipRuns.RunIsolation | _scratch/agent_operations.rs:909-975 | so does any run without a request by its owner |
| KmipRuns.OwnedAtBirth | _scratch/agent_operations.rs:1065-1071 | a key created, imported or derived for a known caller that names no owner belongs to that caller |
| KmipRuns.Masked | _scratch/agent_operations.rs:909-955 | what a caller is shown, refusal text included, is the same with and without another owner's object if and only if the request is not one of: Register, Activate, Revoke, Destroy under its name, Get or Check of it when destroyed, DeriveKey from it with a valid length when not |
| KmipRuns.ActivateTells | _scratch/agent_operations.rs:1155-1163 | the concrete texts for Activate on Bob's object and on none |
| KmipRuns.LocateExact | _scratch/agent_operations.rs:1582-1624 | a walk over all objects lists exactly the live matching ones the caller may see, or a thousand of them with a notice |
| KmipEffects.MoveEffect | _scratch/agent_operations.rs:486-545 | Activate succeeds exactly from PreActive, Revoke from Active, Destroy from PreActive or Deactivated, for those the owner rule allows; the state, material and time afterwards; nothing else changes |
| KmipEffects.AddEffect | _scratch/agent_operations.rs:1462-1560 | succeeds exactly if every name is trimmed, without odd blanks, not immutable and new in any case; afterwards each name has its last value and all others theirs |
| KmipEffects.ModifyEffect | _scratch/agent_operations.rs:1918-1971 | succeeds exactly if every name is there and not immutable; afterwards each has its last value and all others theirs |
| KmipEffects.DeleteEffect | _scratch/agent_operations.rs:1978-2027 | succeeds exactly if every name is there and not immutable; afterwards these are gone and all others stay |
| KmipEffects.CheckEffect | _scratch/agent_operations.rs:1408-1455 | succeeds exactly for live objects the caller may see; a numeric usage counter goes down by one, not below zero, and is answered |
| KmipEffects.GetAttributesEffect | _scratch/agent_operations.rs:592-650 | state, type and both dates under their own names, everything else as stored, nothing that shadows them |
| KmipEffects.CreateEffect | _scratch/agent_operations.rs:978-1100 | succeeds exactly for the lengths and algorithms allowed while the generator works; name, type, times, drawn material and labels of the new key; nothing else changes |
| KmipEffects.RegisterEffect | _scratch/agent_operations.rs:1313-1405 | succeeds exactly for a free name and known object types; the last type, the last material, and every other attribute's last value become the object's |
| KmipEffects.DeriveEffect | _scratch/agent_operations.rs:1800-1910 | the exact condition of success; the new key is what HKDF gives, labelled with its length, its source and the caller |
| KmipEffects.GetReturns | _scratch/agent_operations.rs:1104-1133 | over every run: Get answers with the type and material the object had at the start, to those its owner attribute allowed then, exactly until it is destroyed |
| KmipEffects.GetAfterMaking | _scratch/agent_operations.rs:1104-1133 | over every run: what was created, imported or derived is what Get answers with, by the same rule |
| KmipEffects.KeptOut | _scratch/agent_operations.rs:909-955 | what a caller whom the owner rule keeps out is told, for every request, and that the store stays |
| KmipEffects.OwnerRule | _scratch/agent_operations.rs:909-955 | whom the rule keeps out: all but the text owner; without one, known callers in strict mode only |
| KmipEffects.FirstFaultIs | _scratch/agent_operations.rs:1497-1540 | the refusal is that of the first attribute at fault |
| KmipEffects.RunIndex | _scratch/agent_operations.rs:406-418 | in every run in which clients never register a generated name, the type index lists exactly the live created keys |
| KmipEffects.LocateByType | _scratch/agent_operations.rs:547-577 | in such runs Locate by type finds exactly the live created keys that match otherwise and that the caller may see, and nothing imported |
| Replay.KeyInputInjective | _scratch/agent_server.rs:258-264 | two pairs hash the same bytes if and only if identity (or empty) and value agree |
| Replay.ReplayCache.constructor | _scratch/agent_server.rs:250-256 | an empty cache with a window of at least one second |
| Replay.ReplayCache.CheckAndRecord | _scratch/agent_server.rs:277-307 | map, counter and answer: sweep every hundredth call, cap, then atomic entry |
| Replay.SizeBound | _scratch/agent_server.rs:277-307 | in every run the map holds at most 65,536 entries |
| Replay.DuplicateByKey | _scratch/agent_server.rs:277-307 | by key, for every hash: a duplicate is exactly a recent acceptance in the full history, or a full map without the key |
| Replay.DuplicateIff | _scratch/agent_server.rs:277-307 | in every run on a clock that never goes back, a duplicate is exactly an acceptance of the same pair under one window ago, or a map full of other pairs; sweeps never matter |
| Replay.SweepForgets | _scratch/agent_server.rs:277-281 | a sweep leaves only what was accepted less than a window before it |
| Replay.Recovers | _scratch/agent_server.rs:277-297 | a call that sweeps is refused for want of room only if 65,536 different keys were accepted within the window before, and never if none was |
| RateLimiter.AuthRateLimiter.constructor | _scratch/agent_server.rs:73-81 | an empty limiter with the given policy |
| RateLimiter.AuthRateLimiter.IsRateLimited | _scratch/agent_server.rs:98-117 | map, counter and answer, with the sweep every hundredth check |
| RateLimiter.AuthRateLimiter.RecordFailure | _scratch/agent_server.rs:120-146 | counts within the window or opens a new one, for this client only |
| RateLimiter.AuthRateLimiter.EvictStale | _scratch/agent_server.rs:149-155 | keeps exactly the entries younger than two windows |
| RateLimiter.SweepsInvisible | _scratch/agent_server.rs:98-155 | in every run on a clock that never goes back, each answer is that of a limiter that forgets nothing |
| RateLimiter.TallyCounts | _scratch/agent_server.rs:120-146 | what is counted is the number of failures since the window opened, the last of them inside it; with a window of zero each failure opens one |
| RateLimiter.LimitedFor | _scratch/agent_server.rs:98-117 | a client is refused only after the maximum of failures within one window |
| RateLimiter.RefusedIff | _scratch/agent_server.rs:98-117 | with a positive window a check is refused if and only if the client's window is open and the failures since it opened reach the maximum |
| RateLimiter.RefusedAtMaximum | _scratch/agent_server.rs:98-146 | a client quiet for a window before t, with the maximum of failures from t on, is refused by every check before t plus the window |
| RateLimiter.SweepDrops | _scratch/agent_server.rs:149-155 | a sweep leaves no entry older than two windows |
| RateLimiter.StaysLimited | _scratch/agent_server.rs:98-155 | a refused client is refused by every check until its window ends |
| RateLimiter.FreeAfterWindow | _scratch/agent_server.rs:98-155 | a client whose last failure is a window ago is let through |
| Der.DerEncodeInteger | craton-hsm-certified/src/acvp.rs:858-889 | the trimming loop and the buffer writes give the encoding, or an error exactly beyond the limit |
| Der.DerEncodeEcdsaSig | craton-hsm-certified/src/acvp.rs:895-914 | likewise for the signature SEQUENCE |
| Der.TakeWrittenLength | craton-hsm-certified/src/acvp.rs:922-942 | a strict reader recovers every length up to the limit from all four forms |
| Der.WriteTakenLength | craton-hsm-certified/src/acvp.rs:922-942 | every length a strict reader accepts is written back byte for byte |
| Der.ContentMinimal | craton-hsm-certified/src/acvp.rs:858-882 | the content octets of a non-empty input are minimal, non-negative and of the same value |
| Der.MinimalUnique | craton-hsm-certified/src/acvp.rs:858-882 | they are the only minimal octets of that value |
| Der.MinimalShortest | craton-hsm-certified/src/acvp.rs:858-882 | no non-negative octets of that value are shorter |
| Der.IntegerRoundTrip | craton-hsm-certified/src/acvp.rs:858-889 | the encoding decodes to the value, whatever follows, for every input but the empty one, which decodes to nothing |
| Der.EncodeAlike | craton-hsm-certified/src/acvp.rs:858-889 | two inputs encode alike if and only if they are numerically equal |
| Der.EncodableIff | craton-hsm-certified/src/acvp.rs:858-882 | an input is refused exactly when its shortest content is longer than 16 MiB less one byte |
| Der.SigRoundTrip | craton-hsm-certified/src/acvp.rs:895-914 | a signature decodes to its r and s for every length form |
| Der.DecodedIsEncoded | craton-hsm-certified/src/acvp.rs:895-914 | whatever a strict decoder accepts is what the encoder writes for any bytes of those values |
| BigEndian.TrimmedUnique | craton-hsm-certified/src/acvp.rs:858-863 | byte strings without superfluous leading zeros are determined by their value |
| RsaExponent.ExponentBelowMinimum | craton-hsm-awslc/src/lib.rs:524-537 | true if and only if the big-endian value is below 65537, for any length and leading zeros, as the big-integer check has it |

## Left out

- The in-memory counter mode, key locks, the lock file, soft-cap warnings, logging and warning thresholds: they do not change what is released.
- Torn writes and real file I/O: a write leaves the file wholly old or wholly new, and may report failure either way; after a crash, bytes without a footer line may follow a sealed file.
- The order in which the counter map is walked is a parameter; that a sweep brings the map down to the maximum is not claimed, since at most the maximum many entries go (`GcmEviction.SweepBound`).
- Threads inside one key's reservation: the per-key lock makes it one step; the opportunistic sweep after it is a step of its own.
- `serde_json`: any reader that reads canonical text as meant; its behaviour on other text does not matter to what is accepted.
- Rollback policies, file helpers, DOT export, log texts, and error texts outside KMIP.
- KMIP Query, RNG_Retrieve and the stubs: they do not touch the store and stand in the model as one request without an answer.
- The type index in runs that register generated names; `KmipRuns.LocateExact` is stated with the index as it is.
- Concurrent KMIP handlers: requests are handled one after the other.
- KmipRuns.Lifecycle: for runs of fewer than 2^64 - 1 requests, since the object number wraps at 2^64; `KmipRuns.ObjectLaw` has the same bound.
- Concurrent calls of the replay cache, whose cap check and entry are separate steps.
- RateLimiter.AuthRateLimiter.RecordFailure: the failure count is unbounded, not a u64, and doubling a window beyond what a duration holds does not panic.
- Replay.DuplicateIff: for runs in which no two different pairs hash alike; `Replay.DuplicateByKey` has no such premise.
- The rest of `build_validated_rsa_pubkey`, AES, RSA, ECDSA, HKDF, SHA and HMAC, TLS, TTLV and the other crates.

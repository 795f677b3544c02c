# Verification of the Cofferdam trust core

Cofferdam lets a model propose a change to one file, shows the exact change to a human, and records a
single-use, five-minute approval in an append-only ledger. This project models the code that carries that
promise, and two small protocols of its Actions bridge, in Dafny 4.11, and proves what they promise for every
input, every run and every reachable state. `dafny verify dfyconfig.toml` checks all of it.

| module | what it models |
|---|---|
| Prelude, Numerals, Utf8, Json | splitting and joining, numerals, strict UTF-8, and the JSON reader and writer that ledger lines go through |
| JsonGrammar | the grammar of JSON texts as derivations, and the proof that the reader accepts exactly them |
| Entries, Ledger | the two record types, their validation and one-line codec; the ledger as bytes, strict reading, torn appends |
| Folding | the fold of records into active approvals: a set definition, and the three loops that compute it |
| Protocol, LedgerRuns, SingleUse, TokenUse, Ambiguity | two state machines over many processes, one of records and one of bytes, the refinement between them, and the theorems about all runs |
| Store, Outcomes, Calls | the ledger file as an object with its locked calls, what a caller may conclude from each answer, and the proof that every call is a run of the byte machine |
| Existence | concrete runs and ledgers in which the two failures of the ledger named below do occur |
| Approve | the approve command as a decision skeleton over every outcome of its surroundings; exit codes and messages |
| Hashing, Paths, FileTree | length-prefixed, domain-separated binding; three path grammars; three walkers over a file tree with symbolic links |
| Hunks, Diff | the hunk header and the whole diff grammar, and the index-driven recogniser |
| PlainDiffs | the diffs that a diff program writes to replace the lines of a file, all of them accepted |
| Display, DryRun | the reversible screen; guard, canonicalisation, pre-state and hashes composed into "what was shown is what is recorded" |
| ApproveChange | the approve command over a proposal: exit 0 records exactly what was shown |
| Bridge, RateLimit | claim, settle and release of request ids by interleaved handlers; token buckets over the reals |

## How it is modelled

* The ledger exists twice. The lower machine (LedgerRuns) has bytes, a durable prefix, a directory entry that may
  or may not be durable, a lock, and processes that write any number of bytes at a time, fail, die, or lose power.
  The upper machine (Protocol) has records. `LedgerRuns.Simulate` shows that each byte step is a step above or
  invisible there. A power loss leaves a prefix of the written bytes that extends what passed a file barrier, and
  the whole file may vanish as long as its directory entry did not pass one. A file barrier that passes is taken to
  cover all bytes written before it, those whose own barrier had failed included.
* Everything the program does not decide is an input: the clock, the answers of `os.write` and `fsync`, the lock,
  the token generator, the terminal, the human, and the state in which other processes left the disk.
  `_consume_approval` reads its clock before the lock and `_mint` inside it, as in the source.
* SHA-256 is a parameter. What a hash binds is proved of any function that has no collision among the few byte
  strings hashed for the two changes compared. Unicode composition and case folding are parameters too;
  composition is assumed idempotent and assumed to introduce no separator, colon or control character.
  The protected-path tables are a parameter that gives a tier.
* Methods mirror the loops of the source and are proved against definitions that say what is computed, not how:
  sets of records, a grammar, a descent through real directories, a declared shape of a header. The definitions are
  pinned down in turn: the lemmas whose names end in `Exact` or `Iff` say when each answer is given, in terms of the
  input alone, and laws such as `Diff.LinesCut` or `Hashing.FieldsAppend` determine the functions that compute.

## What the proofs found

* `_append` checks the line cap and the file cap but not the entry cap, although the comment beside the caps says
  that append refuses to exceed them (cofferdam/approval_store.py:56-59). `Ledger.AppendClosure` gives both sides
  exactly, and `Existence.MintAtTheCap` is a run of 5,000 mints and consumes and one mint more that reports success
  and leaves a ledger that no longer reads.
* Only the append that created the ledger asks for a directory barrier, and it reports success without one when the
  directory cannot be opened (cofferdam/approval_store.py:402-412). If that barrier is skipped or fails, a success
  can be reported whose record a power loss takes away with the whole file (`Existence.VanishingSuccess`). A
  reported success survives every continuation exactly when the directory entry is durable
  (`SingleUse.SurvivesIffLinked`), and after a success it is durable exactly when it was before or that barrier ran
  (`Outcomes.AppendOutcome`). Single use is not affected: the approval goes with its consumption, and no later
  ledger holds that identifier as long as the generator gives no identifier twice (`TokenUse.ConsumedOnceEver`).
* Unicode composition can lengthen a path. The path written to the ledger passes the ledger's check, and normalises
  to the same components, exactly when it is within 4096 characters (`Paths.JoinIsRelativePath`,
  `Paths.NormalizeJoin`); `Paths.CompositionMayLengthen` is an accepted target that is refused when recorded.
* The early duplicate check of the approve command catches only the ledger's own errors
  (cofferdam/approve_cli.py:545-548). Any other error of that read leaves the command with a traceback and status 1,
  exactly when everything up to the screen went well, the ledger is there, and the lock or the read fails with an
  error of the system (`Approve.UncaughtExact`). Nothing has been written at that point (`Approve.ApproveCommand`).
* A clock that goes back between two mints of one change makes the fold ambiguous (`Ambiguity.RollbackAmbiguous`);
  `Ambiguity.MintKeepsExactly` says exactly when a mint keeps it unambiguous.
* Settle and release name a request id but not the claimant. Over any run, each request id has at most one live
  owner with the row its own if and only if no claim takes over from a live owner gone stale and no prune reaches the
  claim of one (`Bridge.MutualExclusionIff`); handlers that end within a claim's freshness never get there
  (`Bridge.TimelyIsPrompt`), as long as the clock does not go back (`Bridge.RollbackClashes`). The first late step
  lets a failure drop another's row exactly when it takes over from an owner that is still before its settle
  (`Bridge.ForeignFailIff`), and lets a settle write into another's row exactly when that owner's call has returned
  (`Bridge.ForeignSettleIff`). `Bridge.LateHandlersClash` is a run of the first kind; in
  `Bridge.LateSettleOverwrites` a late settle replaces the task of a settled row.
* The seconds advertised by the mutation bucket suffice for the whole check exactly when the general bucket has a
  token again by then (`RateLimit.CheckPassesIff`, with a counterexample in `RateLimit.SlowGeneralRefuses`).

## Model

| member | source | states |
|---|---|---|
| Utf8.DecodeEncode | cofferdam/approval_store.py:240-243 | Strict UTF-8 decoding gives back every encoded text |
| Utf8.EncodeDecode | cofferdam/approval_store.py:240-243 | Whatever decodes strictly is the encoding of what it decodes to, so no other byte string reads as that text |
| Utf8.EncodeCharExact | cofferdam/approval_store.py:240-243 | Width, lead byte and continuation bytes of each character as in section 3 of RFC 3629, with its code point in them |
| Json.LoadsOfDump | cofferdam/approval.py:198-219 | Reading a written flat object gives back its fields; string escapes as in section 7 of RFC 8259, surrogate pairs for astral characters included |
| JsonGrammar.LoadsExact | cofferdam/approval.py:198-205 | A text is read, and with what value, exactly when it has a derivation in the grammar of JSON texts (section 2 of RFC 8259), with the value of the derivation; the last of a repeated key counts, and lone surrogates and non-finite literals have none |
| Json.EscapeCharExact | cofferdam/approval.py:216-219 | Printable ASCII but the quote and the backslash is written as itself, everything else as one of seven short escapes, a code unit or a surrogate pair |
| Json.QuotedPlain | cofferdam/approval.py:216-219 | Text of such characters is written as it is, in quotes |
| Json.DumpLayout | cofferdam/approval.py:216-219 | An object is its members between braces, a comma between them, a colon inside them, and no blank |
| Json.PrintableDump | cofferdam/approval.py:216-219 | A written object is printable ASCII, so it holds no line feed |
| Entries.CodecRoundTrip | cofferdam/approval.py:198-219 | For every valid record, parsing its canonical line gives the record back |
| Entries.ParseEntryExact | cofferdam/approval.py:137-215 | A line is this record exactly when the record is valid and the line is a JSON text of its object, with all of its keys and no other, its type and schema version, and integers where it has integers |
| Entries.FieldsSorted | cofferdam/approval.py:216-219 | The fields of a canonical line stand in the order of their keys |
| Ledger.LineShape | cofferdam/approval_store.py:267 | A record's line is ASCII, one byte a character, with a line feed at its end and nowhere else |
| Ledger.LedgerRoundTrip | cofferdam/approval_store.py:229-252 | The lines of any sequence of recordable records within the caps read back as that sequence |
| Ledger.ReadIsValid | cofferdam/approval_store.py:244-252 | Reading yields only valid records, and at most the entry cap of them |
| Ledger.ReadExact | cofferdam/approval_store.py:216-252 | A ledger reads as these records exactly when it is the UTF-8 of as many lines, each with a line feed, within the caps of file, lines and entries, and each line is a JSON text of its valid record |
| Ledger.ReadFaultExact | cofferdam/approval_store.py:216-246 | The size fault, the torn tail, the encoding fault and the entry fault, each with its exact condition on the bytes |
| Ledger.AppendClosure | cofferdam/approval_store.py:266-288 | A readable ledger with one more record that passed the checks of append reads as the old records and the new one exactly when it was below the entry cap; otherwise it no longer reads |
| Ledger.CrashPrefix | cofferdam/approval_store.py:229-252 | After any byte prefix of an appended line the ledger reads as before (no byte), as before and the record (every byte, below the cap), or not at all |
| Folding.IndexEntries | cofferdam/approval.py:239-253 | Succeeds exactly when no approval id is issued twice; the approvals, the bindings by id and the consumptions are then all there |
| Folding.CheckConsumptions | cofferdam/approval.py:255-264 | Succeeds exactly when every consumption names an issued approval and its binding; the ids consumed are then the spent ones |
| Folding.CollectActive | cofferdam/approval.py:266-290 | Fails exactly when two live approvals share a binding; otherwise returns the live ones by binding |
| Folding.FoldActive | cofferdam/approval.py:225-291 | The three loops compute the set definition: failure exactly on a stated ledger fault, otherwise the approvals of this root that are unconsumed and inside their half-open lifetime |
| Folding.FoldExact | cofferdam/approval.py:225-291 | In terms of the records alone: succeeds exactly when identifiers are unique, every consumption has an approval of its identifier and binding, and no two live ones share a binding; then finds exactly the unconsumed ones of this root with created_at <= now < expires_at |
| Folding.ConsumeRemovesOne | cofferdam/approval.py:225-291 | Consuming an active approval removes its key from the fold, and nothing else |
| Folding.MintAddsOne | cofferdam/approval.py:225-291 | A fresh approval in its lifetime adds exactly its key |
| Folding.ForeignUnchanged | cofferdam/approval.py:267-268 | An approval minted for another clone changes nothing here |
| Folding.ConsumptionIdempotent | cofferdam/approval.py:225-237 | A second record of the same consumption changes nothing |
| Folding.FoldPermuted | cofferdam/approval.py:225-291 | The fold does not depend on the order of the records |
| Protocol.DecideGrounded | cofferdam/approval.py:358-374 | What a holder of the lock decides to append is valid, and a consumption rests on a recorded, unspent approval at a time inside its lifetime |
| Protocol.StepKeeps | cofferdam/approval_store.py:156-174 | Every step of the record machine, power loss included, keeps its invariant |
| Protocol.RunKeeps | cofferdam/approval_store.py:156-174 | So does every run |
| Protocol.SingleUse | cofferdam/approval.py:350-374 | In every run, no approval is consumed with success twice while its ledger lives, and each success is dated inside the approval's lifetime |
| Protocol.AnchoredSurvives | cofferdam/approval_store.py:301-311 | A success reported with a durable directory entry stays in the durable part of the log through every later run |
| LedgerRuns.ReadMatches | cofferdam/approval_store.py:194-214 | The bytes of a refined state read as its records, or not at all if a torn line or too many records are in it |
| LedgerRuns.TornUnreadable | cofferdam/approval_store.py:232-239 | A file that ends inside a record does not read |
| LedgerRuns.CutLayout | cofferdam/approval_store.py:229-252 | Any prefix a power loss may leave is complete records, all stable ones among them, and a rest without line feed |
| LedgerRuns.Simulate | cofferdam/approval_store.py:156-327 | Every byte-level step, writes of any length, failed and skipped barriers, deaths and power loss included, is a step of the record machine or invisible to it |
| LedgerRuns.SimulateAll | cofferdam/approval_store.py:156-327 | Every run of the byte machine refines a run of the record machine |
| SingleUse.MutualExclusion | cofferdam/approval_store.py:156-174 | At most one process is between taking the lock and giving it back, and it is the holder |
| SingleUse.ConsumedOnce | cofferdam/approval.py:350-374 | Over every run of bytes: at most one successful consumption per approval while the ledger lives, each dated in [created_at, expires_at) |
| SingleUse.ConsumedOnceUnlost | cofferdam/approval.py:350-374 | In a run that never lost the ledger, that is at most one outright |
| SingleUse.AcknowledgedHolds | cofferdam/approval_store.py:285-311 | A reported success is wholly inside the durable part of the file, and every successful read shows it |
| SingleUse.NeverActiveAgain | cofferdam/approval.py:275-276 | An approval consumed with success is active in no later reading, for any root and any clock |
| SingleUse.LinkedSurvives | cofferdam/approval_store.py:301-311 | With a durable directory entry a success stays on disk through every later run |
| SingleUse.SurvivesIffLinked | cofferdam/approval_store.py:301-311 | A reported success survives every continuation if and only if the directory entry is durable |
| SingleUse.NoPrefixRevives | cofferdam/approval_store.py:232-237 | No prefix of an append that a crash may leave makes a consumed approval active again |
| TokenUse.HistoryStep | cofferdam/approve_cli.py:440-452 | Every step keeps: identifiers of lost ledgers stand on no later one, and no success repeats them |
| TokenUse.ConsumedOnceEver | cofferdam/approval.py:350-374 | Over every run, lost ledgers included: with identifiers that no two mints share, no two successful consumptions are of one approval |
| Ambiguity.AmbiguousIffOverlap | cofferdam/approval.py:281-282 | On a sound ledger the fold is ambiguous at some time exactly when two unspent approvals of one root and binding have overlapping lifetimes |
| Ambiguity.MintKeepsExactly | cofferdam/approve_cli.py:430-462 | A successful mint keeps the fold unambiguous exactly when no unspent approval of its key starts inside the new lifetime |
| Ambiguity.ConsumeKeeps | cofferdam/approval.py:366-373 | A consumption never creates an ambiguity |
| Ambiguity.ForwardNeverAmbiguous | cofferdam/approval.py:265-290 | With mint clock readings that do not go back along the ledger, the fold fails for no root and no reading |
| Ambiguity.ReachableNeverAmbiguous | cofferdam/approval.py:353-359 | The same of every ledger that any run can produce, the stale reading of a consumer that waited for the lock included |
| Ambiguity.RollbackAmbiguous | cofferdam/approve_cli.py:430-462 | The premise is needed: two mints of one change with a clock that goes back between them leave an ambiguous ledger |
| Store.ApprovalStore.ReadBounded | cofferdam/approval_store.py:216-227 | The file's bytes, or the size fault exactly above the cap |
| Store.ApprovalStore.ParseEntries | cofferdam/approval_store.py:247-252 | The records of all of the lines, or the first line's fault |
| Store.ApprovalStore.ParseLedgerBytes | cofferdam/approval_store.py:229-252 | The strict parse, with its faults in order |
| Store.ApprovalStore.ReadEntries | cofferdam/approval_store.py:194-214 | A missing ledger holds nothing; a present one is bounded, then parsed |
| Store.ApprovalStore.WriteAll | cofferdam/approval_store.py:313-327 | Over any partial and interrupted writes the file grows by exactly the prefix accepted, and success means all of it |
| Store.MovedExact | cofferdam/approval_store.py:313-327 | Everything is written exactly when the answers before the first zero write, error or death offer enough; otherwise what they offer, with the ending that answer gives |
| Store.ApprovalStore.Append | cofferdam/approval_store.py:256-311 | The file and the answer after one append, for every outcome of opening, checking, writing and both barriers |
| Store.ApprovalStore.FsyncDir | cofferdam/approval_store.py:402-412 | The directory entry is durable afterwards exactly when it was before or the barrier ran; a directory that cannot be opened is no error |
| Store.ApprovalStore.FindValid | cofferdam/approval.py:337-347 | The active approval of a binding, read under the lock, with nothing written |
| Store.ApprovalStore.Consume | cofferdam/approval.py:350-374 | The whole consume; its re-check under the lock is proved never to fail |
| Store.ApprovalStore.Mint | cofferdam/approve_cli.py:399-464 | The whole mint: rebuild and compare, read, fold, duplicate, identifier, append |
| Store.ActiveNow | cofferdam/approval.py:363-365 | What the fold returned is inside its lifetime and is a record of the ledger, so the redundant re-check cannot fail |
| Outcomes.AppendOutcome | cofferdam/approval_store.py:266-311 | Success means a whole and durable record, with a durable directory entry exactly when it was before or this append's barrier ran; the indeterminate answer a whole record whose barrier failed; any other error a ledger that reads as before or not at all |
| Outcomes.AppendSucceedsIff | cofferdam/approval_store.py:266-311 | An append reports success exactly for a valid record within the caps, all of it written to the open file, past the file barrier and, for a new file, past or without the directory barrier |
| Outcomes.FoldedExact | cofferdam/approval.py:337-347 | The locked read and fold answer exactly when the lock, the read, the parse and the fold go well, and then find exactly the live approval of the binding |
| Outcomes.ConsumeOutcome | cofferdam/approval.py:350-374 | Success rests on an active approval and leaves exactly its key inactive in a durable ledger; plain failures leave the ledger reading as before or not at all |
| Outcomes.ConsumeSucceedsIff | cofferdam/approval.py:350-374 | A consume succeeds exactly when the ledger is there and answers, holds a live approval of this binding and root, and its consumption lands; it says that there is none exactly when the ledger is missing or answers without one. Nothing else about the approval matters |
| Outcomes.MintOutcome | cofferdam/approve_cli.py:399-464 | Success adds exactly one durable approval where none was active for the binding, with the directory entry durable exactly when it was or its barrier ran; "nothing was approved" is true of every plain failure |
| Outcomes.MintSucceedsIff | cofferdam/approve_cli.py:399-464 | A mint succeeds, finds a duplicate, or finds the change changed, each exactly under a stated condition on the rebuilt artifact, the records, the identifier and the answers of the system |
| Calls.AppendIsRun | cofferdam/approval_store.py:266-327 | One append, whatever the system answers, is a run of the byte machine that reports exactly its success |
| Calls.ConsumeIsRun | cofferdam/approval.py:350-374 | So is one consume |
| Calls.MintIsRun | cofferdam/approve_cli.py:423-464 | So is one mint |
| Calls.CallsConsumeOnce | cofferdam/approval.py:350-374 | After a consume that succeeded and anything any processes and power losses do, a consume that succeeds again is of another approval |
| Existence.ConsumptionLength | cofferdam/approval_store.py:267-269 | A consumption's line has 224 bytes and the digits of its time |
| Existence.ApprovalLength | cofferdam/approval_store.py:267-269 | The length of an approval's line whose path JSON writes as it is |
| Existence.VanishingSuccess | cofferdam/approval_store.py:301-311 | For a first mint whose directory barrier is skipped, and for one whose barrier fails: a run of that mint and of a consume that reports success, after which a power loss takes the consume's record away |
| Existence.FullLedger | cofferdam/approval_store.py:245-246 | The program reaches a readable ledger of exactly 10,000 records, 5,000 approvals each minted and consumed, with room in bytes for one more |
| Existence.MintAtTheCap | cofferdam/approval_store.py:266-288 | A further mint there is a run that reports success, and the ledger it leaves reads no more |
| Approve.ReadLine | cofferdam/approve_cli.py:326-329 | Through the first line feed, or the character budget, or to the end |
| Approve.ReadConfirmation | cofferdam/approve_cli.py:315-343 | True exactly when the input starts with the phrase and LF or CR LF, and the phrase has no control character and at most 256 UTF-8 bytes |
| Approve.PhraseExact | cofferdam/approve_cli.py:566-590 | What confirms is a line of APPROVE, a space and the first 12 digits of the binding, and every such line confirms |
| Approve.ConfirmsOneBinding | cofferdam/approve_cli.py:566-590 | No line confirms two bindings that differ within their first 12 digits |
| Approve.ShowAndAsk | cofferdam/approve_cli.py:475-590 | Up to the mint the command ends with the code and message of the first fault, or goes on |
| Approve.RefusalExact | cofferdam/approve_cli.py:475-590 | Each ending before the mint is met under exactly one stated condition, and the command goes on exactly when everything went well and the human consented |
| Approve.ConsentExact | cofferdam/approve_cli.py:475-590 | The mint is reached exactly when change and prompt were delivered and that line was typed |
| Approve.UncaughtExact | cofferdam/approve_cli.py:542-548 | The lookup ends in a traceback exactly when a fit artifact meets a present ledger whose lock or read fails with an error that is not the ledger's own |
| Approve.UncertainIff | cofferdam/approve_cli.py:611-616 | The mint ends indeterminate exactly when its whole record is in the file and a durability barrier then failed |
| Approve.ToldExact | cofferdam/approve_cli.py:592-642 | Which ending of the mint each exit code and message stands for |
| Approve.ToldTruthful | cofferdam/approve_cli.py:592-642 | Exit 0 means one durable approval that was announced; exit 1 an untouched ledger; "nothing was approved" a ledger that reads as before or not at all; the recorded-but-not-shown message a durable approval and exit 2 |
| Approve.ApproveCommand | cofferdam/approve_cli.py:475-642 | Exit 0 exactly when the line typed is the one for the binding shown, after everything was delivered, the mint goes through and is announced. No byte is written unless that line was typed; then the disk is what the mint left, the process has an exit code unless it died in the mint, and every ending tells the truth about the ledger |
| Hashing.DomainDigest | cofferdam/hashing.py:60-66 | The digest fed piece by piece is the hash of the tag and the length-prefixed fields, or none if a field is too long |
| Hashing.LengthPrefixExact | cofferdam/hashing.py:50-57 | A field goes in as it is, behind its length in eight bytes, most significant first, unless it is too long for that |
| Hashing.FieldsAppend | cofferdam/hashing.py:60-66 | The fields go in one after the other |
| Hashing.EncodeExact | cofferdam/hashing.py:60-66 | The tag goes in first, in ASCII |
| Hashing.BoundHashExact | cofferdam/hashing.py:90-110 | The bound hash is of the path, patch, pre-state and root digests, in this order |
| Numerals.HexOfExact | cofferdam/hashing.py:60-66 | A digest is written two lower-case digits a byte, the high one first |
| Hashing.PrefixDecides | cofferdam/hashing.py:50-57 | A length-prefixed field ends where it says, whatever follows it |
| Hashing.TagsDecide | cofferdam/hashing.py:34-41 | No tag is a prefix of another, whatever follows |
| Hashing.EncodeInjective | cofferdam/hashing.py:50-66 | The encoding is injective in the tag and the field list, across all five tags and all numbers of fields |
| Hashing.DescriptorBinds | cofferdam/prestate.py:38-57 | Equal descriptors are of equal targets: an absent target is not an empty file |
| Hashing.BoundHashBinds | cofferdam/hashing.py:90-110 | Equal bound hashes mean equal path bytes, patch bytes, pre-state and root bytes, for a hash without collision on what was hashed |
| Paths.NormalizeTarget | cofferdam/paths.py:71-119 | Accepts exactly the texts that pass the whole-text checks and whose composed segments all pass theirs, returns those segments, and reports the first fault otherwise |
| Paths.AcceptedExact | cofferdam/paths.py:71-119 | Accepted are exactly the texts of 1 to 4096 characters without control character and colon that do not start with a separator, with at most 64 segments, each composed to a name that is not empty, `.` or `..`, has at most 255 characters, ends in neither dot nor space, and folds up to its first dot to no device name |
| Paths.WholeFaultExact | cofferdam/paths.py:71-94 | Each fault of the text as a whole, with its exact condition |
| Paths.SegmentFaultExact | cofferdam/paths.py:97-111 | Each fault of a segment, with its exact condition |
| Paths.SegmentsCut | cofferdam/paths.py:96-98 | The segments are cut at every separator of either kind |
| Paths.ComponentsValid | cofferdam/repo_view.py:85-104 | Every component of an accepted target passes the file view's own check |
| Paths.JoinIsRelativePath | cofferdam/approval.py:119-134 | The joined components pass the ledger's path check exactly when they are within its length cap |
| Paths.NormalizeJoin | cofferdam/paths.py:71-119 | Normalising the join gives the same components, exactly when it is within the length cap |
| Paths.GrammarsAgree | cofferdam/paths.py:71-119 | On input that composition leaves alone all three grammars agree outright |
| Paths.CompositionMayLengthen | cofferdam/paths.py:96-105 | The condition is needed: an accepted target of 3967 characters whose recorded path has 7904 |
| FileTree.LstatDown | cofferdam/repo_view.py:216-240 | Kernel resolution under a real root, where no link is in the way, is the plain descent |
| FileTree.CanonicalizeTarget | cofferdam/canonicalize.py:59-112 | Succeeds, with the root and the components as real path, exactly when the descent ends at a file or a missing name; otherwise the stated fault |
| FileTree.CanonicalExact | cofferdam/canonicalize.py:59-112 | Each answer by what stands at the prefixes of the target: a link at any of them, something else than a directory on the way, a gap, a regular file or another kind at the end |
| FileTree.ContainedTarget | cofferdam/repo_view.py:194-255 | Returns the target exactly when every component is valid and the directory part is reached without a link; a missing part is told from an escape |
| FileTree.PathType | cofferdam/repo_view.py:257-274 | The kind of the node the descent finds, and missing for everything else |
| FileTree.ReadBytes | cofferdam/repo_view.py:276-311 | Nothing for an absent target, the bytes of the file the descent finds, or the stated fault |
| FileTree.ReadOfExact | cofferdam/repo_view.py:276-311 | Each answer of a read, likewise |
| FileTree.CheckSymlinkAndType | cofferdam/paths.py:122-136 | Reports a link exactly when one stands on the route or at its end, and a non-regular target exactly when one is found |
| FileTree.ReportExact | cofferdam/paths.py:122-136 | A link is reported exactly when one stands at some prefix, a wrong type exactly when the target is there and is neither file nor link |
| FileTree.WalkersAgree | cofferdam/canonicalize.py:65-112 | When canonicalisation accepts, the check reports nothing, the real path is root and parts, and reading gives absent, the bytes, or the size fault |
| FileTree.NeverThroughLink | cofferdam/repo_view.py:276-311 | Bytes come back exactly for a file within the bound reached through real directories only |
| FileTree.CanonicalIff | cofferdam/canonicalize.py:65-112 | Canonicalisation accepts exactly when the check reports nothing and every proper prefix is missing or a directory |
| Hunks.HeaderExact | cofferdam/diffcheck.py:39-41 | The header reader decides the regular expression's shape and returns the counts of the only reading, one where a count is left out |
| Hunks.WrittenReads | cofferdam/diffcheck.py:39-41 | A header written with ordinary numerals is read with its own counts |
| Diff.LinesCut | cofferdam/diffcheck.py:99-104 | CR LF, LF and CR, wherever each stands as a line end, cut the text into the lines before and the lines after |
| Diff.LineWhole | cofferdam/diffcheck.py:99-104 | A text without line ends is one line |
| Diff.ResolveDiffPath | cofferdam/diffcheck.py:58-67 | No file, an invalid path, or the normalised components without the side's prefix |
| Diff.ResolvedExact | cofferdam/diffcheck.py:58-67 | No file is exactly the null device; otherwise the side is the path behind its prefix, or the path as it stands |
| Diff.MatchPaths | cofferdam/diffcheck.py:70-80 | Passes exactly when each side is the target or no file and one is the target; both missing is malformed, any other mismatch a path mismatch |
| Diff.ScanBody | cofferdam/diffcheck.py:148-174 | Finds the one place where a body that meets the counts ends, or proves there is none and says which: a line was bad, exactly when one is, or the body ran out, exactly when it does; never both |
| Diff.ScanHunks | cofferdam/diffcheck.py:127-182 | Passes exactly when the lines split into hunks and at most one final empty line; a refusal is about the place after the complete hunks, markers and all |
| Diff.ExplainedOnce | cofferdam/diffcheck.py:127-182 | That place and its reason are unique: lines have one verdict, and lines that split are refused for none |
| Diff.SplitUnique | cofferdam/diffcheck.py:127-182 | The split is unique: every line belongs to exactly one header, body or tail |
| Diff.NoBinary | cofferdam/diffcheck.py:106-111 | No line of a grammatical diff looks like a binary marker, so that earlier check rejects none of them |
| Diff.BinaryMarkerExact | cofferdam/diffcheck.py:106-111 | The words that make a line a binary marker |
| Diff.Validate | cofferdam/diffcheck.py:95-184 | Sound and complete: passes exactly the diffs within the caps with two matching headers and a split into one to 2,000 hunks whose tallies are their header counts; any other gets the reason of its first fault |
| Diff.RefusedOnce | cofferdam/diffcheck.py:95-184 | A refused diff is refused for one reason only, and is not in the accepted language |
| PlainDiffs.OneMoreLine | cofferdam/diffcheck.py:148-160 | A removed line counts as old, an added one as new, a context line as both |
| PlainDiffs.ReplacementAccepted | cofferdam/diffcheck.py:95-184 | Whatever lines are taken out and put in, and with any of the three line ends, the diff that replaces them is accepted for its file, as long as it is within the caps |
| Display.BadCharClass | cofferdam/approve_cli.py:102-130 | None exactly for renderable text, otherwise the class of the first character that is not |
| Display.EscapeField | cofferdam/approve_cli.py:133-151 | The loop builds the escapes of every character in order |
| Display.EscapeCharExact | cofferdam/approve_cli.py:133-151 | Printable ASCII is shown as itself, a backslash as two, a TAB as backslash t, and any other character as its code point in lower-case hexadecimal |
| Display.EscapeLineExact | cofferdam/approve_cli.py:154-166 | Trailing spaces, and they alone, are shown as escapes behind the escaped rest of the line |
| Display.UnescapeLine | cofferdam/approve_cli.py:154-166 | Unescaping inverts the rendering of every line, trailing spaces included |
| Display.EscapedLineShown | cofferdam/approve_cli.py:154-166 | An escaped line of screened text is printable ASCII without line feed |
| Display.BodyDetermines | cofferdam/approve_cli.py:370-391 | The rendered body and the ends-with-LF flag determine the patch |
| Display.PatchLinesExact | cofferdam/approve_cli.py:370-391 | The lines shown are the lines of the patch: joined, with a final line feed if there is one, they are the patch |
| Display.ScreenShows | cofferdam/approve_cli.py:362-393 | Row by row what is on the terminal: each field behind its label and the escaped lines of the patch in order |
| Display.PlainScreenShows | cofferdam/approve_cli.py:362-393 | A target and a line of printable ASCII without backslash and trailing space are shown as they are |
| Display.SummaryExact | cofferdam/approve_cli.py:349-359 | The pre-state line says exactly whether the target exists and how many bytes it has |
| Display.DisplayDetermines | cofferdam/approve_cli.py:362-393 | Two equal screens show the same patch, target, risk, pre-state line and binding |
| DryRun.Evaluate | cofferdam/guard.py:50-70 | The guard passes exactly when every gate does, with the risk of the tier; otherwise it names the first gate that blocks and that gate's reason, a protected path being one reason here |
| DryRun.PassesExact | cofferdam/guard.py:50-70 | The guard passes exactly an accepted path outside the first tier with a grammatical diff of it, no link at any prefix, and a regular file or nothing at its end |
| DryRun.BuildDryRunArtifact | cofferdam/dryrun.py:77-127 | Builds exactly when the guard passes, the target resolves and reads and every hash exists; path, binding, root and risk are those of the proposal in this repository |
| DryRun.PathBytesBind | cofferdam/canonicalize.py:111-122 | Equal path bytes are of one composed absolute path, and of one route where composition leaves the paths alone |
| DryRun.SameRoot | cofferdam/dryrun.py:77-127 | Two builds with one root identifier are of roots with one composed path, for a hash without collision: clones do not share approvals |
| DryRun.SameBinding | cofferdam/approve_cli.py:423-428 | Two builds with one bound hash are of one change: patch, pre-state, and the composed absolute paths of target and root |
| DryRun.SheetOneLine | cofferdam/approve_cli.py:349-388 | Every field a real artifact puts on the screen is single-line |
| DryRun.SameScreen | cofferdam/approve_cli.py:362-393 | Two artifacts whose screens look the same are of one patch, one target, one risk and one binding |
| DryRun.ShownIsRecorded | cofferdam/approve_cli.py:423-464 | If a mint succeeds after arbitrary changes of the repository, the record binds the displayed patch, target, risk and root, the pre-state is what it was, and any proposal whose screen looks the same has that patch, target and binding |
| DryRun.SameContent | cofferdam/prestate.py:60-70 | Equal pre-states mean that the target is absent in both trees or the same bytes reached through real directories in both |
| ApproveChange.RebuiltIsShown | cofferdam/approve_cli.py:423-428 | The artifact rebuilt under the lock, if its binding matches, is the artifact that was shown |
| ApproveChange.Present | cofferdam/approve_cli.py:520-563 | The artifact exists exactly when the change is buildable, it is fit for the screen exactly when patch and path are renderable, and its screen, the page rendered from that artifact over what the repository reads at the target, stands for this patch, target and binding alone |
| ApproveChange.ApproveProposal | cofferdam/approve_cli.py:475-642 | Exit 0, or a record that could not be announced, means that the screen was the page of the artifact built before the question, that the human consented, and that one durable record binds that patch, target, pre-state and root |
| Bridge.IdempotencyStore.Claim | cofferdam/actions_bridge/idempotency.py:186-260 | The answer after a claim, first claim, takeover of a stale one, replay, conflict or in flight; only a fresh one writes, its own row, and every other and every settled row stays |
| Bridge.IdempotencyStore.Settle | cofferdam/actions_bridge/idempotency.py:262-276 | The row is settled with its task and keeps its claim; rows go exactly when past retention, and no other changes |
| Bridge.IdempotencyStore.Release | cofferdam/actions_bridge/idempotency.py:278-294 | Only this key's row is dropped, and only unsettled; the request id can then be claimed afresh |
| Bridge.StepExact | cofferdam/actions_bridge/service.py:1098-1141 | With no premise about time, one owner a request id whose row is its own, unsettled, of its digest and date, is kept by exactly the steps that are not late for a live owner |
| Bridge.ClaimExact | cofferdam/actions_bridge/idempotency.py:206-260 | A claim keeps the owners exclusive exactly when it takes over from no live owner of its request id and digest that has gone stale |
| Bridge.PruneExact | cofferdam/actions_bridge/idempotency.py:272-276 | A prune leaves every live owner its row exactly when none has outlived the retention |
| Bridge.MutualExclusionIff | cofferdam/actions_bridge/idempotency.py:206-294 | Over every run of any handlers and crashes, whatever the clock does: one live owner a request id, with its own row, in every state if and only if no step is late |
| Bridge.TimelyIsPrompt | cofferdam/actions_bridge/idempotency.py:72-75 | If the clock does not go back and no handler outlives the freshness of a claim, no step is late |
| Bridge.RollbackClashes | cofferdam/actions_bridge/idempotency.py:206-234 | The premise about the clock is needed: a run whose clock goes back once, with no handler outliving a claim's freshness, gives one request id two owners |
| Bridge.MutualExclusion | cofferdam/actions_bridge/idempotency.py:206-260 | Over every timely run with a clock that does not go back, two live handlers with a fresh claim on one request id are one, and the row's digest and claim time are its own |
| Bridge.SettledStays | cofferdam/actions_bridge/idempotency.py:270-276 | A settled row stays through a step exactly unless that step prunes past its retention |
| Bridge.SettledMeansSettled | cofferdam/actions_bridge/service.py:1320-1344 | From a settle to the end of any prompt run, or to the prune past its retention that removes it: same-digest claims replay the task, others conflict, no release removes the row, and no mutation goes upstream for its key |
| Bridge.SettledWithinRetention | cofferdam/actions_bridge/idempotency.py:67-70 | With a clock that does not go back, no prune can remove the row until the retention of its claim has passed |
| Bridge.ClaimAndReleaseKeepSettled | cofferdam/actions_bridge/idempotency.py:278-294 | With no premise at all, claims and releases leave every settled row as it is |
| Bridge.SettlesOwnRow | cofferdam/actions_bridge/idempotency.py:262-271 | A handler settles its own row, with its digest, claim time and task |
| Bridge.ForeignFailIff | cofferdam/actions_bridge/idempotency.py:278-294 | A step makes it possible that a failure drops another's row exactly when it takes over from a live owner still before its settle |
| Bridge.FirstForeignFail | cofferdam/actions_bridge/idempotency.py:278-294 | The same for the first late step of any run; before it no failure can |
| Bridge.ForeignSettleIff | cofferdam/actions_bridge/idempotency.py:262-271 | A step makes it possible that a settle writes into another's row exactly when it takes over from a live owner whose call has returned |
| Bridge.FirstForeignSettle | cofferdam/actions_bridge/idempotency.py:262-271 | The same for the first late step of any run; before it no settle can |
| Bridge.LateHandlersClash | cofferdam/actions_bridge/idempotency.py:231-242 | Such a run: a late handler and its successor both send the mutation, and the late one's failure removes the other's claim |
| Bridge.LateSettleOverwrites | cofferdam/actions_bridge/idempotency.py:267-271 | Another: the successor settles, and the late one's settle replaces the task of that settled row |
| RateLimit.TokenBucket.Take | cofferdam/actions_bridge/ratelimit.py:43-53 | Admits exactly when the refilled bucket holds a token, takes it, and keeps the tokens in [0, burst] |
| RateLimit.TokenBucket.RetryAfterSeconds | cofferdam/actions_bridge/ratelimit.py:55-65 | A whole number of seconds, at least one |
| RateLimit.RetryAfterExact | cofferdam/actions_bridge/ratelimit.py:55-65 | It is the least whole number of seconds, and at least one, that earns more than what is missing |
| RateLimit.RefilledExact | cofferdam/actions_bridge/ratelimit.py:43-53 | Between requests a bucket earns its rate for the time passed, up to its burst, and nothing if the clock went back |
| RateLimit.RefilledInParts | cofferdam/actions_bridge/ratelimit.py:43-53 | It makes no difference whether the time passes at once or in parts |
| RateLimit.RateLimiter.constructor | cofferdam/actions_bridge/ratelimit.py:89-102 | Each bucket starts full with its own rate and burst |
| RateLimit.AfterSane | cofferdam/actions_bridge/ratelimit.py:43-53 | After any run the tokens are between nothing and the burst, and the clock reading is the last one |
| RateLimit.Conservation | cofferdam/actions_bridge/ratelimit.py:43-53 | What is admitted over any run is at most what was in the bucket and what came in |
| RateLimit.WindowBound | cofferdam/actions_bridge/ratelimit.py:43-53 | In any window of any run at times that do not go back, at most the burst and the rate times the window are admitted |
| RateLimit.WaitSuffices | cofferdam/actions_bridge/ratelimit.py:55-65 | After the advertised wait (section 10.2.3 of RFC 9110), and any later, the refusing bucket admits |
| RateLimit.WaitIsTight | cofferdam/actions_bridge/ratelimit.py:55-65 | Two whole seconds less than advertised do not suffice |
| RateLimit.RateLimiter.Check | cofferdam/actions_bridge/ratelimit.py:104-115 | An admitted request takes one token of each bucket it asks; a mutation refused by its own bucket has still cost a general token, and one refused by the general bucket leaves the other alone; the wait advertised is that of the bucket that refused |
| RateLimit.CheckPassesIff | cofferdam/actions_bridge/ratelimit.py:104-115 | After a mutation refusal and the advertised wait, the whole check passes exactly when the general bucket has a token again |
| RateLimit.CheckPassesAfterWait | cofferdam/actions_bridge/ratelimit.py:104-115 | With a general rate of at least one a second it always passes |
| RateLimit.SlowGeneralRefuses | cofferdam/actions_bridge/ratelimit.py:104-115 | With a slower general bucket it need not |

## Left out

- The browser UI, the workstation executor and event hub, service entry points and configuration: adapters, sockets and rendering.
- `createDevelopmentRequest` of the bridge: it calls upstream on a replay by design and settles again.
- Proposal parsing and the protected-path tables: they enter as given values and as a tier, so the reasons of a protected path are one.
- The two texts with which the approve command says that no artifact could be built (cofferdam/approve_cli.py:523-531): both are the message `NotApprovable`.
- The known-answer vectors of SHA-256, and the digest of a request body: the hash is a parameter, a digest is given.
- Errors of `close` and of unlocking, which leave the durability classification of the append; they are taken not to occur.
- Permissions, ownership, Windows locking and reparse points, the lock file's creation with its barriers, and the advisory-lock self-check.
- The state directory's own entry, taken as durable: its creation is followed by a barrier on the directory itself and not on its parent (cofferdam/approval_store.py:364-365).
- The races between a check and a later use of a path within one operation, which the file view excludes itself; each operation sees one tree.
- I/O errors of the file view other than missing names, non-directories and link loops, and reads of a file that grows meanwhile.
- Lone surrogates: characters are Unicode scalar values, and a JSON escape of a lone surrogate is refused.
- The interpreter's bounds on nesting in JSON and on the digits of an integer, in ledger lines and in hunk counts.
- A record whose risk is not a string at all: the source raises a TypeError there, the model an ordinary refusal.
- The decimal digits of scripts are those of Unicode 14.0; other versions have other tables.
- Text-mode newline translation of the terminal's input: the confirmation line is the text after it.
- A keyboard interrupt that arrives inside the mint; one that arrives while the human is asked is an answer.
- The lock's retry loop: asking for the lock either succeeds, times out or fails.
- The concurrency gate beside the token buckets, and limits that are not positive, which the constructor refuses.
- Rounding of floating-point times, rates and tokens: they are reals.
- SQLite transactions are atomic steps, and settle's two statements two of them.

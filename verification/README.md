# OpenTreasury ledger pipeline: model and proofs

This project models, in Dafny, the path of a payment record through the OpenTreasury services, and proves what the
pipeline guarantees over whole runs, with crashes, retries and any interleaving.

1. A connector maps CSV rows to records (`Mapper`) and delivers them in batches, sweep after sweep (`Delivery`,
   `ExactlyOnce`).
2. Core ingests each record in three separate database steps (`Staging`) and posts a double-entry journal entry in one
   transaction (`Journal`, `Ledger`, `LedgerInvariants`, `LedgerOutcomes`); reconciliation and anomaly scoring read the
   result (`Reconciliation`, `Insights`).
3. The ledger gateway anchors posted entries under a Merkle root, committing to a backend first and recording proofs
   second (`Merkle`, `Anchoring`, `TransparencyLog`, `Fabric`, `AnchoringProtocol`, `AnchoringConvergence`,
   `AnchoringLosses`, `AnchorRows`, `PostedTwins`).
4. Anybody can check a served proof, with the Go verifier or the one in the mobile app (`Canonical`,
   `MerkleSoundness`, `MobileVerifier`).

`Arithmetic`, `Text`, `Sorting`, `Hashing` and `Wrappers` hold the shared vocabulary.

## How to read it

- Code that works step by step is a class or method with loops, proved against a specification function on values
  (`PostEntry` against `Posted`, `AnchorPending` against `PendingRun`, `Ingest` against `Ingested`). The theorems over
  runs are about those functions, and each function is in turn tied to what is asked of it: texts read back, answers
  are given if and only if, trees and medians are described a second way.
- Runs are sequences of events. `LedgerInvariants.Run` interleaves committed, refused and failed transactions;
  `Staging.RunPool` moves any number of workers one database step at a time, with crashes and transactions from
  elsewhere; `AnchoringProtocol.RunWorld` does the same for gateways, both backends and concurrent postings;
  `ExactlyOnce.Swept` repeats deliveries.
- The hash is a parameter: any function from strings to 64 lower-case hexadecimal characters. Nothing else is assumed
  of it. Binding results end in "or `Collision(H, S)`", two different strings of S with one hash, where S is the finite
  set of strings that the parties hash in the situation at hand.
- 64-bit integers are the subset type `int64`; additions that the source makes in 64 bits are written with `Wrap`.
- Infrastructure failures are inputs. `TxFate` says whether a transaction committed, rolled back, or committed without
  the acknowledgement arriving; `Faults`, `BatchFate` and `Fabric.Delivery` do the same for one ingest call, one batch
  and one chain submission.
- `Env` holds what a run never changes: which institutions exist and which texts the database stores as the columns of a
  row.

## What the proofs found

Each of these is a place where the code does less than its comments or names suggest. The code is modelled as it is;
lemmas show the failure and, where a condition decides, exactly when the property holds.

- The tree is not the one of section 2.1 of RFC 6962 that the comment at services/ledger-gateway/internal/merkle/merkle.go:68-70
  names: an odd node is paired with itself and no prefix tells leaves from nodes. Leaves and nodes are told apart by
  their content instead (`EncodingShape`, `NodeInputShape`), but a batch of odd size and the batch with its last leaf
  repeated share a root (`RepeatedLeafSharesRoot`). A root found on the chain is for the gateway's batch exactly when the
  anchor counts as many entries (`RetryConvergesIff`), which the gateway does not compare; `MiscountHappens` is a run
  from the start in which they differ and the commit is reported as a success (`MiscountReached` on any run). Without a
  `|` in header texts and accounts they always agree (`CleanJournalConverges`).
- The canonical encoding is ambiguous in two ways. A `|` in a header text or in an account moves the border between
  fields: exactly then some other header, over some well-formed lines, has the same string (`HeaderDecidedIff`). Two
  accepted entries of one institution with different ids can share a leaf (`TwinPair`), but only if both contain a `|`
  (`TwinsHaveBars`). And the number of lines is not encoded: with accounts free of `;`, other lines give the same string
  exactly as soon as there are two (`LinesAmbiguousIff`), and every journal entry has two. An account that contains the
  text of all other lines makes a single line encode alike (`OneLineTwin`), and verifiers accept it (`TwinAccepted`).
  Without `|` and `;` the string and the number of lines decide the entry, whatever the other one contains
  (`StringAndSizeIdentify`); so an entry with two lines has no accepted twin at all.
- Validation adds in 64 bits: it decides balance exactly up to a total of 2^64 per currency, which is more than
  the 2^63-1 one might expect, and there an entry of three debits and no credit is accepted and puts the books out of
  balance (`DebitsAloneAccepted`, `UnbalancedPostingReachable`). The balances add up to zero along a run if and only if
  every posted entry has equal debits and credits (`ConservedIff`).
- The settlement guard wraps too. The commitment lifecycle holds over a run if and only if every applied settlement was in
  64-bit range (`LifecycleIff`); otherwise a commitment can be settled beyond its amount and stay OPEN
  (`OverSettlementAccepted`), which three steps from an empty ledger reach (`OverSettlementReachable`).
- An idempotency key held by an entry of another id makes Ingest report POSTED for an entry that does not exist
  (`PhantomPosting`); the condition is exact (`AcceptedNamesEntryIff`) and reached from an empty database
  (`PhantomReachable`).
- The comment at services/core-api/internal/treasury/postgres_staging_repository.go:56-57 covers a failed staging write. A
  transient error or a lost acknowledgement during the post itself is recorded as QUARANTINED and never retried, in
  the second case although the entry was posted (`TransientFailureIsFinal`, `LostAcknowledgementQuarantines`). A record
  whose entry the journal takes is quarantined exactly when the post does not commit and say so (`QuarantinedIff`).
- A record whose row the database does not store (a date that is none, a NUL in a text, an index entry too large) makes
  Ingest fail rather than quarantine, and a batch whose JSON exceeds the body limit is refused whole; the file is then
  retried for ever, and these are the only reasons besides authorization (`FileCompletesIff`). The comment above Ingest
  says that nothing submitted ever disappears; a blocked record and all behind it in the file never get a row
  (`NothingPassesBlocked`).
- Success is read off the text "already exists"; the one case where that lies is exact (`SuccessIsTruthfulIff`,
  `NextBackedIff`), and over a run every root taken for committed is on its backend if and only if that case never
  occurs (`AlwaysBackedIff`). When it does, an anchor names the chain for a root the chain does not hold, and the
  entries of the batch are never anchored again (`FalseSuccessRecorded`, after a single posting `FalseSuccessHappens`).
- The comment at services/ledger-gateway/internal/anchor/anchor.go:18-20 says that an entry is anchored exactly once. It
  has one proof row; but on the transparency log a crash between commit and recording puts its batch on the log twice
  (`CrashCommitsTwice`). There is one log row for each recorded anchor exactly when no commit went unrecorded
  (`LogRowsAccounted`).
- Two statements of one transparency-log commit with another commit between them break the chain unnoticed
  (`InterleavedCommit`).
- MATCHED is about sums: a single amendment is found exactly when it changes the amount (`AmendmentFoundIff`), amendments
  that cancel pass unseen (`AmendmentsCancel`).
- JavaScript numbers print amounts exactly only up to 2^53; on entries beyond, the app and the Go verifier disagree
  exactly when its year or an amount prints differently (`MobileDecidesAlike`, `GoDecidesAlike`). The app vouches for what it shows
  (`MobileSoundness`).
- A posting that reverses an entry not in the journal violates a foreign key and is reported as an unknown institution
  (`UnknownReversedIff`, `StrayReversalMisreported`).

## Model

| member | source | states |
|---|---|---|
| Canonical.CanonicalHash | services/ledger-gateway/internal/merkle/merkle.go:38-58 | sorting the line texts in a loop of appends yields the hash of the canonical string |
| Text.DecimalReadsBack | services/ledger-gateway/internal/merkle/merkle.go:41-49 | a number is printed as digits without leading zeros that read back as it, the most significant first, after a minus sign if negative |
| Text.LexLeIff | services/ledger-gateway/internal/merkle/merkle.go:43 | lines are sorted by bytes: a prefix first, otherwise by the first different character |
| Canonical.CanonicalReadsBack | services/ledger-gateway/internal/merkle/merkle.go:38-54 | round trip: splitting the canonical string of a separator-free entry gives v1 and every header field, and its body the lines, each read back exactly and in byte order of their texts |
| AnchorRows.LeafReadsBack | services/ledger-gateway/internal/merkle/merkle.go:38-54 | the same for a journal row: its leaf reads back as its id, institution, year, date, status, type and lines |
| Canonical.LineOrderIrrelevant | services/ledger-gateway/internal/merkle/merkle.go:38-54 | any permutation of the lines has the same canonical string |
| Canonical.EncodingFaithful | services/ledger-gateway/internal/merkle/merkle.go:38-54 | for separator-free entries, equal canonical strings mean equal headers and equal multisets of lines |
| Canonical.HeaderDecidedIff | services/ledger-gateway/internal/merkle/merkle.go:38-54 | for well-formed lines: nothing with another header and well-formed lines has the same string, if and only if no header text and no account contains the field separator |
| Canonical.StringAndSizeIdentify | services/ledger-gateway/internal/merkle/merkle.go:38-54 | of an entry without field separators in header and accounts and without line separators in accounts, anything with the same string has the same header and at most as many lines, and the same lines if and only if as many |
| PostedTwins.TwinsHaveBars | services/ledger-gateway/internal/merkle/merkle.go:38-54 | an accepted entry without field separators shares its string with no accepted entry of another id; with two lines and no line separators, only with its own lines in another order |
| PostedTwins.TwinPair | services/ledger-gateway/internal/merkle/merkle.go:38-54 | for every id, institution, year, date, amount and currency, two accepted entries of that institution with different ids and the same canonical string |
| Canonical.OneLineTwin | services/ledger-gateway/internal/merkle/merkle.go:38-54 | every entry with two or more lines has a version with one line, in a direction, amount and currency of its own, and the same canonical string |
| Canonical.LinesAmbiguousIff | services/ledger-gateway/internal/merkle/merkle.go:38-54 | for lines with a direction, a currency code and accounts free of `;`, some other such lines give the same string if and only if there are at least two lines |
| Canonical.EncodingShape | services/ledger-gateway/internal/merkle/merkle.go:38-54 | a canonical string begins with v and, with currency codes, never ends in a hexadecimal digit |
| MerkleSoundness.NodeInputShape | services/ledger-gateway/internal/merkle/merkle.go:152-155 | a node input has 128 characters and is hexadecimal at both ends, so it never has the shape of a canonical string |
| Merkle.Tree.constructor | services/ledger-gateway/internal/merkle/merkle.go:77-99 | the level-by-level loop builds exactly the levels of the recursive tree |
| Merkle.Tree.Root | services/ledger-gateway/internal/merkle/merkle.go:102-107 | the top of the stored levels is the Merkle root of the leaves; empty string for no leaves |
| Merkle.RootFromTop | services/ledger-gateway/internal/merkle/merkle.go:68-107 | the root is that of the tree described from the top: as many leaves as fit on the left, the rest on the right, and a half paired with itself where none is left |
| Merkle.Tree.Proof | services/ledger-gateway/internal/merkle/merkle.go:110-135 | the index is refused exactly when out of range, otherwise the climbing loop returns the recursive proof |
| Merkle.ProofSteps | services/ledger-gateway/internal/merkle/merkle.go:110-135 | step d of a proof carries the neighbouring node of level d, or the node itself at the end, and lies on the left exactly when bit d of the index is set |
| Merkle.Verify | services/ledger-gateway/internal/merkle/merkle.go:140-150 | the folding loop accepts exactly when the walk from the leaf ends in the expected root |
| Merkle.ProofReachesRoot | services/ledger-gateway/internal/merkle/merkle.go:110-150 | completeness: every index of every leaf list has a proof that leads to the root, odd nodes paired with themselves at any level |
| Merkle.HeightIsLog | services/ledger-gateway/internal/merkle/merkle.go:77-99 | the number of levels above the leaves is the ceiling of log2 of the leaf count |
| Merkle.ProofLength | services/ledger-gateway/internal/merkle/merkle.go:110-135 | every proof has as many steps as the ceiling of log2 of the leaf count |
| MerkleSoundness.VerifierSoundness | services/ledger-gateway/internal/merkle/merkle.go:140-155 | a string beginning with v that verifies against the root of a batch, with any proof of any length, is one of the batch, or two strings that were hashed collide |
| MerkleSoundness.VerifiedEntryIsInBatch | services/ledger-gateway/internal/merkle/merkle.go:38-155 | the same for entries: the verified entry is, field by field and up to line order, one of the batch, or a collision is exhibited; where only the anchored entry is free of separators, header and number of lines decide |
| MerkleSoundness.RootIdentifiesBatch | services/ledger-gateway/internal/merkle/merkle.go:77-107 | two duplicate-free batches of any sizes with the same root are the same list, or a collision is exhibited |
| MerkleSoundness.RootAndSizeIdentify | services/ledger-gateway/internal/merkle/merkle.go:77-107 | two batches with the same root, with repetitions or without, are the same list if and only if they have the same size, or a collision is exhibited |
| MerkleSoundness.RootIsHexOrEmpty | services/ledger-gateway/internal/merkle/merkle.go:102-107 | the root is 64 hexadecimal characters, and empty exactly for no leaves |
| MerkleSoundness.RepeatedLeafSharesRoot | services/ledger-gateway/internal/merkle/merkle.go:68-99 | an odd batch and the batch with its last leaf repeated share a root, so neither size nor duplicate-freeness can be dropped |
| TransparencyLog.Log.Commit | services/ledger-gateway/internal/anchor/backend.go:38-76 | one serialized commit appends the row chained to the tail and names its sequence; nothing on rollback |
| TransparencyLog.CommitKeepsChain | services/ledger-gateway/internal/anchor/backend.go:38-81 | serialized commits keep sequences 1 to n and every link to the previous hash |
| TransparencyLog.ChainSays | services/ledger-gateway/internal/anchor/backend.go:38-81 | row k has sequence k + 1, the hash of row k - 1 or genesis, and the hash of a text that splits into these two and its root |
| TransparencyLog.LastHashBindsLog | services/ledger-gateway/internal/anchor/backend.go:38-81 | two chains ending in the same hash are equal row for row, or a collision among their rows is exhibited |
| TransparencyLog.InterleavedCommit | services/ledger-gateway/internal/anchor/backend.go:46-73 | with growth between the statements the insert is refused if and only if the log grew after the second read; growth between the two reads is accepted and breaks the chain |
| Fabric.AnchorContract.CommitAnchor | chaincode/treasury/internal/contract/anchor_contract.go:33-69 | write-once: an anchor is stored exactly when id and root are given and the id is new; any error leaves the state alone |
| Fabric.AnchorContract.GetAnchor | chaincode/treasury/internal/contract/anchor_contract.go:72-91 | returns the stored anchor, an error exactly when absent |
| Fabric.AnchorContract.VerifyRoot | chaincode/treasury/internal/contract/anchor_contract.go:95-101 | true exactly when the stored root equals the given one, an error when absent |
| Fabric.FabricBackend.Commit | services/ledger-gateway/internal/anchor/fabric.go:32-44 | submits the root as anchor id and reads an error containing "already exists" as success |
| Fabric.SubmissionLeaves | services/ledger-gateway/internal/anchor/fabric.go:32-44 | a new root that arrives is stored under itself with the entry count, an empty period and the time, nothing else changes; the reference names the transaction, or the root if that was there |
| Fabric.SuccessIsTruthfulIff | services/ledger-gateway/internal/anchor/fabric.go:32-44 | a reported success means the root is on the chain, except exactly when a lost submission of an absent root reports that text |
| Fabric.CommitKeepsFromBatches | services/ledger-gateway/internal/anchor/fabric.go:32-44 | every commit by a gateway keeps all anchors those of gateway batches |
| Fabric.ConvergesIff | chaincode/treasury/internal/contract/anchor_contract.go:33-69 | of any batch an existing anchor may have been written for: it is this batch if and only if the anchor counts as many entries, or a collision is exhibited |
| Fabric.AlreadyExistsIsThisBatch | chaincode/treasury/internal/contract/anchor_contract.go:33-69 | without repeated leaves the count always agrees: an existing root is for exactly this batch, or a collision is exhibited |
| Fabric.RepeatedEntryMiscounted | services/ledger-gateway/internal/anchor/fabric.go:32-44 | with a repeated leaf, convergence leaves an anchor whose entry count is not the batch size |
| Anchoring.AnchorService.CountUnanchored | services/ledger-gateway/internal/anchor/anchor.go:76-85 | counts the entries without a proof row |
| Anchoring.AnchorService.LoadUnanchored | services/ledger-gateway/internal/anchor/anchor.go:162-220 | the two queries and the index map yield the oldest unanchored entries with their lines |
| Anchoring.AnchorService.AttachLines | services/ledger-gateway/internal/anchor/anchor.go:196-217 | the loop over line rows fills every header with exactly its lines in order |
| Anchoring.AnchorService.AnchorPending | services/ledger-gateway/internal/anchor/anchor.go:94-160 | one run over either backend is: nothing for an empty batch, else commit the root first and record all rows or none |
| Anchoring.Backend.CommitRoot | services/ledger-gateway/internal/anchor/backend.go:15-22 | the interface: the transparency log and the chain each answer and change as their own commit does |
| Anchoring.AnchorService.CommitAndRecord | services/ledger-gateway/internal/anchor/anchor.go:110-159 | on either backend, after a failed commit no table changes; a failed recording leaves the commit in place |
| Anchoring.AnchorService.InsertProofs | services/ledger-gateway/internal/anchor/anchor.go:138-151 | one row per entry of the batch, skipping entries already proven |
| Anchoring.RecordedRows | services/ledger-gateway/internal/anchor/anchor.go:138-151 | existing proof rows stay; each new entry gets its own row and nobody else any |
| Anchoring.LinesOfEntry | services/ledger-gateway/internal/anchor/anchor.go:196-217 | the lines found for an entry are exactly that entry's lines |
| Anchoring.HydratedIsPublic | services/ledger-gateway/internal/anchor/anchor.go:162-220 | a header whose lines are read from any later journal is the public view of its entry as stored |
| Anchoring.SelectedRows | services/ledger-gateway/internal/anchor/anchor.go:162-178 | the batch consists of distinct unanchored entries, as many as the batch size allows |
| Anchoring.OldestFirst | services/ledger-gateway/internal/anchor/anchor.go:162-178 | every entry of the batch is at least as old as every pending entry left out |
| Anchoring.RecordingTakesBatch | services/ledger-gateway/internal/anchor/anchor.go:129-159 | recording removes exactly the batch from the backlog |
| Anchoring.RecordingDrains | services/ledger-gateway/internal/anchor/anchor.go:129-159 | the backlog shrinks by min(500, backlog) |
| Anchoring.RunDrains | services/ledger-gateway/internal/anchor/anchor.go:94-160 | on either backend a call reports success with min(500, backlog) entries gone, exactly when the backlog is empty or the commit is reported, the recording commits and the anchor id is new; an error other than a lost acknowledgement leaves the tables alone |
| Anchoring.BacklogDrains | services/ledger-gateway/internal/anchor/anchor.go:94-160 | over any calls of AnchorPending on either backend without new postings, k that worked leave n - 500k entries, or none; the successful ones are among them, and no others unless an acknowledgement was lost |
| AnchoringProtocol.AnchoringSafe | services/ledger-gateway/internal/anchor/anchor.go:94-220 | in every run of any gateways, postings, commits, lost or misreported messages and crashes: at most one proof row per entry, leaf hash of the entry as stored, proof reaching the root of its anchor, and only roots of batches of posted entries on either backend |
| AnchorRows.AnchorRowsSay | services/ledger-gateway/internal/anchor/anchor.go:116-159 | over every run each anchor row counts the entries of a batch of posted entries with its root; its reference names a log row with that root, or the transaction or root of a submission of the run; each proof row is the one for its entry's place in such a batch |
| AnchoringProtocol.NextBackedIff | services/ledger-gateway/internal/anchor/fabric.go:32-44 | an event leaves a gateway or an anchor row with a root that is not on its backend if and only if a submission of a new root is lost and reported as existing |
| AnchoringProtocol.AnchorsBacked | services/ledger-gateway/internal/anchor/anchor.go:94-220 | in every run without such an event, the root of every anchor row is on the backend it names |
| AnchoringProtocol.AlwaysBackedIff | services/ledger-gateway/internal/anchor/fabric.go:32-44 | over whole runs: after every event each root a gateway took for committed and each anchored root is on its backend, if and only if the run has no such event |
| AnchoringProtocol.CommittedBeforeRecorded | services/ledger-gateway/internal/anchor/anchor.go:116-159 | where gateways hold only roots that are on their backend, an anchor row appears only for a root that was there before that event |
| AnchoringProtocol.RunGrows | services/ledger-gateway/internal/anchor/anchor.go:94-160 | entries, log rows, chain anchors, anchor rows and proof rows are never changed or removed |
| AnchoringProtocol.UninterruptedRun | services/ledger-gateway/internal/anchor/anchor.go:94-160 | a gateway's four events without interruption do exactly what AnchorPending does, on either backend |
| AnchoringProtocol.ReadEntryProof | services/core-api/internal/treasury/postgres_anchor_repository.go:38-80 | the two queries and the loop over lines return the bundle with its anchor, backend and reference, or not-found exactly when header, anchor or proof is missing |
| AnchoringProtocol.ServedBundleVerifies | services/core-api/internal/treasury/postgres_anchor_repository.go:38-80 | every entry with a proof row has a bundle; every bundle served at any point of any run shows the entry as stored and is accepted by both verifiers (the app's where numbers print exactly), with the proof row and anchor as recorded; and its root is on the backend it names unless a commit was misreported |
| AnchoringProtocol.OnlyPostedEntriesVerify | services/ledger-gateway/internal/anchor/anchor.go:94-160 | whatever verifies against a root on a backend has the canonical form of a posted entry, and its header if that has no field separator, or a collision is exhibited |
| AnchoringConvergence.RetryConvergesIff | services/ledger-gateway/internal/anchor/fabric.go:32-44 | on every run, when the chain already holds the root of a gateway's batch, the anchor is for a batch of posted entries, and for this one if and only if it counts as many entries, collisions aside |
| AnchoringConvergence.CleanJournalConverges | services/ledger-gateway/internal/anchor/fabric.go:32-44 | over a journal without field separators in header texts and accounts the count always agrees, collisions aside |
| AnchoringConvergence.MiscountReached | services/ledger-gateway/internal/anchor/anchor.go:94-160 | on any run, an odd batch committed and not recorded, then an entry with the canonical string of its last one: the next attempt succeeds on an anchor that counts one entry too few |
| PostedTwins.FourExist | services/ledger-gateway/internal/merkle/merkle.go:38-54 | the entries for the next two rows exist for every id, institution, year, date, amount and currency: two plain ones and the pair, all four postable one after the other |
| PostedTwins.TwinPostingExists | services/ledger-gateway/internal/anchor/anchor.go:94-220 | such a situation is reached from the start: three postings, the batch of the three pending, a fourth entry that posts and has the string of the third |
| PostedTwins.MiscountHappens | services/ledger-gateway/internal/anchor/anchor.go:94-160 | so from the start the chain holds the root of a gateway's four entries with a count of three, and the gateway is told that it succeeded |
| AnchoringLosses.FalseSuccessRecorded | services/ledger-gateway/internal/anchor/fabric.go:32-44 | after any run, a new root lost and reported as existing is recorded as anchored on the chain, which does not hold it; over every later run the row stays, the batch names it and no batch contains its entries again |
| PostedTwins.FalseSuccessHappens | services/ledger-gateway/internal/anchor/fabric.go:32-44 | it happens after a single posting |
| AnchoringLosses.LogRowsAccounted | services/ledger-gateway/internal/anchor/anchor.go:18-20 | over any run the log rows are the recorded anchors, the commits waiting to be recorded and those left behind; one row per recorded anchor if and only if there are none of the latter two |
| AnchoringLosses.CrashCommitsTwice | services/ledger-gateway/internal/anchor/anchor.go:94-160 | a crash between commit and recording puts the same root on the log twice, with one anchor for both rows |
| MobileVerifier.VerifyProof | apps/mobile/src/lib/verify.ts:74-94 | the folding loop decides and reports leaf and root as specified |
| MobileVerifier.EncodingsAgreeIff | apps/mobile/src/lib/verify.ts:48-66 | both encodings of a separator-free entry agree if and only if its year and every amount print as sent |
| MobileVerifier.MobileDecidesAlike | apps/mobile/src/lib/verify.ts:74-94 | what the Go verifier accepts the app accepts if and only if year and amounts print as sent, collisions aside |
| MobileVerifier.GoDecidesAlike | apps/mobile/src/lib/verify.ts:74-94 | what the app accepts the Go verifier accepts if and only if year and amounts print as sent, collisions aside |
| MobileVerifier.MobileSoundness | apps/mobile/src/lib/verify.ts:74-94 | whatever the app shows as verified against the root of a batch is one of the batch, or a collision is exhibited |
| MobileVerifier.TwinAccepted | services/ledger-gateway/internal/merkle/merkle.go:140-150 | of every accepted entry with two or more lines a version with a single line is accepted too |
| MobileVerifier.SameDecisionUpToExact | apps/mobile/src/lib/verify.ts:74-94 | for amounts up to 2^53 both verifiers give the same verdict on every response |
| Journal.ValidateJournalEntry | services/core-api/internal/treasury/journal.go:45-92 | the loop with a wrapping net per currency returns the first failing check |
| Journal.AllZero | services/core-api/internal/treasury/journal.go:83-89 | the final pass over the net map answers alike in whatever order the map yields its keys |
| Journal.AcceptedIff | services/core-api/internal/treasury/journal.go:45-92 | accepted if and only if header and lines are well formed and debits minus credits is a multiple of 2^64 in every currency |
| Journal.FirstFailureReported | services/core-api/internal/treasury/journal.go:45-92 | the error is the first thing wrong: header checks in order, then those of the first bad line in order, then balance |
| Journal.DatesIff | services/core-api/internal/treasury/transaction.go:151-154 | the dates accepted are exactly the printed days of the Gregorian calendar, years 0000 to 9999 |
| Journal.ValidationExact | services/core-api/internal/treasury/journal.go:61-89 | if the amounts of each currency total less than 2^64, accepted if and only if debits equal credits in every currency |
| Journal.DebitsAloneAccepted | services/core-api/internal/treasury/journal.go:61-89 | the bound is tight: three debits totalling 2^64 and no credit are accepted |
| Journal.Reversal | services/core-api/internal/treasury/journal.go:96-114 | the loop builds the flipped lines and the header of the reversal |
| Journal.FlipSides | services/core-api/internal/treasury/journal.go:96-121 | flipping exchanges debit and credit totals in every currency |
| Journal.ReversalAccepted | services/core-api/internal/treasury/journal.go:96-121 | the reversal of an accepted entry is accepted, and reversing the lines twice restores them |
| Ledger.JournalRepository.PostEntry | services/core-api/internal/treasury/postgres_journal_repository.go:24-103 | row, balances line by line, settlement and audit become visible together or not at all, with the error of the first failing step |
| LedgerOutcomes.PostedIff | services/core-api/internal/treasury/postgres_journal_repository.go:24-186 | a valid entry is accepted if and only if its row and lines can be stored, id and key are new, institution and reversed entry exist, every balance fits after every line and any settlement is accepted; duplicate and unknown institution are reported exactly when an id or key is taken, and when only a reference is missing |
| LedgerOutcomes.PostingLeaves | services/core-api/internal/treasury/postgres_journal_repository.go:24-176 | an accepted posting leaves the entry as given with its defaults, its balances moved by its lines, and one audit event naming it |
| LedgerOutcomes.PostingFates | services/core-api/internal/treasury/postgres_journal_repository.go:24-103 | a rolled-back posting changes nothing; a lost acknowledgement leaves what the posting would have done and reports a database error unless it was refused anyway |
| LedgerOutcomes.FlowIsDebitsLessCredits | services/core-api/internal/treasury/journal.go:125-130 | what lines add to an account is its debits less its credits |
| LedgerOutcomes.ReversalLeaves | services/core-api/internal/treasury/journal.go:96-114 | a posted reversal has the new id and date, the original's institution, year and lines on the other side, and names the original, also in the audit event |
| Ledger.JournalRepository.PostLines | services/core-api/internal/treasury/postgres_journal_repository.go:62-83 | the loop over the lines stores each line and moves its balance, or fails if the database does not store one or a balance leaves 64 bits |
| Ledger.JournalRepository.SettleCommitment | services/core-api/internal/treasury/postgres_journal_repository.go:108-162 | the checks in the transaction's order with 64-bit sums, then the settlement row and the status |
| LedgerOutcomes.SettlementIff | services/core-api/internal/treasury/postgres_journal_repository.go:118-150 | in 64-bit range a settlement is accepted if and only if the commitment exists, is OPEN, has the entry's institution, and the debits are positive and within what is left, to the last unit; it is refused as excessive exactly when only the sum is wrong |
| LedgerOutcomes.SettlementLeaves | services/core-api/internal/treasury/postgres_journal_repository.go:146-162 | an accepted settlement adds one row with the debits and closes the commitment exactly when nothing is left |
| LedgerOutcomes.SettledReachable | services/core-api/internal/treasury/postgres_journal_repository.go:24-162 | from an empty ledger: create a commitment, settle all of it; it is SETTLED and nothing more is accepted |
| Ledger.JournalRepository.CreateCommitment | services/core-api/internal/treasury/postgres_commitment_repository.go:20-70 | commitment and audit event together, or an error and no change |
| LedgerOutcomes.CreatedIff | services/core-api/internal/treasury/commitment.go:47-71 | a commitment is created if and only if its fields are in order, storable and new and its institution exists; it is then OPEN and one audit event names it |
| LedgerOutcomes.CreationFates | services/core-api/internal/treasury/postgres_commitment_repository.go:20-70 | the same for creating a commitment |
| LedgerInvariants.PostedAllOrNothing | services/core-api/internal/treasury/postgres_journal_repository.go:24-103 | a posting applies to every table or to none; no error means it applied, a domain error means it did not |
| LedgerInvariants.StocksEqualFlows | services/core-api/internal/treasury/postgres_journal_repository.go:62-83 | in every reachable state each balance is the signed sum of its posted lines, ids are unique, entries valid, and the audit trail lists each entry once in order |
| LedgerInvariants.JournalIsAppendOnly | services/core-api/internal/treasury/postgres_journal_repository.go:24-103 | no transaction changes or removes a posted entry |
| LedgerInvariants.TrialIsNetPosted | services/core-api/internal/treasury/postgres_journal_repository.go:62-83 | the balances of an institution and currency add up to the nets of its entries |
| LedgerInvariants.BooksBalance | services/core-api/internal/treasury/postgres_journal_repository.go:62-83 | conservation: those balances add up to a multiple of 2^64 in every reachable state, and to zero if each entry's amounts in the currency total less than 2^64 |
| LedgerInvariants.ConservedIff | services/core-api/internal/treasury/postgres_journal_repository.go:24-103 | exactly: the balances add up to zero after every step of a run, in every institution and currency, if and only if every posted entry has equal debits and credits in every currency |
| LedgerInvariants.UnbalancedPostingReachable | services/core-api/internal/treasury/postgres_journal_repository.go:24-103 | beyond that bound a reachable state is out of balance by 2^64 |
| LedgerInvariants.ReversalCancels | services/core-api/internal/treasury/journal.go:96-130 | an entry and its reversal posted anywhere in a run leave every balance as if neither had been posted |
| LedgerInvariants.StepSoundIff | services/core-api/internal/treasury/postgres_journal_repository.go:108-162 | a step keeps the commitment lifecycle if and only if it is no out-of-range settlement |
| LedgerInvariants.LifecycleIff | services/core-api/internal/treasury/postgres_journal_repository.go:108-162 | over whole runs: settlements within the amount, OPEN strictly less, SETTLED exactly equal, each settlement its entry's debit total, if and only if every applied settlement was in 64-bit range |
| LedgerInvariants.OverSettlementAccepted | services/core-api/internal/treasury/postgres_journal_repository.go:118-150 | out of range the guard lets a commitment be settled beyond its amount and stay OPEN |
| LedgerInvariants.OverSettlementReachable | services/core-api/internal/treasury/postgres_journal_repository.go:24-162 | it happens from an empty ledger: create, settle one unit, settle the whole largest amount; both entries are valid and accepted and the lifecycle is broken |
| LedgerInvariants.RefusedSettlementChangesNothing | services/core-api/internal/treasury/postgres_journal_repository.go:108-162 | a refused settlement leaves every table as it was |
| LedgerInvariants.UnknownReversedIff | services/core-api/internal/treasury/postgres_journal_repository.go:178-186 | an existing institution is reported as unknown if and only if the entry reverses one not in the journal and nothing else is wrong with its row |
| LedgerInvariants.StrayReversalMisreported | services/core-api/internal/treasury/postgres_journal_repository.go:178-186 | the reversal of an entry that was never posted is always reported that way |
| Staging.FiscalYear | services/core-api/internal/treasury/staging.go:41-53 | the digit loop computes the four-digit year, 0 for anything else |
| Staging.YearByCharacters | services/core-api/internal/treasury/staging.go:41-53 | the year is what the first four characters show, if they are digits, and 0 otherwise |
| Staging.StagingRepository.Ingest | services/core-api/internal/treasury/postgres_staging_repository.go:25-86 | probe, post and record with their failures, as specified state by state |
| Staging.IngestLeaves | services/core-api/internal/treasury/staging.go:23-39 | an undisturbed call on a new record leaves the entry system-reference with the record's institution, date, year, lines and hash as key, and the row that names it; or no entry and the row with the reason |
| Staging.IngestFaults | services/core-api/internal/treasury/postgres_staging_repository.go:25-86 | what each fault leaves: nothing after a failed probe, the posting without a row after a crash or a rolled-back recording, both after a lost acknowledgement, always with an error |
| Staging.LoneWorkerIsIngest | services/core-api/internal/treasury/postgres_staging_repository.go:25-86 | a worker's three steps without interference are one call of Ingest |
| Staging.RunKeeps | services/core-api/internal/treasury/postgres_staging_repository.go:25-86 | over any run, entries and staging rows once written never change |
| Staging.RedeliveryIsDuplicate | services/core-api/internal/treasury/postgres_staging_repository.go:26-45 | once a hash has a row, every later call changes nothing and answers DUPLICATE with the row's reason and entry id |
| Staging.AcceptedNamesEntryIff | services/core-api/internal/treasury/postgres_staging_repository.go:51-64 | an outcome POSTED names an existing entry if and only if the key is not held by an entry of another id |
| Staging.PhantomPosting | services/core-api/internal/treasury/postgres_staging_repository.go:51-64 | in that case a POSTED row is written for an entry that does not exist, for good |
| Staging.PhantomReachable | services/core-api/internal/treasury/postgres_staging_repository.go:51-64 | it is reached from an empty database: a worker posts and dies, a record with the same hash and another reference follows |
| Staging.IngestionConsistent | services/core-api/internal/treasury/postgres_staging_repository.go:25-86 | any workers, redeliveries, crashes and other postings: each entry id posted at most once, one row per hash, every POSTED row names a journal entry, as long as a key belongs to one entry id |
| Staging.TransientFailureIsFinal | services/core-api/internal/treasury/postgres_staging_repository.go:61-64 | a database error during the post quarantines the record for good |
| Staging.LostAcknowledgementQuarantines | services/core-api/internal/treasury/postgres_staging_repository.go:61-64 | a lost commit acknowledgement quarantines a record whose entry was posted |
| Staging.QuarantinedIff | services/core-api/internal/treasury/postgres_staging_repository.go:61-64 | a new record whose entry the journal takes is quarantined if and only if the post does not commit and say so, and its entry is posted unless the post rolls back |
| Mapper.ParseMajorAmount | services/connectors/generic-file/internal/connector/mapper.go:135-154 | minor units between 0 and 2^62, accepted exactly for finite positive amounts within the cap |
| Mapper.MapCSV | services/connectors/generic-file/internal/connector/mapper.go:47-113 | the row loop gathers records and skipped rows, or reports a missing column |
| Mapper.GatheredInOrder | services/connectors/generic-file/internal/connector/mapper.go:68-110 | every row is accounted for exactly once, in order, as a record or under its line number |
| Mapper.SkippedIff | services/connectors/generic-file/internal/connector/mapper.go:68-92 | a row is skipped for the reader's reason, then the amount's, then a missing reference, and mapped otherwise |
| Mapper.MappedFields | services/connectors/generic-file/internal/connector/mapper.go:80-108 | a mapped record has the values of the profile's columns, debits the debit account and credits the credit account with the amount to the nearest minor unit, in the currency's capitals |
| Mapper.RecordTextReadsBack | services/connectors/generic-file/internal/connector/mapper.go:117-131 | the source hash is of a text that splits into the five fields and the lines in order |
| Mapper.MappedHaveIdentity | services/connectors/generic-file/internal/connector/mapper.go:82-110 | every mapped record carries the identity the endpoint demands |
| Mapper.MappedNetExact | services/connectors/generic-file/internal/connector/mapper.go:82-110 | the wrapped running net of a mapped record never overflows and ends at zero in every currency |
| Mapper.MappedRecordValidIff | services/connectors/generic-file/internal/connector/mapper.go:93-110 | the entry of a mapped record validates if and only if institution, date, amount and currency do |
| Mapper.SourceHashIdentifies | services/connectors/generic-file/internal/connector/mapper.go:117-131 | two separator-free records with the same source hash are the same record, or their texts collide |
| Delivery.StagingApi.SubmitStagingRecords | services/core-api/internal/httpapi/staging.go:53-137 | body size, batch size and authorization first, then record by record up to the first internal error |
| Delivery.RefusedWholeIff | services/core-api/internal/httpapi/staging.go:53-95 | a batch is refused whole if and only if its body is too large, it has no record or more than 500, or an institution is not authorized |
| Delivery.NextRecord | services/core-api/internal/httpapi/staging.go:96-137 | records are handled in order: one without identity is named and skipped, any other ingested, the first error ends the batch |
| Delivery.Connector.DeliverBatch | services/connectors/generic-file/internal/connector/deliver.go:66-108 | a lost request or response is an error; otherwise the endpoint's answer |
| Delivery.LostIsError | services/connectors/generic-file/internal/connector/deliver.go:66-108 | a lost request leaves the database alone, a lost response leaves the batch taken; both are errors without replies |
| Delivery.Connector.DeliverRecords | services/connectors/generic-file/internal/connector/deliver.go:50-64 | batches of 200 in file order until one fails, with the outcomes so far |
| Delivery.Connector.ProcessFile | services/connectors/generic-file/internal/connector/watcher.go:73-118 | a file that cannot be mapped goes to failed, one delivered without error to processed, any other stays |
| Delivery.FileFates | services/connectors/generic-file/internal/connector/watcher.go:73-118 | a file is moved to failed if and only if a column is missing, left in place if and only if some batch of 200 fails, moved to processed otherwise |
| Delivery.EveryRecordAnswered | services/connectors/generic-file/internal/connector/deliver.go:50-64 | a delivery without error returns one reply per record, in file order, each naming its record |
| ExactlyOnce.PostingTwiceIsOnce | services/core-api/internal/treasury/postgres_journal_repository.go:24-103 | repeating a posting right away changes nothing and is a duplicate, or repeats the refusal |
| ExactlyOnce.RetriesConverge | services/connectors/generic-file/internal/connector/watcher.go:57-118 | end to end: after any failed sweeps the one that succeeds leaves journal, balances and staging rows of a single undisturbed delivery, and every record has its row |
| ExactlyOnce.FileCompletesIff | services/connectors/generic-file/internal/connector/watcher.go:91-97 | after any failures the next undisturbed sweep completes the file if and only if the endpoint takes every batch (body size, authorization) and no record is blocked; otherwise no sweep ever does |
| ExactlyOnce.NothingPassesBlocked | services/connectors/generic-file/internal/connector/watcher.go:91-97 | whatever is swept, no record behind a blocked one ever gets a row |
| ExactlyOnce.RedropChangesNothing | services/connectors/generic-file/internal/connector/watcher.go:57-118 | delivering a completed file again changes nothing under any faults |
| Reconciliation.ListReconciliation | services/core-api/internal/httpapi/reconciliation.go:55-87 | the rows of the query are read and judged one by one; an amount out of 64-bit range fails the listing |
| Reconciliation.VerdictExact | services/core-api/internal/httpapi/reconciliation.go:91-111 | DISCREPANCY, ATTENTION and MATCHED are decided exactly although the printed difference wraps |
| Reconciliation.ResponseShows | services/core-api/internal/httpapi/reconciliation.go:91-111 | the response has the group's counts and sums in their columns, and staged less posted, exactly while that is a 64-bit number and up to a multiple of 2^64 beyond |
| Reconciliation.DebitTotalIsDebits | services/core-api/internal/treasury/postgres_reconciliation_repository.go:48-73 | in one currency the amount of a record or entry is its debit total |
| Reconciliation.ListingPartitions | services/core-api/internal/treasury/postgres_reconciliation_repository.go:48-95 | each group is listed once, latest month first, and the columns add up to those of the whole staging table |
| Reconciliation.CleanByConstruction | services/core-api/internal/treasury/postgres_reconciliation_repository.go:48-95 | if records of one derived id have the same lines and nobody else posts other lines under it, every group of every reachable state has zero discrepancy and posted plus quarantined equals staged |
| Reconciliation.ListingReadsClean | services/core-api/internal/httpapi/reconciliation.go:91-111 | then no group reads DISCREPANCY, and MATCHED means exactly that nothing is quarantined |
| Reconciliation.AmendmentShows | services/core-api/internal/treasury/postgres_reconciliation_repository.go:48-95 | an amended record under a posted id gets a POSTED row and moves its group by the difference of the amounts |
| Reconciliation.AmendmentFoundIff | services/core-api/internal/httpapi/reconciliation.go:91-111 | in a group that reads MATCHED one amendment turns the verdict to DISCREPANCY if and only if its amount differs from the posted one |
| Reconciliation.AmendmentsCancel | services/core-api/internal/treasury/postgres_reconciliation_repository.go:48-95 | two amendments that cancel keep a balanced group balanced although neither was posted |
| Insights.MedianSplits | services/core-api/internal/treasury/insights.go:175-183 | at most half of the values lie above the median and at most half below |
| Insights.MedianNegates | services/core-api/internal/treasury/insights.go:175-183 | negating the values negates the median: the mean of the two middles favours neither |
| Insights.MedianShifts | services/core-api/internal/treasury/insights.go:175-183 | adding a number to the values adds it to the median |
| Insights.ScoreGroup | services/core-api/internal/treasury/insights.go:127-163 | the array loops over one group flag exactly the observations beyond the threshold |
| Insights.TypicalSplits | services/core-api/internal/treasury/insights.go:131-151 | the amounts of a group split evenly at its center and the deviations from there at its spread, or at zero where the spread falls back to one |
| Insights.TypicalMoves | services/core-api/internal/treasury/insights.go:131-151 | adding one number to all amounts of a group, or mirroring them, does so to its center and keeps its spread |
| Insights.FlagsMove | services/core-api/internal/treasury/insights.go:131-163 | and keeps its flags and scores |
| Insights.ByAccount | services/core-api/internal/treasury/insights.go:121-124 | the loop groups the observations by account, in input order |
| Insights.ScoreAnomalies | services/core-api/internal/treasury/insights.go:120-173 | visiting the groups in any order returns the flagged observations of all accounts, ranked |
| Insights.ReportedIff | services/core-api/internal/treasury/insights.go:107-173 | reported are exactly the observations farther than 3.5 times 1.4826 times the spread from the center of their account, where that has five or more, each with its own fields, the center without its fraction and its score |
| Insights.InGroupIff | services/core-api/internal/treasury/insights.go:121-124 | the group of an account has exactly its observations, each as often as in the input |
| Insights.MostSurprisingFirst | services/core-api/internal/treasury/insights.go:166-171 | highest score first, equal scores by entry id |
| Insights.FewerThanHalf | services/core-api/internal/treasury/insights.go:120-173 | breakdown bound: for every input strictly fewer than half of any account's observations are reported, in odd and even groups and under the zero-spread fallback |
| Insights.TwoOfFive | services/core-api/internal/treasury/insights.go:120-173 | the bound is attained: two of five |
| Insights.RankingDeterminate | services/core-api/internal/treasury/insights.go:166-171 | the sequence of scores and entry ids does not depend on input order, map order or the sort's treatment of ties |

## Left out

- SHA-256, hex encoding and random ids: the hash is a parameter, ids are inputs that may repeat.
- PostgreSQL isolation and locking: each transaction is one step; so is each stand-alone statement of Ingest and AnchorPending.
- AnchoringProtocol.AnchoringSafe: takes each transparency-log commit as one step (one writer); what happens otherwise is InterleavedCommit.
- ExactlyOnce.RetriesConverge: assumes that a post fails for its domain errors only and that nobody else writes between the sweeps; without the first, TransientFailureIsFinal shows that retries do not converge.
- Staging.IngestionConsistent: assumes that a hash or idempotency key belongs to one entry id; PhantomPosting shows what happens otherwise.
- Mapper.MapCSV: starts from tokenized rows with trimmed fields and ASCII upper-casing; reading a decimal number is a parameter and rounding is exact.
- Delivery.Connector.ProcessFile: one file per call; listing the directory, renaming files and the access-token cache are not part of this model.
- Delivery.StagingApi.SubmitStagingRecords: authorization is a predicate on institutions and the size of a batch's JSON a function; the policy engine and the encoding are not part of this model. Texts are sequences of characters; bytes that are no UTF-8 do not occur. A response longer than the connector reads counts as lost.
- Insights.ScoreAnomalies: floating point is modelled by exact reals, and the order among equal scores and entry ids is whatever the model's sort leaves.
- Reconciliation.ListReconciliation: no filters and no paging; months are an arbitrary function of the date text.
- MobileVerifier.VerifyProof: ASCII fields, so that Go's byte order and JavaScript's code-unit order agree.
- AnchoringProtocol.ReadEntryProof: the time of anchoring is not modelled.
- Ledger.JournalRepository.PostEntry: the database refuses the texts of a row before it looks for duplicates, and an unusable commitment id is reported as unknown; actor and request id of audit events, timestamps and error texts are not modelled.
- Listing queries with paging and filters (with them hydrateLines, whose index-map loop is the one proved in AttachLines), metrics, logging, HTTP routing and JSON encoding.
- The rate limiter, identity provider, access policies and field redaction.
- ForecastFlows, money formatting and URL builders.
- The web and mobile user interface, demo data, the Fabric client connection, and deployment files.

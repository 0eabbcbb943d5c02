/** Anchoring a batch again: when the root found on the chain is for this batch,
    and how a gateway comes to miscount. */
module AnchoringConvergence {
  import opened Wrappers
  import opened Text
  import opened Sorting
  import opened Hashing
  import C = Canonical
  import opened Merkle
  import opened MerkleSoundness
  import opened Journal
  import opened Ledger
  import opened LedgerInvariants
  import F = Fabric
  import opened Anchoring
  import opened AnchoringProtocol

  /** On every run, when the chain already holds the root of a gateway's batch,
      the anchor is one for a batch of posted entries; and of any batch it may
      have been written for, that batch is this one if and only if the anchor
      counts as many entries, or the two exhibit a collision. */
  lemma RetryConvergesIff(H: Hasher, env: Env, events: seq<Event>, g: nat, prior: seq<string>)
    requires PhaseOf(RunWorld(H, env, START, events), g).LinesRead?
    requires RootOfBatch(H, PhaseOf(RunWorld(H, env, START, events), g).batch) in RunWorld(H, env, START, events).chain
    ensures var w := RunWorld(H, env, START, events);
            var batch := PhaseOf(w, g).batch;
            var canons, root := CanonicalStrings(batch), RootOfBatch(H, batch);
            && ChainAnchorOk(H, w, root, w.chain[root])
            && (F.AnchorOf(H, root, w.chain[root], prior) ==>
                  || (prior == canons <==> w.chain[root].entryCount == |batch|)
                  || Collision(H, BatchInputs(H, prior) + BatchInputs(H, canons)))
  {
    var w := RunWorld(H, env, START, events);
    AnchoringSafe(H, env, events);
    var batch := PhaseOf(w, g).batch;
    var root := RootOfBatch(H, batch);
    assert ChainAnchorOk(H, w, root, w.chain[root]);
    if F.AnchorOf(H, root, w.chain[root], prior) {
      F.ConvergesIff(H, root, w.chain[root], prior, CanonicalStrings(batch));
    }
  }

  /** The batch of a chain anchor is one it may have been written for. */
  lemma AnchorOfBatch(H: Hasher, w: World, root: string, anchor: F.Anchor, batch: seq<C.Entry>)
    requires anchor.id == root && anchor.merkleRoot == root
    requires BatchOf(H, w, batch, root) && anchor.entryCount == |batch|
    ensures F.AnchorOf(H, root, anchor, CanonicalStrings(batch))
  {
  }

  lemma PublicWellFormed(row: JournalEntry)
    requires Validate(row).None?
    ensures C.WellFormedLines(PublicEntry(row).lines)
  {
    AcceptedIff(row);
    var lines := PublicEntry(row).lines;
    forall line | line in lines ensures C.WellFormedLine(line) {
      var k :| 0 <= k < |lines| && lines[k] == line;
      assert row.lines[k] in row.lines && LineError(row.lines[k]).None?;
    }
  }

  /** No entry with a `|` in a header text or an account. */
  ghost predicate CleanJournal(w: World) {
    forall row | row in w.ledger.entries :: C.NoBar(PublicEntry(row))
  }

  lemma CleanStringsDiffer(w: World, a: C.Entry, b: C.Entry)
    requires Books(w.ledger) && CleanJournal(w) && InJournal(w, a) && InJournal(w, b)
    requires C.CanonicalString(a) == C.CanonicalString(b)
    ensures a.id == b.id
  {
    var row :| row in w.ledger.entries && a == PublicEntry(row);
    PublicWellFormed(row);
    C.StringDecidesHeader(a, b);
  }

  /** Then a batch has no repeated canonical string. */
  lemma CleanBatch(H: Hasher, w: World, batch: seq<C.Entry>)
    requires Books(w.ledger) && CleanJournal(w) && BatchInJournal(w, batch)
    ensures var canons := CanonicalStrings(batch);
            NoDuplicates(canons) && forall c | c in canons :: C.LooksCanonical(c)
  {
    var canons := CanonicalStrings(batch);
    PublicCurrencies(w, batch);
    forall c | c in canons ensures C.LooksCanonical(c) {
      var i :| 0 <= i < |batch| && c == C.CanonicalString(batch[i]);
      assert batch[i] in batch;
      C.EncodingShape(batch[i]);
    }
    forall i, j | 0 <= i < j < |canons| ensures canons[i] != canons[j] {
      assert InJournal(w, batch[i]) && InJournal(w, batch[j]);
      assert EntryId(batch[i]) != EntryId(batch[j]);
      if canons[i] == canons[j] { CleanStringsDiffer(w, batch[i], batch[j]); }
    }
  }

  /** Over a journal without `|` in header texts and accounts the count always
      agrees: an existing root is for exactly this batch. */
  lemma CleanJournalConverges(H: Hasher, env: Env, events: seq<Event>, g: nat)
    requires CleanJournal(RunWorld(H, env, START, events))
    requires PhaseOf(RunWorld(H, env, START, events), g).LinesRead?
    requires RootOfBatch(H, PhaseOf(RunWorld(H, env, START, events), g).batch) in RunWorld(H, env, START, events).chain
    ensures var w := RunWorld(H, env, START, events);
            var batch := PhaseOf(w, g).batch;
            var canons, root := CanonicalStrings(batch), RootOfBatch(H, batch);
            || w.chain[root].entryCount == |batch|
            || exists prior :: F.AnchorOf(H, root, w.chain[root], prior) && prior != canons
                               && Collision(H, BatchInputs(H, prior) + BatchInputs(H, canons))
  {
    var w := RunWorld(H, env, START, events);
    AnchoringSafe(H, env, events);
    var batch := PhaseOf(w, g).batch;
    var root := RootOfBatch(H, batch);
    assert PhaseOk(w, PhaseOf(w, g)) && ChainAnchorOk(H, w, root, w.chain[root]);
    var prior :| BatchOf(H, w, prior, root) && w.chain[root].entryCount == |prior|;
    AnchorOfBatch(H, w, root, w.chain[root], prior);
    CleanBatch(H, w, batch);
    CleanBatch(H, w, prior);
    F.AlreadyExistsIsThisBatch(H, root, w.chain[root], CanonicalStrings(prior), CanonicalStrings(batch));
  }

  // How a gateway miscounts.

  lemma BatchIsPublic(entries: seq<JournalEntry>, stamps: Stamps, proofs: Proofs)
    requires UniqueIds(entries)
    ensures Batch(entries, stamps, proofs) == Map(PublicEntry, Take(Pending(entries, stamps, proofs), BATCH_SIZE))
  {
    var rows := Take(Pending(entries, stamps, proofs), BATCH_SIZE);
    var headers := HeaderQuery(entries, stamps, proofs, BATCH_SIZE);
    SelectedRows(entries, stamps, proofs, BATCH_SIZE);
    UnanchoredRows(entries, proofs);
    forall i | 0 <= i < |rows| ensures Batch(entries, stamps, proofs)[i] == PublicEntry(rows[i]) {
      assert rows[i] in rows;
      var k :| 0 <= k < |entries| && entries[k] == rows[i];
      HydratedIsPublic(entries, headers, i, k);
    }
  }

  /** A row posted later than all others is the last one pending. */
  lemma PendingGrows(entries: seq<JournalEntry>, stamps: Stamps, proofs: Proofs, row: JournalEntry, stamp: int)
    requires UniqueIds(entries + [row]) && row.id !in proofs
    requires 0 < stamp && forall id | id in stamps :: stamps[id] < stamp
    ensures Pending(entries + [row], stamps[row.id := stamp], proofs) == Pending(entries, stamps, proofs) + [row]
  {
    var more, later := entries + [row], stamps[row.id := stamp];
    var all := Unanchored(entries, proofs);
    assert more[..|entries|] == entries && more[|entries|] == row;
    forall i, j | 0 <= i < j < |entries| ensures entries[i].id != entries[j].id {
      assert more[i].id != more[j].id;
    }
    UnanchoredRows(entries, proofs);
    forall x | x in all ensures x.id != row.id {
      var i :| 0 <= i < |entries| && entries[i] == x;
      assert more[i].id != more[|entries|].id;
    }
    AgeOrder(stamps);
    SortAgrees(all, Age(stamps), Age(later));
    SortLast(all, row, Age(later));
  }

  lemma BatchGrows(entries: seq<JournalEntry>, stamps: Stamps, proofs: Proofs, row: JournalEntry, stamp: int)
    requires UniqueIds(entries) && UniqueIds(entries + [row]) && row.id !in proofs
    requires 0 < stamp && forall id | id in stamps :: stamps[id] < stamp
    requires |Batch(entries, stamps, proofs)| < BATCH_SIZE
    ensures Batch(entries + [row], stamps[row.id := stamp], proofs) ==
            Batch(entries, stamps, proofs) + [PublicEntry(row)]
  {
    PendingGrows(entries, stamps, proofs, row, stamp);
    BatchIsPublic(entries, stamps, proofs);
    BatchIsPublic(entries + [row], stamps[row.id := stamp], proofs);
    var pending := Pending(entries, stamps, proofs);
    assert Map(PublicEntry, pending + [row]) == Map(PublicEntry, pending) + [PublicEntry(row)];
  }

  /** One gateway loads a batch and commits it to the chain. */
  function ChainAttempt(H: Hasher, env: Env, w: World, g: nat, txId: string, channel: string, now: string): World {
    var loaded := Next(H, env, Next(H, env, w, ReadHeaders(g)), ReadLines(g));
    Next(H, env, loaded, CommitToChain(g, F.Delivered(txId), channel, now))
  }

  lemma LoadedCommits(
    H: Hasher, env: Env, w: World, g: nat, batch: seq<C.Entry>, txId: string, channel: string, now: string)
    requires PhaseOf(w, g) == LinesRead(batch) && |batch| > 0
    ensures var v := Next(H, env, w, CommitToChain(g, F.Delivered(txId), channel, now));
            && v.ledger == w.ledger && v.stamps == w.stamps && v.tables == w.tables
            && v.chain == F.Reached(w.chain, RootOfBatch(H, batch), |batch|, F.Delivered(txId), now)
            && PhaseOf(v, g).RootCommitted? && PhaseOf(v, g).batch == batch
  {
    var v := Next(H, env, w, CommitToChain(g, F.Delivered(txId), channel, now));
    RootNotEmpty(H, batch);
    F.SuccessIsTruthfulIff(w.chain, channel, RootOfBatch(H, batch), |batch|, F.Delivered(txId), now);
    assert v == ChainCommitted(H, w, g, batch, F.Delivered(txId), channel, now);
  }

  lemma ChainAttemptCommits(H: Hasher, env: Env, w: World, g: nat, txId: string, channel: string, now: string)
    requires PhaseOf(w, g).Idle? && Batch(w.ledger.entries, w.stamps, w.tables.proofs) != []
    ensures var batch := Batch(w.ledger.entries, w.stamps, w.tables.proofs);
            var root := RootOfBatch(H, batch);
            var v := ChainAttempt(H, env, w, g, txId, channel, now);
            && v.ledger == w.ledger && v.stamps == w.stamps && v.tables == w.tables
            && v.chain == F.Reached(w.chain, root, |batch|, F.Delivered(txId), now)
            && PhaseOf(v, g).RootCommitted? && PhaseOf(v, g).batch == batch
  {
    var batch := Batch(w.ledger.entries, w.stamps, w.tables.proofs);
    UninterruptedLoad(H, env, w, g);
    LoadedCommits(H, env, Next(H, env, Next(H, env, w, ReadHeaders(g)), ReadLines(g)), g, batch, txId, channel, now);
  }

  lemma TwinSharesRoot(H: Hasher, batch: seq<C.Entry>, twin: C.Entry)
    requires |batch| > 1 && |batch| % 2 == 1
    requires C.CanonicalString(twin) == C.CanonicalString(batch[|batch| - 1])
    ensures RootOfBatch(H, batch + [twin]) == RootOfBatch(H, batch)
  {
    var canons := CanonicalStrings(batch);
    assert CanonicalStrings(batch + [twin]) == canons + [canons[|canons| - 1]];
    RepeatedLeafSharesRoot(H, canons);
  }

  lemma NewRow(env: Env, w: World, e: JournalEntry, stamp: int)
    requires Books(w.ledger) && Posted(env, w.ledger, e, Committed).err.None?
    ensures var v := Transacted(env, w, Post(e, Committed), stamp);
            && v == w.(ledger := v.ledger, stamps := w.stamps[e.id := stamp])
            && v.ledger.entries == w.ledger.entries + [Stored(e)] && UniqueIds(v.ledger.entries)
  {
    PostedAllOrNothing(env, w.ledger, e, Committed);
    ExecKeepsBooks(env, w.ledger, Post(e, Committed));
  }

  lemma ProofsNameEntries(H: Hasher, w: World)
    requires Safe(H, w)
    ensures forall id | id in w.tables.proofs :: id in Ids(w.ledger.entries)
  {
    forall id | id in w.tables.proofs ensures id in Ids(w.ledger.entries) {
      assert ProofOk(H, w, id, w.tables.proofs[id]);
    }
  }

  lemma AttemptSafe(H: Hasher, env: Env, w: World, g: nat, txId: string, channel: string, now: string)
    requires Safe(H, w)
    ensures Safe(H, ChainAttempt(H, env, w, g, txId, channel, now))
  {
    NextSafe(H, env, w, ReadHeaders(g));
    NextSafe(H, env, Next(H, env, w, ReadHeaders(g)), ReadLines(g));
    NextSafe(H, env, Next(H, env, Next(H, env, w, ReadHeaders(g)), ReadLines(g)),
             CommitToChain(g, F.Delivered(txId), channel, now));
  }

  /** An entry about to be posted, later than all others, whose canonical string
      is that of the last entry of the odd batch to be loaded. */
  ghost predicate TwinPosting(env: Env, w: World, batch: seq<C.Entry>, e: JournalEntry, stamp: int) {
    && batch == Batch(w.ledger.entries, w.stamps, w.tables.proofs)
    && 1 < |batch| < BATCH_SIZE && |batch| % 2 == 1
    && 0 < stamp && (forall id | id in w.stamps :: w.stamps[id] < stamp)
    && Posted(env, w.ledger, e, Committed).err.None?
    && C.CanonicalString(PublicEntry(Stored(e))) == C.CanonicalString(batch[|batch| - 1])
  }

  lemma TwinIsLoaded(H: Hasher, env: Env, w: World, batch: seq<C.Entry>, e: JournalEntry, stamp: int)
    requires Safe(H, w) && TwinPosting(env, w, batch, e, stamp)
    ensures var v := Transacted(env, w, Post(e, Committed), stamp);
            && v.chain == w.chain && v.gateways == w.gateways
            && Batch(v.ledger.entries, v.stamps, v.tables.proofs) == batch + [PublicEntry(Stored(e))]
  {
    NewRow(env, w, e, stamp);
    PostedAllOrNothing(env, w.ledger, e, Committed);
    ProofsNameEntries(H, w);
    BatchGrows(w.ledger.entries, w.stamps, w.tables.proofs, Stored(e), stamp);
  }

  lemma SecondAttempt(
    H: Hasher, env: Env, w: World, g: nat, batch: seq<C.Entry>, twin: C.Entry,
    txId: string, channel: string, now: string)
    requires PhaseOf(w, g).Idle? && Batch(w.ledger.entries, w.stamps, w.tables.proofs) == batch + [twin]
    requires 1 < |batch| && |batch| % 2 == 1 && C.CanonicalString(twin) == C.CanonicalString(batch[|batch| - 1])
    requires RootOfBatch(H, batch) in w.chain && w.chain[RootOfBatch(H, batch)].entryCount == |batch|
    ensures var v := ChainAttempt(H, env, w, g, txId, channel, now);
            && PhaseOf(v, g).RootCommitted? && PhaseOf(v, g).batch == batch + [twin]
            && RootOfBatch(H, batch + [twin]) in v.chain
            && v.chain[RootOfBatch(H, batch + [twin])].entryCount == |batch|
  {
    TwinSharesRoot(H, batch, twin);
    ChainAttemptCommits(H, env, w, g, txId, channel, now);
  }

  /** The world after a gateway commits its batch to the chain and crashes. */
  function CommittedAndCrashed(
    H: Hasher, env: Env, w: World, g: nat, txId: string, channel: string, now: string): World
  {
    Next(H, env, ChainAttempt(H, env, w, g, txId, channel, now), Crash(g))
  }

  lemma CrashedSafe(H: Hasher, env: Env, w: World, g: nat, txId: string, channel: string, now: string)
    requires Safe(H, w)
    ensures Safe(H, CommittedAndCrashed(H, env, w, g, txId, channel, now))
  {
    AttemptSafe(H, env, w, g, txId, channel, now);
    NextSafe(H, env, ChainAttempt(H, env, w, g, txId, channel, now), Crash(g));
  }

  lemma FirstAttempt(
    H: Hasher, env: Env, w: World, g: nat, batch: seq<C.Entry>, txId: string, channel: string, now: string)
    requires PhaseOf(w, g).Idle?
    requires batch == Batch(w.ledger.entries, w.stamps, w.tables.proofs) && |batch| > 0
    requires RootOfBatch(H, batch) !in w.chain
    ensures var v := CommittedAndCrashed(H, env, w, g, txId, channel, now);
            && v.ledger == w.ledger && v.stamps == w.stamps && v.tables == w.tables && PhaseOf(v, g).Idle?
            && RootOfBatch(H, batch) in v.chain && v.chain[RootOfBatch(H, batch)].entryCount == |batch|
  {
    ChainAttemptCommits(H, env, w, g, txId, channel, now);
    CrashKeeps(H, env, ChainAttempt(H, env, w, g, txId, channel, now), g);
    NewRootHeld(H, w.chain, batch, txId, now);
  }

  lemma CrashKeeps(H: Hasher, env: Env, w: World, g: nat)
    ensures Next(H, env, w, Crash(g)) == At(w, g, Idle)
  {
  }

  lemma NewRootHeld(H: Hasher, chain: F.Ledger, batch: seq<C.Entry>, txId: string, now: string)
    requires |batch| > 0 && RootOfBatch(H, batch) !in chain
    ensures var root := RootOfBatch(H, batch);
            var after := F.Reached(chain, root, |batch|, F.Delivered(txId), now);
            root in after && after[root].entryCount == |batch|
  {
    RootNotEmpty(H, batch);
  }

  /** The miscount happens. On any run, let a gateway that would load an odd
      batch commit it and crash before recording; then let an entry be posted
      whose canonical string is that of the batch's last entry, under another
      id. The next attempt loads one entry more, meets its root on the chain, is
      told that it succeeded, and the anchor counts one too few. */
  lemma MiscountReached(
    H: Hasher, env: Env, events: seq<Event>, g: nat, batch: seq<C.Entry>, e: JournalEntry, stamp: int,
    txId: string, channel: string, now: string)
    requires PhaseOf(RunWorld(H, env, START, events), g).Idle?
    requires TwinPosting(env, RunWorld(H, env, START, events), batch, e, stamp)
    requires RootOfBatch(H, batch) !in RunWorld(H, env, START, events).chain
    ensures var crashed := CommittedAndCrashed(H, env, RunWorld(H, env, START, events), g, txId, channel, now);
            var posted := Next(H, env, crashed, Transact(Post(e, Committed), stamp));
            var v := ChainAttempt(H, env, posted, g, txId, channel, now);
            var loaded := batch + [PublicEntry(Stored(e))];
            && PhaseOf(v, g).RootCommitted? && PhaseOf(v, g).batch == loaded
            && RootOfBatch(H, loaded) in v.chain && v.chain[RootOfBatch(H, loaded)].entryCount == |loaded| - 1
  {
    var w := RunWorld(H, env, START, events);
    AnchoringSafe(H, env, events);
    FirstAttempt(H, env, w, g, batch, txId, channel, now);
    CrashedSafe(H, env, w, g, txId, channel, now);
    var crashed := CommittedAndCrashed(H, env, w, g, txId, channel, now);
    assert TwinPosting(env, crashed, batch, e, stamp);
    TwinIsLoaded(H, env, crashed, batch, e, stamp);
    var posted := Next(H, env, crashed, Transact(Post(e, Committed), stamp));
    SecondAttempt(H, env, posted, g, batch, PublicEntry(Stored(e)), txId, channel, now);
  }
}

/** Any number of gateways, postings in between, lost acknowledgements and
    crashes anywhere: what anchoring keeps over every run. */
module AnchoringProtocol {
  import opened Wrappers
  import opened Text
  import opened Sorting
  import opened Hashing
  import C = Canonical
  import opened Merkle
  import opened MerkleSoundness
  import opened Journal
  import opened Ledger
  import opened LedgerInvariants
  import opened TransparencyLog
  import F = Fabric
  import opened Anchoring
  import M = MobileVerifier

  /** Where a gateway is inside AnchorPending. */
  datatype Phase =
    | Idle
    | HeadersRead(headers: seq<C.Entry>)
    | LinesRead(batch: seq<C.Entry>)
    | RootCommitted(batch: seq<C.Entry>, backend: string, ref: string)

  datatype World = World(
    ledger: LedgerState,
    stamps: Stamps,
    tables: Tables,
    log: seq<LogRow>,
    chain: F.Ledger,
    gateways: map<nat, Phase>
  )

  datatype Event =
    | Transact(step: Step, stamp: int)
    | ReadHeaders(g: nat)
    | ReadLines(g: nat)
    | CommitToLog(g: nat, fate: TxFate)
    | CommitToChain(g: nat, delivery: F.Delivery, channel: string, now: string)
    | Record(g: nat, anchorId: string, txFate: TxFate)
    | Crash(g: nat)

  const START := World(EMPTY, map[], Tables(map[], map[]), [], map[], map[])

  function PhaseOf(w: World, g: nat): Phase {
    if g in w.gateways then w.gateways[g] else Idle
  }

  function At(w: World, g: nat, phase: Phase): World {
    w.(gateways := w.gateways[g := phase])
  }

  function RootOfBatch(H: Hasher, batch: seq<C.Entry>): string {
    MerkleRoot(H, Leaves(H, batch))
  }

  function Transacted(env: Env, w: World, step: Step, stamp: int): World {
    var ledger := Exec(env, w.ledger, step);
    var stamps := if |ledger.entries| > |w.ledger.entries|
                  then w.stamps[ledger.entries[|ledger.entries| - 1].id := stamp] else w.stamps;
    w.(ledger := ledger, stamps := stamps)
  }

  function WithHeaders(w: World, g: nat): World {
    var headers := HeaderQuery(w.ledger.entries, w.stamps, w.tables.proofs, BATCH_SIZE);
    if PhaseOf(w, g).Idle? && |headers| > 0 then At(w, g, HeadersRead(headers)) else w
  }

  function WithLines(w: World, g: nat): World {
    match PhaseOf(w, g)
    case HeadersRead(headers) => At(w, g, LinesRead(Hydrated(headers, LineQuery(w.ledger.entries, HeaderIds(headers)))))
    case _ => w
  }

  function LogCommitted(H: Hasher, w: World, g: nat, batch: seq<C.Entry>, fate: TxFate): World {
    if fate == RolledBack then At(w, g, Idle)
    else
      var row := RowFrom(H, w.log, w.log, RootOfBatch(H, batch));
      At(w.(log := w.log + [row]), g,
         if fate == AckLost then Idle else RootCommitted(batch, TLOG, "tlog:" + Decimal(row.sequence)))
  }

  function ChainCommitted(
    H: Hasher, w: World, g: nat, batch: seq<C.Entry>, delivery: F.Delivery, channel: string, now: string): World
  {
    var root := RootOfBatch(H, batch);
    var result := F.CommitResult(w.chain, channel, root, delivery);
    At(w.(chain := F.Reached(w.chain, root, |batch|, delivery, now)), g,
       if result.Ok? then RootCommitted(batch, FABRIC, result.value) else Idle)
  }

  function BatchRecorded(
    H: Hasher, w: World, g: nat, batch: seq<C.Entry>, backend: string, ref: string, anchorId: string, fate: TxFate)
    : World
  {
    if anchorId in w.tables.anchors || fate == RolledBack then At(w, g, Idle)
    else At(w.(tables := Recorded(H, w.tables, batch, anchorId, backend, ref)), g, Idle)
  }

  /** One database statement, transaction or backend call; events that do not
      apply in a gateway's phase change nothing. */
  function Next(H: Hasher, env: Env, w: World, ev: Event): World {
    match ev
    case Transact(step, stamp) => Transacted(env, w, step, stamp)
    case ReadHeaders(g) => WithHeaders(w, g)
    case ReadLines(g) => WithLines(w, g)
    case CommitToLog(g, fate) =>
      var phase := PhaseOf(w, g);
      if phase.LinesRead? then LogCommitted(H, w, g, phase.batch, fate) else w
    case CommitToChain(g, delivery, channel, now) =>
      var phase := PhaseOf(w, g);
      if phase.LinesRead? then ChainCommitted(H, w, g, phase.batch, delivery, channel, now) else w
    case Record(g, anchorId, fate) =>
      var phase := PhaseOf(w, g);
      if phase.RootCommitted? then BatchRecorded(H, w, g, phase.batch, phase.backend, phase.ref, anchorId, fate) else w
    case Crash(g) => At(w, g, Idle)
  }

  function RunWorld(H: Hasher, env: Env, w: World, events: seq<Event>): World {
    if |events| == 0 then w
    else Next(H, env, RunWorld(H, env, w, events[..|events| - 1]), events[|events| - 1])
  }

  /** What the chain is asked to do for a root it does not hold is not lost and
      yet reported in the chaincode's own words. */
  ghost predicate Truthful(H: Hasher, w: World, ev: Event) {
    ev.CommitToChain? && PhaseOf(w, ev.g).LinesRead? ==>
      !(ev.delivery.Lost? && F.Contains(ev.delivery.text, F.ALREADY_EXISTS)
        && RootOfBatch(H, PhaseOf(w, ev.g).batch) !in w.chain)
  }

  ghost predicate AllTruthful(H: Hasher, env: Env, events: seq<Event>) {
    |events| == 0 ||
    var n := |events| - 1;
    AllTruthful(H, env, events[..n]) && Truthful(H, RunWorld(H, env, START, events[..n]), events[n])
  }

  // The invariant.

  ghost predicate InJournal(w: World, e: C.Entry) {
    exists row :: row in w.ledger.entries && e == PublicEntry(row)
  }

  ghost predicate HeaderInJournal(w: World, h: C.Entry) {
    exists row :: row in w.ledger.entries && h == Header(row)
  }

  function EntryId(e: C.Entry): string {
    e.id
  }

  ghost predicate BatchInJournal(w: World, batch: seq<C.Entry>) {
    && |batch| > 0 && DistinctBy(batch, EntryId)
    && forall i {:trigger InJournal(w, batch[i])} | 0 <= i < |batch| :: InJournal(w, batch[i])
  }

  ghost predicate OnBackend(w: World, backend: string, root: string) {
    if backend == TLOG then exists k :: 0 <= k < |w.log| && w.log[k].merkleRoot == root
    else root in w.chain
  }

  ghost predicate PhaseOk(w: World, phase: Phase) {
    match phase
    case Idle => true
    case HeadersRead(headers) =>
      && |headers| > 0 && DistinctBy(headers, EntryId)
      && forall i {:trigger HeaderInJournal(w, headers[i])} | 0 <= i < |headers| :: HeaderInJournal(w, headers[i])
    case LinesRead(batch) => BatchInJournal(w, batch)
    case RootCommitted(batch, _, _) => BatchInJournal(w, batch)
  }

  /** The row's leaf is the canonical hash of the entry as stored, and its proof
      leads to the root of its anchor. */
  ghost predicate ProofOk(H: Hasher, w: World, id: string, p: ProofRow) {
    && p.anchorId in w.tables.anchors
    && Walk(H, p.leafHash, p.proof) == w.tables.anchors[p.anchorId].merkleRoot
    && exists row :: row in w.ledger.entries && row.id == id && p.leafHash == H(C.CanonicalString(PublicEntry(row)))
  }

  ghost predicate BatchOf(H: Hasher, w: World, batch: seq<C.Entry>, root: string) {
    BatchInJournal(w, batch) && root == RootOfBatch(H, batch)
  }

  ghost predicate ChainAnchorOk(H: Hasher, w: World, root: string, anchor: F.Anchor) {
    && anchor.id == root && anchor.merkleRoot == root
    && exists batch :: BatchOf(H, w, batch, root) && anchor.entryCount == |batch|
  }

  ghost predicate RootOk(H: Hasher, w: World, root: string) {
    exists batch :: BatchOf(H, w, batch, root)
  }

  ghost predicate Safe(H: Hasher, w: World) {
    && Books(w.ledger)
    && (forall g | g in w.gateways :: PhaseOk(w, w.gateways[g]))
    && (forall id | id in w.tables.proofs :: ProofOk(H, w, id, w.tables.proofs[id]))
    && (forall k {:trigger w.log[k]} | 0 <= k < |w.log| :: RootOk(H, w, w.log[k].merkleRoot))
    && (forall root | root in w.chain :: ChainAnchorOk(H, w, root, w.chain[root]))
    && Chained(H, w.log)
  }

  ghost predicate PhaseBacked(H: Hasher, w: World, phase: Phase) {
    phase.RootCommitted? ==> OnBackend(w, phase.backend, RootOfBatch(H, phase.batch))
  }

  /** Whatever a gateway took for committed, and every root recorded, is on its
      backend. */
  ghost predicate Backed(H: Hasher, w: World) {
    && (forall g | g in w.gateways :: PhaseBacked(H, w, w.gateways[g]))
    && (forall a | a in w.tables.anchors :: OnBackend(w, w.tables.anchors[a].backend, w.tables.anchors[a].merkleRoot))
  }

  /** What no event ever takes back: entries, log rows, chain anchors, anchor
      rows and proof rows stay as they are. */
  ghost predicate Grows(w: World, v: World) {
    && w.ledger.entries <= v.ledger.entries
    && w.log <= v.log
    && (forall root | root in w.chain :: root in v.chain && v.chain[root] == w.chain[root])
    && (forall a | a in w.tables.anchors :: a in v.tables.anchors && v.tables.anchors[a] == w.tables.anchors[a])
    && (forall id | id in w.tables.proofs :: id in v.tables.proofs && v.tables.proofs[id] == w.tables.proofs[id])
  }

  lemma TransactGrows(env: Env, w: World, step: Step, stamp: int)
    ensures Grows(w, Transacted(env, w, step, stamp))
  {
    assert [step][..0] == [] && Run(env, w.ledger, []) == w.ledger;
    assert Run(env, w.ledger, [step]) == Exec(env, w.ledger, step);
    JournalIsAppendOnly(env, w.ledger, [step]);
  }

  lemma RecordedGrows(H: Hasher, w: World, batch: seq<C.Entry>, backend: string, ref: string, anchorId: string)
    requires anchorId !in w.tables.anchors
    ensures Grows(w, w.(tables := Recorded(H, w.tables, batch, anchorId, backend, ref)))
  {
    RecordedRows(w.tables.proofs, batch, BatchRows(H, batch, anchorId), |batch|);
  }

  lemma RecordGrows(
    H: Hasher, w: World, g: nat, batch: seq<C.Entry>, backend: string, ref: string, anchorId: string, fate: TxFate)
    ensures Grows(w, BatchRecorded(H, w, g, batch, backend, ref, anchorId, fate))
  {
    if anchorId !in w.tables.anchors { RecordedGrows(H, w, batch, backend, ref, anchorId); }
  }

  lemma NextGrows(H: Hasher, env: Env, w: World, ev: Event)
    ensures Grows(w, Next(H, env, w, ev))
  {
    match ev
    case Transact(step, stamp) => TransactGrows(env, w, step, stamp);
    case Record(g, anchorId, fate) =>
      var phase := PhaseOf(w, g);
      if phase.RootCommitted? { RecordGrows(H, w, g, phase.batch, phase.backend, phase.ref, anchorId, fate); }
    case _ =>
  }

  /** Nothing recorded is ever changed or lost, over any run. */
  lemma {:induction false} RunGrows(H: Hasher, env: Env, w: World, events: seq<Event>)
    ensures Grows(w, RunWorld(H, env, w, events))
  {
    if |events| > 0 {
      RunGrows(H, env, w, events[..|events| - 1]);
      NextGrows(H, env, RunWorld(H, env, w, events[..|events| - 1]), events[|events| - 1]);
    }
  }

  lemma JournalStays(w: World, v: World, e: C.Entry)
    requires Grows(w, v)
    ensures InJournal(w, e) ==> InJournal(v, e)
    ensures HeaderInJournal(w, e) ==> HeaderInJournal(v, e)
  {
    if InJournal(w, e) {
      var row :| row in w.ledger.entries && e == PublicEntry(row);
      assert row in v.ledger.entries;
    }
    if HeaderInJournal(w, e) {
      var row :| row in w.ledger.entries && e == Header(row);
      assert row in v.ledger.entries;
    }
  }

  lemma BatchStays(w: World, v: World, batch: seq<C.Entry>)
    requires Grows(w, v) && BatchInJournal(w, batch)
    ensures BatchInJournal(v, batch)
  {
    forall i | 0 <= i < |batch| ensures InJournal(v, batch[i]) {
      assert InJournal(w, batch[i]);
      JournalStays(w, v, batch[i]);
    }
  }

  lemma BackendStays(w: World, v: World, backend: string, root: string)
    requires Grows(w, v) && OnBackend(w, backend, root)
    ensures OnBackend(v, backend, root)
  {
    if backend == TLOG {
      var k :| 0 <= k < |w.log| && w.log[k].merkleRoot == root;
      assert v.log[k] == w.log[k];
    }
  }

  lemma PhaseStays(w: World, v: World, phase: Phase)
    requires Grows(w, v) && PhaseOk(w, phase)
    ensures PhaseOk(v, phase)
  {
    match phase
    case Idle =>
    case HeadersRead(headers) =>
      forall i | 0 <= i < |headers| ensures HeaderInJournal(v, headers[i]) {
        assert HeaderInJournal(w, headers[i]);
        JournalStays(w, v, headers[i]);
      }
    case LinesRead(batch) => BatchStays(w, v, batch);
    case RootCommitted(batch, _, _) => BatchStays(w, v, batch);
  }

  lemma RootStays(H: Hasher, w: World, v: World, root: string)
    requires Grows(w, v) && RootOk(H, w, root)
    ensures RootOk(H, v, root)
  {
    var batch :| BatchOf(H, w, batch, root);
    BatchStays(w, v, batch);
    assert BatchOf(H, v, batch, root);
  }

  lemma ChainAnchorStays(H: Hasher, w: World, v: World, root: string, anchor: F.Anchor)
    requires Grows(w, v) && ChainAnchorOk(H, w, root, anchor)
    ensures ChainAnchorOk(H, v, root, anchor)
  {
    var batch :| BatchOf(H, w, batch, root) && anchor.entryCount == |batch|;
    BatchStays(w, v, batch);
    assert BatchOf(H, v, batch, root);
  }

  lemma ProofStays(H: Hasher, w: World, v: World, id: string, p: ProofRow)
    requires Grows(w, v) && ProofOk(H, w, id, p)
    ensures ProofOk(H, v, id, p)
  {
    var row :| row in w.ledger.entries && row.id == id && p.leafHash == H(C.CanonicalString(PublicEntry(row)));
    assert row in v.ledger.entries;
  }

  /** Everything but the phase that just changed and the rows just added. */
  lemma OldPartsStay(H: Hasher, w: World, v: World)
    requires Safe(H, w) && Grows(w, v)
    ensures forall g | g in w.gateways :: PhaseOk(v, w.gateways[g])
    ensures forall id | id in w.tables.proofs :: ProofOk(H, v, id, w.tables.proofs[id])
    ensures forall k {:trigger w.log[k]} | 0 <= k < |w.log| :: RootOk(H, v, w.log[k].merkleRoot)
    ensures forall root | root in w.chain :: ChainAnchorOk(H, v, root, w.chain[root])
  {
    forall g | g in w.gateways ensures PhaseOk(v, w.gateways[g]) { PhaseStays(w, v, w.gateways[g]); }
    forall id | id in w.tables.proofs ensures ProofOk(H, v, id, w.tables.proofs[id]) {
      ProofStays(H, w, v, id, w.tables.proofs[id]);
    }
    forall k | 0 <= k < |w.log| ensures RootOk(H, v, w.log[k].merkleRoot) { RootStays(H, w, v, w.log[k].merkleRoot); }
    forall root | root in w.chain ensures ChainAnchorOk(H, v, root, w.chain[root]) {
      ChainAnchorStays(H, w, v, root, w.chain[root]);
    }
  }

  // Each event keeps the invariant.

  lemma TransactSafe(H: Hasher, env: Env, w: World, step: Step, stamp: int)
    requires Safe(H, w)
    ensures Safe(H, Transacted(env, w, step, stamp))
  {
    TransactGrows(env, w, step, stamp);
    OldPartsStay(H, w, Transacted(env, w, step, stamp));
    ExecKeepsBooks(env, w.ledger, step);
  }

  lemma HeadersInJournal(w: World)
    requires Books(w.ledger)
    ensures var headers := HeaderQuery(w.ledger.entries, w.stamps, w.tables.proofs, BATCH_SIZE);
            && DistinctBy(headers, EntryId)
            && forall i {:trigger HeaderInJournal(w, headers[i])} | 0 <= i < |headers| :: HeaderInJournal(w, headers[i])
  {
    var headers := HeaderQuery(w.ledger.entries, w.stamps, w.tables.proofs, BATCH_SIZE);
    var rows := Take(Pending(w.ledger.entries, w.stamps, w.tables.proofs), BATCH_SIZE);
    SelectedRows(w.ledger.entries, w.stamps, w.tables.proofs, BATCH_SIZE);
    UnanchoredRows(w.ledger.entries, w.tables.proofs);
    forall i | 0 <= i < |headers| ensures HeaderInJournal(w, headers[i]) {
      assert rows[i] in rows && headers[i] == Header(rows[i]);
    }
    forall i, j | 0 <= i < j < |headers| ensures EntryId(headers[i]) != EntryId(headers[j]) {
      assert RowId(rows[i]) != RowId(rows[j]);
    }
  }

  lemma PhasesSafe(H: Hasher, w: World, v: World)
    requires Safe(H, w) && v == w.(gateways := v.gateways)
    requires forall g | g in v.gateways :: PhaseOk(v, v.gateways[g])
    ensures Safe(H, v)
  {
    OldPartsStay(H, w, v);
  }

  /** A gateway's move to a phase that is in order keeps the invariant. */
  lemma MoveSafe(H: Hasher, w: World, g: nat, phase: Phase)
    requires Safe(H, w) && PhaseOk(w, phase)
    ensures Safe(H, At(w, g, phase))
  {
    var v := At(w, g, phase);
    forall h | h in v.gateways ensures PhaseOk(v, v.gateways[h]) {
      PhaseStays(w, v, v.gateways[h]);
    }
    PhasesSafe(H, w, v);
  }

  lemma ReadHeadersSafe(H: Hasher, w: World, g: nat)
    requires Safe(H, w)
    ensures Safe(H, WithHeaders(w, g))
  {
    var headers := HeaderQuery(w.ledger.entries, w.stamps, w.tables.proofs, BATCH_SIZE);
    HeadersInJournal(w);
    if PhaseOf(w, g).Idle? && |headers| > 0 { MoveSafe(H, w, g, HeadersRead(headers)); }
  }

  /** Between the two reads postings may happen; the entries read stay put. */
  lemma LinesCompleteBatch(w: World, headers: seq<C.Entry>)
    requires Books(w.ledger) && |headers| > 0 && DistinctBy(headers, EntryId)
    requires forall i {:trigger HeaderInJournal(w, headers[i])} | 0 <= i < |headers| :: HeaderInJournal(w, headers[i])
    ensures BatchInJournal(w, Hydrated(headers, LineQuery(w.ledger.entries, HeaderIds(headers))))
  {
    var batch := Hydrated(headers, LineQuery(w.ledger.entries, HeaderIds(headers)));
    forall i | 0 <= i < |batch| ensures InJournal(w, batch[i]) {
      assert HeaderInJournal(w, headers[i]);
      var row :| row in w.ledger.entries && headers[i] == Header(row);
      var k :| 0 <= k < |w.ledger.entries| && w.ledger.entries[k] == row;
      HydratedIsPublic(w.ledger.entries, headers, i, k);
    }
    forall i, j | 0 <= i < j < |batch| ensures EntryId(batch[i]) != EntryId(batch[j]) {
      assert EntryId(headers[i]) != EntryId(headers[j]);
    }
  }

  lemma ReadLinesSafe(H: Hasher, w: World, g: nat)
    requires Safe(H, w)
    ensures Safe(H, WithLines(w, g))
  {
    match PhaseOf(w, g)
    case HeadersRead(headers) =>
      assert PhaseOk(w, HeadersRead(headers));
      LinesCompleteBatch(w, headers);
      MoveSafe(H, w, g, LinesRead(Hydrated(headers, LineQuery(w.ledger.entries, HeaderIds(headers)))));
    case _ =>
  }

  lemma CommitToLogSafe(H: Hasher, w: World, g: nat, batch: seq<C.Entry>, fate: TxFate)
    requires Safe(H, w) && BatchInJournal(w, batch)
    ensures Safe(H, LogCommitted(H, w, g, batch, fate))
  {
    var v := LogCommitted(H, w, g, batch, fate);
    OldPartsStay(H, w, v);
    if fate != RolledBack {
      var root := RootOfBatch(H, batch);
      CommitKeepsChain(H, w.log, root);
      BatchStays(w, v, batch);
      assert BatchOf(H, v, batch, root);
      forall k | 0 <= k < |v.log| ensures RootOk(H, v, v.log[k].merkleRoot) {
        if k < |w.log| { assert v.log[k] == w.log[k]; }
      }
    }
  }

  lemma ChainAfter(H: Hasher, w: World, v: World, batch: seq<C.Entry>, delivery: F.Delivery, now: string)
    requires Safe(H, w) && Grows(w, v) && BatchInJournal(w, batch)
    requires v.chain == F.Reached(w.chain, RootOfBatch(H, batch), |batch|, delivery, now)
    ensures forall r | r in v.chain :: ChainAnchorOk(H, v, r, v.chain[r])
  {
    var root := RootOfBatch(H, batch);
    BatchStays(w, v, batch);
    assert BatchOf(H, v, batch, root);
    forall r | r in v.chain ensures ChainAnchorOk(H, v, r, v.chain[r]) {
      if r in w.chain { ChainAnchorStays(H, w, v, r, w.chain[r]); }
    }
  }

  lemma ChainExtendedSafe(H: Hasher, w: World, v: World)
    requires Safe(H, w) && Grows(w, v) && v == w.(chain := v.chain)
    requires forall r | r in v.chain :: ChainAnchorOk(H, v, r, v.chain[r])
    ensures Safe(H, v)
  {
    OldPartsStay(H, w, v);
  }

  lemma ChainReachedSafe(H: Hasher, w: World, batch: seq<C.Entry>, delivery: F.Delivery, now: string)
    requires Safe(H, w) && BatchInJournal(w, batch)
    ensures var v := w.(chain := F.Reached(w.chain, RootOfBatch(H, batch), |batch|, delivery, now));
            Safe(H, v) && BatchInJournal(v, batch)
  {
    var v := w.(chain := F.Reached(w.chain, RootOfBatch(H, batch), |batch|, delivery, now));
    ChainAfter(H, w, v, batch, delivery, now);
    ChainExtendedSafe(H, w, v);
    BatchStays(w, v, batch);
  }

  lemma CommitToChainSafe(
    H: Hasher, w: World, g: nat, batch: seq<C.Entry>, delivery: F.Delivery, channel: string, now: string)
    requires Safe(H, w) && BatchInJournal(w, batch)
    ensures Safe(H, ChainCommitted(H, w, g, batch, delivery, channel, now))
  {
    var root := RootOfBatch(H, batch);
    var v := w.(chain := F.Reached(w.chain, root, |batch|, delivery, now));
    var result := F.CommitResult(w.chain, channel, root, delivery);
    ChainReachedSafe(H, w, batch, delivery, now);
    MoveSafe(H, v, g, if result.Ok? then RootCommitted(batch, FABRIC, result.value) else Idle);
  }

  lemma RecordSafe(
    H: Hasher, w: World, g: nat, batch: seq<C.Entry>, backend: string, ref: string, anchorId: string, fate: TxFate)
    requires Safe(H, w) && BatchInJournal(w, batch)
    ensures Safe(H, BatchRecorded(H, w, g, batch, backend, ref, anchorId, fate))
  {
    MoveSafe(H, w, g, Idle);
    if anchorId !in w.tables.anchors && fate != RolledBack {
      RecordRowsSafe(H, w, batch, backend, ref, anchorId);
      MoveSafe(H, w.(tables := Recorded(H, w.tables, batch, anchorId, backend, ref)), g, Idle);
    }
  }

  lemma RecordRowsSafe(H: Hasher, w: World, batch: seq<C.Entry>, backend: string, ref: string, anchorId: string)
    requires Safe(H, w) && BatchInJournal(w, batch) && anchorId !in w.tables.anchors
    ensures Safe(H, w.(tables := Recorded(H, w.tables, batch, anchorId, backend, ref)))
  {
    var v := w.(tables := Recorded(H, w.tables, batch, anchorId, backend, ref));
    RecordedGrows(H, w, batch, backend, ref, anchorId);
    OldPartsStay(H, w, v);
    NewRowsOk(H, w, v, batch, anchorId);
  }

  lemma NewRowsOk(H: Hasher, w: World, v: World, batch: seq<C.Entry>, anchorId: string)
    requires Safe(H, w) && Grows(w, v) && BatchInJournal(w, batch) && v.ledger == w.ledger
    requires anchorId in v.tables.anchors && v.tables.anchors[anchorId].merkleRoot == RootOfBatch(H, batch)
    requires v.tables.proofs == RecordProofs(w.tables.proofs, batch, BatchRows(H, batch, anchorId), |batch|)
    ensures forall id | id in v.tables.proofs :: ProofOk(H, v, id, v.tables.proofs[id])
  {
    var rows := BatchRows(H, batch, anchorId);
    RecordedRows(w.tables.proofs, batch, rows, |batch|);
    forall id | id in v.tables.proofs ensures ProofOk(H, v, id, v.tables.proofs[id]) {
      if id in w.tables.proofs {
        ProofStays(H, w, v, id, w.tables.proofs[id]);
      } else {
        var i :| 0 <= i < |batch| && batch[i].id == id && v.tables.proofs[id] == rows[i];
        NewRowOk(H, w, v, batch, anchorId, i);
      }
    }
  }

  lemma NewRowOk(H: Hasher, w: World, v: World, batch: seq<C.Entry>, anchorId: string, i: nat)
    requires BatchInJournal(w, batch) && i < |batch| && v.ledger == w.ledger
    requires anchorId in v.tables.anchors && v.tables.anchors[anchorId].merkleRoot == RootOfBatch(H, batch)
    ensures ProofOk(H, v, batch[i].id, BatchRows(H, batch, anchorId)[i])
  {
    ProofReachesRoot(H, Leaves(H, batch), i);
    assert InJournal(w, batch[i]);
    var row :| row in w.ledger.entries && batch[i] == PublicEntry(row);
  }

  lemma LogEventSafe(H: Hasher, env: Env, w: World, g: nat, fate: TxFate)
    requires Safe(H, w)
    ensures Safe(H, Next(H, env, w, CommitToLog(g, fate)))
  {
    var phase := PhaseOf(w, g);
    if phase.LinesRead? {
      assert PhaseOk(w, phase);
      CommitToLogSafe(H, w, g, phase.batch, fate);
    }
  }

  lemma ChainEventSafe(H: Hasher, env: Env, w: World, g: nat, delivery: F.Delivery, channel: string, now: string)
    requires Safe(H, w)
    ensures Safe(H, Next(H, env, w, CommitToChain(g, delivery, channel, now)))
  {
    var phase := PhaseOf(w, g);
    if phase.LinesRead? {
      assert PhaseOk(w, phase);
      CommitToChainSafe(H, w, g, phase.batch, delivery, channel, now);
    }
  }

  lemma RecordEventSafe(H: Hasher, env: Env, w: World, g: nat, anchorId: string, fate: TxFate)
    requires Safe(H, w)
    ensures Safe(H, Next(H, env, w, Record(g, anchorId, fate)))
  {
    var phase := PhaseOf(w, g);
    if phase.RootCommitted? {
      assert PhaseOk(w, phase);
      RecordSafe(H, w, g, phase.batch, phase.backend, phase.ref, anchorId, fate);
    }
  }

  lemma NextSafe(H: Hasher, env: Env, w: World, ev: Event)
    requires Safe(H, w)
    ensures Safe(H, Next(H, env, w, ev))
  {
    match ev
    case Transact(step, stamp) => TransactSafe(H, env, w, step, stamp);
    case ReadHeaders(g) => ReadHeadersSafe(H, w, g);
    case ReadLines(g) => ReadLinesSafe(H, w, g);
    case CommitToLog(g, fate) => LogEventSafe(H, env, w, g, fate);
    case CommitToChain(g, delivery, channel, now) => ChainEventSafe(H, env, w, g, delivery, channel, now);
    case Record(g, anchorId, fate) => RecordEventSafe(H, env, w, g, anchorId, fate);
    case Crash(g) => MoveSafe(H, w, g, Idle);
  }

  /** Anchoring safety over every run: whatever the interleaving, each entry has
      at most one proof row, the row's leaf hashes the entry as stored, its
      proof reaches the root of its anchor, and everything on either backend is
      the root of a batch of posted entries. */
  lemma {:induction false} AnchoringSafe(H: Hasher, env: Env, events: seq<Event>)
    ensures Safe(H, RunWorld(H, env, START, events))
  {
    if |events| > 0 {
      AnchoringSafe(H, env, events[..|events| - 1]);
      NextSafe(H, env, RunWorld(H, env, START, events[..|events| - 1]), events[|events| - 1]);
    }
  }

  // Committed before recorded.

  lemma OldPartsBacked(H: Hasher, w: World, v: World)
    requires Backed(H, w) && Grows(w, v)
    ensures forall g | g in w.gateways :: PhaseBacked(H, v, w.gateways[g])
    ensures forall a | a in w.tables.anchors ::
              OnBackend(v, w.tables.anchors[a].backend, w.tables.anchors[a].merkleRoot)
  {
    forall g | g in w.gateways ensures PhaseBacked(H, v, w.gateways[g]) {
      var phase := w.gateways[g];
      assert PhaseBacked(H, w, phase);
      if phase.RootCommitted? { BackendStays(w, v, phase.backend, RootOfBatch(H, phase.batch)); }
    }
    forall a | a in w.tables.anchors ensures OnBackend(v, w.tables.anchors[a].backend, w.tables.anchors[a].merkleRoot) {
      BackendStays(w, v, w.tables.anchors[a].backend, w.tables.anchors[a].merkleRoot);
    }
  }

  /** A gateway's move keeps the backing exactly when its new phase has it. */
  lemma MoveBackedIff(H: Hasher, w: World, v: World, g: nat, phase: Phase)
    requires Backed(H, w) && Grows(w, v)
    requires v.gateways == w.gateways[g := phase] && v.tables.anchors == w.tables.anchors
    ensures Backed(H, v) <==> PhaseBacked(H, v, phase)
  {
    OldPartsBacked(H, w, v);
    assert v.gateways[g] == phase;
  }

  lemma StillBacked(H: Hasher, w: World, v: World)
    requires Backed(H, w) && Grows(w, v) && v.gateways == w.gateways && v.tables.anchors == w.tables.anchors
    ensures Backed(H, v)
  {
    OldPartsBacked(H, w, v);
  }

  lemma CommitToLogBacked(H: Hasher, w: World, g: nat, batch: seq<C.Entry>, fate: TxFate)
    requires Backed(H, w)
    ensures Backed(H, LogCommitted(H, w, g, batch, fate))
  {
    var v := LogCommitted(H, w, g, batch, fate);
    if fate == RolledBack {
      MoveBackedIff(H, w, v, g, Idle);
    } else {
      assert v.log[|w.log|].merkleRoot == RootOfBatch(H, batch);
      MoveBackedIff(H, w, v, g, v.gateways[g]);
    }
  }

  lemma CommitToChainBackedIff(
    H: Hasher, w: World, g: nat, batch: seq<C.Entry>, delivery: F.Delivery, channel: string, now: string)
    requires Backed(H, w) && |batch| > 0
    ensures Backed(H, ChainCommitted(H, w, g, batch, delivery, channel, now)) <==>
            !(delivery.Lost? && F.Contains(delivery.text, F.ALREADY_EXISTS) && RootOfBatch(H, batch) !in w.chain)
  {
    var v := ChainCommitted(H, w, g, batch, delivery, channel, now);
    var root := RootOfBatch(H, batch);
    RootNotEmpty(H, batch);
    F.SuccessIsTruthfulIff(w.chain, channel, root, |batch|, delivery, now);
    assert FABRIC != TLOG;
    MoveBackedIff(H, w, v, g, v.gateways[g]);
  }

  lemma RecordBacked(
    H: Hasher, w: World, g: nat, batch: seq<C.Entry>, backend: string, ref: string, anchorId: string, fate: TxFate)
    requires Backed(H, w) && OnBackend(w, backend, RootOfBatch(H, batch))
    ensures Backed(H, BatchRecorded(H, w, g, batch, backend, ref, anchorId, fate))
  {
    MoveBackedIff(H, w, At(w, g, Idle), g, Idle);
    if anchorId !in w.tables.anchors && fate != RolledBack {
      var v := w.(tables := Recorded(H, w.tables, batch, anchorId, backend, ref));
      RecordedGrows(H, w, batch, backend, ref, anchorId);
      OldPartsBacked(H, w, v);
      BackendStays(w, v, backend, RootOfBatch(H, batch));
      assert Backed(H, v);
      MoveBackedIff(H, v, At(v, g, Idle), g, Idle);
    }
  }

  lemma LogEventBacked(H: Hasher, env: Env, w: World, g: nat, fate: TxFate)
    requires Backed(H, w)
    ensures Backed(H, Next(H, env, w, CommitToLog(g, fate)))
  {
    if PhaseOf(w, g).LinesRead? { CommitToLogBacked(H, w, g, PhaseOf(w, g).batch, fate); }
  }

  lemma ChainEventBackedIff(H: Hasher, env: Env, w: World, g: nat, delivery: F.Delivery, channel: string, now: string)
    requires Safe(H, w) && Backed(H, w)
    ensures var ev := CommitToChain(g, delivery, channel, now);
            Backed(H, Next(H, env, w, ev)) <==> Truthful(H, w, ev)
  {
    var phase := PhaseOf(w, g);
    if phase.LinesRead? {
      assert PhaseOk(w, phase);
      CommitToChainBackedIff(H, w, g, phase.batch, delivery, channel, now);
      assert Next(H, env, w, CommitToChain(g, delivery, channel, now)) ==
             ChainCommitted(H, w, g, phase.batch, delivery, channel, now);
    }
  }

  lemma RecordEventBacked(H: Hasher, env: Env, w: World, g: nat, anchorId: string, fate: TxFate)
    requires Backed(H, w)
    ensures Backed(H, Next(H, env, w, Record(g, anchorId, fate)))
  {
    var phase := PhaseOf(w, g);
    if phase.RootCommitted? {
      assert PhaseBacked(H, w, phase);
      RecordBacked(H, w, g, phase.batch, phase.backend, phase.ref, anchorId, fate);
    }
  }

  lemma OtherEventBacked(H: Hasher, env: Env, w: World, ev: Event)
    requires Backed(H, w) && (ev.Transact? || ev.ReadHeaders? || ev.ReadLines? || ev.Crash?)
    ensures Backed(H, Next(H, env, w, ev))
  {
    var v := Next(H, env, w, ev);
    NextGrows(H, env, w, ev);
    if v.gateways == w.gateways { StillBacked(H, w, v); } else { MoveBackedIff(H, w, v, ev.g, v.gateways[ev.g]); }
  }

  /** Exactly one event makes a gateway go on without its root on the backend:
      a submission of a new root that is lost and reported as existing. */
  lemma NextBackedIff(H: Hasher, env: Env, w: World, ev: Event)
    requires Safe(H, w) && Backed(H, w)
    ensures Backed(H, Next(H, env, w, ev)) <==> Truthful(H, w, ev)
  {
    match ev
    case CommitToLog(g, fate) => LogEventBacked(H, env, w, g, fate);
    case CommitToChain(g, delivery, channel, now) => ChainEventBackedIff(H, env, w, g, delivery, channel, now);
    case Record(g, anchorId, fate) => RecordEventBacked(H, env, w, g, anchorId, fate);
    case _ => OtherEventBacked(H, env, w, ev);
  }

  /** Without such an event, over any run: every anchor's root is on the backend
      the anchor names. */
  lemma {:induction false} AnchorsBacked(H: Hasher, env: Env, events: seq<Event>)
    requires AllTruthful(H, env, events)
    ensures Backed(H, RunWorld(H, env, START, events))
  {
    if |events| > 0 {
      var n := |events| - 1;
      AnchorsBacked(H, env, events[..n]);
      AnchoringSafe(H, env, events[..n]);
      NextBackedIff(H, env, RunWorld(H, env, START, events[..n]), events[n]);
    }
  }

  /** Backed after every event of the run. */
  ghost predicate AlwaysBacked(H: Hasher, env: Env, events: seq<Event>) {
    |events| == 0 ||
    (AlwaysBacked(H, env, events[..|events| - 1]) && Backed(H, RunWorld(H, env, START, events)))
  }

  /** Exactly the truthful runs never take a root for committed that its backend
      does not hold. */
  lemma {:induction false} AlwaysBackedIff(H: Hasher, env: Env, events: seq<Event>)
    ensures AlwaysBacked(H, env, events) <==> AllTruthful(H, env, events)
  {
    if |events| > 0 {
      var n := |events| - 1;
      AlwaysBackedIff(H, env, events[..n]);
      if AllTruthful(H, env, events[..n]) {
        AnchorsBacked(H, env, events[..n]);
        AnchoringSafe(H, env, events[..n]);
        NextBackedIff(H, env, RunWorld(H, env, START, events[..n]), events[n]);
      }
    }
  }

  /** Commit comes first: when an event adds an anchor row, its root was on the
      backend before the event. */
  lemma CommittedBeforeRecorded(H: Hasher, env: Env, w: World, ev: Event, a: string)
    requires Backed(H, w) && a !in w.tables.anchors && a in Next(H, env, w, ev).tables.anchors
    ensures var row := Next(H, env, w, ev).tables.anchors[a];
            ev.Record? && OnBackend(w, row.backend, row.merkleRoot)
  {
    assert ev.Record? && PhaseBacked(H, w, PhaseOf(w, ev.g));
  }

  ghost predicate SameTables(w: World, v: World) {
    v.ledger == w.ledger && v.stamps == w.stamps && v.tables == w.tables && v.log == w.log
    && v.chain == w.chain
  }

  lemma UninterruptedLoad(H: Hasher, env: Env, w: World, g: nat)
    requires PhaseOf(w, g).Idle?
    ensures var batch := Batch(w.ledger.entries, w.stamps, w.tables.proofs);
            var v := Next(H, env, Next(H, env, w, ReadHeaders(g)), ReadLines(g));
            SameTables(w, v) && PhaseOf(v, g) == if batch == [] then Idle else LinesRead(batch)
  {
    var headers := HeaderQuery(w.ledger.entries, w.stamps, w.tables.proofs, BATCH_SIZE);
    var v := Next(H, env, w, ReadHeaders(g));
    assert v == WithHeaders(w, g);
    if |headers| > 0 { assert PhaseOf(v, g) == HeadersRead(headers); }
  }

  /** The event of a commit to either backend. */
  function CommitEvent(g: nat, c: Commit): Event {
    match c
    case ToLog(fate) => CommitToLog(g, fate)
    case ToChain(delivery, channel, now) => CommitToChain(g, delivery, channel, now)
  }

  lemma CommitDoes(H: Hasher, env: Env, w: World, g: nat, batch: seq<C.Entry>, c: Commit)
    requires PhaseOf(w, g) == LinesRead(batch)
    ensures var root := RootOfBatch(H, batch);
            var after := AfterCommit(H, Ledgers(w.log, w.chain), root, |batch|, c);
            var answer := Answer(Ledgers(w.log, w.chain), root, c);
            Next(H, env, w, CommitEvent(g, c)) ==
            At(w.(log := after.log, chain := after.chain), g,
               if answer.Ok? then RootCommitted(batch, BackendName(c), answer.value) else Idle)
  {
  }

  /** A gateway's four events without anything in between. */
  function Uninterrupted(H: Hasher, env: Env, w: World, g: nat, anchorId: string, c: Commit, fate: TxFate): World {
    var loaded := Next(H, env, Next(H, env, w, ReadHeaders(g)), ReadLines(g));
    Next(H, env, Next(H, env, loaded, CommitEvent(g, c)), Record(g, anchorId, fate))
  }

  lemma UninterruptedCommit(
    H: Hasher, env: Env, v: World, g: nat, batch: seq<C.Entry>, anchorId: string, c: Commit, fate: TxFate)
    requires PhaseOf(v, g) == LinesRead(batch)
    ensures var u := Next(H, env, Next(H, env, v, CommitEvent(g, c)), Record(g, anchorId, fate));
            var o := FinishBatch(H, H, batch, v.tables, Ledgers(v.log, v.chain), anchorId, c, fate);
            u.tables == o.tables && Ledgers(u.log, u.chain) == o.ledgers && PhaseOf(u, g).Idle?
  {
    CommitDoes(H, env, v, g, batch, c);
    var u := Next(H, env, v, CommitEvent(g, c));
    var answer := Answer(Ledgers(v.log, v.chain), RootOfBatch(H, batch), c);
    if answer.Ok? {
      assert PhaseOf(u, g) == RootCommitted(batch, BackendName(c), answer.value);
      assert Next(H, env, u, Record(g, anchorId, fate)) ==
             BatchRecorded(H, u, g, batch, BackendName(c), answer.value, anchorId, fate);
    } else {
      assert PhaseOf(u, g).Idle? && Next(H, env, u, Record(g, anchorId, fate)) == u;
    }
  }

  /** The protocol refines the service: left alone, a gateway's four events do
      what AnchorPending does, on either backend. */
  lemma UninterruptedRun(H: Hasher, env: Env, w: World, g: nat, anchorId: string, c: Commit, fate: TxFate)
    requires PhaseOf(w, g).Idle?
    ensures var v := Uninterrupted(H, env, w, g, anchorId, c, fate);
            var o := PendingRun(H, H, w.ledger.entries, w.stamps, w.tables, Ledgers(w.log, w.chain), anchorId, c, fate);
            v.tables == o.tables && Ledgers(v.log, v.chain) == o.ledgers && PhaseOf(v, g).Idle?
  {
    var batch := Batch(w.ledger.entries, w.stamps, w.tables.proofs);
    var loaded := Next(H, env, Next(H, env, w, ReadHeaders(g)), ReadLines(g));
    UninterruptedLoad(H, env, w, g);
    if batch == [] {
      assert Next(H, env, loaded, CommitEvent(g, c)) == loaded;
    } else {
      UninterruptedCommit(H, env, loaded, g, batch, anchorId, c, fate);
    }
  }

  // What is served and what verifies.

  /** What is served: the part the verifiers check, and where its root is
      anchored. */
  datatype Bundle = Bundle(response: M.Response, anchorId: string, backend: string, backendRef: string)

  /** The proof bundle: header, anchor and proof from one query, the lines from
      a second one that may see a later state. */
  function EntryProof(w: World, later: seq<JournalEntry>, id: string): Option<Bundle> {
    if id !in w.tables.proofs || w.tables.proofs[id].anchorId !in w.tables.anchors
       || forall k | 0 <= k < |w.ledger.entries| :: w.ledger.entries[k].id != id
    then None
    else
      var p := w.tables.proofs[id];
      var header := HeaderOf(w.ledger.entries, id);
      Some(BundleOf(w, p, header.(lines := LinesFor(LineQuery(later, {id}), id))))
  }

  function BundleOf(w: World, p: ProofRow, e: C.Entry): Bundle
    requires p.anchorId in w.tables.anchors
  {
    var anchor := w.tables.anchors[p.anchorId];
    Bundle(M.Response(e, p.leafHash, p.proof, anchor.merkleRoot), p.anchorId, anchor.backend, anchor.backendRef)
  }

  function HeaderOf(entries: seq<JournalEntry>, id: string): C.Entry
    requires exists k :: 0 <= k < |entries| && entries[k].id == id
  {
    if entries[|entries| - 1].id == id then Header(entries[|entries| - 1]) else HeaderOf(entries[..|entries| - 1], id)
  }

  /** The same read from the tables: scan the joined row, append the lines. */
  method ReadEntryProof(w: World, later: seq<JournalEntry>, id: string) returns (r: Option<Bundle>)
    ensures r == EntryProof(w, later, id)
  {
    if id !in w.tables.proofs || w.tables.proofs[id].anchorId !in w.tables.anchors
       || forall k | 0 <= k < |w.ledger.entries| :: w.ledger.entries[k].id != id
    {
      return None;
    }
    var p := w.tables.proofs[id];
    var entry := HeaderOf(w.ledger.entries, id);
    var rows := LineQuery(later, {id});
    var lines: seq<C.Line> := [];
    for i := 0 to |rows|
      invariant lines == LinesFor(rows[..i], id)
    {
      assert rows[..i + 1][..i] == rows[..i];
      if rows[i].entryId == id { lines := lines + [rows[i].line]; }
    }
    assert rows[..|rows|] == rows;
    var anchor := w.tables.anchors[p.anchorId];
    r := Some(Bundle(M.Response(entry.(lines := lines), p.leafHash, p.proof, anchor.merkleRoot),
                     p.anchorId, anchor.backend, anchor.backendRef));
  }

  lemma {:induction false} HeaderOfRow(entries: seq<JournalEntry>, k: nat)
    requires UniqueIds(entries) && k < |entries|
    ensures HeaderOf(entries, entries[k].id) == Header(entries[k])
  {
    if k < |entries| - 1 {
      assert entries[..|entries| - 1][k] == entries[k];
      HeaderOfRow(entries[..|entries| - 1], k);
    }
  }

  /** The bundle carries the proof row as recorded, and the anchor it names. */
  ghost predicate NamesAnchor(w: World, id: string, b: Bundle) {
    && id in w.tables.proofs && b.anchorId in w.tables.anchors
    && var r := b.response;
    && w.tables.proofs[id].anchorId == b.anchorId && w.tables.proofs[id].leafHash == r.leafHash
    && w.tables.proofs[id].proof == r.proof
    && w.tables.anchors[b.anchorId].merkleRoot == r.merkleRoot && w.tables.anchors[b.anchorId].backend == b.backend
    && w.tables.anchors[b.anchorId].backendRef == b.backendRef
  }

  /** Every entry with a proof row has a bundle, and every bundle served, at any
      point of any run and with lines read at any later point, shows the entry
      as stored and is accepted by the standalone verifier and, for amounts
      that print exactly, by the mobile one. If no commit was reported falsely,
      its root is on the backend it names. */
  lemma ServedBundleVerifies(
    H: Hasher, env: Env, shown: int -> int, before: seq<Event>, after: seq<Event>, id: string)
    requires M.DoublePrinting(shown)
    requires id in RunWorld(H, env, START, before).tables.proofs
    ensures var w := RunWorld(H, env, START, before);
            var v := RunWorld(H, env, w, after);
            var served := EntryProof(w, v.ledger.entries, id);
            && served.Some?
            && var r := served.value.response;
            && InJournal(w, r.entry) && r.entry.id == id && M.GoAccepts(H, r)
            && (M.ShownAsSent(shown, r.entry) ==> M.MobileAccepts(H, shown, r))
            && NamesAnchor(w, id, served.value)
            && (AllTruthful(H, env, before) ==> OnBackend(w, served.value.backend, r.merkleRoot))
  {
    var w := RunWorld(H, env, START, before);
    var v := RunWorld(H, env, w, after);
    AnchoringSafe(H, env, before);
    RunConcat(H, env, START, before, after);
    AnchoringSafe(H, env, before + after);
    RunGrows(H, env, w, after);
    if AllTruthful(H, env, before) { AnchorsBacked(H, env, before); }
    BundleServed(H, shown, w, v, id);
  }

  lemma BundleServed(H: Hasher, shown: int -> int, w: World, v: World, id: string)
    requires Safe(H, w) && Safe(H, v) && Grows(w, v) && id in w.tables.proofs && M.DoublePrinting(shown)
    ensures var served := EntryProof(w, v.ledger.entries, id);
            && served.Some?
            && var r := served.value.response;
            && InJournal(w, r.entry) && r.entry.id == id && M.GoAccepts(H, r)
            && (M.ShownAsSent(shown, r.entry) ==> M.MobileAccepts(H, shown, r))
            && NamesAnchor(w, id, served.value)
            && (Backed(H, w) ==> OnBackend(w, served.value.backend, r.merkleRoot))
  {
    var p := w.tables.proofs[id];
    assert ProofOk(H, w, id, p);
    var row :| row in w.ledger.entries && row.id == id && p.leafHash == H(C.CanonicalString(PublicEntry(row)));
    var k :| 0 <= k < |w.ledger.entries| && w.ledger.entries[k] == row;
    assert v.ledger.entries[k] == row;
    BundleShape(w, v.ledger.entries, k);
    BundleAccepted(H, shown, w, row, p, EntryProof(w, v.ledger.entries, id).value.response);
  }

  /** The bundle is the entry as stored with its proof row and anchor. */
  lemma BundleShape(w: World, later: seq<JournalEntry>, k: nat)
    requires UniqueIds(w.ledger.entries) && UniqueIds(later)
    requires k < |w.ledger.entries| && k < |later| && later[k] == w.ledger.entries[k]
    requires w.ledger.entries[k].id in w.tables.proofs
    requires w.tables.proofs[w.ledger.entries[k].id].anchorId in w.tables.anchors
    ensures var row := w.ledger.entries[k];
            EntryProof(w, later, row.id) == Some(BundleOf(w, w.tables.proofs[row.id], PublicEntry(row)))
  {
    var row := w.ledger.entries[k];
    HeaderOfRow(w.ledger.entries, k);
    LinesOfEntry(later, {row.id}, k);
    assert Header(row).(lines := Map(PublicLine, row.lines)) == PublicEntry(row);
  }

  lemma BundleAccepted(H: Hasher, shown: int -> int, w: World, row: JournalEntry, p: ProofRow, served: M.Response)
    requires ProofOk(H, w, row.id, p) && p.leafHash == H(C.CanonicalString(PublicEntry(row))) && M.DoublePrinting(shown)
    requires served == M.Response(PublicEntry(row), p.leafHash, p.proof, w.tables.anchors[p.anchorId].merkleRoot)
    ensures M.GoAccepts(H, served)
    ensures M.ShownAsSent(shown, served.entry) ==> M.MobileAccepts(H, shown, served)
  {
    if M.ShownAsSent(shown, served.entry) { M.ExactLines(shown, served.entry.lines); }
  }

  lemma {:induction false} RunConcat(H: Hasher, env: Env, w: World, a: seq<Event>, b: seq<Event>)
    ensures RunWorld(H, env, w, a + b) == RunWorld(H, env, RunWorld(H, env, w, a), b)
    decreases |b|
  {
    if |b| == 0 {
      assert a + b == a;
    } else {
      assert (a + b)[..|a + b| - 1] == a + b[..|b| - 1];
      RunConcat(H, env, w, a, b[..|b| - 1]);
    }
  }

  lemma PublicCurrency(w: World, e: C.Entry, line: C.Line)
    requires Books(w.ledger) && InJournal(w, e) && line in e.lines
    ensures C.IsCurrencyCode(line.currency)
  {
    var row :| row in w.ledger.entries && e == PublicEntry(row);
    var k :| 0 <= k < |e.lines| && e.lines[k] == line;
    AcceptedIff(row);
    assert row.lines[k] in row.lines;
  }

  lemma PublicCurrencies(w: World, batch: seq<C.Entry>)
    requires Books(w.ledger) && BatchInJournal(w, batch)
    ensures forall e, line | e in batch && line in e.lines :: C.IsCurrencyCode(line.currency)
  {
    forall e, line | e in batch && line in e.lines ensures C.IsCurrencyCode(line.currency) {
      var i :| 0 <= i < |batch| && batch[i] == e;
      assert InJournal(w, batch[i]);
      PublicCurrency(w, e, line);
    }
  }

  /** Nothing else verifies: over any run, a claim with any proof that reaches a
      root found on either backend is a claim about a posted entry, in the same
      canonical form and as far as that form tells entries apart, or a collision
      among the strings hashed. */
  lemma OnlyPostedEntriesVerify(
    H: Hasher, env: Env, events: seq<Event>, backend: string, root: string, claimed: C.Entry, proof: seq<ProofStep>)
    requires OnBackend(RunWorld(H, env, START, events), backend, root)
    requires Walk(H, H(C.CanonicalString(claimed)), proof) == root
    ensures var w := RunWorld(H, env, START, events);
            || (exists e :: InJournal(w, e) && C.CanonicalString(e) == C.CanonicalString(claimed)
                            && C.TellsApart(e, claimed))
            || exists batch :: BatchOf(H, w, batch, root) &&
                 Collision(H, BatchInputs(H, CanonicalStrings(batch)) + {C.CanonicalString(claimed)}
                              + WalkInputs(H, H(C.CanonicalString(claimed)), proof))
  {
    var w := RunWorld(H, env, START, events);
    AnchoringSafe(H, env, events);
    assert RootOk(H, w, root) by {
      if backend == TLOG {
        var k :| 0 <= k < |w.log| && w.log[k].merkleRoot == root;
      } else {
        assert ChainAnchorOk(H, w, root, w.chain[root]);
      }
    }
    var batch :| BatchOf(H, w, batch, root);
    PublicCurrencies(w, batch);
    VerifiedEntryIsInBatch(H, batch, claimed, proof);
    if e :| e in batch && C.CanonicalString(e) == C.CanonicalString(claimed) {
      C.SameStringTells(e, claimed);
      var i :| 0 <= i < |batch| && batch[i] == e;
      assert InJournal(w, batch[i]);
    }
  }
}

/** What the rows that anchoring writes say: how many entries an anchor covers,
    where its root can be looked up, and which leaf a proof row is about. */
module AnchorRows {
  import opened Wrappers
  import opened Text
  import opened Sorting
  import opened Hashing
  import C = Canonical
  import opened Merkle
  import opened MerkleSoundness
  import opened Journal
  import opened Ledger
  import opened LedgerInvariants
  import opened TransparencyLog
  import F = Fabric
  import opened Anchoring
  import opened AnchoringProtocol

  /** The leaf of a posted entry reads back as the row in the journal, and each of
      its lines. */
  lemma LeafReadsBack(row: JournalEntry)
    requires C.Clean(PublicEntry(row))
    ensures |Split(C.CanonicalString(PublicEntry(row)), '|')| == 8
    ensures var e := C.ReadEntry(C.CanonicalString(PublicEntry(row)));
            && e.id == row.id && e.institutionId == row.institutionId && e.fiscalYear == row.fiscalYear
            && e.effectiveDate == row.effectiveDate && e.status == row.status && e.entryType == row.entryType
            && multiset(e.lines) ==
               multiset(seq(|row.lines|, i requires 0 <= i < |row.lines| =>
                              C.Line(row.lines[i].accountCode, row.lines[i].direction, row.lines[i].amountMinor,
                                     row.lines[i].currency)))
  {
    C.CanonicalReadsBack(PublicEntry(row));
    assert PublicEntry(row).lines ==
           seq(|row.lines|, i requires 0 <= i < |row.lines| =>
                 C.Line(row.lines[i].accountCode, row.lines[i].direction, row.lines[i].amountMinor,
                        row.lines[i].currency));
  }

  ghost predicate RefersToLog(w: World, k: nat, ref: string, root: string) {
    k < |w.log| && w.log[k].merkleRoot == root && ref == "tlog:" + Decimal(w.log[k].sequence)
  }

  /** The reference that event i of the run, a submission to the chain, was
      answered with: its transaction if that put the root there, else the root. */
  ghost predicate RefersToChain(H: Hasher, env: Env, events: seq<Event>, i: nat, ref: string, root: string) {
    && i < |events| && events[i].CommitToChain?
    && var ev, before := events[i], RunWorld(H, env, START, events[..i]);
    ref == "fabric:" + ev.channel + ":" +
           (if ev.delivery.Delivered? && root !in before.chain then ev.delivery.txId else root)
  }

  /** The backend is one of the two, and the reference leads to the root there:
      to a row of the log with that root, or to a submission to the chain. */
  ghost predicate RefOk(H: Hasher, env: Env, events: seq<Event>, backend: string, ref: string, root: string) {
    || (backend == TLOG && exists k: nat :: RefersToLog(RunWorld(H, env, START, events), k, ref, root))
    || (backend == FABRIC && exists i: nat :: RefersToChain(H, env, events, i, ref, root))
  }

  ghost predicate CountsBatch(H: Hasher, w: World, row: AnchorRow, batch: seq<C.Entry>) {
    BatchOf(H, w, batch, row.merkleRoot) && row.entryCount == |batch|
  }

  /** The proof row is the one for its entry's place in the anchored batch. */
  ghost predicate Placed(H: Hasher, w: World, id: string, p: ProofRow, row: AnchorRow, batch: seq<C.Entry>) {
    && CountsBatch(H, w, row, batch)
    && 0 <= p.leafIndex < |batch| && batch[p.leafIndex].id == id
    && p.leafHash == H(C.CanonicalString(batch[p.leafIndex]))
    && p.proof == ProofFor(H, Leaves(H, batch), p.leafIndex)
  }

  ghost predicate AnchorSays(H: Hasher, env: Env, events: seq<Event>, row: AnchorRow) {
    && (exists batch :: CountsBatch(H, RunWorld(H, env, START, events), row, batch))
    && RefOk(H, env, events, row.backend, row.backendRef, row.merkleRoot)
  }

  ghost predicate PhaseSays(H: Hasher, env: Env, events: seq<Event>, phase: Phase) {
    phase.RootCommitted? ==> RefOk(H, env, events, phase.backend, phase.ref, RootOfBatch(H, phase.batch))
  }

  ghost predicate ProofSays(H: Hasher, w: World, id: string, p: ProofRow) {
    p.anchorId in w.tables.anchors && exists batch :: Placed(H, w, id, p, w.tables.anchors[p.anchorId], batch)
  }

  ghost predicate RowsSay(H: Hasher, env: Env, events: seq<Event>) {
    var w := RunWorld(H, env, START, events);
    && (forall a | a in w.tables.anchors :: AnchorSays(H, env, events, w.tables.anchors[a]))
    && (forall id | id in w.tables.proofs :: ProofSays(H, w, id, w.tables.proofs[id]))
    && (forall g | g in w.gateways :: PhaseSays(H, env, events, w.gateways[g]))
  }

  lemma AfterEvent(H: Hasher, env: Env, events: seq<Event>, ev: Event)
    ensures RunWorld(H, env, START, events + [ev]) == Next(H, env, RunWorld(H, env, START, events), ev)
    ensures Grows(RunWorld(H, env, START, events), RunWorld(H, env, START, events + [ev]))
  {
    assert (events + [ev])[..|events|] == events;
    NextGrows(H, env, RunWorld(H, env, START, events), ev);
  }

  lemma RefStays(H: Hasher, env: Env, events: seq<Event>, ev: Event, backend: string, ref: string, root: string)
    requires RefOk(H, env, events, backend, ref, root)
    ensures RefOk(H, env, events + [ev], backend, ref, root)
  {
    AfterEvent(H, env, events, ev);
    if backend == TLOG {
      var k: nat :| RefersToLog(RunWorld(H, env, START, events), k, ref, root);
      assert RefersToLog(RunWorld(H, env, START, events + [ev]), k, ref, root);
    } else {
      var i: nat :| RefersToChain(H, env, events, i, ref, root);
      assert (events + [ev])[..i] == events[..i];
      assert RefersToChain(H, env, events + [ev], i, ref, root);
    }
  }

  lemma CountStays(H: Hasher, w: World, v: World, row: AnchorRow, batch: seq<C.Entry>)
    requires Grows(w, v) && CountsBatch(H, w, row, batch)
    ensures CountsBatch(H, v, row, batch)
  {
    BatchStays(w, v, batch);
  }

  lemma AnchorStays(H: Hasher, env: Env, events: seq<Event>, ev: Event, row: AnchorRow)
    requires AnchorSays(H, env, events, row)
    ensures AnchorSays(H, env, events + [ev], row)
  {
    AfterEvent(H, env, events, ev);
    RefStays(H, env, events, ev, row.backend, row.backendRef, row.merkleRoot);
    var batch :| CountsBatch(H, RunWorld(H, env, START, events), row, batch);
    CountStays(H, RunWorld(H, env, START, events), RunWorld(H, env, START, events + [ev]), row, batch);
  }

  lemma PlaceStays(H: Hasher, w: World, v: World, id: string, p: ProofRow)
    requires Grows(w, v) && ProofSays(H, w, id, p)
    ensures ProofSays(H, v, id, p)
  {
    var batch :| Placed(H, w, id, p, w.tables.anchors[p.anchorId], batch);
    CountStays(H, w, v, w.tables.anchors[p.anchorId], batch);
    assert Placed(H, v, id, p, v.tables.anchors[p.anchorId], batch);
  }

  // What an event adds.

  lemma AnswerNames(chain: F.Ledger, channel: string, root: string, delivery: F.Delivery)
    requires F.CommitResult(chain, channel, root, delivery).Ok? && root != ""
    ensures F.CommitResult(chain, channel, root, delivery).value ==
            "fabric:" + channel + ":" + (if delivery.Delivered? && root !in chain then delivery.txId else root)
  {
  }

  /** A commit's answer names what it wrote. */
  lemma LogRefOk(H: Hasher, env: Env, events: seq<Event>, g: nat, batch: seq<C.Entry>, fate: TxFate)
    requires PhaseOf(RunWorld(H, env, START, events), g) == LinesRead(batch)
    ensures var after := events + [CommitToLog(g, fate)];
            PhaseSays(H, env, after, PhaseOf(RunWorld(H, env, START, after), g))
  {
    var w, ev := RunWorld(H, env, START, events), CommitToLog(g, fate);
    var v := LogCommitted(H, w, g, batch, fate);
    AfterEvent(H, env, events, ev);
    assert RunWorld(H, env, START, events + [ev]) == v;
    if PhaseOf(v, g).RootCommitted? {
      assert RefersToLog(v, |w.log|, PhaseOf(v, g).ref, RootOfBatch(H, batch));
    }
  }

  lemma ChainRefOk(
    H: Hasher, env: Env, events: seq<Event>, g: nat, batch: seq<C.Entry>, delivery: F.Delivery, channel: string,
    now: string)
    requires PhaseOf(RunWorld(H, env, START, events), g) == LinesRead(batch) && |batch| > 0
    ensures var after := events + [CommitToChain(g, delivery, channel, now)];
            PhaseSays(H, env, after, PhaseOf(RunWorld(H, env, START, after), g))
  {
    var w, ev := RunWorld(H, env, START, events), CommitToChain(g, delivery, channel, now);
    var v := ChainCommitted(H, w, g, batch, delivery, channel, now);
    var root := RootOfBatch(H, batch);
    AfterEvent(H, env, events, ev);
    assert RunWorld(H, env, START, events + [ev]) == v;
    if PhaseOf(v, g).RootCommitted? {
      RootNotEmpty(H, batch);
      AnswerNames(w.chain, channel, root, delivery);
      assert (events + [ev])[..|events|] == events;
      assert RefersToChain(H, env, events + [ev], |events|, PhaseOf(v, g).ref, root);
    }
  }

  /** No other event brings a gateway to a committed phase. */
  lemma OnlyCommitsCommit(H: Hasher, env: Env, w: World, ev: Event, g: nat)
    requires PhaseOf(Next(H, env, w, ev), g).RootCommitted?
    ensures || PhaseOf(Next(H, env, w, ev), g) == PhaseOf(w, g)
            || ((ev.CommitToLog? || ev.CommitToChain?) && ev.g == g && PhaseOf(w, g).LinesRead?)
  {
  }

  lemma PhaseAfter(H: Hasher, env: Env, events: seq<Event>, ev: Event, g: nat)
    requires RowsSay(H, env, events) && Safe(H, RunWorld(H, env, START, events))
    ensures PhaseSays(H, env, events + [ev], PhaseOf(RunWorld(H, env, START, events + [ev]), g))
  {
    var w := RunWorld(H, env, START, events);
    AfterEvent(H, env, events, ev);
    var phase := PhaseOf(Next(H, env, w, ev), g);
    if phase.RootCommitted? {
      OnlyCommitsCommit(H, env, w, ev, g);
      if phase == PhaseOf(w, g) {
        assert PhaseSays(H, env, events, phase);
        RefStays(H, env, events, ev, phase.backend, phase.ref, RootOfBatch(H, phase.batch));
      } else {
        assert PhaseOk(w, PhaseOf(w, g));
        CommitRefOk(H, env, events, ev, g);
      }
    }
  }

  lemma CommitRefOk(H: Hasher, env: Env, events: seq<Event>, ev: Event, g: nat)
    requires (ev.CommitToLog? || ev.CommitToChain?) && ev.g == g
    requires PhaseOf(RunWorld(H, env, START, events), g).LinesRead?
    requires |PhaseOf(RunWorld(H, env, START, events), g).batch| > 0
    ensures PhaseSays(H, env, events + [ev], PhaseOf(RunWorld(H, env, START, events + [ev]), g))
  {
    var batch := PhaseOf(RunWorld(H, env, START, events), g).batch;
    if ev.CommitToLog? {
      LogRefOk(H, env, events, g, batch, ev.fate);
    } else {
      ChainRefOk(H, env, events, g, batch, ev.delivery, ev.channel, ev.now);
    }
  }

  /** The row and the proofs of a batch recorded by v. */
  lemma RecordedSay(
    H: Hasher, w: World, v: World, batch: seq<C.Entry>, backend: string, ref: string, anchorId: string, id: string)
    requires Grows(w, v) && BatchInJournal(w, batch) && anchorId !in w.tables.anchors
    requires v.tables == Recorded(H, w.tables, batch, anchorId, backend, ref)
    ensures CountsBatch(H, v, v.tables.anchors[anchorId], batch)
    ensures id in v.tables.proofs && id !in w.tables.proofs ==> ProofSays(H, v, id, v.tables.proofs[id])
  {
    BatchStays(w, v, batch);
    var rows := BatchRows(H, batch, anchorId);
    RecordedRows(w.tables.proofs, batch, rows, |batch|);
    if id in v.tables.proofs && id !in w.tables.proofs {
      var i :| 0 <= i < |batch| && batch[i].id == id && v.tables.proofs[id] == rows[i];
      assert Placed(H, v, id, rows[i], v.tables.anchors[anchorId], batch);
    }
  }

  /** Only recording changes the two tables. */
  lemma OnlyRecordsRecord(H: Hasher, env: Env, w: World, ev: Event)
    requires Next(H, env, w, ev).tables != w.tables
    ensures ev.Record? && PhaseOf(w, ev.g).RootCommitted? && ev.anchorId !in w.tables.anchors
    ensures var phase := PhaseOf(w, ev.g);
            Next(H, env, w, ev).tables == Recorded(H, w.tables, phase.batch, ev.anchorId, phase.backend, phase.ref)
  {
  }

  lemma ProofAfter(H: Hasher, env: Env, w: World, ev: Event, id: string)
    requires Safe(H, w) && forall x | x in w.tables.proofs :: ProofSays(H, w, x, w.tables.proofs[x])
    requires id in Next(H, env, w, ev).tables.proofs
    ensures ProofSays(H, Next(H, env, w, ev), id, Next(H, env, w, ev).tables.proofs[id])
  {
    var v := Next(H, env, w, ev);
    NextGrows(H, env, w, ev);
    if id in w.tables.proofs {
      PlaceStays(H, w, v, id, w.tables.proofs[id]);
    } else {
      OnlyRecordsRecord(H, env, w, ev);
      var phase := PhaseOf(w, ev.g);
      assert PhaseOk(w, phase);
      RecordedSay(H, w, v, phase.batch, phase.backend, phase.ref, ev.anchorId, id);
    }
  }

  lemma AnchorAfter(H: Hasher, env: Env, events: seq<Event>, ev: Event, a: string)
    requires RowsSay(H, env, events) && Safe(H, RunWorld(H, env, START, events))
    requires a in RunWorld(H, env, START, events + [ev]).tables.anchors
    ensures AnchorSays(H, env, events + [ev], RunWorld(H, env, START, events + [ev]).tables.anchors[a])
  {
    var w := RunWorld(H, env, START, events);
    AfterEvent(H, env, events, ev);
    var v := Next(H, env, w, ev);
    if a in w.tables.anchors {
      AnchorStays(H, env, events, ev, w.tables.anchors[a]);
    } else {
      OnlyRecordsRecord(H, env, w, ev);
      var phase := PhaseOf(w, ev.g);
      assert PhaseOk(w, phase) && PhaseSays(H, env, events, phase);
      RecordedSay(H, w, v, phase.batch, phase.backend, phase.ref, ev.anchorId, "");
      RefStays(H, env, events, ev, phase.backend, phase.ref, RootOfBatch(H, phase.batch));
    }
  }

  /** Over every run: each anchor row counts the entries of a batch of posted
      entries with its root, and names where that root was put, on the backend
      it names; and each proof row is the one for its entry's place in such a
      batch of its anchor. */
  lemma {:induction false} AnchorRowsSay(H: Hasher, env: Env, events: seq<Event>)
    ensures RowsSay(H, env, events)
  {
    if |events| > 0 {
      var front, ev := events[..|events| - 1], events[|events| - 1];
      assert events == front + [ev];
      AnchorRowsSay(H, env, front);
      AnchoringSafe(H, env, front);
      AfterEvent(H, env, front, ev);
      RowsAfter(H, env, front, ev);
    }
  }

  lemma RowsAfter(H: Hasher, env: Env, events: seq<Event>, ev: Event)
    requires RowsSay(H, env, events) && Safe(H, RunWorld(H, env, START, events))
    ensures RowsSay(H, env, events + [ev])
  {
    var w := RunWorld(H, env, START, events);
    AfterEvent(H, env, events, ev);
    var v := RunWorld(H, env, START, events + [ev]);
    forall a | a in v.tables.anchors ensures AnchorSays(H, env, events + [ev], v.tables.anchors[a]) {
      AnchorAfter(H, env, events, ev, a);
    }
    forall id | id in v.tables.proofs ensures ProofSays(H, v, id, v.tables.proofs[id]) {
      ProofAfter(H, env, w, ev, id);
    }
    forall g | g in v.gateways ensures PhaseSays(H, env, events + [ev], v.gateways[g]) {
      PhaseAfter(H, env, events, ev, g);
    }
  }
}

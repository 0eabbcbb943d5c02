/** What losses cost: a success that was none, and log rows that nobody recorded. */
module AnchoringLosses {
  import opened Wrappers
  import opened Text
  import opened Sorting
  import opened Hashing
  import C = Canonical
  import opened Merkle
  import opened Journal
  import opened Ledger
  import opened LedgerInvariants
  import opened TransparencyLog
  import F = Fabric
  import opened Anchoring
  import opened AnchoringProtocol

  // A success that was none.

  /** No batch names an entry that has a proof row. */
  lemma BatchIsUnproven(entries: seq<JournalEntry>, stamps: Stamps, proofs: Proofs, id: string)
    requires UniqueIds(entries) && id in proofs
    ensures id !in HeaderIds(Batch(entries, stamps, proofs))
  {
    BatchIds(entries, stamps, proofs);
    SelectedRows(entries, stamps, proofs, BATCH_SIZE);
    UnanchoredRows(entries, proofs);
  }

  /** The entries of a recorded batch name its anchor. */
  lemma BatchNamesAnchor(H: Hasher, entries: seq<JournalEntry>, stamps: Stamps, t: Tables, anchorId: string, e: C.Entry)
    requires UniqueIds(entries) && e in Batch(entries, stamps, t.proofs)
    ensures var batch := Batch(entries, stamps, t.proofs);
            var after := RecordProofs(t.proofs, batch, BatchRows(H, batch, anchorId), |batch|);
            e.id in after && after[e.id].anchorId == anchorId
  {
    var batch := Batch(entries, stamps, t.proofs);
    RecordedRows(t.proofs, batch, BatchRows(H, batch, anchorId), |batch|);
    assert e.id in HeaderIds(batch);
    if e.id in t.proofs { BatchIsUnproven(entries, stamps, t.proofs, e.id); }
    var i :| 0 <= i < |batch| && batch[i] == e;
    assert batch[i].id == e.id;
  }

  /** The one untruthful answer has lasting effect. After any run, let an idle
      gateway load a batch whose root is new, let its submission be lost and
      reported as existing, and let the gateway record. Then an anchor row names
      the chain for a root that the chain does not hold; and over every later
      run the row stays, the entries of the batch name it in their proofs, and
      no batch ever contains them again. */
  lemma FalseSuccessRecorded(
    H: Hasher, env: Env, events: seq<Event>, g: nat, text: string, channel: string, now: string, anchorId: string,
    later: seq<Event>)
    requires var w := RunWorld(H, env, START, events);
             var batch := Batch(w.ledger.entries, w.stamps, w.tables.proofs);
             && PhaseOf(w, g).Idle? && batch != [] && RootOfBatch(H, batch) !in w.chain
             && anchorId !in w.tables.anchors && F.Contains(text, F.ALREADY_EXISTS)
    ensures var w := RunWorld(H, env, START, events);
            var batch := Batch(w.ledger.entries, w.stamps, w.tables.proofs);
            var v := Uninterrupted(H, env, w, g, anchorId, ToChain(F.Lost(text), channel, now), Committed);
            var u := RunWorld(H, env, v, later);
            && anchorId in v.tables.anchors
            && v.tables.anchors[anchorId].backend == FABRIC
            && v.tables.anchors[anchorId].merkleRoot == RootOfBatch(H, batch)
            && !OnBackend(v, FABRIC, RootOfBatch(H, batch))
            && anchorId in u.tables.anchors && u.tables.anchors[anchorId] == v.tables.anchors[anchorId]
            && forall e | e in batch ::
                 && e.id in u.tables.proofs && u.tables.proofs[e.id].anchorId == anchorId
                 && e.id !in HeaderIds(Batch(u.ledger.entries, u.stamps, u.tables.proofs))
  {
    var w := RunWorld(H, env, START, events);
    var batch := Batch(w.ledger.entries, w.stamps, w.tables.proofs);
    var c := ToChain(F.Lost(text), channel, now);
    var v := Uninterrupted(H, env, w, g, anchorId, c, Committed);
    var u := RunWorld(H, env, v, later);
    AnchoringSafe(H, env, events);
    FalseSuccess(H, env, w, g, text, channel, now, anchorId);
    RunGrows(H, env, v, later);
    RunSafe(H, env, v, later);
    forall e | e in batch
      ensures e.id in u.tables.proofs && u.tables.proofs[e.id].anchorId == anchorId
      ensures e.id !in HeaderIds(Batch(u.ledger.entries, u.stamps, u.tables.proofs))
    {
      BatchNamesAnchor(H, w.ledger.entries, w.stamps, w.tables, anchorId, e);
      BatchIsUnproven(u.ledger.entries, u.stamps, u.tables.proofs, e.id);
    }
  }

  lemma FalseSuccess(
    H: Hasher, env: Env, w: World, g: nat, text: string, channel: string, now: string, anchorId: string)
    requires Safe(H, w) && PhaseOf(w, g).Idle? && Batch(w.ledger.entries, w.stamps, w.tables.proofs) != []
    requires anchorId !in w.tables.anchors && F.Contains(text, F.ALREADY_EXISTS)
    ensures var batch := Batch(w.ledger.entries, w.stamps, w.tables.proofs);
            var v := Uninterrupted(H, env, w, g, anchorId, ToChain(F.Lost(text), channel, now), Committed);
            && Safe(H, v) && v.chain == w.chain
            && v.tables ==
               Recorded(H, w.tables, batch, anchorId, FABRIC, "fabric:" + channel + ":" + RootOfBatch(H, batch))
  {
    var c := ToChain(F.Lost(text), channel, now);
    UninterruptedRun(H, env, w, g, anchorId, c, Committed);
    UninterruptedSafe(H, env, w, g, anchorId, c, Committed);
  }

  lemma UninterruptedSafe(H: Hasher, env: Env, w: World, g: nat, anchorId: string, c: Commit, fate: TxFate)
    requires Safe(H, w)
    ensures Safe(H, Uninterrupted(H, env, w, g, anchorId, c, fate))
  {
    var w1 := Next(H, env, w, ReadHeaders(g));
    var w2 := Next(H, env, w1, ReadLines(g));
    var w3 := Next(H, env, w2, CommitEvent(g, c));
    NextSafe(H, env, w, ReadHeaders(g));
    NextSafe(H, env, w1, ReadLines(g));
    NextSafe(H, env, w2, CommitEvent(g, c));
    NextSafe(H, env, w3, Record(g, anchorId, fate));
  }

  lemma {:induction false} RunSafe(H: Hasher, env: Env, w: World, events: seq<Event>)
    requires Safe(H, w)
    ensures Safe(H, RunWorld(H, env, w, events))
  {
    if |events| > 0 {
      RunSafe(H, env, w, events[..|events| - 1]);
      NextSafe(H, env, RunWorld(H, env, w, events[..|events| - 1]), events[|events| - 1]);
    }
  }

  // Log rows that nobody recorded.

  /** The recorded anchors on the transparency log. */
  function LogAnchors(w: World): set<string> {
    set a | a in w.tables.anchors && w.tables.anchors[a].backend == TLOG
  }

  /** Gateways between their commit to the log and its recording. */
  function Waiting(w: World): set<nat> {
    set g | g in w.gateways && Waits(w.gateways[g])
  }

  predicate Waits(phase: Phase) {
    phase.RootCommitted? && phase.backend == TLOG
  }

  /** Whether the event leaves a log row behind that will not be recorded: a
      commit whose acknowledgement is lost, a crash before recording, a recording
      that fails. */
  function Orphans(w: World, ev: Event): nat {
    match ev
    case CommitToLog(g, fate) => if PhaseOf(w, g).LinesRead? && fate == AckLost then 1 else 0
    case Record(g, anchorId, fate) =>
      if g in Waiting(w) && (anchorId in w.tables.anchors || fate == RolledBack) then 1 else 0
    case Crash(g) => if g in Waiting(w) then 1 else 0
    case _ => 0
  }

  /** How many rows a run left behind. */
  function AllOrphans(H: Hasher, env: Env, events: seq<Event>): nat {
    if |events| == 0 then 0
    else
      var n := |events| - 1;
      AllOrphans(H, env, events[..n]) + Orphans(RunWorld(H, env, START, events[..n]), events[n])
  }

  /** What is recorded, waiting or left behind. */
  function Owed(w: World): nat {
    |LogAnchors(w)| + |Waiting(w)|
  }

  lemma WaitingAfter(w: World, v: World, g: nat, phase: Phase)
    requires v.gateways == w.gateways[g := phase]
    ensures Waiting(v) == if Waits(phase) then Waiting(w) + {g} else Waiting(w) - {g}
  {
  }

  lemma LogCommitAccount(H: Hasher, w: World, g: nat, batch: seq<C.Entry>, fate: TxFate)
    requires PhaseOf(w, g) == LinesRead(batch)
    ensures var v := LogCommitted(H, w, g, batch, fate);
            |v.log| - |w.log| == Owed(v) - Owed(w) + Orphans(w, CommitToLog(g, fate))
  {
    var v := LogCommitted(H, w, g, batch, fate);
    WaitingAfter(w, v, g, v.gateways[g]);
    assert g !in Waiting(w) && LogAnchors(v) == LogAnchors(w);
    assert Waiting(w) - {g} == Waiting(w);
  }

  lemma ChainCommitAccount(
    H: Hasher, w: World, g: nat, batch: seq<C.Entry>, delivery: F.Delivery, channel: string, now: string)
    requires PhaseOf(w, g) == LinesRead(batch)
    ensures var v := ChainCommitted(H, w, g, batch, delivery, channel, now);
            v.log == w.log && Owed(v) == Owed(w)
  {
    var v := ChainCommitted(H, w, g, batch, delivery, channel, now);
    assert FABRIC != TLOG;
    WaitingAfter(w, v, g, v.gateways[g]);
    assert g !in Waiting(w) && LogAnchors(v) == LogAnchors(w);
    assert Waiting(w) - {g} == Waiting(w);
  }

  lemma NewAnchorCounted(
    H: Hasher, w: World, v: World, batch: seq<C.Entry>, backend: string, ref: string, anchorId: string)
    requires anchorId !in w.tables.anchors && v.tables == Recorded(H, w.tables, batch, anchorId, backend, ref)
    ensures |LogAnchors(v)| == |LogAnchors(w)| + (if backend == TLOG then 1 else 0)
  {
    assert LogAnchors(v) == if backend == TLOG then LogAnchors(w) + {anchorId} else LogAnchors(w);
  }

  lemma RecordAccount(
    H: Hasher, w: World, g: nat, batch: seq<C.Entry>, backend: string, ref: string, anchorId: string, fate: TxFate)
    requires PhaseOf(w, g) == RootCommitted(batch, backend, ref)
    ensures var v := BatchRecorded(H, w, g, batch, backend, ref, anchorId, fate);
            v.log == w.log && Owed(v) + Orphans(w, Record(g, anchorId, fate)) == Owed(w)
  {
    var v := BatchRecorded(H, w, g, batch, backend, ref, anchorId, fate);
    WaitingAfter(w, v, g, Idle);
    assert g in Waiting(w) <==> backend == TLOG;
    if anchorId in w.tables.anchors || fate == RolledBack {
      assert LogAnchors(v) == LogAnchors(w);
    } else {
      NewAnchorCounted(H, w, v, batch, backend, ref, anchorId);
    }
    if backend != TLOG { assert Waiting(w) - {g} == Waiting(w); }
  }

  lemma MoveAccount(w: World, g: nat, phase: Phase)
    requires !Waits(phase)
    ensures var v := At(w, g, phase); v.log == w.log && Owed(v) == Owed(w) - (if g in Waiting(w) then 1 else 0)
  {
    var v := At(w, g, phase);
    WaitingAfter(w, v, g, phase);
    assert LogAnchors(v) == LogAnchors(w);
    if g !in Waiting(w) { assert Waiting(w) - {g} == Waiting(w); }
  }

  /** One event's account. */
  lemma NextAccount(H: Hasher, env: Env, w: World, ev: Event)
    ensures var v := Next(H, env, w, ev);
            |v.log| - |w.log| == Owed(v) - Owed(w) + Orphans(w, ev)
  {
    match ev
    case Transact(step, stamp) =>
      var v := Transacted(env, w, step, stamp);
      assert LogAnchors(v) == LogAnchors(w) && Waiting(v) == Waiting(w);
    case ReadHeaders(g) =>
      if WithHeaders(w, g) != w { MoveAccount(w, g, PhaseOf(WithHeaders(w, g), g)); }
    case ReadLines(g) =>
      if WithLines(w, g) != w { MoveAccount(w, g, PhaseOf(WithLines(w, g), g)); }
    case CommitToLog(g, fate) =>
      if PhaseOf(w, g).LinesRead? { LogCommitAccount(H, w, g, PhaseOf(w, g).batch, fate); }
    case CommitToChain(g, delivery, channel, now) =>
      if PhaseOf(w, g).LinesRead? { ChainCommitAccount(H, w, g, PhaseOf(w, g).batch, delivery, channel, now); }
    case Record(g, anchorId, fate) =>
      var phase := PhaseOf(w, g);
      if phase.RootCommitted? { RecordAccount(H, w, g, phase.batch, phase.backend, phase.ref, anchorId, fate); }
    case Crash(g) => MoveAccount(w, g, Idle);
  }

  /** Over any run every row of the transparency log is recorded, waiting to be,
      or was left behind. So there is one row for each recorded anchor exactly
      when no gateway is between commit and recording and no commit went
      unrecorded. */
  lemma {:induction false} LogRowsAccounted(H: Hasher, env: Env, events: seq<Event>)
    ensures var w := RunWorld(H, env, START, events);
            && |w.log| == |LogAnchors(w)| + |Waiting(w)| + AllOrphans(H, env, events)
            && (|w.log| == |LogAnchors(w)| <==> Waiting(w) == {} && AllOrphans(H, env, events) == 0)
  {
    if |events| > 0 {
      var n := |events| - 1;
      LogRowsAccounted(H, env, events[..n]);
      NextAccount(H, env, RunWorld(H, env, START, events[..n]), events[n]);
    }
  }

  lemma CrashedAfterCommit(H: Hasher, env: Env, w: World, g: nat)
    requires PhaseOf(w, g).Idle? && Batch(w.ledger.entries, w.stamps, w.tables.proofs) != []
    ensures var loaded := Next(H, env, Next(H, env, w, ReadHeaders(g)), ReadLines(g));
            var crashed := Next(H, env, Next(H, env, loaded, CommitToLog(g, Committed)), Crash(g));
            var root := RootOfBatch(H, Batch(w.ledger.entries, w.stamps, w.tables.proofs));
            && crashed.ledger == w.ledger && crashed.stamps == w.stamps && crashed.tables == w.tables
            && crashed.log == w.log + [RowFrom(H, w.log, w.log, root)] && PhaseOf(crashed, g).Idle?
  {
    var loaded := Next(H, env, Next(H, env, w, ReadHeaders(g)), ReadLines(g));
    UninterruptedLoad(H, env, w, g);
    LoadedCrash(H, env, loaded, g, Batch(w.ledger.entries, w.stamps, w.tables.proofs));
  }

  lemma LoadedCrash(H: Hasher, env: Env, w: World, g: nat, batch: seq<C.Entry>)
    requires PhaseOf(w, g) == LinesRead(batch)
    ensures var v := Next(H, env, Next(H, env, w, CommitToLog(g, Committed)), Crash(g));
            && v.ledger == w.ledger && v.stamps == w.stamps && v.tables == w.tables
            && v.log == w.log + [RowFrom(H, w.log, w.log, RootOfBatch(H, batch))] && PhaseOf(v, g).Idle?
  {
    var u := LogCommitted(H, w, g, batch, Committed);
    assert Next(H, env, w, CommitToLog(g, Committed)) == u;
    assert Next(H, env, u, Crash(g)) == At(u, g, Idle);
  }

  /** A crash between commit and recording puts the batch on the log twice: the
      next attempt commits the same root again, and one anchor stands for both
      rows. */
  lemma CrashCommitsTwice(H: Hasher, env: Env, w: World, g: nat, anchorId: string)
    requires PhaseOf(w, g).Idle? && Batch(w.ledger.entries, w.stamps, w.tables.proofs) != []
    requires anchorId !in w.tables.anchors
    ensures var loaded := Next(H, env, Next(H, env, w, ReadHeaders(g)), ReadLines(g));
            var crashed := Next(H, env, Next(H, env, loaded, CommitToLog(g, Committed)), Crash(g));
            var v := Uninterrupted(H, env, crashed, g, anchorId, ToLog(Committed), Committed);
            var root := RootOfBatch(H, Batch(w.ledger.entries, w.stamps, w.tables.proofs));
            && |v.log| == |w.log| + 2
            && v.log[|w.log|].merkleRoot == root && v.log[|w.log| + 1].merkleRoot == root
            && |LogAnchors(v)| == |LogAnchors(w)| + 1
  {
    var loaded := Next(H, env, Next(H, env, w, ReadHeaders(g)), ReadLines(g));
    var crashed := Next(H, env, Next(H, env, loaded, CommitToLog(g, Committed)), Crash(g));
    CrashedAfterCommit(H, env, w, g);
    SecondRow(H, env, crashed, g, anchorId);
    assert LogAnchors(crashed) == LogAnchors(w);
  }

  lemma SecondRow(H: Hasher, env: Env, w: World, g: nat, anchorId: string)
    requires PhaseOf(w, g).Idle? && Batch(w.ledger.entries, w.stamps, w.tables.proofs) != []
    requires anchorId !in w.tables.anchors
    ensures var v := Uninterrupted(H, env, w, g, anchorId, ToLog(Committed), Committed);
            var root := RootOfBatch(H, Batch(w.ledger.entries, w.stamps, w.tables.proofs));
            && v.log == w.log + [RowFrom(H, w.log, w.log, root)]
            && |LogAnchors(v)| == |LogAnchors(w)| + 1
  {
    var batch := Batch(w.ledger.entries, w.stamps, w.tables.proofs);
    var v := Uninterrupted(H, env, w, g, anchorId, ToLog(Committed), Committed);
    UninterruptedRun(H, env, w, g, anchorId, ToLog(Committed), Committed);
    NewAnchorCounted(H, w, v, batch, TLOG, "tlog:" + Decimal(NextSequence(w.log)), anchorId);
  }
}

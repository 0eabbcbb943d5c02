/** Retrying a file until it is delivered has the effect of one clean pass,
    whatever was lost, crashed or refused on the way. */
module ExactlyOnce {
  import opened Wrappers
  import opened Journal
  import opened Ledger
  import opened LedgerInvariants
  import opened Staging
  import opened Delivery

  /** Posting meets domain errors only; every other step may fail or crash. */
  ghost predicate PostsCleanly(fate: BatchFate) {
    fate.Reached? ==> forall f | f in fate.faults :: f.post == Committed
  }

  ghost predicate Sound(fates: seq<BatchFate>) {
    forall fate | fate in fates :: PostsCleanly(fate)
  }

  function CleanStep(env: Env, db: Db, r: StagingRecord): Db {
    Handle(env, db, r, SMOOTH).db
  }

  /** The databases of a clean pass: states[k] is what the first k records leave,
      each ingested once without any fault. */
  ghost predicate CleanPass(env: Env, records: seq<StagingRecord>, states: seq<Db>) {
    && |states| == |records| + 1
    && forall i: nat {:trigger StepAt(env, records, states, i)} | i < |records| :: StepAt(env, records, states, i)
  }

  ghost predicate StepAt(env: Env, records: seq<StagingRecord>, states: seq<Db>, i: nat)
    requires i < |records| && |states| == |records| + 1
  {
    states[i + 1] == CleanStep(env, states[i], records[i])
  }

  ghost predicate HasRow(db: Db, r: StagingRecord) {
    HasIdentity(r) ==> Find(db.staging, r.sourceHash).Some?
  }

  ghost predicate RowAt(records: seq<StagingRecord>, states: seq<Db>, i: nat)
    requires i < |records| && |states| == |records| + 1
  {
    HasRow(states[i + 1], records[i])
  }

  /** Each of the first k records has a row as soon as the clean pass is past it. */
  ghost predicate Recorded(records: seq<StagingRecord>, states: seq<Db>, k: nat)
    requires k <= |records| && |states| == |records| + 1
  {
    forall i: nat {:trigger RowAt(records, states, i)} | i < k :: RowAt(records, states, i)
  }

  /** `now` is the clean pass's database after k records, except that record k
      may have been posted already without having its row yet. */
  ghost predicate At(states: seq<Db>, k: nat, now: Db)
    requires k < |states|
  {
    && now.staging == states[k].staging
    && (now.ledger == states[k].ledger || (k + 1 < |states| && now.ledger == states[k + 1].ledger))
  }

  ghost predicate OnTrack(env: Env, records: seq<StagingRecord>, states: seq<Db>, k: nat, now: Db) {
    CleanPass(env, records, states) && k <= |records| && Recorded(records, states, k) && At(states, k, now)
  }

  /** Posting an entry again right after it was posted changes nothing and is
      answered as a duplicate; a refusal is simply repeated. */
  lemma PostingTwiceIsOnce(env: Env, s: LedgerState, e: JournalEntry)
    ensures var first := Posted(env, s, e, Committed);
            var second := Posted(env, first.state, e, Committed);
            && second.state == first.state
            && second.err == if first.err.None? then Some(DuplicateTransaction) else first.err
  {
    var first := Posted(env, s, e, Committed);
    PostedAllOrNothing(env, s, e, Committed);
    if first.err.None? { AppliedHasId(env, s, e, first.state); }
  }

  lemma StepGrows(env: Env, db: Db, r: StagingRecord, hash: string)
    ensures Find(db.staging, hash).Some? ==> Find(CleanStep(env, db, r).staging, hash) == Find(db.staging, hash)
  {
    if HasIdentity(r) && Find(db.staging, r.sourceHash).None? {
      InsertKeepsRows(db.staging,
                      RowFor(r, OutcomeOf(r, Posted(env, db.ledger, ToJournalEntry(r), Committed).err)), hash);
    }
  }

  lemma {:induction false} CleanGrows(
    env: Env, records: seq<StagingRecord>, states: seq<Db>, i: nat, k: nat, hash: string)
    requires CleanPass(env, records, states) && i <= k <= |records|
    ensures Find(states[i].staging, hash).Some? ==> Find(states[k].staging, hash) == Find(states[i].staging, hash)
  {
    if i < k {
      CleanGrows(env, records, states, i, k - 1, hash);
      assert StepAt(env, records, states, k - 1);
      StepGrows(env, states[k - 1], records[k - 1], hash);
    }
  }

  /** A record behind the track has its row and is answered from it. */
  lemma BehindTrack(env: Env, records: seq<StagingRecord>, states: seq<Db>, k: nat, now: Db, j: nat)
    requires OnTrack(env, records, states, k, now) && j < k
    ensures HasRow(now, records[j])
  {
    assert RowAt(records, states, j);
    CleanGrows(env, records, states, j + 1, k, records[j].sourceHash);
  }

  lemma HandleRecorded(env: Env, now: Db, r: StagingRecord, f: Faults)
    requires !HasIdentity(r) || Find(now.staging, r.sourceHash).Some?
    ensures Handle(env, now, r, f).db == now
    ensures !f.probeFails ==> !Handle(env, now, r, f).failed
  {
  }

  /** Ingesting an unrecorded record from a database that may already hold its
      entry: the ledger is as if posted once, and only the row can be missing. */
  lemma IngestUnrecorded(env: Env, c: Db, now: Db, r: StagingRecord, f: Faults)
    requires HasIdentity(r) && Find(c.staging, r.sourceHash).None? && f.post == Committed
    requires now.staging == c.staging && (now.ledger == c.ledger || now.ledger == CleanStep(env, c, r).ledger)
    ensures var d := Handle(env, now, r, f);
            && (d.db == now || d.db.ledger == CleanStep(env, c, r).ledger)
            && (d.db.staging == c.staging || (d.db == CleanStep(env, c, r) && HasRow(d.db, r)))
            && (!d.failed ==> d.db.staging != c.staging)
  {
    var e := ToJournalEntry(r);
    PostingTwiceIsOnce(env, c.ledger, e);
    var first := Posted(env, c.ledger, e, Committed);
    var again := Posted(env, now.ledger, e, Committed);
    assert again.state == first.state && OutcomeOf(r, again.err) == OutcomeOf(r, first.err);
    var row := RowFor(r, OutcomeOf(r, first.err));
    InsertKeepsRows(c.staging, row, "");
  }

  lemma Advance(env: Env, records: seq<StagingRecord>, states: seq<Db>, k: nat, now: Db)
    requires CleanPass(env, records, states) && k < |records| && Recorded(records, states, k)
    requires now.staging == states[k + 1].staging && now.ledger == states[k + 1].ledger && HasRow(now, records[k])
    ensures OnTrack(env, records, states, k + 1, now)
  {
    assert RowAt(records, states, k);
  }

  /** On track at record j or further on. */
  ghost predicate Ahead(env: Env, records: seq<StagingRecord>, states: seq<Db>, j: nat, now: Db) {
    exists k: nat :: j <= k && OnTrack(env, records, states, k, now)
  }

  lemma NotBehind(env: Env, records: seq<StagingRecord>, states: seq<Db>, j: nat, now: Db, i: nat)
    requires Ahead(env, records, states, j, now) && i <= j
    ensures Ahead(env, records, states, i, now)
  {
  }

  /** Handling record k never leaves the track, and moves on unless it fails. */
  lemma StepOnTrack(env: Env, records: seq<StagingRecord>, states: seq<Db>, k: nat, now: Db, f: Faults)
    requires OnTrack(env, records, states, k, now) && k < |records| && f.post == Committed
    ensures var d := Handle(env, now, records[k], f);
            Ahead(env, records, states, if d.failed then k else k + 1, d.db)
  {
    var r := records[k];
    var d := Handle(env, now, r, f);
    assert StepAt(env, records, states, k);
    if !HasIdentity(r) || Find(now.staging, r.sourceHash).Some? {
      HandleRecorded(env, now, r, f);
      HandleRecorded(env, states[k], r, SMOOTH);
      if !d.failed { Advance(env, records, states, k, now); }
    } else {
      IngestUnrecorded(env, states[k], now, r, f);
      if d.db.staging != states[k].staging { Advance(env, records, states, k, d.db); }
      else { assert OnTrack(env, records, states, k, d.db); }
    }
  }

  lemma StepAhead(env: Env, records: seq<StagingRecord>, states: seq<Db>, now: Db, j: nat, f: Faults)
    requires Ahead(env, records, states, j, now) && j < |records| && f.post == Committed
    ensures var d := Handle(env, now, records[j], f);
            Ahead(env, records, states, if d.failed then j else j + 1, d.db)
  {
    var k: nat :| j <= k && OnTrack(env, records, states, k, now);
    if j < k {
      BehindTrack(env, records, states, k, now, j);
      HandleRecorded(env, now, records[j], f);
    } else {
      StepOnTrack(env, records, states, k, now, f);
    }
  }

  /** The records from `start` on, handled as the batch they form. */
  ghost predicate Stretch(records: seq<StagingRecord>, start: nat, batch: seq<StagingRecord>) {
    start + |batch| <= |records| && forall i | 0 <= i < |batch| :: batch[i] == records[start + i]
  }

  lemma NextAhead(
    env: Env, records: seq<StagingRecord>, states: seq<Db>, earlier: Delivered, d: Delivered,
    start: nat, j: nat, f: Faults)
    requires Ahead(env, records, states, j, earlier.db) && start <= j < |records| && f.post == Committed
    requires d.db == Handle(env, earlier.db, records[j], f).db
    requires d.failed == Handle(env, earlier.db, records[j], f).failed
    ensures Ahead(env, records, states, if d.failed then start else j + 1, d.db)
  {
    StepAhead(env, records, states, earlier.db, j, f);
    if d.failed { NotBehind(env, records, states, j, d.db, start); }
  }

  /** One more record of a batch, given what the ones before it led to. */
  ghost predicate HandledNext(env: Env, earlier: Delivered, d: Delivered, r: StagingRecord, f: Faults) {
    if earlier.failed then d == earlier
    else d.db == Handle(env, earlier.db, r, f).db && d.failed == Handle(env, earlier.db, r, f).failed
  }

  lemma HandleUpToNext(env: Env, now: Db, batch: seq<StagingRecord>, faults: seq<Faults>, m: nat)
    requires 0 < m <= |batch|
    ensures HandledNext(env, HandleUpTo(env, now, batch, faults, m - 1), HandleUpTo(env, now, batch, faults, m),
                        batch[m - 1], FaultsAt(faults, m - 1))
  {
  }

  lemma BatchNext(
    env: Env, records: seq<StagingRecord>, states: seq<Db>, start: nat, j: nat, f: Faults,
    earlier: Delivered, d: Delivered)
    requires start <= j < |records| && f.post == Committed && HandledNext(env, earlier, d, records[j], f)
    requires Ahead(env, records, states, if earlier.failed then start else j, earlier.db)
    ensures Ahead(env, records, states, if d.failed then start else j + 1, d.db)
  {
    if !earlier.failed { NextAhead(env, records, states, earlier, d, start, j, f); }
  }

  lemma {:induction false} BatchAhead(
    env: Env, records: seq<StagingRecord>, states: seq<Db>, now: Db, start: nat, batch: seq<StagingRecord>,
    faults: seq<Faults>, m: nat, d: Delivered)
    requires Ahead(env, records, states, start, now) && Stretch(records, start, batch) && m <= |batch|
    requires d == HandleUpTo(env, now, batch, faults, m)
    requires forall f | f in faults :: f.post == Committed
    ensures Ahead(env, records, states, if d.failed then start else start + m, d.db)
    decreases m
  {
    if m > 0 {
      var earlier := HandleUpTo(env, now, batch, faults, m - 1);
      BatchAhead(env, records, states, now, start, batch, faults, m - 1, earlier);
      assert HandledNext(env, earlier, d, batch[m - 1], FaultsAt(faults, m - 1)) by {
        HandleUpToNext(env, now, batch, faults, m);
      }
      BatchNext(env, records, states, start, start + m - 1, FaultsAt(faults, m - 1), earlier, d);
    }
  }

  lemma SendAhead(
    server: Server, records: seq<StagingRecord>, states: seq<Db>, now: Db, start: nat, batch: seq<StagingRecord>,
    fate: BatchFate)
    requires Ahead(server.env, records, states, start, now) && Stretch(records, start, batch) && PostsCleanly(fate)
    ensures var d := SendBatch(server, now, batch, fate);
            Ahead(server.env, records, states, if d.failed then 0 else start + |batch|, d.db)
  {
    if fate.Reached? && Acceptable(server, batch) {
      BatchAhead(server.env, records, states, now, start, batch, fate.faults, |batch|,
                 HandleUpTo(server.env, now, batch, fate.faults, |batch|));
    }
  }

  lemma {:induction false} DeliveryAhead(
    server: Server, records: seq<StagingRecord>, states: seq<Db>, now: Db, fates: seq<BatchFate>, n: nat)
    requires Ahead(server.env, records, states, 0, now) && n <= Batches(|records|) && Sound(fates)
    ensures var d := DeliverUpTo(server, now, records, fates, n);
            Ahead(server.env, records, states, if d.failed then 0 else Min(n * BATCH_SIZE, |records|), d.db)
    decreases n
  {
    if n > 0 {
      DeliveryAhead(server, records, states, now, fates, n - 1);
      var earlier := DeliverUpTo(server, now, records, fates, n - 1);
      var fate := FateAt(fates, n - 1);
      assert PostsCleanly(fate);
      var start := (n - 1) * BATCH_SIZE;
      if !earlier.failed {
        SendAhead(server, records, states, earlier.db, start, BatchAt(records, n - 1), fate);
      }
    }
  }

  /** Sweeps over the drop directory: the file is delivered again from its start
      until a delivery meets no error, then it is gone. */
  function Swept(server: Server, db: Db, records: seq<StagingRecord>, sweeps: seq<seq<BatchFate>>): Delivered {
    if |sweeps| == 0 then Delivered(db, [], true)
    else
      var earlier := Swept(server, db, records, sweeps[..|sweeps| - 1]);
      if earlier.failed then Deliver(server, earlier.db, records, sweeps[|sweeps| - 1]) else earlier
  }

  lemma {:induction false} SweepsAhead(
    server: Server, db: Db, records: seq<StagingRecord>, states: seq<Db>, sweeps: seq<seq<BatchFate>>)
    requires CleanPass(server.env, records, states) && states[0] == db
    requires forall fates | fates in sweeps :: Sound(fates)
    ensures var d := Swept(server, db, records, sweeps);
            Ahead(server.env, records, states, if d.failed then 0 else |records|, d.db)
  {
    if |sweeps| > 0 {
      var n := |sweeps| - 1;
      SweepsAhead(server, db, records, states, sweeps[..n]);
      var earlier := Swept(server, db, records, sweeps[..n]);
      assert sweeps[n] in sweeps;
      if earlier.failed { DeliveryAhead(server, records, states, earlier.db, sweeps[n], Batches(|records|)); }
    } else {
      assert OnTrack(server.env, records, states, 0, db);
    }
  }

  lemma {:induction false} CleanPassExists(env: Env, db: Db, records: seq<StagingRecord>) returns (states: seq<Db>)
    ensures CleanPass(env, records, states) && states[0] == db
  {
    if |records| == 0 {
      states := [db];
    } else {
      var n := |records| - 1;
      var shorter := CleanPassExists(env, db, records[..n]);
      states := shorter + [CleanStep(env, shorter[n], records[n])];
      forall i: nat | i < |records| ensures StepAt(env, records, states, i) {
        if i < n { assert StepAt(env, records[..n], shorter, i); }
      }
    }
  }

  // Which files can be delivered at all.

  /** A record that can be neither recorded nor answered as a duplicate: the
      database does not store its row, and nothing before it has its hash. */
  predicate Blocked(env: Env, staging: seq<StagingRow>, records: seq<StagingRecord>, i: nat)
    requires i < |records|
  {
    && HasIdentity(records[i]) && !StoresRecord(env, records[i])
    && records[i].sourceHash !in Hashes(staging)
    && forall j | 0 <= j < i :: HasIdentity(records[j]) ==> records[j].sourceHash != records[i].sourceHash
  }

  ghost predicate Deliverable(server: Server, staging: seq<StagingRow>, records: seq<StagingRecord>) {
    && (forall k | 0 <= k < Batches(|records|) :: Acceptable(server, BatchAt(records, k)))
    && forall i | 0 <= i < |records| :: !Blocked(server.env, staging, records, i)
  }

  lemma {:induction false} WhereRowsComeFrom(
    env: Env, records: seq<StagingRecord>, states: seq<Db>, k: nat, hash: string)
    requires CleanPass(env, records, states) && k <= |records| && Find(states[k].staging, hash).Some?
    ensures hash in Hashes(states[0].staging)
            || exists j | 0 <= j < k :: HasIdentity(records[j]) && records[j].sourceHash == hash
  {
    if k == 0 {
      FindMeans(states[0].staging, hash);
    } else {
      assert StepAt(env, records, states, k - 1);
      if Find(states[k - 1].staging, hash).Some? {
        WhereRowsComeFrom(env, records, states, k - 1, hash);
      } else {
        NewRow(env, states[k - 1], records[k - 1], hash);
      }
    }
  }

  lemma NewRow(env: Env, db: Db, r: StagingRecord, hash: string)
    ensures Find(CleanStep(env, db, r).staging, hash).Some? && Find(db.staging, hash).None? ==>
              HasIdentity(r) && r.sourceHash == hash
    ensures HasRow(CleanStep(env, db, r), r) <==>
              HasIdentity(r) ==> StoresRecord(env, r) || Find(db.staging, r.sourceHash).Some?
  {
    var row := RowFor(r, OutcomeOf(r, Posted(env, db.ledger, ToJournalEntry(r), Committed).err));
    assert (db.staging + [row])[..|db.staging|] == db.staging;
  }

  lemma BlockedMeans(env: Env, records: seq<StagingRecord>, states: seq<Db>, k: nat)
    requires CleanPass(env, records, states) && k < |records| && Recorded(records, states, k)
    ensures RowAt(records, states, k) <==> !Blocked(env, states[0].staging, records, k)
  {
    var r := records[k];
    assert StepAt(env, records, states, k);
    NewRow(env, states[k], r, "");
    FindMeans(states[0].staging, r.sourceHash);
    CleanGrows(env, records, states, 0, k, r.sourceHash);
    forall j: nat | j < k && HasIdentity(records[j]) && records[j].sourceHash == r.sourceHash
      ensures Find(states[k].staging, r.sourceHash).Some?
    {
      assert RowAt(records, states, j);
      CleanGrows(env, records, states, j + 1, k, r.sourceHash);
    }
    if Find(states[k].staging, r.sourceHash).Some? { WhereRowsComeFrom(env, records, states, k, r.sourceHash); }
  }

  lemma {:induction false} RecordedIff(env: Env, records: seq<StagingRecord>, states: seq<Db>, k: nat)
    requires CleanPass(env, records, states) && k <= |records|
    ensures Recorded(records, states, k) <==> forall i | 0 <= i < k :: !Blocked(env, states[0].staging, records, i)
  {
    if k > 0 {
      RecordedIff(env, records, states, k - 1);
      if Recorded(records, states, k - 1) { BlockedMeans(env, records, states, k - 1); }
      assert Recorded(records, states, k) <==> Recorded(records, states, k - 1) && RowAt(records, states, k - 1);
    }
  }

  // A delivery that meets no fault.

  lemma SmoothStep(env: Env, records: seq<StagingRecord>, states: seq<Db>, now: Db, j: nat)
    requires Ahead(env, records, states, j, now) && j < |records| && Recorded(records, states, |records|)
    ensures !Handle(env, now, records[j], SMOOTH).failed
  {
    var k: nat :| j <= k && OnTrack(env, records, states, k, now);
    if j < k {
      BehindTrack(env, records, states, k, now, j);
      HandleRecorded(env, now, records[j], SMOOTH);
    } else {
      assert RowAt(records, states, k) && StepAt(env, records, states, k);
      SmoothHandle(env, states[k], now, records[k]);
    }
  }

  /** Whether a record is recorded depends on the staging rows alone. */
  lemma SmoothHandle(env: Env, db: Db, now: Db, r: StagingRecord)
    requires now.staging == db.staging && HasRow(CleanStep(env, db, r), r)
    ensures !Handle(env, now, r, SMOOTH).failed
  {
    NewRow(env, db, r, "");
  }

  lemma {:induction false} SmoothBatch(
    env: Env, records: seq<StagingRecord>, states: seq<Db>, now: Db, start: nat, batch: seq<StagingRecord>, m: nat,
    d: Delivered)
    requires Ahead(env, records, states, start, now) && Recorded(records, states, |records|)
    requires Stretch(records, start, batch) && m <= |batch| && d == HandleUpTo(env, now, batch, [], m)
    ensures !d.failed
    decreases m
  {
    if m > 0 {
      var earlier := HandleUpTo(env, now, batch, [], m - 1);
      SmoothBatch(env, records, states, now, start, batch, m - 1, earlier);
      BatchAhead(env, records, states, now, start, batch, [], m - 1, earlier);
      SmoothStep(env, records, states, earlier.db, start + m - 1);
    }
  }

  lemma SmoothDelivery(
    server: Server, records: seq<StagingRecord>, states: seq<Db>, now: Db, n: nat, d: Delivered)
    requires Ahead(server.env, records, states, 0, now) && Recorded(records, states, |records|)
    requires n <= Batches(|records|) && d == DeliverUpTo(server, now, records, [], n)
    requires forall k | 0 <= k < Batches(|records|) :: Acceptable(server, BatchAt(records, k))
    ensures !d.failed
  {
    forall k: nat | k < n ensures !FailsAt(server, now, records, [], k) {
      SmoothAt(server, records, states, now, k, DeliverUpTo(server, now, records, [], k));
    }
    FailsIff(server, now, records, [], n, d);
  }

  lemma SmoothAt(server: Server, records: seq<StagingRecord>, states: seq<Db>, now: Db, k: nat, d: Delivered)
    requires Ahead(server.env, records, states, 0, now) && Recorded(records, states, |records|)
    requires k < Batches(|records|) && Acceptable(server, BatchAt(records, k))
    requires d == DeliverUpTo(server, now, records, [], k)
    ensures !FailsAt(server, now, records, [], k)
  {
    FailsAtMeans(server, now, records, [], k, d);
    if !d.failed {
      SmoothAhead(server, records, states, now, k, d);
      SmoothSend(server, records, states, d.db, k);
    }
  }

  lemma SmoothAhead(server: Server, records: seq<StagingRecord>, states: seq<Db>, now: Db, n: nat, d: Delivered)
    requires Ahead(server.env, records, states, 0, now) && n <= Batches(|records|)
    requires d == DeliverUpTo(server, now, records, [], n) && !d.failed
    ensures Ahead(server.env, records, states, Min(n * BATCH_SIZE, |records|), d.db)
  {
    DeliveryAhead(server, records, states, now, [], n);
  }

  lemma SmoothSend(server: Server, records: seq<StagingRecord>, states: seq<Db>, now: Db, k: nat)
    requires k < Batches(|records|) && Acceptable(server, BatchAt(records, k))
    requires Ahead(server.env, records, states, Min(k * BATCH_SIZE, |records|), now)
    requires Recorded(records, states, |records|)
    ensures !SendBatch(server, now, BatchAt(records, k), FateAt([], k)).failed
  {
    var batch := BatchAt(records, k);
    SmoothBatch(server.env, records, states, now, k * BATCH_SIZE, batch, |batch|,
                HandleUpTo(server.env, now, batch, [], |batch|));
  }

  lemma {:induction false} SuccessAccepted(
    server: Server, db: Db, records: seq<StagingRecord>, fates: seq<BatchFate>, n: nat, d: Delivered)
    requires n <= Batches(|records|) && d == DeliverUpTo(server, db, records, fates, n) && !d.failed
    ensures forall k | 0 <= k < n :: Acceptable(server, BatchAt(records, k))
    decreases n
  {
    if n > 0 {
      var earlier := DeliverUpTo(server, db, records, fates, n - 1);
      LastReplies(server, db, records, fates, n, earlier, d);
      SuccessAccepted(server, db, records, fates, n - 1, earlier);
      SentMeansAcceptable(server, earlier.db, BatchAt(records, n - 1), FateAt(fates, n - 1));
    }
  }

  lemma SentMeansAcceptable(server: Server, db: Db, batch: seq<StagingRecord>, fate: BatchFate)
    ensures !SendBatch(server, db, batch, fate).failed ==> Acceptable(server, batch)
  {
  }

  lemma {:induction false} SweptAccepted(
    server: Server, db: Db, records: seq<StagingRecord>, sweeps: seq<seq<BatchFate>>)
    requires !Swept(server, db, records, sweeps).failed
    ensures forall k | 0 <= k < Batches(|records|) :: Acceptable(server, BatchAt(records, k))
  {
    var n := |sweeps| - 1;
    var earlier := Swept(server, db, records, sweeps[..n]);
    if earlier.failed {
      SuccessAccepted(server, earlier.db, records, sweeps[n], Batches(|records|),
                      Deliver(server, earlier.db, records, sweeps[n]));
    } else {
      SweptAccepted(server, db, records, sweeps[..n]);
    }
  }

  // The main results.

  /** Exactly once, end to end. Whatever was lost, crashed, failed or left
      unanswered in the sweeps before the one that succeeds, the journal, the
      balances and the staging rows are those of one undisturbed delivery, and
      every record with an identity has its row. */
  lemma RetriesConverge(server: Server, db: Db, records: seq<StagingRecord>, sweeps: seq<seq<BatchFate>>)
    requires forall fates | fates in sweeps :: Sound(fates)
    requires !Swept(server, db, records, sweeps).failed
    ensures var once := Deliver(server, db, records, []);
            !once.failed && Swept(server, db, records, sweeps).db == once.db
    ensures forall r | r in records :: HasRow(Swept(server, db, records, sweeps).db, r)
  {
    var states := CleanPassExists(server.env, db, records);
    SweepsAhead(server, db, records, states, sweeps);
    SweptAccepted(server, db, records, sweeps);
    var end := Swept(server, db, records, sweeps).db;
    assert OnTrack(server.env, records, states, |records|, end);
    assert OnTrack(server.env, records, states, 0, db);
    SmoothDelivery(server, records, states, db, Batches(|records|), Deliver(server, db, records, []));
    DeliveryAhead(server, records, states, db, [], Batches(|records|));
    forall r | r in records ensures HasRow(end, r) {
      var j :| 0 <= j < |records| && records[j] == r;
      BehindTrack(server.env, records, states, |records|, end, j);
    }
  }

  /** Whatever failed before, the next undisturbed sweep completes the file,
      unless a record is blocked or the endpoint does not take one of its
      batches; and then no sweep ever completes it. */
  lemma FileCompletesIff(server: Server, db: Db, records: seq<StagingRecord>, sweeps: seq<seq<BatchFate>>)
    requires forall fates | fates in sweeps :: Sound(fates)
    ensures !Swept(server, db, records, sweeps + [[]]).failed <==> Deliverable(server, db.staging, records)
    ensures !Swept(server, db, records, sweeps).failed ==> Deliverable(server, db.staging, records)
  {
    var more := sweeps + [[]];
    assert more[..|sweeps|] == sweeps;
    var states := CleanPassExists(server.env, db, records);
    RecordedIff(server.env, records, states, |records|);
    SweepsAhead(server, db, records, states, sweeps);
    SweepsAhead(server, db, records, states, more);
    if !Swept(server, db, records, more).failed { SweptAccepted(server, db, records, more); }
    if !Swept(server, db, records, sweeps).failed { SweptAccepted(server, db, records, sweeps); }
    if Deliverable(server, db.staging, records) && Swept(server, db, records, sweeps).failed {
      var end := Swept(server, db, records, sweeps).db;
      SmoothDelivery(server, records, states, end, Batches(|records|), Deliver(server, end, records, []));
    }
  }

  lemma RowsAhead(env: Env, records: seq<StagingRecord>, states: seq<Db>, now: Db, i: nat, hash: string)
    requires CleanPass(env, records, states) && Ahead(env, records, states, 0, now)
    requires i < |records| && Blocked(env, states[0].staging, records, i) && Find(now.staging, hash).Some?
    ensures hash in Hashes(states[0].staging)
            || exists j | 0 <= j < i :: HasIdentity(records[j]) && records[j].sourceHash == hash
  {
    var k: nat :| OnTrack(env, records, states, k, now);
    RecordedIff(env, records, states, k);
    WhereRowsComeFrom(env, records, states, k, hash);
  }

  /** And a blocked record blocks all that follow: whatever is swept, rows exist
      only for what was there before and for records ahead of it. */
  lemma NothingPassesBlocked(
    server: Server, db: Db, records: seq<StagingRecord>, sweeps: seq<seq<BatchFate>>, i: nat, hash: string)
    requires forall fates | fates in sweeps :: Sound(fates)
    requires i < |records| && Blocked(server.env, db.staging, records, i)
    requires Find(Swept(server, db, records, sweeps).db.staging, hash).Some?
    ensures hash in Hashes(db.staging)
            || exists j | 0 <= j < i :: HasIdentity(records[j]) && records[j].sourceHash == hash
  {
    var states := CleanPassExists(server.env, db, records);
    SweepsAhead(server, db, records, states, sweeps);
    var d := Swept(server, db, records, sweeps);
    NotBehind(server.env, records, states, if d.failed then 0 else |records|, d.db, 0);
    RowsAhead(server.env, records, states, d.db, i, hash);
  }

  lemma {:induction false} HandleAllRecorded(
    env: Env, db: Db, records: seq<StagingRecord>, faults: seq<Faults>, n: nat)
    requires n <= |records| && forall r | r in records :: HasRow(db, r)
    ensures HandleUpTo(env, db, records, faults, n).db == db
  {
    if n > 0 {
      HandleAllRecorded(env, db, records, faults, n - 1);
      assert HasRow(db, records[n - 1]);
      HandleRecorded(env, db, records[n - 1], FaultsAt(faults, n - 1));
    }
  }

  /** A file dropped again after it was delivered changes nothing, under any
      faults at all. */
  lemma {:induction false} RedropChangesNothing(
    server: Server, db: Db, records: seq<StagingRecord>, fates: seq<BatchFate>, n: nat)
    requires n <= Batches(|records|) && forall r | r in records :: HasRow(db, r)
    ensures DeliverUpTo(server, db, records, fates, n).db == db
  {
    if n > 0 {
      RedropChangesNothing(server, db, records, fates, n - 1);
      var batch := BatchAt(records, n - 1);
      assert forall r | r in batch :: r in records;
      var fate := FateAt(fates, n - 1);
      if fate.Reached? { HandleAllRecorded(server.env, db, batch, fate.faults, |batch|); }
    }
  }
}

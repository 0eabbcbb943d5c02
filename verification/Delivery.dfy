/** Delivering a mapped file to the staging endpoint in batches, retried sweep
    after sweep until one delivery meets no error. */
module Delivery {
  import opened Wrappers
  import opened Hashing
  import opened Journal
  import opened Ledger
  import opened LedgerInvariants
  import opened Staging
  import M = Mapper

  const BATCH_SIZE := 200
  const MAX_BATCH := 500

  /** The size of a batch's JSON encoding. */
  type Encoding = seq<StagingRecord> -> nat

  /** The endpoint's deployment: its database environment, the institutions the
      connector is authorized for, and the largest body it reads. */
  datatype Server = Server(env: Env, authorized: string -> bool, bodyBytes: Encoding, maxBodyBytes: nat)

  /** The reply to one record of a batch. */
  datatype Reply = MissingIdentity(sourceRef: string, sourceHash: string) | Processed(outcome: Outcome)

  /** The database afterwards, the replies that arrived, and whether it ended in
      an error. */
  datatype Delivered = Delivered(db: Db, replies: seq<Reply>, failed: bool)

  function FaultsAt(faults: seq<Faults>, i: nat): Faults {
    if i < |faults| then faults[i] else SMOOTH
  }

  function Handle(env: Env, db: Db, r: StagingRecord, f: Faults): Delivered {
    if !HasIdentity(r) then Delivered(db, [MissingIdentity(r.sourceRef, r.sourceHash)], false)
    else
      var i := Ingested(env, db, r, f);
      if i.outcome.Err? then Delivered(i.db, [], true) else Delivered(i.db, [Processed(i.outcome.value)], false)
  }

  /** The first n records, one by one, stopping at the first internal error. */
  function HandleUpTo(env: Env, db: Db, records: seq<StagingRecord>, faults: seq<Faults>, n: nat): Delivered
    requires n <= |records|
  {
    if n == 0 then Delivered(db, [], false)
    else
      var earlier := HandleUpTo(env, db, records, faults, n - 1);
      if earlier.failed then earlier
      else
        var last := Handle(env, earlier.db, records[n - 1], FaultsAt(faults, n - 1));
        Delivered(last.db, if last.failed then [] else earlier.replies + last.replies, last.failed)
  }

  predicate Acceptable(server: Server, records: seq<StagingRecord>) {
    && server.bodyBytes(records) <= server.maxBodyBytes && 0 < |records| <= MAX_BATCH
    && forall r | r in records :: server.authorized(r.institutionId)
  }

  function Submitted(server: Server, db: Db, records: seq<StagingRecord>, faults: seq<Faults>): Delivered {
    if Acceptable(server, records) then HandleUpTo(server.env, db, records, faults, |records|)
    else Delivered(db, [], true)
  }

  /** What the network does to one batch: it may not arrive, or its response may
      not come back. */
  datatype BatchFate = Lost | Reached(faults: seq<Faults>, responseLost: bool)

  const UNDISTURBED := Reached([], false)

  function FateAt(fates: seq<BatchFate>, i: nat): BatchFate {
    if i < |fates| then fates[i] else UNDISTURBED
  }

  function SendBatch(server: Server, db: Db, records: seq<StagingRecord>, fate: BatchFate): Delivered {
    match fate
    case Lost => Delivered(db, [], true)
    case Reached(faults, responseLost) =>
      var d := Submitted(server, db, records, faults);
      if responseLost then Delivered(d.db, [], true) else d
  }

  function Min(a: nat, b: nat): nat {
    if a <= b then a else b
  }

  function Batches(n: nat): nat {
    (n + BATCH_SIZE - 1) / BATCH_SIZE
  }

  /** Batch k: up to BATCH_SIZE records from position k * BATCH_SIZE. */
  function BatchAt(records: seq<StagingRecord>, k: nat): (batch: seq<StagingRecord>)
    requires k < Batches(|records|)
    ensures |batch| == Min(BATCH_SIZE, |records| - k * BATCH_SIZE) && |batch| > 0
    ensures forall i | 0 <= i < |batch| :: batch[i] == records[k * BATCH_SIZE + i]
  {
    records[k * BATCH_SIZE..Min((k + 1) * BATCH_SIZE, |records|)]
  }

  /** The first k batches, in file order until one fails. */
  function DeliverUpTo(server: Server, db: Db, records: seq<StagingRecord>, fates: seq<BatchFate>, k: nat): Delivered
    requires k <= Batches(|records|)
  {
    if k == 0 then Delivered(db, [], false)
    else
      var earlier := DeliverUpTo(server, db, records, fates, k - 1);
      if earlier.failed then earlier
      else
        var batch := SendBatch(server, earlier.db, BatchAt(records, k - 1), FateAt(fates, k - 1));
        Delivered(batch.db, earlier.replies + batch.replies, batch.failed)
  }

  function Deliver(server: Server, db: Db, records: seq<StagingRecord>, fates: seq<BatchFate>): Delivered {
    DeliverUpTo(server, db, records, fates, Batches(|records|))
  }

  /** A file as the CSV reader sees it. */
  datatype CsvFile = CsvFile(header: seq<string>, rows: seq<M.CsvRow>)

  datatype FileFate = LeftInPlace | MovedToProcessed | MovedToFailed

  datatype Processing = Processing(db: Db, fate: FileFate)

  function Process(
    server: Server, H: Hasher, p: M.Profile, read: M.FloatReader, db: Db, file: CsvFile, fates: seq<BatchFate>)
    : Processing
  {
    if !M.HeaderComplete(p, file.header) then Processing(db, MovedToFailed)
    else
      var d := Deliver(server, db, M.Gathered(M.MapRows(H, p, read, file.header, file.rows)).records, fates);
      Processing(d.db, if d.failed then LeftInPlace else MovedToProcessed)
  }

  class StagingApi {
    const repository: StagingRepository
    const authorized: string -> bool
    const bodyBytes: Encoding
    const maxBodyBytes: nat

    constructor (repository: StagingRepository, authorized: string -> bool, bodyBytes: Encoding, maxBodyBytes: nat)
      ensures this.repository == repository
      ensures Serving() == Server(repository.journal.env, authorized, bodyBytes, maxBodyBytes)
    {
      this.repository := repository;
      this.authorized := authorized;
      this.bodyBytes := bodyBytes;
      this.maxBodyBytes := maxBodyBytes;
    }

    function Serving(): Server {
      Server(repository.journal.env, authorized, bodyBytes, maxBodyBytes)
    }

    function Database(): Db
      reads repository, repository.journal
    {
      Db(repository.journal.State(), repository.staging)
    }

    method SubmitStagingRecords(records: seq<StagingRecord>, faults: seq<Faults>)
      returns (replies: seq<Reply>, failed: bool)
      modifies repository, repository.journal
      ensures Delivered(Database(), replies, failed) == Submitted(Serving(), old(Database()), records, faults)
    {
      if bodyBytes(records) > maxBodyBytes { return [], true; }
      if |records| == 0 { return [], true; }
      if |records| > MAX_BATCH { return [], true; }
      var seen: set<string> := {};
      for i := 0 to |records|
        invariant Database() == old(Database())
        invariant forall k | 0 <= k < i :: records[k].institutionId in seen
        invariant forall institution | institution in seen :: authorized(institution)
      {
        var institution := records[i].institutionId;
        if institution in seen { continue; }
        seen := seen + {institution};
        if !authorized(institution) {
          assert records[i] in records;
          return [], true;
        }
      }
      replies := [];
      for i := 0 to |records|
        invariant Delivered(Database(), replies, false) ==
                  HandleUpTo(Serving().env, old(Database()), records, faults, i)
      {
        var r := records[i];
        if r.sourceHash == "" || r.sourceSystem == "" || r.sourceRef == "" {
          replies := replies + [MissingIdentity(r.sourceRef, r.sourceHash)];
          continue;
        }
        var outcome := repository.Ingest(r, FaultsAt(faults, i));
        if outcome.Err? {
          ErrorStands(Serving().env, old(Database()), records, faults, i + 1, |records|);
          return [], true;
        }
        replies := replies + [Processed(outcome.value)];
      }
      failed := false;
    }
  }

  lemma {:induction false} ErrorStands(
    env: Env, db: Db, records: seq<StagingRecord>, faults: seq<Faults>, k: nat, n: nat)
    requires k <= n <= |records| && HandleUpTo(env, db, records, faults, k).failed
    ensures HandleUpTo(env, db, records, faults, n) == HandleUpTo(env, db, records, faults, k)
  {
    if k < n { ErrorStands(env, db, records, faults, k, n - 1); }
  }

  /** The connector: batches are delivered in file order until one fails. */
  class Connector {
    const api: StagingApi

    constructor (api: StagingApi)
      ensures this.api == api
    {
      this.api := api;
    }

    method DeliverBatch(records: seq<StagingRecord>, fate: BatchFate) returns (replies: seq<Reply>, failed: bool)
      modifies api.repository, api.repository.journal
      ensures Delivered(api.Database(), replies, failed) == SendBatch(api.Serving(), old(api.Database()), records, fate)
    {
      if fate.Lost? { return [], true; }
      replies, failed := api.SubmitStagingRecords(records, fate.faults);
      if fate.responseLost { return [], true; }
    }

    method DeliverRecords(records: seq<StagingRecord>, fates: seq<BatchFate>)
      returns (replies: seq<Reply>, failed: bool)
      modifies api.repository, api.repository.journal
      ensures Delivered(api.Database(), replies, failed) == Deliver(api.Serving(), old(api.Database()), records, fates)
    {
      replies := [];
      var start, k := 0, 0;
      while start < |records|
        invariant start == k * BATCH_SIZE && k <= Batches(|records|)
        invariant Delivered(api.Database(), replies, false) ==
                  DeliverUpTo(api.Serving(), old(api.Database()), records, fates, k)
      {
        var end := Min(start + BATCH_SIZE, |records|);
        assert records[start..end] == BatchAt(records, k);
        NextDelivery(api.Serving(), old(api.Database()), records, fates, k, Delivered(api.Database(), replies, false));
        var batch, err := DeliverBatch(records[start..end], FateAt(fates, k));
        start, k := start + BATCH_SIZE, k + 1;
        if err {
          FailureStands(api.Serving(), old(api.Database()), records, fates, k, Batches(|records|));
          return replies + batch, true;
        }
        replies := replies + batch;
      }
      failed := false;
    }

    method ProcessFile(H: Hasher, p: M.Profile, read: M.FloatReader, file: CsvFile, fates: seq<BatchFate>)
      returns (fate: FileFate)
      modifies api.repository, api.repository.journal
      ensures Processing(api.Database(), fate) == Process(api.Serving(), H, p, read, old(api.Database()), file, fates)
    {
      var mapped := M.MapCSV(H, p, read, file.header, file.rows);
      if mapped.Err? { return MovedToFailed; }
      var replies, failed := DeliverRecords(mapped.value.records, fates);
      fate := if failed then LeftInPlace else MovedToProcessed;
    }
  }

  lemma NextDelivery(
    server: Server, db: Db, records: seq<StagingRecord>, fates: seq<BatchFate>, k: nat, earlier: Delivered)
    requires k < Batches(|records|) && earlier == DeliverUpTo(server, db, records, fates, k) && !earlier.failed
    ensures var b := SendBatch(server, earlier.db, BatchAt(records, k), FateAt(fates, k));
            DeliverUpTo(server, db, records, fates, k + 1) == Delivered(b.db, earlier.replies + b.replies, b.failed)
  {
  }

  lemma {:induction false} FailureStands(
    server: Server, db: Db, records: seq<StagingRecord>, fates: seq<BatchFate>, k: nat, n: nat)
    requires k <= n <= Batches(|records|) && DeliverUpTo(server, db, records, fates, k).failed
    ensures DeliverUpTo(server, db, records, fates, n) == DeliverUpTo(server, db, records, fates, k)
  {
    if k < n { FailureStands(server, db, records, fates, k, n - 1); }
  }

  // Every record is answered.

  ghost predicate Answers(reply: Reply, r: StagingRecord) {
    match reply
    case MissingIdentity(ref, hash) =>
      (r.sourceHash == "" || r.sourceSystem == "" || r.sourceRef == "") && ref == r.sourceRef && hash == r.sourceHash
    case Processed(o) =>
      && r.sourceHash != "" && r.sourceSystem != "" && r.sourceRef != ""
      && o.sourceRef == r.sourceRef && o.sourceHash == r.sourceHash
  }

  ghost predicate AnswersAll(replies: seq<Reply>, records: seq<StagingRecord>, n: nat)
    requires n <= |records|
  {
    |replies| == n && forall i | 0 <= i < n :: Answers(replies[i], records[i])
  }

  lemma {:induction false} HandledAreAnswered(
    env: Env, db: Db, records: seq<StagingRecord>, faults: seq<Faults>, n: nat, d: Delivered)
    requires n <= |records| && d == HandleUpTo(env, db, records, faults, n) && !d.failed
    ensures AnswersAll(d.replies, records, n)
    decreases n
  {
    if n > 0 {
      var earlier := HandleUpTo(env, db, records, faults, n - 1);
      LastReply(env, db, records, faults, n, earlier, d);
      HandledAreAnswered(env, db, records, faults, n - 1, earlier);
      OneMoreAnswered(env, earlier, records, n, FaultsAt(faults, n - 1), d.replies);
    }
  }

  lemma OneMoreAnswered(
    env: Env, earlier: Delivered, records: seq<StagingRecord>, n: nat, f: Faults, replies: seq<Reply>)
    requires 0 < n <= |records| && AnswersAll(earlier.replies, records, n - 1)
    requires var last := Handle(env, earlier.db, records[n - 1], f);
             !last.failed && replies == earlier.replies + last.replies
    ensures AnswersAll(replies, records, n)
  {
    HandledIsAnswered(env, earlier.db, records[n - 1], f);
  }

  lemma LastReply(
    env: Env, db: Db, records: seq<StagingRecord>, faults: seq<Faults>, n: nat, earlier: Delivered, d: Delivered)
    requires 0 < n <= |records| && d == HandleUpTo(env, db, records, faults, n) && !d.failed
    requires earlier == HandleUpTo(env, db, records, faults, n - 1)
    ensures var last := Handle(env, earlier.db, records[n - 1], FaultsAt(faults, n - 1));
            !earlier.failed && !last.failed && d.replies == earlier.replies + last.replies
  {
  }

  lemma HandledIsAnswered(env: Env, db: Db, r: StagingRecord, f: Faults)
    ensures var d := Handle(env, db, r, f); !d.failed ==> |d.replies| == 1 && Answers(d.replies[0], r)
  {
  }

  /** A delivery without error returns one reply per record, in file order, each
      naming its record. */
  lemma {:induction false} EveryRecordAnswered(
    server: Server, db: Db, records: seq<StagingRecord>, fates: seq<BatchFate>, k: nat, d: Delivered)
    requires k <= Batches(|records|) && d == DeliverUpTo(server, db, records, fates, k) && !d.failed
    ensures AnswersAll(d.replies, records, Min(k * BATCH_SIZE, |records|))
    decreases k
  {
    if k > 0 {
      var earlier := DeliverUpTo(server, db, records, fates, k - 1);
      LastReplies(server, db, records, fates, k, earlier, d);
      EveryRecordAnswered(server, db, records, fates, k - 1, earlier);
      LastAnswered(server, db, records, fates, k, earlier, d);
    }
  }

  lemma LastAnswered(
    server: Server, db: Db, records: seq<StagingRecord>, fates: seq<BatchFate>, k: nat,
    earlier: Delivered, d: Delivered)
    requires 0 < k <= Batches(|records|) && d == DeliverUpTo(server, db, records, fates, k) && !d.failed
    requires earlier == DeliverUpTo(server, db, records, fates, k - 1)
    requires AnswersAll(earlier.replies, records, Min((k - 1) * BATCH_SIZE, |records|))
    ensures AnswersAll(d.replies, records, Min(k * BATCH_SIZE, |records|))
  {
    LastReplies(server, db, records, fates, k, earlier, d);
    NextBatchAnswered(server, records, k - 1, earlier, FateAt(fates, k - 1));
  }

  lemma LastReplies(
    server: Server, db: Db, records: seq<StagingRecord>, fates: seq<BatchFate>, k: nat,
    earlier: Delivered, d: Delivered)
    requires 0 < k <= Batches(|records|) && d == DeliverUpTo(server, db, records, fates, k) && !d.failed
    requires earlier == DeliverUpTo(server, db, records, fates, k - 1)
    ensures var b := SendBatch(server, earlier.db, BatchAt(records, k - 1), FateAt(fates, k - 1));
            !earlier.failed && !b.failed && d.replies == earlier.replies + b.replies
  {
  }

  lemma NextBatchAnswered(server: Server, records: seq<StagingRecord>, k: nat, earlier: Delivered, fate: BatchFate)
    requires k < Batches(|records|) && AnswersAll(earlier.replies, records, k * BATCH_SIZE)
    ensures var b := SendBatch(server, earlier.db, BatchAt(records, k), fate);
            !b.failed ==> AnswersAll(earlier.replies + b.replies, records, Min((k + 1) * BATCH_SIZE, |records|))
  {
    var batch := BatchAt(records, k);
    var b := SendBatch(server, earlier.db, batch, fate);
    BatchAnswered(server, earlier.db, batch, fate);
    if !b.failed { AnswersAppend(earlier.replies, b.replies, records, batch, k * BATCH_SIZE); }
  }

  lemma AnswersAppend(a: seq<Reply>, b: seq<Reply>, records: seq<StagingRecord>, batch: seq<StagingRecord>, start: nat)
    requires start + |batch| <= |records| && forall i | 0 <= i < |batch| :: batch[i] == records[start + i]
    requires AnswersAll(a, records, start) && AnswersAll(b, batch, |batch|)
    ensures AnswersAll(a + b, records, start + |batch|)
  {
    forall i | start <= i < start + |batch| ensures Answers((a + b)[i], records[i]) {
      assert (a + b)[i] == b[i - start] && batch[i - start] == records[i];
    }
  }

  lemma BatchAnswered(server: Server, db: Db, batch: seq<StagingRecord>, fate: BatchFate)
    ensures var d := SendBatch(server, db, batch, fate); !d.failed ==> AnswersAll(d.replies, batch, |batch|)
  {
    if fate.Reached? {
      var d := HandleUpTo(server.env, db, batch, fate.faults, |batch|);
      if !d.failed { HandledAreAnswered(server.env, db, batch, fate.faults, |batch|, d); }
    }
  }

  // What happens to a batch and to a file.

  /** A batch is refused whole, and nothing is ingested, when its body is too
      large, it is empty or has more than 500 records, or some institution is not
      authorized; otherwise its records are handled. */
  lemma RefusedWholeIff(server: Server, db: Db, records: seq<StagingRecord>, faults: seq<Faults>)
    ensures var refused := || server.bodyBytes(records) > server.maxBodyBytes || |records| == 0 || |records| > 500
                           || exists r :: r in records && !server.authorized(r.institutionId);
            Submitted(server, db, records, faults) == if refused then Delivered(db, [], true)
                                                      else HandleUpTo(server.env, db, records, faults, |records|)
  {
  }

  /** Records are handled one after the other: one without identity is named and
      skipped, any other is ingested, and the first error ends the batch. */
  lemma NextRecord(env: Env, db: Db, records: seq<StagingRecord>, faults: seq<Faults>, n: nat)
    requires n < |records| && !HandleUpTo(env, db, records, faults, n).failed
    ensures var before, after := HandleUpTo(env, db, records, faults, n), HandleUpTo(env, db, records, faults, n + 1);
            var r := records[n];
            var i := Ingested(env, before.db, r, if n < |faults| then faults[n] else SMOOTH);
            if r.sourceHash == "" || r.sourceSystem == "" || r.sourceRef == ""
            then after == Delivered(before.db, before.replies + [MissingIdentity(r.sourceRef, r.sourceHash)], false)
            else after == if i.outcome.Ok? then Delivered(i.db, before.replies + [Processed(i.outcome.value)], false)
                          else Delivered(i.db, [], true)
  {
  }

  /** Batch k of 200 records fails when all before it went through. */
  ghost predicate FailsAt(server: Server, db: Db, records: seq<StagingRecord>, fates: seq<BatchFate>, k: nat)
    requires k <= Batches(|records|)
  {
    && 200 * k < |records| && k < Batches(|records|)
    && !DeliverUpTo(server, db, records, fates, k).failed
    && SendBatch(server, DeliverUpTo(server, db, records, fates, k).db,
                 records[200 * k..if 200 * k + 200 <= |records| then 200 * k + 200 else |records|],
                 if k < |fates| then fates[k] else Reached([], false)).failed
  }

  lemma {:induction false} FailsIff(
    server: Server, db: Db, records: seq<StagingRecord>, fates: seq<BatchFate>, n: nat, d: Delivered)
    requires n <= Batches(|records|) && d == DeliverUpTo(server, db, records, fates, n)
    ensures d.failed <==> SomeFails(server, db, records, fates, n)
    decreases n
  {
    if n > 0 {
      var earlier := DeliverUpTo(server, db, records, fates, n - 1);
      FailsIff(server, db, records, fates, n - 1, earlier);
      OneMoreBatch(server, db, records, fates, n);
      NextFails(server, db, records, fates, n, earlier, d);
    }
  }

  ghost predicate SomeFails(server: Server, db: Db, records: seq<StagingRecord>, fates: seq<BatchFate>, n: nat)
    requires n <= Batches(|records|)
  {
    exists k: nat :: k < n && FailsAt(server, db, records, fates, k)
  }

  lemma OneMoreBatch(server: Server, db: Db, records: seq<StagingRecord>, fates: seq<BatchFate>, n: nat)
    requires 0 < n <= Batches(|records|)
    ensures SomeFails(server, db, records, fates, n) <==>
            SomeFails(server, db, records, fates, n - 1) || FailsAt(server, db, records, fates, n - 1)
  {
  }

  lemma NextFails(
    server: Server, db: Db, records: seq<StagingRecord>, fates: seq<BatchFate>, n: nat,
    earlier: Delivered, d: Delivered)
    requires 0 < n <= Batches(|records|) && d == DeliverUpTo(server, db, records, fates, n)
    requires earlier == DeliverUpTo(server, db, records, fates, n - 1)
    ensures earlier.failed ==> d == earlier && !FailsAt(server, db, records, fates, n - 1)
    ensures !earlier.failed ==> (d.failed <==> FailsAt(server, db, records, fates, n - 1))
  {
    if !earlier.failed { LastFails(server, db, records, fates, n, earlier, d); }
  }

  lemma LastFails(
    server: Server, db: Db, records: seq<StagingRecord>, fates: seq<BatchFate>, n: nat,
    earlier: Delivered, d: Delivered)
    requires 0 < n <= Batches(|records|) && d == DeliverUpTo(server, db, records, fates, n)
    requires earlier == DeliverUpTo(server, db, records, fates, n - 1) && !earlier.failed
    ensures d.failed <==> FailsAt(server, db, records, fates, n - 1)
  {
    FailsAtMeans(server, db, records, fates, n - 1, earlier);
  }

  lemma FailsAtMeans(
    server: Server, db: Db, records: seq<StagingRecord>, fates: seq<BatchFate>, k: nat, d: Delivered)
    requires k < Batches(|records|) && d == DeliverUpTo(server, db, records, fates, k)
    ensures FailsAt(server, db, records, fates, k) <==>
            !d.failed && SendBatch(server, d.db, BatchAt(records, k), FateAt(fates, k)).failed
  {
    assert BatchAt(records, k) == records[200 * k..if 200 * k + 200 <= |records| then 200 * k + 200 else |records|];
  }

  /** A file is moved to failed, and nothing is sent, exactly when a column is
      missing; it is left in place exactly when some batch of 200 of its records
      fails, the batches before it having been taken; otherwise it is moved to
      processed. */
  lemma FileFates(
    server: Server, H: Hasher, p: M.Profile, read: M.FloatReader, db: Db, file: CsvFile, fates: seq<BatchFate>)
    ensures var after := Process(server, H, p, read, db, file, fates);
            var records := M.Gathered(M.MapRows(H, p, read, file.header, file.rows)).records;
            var missing := exists name ::
                  && name in [p.columns.sourceRef, p.columns.occurredAt, p.columns.institution, p.columns.amount,
                              p.columns.currency]
                  && name !in file.header;
            && (after.fate == MovedToFailed <==> missing)
            && (missing ==> after.db == db)
            && (after.fate == LeftInPlace <==>
                  !missing && SomeFails(server, db, records, fates, Batches(|records|)))
  {
    var records := M.Gathered(M.MapRows(H, p, read, file.header, file.rows)).records;
    FailsIff(server, db, records, fates, Batches(|records|), Deliver(server, db, records, fates));
    MissingColumn(p, file.header);
  }

  lemma MissingColumn(p: M.Profile, header: seq<string>)
    ensures M.HeaderComplete(p, header) <==>
            forall name | name in [p.columns.sourceRef, p.columns.occurredAt, p.columns.institution, p.columns.amount,
                                   p.columns.currency] :: name in header
  {
    var names := [p.columns.sourceRef, p.columns.occurredAt, p.columns.institution, p.columns.amount,
                  p.columns.currency];
    assert names[0] in names && names[1] in names && names[2] in names && names[3] in names && names[4] in names;
  }

  /** A lost request leaves the database alone; a lost response does not, but
      either is an error without replies. Otherwise the endpoint has answered. */
  lemma LostIsError(server: Server, db: Db, records: seq<StagingRecord>, faults: seq<Faults>)
    ensures SendBatch(server, db, records, Lost) == Delivered(db, [], true)
    ensures SendBatch(server, db, records, Reached(faults, false)) == Submitted(server, db, records, faults)
    ensures SendBatch(server, db, records, Reached(faults, true)) ==
            Delivered(Submitted(server, db, records, faults).db, [], true)
  {
  }
}

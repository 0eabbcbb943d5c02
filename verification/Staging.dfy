/** Ingesting connector records at least once: probe for the source hash, post
    the derived entry, record the outcome, in three separate database steps. */
module Staging {
  import opened Wrappers
  import opened Text
  import opened Journal
  import opened Ledger
  import opened LedgerInvariants
  import opened LedgerOutcomes

  datatype StagingRecord = StagingRecord(
    sourceSystem: string,
    sourceRef: string,
    sourceHash: string,
    profile: string,
    institutionId: string,
    occurredAt: string,
    lines: seq<JournalLine>
  )

  datatype Status = Accepted | Quarantined | Duplicate

  datatype Outcome = Outcome(
    sourceRef: string, sourceHash: string, status: Status, reason: Option<PostError>, entryId: string)

  datatype StagingRow = StagingRow(record: StagingRecord, status: Status, reason: Option<PostError>, entryId: string)

  /** Staging rows in insertion order; the hash is unique. */
  datatype Db = Db(ledger: LedgerState, staging: seq<StagingRow>)

  /** What the endpoint demands before it ingests a record. */
  predicate HasIdentity(r: StagingRecord) {
    r.sourceHash != "" && r.sourceSystem != "" && r.sourceRef != ""
  }

  function DeriveEntryId(r: StagingRecord): string {
    r.sourceSystem + "-" + r.sourceRef
  }

  function FiscalYearOf(isoDate: string): int {
    if |isoDate| < 4 || !IsDigits(isoDate[..4]) then 0 else Number(isoDate[..4])
  }

  method FiscalYear(isoDate: string) returns (year: int)
    ensures year == FiscalYearOf(isoDate)
  {
    if |isoDate| < 4 { return 0; }
    var prefix := isoDate[..4];
    year := 0;
    for i := 0 to 4
      invariant IsDigits(prefix[..i]) && year == Number(prefix[..i])
    {
      if prefix[i] < '0' || prefix[i] > '9' { return 0; }
      assert prefix[..i + 1] == prefix[..i] + [prefix[i]];
      year := year * 10 + (prefix[i] as int - '0' as int);
    }
    assert prefix[..4] == prefix;
  }

  function ToJournalEntry(r: StagingRecord): JournalEntry {
    JournalEntry(DeriveEntryId(r), r.institutionId, FiscalYearOf(r.occurredAt), r.occurredAt,
                 "Imported from " + r.sourceSystem + " (" + r.sourceRef + ")", "", "", "", r.sourceHash, "", r.lines)
  }

  function LineTexts(lines: seq<JournalLine>): seq<string> {
    if |lines| == 0 then []
    else
      var last := lines[|lines| - 1];
      LineTexts(lines[..|lines| - 1]) + [last.accountCode, last.direction, last.currency]
  }

  /** Whether the database stores the record as a row, its lines as JSON. */
  predicate StoresRecord(env: Env, r: StagingRecord) {
    env.stores("staging_records", [r.sourceSystem, r.sourceRef, r.sourceHash, r.profile, r.institutionId, r.occurredAt]
                                  + LineTexts(r.lines))
  }

  /** Whether it stores the entry derived from the record. */
  predicate StoresDerived(env: Env, r: StagingRecord) {
    StoresEntry(env, Stored(ToJournalEntry(r)))
  }

  function Hashes(staging: seq<StagingRow>): set<string> {
    set row | row in staging :: row.record.sourceHash
  }

  /** The row of a hash, if there is one. */
  function Find(staging: seq<StagingRow>, hash: string): Option<StagingRow> {
    if |staging| == 0 then None
    else if staging[|staging| - 1].record.sourceHash == hash then Some(staging[|staging| - 1])
    else Find(staging[..|staging| - 1], hash)
  }

  function DuplicateOf(r: StagingRecord, row: StagingRow): Outcome {
    Outcome(r.sourceRef, r.sourceHash, Duplicate, row.reason, row.entryId)
  }

  /** A duplicate entry counts as posted, any other error quarantines. */
  function OutcomeOf(r: StagingRecord, err: Option<PostError>): Outcome {
    if err.None? || err.value == DuplicateTransaction
    then Outcome(r.sourceRef, r.sourceHash, Accepted, None, DeriveEntryId(r))
    else Outcome(r.sourceRef, r.sourceHash, Quarantined, err, "")
  }

  function RowFor(r: StagingRecord, o: Outcome): StagingRow {
    StagingRow(r, o.status, o.reason, o.entryId)
  }

  /** INSERT ... ON CONFLICT (source_hash) DO NOTHING. */
  function Insert(staging: seq<StagingRow>, row: StagingRow): seq<StagingRow> {
    if Find(staging, row.record.sourceHash).Some? then staging else staging + [row]
  }

  /** Infrastructure faults along one call. */
  datatype Faults = Faults(probeFails: bool, post: TxFate, crashAfterPost: bool, record: TxFate)

  const SMOOTH := Faults(false, Committed, false, Committed)

  datatype IngestResult = IngestResult(db: Db, outcome: Result<Outcome, string>)

  function Ingested(env: Env, db: Db, r: StagingRecord, f: Faults): IngestResult {
    if f.probeFails then IngestResult(db, Err("probe failed"))
    else if Find(db.staging, r.sourceHash).Some?
    then IngestResult(db, Ok(DuplicateOf(r, Find(db.staging, r.sourceHash).value)))
    else
      var posted := Posted(env, db.ledger, ToJournalEntry(r), f.post);
      var mid := db.(ledger := posted.state);
      if f.crashAfterPost then IngestResult(mid, Err("crashed"))
      else
        var o := OutcomeOf(r, posted.err);
        if f.record == RolledBack || !StoresRecord(env, r) then IngestResult(mid, Err("recording failed"))
        else
          IngestResult(mid.(staging := Insert(mid.staging, RowFor(r, o))),
                       if f.record == AckLost then Err("recording failed") else Ok(o))
  }

  function DigitValue(c: char): int {
    c as int - '0' as int
  }

  /** The year the first four characters show, if they are digits. */
  function FirstFour(s: string): int {
    if |s| >= 4 && forall i | 0 <= i < 4 :: '0' <= s[i] <= '9'
    then 1000 * DigitValue(s[0]) + 100 * DigitValue(s[1]) + 10 * DigitValue(s[2]) + DigitValue(s[3])
    else 0
  }

  lemma YearByCharacters(s: string)
    ensures FiscalYearOf(s) == FirstFour(s)
  {
    if |s| >= 4 {
      var p := s[..4];
      assert p[..3][..2] == p[..2] && p[..2][..1] == p[..1] && p[..1][..0] == [];
      assert IsDigits(p) <==> forall i | 0 <= i < 4 :: '0' <= s[i] <= '9';
      if IsDigits(p) {
        assert Number(p[..1]) == DigitValue(s[0]);
        assert Number(p[..2]) == 10 * Number(p[..1]) + DigitValue(s[1]);
        assert Number(p[..3]) == 10 * Number(p[..2]) + DigitValue(s[2]);
      }
    }
  }

  /** What an undisturbed call makes of a new record that can be stored. If the
      journal takes its entry, the last entry is the record's: its institution,
      date and lines, in the year of its date, under system-reference and keyed
      by its hash. Either way the last staging row is the record's, with the
      entry's id, or with the reason and no entry. */
  lemma IngestLeaves(env: Env, db: Db, r: StagingRecord)
    requires Find(db.staging, r.sourceHash).None? && StoresRecord(env, r)
    ensures var err := Posted(env, db.ledger, ToJournalEntry(r), Committed).err;
            var i := Ingested(env, db, r, SMOOTH);
            var id := r.sourceSystem + "-" + r.sourceRef;
            && (err.None? ==>
                  && i.db.ledger.entries == db.ledger.entries + [
                       JournalEntry(id, r.institutionId, FirstFour(r.occurredAt), r.occurredAt,
                                    "Imported from " + r.sourceSystem + " (" + r.sourceRef + ")", "POSTED", "STANDARD",
                                    "", r.sourceHash, "", r.lines)])
            && (err.Some? ==> i.db.ledger == db.ledger)
            && (var posted := err.None? || err == Some(DuplicateTransaction);
                && i.outcome == Ok(if posted then Outcome(r.sourceRef, r.sourceHash, Accepted, None, id)
                                   else Outcome(r.sourceRef, r.sourceHash, Quarantined, err, ""))
                && i.db.staging == db.staging + [if posted then StagingRow(r, Accepted, None, id)
                                                 else StagingRow(r, Quarantined, err, "")])
  {
    var e := ToJournalEntry(r);
    var posted := Posted(env, db.ledger, e, Committed);
    YearByCharacters(r.occurredAt);
    if posted.err.None? {
      PostingLeaves(env, db.ledger, e, BalanceKey("", "", ""));
      var n := |db.ledger.entries|;
      assert posted.state.entries == posted.state.entries[..n] + [posted.state.entries[n]];
    } else {
      RefusedLeaves(env, db.ledger, e);
    }
  }

  /** What faults make of it: a failed probe leaves everything alone; a crash after
      the post, or a recording that is rolled back, leaves what was posted
      without a row; an acknowledgement lost while recording leaves both. In each
      case the caller gets an error and no outcome. */
  lemma IngestFaults(env: Env, db: Db, r: StagingRecord, post: TxFate, record: TxFate)
    requires Find(db.staging, r.sourceHash).None? && StoresRecord(env, r)
    ensures var posted := Posted(env, db.ledger, ToJournalEntry(r), post);
            var smooth := Ingested(env, db, r, Faults(false, post, false, Committed));
            && Ingested(env, db, r, Faults(true, post, false, record)) == IngestResult(db, Err("probe failed"))
            && smooth.outcome.Ok? && smooth.db.ledger == posted.state && |smooth.db.staging| == |db.staging| + 1
            && Ingested(env, db, r, Faults(false, post, true, record)) ==
               IngestResult(db.(ledger := posted.state), Err("crashed"))
            && Ingested(env, db, r, Faults(false, post, false, RolledBack)) ==
               IngestResult(db.(ledger := posted.state), Err("recording failed"))
            && Ingested(env, db, r, Faults(false, post, false, AckLost)) ==
               IngestResult(smooth.db, Err("recording failed"))
  {
  }

  lemma RefusedLeaves(env: Env, s: LedgerState, e: JournalEntry)
    requires Posted(env, s, e, Committed).err.Some?
    ensures Posted(env, s, e, Committed).state == s
  {
    PostedAllOrNothing(env, s, e, Committed);
  }

  class StagingRepository {
    const journal: JournalRepository
    var staging: seq<StagingRow>

    constructor (journal: JournalRepository)
      ensures this.journal == journal && staging == []
    {
      this.journal := journal;
      staging := [];
    }

    method Ingest(r: StagingRecord, f: Faults) returns (outcome: Result<Outcome, string>)
      modifies this, journal
      ensures IngestResult(Db(journal.State(), staging), outcome) ==
              Ingested(journal.env, Db(old(journal.State()), old(staging)), r, f)
    {
      if f.probeFails { return Err("probe failed"); }
      var known := Find(staging, r.sourceHash);
      if known.Some? { return Ok(DuplicateOf(r, known.value)); }

      var err := journal.PostEntry(ToJournalEntry(r), f.post);
      if f.crashAfterPost { return Err("crashed"); }
      var o: Outcome;
      if err.None? || err.value == DuplicateTransaction {
        o := Outcome(r.sourceRef, r.sourceHash, Accepted, None, DeriveEntryId(r));
      } else {
        o := Outcome(r.sourceRef, r.sourceHash, Quarantined, err, "");
      }

      if f.record == RolledBack || !StoresRecord(journal.env, r) { return Err("recording failed"); }
      staging := Insert(staging, StagingRow(r, o.status, o.reason, o.entryId));
      outcome := if f.record == AckLost then Err("recording failed") else Ok(o);
    }
  }

  // Concurrent workers.

  /** Where a worker is between the steps of Ingest. */
  datatype Worker = Ready | Probed(r: StagingRecord) | PostDone(r: StagingRecord, o: Outcome)

  datatype Pool = Pool(db: Db, workers: map<nat, Worker>)

  datatype Event =
    | Probe(w: nat, r: StagingRecord)
    | PostIt(w: nat, fate: TxFate)
    | RecordIt(w: nat, fate: TxFate)
    | Die(w: nat)
    | Elsewhere(step: Step)

  function WorkerAt(p: Pool, w: nat): Worker {
    if w in p.workers then p.workers[w] else Ready
  }

  function Move(p: Pool, w: nat, worker: Worker): Pool {
    p.(workers := p.workers[w := worker])
  }

  /** One statement or transaction of one worker, a crash, or a transaction
      from outside the staging pipeline. */
  function Next(env: Env, p: Pool, ev: Event): Pool {
    match ev
    case Probe(w, r) =>
      if WorkerAt(p, w).Ready? && Find(p.db.staging, r.sourceHash).None? then Move(p, w, Probed(r)) else p
    case PostIt(w, fate) =>
      var worker := WorkerAt(p, w);
      if !worker.Probed? then p
      else
        var posted := Posted(env, p.db.ledger, ToJournalEntry(worker.r), fate);
        Move(p.(db := p.db.(ledger := posted.state)), w, PostDone(worker.r, OutcomeOf(worker.r, posted.err)))
    case RecordIt(w, fate) =>
      var worker := WorkerAt(p, w);
      if !worker.PostDone? then p
      else if fate == RolledBack || !StoresRecord(env, worker.r) then Move(p, w, Ready)
      else Move(p.(db := p.db.(staging := Insert(p.db.staging, RowFor(worker.r, worker.o)))), w, Ready)
    case Die(w) => Move(p, w, Ready)
    case Elsewhere(step) => p.(db := p.db.(ledger := Exec(env, p.db.ledger, step)))
  }

  function RunPool(env: Env, p: Pool, events: seq<Event>): Pool {
    if |events| == 0 then p
    else Next(env, RunPool(env, p, events[..|events| - 1]), events[|events| - 1])
  }

  const IDLE_POOL := Pool(Db(EMPTY, []), map[])

  /** A lone worker's three steps are one call of Ingest. */
  lemma LoneWorkerIsIngest(env: Env, p: Pool, w: nat, r: StagingRecord, post: TxFate, record: TxFate)
    requires WorkerAt(p, w).Ready?
    ensures Next(env, Next(env, Next(env, p, Probe(w, r)), PostIt(w, post)), RecordIt(w, record)).db ==
            Ingested(env, p.db, r, Faults(false, post, false, record)).db
  {
    var p1 := Next(env, p, Probe(w, r));
    if Find(p.db.staging, r.sourceHash).None? {
      assert WorkerAt(p1, w) == Probed(r);
      var posted := Posted(env, p.db.ledger, ToJournalEntry(r), post);
      var p2 := Next(env, p1, PostIt(w, post));
      assert WorkerAt(p2, w) == PostDone(r, OutcomeOf(r, posted.err));
    }
  }

  ghost predicate UniqueHashes(staging: seq<StagingRow>) {
    forall i, j | 0 <= i < j < |staging| :: staging[i].record.sourceHash != staging[j].record.sourceHash
  }

  lemma {:induction false} FindMeans(staging: seq<StagingRow>, hash: string)
    ensures Find(staging, hash).Some? <==> hash in Hashes(staging)
    ensures Find(staging, hash).Some? ==>
              Find(staging, hash).value in staging && Find(staging, hash).value.record.sourceHash == hash
  {
    if |staging| > 0 {
      var n := |staging| - 1;
      FindMeans(staging[..n], hash);
      assert staging == staging[..n] + [staging[n]];
    }
  }

  lemma InsertKeepsRows(staging: seq<StagingRow>, row: StagingRow, hash: string)
    ensures staging <= Insert(staging, row)
    ensures UniqueHashes(staging) ==> UniqueHashes(Insert(staging, row))
    ensures Find(staging, hash).Some? ==> Find(Insert(staging, row), hash) == Find(staging, hash)
    ensures Find(Insert(staging, row), row.record.sourceHash).Some?
  {
    FindMeans(staging, row.record.sourceHash);
    var more := staging + [row];
    assert more[..|staging|] == staging;
    if Find(staging, row.record.sourceHash).None? {
      forall i | 0 <= i < |staging| ensures staging[i].record.sourceHash != row.record.sourceHash {
        assert staging[i] in staging;
      }
    }
  }

  /** Rows and entries once written stay exactly as they are. */
  ghost predicate Keeps(p: Pool, q: Pool) {
    && p.db.ledger.entries <= q.db.ledger.entries
    && p.db.staging <= q.db.staging
    && forall hash :: Find(p.db.staging, hash).Some? ==> Find(q.db.staging, hash) == Find(p.db.staging, hash)
  }

  lemma NextKeeps(env: Env, p: Pool, ev: Event)
    ensures Keeps(p, Next(env, p, ev))
  {
    match ev
    case PostIt(w, fate) =>
      var worker := WorkerAt(p, w);
      if worker.Probed? { PostedAllOrNothing(env, p.db.ledger, ToJournalEntry(worker.r), fate); }
    case RecordIt(w, fate) =>
      var worker := WorkerAt(p, w);
      if worker.PostDone? {
        forall hash { InsertKeepsRows(p.db.staging, RowFor(worker.r, worker.o), hash); }
      }
    case Elsewhere(step) =>
      if step.Post? { PostedAllOrNothing(env, p.db.ledger, step.entry, step.fate); }
    case _ =>
  }

  lemma {:induction false} RunKeeps(env: Env, p: Pool, events: seq<Event>)
    ensures Keeps(p, RunPool(env, p, events))
  {
    if |events| > 0 {
      RunKeeps(env, p, events[..|events| - 1]);
      NextKeeps(env, RunPool(env, p, events[..|events| - 1]), events[|events| - 1]);
    }
  }

  /** Redelivery: once a hash has a row, then after any further events every
      call of Ingest with that hash that gets past its probe answers DUPLICATE
      with the row's reason and entry id, and none changes anything. */
  lemma {:induction false} RedeliveryIsDuplicate(env: Env, p: Pool, events: seq<Event>, r: StagingRecord, f: Faults)
    requires Find(p.db.staging, r.sourceHash).Some?
    ensures var row := Find(p.db.staging, r.sourceHash).value;
            var later := RunPool(env, p, events).db;
            && Ingested(env, later, r, f).db == later
            && (!f.probeFails ==>
                  Ingested(env, later, r, f).outcome ==
                  Ok(Outcome(r.sourceRef, r.sourceHash, Duplicate, row.reason, row.entryId)))
  {
    RunKeeps(env, p, events);
  }

  // Exactly one posting per id, and rows that name real entries.

  /** The posting is refused only because another entry holds the record's hash
      as its idempotency key. */
  ghost predicate KeyTakenElsewhere(s: LedgerState, r: StagingRecord) {
    DeriveEntryId(r) !in Ids(s.entries) && r.sourceHash != "" && r.sourceHash in Keys(s.entries)
  }

  lemma AppliedHasId(env: Env, s: LedgerState, e: JournalEntry, t: LedgerState)
    requires Applied(env, s, e, t)
    ensures e.id in Ids(t.entries)
  {
    assert Stored(e) in t.entries;
  }

  /** A record reported as posted names an entry in the journal, except exactly
      when its key is taken elsewhere. */
  lemma AcceptedNamesEntryIff(env: Env, s: LedgerState, r: StagingRecord, fate: TxFate)
    ensures var posted := Posted(env, s, ToJournalEntry(r), fate);
            var o := OutcomeOf(r, posted.err);
            o.status == Accepted ==>
              (o.entryId in Ids(posted.state.entries) <==> !KeyTakenElsewhere(s, r))
  {
    var e := ToJournalEntry(r);
    var posted := Posted(env, s, e, fate);
    PostedAllOrNothing(env, s, e, fate);
    if posted.err.None? { AppliedHasId(env, s, e, posted.state); }
  }

  /** And then the whole call records a POSTED row for an entry that does not
      exist, and no redelivery corrects it. */
  lemma PhantomPosting(env: Env, db: Db, r: StagingRecord, f: Faults)
    requires Validate(ToJournalEntry(r)).None? && r.institutionId in env.institutions
    requires StoresRecord(env, r) && StoresDerived(env, r)
    requires KeyTakenElsewhere(db.ledger, r) && Find(db.staging, r.sourceHash).None?
    ensures var after := Ingested(env, db, r, SMOOTH).db;
            && Find(after.staging, r.sourceHash) == Some(StagingRow(r, Accepted, None, DeriveEntryId(r)))
            && DeriveEntryId(r) !in Ids(after.ledger.entries)
            && Ingested(env, after, r, f).db == after
  {
    var posted := Posted(env, db.ledger, ToJournalEntry(r), Committed);
    assert posted == PostOutcome(db.ledger, Some(DuplicateTransaction));
    var row := RowFor(r, OutcomeOf(r, posted.err));
    assert (db.staging + [row])[..|db.staging|] == db.staging;
  }

  /** From an empty database: a worker posts a record and dies before recording. */
  lemma PostedAndDied(env: Env, w: nat, r: StagingRecord)
    requires Posted(env, EMPTY, ToJournalEntry(r), Committed).err.None?
    ensures var p := RunPool(env, IDLE_POOL, [Probe(w, r), PostIt(w, Committed), Die(w)]);
            p.db == Db(Posted(env, EMPTY, ToJournalEntry(r), Committed).state, []) && WorkerAt(p, w).Ready?
  {
    var events := [Probe(w, r), PostIt(w, Committed), Die(w)];
    assert events[..2][..1] == events[..1] && events[..1][..0] == [] && events[..3] == events;
    var p1 := Next(env, IDLE_POOL, events[0]);
    var p2 := Next(env, p1, events[1]);
    assert RunPool(env, IDLE_POOL, events[..1]) == p1 && WorkerAt(p1, w) == Probed(r);
    assert RunPool(env, IDLE_POOL, events[..2]) == p2;
    assert RunPool(env, IDLE_POOL, events) == Next(env, p2, events[2]);
  }

  /** Such a state is reached: a worker posts a record and dies, and a record
      with the same hash but another reference follows. It gets a POSTED row
      although only the first one's entry exists. */
  lemma PhantomReachable(env: Env, w: nat, first: StagingRecord, r: StagingRecord)
    requires Posted(env, EMPTY, ToJournalEntry(first), Committed).err.None?
    requires r.sourceHash == first.sourceHash && r.sourceHash != "" && DeriveEntryId(r) != DeriveEntryId(first)
    requires Validate(ToJournalEntry(r)).None? && r.institutionId in env.institutions
    requires StoresRecord(env, r) && StoresDerived(env, r)
    ensures var p := RunPool(env, IDLE_POOL, [Probe(w, first), PostIt(w, Committed), Die(w)]);
            var after := Ingested(env, p.db, r, SMOOTH).db;
            && WorkerAt(p, w).Ready? && KeyTakenElsewhere(p.db.ledger, r)
            && Find(after.staging, r.sourceHash) == Some(StagingRow(r, Accepted, None, DeriveEntryId(r)))
            && Ids(after.ledger.entries) == {DeriveEntryId(first)}
  {
    PostedAndDied(env, w, first);
    var db := RunPool(env, IDLE_POOL, [Probe(w, first), PostIt(w, Committed), Die(w)]).db;
    PostedAllOrNothing(env, EMPTY, ToJournalEntry(first), Committed);
    var row := Stored(ToJournalEntry(first));
    assert db.ledger.entries == [row] && Ids([row]) == {row.id} && row in [row];
    assert row.idempotencyKey in Keys(db.ledger.entries);
    PhantomPosting(env, db, r, SMOOTH);
  }

  /** Keys are used consistently: a hash or idempotency key belongs to one entry
      id. `owner` is any assignment that the submitted records and entries respect. */
  ghost predicate Respects(owner: string -> string, ev: Event) {
    match ev
    case Probe(_, r) => owner(r.sourceHash) == DeriveEntryId(r)
    case Elsewhere(Post(e, _)) => e.idempotencyKey != "" ==> owner(e.idempotencyKey) == e.id
    case _ => true
  }

  ghost predicate RowNamesEntry(db: Db, row: StagingRow) {
    && row.status != Duplicate
    && (row.status == Accepted ==> row.entryId == DeriveEntryId(row.record) && row.entryId in Ids(db.ledger.entries))
    && (row.status == Quarantined ==> row.entryId == "")
  }

  ghost predicate WorkerOk(owner: string -> string, db: Db, worker: Worker) {
    match worker
    case Ready => true
    case Probed(r) => owner(r.sourceHash) == DeriveEntryId(r)
    case PostDone(r, o) => owner(r.sourceHash) == DeriveEntryId(r) && RowNamesEntry(db, RowFor(r, o))
  }

  ghost predicate Consistent(owner: string -> string, p: Pool) {
    && Books(p.db.ledger) && UniqueHashes(p.db.staging)
    && (forall e | e in p.db.ledger.entries :: e.idempotencyKey != "" ==> owner(e.idempotencyKey) == e.id)
    && (forall row | row in p.db.staging :: RowNamesEntry(p.db, row))
    && (forall w | w in p.workers :: WorkerOk(owner, p.db, p.workers[w]))
  }

  lemma IdsGrow(a: seq<JournalEntry>, b: seq<JournalEntry>)
    requires a <= b
    ensures Ids(a) <= Ids(b)
  {
    forall id | id in Ids(a) ensures id in Ids(b) {
      var e :| e in a && e.id == id;
      assert e in b;
    }
  }

  /** A ledger step keeps what rows and workers say about entries. */
  lemma LedgerStepKeeps(owner: string -> string, env: Env, p: Pool, step: Step)
    requires Consistent(owner, p)
    requires step.Post? && step.entry.idempotencyKey != "" ==> owner(step.entry.idempotencyKey) == step.entry.id
    ensures Consistent(owner, p.(db := p.db.(ledger := Exec(env, p.db.ledger, step))))
  {
    var q := p.(db := p.db.(ledger := Exec(env, p.db.ledger, step)));
    ExecKeepsBooks(env, p.db.ledger, step);
    if step.Post? { PostedAllOrNothing(env, p.db.ledger, step.entry, step.fate); }
    assert p.db.ledger.entries <= q.db.ledger.entries;
    IdsGrow(p.db.ledger.entries, q.db.ledger.entries);
    forall row | row in p.db.staging ensures RowNamesEntry(q.db, row) { assert RowNamesEntry(p.db, row); }
    forall w | w in p.workers ensures WorkerOk(owner, q.db, p.workers[w]) {
      assert WorkerOk(owner, p.db, p.workers[w]);
    }
  }

  lemma PostOutcomeOk(
    owner: string -> string, env: Env, s: LedgerState, r: StagingRecord, fate: TxFate, staging: seq<StagingRow>)
    requires owner(r.sourceHash) == DeriveEntryId(r)
    requires forall e | e in s.entries :: e.idempotencyKey != "" ==> owner(e.idempotencyKey) == e.id
    ensures var posted := Posted(env, s, ToJournalEntry(r), fate);
            RowNamesEntry(Db(posted.state, staging), RowFor(r, OutcomeOf(r, posted.err)))
  {
    AcceptedNamesEntryIff(env, s, r, fate);
    forall e | e in s.entries && e.idempotencyKey != "" && e.idempotencyKey == r.sourceHash
      ensures DeriveEntryId(r) in Ids(s.entries)
    {
      assert e.id in Ids(s.entries);
    }
  }

  lemma MoveKeeps(owner: string -> string, p: Pool, w: nat, worker: Worker)
    requires Consistent(owner, p) && WorkerOk(owner, p.db, worker)
    ensures Consistent(owner, Move(p, w, worker))
  {
  }

  lemma NextConsistent(owner: string -> string, env: Env, p: Pool, ev: Event)
    requires Consistent(owner, p) && Respects(owner, ev)
    ensures Consistent(owner, Next(env, p, ev))
  {
    match ev
    case Probe(w, r) =>
      if Next(env, p, ev) != p { MoveKeeps(owner, p, w, Probed(r)); }
    case PostIt(w, fate) =>
      var worker := WorkerAt(p, w);
      if worker.Probed? {
        var e := ToJournalEntry(worker.r);
        assert WorkerOk(owner, p.db, worker);
        LedgerStepKeeps(owner, env, p, Post(e, fate));
        var q := p.(db := p.db.(ledger := Posted(env, p.db.ledger, e, fate).state));
        PostOutcomeOk(owner, env, p.db.ledger, worker.r, fate, p.db.staging);
        MoveKeeps(owner, q, w, PostDone(worker.r, OutcomeOf(worker.r, Posted(env, p.db.ledger, e, fate).err)));
      }
    case RecordIt(w, fate) =>
      var worker := WorkerAt(p, w);
      if worker.PostDone? {
        assert WorkerOk(owner, p.db, worker);
        RecordConsistent(owner, p, RowFor(worker.r, worker.o));
        MoveKeeps(owner, p, w, Ready);
        MoveKeeps(owner, p.(db := p.db.(staging := Insert(p.db.staging, RowFor(worker.r, worker.o)))), w, Ready);
      }
    case Die(w) => MoveKeeps(owner, p, w, Ready);
    case Elsewhere(step) => LedgerStepKeeps(owner, env, p, step);
  }

  lemma RecordConsistent(owner: string -> string, p: Pool, row: StagingRow)
    requires Consistent(owner, p) && RowNamesEntry(p.db, row)
    ensures Consistent(owner, p.(db := p.db.(staging := Insert(p.db.staging, row))))
  {
    var q := p.(db := p.db.(staging := Insert(p.db.staging, row)));
    InsertKeepsRows(p.db.staging, row, "");
    forall x | x in q.db.staging ensures RowNamesEntry(q.db, x) {
      assert x in p.db.staging || x == row;
      assert RowNamesEntry(p.db, x);
    }
    forall w | w in p.workers ensures WorkerOk(owner, q.db, p.workers[w]) {
      assert WorkerOk(owner, p.db, p.workers[w]);
    }
  }

  /** Ingestion under any interleaving, redelivery and crash, with postings from
      elsewhere in between: every entry id is posted at most once, every hash
      has at most one row, and every POSTED row names an entry in the journal. */
  lemma {:induction false} IngestionConsistent(owner: string -> string, env: Env, events: seq<Event>)
    requires forall ev | ev in events :: Respects(owner, ev)
    ensures Consistent(owner, RunPool(env, IDLE_POOL, events))
  {
    if |events| > 0 {
      IngestionConsistent(owner, env, events[..|events| - 1]);
      assert events[|events| - 1] in events;
      NextConsistent(owner, env, RunPool(env, IDLE_POOL, events[..|events| - 1]), events[|events| - 1]);
    } else {
      StocksEqualFlows(env, []);
    }
  }

  /** An infrastructure error during the post quarantines the record for good:
      every later delivery is answered from the row and posts nothing. */
  lemma TransientFailureIsFinal(env: Env, db: Db, r: StagingRecord, f: Faults)
    requires Validate(ToJournalEntry(r)).None? && StoresRecord(env, r) && Find(db.staging, r.sourceHash).None?
    ensures var after := Ingested(env, db, r, Faults(false, RolledBack, false, Committed)).db;
            && Find(after.staging, r.sourceHash) == Some(StagingRow(r, Quarantined, Some(Database), ""))
            && after.ledger == db.ledger && Ingested(env, after, r, f).db == after
  {
    var row := StagingRow(r, Quarantined, Some(Database), "");
    assert (db.staging + [row])[..|db.staging|] == db.staging;
  }

  /** And a lost acknowledgement of the commit does so although the entry was
      posted: a QUARANTINED row does not mean nothing was posted. */
  lemma LostAcknowledgementQuarantines(env: Env, db: Db, r: StagingRecord, f: Faults)
    requires Validate(ToJournalEntry(r)).None? && StoresRecord(env, r) && Find(db.staging, r.sourceHash).None?
    requires Write(env, db.ledger, ToJournalEntry(r)).Ok?
    ensures var after := Ingested(env, db, r, Faults(false, AckLost, false, Committed)).db;
            && Find(after.staging, r.sourceHash) == Some(StagingRow(r, Quarantined, Some(Database), ""))
            && DeriveEntryId(r) in Ids(after.ledger.entries) && Ingested(env, after, r, f).db == after
  {
    var row := StagingRow(r, Quarantined, Some(Database), "");
    assert (db.staging + [row])[..|db.staging|] == db.staging;
    var posted := Posted(env, db.ledger, ToJournalEntry(r), AckLost);
    PostedAllOrNothing(env, db.ledger, ToJournalEntry(r), AckLost);
    assert posted.state.entries == db.ledger.entries + [Stored(ToJournalEntry(r))];
    AppliedHasId(env, db.ledger, ToJournalEntry(r), posted.state);
  }

  /** Exactly when: a new record whose entry the journal takes is quarantined if
      and only if the post does not commit and say so, whatever the reason; and
      then a POSTED row and a QUARANTINED one differ only in what was heard. */
  lemma QuarantinedIff(env: Env, db: Db, r: StagingRecord, post: TxFate)
    requires Validate(ToJournalEntry(r)).None? && Write(env, db.ledger, ToJournalEntry(r)).Ok?
    requires StoresRecord(env, r) && Find(db.staging, r.sourceHash).None?
    ensures var after := Ingested(env, db, r, Faults(false, post, false, Committed)).db;
            && Find(after.staging, r.sourceHash).Some?
            && (Find(after.staging, r.sourceHash).value.status == Quarantined <==> post != Committed)
            && (DeriveEntryId(r) in Ids(after.ledger.entries) <==> post != RolledBack)
  {
    var e := ToJournalEntry(r);
    var posted := Posted(env, db.ledger, e, post);
    TakenEntry(env, db.ledger, e, post);
    NewRowFound(db.staging, RowFor(r, OutcomeOf(r, posted.err)));
  }

  lemma TakenEntry(env: Env, s: LedgerState, e: JournalEntry, post: TxFate)
    requires Validate(e).None? && Write(env, s, e).Ok?
    ensures var posted := Posted(env, s, e, post);
            && posted.err == (if post == Committed then None else Some(Database))
            && (e.id in Ids(posted.state.entries) <==> post != RolledBack)
  {
    PostedAllOrNothing(env, s, e, Committed);
    AppliedHasId(env, s, e, Write(env, s, e).value);
    assert e.id !in Ids(s.entries);
  }

  lemma NewRowFound(staging: seq<StagingRow>, row: StagingRow)
    requires Find(staging, row.record.sourceHash).None?
    ensures Insert(staging, row) == staging + [row] && Find(Insert(staging, row), row.record.sourceHash) == Some(row)
  {
    assert (staging + [row])[..|staging|] == staging;
  }
}

/** Reconciliation: staged against posted amounts per source system and month. */
module Reconciliation {
  import opened Wrappers
  import opened Text
  import opened Sorting
  import opened Journal
  import opened Ledger
  import opened LedgerInvariants
  import opened Staging

  /** What a GROUP BY row adds up. */
  datatype Tally = Tally(staged: int, posted: int, quarantined: int, stagedAmount: int, postedAmount: int)

  const NOTHING := Tally(0, 0, 0, 0, 0)

  function Add(a: Tally, b: Tally): Tally {
    Tally(a.staged + b.staged, a.posted + b.posted, a.quarantined + b.quarantined,
          a.stagedAmount + b.stagedAmount, a.postedAmount + b.postedAmount)
  }

  datatype Group = Group(sourceSystem: string, period: string)

  datatype ReconciliationRow = ReconciliationRow(group: Group, tally: Tally)

  /** The debit lines of all currencies. */
  function DebitTotal(lines: seq<JournalLine>): int {
    if |lines| == 0 then 0
    else
      var last := lines[|lines| - 1];
      DebitTotal(lines[..|lines| - 1]) + (if last.direction == "DEBIT" then last.amountMinor else 0)
  }

  /** The debit lines in the journal under an entry id. */
  function PostedDebits(entries: seq<JournalEntry>, entryId: string): int {
    if |entries| == 0 then 0
    else
      var last := entries[|entries| - 1];
      PostedDebits(entries[..|entries| - 1], entryId) + (if last.id == entryId then DebitTotal(last.lines) else 0)
  }

  /** One staging row joined with its entry; the empty entry id is NULL and joins
      with nothing. */
  function TallyOf(entries: seq<JournalEntry>, row: StagingRow): Tally {
    Tally(1,
          if row.status == Accepted then 1 else 0,
          if row.status == Quarantined then 1 else 0,
          if row.status == Accepted then DebitTotal(row.record.lines) else 0,
          if row.entryId == "" then 0 else PostedDebits(entries, row.entryId))
  }

  /** The month of a date, as the database prints it. */
  type Calendar = string -> string

  function GroupOf(month: Calendar, row: StagingRow): Group {
    Group(row.record.sourceSystem, month(row.record.occurredAt))
  }

  function TallyGroup(month: Calendar, entries: seq<JournalEntry>, rows: seq<StagingRow>, g: Group): Tally {
    if |rows| == 0 then NOTHING
    else
      var last := rows[|rows| - 1];
      var earlier := TallyGroup(month, entries, rows[..|rows| - 1], g);
      if GroupOf(month, last) == g then Add(earlier, TallyOf(entries, last)) else earlier
  }

  function Groups(month: Calendar, rows: seq<StagingRow>): seq<Group> {
    if |rows| == 0 then []
    else
      var earlier := Groups(month, rows[..|rows| - 1]);
      var g := GroupOf(month, rows[|rows| - 1]);
      if g in earlier then earlier else earlier + [g]
  }

  /** Latest month first, then by source system. */
  predicate GroupLe(a: Group, b: Group) {
    if a.period == b.period then LexLe(a.sourceSystem, b.sourceSystem) else LexLe(b.period, a.period)
  }

  function RowsFor(month: Calendar, entries: seq<JournalEntry>, staging: seq<StagingRow>, groups: seq<Group>)
    : (r: seq<ReconciliationRow>)
    ensures |r| == |groups|
    ensures forall i | 0 <= i < |r| ::
              r[i] == ReconciliationRow(groups[i], TallyGroup(month, entries, staging, groups[i]))
  {
    seq(|groups|, i requires 0 <= i < |groups| =>
          ReconciliationRow(groups[i], TallyGroup(month, entries, staging, groups[i])))
  }

  function Query(month: Calendar, db: Db): seq<ReconciliationRow> {
    RowsFor(month, db.ledger.entries, db.staging, Sort(Groups(month, db.staging), GroupLe))
  }

  datatype Verdict = Matched | Discrepancy | Attention

  datatype Response = Response(
    group: Group, staged: int, posted: int, quarantined: int,
    stagedAmount: int64, postedAmount: int64, discrepancy: int64, status: Verdict)

  predicate InInt64(x: int) {
    -INT64_MAX - 1 <= x <= INT64_MAX
  }

  predicate Scannable(row: ReconciliationRow) {
    InInt64(row.tally.stagedAmount) && InInt64(row.tally.postedAmount)
  }

  /** The subtraction is 64-bit. */
  function ToResponse(row: ReconciliationRow): Response
    requires Scannable(row)
  {
    var t := row.tally;
    var discrepancy := Wrap(t.stagedAmount - t.postedAmount);
    Response(row.group, t.staged, t.posted, t.quarantined, t.stagedAmount, t.postedAmount, discrepancy,
             if discrepancy != 0 then Discrepancy else if t.quarantined > 0 then Attention else Matched)
  }

  /** The verdict is exact although the printed discrepancy may wrap. */
  lemma VerdictExact(row: ReconciliationRow)
    requires Scannable(row) && row.tally.quarantined >= 0
    ensures var t, r := row.tally, ToResponse(row);
            && (r.status == Discrepancy <==> t.stagedAmount != t.postedAmount)
            && (r.status == Attention <==> t.stagedAmount == t.postedAmount && t.quarantined > 0)
            && (r.status == Matched <==> t.stagedAmount == t.postedAmount && t.quarantined == 0)
  {
    WrapZero(row.tally.stagedAmount - row.tally.postedAmount);
    SmallMultiple(row.tally.stagedAmount - row.tally.postedAmount);
  }

  /** What an operator reads: the group's own counts and sums, staged before
      posted, and staged less posted as long as that is a 64-bit number. */
  lemma ResponseShows(row: ReconciliationRow)
    requires Scannable(row)
    ensures var t, r := row.tally, ToResponse(row);
            && r.group.sourceSystem == row.group.sourceSystem && r.group.period == row.group.period
            && r.staged == t.staged && r.posted == t.posted && r.quarantined == t.quarantined
            && r.stagedAmount == t.stagedAmount && r.postedAmount == t.postedAmount
            && (InInt64(t.stagedAmount - t.postedAmount) ==> r.discrepancy == t.stagedAmount - t.postedAmount)
            && (r.discrepancy - (t.stagedAmount - t.postedAmount)) % INT64_SPAN == 0
  {
    var x := row.tally.stagedAmount - row.tally.postedAmount;
    WrapAdd(x, -x);
    WrapZero(Wrap(x) - x);
  }

  /** In one currency the amount of a row is the debit total of its lines. */
  lemma {:induction false} DebitTotalIsDebits(lines: seq<JournalLine>, currency: string)
    requires forall line | line in lines :: line.currency == currency
    ensures DebitTotal(lines) == Debits(lines, currency)
  {
    if |lines| > 0 {
      assert lines[|lines| - 1] in lines;
      DebitTotalIsDebits(lines[..|lines| - 1], currency);
    }
  }

  /** Reading the query's rows and deriving the verdicts; an amount that does not
      fit fails the whole listing. */
  method ListReconciliation(month: Calendar, db: Db) returns (r: Result<seq<Response>, string>)
    ensures var rows := Query(month, db);
            match r
            case Ok(list) =>
              |list| == |rows| && forall i | 0 <= i < |list| :: Scannable(rows[i]) && list[i] == ToResponse(rows[i])
            case Err(_) => exists i | 0 <= i < |rows| :: !Scannable(rows[i])
  {
    var rows := Query(month, db);
    var list: seq<Response> := [];
    for i := 0 to |rows|
      invariant |list| == i
      invariant forall k | 0 <= k < i :: Scannable(rows[k]) && list[k] == ToResponse(rows[k])
    {
      if !Scannable(rows[i]) { return Err("amount out of range"); }
      list := list + [ToResponse(rows[i])];
    }
    r := Ok(list);
  }

  // The listing partitions the staging table.

  function SumTallies(rows: seq<ReconciliationRow>): Tally {
    if |rows| == 0 then NOTHING else Add(SumTallies(rows[..|rows| - 1]), rows[|rows| - 1].tally)
  }

  function Total(entries: seq<JournalEntry>, rows: seq<StagingRow>): Tally {
    if |rows| == 0 then NOTHING else Add(Total(entries, rows[..|rows| - 1]), TallyOf(entries, rows[|rows| - 1]))
  }

  ghost predicate NoRepeats(groups: seq<Group>) {
    forall i, j | 0 <= i < j < |groups| :: groups[i] != groups[j]
  }

  lemma {:induction false} EmptyTallies(rows: seq<ReconciliationRow>)
    requires forall row | row in rows :: row.tally == NOTHING
    ensures SumTallies(rows) == NOTHING
  {
    if |rows| > 0 { EmptyTallies(rows[..|rows| - 1]); }
  }

  /** One more staging row adds its tally to exactly one of the listed groups. */
  lemma {:induction false} OneMoreRow(
    month: Calendar, entries: seq<JournalEntry>, staging: seq<StagingRow>, row: StagingRow, groups: seq<Group>)
    requires NoRepeats(groups)
    ensures var before := SumTallies(RowsFor(month, entries, staging, groups));
            SumTallies(RowsFor(month, entries, staging + [row], groups)) ==
            if GroupOf(month, row) in groups then Add(before, TallyOf(entries, row)) else before
  {
    assert (staging + [row])[..|staging|] == staging;
    if |groups| > 0 {
      var n := |groups| - 1;
      OneMoreRow(month, entries, staging, row, groups[..n]);
      assert RowsFor(month, entries, staging, groups)[..n] == RowsFor(month, entries, staging, groups[..n]);
      assert RowsFor(month, entries, staging + [row], groups)[..n] ==
             RowsFor(month, entries, staging + [row], groups[..n]);
      assert groups == groups[..n] + [groups[n]];
    }
  }

  lemma {:induction false} TalliesOfAll(
    month: Calendar, entries: seq<JournalEntry>, staging: seq<StagingRow>, groups: seq<Group>)
    requires NoRepeats(groups) && forall row | row in staging :: GroupOf(month, row) in groups
    ensures SumTallies(RowsFor(month, entries, staging, groups)) == Total(entries, staging)
  {
    if |staging| == 0 {
      EmptyTallies(RowsFor(month, entries, staging, groups));
    } else {
      var n := |staging| - 1;
      assert staging == staging[..n] + [staging[n]];
      TalliesOfAll(month, entries, staging[..n], groups);
      OneMoreRow(month, entries, staging[..n], staging[n], groups);
    }
  }

  lemma {:induction false} GroupsCover(month: Calendar, rows: seq<StagingRow>)
    ensures NoRepeats(Groups(month, rows))
    ensures forall row | row in rows :: GroupOf(month, row) in Groups(month, rows)
  {
    if |rows| > 0 {
      var n := |rows| - 1;
      GroupsCover(month, rows[..n]);
      assert rows == rows[..n] + [rows[n]];
    }
  }

  lemma GroupOrder()
    ensures TotalPreorder(GroupLe)
  {
    forall a, b ensures GroupLe(a, b) || GroupLe(b, a) {
      LexTotal(a.sourceSystem, b.sourceSystem);
      LexTotal(a.period, b.period);
    }
    forall a, b, c | GroupLe(a, b) && GroupLe(b, c) ensures GroupLe(a, c) {
      LexTotal(a.period, b.period);
      LexTotal(b.period, c.period);
      LexTotal(a.period, c.period);
      if a.period == b.period && b.period == c.period {
        LexTransitive(a.sourceSystem, b.sourceSystem, c.sourceSystem);
      } else {
        LexTransitive(c.period, b.period, a.period);
      }
    }
  }

  /** The listing has each group once, latest month first, and together accounts for every staging
      row exactly once: its columns add up to those of the whole table. */
  lemma ListingPartitions(month: Calendar, db: Db)
    ensures var rows := Query(month, db);
            && (forall i, j | 0 <= i < j < |rows| ::
                  && rows[i].group != rows[j].group
                  && if rows[i].group.period == rows[j].group.period
                     then LexLe(rows[i].group.sourceSystem, rows[j].group.sourceSystem)
                     else LexLe(rows[j].group.period, rows[i].group.period))
            && SumTallies(rows) == Total(db.ledger.entries, db.staging)
  {
    var sorted := Sort(Groups(month, db.staging), GroupLe);
    SortedGroups(month, db.staging);
    forall i, j | 0 <= i < j < |sorted|
      ensures sorted[i] != sorted[j] && GroupLe(sorted[i], sorted[j])
    {
      assert sorted[i] != sorted[j];
    }
    TalliesOfAll(month, db.ledger.entries, db.staging, sorted);
  }

  lemma SortedGroups(month: Calendar, staging: seq<StagingRow>)
    ensures var sorted := Sort(Groups(month, staging), GroupLe);
            NoRepeats(sorted) && Sorted(sorted, GroupLe) && forall row | row in staging :: GroupOf(month, row) in sorted
  {
    var groups := Groups(month, staging);
    var sorted := Sort(groups, GroupLe);
    GroupsCover(month, staging);
    GroupOrder();
    SortCorrect(groups, GroupLe);
    SortDistinct(groups, GroupLe, Itself);
    forall g | g in groups ensures g in sorted { assert g in multiset(groups) && g in multiset(sorted); }
    forall i, j | 0 <= i < j < |sorted| ensures sorted[i] != sorted[j] {
      assert Itself(sorted[i]) != Itself(sorted[j]);
    }
  }

  function Itself(g: Group): Group {
    g
  }

  // Clean by construction.

  /** Rows are POSTED or QUARANTINED, and so are the outcomes about to become rows. */
  ghost predicate TwoStatuses(p: Pool) {
    && (forall row | row in p.db.staging :: row.status != Duplicate)
    && (forall w | w in p.workers :: p.workers[w].PostDone? ==> p.workers[w].o.status != Duplicate)
  }

  lemma {:induction false} RunTwoStatuses(env: Env, events: seq<Event>)
    ensures TwoStatuses(RunPool(env, IDLE_POOL, events))
  {
    if |events| > 0 {
      RunTwoStatuses(env, events[..|events| - 1]);
      var p := RunPool(env, IDLE_POOL, events[..|events| - 1]);
      match events[|events| - 1]
      case RecordIt(w, fate) =>
        var worker := WorkerAt(p, w);
        if worker.PostDone? {
          forall row | row in Staging.Insert(p.db.staging, RowFor(worker.r, worker.o)) ensures row.status != Duplicate {
            assert row in p.db.staging || row == RowFor(worker.r, worker.o);
          }
        }
      case _ =>
    }
  }

  lemma {:induction false} CountsAdd(month: Calendar, entries: seq<JournalEntry>, rows: seq<StagingRow>, g: Group)
    requires forall row | row in rows :: row.status != Duplicate
    ensures var t := TallyGroup(month, entries, rows, g); t.posted + t.quarantined == t.staged && t.quarantined >= 0
  {
    if |rows| > 0 { CountsAdd(month, entries, rows[..|rows| - 1], g); }
  }

  /** Who may post what: `owner` ties a key to one entry id; records of the ids in
      `staged` carry exactly the lines `linesOf` gives, and so does any entry
      posted under such an id from elsewhere. */
  datatype Discipline = Discipline(owner: string -> string, staged: string -> bool, linesOf: string -> seq<JournalLine>)

  ghost predicate RecordOk(d: Discipline, r: StagingRecord) {
    d.staged(DeriveEntryId(r)) && r.lines == d.linesOf(DeriveEntryId(r))
  }

  ghost predicate EntryOk(d: Discipline, e: JournalEntry) {
    d.staged(e.id) ==> e.lines == d.linesOf(e.id)
  }

  ghost predicate Disciplined(d: Discipline, ev: Event) {
    && Respects(d.owner, ev)
    && match ev
       case Probe(_, r) => RecordOk(d, r)
       case Elsewhere(Post(e, _)) => EntryOk(d, e)
       case _ => true
  }

  ghost predicate SameLines(d: Discipline, p: Pool) {
    && (forall e | e in p.db.ledger.entries :: EntryOk(d, e))
    && (forall row | row in p.db.staging :: RecordOk(d, row.record))
    && (forall w | w in p.workers :: !p.workers[w].Ready? ==> RecordOk(d, p.workers[w].r))
  }

  lemma PostSameLines(d: Discipline, env: Env, s: LedgerState, e: JournalEntry, fate: TxFate)
    requires EntryOk(d, e) && forall x | x in s.entries :: EntryOk(d, x)
    ensures forall x | x in Posted(env, s, e, fate).state.entries :: EntryOk(d, x)
  {
    PostedAllOrNothing(env, s, e, fate);
  }

  lemma NextSameLines(d: Discipline, env: Env, p: Pool, ev: Event)
    requires SameLines(d, p) && Disciplined(d, ev)
    ensures SameLines(d, Next(env, p, ev))
  {
    match ev
    case PostIt(w, fate) =>
      var worker := WorkerAt(p, w);
      if worker.Probed? { PostSameLines(d, env, p.db.ledger, ToJournalEntry(worker.r), fate); }
    case RecordIt(w, fate) =>
      var worker := WorkerAt(p, w);
      if worker.PostDone? {
        forall row | row in Staging.Insert(p.db.staging, RowFor(worker.r, worker.o)) ensures RecordOk(d, row.record) {
          assert row in p.db.staging || row == RowFor(worker.r, worker.o);
        }
      }
    case Elsewhere(step) =>
      if step.Post? { PostSameLines(d, env, p.db.ledger, step.entry, step.fate); }
    case _ =>
  }

  lemma {:induction false} RunSameLines(d: Discipline, env: Env, events: seq<Event>)
    requires forall ev | ev in events :: Disciplined(d, ev)
    ensures SameLines(d, RunPool(env, IDLE_POOL, events))
  {
    if |events| > 0 {
      RunSameLines(d, env, events[..|events| - 1]);
      assert events[|events| - 1] in events;
      NextSameLines(d, env, RunPool(env, IDLE_POOL, events[..|events| - 1]), events[|events| - 1]);
    }
  }

  /** Entry ids are unique, so the join finds exactly the entry's own lines. */
  lemma {:induction false} PostedDebitsOf(entries: seq<JournalEntry>, e: JournalEntry)
    requires UniqueIds(entries) && e in entries
    ensures PostedDebits(entries, e.id) == DebitTotal(e.lines)
  {
    var n := |entries| - 1;
    assert entries == entries[..n] + [entries[n]];
    if e == entries[n] {
      NothingPosted(entries[..n], e.id);
    } else {
      var i :| 0 <= i < n && entries[i] == e;
      assert entries[..n][i] == e;
      PostedDebitsOf(entries[..n], e);
    }
  }

  lemma {:induction false} NothingPosted(entries: seq<JournalEntry>, id: string)
    requires forall e | e in entries :: e.id != id
    ensures PostedDebits(entries, id) == 0
  {
    if |entries| > 0 { NothingPosted(entries[..|entries| - 1], id); }
  }

  lemma RowBalances(d: Discipline, db: Db, row: StagingRow)
    requires UniqueIds(db.ledger.entries) && RowNamesEntry(db, row) && RecordOk(d, row.record)
    requires forall e | e in db.ledger.entries :: EntryOk(d, e)
    ensures TallyOf(db.ledger.entries, row).stagedAmount == TallyOf(db.ledger.entries, row).postedAmount
  {
    if row.status == Accepted {
      var e :| e in db.ledger.entries && e.id == row.entryId;
      PostedDebitsOf(db.ledger.entries, e);
      assert |row.entryId| > 0;
    }
  }

  lemma {:induction false} GroupBalances(
    month: Calendar, d: Discipline, db: Db, rows: seq<StagingRow>, g: Group)
    requires UniqueIds(db.ledger.entries) && forall e | e in db.ledger.entries :: EntryOk(d, e)
    requires forall row | row in rows :: RowNamesEntry(db, row) && RecordOk(d, row.record)
    ensures var t := TallyGroup(month, db.ledger.entries, rows, g); t.stagedAmount == t.postedAmount
  {
    if |rows| > 0 {
      var n := |rows| - 1;
      GroupBalances(month, d, db, rows[..n], g);
      assert rows[n] in rows;
      RowBalances(d, db, rows[n]);
    }
  }

  /** In every state any disciplined interleaving reaches, with redeliveries,
      crashes and postings from elsewhere, every group reconciles to zero and its
      posted and quarantined counts add up to the staged count. */
  lemma CleanByConstruction(month: Calendar, d: Discipline, env: Env, events: seq<Event>, g: Group)
    requires forall ev | ev in events :: Disciplined(d, ev)
    ensures var db := RunPool(env, IDLE_POOL, events).db;
            var t := TallyGroup(month, db.ledger.entries, db.staging, g);
            t.stagedAmount == t.postedAmount && t.posted + t.quarantined == t.staged && t.quarantined >= 0
  {
    var p := RunPool(env, IDLE_POOL, events);
    IngestionConsistent(d.owner, env, events);
    RunSameLines(d, env, events);
    RunTwoStatuses(env, events);
    CountsAdd(month, p.db.ledger.entries, p.db.staging, g);
    GroupBalances(month, d, p.db, p.db.staging, g);
  }

  /** So no group of the listing ever reads DISCREPANCY, and it reads MATCHED
      exactly when nothing in it is quarantined. */
  lemma ListingReadsClean(month: Calendar, d: Discipline, env: Env, events: seq<Event>, i: nat)
    requires forall ev | ev in events :: Disciplined(d, ev)
    requires i < |Query(month, RunPool(env, IDLE_POOL, events).db)|
    requires Scannable(Query(month, RunPool(env, IDLE_POOL, events).db)[i])
    ensures var row := Query(month, RunPool(env, IDLE_POOL, events).db)[i];
            ToResponse(row).status == if row.tally.quarantined == 0 then Matched else Attention
  {
    var row := Query(month, RunPool(env, IDLE_POOL, events).db)[i];
    CleanByConstruction(month, d, env, events, row.group);
    VerdictExact(row);
  }

  /** A record the journal would accept, new to staging, under the id of an
      entry already posted. */
  ghost predicate Amends(env: Env, db: Db, r: StagingRecord, e: JournalEntry) {
    && Books(db.ledger) && e in db.ledger.entries && e.id == DeriveEntryId(r)
    && Validate(ToJournalEntry(r)).None? && StoresRecord(env, r) && StoresDerived(env, r)
    && Find(db.staging, r.sourceHash).None?
  }

  lemma AmendmentIsRecorded(env: Env, db: Db, r: StagingRecord, e: JournalEntry)
    requires Amends(env, db, r, e)
    ensures Ingested(env, db, r, SMOOTH).db ==
            db.(staging := db.staging + [StagingRow(r, Accepted, None, DeriveEntryId(r))])
  {
    assert e.id in Ids(db.ledger.entries);
    assert Posted(env, db.ledger, ToJournalEntry(r), Committed) == PostOutcome(db.ledger, Some(DuplicateTransaction));
  }

  /** Without that discipline: an amended record, with another hash but the id of
      an entry already posted, gets a POSTED row and moves its group by the
      difference of the two amounts. */
  lemma AmendmentShows(env: Env, db: Db, r: StagingRecord, e: JournalEntry, month: Calendar, g: Group)
    requires Amends(env, db, r, e)
    ensures var after := Ingested(env, db, r, SMOOTH).db;
            && after.ledger == db.ledger
            && TallyGroup(month, after.ledger.entries, after.staging, g) ==
               var before := TallyGroup(month, db.ledger.entries, db.staging, g);
               if Group(r.sourceSystem, month(r.occurredAt)) != g then before
               else Add(before, Tally(1, 1, 0, DebitTotal(r.lines), DebitTotal(e.lines)))
  {
    AmendmentIsRecorded(env, db, r, e);
    var row := StagingRow(r, Accepted, None, DeriveEntryId(r));
    TallyAfter(month, db.ledger.entries, db.staging, row, g);
    AmendmentTally(db.ledger.entries, r, e);
  }

  lemma TallyAfter(month: Calendar, entries: seq<JournalEntry>, staging: seq<StagingRow>, row: StagingRow, g: Group)
    ensures TallyGroup(month, entries, staging + [row], g) ==
            var before := TallyGroup(month, entries, staging, g);
            if GroupOf(month, row) == g then Add(before, TallyOf(entries, row)) else before
  {
    assert (staging + [row])[..|staging|] == staging;
  }

  lemma AmendmentTally(entries: seq<JournalEntry>, r: StagingRecord, e: JournalEntry)
    requires UniqueIds(entries) && e in entries && e.id == DeriveEntryId(r)
    ensures TallyOf(entries, StagingRow(r, Accepted, None, DeriveEntryId(r))) ==
            Tally(1, 1, 0, DebitTotal(r.lines), DebitTotal(e.lines))
  {
    PostedDebitsOf(entries, e);
    assert |DeriveEntryId(r)| > 0;
  }

  /** In a group that reads MATCHED, one amendment turns the verdict to
      DISCREPANCY exactly when its amount differs from the posted one. */
  lemma AmendmentFoundIff(env: Env, db: Db, r: StagingRecord, e: JournalEntry, month: Calendar)
    requires Amends(env, db, r, e)
    requires var g := Group(r.sourceSystem, month(r.occurredAt));
             var t := TallyGroup(month, db.ledger.entries, db.staging, g);
             t.stagedAmount == t.postedAmount && t.quarantined == 0
    ensures var g := Group(r.sourceSystem, month(r.occurredAt));
            var after := Ingested(env, db, r, SMOOTH).db;
            var row := ReconciliationRow(g, TallyGroup(month, after.ledger.entries, after.staging, g));
            Scannable(row) ==>
              ToResponse(row).status == if DebitTotal(r.lines) != DebitTotal(e.lines) then Discrepancy else Matched
  {
    var g := Group(r.sourceSystem, month(r.occurredAt));
    AmendmentShows(env, db, r, e, month, g);
    var after := Ingested(env, db, r, SMOOTH).db;
    var row := ReconciliationRow(g, TallyGroup(month, after.ledger.entries, after.staging, g));
    if Scannable(row) { VerdictExact(row); }
  }

  lemma StillAmends(env: Env, db: Db, r: StagingRecord, e: JournalEntry, s: StagingRecord, f: JournalEntry)
    requires Amends(env, db, r, e) && Amends(env, db, s, f) && r.sourceHash != s.sourceHash
    ensures Amends(env, Ingested(env, db, r, SMOOTH).db, s, f)
  {
    AmendmentIsRecorded(env, db, r, e);
    var row := StagingRow(r, Accepted, None, DeriveEntryId(r));
    assert (db.staging + [row])[..|db.staging|] == db.staging;
  }

  /** Hence MATCHED is a statement about sums only: two amendments that cancel
      leave a balanced group balanced, though neither was posted. */
  lemma AmendmentsCancel(
    env: Env, db: Db, r: StagingRecord, e: JournalEntry, s: StagingRecord, f: JournalEntry, month: Calendar, g: Group)
    requires Amends(env, db, r, e) && Amends(env, db, s, f) && r.sourceHash != s.sourceHash
    requires Group(r.sourceSystem, month(r.occurredAt)) == g == Group(s.sourceSystem, month(s.occurredAt))
    requires DebitTotal(r.lines) - DebitTotal(e.lines) == DebitTotal(f.lines) - DebitTotal(s.lines)
    ensures var after := Ingested(env, Ingested(env, db, r, SMOOTH).db, s, SMOOTH).db;
            var t, u := TallyGroup(month, db.ledger.entries, db.staging, g),
                        TallyGroup(month, after.ledger.entries, after.staging, g);
            after.ledger == db.ledger && u.staged == t.staged + 2 && u.quarantined == t.quarantined
            && u.stagedAmount - u.postedAmount == t.stagedAmount - t.postedAmount
  {
    var mid := Ingested(env, db, r, SMOOTH).db;
    AmendmentShows(env, db, r, e, month, g);
    StillAmends(env, db, r, e, s, f);
    AmendmentShows(env, mid, s, f, month, g);
  }
}

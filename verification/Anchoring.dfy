/** The ledger gateway: load a batch of unanchored entries, commit its Merkle
    root to the backend it runs on, record one inclusion proof per entry. */
module Anchoring {
  import opened Wrappers
  import opened Text
  import opened Sorting
  import opened Hashing
  import C = Canonical
  import opened Merkle
  import opened MerkleSoundness
  import opened Journal
  import opened TransparencyLog
  import F = Fabric

  datatype ProofRow = ProofRow(anchorId: string, leafIndex: int, leafHash: string, proof: seq<ProofStep>)

  datatype AnchorRow = AnchorRow(merkleRoot: string, entryCount: int, backend: string, backendRef: string)

  type Proofs = map<string, ProofRow>
  type Anchors = map<string, AnchorRow>
  type Stamps = map<string, int>

  /** The public view of a stored entry: what gets hashed. */
  function PublicLine(line: JournalLine): C.Line {
    C.Line(line.accountCode, line.direction, line.amountMinor, line.currency)
  }

  function PublicEntry(row: JournalEntry): C.Entry {
    C.Entry(row.id, row.institutionId, row.fiscalYear, row.effectiveDate, row.status, row.entryType,
            Map(PublicLine, row.lines))
  }

  function Header(row: JournalEntry): C.Entry {
    PublicEntry(row).(lines := [])
  }

  // The queries.

  /** Entries without a proof row. */
  function Unanchored(entries: seq<JournalEntry>, proofs: Proofs): seq<JournalEntry> {
    if |entries| == 0 then []
    else
      var last := entries[|entries| - 1];
      Unanchored(entries[..|entries| - 1], proofs) + (if last.id in proofs then [] else [last])
  }

  predicate OlderOrSame(stamps: Stamps, x: JournalEntry, y: JournalEntry) {
    var a, b := (if x.id in stamps then stamps[x.id] else 0), (if y.id in stamps then stamps[y.id] else 0);
    a < b || (a == b && LexLe(x.id, y.id))
  }

  /** ORDER BY created_at, id. */
  function Age(stamps: Stamps): (JournalEntry, JournalEntry) -> bool {
    (x, y) => OlderOrSame(stamps, x, y)
  }

  function Pending(entries: seq<JournalEntry>, stamps: Stamps, proofs: Proofs): seq<JournalEntry> {
    Sort(Unanchored(entries, proofs), Age(stamps))
  }

  function Take<T>(s: seq<T>, n: nat): seq<T> {
    if |s| <= n then s else s[..n]
  }

  /** The first query: headers of the oldest unanchored entries. */
  function HeaderQuery(entries: seq<JournalEntry>, stamps: Stamps, proofs: Proofs, limit: nat): seq<C.Entry> {
    Map(Header, Take(Pending(entries, stamps, proofs), limit))
  }

  datatype LineRow = LineRow(entryId: string, line: C.Line)

  function LineRowsOf(id: string, lines: seq<JournalLine>): (r: seq<LineRow>)
    ensures |r| == |lines| && forall i | 0 <= i < |r| :: r[i] == LineRow(id, PublicLine(lines[i]))
  {
    seq(|lines|, i requires 0 <= i < |lines| => LineRow(id, PublicLine(lines[i])))
  }

  /** The second query: the lines of the given entries, each entry's lines in
      line order. Rows are told apart by entry id, so the order of the groups
      does not matter. */
  function LineQuery(entries: seq<JournalEntry>, ids: set<string>): seq<LineRow> {
    if |entries| == 0 then []
    else
      var last := entries[|entries| - 1];
      LineQuery(entries[..|entries| - 1], ids) + (if last.id in ids then LineRowsOf(last.id, last.lines) else [])
  }

  function LinesFor(rows: seq<LineRow>, id: string): seq<C.Line> {
    if |rows| == 0 then []
    else
      var last := rows[|rows| - 1];
      LinesFor(rows[..|rows| - 1], id) + (if last.entryId == id then [last.line] else [])
  }

  function HeaderIds(headers: seq<C.Entry>): set<string> {
    set h | h in headers :: h.id
  }

  /** Headers with their lines attached. */
  function Hydrated(headers: seq<C.Entry>, rows: seq<LineRow>): (r: seq<C.Entry>)
    ensures |r| == |headers|
    ensures forall i | 0 <= i < |r| :: r[i] == headers[i].(lines := LinesFor(rows, headers[i].id))
  {
    seq(|headers|, i requires 0 <= i < |headers| => headers[i].(lines := LinesFor(rows, headers[i].id)))
  }

  function Leaves(H: Hasher, batch: seq<C.Entry>): seq<string> {
    LeafHashes(H, CanonicalStrings(batch))
  }

  // What recording a batch writes.

  function BatchRows(H: Hasher, batch: seq<C.Entry>, anchorId: string): (r: seq<ProofRow>)
    ensures |r| == |batch|
    ensures forall i | 0 <= i < |r| ::
              r[i] == ProofRow(anchorId, i, H(C.CanonicalString(batch[i])), ProofFor(H, Leaves(H, batch), i))
  {
    var leaves := Leaves(H, batch);
    seq(|batch|, i requires 0 <= i < |batch| => ProofRow(anchorId, i, leaves[i], ProofFor(H, leaves, i)))
  }

  /** The table after the first n inserts; an entry already proven is skipped. */
  function RecordProofs(proofs: Proofs, batch: seq<C.Entry>, rows: seq<ProofRow>, n: nat): Proofs
    requires n <= |batch| == |rows|
  {
    if n == 0 then proofs
    else
      var earlier := RecordProofs(proofs, batch, rows, n - 1);
      if batch[n - 1].id in earlier then earlier else earlier[batch[n - 1].id := rows[n - 1]]
  }

  lemma NextInsert(proofs: Proofs, batch: seq<C.Entry>, rows: seq<ProofRow>, i: nat, row: ProofRow)
    requires i < |batch| == |rows| && row == rows[i]
    ensures var earlier := RecordProofs(proofs, batch, rows, i);
            RecordProofs(proofs, batch, rows, i + 1) ==
            if batch[i].id in earlier then earlier else earlier[batch[i].id := row]
  {
  }

  /** Rows that were there stay; each other entry of the batch gets its own row. */
  lemma {:induction false} RecordedRows(proofs: Proofs, batch: seq<C.Entry>, rows: seq<ProofRow>, n: nat)
    requires n <= |batch| == |rows|
    ensures var r := RecordProofs(proofs, batch, rows, n);
            && (forall id | id in proofs :: id in r && r[id] == proofs[id])
            && (forall i | 0 <= i < n :: batch[i].id in r)
            && (forall id | id in r && id !in proofs :: exists i :: 0 <= i < n && batch[i].id == id && r[id] == rows[i])
  {
    if n > 0 { RecordedRows(proofs, batch, rows, n - 1); }
  }

  // Loading is faithful.

  lemma {:induction false} LinesForConcat(a: seq<LineRow>, b: seq<LineRow>, id: string)
    ensures LinesFor(a + b, id) == LinesFor(a, id) + LinesFor(b, id)
  {
    if |b| == 0 {
      assert a + b == a;
    } else {
      assert (a + b)[..|a + b| - 1] == a + b[..|b| - 1];
      LinesForConcat(a, b[..|b| - 1], id);
    }
  }

  lemma {:induction false} LinesForOne(owner: string, lines: seq<JournalLine>, id: string)
    ensures LinesFor(LineRowsOf(owner, lines), id) == if id == owner then Map(PublicLine, lines) else []
  {
    if |lines| > 0 {
      var n := |lines| - 1;
      LinesForOne(owner, lines[..n], id);
      assert LineRowsOf(owner, lines)[..n] == LineRowsOf(owner, lines[..n]);
      assert Map(PublicLine, lines) == Map(PublicLine, lines[..n]) + [PublicLine(lines[n])];
    }
  }

  lemma LastGroup(entries: seq<JournalEntry>, ids: set<string>, id: string)
    requires |entries| > 0
    ensures var n := |entries| - 1;
            LinesFor(LineQuery(entries, ids), id) ==
            LinesFor(LineQuery(entries[..n], ids), id) +
            (if entries[n].id in ids then LinesFor(LineRowsOf(entries[n].id, entries[n].lines), id) else [])
  {
    var n := |entries| - 1;
    var earlier := LineQuery(entries[..n], ids);
    if entries[n].id in ids {
      LinesForConcat(earlier, LineRowsOf(entries[n].id, entries[n].lines), id);
    } else {
      assert LineQuery(entries, ids) == earlier;
    }
  }

  lemma {:induction false} NoLines(entries: seq<JournalEntry>, ids: set<string>, id: string)
    requires forall e | e in entries :: e.id != id
    ensures LinesFor(LineQuery(entries, ids), id) == []
  {
    if |entries| > 0 {
      var n := |entries| - 1;
      NoLines(entries[..n], ids, id);
      assert entries[n] in entries;
      LinesForOne(entries[n].id, entries[n].lines, id);
      LastGroup(entries, ids, id);
    }
  }

  /** The lines found for an entry are that entry's lines. */
  lemma {:induction false} LinesOfEntry(entries: seq<JournalEntry>, ids: set<string>, k: nat)
    requires UniqueIds(entries) && k < |entries| && entries[k].id in ids
    ensures LinesFor(LineQuery(entries, ids), entries[k].id) == Map(PublicLine, entries[k].lines)
  {
    var n := |entries| - 1;
    var id := entries[k].id;
    LinesForOne(entries[n].id, entries[n].lines, id);
    LastGroup(entries, ids, id);
    if k == n {
      assert forall e | e in entries[..n] :: e.id != id;
      NoLines(entries[..n], ids, id);
    } else {
      assert entries[n].id != id && entries[..n][k] == entries[k];
      LinesOfEntry(entries[..n], ids, k);
    }
  }

  /** A header whose lines are read from any later journal becomes the public
      view of its entry: entries are never changed in between. */
  lemma HydratedIsPublic(entries: seq<JournalEntry>, headers: seq<C.Entry>, i: nat, k: nat)
    requires UniqueIds(entries) && i < |headers| && k < |entries| && headers[i] == Header(entries[k])
    ensures Hydrated(headers, LineQuery(entries, HeaderIds(headers)))[i] == PublicEntry(entries[k])
  {
    assert headers[i] in headers;
    LinesOfEntry(entries, HeaderIds(headers), k);
  }

  // What a batch is.

  lemma AgeOrder(stamps: Stamps)
    ensures TotalPreorder(Age(stamps))
  {
    forall x, y ensures OlderOrSame(stamps, x, y) || OlderOrSame(stamps, y, x) { LexTotal(x.id, y.id); }
    forall x, y, z | OlderOrSame(stamps, x, y) && OlderOrSame(stamps, y, z) ensures OlderOrSame(stamps, x, z) {
      if LexLe(x.id, y.id) && LexLe(y.id, z.id) { LexTransitive(x.id, y.id, z.id); }
    }
  }

  function RowId(row: JournalEntry): string {
    row.id
  }

  lemma {:induction false} UnanchoredRows(entries: seq<JournalEntry>, proofs: Proofs)
    requires UniqueIds(entries)
    ensures DistinctBy(Unanchored(entries, proofs), RowId)
    ensures forall e :: e in Unanchored(entries, proofs) <==> e in entries && e.id !in proofs
  {
    if |entries| > 0 {
      var n := |entries| - 1;
      UnanchoredRows(entries[..n], proofs);
      assert entries == entries[..n] + [entries[n]];
      var earlier := Unanchored(entries[..n], proofs);
      forall i | 0 <= i < |earlier| ensures earlier[i].id != entries[n].id {
        assert earlier[i] in entries[..n];
      }
    }
  }

  /** The batch a query selects: distinct unanchored entries, as many as the
      limit allows. */
  lemma SelectedRows(entries: seq<JournalEntry>, stamps: Stamps, proofs: Proofs, limit: nat)
    requires UniqueIds(entries)
    ensures var all := Unanchored(entries, proofs);
            var batch := Take(Pending(entries, stamps, proofs), limit);
            && |batch| == (if |all| <= limit then |all| else limit)
            && DistinctBy(batch, RowId) && (forall e | e in batch :: e in all)
  {
    var all, pending := Unanchored(entries, proofs), Pending(entries, stamps, proofs);
    UnanchoredRows(entries, proofs);
    AgeOrder(stamps);
    SortCorrect(all, Age(stamps));
    SortDistinct(all, Age(stamps), RowId);
    var batch := Take(pending, limit);
    forall e | e in batch ensures e in all {
      assert e in multiset(pending);
    }
  }

  /** No older entry is left behind. */
  lemma OldestFirst(
    entries: seq<JournalEntry>, stamps: Stamps, proofs: Proofs, limit: nat, e: JournalEntry, f: JournalEntry)
    requires e in Take(Pending(entries, stamps, proofs), limit)
    requires f in Unanchored(entries, proofs) && f !in Take(Pending(entries, stamps, proofs), limit)
    ensures OlderOrSame(stamps, e, f)
  {
    var all, pending := Unanchored(entries, proofs), Pending(entries, stamps, proofs);
    AgeOrder(stamps);
    SortCorrect(all, Age(stamps));
    assert f in multiset(pending);
    PrefixBelow(pending, Age(stamps), limit, e, f);
  }

  lemma HeadersDistinct(entries: seq<JournalEntry>, stamps: Stamps, proofs: Proofs, limit: nat)
    requires UniqueIds(entries)
    ensures var headers := HeaderQuery(entries, stamps, proofs, limit);
            && (forall h | h in headers :: h.lines == [])
            && forall i, j | 0 <= i < j < |headers| :: headers[i].id != headers[j].id
  {
    SelectedRows(entries, stamps, proofs, limit);
  }

  // The service.

  const BATCH_SIZE: nat := 500

  /** The batch one run of AnchorPending works on. */
  function Batch(entries: seq<JournalEntry>, stamps: Stamps, proofs: Proofs): seq<C.Entry> {
    var headers := HeaderQuery(entries, stamps, proofs, BATCH_SIZE);
    Hydrated(headers, LineQuery(entries, HeaderIds(headers)))
  }

  datatype Tables = Tables(proofs: Proofs, anchors: Anchors)

  /** What recording a committed batch leaves in the two anchoring tables. */
  function Recorded(H: Hasher, t: Tables, batch: seq<C.Entry>, anchorId: string, backend: string, ref: string): Tables {
    Tables(RecordProofs(t.proofs, batch, BatchRows(H, batch, anchorId), |batch|),
           t.anchors[anchorId := AnchorRow(MerkleRoot(H, Leaves(H, batch)), |batch|, backend, ref)])
  }

  /** Which of its two halves a run failed in. */
  datatype AnchorError = CommittingRoot(text: string) | Recording

  datatype RecordOutcome = RecordOutcome(tables: Tables, result: Result<int, AnchorError>)

  /** After the backend's answer: the anchor row and all proof rows in one
      transaction, or nothing. */
  function RecordBatch(
    H: Hasher, batch: seq<C.Entry>, t: Tables, answer: Result<string, string>, backend: string, anchorId: string,
    fate: TxFate): RecordOutcome
  {
    match answer
    case Err(text) => RecordOutcome(t, Err(CommittingRoot(text)))
    case Ok(ref) =>
      if anchorId in t.anchors || fate == RolledBack then RecordOutcome(t, Err(Recording))
      else
        RecordOutcome(Recorded(H, t, batch, anchorId, backend, ref),
                      if fate == AckLost then Err(Recording) else Ok(|batch|))
  }

  const TLOG := "transparency-log"
  const FABRIC := "fabric"

  /** What the two backends hold. */
  datatype Ledgers = Ledgers(log: seq<LogRow>, chain: F.Ledger)

  /** A commit: on which backend, and what befalls it. */
  datatype Commit = ToLog(fate: TxFate) | ToChain(delivery: F.Delivery, channel: string, now: string)

  function BackendName(c: Commit): string {
    if c.ToLog? then TLOG else FABRIC
  }

  /** What the backend answers to a root. */
  function Answer(b: Ledgers, root: string, c: Commit): Result<string, string> {
    match c
    case ToLog(fate) => if fate == Committed then Ok("tlog:" + Decimal(NextSequence(b.log))) else Err("commit failed")
    case ToChain(delivery, channel, _) => F.CommitResult(b.chain, channel, root, delivery)
  }

  /** What the backends hold afterwards. */
  function AfterCommit(logHash: Hasher, b: Ledgers, root: string, entryCount: int, c: Commit): Ledgers {
    match c
    case ToLog(fate) => if fate == RolledBack then b else b.(log := b.log + [RowFrom(logHash, b.log, b.log, root)])
    case ToChain(delivery, _, now) => b.(chain := F.Reached(b.chain, root, entryCount, delivery, now))
  }

  datatype PendingOutcome = PendingOutcome(tables: Tables, ledgers: Ledgers, result: Result<int, AnchorError>)

  /** From a loaded batch on: commit the root, then record the proofs. */
  function FinishBatch(
    H: Hasher, logHash: Hasher, batch: seq<C.Entry>, t: Tables, b: Ledgers, anchorId: string, c: Commit, fate: TxFate)
    : PendingOutcome
  {
    var root := MerkleRoot(H, Leaves(H, batch));
    var recorded := RecordBatch(H, batch, t, Answer(b, root, c), BackendName(c), anchorId, fate);
    PendingOutcome(recorded.tables, AfterCommit(logHash, b, root, |batch|, c), recorded.result)
  }

  /** The specification of AnchorPending, over either backend. */
  function PendingRun(
    H: Hasher, logHash: Hasher, entries: seq<JournalEntry>, stamps: Stamps, t: Tables, b: Ledgers,
    anchorId: string, c: Commit, fate: TxFate): PendingOutcome
  {
    var batch := Batch(entries, stamps, t.proofs);
    if batch == [] then PendingOutcome(t, b, Ok(0))
    else FinishBatch(H, logHash, batch, t, b, anchorId, c, fate)
  }

  lemma PendingOf(
    H: Hasher, logHash: Hasher, entries: seq<JournalEntry>, stamps: Stamps, t: Tables, b: Ledgers,
    anchorId: string, c: Commit, fate: TxFate, batch: seq<C.Entry>)
    requires batch == Batch(entries, stamps, t.proofs)
    ensures PendingRun(H, logHash, entries, stamps, t, b, anchorId, c, fate) ==
            if |batch| == 0 then PendingOutcome(t, b, Ok(0))
            else FinishBatch(H, logHash, batch, t, b, anchorId, c, fate)
  {
  }

  /** What befalls a commit on whichever backend the gateway runs. */
  datatype CommitFate = CommitFate(logFate: TxFate, delivery: F.Delivery, now: string)

  /** The backend a gateway was started with. */
  datatype Backend = OnLog(log: Log) | OnChain(fabric: F.FabricBackend) {
    function Objects(): set<object> {
      match this
      case OnLog(log) => {log}
      case OnChain(fabric) => {fabric.contract}
    }

    function State(): Ledgers
      reads Objects()
    {
      match this
      case OnLog(log) => Ledgers(log.rows, map[])
      case OnChain(fabric) => Ledgers([], fabric.contract.state)
    }

    function Hash(H: Hasher): Hasher {
      if OnLog? then log.H else H
    }

    function Call(fate: CommitFate): Commit {
      if OnLog? then ToLog(fate.logFate) else ToChain(fate.delivery, fabric.channel, fate.now)
    }

    method CommitRoot(H: Hasher, root: string, entryCount: int, fate: CommitFate) returns (r: Result<string, string>)
      modifies Objects()
      ensures r == Answer(old(State()), root, Call(fate))
      ensures State() == AfterCommit(Hash(H), old(State()), root, entryCount, Call(fate))
    {
      match this
      case OnLog(log) => r := log.Commit(root, entryCount, fate.logFate);
      case OnChain(fabric) => r := fabric.Commit(root, entryCount, fate.delivery, fate.now);
    }
  }

  class AnchorService {
    const H: Hasher
    const backend: Backend
    var entries: seq<JournalEntry>
    var stamps: Stamps
    var proofs: Proofs
    var anchors: Anchors

    constructor (H: Hasher, backend: Backend, entries: seq<JournalEntry>, stamps: Stamps)
      ensures this.H == H && this.backend == backend && this.entries == entries && this.stamps == stamps
      ensures proofs == map[] && anchors == map[]
    {
      this.H, this.backend, this.entries, this.stamps := H, backend, entries, stamps;
      proofs, anchors := map[], map[];
    }

    method CountUnanchored() returns (count: int)
      ensures count == |Unanchored(entries, proofs)|
    {
      count := 0;
      for i := 0 to |entries|
        invariant count == |Unanchored(entries[..i], proofs)|
      {
        assert entries[..i + 1][..i] == entries[..i];
        if entries[i].id !in proofs { count := count + 1; }
      }
      assert entries[..|entries|] == entries;
    }

    method LoadUnanchored() returns (loaded: seq<C.Entry>)
      requires UniqueIds(entries)
      ensures loaded == Batch(entries, stamps, proofs)
    {
      var headers := HeaderQuery(entries, stamps, proofs, BATCH_SIZE);
      var rows := LineQuery(entries, HeaderIds(headers));
      HeadersDistinct(entries, stamps, proofs, BATCH_SIZE);
      loaded := AttachLines(headers, rows);
    }

    /** Dispatches the line rows to their entries through an index by id. */
    static method AttachLines(headers: seq<C.Entry>, rows: seq<LineRow>) returns (loaded: seq<C.Entry>)
      requires forall h | h in headers :: h.lines == []
      requires forall i, j | 0 <= i < j < |headers| :: headers[i].id != headers[j].id
      ensures loaded == Hydrated(headers, rows)
    {
      var byId: map<string, nat> := map[];
      for i := 0 to |headers|
        invariant forall k | 0 <= k < i :: headers[k].id in byId && byId[headers[k].id] == k
        invariant forall id | id in byId :: byId[id] < i && headers[byId[id]].id == id
      {
        byId := byId[headers[i].id := i];
      }
      loaded := headers;
      assert rows[..0] == [];
      forall i | 0 <= i < |headers| ensures headers[i].lines == [] { assert headers[i] in headers; }
      for r := 0 to |rows|
        invariant |loaded| == |headers|
        invariant forall i | 0 <= i < |headers| :: loaded[i] == headers[i].(lines := LinesFor(rows[..r], headers[i].id))
      {
        assert rows[..r + 1][..r] == rows[..r];
        var row := rows[r];
        if row.entryId in byId {
          var idx := byId[row.entryId];
          loaded := loaded[idx := loaded[idx].(lines := loaded[idx].lines + [row.line])];
        }
      }
      assert rows[..|rows|] == rows;
    }

    /** One batch, from load to record. Two things can fail: the commit on the
        backend and the recording transaction; the anchor id must be new. */
    method AnchorPending(anchorId: string, commit: CommitFate, fate: TxFate) returns (r: Result<int, AnchorError>)
      requires UniqueIds(entries)
      modifies this, backend.Objects()
      ensures entries == old(entries) && stamps == old(stamps)
      ensures PendingOutcome(Tables(proofs, anchors), backend.State(), r) ==
              PendingRun(H, backend.Hash(H), entries, stamps, Tables(old(proofs), old(anchors)), old(backend.State()),
                         anchorId, backend.Call(commit), fate)
    {
      var batch := LoadUnanchored();
      PendingOf(H, backend.Hash(H), entries, stamps, Tables(proofs, anchors), backend.State(), anchorId,
                backend.Call(commit), fate, batch);
      if |batch| == 0 { return Ok(0); }
      r := CommitAndRecord(batch, anchorId, commit, fate);
    }

    method CommitAndRecord(batch: seq<C.Entry>, anchorId: string, commit: CommitFate, fate: TxFate)
      returns (r: Result<int, AnchorError>)
      modifies this, backend.Objects()
      ensures entries == old(entries) && stamps == old(stamps)
      ensures PendingOutcome(Tables(proofs, anchors), backend.State(), r) ==
              FinishBatch(H, backend.Hash(H), batch, Tables(old(proofs), old(anchors)), old(backend.State()),
                          anchorId, backend.Call(commit), fate)
    {
      var tree, answer := CommitBatch(batch, commit);
      ghost var after := backend.State();
      r := RecordAnswered(tree, batch, answer, BackendName(backend.Call(commit)), anchorId, fate);
      assert backend.State() == after;
    }

    method CommitBatch(batch: seq<C.Entry>, commit: CommitFate) returns (tree: Tree, answer: Result<string, string>)
      modifies backend.Objects()
      ensures fresh(tree) && tree.Valid() && tree.H == H && tree.leaves == Leaves(H, batch)
      ensures answer == Answer(old(backend.State()), MerkleRoot(H, Leaves(H, batch)), backend.Call(commit))
      ensures backend.State() ==
              AfterCommit(backend.Hash(H), old(backend.State()), MerkleRoot(H, Leaves(H, batch)), |batch|,
                                             backend.Call(commit))
    {
      var leaves := HashLeaves(batch);
      tree := new Tree(H, leaves);
      var root := tree.Root();
      answer := backend.CommitRoot(H, root, |batch|, commit);
    }

    method RecordAnswered(
      tree: Tree, batch: seq<C.Entry>, answer: Result<string, string>, name: string, anchorId: string, fate: TxFate)
      returns (r: Result<int, AnchorError>)
      requires tree.Valid() && tree.H == H && tree.leaves == Leaves(H, batch)
      modifies this
      ensures entries == old(entries) && stamps == old(stamps)
      ensures RecordOutcome(Tables(proofs, anchors), r) ==
              RecordBatch(H, batch, Tables(old(proofs), old(anchors)), answer, name, anchorId, fate)
    {
      if answer.Err? { return Err(CommittingRoot(answer.error)); }
      if anchorId in anchors || fate == RolledBack { return Err(Recording); }
      var root := tree.Root();
      var txAnchors := anchors[anchorId := AnchorRow(root, |batch|, name, answer.value)];
      var txProofs := InsertProofs(tree, batch, anchorId);
      proofs, anchors := txProofs, txAnchors;
      r := if fate == AckLost then Err(Recording) else Ok(|batch|);
    }

    method HashLeaves(batch: seq<C.Entry>) returns (leaves: seq<string>)
      ensures leaves == Leaves(H, batch)
    {
      leaves := [];
      for i := 0 to |batch|
        invariant |leaves| == i && forall k | 0 <= k < i :: leaves[k] == H(C.CanonicalString(batch[k]))
      {
        var hash := C.CanonicalHash(H, batch[i]);
        leaves := leaves + [hash];
      }
    }

    method RowAt(tree: Tree, batch: seq<C.Entry>, anchorId: string, i: nat) returns (row: ProofRow)
      requires i < |batch| && tree.Valid() && tree.H == H && tree.leaves == Leaves(H, batch)
      ensures row == BatchRows(H, batch, anchorId)[i]
    {
      var proof := tree.Proof(i);
      row := ProofRow(anchorId, i, tree.leaves[i], proof.value);
    }

    /** Inserts one proof row per entry, skipping entries already proven. */
    method InsertProofs(tree: Tree, batch: seq<C.Entry>, anchorId: string) returns (tx: Proofs)
      requires tree.Valid() && tree.H == H && tree.leaves == Leaves(H, batch)
      ensures tx == RecordProofs(proofs, batch, BatchRows(H, batch, anchorId), |batch|)
    {
      tx := proofs;
      ghost var rows := BatchRows(H, batch, anchorId);
      for i := 0 to |batch|
        invariant tx == RecordProofs(proofs, batch, rows, i)
      {
        var row := RowAt(tree, batch, anchorId, i);
        NextInsert(proofs, batch, rows, i, row);
        if batch[i].id !in tx { tx := tx[batch[i].id := row]; }
      }
    }
  }

  // The backlog drains.

  function RowIds(rows: seq<JournalEntry>): set<string> {
    set e | e in rows :: e.id
  }

  lemma {:induction false} DistinctCount(rows: seq<JournalEntry>)
    requires DistinctBy(rows, RowId)
    ensures |RowIds(rows)| == |rows|
  {
    if |rows| > 0 {
      var n := |rows| - 1;
      DistinctCount(rows[..n]);
      assert rows == rows[..n] + [rows[n]];
      assert RowIds(rows) == RowIds(rows[..n]) + {rows[n].id};
      assert rows[n].id !in RowIds(rows[..n]) by {
        forall e | e in rows[..n] ensures e.id != rows[n].id {
          var i :| 0 <= i < n && rows[i] == e;
          assert RowId(rows[i]) != RowId(rows[n]);
        }
      }
    }
  }

  lemma BatchIds(entries: seq<JournalEntry>, stamps: Stamps, proofs: Proofs)
    ensures HeaderIds(Batch(entries, stamps, proofs)) == RowIds(Take(Pending(entries, stamps, proofs), BATCH_SIZE))
  {
    var rows, batch := Take(Pending(entries, stamps, proofs), BATCH_SIZE), Batch(entries, stamps, proofs);
    assert |batch| == |rows| && forall i | 0 <= i < |rows| :: batch[i].id == rows[i].id;
    forall id | id in RowIds(rows) ensures id in HeaderIds(batch) {
      var i :| 0 <= i < |rows| && rows[i].id == id;
      assert batch[i] in batch;
    }
  }

  /** Recording a batch takes exactly its entries out of the backlog. */
  lemma RecordingTakesBatch(
    entries: seq<JournalEntry>, stamps: Stamps, proofs: Proofs, rows: seq<ProofRow>, e: JournalEntry)
    requires UniqueIds(entries) && |rows| == |Batch(entries, stamps, proofs)|
    ensures var batch := Batch(entries, stamps, proofs);
            e in Unanchored(entries, RecordProofs(proofs, batch, rows, |batch|)) <==>
            e in Unanchored(entries, proofs) && e.id !in HeaderIds(batch)
  {
    var batch := Batch(entries, stamps, proofs);
    RecordedKeys(proofs, batch, rows);
    UnanchoredRows(entries, proofs);
    UnanchoredRows(entries, RecordProofs(proofs, batch, rows, |batch|));
  }

  /** So it shrinks by the batch, which is as large as the batch size allows. */
  lemma RecordingDrains(entries: seq<JournalEntry>, stamps: Stamps, proofs: Proofs, rows: seq<ProofRow>)
    requires UniqueIds(entries) && |rows| == |Batch(entries, stamps, proofs)|
    ensures var batch := Batch(entries, stamps, proofs);
            var n := |Unanchored(entries, proofs)|;
            && |batch| == (if n <= BATCH_SIZE then n else BATCH_SIZE)
            && |Unanchored(entries, RecordProofs(proofs, batch, rows, |batch|))| == n - |batch|
  {
    var batch := Batch(entries, stamps, proofs);
    var taken := Take(Pending(entries, stamps, proofs), BATCH_SIZE);
    var proofs' := RecordProofs(proofs, batch, rows, |batch|);
    var all, after := Unanchored(entries, proofs), Unanchored(entries, proofs');
    SelectedRows(entries, stamps, proofs, BATCH_SIZE);
    UnanchoredRows(entries, proofs);
    UnanchoredRows(entries, proofs');
    DistinctCount(all);
    DistinctCount(after);
    DistinctCount(taken);
    forall id ensures id in RowIds(after) <==> id in RowIds(all) && id !in RowIds(taken) {
      BatchIds(entries, stamps, proofs);
      RecordedKeys(proofs, batch, rows);
    }
    assert RowIds(taken) <= RowIds(all);
    assert RowIds(after) == RowIds(all) - RowIds(taken);
  }

  lemma RecordedKeys(proofs: Proofs, batch: seq<C.Entry>, rows: seq<ProofRow>)
    requires |rows| == |batch|
    ensures RecordProofs(proofs, batch, rows, |batch|).Keys == proofs.Keys + HeaderIds(batch)
  {
    RecordedRows(proofs, batch, rows, |batch|);
    var r := RecordProofs(proofs, batch, rows, |batch|);
    forall id | id in r ensures id in proofs.Keys + HeaderIds(batch) {
      if id !in proofs {
        var i :| 0 <= i < |batch| && batch[i].id == id && r[id] == rows[i];
        assert batch[i] in batch;
      }
    }
    forall id | id in HeaderIds(batch) ensures id in r {
      var h :| h in batch && h.id == id;
      var i :| 0 <= i < |batch| && batch[i] == h;
    }
  }

  function Smaller(a: nat, b: nat): nat {
    if a <= b then a else b
  }

  /** A run worked if it says so, or changed the tables although it could not. */
  ghost predicate Worked(t: Tables, o: PendingOutcome) {
    o.result.Ok? || o.tables != t
  }

  lemma RootNotEmpty(H: Hasher, batch: seq<C.Entry>)
    requires |batch| > 0
    ensures MerkleRoot(H, Leaves(H, batch)) != ""
  {
    F.LeavesAreHex(H, CanonicalStrings(batch));
    RootIsHexOrEmpty(H, Leaves(H, batch));
  }

  /** What it takes for a commit to be reported as a success: on the log, that
      its transaction commits; on the chain, that the submission arrives, or that
      what is reported instead speaks of an existing anchor. */
  predicate Reported(c: Commit) {
    match c
    case ToLog(fate) => fate == Committed
    case ToChain(delivery, _, _) => delivery.Delivered? || F.Contains(delivery.text, F.ALREADY_EXISTS)
  }

  lemma AnsweredIff(b: Ledgers, root: string, c: Commit)
    requires root != ""
    ensures Answer(b, root, c).Ok? <==> Reported(c)
  {
    F.ExistsErrorContains(root);
  }

  /** What one run of AnchorPending does to the backlog, on either backend:
      success means that min(500, backlog) entries left it and is reported with
      that number; an error other than a lost acknowledgement means that the
      tables are untouched; and a run succeeds exactly when there is nothing to
      do, or the commit is reported, its recording commits and the anchor id is
      new. */
  lemma RunDrains(
    H: Hasher, logHash: Hasher, entries: seq<JournalEntry>, stamps: Stamps, t: Tables, b: Ledgers,
    anchorId: string, c: Commit, fate: TxFate)
    requires UniqueIds(entries)
    ensures var n := |Unanchored(entries, t.proofs)|;
            var o := PendingRun(H, logHash, entries, stamps, t, b, anchorId, c, fate);
            && (o.result.Ok? ==> o.result.value == Smaller(500, n))
            && (o.result.Ok? && n > 0 ==>
                  anchorId in o.tables.anchors && o.tables.anchors[anchorId].entryCount == o.result.value)
            && |Unanchored(entries, o.tables.proofs)| == (if Worked(t, o) then n - Smaller(500, n) else n)
            && (o.result.Ok? <==> n == 0 || (Reported(c) && fate == Committed && anchorId !in t.anchors))
            && (o.result.Err? && fate != AckLost ==> o.tables == t)
            && (o.result.Err? ==> (o.result.error.CommittingRoot? <==> !Reported(c)))
  {
    var batch := Batch(entries, stamps, t.proofs);
    RecordingDrains(entries, stamps, t.proofs, BatchRows(H, batch, anchorId));
    if batch != [] { FinishedBatch(H, logHash, batch, t, b, anchorId, c, fate); }
  }

  lemma NewAnchorChanges(t: Tables, u: Tables, anchorId: string)
    requires anchorId !in t.anchors && anchorId in u.anchors
    ensures u != t
  {
  }

  lemma FinishedBatch(
    H: Hasher, logHash: Hasher, batch: seq<C.Entry>, t: Tables, b: Ledgers, anchorId: string, c: Commit, fate: TxFate)
    requires |batch| > 0
    ensures var o := FinishBatch(H, logHash, batch, t, b, anchorId, c, fate);
            && (o.result.Ok? ==> o.result.value == |batch| && anchorId in o.tables.anchors
                                 && o.tables.anchors[anchorId].entryCount == |batch|)
            && (o.result.Ok? <==> Reported(c) && fate == Committed && anchorId !in t.anchors)
            && (o.result.Err? && fate != AckLost ==> o.tables == t)
            && (o.result.Err? ==> (o.result.error.CommittingRoot? <==> !Reported(c)))
            && o.tables.proofs ==
               if Worked(t, o) then RecordProofs(t.proofs, batch, BatchRows(H, batch, anchorId), |batch|)
                                  else t.proofs
  {
    var o := FinishBatch(H, logHash, batch, t, b, anchorId, c, fate);
    var root := MerkleRoot(H, Leaves(H, batch));
    RootNotEmpty(H, batch);
    AnsweredIff(b, root, c);
    if Reported(c) && anchorId !in t.anchors && fate != RolledBack {
      var u := Recorded(H, t, batch, anchorId, BackendName(c), Answer(b, root, c).value);
      assert o.tables == u;
      NewAnchorChanges(t, u, anchorId);
    } else {
      assert o.tables == t && o.result.Err?;
    }
  }

  /** One call of AnchorPending, with what befalls its commit and its recording. */
  datatype Attempt = Attempt(anchorId: string, commit: Commit, fate: TxFate)

  /** Call after call, with no new postings. */
  function AfterAttempts(
    H: Hasher, logHash: Hasher, entries: seq<JournalEntry>, stamps: Stamps, t: Tables, b: Ledgers, runs: seq<Attempt>)
    : PendingOutcome
  {
    if |runs| == 0 then PendingOutcome(t, b, Ok(0))
    else
      var before := AfterAttempts(H, logHash, entries, stamps, t, b, runs[..|runs| - 1]);
      var last := runs[|runs| - 1];
      PendingRun(H, logHash, entries, stamps, before.tables, before.ledgers, last.anchorId, last.commit, last.fate)
  }

  /** How many of the calls return success, and how many worked. */
  ghost function Counts(
    H: Hasher, logHash: Hasher, entries: seq<JournalEntry>, stamps: Stamps, t: Tables, b: Ledgers, runs: seq<Attempt>)
    : (counts: (nat, nat))
  {
    if |runs| == 0 then (0, 0)
    else
      var front := runs[..|runs| - 1];
      var earlier := Counts(H, logHash, entries, stamps, t, b, front);
      var before := AfterAttempts(H, logHash, entries, stamps, t, b, front);
      var o := AfterAttempts(H, logHash, entries, stamps, t, b, runs);
      (earlier.0 + (if o.result.Ok? then 1 else 0), earlier.1 + (if Worked(before.tables, o) then 1 else 0))
  }

  /** With no new postings, k calls that worked leave n - 500k entries, or none,
      on whichever backends and however many failed in between; all that
      returned success are among them, and no others unless an acknowledgement
      was lost. So ceil(n / 500) successes empty the backlog. */
  lemma {:induction false} BacklogDrains(
    H: Hasher, logHash: Hasher, entries: seq<JournalEntry>, stamps: Stamps, t: Tables, b: Ledgers, runs: seq<Attempt>)
    requires UniqueIds(entries)
    ensures var n := |Unanchored(entries, t.proofs)|;
            var left := |Unanchored(entries, AfterAttempts(H, logHash, entries, stamps, t, b, runs).tables.proofs)|;
            var counts := Counts(H, logHash, entries, stamps, t, b, runs);
            && left == n - Smaller(n, counts.1 * 500)
            && counts.0 <= counts.1
            && ((forall a | a in runs :: a.fate != AckLost) ==> counts.0 == counts.1)
            && (n <= counts.0 * 500 ==> left == 0)
  {
    if |runs| > 0 {
      var front, last := runs[..|runs| - 1], runs[|runs| - 1];
      assert forall a | a in front :: a in runs;
      BacklogDrains(H, logHash, entries, stamps, t, b, front);
      var before := AfterAttempts(H, logHash, entries, stamps, t, b, front);
      RunDrains(H, logHash, entries, stamps, before.tables, before.ledgers, last.anchorId, last.commit, last.fate);
    }
  }
}

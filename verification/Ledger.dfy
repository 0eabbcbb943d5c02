/** Posting journal entries and creating commitments, each in one database
    transaction: everything it writes appears together or not at all. */
module Ledger {
  import opened Wrappers
  import opened Canonical
  import opened Journal

  /** What the database knows besides the tables: the institutions that exist,
      and which texts it stores as the columns of a row of a table. It refuses a
      date that is none, a text with a NUL, an index entry too large. */
  datatype Env = Env(institutions: set<string>, stores: (string, seq<string>) -> bool)

  datatype BalanceKey = BalanceKey(institutionId: string, accountCode: string, currency: string)

  datatype CommitmentStatus = Open | Settled | Cancelled

  datatype Commitment = Commitment(
    id: string,
    institutionId: string,
    fiscalYear: int,
    accountCode: string,
    description: string,
    amountMinor: int64,
    currency: string,
    committedDate: string,
    status: CommitmentStatus
  )

  datatype Settlement = Settlement(commitmentId: string, entryId: string, amountMinor: int64)

  datatype AuditEvent = AuditEvent(eventType: string, transactionId: string, institutionId: string, summary: string)

  datatype LedgerState = LedgerState(
    entries: seq<JournalEntry>,
    balances: map<BalanceKey, int64>,
    commitments: map<string, Commitment>,
    settlements: seq<Settlement>,
    audit: seq<AuditEvent>
  )

  const EMPTY := LedgerState([], map[], map[], [], [])

  datatype PostError =
    | Invalid(entryError: EntryError)
    | DuplicateTransaction
    | UnknownInstitution
    | UnknownCommitment
    | CommitmentClosed
    | CommitmentMismatch
    | CommitmentExceeded
    | Database

  datatype PostOutcome = PostOutcome(state: LedgerState, err: Option<PostError>)

  const INT32_MAX := 0x7FFF_FFFF

  function Ids(entries: seq<JournalEntry>): set<string> {
    set e | e in entries :: e.id
  }

  function Keys(entries: seq<JournalEntry>): set<string> {
    set e | e in entries && e.idempotencyKey != "" :: e.idempotencyKey
  }

  /** The row of journal_entries; the commitment reference is not stored. */
  function Stored(e: JournalEntry): JournalEntry {
    e.(status := if e.status == "" then "POSTED" else e.status,
       entryType := if e.entryType == "" then "STANDARD" else e.entryType,
       commitmentId := "")
  }

  predicate StoresEntry(env: Env, row: JournalEntry) {
    && env.stores("journal_entries", [row.id, row.institutionId, row.effectiveDate, row.description,
                                      row.reversesEntryId,
                                      row.idempotencyKey])
    && row.fiscalYear <= INT32_MAX
  }

  predicate StoresLine(env: Env, institutionId: string, line: JournalLine) {
    && env.stores("journal_lines", [line.accountCode, line.direction, line.currency])
    && env.stores("account_balances", [institutionId, line.accountCode, line.currency])
  }

  predicate StoresLines(env: Env, institutionId: string, lines: seq<JournalLine>) {
    forall line | line in lines :: StoresLine(env, institutionId, line)
  }

  predicate StoresCommitment(env: Env, c: Commitment) {
    && env.stores("commitments", [c.id, c.institutionId, c.accountCode, c.description, c.currency, c.committedDate])
    && c.fiscalYear <= INT32_MAX
  }

  /** Column checks, then unique indexes, then foreign keys. A missing reversed
      entry is a foreign-key violation too and reported as an institution. */
  function InsertError(env: Env, entries: seq<JournalEntry>, row: JournalEntry): Option<PostError> {
    if !StoresEntry(env, row) || row.status !in {"POSTED", "REVERSED"} || row.entryType !in {"STANDARD", "REVERSAL"}
    then Some(Database)
    else if row.id in Ids(entries) || (row.idempotencyKey != "" && row.idempotencyKey in Keys(entries))
    then Some(DuplicateTransaction)
    else if row.institutionId !in env.institutions
            || (row.reversesEntryId != "" && row.reversesEntryId !in Ids(entries) + {row.id})
    then Some(UnknownInstitution)
    else None
  }

  function Stock(balances: map<BalanceKey, int64>, key: BalanceKey): int {
    if key in balances then balances[key] else 0
  }

  /** One balance upsert; the column is a 64-bit integer. */
  function Upsert(balances: map<BalanceKey, int64>, key: BalanceKey, delta: int): Option<map<BalanceKey, int64>> {
    var sum := Stock(balances, key) + delta;
    if -INT64_MAX - 1 <= sum <= INT64_MAX then Some(balances[key := sum]) else None
  }

  function LineKey(institutionId: string, line: JournalLine): BalanceKey {
    BalanceKey(institutionId, line.accountCode, line.currency)
  }

  function UpsertLines(balances: map<BalanceKey, int64>, institutionId: string, lines: seq<JournalLine>)
    : Option<map<BalanceKey, int64>>
  {
    if |lines| == 0 then Some(balances)
    else
      var last := lines[|lines| - 1];
      var earlier := UpsertLines(balances, institutionId, lines[..|lines| - 1]);
      if earlier.None? then None else Upsert(earlier.value, LineKey(institutionId, last), SignedAmount(last))
  }

  /** The debit total of one currency as a 64-bit register sums it. */
  function SettlementSum(lines: seq<JournalLine>, currency: string): int64 {
    if |lines| == 0 then 0
    else
      var last := lines[|lines| - 1];
      var earlier := SettlementSum(lines[..|lines| - 1], currency);
      if last.direction == "DEBIT" && last.currency == currency then Wrap(earlier + last.amountMinor) else earlier
  }

  function SettledTotal(settlements: seq<Settlement>, commitmentId: string): int {
    if |settlements| == 0 then 0
    else
      var last := settlements[|settlements| - 1];
      SettledTotal(settlements[..|settlements| - 1], commitmentId) +
      (if last.commitmentId == commitmentId then last.amountMinor else 0)
  }

  /** The checks of a settlement in the order the transaction makes them; the
      sum and the comparison are 64-bit, the stored amount must be positive. */
  function SettleError(s: LedgerState, e: JournalEntry): Option<PostError> {
    if e.commitmentId !in s.commitments then Some(UnknownCommitment)
    else
      var c := s.commitments[e.commitmentId];
      var settled := SettledTotal(s.settlements, c.id);
      var amount := SettlementSum(e.lines, c.currency);
      if settled > INT64_MAX then Some(Database)
      else if c.status != Open then Some(CommitmentClosed)
      else if c.institutionId != e.institutionId then Some(CommitmentMismatch)
      else if amount == 0 then Some(CommitmentMismatch)
      else if Wrap(settled + amount) > c.amountMinor then Some(CommitmentExceeded)
      else if amount <= 0 then Some(Database)
      else None
  }

  function Settle(s: LedgerState, e: JournalEntry): LedgerState
    requires SettleError(s, e).None?
  {
    var c := s.commitments[e.commitmentId];
    var settled := SettledTotal(s.settlements, c.id);
    var amount := SettlementSum(e.lines, c.currency);
    s.(settlements := s.settlements + [Settlement(c.id, e.id, amount)],
       commitments := if Wrap(settled + amount) == c.amountMinor then s.commitments[c.id := c.(status := Settled)]
                      else s.commitments)
  }

  function PostingEvent(row: JournalEntry): AuditEvent {
    if row.entryType == "REVERSAL"
    then AuditEvent("ENTRY_REVERSED", row.id, row.institutionId,
                    "Journal entry " + row.id + " reversed " + row.reversesEntryId + ".")
    else AuditEvent("ENTRY_POSTED", row.id, row.institutionId, "Journal entry " + row.id + " was posted.")
  }

  /** Everything a posting writes, if nothing stands in its way. */
  function Write(env: Env, s: LedgerState, e: JournalEntry): Result<LedgerState, PostError> {
    var row := Stored(e);
    var insertErr := InsertError(env, s.entries, row);
    if insertErr.Some? then Err(insertErr.value)
    else
      var balances := UpsertLines(s.balances, e.institutionId, e.lines);
      if balances.None? || !StoresLines(env, e.institutionId, e.lines) then Err(Database)
      else
        var t := s.(entries := s.entries + [row], balances := balances.value);
        if e.commitmentId != "" && SettleError(t, e).Some? then Err(SettleError(t, e).value)
        else
          var u := if e.commitmentId != "" then Settle(t, e) else t;
          Ok(u.(audit := u.audit + [PostingEvent(row)]))
  }

  /** The specification of PostEntry: the state afterwards and the error seen. */
  function Posted(env: Env, s: LedgerState, e: JournalEntry, fate: TxFate): PostOutcome {
    if Validate(e).Some? then PostOutcome(s, Some(Invalid(Validate(e).value)))
    else if fate == RolledBack then PostOutcome(s, Some(Database))
    else
      match Write(env, s, e)
      case Err(err) => PostOutcome(s, Some(err))
      case Ok(t) => PostOutcome(t, if fate == AckLost then Some(Database) else None)
  }

  datatype CommitmentError =
    | InvalidCommitment | DuplicateCommitment | UnknownCommitmentInstitution | CommitmentDatabase

  function ValidateCommitment(c: Commitment): bool {
    && c.id != "" && c.institutionId != "" && c.fiscalYear > 0 && c.accountCode != ""
    && c.amountMinor > 0 && IsCurrencyCode(c.currency) && IsISODate(c.committedDate)
  }

  datatype CreateOutcome = CreateOutcome(state: LedgerState, err: Option<CommitmentError>)

  function Created(env: Env, s: LedgerState, c: Commitment, fate: TxFate): CreateOutcome {
    if !ValidateCommitment(c) then CreateOutcome(s, Some(InvalidCommitment))
    else if fate == RolledBack || !StoresCommitment(env, c) then CreateOutcome(s, Some(CommitmentDatabase))
    else if c.id in s.commitments then CreateOutcome(s, Some(DuplicateCommitment))
    else if c.institutionId !in env.institutions then CreateOutcome(s, Some(UnknownCommitmentInstitution))
    else
      var event := AuditEvent("COMMITMENT_CREATED", c.id, c.institutionId, "Commitment " + c.id + " was created.");
      CreateOutcome(s.(commitments := s.commitments[c.id := c.(status := Open)], audit := s.audit + [event]),
                    if fate == AckLost then Some(CommitmentDatabase) else None)
  }

  /** The repositories over the five tables. */
  class JournalRepository {
    const env: Env
    var entries: seq<JournalEntry>
    var balances: map<BalanceKey, int64>
    var commitments: map<string, Commitment>
    var settlements: seq<Settlement>
    var audit: seq<AuditEvent>

    function State(): LedgerState
      reads this
    {
      LedgerState(entries, balances, commitments, settlements, audit)
    }

    constructor (env: Env)
      ensures this.env == env && State() == EMPTY
    {
      this.env := env;
      entries, balances, commitments, settlements, audit := [], map[], map[], [], [];
    }

    method PostEntry(e: JournalEntry, fate: TxFate) returns (err: Option<PostError>)
      modifies this
      ensures PostOutcome(State(), err) == Posted(env, old(State()), e, fate)
    {
      var invalid := ValidateJournalEntry(e);
      if invalid.Some? { return Some(Invalid(invalid.value)); }
      if fate == RolledBack { return Some(Database); }

      // Work on the transaction's own view; only the commit publishes it.
      var tx := State();
      var row := Stored(e);
      var insertErr := InsertError(env, tx.entries, row);
      if insertErr.Some? { return insertErr; }
      tx := tx.(entries := tx.entries + [row]);
      var posted := PostLines(env, tx.balances, e.institutionId, e.lines);
      if posted.None? { return Some(Database); }
      tx := tx.(balances := posted.value);
      if e.commitmentId != "" {
        var settled := SettleCommitment(tx, e);
        if settled.Err? { return Some(settled.error); }
        tx := settled.value;
      }
      tx := tx.(audit := tx.audit + [PostingEvent(row)]);

      entries, balances, commitments, settlements, audit :=
        tx.entries, tx.balances, tx.commitments, tx.settlements, tx.audit;
      err := if fate == AckLost then Some(Database) else None;
    }

    /** Line by line, the line's row and the balance it moves. */
    static method PostLines(env: Env, balances: map<BalanceKey, int64>, institutionId: string, lines: seq<JournalLine>)
      returns (r: Option<map<BalanceKey, int64>>)
      ensures r == if StoresLines(env, institutionId, lines) then UpsertLines(balances, institutionId, lines) else None
    {
      var moved := balances;
      for i := 0 to |lines|
        invariant UpsertLines(balances, institutionId, lines[..i]) == Some(moved)
        invariant forall k | 0 <= k < i :: StoresLine(env, institutionId, lines[k])
      {
        var line := lines[i];
        assert lines[..i + 1][..i] == lines[..i];
        if !StoresLine(env, institutionId, line) { return None; }
        var upserted := Upsert(moved, LineKey(institutionId, line), SignedAmount(line));
        if upserted.None? {
          UpsertFailureStands(balances, institutionId, lines, i + 1);
          return None;
        }
        moved := upserted.value;
      }
      assert lines[..|lines|] == lines;
      r := Some(moved);
    }

    /** Records the entry against its commitment inside the posting's transaction. */
    static method SettleCommitment(tx: LedgerState, e: JournalEntry) returns (r: Result<LedgerState, PostError>)
      ensures r == if SettleError(tx, e).Some? then Err(SettleError(tx, e).value) else Ok(Settle(tx, e))
    {
      if e.commitmentId !in tx.commitments { return Err(UnknownCommitment); }
      var c := tx.commitments[e.commitmentId];
      var settled := SettledTotal(tx.settlements, c.id);
      if settled > INT64_MAX { return Err(Database); }
      if c.status != Open { return Err(CommitmentClosed); }
      if c.institutionId != e.institutionId { return Err(CommitmentMismatch); }
      var amount: int64 := 0;
      for i := 0 to |e.lines|
        invariant amount == SettlementSum(e.lines[..i], c.currency)
      {
        var line := e.lines[i];
        assert e.lines[..i + 1][..i] == e.lines[..i];
        if line.direction == "DEBIT" && line.currency == c.currency { amount := Wrap(amount + line.amountMinor); }
      }
      assert e.lines[..|e.lines|] == e.lines;
      if amount == 0 { return Err(CommitmentMismatch); }
      if Wrap(settled + amount) > c.amountMinor { return Err(CommitmentExceeded); }
      if amount <= 0 { return Err(Database); }
      var u := tx.(settlements := tx.settlements + [Settlement(c.id, e.id, amount)]);
      if Wrap(settled + amount) == c.amountMinor {
        u := u.(commitments := u.commitments[c.id := c.(status := Settled)]);
      }
      r := Ok(u);
    }

    method CreateCommitment(c: Commitment, fate: TxFate) returns (err: Option<CommitmentError>)
      modifies this
      ensures CreateOutcome(State(), err) == Created(env, old(State()), c, fate)
    {
      if !ValidateCommitment(c) { return Some(InvalidCommitment); }
      if fate == RolledBack || !StoresCommitment(env, c) { return Some(CommitmentDatabase); }
      if c.id in commitments { return Some(DuplicateCommitment); }
      if c.institutionId !in env.institutions { return Some(UnknownCommitmentInstitution); }
      commitments := commitments[c.id := c.(status := Open)];
      audit := audit +
        [AuditEvent("COMMITMENT_CREATED", c.id, c.institutionId, "Commitment " + c.id + " was created.")];
      err := if fate == AckLost then Some(CommitmentDatabase) else None;
    }
  }

  lemma {:induction false} UpsertFailureStands(
    balances: map<BalanceKey, int64>, institutionId: string, lines: seq<JournalLine>, n: nat)
    requires n <= |lines| && UpsertLines(balances, institutionId, lines[..n]).None?
    ensures UpsertLines(balances, institutionId, lines).None?
  {
    if n == |lines| {
      assert lines[..n] == lines;
    } else {
      assert lines[..|lines| - 1][..n] == lines[..n];
      UpsertFailureStands(balances, institutionId, lines[..|lines| - 1], n);
    }
  }
}

/** How postings, settlements and commitments are answered, in terms of what is
    asked: exactly when each is accepted, and what it then leaves. */
module LedgerOutcomes {
  import opened Wrappers
  import opened Text
  import Canonical
  import opened Journal
  import opened Ledger
  import opened LedgerInvariants

  // Settlements, in true sums.

  /** What a settlement may be: of an open commitment of the same institution, by
      something, and not by more than is left. */
  ghost predicate WithinCommitment(s: LedgerState, e: JournalEntry) {
    && e.commitmentId in s.commitments
    && var c := s.commitments[e.commitmentId];
    && c.status == Open && c.institutionId == e.institutionId
    && 0 < Debits(e.lines, c.currency)
    && SettledTotal(s.settlements, e.commitmentId) + Debits(e.lines, c.currency) <= c.amountMinor
  }

  ghost predicate BeyondCommitment(s: LedgerState, e: JournalEntry) {
    && e.commitmentId in s.commitments
    && var c := s.commitments[e.commitmentId];
    && c.status == Open && c.institutionId == e.institutionId
    && 0 < Debits(e.lines, c.currency)
    && SettledTotal(s.settlements, e.commitmentId) + Debits(e.lines, c.currency) > c.amountMinor
  }

  lemma RangeFacts(s: LedgerState, e: JournalEntry)
    requires Linked(s) && Validate(e).None? && InRange(s, e) && e.commitmentId in s.commitments
    ensures var currency := s.commitments[e.commitmentId].currency;
            var settled, debits := SettledTotal(s.settlements, e.commitmentId), Debits(e.lines, currency);
            && 0 <= settled && 0 <= debits && settled + debits <= INT64_MAX
            && SettlementSum(e.lines, currency) == debits && Wrap(settled + debits) == settled + debits
  {
    var currency := s.commitments[e.commitmentId].currency;
    TotalBounds(s.settlements, e.commitmentId);
    AcceptedIff(e);
    assert forall line | line in e.lines :: LineError(line).None? && line.amountMinor > 0;
    Sides(e.lines, currency);
    SumIsWrappedDebits(e.lines, currency);
    WrapSmall(Debits(e.lines, currency));
    WrapSmall(SettledTotal(s.settlements, e.commitmentId) + Debits(e.lines, currency));
  }

  /** In 64-bit range the guard is exact: a settlement is accepted if and only if
      it stays within its commitment, up to the last unit; it is refused as
      excessive exactly when only the sum is wrong. */
  lemma SettlementIff(s: LedgerState, e: JournalEntry)
    requires Linked(s) && Validate(e).None? && InRange(s, e)
    ensures SettleError(s, e).None? <==> WithinCommitment(s, e)
    ensures SettleError(s, e) == Some(CommitmentExceeded) <==> BeyondCommitment(s, e)
    ensures SettleError(s, e) == Some(UnknownCommitment) <==> e.commitmentId !in s.commitments
    ensures SettleError(s, e) == Some(CommitmentClosed) <==>
              e.commitmentId in s.commitments && s.commitments[e.commitmentId].status != Open
  {
    if e.commitmentId in s.commitments { RangeFacts(s, e); }
  }

  /** An accepted one adds one row with the entry's debits, and closes the
      commitment exactly when nothing is left. */
  lemma SettlementLeaves(s: LedgerState, e: JournalEntry)
    requires Linked(s) && Validate(e).None? && InRange(s, e) && WithinCommitment(s, e)
    ensures SettleError(s, e).None?
    ensures var c, t := s.commitments[e.commitmentId], Settle(s, e);
            var debits := Debits(e.lines, c.currency);
            && |t.settlements| == |s.settlements| + 1 && t.settlements[..|s.settlements|] == s.settlements
            && var x := t.settlements[|s.settlements|];
            && x.commitmentId == e.commitmentId && x.entryId == e.id && x.amountMinor == debits
            && t.commitments == s.commitments[e.commitmentId := c.(
                 status := if SettledTotal(s.settlements, e.commitmentId) + debits == c.amountMinor
                           then Settled else Open)]
  {
    SettlementIff(s, e);
    RangeFacts(s, e);
    UnchangedCommitment(s.commitments, e.commitmentId);
  }

  /** And it happens: create a commitment, settle all of it. The commitment is
      SETTLED, and nothing more is accepted against it. */
  lemma SettledReachable(env: Env, c: Commitment, e: JournalEntry, x: string, y: string, more: JournalEntry)
    requires ValidateCommitment(c) && StoresCommitment(env, c) && Transfer(env, e, x, y, c.amountMinor, c)
    requires more.commitmentId == c.id
    ensures var s := Run(env, EMPTY, [Create(c, Committed), Post(e, Committed)]);
            && s.entries == [Stored(e)] && s.settlements == [Settlement(c.id, e.id, c.amountMinor)]
            && s.commitments == map[c.id := c.(status := Settled)] && Linked(s) && Lifecycle(s)
            && SettleError(s, more) == Some(CommitmentClosed)
  {
    var steps := [Create(c, Committed), Post(e, Committed)];
    var s1 := Created(env, EMPTY, c, Committed).state;
    var s2 := Posted(env, s1, e, Committed).state;
    assert steps[..2][..1] == steps[..1] && steps[..1][..0] == [] && steps[..2] == steps;
    assert Run(env, EMPTY, steps[..1]) == s1;
    assert Run(env, EMPTY, steps) == s2;
    LifecycleIff(env, steps[..1]);
    assert !steps[0].Post? && AllInRange(env, steps[..1][..0]);
    SettlesAll(env, s1, c, e, x, y);
    LifecycleIff(env, steps);
    ClosedTo(s2, c, Settlement(c.id, e.id, c.amountMinor), more);
    assert AllInRange(env, steps[..1]);
  }

  lemma SettlesAll(env: Env, s: LedgerState, c: Commitment, e: JournalEntry, x: string, y: string)
    requires Transfer(env, e, x, y, c.amountMinor, c) && Linked(s)
    requires s.entries == [] && s.balances == map[] && s.settlements == []
    requires s.commitments == map[c.id := c.(status := Open)]
    ensures InRange(s, e)
    ensures var t := Posted(env, s, e, Committed).state;
            && t.entries == [Stored(e)] && t.settlements == [Settlement(c.id, e.id, c.amountMinor)]
            && t.commitments == map[c.id := c.(status := Settled)]
  {
    TransferValid(e, e.lines[0], e.lines[1]);
    OneSettlement(Settlement(c.id, e.id, c.amountMinor), c.id);
    SettlementLeaves(s, e);
    TransferPosts(env, s, e, x, y, c.amountMinor, c);
    AppliedSettles(env, s, e, Posted(env, s, e, Committed).state);
  }

  lemma ClosedTo(s: LedgerState, c: Commitment, x: Settlement, more: JournalEntry)
    requires s.commitments == map[c.id := c.(status := Settled)] && more.commitmentId == c.id
    requires s.settlements == [x] && x.commitmentId == c.id && x.amountMinor == c.amountMinor
    ensures SettleError(s, more) == Some(CommitmentClosed)
  {
    OneSettlement(x, c.id);
  }

  // Postings.

  /** The row's columns are ones the database stores. */
  ghost predicate StorableRow(env: Env, e: JournalEntry) {
    && StoresEntry(env, Stored(e))
    && (e.status == "" || e.status == "POSTED" || e.status == "REVERSED")
    && (e.entryType == "" || e.entryType == "STANDARD" || e.entryType == "REVERSAL")
  }

  /** Its id is taken, or its idempotency key. */
  ghost predicate Taken(s: LedgerState, e: JournalEntry) {
    exists x :: x in s.entries && (x.id == e.id || (e.idempotencyKey != "" && x.idempotencyKey == e.idempotencyKey))
  }

  ghost predicate Refers(env: Env, s: LedgerState, e: JournalEntry) {
    && e.institutionId in env.institutions
    && (e.reversesEntryId == "" || e.reversesEntryId == e.id || exists x :: x in s.entries && x.id == e.reversesEntryId)
  }

  /** After each of its lines, every balance is still a 64-bit number. */
  ghost predicate BalancesFit(s: LedgerState, e: JournalEntry) {
    forall n: nat, key: BalanceKey | n <= |e.lines| :: FitsAfter(s.balances, e.institutionId, e.lines[..n], key)
  }

  ghost predicate FitsAfter(
    balances: map<BalanceKey, int64>, institutionId: string, lines: seq<JournalLine>, key: BalanceKey)
  {
    -INT64_MAX - 1
    <= Stock(balances, key) + (if institutionId == key.institutionId
                               then LineFlow(lines, key.accountCode, key.currency) else 0)
    <= INT64_MAX
  }

  lemma LastUpsertFits(balances: map<BalanceKey, int64>, institutionId: string, lines: seq<JournalLine>)
    requires |lines| > 0 && UpsertLines(balances, institutionId, lines[..|lines| - 1]).Some?
    ensures UpsertLines(balances, institutionId, lines).Some? <==>
            FitsAfter(balances, institutionId, lines, LineKey(institutionId, lines[|lines| - 1]))
  {
    var n := |lines| - 1;
    UpsertLinesFlow(balances, institutionId, lines[..n], LineKey(institutionId, lines[n]));
  }

  lemma {:induction false} UpsertsFitIff(
    balances: map<BalanceKey, int64>, institutionId: string, lines: seq<JournalLine>)
    ensures UpsertLines(balances, institutionId, lines).Some? <==>
            forall n: nat, key: BalanceKey | n <= |lines| :: FitsAfter(balances, institutionId, lines[..n], key)
  {
    if |lines| == 0 {
      assert forall n: nat | n <= 0 :: lines[..n] == [];
    } else {
      var n := |lines| - 1;
      UpsertsFitIff(balances, institutionId, lines[..n]);
      assert forall m: nat | m <= n :: lines[..n][..m] == lines[..m];
      assert lines[..n + 1] == lines;
      if UpsertLines(balances, institutionId, lines[..n]).Some? {
        LastUpsertFits(balances, institutionId, lines);
        if UpsertLines(balances, institutionId, lines).Some? {
          forall key: BalanceKey ensures FitsAfter(balances, institutionId, lines, key) {
            UpsertLinesFlow(balances, institutionId, lines, key);
          }
        }
      }
    }
  }

  lemma InsertOutcomes(env: Env, s: LedgerState, e: JournalEntry)
    ensures InsertError(env, s.entries, Stored(e)).None? <==> StorableRow(env, e) && !Taken(s, e) && Refers(env, s, e)
    ensures InsertError(env, s.entries, Stored(e)) == Some(DuplicateTransaction) <==> StorableRow(env, e) && Taken(s, e)
    ensures InsertError(env, s.entries, Stored(e)) == Some(UnknownInstitution) <==>
            StorableRow(env, e) && !Taken(s, e) && !Refers(env, s, e)
  {
    assert Taken(s, e) <==> e.id in Ids(s.entries) || (e.idempotencyKey != "" && e.idempotencyKey in Keys(s.entries));
    assert Refers(env, s, e) <==> e.institutionId in env.institutions &&
                                  (e.reversesEntryId == "" || e.reversesEntryId in Ids(s.entries) + {e.id});
  }

  /** A posting is accepted exactly when it is valid, its row can be stored, its id
      and key are new, what it refers to exists, every balance still fits, and
      any settlement is accepted; it is a duplicate exactly when a storable row's
      id or key is taken, and reported as an unknown institution exactly when
      only a reference is missing. */
  lemma PostedIff(env: Env, s: LedgerState, e: JournalEntry)
    requires Validate(e).None?
    ensures Posted(env, s, e, Committed).err.None? <==>
            && StorableRow(env, e) && !Taken(s, e) && Refers(env, s, e)
            && StoresLines(env, e.institutionId, e.lines) && BalancesFit(s, e)
            && (e.commitmentId == "" || SettleError(s, e).None?)
    ensures Posted(env, s, e, Committed).err == Some(DuplicateTransaction) <==> StorableRow(env, e) && Taken(s, e)
    ensures Posted(env, s, e, Committed).err == Some(UnknownInstitution) <==>
            StorableRow(env, e) && !Taken(s, e) && !Refers(env, s, e)
  {
    InsertOutcomes(env, s, e);
    UpsertsFitIff(s.balances, e.institutionId, e.lines);
    WriteIff(env, s, e);
  }

  lemma WriteIff(env: Env, s: LedgerState, e: JournalEntry)
    ensures Write(env, s, e).Ok? <==>
            && InsertError(env, s.entries, Stored(e)).None? && UpsertLines(s.balances, e.institutionId, e.lines).Some?
            && StoresLines(env, e.institutionId, e.lines) && (e.commitmentId == "" || SettleError(s, e).None?)
    ensures Write(env, s, e).Err? && InsertError(env, s.entries, Stored(e)).None? ==>
              Write(env, s, e).error != DuplicateTransaction && Write(env, s, e).error != UnknownInstitution
  {
    if InsertError(env, s.entries, Stored(e)).None? && UpsertLines(s.balances, e.institutionId, e.lines).Some? {
      var balances := UpsertLines(s.balances, e.institutionId, e.lines).value;
      SettleReads(s, s.(entries := s.entries + [Stored(e)], balances := balances), e);
    }
  }

  /** What an accepted posting leaves: the entry as given, POSTED and STANDARD
      unless it says otherwise, its balances moved by its lines, and one audit
      event that names it. */
  lemma PostingLeaves(env: Env, s: LedgerState, e: JournalEntry, key: BalanceKey)
    requires Posted(env, s, e, Committed).err.None?
    ensures var t := Posted(env, s, e, Committed).state;
            && |t.entries| == |s.entries| + 1 && |t.audit| == |s.audit| + 1
            && t.entries[..|s.entries|] == s.entries && t.audit[..|s.audit|] == s.audit
            && t.entries[|s.entries|] ==
               JournalEntry(e.id, e.institutionId, e.fiscalYear, e.effectiveDate, e.description,
                            if e.status == "" then "POSTED" else e.status,
                            if e.entryType == "" then "STANDARD" else e.entryType,
                            e.reversesEntryId, e.idempotencyKey, "", e.lines)
            && t.audit[|s.audit|] ==
               (if e.entryType == "REVERSAL"
                then AuditEvent("ENTRY_REVERSED", e.id, e.institutionId,
                                "Journal entry " + e.id + " reversed " + e.reversesEntryId + ".")
                else AuditEvent("ENTRY_POSTED", e.id, e.institutionId, "Journal entry " + e.id + " was posted."))
            && Stock(t.balances, key) ==
               Stock(s.balances, key) + (if e.institutionId == key.institutionId
                                         then LineFlow(e.lines, key.accountCode, key.currency) else 0)
            && (e.commitmentId == "" ==> t.settlements == s.settlements && t.commitments == s.commitments)
  {
    PostedAllOrNothing(env, s, e, Committed);
    UpsertLinesFlow(s.balances, e.institutionId, e.lines, key);
  }

  /** The flow of an account is its debits less its credits. */
  lemma {:induction false} FlowIsDebitsLessCredits(lines: seq<JournalLine>, accountCode: string, currency: string)
    ensures var own := LinesOn(lines, accountCode);
            LineFlow(lines, accountCode, currency) == Debits(own, currency) - Credits(own, currency)
  {
    if |lines| > 0 {
      var n := |lines| - 1;
      FlowIsDebitsLessCredits(lines[..n], accountCode, currency);
      var earlier := LinesOn(lines[..n], accountCode);
      if lines[n].accountCode == accountCode {
        SideAfter(earlier, lines[n], currency);
      } else {
        assert LinesOn(lines, accountCode) == earlier;
      }
    }
  }

  lemma SideAfter(lines: seq<JournalLine>, line: JournalLine, currency: string)
    ensures Debits(lines + [line], currency) - Credits(lines + [line], currency) ==
            Debits(lines, currency) - Credits(lines, currency)
            + (if line.currency == currency then SignedAmount(line) else 0)
  {
    assert (lines + [line])[..|lines|] == lines;
  }

  function LinesOn(lines: seq<JournalLine>, accountCode: string): seq<JournalLine> {
    if |lines| == 0 then []
    else
      var last := lines[|lines| - 1];
      LinesOn(lines[..|lines| - 1], accountCode) + (if last.accountCode == accountCode then [last] else [])
  }

  /** A posted reversal: dated anew, in the original's year and institution,
      naming the original, each line on the other side with its account, amount
      and currency. */
  lemma ReversalLeaves(env: Env, s: LedgerState, e: JournalEntry, id: string, effectiveDate: string)
    requires Validate(e).None? && Posted(env, s, ReversalOf(e, id, effectiveDate), Committed).err.None?
    ensures var t := Posted(env, s, ReversalOf(e, id, effectiveDate), Committed).state;
            && |t.entries| == |s.entries| + 1 && |t.audit| == |s.audit| + 1
            && var row := t.entries[|s.entries|];
            && row == JournalEntry(id, e.institutionId, e.fiscalYear, effectiveDate, "Reversal of " + e.id, "POSTED",
                                   "REVERSAL", e.id, "", "", row.lines)
            && |row.lines| == |e.lines|
            && (forall i | 0 <= i < |e.lines| ::
                  row.lines[i] == e.lines[i].(direction :=
                    if e.lines[i].direction == "DEBIT" then "CREDIT" else "DEBIT"))
            && t.audit[|s.audit|] == AuditEvent("ENTRY_REVERSED", id, e.institutionId,
                                                "Journal entry " + id + " reversed " + e.id + ".")
  {
    PostingLeaves(env, s, ReversalOf(e, id, effectiveDate), BalanceKey("", "", ""));
  }

  // Commitments.

  /** A commitment is created exactly when its fields are in order, storable and
      new, and its institution exists; it is then OPEN, whatever it said, and one
      audit event names it. */
  lemma CreatedIff(env: Env, s: LedgerState, c: Commitment)
    ensures var o := Created(env, s, c, Committed);
            && (o.err.None? <==>
                  && c.id != "" && c.institutionId != "" && c.fiscalYear > 0 && c.accountCode != "" && c.amountMinor > 0
                  && |c.currency| == 3 && (forall x | x in c.currency :: 'A' <= x <= 'Z') && IsISODate(c.committedDate)
                  && StoresCommitment(env, c) && c.id !in s.commitments && c.institutionId in env.institutions)
            && (o.err.Some? ==> o.state == s)
            && (o.err.None? ==>
                  o.state == s.(commitments := s.commitments[c.id := c.(status := Open)],
                                audit := s.audit + [AuditEvent("COMMITMENT_CREATED", c.id, c.institutionId,
                                                               "Commitment " + c.id + " was created.")]))
  {
  }

  // Transactions that fail.

  /** A posting whose transaction is rolled back changes nothing and says so; one
      whose acknowledgement is lost does what it would have done, and reports a
      database error unless it was refused anyway. */
  lemma PostingFates(env: Env, s: LedgerState, e: JournalEntry)
    ensures var committed := Posted(env, s, e, Committed);
            var rolledBack, lost := Posted(env, s, e, RolledBack), Posted(env, s, e, AckLost);
            && (committed.err.Some? ==> committed.state == s)
            && rolledBack.state == s
            && rolledBack.err == Some(if Validate(e).Some? then Invalid(Validate(e).value) else Database)
            && lost == PostOutcome(committed.state, if committed.err.None? then Some(Database) else committed.err)
  {
    PostedAllOrNothing(env, s, e, Committed);
  }

  lemma CreationFates(env: Env, s: LedgerState, c: Commitment)
    ensures var committed := Created(env, s, c, Committed);
            var rolledBack, lost := Created(env, s, c, RolledBack), Created(env, s, c, AckLost);
            && rolledBack.state == s && rolledBack.err.Some?
            && lost ==
                       CreateOutcome(committed.state,
                                     if committed.err.None? then Some(CommitmentDatabase) else committed.err)
  {
  }
}

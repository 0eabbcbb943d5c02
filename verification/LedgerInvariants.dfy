/** What every run of postings and commitments keeps: stocks equal flows, the
    books balance, ids are unique, commitments are never over-settled. */
module LedgerInvariants {
  import opened Wrappers
  import Canonical
  import opened Journal
  import opened Ledger

  datatype Step = Post(entry: JournalEntry, fate: TxFate) | Create(commitment: Commitment, fate: TxFate)

  function Exec(env: Env, s: LedgerState, step: Step): LedgerState {
    match step
    case Post(e, fate) => Posted(env, s, e, fate).state
    case Create(c, fate) => Created(env, s, c, fate).state
  }

  /** Any number of committed, refused and failed transactions, in any order. */
  function Run(env: Env, s: LedgerState, steps: seq<Step>): LedgerState {
    if |steps| == 0 then s
    else Exec(env, Run(env, s, steps[..|steps| - 1]), steps[|steps| - 1])
  }

  /** What a posting that reaches the tables does to each of them. */
  ghost predicate Applied(env: Env, s: LedgerState, e: JournalEntry, t: LedgerState) {
    && Validate(e).None? && InsertError(env, s.entries, Stored(e)).None? && StoresLines(env, e.institutionId, e.lines)
    && t.entries == s.entries + [Stored(e)]
    && UpsertLines(s.balances, e.institutionId, e.lines) == Some(t.balances)
    && t.audit == s.audit + [PostingEvent(Stored(e))]
    && if e.commitmentId == "" then t.settlements == s.settlements && t.commitments == s.commitments
       else && SettleError(s, e).None?
            && t.settlements == Settle(s, e).settlements && t.commitments == Settle(s, e).commitments
  }

  /** A settlement looks at commitments and settlements only. */
  lemma SettleReads(s: LedgerState, mid: LedgerState, e: JournalEntry)
    requires mid.commitments == s.commitments && mid.settlements == s.settlements
    ensures SettleError(mid, e) == SettleError(s, e)
    ensures SettleError(s, e).None? ==>
              && Settle(mid, e).settlements == Settle(s, e).settlements
              && Settle(mid, e).commitments == Settle(s, e).commitments
              && Settle(mid, e).entries == mid.entries && Settle(mid, e).balances == mid.balances
              && Settle(mid, e).audit == mid.audit
  {
  }

  lemma WrittenIsApplied(env: Env, s: LedgerState, e: JournalEntry, t: LedgerState)
    requires Validate(e).None? && Write(env, s, e) == Ok(t)
    ensures Applied(env, s, e, t) && t != s
  {
    var mid := s.(entries := s.entries + [Stored(e)],
                  balances := UpsertLines(s.balances, e.institutionId, e.lines).value);
    SettleReads(s, mid, e);
  }

  /** All or nothing: a posting applies in full or leaves every table alone; if
      the caller sees no error it applied, and if the caller sees a domain error
      it did not. */
  lemma PostedAllOrNothing(env: Env, s: LedgerState, e: JournalEntry, fate: TxFate)
    ensures var o := Posted(env, s, e, fate);
            && (o.state == s || Applied(env, s, e, o.state))
            && (o.err.None? ==> Applied(env, s, e, o.state))
            && (o.err.Some? && o.err.value != Database ==> o.state == s)
            && (o.err.Some? && o.state != s ==> fate == AckLost)
  {
    if Validate(e).None? && Write(env, s, e).Ok? { WrittenIsApplied(env, s, e, Write(env, s, e).value); }
  }

  // Stocks equal flows.

  function LineFlow(lines: seq<JournalLine>, accountCode: string, currency: string): int {
    if |lines| == 0 then 0
    else
      var last := lines[|lines| - 1];
      LineFlow(lines[..|lines| - 1], accountCode, currency) +
      (if last.accountCode == accountCode && last.currency == currency then SignedAmount(last) else 0)
  }

  function EntryFlow(e: JournalEntry, key: BalanceKey): int {
    if e.institutionId == key.institutionId then LineFlow(e.lines, key.accountCode, key.currency) else 0
  }

  /** The signed sum of an institution's posted lines on one account in one
      currency. */
  function Flow(entries: seq<JournalEntry>, key: BalanceKey): int {
    if |entries| == 0 then 0
    else Flow(entries[..|entries| - 1], key) + EntryFlow(entries[|entries| - 1], key)
  }

  lemma {:induction false} UpsertLinesFlow(
    balances: map<BalanceKey, int64>, institutionId: string, lines: seq<JournalLine>, key: BalanceKey)
    requires UpsertLines(balances, institutionId, lines).Some?
    ensures Stock(UpsertLines(balances, institutionId, lines).value, key) ==
            Stock(balances, key) +
            (if institutionId == key.institutionId then LineFlow(lines, key.accountCode, key.currency) else 0)
  {
    if |lines| > 0 { UpsertLinesFlow(balances, institutionId, lines[..|lines| - 1], key); }
  }

  /** The accounting invariant. */
  ghost predicate Books(s: LedgerState) {
    && (forall key: BalanceKey :: Stock(s.balances, key) == Flow(s.entries, key))
    && UniqueIds(s.entries)
    && (forall e | e in s.entries :: Validate(e).None?)
    && PostedIds(s.audit) == EntryIds(s.entries)
  }

  /** The ids of the entries, in posting order. */
  function EntryIds(entries: seq<JournalEntry>): (r: seq<string>)
    ensures |r| == |entries| && forall i | 0 <= i < |r| :: r[i] == entries[i].id
  {
    seq(|entries|, i requires 0 <= i < |entries| => entries[i].id)
  }

  /** The entry ids the audit trail says were posted, in order. */
  function PostedIds(audit: seq<AuditEvent>): seq<string> {
    if |audit| == 0 then []
    else
      var last := audit[|audit| - 1];
      PostedIds(audit[..|audit| - 1]) + (if last.eventType == "COMMITMENT_CREATED" then [] else [last.transactionId])
  }

  lemma AppliedKeepsBooks(env: Env, s: LedgerState, e: JournalEntry, t: LedgerState)
    requires Books(s) && Applied(env, s, e, t)
    ensures Books(t)
  {
    var row := Stored(e);
    assert t.entries[..|s.entries|] == s.entries;
    forall key: BalanceKey ensures Stock(t.balances, key) == Flow(t.entries, key) {
      UpsertLinesFlow(s.balances, e.institutionId, e.lines, key);
    }
    forall i | 0 <= i < |s.entries| ensures s.entries[i].id != row.id {
      assert s.entries[i] in s.entries && s.entries[i].id in Ids(s.entries);
    }
    forall x | x in t.entries ensures Validate(x).None? {
      if x != row { assert x in s.entries; }
    }
    assert t.audit[..|s.audit|] == s.audit;
    assert EntryIds(t.entries) == EntryIds(s.entries) + [row.id];
  }

  lemma ExecKeepsBooks(env: Env, s: LedgerState, step: Step)
    requires Books(s)
    ensures Books(Exec(env, s, step))
  {
    var t := Exec(env, s, step);
    match step
    case Post(e, fate) =>
      PostedAllOrNothing(env, s, e, fate);
      if t != s { AppliedKeepsBooks(env, s, e, t); }
    case Create(c, fate) =>
      if t != s { assert t.audit[..|s.audit|] == s.audit; }
  }

  /** In every reachable state each stored balance equals the signed sum of the
      posted lines, no id occurs twice, and the audit trail lists the entries
      in posting order, each once. */
  lemma {:induction false} StocksEqualFlows(env: Env, steps: seq<Step>)
    ensures Books(Run(env, EMPTY, steps))
  {
    if |steps| > 0 {
      StocksEqualFlows(env, steps[..|steps| - 1]);
      ExecKeepsBooks(env, Run(env, EMPTY, steps[..|steps| - 1]), steps[|steps| - 1]);
    }
  }

  /** Nothing that was posted is ever changed or removed. */
  lemma {:induction false} JournalIsAppendOnly(env: Env, s: LedgerState, steps: seq<Step>)
    ensures s.entries <= Run(env, s, steps).entries
  {
    if |steps| > 0 {
      JournalIsAppendOnly(env, s, steps[..|steps| - 1]);
      var mid := Run(env, s, steps[..|steps| - 1]);
      if steps[|steps| - 1].Post? { PostedAllOrNothing(env, mid, steps[|steps| - 1].entry, steps[|steps| - 1].fate); }
    }
  }

  // Conservation.

  ghost function SumKeys(balances: map<BalanceKey, int64>, keys: set<BalanceKey>): int
    requires keys <= balances.Keys
  {
    if keys == {} then 0
    else
      var k :| k in keys;
      balances[k] + SumKeys(balances, keys - {k})
  }

  lemma {:induction false} SumTakeOut(balances: map<BalanceKey, int64>, keys: set<BalanceKey>, k: BalanceKey)
    requires keys <= balances.Keys && k in keys
    ensures SumKeys(balances, keys) == balances[k] + SumKeys(balances, keys - {k})
    decreases |keys|
  {
    var p :| p in keys && SumKeys(balances, keys) == balances[p] + SumKeys(balances, keys - {p});
    if p != k {
      SumTakeOut(balances, keys - {p}, k);
      SumTakeOut(balances, keys - {k}, p);
      assert keys - {p} - {k} == keys - {k} - {p};
    }
  }

  lemma {:induction false} SumAgrees(a: map<BalanceKey, int64>, b: map<BalanceKey, int64>, keys: set<BalanceKey>)
    requires keys <= a.Keys && keys <= b.Keys && forall k | k in keys :: a[k] == b[k]
    ensures SumKeys(a, keys) == SumKeys(b, keys)
    decreases |keys|
  {
    if keys != {} {
      var k :| k in keys;
      SumTakeOut(a, keys, k);
      SumTakeOut(b, keys, k);
      SumAgrees(a, b, keys - {k});
    }
  }

  function KeysOf(balances: map<BalanceKey, int64>, institutionId: string, currency: string): set<BalanceKey> {
    set k | k in balances && k.institutionId == institutionId && k.currency == currency
  }

  /** The sum of all balances of an institution in a currency. */
  ghost function TrialBalance(balances: map<BalanceKey, int64>, institutionId: string, currency: string): int {
    SumKeys(balances, KeysOf(balances, institutionId, currency))
  }

  lemma UpsertTrial(
    balances: map<BalanceKey, int64>, key: BalanceKey, delta: int, institutionId: string, currency: string)
    requires Upsert(balances, key, delta).Some?
    ensures TrialBalance(Upsert(balances, key, delta).value, institutionId, currency) ==
            TrialBalance(balances, institutionId, currency) +
            (if key.institutionId == institutionId && key.currency == currency then delta else 0)
  {
    var next := Upsert(balances, key, delta).value;
    var before, after := KeysOf(balances, institutionId, currency), KeysOf(next, institutionId, currency);
    if key.institutionId == institutionId && key.currency == currency {
      assert after == before + {key};
      SumTakeOut(next, after, key);
      assert after - {key} == before - {key};
      SumAgrees(next, balances, before - {key});
      if key in balances { SumTakeOut(balances, before, key); } else { assert before - {key} == before; }
    } else {
      assert after == before;
      SumAgrees(next, balances, before);
    }
  }

  lemma {:induction false} UpsertLinesTrial(
    balances: map<BalanceKey, int64>, entryInstitution: string, lines: seq<JournalLine>,
    institutionId: string, currency: string)
    requires UpsertLines(balances, entryInstitution, lines).Some?
    ensures TrialBalance(UpsertLines(balances, entryInstitution, lines).value, institutionId, currency) ==
            TrialBalance(balances, institutionId, currency) +
            (if entryInstitution == institutionId then Net(lines, currency) else 0)
  {
    if |lines| > 0 {
      var n := |lines| - 1;
      UpsertLinesTrial(balances, entryInstitution, lines[..n], institutionId, currency);
      var earlier := UpsertLines(balances, entryInstitution, lines[..n]).value;
      UpsertTrial(earlier, LineKey(entryInstitution, lines[n]), SignedAmount(lines[n]), institutionId, currency);
    }
  }

  /** The sum of the true nets of an institution's entries. */
  function NetPosted(entries: seq<JournalEntry>, institutionId: string, currency: string): int {
    if |entries| == 0 then 0
    else
      var last := entries[|entries| - 1];
      NetPosted(entries[..|entries| - 1], institutionId, currency) +
      (if last.institutionId == institutionId then Net(last.lines, currency) else 0)
  }

  lemma {:induction false} TrialIsNetPosted(env: Env, steps: seq<Step>, institutionId: string, currency: string)
    ensures var s := Run(env, EMPTY, steps);
            TrialBalance(s.balances, institutionId, currency) == NetPosted(s.entries, institutionId, currency)
  {
    if |steps| > 0 {
      TrialIsNetPosted(env, steps[..|steps| - 1], institutionId, currency);
      var s, step := Run(env, EMPTY, steps[..|steps| - 1]), steps[|steps| - 1];
      var t := Exec(env, s, step);
      if step.Post? && t != s {
        var e := step.entry;
        PostedAllOrNothing(env, s, e, step.fate);
        UpsertLinesTrial(s.balances, e.institutionId, e.lines, institutionId, currency);
        assert t.entries[..|s.entries|] == s.entries;
      }
    }
  }

  lemma {:induction false} NetPostedMultiple(entries: seq<JournalEntry>, institutionId: string, currency: string)
    requires forall e | e in entries :: Validate(e).None?
    ensures NetPosted(entries, institutionId, currency) % INT64_SPAN == 0
    ensures (forall e | e in entries :: Debits(e.lines, currency) + Credits(e.lines, currency) < INT64_SPAN) ==>
              NetPosted(entries, institutionId, currency) == 0
  {
    if |entries| > 0 {
      var n := |entries| - 1;
      var e := entries[n];
      NetPostedMultiple(entries[..n], institutionId, currency);
      assert e in entries && entries == entries[..n] + [e];
      EntryNet(e, currency);
      MultipleSum(NetPosted(entries[..n], institutionId, currency), Net(e.lines, currency));
    }
  }

  lemma EntryNet(e: JournalEntry, currency: string)
    requires Validate(e).None?
    ensures Net(e.lines, currency) % INT64_SPAN == 0
    ensures Debits(e.lines, currency) + Credits(e.lines, currency) < INT64_SPAN ==> Net(e.lines, currency) == 0
  {
    AcceptedIff(e);
    Sides(e.lines, currency);
    assert forall line | line in e.lines :: LineError(line).None? && line.amountMinor > 0;
    if Debits(e.lines, currency) + Credits(e.lines, currency) < INT64_SPAN { SmallMultiple(Net(e.lines, currency)); }
  }

  lemma MultipleSum(a: int, b: int)
    requires a % INT64_SPAN == 0 && b % INT64_SPAN == 0
    ensures (a + b) % INT64_SPAN == 0
  {
  }

  /** Double-entry conservation: in every reachable state, for every institution
      and currency, the balances of all accounts add up to a multiple of 2^64,
      and to zero when every posted entry's amounts in that currency total less
      than 2^64. */
  lemma BooksBalance(env: Env, steps: seq<Step>, institutionId: string, currency: string)
    ensures var s := Run(env, EMPTY, steps);
            && TrialBalance(s.balances, institutionId, currency) % INT64_SPAN == 0
            && ((forall e | e in s.entries :: Debits(e.lines, currency) + Credits(e.lines, currency) < INT64_SPAN) ==>
                  TrialBalance(s.balances, institutionId, currency) == 0)
  {
    StocksEqualFlows(env, steps);
    TrialIsNetPosted(env, steps, institutionId, currency);
    NetPostedMultiple(Run(env, EMPTY, steps).entries, institutionId, currency);
  }

  /** All accounts of every institution add up to zero in every currency. */
  ghost predicate InBalance(balances: map<BalanceKey, int64>) {
    forall institutionId, currency :: TrialBalance(balances, institutionId, currency) == 0
  }

  /** In balance after every step of the run. */
  ghost predicate Conserved(env: Env, steps: seq<Step>) {
    |steps| == 0 || (Conserved(env, steps[..|steps| - 1]) && InBalance(Run(env, EMPTY, steps).balances))
  }

  ghost predicate Balanced(e: JournalEntry) {
    forall currency :: Debits(e.lines, currency) == Credits(e.lines, currency)
  }

  ghost predicate NothingOwed(entries: seq<JournalEntry>) {
    forall institutionId, currency :: NetPosted(entries, institutionId, currency) == 0
  }

  lemma NewEntryDecides(entries: seq<JournalEntry>, e: JournalEntry)
    requires NothingOwed(entries)
    ensures NothingOwed(entries + [e]) <==> Balanced(e)
  {
    assert (entries + [e])[..|entries|] == entries;
    forall institutionId, currency
      ensures NetPosted(entries + [e], institutionId, currency) ==
              if e.institutionId == institutionId then Debits(e.lines, currency) - Credits(e.lines, currency) else 0
    {
      assert NetPosted(entries, institutionId, currency) == 0;
      Sides(e.lines, currency);
    }
    if NothingOwed(entries + [e]) {
      forall currency ensures Debits(e.lines, currency) == Credits(e.lines, currency) {
        assert NetPosted(entries + [e], e.institutionId, currency) == 0;
      }
    }
  }

  lemma InBalanceMeans(env: Env, steps: seq<Step>)
    ensures InBalance(Run(env, EMPTY, steps).balances) <==> NothingOwed(Run(env, EMPTY, steps).entries)
  {
    var s := Run(env, EMPTY, steps);
    forall institutionId, currency
      ensures TrialBalance(s.balances, institutionId, currency) == NetPosted(s.entries, institutionId, currency)
    {
      TrialIsNetPosted(env, steps, institutionId, currency);
    }
  }

  /** Conservation, exactly: the balances add up to zero after every step of a
      run, in every institution and currency, if and only if every posted entry
      has equal debits and credits in every currency. */
  lemma {:induction false} ConservedIff(env: Env, steps: seq<Step>)
    ensures Conserved(env, steps) <==> AllBalanced(Run(env, EMPTY, steps).entries)
  {
    if |steps| > 0 {
      var n := |steps| - 1;
      ConservedIff(env, steps[..n]);
      InBalanceMeans(env, steps);
      var s, t := Run(env, EMPTY, steps[..n]), Run(env, EMPTY, steps);
      EntriesAfter(env, s, steps[n]);
      if Conserved(env, steps[..n]) {
        ConservedNow(env, steps[..n]);
        BalancedAfter(s.entries, t.entries);
      } else {
        StillUnbalanced(s.entries, t.entries);
      }
    }
  }

  ghost predicate AllBalanced(entries: seq<JournalEntry>) {
    forall e | e in entries :: Balanced(e)
  }

  lemma BalancedAfter(entries: seq<JournalEntry>, more: seq<JournalEntry>)
    requires NothingOwed(entries) && AllBalanced(entries)
    requires more == entries || (|more| == |entries| + 1 && entries <= more)
    ensures NothingOwed(more) <==> AllBalanced(more)
  {
    if more != entries {
      var e := more[|entries|];
      assert more == entries + [e] && e in more;
      NewEntryDecides(entries, e);
    }
  }

  lemma StillUnbalanced(entries: seq<JournalEntry>, more: seq<JournalEntry>)
    requires entries <= more && !AllBalanced(entries)
    ensures !AllBalanced(more)
  {
    var e :| e in entries && !Balanced(e);
    assert e in more;
  }

  lemma ConservedNow(env: Env, steps: seq<Step>)
    requires Conserved(env, steps)
    ensures NothingOwed(Run(env, EMPTY, steps).entries)
  {
    InBalanceMeans(env, steps);
  }

  lemma EntriesAfter(env: Env, s: LedgerState, step: Step)
    ensures var t := Exec(env, s, step);
            t.entries == s.entries || (|t.entries| == |s.entries| + 1 && s.entries <= t.entries)
  {
    if step.Post? { PostedAllOrNothing(env, s, step.entry, step.fate); }
  }

  lemma DistinctAccountsFit(institutionId: string, x: JournalLine, y: JournalLine, z: JournalLine)
    requires x.accountCode != y.accountCode && x.accountCode != z.accountCode && y.accountCode != z.accountCode
    requires x.amountMinor > 0 && y.amountMinor > 0 && z.amountMinor > 0
    ensures UpsertLines(map[], institutionId, [x, y, z]).Some?
  {
    assert [x, y, z][..2] == [x, y] && [x, y][..1] == [x] && [x][..0] == [];
    var m0: map<BalanceKey, int64> := map[];
    assert UpsertLines(m0, institutionId, []) == Some(m0);
    var m1 := UpsertLines(m0, institutionId, [x]);
    assert m1 == Upsert(m0, LineKey(institutionId, x), SignedAmount(x));
    assert m1.Some? && m1.value.Keys == {LineKey(institutionId, x)};
    var m2 := UpsertLines(m0, institutionId, [x, y]);
    assert m2 == Upsert(m1.value, LineKey(institutionId, y), SignedAmount(y));
    assert m2.Some? && m2.value.Keys == {LineKey(institutionId, x), LineKey(institutionId, y)};
  }

  /** Beyond that bound conservation fails: the entry of DebitsAloneAccepted,
      posted to an empty ledger, leaves the books 2^64 out of balance. */
  lemma UnbalancedPostingReachable(env: Env, e: JournalEntry, a: string, b: string, c: string, currency: string)
    requires a != "" && b != "" && c != "" && a != b && a != c && b != c
    requires e.lines == [JournalLine(a, "DEBIT", INT64_MAX, currency), JournalLine(b, "DEBIT", INT64_MAX, currency),
                         JournalLine(c, "DEBIT", 2, currency)]
    requires HeaderError(e).None? && Canonical.IsCurrencyCode(currency)
    requires e.status == "" && e.entryType == "" && e.reversesEntryId == "" && e.commitmentId == ""
    requires e.institutionId in env.institutions && StoresEntry(env, Stored(e))
    requires StoresLines(env, e.institutionId, e.lines)
    ensures TrialBalance(Run(env, EMPTY, [Post(e, Committed)]).balances, e.institutionId, currency) == INT64_SPAN
  {
    var steps := [Post(e, Committed)];
    assert e.(lines := e.lines) == e && Validate(e).None?
           && Debits(e.lines, currency) - Credits(e.lines, currency) == INT64_SPAN by {
      DebitsAloneAccepted(e, a, b, c, currency);
    }
    DistinctAccountsFit(e.institutionId, e.lines[0], e.lines[1], e.lines[2]);
    assert e.lines == [e.lines[0], e.lines[1], e.lines[2]];
    assert steps[..0] == [];
    var t := Run(env, EMPTY, steps);
    assert Run(env, EMPTY, []) == EMPTY;
    assert t == Exec(env, EMPTY, steps[0]) == Posted(env, EMPTY, e, Committed).state;
    assert t.entries == [Stored(e)] && [Stored(e)][..0] == [];
    TrialIsNetPosted(env, steps, e.institutionId, currency);
    Sides(e.lines, currency);
  }

  // Reversal cancels.

  lemma {:induction false} FlowConcat(a: seq<JournalEntry>, b: seq<JournalEntry>, key: BalanceKey)
    ensures Flow(a + b, key) == Flow(a, key) + Flow(b, key)
  {
    if |b| == 0 {
      assert a + b == a;
    } else {
      assert (a + b)[..|a + b| - 1] == a + b[..|b| - 1];
      FlowConcat(a, b[..|b| - 1], key);
    }
  }

  lemma {:induction false} FlipFlow(lines: seq<JournalLine>, accountCode: string, currency: string)
    requires forall line | line in lines :: LineError(line).None?
    ensures LineFlow(FlipLines(lines), accountCode, currency) == -LineFlow(lines, accountCode, currency)
  {
    if |lines| > 0 {
      var n := |lines| - 1;
      assert FlipLines(lines)[..n] == FlipLines(lines[..n]) && lines[n] in lines;
      FlipFlow(lines[..n], accountCode, currency);
    }
  }

  lemma FlowOne(e: JournalEntry, key: BalanceKey)
    ensures Flow([e], key) == EntryFlow(e, key)
  {
    assert [e][..0] == [];
  }

  /** Wherever in a run an entry and its reversal were posted, every balance is
      what the other postings alone amount to. */
  lemma ReversalCancels(
    env: Env, steps: seq<Step>, key: BalanceKey, e: JournalEntry, id: string, effectiveDate: string,
    before: seq<JournalEntry>, between: seq<JournalEntry>, after: seq<JournalEntry>)
    requires Run(env, EMPTY, steps).entries ==
             before + [Stored(e)] + between + [Stored(ReversalOf(e, id, effectiveDate))] + after
    ensures Stock(Run(env, EMPTY, steps).balances, key) == Flow(before + between + after, key)
  {
    StocksEqualFlows(env, steps);
    var row, undo := Stored(e), Stored(ReversalOf(e, id, effectiveDate));
    var entries := Run(env, EMPTY, steps).entries;
    assert row in entries && entries[|before|] == row;
    AcceptedIff(row);
    FlipFlow(e.lines, key.accountCode, key.currency);
    FlowConcat(before + [row] + between + [undo], after, key);
    FlowConcat(before + [row] + between, [undo], key);
    FlowConcat(before + [row], between, key);
    FlowConcat(before, [row], key);
    FlowConcat(before + between, after, key);
    FlowConcat(before, between, key);
    FlowOne(row, key);
    FlowOne(undo, key);
  }

  // The commitment lifecycle.

  /** References that hold whatever the amounts are. */
  ghost predicate Linked(s: LedgerState) {
    && (forall id | id in s.commitments :: s.commitments[id].id == id && s.commitments[id].amountMinor > 0
                                            && s.commitments[id].status != Cancelled)
    && (forall x | x in s.settlements ::
          x.commitmentId in s.commitments && x.entryId in Ids(s.entries) && x.amountMinor > 0)
  }

  ghost predicate WithinAmount(s: LedgerState, id: string)
    requires id in s.commitments
  {
    var total, c := SettledTotal(s.settlements, id), s.commitments[id];
    (c.status == Open ==> total < c.amountMinor) && (c.status == Settled ==> total == c.amountMinor)
  }

  /** The settlement is the debit total of its posted entry, in the currency
      and for the institution of its commitment. */
  ghost predicate SettlesExactly(s: LedgerState, x: Settlement)
    requires x.commitmentId in s.commitments
  {
    var c := s.commitments[x.commitmentId];
    exists e :: e in s.entries && e.id == x.entryId && e.institutionId == c.institutionId
                && x.amountMinor == Debits(e.lines, c.currency)
  }

  /** Settlements never exceed a commitment, OPEN means strictly less, SETTLED
      exactly equal, and each settlement is its entry's debit total. */
  ghost predicate Lifecycle(s: LedgerState)
    requires Linked(s)
  {
    && (forall id | id in s.commitments :: WithinAmount(s, id))
    && (forall x | x in s.settlements :: SettlesExactly(s, x))
  }

  /** What is already settled plus the entry's debits in the commitment's
      currency is still a 64-bit number. */
  ghost predicate InRange(s: LedgerState, e: JournalEntry) {
    e.commitmentId in s.commitments ==>
      SettledTotal(s.settlements, e.commitmentId)
      + Debits(e.lines, s.commitments[e.commitmentId].currency) <= INT64_MAX
  }

  lemma {:induction false} SumIsWrappedDebits(lines: seq<JournalLine>, currency: string)
    ensures SettlementSum(lines, currency) == Wrap(Debits(lines, currency))
  {
    if |lines| > 0 {
      var n := |lines| - 1;
      SumIsWrappedDebits(lines[..n], currency);
      WrapAdd(Debits(lines[..n], currency), lines[n].amountMinor);
    }
  }

  lemma WrapSmall(x: int)
    requires 0 <= x <= INT64_MAX
    ensures Wrap(x) == x
  {
  }

  lemma TotalOfNew(settlements: seq<Settlement>, x: Settlement, id: string)
    ensures SettledTotal(settlements + [x], id) ==
            SettledTotal(settlements, id) + (if x.commitmentId == id then x.amountMinor else 0)
  {
    assert (settlements + [x])[..|settlements|] == settlements;
  }

  lemma {:induction false} TotalBounds(settlements: seq<Settlement>, id: string)
    requires forall x | x in settlements :: x.amountMinor > 0
    ensures SettledTotal(settlements, id) >= 0
    ensures (forall x | x in settlements :: x.commitmentId != id) ==> SettledTotal(settlements, id) == 0
  {
    if |settlements| > 0 {
      TotalBounds(settlements[..|settlements| - 1], id);
      assert settlements[|settlements| - 1] in settlements;
    }
  }

  lemma AppliedKeepsLinked(env: Env, s: LedgerState, e: JournalEntry, t: LedgerState)
    requires Linked(s) && Applied(env, s, e, t)
    ensures Linked(t)
  {
    assert Stored(e) in t.entries && e.id in Ids(t.entries);
    forall id | id in Ids(s.entries) ensures id in Ids(t.entries) {
      var x :| x in s.entries && x.id == id;
      assert x in t.entries;
    }
    if e.commitmentId != "" {
      var c := s.commitments[e.commitmentId];
      forall x | x in t.settlements
        ensures x.commitmentId in t.commitments && x.entryId in Ids(t.entries) && x.amountMinor > 0
      {
        if x !in s.settlements { assert x == Settlement(c.id, e.id, SettlementSum(e.lines, c.currency)); }
      }
    }
  }

  lemma ExecKeepsLinked(env: Env, s: LedgerState, step: Step)
    requires Linked(s)
    ensures Linked(Exec(env, s, step))
  {
    if step.Post? {
      PostedAllOrNothing(env, s, step.entry, step.fate);
      var t := Exec(env, s, step);
      if t != s { AppliedKeepsLinked(env, s, step.entry, t); }
    }
  }

  /** The posting applied and settled a commitment. */
  ghost predicate Settles(env: Env, s: LedgerState, e: JournalEntry, t: LedgerState) {
    Applied(env, s, e, t) && e.commitmentId != ""
  }

  /** The settlement rows after a settling posting, and its commitment. */
  ghost predicate SettledBy(s: LedgerState, e: JournalEntry, t: LedgerState, x: Settlement) {
    && e.commitmentId in s.commitments
    && var c := s.commitments[e.commitmentId];
    && var total := SettledTotal(s.settlements, c.id) + x.amountMinor;
    && c.id == e.commitmentId && c.status == Open && c.institutionId == e.institutionId
    && x == Settlement(c.id, e.id, Wrap(Debits(e.lines, c.currency)))
    && t.settlements == s.settlements + [x]
    && Wrap(total) <= c.amountMinor
    && t.commitments == s.commitments[c.id := c.(status := if Wrap(total) == c.amountMinor then Settled else Open)]
  }

  lemma SettleFacts(env: Env, s: LedgerState, e: JournalEntry, t: LedgerState)
    requires Linked(s) && Settles(env, s, e, t)
    ensures |t.settlements| == |s.settlements| + 1
    ensures SettledBy(s, e, t, t.settlements[|s.settlements|])
  {
    SettleMeans(s, e);
    var u := Settle(s, e);
    assert t.settlements == u.settlements && t.commitments == u.commitments;
  }

  lemma SettleMeans(s: LedgerState, e: JournalEntry)
    requires SettleError(s, e).None? && s.commitments[e.commitmentId].id == e.commitmentId
    ensures var u := Settle(s, e);
            |u.settlements| == |s.settlements| + 1 && SettledBy(s, e, u, u.settlements[|s.settlements|])
  {
    var c := s.commitments[e.commitmentId];
    SumIsWrappedDebits(e.lines, c.currency);
    UnchangedCommitment(s.commitments, c.id);
  }

  lemma UnchangedCommitment(commitments: map<string, Commitment>, id: string)
    ensures id in commitments && commitments[id].status == Open ==>
              commitments == commitments[id := commitments[id].(status := Open)]
  {
  }

  lemma NewSettlementExact(env: Env, s: LedgerState, e: JournalEntry, t: LedgerState, x: Settlement)
    requires Books(s) && Linked(s) && Linked(t) && Settles(env, s, e, t) && SettledBy(s, e, t, x)
    ensures x in t.settlements
    ensures SettlesExactly(t, x) <==> x.amountMinor == Debits(e.lines, s.commitments[e.commitmentId].currency)
  {
    AppliedKeepsBooks(env, s, e, t);
    assert t.entries[|s.entries|] == Stored(e) && Stored(e) in t.entries;
    forall y | y in t.entries && y.id == e.id ensures y == Stored(e) {
      var i :| 0 <= i < |t.entries| && t.entries[i] == y;
      assert i == |s.entries|;
    }
  }

  lemma SettlesAlike(s: LedgerState, t: LedgerState, x: Settlement)
    requires x.commitmentId in s.commitments && x.commitmentId in t.commitments
    requires s.commitments[x.commitmentId].institutionId == t.commitments[x.commitmentId].institutionId
    requires s.commitments[x.commitmentId].currency == t.commitments[x.commitmentId].currency
    requires forall y | y in s.entries :: y in t.entries
    requires forall y | y in t.entries && y.id == x.entryId :: y in s.entries
    ensures SettlesExactly(t, x) == SettlesExactly(s, x)
  {
  }

  lemma OldSettlementStays(env: Env, s: LedgerState, e: JournalEntry, t: LedgerState, x: Settlement)
    requires Books(s) && Linked(s) && Linked(t) && Applied(env, s, e, t) && x in s.settlements
    ensures x in t.settlements && SettlesExactly(t, x) == SettlesExactly(s, x)
  {
    assert x in t.settlements && x.entryId != e.id;
    forall y | y in t.entries && y.id == x.entryId ensures y in s.entries {
      assert y != Stored(e);
    }
    SettlesAlike(s, t, x);
  }

  /** In range, wrapped arithmetic is exact. */
  lemma RangeIsExact(s: LedgerState, e: JournalEntry, t: LedgerState, x: Settlement)
    requires Linked(s) && Validate(e).None? && SettledBy(s, e, t, x) && InRange(s, e)
    ensures x.amountMinor == Debits(e.lines, s.commitments[e.commitmentId].currency)
    ensures var total := SettledTotal(s.settlements, e.commitmentId) + x.amountMinor; Wrap(total) == total
  {
    var currency := s.commitments[e.commitmentId].currency;
    TotalBounds(s.settlements, e.commitmentId);
    AcceptedIff(e);
    assert forall line | line in e.lines :: LineError(line).None? && line.amountMinor > 0;
    Sides(e.lines, currency);
    WrapSmall(Debits(e.lines, currency));
    WrapSmall(SettledTotal(s.settlements, e.commitmentId) + Debits(e.lines, currency));
  }

  lemma StillWithin(s: LedgerState, e: JournalEntry, t: LedgerState, x: Settlement, id: string)
    requires SettledBy(s, e, t, x) && id in s.commitments && WithinAmount(s, id)
    requires var total := SettledTotal(s.settlements, e.commitmentId) + x.amountMinor; Wrap(total) == total
    ensures id in t.commitments && WithinAmount(t, id)
  {
    TotalOfNew(s.settlements, x, id);
    if id != e.commitmentId { assert t.commitments[id] == s.commitments[id]; }
  }

  lemma InRangeKeepsWithin(env: Env, s: LedgerState, e: JournalEntry, t: LedgerState, x: Settlement)
    requires Books(s) && Linked(s) && Linked(t) && Settles(env, s, e, t) && Lifecycle(s) && InRange(s, e)
    requires SettledBy(s, e, t, x)
    ensures forall id | id in t.commitments :: WithinAmount(t, id)
  {
    NewSettlementExact(env, s, e, t, x);
    RangeIsExact(s, e, t, x);
    forall id | id in t.commitments ensures WithinAmount(t, id) {
      StillWithin(s, e, t, x, id);
    }
  }

  lemma InRangeKeepsExact(env: Env, s: LedgerState, e: JournalEntry, t: LedgerState, x: Settlement)
    requires Books(s) && Linked(s) && Linked(t) && Settles(env, s, e, t) && Lifecycle(s) && InRange(s, e)
    requires SettledBy(s, e, t, x)
    ensures forall y | y in t.settlements :: SettlesExactly(t, y)
  {
    NewSettlementExact(env, s, e, t, x);
    RangeIsExact(s, e, t, x);
    forall y | y in s.settlements ensures SettlesExactly(t, y) { OldSettlementStays(env, s, e, t, y); }
    assert forall y | y in t.settlements :: y in s.settlements || y == x;
  }

  lemma InRangeKeepsSound(env: Env, s: LedgerState, e: JournalEntry, t: LedgerState)
    requires Books(s) && Linked(s) && Linked(t) && Settles(env, s, e, t) && Lifecycle(s) && InRange(s, e)
    ensures Lifecycle(t)
  {
    SettleFacts(env, s, e, t);
    var x := t.settlements[|s.settlements|];
    InRangeKeepsWithin(env, s, e, t, x);
    InRangeKeepsExact(env, s, e, t, x);
  }

  lemma SoundMeansInRange(env: Env, s: LedgerState, e: JournalEntry, t: LedgerState)
    requires Books(s) && Linked(s) && Linked(t) && Settles(env, s, e, t) && Lifecycle(t)
    ensures InRange(s, e)
  {
    SettleFacts(env, s, e, t);
    var x := t.settlements[|s.settlements|];
    NewSettlementExact(env, s, e, t, x);
    TotalOfNew(s.settlements, x, e.commitmentId);
    assert x in t.settlements && SettlesExactly(t, x);
    assert WithinAmount(t, e.commitmentId);
  }

  /** Every step but an out-of-range settlement keeps the ledger sound, and no
      step repairs an unsound one. */
  lemma StepSoundIff(env: Env, s: LedgerState, step: Step)
    requires Books(s) && Linked(s)
    ensures Linked(Exec(env, s, step))
    ensures Lifecycle(Exec(env, s, step)) <==>
            Lifecycle(s) && (step.Post? && Settles(env, s, step.entry, Exec(env, s, step)) ==> InRange(s, step.entry))
  {
    ExecKeepsLinked(env, s, step);
    var t := Exec(env, s, step);
    if t != s {
      match step
      case Create(c, fate) =>
        CreateKeepsLifecycle(s, c, t);
      case Post(e, fate) =>
        PostedAllOrNothing(env, s, e, fate);
        if e.commitmentId != "" {
          if Lifecycle(s) && InRange(s, e) { InRangeKeepsSound(env, s, e, t); }
          if Lifecycle(t) { SoundMeansInRange(env, s, e, t); SettlementUndone(env, s, e, t); }
        } else {
          forall x | x in s.settlements { OldSettlementStays(env, s, e, t, x); }
          assert forall id | id in s.commitments :: WithinAmount(t, id) == WithinAmount(s, id);
        }
    }
    if t == s && step.Post? { NotSettledTwice(env, s, step.entry); }
  }

  lemma NotSettledTwice(env: Env, s: LedgerState, e: JournalEntry)
    ensures !Applied(env, s, e, s)
  {
  }

  lemma SettlementUndone(env: Env, s: LedgerState, e: JournalEntry, t: LedgerState)
    requires Books(s) && Linked(s) && Linked(t) && Settles(env, s, e, t) && Lifecycle(t)
    ensures Lifecycle(s)
  {
    SettleFacts(env, s, e, t);
    var x := t.settlements[|s.settlements|];
    NewSettlementExact(env, s, e, t, x);
    assert x in t.settlements;
    forall id | id in s.commitments ensures WithinAmount(s, id) {
      assert WithinAmount(t, id);
      TotalOfNew(s.settlements, x, id);
    }
    forall y | y in s.settlements ensures SettlesExactly(s, y) {
      OldSettlementStays(env, s, e, t, y);
    }
  }

  lemma CreateKeepsLifecycle(s: LedgerState, c: Commitment, t: LedgerState)
    requires Linked(s) && Linked(t) && c.id !in s.commitments && c.amountMinor > 0
    requires t.entries == s.entries && t.settlements == s.settlements
    requires t.commitments == s.commitments[c.id := c.(status := Open)]
    ensures Lifecycle(t) <==> Lifecycle(s)
  {
    TotalBounds(s.settlements, c.id);
    forall id | id in s.commitments ensures WithinAmount(t, id) == WithinAmount(s, id) {
    }
    forall x | x in s.settlements ensures SettlesExactly(t, x) == SettlesExactly(s, x) {
      assert t.commitments[x.commitmentId] == s.commitments[x.commitmentId];
    }
    assert WithinAmount(t, c.id);
  }

  /** Every settlement the run applied was in range when it was applied. */
  ghost predicate AllInRange(env: Env, steps: seq<Step>) {
    |steps| == 0 ||
    var n := |steps| - 1;
    var s := Run(env, EMPTY, steps[..n]);
    && AllInRange(env, steps[..n])
    && (steps[n].Post? && Settles(env, s, steps[n].entry, Exec(env, s, steps[n])) ==> InRange(s, steps[n].entry))
  }

  /** The lifecycle over whole runs: the reached ledger is sound exactly when
      every applied settlement was in range. */
  lemma {:induction false} LifecycleIff(env: Env, steps: seq<Step>)
    ensures Linked(Run(env, EMPTY, steps))
    ensures Lifecycle(Run(env, EMPTY, steps)) <==> AllInRange(env, steps)
  {
    if |steps| > 0 {
      var n := |steps| - 1;
      LifecycleIff(env, steps[..n]);
      StocksEqualFlows(env, steps[..n]);
      StepSoundIff(env, Run(env, EMPTY, steps[..n]), steps[n]);
    }
  }

  /** Out of range the guard is blind: a commitment of the largest amount with
      one unit settled accepts another posting of that whole amount. */
  lemma OverSettlementAccepted(env: Env, s: LedgerState, e: JournalEntry)
    requires e.commitmentId in s.commitments
    requires var c := s.commitments[e.commitmentId];
             && c.id == e.commitmentId && c.status == Open && c.institutionId == e.institutionId
             && c.amountMinor == INT64_MAX && 0 < SettledTotal(s.settlements, c.id) <= INT64_MAX
             && Debits(e.lines, c.currency) == INT64_MAX
    ensures SettleError(s, e).None?
    ensures SettledTotal(Settle(s, e).settlements, e.commitmentId) > s.commitments[e.commitmentId].amountMinor
    ensures Settle(s, e).commitments[e.commitmentId].status == Open
  {
    var c := s.commitments[e.commitmentId];
    SumIsWrappedDebits(e.lines, c.currency);
    WrapSmall(INT64_MAX);
    var settled := SettledTotal(s.settlements, c.id);
    WrapOver(settled);
    TotalOfNew(s.settlements, Settlement(c.id, e.id, INT64_MAX), c.id);
  }

  lemma WrapOver(x: int)
    requires 0 < x <= INT64_MAX
    ensures Wrap(x + INT64_MAX) < 0
  {
  }

  /** A transfer between two accounts that settles a commitment, in good order. */
  ghost predicate Transfer(env: Env, e: JournalEntry, debit: string, credit: string, amount: int64, c: Commitment) {
    && e.lines == [JournalLine(debit, "DEBIT", amount, c.currency), JournalLine(credit, "CREDIT", amount, c.currency)]
    && debit != "" && credit != "" && debit != credit && amount > 0 && Canonical.IsCurrencyCode(c.currency)
    && HeaderError(e).None? && e.status == "" && e.entryType == "" && e.reversesEntryId == "" && e.idempotencyKey == ""
    && e.commitmentId == c.id && c.id != "" && e.institutionId == c.institutionId && e.institutionId in env.institutions
    && StoresEntry(env, Stored(e)) && StoresLines(env, e.institutionId, e.lines)
  }

  lemma TransferValid(e: JournalEntry, x: JournalLine, y: JournalLine)
    requires HeaderError(e).None? && e.lines == [x, y] && LineError(x).None?
    requires y == FlipLine(x).(accountCode := y.accountCode)
    requires x.direction == "DEBIT" && y.accountCode != ""
    ensures Validate(e).None?
    ensures SettlementSum(e.lines, x.currency) == x.amountMinor == Debits(e.lines, x.currency)
  {
    assert e.lines[..1] == [x] && [x][..0] == [];
    assert Side([x], x.currency, true) == x.amountMinor;
    forall c ensures Net(e.lines, c) == 0 && (Debits(e.lines, c) - Credits(e.lines, c)) % INT64_SPAN == 0 {
      assert Net([x], c) == if x.currency == c then SignedAmount(x) else 0;
      Sides(e.lines, c);
    }
    AcceptedIff(e);
    assert SettlementSum([x], x.currency) == Wrap(x.amountMinor);
  }

  lemma FreshAccountsFit(balances: map<BalanceKey, int64>, institutionId: string, x: JournalLine, y: JournalLine)
    requires LineKey(institutionId, x) !in balances && LineKey(institutionId, y) !in balances
    requires x.accountCode != y.accountCode && x.amountMinor > 0 && y.amountMinor > 0
    ensures var moved := UpsertLines(balances, institutionId, [x, y]);
            moved.Some? && moved.value.Keys == balances.Keys + {LineKey(institutionId, x), LineKey(institutionId, y)}
  {
    assert [x, y][..1] == [x] && [x][..0] == [];
    assert UpsertLines(balances, institutionId, []) == Some(balances);
    assert UpsertLines(balances, institutionId, [x]) == Upsert(balances, LineKey(institutionId, x), SignedAmount(x));
  }

  lemma TransferMoves(
    env: Env, balances: map<BalanceKey, int64>, e: JournalEntry, debit: string, credit: string,
    amount: int64, c: Commitment)
    requires Transfer(env, e, debit, credit, amount, c)
    requires forall line | line in e.lines :: LineKey(e.institutionId, line) !in balances
    ensures Validate(e).None?
    ensures var moved := UpsertLines(balances, e.institutionId, e.lines);
            moved.Some? && forall k | k in moved.value && k !in balances ::
              k.accountCode == debit || k.accountCode == credit
  {
    var x, y := e.lines[0], e.lines[1];
    assert x in e.lines && y in e.lines;
    TransferValid(e, x, y);
    FreshAccountsFit(balances, e.institutionId, x, y);
  }

  lemma TransferInserts(
    env: Env, s: LedgerState, e: JournalEntry, debit: string, credit: string, amount: int64, c: Commitment)
    requires Transfer(env, e, debit, credit, amount, c) && e.id !in Ids(s.entries)
    ensures InsertError(env, s.entries, Stored(e)).None?
  {
  }

  lemma WriteGoesThrough(env: Env, s: LedgerState, e: JournalEntry)
    requires InsertError(env, s.entries, Stored(e)).None? && e.commitmentId != "" && SettleError(s, e).None?
    requires UpsertLines(s.balances, e.institutionId, e.lines).Some? && StoresLines(env, e.institutionId, e.lines)
    ensures Write(env, s, e).Ok?
  {
    var mid := s.(entries := s.entries + [Stored(e)],
                  balances := UpsertLines(s.balances, e.institutionId, e.lines).value);
    SettleReads(s, mid, e);
  }

  /** A settling posting that passes every check goes through. */
  lemma PostingGoesThrough(env: Env, s: LedgerState, e: JournalEntry)
    requires Validate(e).None? && Write(env, s, e).Ok?
    ensures var o := Posted(env, s, e, Committed); o.err.None? && Applied(env, s, e, o.state)
  {
    PostedAllOrNothing(env, s, e, Committed);
  }

  /** Such a transfer on fresh accounts posts whenever the settlement's own
      checks let it. */
  lemma TransferPosts(
    env: Env, s: LedgerState, e: JournalEntry, debit: string, credit: string, amount: int64, c: Commitment)
    requires Transfer(env, e, debit, credit, amount, c) && e.id !in Ids(s.entries) && SettleError(s, e).None?
    requires forall line | line in e.lines :: LineKey(e.institutionId, line) !in s.balances
    ensures var o := Posted(env, s, e, Committed);
            && o.err.None? && Applied(env, s, e, o.state)
            && forall k | k in o.state.balances && k !in s.balances :: k.accountCode == debit || k.accountCode == credit
  {
    TransferMoves(env, s.balances, e, debit, credit, amount, c);
    TransferInserts(env, s, e, debit, credit, amount, c);
    WriteGoesThrough(env, s, e);
    PostingGoesThrough(env, s, e);
  }

  lemma OneSettlement(x: Settlement, commitmentId: string)
    ensures SettledTotal([], commitmentId) == 0
    ensures SettledTotal([x], commitmentId) == if x.commitmentId == commitmentId then x.amountMinor else 0
  {
    assert [x][..0] == [];
  }

  /** And it happens: from an empty ledger, create a commitment of the largest
      amount, settle one unit, then settle the whole amount. Both postings are
      valid and accepted, and the commitment is settled beyond its amount and
      still OPEN. */
  lemma OverSettlementReachable(
    env: Env, c: Commitment, small: JournalEntry, large: JournalEntry, x: string, y: string, p: string, q: string)
    requires ValidateCommitment(c) && StoresCommitment(env, c) && c.amountMinor == INT64_MAX
    requires Transfer(env, small, x, y, 1, c) && Transfer(env, large, p, q, INT64_MAX, c) && small.id != large.id
    requires p != x && p != y && q != x && q != y
    ensures var s := Run(env, EMPTY, [Create(c, Committed), Post(small, Committed), Post(large, Committed)]);
            && |s.entries| == 2 && c.id in s.commitments && s.commitments[c.id].status == Open
            && SettledTotal(s.settlements, c.id) > c.amountMinor
            && Linked(s) && !Lifecycle(s)
  {
    var steps := [Create(c, Committed), Post(small, Committed), Post(large, Committed)];
    var s1 := Created(env, EMPTY, c, Committed).state;
    var s2 := Posted(env, s1, small, Committed).state;
    var s3 := Posted(env, s2, large, Committed).state;
    assert steps[..2][..1] == steps[..1] && steps[..1][..0] == [] && steps[..3] == steps;
    assert Run(env, EMPTY, steps[..1]) == s1;
    assert Run(env, EMPTY, steps[..2]) == s2;
    assert Run(env, EMPTY, steps) == s3;
    SmallSettled(env, c, s1, small, x, y);
    assert forall line | line in large.lines :: line.accountCode == p || line.accountCode == q;
    LargeSettled(env, c, s2, large, small.id, p, q);
    LifecycleIff(env, steps);
    assert !WithinAmount(s3, c.id);
  }

  lemma SmallSettled(env: Env, c: Commitment, s: LedgerState, small: JournalEntry, x: string, y: string)
    requires Transfer(env, small, x, y, 1, c) && c.amountMinor == INT64_MAX
    requires s.entries == [] && s.balances == map[] && s.settlements == []
    requires s.commitments == map[c.id := c.(status := Open)]
    ensures var t := Posted(env, s, small, Committed).state;
            && t.entries == [Stored(small)] && t.settlements == [Settlement(c.id, small.id, 1)]
            && t.commitments == map[c.id := c.(status := Open)]
            && forall k | k in t.balances :: k.accountCode == x || k.accountCode == y
  {
    TransferValid(small, small.lines[0], small.lines[1]);
    SmallAllowed(c, s, small);
    TransferPosts(env, s, small, x, y, 1, c);
  }

  lemma SmallAllowed(c: Commitment, s: LedgerState, small: JournalEntry)
    requires small.commitmentId == c.id && small.institutionId == c.institutionId && c.amountMinor == INT64_MAX
    requires SettlementSum(small.lines, c.currency) == 1
    requires s.settlements == [] && s.commitments == map[c.id := c.(status := Open)]
    ensures SettleError(s, small).None?
    ensures Settle(s, small).settlements == [Settlement(c.id, small.id, 1)]
    ensures Settle(s, small).commitments == s.commitments
  {
    OneSettlement(Settlement(c.id, small.id, 1), c.id);
  }

  lemma LargeSettled(
    env: Env, c: Commitment, s: LedgerState, large: JournalEntry, smallId: string, p: string, q: string)
    requires Transfer(env, large, p, q, INT64_MAX, c) && c.amountMinor == INT64_MAX
    requires |s.entries| == 1 && large.id !in Ids(s.entries)
    requires s.settlements == [Settlement(c.id, smallId, 1)] && s.commitments == map[c.id := c.(status := Open)]
    requires forall line | line in large.lines :: LineKey(large.institutionId, line) !in s.balances
    ensures var t := Posted(env, s, large, Committed).state;
            && |t.entries| == 2 && SettledTotal(t.settlements, c.id) > c.amountMinor
            && c.id in t.commitments && t.commitments[c.id].status == Open
            && t.commitments[c.id].amountMinor == INT64_MAX
  {
    assert Debits(large.lines, c.currency) == INT64_MAX by { TransferValid(large, large.lines[0], large.lines[1]); }
    LargeAllowed(env, c, s, large, smallId);
    TransferPosts(env, s, large, p, q, INT64_MAX, c);
    AppliedSettles(env, s, large, Posted(env, s, large, Committed).state);
  }

  lemma AppliedSettles(env: Env, s: LedgerState, e: JournalEntry, t: LedgerState)
    requires Applied(env, s, e, t) && e.commitmentId != ""
    ensures |t.entries| == |s.entries| + 1
    ensures t.settlements == Settle(s, e).settlements && t.commitments == Settle(s, e).commitments
  {
  }

  lemma LargeAllowed(env: Env, c: Commitment, s: LedgerState, large: JournalEntry, smallId: string)
    requires large.commitmentId == c.id && large.institutionId == c.institutionId && c.amountMinor == INT64_MAX
    requires Debits(large.lines, c.currency) == INT64_MAX
    requires s.settlements == [Settlement(c.id, smallId, 1)] && s.commitments == map[c.id := c.(status := Open)]
    ensures SettleError(s, large).None?
    ensures var u := Settle(s, large);
            && SettledTotal(u.settlements, c.id) > c.amountMinor && c.id in u.commitments
            && u.commitments[c.id].status == Open && u.commitments[c.id].amountMinor == INT64_MAX
  {
    OneSettlement(Settlement(c.id, smallId, 1), c.id);
    OverSettlementAccepted(env, s, large);
    SettleKeepsAmount(s, large);
  }

  lemma SettleKeepsAmount(s: LedgerState, e: JournalEntry)
    requires SettleError(s, e).None? && s.commitments[e.commitmentId].id == e.commitmentId
    ensures var u := Settle(s, e);
            e.commitmentId in u.commitments
            && u.commitments[e.commitmentId].amountMinor == s.commitments[e.commitmentId].amountMinor
  {
  }

  /** A refused settlement leaves every table as it was. */
  lemma RefusedSettlementChangesNothing(env: Env, s: LedgerState, e: JournalEntry, fate: TxFate)
    requires e.commitmentId != "" && SettleError(s, e).Some?
    ensures Posted(env, s, e, fate).state == s && Posted(env, s, e, fate).err.Some?
  {
    PostedAllOrNothing(env, s, e, fate);
  }

  /** Whoever posts for an institution that exists is told that it does not
      exactly when the entry reverses one that is not in the journal, and
      nothing else is wrong with its row. */
  lemma UnknownReversedIff(env: Env, s: LedgerState, e: JournalEntry)
    requires Validate(e).None? && e.institutionId in env.institutions
    ensures Posted(env, s, e, Committed).err == Some(UnknownInstitution) <==>
            && e.reversesEntryId != "" && e.reversesEntryId != e.id && e.reversesEntryId !in Ids(s.entries)
            && StoresEntry(env, Stored(e)) && Stored(e).status in {"POSTED", "REVERSED"}
            && Stored(e).entryType in {"STANDARD", "REVERSAL"}
            && e.id !in Ids(s.entries) && (e.idempotencyKey == "" || e.idempotencyKey !in Keys(s.entries))
  {
  }

  /** So the reversal of an entry never posted is misreported, for any entry. */
  lemma StrayReversalMisreported(env: Env, s: LedgerState, e: JournalEntry, id: string, effectiveDate: string)
    requires Validate(e).None? && id != "" && IsISODate(effectiveDate)
    requires e.id !in Ids(s.entries) && id !in Ids(s.entries) && id != e.id
    requires e.institutionId in env.institutions && StoresEntry(env, Stored(ReversalOf(e, id, effectiveDate)))
    ensures Posted(env, s, ReversalOf(e, id, effectiveDate), Committed).err == Some(UnknownInstitution)
  {
    ReversalAccepted(e, id, effectiveDate);
    AcceptedIff(e);
    UnknownReversedIff(env, s, ReversalOf(e, id, effectiveDate));
  }
}

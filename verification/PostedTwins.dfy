/** Two accepted entries of one institution with one leaf, who can have such a
    twin, and the runs in which it matters. */
module PostedTwins {
  import opened Wrappers
  import opened Text
  import opened Sorting
  import opened Hashing
  import C = Canonical
  import opened Merkle
  import opened Journal
  import opened Ledger
  import opened LedgerInvariants
  import F = Fabric
  import opened Anchoring
  import opened AnchoringProtocol
  import opened AnchoringConvergence
  import opened AnchoringLosses

  // Who can have a twin.

  /** An accepted entry without `|` in its header texts and accounts shares its
      string with no accepted entry of another id; and one with two lines, whose
      accounts hold no `;` either, only with itself up to the order of lines. */
  lemma TwinsHaveBars(x: JournalEntry, y: JournalEntry)
    requires Validate(x).None? && Validate(y).None? && C.NoBar(PublicEntry(x))
    requires C.CanonicalString(PublicEntry(x)) == C.CanonicalString(PublicEntry(y))
    ensures x.id == y.id
    ensures |x.lines| == 2 && (forall line | line in x.lines :: Free(line.accountCode, ';')) ==>
              PublicEntry(y).(lines := PublicEntry(x).lines) == PublicEntry(x)
              && multiset(PublicEntry(y).lines) == multiset(PublicEntry(x).lines)
  {
    var a, b := PublicEntry(x), PublicEntry(y);
    PublicWellFormed(x);
    PublicWellFormed(y);
    C.StringDecidesHeader(a, b);
    if |x.lines| == 2 && (forall line | line in x.lines :: Free(line.accountCode, ';')) {
      forall line | line in a.lines ensures Free(line.accountCode, ';') {
        var k :| 0 <= k < |a.lines| && a.lines[k] == line;
        assert x.lines[k] in x.lines;
      }
      C.StringAndSizeIdentify(a, b);
      AcceptedIff(y);
    }
  }

  /** A transfer from account 2 to another one, with nothing else to it. */
  function Plain(
    id: string, account: string, institutionId: string, year: int, date: string, amount: int64, currency: string)
    : JournalEntry
  {
    JournalEntry(id, institutionId, year, date, "transfer", "", "", "", "", "",
                 [JournalLine(account, "DEBIT", amount, currency), JournalLine("2", "CREDIT", amount, currency)])
  }

  /** What the canonical string has between the id and the lines. */
  function Middle(institutionId: string, year: int, date: string): string {
    Join([institutionId, Decimal(year), date, "POSTED", "STANDARD"], '|')
  }

  /** The pair: what one has in its account, the other has in its id. */
  function LongAccount(institutionId: string, year: int, date: string): string {
    "0|" + Middle(institutionId, year, date) + "|1"
  }

  function LongId(id: string, institutionId: string, year: int, date: string): string {
    id + "|" + Middle(institutionId, year, date) + "|0"
  }

  lemma PlainValid(
    id: string, account: string, institutionId: string, year: int, date: string, amount: int64, currency: string)
    requires id != "" && account != "" && institutionId != "" && year > 0 && IsISODate(date)
    requires amount > 0 && C.IsCurrencyCode(currency)
    ensures Validate(Plain(id, account, institutionId, year, date, amount, currency)).None?
  {
    var e := Plain(id, account, institutionId, year, date, amount, currency);
    TransferValid(e, e.lines[0], e.lines[1]);
  }

  /** The string of a posted plain entry. */
  lemma PlainString(
    id: string, account: string, institutionId: string, year: int, date: string, amount: int64, currency: string)
    ensures var e := PublicEntry(Stored(Plain(id, account, institutionId, year, date, amount, currency)));
            C.CanonicalString(e) ==
            "v1" + "|" + (id + "|" + (Middle(institutionId, year, date) + "|" + C.Body(e.lines)))
  {
    var e := PublicEntry(Stored(Plain(id, account, institutionId, year, date, amount, currency)));
    var mid, body := [institutionId, Decimal(year), date, "POSTED", "STANDARD"], C.Body(e.lines);
    assert C.Fields(e) == ["v1"] + ([id] + (mid + [body]));
    JoinSnoc(mid, body, '|');
    JoinCons(id, mid + [body], '|');
    JoinCons("v1", [id] + (mid + [body]), '|');
  }

  lemma TwoTexts(a: string, b: string)
    requires |a| > 0 && |b| > 0 && a[0] < b[0]
    ensures Sort([a, b], LexLe) == [a, b]
  {
    C.LexOrder();
    SortCorrect([a, b], LexLe);
    assert LexLe(a, b);
    SortedUnique(Sort([a, b], LexLe), [a, b], LexLe);
  }

  lemma TwoLineBody(x: C.Line, y: C.Line)
    requires var a, b := C.LineText(x), C.LineText(y); |a| > 0 && |b| > 0 && a[0] < b[0]
    ensures C.Body([x, y]) == C.LineText(x) + [';'] + C.LineText(y)
  {
    var a, b := C.LineText(x), C.LineText(y);
    assert Map(C.LineText, [x, y]) == [a, b];
    TwoTexts(a, b);
    assert [a, b] == [a] + [b];
    JoinCons(a, [b], ';');
  }

  /** Account 2 comes last, so the other account comes first. */
  lemma PlainBody(account: string, amount: int64, currency: string)
    requires |account| > 0 && account[0] < '2'
    ensures var x, y := C.Line(account, "DEBIT", amount, currency), C.Line("2", "CREDIT", amount, currency);
            C.Body([x, y]) ==
            account + (":" + Join(["DEBIT", Decimal(amount), currency], ':') + [';'] + C.LineText(y))
  {
    var x, y := C.Line(account, "DEBIT", amount, currency), C.Line("2", "CREDIT", amount, currency);
    C.SplitAccount(x);
    C.SplitAccount(y);
    TwoLineBody(x, y);
    Associate(account, ":" + Join(["DEBIT", Decimal(amount), currency], ':'), [';'], C.LineText(y));
  }

  lemma Associate(a: string, b: string, c: string, d: string)
    ensures (a + b) + c + d == a + (b + c + d)
  {
  }

  lemma MovedText(id: string, m: string, rest: string)
    ensures id + "|" + (m + "|" + (("0|" + m + "|1") + rest)) == (id + "|" + m + "|0") + "|" + (m + "|" + ("1" + rest))
  {
  }

  /** Two accepted entries of one institution, with different ids and the same
      canonical string: one for every id, institution, year, date, amount and
      currency. */
  lemma TwinPair(id: string, institutionId: string, year: int, date: string, amount: int64, currency: string)
    requires id != "" && institutionId != "" && year > 0 && IsISODate(date) && amount > 0 && C.IsCurrencyCode(currency)
    ensures var x := Plain(id, LongAccount(institutionId, year, date), institutionId, year, date, amount, currency);
            var y := Plain(LongId(id, institutionId, year, date), "1", institutionId, year, date, amount, currency);
            && Validate(x).None? && Validate(y).None? && x.id != y.id
            && C.CanonicalString(PublicEntry(Stored(x))) == C.CanonicalString(PublicEntry(Stored(y)))
  {
    var account, other := LongAccount(institutionId, year, date), LongId(id, institutionId, year, date);
    PlainValid(id, account, institutionId, year, date, amount, currency);
    PlainValid(other, "1", institutionId, year, date, amount, currency);
    TwinStrings(id, institutionId, year, date, amount, currency);
    assert |other| > |id|;
  }

  lemma TwinStrings(id: string, institutionId: string, year: int, date: string, amount: int64, currency: string)
    ensures var x := Plain(id, LongAccount(institutionId, year, date), institutionId, year, date, amount, currency);
            var y := Plain(LongId(id, institutionId, year, date), "1", institutionId, year, date, amount, currency);
            C.CanonicalString(PublicEntry(Stored(x))) == C.CanonicalString(PublicEntry(Stored(y)))
  {
    var account, other := LongAccount(institutionId, year, date), LongId(id, institutionId, year, date);
    PlainString(id, account, institutionId, year, date, amount, currency);
    PlainString(other, "1", institutionId, year, date, amount, currency);
    PlainLines(id, account, institutionId, year, date, amount, currency);
    PlainLines(other, "1", institutionId, year, date, amount, currency);
    PlainBody(account, amount, currency);
    PlainBody("1", amount, currency);
    MovedText(id, Middle(institutionId, year, date),
              ":" + Join(["DEBIT", Decimal(amount), currency], ':') + [';'] +
              C.LineText(C.Line("2", "CREDIT", amount, currency)));
  }

  lemma PlainLines(
    id: string, account: string, institutionId: string, year: int, date: string, amount: int64, currency: string)
    ensures PublicEntry(Stored(Plain(id, account, institutionId, year, date, amount, currency))).lines ==
            [C.Line(account, "DEBIT", amount, currency), C.Line("2", "CREDIT", amount, currency)]
  {
  }

  // The runs.

  ghost predicate Within(balances: map<BalanceKey, int64>, bound: int) {
    forall key: BalanceKey :: -bound <= Stock(balances, key) <= bound
  }

  /** The database takes the entry's row and lines. */
  ghost predicate Storable(env: Env, e: JournalEntry) {
    && Validate(e).None? && e.institutionId in env.institutions
    && StoresEntry(env, Stored(e)) && StoresLines(env, e.institutionId, e.lines)
  }

  ghost predicate IsPlain(e: JournalEntry, amount: int64) {
    && amount > 0 && |e.lines| == 2 && e.lines[0].amountMinor == amount == e.lines[1].amountMinor
    && e.status == "" && e.entryType == "" && e.reversesEntryId == "" && e.idempotencyKey == "" && e.commitmentId == ""
  }

  lemma UpsertWithin(balances: map<BalanceKey, int64>, key: BalanceKey, delta: int, amount: int64, bound: int)
    requires Within(balances, bound) && (delta == amount || delta == -(amount as int)) && amount > 0
    requires bound + amount <= INT64_MAX
    ensures Upsert(balances, key, delta).Some? && Within(Upsert(balances, key, delta).value, bound + amount)
  {
    assert -bound <= Stock(balances, key) <= bound;
    var next := Upsert(balances, key, delta).value;
    forall k: BalanceKey ensures -(bound + amount) <= Stock(next, k) <= bound + amount {
      assert -bound <= Stock(balances, k) <= bound;
    }
  }

  lemma TwoLinesFit(
    balances: map<BalanceKey, int64>, institutionId: string, x: JournalLine, y: JournalLine, amount: int64, bound: int)
    requires Within(balances, bound) && x.amountMinor == amount == y.amountMinor && amount > 0
    requires bound + 2 * amount <= INT64_MAX
    ensures var moved := UpsertLines(balances, institutionId, [x, y]);
            moved.Some? && Within(moved.value, bound + 2 * amount)
  {
    assert [x, y][..1] == [x] && [x][..0] == [];
    assert UpsertLines(balances, institutionId, []) == Some(balances);
    var m1 := Upsert(balances, LineKey(institutionId, x), SignedAmount(x));
    UpsertWithin(balances, LineKey(institutionId, x), SignedAmount(x), amount, bound);
    assert UpsertLines(balances, institutionId, [x]) == m1;
    UpsertWithin(m1.value, LineKey(institutionId, y), SignedAmount(y), amount, bound + amount);
  }

  lemma PlainPosts(env: Env, s: LedgerState, e: JournalEntry, amount: int64, bound: int)
    requires Storable(env, e) && IsPlain(e, amount) && e.id !in Ids(s.entries)
    requires Within(s.balances, bound) && bound + 2 * amount <= INT64_MAX
    ensures var o := Posted(env, s, e, Committed);
            && o.err.None? && o.state.entries == s.entries + [Stored(e)]
            && Within(o.state.balances, bound + 2 * amount)
  {
    assert e.lines == [e.lines[0], e.lines[1]];
    TwoLinesFit(s.balances, e.institutionId, e.lines[0], e.lines[1], amount, bound);
    assert InsertError(env, s.entries, Stored(e)).None?;
  }

  /** A world in which nothing happened but postings. */
  ghost predicate OnlyPosted(w: World, batch: seq<C.Entry>, ids: set<string>, bound: int, clock: int) {
    && Books(w.ledger) && w == World(w.ledger, w.stamps, START.tables, [], map[], map[])
    && Batch(w.ledger.entries, w.stamps, w.tables.proofs) == batch && Ids(w.ledger.entries) == ids
    && (forall id | id in w.stamps :: w.stamps[id] < clock) && 0 < clock
    && Within(w.ledger.balances, bound)
  }

  lemma OnePosting(
    env: Env, w: World, e: JournalEntry, amount: int64, batch: seq<C.Entry>, ids: set<string>, bound: int, clock: int)
    requires OnlyPosted(w, batch, ids, bound, clock) && |batch| < BATCH_SIZE
    requires Storable(env, e) && IsPlain(e, amount) && e.id !in ids && bound + 2 * amount <= INT64_MAX
    ensures Posted(env, w.ledger, e, Committed).err.None?
    ensures OnlyPosted(Transacted(env, w, Post(e, Committed), clock), batch + [PublicEntry(Stored(e))], ids + {e.id},
                       bound + 2 * amount, clock + 1)
  {
    PlainPosts(env, w.ledger, e, amount, bound);
    PostingShows(env, w, e, clock);
  }

  /** What a posting adds to the ids and to the next batch. */
  lemma PostingShows(env: Env, w: World, e: JournalEntry, clock: int)
    requires Books(w.ledger) && Posted(env, w.ledger, e, Committed).err.None? && e.id !in w.tables.proofs
    requires (forall id | id in w.stamps :: w.stamps[id] < clock) && 0 < clock
    requires |Batch(w.ledger.entries, w.stamps, w.tables.proofs)| < BATCH_SIZE
    ensures var v := Transacted(env, w, Post(e, Committed), clock);
            && Books(v.ledger) && v.ledger == Posted(env, w.ledger, e, Committed).state
            && v == w.(ledger := v.ledger, stamps := w.stamps[e.id := clock])
            && Ids(v.ledger.entries) == Ids(w.ledger.entries) + {e.id}
            && Batch(v.ledger.entries, v.stamps, v.tables.proofs) ==
               Batch(w.ledger.entries, w.stamps, w.tables.proofs) + [PublicEntry(Stored(e))]
  {
    NewRow(env, w, e, clock);
    ExecKeepsBooks(env, w.ledger, Post(e, Committed));
    BatchGrows(w.ledger.entries, w.stamps, w.tables.proofs, Stored(e), clock);
    IdsAfter(w.ledger.entries, Stored(e));
  }

  lemma IdsAfter(entries: seq<JournalEntry>, row: JournalEntry)
    ensures Ids(entries + [row]) == Ids(entries) + {row.id}
  {
    forall id ensures id in Ids(entries + [row]) <==> id in Ids(entries) + {row.id} {
      if id in Ids(entries) {
        var e :| e in entries && e.id == id;
        assert e in entries + [row];
      }
      if id == row.id { assert row in entries + [row]; }
    }
  }

  lemma StartOnlyPosted()
    ensures OnlyPosted(START, [], {}, 0, 1)
  {
    assert Unanchored([], map[]) == [];
  }

  /** The run of some postings, stamped 1, 2, 3 and so on. */
  function Postings(entries: seq<JournalEntry>): seq<Event> {
    seq(|entries|, i requires 0 <= i < |entries| => Transact(Post(entries[i], Committed), i + 1))
  }

  lemma NextPosting(H: Hasher, env: Env, entries: seq<JournalEntry>, e: JournalEntry)
    ensures RunWorld(H, env, START, Postings(entries + [e])) ==
            Transacted(env, RunWorld(H, env, START, Postings(entries)), Post(e, Committed), |entries| + 1)
  {
    var events := Postings(entries + [e]);
    assert events[..|entries|] == Postings(entries);
    assert events[|entries|] == Transact(Post(e, Committed), |entries| + 1);
  }

  function Bound(amount: int64, n: nat): int {
    if n == 0 then 0 else Bound(amount, n - 1) + 2 * amount
  }

  /** Entries that post one after the other, whatever they do to the balances. */
  ghost predicate Postable(env: Env, entries: seq<JournalEntry>, amount: int64) {
    && |entries| <= BATCH_SIZE && Bound(amount, |entries|) <= INT64_MAX && UniqueIds(entries)
    && forall e | e in entries :: Storable(env, e) && IsPlain(e, amount)
  }

  /** From the start they are all posted, and the next batch is these entries in
      the order of posting. */
  lemma {:induction false} PostingsPending(H: Hasher, env: Env, entries: seq<JournalEntry>, amount: int64)
    requires Postable(env, entries, amount) && amount > 0
    ensures OnlyPosted(RunWorld(H, env, START, Postings(entries)), Map(Shown, entries), Ids(entries),
                       Bound(amount, |entries|), |entries| + 1)
  {
    if |entries| == 0 {
      StartOnlyPosted();
    } else {
      var n := |entries| - 1;
      assert entries == entries[..n] + [entries[n]];
      PostableFront(env, entries[..n], entries[n], amount);
      PostingsPending(H, env, entries[..n], amount);
      NextPosting(H, env, entries[..n], entries[n]);
      OneMorePending(env, RunWorld(H, env, START, Postings(entries[..n])), RunWorld(H, env, START, Postings(entries)),
                     entries[..n], entries[n], amount);
    }
  }

  lemma PostableFront(env: Env, front: seq<JournalEntry>, e: JournalEntry, amount: int64)
    requires Postable(env, front + [e], amount) && amount > 0
    ensures Postable(env, front, amount) && Storable(env, e) && IsPlain(e, amount) && e.id !in Ids(front)
    ensures Bound(amount, |front| + 1) == Bound(amount, |front|) + 2 * amount <= INT64_MAX
  {
    var entries := front + [e];
    assert e in entries && entries[|front|] == e && Bound(amount, |entries|) == Bound(amount, |front|) + 2 * amount;
    assert forall x | x in front :: x in entries;
    assert forall i | 0 <= i < |front| :: entries[i] == front[i];
    forall i | 0 <= i < |front| ensures front[i].id != e.id { assert entries[i].id != entries[|front|].id; }
  }

  lemma OneMorePending(env: Env, w: World, v: World, front: seq<JournalEntry>, e: JournalEntry, amount: int64)
    requires Postable(env, front + [e], amount) && amount > 0
    requires OnlyPosted(w, Map(Shown, front), Ids(front), Bound(amount, |front|), |front| + 1)
    requires v == Transacted(env, w, Post(e, Committed), |front| + 1)
    ensures OnlyPosted(v, Map(Shown, front + [e]), Ids(front + [e]), Bound(amount, |front| + 1), |front| + 2)
  {
    PostableFront(env, front, e, amount);
    IdsAfter(front, e);
    ShownAfter(front, e);
    OnePosting(env, w, e, amount, Map(Shown, front), Ids(front), Bound(amount, |front|), |front| + 1);
  }

  lemma ShownAfter(front: seq<JournalEntry>, e: JournalEntry)
    ensures Map(Shown, front + [e]) == Map(Shown, front) + [Shown(e)]
  {
  }

  function Shown(e: JournalEntry): C.Entry {
    PublicEntry(Stored(e))
  }

  /** The four entries: two of no importance and the pair. */
  ghost predicate Four(
    env: Env, p: JournalEntry, q: JournalEntry, x: JournalEntry, y: JournalEntry,
    institutionId: string, year: int, date: string, amount: int64, currency: string)
  {
    && Postable(env, [p, q, x, y], amount) && amount > 0 && x.id != ""
    && institutionId != "" && year > 0 && IsISODate(date) && C.IsCurrencyCode(currency)
    && x == Plain(x.id, LongAccount(institutionId, year, date), institutionId, year, date, amount, currency)
    && y == Plain(LongId(x.id, institutionId, year, date), "1", institutionId, year, date, amount, currency)
  }

  lemma PlainStorable(
    env: Env, id: string, account: string, institutionId: string, year: int, date: string, amount: int64,
    currency: string)
    requires id != "" && account != "" && institutionId != "" && institutionId in env.institutions
    requires 0 < year <= INT32_MAX && IsISODate(date) && amount > 0 && C.IsCurrencyCode(currency)
    requires forall table, texts :: env.stores(table, texts)
    ensures var e := Plain(id, account, institutionId, year, date, amount, currency);
            Storable(env, e) && IsPlain(e, amount)
  {
    PlainValid(id, account, institutionId, year, date, amount, currency);
    AllStored(env, Plain(id, account, institutionId, year, date, amount, currency));
  }

  lemma AllStored(env: Env, e: JournalEntry)
    requires e.fiscalYear <= INT32_MAX && forall table, texts :: env.stores(table, texts)
    ensures StoresEntry(env, Stored(e)) && StoresLines(env, e.institutionId, e.lines)
  {
  }

  lemma FourIds(id: string, middle: string)
    ensures id + "p" != id + "q" && id + "p" != id && id + "q" != id
    ensures id + "|" + middle != id + "p" && id + "|" + middle != id + "q" && id + "|" + middle != id
  {
    var y := id + "|" + middle;
    assert (id + "p")[|id|] == 'p' && (id + "q")[|id|] == 'q' && y[|id|] == '|' && |y| > |id|;
  }

  lemma FourPostable(env: Env, p: JournalEntry, q: JournalEntry, x: JournalEntry, y: JournalEntry, amount: int64)
    requires forall e | e in {p, q, x, y} :: Storable(env, e) && IsPlain(e, amount)
    requires p.id != q.id && p.id != x.id && p.id != y.id && q.id != x.id && q.id != y.id && x.id != y.id
    requires 0 < amount && 8 * amount <= INT64_MAX
    ensures Postable(env, [p, q, x, y], amount)
  {
    assert Bound(amount, 2) == 4 * amount by { assert Bound(amount, 1) == 2 * amount; }
    assert Bound(amount, 4) == 8 * amount by { assert Bound(amount, 3) == 6 * amount; }
  }

  /** There are four such entries for every id, institution, year, date, amount
      and currency, wherever the database takes their rows. */
  lemma FourExist(
    env: Env, id: string, institutionId: string, year: int, date: string, amount: int64, currency: string)
    requires id != "" && institutionId != "" && institutionId in env.institutions && 0 < year <= INT32_MAX
    requires IsISODate(date) && C.IsCurrencyCode(currency) && 0 < amount && 8 * amount <= INT64_MAX
    requires forall table, texts :: env.stores(table, texts)
    ensures Four(env, Plain(id + "p", "1", institutionId, year, date, amount, currency),
                 Plain(id + "q", "1", institutionId, year, date, amount, currency),
                 Plain(id, LongAccount(institutionId, year, date), institutionId, year, date, amount, currency),
                 Plain(LongId(id, institutionId, year, date), "1", institutionId, year, date, amount, currency),
                 institutionId, year, date, amount, currency)
  {
    var long, account := LongId(id, institutionId, year, date), LongAccount(institutionId, year, date);
    var p, q := Plain(id + "p", "1", institutionId, year, date, amount, currency),
                Plain(id + "q", "1", institutionId, year, date, amount, currency);
    var x, y := Plain(id, account, institutionId, year, date, amount, currency),
                Plain(long, "1", institutionId, year, date, amount, currency);
    PlainStorable(env, id + "p", "1", institutionId, year, date, amount, currency);
    PlainStorable(env, id + "q", "1", institutionId, year, date, amount, currency);
    PlainStorable(env, id, account, institutionId, year, date, amount, currency);
    PlainStorable(env, long, "1", institutionId, year, date, amount, currency);
    FourIds(id, Middle(institutionId, year, date) + "|0");
    assert long == id + "|" + (Middle(institutionId, year, date) + "|0");
    FourPostable(env, p, q, x, y, amount);
  }

  /** A twin about to be posted is a reachable situation: from the start post p,
      q and x. */
  lemma TwinPostingExists(
    H: Hasher, env: Env, p: JournalEntry, q: JournalEntry, x: JournalEntry, y: JournalEntry,
    institutionId: string, year: int, date: string, amount: int64, currency: string)
    requires Four(env, p, q, x, y, institutionId, year, date, amount, currency)
    ensures var w := RunWorld(H, env, START, Postings([p, q, x]));
            && TwinPosting(env, w, [Shown(p), Shown(q), Shown(x)], y, 4)
            && w.chain == map[] && w.gateways == map[]
  {
    FirstThree(H, env, p, q, x, y, amount);
    TwinPair(x.id, institutionId, year, date, amount, currency);
  }

  lemma FirstThree(
    H: Hasher, env: Env, p: JournalEntry, q: JournalEntry, x: JournalEntry, y: JournalEntry, amount: int64)
    requires Postable(env, [p, q, x, y], amount) && amount > 0
    ensures var w := RunWorld(H, env, START, Postings([p, q, x]));
            && Batch(w.ledger.entries, w.stamps, w.tables.proofs) == [Shown(p), Shown(q), Shown(x)]
            && w.chain == map[] && w.gateways == map[] && (forall id | id in w.stamps :: w.stamps[id] < 4)
            && Posted(env, w.ledger, y, Committed).err.None?
  {
    var three := [p, q, x];
    assert three + [y] == [p, q, x, y];
    PostableFront(env, three, y, amount);
    PostingsPending(H, env, three, amount);
    ShownThree(p, q, x);
    var w := RunWorld(H, env, START, Postings(three));
    PlainPosts(env, w.ledger, y, amount, Bound(amount, 3));
  }

  lemma ShownThree(p: JournalEntry, q: JournalEntry, x: JournalEntry)
    ensures Map(Shown, [p, q, x]) == [Shown(p), Shown(q), Shown(x)]
  {
  }

  /** So the miscount happens, on a run from the start: p, q and x are posted, a
      gateway commits them and crashes, y is posted, and the next attempt finds
      the root of all four on the chain with a count of three. */
  lemma MiscountHappens(
    H: Hasher, env: Env, p: JournalEntry, q: JournalEntry, x: JournalEntry, y: JournalEntry,
    institutionId: string, year: int, date: string, amount: int64, currency: string,
    g: nat, txId: string, channel: string, now: string)
    requires Four(env, p, q, x, y, institutionId, year, date, amount, currency)
    ensures var crashed :=
              CommittedAndCrashed(H, env, RunWorld(H, env, START, Postings([p, q, x])), g, txId, channel, now);
            var posted := Next(H, env, crashed, Transact(Post(y, Committed), 4));
            var v := ChainAttempt(H, env, posted, g, txId, channel, now);
            var loaded := [Shown(p), Shown(q), Shown(x)] + [Shown(y)];
            && PhaseOf(v, g).RootCommitted? && PhaseOf(v, g).batch == loaded
            && RootOfBatch(H, loaded) in v.chain && v.chain[RootOfBatch(H, loaded)].entryCount == 3
  {
    TwinPostingExists(H, env, p, q, x, y, institutionId, year, date, amount, currency);
    MiscountReached(H, env, Postings([p, q, x]), g, [Shown(p), Shown(q), Shown(x)], y, 4, txId, channel, now);
  }

  /** And so does the false success, after a single posting: the entry is taken
      for anchored ever after, by an anchor that the chain does not hold. */
  lemma FalseSuccessHappens(
    H: Hasher, env: Env, e: JournalEntry, amount: int64, g: nat, text: string, channel: string, now: string,
    anchorId: string, later: seq<Event>)
    requires Storable(env, e) && IsPlain(e, amount) && 2 * amount <= INT64_MAX && F.Contains(text, F.ALREADY_EXISTS)
    ensures var w := RunWorld(H, env, START, Postings([e]));
            var v := Uninterrupted(H, env, w, g, anchorId, ToChain(F.Lost(text), channel, now), Committed);
            var u := RunWorld(H, env, v, later);
            && v.chain == map[] && anchorId in u.tables.anchors && u.tables.anchors[anchorId].backend == FABRIC
            && e.id in u.tables.proofs && u.tables.proofs[e.id].anchorId == anchorId
            && e.id !in HeaderIds(Batch(u.ledger.entries, u.stamps, u.tables.proofs))
  {
    assert Bound(amount, 1) == Bound(amount, 0) + 2 * amount;
    PostingsPending(H, env, [e], amount);
    assert Map(Shown, [e]) == [Shown(e)];
    FalseSuccessRecorded(H, env, Postings([e]), g, text, channel, now, anchorId, later);
    AnchoringSafe(H, env, Postings([e]));
    FalseSuccess(H, env, RunWorld(H, env, START, Postings([e])), g, text, channel, now, anchorId);
    assert Shown(e) in [Shown(e)];
  }
}

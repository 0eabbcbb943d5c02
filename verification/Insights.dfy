/** Robust anomaly scoring: median and median absolute deviation per account.
    Floating point is modelled by exact reals. */
module Insights {
  import opened Text
  import opened Sorting
  import opened Journal

  datatype Observation = Observation(
    entryId: string, institutionId: string, accountCode: string, amountMinor: int64, effectiveDate: string)

  datatype Anomaly = Anomaly(
    entryId: string, institutionId: string, accountCode: string, amountMinor: int64, effectiveDate: string,
    typicalMinor: int, score: real)

  const THRESHOLD := 3.5
  const MIN_OBSERVATIONS := 5
  const MAD_COEF := 1.4826

  predicate RealLe(x: real, y: real) {
    x <= y
  }

  function Median(values: seq<real>): real
    requires |values| > 0
  {
    Middle(Sort(values, RealLe))
  }

  function Middle(sorted: seq<real>): real
    requires |sorted| > 0
  {
    var middle := |sorted| / 2;
    if |sorted| % 2 == 1 then sorted[middle]
    else (sorted[middle - 1] + sorted[middle]) / 2.0
  }

  function Abs(x: real): (r: real)
    ensures r >= 0.0 && (r == x || r == -x)
  {
    if x < 0.0 then -x else x
  }

  function Amounts(group: seq<Observation>): (r: seq<real>)
    ensures |r| == |group| && forall i | 0 <= i < |r| :: r[i] == group[i].amountMinor as real
  {
    seq(|group|, i requires 0 <= i < |group| => group[i].amountMinor as real)
  }

  function Deviations(amounts: seq<real>, center: real): (r: seq<real>)
    ensures |r| == |amounts| && forall i | 0 <= i < |r| :: r[i] == Abs(amounts[i] - center)
  {
    seq(|amounts|, i requires 0 <= i < |amounts| => Abs(amounts[i] - center))
  }

  /** What is typical for an account. */
  datatype Typical = TooFew | Typical(center: real, spread: real)

  function TypicalOf(group: seq<Observation>): (t: Typical) {
    if |group| < MIN_OBSERVATIONS then TooFew
    else
      var center := Median(Amounts(group));
      var mad := Median(Deviations(Amounts(group), center));
      Typical(center, if mad == 0.0 then 1.0 else mad)
  }

  function Truncate(x: real): int {
    if x < 0.0 then -((-x).Floor) else x.Floor
  }

  function Score(o: Observation, center: real, spread: real): real
    requires spread != 0.0
  {
    Abs(o.amountMinor as real - center) / (MAD_COEF * spread)
  }

  function FlagOne(t: Typical, o: Observation): seq<Anomaly> {
    if t.TooFew? || t.spread == 0.0 || Score(o, t.center, t.spread) <= THRESHOLD then []
    else [Anomaly(o.entryId, o.institutionId, o.accountCode, o.amountMinor, o.effectiveDate,
                  Truncate(t.center), Score(o, t.center, t.spread))]
  }

  function FlagWith(t: Typical): Observation -> seq<Anomaly> {
    (o: Observation) => FlagOne(t, o)
  }

  function InAccount(account: string): Observation -> seq<Observation> {
    (o: Observation) => if o.accountCode == account then [o] else []
  }

  /** An account's observations, in input order. */
  function GroupOf(observations: seq<Observation>, account: string): seq<Observation> {
    Collect(InAccount(account), observations)
  }

  function FlagIn(observations: seq<Observation>): Observation -> seq<Anomaly> {
    (o: Observation) => FlagOne(TypicalOf(GroupOf(observations, o.accountCode)), o)
  }

  /** Every observation judged against its own account, in input order. */
  function Flagged(observations: seq<Observation>): seq<Anomaly> {
    Collect(FlagIn(observations), observations)
  }

  /** Highest score first, ties by entry id. */
  predicate AnomalyLe(a: Anomaly, b: Anomaly) {
    if a.score != b.score then a.score > b.score else LexLe(a.entryId, b.entryId)
  }

  /** What ScoreAnomalies may return: the flagged observations in ranking order.
      Neither the map's iteration order nor the sort, which need not be stable,
      is determined further. */
  ghost predicate Ranked(observations: seq<Observation>, anomalies: seq<Anomaly>) {
    Sorted(anomalies, AnomalyLe) && multiset(anomalies) == multiset(Flagged(observations))
  }

  lemma RealOrder()
    ensures TotalPreorder(RealLe) && Antisymmetric(RealLe)
  {
  }

  method MedianOf(values: array<real>) returns (m: real)
    requires values.Length > 0
    ensures m == Median(values[..])
  {
    var sorted := Sort(values[..], RealLe);
    var middle := |sorted| / 2;
    if |sorted| % 2 == 1 { return sorted[middle]; }
    return (sorted[middle - 1] + sorted[middle]) / 2.0;
  }

  method AmountsOf(group: seq<Observation>) returns (amounts: array<real>)
    ensures fresh(amounts) && amounts[..] == Amounts(group)
  {
    amounts := new real[|group|];
    for i := 0 to |group|
      invariant forall k | 0 <= k < i :: amounts[k] == group[k].amountMinor as real
    {
      amounts[i] := group[i].amountMinor as real;
    }
  }

  method DeviationsOf(amounts: array<real>, center: real) returns (deviations: array<real>)
    ensures fresh(deviations) && deviations[..] == Deviations(amounts[..], center)
  {
    deviations := new real[amounts.Length];
    for i := 0 to amounts.Length
      invariant forall k | 0 <= k < i :: deviations[k] == Abs(amounts[k] - center)
    {
      deviations[i] := Abs(amounts[i] - center);
    }
  }

  method FlagGroup(group: seq<Observation>, center: real, spread: real) returns (anomalies: seq<Anomaly>)
    requires spread != 0.0
    ensures anomalies == Collect(FlagWith(Typical(center, spread)), group)
  {
    anomalies := [];
    for i := 0 to |group|
      invariant anomalies == Collect(FlagWith(Typical(center, spread)), group[..i])
    {
      assert group[..i + 1][..i] == group[..i];
      var o := group[i];
      var score := Score(o, center, spread);
      if score > THRESHOLD {
        anomalies := anomalies + [Anomaly(o.entryId, o.institutionId, o.accountCode, o.amountMinor, o.effectiveDate,
                                          Truncate(center), score)];
      }
    }
    assert group[..|group|] == group;
  }

  method ScoreGroup(group: seq<Observation>) returns (anomalies: seq<Anomaly>)
    ensures anomalies == Collect(FlagWith(TypicalOf(group)), group)
  {
    if |group| < MIN_OBSERVATIONS {
      NoneCollected(group);
      return [];
    }
    var amounts := AmountsOf(group);
    var center := MedianOf(amounts);
    var deviations := DeviationsOf(amounts, center);
    var mad := MedianOf(deviations);
    if mad == 0.0 { mad := 1.0; }
    anomalies := FlagGroup(group, center, mad);
  }

  lemma {:induction false} NoneCollected(group: seq<Observation>)
    ensures Collect(FlagWith(TooFew), group) == []
  {
    if |group| > 0 { NoneCollected(group[..|group| - 1]); }
  }

  function InAccounts(accounts: set<string>): Observation -> seq<Observation> {
    (o: Observation) => if o.accountCode in accounts then [o] else []
  }

  function Lookup(byAccount: map<string, seq<Observation>>, account: string): seq<Observation> {
    if account in byAccount then byAccount[account] else []
  }

  lemma {:induction false} GroupMembers(observations: seq<Observation>, account: string)
    ensures forall o | o in GroupOf(observations, account) :: o.accountCode == account
  {
    if |observations| > 0 { GroupMembers(observations[..|observations| - 1], account); }
  }

  lemma {:induction false} AllAccounts(observations: seq<Observation>, accounts: set<string>)
    requires forall o | o in observations :: o.accountCode in accounts
    ensures Collect(InAccounts(accounts), observations) == observations
  {
    if |observations| > 0 {
      var n := |observations| - 1;
      AllAccounts(observations[..n], accounts);
      assert observations == observations[..n] + [observations[n]];
    }
  }

  lemma {:induction false} NoAccounts(observations: seq<Observation>)
    ensures Collect(InAccounts({}), observations) == []
  {
    if |observations| > 0 { NoAccounts(observations[..|observations| - 1]); }
  }

  lemma SumGrows(wide: seq<Anomaly>, narrow: seq<Anomaly>, own: seq<Anomaly>, more: seq<Anomaly>)
    requires multiset(wide) == multiset(narrow) + multiset(own)
    ensures multiset(wide + more) == multiset(narrow + more) + multiset(own)
    ensures multiset(wide + more) == multiset(narrow) + multiset(own + more)
  {
  }

  /** What `wide` flags is what `narrow` and `own` flag together. */
  ghost predicate Splits(
    f: Observation -> seq<Anomaly>, wide: seq<Observation>, narrow: seq<Observation>, own: seq<Observation>)
  {
    multiset(Collect(f, wide)) == multiset(Collect(f, narrow)) + multiset(Collect(f, own))
  }

  lemma SplitsGrow(
    f: Observation -> seq<Anomaly>, wide: seq<Observation>, narrow: seq<Observation>, own: seq<Observation>,
    more: seq<Observation>)
    requires Splits(f, wide, narrow, own)
    ensures Splits(f, wide + more, narrow + more, own) && Splits(f, wide + more, narrow, own + more)
  {
    SumGrows(Collect(f, wide), Collect(f, narrow), Collect(f, own), Collect(f, more));
    CollectAppend(f, wide, more);
    CollectAppend(f, narrow, more);
    CollectAppend(f, own, more);
  }

  /** The last observation goes to the new account, to one of the others, or to none. */
  lemma Selections(observations: seq<Observation>, accounts: set<string>, a: string)
    requires |observations| > 0 && a !in accounts
    ensures var n := |observations| - 1;
            var earlier, o := observations[..n], [observations[n]];
            var wide, narrow, own :=
                Collect(InAccounts(accounts + {a}), earlier), Collect(InAccounts(accounts), earlier),
                                     GroupOf(earlier, a);
            var wide', narrow', own' := Collect(InAccounts(accounts + {a}), observations),
                                        Collect(InAccounts(accounts), observations), GroupOf(observations, a);
            || (wide' == wide + o && narrow' == narrow && own' == own + o)
            || (wide' == wide + o && narrow' == narrow + o && own' == own)
            || (wide' == wide && narrow' == narrow && own' == own)
  {
  }

  /** One more account adds what its own group flags. */
  lemma {:induction false} OneMoreAccount(
    f: Observation -> seq<Anomaly>, observations: seq<Observation>, accounts: set<string>, a: string)
    requires a !in accounts
    ensures Splits(f, Collect(InAccounts(accounts + {a}), observations), Collect(InAccounts(accounts), observations),
                   GroupOf(observations, a))
  {
    if |observations| > 0 {
      var n := |observations| - 1;
      var earlier := observations[..n];
      OneMoreAccount(f, earlier, accounts, a);
      Selections(observations, accounts, a);
      SplitsGrow(f, Collect(InAccounts(accounts + {a}), earlier), Collect(InAccounts(accounts), earlier),
                 GroupOf(earlier, a), [observations[n]]);
    }
  }

  lemma GroupFlags(observations: seq<Observation>, account: string)
    ensures Collect(FlagWith(TypicalOf(GroupOf(observations, account))), GroupOf(observations, account)) ==
            Collect(FlagIn(observations), GroupOf(observations, account))
  {
    GroupMembers(observations, account);
    CollectAgrees(FlagWith(TypicalOf(GroupOf(observations, account))), FlagIn(observations),
                  GroupOf(observations, account));
  }

  lemma AnomalyOrder()
    ensures TotalPreorder(AnomalyLe)
  {
    forall a, b ensures AnomalyLe(a, b) || AnomalyLe(b, a) { LexTotal(a.entryId, b.entryId); }
    forall a, b, c | AnomalyLe(a, b) && AnomalyLe(b, c) ensures AnomalyLe(a, c) {
      if a.score == b.score == c.score { LexTransitive(a.entryId, b.entryId, c.entryId); }
    }
  }

  method ByAccount(observations: seq<Observation>) returns (byAccount: map<string, seq<Observation>>)
    ensures forall a :: Lookup(byAccount, a) == GroupOf(observations, a)
    ensures forall o | o in observations :: o.accountCode in byAccount
  {
    byAccount := map[];
    for i := 0 to |observations|
      invariant forall a :: Lookup(byAccount, a) == GroupOf(observations[..i], a)
      invariant forall k | 0 <= k < i :: observations[k].accountCode in byAccount
    {
      var o := observations[i];
      ghost var before := byAccount;
      byAccount := byAccount[o.accountCode := Lookup(byAccount, o.accountCode) + [o]];
      assert observations[..i + 1][..i] == observations[..i];
      forall a ensures Lookup(byAccount, a) == GroupOf(observations[..i + 1], a) {
        assert Lookup(before, a) == GroupOf(observations[..i], a);
      }
    }
    assert observations[..|observations|] == observations;
  }

  /** The keys are visited in any order, as iteration over a map does. */
  method ScoreAnomalies(observations: seq<Observation>) returns (anomalies: seq<Anomaly>)
    ensures Ranked(observations, anomalies)
  {
    var byAccount := ByAccount(observations);
    anomalies := [];
    var left := byAccount.Keys;
    ghost var f := FlagIn(observations);
    ghost var done: set<string> := {};
    NoAccounts(observations);
    while left != {}
      invariant left <= byAccount.Keys && done == byAccount.Keys - left
      invariant multiset(anomalies) == multiset(Collect(f, Collect(InAccounts(done), observations)))
      decreases |left|
    {
      var account :| account in left;
      var group := byAccount[account];
      assert group == Lookup(byAccount, account) == GroupOf(observations, account);
      var flagged := ScoreGroup(group);
      GroupFlags(observations, account);
      OneMoreAccount(f, observations, done, account);
      anomalies := anomalies + flagged;
      left, done := left - {account}, done + {account};
    }
    AllAccounts(observations, done);
    AnomalyOrder();
    SortCorrect(anomalies, AnomalyLe);
    anomalies := Sort(anomalies, AnomalyLe);
  }

  // Order independence.

  lemma SortPermutes(a: seq<real>, b: seq<real>)
    requires multiset(a) == multiset(b)
    ensures Sort(a, RealLe) == Sort(b, RealLe)
  {
    RealOrder();
    SortCorrect(a, RealLe);
    SortCorrect(b, RealLe);
    SortedUnique(Sort(a, RealLe), Sort(b, RealLe), RealLe);
  }

  lemma MedianPermutes(a: seq<real>, b: seq<real>)
    requires |a| > 0 && multiset(a) == multiset(b)
    ensures |b| == |a| && Median(a) == Median(b)
  {
    assert |a| == |multiset(a)| == |multiset(b)| == |b|;
    SortPermutes(a, b);
  }

  function AmountOf(o: Observation): real {
    o.amountMinor as real
  }

  function DeviationFrom(center: real): real -> real {
    (x: real) => Abs(x - center)
  }

  lemma TypicalPermutes(a: seq<Observation>, b: seq<Observation>)
    requires multiset(a) == multiset(b)
    ensures TypicalOf(a) == TypicalOf(b)
  {
    assert |a| == |multiset(a)| == |multiset(b)| == |b|;
    if |a| >= MIN_OBSERVATIONS {
      MapPermutes(AmountOf, a, b);
      assert Map(AmountOf, a) == Amounts(a) && Map(AmountOf, b) == Amounts(b);
      MedianPermutes(Amounts(a), Amounts(b));
      var f := DeviationFrom(Median(Amounts(a)));
      MapPermutes(f, Amounts(a), Amounts(b));
      assert Map(f, Amounts(a)) == Deviations(Amounts(a), Median(Amounts(a)));
      assert Map(f, Amounts(b)) == Deviations(Amounts(b), Median(Amounts(a)));
      MedianPermutes(Deviations(Amounts(a), Median(Amounts(a))), Deviations(Amounts(b), Median(Amounts(a))));
    }
  }

  lemma FlaggedPermutes(a: seq<Observation>, b: seq<Observation>)
    requires multiset(a) == multiset(b)
    ensures multiset(Flagged(a)) == multiset(Flagged(b))
  {
    forall o ensures FlagIn(a)(o) == FlagIn(b)(o) {
      CollectPermutes(InAccount(o.accountCode), a, b);
      TypicalPermutes(GroupOf(a, o.accountCode), GroupOf(b, o.accountCode));
    }
    CollectAgrees(FlagIn(a), FlagIn(b), a);
    CollectPermutes(FlagIn(b), a, b);
  }

  datatype Rank = Rank(score: real, entryId: string)

  function RankOf(a: Anomaly): Rank {
    Rank(a.score, a.entryId)
  }

  predicate RankLe(a: Rank, b: Rank) {
    if a.score != b.score then a.score > b.score else LexLe(a.entryId, b.entryId)
  }

  lemma RankOrder()
    ensures TotalPreorder(RankLe) && Antisymmetric(RankLe)
  {
    forall a, b ensures RankLe(a, b) || RankLe(b, a) { LexTotal(a.entryId, b.entryId); }
    forall a, b | RankLe(a, b) && RankLe(b, a) ensures a == b { LexTotal(a.entryId, b.entryId); }
    forall a, b, c | RankLe(a, b) && RankLe(b, c) ensures RankLe(a, c) {
      if a.score == b.score == c.score { LexTransitive(a.entryId, b.entryId, c.entryId); }
    }
  }

  /** The ranking shown, scores and entry ids in order, depends on the set of
      observations alone: not on their order, nor on the map's, nor on how the
      sort treats ties. */
  lemma RankingDeterminate(a: seq<Observation>, b: seq<Observation>, x: seq<Anomaly>, y: seq<Anomaly>)
    requires multiset(a) == multiset(b) && Ranked(a, x) && Ranked(b, y)
    ensures Map(RankOf, x) == Map(RankOf, y)
  {
    FlaggedPermutes(a, b);
    MapPermutes(RankOf, x, y);
    RankOrder();
    assert forall i, j | 0 <= i < j < |x| :: AnomalyLe(x[i], x[j]);
    assert forall i, j | 0 <= i < j < |y| :: AnomalyLe(y[i], y[j]);
    SortedUnique(Map(RankOf, x), Map(RankOf, y), RankLe);
  }

  // The breakdown bound.

  function Above(limit: real): real -> seq<real> {
    (x: real) => if x > limit then [x] else []
  }

  /** The absolute deviation beyond which an observation is flagged. */
  function Limit(spread: real): real {
    THRESHOLD * (MAD_COEF * spread)
  }

  lemma Quotient(x: real, d: real, c: real)
    requires d > 0.0
    ensures x / d <= c <==> x <= c * d
  {
    assert x == (x / d) * d;
    if x / d <= c { ScaleLe(x / d, c, d); } else { ScaleLt(c, x / d, d); }
  }

  lemma ScaleLe(a: real, b: real, d: real)
    requires d > 0.0 && a <= b
    ensures a * d <= b * d
  {
  }

  lemma ScaleLt(a: real, b: real, d: real)
    requires d > 0.0 && a < b
    ensures a * d < b * d
  {
  }

  /** A score above the threshold is a deviation above the limit. */
  lemma FlaggedBeyondLimit(o: Observation, center: real, spread: real)
    requires spread > 0.0
    ensures |FlagOne(Typical(center, spread), o)| ==
            |Above(Limit(spread))(Abs(o.amountMinor as real - center))|
  {
    Quotient(Abs(o.amountMinor as real - center), MAD_COEF * spread, THRESHOLD);
  }

  lemma {:induction false} FlagsAreDeviations(group: seq<Observation>, center: real, spread: real)
    requires spread > 0.0
    ensures |Collect(FlagWith(Typical(center, spread)), group)| ==
            |Collect(Above(Limit(spread)), Deviations(Amounts(group), center))|
  {
    if |group| > 0 {
      var n := |group| - 1;
      FlagsAreDeviations(group[..n], center, spread);
      var devs := Deviations(Amounts(group), center);
      assert devs[..n] == Deviations(Amounts(group[..n]), center);
      FlaggedBeyondLimit(group[n], center, spread);
    }
  }

  lemma {:induction false} FewAbove(s: seq<real>, limit: real, k: nat)
    requires k <= |s| && forall i | 0 <= i < k :: s[i] <= limit
    ensures |Collect(Above(limit), s)| <= |s| - k
  {
    if |s| > 0 {
      var n := |s| - 1;
      FewAbove(s[..n], limit, if k <= n then k else n);
    }
  }

  lemma {:induction false} ManyAbove(s: seq<real>, limit: real, k: nat)
    requires k <= |s| && forall i | k <= i < |s| :: s[i] > limit
    ensures |Collect(Above(limit), s)| >= |s| - k
  {
    if |s| > k { ManyAbove(s[..|s| - 1], limit, k); }
  }

  function Below(limit: real): real -> seq<real> {
    (x: real) => if x < limit then [x] else []
  }

  lemma {:induction false} FewBelow(s: seq<real>, limit: real, k: nat)
    requires k <= |s| && forall i | k <= i < |s| :: s[i] >= limit
    ensures |Collect(Below(limit), s)| <= k
  {
    if |s| > 0 {
      var n := |s| - 1;
      FewBelow(s[..n], limit, if k <= n then k else n);
    }
  }

  lemma MiddleSplits(s: seq<real>, m: real)
    requires |s| > 0 && Sorted(s, RealLe)
    requires m == if |s| % 2 == 1 then s[|s| / 2] else (s[|s| / 2 - 1] + s[|s| / 2]) / 2.0
    ensures forall i | 0 <= i < |s| - |s| / 2 :: s[i] <= m
    ensures forall i | |s| / 2 <= i < |s| :: s[i] >= m
  {
    var k := |s| / 2;
    assert |s| % 2 == 0 ==> RealLe(s[k - 1], s[k]);
    forall i | 0 <= i < |s| - k ensures s[i] <= m {
      assert i < k - 1 ==> RealLe(s[i], s[k - 1]);
      assert i < k ==> RealLe(s[i], s[k]);
    }
    forall i | k <= i < |s| ensures s[i] >= m {
      assert k < i ==> RealLe(s[k], s[i]);
    }
  }

  /** What a median is: at most half of the values are above it and at most half
      below. */
  lemma MedianSplits(values: seq<real>)
    requires |values| > 0
    ensures 2 * |Collect(Above(Median(values)), values)| <= |values|
    ensures 2 * |Collect(Below(Median(values)), values)| <= |values|
  {
    var s, m, k := Sort(values, RealLe), Median(values), |values| / 2;
    RealOrder();
    SortCorrect(values, RealLe);
    CollectSize(Above(m), values, s);
    CollectSize(Below(m), values, s);
    assert m == if |s| % 2 == 1 then s[k] else (s[k - 1] + s[k]) / 2.0;
    MiddleSplits(s, m);
    FewAbove(s, m, |s| - k);
    FewBelow(s, m, k);
  }

  function Negation(x: real): real {
    -x
  }

  lemma NegatedSort(values: seq<real>)
    ensures Sort(Map(Negation, values), RealLe) == Reversed(Map(Negation, Sort(values, RealLe)))
  {
    var s := Sort(values, RealLe);
    var turned := Reversed(Map(Negation, s));
    RealOrder();
    SortCorrect(values, RealLe);
    SortCorrect(Map(Negation, values), RealLe);
    MapPermutes(Negation, values, s);
    ReversedPermutes(Map(Negation, s));
    forall i, j | 0 <= i < j < |turned| ensures RealLe(turned[i], turned[j]) {
      assert RealLe(s[|s| - 1 - j], s[|s| - 1 - i]);
    }
    SortedUnique(Sort(Map(Negation, values), RealLe), turned, RealLe);
  }

  lemma MiddleTurns(s: seq<real>)
    requires |s| > 0
    ensures Middle(Reversed(Map(Negation, s))) == -Middle(s)
  {
  }

  /** The median favours neither side: negating the values negates it. */
  lemma MedianNegates(values: seq<real>)
    requires |values| > 0
    ensures Median(Map(Negation, values)) == -Median(values)
  {
    NegatedSort(values);
    MiddleTurns(Sort(values, RealLe));
  }

  function Shift(d: real): real -> real {
    (x: real) => x + d
  }

  lemma ShiftedSort(values: seq<real>, d: real)
    ensures Sort(Map(Shift(d), values), RealLe) == Map(Shift(d), Sort(values, RealLe))
  {
    var s := Sort(values, RealLe);
    var moved := Map(Shift(d), s);
    RealOrder();
    SortCorrect(values, RealLe);
    SortCorrect(Map(Shift(d), values), RealLe);
    MapPermutes(Shift(d), values, s);
    forall i, j | 0 <= i < j < |moved| ensures RealLe(moved[i], moved[j]) {
      assert RealLe(s[i], s[j]);
    }
    SortedUnique(Sort(Map(Shift(d), values), RealLe), moved, RealLe);
  }

  /** And it moves with the values. */
  lemma MedianShifts(values: seq<real>, d: real)
    requires |values| > 0
    ensures Median(Map(Shift(d), values)) == Median(values) + d
  {
    ShiftedSort(values, d);
  }

  // What a group is scored against.

  /** At most half of the values are above the middle and at most half below. */
  ghost predicate SplitsEvenly(values: seq<real>, middle: real) {
    2 * |Collect(Above(middle), values)| <= |values| && 2 * |Collect(Below(middle), values)| <= |values|
  }

  /** The amounts of a group split evenly at its center, and the deviations from
      there at its spread; if they split at zero the spread is one. */
  lemma TypicalSplits(group: seq<Observation>)
    requires |group| >= 5
    ensures var t := TypicalOf(group);
            && t.Typical? && SplitsEvenly(Amounts(group), t.center) && t.spread > 0.0
            && var deviations := Deviations(Amounts(group), t.center);
            (SplitsEvenly(deviations, t.spread) || (t.spread == 1.0 && SplitsEvenly(deviations, 0.0)))
  {
    var center := Median(Amounts(group));
    var deviations := Deviations(Amounts(group), center);
    MedianSplits(Amounts(group));
    MedianSplits(deviations);
    MiddleBelowLimit(deviations);
  }

  /** Moved along the number line, possibly mirrored. */
  function Moved(x: real, mirrored: bool, d: real): real {
    (if mirrored then -x else x) + d
  }

  lemma MovedMedian(values: seq<real>, moved: seq<real>, mirrored: bool, d: real)
    requires |values| > 0 && |moved| == |values|
    requires forall i | 0 <= i < |values| :: moved[i] == Moved(values[i], mirrored, d)
    ensures Median(moved) == Moved(Median(values), mirrored, d)
  {
    if mirrored {
      MedianNegates(values);
      MedianShifts(Map(Negation, values), d);
      assert moved == Map(Shift(d), Map(Negation, values));
    } else {
      MedianShifts(values, d);
      assert moved == Map(Shift(d), values);
    }
  }

  /** Adding one number to every amount of a group, or mirroring them all, does
      the same to its center and leaves its spread alone. */
  lemma TypicalMoves(a: seq<Observation>, b: seq<Observation>, mirrored: bool, d: real)
    requires |a| == |b| >= 5
    requires forall i | 0 <= i < |a| :: b[i].amountMinor as real == Moved(a[i].amountMinor as real, mirrored, d)
    ensures TypicalOf(b) == Typical(Moved(TypicalOf(a).center, mirrored, d), TypicalOf(a).spread)
  {
    var center, moved := Median(Amounts(a)), Median(Amounts(b));
    MovedMedian(Amounts(a), Amounts(b), mirrored, d);
    var x, y := Deviations(Amounts(a), center), Deviations(Amounts(b), moved);
    forall i | 0 <= i < |a| ensures x[i] == y[i] {
      SameDistance(a[i].amountMinor as real, center, mirrored, d);
    }
    assert x == y;
  }

  lemma SameDistance(x: real, center: real, mirrored: bool, d: real)
    ensures Abs(Moved(x, mirrored, d) - Moved(center, mirrored, d)) == Abs(x - center)
  {
  }

  /** So flags and scores do not change. */
  lemma FlagsMove(a: seq<Observation>, b: seq<Observation>, mirrored: bool, d: real, i: nat)
    requires |a| == |b| && i < |a|
    requires forall i | 0 <= i < |a| :: b[i].amountMinor as real == Moved(a[i].amountMinor as real, mirrored, d)
    ensures var x, y := FlagOne(TypicalOf(a), a[i]), FlagOne(TypicalOf(b), b[i]);
            |x| == |y| <= 1 && (|x| == 1 ==> x[0].score == y[0].score)
  {
    if |a| >= 5 {
      TypicalMoves(a, b, mirrored, d);
      SameDistance(a[i].amountMinor as real, TypicalOf(a).center, mirrored, d);
    }
  }

  /** Beyond 3.5 times 1.4826 times the spread, where that is known. */
  ghost predicate Outlying(t: Typical, o: Observation) {
    t.Typical? && Abs(o.amountMinor as real - t.center) > 3.5 * (1.4826 * t.spread)
  }

  /** The anomaly is the observation, with the center without its fraction and
      the distance in units of 1.4826 times the spread. */
  ghost predicate Describes(a: Anomaly, o: Observation, t: Typical) {
    && t.Typical?
    && a.entryId == o.entryId && a.institutionId == o.institutionId && a.accountCode == o.accountCode
    && a.amountMinor == o.amountMinor && a.effectiveDate == o.effectiveDate
    && (if t.center >= 0.0 then a.typicalMinor as real <= t.center < a.typicalMinor as real + 1.0
        else a.typicalMinor as real - 1.0 < t.center <= a.typicalMinor as real)
    && a.score * (1.4826 * t.spread) == Abs(o.amountMinor as real - t.center)
  }

  lemma FlaggedIff(t: Typical, o: Observation)
    requires t.Typical? ==> t.spread > 0.0
    ensures |FlagOne(t, o)| == if Outlying(t, o) then 1 else 0
    ensures |FlagOne(t, o)| == 1 ==> Describes(FlagOne(t, o)[0], o, t)
  {
    if t.Typical? {
      var x, unit := Abs(o.amountMinor as real - t.center), MAD_COEF * t.spread;
      Quotient(x, unit, THRESHOLD);
      assert (x / unit) * unit == x;
    }
  }

  /** Fewer than five observations are too few to call anything typical. */
  lemma KnownFromFive(group: seq<Observation>)
    ensures TypicalOf(group).Typical? <==> |group| >= 5
    ensures TypicalOf(group).Typical? ==> TypicalOf(group).spread > 0.0
  {
    if |group| >= 5 { TypicalSplits(group); }
  }

  lemma {:induction false} InGroupIff(observations: seq<Observation>, account: string)
    ensures forall o :: multiset(GroupOf(observations, account))[o] ==
                        if o.accountCode == account then multiset(observations)[o] else 0
  {
    if |observations| > 0 {
      var n := |observations| - 1;
      InGroupIff(observations[..n], account);
      assert observations == observations[..n] + [observations[n]];
    }
  }

  lemma {:induction false} FlaggedMembers(f: Observation -> seq<Anomaly>, observations: seq<Observation>, a: Anomaly)
    ensures a in Collect(f, observations) <==> exists i :: 0 <= i < |observations| && a in f(observations[i])
  {
    if |observations| > 0 {
      var n := |observations| - 1;
      FlaggedMembers(f, observations[..n], a);
      if i :| 0 <= i < |observations| && a in f(observations[i]) {
        assert i < n ==> observations[..n][i] == observations[i];
      }
    }
  }

  /** What is typical of an observation's account. */
  function TypicalFor(observations: seq<Observation>, o: Observation): Typical {
    TypicalOf(GroupOf(observations, o.accountCode))
  }

  lemma OutlyingIsFlagged(observations: seq<Observation>, o: Observation) returns (a: Anomaly)
    requires o in observations && Outlying(TypicalFor(observations, o), o)
    ensures a in Flagged(observations) && Describes(a, o, TypicalFor(observations, o))
  {
    KnownFromFive(GroupOf(observations, o.accountCode));
    FlaggedIff(TypicalFor(observations, o), o);
    a := FlagOne(TypicalFor(observations, o), o)[0];
    var i :| 0 <= i < |observations| && observations[i] == o;
    assert a in FlagIn(observations)(observations[i]);
    FlaggedMembers(FlagIn(observations), observations, a);
  }

  lemma FlaggedIsOutlying(observations: seq<Observation>, a: Anomaly) returns (o: Observation)
    requires a in Flagged(observations)
    ensures o in observations && Outlying(TypicalFor(observations, o), o)
    ensures Describes(a, o, TypicalFor(observations, o))
  {
    FlaggedMembers(FlagIn(observations), observations, a);
    var i :| 0 <= i < |observations| && a in FlagIn(observations)(observations[i]);
    o := observations[i];
    KnownFromFive(GroupOf(observations, o.accountCode));
    FlagDescribed(TypicalFor(observations, o), o, a);
  }

  lemma FlagDescribed(t: Typical, o: Observation, a: Anomaly)
    requires (t.Typical? ==> t.spread > 0.0) && a in FlagOne(t, o)
    ensures Outlying(t, o) && Describes(a, o, t)
  {
    FlaggedIff(t, o);
  }

  /** What is reported: exactly the observations that lie far from the center of
      their account, each described by what it is compared with. */
  lemma ReportedIff(observations: seq<Observation>, anomalies: seq<Anomaly>)
    requires Ranked(observations, anomalies)
    ensures forall o | o in observations && Outlying(TypicalFor(observations, o), o) ::
              exists a :: a in anomalies && Describes(a, o, TypicalFor(observations, o))
    ensures forall a | a in anomalies ::
              exists o :: && o in observations && Outlying(TypicalFor(observations, o), o)
                          && Describes(a, o, TypicalFor(observations, o))
  {
    forall o | o in observations && Outlying(TypicalFor(observations, o), o)
      ensures exists a :: a in anomalies && Describes(a, o, TypicalFor(observations, o))
    {
      var a := OutlyingIsFlagged(observations, o);
      assert a in multiset(anomalies);
    }
    forall a | a in anomalies
      ensures exists o :: && o in observations && Outlying(TypicalFor(observations, o), o)
                          && Describes(a, o, TypicalFor(observations, o))
    {
      assert a in multiset(Flagged(observations));
      var o := FlaggedIsOutlying(observations, a);
    }
  }

  /** Highest score first; equal scores in byte order of the entry ids. */
  lemma MostSurprisingFirst(observations: seq<Observation>, anomalies: seq<Anomaly>, i: nat, j: nat)
    requires Ranked(observations, anomalies) && i < j < |anomalies|
    ensures anomalies[i].score >= anomalies[j].score
    ensures anomalies[i].score == anomalies[j].score ==>
              var a, b := anomalies[i].entryId, anomalies[j].entryId; a <= b || exists k: nat :: SmallerAt(a, b, k)
  {
    assert AnomalyLe(anomalies[i], anomalies[j]);
    LexLeIff(anomalies[i].entryId, anomalies[j].entryId);
  }

  /** Twice the median, or one if the median is zero, reaches past the middle. */
  lemma MiddleBelowLimit(values: seq<real>)
    requires |values| > 0 && forall x | x in values :: x >= 0.0
    ensures var spread := if Median(values) == 0.0 then 1.0 else Median(values);
            spread > 0.0 && Sort(values, RealLe)[|values| / 2] <= Limit(spread)
  {
    RealOrder();
    SortCorrect(values, RealLe);
    var s := Sort(values, RealLe);
    var m := |values| / 2;
    forall i | 0 <= i < |s| ensures s[i] >= 0.0 {
      assert s[i] in multiset(s);
      var k :| 0 <= k < |values| && values[k] == s[i];
      assert values[k] in values;
    }
  }

  lemma FewAboveLimit(values: seq<real>, limit: real)
    requires |values| > 0 && Sort(values, RealLe)[|values| / 2] <= limit
    ensures 2 * |Collect(Above(limit), values)| < |values|
  {
    var s := Sort(values, RealLe);
    RealOrder();
    SortCorrect(values, RealLe);
    CollectSize(Above(limit), values, s);
    forall i | 0 <= i < |s| / 2 + 1 ensures s[i] <= limit {
      assert i < |s| / 2 ==> RealLe(s[i], s[|s| / 2]);
    }
    FewAbove(s, limit, |s| / 2 + 1);
  }

  lemma FewFlagged(group: seq<Observation>)
    ensures |group| > 0 ==> 2 * |Collect(FlagWith(TypicalOf(group)), group)| < |group|
  {
    if |group| < MIN_OBSERVATIONS {
      NoneCollected(group);
    } else {
      var center := Median(Amounts(group));
      var devs := Deviations(Amounts(group), center);
      var s := Sort(devs, RealLe);
      var spread := TypicalOf(group).spread;
      MiddleBelowLimit(devs);
      FlagsAreDeviations(group, center, spread);
      FewAboveLimit(devs, Limit(spread));
    }
  }

  function AnomalyIn(account: string): Anomaly -> seq<Anomaly> {
    (a: Anomaly) => if a.accountCode == account then [a] else []
  }

  /** One anomaly at most per observation, of the same account. */
  ghost predicate OnePerObservation(f: Observation -> seq<Anomaly>) {
    forall o :: |f(o)| <= 1 && (|f(o)| == 1 ==> f(o)[0].accountCode == o.accountCode)
  }

  lemma FlagsOfOne(f: Observation -> seq<Anomaly>, o: Observation, account: string)
    requires OnePerObservation(f)
    ensures Collect(AnomalyIn(account), f(o)) == if o.accountCode == account then f(o) else []
  {
    if |f(o)| == 1 {
      assert f(o) == [f(o)[0]];
      CollectOne(AnomalyIn(account), f(o)[0]);
    }
  }

  lemma {:induction false} FlagsOfAccount(
    f: Observation -> seq<Anomaly>, observations: seq<Observation>, account: string)
    requires OnePerObservation(f)
    ensures Collect(AnomalyIn(account), Collect(f, observations)) == Collect(f, GroupOf(observations, account))
  {
    if |observations| > 0 {
      var n := |observations| - 1;
      var o := observations[n];
      FlagsOfAccount(f, observations[..n], account);
      FlagsOfOne(f, o, account);
      CollectAppend(AnomalyIn(account), Collect(f, observations[..n]), f(o));
      CollectAppend(f, GroupOf(observations[..n], account), InAccount(account)(o));
      CollectOne(f, o);
    }
  }

  /** For every input, strictly fewer than half of an account's observations are
      reported, whatever the amounts: in odd and even groups, and under the
      fallback for zero spread. */
  lemma FewerThanHalf(observations: seq<Observation>, anomalies: seq<Anomaly>, account: string)
    requires Ranked(observations, anomalies) && |GroupOf(observations, account)| > 0
    ensures 2 * |Collect(AnomalyIn(account), anomalies)| < |GroupOf(observations, account)|
  {
    var group := GroupOf(observations, account);
    CollectSize(AnomalyIn(account), anomalies, Flagged(observations));
    FlagsOfAccount(FlagIn(observations), observations, account);
    GroupFlags(observations, account);
    FewFlagged(group);
  }

  function At(account: string, amountMinor: int64): Observation {
    Observation("e", "i", account, amountMinor, "2026-01-01")
  }

  /** The bound is tight: two of five equal to each other and far from the rest
      are both reported. */
  lemma TwoOfFive(account: string)
    ensures var observations := [At(account, 0), At(account, 0), At(account, 0), At(account, 100), At(account, 100)];
            |GroupOf(observations, account)| == 5 && |Flagged(observations)| == 2
  {
    var zero, high := At(account, 0), At(account, 100);
    var observations := [zero, zero, zero, high, high];
    AllInOneAccount(observations, account);
    assert Amounts(observations) == AMOUNTS;
    FiveTypical(observations);
    GroupFlags(observations, account);
    FlagsAreDeviations(observations, 0.0, 1.0);
    TwoAbove(Limit(1.0));
  }

  lemma FiveTypical(group: seq<Observation>)
    requires Amounts(group) == AMOUNTS
    ensures TypicalOf(group) == Typical(0.0, 1.0) && Deviations(AMOUNTS, 0.0) == AMOUNTS
  {
    SortedAlready(AMOUNTS);
    assert Deviations(AMOUNTS, 0.0) == AMOUNTS;
  }

  const AMOUNTS := [0.0, 0.0, 0.0, 100.0, 100.0]

  lemma TwoAbove(limit: real)
    requires 0.0 <= limit < 100.0
    ensures |Collect(Above(limit), AMOUNTS)| == 2
  {
    FewAbove(AMOUNTS, limit, 3);
    ManyAbove(AMOUNTS, limit, 3);
  }

  lemma AllInOneAccount(observations: seq<Observation>, account: string)
    requires forall o | o in observations :: o.accountCode == account
    ensures GroupOf(observations, account) == observations
  {
    if |observations| > 0 {
      var n := |observations| - 1;
      AllInOneAccount(observations[..n], account);
      assert observations == observations[..n] + [observations[n]];
    }
  }

  lemma SortedAlready(values: seq<real>)
    requires |values| > 0 && Sorted(values, RealLe)
    ensures Sort(values, RealLe) == values
  {
    RealOrder();
    SortCorrect(values, RealLe);
    SortedUnique(Sort(values, RealLe), values, RealLe);
  }
}

/** Journal entries: validation with 64-bit arithmetic, and reversal. */
module Journal {
  import opened Arithmetic
  import opened Wrappers
  import opened Text
  import opened Canonical

  const INT64_MAX: int := 0x7FFF_FFFF_FFFF_FFFF
  const INT64_SPAN: int := 0x1_0000_0000_0000_0000

  type int64 = x: int | -INT64_MAX - 1 <= x <= INT64_MAX

  /** The value a 64-bit register keeps of an integer. */
  function Wrap(x: int): int64 {
    (x + INT64_MAX + 1) % INT64_SPAN - INT64_MAX - 1
  }

  datatype JournalLine = JournalLine(accountCode: string, direction: string, amountMinor: int64, currency: string)

  datatype JournalEntry = JournalEntry(
    id: string,
    institutionId: string,
    fiscalYear: int,
    effectiveDate: string,
    description: string,
    status: string,
    entryType: string,
    reversesEntryId: string,
    idempotencyKey: string,
    commitmentId: string,
    lines: seq<JournalLine>
  )

  datatype EntryError =
    | MissingEntryId | MissingInstitutionId | MissingDescription | InvalidDate | InvalidYear | InsufficientLines
    | InvalidAccount | InvalidDirection | InvalidAmount | InvalidCurrency | Unbalanced

  /** The primary key of journal_entries. */
  ghost predicate UniqueIds(entries: seq<JournalEntry>) {
    forall i, j | 0 <= i < j < |entries| :: entries[i].id != entries[j].id
  }

  function DaysIn(month: int, year: int): int {
    if month == 2 then (if year % 4 == 0 && (year % 100 != 0 || year % 400 == 0) then 29 else 28)
    else if month in {4, 6, 9, 11} then 30
    else 31
  }

  /** Go's time.DateOnly layout: YYYY-MM-DD naming a day of the calendar. */
  predicate IsISODate(s: string) {
    && |s| == 10 && s[4] == '-' && s[7] == '-'
    && IsDigits(s[..4]) && IsDigits(s[5..7]) && IsDigits(s[8..])
    && 1 <= Number(s[5..7]) <= 12
    && 1 <= Number(s[8..]) <= DaysIn(Number(s[5..7]), Number(s[..4]))
  }

  /** The amount a line adds to its account: debits add, credits subtract. */
  function SignedAmount(line: JournalLine): int {
    if line.direction == "DEBIT" then line.amountMinor else -(line.amountMinor as int)
  }

  /** The true net of the lines in one currency. */
  function Net(lines: seq<JournalLine>, currency: string): int {
    if |lines| == 0 then 0
    else
      var last := lines[|lines| - 1];
      Net(lines[..|lines| - 1], currency) + (if last.currency == currency then SignedAmount(last) else 0)
  }

  /** The true total of the lines of one direction in one currency. */
  function Side(lines: seq<JournalLine>, currency: string, debit: bool): int {
    if |lines| == 0 then 0
    else
      var last := lines[|lines| - 1];
      Side(lines[..|lines| - 1], currency, debit) +
      (if last.currency == currency && (last.direction == "DEBIT") == debit then last.amountMinor else 0)
  }

  function Debits(lines: seq<JournalLine>, currency: string): int {
    Side(lines, currency, true)
  }

  function Credits(lines: seq<JournalLine>, currency: string): int {
    Side(lines, currency, false)
  }

  function HeaderError(e: JournalEntry): Option<EntryError> {
    if e.id == "" then Some(MissingEntryId)
    else if e.institutionId == "" then Some(MissingInstitutionId)
    else if e.description == "" then Some(MissingDescription)
    else if !IsISODate(e.effectiveDate) then Some(InvalidDate)
    else if e.fiscalYear <= 0 then Some(InvalidYear)
    else if |e.lines| < 2 then Some(InsufficientLines)
    else None
  }

  function LineError(line: JournalLine): Option<EntryError> {
    if line.accountCode == "" then Some(InvalidAccount)
    else if line.direction != "DEBIT" && line.direction != "CREDIT" then Some(InvalidDirection)
    else if line.amountMinor <= 0 then Some(InvalidAmount)
    else if !IsCurrencyCode(line.currency) then Some(InvalidCurrency)
    else None
  }

  function FirstLineError(lines: seq<JournalLine>): Option<EntryError> {
    if |lines| == 0 then None
    else
      var earlier := FirstLineError(lines[..|lines| - 1]);
      if earlier.Some? then earlier else LineError(lines[|lines| - 1])
  }

  /** Every currency nets to zero as a 64-bit register sees it. */
  predicate BalancedWrapped(lines: seq<JournalLine>) {
    forall line | line in lines :: Wrap(Net(lines, line.currency)) == 0
  }

  /** The outcome of validation: the first failing check, if any. */
  function Validate(e: JournalEntry): Option<EntryError> {
    if HeaderError(e).Some? then HeaderError(e)
    else if FirstLineError(e.lines).Some? then FirstLineError(e.lines)
    else if !BalancedWrapped(e.lines) then Some(Unbalanced)
    else None
  }

  lemma WrapAdd(a: int, b: int)
    ensures Wrap(Wrap(a) + b) == Wrap(a + b) && Wrap(Wrap(a) - b) == Wrap(a - b)
  {
    var k := (a + INT64_MAX + 1) / INT64_SPAN;
    assert Wrap(a) == a - k * INT64_SPAN;
    WrapShift(a + b, k);
    WrapShift(a - b, k);
  }

  lemma WrapShift(x: int, k: int)
    ensures Wrap(x - k * INT64_SPAN) == Wrap(x)
  {
    var q := (x + INT64_MAX + 1) / INT64_SPAN;
    var r := (x + INT64_MAX + 1) % INT64_SPAN;
    assert x - k * INT64_SPAN + INT64_MAX + 1 == (q - k) * INT64_SPAN + r;
  }

  lemma WrapZero(x: int)
    ensures Wrap(x) == 0 <==> x % INT64_SPAN == 0
  {
  }

  /** One wrapped addition or subtraction on a running net. */
  function Accumulate(net: int64, line: JournalLine): int64 {
    if line.direction == "DEBIT" then Wrap(net + line.amountMinor) else Wrap(net - line.amountMinor)
  }

  lemma AccumulateNet(lines: seq<JournalLine>, line: JournalLine)
    ensures Accumulate(Wrap(Net(lines, line.currency)), line) == Wrap(Net(lines + [line], line.currency))
  {
    assert (lines + [line])[..|lines|] == lines;
    WrapAdd(Net(lines, line.currency), line.amountMinor);
  }

  /** The net map of the source: a wrapped running net per currency seen. */
  ghost predicate NetMap(net: map<string, int64>, lines: seq<JournalLine>) {
    && (forall c | c in net :: net[c] == Wrap(Net(lines, c)))
    && (forall line | line in lines :: line.currency in net)
    && (forall c | c in net :: exists line :: line in lines && line.currency == c)
  }

  lemma NextLineError(lines: seq<JournalLine>, i: nat)
    requires i < |lines|
    ensures lines[..i + 1] == lines[..i] + [lines[i]]
    ensures FirstLineError(lines[..i + 1]) ==
            if FirstLineError(lines[..i]).Some? then FirstLineError(lines[..i]) else LineError(lines[i])
  {
    assert lines[..i + 1][..i] == lines[..i];
  }

  method ValidateJournalEntry(e: JournalEntry) returns (err: Option<EntryError>)
    ensures err == Validate(e)
  {
    if e.id == "" { return Some(MissingEntryId); }
    if e.institutionId == "" { return Some(MissingInstitutionId); }
    if e.description == "" { return Some(MissingDescription); }
    if !IsISODate(e.effectiveDate) { return Some(InvalidDate); }
    if e.fiscalYear <= 0 { return Some(InvalidYear); }
    if |e.lines| < 2 { return Some(InsufficientLines); }

    var net: map<string, int64> := map[];
    for i := 0 to |e.lines|
      invariant FirstLineError(e.lines[..i]).None?
      invariant NetMap(net, e.lines[..i])
    {
      var line := e.lines[i];
      NextLineError(e.lines, i);
      var lineErr := LineError(line);
      if lineErr.Some? {
        FirstErrorStands(e.lines, i + 1);
        return lineErr;
      }
      var before: int64 := if line.currency in net then net[line.currency] else 0;
      NetMapGrows(net, e.lines[..i], line);
      net := net[line.currency := Accumulate(before, line)];
    }
    assert e.lines[..|e.lines|] == e.lines;
    var zero := AllZero(net, e.lines);
    err := if zero then None else Some(Unbalanced);
  }

  /** The final pass over the nets, in whatever order the map yields them. */
  method AllZero(net: map<string, int64>, ghost lines: seq<JournalLine>) returns (zero: bool)
    requires NetMap(net, lines)
    ensures zero <==> BalancedWrapped(lines)
  {
    var left := net.Keys;
    while left != {}
      invariant left <= net.Keys && forall c | c in net.Keys - left :: net[c] == 0
    {
      var c :| c in left;
      if net[c] != 0 {
        ghost var line :| line in lines && line.currency == c;
        return false;
      }
      left := left - {c};
    }
    zero := true;
  }

  lemma {:induction false} FirstErrorStands(lines: seq<JournalLine>, n: nat)
    requires n <= |lines| && FirstLineError(lines[..n]).Some?
    ensures FirstLineError(lines) == FirstLineError(lines[..n])
  {
    if n == |lines| {
      assert lines[..n] == lines;
    } else {
      assert lines[..|lines| - 1][..n] == lines[..n];
      FirstErrorStands(lines[..|lines| - 1], n);
    }
  }

  lemma NoNet(lines: seq<JournalLine>, currency: string)
    requires forall line | line in lines :: line.currency != currency
    ensures Net(lines, currency) == 0
  {
    if |lines| > 0 { NoNet(lines[..|lines| - 1], currency); }
  }

  lemma NetMapGrows(net: map<string, int64>, lines: seq<JournalLine>, line: JournalLine)
    requires NetMap(net, lines)
    ensures var before := if line.currency in net then net[line.currency] else 0;
            NetMap(net[line.currency := Accumulate(before, line)], lines + [line])
  {
    var more := lines + [line];
    assert more[..|lines|] == lines;
    if line.currency !in net { NoNet(lines, line.currency); }
    AccumulateNet(lines, line);
    var next := net[line.currency := Wrap(Net(more, line.currency))];
    forall c | c in next ensures exists l :: l in more && l.currency == c {
      if c == line.currency { assert line in more; } else {
        var l :| l in lines && l.currency == c;
        assert l in more;
      }
    }
  }

  // What acceptance means.

  lemma {:induction false} NoLineError(lines: seq<JournalLine>)
    ensures FirstLineError(lines).None? <==> forall line | line in lines :: LineError(line).None?
  {
    if |lines| > 0 {
      var n := |lines| - 1;
      NoLineError(lines[..n]);
      assert lines == lines[..n] + [lines[n]];
    }
  }

  lemma {:induction false} Sides(lines: seq<JournalLine>, currency: string)
    ensures Net(lines, currency) == Debits(lines, currency) - Credits(lines, currency)
    ensures (forall line | line in lines :: line.amountMinor > 0) ==>
              Debits(lines, currency) >= 0 && Credits(lines, currency) >= 0
  {
    if |lines| > 0 { Sides(lines[..|lines| - 1], currency); }
  }

  /** An entry is accepted exactly when its header and lines are well formed
      and, in every currency, debits minus credits is a multiple of 2^64. */
  lemma AcceptedIff(e: JournalEntry)
    ensures Validate(e).None? <==>
            && HeaderError(e).None? && (forall line | line in e.lines :: LineError(line).None?)
            && forall c :: (Debits(e.lines, c) - Credits(e.lines, c)) % INT64_SPAN == 0
  {
    NoLineError(e.lines);
    forall c ensures (Debits(e.lines, c) - Credits(e.lines, c)) % INT64_SPAN == 0 <==> Wrap(Net(e.lines, c)) == 0 {
      Sides(e.lines, c);
      WrapZero(Net(e.lines, c));
    }
    if BalancedWrapped(e.lines) {
      forall c ensures Wrap(Net(e.lines, c)) == 0 {
        if forall line | line in e.lines :: line.currency != c { NoNet(e.lines, c); }
      }
    }
  }

  ghost predicate GoodLine(line: JournalLine) {
    && line.accountCode != "" && (line.direction == "DEBIT" || line.direction == "CREDIT") && line.amountMinor > 0
    && |line.currency| == 3 && forall c | c in line.currency :: 'A' <= c <= 'Z'
  }

  ghost predicate FirstBad(lines: seq<JournalLine>, i: nat) {
    i < |lines| && !GoodLine(lines[i]) && forall j | 0 <= j < i :: GoodLine(lines[j])
  }

  lemma FirstBadDecides(lines: seq<JournalLine>, i: nat)
    requires FirstBad(lines, i)
    ensures FirstLineError(lines) == LineError(lines[i]) && LineError(lines[i]).Some?
  {
    NoLineError(lines[..i]);
    assert forall line | line in lines[..i] :: GoodLine(line) && LineError(line).None?;
    NextLineError(lines, i);
    FirstErrorStands(lines, i + 1);
  }

  /** Validation reports the first thing that is wrong: the header checks in
      order, then the checks of the first bad line in order, then balance. */
  lemma FirstFailureReported(e: JournalEntry, i: nat)
    ensures e.id == "" ==> Validate(e) == Some(MissingEntryId)
    ensures e.id != "" && e.institutionId == "" ==> Validate(e) == Some(MissingInstitutionId)
    ensures e.id != "" && e.institutionId != "" && e.description == "" ==> Validate(e) == Some(MissingDescription)
    ensures e.id != "" && e.institutionId != "" && e.description != "" ==>
              && (!IsISODate(e.effectiveDate) ==> Validate(e) == Some(InvalidDate))
              && (IsISODate(e.effectiveDate) && e.fiscalYear < 1 ==> Validate(e) == Some(InvalidYear))
              && (IsISODate(e.effectiveDate) && e.fiscalYear >= 1 && |e.lines| <= 1 ==>
                    Validate(e) == Some(InsufficientLines))
    ensures e.id != "" && e.institutionId != "" && e.description != "" && IsISODate(e.effectiveDate)
            && e.fiscalYear >= 1 && |e.lines| >= 2 ==>
              && (FirstBad(e.lines, i) ==>
                    Validate(e) == Some(if e.lines[i].accountCode == "" then InvalidAccount
                                        else if e.lines[i].direction !in {"DEBIT", "CREDIT"} then InvalidDirection
                                        else if e.lines[i].amountMinor < 1 then InvalidAmount
                                        else InvalidCurrency))
              && ((forall line | line in e.lines :: GoodLine(line)) ==>
                    Validate(e) == if forall c :: (Debits(e.lines, c) - Credits(e.lines, c)) % INT64_SPAN == 0
                                   then None else Some(Unbalanced))
  {
    if FirstBad(e.lines, i) { FirstBadDecides(e.lines, i); }
    if forall line | line in e.lines :: GoodLine(line) {
      assert forall line | line in e.lines :: LineError(line).None?;
      NoLineError(e.lines);
      AcceptedIff(e);
    }
  }

  /** As long as the amounts of each currency total less than 2^64, wrapped
      arithmetic decides balance exactly. */
  lemma ValidationExact(e: JournalEntry)
    requires HeaderError(e).None? && forall line | line in e.lines :: LineError(line).None?
    requires forall c :: Debits(e.lines, c) + Credits(e.lines, c) < INT64_SPAN
    ensures Validate(e).None? <==> forall c :: Debits(e.lines, c) == Credits(e.lines, c)
  {
    AcceptedIff(e);
    assert forall line | line in e.lines :: LineError(line).None? && line.amountMinor > 0;
    forall c
      ensures (Debits(e.lines, c) - Credits(e.lines, c)) % INT64_SPAN == 0 <==>
              Debits(e.lines, c) == Credits(e.lines, c)
    {
      Sides(e.lines, c);
      SmallMultiple(Debits(e.lines, c) - Credits(e.lines, c));
    }
  }

  lemma SmallMultiple(x: int)
    requires -INT64_SPAN < x < INT64_SPAN
    ensures x % INT64_SPAN == 0 <==> x == 0
  {
  }

  /** The bound is tight: three debits totalling 2^64 and no credit at all are
      accepted, in any currency and on any accounts. */
  lemma DebitsAloneAccepted(e: JournalEntry, a: string, b: string, c: string, currency: string)
    requires HeaderError(e.(lines := [JournalLine(a, "DEBIT", 1, currency),
                                      JournalLine(b, "DEBIT", 1, currency)])).None?
    requires a != "" && b != "" && c != "" && IsCurrencyCode(currency)
    ensures var lines := [JournalLine(a, "DEBIT", INT64_MAX, currency), JournalLine(b, "DEBIT", INT64_MAX, currency),
                          JournalLine(c, "DEBIT", 2, currency)];
            && Validate(e.(lines := lines)).None?
            && Debits(lines, currency) == INT64_SPAN && Credits(lines, currency) == 0
  {
    var x, y, z := JournalLine(a, "DEBIT", INT64_MAX, currency), JournalLine(b, "DEBIT", INT64_MAX, currency),
                   JournalLine(c, "DEBIT", 2, currency);
    var lines := [x, y, z];
    assert lines[..2] == [x, y] && [x, y][..1] == [x] && [x][..0] == [];
    forall cur, d ensures Side(lines, cur, d) == (if cur == currency && d then INT64_SPAN else 0) {
      assert Side([x], cur, d) == (if cur == currency && d then INT64_MAX else 0);
      assert Side([x, y], cur, d) == (if cur == currency && d then INT64_MAX + INT64_MAX else 0);
    }
    AcceptedIff(e.(lines := lines));
  }

  // Reversal.

  function Flip(direction: string): string {
    if direction == "DEBIT" then "CREDIT" else "DEBIT"
  }

  function FlipLine(line: JournalLine): JournalLine {
    line.(direction := Flip(line.direction))
  }

  function FlipLines(lines: seq<JournalLine>): (r: seq<JournalLine>)
    ensures |r| == |lines| && forall i | 0 <= i < |r| :: r[i] == FlipLine(lines[i])
  {
    seq(|lines|, i requires 0 <= i < |lines| => FlipLine(lines[i]))
  }

  function ReversalOf(e: JournalEntry, id: string, effectiveDate: string): JournalEntry {
    JournalEntry(id, e.institutionId, e.fiscalYear, effectiveDate, "Reversal of " + e.id, "POSTED", "REVERSAL",
                 e.id, "", "", FlipLines(e.lines))
  }

  method Reversal(e: JournalEntry, id: string, effectiveDate: string) returns (r: JournalEntry)
    ensures r == ReversalOf(e, id, effectiveDate)
  {
    var lines: seq<JournalLine> := [];
    for i := 0 to |e.lines|
      invariant |lines| == i && forall k | 0 <= k < i :: lines[k] == FlipLine(e.lines[k])
    {
      var line := e.lines[i];
      lines := lines + [line.(direction := if line.direction == "DEBIT" then "CREDIT" else "DEBIT")];
    }
    assert lines == FlipLines(e.lines);
    r := JournalEntry(id, e.institutionId, e.fiscalYear, effectiveDate, "Reversal of " + e.id, "POSTED", "REVERSAL",
                      e.id, "", "", lines);
  }

  /** Flipping exchanges the two sides. */
  lemma {:induction false} FlipSides(lines: seq<JournalLine>, currency: string, debit: bool)
    ensures Side(FlipLines(lines), currency, debit) == Side(lines, currency, !debit)
  {
    if |lines| > 0 {
      var n := |lines| - 1;
      FlipSides(lines[..n], currency, debit);
      assert FlipLines(lines)[..n] == FlipLines(lines[..n]);
    }
  }

  /** A reversal of an accepted entry is accepted, and reversing the lines
      twice restores them. */
  lemma ReversalAccepted(e: JournalEntry, id: string, effectiveDate: string)
    requires Validate(e).None? && id != "" && IsISODate(effectiveDate)
    ensures Validate(ReversalOf(e, id, effectiveDate)).None?
    ensures FlipLines(FlipLines(e.lines)) == e.lines
  {
    var r := ReversalOf(e, id, effectiveDate);
    AcceptedIff(e);
    forall line | line in r.lines ensures LineError(line).None? {
      var i :| 0 <= i < |r.lines| && line == r.lines[i];
      assert e.lines[i] in e.lines;
    }
    forall c ensures (Debits(r.lines, c) - Credits(r.lines, c)) % INT64_SPAN == 0 {
      FlipSides(e.lines, c, true);
      FlipSides(e.lines, c, false);
      NegatedMultiple(Debits(e.lines, c) - Credits(e.lines, c));
    }
    AcceptedIff(r);
    FlippedTwice(e.lines);
  }

  lemma FlippedTwice(lines: seq<JournalLine>)
    requires forall line | line in lines :: LineError(line).None?
    ensures FlipLines(FlipLines(lines)) == lines
  {
    forall i | 0 <= i < |lines| ensures FlipLines(FlipLines(lines))[i] == lines[i] {
      assert lines[i] in lines;
    }
  }

  lemma NegatedMultiple(x: int)
    requires x % INT64_SPAN == 0
    ensures (-x) % INT64_SPAN == 0
  {
  }

  // Dates.

  function Padded(n: nat, width: nat): (s: string)
    ensures |s| == width
  {
    if width == 0 then "" else Padded(n / 10, width - 1) + [DigitChar(n % 10)]
  }

  lemma {:induction false} PaddedReadsBack(n: nat, width: nat)
    ensures IsDigits(Padded(n, width)) && Number(Padded(n, width)) == n % Power10(width)
  {
    if width > 0 {
      PaddedReadsBack(n / 10, width - 1);
      var s := Padded(n, width);
      assert s[..width - 1] == Padded(n / 10, width - 1) && s[width - 1] == DigitChar(n % 10);
      LastDigit(n, Power10(width - 1));
    } else {
      assert Power10(0) == 1;
    }
  }

  function Power10(k: nat): (p: nat)
    ensures p > 0
  {
    if k == 0 then 1 else 10 * Power10(k - 1)
  }

  lemma {:induction false} PaddedNumber(s: string)
    requires IsDigits(s)
    ensures Padded(Number(s), |s|) == s && Number(s) < Power10(|s|)
  {
    if |s| > 0 {
      var n := |s| - 1;
      PaddedNumber(s[..n]);
      assert s == s[..n] + [s[n]] && Number(s) / 10 == Number(s[..n]) && DigitChar(Number(s) % 10) == s[n];
    }
  }

  function DateText(year: nat, month: nat, day: nat): string {
    Padded(year, 4) + "-" + Padded(month, 2) + "-" + Padded(day, 2)
  }

  /** A year of the proleptic Gregorian calendar with its 29 February: one in
      four, less one in a hundred, plus one in four hundred. */
  function LeapYears(year: nat): int {
    year / 4 - year / 100 + year / 400
  }

  /** 31 days and 30 alternate from January and again from August; February makes
      the year 365 days long, or 366. */
  predicate OnCalendar(year: nat, month: nat, day: nat) {
    && 1 <= month <= 12 && 1 <= day
    && day <= if month == 2 then 28 + (if year == 0 then 1 else LeapYears(year) - LeapYears(year - 1))
              else 31 - (month - 1) % 7 % 2
  }

  lemma LeapOrNot(year: nat)
    requires year > 0
    ensures LeapYears(year) - LeapYears(year - 1) ==
            if year % 4 == 0 && (year % 100 != 0 || year % 400 == 0) then 1 else 0
  {
    Ticks(year, 4);
    Ticks(year, 100);
    Ticks(year, 400);
  }

  lemma DaysOnCalendar(year: nat, month: nat, day: nat)
    ensures OnCalendar(year, month, day) <==> 1 <= month <= 12 && 1 <= day <= DaysIn(month, year)
  {
    if year > 0 { LeapOrNot(year); }
  }

  lemma DateParts(y: string, m: string, d: string)
    requires |y| == 4 && |m| == 2 && |d| == 2
    ensures var s := y + "-" + m + "-" + d;
            |s| == 10 && s[4] == '-' && s[7] == '-' && s[..4] == y && s[5..7] == m && s[8..] == d
  {
  }

  lemma DateOfParts(y: string, m: string, d: string)
    requires |y| == 4 && |m| == 2 && |d| == 2 && IsDigits(y) && IsDigits(m) && IsDigits(d)
    requires 1 <= Number(m) <= 12 && 1 <= Number(d) <= DaysIn(Number(m), Number(y))
    ensures IsISODate(y + "-" + m + "-" + d)
  {
    DateParts(y, m, d);
  }

  lemma Powers()
    ensures Power10(2) == 100 && Power10(4) == 10000
  {
    assert Power10(2) == 10 * Power10(1);
    assert Power10(4) == 10 * Power10(3);
  }

  lemma PaddedNumbers(n: nat, width: nat)
    requires n < Power10(width)
    ensures IsDigits(Padded(n, width)) && Number(Padded(n, width)) == n
  {
    PaddedReadsBack(n, width);
  }

  lemma DayIsDate(year: nat, month: nat, day: nat)
    requires year <= 9999 && OnCalendar(year, month, day)
    ensures IsISODate(DateText(year, month, day))
  {
    Powers();
    DaysOnCalendar(year, month, day);
    PaddedNumbers(year, 4);
    PaddedNumbers(month, 2);
    PaddedNumbers(day, 2);
    DateOfParts(Padded(year, 4), Padded(month, 2), Padded(day, 2));
  }

  lemma DateIsDay(s: string)
    requires IsISODate(s)
    ensures var year, month, day := Number(s[..4]), Number(s[5..7]), Number(s[8..]);
            year <= 9999 && OnCalendar(year, month, day) && s == DateText(year, month, day)
  {
    Powers();
    PaddedNumber(s[..4]);
    PaddedNumber(s[5..7]);
    PaddedNumber(s[8..]);
    DaysOnCalendar(Number(s[..4]), Number(s[5..7]), Number(s[8..]));
    assert s == s[..4] + "-" + s[5..7] + "-" + s[8..];
  }

  /** The dates accepted are exactly the printed days of the calendar. */
  lemma DatesIff(s: string)
    ensures IsISODate(s) <==>
            exists year, month, day: nat :: year <= 9999 && OnCalendar(year, month, day)
              && s == DateText(year, month, day)
  {
    if IsISODate(s) { DateIsDay(s); }
    forall year, month, day: nat
      | year <= 9999 && OnCalendar(year, month, day) && s == DateText(year, month, day)
      ensures IsISODate(s)
    {
      DayIsDate(year, month, day);
    }
  }
}

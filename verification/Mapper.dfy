/** The file connector's mapping of CSV rows to staging records. Names and
    values are taken as already trimmed; reading amounts is a parameter. */
module Mapper {
  import opened Wrappers
  import opened Text
  import opened Hashing
  import C = Canonical
  import opened Sorting
  import opened Journal
  import opened Staging

  datatype Columns = Columns(
    sourceRef: string, occurredAt: string, institution: string, amount: string, currency: string)

  datatype Profile = Profile(
    sourceSystem: string, version: int, columns: Columns, debitAccount: string, creditAccount: string)

  predicate ValidProfile(p: Profile) {
    && p.sourceSystem != "" && p.version > 0 && p.debitAccount != "" && p.creditAccount != ""
    && p.columns.sourceRef != "" && p.columns.occurredAt != "" && p.columns.institution != ""
    && p.columns.amount != "" && p.columns.currency != ""
  }

  function ProfileName(p: Profile): string {
    p.sourceSystem + "@" + Decimal(p.version)
  }

  /** A row the CSV reader cannot read, or one value per header column. */
  datatype CsvRow = Unreadable(reason: string) | Values(values: seq<string>)

  datatype Skipped = Skipped(rowNumber: int, reason: string)

  datatype MapResult = MapResult(records: seq<StagingRecord>, skipped: seq<Skipped>)

  /** Largest amount the connector passes on: half the 64-bit maximum, which as
      a float is 2^62. */
  const CAP: int := 0x4000_0000_0000_0000

  /** The number a text denotes; none if it denotes none or no finite one. */
  type FloatReader = string -> Option<real>

  /** Rounding to the nearest integer, halves up; only positives occur. */
  function Round(x: real): int {
    (x + 0.5).Floor
  }

  /** Minor units of a major-unit amount. A small positive amount may round to
      zero minor units and is passed on. */
  function ParseMajorAmount(read: FloatReader, raw: string): (r: Result<int64, string>)
    ensures r.Ok? ==> 0 <= r.value <= 0x4000_0000_0000_0000
    ensures r.Ok? <==> && raw != "" && read(raw).Some? && read(raw).value > 0.0
                       && read(raw).value * 100.0 < 0x4000_0000_0000_0000 as real + 0.5
    ensures r.Ok? ==> r.value as real - 0.5 <= read(raw).value * 100.0 < r.value as real + 0.5
  {
    if raw == "" then Err("empty amount")
    else if read(raw).None? then Err("unparseable amount")
    else if read(raw).value <= 0.0 then Err("amount must be positive")
    else if Round(read(raw).value * 100.0) > CAP then Err("amount out of range")
    else Ok(Round(read(raw).value * 100.0))
  }

  /** The last column of that name; -1 if there is none. */
  function ColumnOf(header: seq<string>, name: string): (i: int)
    ensures -1 <= i < |header| && (i >= 0 ==> header[i] == name) && (i < 0 <==> name !in header)
    ensures forall k | i < k < |header| :: header[k] != name
  {
    if |header| == 0 then -1
    else if header[|header| - 1] == name then |header| - 1
    else ColumnOf(header[..|header| - 1], name)
  }

  function Field(header: seq<string>, row: CsvRow, name: string): string {
    var i := ColumnOf(header, name);
    if row.Values? && 0 <= i < |row.values| then row.values[i] else ""
  }

  function UpperChar(c: char): char {
    if 'a' <= c <= 'z' then (c as int - 'a' as int + 'A' as int) as char else c
  }

  function Upper(s: string): (r: string)
    ensures |r| == |s| && forall i | 0 <= i < |s| :: r[i] == UpperChar(s[i])
  {
    seq(|s|, i requires 0 <= i < |s| => UpperChar(s[i]))
  }

  function PublicLine(line: JournalLine): C.Line {
    C.Line(line.accountCode, line.direction, line.amountMinor, line.currency)
  }

  function CanonicalLines(lines: seq<JournalLine>): string {
    Join(Map(line => C.LineText(PublicLine(line)), lines), ';')
  }

  function RecordText(r: StagingRecord): string {
    Join([r.sourceSystem, r.sourceRef, r.profile, r.institutionId, r.occurredAt, CanonicalLines(r.lines)], '|')
  }

  /** The record of a readable row with a readable amount. */
  function RecordOf(H: Hasher, p: Profile, header: seq<string>, row: CsvRow, amount: int64): StagingRecord {
    var currency := Upper(Field(header, row, p.columns.currency));
    var lines := [JournalLine(p.debitAccount, "DEBIT", amount, currency),
                  JournalLine(p.creditAccount, "CREDIT", amount, currency)];
    var r := StagingRecord(p.sourceSystem, Field(header, row, p.columns.sourceRef), "", ProfileName(p),
                           Field(header, row, p.columns.institution), Field(header, row, p.columns.occurredAt), lines);
    r.(sourceHash := H(RecordText(r)))
  }

  /** What becomes of one row: a record or a reason to skip it. */
  function MapRow(H: Hasher, p: Profile, read: FloatReader, header: seq<string>, row: CsvRow)
    : Result<StagingRecord, string>
  {
    if row.Unreadable? then Err(row.reason)
    else
      match ParseMajorAmount(read, Field(header, row, p.columns.amount))
      case Err(reason) => Err(reason)
      case Ok(amount) =>
        if Field(header, row, p.columns.sourceRef) == "" then Err("empty source reference")
        else Ok(RecordOf(H, p, header, row, amount))
  }

  function MapRows(H: Hasher, p: Profile, read: FloatReader, header: seq<string>, rows: seq<CsvRow>)
    : (r: seq<Result<StagingRecord, string>>)
    ensures |r| == |rows| && forall i | 0 <= i < |r| :: r[i] == MapRow(H, p, read, header, rows[i])
  {
    seq(|rows|, i requires 0 <= i < |rows| => MapRow(H, p, read, header, rows[i]))
  }

  /** Records and skipped rows, each in file order. */
  function Gathered(outcomes: seq<Result<StagingRecord, string>>): MapResult {
    if |outcomes| == 0 then MapResult([], [])
    else
      var n := |outcomes| - 1;
      var earlier := Gathered(outcomes[..n]);
      match outcomes[n]
      case Ok(record) => earlier.(records := earlier.records + [record])
      case Err(reason) => earlier.(skipped := earlier.skipped + [Skipped(n + 2, reason)])
  }

  predicate HeaderComplete(p: Profile, header: seq<string>) {
    && p.columns.sourceRef in header && p.columns.occurredAt in header && p.columns.institution in header
    && p.columns.amount in header && p.columns.currency in header
  }

  method MapCSV(H: Hasher, p: Profile, read: FloatReader, header: seq<string>, rows: seq<CsvRow>)
    returns (r: Result<MapResult, string>)
    ensures r == if HeaderComplete(p, header) then Ok(Gathered(MapRows(H, p, read, header, rows)))
                 else Err("missing column")
  {
    if !HeaderComplete(p, header) { return Err("missing column"); }
    var records: seq<StagingRecord>, skipped: seq<Skipped> := [], [];
    var rowNumber := 1;
    ghost var outcomes := MapRows(H, p, read, header, rows);
    for i := 0 to |rows|
      invariant rowNumber == i + 1
      invariant MapResult(records, skipped) == Gathered(outcomes[..i])
    {
      assert outcomes[..i + 1][..i] == outcomes[..i];
      rowNumber := rowNumber + 1;
      var row := rows[i];
      if row.Unreadable? {
        skipped := skipped + [Skipped(rowNumber, row.reason)];
        continue;
      }
      var amount := ParseMajorAmount(read, Field(header, row, p.columns.amount));
      if amount.Err? {
        skipped := skipped + [Skipped(rowNumber, amount.error)];
        continue;
      }
      if Field(header, row, p.columns.sourceRef) == "" {
        skipped := skipped + [Skipped(rowNumber, "empty source reference")];
        continue;
      }
      records := records + [RecordOf(H, p, header, row, amount.value)];
    }
    assert outcomes[..|rows|] == outcomes;
    r := Ok(MapResult(records, skipped));
  }

  lemma {:induction false} GatheredPrefix(outcomes: seq<Result<StagingRecord, string>>, i: nat)
    requires i <= |outcomes|
    ensures Gathered(outcomes[..i]).records <= Gathered(outcomes).records
    ensures Gathered(outcomes[..i]).skipped <= Gathered(outcomes).skipped
    ensures |Gathered(outcomes).records| + |Gathered(outcomes).skipped| == |outcomes|
  {
    var n := |outcomes| - 1;
    if i < |outcomes| {
      GatheredPrefix(outcomes[..n], i);
      assert outcomes[..n][..i] == outcomes[..i];
    } else {
      assert outcomes[..i] == outcomes;
      if i > 0 { GatheredPrefix(outcomes[..n], n); }
    }
  }

  /** Every outcome is accounted for exactly once, in order: outcome i is the
      next record, or is skipped under the row's line number in the file. */
  lemma GatheredInOrder(outcomes: seq<Result<StagingRecord, string>>, i: nat)
    requires i < |outcomes|
    ensures var m, before := Gathered(outcomes), Gathered(outcomes[..i]);
            && |m.records| + |m.skipped| == |outcomes| && |before.records| + |before.skipped| == i
            && (outcomes[i].Ok? ==>
                  |before.records| < |m.records| && m.records[|before.records|] == outcomes[i].value)
            && (outcomes[i].Err? ==>
                  |before.skipped| < |m.skipped| && m.skipped[|before.skipped|] == Skipped(i + 2, outcomes[i].error))
  {
    GatheredPrefix(outcomes, i + 1);
    GatheredPrefix(outcomes[..i], 0);
    assert outcomes[..i + 1][..i] == outcomes[..i];
  }

  lemma {:induction false} RecordsComeFromRows(outcomes: seq<Result<StagingRecord, string>>, r: StagingRecord)
    requires r in Gathered(outcomes).records
    ensures Ok(r) in outcomes
  {
    var n := |outcomes| - 1;
    if outcomes[n] != Ok(r) { RecordsComeFromRows(outcomes[..n], r); }
  }

  /** Every mapped record has the identity the staging endpoint demands. */
  lemma MappedHaveIdentity(
    H: Hasher, p: Profile, read: FloatReader, header: seq<string>, rows: seq<CsvRow>, r: StagingRecord)
    requires ValidProfile(p) && r in Gathered(MapRows(H, p, read, header, rows)).records
    ensures HasIdentity(r)
  {
    RecordsComeFromRows(MapRows(H, p, read, header, rows), r);
    assert IsHex64(r.sourceHash);
  }

  /** What a file holds in the last column of a name. */
  ghost predicate Holds(header: seq<string>, row: CsvRow, name: string, value: string) {
    && row.Values? && |row.values| == |header|
    && exists i :: 0 <= i < |header| && header[i] == name && row.values[i] == value
                   && forall k | i < k < |header| :: header[k] != name
  }

  lemma FieldHolds(header: seq<string>, row: CsvRow, name: string)
    requires name in header && row.Values? && |row.values| == |header|
    ensures Holds(header, row, name, Field(header, row, name))
  {
    var i := ColumnOf(header, name);
    assert header[i] == name && row.values[i] == Field(header, row, name);
  }

  /** When a row is skipped, and for what: the reader's reason, then the amount's,
      then a missing reference. */
  lemma SkippedIff(H: Hasher, p: Profile, read: FloatReader, header: seq<string>, row: CsvRow)
    ensures var m := MapRow(H, p, read, header, row);
            var amount := ParseMajorAmount(read, Field(header, row, p.columns.amount));
            && (row.Unreadable? ==> m == Err(row.reason))
            && (row.Values? && amount.Err? ==> m == Err(amount.error))
            && (row.Values? && amount.Ok? && Field(header, row, p.columns.sourceRef) == "" ==>
                  m == Err("empty source reference"))
            && (row.Values? && amount.Ok? && Field(header, row, p.columns.sourceRef) != "" ==> m.Ok?)
  {
  }

  /** What a mapped record says: the profile's system and name, the values in the
      profile's columns, the amount as a debit of the profile's debit account and
      a credit of its credit account, in the currency's capitals; and its hash is
      that of all this written out. */
  lemma MappedFields(H: Hasher, p: Profile, read: FloatReader, header: seq<string>, row: CsvRow)
    requires HeaderComplete(p, header) && MapRow(H, p, read, header, row).Ok?
    requires row.Values? && |row.values| == |header|
    ensures var r := MapRow(H, p, read, header, row).value;
            var raw := Field(header, row, p.columns.amount);
            && r.sourceSystem == p.sourceSystem && r.profile == p.sourceSystem + "@" + Decimal(p.version)
            && r.sourceRef != "" && Holds(header, row, p.columns.sourceRef, r.sourceRef)
            && Holds(header, row, p.columns.institution, r.institutionId)
            && Holds(header, row, p.columns.occurredAt, r.occurredAt)
            && Holds(header, row, p.columns.amount, raw) && read(raw).Some?
            && |r.lines| == 2 && var debit, credit := r.lines[0], r.lines[1];
            && debit.accountCode == p.debitAccount && debit.direction == "DEBIT"
            && credit.accountCode == p.creditAccount && credit.direction == "CREDIT"
            && debit.amountMinor == credit.amountMinor && debit.currency == credit.currency
            && debit.amountMinor as real - 0.5 <= read(raw).value * 100.0 < debit.amountMinor as real + 0.5
            && Capitals(header, row, p.columns.currency, debit.currency)
  {
    FieldHolds(header, row, p.columns.sourceRef);
    FieldHolds(header, row, p.columns.institution);
    FieldHolds(header, row, p.columns.occurredAt);
    FieldHolds(header, row, p.columns.amount);
    FieldHolds(header, row, p.columns.currency);
    var raw := Field(header, row, p.columns.currency);
    assert Holds(header, row, p.columns.currency, raw) && Raises(raw, Upper(raw));
  }

  ghost predicate Raises(raw: string, capitals: string) {
    && |capitals| == |raw|
    && forall i | 0 <= i < |raw| ::
         if 'a' <= raw[i] <= 'z' then capitals[i] as int == raw[i] as int - 32 else capitals[i] == raw[i]
  }

  ghost predicate Capitals(header: seq<string>, row: CsvRow, name: string, capitals: string) {
    exists raw :: Holds(header, row, name, raw) && Raises(raw, capitals)
  }

  /** The text that is hashed reads back: splitting it gives the six fields, and
      splitting the last one the lines in order. */
  lemma RecordTextReadsBack(H: Hasher, p: Profile, read: FloatReader, header: seq<string>, row: CsvRow)
    requires MapRow(H, p, read, header, row).Ok? && Unambiguous(MapRow(H, p, read, header, row).value)
    ensures var r := MapRow(H, p, read, header, row).value;
            exists text ::
              && r.sourceHash == H(text)
              && var parts := Split(text, '|');
              && |parts| == 6 && parts[..5] == [r.sourceSystem, r.sourceRef, r.profile, r.institutionId, r.occurredAt]
              && var lines := Split(parts[5], ';');
              && |lines| == |r.lines|
              && forall i | 0 <= i < |lines| :: C.ReadLine(lines[i]) == PublicLine(r.lines[i])
  {
    var r := MapRow(H, p, read, header, row).value;
    var parts := [r.sourceSystem, r.sourceRef, r.profile, r.institutionId, r.occurredAt, CanonicalLines(r.lines)];
    assert r.sourceHash == H(RecordText(r));
    RecordFieldsFree(r);
    SplitJoin(parts, '|');
    LinesReadBack(r.lines);
    assert parts[..5] == [r.sourceSystem, r.sourceRef, r.profile, r.institutionId, r.occurredAt];
  }

  lemma LinesReadBack(lines: seq<JournalLine>)
    requires |lines| > 0 && forall line | line in lines :: C.CleanLine(PublicLine(line))
    ensures var texts := Split(CanonicalLines(lines), ';');
            |texts| == |lines| && forall i | 0 <= i < |lines| :: C.ReadLine(texts[i]) == PublicLine(lines[i])
  {
    LinesTextFree(lines, ';');
    SplitJoin(Map(line => C.LineText(PublicLine(line)), lines), ';');
    forall i | 0 <= i < |lines| ensures C.ReadLine(C.LineText(PublicLine(lines[i]))) == PublicLine(lines[i]) {
      assert lines[i] in lines;
      C.LineReadsBack(PublicLine(lines[i]));
    }
  }

  lemma TwoLines(a: JournalLine, b: JournalLine, currency: string)
    ensures Net([a], currency) == if a.currency == currency then SignedAmount(a) else 0
    ensures Net([a, b], currency) == Net([a], currency) + (if b.currency == currency then SignedAmount(b) else 0)
  {
    assert [a, b][..1] == [a] && [a][..0] == [];
  }

  /** The running net of a mapped record never overflows, in any currency. */
  lemma MappedNetExact(H: Hasher, p: Profile, header: seq<string>, row: CsvRow, amount: int64, k: nat, currency: string)
    requires 0 <= amount <= CAP && k <= 2
    ensures var lines := RecordOf(H, p, header, row, amount).lines;
            Wrap(Net(lines[..k], currency)) == Net(lines[..k], currency) && Net(lines, currency) == 0
  {
    var lines := RecordOf(H, p, header, row, amount).lines;
    var a, b := lines[0], lines[1];
    assert lines[..0] == [] && lines[..1] == [a] && lines[..2] == [a, b] == lines;
    TwoLines(a, b, currency);
    assert k == 0 || k == 1 || k == 2;
  }

  lemma MappedLinesValidIff(lines: seq<JournalLine>)
    requires |lines| == 2 && lines[1] == lines[0].(accountCode := lines[1].accountCode, direction := "CREDIT")
    requires lines[0].direction == "DEBIT" && lines[0].accountCode != "" && lines[1].accountCode != ""
    ensures FirstLineError(lines).None? <==> lines[0].amountMinor > 0 && C.IsCurrencyCode(lines[0].currency)
  {
    NoLineError(lines);
    assert lines[0] in lines && forall line | line in lines :: line == lines[0] || line == lines[1];
  }

  /** So a mapped record passes validation exactly when its fields do: the amount
      balances by construction. */
  lemma MappedRecordValidIff(H: Hasher, p: Profile, header: seq<string>, row: CsvRow, amount: int64)
    requires ValidProfile(p) && 0 <= amount <= CAP
    ensures var r := RecordOf(H, p, header, row, amount);
            Validate(ToJournalEntry(r)).None? <==>
              && r.institutionId != "" && IsISODate(r.occurredAt) && FiscalYearOf(r.occurredAt) > 0
              && amount > 0 && C.IsCurrencyCode(r.lines[0].currency)
  {
    var r := RecordOf(H, p, header, row, amount);
    forall c ensures Net(r.lines, c) == 0 { MappedNetExact(H, p, header, row, amount, 2, c); }
    MappedLinesValidIff(r.lines);
  }

  ghost predicate Unambiguous(r: StagingRecord) {
    && (forall f | f in [r.sourceSystem, r.sourceRef, r.profile, r.institutionId, r.occurredAt] :: Free(f, '|'))
    && (forall line | line in r.lines :: C.CleanLine(PublicLine(line)))
  }

  lemma LinesTextFree(lines: seq<JournalLine>, c: char)
    requires forall line | line in lines :: C.CleanLine(PublicLine(line))
    requires c == '|' || c == ';'
    ensures forall t | t in Map(line => C.LineText(PublicLine(line)), lines) :: Free(t, c) && ':' in t
  {
    var f := line => C.LineText(PublicLine(line));
    forall t | t in Map(f, lines) ensures Free(t, c) && ':' in t {
      var i :| 0 <= i < |lines| && t == Map(f, lines)[i];
      assert lines[i] in lines;
      C.LineTextFree(PublicLine(lines[i]), c);
    }
  }

  lemma CanonicalLinesInjective(a: seq<JournalLine>, b: seq<JournalLine>)
    requires forall line | line in a :: C.CleanLine(PublicLine(line))
    requires forall line | line in b :: C.CleanLine(PublicLine(line))
    requires CanonicalLines(a) == CanonicalLines(b)
    ensures a == b
  {
    var f := line => C.LineText(PublicLine(line));
    LinesTextFree(a, ';');
    LinesTextFree(b, ';');
    NonEmptyJoin(Map(f, a));
    NonEmptyJoin(Map(f, b));
    if |a| > 0 && |b| > 0 {
      JoinInjective(Map(f, a), Map(f, b), ';');
      forall i | 0 <= i < |a| ensures a[i] == b[i] {
        assert a[i] in a && b[i] in b && Map(f, a)[i] == Map(f, b)[i];
        C.LineTextInjective(PublicLine(a[i]), PublicLine(b[i]));
      }
    }
  }

  lemma NonEmptyJoin(parts: seq<string>)
    requires forall t | t in parts :: ':' in t
    ensures Join(parts, ';') == "" <==> |parts| == 0
  {
    if |parts| > 0 { assert parts[0] in parts; }
  }

  lemma RecordFieldsFree(r: StagingRecord)
    requires Unambiguous(r)
    ensures forall f | f in
            [r.sourceSystem, r.sourceRef, r.profile, r.institutionId, r.occurredAt, CanonicalLines(r.lines)] ::
              Free(f, '|')
  {
    LinesTextFree(r.lines, '|');
    JoinFree(Map(line => C.LineText(PublicLine(line)), r.lines), ';', '|');
    var fields := [r.sourceSystem, r.sourceRef, r.profile, r.institutionId, r.occurredAt];
    assert fields[0] in fields && fields[1] in fields && fields[2] in fields && fields[3] in fields
           && fields[4] in fields;
  }

  /** The source hash is an identity: two separator-free records hashed by the
      connector with the same hash are the same record, or their texts collide. */
  lemma SourceHashIdentifies(H: Hasher, r: StagingRecord, s: StagingRecord)
    requires Unambiguous(r) && Unambiguous(s)
    requires r.sourceHash == H(RecordText(r)) && s.sourceHash == H(RecordText(s)) && r.sourceHash == s.sourceHash
    ensures r == s || Collide(H, RecordText(r), RecordText(s))
  {
    if RecordText(r) == RecordText(s) {
      RecordFieldsFree(r);
      RecordFieldsFree(s);
      var x := [r.sourceSystem, r.sourceRef, r.profile, r.institutionId, r.occurredAt, CanonicalLines(r.lines)];
      var y := [s.sourceSystem, s.sourceRef, s.profile, s.institutionId, s.occurredAt, CanonicalLines(s.lines)];
      JoinInjective(x, y, '|');
      assert x[0] == y[0] && x[1] == y[1] && x[2] == y[2] && x[3] == y[3] && x[4] == y[4] && x[5] == y[5];
      CanonicalLinesInjective(r.lines, s.lines);
    }
  }
}

/** The canonical encoding of a journal entry, version 1: the string whose hash
    is anchored and which anyone can recompute. */
module Canonical {
  import opened Text
  import opened Sorting
  import opened Hashing

  datatype Line = Line(accountCode: string, direction: string, amountMinor: int, currency: string)

  datatype Entry = Entry(
    id: string,
    institutionId: string,
    fiscalYear: int,
    effectiveDate: string,
    status: string,
    entryType: string,
    lines: seq<Line>
  )

  function LineText(line: Line): string {
    Join([line.accountCode, line.direction, Decimal(line.amountMinor), line.currency], ':')
  }

  function Body(lines: seq<Line>): string {
    Join(Sort(Map(LineText, lines), LexLe), ';')
  }

  function Fields(e: Entry): seq<string> {
    ["v1", e.id, e.institutionId, Decimal(e.fiscalYear), e.effectiveDate, e.status, e.entryType, Body(e.lines)]
  }

  function CanonicalString(e: Entry): string {
    Join(Fields(e), '|')
  }

  /** The leaf hash of an entry, computed as the gateway does. */
  method CanonicalHash(H: Hasher, e: Entry) returns (hash: string)
    ensures hash == H(CanonicalString(e))
  {
    var lines: seq<string> := [];
    for i := 0 to |e.lines|
      invariant |lines| == i && forall k | 0 <= k < i :: lines[k] == LineText(e.lines[k])
    {
      lines := lines + [LineText(e.lines[i])];
    }
    assert lines == Map(LineText, e.lines);
    lines := Sort(lines, LexLe);
    var canonical := Join(
      ["v1", e.id, e.institutionId, Decimal(e.fiscalYear), e.effectiveDate, e.status, e.entryType, Join(lines, ';')],
      '|');
    hash := H(canonical);
  }

  lemma LexOrder()
    ensures TotalPreorder(LexLe) && Antisymmetric(LexLe)
  {
    forall a, b ensures LexLe(a, b) || LexLe(b, a) { LexTotal(a, b); }
    forall a, b | LexLe(a, b) && LexLe(b, a) ensures a == b { LexTotal(a, b); }
    forall a, b, c | LexLe(a, b) && LexLe(b, c) ensures LexLe(a, c) { LexTransitive(a, b, c); }
  }

  /** The order in which lines are stored or listed never shows. */
  lemma LineOrderIrrelevant(e: Entry, lines: seq<Line>)
    requires multiset(lines) == multiset(e.lines)
    ensures CanonicalString(e.(lines := lines)) == CanonicalString(e)
  {
    var a, b := Map(LineText, lines), Map(LineText, e.lines);
    LexOrder();
    MapPermutes(LineText, lines, e.lines);
    SortCorrect(a, LexLe);
    SortCorrect(b, LexLe);
    SortedUnique(Sort(a, LexLe), Sort(b, LexLe), LexLe);
  }

  predicate CleanLine(line: Line) {
    forall c | c in "|:;" :: Free(line.accountCode, c) && Free(line.direction, c) && Free(line.currency, c)
  }

  /** No separator occurs inside a field. */
  predicate Clean(e: Entry) {
    && (forall f | f in [e.id, e.institutionId, e.effectiveDate, e.status, e.entryType] :: Free(f, '|'))
    && (forall line | line in e.lines :: CleanLine(line))
  }

  lemma LineTextInjective(a: Line, b: Line)
    requires CleanLine(a) && CleanLine(b) && LineText(a) == LineText(b)
    ensures a == b
  {
    assert ':' in "|:;";
    DecimalFree(a.amountMinor, ':');
    DecimalFree(b.amountMinor, ':');
    JoinInjective([a.accountCode, a.direction, Decimal(a.amountMinor), a.currency],
                  [b.accountCode, b.direction, Decimal(b.amountMinor), b.currency], ':');
    assert [a.accountCode, a.direction, Decimal(a.amountMinor), a.currency][2] == Decimal(b.amountMinor);
    DecimalInjective(a.amountMinor, b.amountMinor);
  }

  lemma LineTextFree(line: Line, c: char)
    requires CleanLine(line) && (c == '|' || c == ';')
    ensures Free(LineText(line), c) && ':' in LineText(line)
  {
    assert c in "|:;";
    DecimalFree(line.amountMinor, c);
    var parts := [line.accountCode, line.direction, Decimal(line.amountMinor), line.currency];
    JoinFree(parts, ':', c);
    JoinHasSeparator(parts, ':');
  }

  lemma SortedTexts(lines: seq<Line>, c: char)
    requires forall line | line in lines :: CleanLine(line)
    requires c == '|' || c == ';'
    ensures var texts := Sort(Map(LineText, lines), LexLe);
            && multiset(texts) == multiset(Map(LineText, lines)) && |texts| == |lines|
            && forall t | t in texts :: Free(t, c) && ':' in t
  {
    LexOrder();
    SortCorrect(Map(LineText, lines), LexLe);
    forall t | t in Sort(Map(LineText, lines), LexLe) ensures Free(t, c) && ':' in t {
      assert t in multiset(Map(LineText, lines));
      var i :| 0 <= i < |lines| && t == LineText(lines[i]);
      LineTextFree(lines[i], c);
    }
  }

  lemma BodyFree(lines: seq<Line>)
    requires forall line | line in lines :: CleanLine(line)
    ensures Free(Body(lines), '|') && (Body(lines) == "" <==> |lines| == 0)
  {
    SortedTexts(lines, '|');
    var texts := Sort(Map(LineText, lines), LexLe);
    JoinFree(texts, ';', '|');
    if |lines| > 0 { assert texts[0] in texts; }
  }

  lemma TextsAgree(a: seq<Line>, b: seq<Line>)
    requires |a| > 0 && |b| > 0 && Body(a) == Body(b)
    requires forall line | line in a :: CleanLine(line)
    requires forall line | line in b :: CleanLine(line)
    ensures multiset(Map(LineText, a)) == multiset(Map(LineText, b))
  {
    SortedTexts(a, ';');
    SortedTexts(b, ';');
    JoinInjective(Sort(Map(LineText, a), LexLe), Sort(Map(LineText, b), LexLe), ';');
  }

  lemma BodyInjective(a: seq<Line>, b: seq<Line>)
    requires forall line | line in a :: CleanLine(line)
    requires forall line | line in b :: CleanLine(line)
    requires Body(a) == Body(b)
    ensures multiset(a) == multiset(b)
  {
    BodyFree(a);
    BodyFree(b);
    if |a| > 0 && |b| > 0 {
      TextsAgree(a, b);
      forall x, y | x in a && y in b && LineText(x) == LineText(y) ensures x == y {
        LineTextInjective(x, y);
      }
      MapReflects(LineText, a, b);
    }
  }

  lemma FieldsFree(e: Entry)
    requires Clean(e)
    ensures forall f | f in Fields(e) :: Free(f, '|')
  {
    DecimalFree(e.fiscalYear, '|');
    BodyFree(e.lines);
    var texts := [e.id, e.institutionId, e.effectiveDate, e.status, e.entryType];
    assert texts[0] in texts && texts[1] in texts && texts[2] in texts && texts[3] in texts && texts[4] in texts;
  }

  /** Separator-free entries with the same encoding have the same header and
      the same lines, counted with multiplicity. */
  lemma EncodingFaithful(a: Entry, b: Entry)
    requires Clean(a) && Clean(b)
    requires CanonicalString(a) == CanonicalString(b)
    ensures a.(lines := b.lines) == b
    ensures multiset(a.lines) == multiset(b.lines)
  {
    FieldsFree(a);
    FieldsFree(b);
    JoinInjective(Fields(a), Fields(b), '|');
    assert forall i | 0 <= i < 8 :: Fields(a)[i] == Fields(b)[i];
    assert Fields(a)[1] == Fields(b)[1] && Fields(a)[2] == Fields(b)[2] && Fields(a)[3] == Fields(b)[3];
    assert Fields(a)[4] == Fields(b)[4] && Fields(a)[5] == Fields(b)[5] && Fields(a)[6] == Fields(b)[6];
    assert Fields(a)[7] == Fields(b)[7];
    DecimalInjective(a.fiscalYear, b.fiscalYear);
    BodyInjective(a.lines, b.lines);
  }

  // Reading an encoding back.

  function ReadLine(text: string): Line {
    var p := Split(text, ':');
    if |p| == 4 then Line(p[0], p[1], ReadInt(p[2]), p[3]) else Line("", "", 0, "")
  }

  /** What anyone reads who splits at the separators: id, institution, year,
      date, status and type, then the lines. */
  function ReadEntry(text: string): Entry
    requires |Split(text, '|')| == 8
  {
    var p := Split(text, '|');
    Entry(p[1], p[2], ReadInt(p[3]), p[4], p[5], p[6], if p[7] == "" then [] else Map(ReadLine, Split(p[7], ';')))
  }

  lemma LineReadsBack(line: Line)
    requires CleanLine(line)
    ensures ReadLine(LineText(line)) == line
  {
    assert ':' in "|:;";
    DecimalFree(line.amountMinor, ':');
    SplitJoin([line.accountCode, line.direction, Decimal(line.amountMinor), line.currency], ':');
    ReadDecimal(line.amountMinor);
  }

  lemma BodyReadsBack(lines: seq<Line>)
    requires |lines| > 0 && forall line | line in lines :: CleanLine(line)
    ensures var texts := Split(Body(lines), ';');
            Sorted(texts, LexLe) && multiset(Map(ReadLine, texts)) == multiset(lines)
  {
    var texts := Sort(Map(LineText, lines), LexLe);
    SortedTexts(lines, ';');
    SplitJoin(texts, ';');
    LexOrder();
    SortCorrect(Map(LineText, lines), LexLe);
    MapPermutes(ReadLine, texts, Map(LineText, lines));
    forall i | 0 <= i < |lines| ensures ReadLine(LineText(lines[i])) == lines[i] {
      assert lines[i] in lines;
      LineReadsBack(lines[i]);
    }
    assert Map(ReadLine, Map(LineText, lines)) == lines;
  }

  /** Encoding loses nothing but the order of the lines: a separator-free entry is
      read back field by field, every number as it was, the lines in byte order
      of their texts. */
  lemma CanonicalReadsBack(e: Entry)
    requires Clean(e)
    ensures var p := Split(CanonicalString(e), '|');
            && |p| == 8 && p[0] == "v1"
            && (|e.lines| > 0 ==> Sorted(Split(p[7], ';'), LexLe))
    ensures var f := ReadEntry(CanonicalString(e));
            f.(lines := e.lines) == e && multiset(f.lines) == multiset(e.lines)
  {
    FieldsFree(e);
    SplitJoin(Fields(e), '|');
    ReadDecimal(e.fiscalYear);
    BodyFree(e.lines);
    if |e.lines| > 0 { BodyReadsBack(e.lines); }
  }

  // The lines alone: when other lines encode alike.

  predicate IsCurrencyCode(s: string) {
    |s| == 3 && forall c | c in s :: 'A' <= c <= 'Z'
  }

  /** A direction and a currency as validation accepts them, on any account. */
  predicate WellFormedLine(line: Line) {
    (line.direction == "DEBIT" || line.direction == "CREDIT") && IsCurrencyCode(line.currency)
  }

  predicate WellFormedLines(lines: seq<Line>) {
    forall line | line in lines :: WellFormedLine(line)
  }

  /** Other lines, not just in another order, with the same canonical string. */
  ghost predicate OtherLines(e: Entry, lines: seq<Line>) {
    && multiset(lines) != multiset(e.lines) && WellFormedLines(lines)
    && CanonicalString(e.(lines := lines)) == CanonicalString(e)
  }

  lemma ColonJoin(a: string, b: string, c: string, d: string)
    ensures Join([a, b, c, d], ':') == a + ":" + b + ":" + c + ":" + d
  {
    assert [a, b, c, d] == [a] + ([b] + ([c] + [d]));
    JoinCons(c, [d], ':');
    JoinCons(b, [c] + [d], ':');
    JoinCons(a, [b] + ([c] + [d]), ':');
  }

  lemma BodyOfOne(line: Line)
    ensures Body([line]) == LineText(line)
  {
    assert Map(LineText, [line]) == [LineText(line)];
    assert Sort([LineText(line)], LexLe) == [LineText(line)];
  }

  lemma SameStart(p: string, x: string, y: string)
    ensures p + x == p + y <==> x == y
  {
    if p + x == p + y { assert x == (p + x)[|p|..] && y == (p + y)[|p|..]; }
  }

  /** Everything before the lines. */
  lemma BodyDecides(e: Entry, lines: seq<Line>)
    ensures CanonicalString(e.(lines := lines)) == CanonicalString(e) <==> Body(lines) == Body(e.lines)
  {
    var header := ["v1", e.id, e.institutionId, Decimal(e.fiscalYear), e.effectiveDate, e.status, e.entryType];
    assert Fields(e) == header + [Body(e.lines)] && Fields(e.(lines := lines)) == header + [Body(lines)];
    JoinSnoc(header, Body(e.lines), '|');
    JoinSnoc(header, Body(lines), '|');
    SameStart(Join(header, '|') + "|", Body(lines), Body(e.lines));
  }

  /** The account that swallows all texts but the last. */
  function SwallowingAccount(texts: seq<string>, account: string): string
    requires |texts| > 0
  {
    Join(texts[..|texts| - 1], ';') + ";" + account
  }

  lemma SwallowedJoin(texts: seq<string>, account: string, rest: string)
    requires |texts| > 1 && texts[|texts| - 1] == account + ":" + rest
    ensures SwallowingAccount(texts, account) + ":" + rest == Join(texts, ';')
  {
    var n := |texts| - 1;
    assert texts == texts[..n] + [account + ":" + rest];
    JoinSnoc(texts[..n], account + ":" + rest, ';');
    Prepend(Join(texts[..n], ';') + ";", account, rest);
  }

  lemma Prepend(front: string, account: string, rest: string)
    ensures (front + account) + ":" + rest == front + (account + ":" + rest)
  {
  }

  lemma SwallowedText(texts: seq<string>, line: Line)
    requires |texts| > 1 && texts[|texts| - 1] == LineText(line)
    ensures LineText(line.(accountCode := SwallowingAccount(texts, line.accountCode))) == Join(texts, ';')
  {
    SplitAccount(line);
    SplitAccount(line.(accountCode := SwallowingAccount(texts, line.accountCode)));
    SwallowedJoin(texts, line.accountCode, Join([line.direction, Decimal(line.amountMinor), line.currency], ':'));
  }

  lemma SplitAccount(line: Line)
    ensures LineText(line) ==
            line.accountCode + ":" + Join([line.direction, Decimal(line.amountMinor), line.currency], ':')
  {
    var rest := [line.direction, Decimal(line.amountMinor), line.currency];
    assert [line.accountCode, line.direction, Decimal(line.amountMinor), line.currency] == [line.accountCode] + rest;
    JoinCons(line.accountCode, rest, ':');
  }

  /** The last text is some line's. */
  lemma LastText(lines: seq<Line>) returns (i: nat)
    requires |lines| > 0
    ensures i < |lines| && Sort(Map(LineText, lines), LexLe)[|lines| - 1] == LineText(lines[i])
  {
    var texts := Sort(Map(LineText, lines), LexLe);
    LexOrder();
    SortCorrect(Map(LineText, lines), LexLe);
    assert texts[|texts| - 1] in multiset(Map(LineText, lines));
    i :| i < |lines| && texts[|texts| - 1] == LineText(lines[i]);
  }

  /** Every entry with two or more lines has a twin with a single line and the
      same canonical string, in a direction, amount and currency the entry has. */
  lemma OneLineTwin(e: Entry) returns (twin: Line)
    requires |e.lines| >= 2
    ensures multiset([twin]) != multiset(e.lines)
    ensures CanonicalString(e.(lines := [twin])) == CanonicalString(e)
    ensures exists i | 0 <= i < |e.lines| :: twin == e.lines[i].(accountCode := twin.accountCode)
  {
    var texts := Sort(Map(LineText, e.lines), LexLe);
    var i := LastText(e.lines);
    twin := e.lines[i].(accountCode := SwallowingAccount(texts, e.lines[i].accountCode));
    SwallowedText(texts, e.lines[i]);
    BodyOfOne(twin);
    BodyDecides(e, [twin]);
    assert |multiset([twin])| == 1 && |multiset(e.lines)| == |e.lines|;
  }

  lemma LineTextParts(line: Line)
    requires WellFormedLine(line)
    ensures LineText(line) ==
            ((line.accountCode + ":" + line.direction) + ":" + Decimal(line.amountMinor)) + ":" + line.currency
    ensures Free(line.direction, ':') && Free(Decimal(line.amountMinor), ':') && Free(line.currency, ':')
  {
    ColonJoin(line.accountCode, line.direction, Decimal(line.amountMinor), line.currency);
    DecimalFree(line.amountMinor, ':');
  }

  /** Read from the right, a well-formed line's text is unambiguous whatever its
      account contains. */
  lemma LineTextDecides(a: Line, b: Line)
    requires WellFormedLine(a) && WellFormedLine(b) && LineText(a) == LineText(b)
    ensures a == b
  {
    LineTextParts(a);
    LineTextParts(b);
    CutLast(a.accountCode + ":" + a.direction + ":" + Decimal(a.amountMinor), a.currency,
            b.accountCode + ":" + b.direction + ":" + Decimal(b.amountMinor), b.currency, ':');
    CutLast(a.accountCode + ":" + a.direction, Decimal(a.amountMinor),
            b.accountCode + ":" + b.direction, Decimal(b.amountMinor), ':');
    CutLast(a.accountCode, a.direction, b.accountCode, b.direction, ':');
    DecimalInjective(a.amountMinor, b.amountMinor);
  }

  lemma BodySeparates(lines: seq<Line>)
    ensures |lines| >= 2 ==> ';' in Body(lines)
    ensures |lines| == 0 <==> Body(lines) == ""
  {
    var texts := Sort(Map(LineText, lines), LexLe);
    if |lines| >= 2 {
      JoinHasSeparator(texts, ';');
    } else if |lines| == 1 {
      assert lines == [lines[0]];
      BodyOfOne(lines[0]);
      JoinHasSeparator(
        [lines[0].accountCode, lines[0].direction, Decimal(lines[0].amountMinor), lines[0].currency], ':');
    }
  }

  lemma FewLinesDecided(e: Entry, lines: seq<Line>)
    requires WellFormedLines(e.lines) && WellFormedLines(lines) && |e.lines| <= 1
    requires forall line | line in e.lines :: Free(line.accountCode, ';')
    requires Body(lines) == Body(e.lines)
    ensures lines == e.lines
  {
    BodySeparates(lines);
    BodySeparates(e.lines);
    if |e.lines| == 1 {
      var line := e.lines[0];
      assert e.lines == [line] && line in e.lines;
      BodyOfOne(line);
      DecimalFree(line.amountMinor, ';');
      JoinFree([line.accountCode, line.direction, Decimal(line.amountMinor), line.currency], ':', ';');
      assert |lines| == 1 && lines == [lines[0]] && lines[0] in lines;
      BodyOfOne(lines[0]);
      LineTextDecides(line, lines[0]);
    }
  }

  /** So the lines of an entry whose accounts hold no line separator are
      ambiguous exactly when there are at least two of them, and a journal entry
      never has fewer. */
  lemma LinesAmbiguousIff(e: Entry)
    requires WellFormedLines(e.lines) && forall line | line in e.lines :: Free(line.accountCode, ';')
    ensures (exists lines :: OtherLines(e, lines)) <==> |e.lines| >= 2
  {
    if |e.lines| >= 2 {
      var twin := OneLineTwin(e);
      var i :| 0 <= i < |e.lines| && twin == e.lines[i].(accountCode := twin.accountCode);
      assert WellFormedLine(e.lines[i]);
      assert OtherLines(e, [twin]);
    } else {
      forall lines ensures !OtherLines(e, lines) {
        BodyDecides(e, lines);
        if Body(lines) == Body(e.lines) && WellFormedLines(lines) { FewLinesDecided(e, lines); }
      }
    }
  }

  // The whole string: what it decides and what it leaves open.

  /** No field separator in a header text or an account. */
  ghost predicate NoBar(e: Entry) {
    && (forall f | f in [e.id, e.institutionId, e.effectiveDate, e.status, e.entryType] :: Free(f, '|'))
    && (forall line | line in e.lines :: Free(line.accountCode, '|'))
  }

  lemma AccountDecidesFree(line: Line, c: char)
    requires WellFormedLine(line) && (c == '|' || c == ';') && Free(line.accountCode, c)
    ensures Free(LineText(line), c)
  {
    DecimalFree(line.amountMinor, c);
    JoinFree([line.accountCode, line.direction, Decimal(line.amountMinor), line.currency], ':', c);
  }

  lemma TextsFree(lines: seq<Line>, c: char)
    requires WellFormedLines(lines) && (c == '|' || c == ';')
    requires forall line | line in lines :: Free(line.accountCode, c)
    ensures forall t | t in Sort(Map(LineText, lines), LexLe) :: Free(t, c)
  {
    LexOrder();
    SortCorrect(Map(LineText, lines), LexLe);
    forall t | t in Sort(Map(LineText, lines), LexLe) ensures Free(t, c) {
      assert t in multiset(Map(LineText, lines));
      var i :| 0 <= i < |lines| && t == LineText(lines[i]);
      assert lines[i] in lines;
      AccountDecidesFree(lines[i], c);
    }
  }

  lemma NoBarFields(e: Entry)
    requires NoBar(e) && WellFormedLines(e.lines)
    ensures forall f | f in Fields(e) :: Free(f, '|')
  {
    DecimalFree(e.fiscalYear, '|');
    TextsFree(e.lines, '|');
    JoinFree(Sort(Map(LineText, e.lines), LexLe), ';', '|');
    var texts := [e.id, e.institutionId, e.effectiveDate, e.status, e.entryType];
    assert texts[0] in texts && texts[1] in texts && texts[2] in texts && texts[3] in texts && texts[4] in texts;
  }

  lemma FieldsDecide(e: Entry, f: Entry)
    requires Fields(f) == Fields(e)
    ensures f.(lines := e.lines) == e && Body(f.lines) == Body(e.lines)
  {
    assert forall i | 0 <= i < 8 :: Fields(f)[i] == Fields(e)[i];
    assert Fields(f)[1] == Fields(e)[1] && Fields(f)[2] == Fields(e)[2] && Fields(f)[3] == Fields(e)[3];
    assert Fields(f)[4] == Fields(e)[4] && Fields(f)[5] == Fields(e)[5] && Fields(f)[6] == Fields(e)[6];
    assert Fields(f)[7] == Fields(e)[7];
    DecimalInjective(f.fiscalYear, e.fiscalYear);
  }

  /** The string of an entry without `|` in its header and accounts decides the
      header of whatever else has it, whatever that holds. */
  lemma StringDecidesHeader(e: Entry, f: Entry)
    requires NoBar(e) && WellFormedLines(e.lines) && CanonicalString(f) == CanonicalString(e)
    ensures f.(lines := e.lines) == e && Body(f.lines) == Body(e.lines)
  {
    NoBarFields(e);
    JoinDecides(Fields(e), Fields(f), '|');
    FieldsDecide(e, f);
  }

  lemma BodyAndSize(a: seq<Line>, b: seq<Line>)
    requires WellFormedLines(a) && WellFormedLines(b) && Body(a) == Body(b)
    requires forall line | line in a :: Free(line.accountCode, ';')
    ensures |b| <= |a| && (|b| == |a| <==> multiset(b) == multiset(a))
  {
    BodySeparates(a);
    BodySeparates(b);
    assert |multiset(a)| == |a| && |multiset(b)| == |b|;
    if |a| > 0 && |b| > 0 {
      TextsFree(a, ';');
      JoinDecides(Sort(Map(LineText, a), LexLe), Sort(Map(LineText, b), LexLe), ';');
      if |b| == |a| { SameTexts(a, b); }
    }
  }

  lemma SameTexts(a: seq<Line>, b: seq<Line>)
    requires WellFormedLines(a) && WellFormedLines(b)
    requires Sort(Map(LineText, a), LexLe) == Sort(Map(LineText, b), LexLe)
    ensures multiset(a) == multiset(b)
  {
    LexOrder();
    SortCorrect(Map(LineText, a), LexLe);
    SortCorrect(Map(LineText, b), LexLe);
    forall x, y | x in a && y in b && LineText(x) == LineText(y) ensures x == y {
      LineTextDecides(x, y);
    }
    MapReflects(LineText, a, b);
  }

  /** String and size identify an entry: of an entry without `|` in header and
      accounts and without `;` in accounts, anything else with well-formed lines
      and the same string has the same header, no more lines, and the same lines
      exactly when it has as many. */
  lemma StringAndSizeIdentify(e: Entry, f: Entry)
    requires NoBar(e) && WellFormedLines(e.lines) && WellFormedLines(f.lines)
    requires forall line | line in e.lines :: Free(line.accountCode, ';')
    requires CanonicalString(f) == CanonicalString(e)
    ensures f.(lines := e.lines) == e && |f.lines| <= |e.lines|
    ensures |f.lines| == |e.lines| <==> multiset(f.lines) == multiset(e.lines)
  {
    StringDecidesHeader(e, f);
    BodyAndSize(e.lines, f.lines);
  }

  /** What an entry's string tells of another entry that has it: the header if
      there is no `|`, and with no `;` the lines too, given their number. */
  ghost predicate TellsApart(e: Entry, f: Entry) {
    NoBar(e) && WellFormedLines(e.lines) ==>
      && f.(lines := e.lines) == e
      && (WellFormedLines(f.lines) && (forall line | line in e.lines :: Free(line.accountCode, ';')) ==>
            |f.lines| <= |e.lines| && (|f.lines| == |e.lines| <==> multiset(f.lines) == multiset(e.lines)))
  }

  lemma SameStringTells(e: Entry, f: Entry)
    requires CanonicalString(f) == CanonicalString(e)
    ensures TellsApart(e, f)
  {
    if NoBar(e) && WellFormedLines(e.lines) {
      StringDecidesHeader(e, f);
      if WellFormedLines(f.lines) && (forall line | line in e.lines :: Free(line.accountCode, ';')) {
        StringAndSizeIdentify(e, f);
      }
    }
  }

  /** Another header over whatever lines, and the same string. */
  ghost predicate OtherEntry(e: Entry, f: Entry) {
    f.(lines := e.lines) != e && WellFormedLines(f.lines) && CanonicalString(f) == CanonicalString(e)
  }

  lemma MoveCut(s: string, k: nat)
    requires k < |s| && s[k] == '|'
    ensures s == s[..k] + "|" + s[k + 1..]
  {
  }

  /** A bar in either of two texts is another place to cut between them. */
  lemma OtherCut(x: string, y: string) returns (u: string, v: string)
    requires '|' in x || '|' in y
    ensures u + "|" + v == x + "|" + y && (u != x || v != y)
  {
    var w := x + "|" + y;
    var k: nat;
    if '|' in x {
      k :| k < |x| && x[k] == '|';
      assert w[k] == '|';
    } else {
      var j :| 0 <= j < |y| && y[j] == '|';
      k := |x| + 1 + j;
      assert w[k] == '|';
    }
    MoveCut(w, k);
    u, v := w[..k], w[k + 1..];
  }

  lemma NeighboursCut(front: seq<string>, x: string, y: string, u: string, v: string, back: seq<string>)
    requires u + "|" + v == x + "|" + y
    ensures Join(front + [u, v] + back, '|') == Join(front + [x, y] + back, '|')
  {
    JoinMerge(front, x, y, back, '|');
    JoinMerge(front, u, v, back, '|');
  }

  lemma BarInIdentity(e: Entry) returns (f: Entry)
    requires WellFormedLines(e.lines) && ('|' in e.id || '|' in e.institutionId)
    ensures OtherEntry(e, f)
  {
    var u, v := OtherCut(e.id, e.institutionId);
    f := e.(id := u, institutionId := v);
    var back := [Decimal(e.fiscalYear), e.effectiveDate, e.status, e.entryType, Body(e.lines)];
    assert Fields(e) == ["v1"] + [e.id, e.institutionId] + back && Fields(f) == ["v1"] + [u, v] + back;
    NeighboursCut(["v1"], e.id, e.institutionId, u, v, back);
  }

  lemma BarInDate(e: Entry) returns (f: Entry)
    requires WellFormedLines(e.lines) && ('|' in e.effectiveDate || '|' in e.status)
    ensures OtherEntry(e, f)
  {
    var u, v := OtherCut(e.effectiveDate, e.status);
    f := e.(effectiveDate := u, status := v);
    var front, back := ["v1", e.id, e.institutionId, Decimal(e.fiscalYear)], [e.entryType, Body(e.lines)];
    assert Fields(e) == front + [e.effectiveDate, e.status] + back && Fields(f) == front + [u, v] + back;
    NeighboursCut(front, e.effectiveDate, e.status, u, v, back);
  }

  lemma BarInType(e: Entry) returns (f: Entry)
    requires WellFormedLines(e.lines) && '|' in e.entryType
    ensures OtherEntry(e, f)
  {
    var u, v := OtherCut(e.status, e.entryType);
    f := e.(status := u, entryType := v);
    var front, back := ["v1", e.id, e.institutionId, Decimal(e.fiscalYear), e.effectiveDate], [Body(e.lines)];
    assert Fields(e) == front + [e.status, e.entryType] + back && Fields(f) == front + [u, v] + back;
    NeighboursCut(front, e.status, e.entryType, u, v, back);
  }

  /** Any number of lines reads as one. */
  lemma AsOneLine(lines: seq<Line>) returns (line: Line)
    requires |lines| > 0 && WellFormedLines(lines)
    ensures WellFormedLine(line) && LineText(line) == Body(lines)
  {
    if |lines| == 1 {
      line := lines[0];
      assert lines == [line] && line in lines;
      BodyOfOne(line);
    } else {
      var texts := Sort(Map(LineText, lines), LexLe);
      var i := LastText(lines);
      assert lines[i] in lines;
      line := lines[i].(accountCode := SwallowingAccount(texts, lines[i].accountCode));
      SwallowedText(texts, lines[i]);
    }
  }

  lemma BarReachesBody(lines: seq<Line>, line: Line)
    requires line in lines && '|' in line.accountCode
    ensures '|' in Body(lines)
  {
    var t := LineText(line);
    SplitAccount(line);
    assert t[..|line.accountCode|] == line.accountCode;
    assert '|' in t[..|line.accountCode|];
    LexOrder();
    SortCorrect(Map(LineText, lines), LexLe);
    var i :| 0 <= i < |lines| && lines[i] == line;
    assert Map(LineText, lines)[i] == t;
    assert t in multiset(Map(LineText, lines));
    JoinKeeps(Sort(Map(LineText, lines), LexLe), t, ';', '|');
  }

  /** A bar in an account: all before it goes to the entry type, all after it to
      the account of a single line. */
  lemma BarInAccount(e: Entry, line: Line) returns (f: Entry)
    requires WellFormedLines(e.lines) && line in e.lines && '|' in line.accountCode
    ensures OtherEntry(e, f)
  {
    BarReachesBody(e.lines, line);
    var one := AsOneLine(e.lines);
    if Free(one.accountCode, '|') { AccountDecidesFree(one, '|'); }
    var k :| 0 <= k < |one.accountCode| && one.accountCode[k] == '|';
    var u, v := one.accountCode[..k], one.accountCode[k + 1..];
    MoveCut(one.accountCode, k);
    var rest := Join([one.direction, Decimal(one.amountMinor), one.currency], ':');
    var short := one.(accountCode := v);
    f := e.(entryType := e.entryType + "|" + u, lines := [short]);
    SplitAccount(one);
    SplitAccount(short);
    BodyOfOne(short);
    CutInto(e.entryType, u, v, rest);
    var front := ["v1", e.id, e.institutionId, Decimal(e.fiscalYear), e.effectiveDate, e.status];
    assert Fields(e) == front + [e.entryType, Body(e.lines)] + [];
    assert Fields(f) == front + [f.entryType, LineText(short)] + [];
    NeighboursCut(front, e.entryType, Body(e.lines), f.entryType, LineText(short), []);
    assert |f.entryType| > |e.entryType|;
  }

  lemma CutInto(x: string, u: string, v: string, rest: string)
    ensures (x + "|" + u) + "|" + (v + ":" + rest) == x + "|" + ((u + "|" + v) + ":" + rest)
  {
  }

  /** Exactly the entries without `|` in header texts and accounts have a string
      from which the header can be read back. */
  lemma HeaderDecidedIff(e: Entry)
    requires WellFormedLines(e.lines)
    ensures (forall f :: !OtherEntry(e, f)) <==> NoBar(e)
  {
    if NoBar(e) {
      forall f ensures !OtherEntry(e, f) {
        if CanonicalString(f) == CanonicalString(e) { StringDecidesHeader(e, f); }
      }
    } else if exists line :: line in e.lines && '|' in line.accountCode {
      var line :| line in e.lines && '|' in line.accountCode;
      var f := BarInAccount(e, line);
    } else if '|' in e.id || '|' in e.institutionId {
      var f := BarInIdentity(e);
    } else if '|' in e.effectiveDate || '|' in e.status {
      var f := BarInDate(e);
    } else {
      assert '|' in e.entryType;
      var f := BarInType(e);
    }
  }

  /** What tells a leaf preimage from a node preimage: its two ends. */
  predicate LooksCanonical(s: string) {
    |s| > 0 && s[0] == 'v' && !IsHexDigit(s[|s| - 1])
  }

  lemma LineEnds(line: Line)
    requires IsCurrencyCode(line.currency)
    ensures |LineText(line)| > 0 && !IsHexDigit(LineText(line)[|LineText(line)| - 1])
  {
    JoinLast([line.accountCode, line.direction, Decimal(line.amountMinor), line.currency], ':');
    assert line.currency[2] in line.currency;
  }

  lemma BodyEnds(lines: seq<Line>)
    requires |lines| > 0 && forall line | line in lines :: IsCurrencyCode(line.currency)
    ensures |Body(lines)| > 0 && !IsHexDigit(Body(lines)[|Body(lines)| - 1])
  {
    var texts := Sort(Map(LineText, lines), LexLe);
    LexOrder();
    SortCorrect(Map(LineText, lines), LexLe);
    var last := texts[|texts| - 1];
    assert last in multiset(Map(LineText, lines));
    var i :| 0 <= i < |lines| && last == LineText(lines[i]);
    assert lines[i] in lines;
    LineEnds(lines[i]);
    if |texts| > 1 { JoinLast(texts, ';'); }
  }

  lemma StringStart(e: Entry)
    ensures |CanonicalString(e)| > 0 && CanonicalString(e)[0] == 'v'
  {
    assert Fields(e) == [Fields(e)[0]] + Fields(e)[1..];
    JoinCons(Fields(e)[0], Fields(e)[1..], '|');
  }

  lemma EncodingShape(e: Entry)
    requires forall line | line in e.lines :: IsCurrencyCode(line.currency)
    ensures LooksCanonical(CanonicalString(e))
  {
    JoinLast(Fields(e), '|');
    if |e.lines| > 0 { BodyEnds(e.lines); }
  }
}

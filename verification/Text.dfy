/** Strings as the services build them: decimal printing, joining with a
    separator, and the byte-wise order that sorts canonical lines. */
module Text {

  /** The fmt verb %d for a non-negative number. */
  function Digits(n: nat): (s: string)
    ensures |s| > 0 && forall c | c in s :: '0' <= c <= '9'
  {
    if n < 10 then [DigitChar(n)] else Digits(n / 10) + [DigitChar(n % 10)]
  }

  function DigitChar(d: nat): (c: char)
    requires d < 10
    ensures '0' <= c <= '9'
  {
    ('0' as int + d) as char
  }

  /** The fmt verb %d for any integer. */
  function Decimal(n: int): string {
    if n < 0 then "-" + Digits(-n) else Digits(n)
  }

  predicate IsDigits(s: string) {
    forall i | 0 <= i < |s| :: '0' <= s[i] <= '9'
  }

  /** Reading decimal digits, the most significant one first. */
  function Number(s: string): nat
    requires IsDigits(s)
  {
    if |s| == 0 then 0 else Number(s[..|s| - 1]) * 10 + (s[|s| - 1] as int - '0' as int)
  }

  /** Printed digits read back as the number, and do not begin with a zero. */
  lemma {:induction false} DigitsReadBack(n: nat)
    ensures IsDigits(Digits(n)) && Number(Digits(n)) == n
    ensures n > 0 ==> Digits(n)[0] != '0'
  {
    var s := Digits(n);
    assert forall i | 0 <= i < |s| :: s[i] in s;
    if n < 10 {
      assert s[..0] == [];
    } else {
      DigitsReadBack(n / 10);
      assert s[..|s| - 1] == Digits(n / 10) && s[|s| - 1] == DigitChar(n % 10);
    }
  }

  /** What %d prints: digits without leading zeros that read back as the number,
      and a minus sign before those of its negation. */
  lemma DecimalReadsBack(n: nat)
    ensures IsDigits(Decimal(n)) && Number(Decimal(n)) == n
    ensures n > 0 ==> Decimal(n)[0] != '0' && Decimal(-(n as int)) == "-" + Decimal(n)
    ensures n == 0 ==> Decimal(n) == "0"
  {
    DigitsReadBack(n);
  }

  /** Reading a printed integer; zero for any other text. */
  function ReadInt(s: string): int {
    if IsDigits(s) then Number(s)
    else if |s| > 0 && s[0] == '-' && IsDigits(s[1..]) then -(Number(s[1..]) as int)
    else 0
  }

  lemma ReadDecimal(n: int)
    ensures ReadInt(Decimal(n)) == n
  {
    DecimalReadsBack(if n < 0 then -n else n);
    if n < 0 {
      assert Decimal(n)[0] == '-' && Decimal(n)[1..] == Decimal(-n);
    }
  }

  /** Two integers that print alike are equal. */
  lemma DecimalInjective(m: int, n: int)
    requires Decimal(m) == Decimal(n)
    ensures m == n
  {
    ReadDecimal(m);
    ReadDecimal(n);
  }

  predicate Free(s: string, c: char) {
    c !in s
  }

  lemma DecimalFree(n: int, c: char)
    requires c != '-' && !('0' <= c <= '9')
    ensures Free(Decimal(n), c)
  {
  }

  /** strings.Join with a one-character separator. */
  function Join(parts: seq<string>, sep: char): string {
    if |parts| == 0 then ""
    else if |parts| == 1 then parts[0]
    else parts[0] + [sep] + Join(parts[1..], sep)
  }

  lemma JoinCons(x: string, xs: seq<string>, sep: char)
    requires |xs| > 0
    ensures Join([x] + xs, sep) == x + [sep] + Join(xs, sep)
  {
    assert ([x] + xs)[1..] == xs;
  }

  /** Where the first separator sits, the part before it cannot reach past it. */
  lemma NoSeparatorBefore(a: string, s: string, b: string, t: string, c: char)
    requires Free(b, c) && a + [c] + s == b + t
    ensures |b| <= |a|
  {
    var u := b + t;
    assert u[|a|] == c && forall i | 0 <= i < |b| :: u[i] == b[i];
  }

  /** Cutting at the first separator is unambiguous. */
  lemma CutFirst(a: string, s: string, b: string, t: string, c: char)
    requires Free(a, c) && Free(b, c)
    requires a + [c] + s == b + [c] + t
    ensures a == b && s == t
  {
    assert a + [c] + s == a + ([c] + s) && b + [c] + t == b + ([c] + t);
    NoSeparatorBefore(a, s, b, [c] + t, c);
    NoSeparatorBefore(b, t, a, [c] + s, c);
    assert a == (a + [c] + s)[..|a|] && b == (b + [c] + t)[..|b|];
    assert s == (a + [c] + s)[|a| + 1..] && t == (b + [c] + t)[|b| + 1..];
  }

  /** Cutting at the last separator is unambiguous too. */
  lemma CutLast(a: string, s: string, b: string, t: string, c: char)
    requires Free(s, c) && Free(t, c) && a + [c] + s == b + [c] + t
    ensures a == b && s == t
  {
    var u := b + [c] + t;
    assert u[|a|] == c && u[|b|] == c;
    assert forall j | |a| < j < |u| :: u[j] == s[j - |a| - 1];
    assert forall j | |b| < j < |u| :: u[j] == t[j - |b| - 1];
    assert |a| == |b|;
    assert a == u[..|a|] && b == u[..|b|] && s == u[|a| + 1..] && t == u[|b| + 1..];
  }

  lemma {:induction false} JoinSnoc(xs: seq<string>, x: string, sep: char)
    requires |xs| > 0
    ensures Join(xs + [x], sep) == Join(xs, sep) + [sep] + x
  {
    if |xs| > 1 {
      JoinSnoc(xs[1..], x, sep);
      assert (xs + [x])[1..] == xs[1..] + [x];
    } else {
      assert (xs + [x])[1..] == [x];
    }
  }

  lemma JoinHasSeparator(xs: seq<string>, sep: char)
    requires |xs| > 1
    ensures sep in Join(xs, sep)
  {
    assert Join(xs, sep) == xs[0] + [sep] + Join(xs[1..], sep);
  }

  /** Joining separator-free parts loses nothing. */
  lemma {:induction false} JoinInjective(xs: seq<string>, ys: seq<string>, sep: char)
    requires |xs| > 0 && |ys| > 0
    requires forall x | x in xs :: Free(x, sep)
    requires forall y | y in ys :: Free(y, sep)
    requires Join(xs, sep) == Join(ys, sep)
    ensures xs == ys
  {
    if |xs| > 1 { JoinHasSeparator(xs, sep); }
    if |ys| > 1 { JoinHasSeparator(ys, sep); }
    assert xs[0] in xs && ys[0] in ys;
    if |xs| > 1 && |ys| > 1 {
      CutFirst(xs[0], Join(xs[1..], sep), ys[0], Join(ys[1..], sep), sep);
      JoinInjective(xs[1..], ys[1..], sep);
      assert xs == [xs[0]] + xs[1..] && ys == [ys[0]] + ys[1..];
    }
  }

  /** strings.Split with a one-character separator. */
  function Split(s: string, sep: char): (parts: seq<string>)
    ensures |parts| > 0
  {
    if |s| == 0 then [""]
    else
      var rest := Split(s[1..], sep);
      if s[0] == sep then [""] + rest else [[s[0]] + rest[0]] + rest[1..]
  }

  lemma {:induction false} SplitFirst(x: string, rest: string, sep: char)
    requires Free(x, sep)
    ensures Split(x, sep) == [x]
    ensures Split(x + [sep] + rest, sep) == [x] + Split(rest, sep)
  {
    var s := x + [sep] + rest;
    if |x| == 0 {
      assert s[1..] == rest;
    } else {
      assert s[1..] == x[1..] + [sep] + rest && x == [x[0]] + x[1..];
      SplitFirst(x[1..], rest, sep);
      assert ([x[1..]] + Split(rest, sep))[1..] == Split(rest, sep);
    }
  }

  /** Splitting undoes joining. */
  lemma {:induction false} SplitJoin(parts: seq<string>, sep: char)
    requires |parts| > 0 && forall p | p in parts :: Free(p, sep)
    ensures Split(Join(parts, sep), sep) == parts
  {
    assert parts[0] in parts;
    if |parts| == 1 {
      SplitFirst(parts[0], "", sep);
    } else {
      SplitFirst(parts[0], Join(parts[1..], sep), sep);
      SplitJoin(parts[1..], sep);
      assert parts == [parts[0]] + parts[1..];
    }
  }

  lemma {:induction false} JoinFree(xs: seq<string>, sep: char, c: char)
    requires c != sep && forall x | x in xs :: Free(x, c)
    ensures Free(Join(xs, sep), c)
  {
    if |xs| > 0 {
      assert xs[0] in xs;
      if |xs| > 1 { JoinFree(xs[1..], sep, c); }
    }
  }

  lemma {:induction false} JoinKeeps(xs: seq<string>, x: string, sep: char, c: char)
    requires x in xs && c in x
    ensures c in Join(xs, sep)
  {
    if |xs| > 1 {
      assert xs == [xs[0]] + xs[1..];
      if x != xs[0] { JoinKeeps(xs[1..], x, sep, c); }
    }
  }

  /** Two neighbouring parts are seen only together. */
  lemma {:induction false} JoinMerge(front: seq<string>, x: string, y: string, back: seq<string>, sep: char)
    ensures Join(front + [x, y] + back, sep) == Join(front + [x + [sep] + y] + back, sep)
    decreases |front|
  {
    if |front| == 0 {
      assert front + [x, y] + back == [x] + ([y] + back) && front + [x + [sep] + y] + back == [x + [sep] + y] + back;
      MergeFirst(x, y, back, sep);
    } else {
      JoinMerge(front[1..], x, y, back, sep);
      var a, b := front[1..] + [x, y] + back, front[1..] + [x + [sep] + y] + back;
      assert front + [x, y] + back == [front[0]] + a && front + [x + [sep] + y] + back == [front[0]] + b;
      JoinCons(front[0], a, sep);
      JoinCons(front[0], b, sep);
    }
  }

  lemma MergeFirst(x: string, y: string, back: seq<string>, sep: char)
    ensures Join([x] + ([y] + back), sep) == Join([x + [sep] + y] + back, sep)
  {
    JoinCons(x, [y] + back, sep);
    if |back| == 0 {
      assert [y] + back == [y] && [x + [sep] + y] + back == [x + [sep] + y];
    } else {
      JoinCons(y, back, sep);
      JoinCons(x + [sep] + y, back, sep);
      Regroup(x + [sep], y, [sep] + Join(back, sep));
      Regroup(y, [sep], Join(back, sep));
      Regroup(x + [sep] + y, [sep], Join(back, sep));
    }
  }

  lemma Regroup(a: string, b: string, c: string)
    ensures (a + b) + c == a + (b + c)
  {
  }

  function Count(s: string, c: char): nat {
    if |s| == 0 then 0 else (if s[0] == c then 1 else 0) + Count(s[1..], c)
  }

  lemma {:induction false} CountConcat(s: string, t: string, c: char)
    ensures Count(s + t, c) == Count(s, c) + Count(t, c)
  {
    if |s| == 0 {
      assert s + t == t;
    } else {
      assert (s + t)[1..] == s[1..] + t;
      CountConcat(s[1..], t, c);
    }
  }

  lemma {:induction false} CountFree(s: string, c: char)
    ensures Count(s, c) == 0 <==> Free(s, c)
  {
    if |s| > 0 {
      CountFree(s[1..], c);
      assert s == [s[0]] + s[1..];
    }
  }

  /** The separators inside the parts. */
  function Inner(parts: seq<string>, sep: char): nat {
    if |parts| == 0 then 0 else Count(parts[0], sep) + Inner(parts[1..], sep)
  }

  lemma {:induction false} InnerFree(parts: seq<string>, sep: char)
    ensures Inner(parts, sep) == 0 <==> forall p | p in parts :: Free(p, sep)
  {
    if |parts| > 0 {
      CountFree(parts[0], sep);
      InnerFree(parts[1..], sep);
      assert parts == [parts[0]] + parts[1..];
    }
  }

  /** A join holds one separator less than it has parts, and those inside them. */
  lemma {:induction false} JoinCount(parts: seq<string>, sep: char)
    requires |parts| > 0
    ensures Count(Join(parts, sep), sep) == |parts| - 1 + Inner(parts, sep)
  {
    if |parts| > 1 {
      JoinCount(parts[1..], sep);
      CountConcat(parts[0] + [sep], Join(parts[1..], sep), sep);
      CountConcat(parts[0], [sep], sep);
    }
  }

  /** So of two joins that agree, the one of separator-free parts has the most;
      and with equally many parts the parts agree. */
  lemma JoinDecides(xs: seq<string>, ys: seq<string>, sep: char)
    requires |xs| > 0 && |ys| > 0 && forall x | x in xs :: Free(x, sep)
    requires Join(xs, sep) == Join(ys, sep)
    ensures |ys| <= |xs| && (|ys| == |xs| <==> ys == xs)
  {
    JoinCount(xs, sep);
    JoinCount(ys, sep);
    InnerFree(xs, sep);
    InnerFree(ys, sep);
    if |ys| == |xs| { JoinInjective(xs, ys, sep); }
  }

  /** A join ends as its last part does, or with the separator. */
  lemma {:induction false} JoinLast(xs: seq<string>, sep: char)
    requires |xs| > 1
    ensures var s, last := Join(xs, sep), xs[|xs| - 1];
            && |s| > 0
            && s[|s| - 1] == if |last| > 0 then last[|last| - 1] else sep
  {
    if |xs| > 2 {
      JoinLast(xs[1..], sep);
    }
  }

  /** Byte-wise order on strings. */
  predicate LexLe(a: string, b: string) {
    if |a| == 0 then true
    else if |b| == 0 then false
    else if a[0] != b[0] then a[0] < b[0]
    else LexLe(a[1..], b[1..])
  }

  /** The two texts are the same up to position k, where a is smaller. */
  ghost predicate SmallerAt(a: string, b: string, k: nat) {
    k < |a| && k < |b| && a[..k] == b[..k] && a[k] < b[k]
  }

  lemma SmallerAtNext(a: string, b: string, k: nat)
    requires |a| > 0 && |b| > 0
    ensures SmallerAt(a, b, 0) <==> a[0] < b[0]
    ensures SmallerAt(a, b, k + 1) <==> a[0] == b[0] && SmallerAt(a[1..], b[1..], k)
  {
    if k + 1 < |a| && k + 1 < |b| {
      var s, t := a[..k + 1], b[..k + 1];
      assert s == [a[0]] + a[1..][..k] && t == [b[0]] + b[1..][..k];
      assert s[0] == a[0] && t[0] == b[0] && s[1..] == a[1..][..k] && t[1..] == b[1..][..k];
    }
  }

  /** Prefixes come first; otherwise the first different character decides. */
  lemma {:induction false} LexLeIff(a: string, b: string)
    ensures LexLe(a, b) <==> a <= b || exists k: nat :: SmallerAt(a, b, k)
  {
    if |a| > 0 && |b| > 0 {
      LexLeIff(a[1..], b[1..]);
      assert a == [a[0]] + a[1..] && b == [b[0]] + b[1..];
      assert a <= b <==> a[0] == b[0] && a[1..] <= b[1..];
      if exists k: nat :: SmallerAt(a, b, k) {
        var k: nat :| SmallerAt(a, b, k);
        SmallerAtNext(a, b, if k > 0 then k - 1 else 0);
      }
      SmallerAtNext(a, b, 0);
      if k: nat :| SmallerAt(a[1..], b[1..], k) { SmallerAtNext(a, b, k); }
    }
  }

  lemma {:induction false} LexTotal(a: string, b: string)
    ensures LexLe(a, b) || LexLe(b, a)
    ensures LexLe(a, b) && LexLe(b, a) ==> a == b
  {
    if |a| > 0 && |b| > 0 && a[0] == b[0] {
      LexTotal(a[1..], b[1..]);
      assert a == [a[0]] + a[1..] && b == [b[0]] + b[1..];
    }
  }

  lemma {:induction false} LexTransitive(a: string, b: string, c: string)
    requires LexLe(a, b) && LexLe(b, c)
    ensures LexLe(a, c)
  {
    if |a| > 0 && |b| > 0 && |c| > 0 && a[0] == b[0] == c[0] {
      LexTransitive(a[1..], b[1..], c[1..]);
    }
  }
}

/** Sorting by an order: what sort.Strings, sort.Float64s, sort.Slice and
    ORDER BY promise, a sorted rearrangement, and why it is unique. */
module Sorting {

  ghost predicate TotalPreorder<T(!new)>(le: (T, T) -> bool) {
    && (forall x, y :: le(x, y) || le(y, x))
    && (forall x, y, z :: le(x, y) && le(y, z) ==> le(x, z))
  }

  ghost predicate Antisymmetric<T(!new)>(le: (T, T) -> bool) {
    forall x, y :: le(x, y) && le(y, x) ==> x == y
  }

  ghost predicate Sorted<T>(s: seq<T>, le: (T, T) -> bool) {
    forall i, j | 0 <= i < j < |s| :: le(s[i], s[j])
  }

  function Insert<T>(x: T, s: seq<T>, le: (T, T) -> bool): (r: seq<T>)
    ensures |r| == |s| + 1
  {
    if |s| == 0 || le(x, s[0]) then [x] + s else [s[0]] + Insert(x, s[1..], le)
  }

  function Sort<T>(s: seq<T>, le: (T, T) -> bool): (r: seq<T>)
    ensures |r| == |s|
  {
    if |s| == 0 then [] else Insert(s[0], Sort(s[1..], le), le)
  }

  lemma {:induction false} InsertKeeps<T>(x: T, s: seq<T>, le: (T, T) -> bool)
    ensures multiset(Insert(x, s, le)) == multiset{x} + multiset(s)
  {
    if |s| > 0 && !le(x, s[0]) {
      InsertKeeps(x, s[1..], le);
      assert s == [s[0]] + s[1..];
    }
  }

  lemma {:induction false} InsertCorrect<T(!new)>(x: T, s: seq<T>, le: (T, T) -> bool)
    requires TotalPreorder(le) && Sorted(s, le)
    ensures Sorted(Insert(x, s, le), le)
    ensures multiset(Insert(x, s, le)) == multiset{x} + multiset(s)
  {
    InsertKeeps(x, s, le);
    if |s| > 0 && !le(x, s[0]) {
      InsertCorrect(x, s[1..], le);
      var rest := Insert(x, s[1..], le);
      forall j | 0 <= j < |rest| ensures le(s[0], rest[j]) {
        assert rest[j] in multiset(rest);
        if rest[j] != x { assert rest[j] in multiset(s[1..]); }
      }
    }
  }

  /** Sort returns a sorted rearrangement of its input. */
  lemma {:induction false} SortCorrect<T(!new)>(s: seq<T>, le: (T, T) -> bool)
    requires TotalPreorder(le)
    ensures Sorted(Sort(s, le), le) && multiset(Sort(s, le)) == multiset(s)
  {
    if |s| > 0 {
      SortCorrect(s[1..], le);
      InsertCorrect(s[0], Sort(s[1..], le), le);
      assert s == [s[0]] + s[1..];
    }
  }

  ghost predicate DistinctBy<T, K>(s: seq<T>, key: T -> K) {
    forall i, j | 0 <= i < j < |s| :: key(s[i]) != key(s[j])
  }

  lemma {:induction false} InsertDistinct<T(!new), K>(x: T, s: seq<T>, le: (T, T) -> bool, key: T -> K)
    requires TotalPreorder(le) && Sorted(s, le)
    requires DistinctBy(s, key) && forall y | y in s :: key(y) != key(x)
    ensures DistinctBy(Insert(x, s, le), key)
  {
    if |s| > 0 && !le(x, s[0]) {
      InsertDistinct(x, s[1..], le, key);
      InsertCorrect(x, s[1..], le);
      var rest := Insert(x, s[1..], le);
      assert s[0] in s;
      forall j | 0 <= j < |rest| ensures key(s[0]) != key(rest[j]) {
        assert rest[j] in multiset(rest);
        if rest[j] != x {
          var i :| 0 <= i < |s[1..]| && s[1..][i] == rest[j];
          assert s[i + 1] == rest[j];
        }
      }
    }
  }

  /** Sorting keeps keys distinct. */
  lemma {:induction false} SortDistinct<T(!new), K>(s: seq<T>, le: (T, T) -> bool, key: T -> K)
    requires TotalPreorder(le) && DistinctBy(s, key)
    ensures DistinctBy(Sort(s, le), key)
  {
    if |s| > 0 {
      SortDistinct(s[1..], le, key);
      SortCorrect(s[1..], le);
      forall y | y in Sort(s[1..], le) ensures key(y) != key(s[0]) {
        assert y in multiset(s[1..]);
        var i :| 0 <= i < |s[1..]| && s[1..][i] == y;
        assert s[i + 1] == y;
      }
      InsertDistinct(s[0], Sort(s[1..], le), le, key);
    }
  }

  lemma SplitAt<T>(s: seq<T>, k: nat)
    requires k < |s|
    ensures s == s[..k] + [s[k]] + s[k + 1..]
  {
  }

  /** Taking one element out of a sequence takes one occurrence away. */
  lemma TakeOut<T>(s: seq<T>, k: nat)
    requires k < |s|
    ensures multiset(s) == multiset{s[k]} + multiset(s[..k] + s[k + 1..])
    ensures multiset(s[..k] + s[k + 1..]) == multiset(s) - multiset{s[k]}
  {
    SplitAt(s, k);
  }

  lemma SameRest<T>(a: seq<T>, b: seq<T>, k: nat)
    requires multiset(a) == multiset(b) && |a| > 0 && k < |b| && b[k] == a[0]
    ensures multiset(a[..0] + a[1..]) == multiset(b[..k] + b[k + 1..])
  {
    TakeOut(a, 0);
    TakeOut(b, k);
  }

  lemma HeadOut<T>(s: seq<T>)
    requires |s| > 0
    ensures multiset(s[1..]) == multiset(s) - multiset{s[0]}
    ensures multiset(s) == multiset{s[0]} + multiset(s[1..])
  {
    assert s == [s[0]] + s[1..];
  }

  /** In a sorted sequence the head is below every member. */
  lemma HeadLeast<T(!new)>(s: seq<T>, x: T, le: (T, T) -> bool)
    requires TotalPreorder(le) && Sorted(s, le) && x in multiset(s)
    ensures |s| > 0 && le(s[0], x)
  {
    var i :| 0 <= i < |s| && s[i] == x;
  }

  /** For an antisymmetric order any two sorted rearrangements agree, so the
      sorting algorithm does not matter. */
  lemma {:induction false} SortedUnique<T(!new)>(a: seq<T>, b: seq<T>, le: (T, T) -> bool)
    requires TotalPreorder(le) && Antisymmetric(le)
    requires Sorted(a, le) && Sorted(b, le) && multiset(a) == multiset(b)
    ensures a == b
  {
    assert |a| == |multiset(a)| == |multiset(b)| == |b|;
    if |a| > 0 {
      assert a[0] in multiset(a) && b[0] in multiset(b);
      HeadLeast(a, b[0], le);
      HeadLeast(b, a[0], le);
      HeadOut(a);
      HeadOut(b);
      SortedUnique(a[1..], b[1..], le);
      assert a == [a[0]] + a[1..] && b == [b[0]] + b[1..];
    }
  }

  /** Members of a sorted prefix are below everything left out of it. */
  lemma PrefixBelow<T(!new)>(s: seq<T>, le: (T, T) -> bool, n: nat, e: T, f: T)
    requires Sorted(s, le) && n <= |s| && e in s[..n] && f in s && f !in s[..n]
    ensures le(e, f)
  {
    var i :| 0 <= i < n && s[..n][i] == e;
    var j :| 0 <= j < |s| && s[j] == f;
    assert forall k | 0 <= k < n :: s[k] in s[..n];
    assert le(s[i], s[j]);
  }

  /** The image of a sequence under a function, element by element. */
  function Map<S, T>(f: S -> T, s: seq<S>): (r: seq<T>)
    ensures |r| == |s| && forall i | 0 <= i < |s| :: r[i] == f(s[i])
  {
    seq(|s|, i requires 0 <= i < |s| => f(s[i]))
  }

  lemma MapTakeOut<S, T>(f: S -> T, s: seq<S>, k: nat)
    requires k < |s|
    ensures multiset(Map(f, s)) == multiset{f(s[k])} + multiset(Map(f, s[..k] + s[k + 1..]))
  {
    assert Map(f, s)[..k] + Map(f, s)[k + 1..] == Map(f, s[..k] + s[k + 1..]);
    TakeOut(Map(f, s), k);
  }

  /** Rearranging a sequence rearranges its image. */
  lemma {:induction false} MapPermutes<S, T>(f: S -> T, a: seq<S>, b: seq<S>)
    requires multiset(a) == multiset(b)
    ensures multiset(Map(f, a)) == multiset(Map(f, b))
    decreases |a|
  {
    if |a| == 0 {
      assert |b| == |multiset(b)| == |multiset(a)| == 0;
      assert Map(f, a) == Map(f, b);
    } else {
      assert a[0] in multiset(b);
      var k :| 0 <= k < |b| && b[k] == a[0];
      var a', b' := a[..0] + a[1..], b[..k] + b[k + 1..];
      SameRest(a, b, k);
      MapPermutes(f, a', b');
      assert multiset(Map(f, a)) == multiset{f(a[0])} + multiset(Map(f, a')) by { MapTakeOut(f, a, 0); }
      assert multiset(Map(f, b)) == multiset{f(a[0])} + multiset(Map(f, b')) by { MapTakeOut(f, b, k); }
    }
  }

  lemma SameImageRest<S, T>(f: S -> T, a: seq<S>, b: seq<S>, k: nat)
    requires multiset(Map(f, a)) == multiset(Map(f, b)) && |a| > 0 && k < |b| && f(b[k]) == f(a[0])
    ensures multiset(Map(f, a[..0] + a[1..])) == multiset(Map(f, b[..k] + b[k + 1..]))
  {
    MapTakeOut(f, a, 0);
    MapTakeOut(f, b, k);
    var m: multiset<T> := multiset{f(a[0])};
    assert multiset(Map(f, a[..0] + a[1..])) == multiset(Map(f, a)) - m;
    assert multiset(Map(f, b[..k] + b[k + 1..])) == multiset(Map(f, b)) - m;
  }

  /** Conversely, an injective image determines the multiset of its source. */
  lemma {:induction false} MapReflects<S, T>(f: S -> T, a: seq<S>, b: seq<S>)
    requires multiset(Map(f, a)) == multiset(Map(f, b))
    requires forall x, y | x in a && y in b && f(x) == f(y) :: x == y
    ensures multiset(a) == multiset(b)
  {
    assert |Map(f, a)| == |multiset(Map(f, a))| == |multiset(Map(f, b))| == |Map(f, b)|;
    if |a| > 0 {
      assert Map(f, a)[0] in multiset(Map(f, b));
      var k :| 0 <= k < |Map(f, b)| && Map(f, b)[k] == f(a[0]);
      assert a[0] in a && b[k] in b;
      var a', b' := a[..0] + a[1..], b[..k] + b[k + 1..];
      SameImageRest(f, a, b, k);
      MapReflects(f, a', b');
      TakeOut(a, 0);
      TakeOut(b, k);
    }
  }

  /** What every element contributes, one after the other. */
  function Collect<S, T>(f: S -> seq<T>, s: seq<S>): seq<T> {
    if |s| == 0 then [] else Collect(f, s[..|s| - 1]) + f(s[|s| - 1])
  }

  lemma {:induction false} CollectAppend<S, T>(f: S -> seq<T>, a: seq<S>, b: seq<S>)
    ensures Collect(f, a + b) == Collect(f, a) + Collect(f, b)
  {
    if |b| == 0 {
      assert a + b == a;
    } else {
      CollectAppend(f, a, b[..|b| - 1]);
      assert (a + b)[..|a + b| - 1] == a + b[..|b| - 1];
    }
  }

  lemma CollectOne<S, T>(f: S -> seq<T>, x: S)
    ensures Collect(f, [x]) == f(x)
  {
    assert [x][..0] == [];
  }

  lemma CollectTakeOut<S, T>(f: S -> seq<T>, s: seq<S>, k: nat)
    requires k < |s|
    ensures multiset(Collect(f, s)) == multiset(f(s[k])) + multiset(Collect(f, s[..k] + s[k + 1..]))
  {
    SplitAt(s, k);
    CollectOne(f, s[k]);
    CollectAppend(f, s[..k] + [s[k]], s[k + 1..]);
    CollectAppend(f, s[..k], [s[k]]);
    CollectAppend(f, s[..k], s[k + 1..]);
  }

  /** Rearranging a sequence rearranges what it collects. */
  lemma {:induction false} CollectPermutes<S, T>(f: S -> seq<T>, a: seq<S>, b: seq<S>)
    requires multiset(a) == multiset(b)
    ensures multiset(Collect(f, a)) == multiset(Collect(f, b))
    decreases |a|
  {
    assert |a| == |multiset(a)| == |multiset(b)| == |b|;
    if |a| > 0 {
      assert a[0] in multiset(b);
      var k :| 0 <= k < |b| && b[k] == a[0];
      var a', b' := a[..0] + a[1..], b[..k] + b[k + 1..];
      SameRest(a, b, k);
      CollectPermutes(f, a', b');
      assert multiset(Collect(f, a)) == multiset(f(a[0])) + multiset(Collect(f, a')) by { CollectTakeOut(f, a, 0); }
      assert multiset(Collect(f, b)) == multiset(f(a[0])) + multiset(Collect(f, b')) by { CollectTakeOut(f, b, k); }
    }
  }

  lemma CollectSize<S, T>(f: S -> seq<T>, a: seq<S>, b: seq<S>)
    requires multiset(a) == multiset(b)
    ensures |Collect(f, a)| == |Collect(f, b)|
  {
    CollectPermutes(f, a, b);
    assert |multiset(Collect(f, a))| == |multiset(Collect(f, b))|;
  }

  lemma {:induction false} CollectAgrees<S, T>(f: S -> seq<T>, g: S -> seq<T>, s: seq<S>)
    requires forall x | x in s :: f(x) == g(x)
    ensures Collect(f, s) == Collect(g, s)
  {
    if |s| > 0 { CollectAgrees(f, g, s[..|s| - 1]); }
  }

  function Reversed<T>(s: seq<T>): (r: seq<T>)
    ensures |r| == |s| && forall i | 0 <= i < |r| :: r[i] == s[|s| - 1 - i]
  {
    seq(|s|, i requires 0 <= i < |s| => s[|s| - 1 - i])
  }

  lemma {:induction false} ReversedPermutes<T>(s: seq<T>)
    ensures multiset(Reversed(s)) == multiset(s)
  {
    if |s| > 0 {
      ReversedPermutes(s[1..]);
      assert Reversed(s) == Reversed(s[1..]) + [s[0]];
      HeadOut(s);
    } else {
      assert Reversed(s) == s;
    }
  }

  lemma {:induction false} InsertAgrees<T>(x: T, s: seq<T>, le: (T, T) -> bool, before: (T, T) -> bool)
    requires forall y | y in s :: le(x, y) == before(x, y)
    ensures Insert(x, s, le) == Insert(x, s, before)
  {
    if |s| > 0 {
      assert s[0] in s;
      InsertAgrees(x, s[1..], le, before);
    }
  }

  /** Sorting looks at the order of the elements present, no further. */
  lemma {:induction false} SortAgrees<T(!new)>(s: seq<T>, le: (T, T) -> bool, before: (T, T) -> bool)
    requires TotalPreorder(le) && forall x, y | x in s && y in s :: le(x, y) == before(x, y)
    ensures Sort(s, le) == Sort(s, before)
  {
    if |s| > 0 {
      assert forall x | x in s[1..] :: x in s;
      SortAgrees(s[1..], le, before);
      SortCorrect(s[1..], le);
      forall y | y in Sort(s[1..], le) ensures le(s[0], y) == before(s[0], y) {
        assert y in multiset(s[1..]);
      }
      InsertAgrees(s[0], Sort(s[1..], le), le, before);
    }
  }

  lemma {:induction false} InsertBeforeLast<T>(x: T, s: seq<T>, last: T, le: (T, T) -> bool)
    requires le(x, last)
    ensures Insert(x, s + [last], le) == Insert(x, s, le) + [last]
  {
    if |s| == 0 {
      assert s + [last] == [last];
    } else if !le(x, s[0]) {
      InsertBeforeLast(x, s[1..], last, le);
      assert (s + [last])[1..] == s[1..] + [last];
    }
  }

  /** What is above everything else sorts last. */
  lemma {:induction false} SortLast<T>(s: seq<T>, last: T, le: (T, T) -> bool)
    requires forall x | x in s :: le(x, last)
    ensures Sort(s + [last], le) == Sort(s, le) + [last]
  {
    if |s| == 0 {
      assert s + [last] == [last] && [last][1..] == [];
    } else {
      SortLast(s[1..], last, le);
      assert (s + [last])[1..] == s[1..] + [last];
      InsertBeforeLast(s[0], Sort(s[1..], le), last, le);
    }
  }
}

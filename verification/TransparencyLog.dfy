/** The hash-chained log that serves as the local anchoring backend. */
module TransparencyLog {
  import opened Text
  import opened Hashing
  import opened Wrappers

  datatype LogRow = LogRow(sequence: int, merkleRoot: string, prevHash: string, entryHash: string)

  function ChainInput(sequence: int, merkleRoot: string, prevHash: string): string {
    Decimal(sequence) + "|" + merkleRoot + "|" + prevHash
  }

  /** Rows are listed by sequence, as the primary key orders them. */
  function LastHash(rows: seq<LogRow>): string {
    if |rows| == 0 then "genesis" else rows[|rows| - 1].entryHash
  }

  function NextSequence(rows: seq<LogRow>): int {
    (if |rows| == 0 then 0 else rows[|rows| - 1].sequence) + 1
  }

  /** The row a commit inserts when its first read sees one table and its
      second read another. */
  function RowFrom(H: Hasher, tail: seq<LogRow>, count: seq<LogRow>, merkleRoot: string): LogRow {
    var prev, sequence := LastHash(tail), NextSequence(count);
    LogRow(sequence, merkleRoot, prev, H(ChainInput(sequence, merkleRoot, prev)))
  }

  predicate RowAt(H: Hasher, rows: seq<LogRow>, k: nat)
    requires k < |rows|
  {
    && rows[k].sequence == k + 1
    && rows[k].prevHash == LastHash(rows[..k])
    && rows[k].entryHash == H(ChainInput(rows[k].sequence, rows[k].merkleRoot, rows[k].prevHash))
  }

  /** Sequences 1 to n, each row naming its predecessor's hash. */
  ghost predicate Chained(H: Hasher, rows: seq<LogRow>) {
    forall k: nat {:trigger RowAt(H, rows, k)} | k < |rows| :: RowAt(H, rows, k)
  }

  /** The strings hashed to write the rows. */
  function LogInputs(rows: seq<LogRow>): set<string> {
    set k | 0 <= k < |rows| :: ChainInput(rows[k].sequence, rows[k].merkleRoot, rows[k].prevHash)
  }

  /** One writer at a time, as the service runs it. The reference names the
      sequence of the new row. */
  class Log {
    const H: Hasher
    var rows: seq<LogRow>

    constructor (H: Hasher)
      ensures this.H == H && rows == [] && Chained(H, rows)
    {
      this.H := H;
      rows := [];
    }

    method Commit(merkleRoot: string, entryCount: int, fate: TxFate) returns (r: Result<string, string>)
      modifies this
      ensures rows == if fate == RolledBack then old(rows)
                      else old(rows) + [RowFrom(H, old(rows), old(rows), merkleRoot)]
      ensures r == if fate == Committed then Ok("tlog:" + Decimal(NextSequence(old(rows)))) else Err("commit failed")
    {
      var prevHash := "genesis";
      if |rows| > 0 { prevHash := rows[|rows| - 1].entryHash; }
      var sequence := 1;
      if |rows| > 0 { sequence := rows[|rows| - 1].sequence + 1; }
      var entryHash := H(ChainInput(sequence, merkleRoot, prevHash));
      if fate == RolledBack { return Err("commit failed"); }
      rows := rows + [LogRow(sequence, merkleRoot, prevHash, entryHash)];
      r := if fate == AckLost then Err("commit failed") else Ok("tlog:" + Decimal(sequence));
    }
  }

  /** What a row says and what its hash is of: splitting the hashed text gives its
      number, its root and the hash of the row before. */
  lemma ChainSays(H: Hasher, rows: seq<LogRow>, k: nat)
    requires Chained(H, rows) && k < |rows| && Free(rows[k].merkleRoot, '|')
    ensures rows[k].sequence == k + 1
    ensures rows[k].prevHash == if k == 0 then "genesis" else rows[k - 1].entryHash
    ensures exists text ::
              && rows[k].entryHash == H(text)
              && var parts := Split(text, '|');
              && |parts| == 3 && ReadInt(parts[0]) == k + 1 && parts[1] == rows[k].merkleRoot
              && parts[2] == rows[k].prevHash
  {
    assert RowAt(H, rows, k);
    PrevFree(H, rows, k);
    DecimalFree(k + 1, '|');
    ReadDecimal(k + 1);
    var parts := [Decimal(k + 1), rows[k].merkleRoot, rows[k].prevHash];
    SplitJoin(parts, '|');
    ThreeParts(parts[0], parts[1], parts[2]);
    assert rows[k].entryHash == H(Join(parts, '|'));
  }

  lemma ThreeParts(a: string, b: string, c: string)
    ensures Join([a, b, c], '|') == a + "|" + b + "|" + c
  {
    assert [a, b, c] == [a] + ([b] + [c]);
    JoinCons(b, [c], '|');
    JoinCons(a, [b] + [c], '|');
  }

  lemma ChainedPrefix(H: Hasher, rows: seq<LogRow>, n: nat)
    requires Chained(H, rows) && n <= |rows|
    ensures Chained(H, rows[..n])
  {
    forall k: nat | k < n ensures RowAt(H, rows[..n], k) {
      assert RowAt(H, rows, k);
      assert rows[..n][..k] == rows[..k];
    }
  }

  lemma NextIsLength(H: Hasher, rows: seq<LogRow>)
    requires Chained(H, rows)
    ensures NextSequence(rows) == |rows| + 1
  {
    if |rows| > 0 { assert RowAt(H, rows, |rows| - 1); }
  }

  /** Serialized commits keep the chain unbroken. */
  lemma CommitKeepsChain(H: Hasher, rows: seq<LogRow>, merkleRoot: string)
    requires Chained(H, rows)
    ensures Chained(H, rows + [RowFrom(H, rows, rows, merkleRoot)])
  {
    var next := rows + [RowFrom(H, rows, rows, merkleRoot)];
    NextIsLength(H, rows);
    forall k: nat | k < |next| ensures RowAt(H, next, k) {
      assert next[..k] == rows[..k];
      if k < |rows| { assert RowAt(H, rows, k); } else { assert rows[..k] == rows; }
    }
  }

  lemma PrevFree(H: Hasher, rows: seq<LogRow>, k: nat)
    requires Chained(H, rows) && k < |rows|
    ensures Free(rows[k].prevHash, '|') && (rows[k].prevHash == "genesis" <==> k == 0)
  {
    assert RowAt(H, rows, k);
    if k > 0 {
      assert RowAt(H, rows, k - 1);
      var h := rows[k].prevHash;
      assert IsHex64(h) && |h| == 64;
      forall i: nat | i < |h| ensures h[i] != '|' { assert HexAt(h, i); }
    }
  }

  /** Sequence, root and predecessor can be read back from what was hashed,
      whatever the root is. */
  lemma ChainInputInjective(m: int, r: string, p: string, n: int, s: string, q: string)
    requires Free(p, '|') && Free(q, '|') && ChainInput(m, r, p) == ChainInput(n, s, q)
    ensures m == n && r == s && p == q
  {
    CutLast(Decimal(m) + "|" + r, p, Decimal(n) + "|" + s, q, '|');
    DecimalFree(m, '|');
    DecimalFree(n, '|');
    CutFirst(Decimal(m), r, Decimal(n), s, '|');
    DecimalInjective(m, n);
  }

  /** The last entry hash binds the whole log: two chains that end in the same
      hash are the same, row for row. */
  lemma {:induction false} LastHashBindsLog(H: Hasher, a: seq<LogRow>, b: seq<LogRow>)
    requires Chained(H, a) && Chained(H, b) && |a| > 0 && |b| > 0
    requires LastHash(a) == LastHash(b)
    ensures a == b || Collision(H, LogInputs(a) + LogInputs(b))
    decreases |a|
  {
    var S := LogInputs(a) + LogInputs(b);
    if !Collision(H, S) { LastHashBindsRows(H, a, b, S); }
  }

  lemma LastRowsSame(H: Hasher, a: seq<LogRow>, b: seq<LogRow>, S: set<string>)
    requires Chained(H, a) && Chained(H, b) && |a| > 0 && |b| > 0
    requires LastHash(a) == LastHash(b) && LogInputs(a) + LogInputs(b) <= S && !Collision(H, S)
    ensures |a| == |b| && a[|a| - 1] == b[|b| - 1]
    ensures |a| > 1 ==> LastHash(a[..|a| - 1]) == LastHash(b[..|b| - 1])
  {
    var i, j := |a| - 1, |b| - 1;
    var x, y := a[i], b[j];
    assert RowAt(H, a, i) && RowAt(H, b, j);
    assert ChainInput(x.sequence, x.merkleRoot, x.prevHash) in LogInputs(a);
    assert ChainInput(y.sequence, y.merkleRoot, y.prevHash) in LogInputs(b);
    SameHash(H, S, ChainInput(x.sequence, x.merkleRoot, x.prevHash), ChainInput(y.sequence, y.merkleRoot, y.prevHash));
    PrevFree(H, a, i);
    PrevFree(H, b, j);
    ChainInputInjective(x.sequence, x.merkleRoot, x.prevHash, y.sequence, y.merkleRoot, y.prevHash);
  }

  lemma {:induction false} LastHashBindsRows(H: Hasher, a: seq<LogRow>, b: seq<LogRow>, S: set<string>)
    requires Chained(H, a) && Chained(H, b) && |a| > 0 && |b| > 0
    requires LastHash(a) == LastHash(b) && LogInputs(a) + LogInputs(b) <= S && !Collision(H, S)
    ensures a == b
    decreases |a|
  {
    var i, j := |a| - 1, |b| - 1;
    LastRowsSame(H, a, b, S);
    assert a == a[..i] + [a[i]] && b == b[..j] + [b[j]];
    if i > 0 {
      ChainedPrefix(H, a, i);
      ChainedPrefix(H, b, j);
      PrefixLogInputs(a, i);
      PrefixLogInputs(b, j);
      LastHashBindsRows(H, a[..i], b[..j], S);
    }
  }

  lemma PrefixLogInputs(rows: seq<LogRow>, n: nat)
    requires n <= |rows|
    ensures LogInputs(rows[..n]) <= LogInputs(rows)
  {
    forall x | x in LogInputs(rows[..n]) ensures x in LogInputs(rows) {
      var k :| 0 <= k < n && x == ChainInput(rows[..n][k].sequence, rows[..n][k].merkleRoot, rows[..n][k].prevHash);
      assert rows[k] == rows[..n][k];
    }
  }

  /** Why writers must be serialized. A commit reads the tail when the log is
      `first`, the maximum when it is `second`, and inserts when it is `last`.
      The primary key stops it exactly when the log grew after the second
      read, but growth between the two reads goes unnoticed: the row is then
      chained to the wrong predecessor. */
  lemma InterleavedCommit(H: Hasher, last: seq<LogRow>, n1: nat, n2: nat, merkleRoot: string)
    requires Chained(H, last) && n1 <= n2 <= |last|
    ensures var row := RowFrom(H, last[..n1], last[..n2], merkleRoot);
            && ((forall k | 0 <= k < |last| :: last[k].sequence != row.sequence) <==> n2 == |last|)
            && (n2 == |last| && n1 == n2 ==> Chained(H, last + [row]))
            && (n2 == |last| && n1 < n2 ==> !Chained(H, last + [row]) || Collision(H, LogInputs(last)))
  {
    var row := RowFrom(H, last[..n1], last[..n2], merkleRoot);
    ChainedPrefix(H, last, n2);
    NextIsLength(H, last[..n2]);
    forall k | 0 <= k < |last| ensures last[k].sequence == k + 1 { assert RowAt(H, last, k); }
    if n2 < |last| { assert last[n2].sequence == row.sequence; }
    if n2 == |last| {
      assert last[..n2] == last;
      if n1 == n2 {
        CommitKeepsChain(H, last, merkleRoot);
      } else if Chained(H, last + [row]) {
        assert RowAt(H, last + [row], n2);
        assert (last + [row])[..n2] == last;
        StaleTailCollides(H, last, n1);
      }
    }
  }

  lemma StaleTailCollides(H: Hasher, rows: seq<LogRow>, n: nat)
    requires Chained(H, rows) && n < |rows| && LastHash(rows[..n]) == LastHash(rows)
    ensures Collision(H, LogInputs(rows))
  {
    assert RowAt(H, rows, |rows| - 1) && IsHex64(LastHash(rows));
    if n > 0 {
      ChainedPrefix(H, rows, n);
      LastHashBindsLog(H, rows[..n], rows);
      PrefixLogInputs(rows, n);
      assert LogInputs(rows[..n]) + LogInputs(rows) == LogInputs(rows);
    }
  }
}

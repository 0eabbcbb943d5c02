/** What a verified proof and a Merkle root bind. Every claim reads: the
    conclusion holds, or two different strings that were actually hashed have
    the same hash. */
module MerkleSoundness {
  import opened Hashing
  import opened Canonical
  import opened Merkle

  function LeafHashes(H: Hasher, canons: seq<string>): (r: seq<string>)
    ensures |r| == |canons| && forall i | 0 <= i < |r| :: r[i] == H(canons[i])
  {
    seq(|canons|, i requires 0 <= i < |canons| => H(canons[i]))
  }

  function CanonicalStrings(batch: seq<Entry>): (r: seq<string>)
    ensures |r| == |batch| && forall i | 0 <= i < |r| :: r[i] == CanonicalString(batch[i])
  {
    seq(|batch|, i requires 0 <= i < |batch| => CanonicalString(batch[i]))
  }

  function Elements(s: seq<string>): set<string> {
    set x | x in s
  }

  /** The strings hashed to compute a level's parents. */
  function PairInputs(level: seq<string>): set<string> {
    set i | 0 <= i < (|level| + 1) / 2 :: PairInput(level, i)
  }

  /** The strings hashed above the leaves while building a tree. */
  function NodeInputs(H: Hasher, leaves: seq<string>): set<string>
    decreases |leaves|
  {
    if |leaves| <= 1 then {} else PairInputs(leaves) + NodeInputs(H, Parents(H, leaves))
  }

  /** The strings hashed while checking a proof. */
  function WalkInputs(H: Hasher, leaf: string, proof: seq<ProofStep>): set<string>
    decreases |proof|
  {
    if |proof| == 0 then {}
    else
      var front := proof[..|proof| - 1];
      WalkInputs(H, leaf, front) + {StepInput(Walk(H, leaf, front), proof[|proof| - 1])}
  }

  /** Everything hashed to anchor a batch of canonical strings. */
  function BatchInputs(H: Hasher, canons: seq<string>): set<string> {
    Elements(canons) + NodeInputs(H, LeafHashes(H, canons))
  }

  ghost predicate AllHex(level: seq<string>) {
    forall i | 0 <= i < |level| :: IsHex64(level[i])
  }

  ghost predicate NoDuplicates<T>(s: seq<T>) {
    forall i, j | 0 <= i < j < |s| :: s[i] != s[j]
  }

  lemma {:induction false} PrefixInputs(H: Hasher, leaf: string, proof: seq<ProofStep>, m: nat)
    requires m <= |proof|
    ensures WalkInputs(H, leaf, proof[..m]) <= WalkInputs(H, leaf, proof)
    decreases |proof|
  {
    if m < |proof| {
      var front := proof[..|proof| - 1];
      PrefixInputs(H, leaf, front, m);
      assert front[..m] == proof[..m];
    } else {
      assert proof[..m] == proof;
    }
  }

  /** A concatenation of two hashes can only be cut in the middle. */
  lemma Halves(running: string, step: ProofStep, level: seq<string>, i: nat)
    requires IsHex64(running) && AllHex(level) && 2 * i < |level|
    requires StepInput(running, step) == PairInput(level, i)
    ensures running in level
  {
    var l := level[2 * i];
    var r := if 2 * i + 1 < |level| then level[2 * i + 1] else l;
    assert IsHex64(l) && IsHex64(r);
    if step.left {
      assert |step.hash| == 64;
      assert running == (step.hash + running)[64..] && r == (l + r)[64..];
    } else {
      assert running == (running + step.hash)[..64] && l == (l + r)[..64];
    }
  }

  lemma WalkIsHex(H: Hasher, leaf: string, proof: seq<ProofStep>)
    requires IsHex64(leaf)
    ensures IsHex64(Walk(H, leaf, proof))
  {
  }

  /** One verification step that lands on a parent came from a child. */
  lemma StepDown(H: Hasher, level: seq<string>, x: string, proof: seq<ProofStep>, m: nat, S: set<string>)
    requires AllHex(level) && IsHex64(x) && 0 < m <= |proof|
    requires Walk(H, x, proof[..m]) in Parents(H, level)
    requires PairInputs(level) <= S && WalkInputs(H, x, proof) <= S && !Collision(H, S)
    ensures Walk(H, x, proof[..m - 1]) in level
  {
    PrefixInputs(H, x, proof, m);
    assert proof[..m][..m - 1] == proof[..m - 1] && proof[..m][m - 1] == proof[m - 1];
    var running := Walk(H, x, proof[..m - 1]);
    var input := StepInput(running, proof[m - 1]);
    assert input in WalkInputs(H, x, proof[..m]);
    var i :| 0 <= i < (|level| + 1) / 2 && Parents(H, level)[i] == H(input);
    assert PairInput(level, i) in PairInputs(level);
    SameHash(H, S, input, PairInput(level, i));
    WalkIsHex(H, x, proof[..m - 1]);
    Halves(running, proof[m - 1], level, i);
  }

  /** Level k + 1 holds the parents of level k, whose pairs are among the
      hashed strings. */
  ghost predicate LinkedAt(H: Hasher, levels: seq<seq<string>>, S: set<string>, k: nat)
    requires k + 1 < |levels|
  {
    levels[k + 1] == Parents(H, levels[k]) && AllHex(levels[k]) && PairInputs(levels[k]) <= S
  }

  /** A tree seen as its levels, leaves first and a single root last. */
  ghost predicate TreeLevels(H: Hasher, levels: seq<seq<string>>, S: set<string>) {
    && |levels| > 0 && |levels[|levels| - 1]| == 1
    && forall k: nat {:trigger LinkedAt(H, levels, S, k)} | k + 1 < |levels| :: LinkedAt(H, levels, S, k)
  }

  function RootOf(levels: seq<seq<string>>): string
    requires |levels| > 0 && |levels[|levels| - 1]| == 1
  {
    levels[|levels| - 1][0]
  }

  lemma ParentsBelow(H: Hasher, level: seq<string>)
    requires |level| > 1
    ensures AllHex(Parents(H, level))
    ensures PairInputs(level) <= NodeInputs(H, level) && NodeInputs(H, Parents(H, level)) <= NodeInputs(H, level)
  {
  }

  lemma {:induction false} BuiltLevels(H: Hasher, leaves: seq<string>, S: set<string>)
    requires |leaves| > 0 && AllHex(leaves) && NodeInputs(H, leaves) <= S
    ensures var levels := AllLevels(H, leaves);
            && TreeLevels(H, levels, S) && levels[0] == leaves
            && RootOf(levels) == MerkleRoot(H, leaves)
    decreases |leaves|
  {
    if |leaves| > 1 {
      var up := Parents(H, leaves);
      ParentsBelow(H, leaves);
      BuiltLevels(H, up, S);
      var levels := AllLevels(H, leaves);
      assert levels == [leaves] + AllLevels(H, up);
      forall k: nat | k + 1 < |levels| ensures LinkedAt(H, levels, S, k) {
        if k > 0 { assert LinkedAt(H, AllLevels(H, up), S, k - 1); }
      }
    }
  }

  /** A walk that ends at the root passes, step by step from the top, through
      nodes of the tree. */
  lemma {:induction false} Descend(
    H: Hasher, levels: seq<seq<string>>, x: string, proof: seq<ProofStep>, S: set<string>, j: nat)
    requires TreeLevels(H, levels, S) && IsHex64(x) && !Collision(H, S)
    requires Walk(H, x, proof) == RootOf(levels) && WalkInputs(H, x, proof) <= S
    requires j < |levels| && j <= |proof|
    ensures Walk(H, x, proof[..|proof| - j]) in levels[|levels| - 1 - j]
  {
    if j == 0 {
      assert proof[..|proof|] == proof;
    } else {
      Descend(H, levels, x, proof, S, j - 1);
      assert LinkedAt(H, levels, S, |levels| - 1 - j);
      StepDown(H, levels[|levels| - 1 - j], x, proof, |proof| - (j - 1), S);
    }
  }

  /** A node input begins and ends with a hexadecimal digit, which no canonical
      string of a journal entry does at either end. */
  lemma NodeInputShape(level: seq<string>, i: nat)
    requires AllHex(level) && 2 * i < |level|
    ensures var input := PairInput(level, i);
            |input| == 128 && IsHexDigit(input[0]) && IsHexDigit(input[127]) && !LooksCanonical(input)
  {
    var l := level[2 * i];
    var r := if 2 * i + 1 < |level| then level[2 * i + 1] else l;
    assert IsHex64(l) && IsHex64(r);
    assert HexAt(l, 0) && HexAt(r, 63);
  }

  lemma ParentsNotCanonical(H: Hasher, level: seq<string>, x: string, S: set<string>)
    requires AllHex(level) && PairInputs(level) <= S && !Collision(H, S)
    requires x in S && |x| > 0 && x[0] == 'v'
    ensures H(x) !in Parents(H, level)
  {
    forall i | 0 <= i < |Parents(H, level)| ensures Parents(H, level)[i] != H(x) {
      assert PairInput(level, i) in PairInputs(level);
      SameHash(H, S, x, PairInput(level, i));
      assert IsHex64(level[2 * i]) && HexAt(level[2 * i], 0);
      assert PairInput(level, i)[0] == level[2 * i][0];
    }
  }

  /** Verifier soundness: whatever proof is presented, of any length and with
      any strings as siblings, a string that verifies against the root of a
      batch is one of the batch. */
  lemma VerifierSoundness(H: Hasher, canons: seq<string>, claimed: string, proof: seq<ProofStep>)
    requires forall c | c in canons :: LooksCanonical(c)
    requires |claimed| > 0 && claimed[0] == 'v'
    requires Walk(H, H(claimed), proof) == MerkleRoot(H, LeafHashes(H, canons))
    ensures claimed in canons
         || Collision(H, BatchInputs(H, canons) + {claimed} + WalkInputs(H, H(claimed), proof))
  {
    var S := BatchInputs(H, canons) + {claimed} + WalkInputs(H, H(claimed), proof);
    var leaves := LeafHashes(H, canons);
    if !Collision(H, S) {
      WalkIsHex(H, H(claimed), proof);
      if |canons| > 0 {
        BuiltLevels(H, leaves, S);
        SoundOverLevels(H, canons, AllLevels(H, leaves), claimed, proof, S);
      }
    }
  }

  lemma SoundOverLevels(
    H: Hasher, canons: seq<string>, levels: seq<seq<string>>, claimed: string, proof: seq<ProofStep>, S: set<string>)
    requires TreeLevels(H, levels, S) && levels[0] == LeafHashes(H, canons) && !Collision(H, S)
    requires forall c | c in canons :: LooksCanonical(c)
    requires |claimed| > 0 && claimed[0] == 'v'
    requires Elements(canons) + {claimed} + WalkInputs(H, H(claimed), proof) <= S
    requires Walk(H, H(claimed), proof) == RootOf(levels)
    ensures claimed in canons
  {
    var h := |levels| - 1;
    if |proof| <= h {
      Descend(H, levels, H(claimed), proof, S, |proof|);
      assert proof[..0] == [];
      var d := h - |proof|;
      if d == 0 {
        LeafOfBatch(H, canons, claimed, S);
      } else {
        assert LinkedAt(H, levels, S, d - 1);
        ParentsNotCanonical(H, levels[d - 1], claimed, S);
      }
    } else {
      Descend(H, levels, H(claimed), proof, S, h);
      ProofNotLonger(H, canons, claimed, proof, |proof| - h, S);
    }
  }

  lemma LeafOfBatch(H: Hasher, canons: seq<string>, claimed: string, S: set<string>)
    requires Elements(canons) + {claimed} <= S && !Collision(H, S)
    requires H(claimed) in LeafHashes(H, canons)
    ensures claimed in canons
  {
    var i :| 0 <= i < |canons| && LeafHashes(H, canons)[i] == H(claimed);
    assert canons[i] in Elements(canons);
    SameHash(H, S, claimed, canons[i]);
  }

  lemma StepNotCanonical(running: string, step: ProofStep)
    requires IsHex64(running)
    ensures !LooksCanonical(StepInput(running, step))
  {
    var input := StepInput(running, step);
    assert HexAt(running, 0) && HexAt(running, 63);
    assert if step.left then input[|input| - 1] == running[63] else input[0] == running[0];
  }

  /** No step lands on a leaf: a step input has a hexadecimal end. */
  lemma ProofNotLonger(H: Hasher, canons: seq<string>, claimed: string, proof: seq<ProofStep>, m: nat, S: set<string>)
    requires forall c | c in canons :: LooksCanonical(c)
    requires 0 < m <= |proof| && Elements(canons) + WalkInputs(H, H(claimed), proof) <= S && !Collision(H, S)
    ensures Walk(H, H(claimed), proof[..m]) !in LeafHashes(H, canons)
  {
    var x := H(claimed);
    var running := Walk(H, x, proof[..m - 1]);
    var step := proof[m - 1];
    var input := StepInput(running, step);
    PrefixInputs(H, x, proof, m);
    assert proof[..m][..m - 1] == proof[..m - 1];
    WalkIsHex(H, x, proof[..m - 1]);
    StepNotCanonical(running, step);
    forall i | 0 <= i < |canons| ensures LeafHashes(H, canons)[i] != H(input) {
      assert canons[i] in Elements(canons) && LooksCanonical(canons[i]);
      if H(canons[i]) == H(input) { SameHash(H, S, canons[i], input); }
    }
  }

  /** The same for entries: the verified entry is, field by field and up to
      the order of its lines, one of the batch. The claimed entry need not be
      valid; only the anchored entries carry currency codes and clean fields.
      Where nothing is asked of the claimed fields, its header is still that of
      the entry, and its lines are if there are as many. */
  lemma VerifiedEntryIsInBatch(H: Hasher, batch: seq<Entry>, claimed: Entry, proof: seq<ProofStep>)
    requires forall e, line | e in batch && line in e.lines :: IsCurrencyCode(line.currency)
    requires Walk(H, H(CanonicalString(claimed)), proof) == MerkleRoot(H, LeafHashes(H, CanonicalStrings(batch)))
    ensures (exists e :: && e in batch && CanonicalString(e) == CanonicalString(claimed)
                         && (Clean(e) && Clean(claimed) ==>
                               claimed.(lines := e.lines) == e && multiset(claimed.lines) == multiset(e.lines))
                         && TellsApart(e, claimed))
         || Collision(H, BatchInputs(H, CanonicalStrings(batch)) + {CanonicalString(claimed)}
                         + WalkInputs(H, H(CanonicalString(claimed)), proof))
  {
    var canons, claim := CanonicalStrings(batch), CanonicalString(claimed);
    forall c | c in canons ensures LooksCanonical(c) {
      var i :| 0 <= i < |batch| && c == CanonicalString(batch[i]);
      assert batch[i] in batch;
      EncodingShape(batch[i]);
    }
    StringStart(claimed);
    VerifierSoundness(H, canons, claim, proof);
    if claim in canons {
      var i :| 0 <= i < |batch| && claim == CanonicalString(batch[i]);
      if Clean(batch[i]) && Clean(claimed) { EncodingFaithful(claimed, batch[i]); }
      SameStringTells(batch[i], claimed);
      assert batch[i] in batch;
    }
  }

  // The root identifies the batch.

  lemma PairsDiffer(level: seq<string>, i: nat, j: nat)
    requires AllHex(level) && NoDuplicates(level) && i < j && 2 * j < |level|
    ensures PairInput(level, i) != PairInput(level, j)
  {
    assert IsHex64(level[2 * i]) && IsHex64(level[2 * j]) && level[2 * i] != level[2 * j];
    assert level[2 * i] == PairInput(level, i)[..64] && level[2 * j] == PairInput(level, j)[..64];
  }

  lemma ParentsDistinct(H: Hasher, level: seq<string>, S: set<string>)
    requires AllHex(level) && NoDuplicates(level) && PairInputs(level) <= S && !Collision(H, S)
    ensures NoDuplicates(Parents(H, level)) && AllHex(Parents(H, level))
  {
    var up := Parents(H, level);
    forall i, j | 0 <= i < j < |up| ensures up[i] != up[j] {
      assert PairInput(level, i) in PairInputs(level) && PairInput(level, j) in PairInputs(level);
      SameHash(H, S, PairInput(level, i), PairInput(level, j));
      PairsDiffer(level, i, j);
    }
  }

  lemma PairPartsEqual(a: seq<string>, b: seq<string>, i: nat)
    requires AllHex(a) && AllHex(b) && 2 * i < |a| && 2 * i < |b|
    requires PairInput(a, i) == PairInput(b, i)
    ensures a[2 * i] == b[2 * i]
    ensures 2 * i + 1 < |a| && 2 * i + 1 < |b| ==> a[2 * i + 1] == b[2 * i + 1]
    ensures NoDuplicates(a) && NoDuplicates(b) ==> (2 * i + 1 < |a| <==> 2 * i + 1 < |b|)
  {
    var p, q := PairInput(a, i), PairInput(b, i);
    assert IsHex64(a[2 * i]) && IsHex64(b[2 * i]);
    assert p[..64] == a[2 * i] && q[..64] == b[2 * i];
    assert p[64..] == if 2 * i + 1 < |a| then a[2 * i + 1] else a[2 * i];
    assert q[64..] == if 2 * i + 1 < |b| then b[2 * i + 1] else b[2 * i];
  }

  /** Distinct nodes with the same parents are the same nodes. */
  lemma SameParents(H: Hasher, a: seq<string>, b: seq<string>, S: set<string>)
    requires AllHex(a) && AllHex(b) && NoDuplicates(a) && NoDuplicates(b)
    requires PairInputs(a) + PairInputs(b) <= S && !Collision(H, S)
    requires Parents(H, a) == Parents(H, b)
    ensures a == b
  {
    var n := |Parents(H, a)|;
    forall i | 0 <= i < n ensures PairInput(a, i) == PairInput(b, i) {
      assert PairInput(a, i) in PairInputs(a) && PairInput(b, i) in PairInputs(b);
      assert Parents(H, a)[i] == Parents(H, b)[i];
      SameHash(H, S, PairInput(a, i), PairInput(b, i));
    }
    if n > 0 {
      PairPartsEqual(a, b, n - 1);
      assert |a| == |b|;
    }
    forall j | 0 <= j < |a| ensures a[j] == b[j] {
      assert j == 2 * (j / 2) + j % 2;
      PairPartsEqual(a, b, j / 2);
    }
  }

  /** Distinct leaves have distinct ancestors on every level. */
  lemma {:induction false} LevelsDistinct(H: Hasher, levels: seq<seq<string>>, S: set<string>, k: nat)
    requires TreeLevels(H, levels, S) && NoDuplicates(levels[0]) && !Collision(H, S) && k < |levels|
    ensures NoDuplicates(levels[k])
  {
    if k > 0 {
      LevelsDistinct(H, levels, S, k - 1);
      assert LinkedAt(H, levels, S, k - 1);
      ParentsDistinct(H, levels[k - 1], S);
    }
  }

  /** Trees with the same root agree level by level from the top down. */
  lemma {:induction false} AlignLevels(
    H: Hasher, a: seq<seq<string>>, b: seq<seq<string>>, S: set<string>, j: nat)
    requires TreeLevels(H, a, S) && TreeLevels(H, b, S) && !Collision(H, S)
    requires NoDuplicates(a[0]) && NoDuplicates(b[0]) && RootOf(a) == RootOf(b)
    requires j < |a| && j < |b|
    ensures a[|a| - 1 - j] == b[|b| - 1 - j]
  {
    var p, q := |a| - 1 - j, |b| - 1 - j;
    if j == 0 {
      assert a[p] == [RootOf(a)] && b[q] == [RootOf(b)];
    } else {
      AlignLevels(H, a, b, S, j - 1);
      assert LinkedAt(H, a, S, p) && LinkedAt(H, b, S, q);
      LevelsDistinct(H, a, S, p);
      LevelsDistinct(H, b, S, q);
      SameParents(H, a[p], b[q], S);
    }
  }

  /** A tree with more levels over other strings cannot have the same root. */
  lemma ShorterDecides(
    H: Hasher, a: seq<string>, la: seq<seq<string>>, b: seq<string>, lb: seq<seq<string>>, S: set<string>)
    requires TreeLevels(H, la, S) && TreeLevels(H, lb, S) && !Collision(H, S)
    requires la[0] == LeafHashes(H, a) && lb[0] == LeafHashes(H, b) && RootOf(la) == RootOf(lb)
    requires NoDuplicates(la[0]) && NoDuplicates(lb[0]) && |a| > 0
    requires forall c | c in a :: LooksCanonical(c)
    requires Elements(a) + Elements(b) <= S && |la| <= |lb|
    ensures a == b
  {
    var d := |lb| - |la|;
    AlignLevels(H, la, lb, S, |la| - 1);
    if d > 0 {
      assert a[0] in Elements(a) && la[0][0] == H(a[0]);
      assert LinkedAt(H, lb, S, d - 1);
      ParentsNotCanonical(H, lb[d - 1], a[0], S);
    } else {
      SameLeaves(H, a, b, S);
    }
  }

  lemma SameLeaves(H: Hasher, a: seq<string>, b: seq<string>, S: set<string>)
    requires Elements(a) + Elements(b) <= S && !Collision(H, S)
    requires LeafHashes(H, a) == LeafHashes(H, b)
    ensures a == b
  {
    assert |a| == |LeafHashes(H, a)| == |LeafHashes(H, b)| == |b|;
    forall i | 0 <= i < |a| ensures a[i] == b[i] {
      assert a[i] in Elements(a) && b[i] in Elements(b);
      assert LeafHashes(H, a)[i] == LeafHashes(H, b)[i];
      SameHash(H, S, a[i], b[i]);
    }
  }

  lemma LeavesDistinct(H: Hasher, canons: seq<string>, S: set<string>)
    requires NoDuplicates(canons) && Elements(canons) <= S && !Collision(H, S)
    ensures NoDuplicates(LeafHashes(H, canons)) && AllHex(LeafHashes(H, canons))
  {
    var l := LeafHashes(H, canons);
    forall i, j | 0 <= i < j < |l| ensures l[i] != l[j] {
      assert canons[i] in Elements(canons) && canons[j] in Elements(canons);
      SameHash(H, S, canons[i], canons[j]);
    }
  }

  /** Two batches without repetition, of any sizes, whose trees have the same
      root are the same batch in the same order. */
  lemma RootIdentifiesBatch(H: Hasher, a: seq<string>, b: seq<string>)
    requires NoDuplicates(a) && NoDuplicates(b)
    requires forall c | c in a + b :: LooksCanonical(c)
    requires MerkleRoot(H, LeafHashes(H, a)) == MerkleRoot(H, LeafHashes(H, b))
    ensures a == b || Collision(H, BatchInputs(H, a) + BatchInputs(H, b))
  {
    var S := BatchInputs(H, a) + BatchInputs(H, b);
    if !Collision(H, S) {
      RootIsHexOrEmpty(H, LeafHashes(H, a));
      RootIsHexOrEmpty(H, LeafHashes(H, b));
      if |a| == 0 || |b| == 0 {
        assert a == [] && b == [];
      } else {
        var la, lb := LeafHashes(H, a), LeafHashes(H, b);
        LeavesDistinct(H, a, S);
        LeavesDistinct(H, b, S);
        BuiltLevels(H, la, S);
        BuiltLevels(H, lb, S);
        if |AllLevels(H, la)| <= |AllLevels(H, lb)| {
          ShorterDecides(H, a, AllLevels(H, la), b, AllLevels(H, lb), S);
        } else {
          ShorterDecides(H, b, AllLevels(H, lb), a, AllLevels(H, la), S);
        }
      }
    }
  }

  /** Equally many nodes with the same parents are the same nodes, repeated or
      not. */
  lemma SameSizeSameParents(H: Hasher, a: seq<string>, b: seq<string>, S: set<string>)
    requires AllHex(a) && AllHex(b) && |a| == |b|
    requires PairInputs(a) + PairInputs(b) <= S && !Collision(H, S)
    requires Parents(H, a) == Parents(H, b)
    ensures a == b
  {
    forall i | 0 <= i < |Parents(H, a)| ensures PairInput(a, i) == PairInput(b, i) {
      assert PairInput(a, i) in PairInputs(a) && PairInput(b, i) in PairInputs(b);
      assert Parents(H, a)[i] == Parents(H, b)[i];
      SameHash(H, S, PairInput(a, i), PairInput(b, i));
    }
    forall j | 0 <= j < |a| ensures a[j] == b[j] {
      assert j == 2 * (j / 2) + j % 2;
      PairPartsEqual(a, b, j / 2);
    }
  }

  lemma {:induction false} SameSizeSameRoot(H: Hasher, a: seq<string>, b: seq<string>, S: set<string>)
    requires AllHex(a) && AllHex(b) && |a| == |b|
    requires NodeInputs(H, a) + NodeInputs(H, b) <= S && !Collision(H, S)
    requires MerkleRoot(H, a) == MerkleRoot(H, b)
    ensures a == b
    decreases |a|
  {
    if |a| > 1 {
      ParentsBelow(H, a);
      ParentsBelow(H, b);
      SameSizeSameRoot(H, Parents(H, a), Parents(H, b), S);
      SameSizeSameParents(H, a, b, S);
    }
  }

  /** Root and size together identify a batch, with repetition or without. So a
      batch known to share another's root is that batch exactly when it has its
      size, which the gateway can compare. */
  lemma RootAndSizeIdentify(H: Hasher, a: seq<string>, b: seq<string>)
    requires MerkleRoot(H, LeafHashes(H, a)) == MerkleRoot(H, LeafHashes(H, b))
    ensures (a == b <==> |a| == |b|) || Collision(H, BatchInputs(H, a) + BatchInputs(H, b))
  {
    var S := BatchInputs(H, a) + BatchInputs(H, b);
    if |a| == |b| && !Collision(H, S) {
      SameSizeSameRoot(H, LeafHashes(H, a), LeafHashes(H, b), S);
      SameLeaves(H, a, b, S);
    }
  }

  lemma {:induction false} RootIsHexOrEmpty(H: Hasher, leaves: seq<string>)
    requires AllHex(leaves)
    ensures if |leaves| == 0 then MerkleRoot(H, leaves) == "" else IsHex64(MerkleRoot(H, leaves))
    decreases |leaves|
  {
    if |leaves| > 1 { RootIsHexOrEmpty(H, Parents(H, leaves)); }
  }

  /** Repetition is what the pairing of an odd node with itself cannot see: a
      batch of odd size and the batch with its last string repeated share a
      root. */
  lemma RepeatedLeafSharesRoot(H: Hasher, canons: seq<string>)
    requires |canons| > 1 && |canons| % 2 == 1
    ensures MerkleRoot(H, LeafHashes(H, canons + [canons[|canons| - 1]])) == MerkleRoot(H, LeafHashes(H, canons))
  {
    var n := |canons|;
    var a, b := LeafHashes(H, canons), LeafHashes(H, canons + [canons[n - 1]]);
    assert b == a + [a[n - 1]];
    forall i | 0 <= i < (n + 1) / 2 ensures PairInput(a, i) == PairInput(b, i) {
    }
    assert Parents(H, a) == Parents(H, b);
  }
}

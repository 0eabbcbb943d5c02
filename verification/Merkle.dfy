/** The Merkle tree over leaf hashes, its inclusion proofs and their check.
    An odd node is paired with itself and no prefix separates leaves from
    inner nodes, unlike section 2.1 of RFC 6962. */
module Merkle {
  import opened Arithmetic
  import opened Hashing
  import opened Wrappers

  datatype ProofStep = ProofStep(hash: string, left: bool)

  /** What is hashed for the i-th parent of a level. */
  function PairInput(level: seq<string>, i: nat): string
    requires 2 * i < |level|
  {
    level[2 * i] + (if 2 * i + 1 < |level| then level[2 * i + 1] else level[2 * i])
  }

  function Parents(H: Hasher, level: seq<string>): (r: seq<string>)
    ensures |r| == (|level| + 1) / 2
    ensures forall i {:trigger r[i]} | 0 <= i < |r| :: r[i] == H(PairInput(level, i))
  {
    seq((|level| + 1) / 2, i requires 0 <= i < (|level| + 1) / 2 => H(PairInput(level, i)))
  }

  /** Number of levels above a level of n nodes. */
  function Height(n: nat): nat {
    if n <= 1 then 0 else 1 + Height((n + 1) / 2)
  }

  function MerkleRoot(H: Hasher, leaves: seq<string>): string
    decreases |leaves|
  {
    if |leaves| == 0 then ""
    else if |leaves| == 1 then leaves[0]
    else MerkleRoot(H, Parents(H, leaves))
  }

  /** The sibling step of node p within its level. */
  function Sibling(level: seq<string>, p: nat): ProofStep
    requires p < |level|
  {
    if p % 2 == 0 then ProofStep(if p + 1 < |level| then level[p + 1] else level[p], false)
    else ProofStep(level[p - 1], true)
  }

  function ProofFor(H: Hasher, leaves: seq<string>, index: nat): seq<ProofStep>
    requires index < |leaves|
    decreases |leaves|
  {
    if |leaves| == 1 then []
    else [Sibling(leaves, index)] + ProofFor(H, Parents(H, leaves), index / 2)
  }

  /** The string hashed by one verification step. */
  function StepInput(running: string, step: ProofStep): string {
    if step.left then step.hash + running else running + step.hash
  }

  /** The hash reached from a leaf by a proof. */
  function Walk(H: Hasher, leaf: string, proof: seq<ProofStep>): string
    decreases |proof|
  {
    if |proof| == 0 then leaf
    else H(StepInput(Walk(H, leaf, proof[..|proof| - 1]), proof[|proof| - 1]))
  }

  /** The whole trust check. */
  method Verify(H: Hasher, leafHash: string, proof: seq<ProofStep>, expectedRoot: string) returns (ok: bool)
    ensures ok <==> Walk(H, leafHash, proof) == expectedRoot
  {
    var running := leafHash;
    for i := 0 to |proof|
      invariant running == Walk(H, leafHash, proof[..i])
    {
      var step := proof[i];
      if step.left {
        running := H(step.hash + running);
      } else {
        running := H(running + step.hash);
      }
      assert proof[..i + 1][..i] == proof[..i];
    }
    assert proof[..|proof|] == proof;
    ok := running == expectedRoot;
  }

  /** One level up, pair by pair. */
  method NextLevel(H: Hasher, level: seq<string>) returns (next: seq<string>)
    ensures next == Parents(H, level)
  {
    next := [];
    var i := 0;
    while i < |level|
      invariant i == 2 * |next| && i <= |level| + 1
      invariant forall j | 0 <= j < |next| :: next[j] == H(PairInput(level, j))
    {
      var left := level[i];
      var right := left;
      if i + 1 < |level| { right := level[i + 1]; }
      assert left + right == PairInput(level, |next|);
      next := next + [H(left + right)];
      i := i + 2;
    }
  }

  /** The levels of a tree, leaves first. */
  function AllLevels(H: Hasher, leaves: seq<string>): (r: seq<seq<string>>)
    requires |leaves| > 0
    ensures |r| > 0 && r[0] == leaves
    decreases |leaves|
  {
    if |leaves| == 1 then [leaves] else [leaves] + AllLevels(H, Parents(H, leaves))
  }

  lemma {:induction false} TopLevel(H: Hasher, leaves: seq<string>)
    requires |leaves| > 0
    ensures var all := AllLevels(H, leaves); all[|all| - 1] == [MerkleRoot(H, leaves)]
    decreases |leaves|
  {
    if |leaves| > 1 {
      TopLevel(H, Parents(H, leaves));
    }
  }

  lemma Associate<T>(a: seq<T>, b: seq<T>, c: seq<T>)
    ensures a + (b + c) == (a + b) + c
  {
  }

  /** A tree under construction: the finished levels, the last one on top. */
  ghost predicate Growing(H: Hasher, leaves: seq<string>, levels: seq<seq<string>>) {
    && |levels| > 0 && |leaves| > 0 && |levels[|levels| - 1]| > 0
    && AllLevels(H, leaves) == levels[..|levels| - 1] + AllLevels(H, levels[|levels| - 1])
  }

  lemma Grow(H: Hasher, leaves: seq<string>, levels: seq<seq<string>>)
    requires Growing(H, leaves, levels) && |levels[|levels| - 1]| > 1
    ensures Growing(H, leaves, levels + [Parents(H, levels[|levels| - 1])])
  {
    var level := levels[|levels| - 1];
    var next := Parents(H, level);
    assert levels == levels[..|levels| - 1] + [level];
    assert (levels + [next])[..|levels|] == levels;
    Associate(levels[..|levels| - 1], [level], AllLevels(H, next));
  }

  lemma Grown(H: Hasher, leaves: seq<string>, levels: seq<seq<string>>)
    requires Growing(H, leaves, levels) && |levels[|levels| - 1]| == 1
    ensures levels == AllLevels(H, leaves)
  {
  }

  /** From some level on: the levels above it and what is left of a proof. */
  ghost predicate Partway(
    H: Hasher, above: seq<seq<string>>, whole: seq<ProofStep>, proof: seq<ProofStep>, position: int)
  {
    && |above| > 0 && 0 <= position < |above[0]| && above == AllLevels(H, above[0])
    && whole == proof + ProofFor(H, above[0], position)
  }

  lemma Advance(H: Hasher, above: seq<seq<string>>, whole: seq<ProofStep>, proof: seq<ProofStep>, position: int)
    requires Partway(H, above, whole, proof, position) && |above| > 1
    ensures Partway(H, above[1..], whole, proof + [Sibling(above[0], position)], position / 2)
  {
    var up := Parents(H, above[0]);
    assert above[1..] == AllLevels(H, up);
    Associate(proof, [Sibling(above[0], position)], ProofFor(H, up, position / 2));
  }

  lemma Arrive(H: Hasher, above: seq<seq<string>>, whole: seq<ProofStep>, proof: seq<ProofStep>, position: int)
    requires Partway(H, above, whole, proof, position) && |above| == 1
    ensures proof == whole
  {
  }

  /** The sibling of a position, itself where the level ends odd. */
  method SiblingStep(nodes: seq<string>, position: nat) returns (step: ProofStep)
    requires position < |nodes|
    ensures step == Sibling(nodes, position)
  {
    var siblingIndex: int;
    var siblingLeft: bool;
    if position % 2 == 0 {
      siblingIndex := position + 1;
      siblingLeft := false;
      if siblingIndex >= |nodes| { siblingIndex := position; }
    } else {
      siblingIndex := position - 1;
      siblingLeft := true;
    }
    step := ProofStep(nodes[siblingIndex], siblingLeft);
  }

  /** The tree as the gateway builds it: all levels, leaves first. */
  class Tree {
    const H: Hasher
    var leaves: seq<string>
    var levels: seq<seq<string>>

    ghost predicate Valid()
      reads this
    {
      levels == if |leaves| == 0 then [] else AllLevels(H, leaves)
    }

    constructor (H: Hasher, leaves: seq<string>)
      ensures Valid() && this.H == H && this.leaves == leaves
    {
      this.H := H;
      this.leaves := leaves;
      this.levels := [];
      new;
      if |leaves| == 0 { return; }
      var level := leaves;
      levels := [level];
      assert levels[..0] + AllLevels(H, leaves) == AllLevels(H, leaves);
      while |level| > 1
        invariant this.H == H && this.leaves == leaves
        invariant Growing(H, leaves, levels) && level == levels[|levels| - 1]
        decreases |level|
      {
        var next := NextLevel(H, level);
        Grow(H, leaves, levels);
        levels := levels + [next];
        level := next;
      }
      Grown(H, leaves, levels);
    }

    method Root() returns (root: string)
      requires Valid()
      ensures root == MerkleRoot(H, leaves)
    {
      if |levels| == 0 { return ""; }
      TopLevel(H, leaves);
      var top := levels[|levels| - 1];
      root := top[0];
    }

    /** None stands for the out-of-range error. */
    method Proof(index: int) returns (r: Option<seq<ProofStep>>)
      requires Valid()
      ensures r == if 0 <= index < |leaves| then Some(ProofFor(H, leaves, index)) else None
    {
      if index < 0 || index >= |leaves| { return None; }
      var proof: seq<ProofStep> := [];
      var position := index;
      ghost var whole := ProofFor(H, leaves, index);
      assert levels[0..] == levels;
      for level := 0 to |levels| - 1
        invariant Partway(H, levels[level..], whole, proof, position)
      {
        var nodes := levels[level];
        var step := SiblingStep(nodes, position);
        Advance(H, levels[level..], whole, proof, position);
        assert levels[level..][1..] == levels[level + 1..];
        proof := proof + [step];
        position := position / 2;
      }
      Arrive(H, levels[|levels| - 1..], whole, proof, position);
      r := Some(proof);
    }
  }

  // Completeness.

  lemma {:induction false} WalkFront(H: Hasher, leaf: string, step: ProofStep, rest: seq<ProofStep>)
    ensures Walk(H, leaf, [step] + rest) == Walk(H, H(StepInput(leaf, step)), rest)
    decreases |rest|
  {
    var p := [step] + rest;
    if |rest| == 0 {
      assert p[..0] == [];
    } else {
      assert p[..|p| - 1] == [step] + rest[..|rest| - 1];
      WalkFront(H, leaf, step, rest[..|rest| - 1]);
    }
  }

  lemma SiblingPairs(level: seq<string>, p: nat)
    requires p < |level|
    ensures StepInput(level[p], Sibling(level, p)) == PairInput(level, p / 2)
  {
    assert p == 2 * (p / 2) + p % 2;
  }

  /** Every generated proof leads from its leaf to the root. */
  lemma {:induction false} ProofReachesRoot(H: Hasher, leaves: seq<string>, index: nat)
    requires index < |leaves|
    ensures Walk(H, leaves[index], ProofFor(H, leaves, index)) == MerkleRoot(H, leaves)
    decreases |leaves|
  {
    if |leaves| > 1 {
      var up := Parents(H, leaves);
      SiblingPairs(leaves, index);
      assert up[index / 2] == H(PairInput(leaves, index / 2));
      WalkFront(H, leaves[index], Sibling(leaves, index), ProofFor(H, up, index / 2));
      ProofReachesRoot(H, up, index / 2);
    }
  }

  function Pow2(k: nat): (p: nat)
    ensures p > 0
  {
    if k == 0 then 1 else 2 * Pow2(k - 1)
  }

  /** Height is the ceiling of the base-two logarithm. */
  lemma {:induction false} HeightIsLog(n: nat)
    requires n > 0
    ensures n <= Pow2(Height(n)) && (Height(n) > 0 ==> Pow2(Height(n) - 1) < n)
  {
    if n > 1 { HeightIsLog((n + 1) / 2); }
  }

  /** Every proof has the same length, the ceiling of log2 of the leaf count. */
  lemma {:induction false} ProofLength(H: Hasher, leaves: seq<string>, index: nat)
    requires index < |leaves|
    ensures var n := |ProofFor(H, leaves, index)|;
            |leaves| <= Pow2(n) && (n > 0 ==> Pow2(n - 1) < |leaves|)
    ensures |ProofFor(H, leaves, index)| == Height(|leaves|)
    decreases |leaves|
  {
    if |leaves| > 1 { ProofLength(H, Parents(H, leaves), index / 2); }
    HeightIsLog(|leaves|);
  }

  // The tree from the top.

  /** The root of a tree of the given height: a left half of as many leaves as
      fit and whatever is right of it, or the left half twice. */
  function TreeOf(H: Hasher, leaves: seq<string>, height: nat): string
    requires 0 < |leaves| <= Pow2(height)
  {
    if height == 0 then leaves[0]
    else
      var half := Pow2(height - 1);
      if |leaves| <= half then H(TreeOf(H, leaves, height - 1) + TreeOf(H, leaves, height - 1))
      else H(TreeOf(H, leaves[..half], height - 1) + TreeOf(H, leaves[half..], height - 1))
  }

  lemma ParentsSplit(H: Hasher, leaves: seq<string>, k: nat)
    requires 2 * k <= |leaves|
    ensures Parents(H, leaves[..2 * k]) == Parents(H, leaves)[..k]
    ensures Parents(H, leaves[2 * k..]) == Parents(H, leaves)[k..]
  {
    var up, left, right := Parents(H, leaves), leaves[..2 * k], leaves[2 * k..];
    forall i | 0 <= i < k ensures Parents(H, left)[i] == up[i] {
      assert PairInput(left, i) == PairInput(leaves, i);
    }
    forall i | 0 <= i < |up| - k ensures Parents(H, right)[i] == up[k + i] {
      assert PairInput(right, i) == PairInput(leaves, k + i);
    }
  }

  lemma HalvesUp(H: Hasher, leaves: seq<string>, height: nat, left: string, right: string)
    requires height > 1 && Pow2(height - 1) < |leaves| <= Pow2(height)
    requires 0 < |Parents(H, leaves[..Pow2(height - 1)])| <= Pow2(height - 2)
    requires 0 < |Parents(H, leaves[Pow2(height - 1)..])| <= Pow2(height - 2)
    requires left == TreeOf(H, Parents(H, leaves[..Pow2(height - 1)]), height - 2)
    requires right == TreeOf(H, Parents(H, leaves[Pow2(height - 1)..]), height - 2)
    ensures |Parents(H, leaves)| <= Pow2(height - 1) && TreeOf(H, Parents(H, leaves), height - 1) == H(left + right)
  {
    var k := Pow2(height - 2);
    ParentsSplit(H, leaves, k);
    var up := Parents(H, leaves);
    assert TreeOf(H, up, height - 1) == H(TreeOf(H, up[..k], height - 2) + TreeOf(H, up[k..], height - 2));
  }

  lemma HalfTwice(H: Hasher, leaves: seq<string>, height: nat, left: string)
    requires height > 0 && 0 < |leaves| <= Pow2(height - 1) && left == TreeOf(H, leaves, height - 1)
    ensures TreeOf(H, leaves, height) == H(left + left)
  {
  }

  lemma TwoLeaves(H: Hasher, leaves: seq<string>)
    requires 0 < |leaves| <= 2
    ensures TreeOf(H, leaves, 1) == Parents(H, leaves)[0]
  {
    assert Parents(H, leaves)[0] == H(PairInput(leaves, 0));
    assert Pow2(1) == 2 && Pow2(0) == 1;
    if |leaves| == 2 { assert leaves[..1][0] == leaves[0] && leaves[1..][0] == leaves[1]; }
  }

  /** Hashing the lowest level first changes nothing. */
  lemma {:induction false} LevelByLevel(H: Hasher, leaves: seq<string>, height: nat, root: string)
    requires 0 < |leaves| <= Pow2(height) && height > 0 && root == TreeOf(H, leaves, height)
    ensures 0 < |Parents(H, leaves)| <= Pow2(height - 1)
    ensures root == TreeOf(H, Parents(H, leaves), height - 1)
  {
    if height == 1 {
      TwoLeaves(H, leaves);
    } else {
      var half := Pow2(height - 1);
      assert half == 2 * Pow2(height - 2);
      if |leaves| <= half {
        var left := TreeOf(H, leaves, height - 1);
        LevelByLevel(H, leaves, height - 1, left);
        HalfTwice(H, Parents(H, leaves), height - 1, left);
      } else {
        var left, right := TreeOf(H, leaves[..half], height - 1), TreeOf(H, leaves[half..], height - 1);
        LevelByLevel(H, leaves[..half], height - 1, left);
        LevelByLevel(H, leaves[half..], height - 1, right);
        HalvesUp(H, leaves, height, left, right);
      }
    }
  }

  /** The level-by-level root is that of the tree described from the top: left
      half before right half, the last node paired with itself where none is
      left. */
  lemma {:induction false} RootFromTop(H: Hasher, leaves: seq<string>)
    requires |leaves| > 0
    ensures |leaves| <= Pow2(Height(|leaves|))
    ensures MerkleRoot(H, leaves) == TreeOf(H, leaves, Height(|leaves|))
    decreases |leaves|
  {
    HeightIsLog(|leaves|);
    if |leaves| > 1 {
      LevelByLevel(H, leaves, Height(|leaves|), TreeOf(H, leaves, Height(|leaves|)));
      RootFromTop(H, Parents(H, leaves));
    }
  }

  /** Level d above the leaves. */
  function LevelAt(H: Hasher, leaves: seq<string>, d: nat): seq<string>
    decreases d
  {
    if d == 0 then leaves else LevelAt(H, Parents(H, leaves), d - 1)
  }

  /** The step that pairs node p of a level with its neighbour, or with itself
      where the level ends. */
  ghost predicate PairsNode(step: ProofStep, level: seq<string>, p: nat) {
    && p < |level| && (step.left <==> p % 2 == 1)
    && step.hash == if p % 2 == 1 then level[p - 1] else if p + 1 < |level| then level[p + 1] else level[p]
  }

  /** Step d of a proof belongs to level d, and lies on the left exactly when bit
      d of the index is set. */
  lemma {:induction false} ProofSteps(H: Hasher, leaves: seq<string>, index: nat, d: nat, step: ProofStep)
    requires index < |leaves| && d < |ProofFor(H, leaves, index)| && step == ProofFor(H, leaves, index)[d]
    ensures PairsNode(step, LevelAt(H, leaves, d), index / Pow2(d))
    decreases |leaves|
  {
    if d > 0 {
      var up := Parents(H, leaves);
      assert ProofFor(H, leaves, index) == [Sibling(leaves, index)] + ProofFor(H, up, index / 2);
      ProofSteps(H, up, index / 2, d - 1, step);
      Halve(index, Pow2(d - 1));
    }
  }
}

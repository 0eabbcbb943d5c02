/** The second verifier, in the mobile app: JavaScript numbers, same decision
    wherever the numbers print as sent. */
module MobileVerifier {
  import opened Text
  import opened Sorting
  import opened Hashing
  import opened Canonical
  import opened Merkle
  import opened MerkleSoundness

  datatype Response = Response(entry: Entry, leafHash: string, proof: seq<ProofStep>, merkleRoot: string)

  datatype Verification = Verification(verified: bool, recomputedLeaf: string, recomputedRoot: string)

  /** JSON integers become doubles. `shown(n)` is the integer such a number
      prints as: n itself up to 2^53, a rounded one beyond. */
  const MAX_EXACT := 0x20_0000_0000_0000

  ghost predicate DoublePrinting(shown: int -> int) {
    && (forall n | -MAX_EXACT <= n <= MAX_EXACT :: shown(n) == n)
    && (forall n :: shown(shown(n)) == shown(n))
  }

  function ShownLine(shown: int -> int, line: Line): Line {
    line.(amountMinor := shown(line.amountMinor))
  }

  /** The entry as the app sees it after parsing the response. */
  function ShownEntry(shown: int -> int, e: Entry): Entry {
    e.(fiscalYear := shown(e.fiscalYear), lines := Map(line => ShownLine(shown, line), e.lines))
  }

  method VerifyProof(H: Hasher, shown: int -> int, response: Response) returns (v: Verification)
    ensures v.recomputedLeaf == H(CanonicalString(ShownEntry(shown, response.entry)))
    ensures v.recomputedRoot == Walk(H, v.recomputedLeaf, response.proof)
    ensures v.verified <==> v.recomputedLeaf == response.leafHash && v.recomputedRoot == response.merkleRoot
  {
    var recomputedLeaf := H(CanonicalString(ShownEntry(shown, response.entry)));
    var running := recomputedLeaf;
    for i := 0 to |response.proof|
      invariant running == Walk(H, recomputedLeaf, response.proof[..i])
    {
      var step := response.proof[i];
      running := if step.left then H(step.hash + running) else H(running + step.hash);
      assert response.proof[..i + 1][..i] == response.proof[..i];
    }
    assert response.proof[..|response.proof|] == response.proof;
    v := Verification(recomputedLeaf == response.leafHash && running == response.merkleRoot, recomputedLeaf, running);
  }

  /** The decision of the standalone Go verifier on the same response. */
  ghost predicate GoAccepts(H: Hasher, r: Response) {
    H(CanonicalString(r.entry)) == r.leafHash && Walk(H, H(CanonicalString(r.entry)), r.proof) == r.merkleRoot
  }

  ghost predicate MobileAccepts(H: Hasher, shown: int -> int, r: Response) {
    var leaf := H(CanonicalString(ShownEntry(shown, r.entry)));
    leaf == r.leafHash && Walk(H, leaf, r.proof) == r.merkleRoot
  }

  ghost predicate ShownAsSent(shown: int -> int, e: Entry) {
    shown(e.fiscalYear) == e.fiscalYear && forall line | line in e.lines :: shown(line.amountMinor) == line.amountMinor
  }

  lemma ExactLines(shown: int -> int, lines: seq<Line>)
    requires forall line | line in lines :: shown(line.amountMinor) == line.amountMinor
    ensures Map(line => ShownLine(shown, line), lines) == lines
  {
  }

  /** Both verifiers encode a separator-free entry alike exactly when its year and
      every amount print as sent. */
  lemma EncodingsAgreeIff(shown: int -> int, e: Entry)
    requires DoublePrinting(shown) && Clean(e)
    ensures CanonicalString(ShownEntry(shown, e)) == CanonicalString(e) <==> ShownAsSent(shown, e)
  {
    var seen := ShownEntry(shown, e);
    if ShownAsSent(shown, e) {
      ExactLines(shown, e.lines);
    }
    if CanonicalString(seen) == CanonicalString(e) {
      forall line | line in seen.lines ensures CleanLine(line) {
        var i :| 0 <= i < |e.lines| && line == ShownLine(shown, e.lines[i]);
        assert e.lines[i] in e.lines;
      }
      EncodingFaithful(seen, e);
      forall line | line in e.lines ensures shown(line.amountMinor) == line.amountMinor {
        assert line in multiset(seen.lines);
        var i :| 0 <= i < |e.lines| && line == ShownLine(shown, e.lines[i]);
      }
    }
  }

  /** A bundle the Go verifier accepts is accepted by the app exactly when its
      year and every amount print as sent, or two encodings of the entry collide. */
  lemma MobileDecidesAlike(H: Hasher, shown: int -> int, r: Response)
    requires DoublePrinting(shown) && Clean(r.entry)
    requires GoAccepts(H, r)
    ensures ShownAsSent(shown, r.entry) ==> MobileAccepts(H, shown, r)
    ensures MobileAccepts(H, shown, r) ==>
              || ShownAsSent(shown, r.entry)
              || Collide(H, CanonicalString(r.entry), CanonicalString(ShownEntry(shown, r.entry)))
  {
    EncodingsAgreeIff(shown, r.entry);
  }

  /** And what the app accepts the Go verifier rejects exactly when its year or some
      amount does not print as sent, under the same reservation: the app then vouches
      for the rounded amounts, not for those in the response. */
  lemma GoDecidesAlike(H: Hasher, shown: int -> int, r: Response)
    requires DoublePrinting(shown) && Clean(r.entry)
    requires MobileAccepts(H, shown, r)
    ensures ShownAsSent(shown, r.entry) ==> GoAccepts(H, r)
    ensures GoAccepts(H, r) ==>
              || ShownAsSent(shown, r.entry)
              || Collide(H, CanonicalString(r.entry), CanonicalString(ShownEntry(shown, r.entry)))
  {
    EncodingsAgreeIff(shown, r.entry);
  }

  /** What the app shows as verified against the root of a batch is one of the
      batch, whatever the response says beyond 2^53. */
  lemma MobileSoundness(H: Hasher, shown: int -> int, batch: seq<Entry>, r: Response)
    requires forall e, line | e in batch && line in e.lines :: IsCurrencyCode(line.currency)
    requires MobileAccepts(H, shown, r) && r.merkleRoot == MerkleRoot(H, LeafHashes(H, CanonicalStrings(batch)))
    ensures var seen := ShownEntry(shown, r.entry);
            || (exists e :: e in batch && CanonicalString(e) == CanonicalString(seen))
            || Collision(H, BatchInputs(H, CanonicalStrings(batch)) + {CanonicalString(seen)}
                            + WalkInputs(H, H(CanonicalString(seen)), r.proof))
  {
    VerifiedEntryIsInBatch(H, batch, ShownEntry(shown, r.entry), r.proof);
  }

  /** A verifier sees the canonical string only: of every accepted entry with two
      or more lines it also accepts a version with a single line. */
  lemma TwinAccepted(H: Hasher, r: Response) returns (twin: Line)
    requires GoAccepts(H, r) && |r.entry.lines| >= 2
    ensures GoAccepts(H, r.(entry := r.entry.(lines := [twin])))
    ensures multiset([twin]) != multiset(r.entry.lines)
    ensures exists i | 0 <= i < |r.entry.lines| :: twin == r.entry.lines[i].(accountCode := twin.accountCode)
  {
    twin := OneLineTwin(r.entry);
  }

  /** In particular for amounts up to 2^53, whatever the verdict. */
  lemma SameDecisionUpToExact(H: Hasher, shown: int -> int, r: Response)
    requires DoublePrinting(shown) && -MAX_EXACT <= r.entry.fiscalYear <= MAX_EXACT
    requires forall line | line in r.entry.lines :: -MAX_EXACT <= line.amountMinor <= MAX_EXACT
    ensures MobileAccepts(H, shown, r) <==> GoAccepts(H, r)
  {
    ExactLines(shown, r.entry.lines);
  }
}

/** The production backend: a write-once map of anchors on the chain, keyed by
    the Merkle root itself. */
module Fabric {
  import opened Text
  import opened Hashing
  import opened Wrappers
  import opened Canonical
  import opened Merkle
  import opened MerkleSoundness

  datatype Anchor = Anchor(id: string, merkleRoot: string, entryCount: int, period: string, committedAt: string)

  type Ledger = map<string, Anchor>

  const ALREADY_EXISTS := "already exists"

  function ExistsError(id: string): string {
    "anchor \"" + id + "\" " + ALREADY_EXISTS
  }

  /** The chaincode. */
  class AnchorContract {
    var state: Ledger

    constructor ()
      ensures state == map[]
    {
      state := map[];
    }

    method CommitAnchor(id: string, merkleRoot: string, entryCount: int, period: string, now: string)
      returns (err: Option<string>)
      modifies this
      ensures err.None? <==> id != "" && merkleRoot != "" && id !in old(state)
      ensures err.None? ==> state == old(state)[id := Anchor(id, merkleRoot, entryCount, period, now)]
      ensures err.Some? ==> state == old(state)
      ensures err.Some? ==> err.value == if id == "" || merkleRoot == "" then REQUIRED else ExistsError(id)
    {
      if id == "" || merkleRoot == "" { return Some(REQUIRED); }
      if id in state { return Some(ExistsError(id)); }
      state := state[id := Anchor(id, merkleRoot, entryCount, period, now)];
      err := None;
    }

    method GetAnchor(id: string) returns (r: Result<Anchor, string>)
      ensures r.Ok? <==> id in state
      ensures r.Ok? ==> r.value == state[id]
    {
      if id !in state { return Err("anchor \"" + id + "\" does not exist"); }
      r := Ok(state[id]);
    }

    method VerifyRoot(id: string, merkleRoot: string) returns (r: Result<bool, string>)
      ensures r.Ok? <==> id in state
      ensures r.Ok? ==> (r.value <==> state[id].merkleRoot == merkleRoot)
    {
      var anchor := GetAnchor(id);
      if anchor.Err? { return Err(anchor.error); }
      r := Ok(anchor.value.merkleRoot == merkleRoot);
    }
  }

  /** What the network does with a submitted transaction: deliver it, lose it,
      or deliver it and report an error; errors carry any text. */
  datatype Delivery = Delivered(txId: string) | Lost(text: string) | DeliveredButFailed(text: string)

  predicate Contains(s: string, part: string) {
    exists i | 0 <= i <= |s| :: part <= s[i..]
  }

  lemma ExistsErrorContains(id: string)
    ensures Contains(ExistsError(id), ALREADY_EXISTS)
  {
    var s := ExistsError(id);
    var i := |s| - |ALREADY_EXISTS|;
    assert s[i..] == ALREADY_EXISTS;
  }

  /** The chain after a submission. */
  function Reached(state: Ledger, merkleRoot: string, entryCount: int, delivery: Delivery, now: string): Ledger {
    if delivery.Lost? || merkleRoot == "" || merkleRoot in state then state
    else state[merkleRoot := Anchor(merkleRoot, merkleRoot, entryCount, "", now)]
  }

  const REQUIRED := "anchor id and merkleRoot are required"

  /** The error the gateway sees, if any. */
  function Failure(state: Ledger, merkleRoot: string, delivery: Delivery): Option<string> {
    if !delivery.Delivered? then Some(delivery.text)
    else if merkleRoot == "" then Some(REQUIRED)
    else if merkleRoot in state then Some(ExistsError(merkleRoot))
    else None
  }

  /** An error that speaks of an existing anchor counts as success. */
  function CommitResult(
    state: Ledger, channel: string, merkleRoot: string, delivery: Delivery): Result<string, string>
  {
    match Failure(state, merkleRoot, delivery)
    case None => Ok("fabric:" + channel + ":" + delivery.txId)
    case Some(text) =>
      if Contains(text, ALREADY_EXISTS) then Ok("fabric:" + channel + ":" + merkleRoot)
      else Err("submitting CommitAnchor: " + text)
  }

  class FabricBackend {
    const contract: AnchorContract
    const channel: string

    constructor (contract: AnchorContract, channel: string)
      ensures this.contract == contract && this.channel == channel
    {
      this.contract := contract;
      this.channel := channel;
    }

    method Commit(merkleRoot: string, entryCount: int, delivery: Delivery, now: string)
      returns (r: Result<string, string>)
      modifies contract
      ensures contract.state == Reached(old(contract.state), merkleRoot, entryCount, delivery, now)
      ensures r == CommitResult(old(contract.state), channel, merkleRoot, delivery)
    {
      var failure: Option<string> := None;
      if !delivery.Lost? {
        failure := contract.CommitAnchor(merkleRoot, merkleRoot, entryCount, "", now);
      }
      if !delivery.Delivered? { failure := Some(delivery.text); }
      if failure.Some? {
        if Contains(failure.value, ALREADY_EXISTS) {
          return Ok("fabric:" + channel + ":" + merkleRoot);
        }
        return Err("submitting CommitAnchor: " + failure.value);
      }
      r := Ok("fabric:" + channel + ":" + delivery.txId);
    }
  }

  /** What a submission does. A root that arrives and is new is stored under
      itself with the number of entries and the transaction's time, and nothing
      else changes; the reference names the transaction, or the root if that was
      there before. */
  lemma SubmissionLeaves(
    state: Ledger, channel: string, merkleRoot: string, entryCount: int, delivery: Delivery, now: string)
    requires merkleRoot != ""
    ensures var after := Reached(state, merkleRoot, entryCount, delivery, now);
            && (forall root | root in state :: root in after && after[root] == state[root])
            && (forall root | root in after && root !in state :: root == merkleRoot && !delivery.Lost?)
            && (!delivery.Lost? && merkleRoot !in state ==>
                  && merkleRoot in after && after[merkleRoot].id == merkleRoot
                  && after[merkleRoot].merkleRoot == merkleRoot && after[merkleRoot].entryCount == entryCount
                  && after[merkleRoot].period == "" && after[merkleRoot].committedAt == now)
    ensures delivery.Delivered? ==>
              CommitResult(state, channel, merkleRoot, delivery) ==
              Ok("fabric:" + channel + ":" + (if merkleRoot in state then merkleRoot else delivery.txId))
    ensures !delivery.Delivered? ==>
              CommitResult(state, channel, merkleRoot, delivery) ==
              if exists i | 0 <= i <= |delivery.text| :: "already exists" <= delivery.text[i..]
              then Ok("fabric:" + channel + ":" + merkleRoot)
              else Err("submitting CommitAnchor: " + delivery.text)
  {
    ExistsErrorContains(merkleRoot);
  }

  /** Reading success off the error text is truthful except in one case: the
      submission was lost, the root is not on the chain, and the transport's
      message happens to contain the text. A delivered root always succeeds. */
  lemma SuccessIsTruthfulIff(
    state: Ledger, channel: string, merkleRoot: string, entryCount: int, delivery: Delivery, now: string)
    requires merkleRoot != ""
    ensures (CommitResult(state, channel, merkleRoot, delivery).Ok? ==>
               merkleRoot in Reached(state, merkleRoot, entryCount, delivery, now)) <==>
            !(delivery.Lost? && merkleRoot !in state && Contains(delivery.text, ALREADY_EXISTS))
    ensures delivery.Delivered? ==> CommitResult(state, channel, merkleRoot, delivery).Ok?
  {
    ExistsErrorContains(merkleRoot);
  }

  /** The anchor is one a gateway writes for this batch of canonical strings. */
  ghost predicate AnchorOf(H: Hasher, root: string, anchor: Anchor, canons: seq<string>) {
    && |canons| > 0 && root == MerkleRoot(H, LeafHashes(H, canons))
    && anchor.id == root && anchor.merkleRoot == root && anchor.entryCount == |canons|
  }

  /** Every anchor on the chain comes from some gateway batch. */
  ghost predicate FromBatches(H: Hasher, state: Ledger) {
    forall root | root in state :: exists canons :: AnchorOf(H, root, state[root], canons)
  }

  lemma CommitKeepsFromBatches(H: Hasher, state: Ledger, canons: seq<string>, delivery: Delivery, now: string)
    requires FromBatches(H, state) && |canons| > 0
    ensures FromBatches(H, Reached(state, MerkleRoot(H, LeafHashes(H, canons)), |canons|, delivery, now))
  {
    var root := MerkleRoot(H, LeafHashes(H, canons));
    var next := Reached(state, root, |canons|, delivery, now);
    forall r | r in next ensures exists c :: AnchorOf(H, r, next[r], c) {
      if r in state {
        assert next[r] == state[r];
      } else {
        assert AnchorOf(H, root, next[root], canons);
      }
    }
  }

  /** Convergence, exactly: when the root of a batch is already on the chain for
      some prior batch, that batch is this one if and only if the anchor counts
      as many entries, or the two exhibit a collision. */
  lemma ConvergesIff(H: Hasher, root: string, anchor: Anchor, prior: seq<string>, canons: seq<string>)
    requires AnchorOf(H, root, anchor, prior) && root == MerkleRoot(H, LeafHashes(H, canons))
    ensures (prior == canons <==> anchor.entryCount == |canons|)
            || Collision(H, BatchInputs(H, prior) + BatchInputs(H, canons))
  {
    RootAndSizeIdentify(H, prior, canons);
  }

  /** The count can differ only through repetition: without repeated strings an
      existing root is for exactly this batch, with this entry count. */
  lemma AlreadyExistsIsThisBatch(H: Hasher, root: string, anchor: Anchor, prior: seq<string>, canons: seq<string>)
    requires AnchorOf(H, root, anchor, prior) && root == MerkleRoot(H, LeafHashes(H, canons))
    requires NoDuplicates(prior) && NoDuplicates(canons)
    requires forall c | c in prior + canons :: LooksCanonical(c)
    ensures (AnchorOf(H, root, anchor, canons) && prior == canons)
            || Collision(H, BatchInputs(H, prior) + BatchInputs(H, canons))
  {
    RootIdentifiesBatch(H, prior, canons);
  }

  /** With a repeated string the count on the chain can be wrong: after a batch
      of odd size, the batch with its last string repeated converges on the
      anchor of the smaller one. */
  lemma RepeatedEntryMiscounted(H: Hasher, state: Ledger, canons: seq<string>, txId: string, now: string)
    requires |canons| > 1 && |canons| % 2 == 1 && MerkleRoot(H, LeafHashes(H, canons)) !in state
    ensures var more := canons + [canons[|canons| - 1]];
            var root := MerkleRoot(H, LeafHashes(H, more));
            var first := Reached(state, MerkleRoot(H, LeafHashes(H, canons)), |canons|, Delivered(txId), now);
            var second := Reached(first, root, |more|, Delivered(txId), now);
            root in second && second[root].entryCount == |canons| && second[root].entryCount != |more|
  {
    RepeatedLeafSharesRoot(H, canons);
    LeavesAreHex(H, canons);
    RootIsHexOrEmpty(H, LeafHashes(H, canons));
  }

  lemma LeavesAreHex(H: Hasher, canons: seq<string>)
    ensures AllHex(LeafHashes(H, canons))
  {
  }
}

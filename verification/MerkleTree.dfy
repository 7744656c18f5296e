/** The backend's incremental tree (backend/src/merkle_tree.rs). */
module MerkleTreeModel {
  import opened Common
  import opened Bits
  import opened MerkleSpec
  import opened MerklePath

  datatype InsertError = TreeFull | HashFailed

  /**
   The frontier fact an insertion at index `n` relies on: wherever bit `k` of `n` is 1 the slot holds the finished
   node to the left of the path. Slots under a 0 bit are free; a failed insertion may leave anything there.
   */
  ghost predicate FrontierServes(h: Hash, leaves: seq<Digest>, frontier: seq<Digest>, n: nat) {
    forall k | 0 <= k < |frontier| :: SlotServes(h, leaves, frontier[k], n, k)
  }

  ghost predicate SlotServes(h: Hash, leaves: seq<Digest>, slot: Digest, n: nat, k: nat) {
    Shr(n, k) % 2 == 1 ==> Node(h, leaves, k, Shr(n, k) - 1) == Some(slot)
  }

  /** What an insertion of `x` at index |leaves| leaves in slot `k`, whether it succeeds or fails on the way up. */
  ghost function FrontierSlotAfter(h: Hash, leaves: seq<Digest>, x: Digest, k: nat, before: Digest): Digest {
    var node := Node(h, leaves + [x], k, Shr(|leaves|, k));
    if Shr(|leaves|, k) % 2 == 0 && node.Some? then node.value else before
  }

  /** The first `level` slots are as the climb leaves them and the others are still as they were. */
  ghost predicate ClimbedTo(h: Hash, leaves: seq<Digest>, x: Digest, before: seq<Digest>, now: seq<Digest>, level: nat) {
    && |before| == |now|
    && (forall k | 0 <= k < |now| && k < level :: now[k] == FrontierSlotAfter(h, leaves, x, k, before[k]))
    && (forall k | level <= k < |now| :: now[k] == before[k])
  }

  lemma UndefinedSpreadsUp(h: Hash, leaves: seq<Digest>, i: nat, low: nat, high: nat)
    requires low <= high && Node(h, leaves, low, Shr(i, low)).None?
    ensures Node(h, leaves, high, Shr(i, high)).None?
  {
    ShrCompose(i, low, high - low);
    if Node(h, leaves, high, Shr(i, high)).Some? {
      NodesBelowAreDefined(h, leaves, low, Shr(i, low), high - low);
    }
  }

  /** The level loop shared by `add_leaf` and the on-chain `insert_leaf`: the frontier is written on the way up. */
  method Climb(h: Hash, depth: nat, zeros: seq<Digest>, frontier: array<Digest>, ghost leaves: seq<Digest>,
               leafIndex: nat, commitment: Digest)
    returns (root: Option<Digest>)
    requires ZeroTable(h, depth, zeros) && frontier.Length == depth
    requires leafIndex == |leaves| < Pow2(depth)
    requires FrontierServes(h, leaves, frontier[..], |leaves|)
    modifies frontier
    ensures root == Root(h, depth, leaves + [commitment])
    ensures ClimbedTo(h, leaves, commitment, old(frontier[..]), frontier[..], depth)
  {
    ghost var grown, before := leaves + [commitment], frontier[..];
    var currentHash := commitment;
    var currentIndex := leafIndex;
    ShrIsZero(|leaves|, depth);
    for level := 0 to depth
      invariant currentIndex == Shr(leafIndex, level)
      invariant Node(h, grown, level, currentIndex) == Some(currentHash)
      invariant ClimbedTo(h, leaves, commitment, before, frontier[..], level)
    {
      var parent;
      if currentIndex % 2 == 0 {
        NodePastEndIsZero(h, depth, zeros, grown, level, currentIndex + 1);
        RoundClimbs(h, grown, level, currentIndex, zeros[level]);
        frontier[level] := currentHash;
        parent := h(currentHash, zeros[level]);
      } else {
        NodeBeforeAppendUnchanged(h, leaves, commitment, level, currentIndex - 1);
        assert SlotServes(h, leaves, before[level], |leaves|, level);
        RoundClimbs(h, grown, level, currentIndex, frontier[level]);
        parent := h(frontier[level], currentHash);
      }
      assert ClimbedTo(h, leaves, commitment, before, frontier[..], level + 1);
      assert parent == Node(h, grown, level + 1, Shr(leafIndex, level + 1));
      if parent.None? {
        forall k | level < k <= depth
          ensures Node(h, grown, k, Shr(leafIndex, k)).None?
        {
          UndefinedSpreadsUp(h, grown, leafIndex, level + 1, k);
        }
        return None;
      }
      currentHash := parent.value;
      currentIndex := currentIndex / 2;
    }
    root := Some(currentHash);
  }

  /** Every slot holds the left node of the pair that the last leaf's path goes through at its level. */
  ghost predicate FrontierHolds(h: Hash, leaves: seq<Digest>, frontier: seq<Digest>) {
    |leaves| > 0 ==> forall k | 0 <= k < |frontier| :: SlotHolds(h, leaves, frontier[k], k)
  }

  ghost predicate SlotHolds(h: Hash, leaves: seq<Digest>, slot: Digest, k: nat)
    requires |leaves| > 0
  {
    Node(h, leaves, k, 2 * Shr(|leaves| - 1, k + 1)) == Some(slot)
  }

  /** Such a frontier serves the next index, and it serves the last leaf. */
  lemma HoldsThenServes(h: Hash, leaves: seq<Digest>, frontier: seq<Digest>)
    requires FrontierHolds(h, leaves, frontier)
    ensures FrontierServes(h, leaves, frontier, |leaves|)
    ensures |leaves| > 0 ==> FrontierServes(h, leaves, frontier, |leaves| - 1)
  {
    var n := |leaves|;
    forall k | 0 <= k < |frontier|
      ensures SlotServes(h, leaves, frontier[k], n, k)
      ensures n > 0 ==> SlotServes(h, leaves, frontier[k], n - 1, k)
    {
      if n == 0 {
        ShrIsZero(0, k);
      } else {
        ShrSuccessor(n - 1, k);
        assert SlotHolds(h, leaves, frontier[k], k);
      }
    }
  }

  /** After a success every slot holds its node, whatever earlier failures left in the slots the climb overwrites. */
  lemma FrontierAfterSuccess(h: Hash, depth: nat, leaves: seq<Digest>, x: Digest,
                             before: seq<Digest>, after: seq<Digest>)
    requires |before| == |after| == depth && |leaves| < Pow2(depth)
    requires FrontierServes(h, leaves, before, |leaves|)
    requires Root(h, depth, leaves + [x]).Some?
    requires ClimbedTo(h, leaves, x, before, after, depth)
    ensures FrontierHolds(h, leaves + [x], after)
    ensures FrontierServes(h, leaves + [x], after, |leaves| + 1)
    ensures FrontierServes(h, leaves + [x], after, |leaves|)
  {
    var n := |leaves|;
    forall k | 0 <= k < depth
      ensures SlotHolds(h, leaves + [x], after[k], k)
    {
      assert SlotServes(h, leaves, before[k], n, k);
      if Shr(n, k) % 2 == 1 {
        NodeBeforeAppendUnchanged(h, leaves, x, k, Shr(n, k) - 1);
      }
      PathIsDefined(h, depth, leaves + [x], n, k);
    }
    HoldsThenServes(h, leaves + [x], after);
  }

  /** Every prefix has a root: the leaves can be inserted one by one. */
  ghost predicate Insertable(h: Hash, depth: nat, leaves: seq<Digest>) {
    && |leaves| <= Pow2(depth)
    && forall k | 0 < k <= |leaves| :: Root(h, depth, leaves[..k]).Some?
  }

  lemma InsertableGrows(h: Hash, depth: nat, leaves: seq<Digest>, x: Digest)
    requires Insertable(h, depth, leaves)
    ensures Insertable(h, depth, leaves + [x]) <==> InsertOutcome(h, depth, leaves, x).Ok?
  {
    var grown := leaves + [x];
    assert grown[..|grown|] == grown;
    forall k | 0 < k <= |leaves|
      ensures grown[..k] == leaves[..k]
    {
    }
  }

  /** Appends empty-subtree digests until index `needed` exists. */
  method PadTo(level: seq<Digest>, needed: nat, zero: Digest) returns (padded: seq<Digest>)
    ensures |padded| == Max(|level|, needed + 1) && level <= padded
    ensures forall i | |level| <= i < |padded| :: padded[i] == zero
  {
    padded := level;
    while |padded| <= needed
      invariant level <= padded && |padded| <= Max(|level|, needed + 1)
      invariant forall i | |level| <= i < |padded| :: padded[i] == zero
    {
      padded := padded + [zero];
    }
  }

  /** One level of parents, or None as soon as a hash fails; a missing right child is the empty subtree. */
  method ParentLevel(h: Hash, current: seq<Digest>, zero: Digest) returns (parents: Option<seq<Digest>>)
    ensures parents.Some? ==>
              && |parents.value| == (|current| + 1) / 2
              && forall i | 0 <= i < |parents.value| ::
                   h(current[2 * i], GetOr(current, 2 * i + 1, zero)) == Some(parents.value[i])
    ensures parents.None? ==>
              exists i :: 0 <= 2 * i < |current| && h(current[2 * i], GetOr(current, 2 * i + 1, zero)).None?
  {
    var pairs := (|current| + 1) / 2;
    var next: seq<Digest> := [];
    for i := 0 to pairs
      invariant |next| == i
      invariant forall j | 0 <= j < i :: h(current[2 * j], GetOr(current, 2 * j + 1, zero)) == Some(next[j])
    {
      var parent := h(GetOr(current, 2 * i, zero), GetOr(current, 2 * i + 1, zero));
      if parent.None? {
        return None;
      }
      next := next + [parent.value];
    }
    parents := Some(next);
  }

  /** `current` holds the nodes of level `k` from the left edge to the last leaf's ancestor. */
  ghost predicate IsLevel(h: Hash, leaves: seq<Digest>, k: nat, current: seq<Digest>) {
    && |leaves| > 0
    && |current| == Shr(|leaves| - 1, k) + 1
    && forall i | 0 <= i < |current| :: Node(h, leaves, k, i) == Some(current[i])
  }

  lemma LevelParent(h: Hash, depth: nat, zeros: seq<Digest>, leaves: seq<Digest>, k: nat, current: seq<Digest>, i: nat)
    requires ZeroTable(h, depth, zeros) && k < depth && IsLevel(h, leaves, k, current)
    requires 2 * i < |current|
    ensures Node(h, leaves, k + 1, i) == h(current[2 * i], GetOr(current, 2 * i + 1, zeros[k]))
  {
    NodeParent(h, leaves, k, 2 * i);
    if 2 * i + 1 >= |current| {
      NodePastEndIsZero(h, depth, zeros, leaves, k, 2 * i + 1);
    }
  }

  /** The sparse rebuild of `get_proof_by_index`, for any leaf list that fits the tree. */
  method ProofByIndex(h: Hash, depth: nat, zeros: seq<Digest>, leaves: seq<Digest>, root: Digest, index: nat)
    returns (proof: Option<MerkleProof>)
    requires ZeroTable(h, depth, zeros) && |leaves| <= Pow2(depth)
    ensures proof.Some? <==> index < |leaves| && Root(h, depth, leaves).Some?
    ensures proof.Some? ==>
              proof == Some(MerkleProof(index, leaves[index], root, PathSiblings(h, depth, leaves, index),
                                        PathBits(depth, index)))
  {
    if index >= |leaves| {
      return None;
    }
    hide Node, Pow2;
    ShrIsZero(|leaves| - 1, depth);
    var siblings: seq<Digest> := [];
    var indices: seq<nat> := [];
    var currentLevel := leaves;
    for level := 0 to depth
      invariant IsLevel(h, leaves, level, currentLevel)
      invariant siblings == PathSiblings(h, level, leaves, index) && indices == PathBits(level, index)
    {
      var idx := Shr(index, level);
      var siblingIdx := Sibling(idx);
      if siblingIdx >= |currentLevel| {
        NodePastEndIsZero(h, depth, zeros, leaves, level, siblingIdx);
      }
      siblings := siblings + [GetOr(currentLevel, siblingIdx, zeros[level])];
      indices := indices + [idx % 2];

      var nextLevel := ParentLevel(h, currentLevel, zeros[level]);
      if nextLevel.None? {
        var i :| 0 <= 2 * i < |currentLevel| && h(currentLevel[2 * i], GetOr(currentLevel, 2 * i + 1, zeros[level])).None?;
        LevelParent(h, depth, zeros, leaves, level, currentLevel, i);
        UndefinedNodeSpoilsRoot(h, depth, leaves, level + 1, i);
        return None;
      }
      forall i | 0 <= i < |nextLevel.value|
        ensures Node(h, leaves, level + 1, i) == Some(nextLevel.value[i])
      {
        LevelParent(h, depth, zeros, leaves, level, currentLevel, i);
      }
      ShrMonotone(index, |leaves| - 1, level + 1);
      currentLevel := PadTo(nextLevel.value, idx / 2, zeros[level + 1]);
      assert currentLevel == nextLevel.value;  // the padding loop never runs
    }
    proof := Some(MerkleProof(index, leaves[index], root, siblings, indices));
  }

  /** A node with no digest among the ancestors of the leaves means there is no root. */
  lemma UndefinedNodeSpoilsRoot(h: Hash, depth: nat, leaves: seq<Digest>, k: nat, i: nat)
    requires k <= depth && 0 < |leaves| <= Pow2(depth) && i <= Shr(|leaves| - 1, k)
    requires Node(h, leaves, k, i).None?
    ensures Root(h, depth, leaves).None?
  {
    hide Node, Pow2;
    ShrIsZero(|leaves| - 1, depth);
    ShrCompose(|leaves| - 1, k, depth - k);
    ShrMonotone(i, Shr(|leaves| - 1, k), depth - k);
    if Root(h, depth, leaves).Some? {
      NodesBelowAreDefined(h, leaves, k, i, depth - k);
    }
  }

  class MerkleTree {
    const hash: Hash
    const depth: nat
    const zeros: seq<Digest>
    var leaves: seq<Digest>
    const frontier: array<Digest>
    var currentRoot: Digest
    var nextIndex: nat

    ghost predicate Valid()
      reads this, frontier
    {
      && ZeroTable(hash, depth, zeros)
      && frontier.Length == depth
      && nextIndex == |leaves| <= Pow2(depth)
      && Root(hash, depth, leaves) == Some(currentRoot)
      && FrontierServes(hash, leaves, frontier[..], nextIndex)
      && (nextIndex == Pow2(depth) ==> FrontierServes(hash, leaves, frontier[..], nextIndex - 1))
      && Insertable(hash, depth, leaves)
    }

    constructor (hash: Hash, depth: nat, zeros: seq<Digest>)
      requires ZeroTable(hash, depth, zeros)
      ensures Valid() && fresh(frontier)
      ensures this.hash == hash && this.depth == depth && this.zeros == zeros
      ensures leaves == [] && currentRoot == zeros[depth]
    {
      this.hash := hash;
      this.depth := depth;
      this.zeros := zeros;
      leaves := [];
      frontier := new Digest[depth](_ => 0);
      currentRoot := zeros[depth];
      nextIndex := 0;
      EmptyNodeIsZero(hash, depth, zeros, depth, 0);
      forall k: nat | k < depth ensures SlotServes(hash, [], 0, 0, k) { ShrIsZero(0, k); }
    }

    /**
     Succeeds exactly when there is room and the grown tree has a root. On failure the leaves, root and counter are
     untouched. The frontier is described exactly in both cases, including what a failed climb leaves behind.
     */
    method AddLeaf(commitment: Digest) returns (r: Result<nat, InsertError>)
      requires Valid()
      modifies this, frontier
      ensures Valid()
      ensures r.Ok? <==> |old(leaves)| < Pow2(depth) && Root(hash, depth, old(leaves) + [commitment]).Some?
      ensures r.Ok? ==> r.value == |old(leaves)| && Root(hash, depth, leaves) == Some(currentRoot)
      ensures r.Err? ==> (r.error == TreeFull <==> |old(leaves)| == Pow2(depth))
      ensures r == InsertOutcome(hash, depth, old(leaves), commitment)
      ensures leaves == (if r.Ok? then old(leaves) + [commitment] else old(leaves))
      ensures r.Err? ==> currentRoot == old(currentRoot) && nextIndex == old(nextIndex)
      ensures r == Err(TreeFull) ==> frontier[..] == old(frontier[..])
      ensures r != Err(TreeFull) ==> ClimbedTo(hash, old(leaves), commitment, old(frontier[..]), frontier[..], depth)
      ensures r.Ok? ==> FrontierServes(hash, leaves, frontier[..], r.value)
    {
      var leafIndex := nextIndex;
      if leafIndex >= Pow2(depth) {
        return Err(TreeFull);
      }
      ghost var before := frontier[..];
      var root := Climb(hash, depth, zeros, frontier, leaves, leafIndex, commitment);
      if root.None? {
        return Err(HashFailed);
      }
      FrontierAfterSuccess(hash, depth, leaves, commitment, before, frontier[..]);
      InsertableGrows(hash, depth, leaves, commitment);
      currentRoot := root.value;
      leaves := leaves + [commitment];
      nextIndex := leafIndex + 1;
      r := Ok(leafIndex);
    }

    /** Total on reachable trees, and the opening it returns folds back to the current root. */
    method GetProofByIndex(index: nat) returns (proof: Option<MerkleProof>)
      requires Valid()
      ensures proof == ProofOf(hash, depth, leaves, index)
      ensures proof.Some? <==> index < |leaves|
      ensures proof.Some? ==>
                && proof.value.leafIndex == index && proof.value.commitment == leaves[index]
                && proof.value.root == currentRoot && proof.value.indices == PathBits(depth, index)
                && |proof.value.siblings| == |proof.value.indices| == depth
                && Fold(hash, proof.value.commitment, proof.value.siblings, proof.value.indices, depth)
                   == Some(currentRoot)
    {
      proof := ProofByIndex(hash, depth, zeros, leaves, currentRoot, index);
      if index < |leaves| {
        OpeningFoldsToRoot(hash, depth, leaves, index);
      }
    }

    /** Opens the first leaf equal to the commitment. */
    method GetProof(commitment: Digest) returns (proof: Option<MerkleProof>)
      requires Valid()
      ensures proof == LookupOutcome(hash, depth, leaves, commitment)
      ensures proof.None? <==> commitment !in leaves
      ensures proof.Some? ==>
                && var i := proof.value.leafIndex;
                && i < |leaves| && leaves[i] == commitment == proof.value.commitment && commitment !in leaves[..i]
                && proof.value.root == currentRoot && proof.value.indices == PathBits(depth, i)
                && |proof.value.siblings| == |proof.value.indices| == depth
                && Fold(hash, commitment, proof.value.siblings, proof.value.indices, depth) == Some(currentRoot)
    {
      var i := 0;
      while i < |leaves| && leaves[i] != commitment
        invariant i <= |leaves| && commitment !in leaves[..i]
      {
        i := i + 1;
      }
      if i == |leaves| {
        assert leaves[..i] == leaves;
        FirstIndexFrom(leaves, commitment, i);
        return None;
      }
      FirstIndexFrom(leaves, commitment, i);
      proof := GetProofByIndex(i);
    }
  }

  function FirstIndex(s: seq<Digest>, x: Digest): (i: nat)
    ensures i <= |s| && x !in s[..i]
    ensures i < |s| ==> s[i] == x
  {
    if s == [] || s[0] == x then 0 else
      var rest := FirstIndex(s[1..], x);
      assert s[..rest + 1] == [s[0]] + s[1..][..rest];
      rest + 1
  }

  lemma FirstIndexFrom(s: seq<Digest>, x: Digest, i: nat)
    requires i <= |s| && x !in s[..i]
    requires i < |s| ==> s[i] == x
    ensures FirstIndex(s, x) == i
  {
  }

  /** Result of inserting `x`, as a function of the leaves alone. */
  function InsertOutcome(h: Hash, depth: nat, leaves: seq<Digest>, x: Digest): Result<nat, InsertError> {
    if |leaves| >= Pow2(depth) then Err(TreeFull)
    else if Root(h, depth, leaves + [x]).None? then Err(HashFailed)
    else Ok(|leaves|)
  }

  function LookupOutcome(h: Hash, depth: nat, leaves: seq<Digest>, x: Digest): Option<MerkleProof> {
    ProofOf(h, depth, leaves, FirstIndex(leaves, x))
  }

  /** Insertion one by one, stopping at the first failure. */
  method BuildFromLeaves(h: Hash, depth: nat, zeros: seq<Digest>, leaves: seq<Digest>)
    returns (r: Result<MerkleTree, InsertError>)
    requires ZeroTable(h, depth, zeros)
    ensures r.Ok? <==> Insertable(h, depth, leaves)
    ensures r.Err? ==> exists i :: 0 <= i < |leaves| && Insertable(h, depth, leaves[..i])
                                   && InsertOutcome(h, depth, leaves[..i], leaves[i]) == Err(r.error)
    ensures r.Ok? ==> r.value.Valid() && fresh(r.value) && fresh(r.value.frontier)
    ensures r.Ok? ==> r.value.leaves == leaves
    ensures r.Ok? ==> r.value.hash == h && r.value.depth == depth && r.value.zeros == zeros
  {
    var tree := new MerkleTree(h, depth, zeros);
    for i := 0 to |leaves|
      invariant tree.Valid() && fresh(tree) && fresh(tree.frontier)
      invariant tree.hash == h && tree.depth == depth && tree.zeros == zeros
      invariant tree.leaves == leaves[..i]
    {
      InsertableGrows(h, depth, leaves[..i], leaves[i]);
      assert leaves[..i] + [leaves[i]] == leaves[..i + 1];
      var added := tree.AddLeaf(leaves[i]);
      if added.Err? {
        PrefixInsertable(h, depth, leaves, i + 1);
        return Err(added.error);
      }
    }
    assert leaves[..|leaves|] == leaves;
    r := Ok(tree);
  }

  lemma PrefixInsertable(h: Hash, depth: nat, leaves: seq<Digest>, n: nat)
    requires n <= |leaves|
    ensures Insertable(h, depth, leaves) ==> Insertable(h, depth, leaves[..n])
  {
    assert forall k | 0 <= k <= n :: leaves[..n][..k] == leaves[..k];
  }

  // ---- Whole runs -------------------------------------------------------------------------------------------

  datatype Call = Insert(x: Digest) | OpenIndex(i: nat) | OpenLeaf(x: Digest) | ReadRoot | ReadSize

  datatype Reply =
    | Inserted(outcome: Result<nat, InsertError>)
    | Opened(proof: Option<MerkleProof>)
    | RootIs(root: Digest)
    | SizeIs(size: nat)

  /** What a tree holding `leaves` must answer. The frontier does not occur here. */
  function Respond(h: Hash, depth: nat, leaves: seq<Digest>, call: Call): Reply {
    match call
    case Insert(x) => Inserted(InsertOutcome(h, depth, leaves, x))
    case OpenIndex(i) => Opened(ProofOf(h, depth, leaves, i))
    case OpenLeaf(x) => Opened(LookupOutcome(h, depth, leaves, x))
    case ReadRoot => RootIs(DigestAt(h, leaves, depth, 0))
    case ReadSize => SizeIs(|leaves|)
  }

  /** An opening of leaf `i` to the root. */
  ghost predicate Opens(h: Hash, depth: nat, leaves: seq<Digest>, proof: MerkleProof, i: nat) {
    && i < |leaves| && proof.leafIndex == i && proof.commitment == leaves[i]
    && Root(h, depth, leaves) == Some(proof.root)
    && |proof.siblings| == depth && proof.indices == PathBits(depth, i)
    && Fold(h, proof.commitment, proof.siblings, proof.indices, depth) == Some(proof.root)
  }

  lemma ProofOpens(h: Hash, depth: nat, leaves: seq<Digest>, i: nat)
    requires Root(h, depth, leaves).Some? && |leaves| <= Pow2(depth)
    ensures ProofOf(h, depth, leaves, i).Some? <==> i < |leaves|
    ensures i < |leaves| ==> Opens(h, depth, leaves, ProofOf(h, depth, leaves, i).value, i)
  {
    if i < |leaves| {
      OpeningFoldsToRoot(h, depth, leaves, i);
    }
  }

  /** What a caller may conclude from a reply, in terms of the leaves and their root. */
  ghost predicate Right(h: Hash, depth: nat, leaves: seq<Digest>, call: Call, reply: Reply) {
    match call
    case Insert(x) =>
      && reply.Inserted?
      && (reply.outcome.Ok? <==> |leaves| < Pow2(depth) && Root(h, depth, leaves + [x]).Some?)
      && (reply.outcome.Ok? ==> reply.outcome.value == |leaves|)
      && (reply.outcome == Err(TreeFull) <==> |leaves| == Pow2(depth))
    case OpenIndex(i) =>
      && reply.Opened? && (reply.proof.Some? <==> i < |leaves|)
      && (reply.proof.Some? ==> Opens(h, depth, leaves, reply.proof.value, i))
    case OpenLeaf(x) =>
      && reply.Opened? && (reply.proof.None? <==> x !in leaves)
      && (reply.proof.Some? ==> OpensFirst(h, depth, leaves, reply.proof.value, x))
    case ReadRoot => reply.RootIs? && Root(h, depth, leaves) == Some(reply.root)
    case ReadSize => reply == SizeIs(|leaves|)
  }

  ghost predicate OpensFirst(h: Hash, depth: nat, leaves: seq<Digest>, proof: MerkleProof, x: Digest) {
    && Opens(h, depth, leaves, proof, proof.leafIndex)
    && proof.commitment == x && x !in leaves[..proof.leafIndex]
  }

  lemma AnswersAreRight(h: Hash, depth: nat, leaves: seq<Digest>, call: Call)
    requires Root(h, depth, leaves).Some? && |leaves| <= Pow2(depth)
    ensures Right(h, depth, leaves, call, Respond(h, depth, leaves, call))
  {
    hide Pow2, Root, Opens;
    if call.OpenIndex? {
      ProofOpens(h, depth, leaves, call.i);
    } else if call.OpenLeaf? {
      var i := FirstIndex(leaves, call.x);
      ProofOpens(h, depth, leaves, i);
      if i == |leaves| {
        assert leaves[..i] == leaves;
      } else {
        OpensIndex(h, depth, leaves, ProofOf(h, depth, leaves, i).value, i);
      }
    } else if call.ReadRoot? {
      RootDigest(h, depth, leaves);
    }
  }

  lemma OpensIndex(h: Hash, depth: nat, leaves: seq<Digest>, proof: MerkleProof, i: nat)
    requires Opens(h, depth, leaves, proof, i)
    ensures i < |leaves| && proof.leafIndex == i && proof.commitment == leaves[i]
  {
  }

  lemma RootDigest(h: Hash, depth: nat, leaves: seq<Digest>)
    requires Root(h, depth, leaves).Some?
    ensures Root(h, depth, leaves) == Some(DigestAt(h, leaves, depth, 0))
  {
  }

  function LeavesAfterCall(h: Hash, depth: nat, leaves: seq<Digest>, call: Call): (after: seq<Digest>)
    ensures leaves <= after
  {
    if call.Insert? && InsertOutcome(h, depth, leaves, call.x).Ok? then leaves + [call.x] else leaves
  }

  function LeavesAfter(h: Hash, depth: nat, leaves: seq<Digest>, calls: seq<Call>): (after: seq<Digest>)
    ensures leaves <= after
  {
    if calls == [] then leaves
    else LeavesAfterCall(h, depth, LeavesAfter(h, depth, leaves, calls[..|calls| - 1]), calls[|calls| - 1])
  }

  /** The answers to a whole run, a function of the leaves at its start. */
  function Replies(h: Hash, depth: nat, leaves: seq<Digest>, calls: seq<Call>): (replies: seq<Reply>)
    ensures |replies| == |calls|
  {
    if calls == [] then []
    else
      var before := calls[..|calls| - 1];
      Replies(h, depth, leaves, before)
      + [Respond(h, depth, LeavesAfter(h, depth, leaves, before), calls[|calls| - 1])]
  }

  lemma {:induction false} LeavesKeepRoot(h: Hash, depth: nat, leaves: seq<Digest>, calls: seq<Call>)
    requires Root(h, depth, leaves).Some? && |leaves| <= Pow2(depth)
    ensures Root(h, depth, LeavesAfter(h, depth, leaves, calls)).Some?
    ensures |LeavesAfter(h, depth, leaves, calls)| <= Pow2(depth)
  {
    hide Root, Pow2;
    if calls != [] {
      LeavesKeepRoot(h, depth, leaves, calls[..|calls| - 1]);
    }
  }

  /** Every answer of a run is right for the leaves accepted before it. */
  lemma {:induction false} RepliesAreRight(h: Hash, depth: nat, leaves: seq<Digest>, calls: seq<Call>, i: nat)
    requires Root(h, depth, leaves).Some? && |leaves| <= Pow2(depth) && i < |calls|
    ensures Right(h, depth, LeavesAfter(h, depth, leaves, calls[..i]), calls[i], Replies(h, depth, leaves, calls)[i])
    decreases |calls|
  {
    hide Root, Pow2, Right, Respond, LeavesAfter;
    var earlier := calls[..|calls| - 1];
    if i < |earlier| {
      RepliesAreRight(h, depth, leaves, earlier, i);
      assert earlier[..i] == calls[..i];
    } else {
      LeavesKeepRoot(h, depth, leaves, earlier);
      AnswersAreRight(h, depth, LeavesAfter(h, depth, leaves, earlier), calls[i]);
    }
  }

  method Serve(tree: MerkleTree, call: Call) returns (reply: Reply)
    requires tree.Valid()
    modifies tree, tree.frontier
    ensures tree.Valid()
    ensures reply == Respond(tree.hash, tree.depth, old(tree.leaves), call)
    ensures tree.leaves == LeavesAfterCall(tree.hash, tree.depth, old(tree.leaves), call)
  {
    match call
    case Insert(x) => var r := tree.AddLeaf(x); reply := Inserted(r);
    case OpenIndex(i) => var p := tree.GetProofByIndex(i); reply := Opened(p);
    case OpenLeaf(x) => var p := tree.GetProof(x); reply := Opened(p);
    case ReadRoot => reply := RootIs(tree.currentRoot);
    case ReadSize => reply := SizeIs(tree.nextIndex);
  }

  /** Every run of calls, rejected insertions included, is answered as the leaves alone dictate. */
  method Run(tree: MerkleTree, calls: seq<Call>) returns (replies: seq<Reply>)
    requires tree.Valid()
    modifies tree, tree.frontier
    ensures tree.Valid()
    ensures replies == Replies(tree.hash, tree.depth, old(tree.leaves), calls)
    ensures tree.leaves == LeavesAfter(tree.hash, tree.depth, old(tree.leaves), calls)
    ensures forall i | 0 <= i < |calls| ::
              Right(tree.hash, tree.depth, LeavesAfter(tree.hash, tree.depth, old(tree.leaves), calls[..i]), calls[i],
                    replies[i])
  {
    hide Right, Respond, Root;
    replies := [];
    for i := 0 to |calls|
      invariant tree.Valid()
      invariant replies == Replies(tree.hash, tree.depth, old(tree.leaves), calls[..i])
      invariant tree.leaves == LeavesAfter(tree.hash, tree.depth, old(tree.leaves), calls[..i])
    {
      assert calls[..i + 1][..i] == calls[..i];
      var reply := Serve(tree, calls[i]);
      replies := replies + [reply];
    }
    assert calls[..|calls|] == calls;
    forall i | 0 <= i < |calls|
      ensures Right(tree.hash, tree.depth, LeavesAfter(tree.hash, tree.depth, old(tree.leaves), calls[..i]), calls[i],
                    replies[i])
    {
      RepliesAreRight(tree.hash, tree.depth, old(tree.leaves), calls, i);
    }
  }

  /**
   A tree with any history of successful and failed insertions can be rebuilt from its leaves, and from then on no
   sequence of calls tells the two apart, although their frontiers may differ.
   */
  method RebuiltTreeIsIndistinguishable(tree: MerkleTree, history: seq<Call>, future: seq<Call>)
    returns (lived: seq<Reply>, rebuilt: seq<Reply>)
    requires tree.Valid()
    modifies tree, tree.frontier
    ensures lived == rebuilt
            == Replies(tree.hash, tree.depth, LeavesAfter(tree.hash, tree.depth, old(tree.leaves), history), future)
  {
    var _ := Run(tree, history);
    var copy := BuildFromLeaves(tree.hash, tree.depth, tree.zeros, tree.leaves);
    lived := Run(tree, future);
    rebuilt := Run(copy.value, future);
  }
}

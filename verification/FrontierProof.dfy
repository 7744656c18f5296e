/** Openings of the last leaf computed from the frontier alone (contracts/scripts). */
module FrontierProof {
  import opened Common
  import opened Bits
  import opened MerkleSpec
  import opened MerklePath
  import opened MerkleTreeModel
  import opened MerkleBinding

  function FrontierSiblings(depth: nat, zeros: seq<Digest>, frontier: seq<Digest>, leafIndex: nat): (s: seq<Digest>)
    requires depth <= |zeros| && depth <= |frontier|
    ensures |s| == depth
    ensures forall k | 0 <= k < depth :: s[k] == if Bit(leafIndex, k) == 0 then zeros[k] else frontier[k]
  {
    if depth == 0 then []
    else FrontierSiblings(depth - 1, zeros, frontier, leafIndex)
         + [if Bit(leafIndex, depth - 1) == 0 then zeros[depth - 1] else frontier[depth - 1]]
  }

  method GetMerkleProofFromFrontier(depth: nat, zeros: seq<Digest>, leafIndex: nat, frontier: seq<Digest>)
    returns (siblings: seq<Digest>, indices: seq<nat>)
    requires depth <= |zeros| && depth <= |frontier|
    ensures siblings == FrontierSiblings(depth, zeros, frontier, leafIndex)
    ensures indices == PathBits(depth, leafIndex)
  {
    siblings, indices := [], [];
    var idx := leafIndex;
    for level := 0 to depth
      invariant idx == Shr(leafIndex, level)
      invariant siblings == FrontierSiblings(level, zeros, frontier, leafIndex) && indices == PathBits(level, leafIndex)
    {
      var bit := idx % 2;
      indices := indices + [bit];
      if bit == 0 {
        siblings := siblings + [zeros[level]];
      } else {
        siblings := siblings + [frontier[level]];
      }
      idx := idx / 2;
    }
  }

  /** The variant that also folds as it goes; its root is the fold of what it returns. */
  method ComputeMerkleProof(h: Hash, depth: nat, zeros: seq<Digest>, commitment: Digest, leafIndex: nat,
                            frontier: seq<Digest>)
    returns (siblings: seq<Digest>, indices: seq<nat>, root: Option<Digest>)
    requires depth <= |zeros| && depth <= |frontier|
    ensures siblings == FrontierSiblings(depth, zeros, frontier, leafIndex)
    ensures indices == PathBits(depth, leafIndex)
    ensures root == Fold(h, commitment, siblings, indices, depth)
  {
    siblings, indices := GetMerkleProofFromFrontier(depth, zeros, leafIndex, frontier);
    root := Some(commitment);
    for level := 0 to depth
      invariant root == Fold(h, commitment, siblings, indices, level)
    {
      root := if indices[level] == 0 then HashPair(h, root, Some(siblings[level]))
              else HashPair(h, Some(siblings[level]), root);
    }
  }

  /** The frontier opens the last leaf correctly exactly when it serves that leaf's index. */
  lemma FrontierOpensLastLeaf(h: Hash, depth: nat, zeros: seq<Digest>, leaves: seq<Digest>, frontier: seq<Digest>)
    requires ZeroTable(h, depth, zeros) && |frontier| == depth
    requires 0 < |leaves| <= Pow2(depth) && Root(h, depth, leaves).Some?
    ensures FrontierSiblings(depth, zeros, frontier, |leaves| - 1) == PathSiblings(h, depth, leaves, |leaves| - 1)
            <==> FrontierServes(h, leaves, frontier, |leaves| - 1)
  {
    hide SlotServes, SiblingDigest, Bit, Root;
    var n := |leaves| - 1;
    var given := FrontierSiblings(depth, zeros, frontier, n);
    var expected := PathSiblings(h, depth, leaves, n);
    forall k | 0 <= k < depth
      ensures given[k] == expected[k] <==> SlotServes(h, leaves, frontier[k], n, k)
    {
      SlotOpensLastLeaf(h, depth, zeros, leaves, frontier[k], k);
    }
    assert given == expected <==> forall k | 0 <= k < depth :: given[k] == expected[k];
  }

  lemma SlotOpensLastLeaf(h: Hash, depth: nat, zeros: seq<Digest>, leaves: seq<Digest>, slot: Digest, k: nat)
    requires ZeroTable(h, depth, zeros) && k < depth
    requires 0 < |leaves| <= Pow2(depth) && Root(h, depth, leaves).Some?
    ensures (if Bit(|leaves| - 1, k) == 0 then zeros[k] else slot) == SiblingDigest(h, leaves, |leaves| - 1, k)
            <==> SlotServes(h, leaves, slot, |leaves| - 1, k)
  {
    var n := |leaves| - 1;
    PathIsDefined(h, depth, leaves, n, k);
    if Shr(n, k) % 2 == 0 {
      NodePastEndIsZero(h, depth, zeros, leaves, k, Shr(n, k) + 1);
    }
  }

  /** Inserting a leaf and opening it from the frontier gives the opening of the full tree, and folds to its root. */
  method InsertThenOpen(tree: MerkleTree, commitment: Digest)
    returns (r: Result<nat, InsertError>, siblings: seq<Digest>, indices: seq<nat>, root: Option<Digest>)
    requires tree.Valid()
    modifies tree, tree.frontier
    ensures r.Ok? <==> |old(tree.leaves)| < Pow2(tree.depth)
                       && Root(tree.hash, tree.depth, old(tree.leaves) + [commitment]).Some?
    ensures r.Ok? ==> tree.leaves == old(tree.leaves) + [commitment] && r.value == |old(tree.leaves)|
    ensures r.Ok? ==> siblings == PathSiblings(tree.hash, tree.depth, tree.leaves, r.value)
    ensures r.Ok? ==> indices == PathBits(tree.depth, r.value) && root == Some(tree.currentRoot)
  {
    r := tree.AddLeaf(commitment);
    siblings, indices, root := [], [], None;
    if r.Ok? {
      siblings, indices, root :=
        ComputeMerkleProof(tree.hash, tree.depth, tree.zeros, commitment, r.value, tree.frontier[..]);
      FrontierOpensLastLeaf(tree.hash, tree.depth, tree.zeros, tree.leaves, tree.frontier[..]);
      OpeningFoldsToRoot(tree.hash, tree.depth, tree.leaves, r.value);
    }
  }

  // ---- The backend's own frontier ----------------------------------------------------------------------------

  lemma {:induction false} OddSharesPath(n: nat, k: nat)
    requires n % 2 == 1 && k > 0
    ensures Shr(n, k) == Shr(n - 1, k)
  {
    if k > 1 {
      OddSharesPath(n, k - 1);
    } else {
      assert Shr(n, 0) == n && Shr(n - 1, 0) == n - 1;
    }
  }

  lemma OddSizeServesLast(h: Hash, leaves: seq<Digest>, frontier: seq<Digest>)
    requires |leaves| % 2 == 1 && FrontierServes(h, leaves, frontier, |leaves|)
    ensures FrontierServes(h, leaves, frontier, |leaves| - 1)
  {
    var n := |leaves|;
    forall k | 0 <= k < |frontier|
      ensures SlotServes(h, leaves, frontier[k], n - 1, k)
    {
      assert SlotServes(h, leaves, frontier[k], n, k);
      if k > 0 {
        OddSharesPath(n, k);
      }
    }
  }

  /** Whatever insertions were rejected before: a tree of odd size, or a full one, opens its last leaf correctly. */
  lemma OddOrFullTreeOpens(tree: MerkleTree)
    requires tree.Valid() && (tree.nextIndex % 2 == 1 || tree.nextIndex == Pow2(tree.depth))
    ensures FrontierSiblings(tree.depth, tree.zeros, tree.frontier[..], tree.nextIndex - 1)
            == PathSiblings(tree.hash, tree.depth, tree.leaves, tree.nextIndex - 1)
  {
    if tree.nextIndex % 2 == 1 {
      OddSizeServesLast(tree.hash, tree.leaves, tree.frontier[..]);
    }
    FrontierOpensLastLeaf(tree.hash, tree.depth, tree.zeros, tree.leaves, tree.frontier[..]);
  }

  /** A hash that fails on the digest 9 only. */
  function PickyHash(l: Digest, r: Digest): Option<Digest> {
    if l == 9 || r == 9 then None else Some(0)
  }

  function Fives(n: nat): seq<Digest> {
    Repeat(5, n)
  }

  lemma {:induction false} FivesHash(n: nat, k: nat, i: nat)
    ensures Node(PickyHash, Fives(n), k, i) == (if k == 0 then Some(LeafAt(Fives(n), i)) else Some(0))
  {
    if k > 0 {
      FivesHash(n, k - 1, 2 * i);
      FivesHash(n, k - 1, 2 * i + 1);
    }
  }

  lemma NineSpoilsRoot(depth: nat, n: nat)
    requires depth > 0 && n < Pow2(depth)
    ensures Root(PickyHash, depth, Fives(n) + [9]).None?
  {
    hide Pow2;
    var leaves := Fives(n) + [9];
    NodeParent(PickyHash, leaves, 0, n);
    assert Node(PickyHash, leaves, 0, n) == Some(9);
    assert Shr(n, 1) == Shr(n, 0) / 2 == n / 2;
    UndefinedSpreadsUp(PickyHash, leaves, n, 1, depth);
    ShrIsZero(n, depth);
  }

  /**
   For every other size, even and not full, there is a tree whose last leaf the frontier opens wrongly: the rejected
   insertion has already overwritten the lowest slot.
   */
  method StaleFrontier(depth: nat, n: nat) returns (tree: MerkleTree)
    requires 0 < n < Pow2(depth) && n % 2 == 0
    ensures tree.Valid() && tree.depth == depth && tree.nextIndex == n
    ensures FrontierSiblings(depth, tree.zeros, tree.frontier[..], n - 1)
            != PathSiblings(tree.hash, depth, tree.leaves, n - 1)
  {
    hide Pow2, Root;
    assert depth > 0 by { PowerOfZero(); }
    tree := new MerkleTree(PickyHash, depth, Repeat(0, depth + 1));
    for i := 0 to n
      invariant tree.Valid() && fresh(tree) && fresh(tree.frontier)
      invariant tree.hash == PickyHash && tree.depth == depth && tree.leaves == Fives(i)
    {
      assert Fives(i) + [5] == Fives(i + 1);
      RootOfFives(depth, i + 1);
      var added := tree.AddLeaf(5);
    }
    NineSpoilsRoot(depth, n);
    ghost var before, leaves := tree.frontier[..], tree.leaves;
    var rejected := tree.AddLeaf(9);
    assert rejected == Err(HashFailed);
    StaleSlot(depth, n, before, tree.frontier[..]);
    assert FrontierSiblings(depth, tree.zeros, tree.frontier[..], n - 1)[0] == 9;
    assert PathSiblings(tree.hash, depth, tree.leaves, n - 1)[0] == 5;
  }

  lemma PowerOfZero()
    ensures Pow2(0) == 1
  {
  }

  lemma RootOfFives(depth: nat, n: nat)
    ensures Root(PickyHash, depth, Fives(n)).Some?
  {
    FivesHash(n, depth, 0);
  }

  lemma StaleSlot(depth: nat, n: nat, before: seq<Digest>, after: seq<Digest>)
    requires depth > 0 && n > 0 && n % 2 == 0 && |before| == |after| == depth
    requires ClimbedTo(PickyHash, Fives(n), 9, before, after, depth)
    ensures after[0] == 9 && Bit(n - 1, 0) == 1 && SiblingDigest(PickyHash, Fives(n), n - 1, 0) == 5
  {
    var leaves := Fives(n);
    assert Node(PickyHash, leaves + [9], 0, n) == Some(9);
    assert FrontierSlotAfter(PickyHash, leaves, 9, 0, before[0]) == 9;
    assert Sibling(Shr(n - 1, 0)) == n - 2;
  }

  // ---- Any leaf, from a frontier with no rejected insertion in its past --------------------------------------

  ghost predicate EmptyBelow(leaves: seq<Digest>, k: nat, i: nat) {
    forall j | 0 <= j < |leaves| && Shr(j, k) == i :: leaves[j] == 0
  }

  /** Under a collision-free hash a node has the digest of an empty subtree exactly when all its leaves are empty. */
  lemma NodeIsZeroIff(h: Hash, depth: nat, zeros: seq<Digest>, leaves: seq<Digest>, k: nat, i: nat)
    requires Injective(h) && ZeroTable(h, depth, zeros) && k <= depth
    ensures Node(h, leaves, k, i) == Some(zeros[k]) <==> EmptyBelow(leaves, k, i)
  {
    hide Injective;
    EmptyNodeIsZero(h, depth, zeros, k, i);
    if Node(h, leaves, k, i) == Some(zeros[k]) {
      forall j | 0 <= j < |leaves| && Shr(j, k) == i
        ensures leaves[j] == 0
      {
        NodeBinds(h, leaves, [], k, i, j);
      }
    }
    if EmptyBelow(leaves, k, i) {
      NodeDependsOnLeavesBelow(h, leaves, [], k, i);
    }
  }

  /** The level at which the paths of two slots part: one goes left where the other goes right. */
  lemma {:induction false} PathsPart(i: nat, j: nat, depth: nat) returns (k: nat)
    requires i < j && Shr(i, depth) == Shr(j, depth)
    ensures k < depth && Shr(i, k) % 2 == 0 && Shr(j, k) == Shr(i, k) + 1
  {
    ShrMonotone(i, j, depth - 1);
    if Shr(i, depth - 1) == Shr(j, depth - 1) {
      k := PathsPart(i, j, depth - 1);
    } else {
      k := depth - 1;
    }
  }

  /** All leaves after `i` are empty, and so are the left neighbours at levels where the last leaf's path is elsewhere. */
  ghost predicate OnlyEmptyAfter(leaves: seq<Digest>, depth: nat, i: nat)
    requires i < |leaves|
  {
    && (forall j | i < j < |leaves| :: leaves[j] == 0)
    && (forall k | 0 <= k < depth :: NeighbourAgrees(leaves, i, k))
  }

  ghost predicate NeighbourAgrees(leaves: seq<Digest>, i: nat, k: nat)
    requires i < |leaves|
  {
    Bit(i, k) == 1 && Shr(i, k + 1) != Shr(|leaves| - 1, k + 1) ==> EmptyBelow(leaves, k, Shr(i, k) - 1)
  }

  /** The sibling the frontier offers at one level is the true one. */
  ghost predicate LevelOpens(h: Hash, zeros: seq<Digest>, leaves: seq<Digest>, frontier: seq<Digest>, i: nat, k: nat)
    requires k < |zeros| && k < |frontier|
  {
    Node(h, leaves, k, Sibling(Shr(i, k))) == Some(if Bit(i, k) == 0 then zeros[k] else frontier[k])
  }

  lemma EmptyAfterMeansZero(leaves: seq<Digest>, i: nat, k: nat, m: nat)
    requires i < |leaves| && (forall j | i < j < |leaves| :: leaves[j] == 0) && Shr(i, k) < m
    ensures EmptyBelow(leaves, k, m)
  {
    forall j | 0 <= j < |leaves| && Shr(j, k) == m
      ensures leaves[j] == 0
    {
      if j <= i {
        ShrMonotone(j, i, k);
      }
    }
  }

  lemma LeftLevelOpens(h: Hash, depth: nat, zeros: seq<Digest>, leaves: seq<Digest>, frontier: seq<Digest>, i: nat, k: nat)
    requires Injective(h) && ZeroTable(h, depth, zeros) && |frontier| == depth && k < depth && i < |leaves|
    requires Bit(i, k) == 0
    ensures LevelOpens(h, zeros, leaves, frontier, i, k) <==> EmptyBelow(leaves, k, Shr(i, k) + 1)
  {
    hide Injective, ZeroTable, Node, EmptyBelow;
    NodeIsZeroIff(h, depth, zeros, leaves, k, Shr(i, k) + 1);
  }

  lemma RightLevelOpens(h: Hash, depth: nat, zeros: seq<Digest>, leaves: seq<Digest>, frontier: seq<Digest>, i: nat, k: nat)
    requires Injective(h) && ZeroTable(h, depth, zeros) && |frontier| == depth && k < depth && i < |leaves|
    requires FrontierHolds(h, leaves, frontier) && Bit(i, k) == 1 && forall j | i < j < |leaves| :: leaves[j] == 0
    ensures LevelOpens(h, zeros, leaves, frontier, i, k)
            <==> Shr(i, k + 1) == Shr(|leaves| - 1, k + 1) || EmptyBelow(leaves, k, Shr(i, k) - 1)
  {
    hide Injective, ZeroTable, Node, EmptyBelow;
    var last := Shr(|leaves| - 1, k + 1);
    assert SlotHolds(h, leaves, frontier[k], k);
    assert Sibling(Shr(i, k)) == Shr(i, k) - 1 == 2 * Shr(i, k + 1);
    if Shr(i, k + 1) != last {
      ShrMonotone(i, |leaves| - 1, k + 1);
      EmptyAfterMeansZero(leaves, i, k, 2 * last);
      NodeIsZeroIff(h, depth, zeros, leaves, k, 2 * last);
      NodeIsZeroIff(h, depth, zeros, leaves, k, Shr(i, k) - 1);
    }
  }

  lemma OpensLevelwise(h: Hash, depth: nat, zeros: seq<Digest>, leaves: seq<Digest>, frontier: seq<Digest>, i: nat)
    requires ZeroTable(h, depth, zeros) && |frontier| == depth && i < |leaves| <= Pow2(depth)
    requires Root(h, depth, leaves).Some?
    ensures FrontierSiblings(depth, zeros, frontier, i) == PathSiblings(h, depth, leaves, i)
            <==> forall k | 0 <= k < depth :: LevelOpens(h, zeros, leaves, frontier, i, k)
  {
    hide Root, Pow2, Node, Bit, ZeroTable;
    ZeroTableLength(h, depth, zeros);
    var given, expected := FrontierSiblings(depth, zeros, frontier, i), PathSiblings(h, depth, leaves, i);
    forall k | 0 <= k < depth
      ensures given[k] == expected[k] <==> LevelOpens(h, zeros, leaves, frontier, i, k)
    {
      PathIsDefined(h, depth, leaves, i, k);
    }
    assert given == expected <==> forall k | 0 <= k < depth :: given[k] == expected[k];
  }

  lemma ZeroTableLength(h: Hash, depth: nat, zeros: seq<Digest>)
    requires ZeroTable(h, depth, zeros)
    ensures |zeros| == depth + 1
  {
  }

  lemma AllAfterEmpty(h: Hash, depth: nat, zeros: seq<Digest>, leaves: seq<Digest>, frontier: seq<Digest>, i: nat, j: nat)
    requires Injective(h) && ZeroTable(h, depth, zeros) && |frontier| == depth && i < j < |leaves| <= Pow2(depth)
    requires forall k | 0 <= k < depth :: LevelOpens(h, zeros, leaves, frontier, i, k)
    ensures leaves[j] == 0
  {
    hide Injective, ZeroTable, Node, Pow2, LevelOpens;
    ZeroTableLength(h, depth, zeros);
    ShrIsZero(i, depth);
    ShrIsZero(j, depth);
    var k := PathsPart(i, j, depth);
    assert LevelOpens(h, zeros, leaves, frontier, i, k);
    LeftLevelOpens(h, depth, zeros, leaves, frontier, i, k);
    assert EmptyBelow(leaves, k, Shr(i, k) + 1);
  }

  lemma EmptyAfterOpensIff(h: Hash, depth: nat, zeros: seq<Digest>, leaves: seq<Digest>, frontier: seq<Digest>, i: nat)
    requires Injective(h) && ZeroTable(h, depth, zeros) && |frontier| == depth && i < |leaves|
    requires FrontierHolds(h, leaves, frontier) && forall j | i < j < |leaves| :: leaves[j] == 0
    ensures (forall k | 0 <= k < depth :: LevelOpens(h, zeros, leaves, frontier, i, k))
            <==> OnlyEmptyAfter(leaves, depth, i)
  {
    hide Injective, ZeroTable, Node, LevelOpens, EmptyBelow, FrontierHolds, Shr;
    ZeroTableLength(h, depth, zeros);
    forall k | 0 <= k < depth
      ensures LevelOpens(h, zeros, leaves, frontier, i, k) <==> NeighbourAgrees(leaves, i, k)
    {
      if Bit(i, k) == 0 {
        EmptyAfterMeansZero(leaves, i, k, Shr(i, k) + 1);
        LeftLevelOpens(h, depth, zeros, leaves, frontier, i, k);
      } else {
        RightLevelOpens(h, depth, zeros, leaves, frontier, i, k);
      }
    }
  }

  /** Which leaves a frontier opens, for every leaf of the tree. */
  lemma FrontierOpensIff(h: Hash, depth: nat, zeros: seq<Digest>, leaves: seq<Digest>, frontier: seq<Digest>, i: nat)
    requires Injective(h) && ZeroTable(h, depth, zeros) && |frontier| == depth && i < |leaves| <= Pow2(depth)
    requires Root(h, depth, leaves).Some? && FrontierHolds(h, leaves, frontier)
    ensures FrontierSiblings(depth, zeros, frontier, i) == PathSiblings(h, depth, leaves, i)
            <==> OnlyEmptyAfter(leaves, depth, i)
  {
    hide Injective, ZeroTable, Root, Pow2, Node, LevelOpens, EmptyBelow, FrontierHolds, Shr;
    ZeroTableLength(h, depth, zeros);
    OpensLevelwise(h, depth, zeros, leaves, frontier, i);
    if forall k | 0 <= k < depth :: LevelOpens(h, zeros, leaves, frontier, i, k) {
      forall j | i < j < |leaves| ensures leaves[j] == 0 {
        AllAfterEmpty(h, depth, zeros, leaves, frontier, i, j);
      }
    }
    if forall j | i < j < |leaves| :: leaves[j] == 0 {
      EmptyAfterOpensIff(h, depth, zeros, leaves, frontier, i);
    }
  }

  /** When the last leaf is not empty, that is the last leaf and no other. */
  lemma FrontierOpensOnlyLast(h: Hash, depth: nat, zeros: seq<Digest>, leaves: seq<Digest>, frontier: seq<Digest>, i: nat)
    requires Injective(h) && ZeroTable(h, depth, zeros) && |frontier| == depth && i < |leaves| <= Pow2(depth)
    requires Root(h, depth, leaves).Some? && FrontierHolds(h, leaves, frontier) && leaves[|leaves| - 1] != 0
    ensures FrontierSiblings(depth, zeros, frontier, i) == PathSiblings(h, depth, leaves, i) <==> i == |leaves| - 1
  {
    hide Injective, ZeroTable, Root, Pow2, FrontierHolds, EmptyBelow, FrontierSiblings, PathSiblings;
    FrontierOpensIff(h, depth, zeros, leaves, frontier, i);
  }
}

/** The on-chain tree account with its ring of recent roots (contracts/programs/utxopia/src/state/commitment_tree.rs). */
module CommitmentTreeModel {
  import opened Common
  import opened Bits
  import opened MerkleSpec
  import opened MerklePath
  import opened FrontierProof
  import opened MerkleTreeModel

  const ROOT_HISTORY_SIZE: nat := 100

  /** Roots of the tree before each of the last 100 insertions. */
  ghost predicate IsRecentRoot(h: Hash, depth: nat, leaves: seq<Digest>, root: Digest) {
    exists k: nat :: k <= |leaves| <= k + ROOT_HISTORY_SIZE && Root(h, depth, leaves[..k]) == Some(root)
  }

  class CommitmentTree {
    const hash: Hash
    const depth: nat
    const zeros: seq<Digest>
    var currentRoot: Digest
    var nextIndex: nat
    const frontier: array<Digest>
    const rootHistory: array<Digest>
    var rootHistoryIndex: nat
    /** The account keeps no leaves; this is the list inserted so far. */
    ghost var leaves: seq<Digest>

    ghost predicate Valid()
      reads this, frontier, rootHistory
    {
      && ZeroTable(hash, depth, zeros)
      && frontier.Length == depth && rootHistory.Length == ROOT_HISTORY_SIZE && frontier != rootHistory
      && nextIndex == rootHistoryIndex == |leaves| <= Pow2(depth)
      && Root(hash, depth, leaves) == Some(currentRoot)
      && FrontierHolds(hash, leaves, frontier[..])
      && (forall k | 0 <= k < |leaves| <= k + ROOT_HISTORY_SIZE ::
            Root(hash, depth, leaves[..k]) == Some(rootHistory[k % ROOT_HISTORY_SIZE]))
      && (forall s | |leaves| <= s < ROOT_HISTORY_SIZE :: rootHistory[s] == 0)
    }

    constructor (hash: Hash, depth: nat, zeros: seq<Digest>)
      requires ZeroTable(hash, depth, zeros)
      ensures Valid() && fresh(frontier) && fresh(rootHistory)
      ensures this.hash == hash && this.depth == depth && leaves == []
    {
      this.hash := hash;
      this.depth := depth;
      this.zeros := zeros;
      leaves := [];
      frontier := new Digest[depth](_ => 0);
      rootHistory := new Digest[ROOT_HISTORY_SIZE](_ => 0);
      rootHistoryIndex := 0;
      currentRoot := zeros[depth];
      nextIndex := 0;
      EmptyNodeIsZero(hash, depth, zeros, depth, 0);
    }

    /** Records the outgoing root in the ring, then installs the new one. */
    method UpdateRoot(newRoot: Digest)
      requires rootHistory.Length == ROOT_HISTORY_SIZE
      modifies this`currentRoot, this`rootHistoryIndex, rootHistory
      ensures currentRoot == newRoot && rootHistoryIndex == old(rootHistoryIndex) + 1
      ensures rootHistory[..] == old(rootHistory[..])[old(rootHistoryIndex) % ROOT_HISTORY_SIZE := old(currentRoot)]
    {
      var index := rootHistoryIndex;
      rootHistory[index % ROOT_HISTORY_SIZE] := currentRoot;
      rootHistoryIndex := index + 1;
      currentRoot := newRoot;
    }

    /** On an error the frontier may be left dirty; everything else in the account is as it was. */
    method InsertLeaf(commitment: Digest) returns (r: Result<nat, InsertError>)
      requires Valid()
      modifies this, frontier, rootHistory
      ensures r.Ok? <==> |old(leaves)| < Pow2(depth) && Root(hash, depth, old(leaves) + [commitment]).Some?
      ensures r.Ok? ==> r.value == |old(leaves)|
      ensures r == InsertOutcome(hash, depth, old(leaves), commitment)
      ensures r.Ok? ==> Valid() && leaves == old(leaves) + [commitment]
      ensures r.Err? ==> unchanged(this) && rootHistory[..] == old(rootHistory[..])
    {
      var leafIndex := nextIndex;
      if leafIndex >= Pow2(depth) {
        return Err(TreeFull);
      }
      ghost var before := frontier[..];
      ghost var ring := rootHistory[..];
      HoldsThenServes(hash, leaves, before);
      var root := Climb(hash, depth, zeros, frontier, leaves, leafIndex, commitment);
      assert rootHistory[..] == ring;
      if root.None? {
        return Err(HashFailed);
      }
      FrontierAfterSuccess(hash, depth, leaves, commitment, before, frontier[..]);
      UpdateRoot(root.value);
      nextIndex := leafIndex + 1;
      leaves := leaves + [commitment];
      RingAdvances(hash, depth, old(leaves), commitment, ring, rootHistory[..], old(currentRoot));
      assert leaves == old(leaves) + [commitment];
      r := Ok(leafIndex);
    }

    /**
     An instruction that inserts the given leaves. Every handler passes the error of insert_leaf on, so on a failure the
     runtime restores the account as it was before the instruction, earlier leaves of the same instruction included.
     */
    method Transact(commitments: seq<Digest>) returns (ok: bool)
      requires Valid()
      modifies this, frontier, rootHistory
      ensures Valid()
      ensures ok <==> AllInsertable(hash, depth, old(leaves), commitments)
      ensures ok ==> leaves == old(leaves) + commitments
      ensures !ok ==>
                && leaves == old(leaves) && currentRoot == old(currentRoot) && nextIndex == old(nextIndex)
                && rootHistoryIndex == old(rootHistoryIndex)
                && frontier[..] == old(frontier[..]) && rootHistory[..] == old(rootHistory[..])
    {
      var slots, ring := frontier[..], rootHistory[..];
      var root, index, ringIndex := currentRoot, nextIndex, rootHistoryIndex;
      for i := 0 to |commitments|
        invariant Valid() && leaves == old(leaves) + commitments[..i]
        invariant forall k | 0 <= k < i :: InsertableAt(hash, depth, old(leaves), commitments, k)
      {
        assert commitments[..i + 1] == commitments[..i] + [commitments[i]];
        var r := InsertLeaf(commitments[i]);
        if r.Err? {
          assert !InsertableAt(hash, depth, old(leaves), commitments, i);
          currentRoot, nextIndex, rootHistoryIndex := root, index, ringIndex;
          leaves := old(leaves);
          Restore(frontier, slots);
          Restore(rootHistory, ring);
          return false;
        }
        assert leaves == old(leaves) + commitments[..i + 1];
      }
      assert commitments[..|commitments|] == commitments;
      ok := true;
    }

    /** The last leaf's opening, as the scripts compute it from the account alone. */
    method OpenLast() returns (siblings: seq<Digest>, indices: seq<nat>)
      requires Valid() && nextIndex > 0
      ensures siblings == PathSiblings(hash, depth, leaves, nextIndex - 1) && indices == PathBits(depth, nextIndex - 1)
      ensures Fold(hash, leaves[nextIndex - 1], siblings, indices, depth) == Some(currentRoot)
    {
      siblings, indices := GetMerkleProofFromFrontier(depth, zeros, nextIndex - 1, frontier[..]);
      HoldsThenServes(hash, leaves, frontier[..]);
      FrontierOpensLastLeaf(hash, depth, zeros, leaves, frontier[..]);
      OpeningFoldsToRoot(hash, depth, leaves, nextIndex - 1);
    }

    /**
     The window of accepted roots: exactly the current root and the roots before each of the last 100 insertions,
     plus the all-zero digest as long as fewer than 100 leaves were inserted and the ring still has unused slots.
     */
    method IsValidRoot(root: Digest) returns (valid: bool)
      requires Valid()
      ensures valid <==> IsRecentRoot(hash, depth, leaves, root) || (|leaves| < ROOT_HISTORY_SIZE && root == 0)
    {
      assert leaves[..|leaves|] == leaves;
      if currentRoot == root {
        return true;
      }
      for i := 0 to ROOT_HISTORY_SIZE
        invariant forall s | 0 <= s < i :: rootHistory[s] != root
      {
        if rootHistory[i] == root {
          RingSlotIsRecent(i);
          return true;
        }
      }
      valid := false;
      assert !IsRecentRoot(hash, depth, leaves, root) by {
        forall k: nat | k <= |leaves| <= k + ROOT_HISTORY_SIZE
          ensures Root(hash, depth, leaves[..k]) != Some(root)
        {
          if k < |leaves| {
            assert rootHistory[k % ROOT_HISTORY_SIZE] != root;
          }
        }
      }
      assert |leaves| < ROOT_HISTORY_SIZE ==> rootHistory[|leaves|] == 0;
    }

    /** Every ring slot holds a recent root or is still unused. */
    lemma RingSlotIsRecent(s: nat)
      requires Valid() && s < ROOT_HISTORY_SIZE
      ensures IsRecentRoot(hash, depth, leaves, rootHistory[s])
              || (|leaves| < ROOT_HISTORY_SIZE && rootHistory[s] == 0)
    {
      var n := |leaves|;
      if s < n {
        // the largest k < n with k % 100 == s
        var k := n - 1 - (n - 1 - s) % ROOT_HISTORY_SIZE;
        assert k % ROOT_HISTORY_SIZE == s;
        assert 0 <= k < n <= k + ROOT_HISTORY_SIZE;
        assert Root(hash, depth, leaves[..k]) == Some(rootHistory[s]);
      }
    }
  }

  /** Overwriting the slot of the outgoing root moves the window by one. */
  lemma RingAdvances(h: Hash, depth: nat, leaves: seq<Digest>, x: Digest,
                     before: seq<Digest>, after: seq<Digest>, outgoing: Digest)
    requires |before| == ROOT_HISTORY_SIZE && Root(h, depth, leaves) == Some(outgoing)
    requires after == before[|leaves| % ROOT_HISTORY_SIZE := outgoing]
    requires forall k | 0 <= k < |leaves| <= k + ROOT_HISTORY_SIZE ::
               Root(h, depth, leaves[..k]) == Some(before[k % ROOT_HISTORY_SIZE])
    requires forall s | |leaves| <= s < ROOT_HISTORY_SIZE :: before[s] == 0
    ensures forall k | 0 <= k < |leaves| + 1 <= k + ROOT_HISTORY_SIZE ::
              Root(h, depth, (leaves + [x])[..k]) == Some(after[k % ROOT_HISTORY_SIZE])
    ensures forall s | |leaves| + 1 <= s < ROOT_HISTORY_SIZE :: after[s] == 0
  {
    var n := |leaves|;
    forall k | 0 <= k < n + 1 <= k + ROOT_HISTORY_SIZE
      ensures Root(h, depth, (leaves + [x])[..k]) == Some(after[k % ROOT_HISTORY_SIZE])
    {
      assert (leaves + [x])[..k] == leaves[..k];
      if k == n {
        assert leaves[..n] == leaves;
      } else {
        assert k % ROOT_HISTORY_SIZE != n % ROOT_HISTORY_SIZE;
      }
    }
  }

  method Restore(target: array<Digest>, saved: seq<Digest>)
    requires target.Length == |saved|
    modifies target
    ensures target[..] == saved
  {
    forall i | 0 <= i < target.Length {
      target[i] := saved[i];
    }
  }

  ghost predicate InsertableAt(h: Hash, depth: nat, leaves: seq<Digest>, xs: seq<Digest>, k: nat)
    requires k < |xs|
  {
    InsertOutcome(h, depth, leaves + xs[..k], xs[k]).Ok?
  }

  /** Each of the leaves can be inserted after the ones before it. */
  ghost predicate AllInsertable(h: Hash, depth: nat, leaves: seq<Digest>, xs: seq<Digest>) {
    forall k | 0 <= k < |xs| :: InsertableAt(h, depth, leaves, xs, k)
  }

  /** The leaves after a sequence of instructions; one that fails leaves them alone. */
  ghost function LeavesAfterAll(h: Hash, depth: nat, leaves: seq<Digest>, batches: seq<seq<Digest>>): seq<Digest> {
    if batches == [] then leaves else
      var before, last := LeavesAfterAll(h, depth, leaves, batches[..|batches| - 1]), batches[|batches| - 1];
      if AllInsertable(h, depth, before, last) then before + last else before
  }

  /**
   After every sequence of instructions, failed ones included, the account holds exactly the leaves of those that
   succeeded, and its frontier alone opens the last of them to the current root.
   */
  method LastLeafOpensAfterEveryHistory(account: CommitmentTree, batches: seq<seq<Digest>>)
    returns (siblings: seq<Digest>, indices: seq<nat>)
    requires account.Valid()
    modifies account, account.frontier, account.rootHistory
    ensures account.Valid()
    ensures account.leaves == LeavesAfterAll(account.hash, account.depth, old(account.leaves), batches)
    ensures account.leaves != [] ==>
              && siblings == PathSiblings(account.hash, account.depth, account.leaves, |account.leaves| - 1)
              && indices == PathBits(account.depth, |account.leaves| - 1)
              && Fold(account.hash, account.leaves[|account.leaves| - 1], siblings, indices, account.depth)
                 == Some(account.currentRoot)
  {
    for i := 0 to |batches|
      invariant account.Valid()
      invariant account.leaves == LeavesAfterAll(account.hash, account.depth, old(account.leaves), batches[..i])
    {
      assert batches[..i + 1][..i] == batches[..i];
      var _ := account.Transact(batches[i]);
    }
    assert batches[..|batches|] == batches;
    siblings, indices := [], [];
    if account.nextIndex > 0 {
      siblings, indices := account.OpenLast();
    }
  }
}

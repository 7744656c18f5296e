/**
 The one definition every tree in the repository has to agree with: the complete binary tree of a given depth
 over a list of leaves padded with empty leaves. The two-to-one hash is a parameter and is partial, because
 `poseidon2_hash` can fail.
 */
module MerkleSpec {
  import opened Common
  import opened Bits

  /** A 32-byte big-endian field element, read as a number; the empty leaf is 0. */
  type Digest = nat

  type Hash = (Digest, Digest) -> Option<Digest>

  /** Entry `k` is the digest of an empty subtree of height `k` (the ZERO_HASHES table). */
  ghost predicate ZeroTable(h: Hash, depth: nat, zeros: seq<Digest>) {
    && |zeros| == depth + 1
    && zeros[0] == 0
    && forall k | 0 <= k < depth :: h(zeros[k], zeros[k]) == Some(zeros[k + 1])
  }

  function LeafAt(leaves: seq<Digest>, j: nat): Digest {
    if j < |leaves| then leaves[j] else 0
  }

  function HashPair(h: Hash, left: Option<Digest>, right: Option<Digest>): Option<Digest> {
    if left.Some? && right.Some? then h(left.value, right.value) else None
  }

  /** Digest of node `i` of level `k`, or None if some hash below it fails. */
  function Node(h: Hash, leaves: seq<Digest>, k: nat, i: nat): Option<Digest> {
    if k == 0 then Some(LeafAt(leaves, i))
    else HashPair(h, Node(h, leaves, k - 1, 2 * i), Node(h, leaves, k - 1, 2 * i + 1))
  }

  function Root(h: Hash, depth: nat, leaves: seq<Digest>): Option<Digest> {
    Node(h, leaves, depth, 0)
  }

  /** Three leaves in a tree of depth 2: pairs are hashed left to right, and the missing fourth leaf is 0. */
  lemma RootOfThree(h: Hash, a: Digest, b: Digest, c: Digest)
    ensures Root(h, 2, [a, b, c]) == HashPair(h, h(a, b), h(c, 0))
    ensures forall x, y :: HashPair(h, Some(x), Some(y)) == h(x, y)
  {
    var leaves := [a, b, c];
    assert Node(h, leaves, 1, 0) == h(a, b) by {
      assert Node(h, leaves, 0, 0) == Some(a) && Node(h, leaves, 0, 1) == Some(b);
    }
    assert Node(h, leaves, 1, 1) == h(c, 0) by {
      assert Node(h, leaves, 0, 2) == Some(c) && Node(h, leaves, 0, 3) == Some(0);
    }
  }

  /** A node with index `i` and its sibling, hashed in tree order, give the parent. */
  lemma NodeParent(h: Hash, leaves: seq<Digest>, k: nat, i: nat)
    ensures i % 2 == 0 ==>
              Node(h, leaves, k + 1, i / 2) == HashPair(h, Node(h, leaves, k, i), Node(h, leaves, k, i + 1))
    ensures i % 2 == 1 ==>
              Node(h, leaves, k + 1, i / 2) == HashPair(h, Node(h, leaves, k, i - 1), Node(h, leaves, k, i))
  {
    if i % 2 == 0 {
      assert i == 2 * (i / 2);
    } else {
      assert i == 2 * (i / 2) + 1;
    }
  }

  /** A node depends only on the leaves below it. */
  lemma {:induction false} NodeDependsOnLeavesBelow(h: Hash, a: seq<Digest>, b: seq<Digest>, k: nat, i: nat)
    requires forall j: nat | Shr(j, k) == i :: LeafAt(a, j) == LeafAt(b, j)
    ensures Node(h, a, k, i) == Node(h, b, k, i)
  {
    if k == 0 {
      assert Shr(i, 0) == i;
    } else {
      forall j: nat | Shr(j, k - 1) == 2 * i || Shr(j, k - 1) == 2 * i + 1
        ensures LeafAt(a, j) == LeafAt(b, j)
      {
        assert Shr(j, k) == i;
      }
      NodeDependsOnLeavesBelow(h, a, b, k - 1, 2 * i);
      NodeDependsOnLeavesBelow(h, a, b, k - 1, 2 * i + 1);
    }
  }

  lemma {:induction false} EmptyNodeIsZero(h: Hash, depth: nat, zeros: seq<Digest>, k: nat, i: nat)
    requires ZeroTable(h, depth, zeros) && k <= depth
    ensures Node(h, [], k, i) == Some(zeros[k])
  {
    if k > 0 {
      EmptyNodeIsZero(h, depth, zeros, k - 1, 2 * i);
      EmptyNodeIsZero(h, depth, zeros, k - 1, 2 * i + 1);
    }
  }

  /** A node strictly to the right of the last leaf's ancestor is the digest of an empty subtree. */
  lemma NodePastEndIsZero(h: Hash, depth: nat, zeros: seq<Digest>, leaves: seq<Digest>, k: nat, i: nat)
    requires ZeroTable(h, depth, zeros) && k <= depth
    requires |leaves| > 0 ==> Shr(|leaves| - 1, k) < i
    ensures Node(h, leaves, k, i) == Some(zeros[k])
  {
    forall j: nat | Shr(j, k) == i
      ensures LeafAt(leaves, j) == LeafAt([], j)
    {
      if j < |leaves| {
        ShrMonotone(j, |leaves| - 1, k);
      }
    }
    NodeDependsOnLeavesBelow(h, leaves, [], k, i);
    EmptyNodeIsZero(h, depth, zeros, k, i);
  }

  /** Appending a leaf leaves every node to the left of the new leaf's ancestor alone. */
  lemma NodeBeforeAppendUnchanged(h: Hash, leaves: seq<Digest>, x: Digest, k: nat, i: nat)
    requires i < Shr(|leaves|, k)
    ensures Node(h, leaves + [x], k, i) == Node(h, leaves, k, i)
  {
    forall j: nat | Shr(j, k) == i
      ensures LeafAt(leaves + [x], j) == LeafAt(leaves, j)
    {
      if j >= |leaves| {
        ShrMonotone(|leaves|, j, k);
      }
    }
    NodeDependsOnLeavesBelow(h, leaves + [x], leaves, k, i);
  }

  /** If a node has a digest then so has every node below it: each pair below was hashed without failure. */
  lemma {:induction false} NodesBelowAreDefined(h: Hash, leaves: seq<Digest>, k: nat, i: nat, d: nat)
    requires Node(h, leaves, k + d, Shr(i, d)).Some?
    ensures Node(h, leaves, k, i).Some?
  {
    if d > 0 {
      NodeParent(h, leaves, k + d - 1, Shr(i, d - 1));
      NodesBelowAreDefined(h, leaves, k, i, d - 1);
    }
  }

  /** Under a defined root every node on a path from a leaf slot is defined, and so is its sibling. */
  lemma PathIsDefined(h: Hash, depth: nat, leaves: seq<Digest>, i: nat, k: nat)
    requires Root(h, depth, leaves).Some? && i < Pow2(depth) && k <= depth
    ensures Node(h, leaves, k, Shr(i, k)).Some?
    ensures k < depth ==> Node(h, leaves, k, Sibling(Shr(i, k))).Some?
  {
    hide Node, Pow2;
    ShrIsZero(i, depth);
    ShrCompose(i, k, depth - k);
    NodesBelowAreDefined(h, leaves, k, Shr(i, k), depth - k);
    if k < depth {
      ShrCompose(i, k + 1, depth - k - 1);
      NodesBelowAreDefined(h, leaves, k + 1, Shr(i, k + 1), depth - k - 1);
      NodeParent(h, leaves, k, Shr(i, k));
    }
  }
}

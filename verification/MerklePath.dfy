/** Openings of the padded tree: the siblings of a leaf, and the fold that recomputes the root from them. */
module MerklePath {
  import opened Common
  import opened Bits
  import opened MerkleSpec

  datatype MerkleProof = MerkleProof(
    leafIndex: nat,
    commitment: Digest,
    root: Digest,
    siblings: seq<Digest>,
    indices: seq<nat>)

  /** The digest of a node, 0 where a hash fails. */
  function DigestAt(h: Hash, leaves: seq<Digest>, k: nat, i: nat): Digest {
    var d := Node(h, leaves, k, i);
    if d.Some? then d.value else 0
  }

  /** Bit `k` of `i`: whether the path from leaf slot `i` is a right child at level `k`. */
  function Bit(i: nat, k: nat): (b: nat)
    ensures b < 2
  {
    Shr(i, k) % 2
  }

  function PathBits(depth: nat, i: nat): (bits: seq<nat>)
    ensures |bits| == depth
    ensures forall k | 0 <= k < depth :: bits[k] == Bit(i, k)
  {
    if depth == 0 then [] else PathBits(depth - 1, i) + [Bit(i, depth - 1)]
  }

  /** Digest of the sibling of the path from leaf slot `i`, at level `k`. */
  function SiblingDigest(h: Hash, leaves: seq<Digest>, i: nat, k: nat): Digest {
    DigestAt(h, leaves, k, Sibling(Shr(i, k)))
  }

  function PathSiblings(h: Hash, depth: nat, leaves: seq<Digest>, i: nat): (siblings: seq<Digest>)
    ensures |siblings| == depth
    ensures forall k | 0 <= k < depth :: siblings[k] == SiblingDigest(h, leaves, i, k)
  {
    if depth == 0 then [] else PathSiblings(h, depth - 1, leaves, i) + [SiblingDigest(h, leaves, i, depth - 1)]
  }

  /** The opening a caller must be given for index `i`, if there is a leaf there. */
  function ProofOf(h: Hash, depth: nat, leaves: seq<Digest>, i: nat): Option<MerkleProof> {
    if i < |leaves| then
      Some(MerkleProof(i, leaves[i], DigestAt(h, leaves, depth, 0),
                       PathSiblings(h, depth, leaves, i), PathBits(depth, i)))
    else None
  }

  /** One round of recomputing a root: the bit says on which side the running digest goes. */
  function FoldOnce(h: Hash, below: Option<Digest>, sibling: Digest, bit: nat): Option<Digest> {
    if bit == 0 then HashPair(h, below, Some(sibling)) else HashPair(h, Some(sibling), below)
  }

  /** The first `k` rounds of recomputing a root from a leaf. */
  function Fold(h: Hash, leaf: Digest, siblings: seq<Digest>, indices: seq<nat>, k: nat): Option<Digest>
    requires k <= |siblings| && k <= |indices|
  {
    if k == 0 then Some(leaf)
    else FoldOnce(h, Fold(h, leaf, siblings, indices, k - 1), siblings[k - 1], indices[k - 1])
  }

  method VerifyMerkleProof(h: Hash, depth: nat, leaf: Digest, siblings: seq<Digest>, indices: seq<nat>,
                           expectedRoot: Digest)
    returns (ok: Option<bool>)
    requires |siblings| == depth && |indices| == depth
    ensures ok.None? <==> Fold(h, leaf, siblings, indices, depth).None?
    ensures ok == Some(true) <==> Fold(h, leaf, siblings, indices, depth) == Some(expectedRoot)
  {
    var hash := Some(leaf);
    for level := 0 to depth
      invariant hash == Fold(h, leaf, siblings, indices, level)
    {
      if indices[level] == 0 {
        hash := HashPair(h, hash, Some(siblings[level]));
      } else {
        hash := HashPair(h, Some(siblings[level]), hash);
      }
    }
    ok := if hash.None? then None else Some(hash.value == expectedRoot);
  }

  /** A round with the right sibling and bit climbs one level. */
  lemma RoundClimbs(h: Hash, leaves: seq<Digest>, k: nat, i: nat, sibling: Digest)
    requires Node(h, leaves, k, Sibling(i)) == Some(sibling)
    ensures FoldOnce(h, Node(h, leaves, k, i), sibling, i % 2) == Node(h, leaves, k + 1, i / 2)
  {
    NodeParent(h, leaves, k, i);
  }

  /** The siblings and bits are those of the path from leaf slot `i`. */
  ghost predicate IsPath(h: Hash, leaves: seq<Digest>, i: nat, siblings: seq<Digest>, indices: seq<nat>) {
    && |siblings| == |indices|
    && (forall k | 0 <= k < |siblings| :: Node(h, leaves, k, Sibling(Shr(i, k))) == Some(siblings[k]))
    && (forall k | 0 <= k < |indices| :: indices[k] == Bit(i, k))
  }

  /** The first `k` rounds climb from leaf slot `i` to its ancestor. */
  lemma {:induction false} FoldReachesAncestor(h: Hash, leaves: seq<Digest>, i: nat,
                                               siblings: seq<Digest>, indices: seq<nat>, k: nat)
    requires IsPath(h, leaves, i, siblings, indices) && k <= |siblings|
    ensures Fold(h, LeafAt(leaves, i), siblings, indices, k) == Node(h, leaves, k, Shr(i, k))
  {
    if k > 0 {
      FoldReachesAncestor(h, leaves, i, siblings, indices, k - 1);
      RoundClimbs(h, leaves, k - 1, Shr(i, k - 1), siblings[k - 1]);
    }
  }

  /** Completeness: every slot of a tree with a root, empty slots included, opens to that root. */
  lemma OpeningFoldsToRoot(h: Hash, depth: nat, leaves: seq<Digest>, i: nat)
    requires Root(h, depth, leaves).Some? && i < Pow2(depth)
    ensures IsPath(h, leaves, i, PathSiblings(h, depth, leaves, i), PathBits(depth, i))
    ensures Fold(h, LeafAt(leaves, i), PathSiblings(h, depth, leaves, i), PathBits(depth, i), depth)
            == Root(h, depth, leaves)
  {
    var siblings, indices := PathSiblings(h, depth, leaves, i), PathBits(depth, i);
    forall k | 0 <= k < depth
      ensures Node(h, leaves, k, Sibling(Shr(i, k))) == Some(siblings[k])
    {
      PathIsDefined(h, depth, leaves, i, k);
    }
    FoldReachesAncestor(h, leaves, i, siblings, indices, depth);
    ShrIsZero(i, depth);
  }
}

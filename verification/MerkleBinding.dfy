/** What a root commits to, when distinct pairs have distinct hashes. */
module MerkleBinding {
  import opened Bits
  import opened MerkleSpec
  import opened MerklePath

  ghost predicate Injective(h: Hash) {
    forall a, b, c, d :: h(a, b).Some? && h(a, b) == h(c, d) ==> a == c && b == d
  }

  ghost predicate EqualUpToTrailingZeros(a: seq<Digest>, b: seq<Digest>) {
    && (forall j | 0 <= j < |a| && j < |b| :: a[j] == b[j])
    && (forall j | |a| <= j < |b| :: b[j] == 0)
    && (forall j | |b| <= j < |a| :: a[j] == 0)
  }

  lemma {:induction false} NodeBinds(h: Hash, a: seq<Digest>, b: seq<Digest>, k: nat, i: nat, j: nat)
    requires Injective(h) && Shr(j, k) == i
    requires Node(h, a, k, i).Some? && Node(h, a, k, i) == Node(h, b, k, i)
    ensures LeafAt(a, j) == LeafAt(b, j)
  {
    if k > 0 {
      NodeBinds(h, a, b, k - 1, Shr(j, k - 1), j);
    }
  }

  /** Two leaf lists have the same root exactly when they are equal up to trailing empty leaves. */
  lemma RootBinds(h: Hash, depth: nat, a: seq<Digest>, b: seq<Digest>)
    requires Injective(h) && |a| <= Pow2(depth) && |b| <= Pow2(depth)
    requires Root(h, depth, a).Some?
    ensures Root(h, depth, a) == Root(h, depth, b) <==> EqualUpToTrailingZeros(a, b)
  {
    if Root(h, depth, a) == Root(h, depth, b) {
      forall j: nat | j < |a| || j < |b|
        ensures LeafAt(a, j) == LeafAt(b, j)
      {
        ShrIsZero(j, depth);
        NodeBinds(h, a, b, depth, 0, j);
      }
      assert forall j: nat | j < |a| && j < |b| :: LeafAt(a, j) == a[j] && LeafAt(b, j) == b[j];
      assert forall j: nat | |a| <= j < |b| :: LeafAt(a, j) == 0 && LeafAt(b, j) == b[j];
      assert forall j: nat | |b| <= j < |a| :: LeafAt(b, j) == 0 && LeafAt(a, j) == a[j];
    }
    if EqualUpToTrailingZeros(a, b) {
      forall j: nat ensures LeafAt(a, j) == LeafAt(b, j) {}
      NodeDependsOnLeavesBelow(h, a, b, depth, 0);
    }
  }

  /** Two openings along the same bits that reach the same digest are the same opening. */
  lemma {:induction false} FoldBinds(h: Hash, x: Digest, s: seq<Digest>, y: Digest, t: seq<Digest>, bits: seq<nat>, k: nat)
    requires Injective(h) && k <= |s| && k <= |t| && k <= |bits|
    requires Fold(h, x, s, bits, k).Some? && Fold(h, x, s, bits, k) == Fold(h, y, t, bits, k)
    ensures x == y && s[..k] == t[..k]
  {
    if k > 0 {
      FoldBinds(h, x, s, y, t, bits, k - 1);
      assert s[..k] == s[..k - 1] + [s[k - 1]] && t[..k] == t[..k - 1] + [t[k - 1]];
    }
  }

  /** A verifier that accepts along the bits of slot `i` has been shown the leaf in that slot, and conversely. */
  lemma AcceptedExactlyWhenMember(h: Hash, depth: nat, leaves: seq<Digest>, i: nat, x: Digest, siblings: seq<Digest>)
    requires Injective(h) && Root(h, depth, leaves).Some? && i < Pow2(depth) && |siblings| == depth
    ensures Fold(h, x, siblings, PathBits(depth, i), depth) == Root(h, depth, leaves)
            <==> x == LeafAt(leaves, i) && siblings == PathSiblings(h, depth, leaves, i)
  {
    OpeningFoldsToRoot(h, depth, leaves, i);
    var expected := PathSiblings(h, depth, leaves, i);
    if Fold(h, x, siblings, PathBits(depth, i), depth) == Root(h, depth, leaves) {
      FoldBinds(h, x, siblings, LeafAt(leaves, i), expected, PathBits(depth, i), depth);
      assert siblings[..depth] == siblings && expected[..depth] == expected;
    }
  }
}

/** The dense reference tree of the end-to-end scripts (scripts/e2e/shared.ts). */
module DenseTree {
  import opened Common
  import opened Bits
  import opened MerkleSpec
  import opened MerklePath
  import opened MerkleTreeModel

  /** The table of empty-subtree digests, or None when the hash fails on an empty subtree. */
  method GetZeroHashes(h: Hash, depth: nat) returns (zeros: Option<seq<Digest>>)
    ensures zeros.Some? ==> ZeroTable(h, depth, zeros.value)
    ensures zeros.None? ==> forall table :: !ZeroTable(h, depth, table)
  {
    var table: seq<Digest> := [0];
    for i := 1 to depth + 1
      invariant ZeroTable(h, i - 1, table)
    {
      var next := h(table[i - 1], table[i - 1]);
      if next.None? {
        forall other: seq<Digest> ensures ZeroTable(h, depth, other) ==> next == Some(other[i]) {
          if ZeroTable(h, depth, other) {
            ZeroTableIsUnique(h, i - 1, table, depth, other);
          }
        }
        return None;
      }
      table := table + [next.value];
    }
    zeros := Some(table);
  }

  lemma {:induction false} ZeroTableIsUnique(h: Hash, d: nat, a: seq<Digest>, e: nat, b: seq<Digest>)
    requires ZeroTable(h, d, a) && ZeroTable(h, e, b) && d <= e
    ensures a == b[..d + 1]
    ensures d < e ==> h(a[d], a[d]) == Some(b[d + 1])
  {
    if d > 0 {
      ZeroTableIsUnique(h, d - 1, a[..d], e, b);
      assert a[d - 1] == a[..d][d - 1] == b[d - 1];
    }
  }

  /** Nodes stored at a level: all 2^depth slots, or more if the caller passes more leaves than that. */
  function LayerLength(depth: nat, leafCount: nat, k: nat): nat {
    if k == 0 then Max(Pow2(depth), leafCount) else (LayerLength(depth, leafCount, k - 1) + 1) / 2
  }

  lemma {:induction false} LayersCoverLeaves(depth: nat, leafCount: nat, j: nat, k: nat)
    requires j < Max(Pow2(depth), leafCount)
    ensures Shr(j, k) < LayerLength(depth, leafCount, k)
  {
    if k > 0 {
      LayersCoverLeaves(depth, leafCount, j, k - 1);
    }
  }

  /** With no more leaves than slots, every layer below the root has even length, so `?? ZERO[level]` never fires. */
  lemma {:induction false} FallbackNeverFires(depth: nat, leafCount: nat, k: nat)
    requires leafCount <= Pow2(depth) && k <= depth
    ensures LayerLength(depth, leafCount, k) == Pow2(depth - k)
    ensures k < depth ==> forall i | 0 <= i < LayerLength(depth, leafCount, k) && i % 2 == 0 ::
                i + 1 < LayerLength(depth, leafCount, k)
  {
    if k > 0 {
      FallbackNeverFires(depth, leafCount, k - 1);
    }
  }

  ghost predicate IsLayer(h: Hash, depth: nat, leaves: seq<Digest>, k: nat, layer: seq<Digest>) {
    && |layer| == LayerLength(depth, |leaves|, k)
    && forall i | 0 <= i < |layer| :: Node(h, leaves, k, i) == Some(layer[i])
  }

  ghost predicate IsDense(h: Hash, depth: nat, leaves: seq<Digest>, layers: seq<seq<Digest>>) {
    && |layers| == depth + 1
    && forall k | 0 <= k <= depth :: IsLayer(h, depth, leaves, k, layers[k])
  }

  lemma DenseParent(h: Hash, depth: nat, zeros: seq<Digest>, leaves: seq<Digest>, k: nat, layer: seq<Digest>, i: nat)
    requires ZeroTable(h, depth, zeros) && k < depth && IsLayer(h, depth, leaves, k, layer)
    requires 2 * i < |layer|
    ensures Node(h, leaves, k + 1, i) == h(layer[2 * i], GetOr(layer, 2 * i + 1, zeros[k]))
  {
    NodeParent(h, leaves, k, 2 * i);
    if 2 * i + 1 >= |layer| {
      NodePastLayerIsZero(h, depth, zeros, leaves, k);
    }
  }

  lemma NodePastLayerIsZero(h: Hash, depth: nat, zeros: seq<Digest>, leaves: seq<Digest>, k: nat)
    requires ZeroTable(h, depth, zeros) && k <= depth
    ensures Node(h, leaves, k, LayerLength(depth, |leaves|, k)) == Some(zeros[k])
  {
    if |leaves| > 0 {
      LayersCoverLeaves(depth, |leaves|, |leaves| - 1, k);
    }
    NodePastEndIsZero(h, depth, zeros, leaves, k, LayerLength(depth, |leaves|, k));
  }

  lemma {:induction false} LayerShrinks(depth: nat, leafCount: nat, k: nat, d: nat, i: nat)
    requires i < LayerLength(depth, leafCount, k)
    ensures Shr(i, d) < LayerLength(depth, leafCount, k + d)
  {
    if d > 0 {
      LayerShrinks(depth, leafCount, k, d - 1, i);
    }
  }

  lemma UndefinedNodeReachesTop(h: Hash, depth: nat, leaves: seq<Digest>, k: nat, i: nat)
    requires k <= depth && i < LayerLength(depth, |leaves|, k) && Node(h, leaves, k, i).None?
    ensures exists t :: 0 <= t < LayerLength(depth, |leaves|, depth) && Node(h, leaves, depth, t).None?
  {
    LayerShrinks(depth, |leaves|, k, depth - k, i);
    var t := Shr(i, depth - k);
    if Node(h, leaves, depth, t).Some? {
      NodesBelowAreDefined(h, leaves, k, i, depth - k);
    }
  }

  /** All layers, or None exactly when some stored top node cannot be hashed. */
  method BuildMerkleTree(h: Hash, depth: nat, zeros: seq<Digest>, leaves: seq<Digest>)
    returns (layers: Option<seq<seq<Digest>>>)
    requires ZeroTable(h, depth, zeros)
    ensures layers.Some? ==> IsDense(h, depth, leaves, layers.value)
    ensures layers.Some? <==>
            forall i | 0 <= i < LayerLength(depth, |leaves|, depth) :: Node(h, leaves, depth, i).Some?
  {
    var bottom := seq(Max(Pow2(depth), |leaves|), i requires 0 <= i => LeafAt(leaves, i));
    var built: seq<seq<Digest>> := [bottom];
    for level := 0 to depth
      invariant |built| == level + 1
      invariant forall k | 0 <= k <= level :: IsLayer(h, depth, leaves, k, built[k])
    {
      var layer := built[level];
      assert IsLayer(h, depth, leaves, level, layer);
      var next := ParentLevel(h, layer, zeros[level]);
      if next.None? {
        var i: nat :| 2 * i < |layer| && h(layer[2 * i], GetOr(layer, 2 * i + 1, zeros[level])).None?;
        DenseParent(h, depth, zeros, leaves, level, layer, i);
        UndefinedNodeReachesTop(h, depth, leaves, level + 1, i);
        return None;
      }
      forall i | 0 <= i < |next.value|
        ensures Node(h, leaves, level + 1, i) == Some(next.value[i])
      {
        DenseParent(h, depth, zeros, leaves, level, layer, i);
      }
      assert IsLayer(h, depth, leaves, level + 1, next.value);
      built := built + [next.value];
    }
    assert forall i | 0 <= i < LayerLength(depth, |leaves|, depth) :: Node(h, leaves, depth, i) == Some(built[depth][i]);
    layers := Some(built);
  }

  /** The sibling and bit lists are those of the padded tree, whichever slot is opened. */
  method GetProof(depth: nat, zeros: seq<Digest>, layers: seq<seq<Digest>>, index: nat,
                  ghost h: Hash, ghost leaves: seq<Digest>)
    returns (siblings: seq<Digest>, indices: seq<nat>)
    requires ZeroTable(h, depth, zeros) && IsDense(h, depth, leaves, layers) && index < |layers[0]|
    ensures siblings == PathSiblings(h, depth, leaves, index)
    ensures indices == PathBits(depth, index)
  {
    hide Node;
    siblings, indices := [], [];
    var i := index;
    for level := 0 to depth
      invariant i == Shr(index, level)
      invariant siblings == PathSiblings(h, level, leaves, index) && indices == PathBits(level, index)
    {
      LayersCoverLeaves(depth, |leaves|, index, level);
      assert IsLayer(h, depth, leaves, level, layers[level]);
      indices := indices + [i % 2];
      if i % 2 == 0 {
        NodePastLayerIsZero(h, depth, zeros, leaves, level);
        siblings := siblings + [GetOr(layers[level], i + 1, zeros[level])];
      } else {
        siblings := siblings + [layers[level][i - 1]];
      }
      i := i / 2;
    }
  }

  /** The sparse incremental tree and the dense one agree on the root and on every opening. */
  method BothBuildersAgree(h: Hash, depth: nat, zeros: seq<Digest>, leaves: seq<Digest>, index: nat)
    returns (sparse: Result<MerkleTree, InsertError>, dense: Option<seq<seq<Digest>>>,
             proof: Option<MerkleProof>, siblings: seq<Digest>, indices: seq<nat>)
    requires ZeroTable(h, depth, zeros) && index < |leaves|
    ensures sparse.Ok? <==> Insertable(h, depth, leaves)
    ensures sparse.Ok? ==> sparse.value.leaves == leaves && Root(h, depth, leaves) == Some(sparse.value.currentRoot)
    ensures sparse.Ok? ==> dense.Some?
    ensures sparse.Ok? ==> |dense.value| == depth + 1 && dense.value[depth] == [sparse.value.currentRoot]
    ensures sparse.Ok? ==> proof.Some? && proof.value.siblings == siblings && proof.value.indices == indices
  {
    sparse := BuildFromLeaves(h, depth, zeros, leaves);
    dense := BuildMerkleTree(h, depth, zeros, leaves);
    proof, siblings, indices := None, [], [];
    if sparse.Ok? {
      FallbackNeverFires(depth, |leaves|, depth);
      assert IsLayer(h, depth, leaves, depth, dense.value[depth]);
      proof := sparse.value.GetProofByIndex(index);
      siblings, indices := GetProof(depth, zeros, dense.value, index, h, leaves);
    }
  }

  /**
   The converse fails: the dense build never hashes the intermediate trees, so it can succeed where insertion one by
   one cannot. Here the digest 1 may be hashed with 2 but not with the empty leaf.
   */
  lemma DenseMaySucceedAlone(h: Hash)
    requires h == ((l: Digest, r: Digest) => if (l, r) == (1, 0) then None else Some(l + r))
    ensures ZeroTable(h, 1, [0, 0])
    ensures Root(h, 1, [1, 2]).Some? && !Insertable(h, 1, [1, 2])
  {
    var leaves: seq<Digest> := [1, 2];
    assert leaves[..1] == [1];
    assert Node(h, leaves[..1], 0, 0) == Some(1) && Node(h, leaves[..1], 0, 1) == Some(0);
    assert Node(h, leaves, 0, 0) == Some(1) && Node(h, leaves, 0, 1) == Some(2);
    assert Root(h, 1, leaves[..1]).None?;
  }
}

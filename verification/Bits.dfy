/** Right shifts of tree indices. All facts are by induction on the shift, so they need only linear arithmetic. */
module Bits {

  function Pow2(n: nat): (r: nat)
    ensures r > 0
  {
    if n == 0 then 1 else 2 * Pow2(n - 1)
  }

  /** `i >> k`: the index of the ancestor, `k` levels up, of the node with index `i`. */
  function Shr(i: nat, k: nat): nat {
    if k == 0 then i else Shr(i, k - 1) / 2
  }

  /** `i ^ 1`: the index of the other child of the same parent. */
  function Sibling(i: nat): (s: nat)
    ensures s / 2 == i / 2 && s != i
  {
    if i % 2 == 0 then i + 1 else i - 1
  }

  lemma {:induction false} ShrMonotone(i: nat, j: nat, k: nat)
    requires i <= j
    ensures Shr(i, k) <= Shr(j, k)
  {
    if k > 0 {
      ShrMonotone(i, j, k - 1);
    }
  }

  lemma {:induction false} ShrSuccessor(i: nat, k: nat)
    ensures Shr(i, k) <= Shr(i + 1, k) <= Shr(i, k) + 1
  {
    if k > 0 {
      ShrSuccessor(i, k - 1);
    }
  }

  lemma {:induction false} ShrCompose(i: nat, j: nat, k: nat)
    ensures Shr(Shr(i, j), k) == Shr(i, j + k)
  {
    if k > 0 {
      ShrCompose(i, j, k - 1);
    }
  }

  /** A shift by `k` clears the index exactly when the index fits in `k` bits. */
  lemma {:induction false} ShrIsZero(i: nat, k: nat)
    ensures Shr(i, k) == 0 <==> i < Pow2(k)
  {
    if k > 0 {
      ShrCompose(i, 1, k - 1);
      ShrIsZero(i / 2, k - 1);
      assert Shr(i, 1) == i / 2 by { assert Shr(i, 0) == i; }
    }
  }
}

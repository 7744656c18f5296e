/** The byte string whose SHA-256 identifies a verification key, as two scripts build it. */
module VkPreimage {
  import opened Common
  import opened FieldBytes

  datatype G1 = G1(x: nat, y: nat)

  /** Coordinates in the order of the JSON arrays: [[x0, x1], [y0, y1]]. */
  datatype G2 = G2(x0: nat, x1: nat, y0: nat, y1: nat)

  datatype VerifyingKey = VerifyingKey(alpha: G1, beta: G2, gamma: G2, delta: G2, ic: seq<G1>)

  // ---- Flat form (scripts/register-vk-hashes.ts) -------------------------------------------------------------

  function G1Parts(p: G1): seq<nat> {
    [p.x, p.y]
  }

  function G2Parts(p: G2): seq<nat> {
    [p.x0, p.x1, p.y0, p.y1]
  }

  function IcParts(ic: seq<G1>): (parts: seq<nat>)
    ensures |parts| == 2 * |ic|
  {
    if ic == [] then [] else IcParts(ic[..|ic| - 1]) + G1Parts(ic[|ic| - 1])
  }

  /** All coordinates in serialization order. */
  function Parts(k: VerifyingKey): (parts: seq<nat>)
    ensures |parts| == 14 + 2 * |k.ic|
  {
    G1Parts(k.alpha) + G2Parts(k.beta) + G2Parts(k.gamma) + G2Parts(k.delta) + IcParts(k.ic)
  }

  function Concat(parts: seq<nat>): bytes {
    if parts == [] then [] else Concat(parts[..|parts| - 1]) + Encode(parts[|parts| - 1])
  }

  function Flat(k: VerifyingKey): bytes {
    Concat(Parts(k))
  }

  method FlatPreimage(k: VerifyingKey) returns (out: bytes)
    ensures out == Flat(k)
  {
    hide Encode;
    var parts := G1Parts(k.alpha) + G2Parts(k.beta) + G2Parts(k.gamma) + G2Parts(k.delta);
    ghost var head := parts;
    for i := 0 to |k.ic|
      invariant parts == head + IcParts(k.ic[..i])
    {
      assert k.ic[..i + 1][..i] == k.ic[..i];
      parts := parts + [k.ic[i].x, k.ic[i].y];
    }
    assert k.ic[..|k.ic|] == k.ic;
    out := [];
    for i := 0 to |parts|
      invariant out == Concat(parts[..i])
    {
      assert parts[..i + 1][..i] == parts[..i];
      out := out + Encode(parts[i]);
    }
    assert parts[..|parts|] == parts;
  }

  // ---- Nested form (contracts/scripts/test-joinsplit-proof.ts) -----------------------------------------------

  /** `source.copy(target, at)`: what does not fit is cut off. */
  function CopyInto(target: bytes, at: nat, source: bytes): (r: bytes)
    requires at <= |target|
    ensures |r| == |target|
  {
    var n := Min(|source|, |target| - at);
    target[..at] + source[..n] + target[at + n..]
  }

  function SerializeG1(p: G1): (r: bytes)
    ensures |r| == 64
  {
    CopyInto(CopyInto(Repeat(0, 64), 0, Encode(p.x)), 32, Encode(p.y))
  }

  function SerializeG2(p: G2): (r: bytes)
    ensures |r| == 128
  {
    CopyInto(CopyInto(CopyInto(CopyInto(Repeat(0, 128), 0, Encode(p.x0)), 32, Encode(p.x1)), 64, Encode(p.y0)),
             96, Encode(p.y1))
  }

  function SerializeIc(ic: seq<G1>): (r: bytes)
    ensures |r| == 64 * |ic|
  {
    if ic == [] then [] else SerializeIc(ic[..|ic| - 1]) + SerializeG1(ic[|ic| - 1])
  }

  function Nested(k: VerifyingKey): (r: bytes)
    ensures |r| == 448 + 64 * |k.ic|
  {
    SerializeG1(k.alpha) + SerializeG2(k.beta) + SerializeG2(k.gamma) + SerializeG2(k.delta) + SerializeIc(k.ic)
  }

  method NestedPreimage(k: VerifyingKey) returns (out: bytes)
    ensures out == Nested(k)
  {
    hide SerializeG1, SerializeG2;
    out := SerializeG1(k.alpha) + SerializeG2(k.beta) + SerializeG2(k.gamma) + SerializeG2(k.delta);
    ghost var head := out;
    for i := 0 to |k.ic|
      invariant out == head + SerializeIc(k.ic[..i])
    {
      assert k.ic[..i + 1][..i] == k.ic[..i];
      out := out + SerializeG1(k.ic[i]);
    }
    assert k.ic[..|k.ic|] == k.ic;
  }

  // ---- The two agree -----------------------------------------------------------------------------------------

  lemma {:induction false} ConcatAppend(a: seq<nat>, b: seq<nat>)
    ensures Concat(a + b) == Concat(a) + Concat(b)
    decreases |b|
  {
    hide Encode;
    if b == [] {
      assert a + b == a;
    } else {
      var s := a + b;
      assert s[..|s| - 1] == a + b[..|b| - 1];
      ConcatAppend(a, b[..|b| - 1]);
    }
  }

  /** A coordinate that fits its 32-byte slot; a longer one would spill or be cut. */
  predicate Fits(v: nat) {
    |Encode(v)| == 32
  }

  predicate AllFit(parts: seq<nat>) {
    forall i | 0 <= i < |parts| :: Fits(parts[i])
  }

  /** Every coordinate has at most `digits` hex digits. */
  predicate AllBelow(parts: seq<nat>, digits: nat) {
    forall i | 0 <= i < |parts| :: parts[i] < Power(16, digits)
  }

  lemma PairConcat(x: nat, y: nat)
    ensures Concat([x, y]) == Encode(x) + Encode(y)
  {
    hide Encode;
    assert [x, y][..1] == [x] && [x][..0] == [];
    assert Concat([x]) == Concat([]) + Encode(x) == Encode(x);
  }

  lemma QuadConcat(p: G2)
    ensures Concat(G2Parts(p)) == Encode(p.x0) + Encode(p.x1) + Encode(p.y0) + Encode(p.y1)
  {
    hide Encode;
    assert G2Parts(p) == [p.x0, p.x1] + [p.y0, p.y1];
    ConcatAppend([p.x0, p.x1], [p.y0, p.y1]);
    PairConcat(p.x0, p.x1);
    PairConcat(p.y0, p.y1);
  }

  lemma G1Agrees(p: G1)
    requires Fits(p.x) && Fits(p.y)
    ensures SerializeG1(p) == Concat(G1Parts(p))
  {
    hide Encode;
    PairConcat(p.x, p.y);
    FillsSlot(Repeat(0, 64), 0, Encode(p.x));
    FillsSlot(CopyInto(Repeat(0, 64), 0, Encode(p.x)), 32, Encode(p.y));
  }

  /** A 32-byte source replaces exactly its slot. */
  lemma FillsSlot(target: bytes, at: nat, source: bytes)
    requires |source| == 32 && at + 32 <= |target|
    ensures CopyInto(target, at, source)[..at + 32] == target[..at] + source
  {
  }

  lemma G2Agrees(p: G2)
    requires Fits(p.x0) && Fits(p.x1) && Fits(p.y0) && Fits(p.y1)
    ensures SerializeG2(p) == Concat(G2Parts(p))
  {
    hide Encode;
    QuadConcat(p);
    var a := CopyInto(Repeat(0, 128), 0, Encode(p.x0));
    var b := CopyInto(a, 32, Encode(p.x1));
    var c := CopyInto(b, 64, Encode(p.y0));
    FillsSlot(Repeat(0, 128), 0, Encode(p.x0));
    FillsSlot(a, 32, Encode(p.x1));
    FillsSlot(b, 64, Encode(p.y0));
    FillsSlot(c, 96, Encode(p.y1));
  }

  lemma {:induction false} IcAgrees(ic: seq<G1>)
    requires AllFit(IcParts(ic))
    ensures SerializeIc(ic) == Concat(IcParts(ic))
  {
    hide Encode, SerializeG1, Fits, Concat;
    if ic != [] {
      var p, parts := ic[|ic| - 1], IcParts(ic);
      var shorter := IcParts(ic[..|ic| - 1]);
      assert parts == shorter + G1Parts(p);
      assert parts[|parts| - 2] == p.x && parts[|parts| - 1] == p.y;
      assert forall i | 0 <= i < |shorter| :: shorter[i] == parts[i];
      IcAgrees(ic[..|ic| - 1]);
      G1Agrees(p);
      ConcatAppend(shorter, G1Parts(p));
    } else {
      EmptyConcat();
    }
  }

  lemma EmptyConcat()
    ensures Concat([]) == []
  {
  }

  lemma {:induction false} ConcatLength(parts: seq<nat>)
    ensures |Concat(parts)| >= 32 * |parts|
    ensures |Concat(parts)| == 32 * |parts| <==> AllFit(parts)
  {
    hide Encode;
    if parts != [] {
      var shorter, last := parts[..|parts| - 1], parts[|parts| - 1];
      ConcatLength(shorter);
      EncodeLength(last);
      assert AllFit(parts) <==> AllFit(shorter) && Fits(last) by {
        assert forall i | 0 <= i < |shorter| :: shorter[i] == parts[i];
      }
    }
  }

  lemma KeyAgrees(k: VerifyingKey)
    requires AllFit(Parts(k))
    ensures Nested(k) == Flat(k)
  {
    hide Encode, SerializeG1, SerializeG2, Fits, Concat;
    var a, b, c, d, e := G1Parts(k.alpha), G2Parts(k.beta), G2Parts(k.gamma), G2Parts(k.delta), IcParts(k.ic);
    PartsFit(k);
    G1Agrees(k.alpha);
    G2Agrees(k.beta);
    G2Agrees(k.gamma);
    G2Agrees(k.delta);
    IcAgrees(k.ic);
    ConcatAppend(a + b + c + d, e);
    ConcatAppend(a + b + c, d);
    ConcatAppend(a + b, c);
    ConcatAppend(a, b);
  }

  lemma PartsFit(k: VerifyingKey)
    requires AllFit(Parts(k))
    ensures Fits(k.alpha.x) && Fits(k.alpha.y)
    ensures Fits(k.beta.x0) && Fits(k.beta.x1) && Fits(k.beta.y0) && Fits(k.beta.y1)
    ensures Fits(k.gamma.x0) && Fits(k.gamma.x1) && Fits(k.gamma.y0) && Fits(k.gamma.y1)
    ensures Fits(k.delta.x0) && Fits(k.delta.x1) && Fits(k.delta.y0) && Fits(k.delta.y1)
    ensures AllFit(IcParts(k.ic))
  {
    hide Fits;
    var p := Parts(k);
    assert p[0] == k.alpha.x && p[1] == k.alpha.y;
    assert p[2] == k.beta.x0 && p[3] == k.beta.x1 && p[4] == k.beta.y0 && p[5] == k.beta.y1;
    assert p[6] == k.gamma.x0 && p[7] == k.gamma.x1 && p[8] == k.gamma.y0 && p[9] == k.gamma.y1;
    assert p[10] == k.delta.x0 && p[11] == k.delta.x1 && p[12] == k.delta.y0 && p[13] == k.delta.y1;
    assert forall i | 0 <= i < |IcParts(k.ic)| :: IcParts(k.ic)[i] == p[14 + i];
  }

  /** The flat and the nested serializer give the same bytes exactly when no coordinate has more than 65 hex digits. */
  lemma SerializersAgreeIff(k: VerifyingKey)
    ensures Nested(k) == Flat(k) <==> AllBelow(Parts(k), 65)
  {
    hide Encode, Nested, Power, Parts, Concat;
    var parts := Parts(k);
    ConcatLength(parts);
    forall i | 0 <= i < |parts|
      ensures Fits(parts[i]) <==> parts[i] < Power(16, 65)
    {
      EncodeLength(parts[i]);
    }
    assert AllFit(parts) <==> AllBelow(parts, 65);
    if AllFit(parts) {
      KeyAgrees(k);
    }
  }

  // ---- The pre-image determines the key ----------------------------------------------------------------------

  lemma {:induction false} ConcatIsInjective(a: seq<nat>, b: seq<nat>)
    requires AllBelow(a, 64) && AllBelow(b, 64)
    requires |a| == |b| && Concat(a) == Concat(b)
    ensures a == b
    decreases |a|
  {
    hide Encode, Power, AllBelow, Concat;
    if a != [] {
      var n := |a| - 1;
      ConcatLast(a);
      ConcatLast(b);
      BelowSplits(a, 64);
      BelowSplits(b, 64);
      EncodeIsBigEndian(a[n]);
      EncodeIsBigEndian(b[n]);
      SplitEnd(Concat(a[..n]), Encode(a[n]), Concat(b[..n]), Encode(b[n]));
      ConcatIsInjective(a[..n], b[..n]);
      assert a == a[..n] + [a[n]] && b == b[..n] + [b[n]];
    }
  }

  lemma ConcatLast(a: seq<nat>)
    requires a != []
    ensures Concat(a) == Concat(a[..|a| - 1]) + Encode(a[|a| - 1])
  {
    hide Encode;
  }

  lemma BelowSplits(a: seq<nat>, digits: nat)
    requires a != [] && AllBelow(a, digits)
    ensures AllBelow(a[..|a| - 1], digits) && a[|a| - 1] < Power(16, digits)
  {
    hide Power;
  }

  lemma SplitEnd<T>(u: seq<T>, x: seq<T>, w: seq<T>, y: seq<T>)
    requires |x| == |y| && u + x == w + y
    ensures u == w && x == y
  {
    assert |u| == |w|;
    assert u == (u + x)[..|u|] && w == (w + y)[..|u|];
    assert x == (u + x)[|u|..] && y == (w + y)[|u|..];
  }

  lemma {:induction false} IcPartsInjective(a: seq<G1>, b: seq<G1>)
    requires IcParts(a) == IcParts(b)
    ensures a == b
    decreases |a|
  {
    assert |a| == |b|;
    if a != [] {
      var n := |a| - 1;
      SplitEnd(IcParts(a[..n]), G1Parts(a[n]), IcParts(b[..n]), G1Parts(b[n]));
      SamePoint(a[n], b[n]);
      IcPartsInjective(a[..n], b[..n]);
      assert a == a[..n] + [a[n]] && b == b[..n] + [b[n]];
    }
  }

  lemma SamePoint(p: G1, q: G1)
    requires G1Parts(p) == G1Parts(q)
    ensures p == q
  {
    assert G1Parts(p)[0] == p.x && G1Parts(p)[1] == p.y && G1Parts(q)[0] == q.x && G1Parts(q)[1] == q.y;
  }

  lemma PartsInjective(j: VerifyingKey, k: VerifyingKey)
    requires Parts(j) == Parts(k)
    ensures j == k
  {
    var p, q := Parts(j), Parts(k);
    assert p[0] == j.alpha.x && p[1] == j.alpha.y && q[0] == k.alpha.x && q[1] == k.alpha.y;
    assert p[2] == j.beta.x0 && p[3] == j.beta.x1 && p[4] == j.beta.y0 && p[5] == j.beta.y1;
    assert q[2] == k.beta.x0 && q[3] == k.beta.x1 && q[4] == k.beta.y0 && q[5] == k.beta.y1;
    assert p[6] == j.gamma.x0 && p[7] == j.gamma.x1 && p[8] == j.gamma.y0 && p[9] == j.gamma.y1;
    assert q[6] == k.gamma.x0 && q[7] == k.gamma.x1 && q[8] == k.gamma.y0 && q[9] == k.gamma.y1;
    assert p[10] == j.delta.x0 && p[11] == j.delta.x1 && p[12] == j.delta.y0 && p[13] == j.delta.y1;
    assert q[10] == k.delta.x0 && q[11] == k.delta.x1 && q[12] == k.delta.y0 && q[13] == k.delta.y1;
    assert p[14..] == IcParts(j.ic) && q[14..] == IcParts(k.ic);
    IcPartsInjective(j.ic, k.ic);
  }

  /** With coordinates below 2^256 equal pre-images mean equal keys, including the number of IC points. */
  lemma PreimageDeterminesKey(j: VerifyingKey, k: VerifyingKey)
    requires AllBelow(Parts(j), 64) && AllBelow(Parts(k), 64)
    ensures Nested(j) == Nested(k) <==> j == k
    ensures Flat(j) == Flat(k) <==> j == k
  {
    hide Encode, Power, Nested, Concat, Parts, AllBelow, AllFit;
    FieldsFit(Parts(j));
    FieldsFit(Parts(k));
    KeyAgrees(j);
    KeyAgrees(k);
    if Flat(j) == Flat(k) {
      ConcatLength(Parts(j));
      ConcatLength(Parts(k));
      ConcatIsInjective(Parts(j), Parts(k));
      PartsInjective(j, k);
    }
  }

  lemma FieldsFit(parts: seq<nat>)
    requires AllBelow(parts, 64)
    ensures AllFit(parts)
  {
    hide Encode, Power;
    forall i | 0 <= i < |parts| ensures Fits(parts[i]) {
      EncodeIsBigEndian(parts[i]);
    }
  }

  // ---- Layout ------------------------------------------------------------------------------------------------

  /** The i-th 32-byte word. */
  function Word(b: bytes, i: nat): bytes
    requires 32 * i + 32 <= |b|
  {
    b[32 * i..32 * i + 32]
  }

  lemma {:induction false} ConcatWord(parts: seq<nat>, i: nat)
    requires AllFit(parts) && i < |parts|
    ensures |Concat(parts)| == 32 * |parts| && Word(Concat(parts), i) == Encode(parts[i])
    decreases |parts|
  {
    hide Encode, Concat;
    var n := |parts| - 1;
    var front, last := Concat(parts[..n]), Encode(parts[n]);
    ConcatLast(parts);
    assert Fits(parts[n]);
    assert AllFit(parts[..n]);
    if n == 0 {
      ConcatNothing(parts[..n]);
    } else {
      ConcatWord(parts[..n], if i < n then i else 0);
    }
    assert |front| == 32 * n;
    WordOfAppend(front, last, n, i);
  }

  lemma ConcatNothing(parts: seq<nat>)
    requires parts == []
    ensures Concat(parts) == []
  {
  }

  lemma WordOfAppend(front: bytes, last: bytes, n: nat, i: nat)
    requires |front| == 32 * n && |last| == 32 && i <= n
    ensures Word(front + last, i) == if i < n then Word(front, i) else last
  {
  }

  lemma {:induction false} IcPartsAt(ic: seq<G1>, j: nat)
    requires j < |ic|
    ensures IcParts(ic)[2 * j] == ic[j].x && IcParts(ic)[2 * j + 1] == ic[j].y
    decreases |ic|
  {
    if j < |ic| - 1 {
      IcPartsAt(ic[..|ic| - 1], j);
    }
  }

  /** The pre-image, word by word: alpha, then beta, gamma and delta with the x pair before the y pair, then the IC points. */
  lemma PreimageLayout(k: VerifyingKey, j: nat)
    requires AllBelow(Parts(k), 64)
    ensures |Nested(k)| == 32 * (14 + 2 * |k.ic|)
    ensures Word(Nested(k), 0) == BigEndian(k.alpha.x, 32) && Word(Nested(k), 1) == BigEndian(k.alpha.y, 32)
    ensures Word(Nested(k), 2) == BigEndian(k.beta.x0, 32) && Word(Nested(k), 3) == BigEndian(k.beta.x1, 32)
    ensures Word(Nested(k), 4) == BigEndian(k.beta.y0, 32) && Word(Nested(k), 5) == BigEndian(k.beta.y1, 32)
    ensures Word(Nested(k), 6) == BigEndian(k.gamma.x0, 32) && Word(Nested(k), 7) == BigEndian(k.gamma.x1, 32)
    ensures Word(Nested(k), 8) == BigEndian(k.gamma.y0, 32) && Word(Nested(k), 9) == BigEndian(k.gamma.y1, 32)
    ensures Word(Nested(k), 10) == BigEndian(k.delta.x0, 32) && Word(Nested(k), 11) == BigEndian(k.delta.x1, 32)
    ensures Word(Nested(k), 12) == BigEndian(k.delta.y0, 32) && Word(Nested(k), 13) == BigEndian(k.delta.y1, 32)
    ensures j < |k.ic| ==> Word(Nested(k), 14 + 2 * j) == BigEndian(k.ic[j].x, 32)
    ensures j < |k.ic| ==> Word(Nested(k), 15 + 2 * j) == BigEndian(k.ic[j].y, 32)
  {
    hide Nested, Concat, BigEndian, AllBelow, Parts, Word, Encode;
    PartsAt(k, j);
    forall i: nat | i < |Parts(k)|
      ensures Word(Nested(k), i) == BigEndian(Parts(k)[i], 32)
    {
      WordIsCoordinate(k, i);
    }
  }

  lemma WordIsCoordinate(k: VerifyingKey, i: nat)
    requires AllBelow(Parts(k), 64) && i < |Parts(k)|
    ensures Word(Nested(k), i) == BigEndian(Parts(k)[i], 32)
  {
    hide Nested, Concat, BigEndian, Parts, Word, Encode, AllFit, Power;
    FieldsFit(Parts(k));
    KeyAgrees(k);
    ConcatWord(Parts(k), i);
    EncodeIsBigEndian(Parts(k)[i]);
  }

  lemma PartsAt(k: VerifyingKey, j: nat)
    ensures var p := Parts(k);
            && p[0] == k.alpha.x && p[1] == k.alpha.y
            && p[2] == k.beta.x0 && p[3] == k.beta.x1 && p[4] == k.beta.y0 && p[5] == k.beta.y1
            && p[6] == k.gamma.x0 && p[7] == k.gamma.x1 && p[8] == k.gamma.y0 && p[9] == k.gamma.y1
            && p[10] == k.delta.x0 && p[11] == k.delta.x1 && p[12] == k.delta.y0 && p[13] == k.delta.y1
            && (j < |k.ic| ==> p[14 + 2 * j] == k.ic[j].x && p[15 + 2 * j] == k.ic[j].y)
  {
    if j < |k.ic| {
      IcPartsAt(k.ic, j);
    }
  }
}

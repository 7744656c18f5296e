/** Bitcoin transactions and their two serializations (BIP 144, section "Serialization"). */
module BitcoinTx {
  import opened Common

  datatype TxIn = TxIn(outpoint: bytes, script: bytes, sequence: bytes)

  datatype TxOut = TxOut(value: bytes, script: bytes)

  datatype Tx = Tx(version: bytes, inputs: seq<TxIn>, outputs: seq<TxOut>, witnesses: seq<seq<bytes>>, locktime: bytes)

  ghost predicate IsTxIn(i: TxIn) {
    |i.outpoint| == 36 && |i.sequence| == 4 && |i.script| < TWO32
  }

  ghost predicate IsTxOut(o: TxOut) {
    |o.value| == 8 && |o.script| < TWO32
  }

  ghost predicate IsStack(w: seq<bytes>) {
    |w| < TWO32 && AreItems(w)
  }

  ghost predicate AreInputs(ins: seq<TxIn>) {
    forall k | 0 <= k < |ins| :: IsTxIn(ins[k])
  }

  ghost predicate AreOutputs(outs: seq<TxOut>) {
    forall k | 0 <= k < |outs| :: IsTxOut(outs[k])
  }

  ghost predicate AreItems(items: seq<bytes>) {
    forall k | 0 <= k < |items| :: |items[k]| < TWO32
  }

  ghost predicate AreStacks(stacks: seq<seq<bytes>>) {
    forall k | 0 <= k < |stacks| :: IsStack(stacks[k])
  }

  /** Field widths of the format, and lengths that a 32-bit CompactSize can carry. */
  ghost predicate IsTx(t: Tx) {
    && |t.version| == 4 && |t.locktime| == 4
    && |t.inputs| < TWO32 && |t.outputs| < TWO32 && |t.witnesses| == |t.inputs|
    && AreInputs(t.inputs) && AreOutputs(t.outputs) && AreStacks(t.witnesses)
  }

  function LE16(n: nat): (b: bytes)
    requires n < 0x1_0000
    ensures |b| == 2
  {
    [n % 256, n / 256]
  }

  function LE32(n: nat): (b: bytes)
    requires n < TWO32
    ensures |b| == 4
  {
    [n % 256, n / 256 % 256, n / 65536 % 256, n / 16777216]
  }

  /** The shortest CompactSize encoding. */
  function VarInt(n: nat): (b: bytes)
    requires n < TWO32
    ensures 1 <= |b| <= 5
    ensures b[0] == 0 <==> n == 0
    ensures b[0] == 1 <==> n == 1
  {
    if n < 0xfd then [n] else if n <= 0xffff then [0xfd] + LE16(n) else [0xfe] + LE32(n)
  }

  /** A byte string preceded by its length. */
  function Prefixed(s: bytes): bytes
    requires |s| < TWO32
  {
    VarInt(|s|) + s
  }

  function InputBytes(i: TxIn): bytes
    requires IsTxIn(i)
  {
    i.outpoint + (Prefixed(i.script) + i.sequence)
  }

  function OutputBytes(o: TxOut): bytes
    requires IsTxOut(o)
  {
    o.value + Prefixed(o.script)
  }

  function InputsBytes(ins: seq<TxIn>): bytes
    requires AreInputs(ins)
  {
    if ins == [] then [] else
      assert IsTxIn(ins[0]);
      InputBytes(ins[0]) + InputsBytes(ins[1..])
  }

  function OutputsBytes(outs: seq<TxOut>): bytes
    requires AreOutputs(outs)
  {
    if outs == [] then [] else
      assert IsTxOut(outs[0]);
      OutputBytes(outs[0]) + OutputsBytes(outs[1..])
  }

  function ItemsBytes(items: seq<bytes>): bytes
    requires AreItems(items)
  {
    if items == [] then [] else Prefixed(items[0]) + ItemsBytes(items[1..])
  }

  function StacksBytes(stacks: seq<seq<bytes>>): bytes
    requires AreStacks(stacks)
  {
    if stacks == [] then [] else
      assert IsStack(stacks[0]);
      (VarInt(|stacks[0]|) + ItemsBytes(stacks[0])) + StacksBytes(stacks[1..])
  }

  function InputList(ins: seq<TxIn>): bytes
    requires AreInputs(ins) && |ins| < TWO32
  {
    VarInt(|ins|) + InputsBytes(ins)
  }

  function OutputList(outs: seq<TxOut>): bytes
    requires AreOutputs(outs) && |outs| < TWO32
  {
    VarInt(|outs|) + OutputsBytes(outs)
  }

  /** Inputs and outputs with their counts: the part the two serializations share. */
  function CoreBytes(t: Tx): bytes
    requires IsTx(t)
  {
    InputList(t.inputs) + OutputList(t.outputs)
  }

  /** The serialization that the transaction id hashes (BIP 141, section "Transaction ID"). */
  function Legacy(t: Tx): bytes
    requires IsTx(t)
  {
    t.version + (CoreBytes(t) + t.locktime)
  }

  /** The serialization with marker, flag and witness stacks. */
  function Segwit(t: Tx): bytes
    requires IsTx(t)
  {
    t.version + ([0, 1] + (CoreBytes(t) + (StacksBytes(t.witnesses) + t.locktime)))
  }

  // ---- Reading at an offset ----------------------------------------------------------------------------------

  /** `s` is found in `raw` at offset `off`. */
  ghost predicate At(raw: bytes, off: nat, s: bytes) {
    off + |s| <= |raw| && forall k | 0 <= k < |s| :: s[k] == raw[off + k]
  }

  lemma AtSplit(raw: bytes, off: nat, a: bytes, b: bytes)
    ensures At(raw, off, a + b) <==> At(raw, off, a) && At(raw, off + |a|, b)
  {
    if At(raw, off, a + b) {
      assert forall k | 0 <= k < |a| :: a[k] == (a + b)[k];
      assert forall k | 0 <= k < |b| :: b[k] == (a + b)[|a| + k];
    }
  }

  datatype ReadError = OutOfRange | SixtyFourBit

  function ReadLE16(raw: bytes, off: nat): (n: nat)
    requires off + 2 <= |raw|
    ensures n < 0x1_0000
  {
    (raw[off] as int) + 256 * (raw[off + 1] as int)
  }

  function ReadLE32(raw: bytes, off: nat): (n: nat)
    requires off + 4 <= |raw|
    ensures n < TWO32
  {
    (raw[off] as int) + 256 * (raw[off + 1] as int) + 65536 * (raw[off + 2] as int) + 16777216 * (raw[off + 3] as int)
  }

  /** The value of four bytes, least significant first. */
  lemma LittleEndianValue(n: nat)
    requires n < TWO32
    ensures var b := LE32(n);
            n == (b[0] as int) + 256 * (b[1] as int) + 65_536 * (b[2] as int) + 16_777_216 * (b[3] as int)
    ensures n < 0x1_0000 ==> n == (LE16(n)[0] as int) + 256 * (LE16(n)[1] as int)
  {
    var a, c := n / 256, n / 65_536;
    assert c == a / 256 && n / 16_777_216 == c / 256;
    assert n == 256 * a + n % 256 && a == 256 * c + a % 256 && c == 256 * (c / 256) + c % 256;
  }

  /** CompactSize at the boundaries of its forms. */
  lemma CompactSizeBytes()
    ensures VarInt(252) == [0xfc] && VarInt(253) == [0xfd, 0xfd, 0x00] && VarInt(256) == [0xfd, 0x00, 0x01]
    ensures VarInt(65_535) == [0xfd, 0xff, 0xff] && VarInt(65_536) == [0xfe, 0x00, 0x00, 0x01, 0x00]
    ensures ReadLE16([0x00, 0x01], 0) == 256 && ReadLE32([0x00, 0x00, 0x01, 0x00], 0) == 65_536
  {
  }

  function Example(): Tx {
    Tx([2, 0, 0, 0], [TxIn(Repeat(7, 36), [8, 9], [0xff, 0xff, 0xff, 0xff])],
       [TxOut([1, 0, 0, 0, 0, 0, 0, 0], [0x51])], [[[3, 4, 5], []]], [6, 0, 0, 0])
  }

  function ExampleCore(): bytes {
    [1] + (Repeat(7, 36) + [2, 8, 9, 0xff, 0xff, 0xff, 0xff]) + ([1] + [1, 0, 0, 0, 0, 0, 0, 0, 1, 0x51])
  }

  /** One transaction with one input, one output and a two-item witness, byte by byte in both serializations. */
  lemma ExampleBytes()
    ensures IsTx(Example())
    ensures Legacy(Example()) == [2, 0, 0, 0] + (ExampleCore() + [6, 0, 0, 0])
    ensures Segwit(Example()) == [2, 0, 0, 0] + ([0, 1] + (ExampleCore() + ([2, 3, 3, 4, 5, 0] + [6, 0, 0, 0])))
  {
    hide CoreBytes, StacksBytes, ExampleCore;
    ExampleParts();
    CoreOfExample();
  }

  lemma CoreOfExample()
    ensures IsTx(Example()) && CoreBytes(Example()) == ExampleCore()
  {
    hide InputsBytes, OutputsBytes, StacksBytes;
    ExampleParts();
  }

  lemma ExampleParts()
    ensures IsTx(Example())
    ensures InputsBytes(Example().inputs) == Repeat(7, 36) + [2, 8, 9, 0xff, 0xff, 0xff, 0xff]
    ensures OutputsBytes(Example().outputs) == [1, 0, 0, 0, 0, 0, 0, 0, 1, 0x51]
    ensures StacksBytes(Example().witnesses) == [2, 3, 3, 4, 5, 0]
  {
    var t := Example();
    var items := t.witnesses[0];
    assert t.inputs[1..] == [] && t.outputs[1..] == [] && t.witnesses[1..] == [];
    var rest: seq<bytes> := [[]];
    assert items[1..] == rest && rest[1..] == [];
    assert ItemsBytes(rest) == [0];
    assert ItemsBytes(items) == [3, 3, 4, 5, 0];
  }

  lemma LERoundTrip(raw: bytes, off: nat, n: nat)
    requires n < TWO32
    ensures n < 0x1_0000 && At(raw, off, LE16(n)) ==> ReadLE16(raw, off) == n
    ensures At(raw, off, LE32(n)) ==> ReadLE32(raw, off) == n
  {
    if n < 0x1_0000 && At(raw, off, LE16(n)) {
      assert LE16(n)[0] == raw[off + 0];
      assert LE16(n)[1] == raw[off + 1];
    }
    if At(raw, off, LE32(n)) {
      assert LE32(n)[0] == raw[off + 0];
      assert LE32(n)[1] == raw[off + 1];
      assert LE32(n)[2] == raw[off + 2];
      assert LE32(n)[3] == raw[off + 3];
    }
  }
}

/** The re-encoding stripper of scripts/verify-deposits.ts. */
module StripWitnessModel {
  import opened Common
  import opened BitcoinTx

  /** Output so far and read offset. */
  datatype Cursor = Cursor(out: bytes, off: nat)

  datatype Reading = Reading(value: nat, next: nat)

  predicate HasMarker(raw: bytes) {
    |raw| >= 6 && raw[4] == 0 && raw[5] == 1
  }

  /** Reads past the end fail in the DataView; a 64-bit length is silently cut to its low 32 bits. */
  function ReadVarInt(raw: bytes, off: nat): (r: Result<Reading, ReadError>)
    ensures r.Ok? ==> r.value.value < TWO32
  {
    if off < |raw| && raw[off] < 0xfd then Ok(Reading(raw[off], off + 1))
    else if off < |raw| && raw[off] == 0xfd then
      if off + 3 <= |raw| then Ok(Reading(ReadLE16(raw, off + 1), off + 3)) else Err(OutOfRange)
    else if off < |raw| && raw[off] == 0xfe then
      if off + 5 <= |raw| then Ok(Reading(ReadLE32(raw, off + 1), off + 5)) else Err(OutOfRange)
    else if off + 5 <= |raw| then Ok(Reading(ReadLE32(raw, off + 1), off + 9))
    else Err(OutOfRange)
  }

  /** `n` bytes from `off`; a byte past the end is undefined and becomes 0 in the result array. */
  function BytesAt(raw: bytes, off: nat, n: nat): (b: bytes)
    ensures |b| == n
    ensures forall k | 0 <= k < n :: b[k] == GetOr(raw, off + k, 0)
  {
    if n == 0 then [] else BytesAt(raw, off, n - 1) + [GetOr(raw, off + n - 1, 0)]
  }

  function Copy(raw: bytes, c: Cursor, n: nat): Cursor {
    Cursor(c.out + BytesAt(raw, c.off, n), c.off + n)
  }

  /** A length, re-encoded, and that many bytes. */
  function CopyScript(raw: bytes, c: Cursor): Result<Cursor, ReadError> {
    match ReadVarInt(raw, c.off)
    case Err(e) => Err(e)
    case Ok(len) => Ok(Copy(raw, Cursor(c.out + VarInt(len.value), len.next), len.value))
  }

  function CopyInput(raw: bytes, c: Cursor): Result<Cursor, ReadError> {
    match CopyScript(raw, Copy(raw, c, 36))
    case Err(e) => Err(e)
    case Ok(d) => Ok(Copy(raw, d, 4))
  }

  function CopyOutput(raw: bytes, c: Cursor): Result<Cursor, ReadError> {
    CopyScript(raw, Copy(raw, c, 8))
  }

  function CopyInputs(raw: bytes, c: Cursor, count: nat): Result<Cursor, ReadError>
    decreases count
  {
    if count == 0 then Ok(c) else
    match CopyInput(raw, c)
    case Err(e) => Err(e)
    case Ok(d) => CopyInputs(raw, d, count - 1)
  }

  function CopyOutputs(raw: bytes, c: Cursor, count: nat): Result<Cursor, ReadError>
    decreases count
  {
    if count == 0 then Ok(c) else
    match CopyOutput(raw, c)
    case Err(e) => Err(e)
    case Ok(d) => CopyOutputs(raw, d, count - 1)
  }

  function CopyInputList(raw: bytes, c: Cursor): Result<Cursor, ReadError> {
    match ReadVarInt(raw, c.off)
    case Err(e) => Err(e)
    case Ok(count) => CopyInputs(raw, Cursor(c.out + VarInt(count.value), count.next), count.value)
  }

  function CopyOutputList(raw: bytes, c: Cursor): Result<Cursor, ReadError> {
    match ReadVarInt(raw, c.off)
    case Err(e) => Err(e)
    case Ok(count) => CopyOutputs(raw, Cursor(c.out + VarInt(count.value), count.next), count.value)
  }

  function CopyCore(raw: bytes, c: Cursor): Result<Cursor, ReadError> {
    match CopyInputList(raw, c)
    case Err(e) => Err(e)
    case Ok(d) => CopyOutputList(raw, d)
  }

  /** The whole function on any byte string. The lock time is taken from the end, not from where the witness ends. */
  function Stripped(raw: bytes): Result<bytes, ReadError> {
    if !HasMarker(raw) then Ok(raw) else
    match CopyCore(raw, Cursor(raw[..4], 6))
    case Err(e) => Err(e)
    case Ok(c) => Ok(c.out + raw[|raw| - 4..])
  }

  method CopyLoop(raw: bytes, c: Cursor, n: nat) returns (d: Cursor)
    ensures d == Copy(raw, c, n)
  {
    var result, offset := c.out, c.off;
    for j := 0 to n
      invariant offset == c.off + j && result == c.out + BytesAt(raw, c.off, j)
    {
      result := result + [GetOr(raw, offset, 0)];
      offset := offset + 1;
    }
    d := Cursor(result, offset);
  }

  method CopyScriptLoop(raw: bytes, c: Cursor) returns (r: Result<Cursor, ReadError>)
    ensures r == CopyScript(raw, c)
  {
    var len := ReadVarInt(raw, c.off);
    if len.Err? {
      return Err(len.error);
    }
    var d := CopyLoop(raw, Cursor(c.out + VarInt(len.value.value), len.value.next), len.value.value);
    r := Ok(d);
  }

  method CopyInputsLoop(raw: bytes, start: Cursor, count: nat) returns (r: Result<Cursor, ReadError>)
    ensures r == CopyInputs(raw, start, count)
  {
    var c := start;
    for i := 0 to count
      invariant CopyInputs(raw, start, count) == CopyInputs(raw, c, count - i)
    {
      var d := CopyLoop(raw, c, 36);
      var copied := CopyScriptLoop(raw, d);
      if copied.Err? {
        return Err(copied.error);
      }
      c := CopyLoop(raw, copied.value, 4);
    }
    r := Ok(c);
  }

  method CopyOutputsLoop(raw: bytes, start: Cursor, count: nat) returns (r: Result<Cursor, ReadError>)
    ensures r == CopyOutputs(raw, start, count)
  {
    var c := start;
    for i := 0 to count
      invariant CopyOutputs(raw, start, count) == CopyOutputs(raw, c, count - i)
    {
      var d := CopyLoop(raw, c, 8);
      var copied := CopyScriptLoop(raw, d);
      if copied.Err? {
        return Err(copied.error);
      }
      c := copied.value;
    }
    r := Ok(c);
  }

  method StripWitness(raw: bytes) returns (r: Result<bytes, ReadError>)
    ensures r == Stripped(raw)
  {
    if |raw| < 6 || raw[4] != 0 || raw[5] != 1 {
      return Ok(raw);
    }
    var inputCount := ReadVarInt(raw, 6);
    if inputCount.Err? {
      return Err(inputCount.error);
    }
    var c := CopyInputsLoop(raw, Cursor(raw[..4] + VarInt(inputCount.value.value), inputCount.value.next),
                            inputCount.value.value);
    if c.Err? {
      return Err(c.error);
    }
    var outputCount := ReadVarInt(raw, c.value.off);
    if outputCount.Err? {
      return Err(outputCount.error);
    }
    c := CopyOutputsLoop(raw, Cursor(c.value.out + VarInt(outputCount.value.value), outputCount.value.next),
                         outputCount.value.value);
    if c.Err? {
      return Err(c.error);
    }
    r := Ok(c.value.out + raw[|raw| - 4..]);
  }

  // ---- On serialized transactions ----------------------------------------------------------------------------

  /** Reading undoes the shortest encoding. */
  lemma ReadsVarInt(raw: bytes, off: nat, n: nat)
    requires n < TWO32 && At(raw, off, VarInt(n))
    ensures ReadVarInt(raw, off) == Ok(Reading(n, off + |VarInt(n)|))
  {
    assert VarInt(n)[0] == raw[off];
    if n > 0xffff {
      AtSplit(raw, off, [0xfe], LE32(n));
      LERoundTrip(raw, off + 1, n);
    } else if n >= 0xfd {
      AtSplit(raw, off, [0xfd], LE16(n));
      LERoundTrip(raw, off + 1, n);
    }
  }

  lemma CopiesBytes(raw: bytes, c: Cursor, s: bytes)
    requires At(raw, c.off, s)
    ensures Copy(raw, c, |s|) == Cursor(c.out + s, c.off + |s|)
  {
    assert BytesAt(raw, c.off, |s|) == s;
  }

  lemma CopiesScript(raw: bytes, c: Cursor, s: bytes)
    requires |s| < TWO32 && At(raw, c.off, Prefixed(s))
    ensures CopyScript(raw, c) == Ok(Cursor(c.out + Prefixed(s), c.off + |Prefixed(s)|))
  {
    hide Copy, VarInt, ReadVarInt, At;
    AtSplit(raw, c.off, VarInt(|s|), s);
    ReadsVarInt(raw, c.off, |s|);
    CopiesBytes(raw, Cursor(c.out + VarInt(|s|), c.off + |VarInt(|s|)|), s);
    AppendAssociates(c.out, VarInt(|s|), s);
  }

  lemma CopiesInput(raw: bytes, c: Cursor, i: TxIn)
    requires IsTxIn(i) && At(raw, c.off, InputBytes(i))
    ensures CopyInput(raw, c) == Ok(Cursor(c.out + InputBytes(i), c.off + |InputBytes(i)|))
  {
    hide Copy, CopyScript, Prefixed, At;
    var script := Prefixed(i.script);
    AtSplit(raw, c.off, i.outpoint, script + i.sequence);
    AtSplit(raw, c.off + 36, script, i.sequence);
    CopiesBytes(raw, c, i.outpoint);
    var d := Cursor(c.out + i.outpoint, c.off + 36);
    CopiesScript(raw, d, i.script);
    var e := Cursor(d.out + script, d.off + |script|);
    CopiesBytes(raw, e, i.sequence);
    AppendAssociates(d.out, script, i.sequence);
    AppendAssociates(c.out, i.outpoint, script + i.sequence);
  }

  lemma CopiesOutput(raw: bytes, c: Cursor, o: TxOut)
    requires IsTxOut(o) && At(raw, c.off, OutputBytes(o))
    ensures CopyOutput(raw, c) == Ok(Cursor(c.out + OutputBytes(o), c.off + |OutputBytes(o)|))
  {
    hide Copy, CopyScript, Prefixed, At;
    AtSplit(raw, c.off, o.value, Prefixed(o.script));
    CopiesBytes(raw, c, o.value);
    CopiesScript(raw, Cursor(c.out + o.value, c.off + 8), o.script);
    AppendAssociates(c.out, o.value, Prefixed(o.script));
  }

  lemma {:induction false} CopiesInputs(raw: bytes, c: Cursor, ins: seq<TxIn>)
    requires AreInputs(ins) && At(raw, c.off, InputsBytes(ins))
    ensures CopyInputs(raw, c, |ins|) == Ok(Cursor(c.out + InputsBytes(ins), c.off + |InputsBytes(ins)|))
    decreases ins
  {
    hide CopyInput, InputBytes, At;
    if ins != [] {
      AtSplit(raw, c.off, InputBytes(ins[0]), InputsBytes(ins[1..]));
      CopiesInput(raw, c, ins[0]);
      var d := Cursor(c.out + InputBytes(ins[0]), c.off + |InputBytes(ins[0])|);
      CopiesInputs(raw, d, ins[1..]);
      assert d.out + InputsBytes(ins[1..]) == c.out + InputsBytes(ins);
    } else {
      assert c.out + [] == c.out;
    }
  }

  lemma {:induction false} CopiesOutputs(raw: bytes, c: Cursor, outs: seq<TxOut>)
    requires AreOutputs(outs) && At(raw, c.off, OutputsBytes(outs))
    ensures CopyOutputs(raw, c, |outs|) == Ok(Cursor(c.out + OutputsBytes(outs), c.off + |OutputsBytes(outs)|))
    decreases outs
  {
    hide CopyOutput, OutputBytes, At;
    if outs != [] {
      AtSplit(raw, c.off, OutputBytes(outs[0]), OutputsBytes(outs[1..]));
      CopiesOutput(raw, c, outs[0]);
      var d := Cursor(c.out + OutputBytes(outs[0]), c.off + |OutputBytes(outs[0])|);
      CopiesOutputs(raw, d, outs[1..]);
      assert d.out + OutputsBytes(outs[1..]) == c.out + OutputsBytes(outs);
    } else {
      assert c.out + [] == c.out;
    }
  }

  lemma AppendAssociates(a: bytes, b: bytes, c: bytes)
    ensures a + b + c == a + (b + c)
  {
  }

  lemma CopiesInputList(raw: bytes, c: Cursor, ins: seq<TxIn>)
    requires AreInputs(ins) && |ins| < TWO32 && At(raw, c.off, InputList(ins))
    ensures CopyInputList(raw, c) == Ok(Cursor(c.out + InputList(ins), c.off + |InputList(ins)|))
  {
    hide CopyInputs, InputsBytes, VarInt, ReadVarInt, At;
    AtSplit(raw, c.off, VarInt(|ins|), InputsBytes(ins));
    ReadsVarInt(raw, c.off, |ins|);
    CopiesInputs(raw, Cursor(c.out + VarInt(|ins|), c.off + |VarInt(|ins|)|), ins);
    AppendAssociates(c.out, VarInt(|ins|), InputsBytes(ins));
  }

  lemma CopiesOutputList(raw: bytes, c: Cursor, outs: seq<TxOut>)
    requires AreOutputs(outs) && |outs| < TWO32 && At(raw, c.off, OutputList(outs))
    ensures CopyOutputList(raw, c) == Ok(Cursor(c.out + OutputList(outs), c.off + |OutputList(outs)|))
  {
    hide CopyOutputs, OutputsBytes, VarInt, ReadVarInt, At;
    AtSplit(raw, c.off, VarInt(|outs|), OutputsBytes(outs));
    ReadsVarInt(raw, c.off, |outs|);
    CopiesOutputs(raw, Cursor(c.out + VarInt(|outs|), c.off + |VarInt(|outs|)|), outs);
    AppendAssociates(c.out, VarInt(|outs|), OutputsBytes(outs));
  }

  lemma CopiesCore(raw: bytes, c: Cursor, t: Tx)
    requires IsTx(t) && At(raw, c.off, CoreBytes(t))
    ensures CopyCore(raw, c) == Ok(Cursor(c.out + CoreBytes(t), c.off + |CoreBytes(t)|))
  {
    hide CopyInputList, CopyOutputList, InputList, OutputList, At;
    var ins, outs := InputList(t.inputs), OutputList(t.outputs);
    AtSplit(raw, c.off, ins, outs);
    CopiesInputList(raw, c, t.inputs);
    CopiesOutputList(raw, Cursor(c.out + ins, c.off + |ins|), t.outputs);
    AppendAssociates(c.out, ins, outs);
  }

  lemma SegwitLayout(t: Tx, tail: bytes)
    requires IsTx(t)
    ensures HasMarker(Segwit(t) + tail) && (Segwit(t) + tail)[..4] == t.version
    ensures At(Segwit(t) + tail, 6, CoreBytes(t))
    ensures At(Segwit(t) + tail, 6 + |CoreBytes(t)|, StacksBytes(t.witnesses))
    ensures At(Segwit(t) + tail, 6 + |CoreBytes(t)| + |StacksBytes(t.witnesses)|, t.locktime)
  {
    hide CoreBytes, StacksBytes;
    var raw := Segwit(t) + tail;
    var core, stacks := CoreBytes(t), StacksBytes(t.witnesses);
    assert At(raw, 0, Segwit(t));
    AtSplit(raw, 0, t.version, [0, 1] + (core + (stacks + t.locktime)));
    AtSplit(raw, 4, [0, 1], core + (stacks + t.locktime));
    AtSplit(raw, 6, core, stacks + t.locktime);
    AtSplit(raw, 6 + |core|, stacks, t.locktime);
    assert [0, 1][0] == raw[4] && [0, 1][1] == raw[5];
  }

  /** On a serialization followed by anything, the result is the legacy form with the last four bytes as lock time. */
  lemma StripsSegwitWithTail(t: Tx, tail: bytes)
    requires IsTx(t)
    ensures Stripped(Segwit(t) + tail) == Ok(t.version + (CoreBytes(t) + LastFour(t.locktime + tail)))
  {
    hide CopyCore, CoreBytes, StacksBytes, At;
    var raw := Segwit(t) + tail;
    SegwitLayout(t, tail);
    CopiesCore(raw, Cursor(raw[..4], 6), t);
    var front := t.version + ([0, 1] + (CoreBytes(t) + StacksBytes(t.witnesses)));
    assert Segwit(t) == front + t.locktime;
    EndsWithLastFour(front, t.locktime, tail);
    AppendAssociates(t.version, CoreBytes(t), LastFour(t.locktime + tail));
  }

  lemma EndsWithLastFour(front: bytes, lock: bytes, tail: bytes)
    requires |lock| == 4
    ensures var raw := front + lock + tail; raw[|raw| - 4..] == LastFour(lock + tail)
  {
    assert front + lock + tail == front + (lock + tail);
  }

  function LastFour(b: bytes): (r: bytes)
    requires |b| >= 4
    ensures |r| == 4
  {
    b[|b| - 4..]
  }

  /** Stripping the witness serialization gives the serialization that the transaction id hashes. */
  lemma StripsToLegacy(t: Tx)
    requires IsTx(t)
    ensures Stripped(Segwit(t)) == Ok(Legacy(t))
  {
    StripsSegwitWithTail(t, []);
    assert Segwit(t) + [] == Segwit(t) && LastFour(t.locktime + []) == t.locktime;
  }

  /** A legacy serialization shows the marker only when it has no input and one output. */
  lemma MarkerInLegacy(t: Tx)
    requires IsTx(t)
    ensures HasMarker(Legacy(t)) <==> |t.inputs| == 0 && |t.outputs| == 1
  {
    var raw := Legacy(t);
    var n, m := VarInt(|t.inputs|), VarInt(|t.outputs|);
    assert raw[4] == n[0];
    if |t.inputs| == 0 {
      assert raw[5] == m[0];
    }
  }
}

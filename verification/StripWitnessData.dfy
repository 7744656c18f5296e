/** The slicing stripper of contracts/scripts/regtest-helpers.ts, and how the two strippers compare. */
module StripWitnessDataModel {
  import opened Common
  import opened BitcoinTx
  import opened StripWitnessModel

  /** 64-bit lengths, and reads that start past the end, are refused. */
  function ReadVarint(raw: bytes, off: nat): (r: Result<Reading, ReadError>)
    ensures r.Ok? ==> r == ReadVarInt(raw, off)
  {
    if off >= |raw| || raw[off] == 0xff then Err(SixtyFourBit)
    else if raw[off] < 0xfd then Ok(Reading(raw[off], off + 1))
    else if raw[off] == 0xfd then
      if off + 3 <= |raw| then Ok(Reading(ReadLE16(raw, off + 1), off + 3)) else Err(OutOfRange)
    else
      if off + 5 <= |raw| then Ok(Reading(ReadLE32(raw, off + 1), off + 5)) else Err(OutOfRange)
  }

  /** `Buffer.subarray`: both ends are clamped. */
  function Subarray(raw: bytes, from: nat, to: nat): bytes
    requires from <= to
  {
    raw[Min(from, |raw|)..Min(to, |raw|)]
  }

  function SkipPrefixed(raw: bytes, off: nat): (r: Result<nat, ReadError>)
    ensures r.Ok? ==> off < r.value
  {
    match ReadVarint(raw, off)
    case Err(e) => Err(e)
    case Ok(len) => Ok(len.next + len.value)
  }

  function SkipInput(raw: bytes, off: nat): (r: Result<nat, ReadError>)
    ensures r.Ok? ==> off < r.value
  {
    match SkipPrefixed(raw, off + 36)
    case Err(e) => Err(e)
    case Ok(next) => Ok(next + 4)
  }

  function SkipInputs(raw: bytes, off: nat, count: nat): (r: Result<nat, ReadError>)
    ensures r.Ok? ==> off <= r.value
    decreases count
  {
    if count == 0 then Ok(off) else
    match SkipInput(raw, off)
    case Err(e) => Err(e)
    case Ok(next) => SkipInputs(raw, next, count - 1)
  }

  function SkipOutputs(raw: bytes, off: nat, count: nat): (r: Result<nat, ReadError>)
    ensures r.Ok? ==> off <= r.value
    decreases count
  {
    if count == 0 then Ok(off) else
    match SkipPrefixed(raw, off + 8)
    case Err(e) => Err(e)
    case Ok(next) => SkipOutputs(raw, next, count - 1)
  }

  function SkipItems(raw: bytes, off: nat, count: nat): (r: Result<nat, ReadError>)
    ensures r.Ok? ==> off <= r.value
    decreases count
  {
    if count == 0 then Ok(off) else
    match SkipPrefixed(raw, off)
    case Err(e) => Err(e)
    case Ok(next) => SkipItems(raw, next, count - 1)
  }

  function SkipStack(raw: bytes, off: nat): (r: Result<nat, ReadError>)
    ensures r.Ok? ==> off <= r.value
  {
    match ReadVarint(raw, off)
    case Err(e) => Err(e)
    case Ok(count) => SkipItems(raw, count.next, count.value)
  }

  function SkipStacks(raw: bytes, off: nat, count: nat): (r: Result<nat, ReadError>)
    ensures r.Ok? ==> off <= r.value
    decreases count
  {
    if count == 0 then Ok(off) else
    match SkipStack(raw, off)
    case Err(e) => Err(e)
    case Ok(next) => SkipStacks(raw, next, count - 1)
  }

  datatype CoreEnd = CoreEnd(inputCount: nat, next: nat)

  function SkipCore(raw: bytes, off: nat): (r: Result<CoreEnd, ReadError>)
    ensures r.Ok? ==> off <= r.value.next
  {
    match ReadVarint(raw, off)
    case Err(e) => Err(e)
    case Ok(inputCount) =>
      match SkipInputs(raw, inputCount.next, inputCount.value)
      case Err(e) => Err(e)
      case Ok(mid) =>
        match ReadVarint(raw, mid)
        case Err(e) => Err(e)
        case Ok(outputCount) =>
          match SkipOutputs(raw, outputCount.next, outputCount.value)
          case Err(e) => Err(e)
          case Ok(next) => Ok(CoreEnd(inputCount.value, next))
  }

  function StrippedData(raw: bytes): Result<bytes, ReadError> {
    if !HasMarker(raw) then Ok(raw) else
    match SkipCore(raw, 6)
    case Err(e) => Err(e)
    case Ok(core) =>
      match SkipStacks(raw, core.next, core.inputCount)
      case Err(e) => Err(e)
      case Ok(end) => Ok(raw[..4] + Subarray(raw, 6, core.next) + Subarray(raw, end, end + 4))
  }

  method SkipInputsLoop(raw: bytes, start: nat, count: nat) returns (r: Result<nat, ReadError>)
    ensures r == SkipInputs(raw, start, count)
  {
    var off: nat := start;
    for i := 0 to count
      invariant SkipInputs(raw, start, count) == SkipInputs(raw, off, count - i)
    {
      var scriptLen := ReadVarint(raw, off + 36);
      if scriptLen.Err? {
        return Err(scriptLen.error);
      }
      off := scriptLen.value.next + scriptLen.value.value + 4;
    }
    r := Ok(off);
  }

  method SkipOutputsLoop(raw: bytes, start: nat, count: nat) returns (r: Result<nat, ReadError>)
    ensures r == SkipOutputs(raw, start, count)
  {
    var off: nat := start;
    for i := 0 to count
      invariant SkipOutputs(raw, start, count) == SkipOutputs(raw, off, count - i)
    {
      var scriptLen := ReadVarint(raw, off + 8);
      if scriptLen.Err? {
        return Err(scriptLen.error);
      }
      off := scriptLen.value.next + scriptLen.value.value;
    }
    r := Ok(off);
  }

  method SkipItemsLoop(raw: bytes, start: nat, count: nat) returns (r: Result<nat, ReadError>)
    ensures r == SkipItems(raw, start, count)
  {
    var off: nat := start;
    for j := 0 to count
      invariant SkipItems(raw, start, count) == SkipItems(raw, off, count - j)
    {
      var itemLen := ReadVarint(raw, off);
      if itemLen.Err? {
        return Err(itemLen.error);
      }
      off := itemLen.value.next + itemLen.value.value;
    }
    r := Ok(off);
  }

  method SkipStacksLoop(raw: bytes, start: nat, count: nat) returns (r: Result<nat, ReadError>)
    ensures r == SkipStacks(raw, start, count)
  {
    var off: nat := start;
    for i := 0 to count
      invariant SkipStacks(raw, start, count) == SkipStacks(raw, off, count - i)
    {
      var stackItems := ReadVarint(raw, off);
      if stackItems.Err? {
        return Err(stackItems.error);
      }
      var end := SkipItemsLoop(raw, stackItems.value.next, stackItems.value.value);
      if end.Err? {
        return Err(end.error);
      }
      off := end.value;
    }
    r := Ok(off);
  }

  method StripWitnessData(raw: bytes) returns (r: Result<bytes, ReadError>)
    ensures r == StrippedData(raw)
  {
    if |raw| < 6 || raw[4] != 0 || raw[5] != 1 {
      return Ok(raw);
    }
    var inputCount := ReadVarint(raw, 6);
    if inputCount.Err? {
      return Err(inputCount.error);
    }
    var mid := SkipInputsLoop(raw, inputCount.value.next, inputCount.value.value);
    if mid.Err? {
      return Err(mid.error);
    }
    var outputCount := ReadVarint(raw, mid.value);
    if outputCount.Err? {
      return Err(outputCount.error);
    }
    var core := SkipOutputsLoop(raw, outputCount.value.next, outputCount.value.value);
    if core.Err? {
      return Err(core.error);
    }
    var end := SkipStacksLoop(raw, core.value, inputCount.value.value);
    if end.Err? {
      return Err(end.error);
    }
    r := Ok(raw[..4] + Subarray(raw, 6, core.value) + Subarray(raw, end.value, end.value + 4));
  }

  // ---- On serialized transactions ----------------------------------------------------------------------------

  lemma ReadsVarint(raw: bytes, off: nat, n: nat)
    requires n < TWO32 && At(raw, off, VarInt(n))
    ensures ReadVarint(raw, off) == Ok(Reading(n, off + |VarInt(n)|))
  {
    ReadsVarInt(raw, off, n);
    assert VarInt(n)[0] == raw[off];
  }

  lemma SkipsPrefixed(raw: bytes, off: nat, s: bytes)
    requires |s| < TWO32 && At(raw, off, Prefixed(s))
    ensures SkipPrefixed(raw, off) == Ok(off + |Prefixed(s)|)
  {
    hide VarInt, ReadVarint, At;
    AtSplit(raw, off, VarInt(|s|), s);
    ReadsVarint(raw, off, |s|);
  }

  lemma {:induction false} SkipsInputs(raw: bytes, off: nat, ins: seq<TxIn>)
    requires AreInputs(ins) && At(raw, off, InputsBytes(ins))
    ensures SkipInputs(raw, off, |ins|) == Ok(off + |InputsBytes(ins)|)
    decreases ins
  {
    hide Prefixed, SkipPrefixed, At;
    if ins != [] {
      var i := ins[0];
      AtSplit(raw, off, InputBytes(i), InputsBytes(ins[1..]));
      AtSplit(raw, off, i.outpoint, Prefixed(i.script) + i.sequence);
      AtSplit(raw, off + 36, Prefixed(i.script), i.sequence);
      SkipsPrefixed(raw, off + 36, i.script);
      SkipsInputs(raw, off + |InputBytes(i)|, ins[1..]);
    }
  }

  lemma {:induction false} SkipsOutputs(raw: bytes, off: nat, outs: seq<TxOut>)
    requires AreOutputs(outs) && At(raw, off, OutputsBytes(outs))
    ensures SkipOutputs(raw, off, |outs|) == Ok(off + |OutputsBytes(outs)|)
    decreases outs
  {
    hide Prefixed, SkipPrefixed, At;
    if outs != [] {
      var o := outs[0];
      AtSplit(raw, off, OutputBytes(o), OutputsBytes(outs[1..]));
      AtSplit(raw, off, o.value, Prefixed(o.script));
      SkipsPrefixed(raw, off + 8, o.script);
      SkipsOutputs(raw, off + |OutputBytes(o)|, outs[1..]);
    }
  }

  lemma {:induction false} SkipsItems(raw: bytes, off: nat, items: seq<bytes>)
    requires AreItems(items) && At(raw, off, ItemsBytes(items))
    ensures SkipItems(raw, off, |items|) == Ok(off + |ItemsBytes(items)|)
    decreases items
  {
    hide Prefixed, SkipPrefixed, At;
    if items != [] {
      AtSplit(raw, off, Prefixed(items[0]), ItemsBytes(items[1..]));
      SkipsPrefixed(raw, off, items[0]);
      SkipsItems(raw, off + |Prefixed(items[0])|, items[1..]);
    }
  }

  lemma {:induction false} SkipsStacks(raw: bytes, off: nat, stacks: seq<seq<bytes>>)
    requires AreStacks(stacks) && At(raw, off, StacksBytes(stacks))
    ensures SkipStacks(raw, off, |stacks|) == Ok(off + |StacksBytes(stacks)|)
    decreases stacks
  {
    hide VarInt, ReadVarint, SkipItems, ItemsBytes, At;
    if stacks != [] {
      assert IsStack(stacks[0]);
      var n, items := VarInt(|stacks[0]|), ItemsBytes(stacks[0]);
      AtSplit(raw, off, n + items, StacksBytes(stacks[1..]));
      AtSplit(raw, off, n, items);
      ReadsVarint(raw, off, |stacks[0]|);
      SkipsItems(raw, off + |n|, stacks[0]);
      SkipsStacks(raw, off + |n + items|, stacks[1..]);
    }
  }

  lemma SkipsCore(raw: bytes, off: nat, t: Tx)
    requires IsTx(t) && At(raw, off, CoreBytes(t))
    ensures SkipCore(raw, off) == Ok(CoreEnd(|t.inputs|, off + |CoreBytes(t)|))
  {
    hide VarInt, ReadVarint, SkipInputs, SkipOutputs, InputsBytes, OutputsBytes, At;
    var n, m := VarInt(|t.inputs|), VarInt(|t.outputs|);
    AtSplit(raw, off, InputList(t.inputs), OutputList(t.outputs));
    AtSplit(raw, off, n, InputsBytes(t.inputs));
    AtSplit(raw, off + |InputList(t.inputs)|, m, OutputsBytes(t.outputs));
    ReadsVarint(raw, off, |t.inputs|);
    SkipsInputs(raw, off + |n|, t.inputs);
    ReadsVarint(raw, off + |InputList(t.inputs)|, |t.outputs|);
    SkipsOutputs(raw, off + |InputList(t.inputs)| + |m|, t.outputs);
  }

  lemma SubarrayFinds(raw: bytes, off: nat, s: bytes)
    requires At(raw, off, s)
    ensures Subarray(raw, off, off + |s|) == s
  {
  }

  /** Bytes after the lock time are ignored: the result is the legacy form of the transaction in front. */
  lemma StripsDataToLegacy(t: Tx, tail: bytes)
    requires IsTx(t)
    ensures StrippedData(Segwit(t) + tail) == Ok(Legacy(t))
  {
    hide CoreBytes, StacksBytes, SkipCore, SkipStacks, Subarray, HasMarker, At, Segwit;
    var raw := Segwit(t) + tail;
    var core, stacks := CoreBytes(t), StacksBytes(t.witnesses);
    SegwitLayout(t, tail);
    SkipsCore(raw, 6, t);
    SkipsStacks(raw, 6 + |core|, t.witnesses);
    SubarrayFinds(raw, 6, core);
    SubarrayFinds(raw, 6 + |core| + |stacks|, t.locktime);
    AppendAssociates(t.version, core, t.locktime);
  }

  /**
   The two strippers agree on every witness serialization. With bytes appended, they agree exactly when the last four
   bytes still repeat the lock time, because only one of them takes the lock time from the end.
   */
  lemma StrippersAgree(t: Tx, tail: bytes)
    requires IsTx(t)
    ensures Stripped(Segwit(t)) == StrippedData(Segwit(t)) == Ok(Legacy(t))
    ensures Stripped(Segwit(t) + tail) == StrippedData(Segwit(t) + tail) <==> LastFour(t.locktime + tail) == t.locktime
  {
    hide Stripped, StrippedData, CoreBytes, Segwit;
    StripsToLegacy(t);
    StripsDataToLegacy(t, []);
    assert Segwit(t) + [] == Segwit(t);
    StripsSegwitWithTail(t, tail);
    StripsDataToLegacy(t, tail);
    var other := LastFour(t.locktime + tail);
    if t.version + (CoreBytes(t) + other) == Legacy(t) {
      AppendCancels(t.version, CoreBytes(t) + other, CoreBytes(t) + t.locktime);
      AppendCancels(CoreBytes(t), other, t.locktime);
    }
  }

  lemma AppendCancels(a: bytes, b: bytes, c: bytes)
    requires a + b == a + c
    ensures b == c
  {
    assert b == (a + b)[|a|..] && c == (a + c)[|a|..];
  }

  /** A byte string with a marker always loses at least its two bytes, so only unmarked strings pass through. */
  lemma DataPassesThroughIff(raw: bytes)
    ensures StrippedData(raw) == Ok(raw) <==> !HasMarker(raw)
  {
    hide SkipCore, SkipStacks;
    if HasMarker(raw) && StrippedData(raw).Ok? {
      assert |StrippedData(raw).value| < |raw|;
    }
  }

  // ---- The re-encoding stripper on a marked string -----------------------------------------------------------

  lemma InputExtends(raw: bytes, c: Cursor)
    requires CopyInput(raw, c).Ok?
    ensures c.out <= CopyInput(raw, c).value.out
  {
    hide ReadVarInt, VarInt, BytesAt;
  }

  lemma OutputExtends(raw: bytes, c: Cursor)
    requires CopyOutput(raw, c).Ok?
    ensures c.out <= CopyOutput(raw, c).value.out
  {
    hide ReadVarInt, VarInt, BytesAt;
  }

  lemma {:induction false} InputsExtend(raw: bytes, c: Cursor, count: nat)
    ensures CopyInputs(raw, c, count).Ok? ==> c.out <= CopyInputs(raw, c, count).value.out
    decreases count
  {
    hide CopyInput;
    if count > 0 && CopyInput(raw, c).Ok? {
      InputExtends(raw, c);
      InputsExtend(raw, CopyInput(raw, c).value, count - 1);
    }
  }

  lemma {:induction false} OutputsExtend(raw: bytes, c: Cursor, count: nat)
    ensures CopyOutputs(raw, c, count).Ok? ==> c.out <= CopyOutputs(raw, c, count).value.out
    decreases count
  {
    hide CopyOutput;
    if count > 0 && CopyOutput(raw, c).Ok? {
      OutputExtends(raw, c);
      OutputsExtend(raw, CopyOutput(raw, c).value, count - 1);
    }
  }

  lemma OutputListExtends(raw: bytes, c: Cursor)
    ensures CopyOutputList(raw, c).Ok? ==>
              && ReadVarInt(raw, c.off).Ok?
              && c.out + VarInt(ReadVarInt(raw, c.off).value.value) <= CopyOutputList(raw, c).value.out
  {
    hide CopyOutputs, VarInt, ReadVarInt;
    if ReadVarInt(raw, c.off).Ok? {
      var m := ReadVarInt(raw, c.off).value;
      OutputsExtend(raw, Cursor(c.out + VarInt(m.value), m.next), m.value);
    }
  }

  /** The copied core starts with the version and the re-encoded number of inputs. */
  lemma CoreExtends(raw: bytes, c: Cursor)
    ensures CopyCore(raw, c).Ok? ==>
              && ReadVarInt(raw, c.off).Ok?
              && c.out + VarInt(ReadVarInt(raw, c.off).value.value) <= CopyCore(raw, c).value.out
  {
    hide CopyInputs, CopyOutputList, VarInt, ReadVarInt;
    if CopyInputList(raw, c).Ok? {
      var n := ReadVarInt(raw, c.off).value;
      InputsExtend(raw, Cursor(c.out + VarInt(n.value), n.next), n.value);
      OutputListExtends(raw, CopyInputList(raw, c).value);
    }
  }

  lemma NoInputs(raw: bytes, c: Cursor)
    requires ReadVarInt(raw, c.off).Ok? && ReadVarInt(raw, c.off).value.value == 0
    ensures CopyCore(raw, c) == CopyOutputList(raw, Cursor(c.out + [0], ReadVarInt(raw, c.off).value.next))
  {
    hide CopyOutputList, ReadVarInt;
  }

  lemma OneOutputCopied(raw: bytes, c: Cursor, m: Reading)
    requires ReadVarInt(raw, c.off) == Ok(m) && m.value == 1
    ensures CopyOutputList(raw, c) == CopyScript(raw, Cursor(c.out + [1] + BytesAt(raw, m.next, 8), m.next + 8))
  {
    hide CopyScript, ReadVarInt, BytesAt;
    var d := Cursor(c.out + [1], m.next);
    assert CopyOutputs(raw, d, 1) == CopyOutput(raw, d);
  }

  /**
   Read again from the marker on, the bytes start with a core that has no input and the one output `o`. The counts may
   be encoded at any length.
   */
  predicate RepeatsItself(raw: bytes, o: TxOut) {
    && var n := ReadVarInt(raw, 6);
    && n.Ok? && n.value.value == 0
    && var m := ReadVarInt(raw, n.value.next);
    && m.Ok? && m.value.value == 1 && BytesAt(raw, m.value.next, 8) == o.value
    && var k := ReadVarInt(raw, m.value.next + 8);
    && k.Ok? && k.value.value == |o.script| && BytesAt(raw, k.value.next, |o.script|) == o.script
  }

  /** The bytes before the lock time of a legacy serialization with no input and one output. */
  function MarkedBody(version: bytes, o: TxOut): bytes
    requires IsTxOut(o)
  {
    version + [0] + [1] + o.value + Prefixed(o.script)
  }

  lemma RepeatsThenCopied(raw: bytes, version: bytes, o: TxOut)
    requires IsTxOut(o) && RepeatsItself(raw, o)
    ensures CopyCore(raw, Cursor(version, 6)).Ok? && CopyCore(raw, Cursor(version, 6)).value.out == MarkedBody(version, o)
  {
    hide CopyCore, ReadVarInt, VarInt, BytesAt, CopyOutputList;
    var c := Cursor(version, 6);
    var n := ReadVarInt(raw, 6).value;
    NoInputs(raw, c);
    var m := ReadVarInt(raw, n.next).value;
    OneOutputCopied(raw, Cursor(version + [0], n.next), m);
    AppendAssociates(version + [0] + [1] + o.value, VarInt(|o.script|), o.script);
  }

  lemma CountsAreSmall(raw: bytes, version: bytes, o: TxOut)
    requires IsTxOut(o) && |version| == 4
    requires CopyCore(raw, Cursor(version, 6)).Ok? && CopyCore(raw, Cursor(version, 6)).value.out == MarkedBody(version, o)
    ensures ReadVarInt(raw, 6).Ok? && ReadVarInt(raw, 6).value.value == 0
    ensures var m := ReadVarInt(raw, ReadVarInt(raw, 6).value.next); m.Ok? && m.value.value == 1
  {
    hide CopyCore, CopyOutputList, ReadVarInt, Prefixed, VarInt;
    var c, body := Cursor(version, 6), MarkedBody(version, o);
    assert body[4] == 0 && body[5] == 1;
    CoreExtends(raw, c);
    var n := ReadVarInt(raw, 6).value;
    assert (version + VarInt(n.value))[4] == VarInt(n.value)[0];
    NoInputs(raw, c);
    OutputListExtends(raw, Cursor(version + [0], n.next));
    var m := ReadVarInt(raw, n.next).value;
    assert (version + [0] + VarInt(m.value))[5] == VarInt(m.value)[0];
  }

  lemma CopiedThenRepeats(raw: bytes, version: bytes, o: TxOut)
    requires IsTxOut(o) && |version| == 4
    requires CopyCore(raw, Cursor(version, 6)).Ok? && CopyCore(raw, Cursor(version, 6)).value.out == MarkedBody(version, o)
    ensures RepeatsItself(raw, o)
  {
    hide CopyCore, CopyOutputList, ReadVarInt, VarInt, BytesAt;
    CountsAreSmall(raw, version, o);
    var n := ReadVarInt(raw, 6).value;
    NoInputs(raw, Cursor(version, 6));
    var m := ReadVarInt(raw, n.next).value;
    OneOutputCopied(raw, Cursor(version + [0], n.next), m);
    var front, value := version + [0] + [1], BytesAt(raw, m.next, 8);
    var k := ReadVarInt(raw, m.next + 8).value;
    var script := BytesAt(raw, k.next, k.value);
    AppendAssociates(front + value, VarInt(k.value), script);
    assert front + value + Prefixed(script) == front + o.value + Prefixed(o.script);
    SameTail(front, value, Prefixed(script), o.value, Prefixed(o.script));
    SamePrefixed(script, o.script);
  }

  lemma SameTail(front: bytes, a: bytes, b: bytes, c: bytes, d: bytes)
    requires |a| == |c| && front + a + b == front + c + d
    ensures a == c && b == d
  {
    var s, t, n := front + a + b, front + c + d, |front|;
    assert a == s[n..n + |a|] && c == t[n..n + |a|];
    assert b == s[n + |a|..] && d == t[n + |a|..];
  }

  lemma SamePrefixed(a: bytes, b: bytes)
    requires |a| < TWO32 && |b| < TWO32 && Prefixed(a) == Prefixed(b)
    ensures a == b
  {
    assert At(Prefixed(a), 0, Prefixed(a)) && At(Prefixed(a), 0, Prefixed(b));
    PrefixedIsUnique(Prefixed(a), 0, a, b);
  }

  lemma MarkedLayout(t: Tx)
    requires IsTx(t) && |t.inputs| == 0 && |t.outputs| == 1
    ensures IsTxOut(t.outputs[0])
    ensures Legacy(t) == MarkedBody(t.version, t.outputs[0]) + t.locktime
  {
    var o := t.outputs[0];
    assert IsTxOut(o);
    assert t.outputs[1..] == [] && OutputsBytes([]) == [];
    assert OutputsBytes(t.outputs) == OutputBytes(o);
    assert t.inputs == [] && InputsBytes([]) == [];
  }

  /** Only a legacy serialization that repeats itself survives the re-encoding stripper in spite of its marker. */
  lemma MarkedLegacyIff(t: Tx)
    requires IsTx(t) && |t.inputs| == 0 && |t.outputs| == 1
    ensures Stripped(Legacy(t)) == Ok(Legacy(t)) <==> RepeatsItself(Legacy(t), t.outputs[0])
  {
    hide CopyCore, Legacy, RepeatsItself, MarkedBody;
    MarkedLayout(t);
    MarkerInLegacy(t);
    var raw, o := Legacy(t), t.outputs[0];
    var body := MarkedBody(t.version, o);
    MarkedPrefix(t);
    assert raw[|raw| - 4..] == t.locktime;
    if RepeatsItself(raw, o) {
      RepeatsThenCopied(raw, t.version, o);
    }
    var core := CopyCore(raw, Cursor(t.version, 6));
    if core.Ok? && core.value.out + t.locktime == raw {
      SameFront(core.value.out, body, t.locktime);
      CopiedThenRepeats(raw, t.version, o);
    }
  }

  lemma MarkedPrefix(t: Tx)
    requires IsTx(t)
    ensures Legacy(t)[..4] == t.version
  {
  }

  lemma SameFront(a: bytes, b: bytes, end: bytes)
    requires a + end == b + end
    ensures a == b
  {
    assert a == (a + end)[..|a|] && b == (b + end)[..|a|];
  }

  /** The shapes that pass for a marked string. */
  predicate LooksMarked(t: Tx) {
    |t.inputs| == 0 && |t.outputs| == 1
  }

  /**
   Legacy serializations pass through both strippers, except those with no input and one output, which read as
   marked. The slicing stripper never returns those unchanged, the re-encoding one exactly when they repeat themselves.
   */
  lemma LegacyIsUnchanged(t: Tx)
    requires IsTx(t)
    ensures StrippedData(Legacy(t)) == Ok(Legacy(t)) <==> !LooksMarked(t)
    ensures Stripped(Legacy(t)) == Ok(Legacy(t)) <==> (LooksMarked(t) ==> RepeatsItself(Legacy(t), t.outputs[0]))
  {
    hide StrippedData, Legacy, RepeatsItself;
    MarkerInLegacy(t);
    DataPassesThroughIff(Legacy(t));
    if LooksMarked(t) {
      MarkedLegacyIff(t);
    }
  }

  /** Stripping twice is stripping once, exactly under the same conditions. */
  lemma StrippingIsIdempotent(t: Tx)
    requires IsTx(t)
    ensures StrippedData(Segwit(t)).Ok? && Stripped(Segwit(t)).Ok?
    ensures StrippedData(StrippedData(Segwit(t)).value) == StrippedData(Segwit(t)) <==> !LooksMarked(t)
    ensures Stripped(Stripped(Segwit(t)).value) == Stripped(Segwit(t))
            <==> (LooksMarked(t) ==> RepeatsItself(Legacy(t), t.outputs[0]))
  {
    hide Stripped, StrippedData, Segwit, Legacy, RepeatsItself;
    StrippersAgree(t, []);
    LegacyIsUnchanged(t);
  }

  function OneOutput(value: bytes, locktime: bytes): Tx {
    Tx([2, 0, 0, 0], [], [TxOut(value, [])], [], locktime)
  }

  lemma OneOutputBytes(value: bytes, locktime: bytes)
    requires |value| == 8 && |locktime| == 4
    ensures IsTx(OneOutput(value, locktime))
    ensures Legacy(OneOutput(value, locktime)) == [2, 0, 0, 0, 0, 1] + value + [0] + locktime
  {
    var t := OneOutput(value, locktime);
    assert t.outputs[1..] == [] && OutputsBytes([]) == [];
    assert OutputsBytes(t.outputs) == value + [0];
  }

  /**
   In the exceptional shape the re-encoding stripper changes most transactions but not all: a value whose bytes repeat
   the marker, with a matching lock time, is copied onto itself.
   */
  lemma ExceptionalShapes()
    ensures var t := OneOutput([0, 0, 0, 0, 0, 0, 0, 0], [0, 0, 0, 0]);
            IsTx(t) && Stripped(Legacy(t)).Ok? && Stripped(Legacy(t)) != Ok(Legacy(t))
    ensures var t := OneOutput([0, 1, 0, 1, 0, 1, 0, 1], [1, 0, 9, 9]);
            IsTx(t) && Stripped(Legacy(t)) == Ok(Legacy(t))
  {
    hide Stripped, Legacy, IsTx, OneOutput;
    var zeros: bytes, repeats: bytes := [0, 0, 0, 0, 0, 0, 0, 0], [0, 1, 0, 1, 0, 1, 0, 1];
    OneOutputBytes(zeros, [0, 0, 0, 0]);
    OneOutputBytes(repeats, [1, 0, 9, 9]);
    EmptyShape([2, 0, 0, 0, 0, 1] + zeros + [0] + [0, 0, 0, 0]);
    RepeatingShape([2, 0, 0, 0, 0, 1] + repeats + [0] + [1, 0, 9, 9]);
  }

  lemma EmptyShape(raw: bytes)
    requires raw == [2, 0, 0, 0, 0, 1, 0, 0, 0, 0, 0, 0, 0, 0, 0, 0, 0, 0, 0]
    ensures Stripped(raw).Ok? && |Stripped(raw).value| == 10
  {
    var c := Cursor(raw[..4], 6);
    assert ReadVarInt(raw, 6) == Ok(Reading(0, 7)) && ReadVarInt(raw, 7) == Ok(Reading(0, 8));
    assert CopyCore(raw, c).Ok? && |CopyCore(raw, c).value.out| == 6;
  }

  lemma RepeatingShape(raw: bytes)
    requires raw == [2, 0, 0, 0, 0, 1, 0, 1, 0, 1, 0, 1, 0, 1, 0, 1, 0, 9, 9]
    ensures Stripped(raw) == Ok(raw)
  {
    hide CopyScript, CopyOutput;
    var c := Cursor(raw[..4], 6);
    assert ReadVarInt(raw, 6) == Ok(Reading(0, 7)) && ReadVarInt(raw, 7) == Ok(Reading(1, 8));
    var d := Cursor(raw[..4] + [0] + [1], 8);
    RepeatingOutput(raw, d);
    assert CopyInputList(raw, c) == Ok(Cursor(raw[..4] + [0], 7));
    assert CopyOutputs(raw, d, 1) == CopyOutput(raw, d);
    assert raw == raw[..15] + raw[15..];
  }

  lemma RepeatingOutput(raw: bytes, d: Cursor)
    requires raw == [2, 0, 0, 0, 0, 1, 0, 1, 0, 1, 0, 1, 0, 1, 0, 1, 0, 9, 9] && d == Cursor(raw[..4] + [0] + [1], 8)
    ensures CopyOutput(raw, d) == Ok(Cursor(raw[..15], 17))
  {
    hide CopyScript, Copy;
    var value: bytes := [0, 1, 0, 1, 0, 1, 0, 1];
    assert At(raw, 8, value);
    CopiesBytes(raw, d, value);
    var e := Cursor(d.out + value, 16);
    assert Prefixed([]) == [0] && At(raw, 16, Prefixed([]));
    CopiesScript(raw, e, []);
    assert e.out + [0] == raw[..15];
  }

  /** A 64-bit count is refused by one stripper; the other skips eight bytes and keeps the low four as the count. */
  lemma SixtyFourBitLengthsDiffer()
    ensures var raw: bytes := [2, 0, 0, 0, 0, 1, 0xff, 0, 0, 0, 0, 9, 9, 9, 9, 0, 7, 7, 7, 7];
            StrippedData(raw) == Err(SixtyFourBit) && Stripped(raw) == Ok([2, 0, 0, 0, 0, 0, 7, 7, 7, 7])
  {
    var raw: bytes := [2, 0, 0, 0, 0, 1, 0xff, 0, 0, 0, 0, 9, 9, 9, 9, 0, 7, 7, 7, 7];
    assert ReadVarint(raw, 6) == Err(SixtyFourBit);
    assert ReadVarInt(raw, 6) == Ok(Reading(0, 15));
    assert ReadVarInt(raw, 15) == Ok(Reading(0, 16));
    EmptyCore(raw, 15);
    assert raw[..4] + [0] + [0] + raw[16..] == [2, 0, 0, 0, 0, 0, 7, 7, 7, 7];
  }

  lemma EmptyCore(raw: bytes, mid: nat)
    requires |raw| >= 6 && ReadVarInt(raw, 6) == Ok(Reading(0, mid)) && ReadVarInt(raw, mid).Ok?
    requires ReadVarInt(raw, mid).value.value == 0
    ensures CopyCore(raw, Cursor(raw[..4], 6)).Ok?
    ensures CopyCore(raw, Cursor(raw[..4], 6)).value.out == raw[..4] + [0] + [0]
  {
    hide ReadVarInt;
  }

  /**
   Truncated inputs. A missing count is an error in both; a script that runs past the end is filled up with zeros by one
   stripper and cut short, together with the lock time, by the other.
   */
  lemma TruncatedInputs()
    ensures Stripped([2, 0, 0, 0, 0, 1]) == Err(OutOfRange) && StrippedData([2, 0, 0, 0, 0, 1]) == Err(SixtyFourBit)
    ensures Stripped([2, 0, 0, 0, 0, 1, 0xfd, 1]) == StrippedData([2, 0, 0, 0, 0, 1, 0xfd, 1]) == Err(OutOfRange)
    ensures Stripped(CutScript()) == Ok([2, 0, 0, 0] + [0] + [1] + [1, 1, 1, 1, 1, 1, 1, 1] + [3] + [8, 9, 0] + [1, 3, 8, 9])
    ensures StrippedData(CutScript()) == Ok([2, 0, 0, 0] + [0, 1, 1, 1, 1, 1, 1, 1, 1, 1, 3, 8, 9] + [])
  {
    CutScriptCopied();
    CutScriptSliced();
  }

  /** No input and one output whose script should have three bytes but has two. */
  function CutScript(): bytes {
    [2, 0, 0, 0, 0, 1, 0, 1, 1, 1, 1, 1, 1, 1, 1, 1, 3, 8, 9]
  }

  lemma CutScriptCopied()
    ensures Stripped(CutScript()) == Ok([2, 0, 0, 0] + [0] + [1] + [1, 1, 1, 1, 1, 1, 1, 1] + [3] + [8, 9, 0] + [1, 3, 8, 9])
  {
    hide CopyScript, CopyOutputList, CopyCore, ReadVarInt, BytesAt;
    var raw := CutScript();
    CutScriptStart(raw);
    NoInputs(raw, Cursor(raw[..4], 6));
    OneOutputCopied(raw, Cursor(raw[..4] + [0], 7), Reading(1, 8));
    CutScriptEnd(raw, Cursor(raw[..4] + [0] + [1] + BytesAt(raw, 8, 8), 16));
    assert raw[..4] == [2, 0, 0, 0] && raw[15..] == [1, 3, 8, 9];
  }

  lemma CutScriptStart(raw: bytes)
    requires raw == CutScript()
    ensures ReadVarInt(raw, 6) == Ok(Reading(0, 7)) && ReadVarInt(raw, 7) == Ok(Reading(1, 8))
    ensures BytesAt(raw, 8, 8) == [1, 1, 1, 1, 1, 1, 1, 1]
  {
  }

  lemma CutScriptEnd(raw: bytes, c: Cursor)
    requires raw == CutScript() && c.off == 16
    ensures CopyScript(raw, c) == Ok(Cursor(c.out + [3] + [8, 9, 0], 20))
  {
    assert ReadVarInt(raw, 16) == Ok(Reading(3, 17));
    assert BytesAt(raw, 17, 3) == [8, 9, 0];
  }

  lemma CutOutputSkipped(raw: bytes)
    requires raw == CutScript()
    ensures SkipOutputs(raw, 8, 1) == Ok(20)
  {
    assert SkipPrefixed(raw, 16) == Ok(20);
    assert SkipOutputs(raw, 8, 1) == SkipOutputs(raw, 20, 0);
  }

  lemma CutScriptSliced()
    ensures StrippedData(CutScript()) == Ok([2, 0, 0, 0] + [0, 1, 1, 1, 1, 1, 1, 1, 1, 1, 3, 8, 9] + [])
  {
    var raw := CutScript();
    assert ReadVarint(raw, 6) == Ok(Reading(0, 7)) && ReadVarint(raw, 7) == Ok(Reading(1, 8));
    CutOutputSkipped(raw);
    assert SkipCore(raw, 6) == Ok(CoreEnd(0, 20)) by { hide ReadVarint, SkipOutputs; }
    assert SkipStacks(raw, 20, 0) == Ok(20);
    assert Subarray(raw, 6, 20) == [0, 1, 1, 1, 1, 1, 1, 1, 1, 1, 3, 8, 9] && Subarray(raw, 20, 24) == [];
    assert raw[..4] == [2, 0, 0, 0];
  }

  // ---- The stripped bytes determine everything but the witness -----------------------------------------------

  lemma SameBytes(raw: bytes, off: nat, a: bytes, b: bytes)
    requires At(raw, off, a) && At(raw, off, b) && |a| == |b|
    ensures a == b
  {
  }

  lemma PrefixedIsUnique(raw: bytes, off: nat, a: bytes, b: bytes)
    requires |a| < TWO32 && |b| < TWO32 && At(raw, off, Prefixed(a)) && At(raw, off, Prefixed(b))
    ensures a == b
  {
    hide VarInt, ReadVarInt, At;
    AtSplit(raw, off, VarInt(|a|), a);
    AtSplit(raw, off, VarInt(|b|), b);
    ReadsVarInt(raw, off, |a|);
    ReadsVarInt(raw, off, |b|);
    SameBytes(raw, off + |VarInt(|a|)|, a, b);
  }

  lemma {:induction false} InputsAreUnique(raw: bytes, off: nat, a: seq<TxIn>, b: seq<TxIn>)
    requires AreInputs(a) && AreInputs(b) && |a| == |b|
    requires At(raw, off, InputsBytes(a)) && At(raw, off, InputsBytes(b))
    ensures a == b
    decreases a
  {
    hide Prefixed, At;
    if a != [] {
      var i, j := a[0], b[0];
      AtSplit(raw, off, InputBytes(i), InputsBytes(a[1..]));
      AtSplit(raw, off, InputBytes(j), InputsBytes(b[1..]));
      AtSplit(raw, off, i.outpoint, Prefixed(i.script) + i.sequence);
      AtSplit(raw, off, j.outpoint, Prefixed(j.script) + j.sequence);
      SameBytes(raw, off, i.outpoint, j.outpoint);
      AtSplit(raw, off + 36, Prefixed(i.script), i.sequence);
      AtSplit(raw, off + 36, Prefixed(j.script), j.sequence);
      PrefixedIsUnique(raw, off + 36, i.script, j.script);
      SameBytes(raw, off + 36 + |Prefixed(i.script)|, i.sequence, j.sequence);
      InputsAreUnique(raw, off + |InputBytes(i)|, a[1..], b[1..]);
      assert a == [a[0]] + a[1..] && b == [b[0]] + b[1..];
    }
  }

  lemma {:induction false} OutputsAreUnique(raw: bytes, off: nat, a: seq<TxOut>, b: seq<TxOut>)
    requires AreOutputs(a) && AreOutputs(b) && |a| == |b|
    requires At(raw, off, OutputsBytes(a)) && At(raw, off, OutputsBytes(b))
    ensures a == b
    decreases a
  {
    hide Prefixed, At;
    if a != [] {
      var o, p := a[0], b[0];
      AtSplit(raw, off, OutputBytes(o), OutputsBytes(a[1..]));
      AtSplit(raw, off, OutputBytes(p), OutputsBytes(b[1..]));
      AtSplit(raw, off, o.value, Prefixed(o.script));
      AtSplit(raw, off, p.value, Prefixed(p.script));
      SameBytes(raw, off, o.value, p.value);
      PrefixedIsUnique(raw, off + 8, o.script, p.script);
      OutputsAreUnique(raw, off + |OutputBytes(o)|, a[1..], b[1..]);
      assert a == [a[0]] + a[1..] && b == [b[0]] + b[1..];
    }
  }

  lemma CoreIsUnique(raw: bytes, off: nat, t: Tx, u: Tx)
    requires IsTx(t) && IsTx(u) && At(raw, off, CoreBytes(t)) && At(raw, off, CoreBytes(u))
    ensures t.inputs == u.inputs && t.outputs == u.outputs
  {
    hide VarInt, ReadVarInt, InputsBytes, OutputsBytes, At;
    AtSplit(raw, off, InputList(t.inputs), OutputList(t.outputs));
    AtSplit(raw, off, InputList(u.inputs), OutputList(u.outputs));
    AtSplit(raw, off, VarInt(|t.inputs|), InputsBytes(t.inputs));
    AtSplit(raw, off, VarInt(|u.inputs|), InputsBytes(u.inputs));
    ReadsVarInt(raw, off, |t.inputs|);
    ReadsVarInt(raw, off, |u.inputs|);
    InputsAreUnique(raw, off + |VarInt(|t.inputs|)|, t.inputs, u.inputs);
    var mid := off + |InputList(t.inputs)|;
    AtSplit(raw, mid, VarInt(|t.outputs|), OutputsBytes(t.outputs));
    AtSplit(raw, mid, VarInt(|u.outputs|), OutputsBytes(u.outputs));
    ReadsVarInt(raw, mid, |t.outputs|);
    ReadsVarInt(raw, mid, |u.outputs|);
    OutputsAreUnique(raw, mid + |VarInt(|t.outputs|)|, t.outputs, u.outputs);
  }

  /** Two transactions strip to the same bytes exactly when they differ at most in their witnesses. */
  lemma StrippingForgetsExactlyTheWitness(t: Tx, u: Tx)
    requires IsTx(t) && IsTx(u)
    ensures Stripped(Segwit(t)) == Stripped(Segwit(u)) <==>
            t.version == u.version && t.inputs == u.inputs && t.outputs == u.outputs && t.locktime == u.locktime
  {
    hide Stripped, Segwit, CoreBytes, At;
    StripsToLegacy(t);
    StripsToLegacy(u);
    if Legacy(t) == Legacy(u) {
      LegacyIsInjective(t, u);
    }
    if t.inputs == u.inputs && t.outputs == u.outputs {
      SameCore(t, u);
    }
  }

  lemma SameCore(t: Tx, u: Tx)
    requires IsTx(t) && IsTx(u) && t.inputs == u.inputs && t.outputs == u.outputs
    ensures CoreBytes(t) == CoreBytes(u)
  {
  }

  lemma LegacyIsInjective(t: Tx, u: Tx)
    requires IsTx(t) && IsTx(u) && Legacy(t) == Legacy(u)
    ensures t.version == u.version && t.inputs == u.inputs && t.outputs == u.outputs && t.locktime == u.locktime
  {
    hide CoreBytes;
    var raw := Legacy(t);
    assert At(raw, 0, raw);
    AtSplit(raw, 0, t.version, CoreBytes(t) + t.locktime);
    AtSplit(raw, 0, u.version, CoreBytes(u) + u.locktime);
    SameBytes(raw, 0, t.version, u.version);
    AtSplit(raw, 4, CoreBytes(t), t.locktime);
    AtSplit(raw, 4, CoreBytes(u), u.locktime);
    CoreIsUnique(raw, 4, t, u);
    SameCore(t, u);
    SameBytes(raw, 4 + |CoreBytes(t)|, t.locktime, u.locktime);
  }
}

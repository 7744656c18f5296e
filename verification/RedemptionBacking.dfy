/** Reserved Bitcoin against the requests it was reserved for. */
module RedemptionBacking {
  import opened Common
  import opened MapTotals
  import opened RedemptionSpec
  import opened RedemptionRuns

  ghost function ReservedAmount(u: Utxo): int {
    if u.reserved then u.amount else 0
  }

  /** Sum of all reserved UTXO records. */
  ghost function ReservedTotal(utxos: map<UtxoId, Utxo>): int {
    Total(Weights(utxos, ReservedAmount))
  }

  ghost function Inputs(requests: map<Key, Request>): map<Key, int> {
    map k | k in requests :: requests[k].totalInput as int
  }

  /** Sum of the inputs recorded in open requests. */
  ghost function InputTotal(requests: map<Key, Request>): int {
    Total(Inputs(requests))
  }

  /** What is reserved is exactly what the open requests say was reserved for them. */
  ghost predicate Backed(l: Ledger) {
    ReservedTotal(l.utxos) == InputTotal(l.requests)
  }

  lemma InputAdds(requests: map<Key, Request>, k: Key, r: Request)
    ensures InputTotal(requests[k := r]) ==
            InputTotal(requests) + r.totalInput - (if k in requests then requests[k].totalInput as int else 0)
  {
    TotalUpdate(Inputs(requests), k, r.totalInput);
    assert Inputs(requests[k := r]) == Inputs(requests)[k := r.totalInput as int];
  }

  lemma InputRemoves(requests: map<Key, Request>, k: Key)
    requires k in requests
    ensures InputTotal(requests - {k}) == InputTotal(requests) - requests[k].totalInput
  {
    TotalSplit(Inputs(requests), k);
    assert Inputs(requests - {k}) == Inputs(requests) - {k};
  }

  lemma ReservedRemoves(utxos: map<UtxoId, Utxo>, id: UtxoId)
    requires id in utxos && utxos[id].reserved
    ensures ReservedTotal(utxos - {id}) == ReservedTotal(utxos) - utxos[id].amount
  {
    TotalSplit(Weights(utxos, ReservedAmount), id);
    assert Weights(utxos - {id}, ReservedAmount) == Weights(utxos, ReservedAmount) - {id};
  }

  lemma {:induction false} ReserveAdds(utxos: map<UtxoId, Utxo>, ids: seq<UtxoId>)
    requires Reserve(utxos, ids).Ok?
    ensures ReservedTotal(Reserve(utxos, ids).value.utxos) == ReservedTotal(utxos) + Reserve(utxos, ids).value.total
  {
    hide ReservedTotal;
    if ids != [] {
      ReserveAdds(utxos, ids[..|ids| - 1]);
      var r, last := Reserve(utxos, ids[..|ids| - 1]).value, ids[|ids| - 1];
      ReservingAdds(r.utxos, last);
    }
  }

  lemma ReservingAdds(utxos: map<UtxoId, Utxo>, id: UtxoId)
    requires id in utxos && !utxos[id].reserved
    ensures ReservedTotal(utxos[id := Utxo(utxos[id].amount, true)]) == ReservedTotal(utxos) + utxos[id].amount
  {
    WeightUpdate(utxos, id, Utxo(utxos[id].amount, true), ReservedAmount);
  }

  /** A new record that is not reserved adds nothing. */
  lemma UnreservedAddsNothing(utxos: map<UtxoId, Utxo>, id: UtxoId, amount: u64)
    requires id !in utxos
    ensures ReservedTotal(utxos[id := Utxo(amount, false)]) == ReservedTotal(utxos)
  {
    WeightUpdate(utxos, id, Utxo(amount, false), ReservedAmount);
  }

  /** Sum of the listed records. */
  function ListedTotal(utxos: map<UtxoId, Utxo>, ids: seq<UtxoId>): int {
    if ids == [] then 0 else
      var last := ids[|ids| - 1];
      ListedTotal(utxos, ids[..|ids| - 1]) + (if last in utxos then utxos[last].amount else 0)
  }

  lemma {:induction false} ConsumeKeepsRecords(utxos: map<UtxoId, Utxo>, ids: seq<UtxoId>, id: UtxoId)
    requires Consume(utxos, ids).Ok? && id in Consume(utxos, ids).value
    ensures id in utxos && Consume(utxos, ids).value[id] == utxos[id]
  {
    if ids != [] {
      ConsumeKeepsRecords(utxos, ids[..|ids| - 1], id);
    }
  }

  lemma {:induction false} ConsumeSubtracts(utxos: map<UtxoId, Utxo>, ids: seq<UtxoId>)
    requires Consume(utxos, ids).Ok?
    ensures ReservedTotal(Consume(utxos, ids).value) == ReservedTotal(utxos) - ListedTotal(utxos, ids)
  {
    hide ReservedTotal;
    if ids != [] {
      var shorter, last := ids[..|ids| - 1], ids[|ids| - 1];
      ConsumeSubtracts(utxos, shorter);
      ConsumeKeepsRecords(utxos, shorter, last);
      ReservedRemoves(Consume(utxos, shorter).value, last);
    }
  }

  /** The change record is not reserved, so it is not among the records that can be closed. */
  lemma {:induction false} ChangeIsNotListed(utxos: map<UtxoId, Utxo>, id: UtxoId, amount: u64, ids: seq<UtxoId>)
    requires id !in utxos && Consume(utxos[id := Utxo(amount, false)], ids).Ok?
    ensures ListedTotal(utxos[id := Utxo(amount, false)], ids) == ListedTotal(utxos, ids)
  {
    var grown := utxos[id := Utxo(amount, false)];
    if ids != [] {
      var shorter, last := ids[..|ids| - 1], ids[|ids| - 1];
      ChangeIsNotListed(utxos, id, amount, shorter);
      ConsumeKeepsRecords(grown, shorter, last);
    }
  }

  lemma SettleSubtracts(l: Ledger, ix: CompleteIx, outs: seq<Output>)
    requires SettleUtxos(l, ix, outs).Ok?
    ensures ReservedTotal(SettleUtxos(l, ix, outs).value) == ReservedTotal(l.utxos) - ListedTotal(l.utxos, ix.consumed)
  {
    hide ReservedTotal, ListedTotal, Consume;
    var change := Change(l, ix, outs);
    if change.Some? {
      var id, amount := UtxoId(ix.txid, change.value), outs[change.value].value;
      UnreservedAddsNothing(l.utxos, id, amount);
      ChangeIsNotListed(l.utxos, id, amount, ix.consumed);
      ConsumeSubtracts(l.utxos[id := Utxo(amount, false)], ix.consumed);
    } else {
      ConsumeSubtracts(l.utxos, ix.consumed);
    }
  }

  /**
   A property of the instruction and the request it names: a marking lists its UTXOs or claims nothing, a cancelled
   request has nothing reserved, and a completion closes records worth exactly what was reserved for its request.
   */
  predicate KeepsBacking(l: Ledger, ix: Instruction) {
    match ix
    case DoDeposit(_) => true
    case DoRequest(_) => true
    case DoMark(m) => m.utxos != [] || m.legacyTotal == 0
    case DoCancel(c) => c.key in l.requests && l.requests[c.key].totalInput == 0
    case DoComplete(c) => c.key in l.requests && ListedTotal(l.utxos, c.consumed) == l.requests[c.key].totalInput
  }

  lemma MarkBackedIff(l: Ledger, ix: MarkIx)
    requires Inv(l) && Backed(l) && MarkStep(l, ix).Ok?
    ensures Backed(MarkStep(l, ix).value.ledger) <==> ix.utxos != [] || ix.legacyTotal == 0
  {
    hide ReservedTotal, InputTotal, RemoveUtxos, UtxoInv;
    assert RequestInv(ix.key, l.requests[ix.key]);
    ReserveAdds(l.utxos, ix.utxos);
    InputAdds(l.requests, ix.key, MarkStep(l, ix).value.ledger.requests[ix.key]);
  }

  lemma CompleteBackedIff(l: Ledger, ix: CompleteIx)
    requires Backed(l) && CompleteStep(l, ix).Ok?
    ensures Backed(CompleteStep(l, ix).value.ledger) <==> KeepsBacking(l, DoComplete(ix))
  {
    hide ReservedTotal, InputTotal, CheckPayment, SettleUtxos, SettlePool, Change, ListedTotal;
    SettleSubtracts(l, ix, ix.outputs.value);
    InputRemoves(l.requests, ix.key);
  }

  lemma OthersBackedIff(l: Ledger, ix: Instruction)
    requires Backed(l) && Step(l, ix).Ok? && !ix.DoMark? && !ix.DoComplete?
    ensures Backed(Step(l, ix).value.ledger) <==> KeepsBacking(l, ix)
  {
    hide ReservedTotal, InputTotal, ServiceFee, MayCancel;
    match ix
    case DoDeposit(d) => UnreservedAddsNothing(l.utxos, d.utxo, d.amount);
    case DoRequest(r) =>
      InputAdds(l.requests, Key(r.user, r.nonce),
                Request(r.user, r.amount, ServiceFee(l, r.amount), r.script, Pending, 0, 0));
    case DoCancel(c) => InputRemoves(l.requests, c.key);
  }

  /** One instruction keeps the backing exactly when it has that property. */
  lemma StepBackedIff(l: Ledger, ix: Instruction)
    requires Inv(l) && Backed(l) && Step(l, ix).Ok?
    ensures Backed(Step(l, ix).value.ledger) <==> KeepsBacking(l, ix)
  {
    hide Backed, Inv, MarkStep, CompleteStep, DepositStep, RequestStep, CancelStep, ListedTotal;
    match ix
    case DoMark(m) => MarkBackedIff(l, m);
    case DoComplete(c) => CompleteBackedIff(l, c);
    case DoDeposit(_) => OthersBackedIff(l, ix);
    case DoRequest(_) => OthersBackedIff(l, ix);
    case DoCancel(_) => OthersBackedIff(l, ix);
  }

  predicate BackingAt(start: Ledger, ixs: seq<Instruction>, n: nat)
    requires n < |ixs|
  {
    var l := Run(start, ixs[..n]).ledger;
    Step(l, ixs[n]).Ok? ==> KeepsBacking(l, ixs[n])
  }

  lemma LastStepBacks(start: Ledger, ixs: seq<Instruction>)
    requires Inv(start) && ixs != [] && Backed(Run(start, ixs[..|ixs| - 1]).ledger)
    ensures Backed(Run(start, ixs).ledger) <==> BackingAt(start, ixs, |ixs| - 1)
  {
    hide Step, Inv, Backed, KeepsBacking;
    RunKeepsInv(start, ixs[..|ixs| - 1]);
    var l, last := Run(start, ixs[..|ixs| - 1]).ledger, ixs[|ixs| - 1];
    if Step(l, last).Ok? {
      StepBackedIff(l, last);
    }
  }

  lemma SameBacking(start: Ledger, ixs: seq<Instruction>, n: nat)
    requires n < |ixs| - 1
    ensures BackingAt(start, ixs[..|ixs| - 1], n) <==> BackingAt(start, ixs, n)
  {
    assert ixs[..|ixs| - 1][..n] == ixs[..n];
  }

  /** Over a whole run every prefix is backed if and only if every instruction that goes through keeps the backing. */
  lemma {:induction false} RunBackedIff(start: Ledger, ixs: seq<Instruction>)
    requires Inv(start) && Backed(start)
    ensures (forall n | 0 <= n <= |ixs| :: Backed(Run(start, ixs[..n]).ledger))
            <==> (forall n | 0 <= n < |ixs| :: BackingAt(start, ixs, n))
    decreases |ixs|
  {
    hide Backed, BackingAt, Inv, Step;
    if ixs == [] {
      assert ixs[..0] == [];
    } else {
      var m := |ixs| - 1;
      var earlier := ixs[..m];
      RunBackedIff(start, earlier);
      forall n | 0 <= n <= m ensures earlier[..n] == ixs[..n] {
      }
      forall n | 0 <= n < m ensures BackingAt(start, earlier, n) <==> BackingAt(start, ixs, n) {
        SameBacking(start, ixs, n);
      }
      assert ixs[..|ixs|] == ixs && earlier[..m] == earlier;
      if Backed(Run(start, earlier).ledger) {
        LastStepBacks(start, ixs);
      }
    }
  }

  // ---- A reservation ends only by closing the record ---------------------------------------------------------

  lemma {:induction false} ReserveKeepsReserved(utxos: map<UtxoId, Utxo>, ids: seq<UtxoId>, id: UtxoId)
    requires Reserve(utxos, ids).Ok? && id in utxos && utxos[id].reserved
    ensures id in Reserve(utxos, ids).value.utxos && Reserve(utxos, ids).value.utxos[id] == utxos[id]
  {
    if ids != [] {
      ReserveKeepsReserved(utxos, ids[..|ids| - 1], id);
    }
  }

  lemma {:induction false} ConsumeClosesOnlyListed(utxos: map<UtxoId, Utxo>, ids: seq<UtxoId>, id: UtxoId)
    requires Consume(utxos, ids).Ok? && id in utxos && id !in ids
    ensures id in Consume(utxos, ids).value
  {
    if ids != [] {
      ConsumeClosesOnlyListed(utxos, ids[..|ids| - 1], id);
    }
  }

  /** No instruction makes a reserved record spendable again: it stays as it is, or a completion that lists it closes it. */
  lemma ReservedStaysReserved(l: Ledger, ix: Instruction, id: UtxoId)
    requires Step(l, ix).Ok? && id in l.utxos && l.utxos[id].reserved
    ensures var after := Step(l, ix).value.ledger.utxos;
            && (id in after ==> after[id] == l.utxos[id])
            && (id !in after ==> ix.DoComplete? && id in ix.complete.consumed)
  {
    hide CheckPayment, SettlePool, Change, RemoveUtxos, MayCancel, ServiceFee;
    match ix
    case DoMark(m) => ReserveKeepsReserved(l.utxos, m.utxos, id);
    case DoComplete(c) =>
      var outs := c.outputs.value;
      var change := Change(l, c, outs);
      var grown := if change.Some? then
                     l.utxos[UtxoId(c.txid, change.value) := Utxo(outs[change.value].value, false)] else l.utxos;
      var after := Step(l, ix).value.ledger.utxos;
      assert Consume(grown, c.consumed).Ok? && Consume(grown, c.consumed).value == after;
      if id in after {
        ConsumeKeepsRecords(grown, c.consumed, id);
      } else if id !in c.consumed {
        ConsumeClosesOnlyListed(grown, c.consumed, id);
      }
    case DoDeposit(_) =>
    case DoRequest(_) =>
    case DoCancel(_) =>
  }
}

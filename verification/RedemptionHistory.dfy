/** The order in which things can happen to one request, and what each closing leaves behind. */
module RedemptionHistory {
  import opened Common
  import opened RedemptionSpec
  import opened RedemptionRuns

  /** Where a request stands, with the terms fixed when it was opened. */
  datatype Phase =
    | Absent
    | Waiting(amount: u64, serviceFee: u64)
    | InProgress(amount: u64, serviceFee: u64, since: u32)

  function PhaseOf(l: Ledger, k: Key): Phase {
    if k !in l.requests then Absent
    else
      var r := l.requests[k];
      if r.status == Pending then Waiting(r.amount, r.serviceFee)
      else InProgress(r.amount, r.serviceFee, r.processingSlot)
  }

  /**
   The only legal moves of one request: opened when absent; marked once, while waiting; cancelled while waiting, or
   after the timeout counted from the low 32 bits of the marking slot, for the amount it was opened with; completed only
   while in progress, for the amount and the service fee it was opened with.
   */
  function Advance(phase: Option<Phase>, e: Event, k: Key): Option<Phase> {
    if phase.None? || e.Deposited? || e.key != k then phase
    else
      match e
      case Opened(_, amount, fee) => if phase.value.Absent? then Some(Waiting(amount, fee)) else None
      case Marked(_, slot) =>
        if phase.value.Waiting? then Some(InProgress(phase.value.amount, phase.value.serviceFee, slot % TWO32)) else None
      case Cancelled(_, amount, slot) =>
        if && (phase.value.Waiting? || (phase.value.InProgress? && slot >= phase.value.since + 216_000))
           && amount == phase.value.amount
        then Some(Absent) else None
      case Completed(_, amount, fee, _, _, _) =>
        if phase.value.InProgress? && amount == phase.value.amount && fee == phase.value.serviceFee
        then Some(Absent) else None
  }

  function Replay(phase: Phase, events: seq<Event>, k: Key): Option<Phase> {
    if events == [] then Some(phase)
    else Advance(Replay(phase, events[..|events| - 1], k), events[|events| - 1], k)
  }

  lemma StepAdvances(l: Ledger, ix: Instruction, k: Key)
    requires Inv(l) && Step(l, ix).Ok?
    ensures Advance(Some(PhaseOf(l, k)), Step(l, ix).value.event, k) == Some(PhaseOf(Step(l, ix).value.ledger, k))
  {
    hide UtxoInv, Reserve, RemoveUtxos, SettleUtxos, MinPayment, MinerFee;
    if ix.DoComplete? {
      assert RequestInv(ix.complete.key, l.requests[ix.complete.key]);
    } else if ix.DoMark? {
      assert RequestInv(ix.mark.key, l.requests[ix.mark.key]);
    } else if ix.DoCancel? {
      assert RequestInv(ix.cancel.key, l.requests[ix.cancel.key]);
    }
  }

  /**
   In every run the history of every request is legal. So a request closes at most once per opening, completion comes
   only after a marking (although the handler itself also lets a waiting request through its status check), and a
   marked request is not cancelled before its timeout.
   */
  lemma {:induction false} EveryHistoryIsLegal(start: Ledger, ixs: seq<Instruction>, k: Key)
    requires Inv(start)
    ensures Replay(PhaseOf(start, k), Run(start, ixs).events, k) == Some(PhaseOf(Run(start, ixs).ledger, k))
  {
    hide Inv, Step, PhaseOf, Advance;
    if ixs != [] {
      var earlier, last := ixs[..|ixs| - 1], ixs[|ixs| - 1];
      EveryHistoryIsLegal(start, earlier, k);
      RunKeepsInv(start, earlier);
      var before := Run(start, earlier);
      if Step(before.ledger, last).Ok? {
        StepAdvances(before.ledger, last, k);
        var es := Run(start, ixs).events;
        assert es[..|es| - 1] == before.events;
      }
    }
  }

  /** Receipts never disappear, and each completion's transaction id has one afterwards. */
  lemma {:induction false} CompletionsHaveReceipts(start: Ledger, ixs: seq<Instruction>, i: nat)
    requires i < |Run(start, ixs).events| && Run(start, ixs).events[i].Completed?
    ensures Run(start, ixs).events[i].txid in Run(start, ixs).ledger.receipts
  {
    hide Step;
    if ixs != [] {
      var earlier, last := ixs[..|ixs| - 1], ixs[|ixs| - 1];
      var before := Run(start, earlier);
      if Step(before.ledger, last).Ok? {
        StepReceipts(before.ledger, last);
      }
      if i < |before.events| {
        CompletionsHaveReceipts(start, earlier, i);
      }
    }
  }

  lemma StepReceipts(l: Ledger, ix: Instruction)
    requires Step(l, ix).Ok?
    ensures var o := Step(l, ix).value;
            && l.receipts <= o.ledger.receipts
            && (o.event.Completed? ==> o.event.txid !in l.receipts && o.event.txid in o.ledger.receipts)
  {
    hide Reserve, RemoveUtxos, SettleUtxos, MinPayment, MinerFee;
  }

  /** One Bitcoin transaction completes at most one redemption. */
  lemma {:induction false} CompletionsUseDistinctTransactions(start: Ledger, ixs: seq<Instruction>, i: nat, j: nat)
    requires i < j < |Run(start, ixs).events|
    requires Run(start, ixs).events[i].Completed? && Run(start, ixs).events[j].Completed?
    ensures Run(start, ixs).events[i].txid != Run(start, ixs).events[j].txid
  {
    hide Step;
    var earlier, last := ixs[..|ixs| - 1], ixs[|ixs| - 1];
    var before := Run(start, earlier);
    if j < |before.events| {
      CompletionsUseDistinctTransactions(start, earlier, i, j);
    } else {
      CompletionsHaveReceipts(start, earlier, i);
      StepReceipts(before.ledger, last);
    }
  }

  /**
   Cancelling right after requesting gives the pool back its balance and its set of requests, and its counter too
   exactly when the counter was not full. What stays changed: one more leaf, the spent nullifier, and the token
   counters, which keep the lower balance and the fee.
   */
  lemma CancelUndoesRequest(l: Ledger, request: RequestIx, cancel: CancelIx)
    requires RequestStep(l, request).Ok?
    requires cancel.key == Key(request.user, request.nonce)
    requires CancelStep(RequestStep(l, request).value.ledger, cancel).Ok?
    ensures var m := CancelStep(RequestStep(l, request).value.ledger, cancel).value.ledger;
            && (m.pool == l.pool <==> l.pool.pending < U64_MAX) && m.pool == l.pool.(pending := m.pool.pending)
            && m.requests == l.requests && m.utxos == l.utxos && m.receipts == l.receipts
            && m.leafCount == l.leafCount + 1
            && m.nullifiers == l.nullifiers + {request.nullifier}
            && m.token == l.token.(totalShielded := l.token.totalShielded - request.amount,
                                   accumulatedFees := l.token.accumulatedFees + ServiceFee(l, request.amount))
  {
    hide ServiceFee;
    var key := cancel.key;
    assert key !in l.requests;
    var r := RequestStep(l, request).value.ledger.requests[key];
    assert l.requests[key := r] - {key} == l.requests;
  }

  /**
   A marked request cannot be cancelled before its timeout exactly when it was marked at a slot below 2^32: only the
   low 32 bits of the slot are stored.
   */
  lemma TimeoutIsKeptIff(r: Request, markedAt: u64)
    requires r.status == Processing && r.processingSlot == markedAt % TWO32
    ensures (forall slot: u64 | MayCancel(r, slot) :: slot >= markedAt + REDEMPTION_TIMEOUT_SLOTS) <==> markedAt < TWO32
  {
    if markedAt >= TWO32 {
      var early: u64 := r.processingSlot + REDEMPTION_TIMEOUT_SLOTS;
      assert MayCancel(r, early);
    }
  }

  /** What every accepted completion has been checked for. */
  lemma CompletionIsPaid(l: Ledger, ix: CompleteIx)
    requires CompleteStep(l, ix).Ok?
    ensures ix.signer == l.pool.authority && !l.pool.paused
    ensures ix.verifiedTxid == ix.txHash == ix.txid && ix.txid !in l.receipts && ix.blockHeight + 5 <= ix.tip
    ensures ix.key in l.requests && ix.outputs.Some?
    ensures var r, outs := l.requests[ix.key], ix.outputs.value;
            && r.status != Failed && 0 < r.totalInput && r.amount <= MAX_REDEMPTION_AMOUNT_SATS
            && (exists o <- outs :: o.script == r.script && o.value + r.serviceFee + MAX_FEE_SATS >= r.amount)
            && r.totalInput <= SumOutputs(outs) + MAX_FEE_SATS
  {
    hide SettleUtxos, SettlePool, Change, SumOutputs;
    var r, outs := l.requests[ix.key], ix.outputs.value;
    var i := FirstPayment(outs, r.script, MinPayment(r));
    assert Pays(outs[i], r.script, MinPayment(r)) && outs[i] in outs;
  }
}

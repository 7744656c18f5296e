/** The handlers themselves, updating the accounts in place, proved against the transitions of RedemptionSpec. */
module RedemptionProgram {
  import opened Common
  import opened RedemptionSpec
  import opened RedemptionRuns
  import opened RedemptionHistory
  import opened RedemptionRules

  /** The handler's answer and its effect are those of the transition; an error leaves everything as it was. */
  ghost predicate Performed(before: Ledger, after: Ledger, r: Result<Event, Error>, spec: StepResult) {
    match spec
    case Err(e) => r == Err(e) && after == before
    case Ok(o) => r == Ok(o.event) && after == o.ledger
  }

  /**
   What a caller may rely on after any handler: an error changes nothing; a success keeps the invariant, moves every
   counter by what its event says, and moves every request along the legal phases.
   */
  ghost predicate Honest(before: Ledger, after: Ledger, r: Result<Event, Error>) {
    && (r.Err? ==> after == before)
    && (Inv(before) ==> Inv(after))
    && (r.Ok? ==> MovesBy(before, Outcome(after, r.value)))
    && (r.Ok? && Inv(before) ==>
          forall k :: Advance(Some(PhaseOf(before, k)), r.value, k) == Some(PhaseOf(after, k)))
  }

  lemma PerformedIsHonest(before: Ledger, after: Ledger, r: Result<Event, Error>, ix: Instruction)
    requires Performed(before, after, r, Step(before, ix))
    ensures Honest(before, after, r)
  {
    hide Step, Inv, MovesBy, Advance, PhaseOf;
    if Step(before, ix).Ok? {
      StepMoves(before, ix);
      if Inv(before) {
        StepKeepsInv(before, ix);
        forall k ensures Advance(Some(PhaseOf(before, k)), r.value, k) == Some(PhaseOf(after, k)) {
          StepAdvances(before, ix, k);
        }
      }
    }
  }

  /** Phase 1 of mark_processing. The writes are kept aside until the instruction succeeds. */
  method ReserveLoop(utxos: map<UtxoId, Utxo>, ids: seq<UtxoId>) returns (r: Result<Reservation, Error>)
    ensures r == Reserve(utxos, ids)
  {
    var acc := Reservation(utxos, [], 0);
    for i := 0 to |ids|
      invariant Reserve(utxos, ids[..i]) == Ok(acc)
    {
      assert ids[..i + 1][..i] == ids[..i];
      if ids[i] !in acc.utxos {
        ReserveFailsAt(utxos, ids, i + 1);
        return Err(InvalidUtxo);
      }
      var utxo := acc.utxos[ids[i]];
      if utxo.reserved {
        ReserveFailsAt(utxos, ids, i + 1);
        return Err(UtxoNotUnspent);
      }
      if acc.total + utxo.amount >= TWO64 {
        ReserveFailsAt(utxos, ids, i + 1);
        return Err(Arithmetic);
      }
      acc := Reservation(acc.utxos[ids[i] := Utxo(utxo.amount, true)], acc.amounts + [utxo.amount],
                         acc.total + utxo.amount);
    }
    assert ids[..|ids|] == ids;
    r := Ok(acc);
  }

  lemma {:induction false} ReserveFailsAt(utxos: map<UtxoId, Utxo>, ids: seq<UtxoId>, n: nat)
    requires n <= |ids| && Reserve(utxos, ids[..n]).Err?
    ensures Reserve(utxos, ids) == Reserve(utxos, ids[..n])
    decreases |ids|
  {
    if n == |ids| {
      assert ids[..n] == ids;
    } else {
      assert ids[..|ids| - 1][..n] == ids[..n];
      ReserveFailsAt(utxos, ids[..|ids| - 1], n);
    }
  }

  /** Phase 2 of mark_processing. */
  method RemoveLoop(pool: Pool, amounts: seq<u64>) returns (r: Option<Pool>)
    ensures r == RemoveUtxos(pool, amounts)
  {
    var acc := Some(pool);
    for i := 0 to |amounts|
      invariant acc == RemoveUtxos(pool, amounts[..i])
    {
      assert amounts[..i + 1][..i] == amounts[..i];
      if acc.Some? {
        acc := RemoveUtxo(acc.value, amounts[i]);
      }
    }
    assert amounts[..|amounts|] == amounts;
    r := acc;
  }

  method FindPayment(outs: seq<Output>, script: bytes, min: u64) returns (i: nat)
    ensures i == FirstPayment(outs, script, min)
  {
    i := 0;
    while i < |outs| && !(outs[i].script == script && outs[i].value >= min)
      invariant i <= |outs| && forall j | 0 <= j < i :: !Pays(outs[j], script, min)
    {
      i := i + 1;
    }
    var first := FirstPayment(outs, script, min);
    assert first < |outs| ==> Pays(outs[first], script, min);
    assert i < |outs| ==> Pays(outs[i], script, min);
  }

  method SumLoop(outs: seq<Output>) returns (total: u64)
    ensures total == SumOutputs(outs)
  {
    total := 0;
    for i := 0 to |outs|
      invariant total == SumOutputs(outs[..i])
    {
      assert outs[..i + 1][..i] == outs[..i];
      total := SaturatingAdd(total, outs[i].value);
    }
    assert outs[..|outs|] == outs;
  }

  method ConsumeLoop(utxos: map<UtxoId, Utxo>, ids: seq<UtxoId>) returns (r: Result<map<UtxoId, Utxo>, Error>)
    ensures r == Consume(utxos, ids)
  {
    var left := utxos;
    for i := 0 to |ids|
      invariant Consume(utxos, ids[..i]) == Ok(left)
    {
      assert ids[..i + 1][..i] == ids[..i];
      if ids[i] !in left || !left[ids[i]].reserved {
        ConsumeFailsAt(utxos, ids, i + 1);
        return Err(InvalidUtxo);
      }
      left := left - {ids[i]};
    }
    assert ids[..|ids|] == ids;
    r := Ok(left);
  }

  lemma {:induction false} ConsumeFailsAt(utxos: map<UtxoId, Utxo>, ids: seq<UtxoId>, n: nat)
    requires n <= |ids| && Consume(utxos, ids[..n]).Err?
    ensures Consume(utxos, ids) == Consume(utxos, ids[..n])
    decreases |ids|
  {
    if n == |ids| {
      assert ids[..n] == ids;
    } else {
      assert ids[..|ids| - 1][..n] == ids[..n];
      ConsumeFailsAt(utxos, ids[..|ids| - 1], n);
    }
  }

  class Program {
    var pool: Pool
    var token: Token
    var requests: map<Key, Request>
    var utxos: map<UtxoId, Utxo>
    var receipts: set<Txid>
    var nullifiers: set<nat>
    var leafCount: nat

    ghost function Accounts(): Ledger
      reads this
    {
      Ledger(pool, token, requests, utxos, receipts, nullifiers, leafCount)
    }

    constructor (pool: Pool, token: Token)
      requires pool.pending == 0 && pool.btcHeld == 0 && pool.utxoCount == 0
      ensures Accounts() == Ledger(pool, token, map[], map[], {}, {}, 0)
      ensures Inv(Accounts()) && Counted(Accounts())
    {
      this.pool := pool;
      this.token := token;
      requests := map[];
      utxos := map[];
      receipts := {};
      nullifiers := {};
      leafCount := 0;
    }

    method RequestRedemption(ix: RequestIx) returns (r: Result<Event, Error>)
      modifies this
      ensures Performed(old(Accounts()), Accounts(), r, RequestStep(old(Accounts()), ix))
      ensures Honest(old(Accounts()), Accounts(), r)
    {
      hide Inv, MovesBy, Advance, PhaseOf;
      if |ix.script| > MAX_BTC_SCRIPT_LEN {
        return Err(InvalidBtcAddress);
      }
      if pool.paused {
        return Err(PoolPaused);
      }
      var pct: u64 := (ix.amount * pool.withdrawalFeeBps / 10_000) % TWO64;
      var fee := SaturatingAdd(pct, token.serviceFee);
      if ix.amount < MIN_WITHDRAWAL_SATS {
        return Err(AmountTooSmall);
      }
      if fee > 0 {
        if fee + DUST_SATS >= TWO64 {
          return Err(Arithmetic);
        }
        if ix.amount <= fee + DUST_SATS {
          return Err(AmountTooSmall);
        }
      }
      if ix.amount > pool.totalShielded {
        return Err(InsufficientFunds);
      }
      if ix.script == [] {
        return Err(InvalidBtcAddress);
      }
      if !ix.rootAccepted {
        return Err(InvalidRoot);
      }
      if ix.nullifier in nullifiers {
        return Err(NullifierAlreadyUsed);
      }
      var key := Key(ix.user, ix.nonce);
      if key in requests {
        return Err(AlreadyInitialized);
      }
      if token.totalShielded < ix.amount || token.accumulatedFees + fee >= TWO64 {
        return Err(Arithmetic);
      }
      nullifiers := nullifiers + {ix.nullifier};
      requests := requests[key := Request(ix.user, ix.amount, fee, ix.script, Pending, 0, 0)];
      pool := pool.(totalShielded := pool.totalShielded - ix.amount, pending := SaturatingAdd(pool.pending, 1));
      token := token.(totalShielded := token.totalShielded - ix.amount, accumulatedFees := token.accumulatedFees + fee);
      r := Ok(Opened(key, ix.amount, fee));
      PerformedIsHonest(old(Accounts()), Accounts(), r, DoRequest(ix));
    }

    method MarkProcessing(ix: MarkIx) returns (r: Result<Event, Error>)
      modifies this
      ensures Performed(old(Accounts()), Accounts(), r, MarkStep(old(Accounts()), ix))
      ensures Honest(old(Accounts()), Accounts(), r)
    {
      hide Reserve, RemoveUtxos, Inv, MovesBy, Advance, PhaseOf;
      if ix.signer != pool.authority {
        return Err(Unauthorized);
      }
      if |ix.utxos| > MAX_UTXOS {
        return Err(InvalidInstruction);
      }
      var reserved := ReserveLoop(utxos, ix.utxos);
      if reserved.Err? {
        return Err(reserved.error);
      }
      var newPool := RemoveLoop(pool, reserved.value.amounts);
      if newPool.None? {
        return Err(Arithmetic);
      }
      if ix.key !in requests {
        return Err(InvalidAccount);
      }
      var request := requests[ix.key];
      if request.status != Pending {
        return Err(InvalidRedemptionState);
      }
      var total := if |ix.utxos| > 0 then reserved.value.total else ix.legacyTotal;
      pool := newPool.value;
      utxos := reserved.value.utxos;
      requests := requests[ix.key := request.(status := Processing, processingSlot := ix.slot % TWO32,
                                              totalInput := total)];
      r := Ok(Marked(ix.key, ix.slot));
      PerformedIsHonest(old(Accounts()), Accounts(), r, DoMark(ix));
    }

    method CancelRedemption(ix: CancelIx) returns (r: Result<Event, Error>)
      modifies this
      ensures Performed(old(Accounts()), Accounts(), r, CancelStep(old(Accounts()), ix))
      ensures Honest(old(Accounts()), Accounts(), r)
    {
      hide Inv, MovesBy, Advance, PhaseOf;
      if ix.key !in requests {
        return Err(InvalidAccount);
      }
      var request := requests[ix.key];
      if ix.user != request.requester {
        return Err(Unauthorized);
      }
      if request.status == Failed
         || (request.status == Processing
             && ix.slot < SaturatingAdd(request.processingSlot, REDEMPTION_TIMEOUT_SLOTS)) {
        return Err(CancelNotAllowed);
      }
      if !ix.commitmentComputed {
        return Err(HashFailed);
      }
      if leafCount >= MAX_LEAVES {
        return Err(TreeFull);
      }
      if pool.totalShielded + request.amount >= TWO64 {
        return Err(Arithmetic);
      }
      leafCount := leafCount + 1;
      pool := pool.(totalShielded := pool.totalShielded + request.amount, pending := SaturatingSub(pool.pending, 1));
      requests := requests - {ix.key};
      r := Ok(Cancelled(ix.key, request.amount, ix.slot));
      PerformedIsHonest(old(Accounts()), Accounts(), r, DoCancel(ix));
    }

    /** The checks of complete_redemption, in the handler's order, up to the burn. */
    method VerifyPayment(ix: CompleteIx) returns (r: Result<Payment, Error>)
      ensures r == CheckPayment(Accounts(), ix)
    {
      hide FirstPayment, SumOutputs;
      if ix.signer != pool.authority {
        return Err(Unauthorized);
      }
      if ix.poolScript != [] && ix.configScript != [] && ix.poolScript != ix.configScript {
        return Err(PoolScriptMismatch);
      }
      if ix.txid in receipts {
        return Err(DuplicateCompletion);
      }
      if ix.key !in requests {
        return Err(InvalidAccount);
      }
      var request := requests[ix.key];
      if request.status != Pending && request.status != Processing {
        return Err(InvalidRedemptionState);
      }
      if ix.verifiedTxid != ix.txid {
        return Err(SpvFailed);
      }
      if Confirmations(ix.blockHeight, ix.tip) < REQUIRED_CONFIRMATIONS {
        return Err(InsufficientConfirmations);
      }
      if ix.txHash != ix.txid || ix.outputs.None? {
        return Err(SpvFailed);
      }
      var outs := ix.outputs.value;
      var expectedSend := SaturatingSub(request.amount, request.serviceFee);
      var i := FindPayment(outs, request.script, SaturatingSub(expectedSend, MAX_FEE_SATS));
      if i == |outs| {
        return Err(OutputMismatch);
      }
      if request.totalInput == 0 {
        return Err(AmountTooSmall);
      }
      var totalOutputs := SumLoop(outs);
      var minerFee := SaturatingSub(request.totalInput, totalOutputs);
      if minerFee > MAX_FEE_SATS {
        return Err(OutputMismatch);
      }
      if pool.paused {
        return Err(PoolPaused);
      }
      if request.amount > MAX_REDEMPTION_AMOUNT_SATS {
        return Err(AmountExceedsLimit);
      }
      if !ix.burnSucceeds {
        return Err(TokenFailure);
      }
      r := Ok(Payment(outs[i].value, minerFee));
    }

    method CompleteRedemption(ix: CompleteIx) returns (r: Result<Event, Error>)
      modifies this
      ensures Performed(old(Accounts()), Accounts(), r, CompleteStep(old(Accounts()), ix))
      ensures Honest(old(Accounts()), Accounts(), r)
    {
      hide CheckPayment, FirstPayment, Consume, Inv, MovesBy, Advance, PhaseOf;
      var payment := VerifyPayment(ix);
      if payment.Err? {
        return Err(payment.error);
      }
      var request, outs := requests[ix.key], ix.outputs.value;
      var newUtxos, newPool := utxos, pool;
      var changeVout := FindPayment(outs, ix.poolScript, 0);
      var hasChange := ix.poolScript != [] && ix.changeAccountGiven && changeVout < |outs|;
      if hasChange {
        var id := UtxoId(ix.txid, changeVout);
        if id in utxos {
          return Err(AlreadyInitialized);
        }
        newUtxos := utxos[id := Utxo(outs[changeVout].value, false)];
      }
      if |ix.consumed| > MAX_UTXOS {
        return Err(InvalidInstruction);
      }
      var consumed := ConsumeLoop(newUtxos, ix.consumed);
      if consumed.Err? {
        return Err(consumed.error);
      }
      var burn := SaturatingAdd(payment.value.received, payment.value.minerFee);
      var revenue := SaturatingSub(request.serviceFee, payment.value.minerFee);
      if pool.totalBurned + burn >= TWO64 || pool.feePool + revenue >= TWO64 {
        return Err(Arithmetic);
      }
      newPool := pool.(totalBurned := pool.totalBurned + burn, feePool := pool.feePool + revenue,
                       pending := SaturatingSub(pool.pending, 1));
      if hasChange {
        var counted := AddUtxo(newPool, outs[changeVout].value);
        if counted.None? {
          return Err(Arithmetic);
        }
        newPool := counted.value;
      }
      pool := newPool;
      utxos := consumed.value;
      receipts := receipts + {ix.txid};
      requests := requests - {ix.key};
      r := Ok(Completed(ix.key, request.amount, request.serviceFee, ix.txid, payment.value.received,
                        payment.value.minerFee));
      PerformedIsHonest(old(Accounts()), Accounts(), r, DoComplete(ix));
    }

    /** complete_deposit, reduced to its bookkeeping. */
    method CompleteDeposit(ix: Deposit) returns (r: Result<Event, Error>)
      modifies this
      ensures Performed(old(Accounts()), Accounts(), r, DepositStep(old(Accounts()), ix))
      ensures Honest(old(Accounts()), Accounts(), r)
    {
      hide Inv, MovesBy, Advance, PhaseOf;
      if pool.paused {
        return Err(PoolPaused);
      }
      if ix.fee > ix.amount {
        return Err(Arithmetic);
      }
      if leafCount >= MAX_LEAVES {
        return Err(TreeFull);
      }
      if ix.utxo in utxos {
        return Err(AlreadyInitialized);
      }
      var shielded: u64 := ix.amount - ix.fee;
      var counted := AddUtxo(pool, ix.amount);
      if || counted.None? || pool.totalMinted + shielded >= TWO64 || pool.totalShielded + shielded >= TWO64
         || token.totalShielded + shielded >= TWO64 || token.accumulatedFees + ix.fee >= TWO64 {
        return Err(Arithmetic);
      }
      leafCount := leafCount + 1;
      utxos := utxos[ix.utxo := Utxo(ix.amount, false)];
      pool := counted.value.(totalMinted := pool.totalMinted + shielded, totalShielded := pool.totalShielded + shielded);
      token := token.(totalShielded := token.totalShielded + shielded, accumulatedFees := token.accumulatedFees + ix.fee);
      r := Ok(Deposited(ix.utxo, ix.amount, shielded));
      PerformedIsHonest(old(Accounts()), Accounts(), r, DoDeposit(ix));
    }

    /** One transaction. */
    method Execute(ix: Instruction) returns (r: Result<Event, Error>)
      modifies this
      ensures Performed(old(Accounts()), Accounts(), r, Step(old(Accounts()), ix))
      ensures Honest(old(Accounts()), Accounts(), r)
      ensures old(Inv(Accounts())) && r.Ok? ==> SignedBy(r.value, ix, old(pool.authority))
      ensures old(Inv(Accounts())) && r.Err? ==> Explains(old(Accounts()), ix, r.error)
    {
      hide DepositStep, RequestStep, MarkStep, CancelStep, CompleteStep, Honest, Inv, SignedBy, Explains;
      ghost var before := Accounts();
      if Inv(before) {
        if Step(before, ix).Ok? {
          StepIsSigned(before, ix);
        } else {
          ErrorsAreExplained(before, ix);
        }
      }
      match ix {
        case DoDeposit(d) => r := CompleteDeposit(d);
        case DoRequest(q) => r := RequestRedemption(q);
        case DoMark(m) => r := MarkProcessing(m);
        case DoCancel(c) => r := CancelRedemption(c);
        case DoComplete(c) => r := CompleteRedemption(c);
      }
    }

    /**
     A whole sequence of transactions: value is conserved as the history says and, from any accounts that satisfy the
     invariant, it still holds and the history of every request is legal and explains its present phase.
     */
    method ExecuteAll(ixs: seq<Instruction>) returns (events: seq<Event>)
      modifies this
      ensures History(Accounts(), events) == Run(old(Accounts()), ixs)
      ensures old(Inv(Accounts())) ==> Inv(Accounts())
      ensures Locked(Accounts()) == old(Locked(Accounts())) + Sum(events, ShieldedBy) - Sum(events, SettledBy)
      ensures pool.totalMinted == old(pool.totalMinted) + Sum(events, ShieldedBy)
      ensures pool.totalBurned == old(pool.totalBurned) + Sum(events, BurnedBy)
      ensures pool.feePool == old(pool.feePool) + Sum(events, RevenueBy)
      ensures leafCount == old(leafCount) + Sum(events, LeavesBy)
      ensures pool.totalShielded - token.totalShielded
              == old(pool.totalShielded) - old(token.totalShielded) + Sum(events, ReleasedBy)
      ensures old(Inv(Accounts())) ==>
                forall k :: Replay(PhaseOf(old(Accounts()), k), events, k) == Some(PhaseOf(Accounts(), k))
    {
      hide Step, Inv, Locked, Sum, PhaseOf, Replay, Honest, ShieldedBy, SettledBy, BurnedBy, RevenueBy, LeavesBy,
           ReleasedBy, FeesBy;
      events := [];
      for i := 0 to |ixs|
        invariant History(Accounts(), events) == Run(old(Accounts()), ixs[..i])
      {
        assert ixs[..i + 1][..i] == ixs[..i];
        var r := Execute(ixs[i]);
        if r.Ok? {
          events := events + [r.value];
        }
      }
      assert ixs[..|ixs|] == ixs;
      RunConserves(old(Accounts()), ixs);
      if old(Inv(Accounts())) {
        RunKeepsInv(old(Accounts()), ixs);
        forall k ensures Replay(PhaseOf(old(Accounts()), k), events, k) == Some(PhaseOf(Accounts(), k)) {
          EveryHistoryIsLegal(old(Accounts()), ixs, k);
        }
      }
    }
  }
}

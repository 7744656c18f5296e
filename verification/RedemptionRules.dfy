/** Exactly when each instruction succeeds, and what it does to the records, in terms of the accounts before it. */
module RedemptionRules {
  import opened Common
  import opened MapTotals
  import opened RedemptionSpec
  import opened RedemptionRuns
  import opened RedemptionBacking

  // ---- Lists of UTXO records ---------------------------------------------------------------------------------

  predicate Distinct(ids: seq<UtxoId>) {
    forall i, j | 0 <= i < j < |ids| :: ids[i] != ids[j]
  }

  /** Every listed record exists and is reserved, or unspent, as asked. */
  predicate AllAre(utxos: map<UtxoId, Utxo>, ids: seq<UtxoId>, reserved: bool) {
    forall i | 0 <= i < |ids| :: ids[i] in utxos && utxos[ids[i]].reserved == reserved
  }

  lemma DistinctSplits(ids: seq<UtxoId>)
    requires ids != []
    ensures Distinct(ids) <==> Distinct(ids[..|ids| - 1]) && ids[|ids| - 1] !in ids[..|ids| - 1]
  {
  }

  lemma AllAreSplits(utxos: map<UtxoId, Utxo>, ids: seq<UtxoId>, reserved: bool)
    requires ids != []
    ensures AllAre(utxos, ids, reserved)
            <==> AllAre(utxos, ids[..|ids| - 1], reserved)
                 && ids[|ids| - 1] in utxos && utxos[ids[|ids| - 1]].reserved == reserved
  {
  }

  lemma ListedOrLast(ids: seq<UtxoId>, id: UtxoId)
    requires ids != []
    ensures id in ids <==> id in ids[..|ids| - 1] || id == ids[|ids| - 1]
  {
    assert ids == ids[..|ids| - 1] + [ids[|ids| - 1]];
  }

  /** The records with the listed ones reserved and nothing else changed. */
  ghost predicate ReservesListed(before: map<UtxoId, Utxo>, ids: seq<UtxoId>, after: map<UtxoId, Utxo>) {
    && after.Keys == before.Keys
    && forall id <- before :: after[id] == if id in ids then Utxo(before[id].amount, true) else before[id]
  }

  lemma UnspentCovers(utxos: map<UtxoId, Utxo>, id: UtxoId)
    requires id in utxos && !utxos[id].reserved
    ensures utxos[id].amount <= UnspentTotal(utxos) && 1 <= UnspentCount(utxos)
  {
    EntryAtMostTotal(Weights(utxos, UnspentAmount), id);
    EntryAtMostTotal(Weights(utxos, UnspentOne), id);
  }

  lemma ReserveOneMore(before: map<UtxoId, Utxo>, ids: seq<UtxoId>, r: Reservation)
    requires ids != [] && ReservesListed(before, ids[..|ids| - 1], r.utxos)
    requires ReserveOne(r, ids[|ids| - 1]).Ok?
    ensures ReservesListed(before, ids, ReserveOne(r, ids[|ids| - 1]).value.utxos)
  {
    forall id <- before ensures id in ids <==> id in ids[..|ids| - 1] || id == ids[|ids| - 1] {
      ListedOrLast(ids, id);
    }
  }

  /**
   Under the invariant a reservation succeeds exactly for distinct unspent records: neither the running total nor the
   pool's counters can overflow on the way.
   */
  lemma {:induction false} ReserveSucceedsIff(pool: Pool, utxos: map<UtxoId, Utxo>, ids: seq<UtxoId>)
    requires UtxoInv(pool, utxos)
    ensures Reserve(utxos, ids).Ok? <==> Distinct(ids) && AllAre(utxos, ids, false)
    ensures Reserve(utxos, ids).Ok? ==>
              && ReservesListed(utxos, ids, Reserve(utxos, ids).value.utxos)
              && Reserve(utxos, ids).value.total == ListedTotal(utxos, ids)
              && RemoveUtxos(pool, Reserve(utxos, ids).value.amounts).Some?
  {
    hide UtxoInv, Distinct, AllAre;
    if ids == [] {
      NothingListed(utxos, ids);
    } else {
      var shorter, last := ids[..|ids| - 1], ids[|ids| - 1];
      ReserveSucceedsIff(pool, utxos, shorter);
      DistinctSplits(ids);
      AllAreSplits(utxos, ids, false);
      if Reserve(utxos, shorter).Ok? {
        var r := Reserve(utxos, shorter).value;
        LastReserves(pool, utxos, shorter, last);
        if ReserveOne(r, last).Ok? {
          ReserveOneMore(utxos, ids, r);
          var amounts := Reserve(utxos, ids).value.amounts;
          assert amounts[..|amounts| - 1] == r.amounts;
        }
      }
    }
  }

  lemma NothingListed(utxos: map<UtxoId, Utxo>, ids: seq<UtxoId>)
    requires ids == []
    ensures Distinct(ids) && AllAre(utxos, ids, false) && AllAre(utxos, ids, true)
  {
  }

  lemma LastReserves(pool: Pool, utxos: map<UtxoId, Utxo>, shorter: seq<UtxoId>, last: UtxoId)
    requires UtxoInv(pool, utxos) && Reserve(utxos, shorter).Ok?
    requires ReservesListed(utxos, shorter, Reserve(utxos, shorter).value.utxos)
    requires RemoveUtxos(pool, Reserve(utxos, shorter).value.amounts).Some?
    ensures var r := Reserve(utxos, shorter).value; var left := RemoveUtxos(pool, r.amounts).value;
            && (ReserveOne(r, last).Ok? <==> last in utxos && !utxos[last].reserved && last !in shorter)
            && (ReserveOne(r, last).Ok? ==> RemoveUtxo(left, utxos[last].amount).Some? && r.utxos[last] == utxos[last])
  {
    hide Reserve, RemoveUtxos, UnspentTotal, UnspentCount;
    ReserveKeeps(pool, utxos, shorter);
    var r := Reserve(utxos, shorter).value;
    if last in r.utxos && !r.utxos[last].reserved {
      UnspentCovers(r.utxos, last);
    }
  }

  /** The records without the listed ones. */
  ghost predicate ClosesListed(before: map<UtxoId, Utxo>, ids: seq<UtxoId>, after: map<UtxoId, Utxo>) {
    && (forall id <- before :: id in after <==> id !in ids)
    && (forall id <- after :: id in before && after[id] == before[id])
  }

  lemma CloseOneMore(before: map<UtxoId, Utxo>, ids: seq<UtxoId>, m: map<UtxoId, Utxo>)
    requires ids != [] && ClosesListed(before, ids[..|ids| - 1], m)
    ensures ClosesListed(before, ids, m - {ids[|ids| - 1]})
  {
    forall id <- before ensures id in ids <==> id in ids[..|ids| - 1] || id == ids[|ids| - 1] {
      ListedOrLast(ids, id);
    }
  }

  /** Records can be closed exactly when they are distinct and reserved. */
  lemma {:induction false} ConsumeSucceedsIff(utxos: map<UtxoId, Utxo>, ids: seq<UtxoId>)
    ensures Consume(utxos, ids).Ok? <==> Distinct(ids) && AllAre(utxos, ids, true)
    ensures Consume(utxos, ids).Ok? ==> ClosesListed(utxos, ids, Consume(utxos, ids).value)
  {
    hide Distinct, AllAre;
    if ids == [] {
      NothingListed(utxos, ids);
    } else {
      var shorter, last := ids[..|ids| - 1], ids[|ids| - 1];
      ConsumeSucceedsIff(utxos, shorter);
      DistinctSplits(ids);
      AllAreSplits(utxos, ids, true);
      if Consume(utxos, shorter).Ok? {
        CloseOneMore(utxos, ids, Consume(utxos, shorter).value);
      }
    }
  }

  // ---- Deposits, requests, markings and cancellations --------------------------------------------------------

  lemma DepositSucceedsIff(l: Ledger, ix: Deposit)
    ensures DepositStep(l, ix).Ok? <==>
            && !l.pool.paused && ix.fee <= ix.amount && l.leafCount < 65_536 && ix.utxo !in l.utxos
            && l.pool.btcHeld + ix.amount < TWO64 && l.pool.utxoCount < 65_535
            && l.pool.totalMinted + ix.amount - ix.fee < TWO64 && l.pool.totalShielded + ix.amount - ix.fee < TWO64
            && l.token.totalShielded + ix.amount - ix.fee < TWO64 && l.token.accumulatedFees + ix.fee < TWO64
    ensures DepositStep(l, ix).Ok? ==>
              var o := DepositStep(l, ix).value;
              && o.event == Deposited(ix.utxo, ix.amount, ix.amount - ix.fee)
              && o.ledger.utxos == l.utxos[ix.utxo := Utxo(ix.amount, false)]
  {
  }

  /**
   The locked fee is the flat fee plus the rounded-down percentage, unless the sum is capped: exactly as long as amount
   times basis points stays below 10000 * 2^64, which holds for every rate up to 100 percent.
   */
  lemma FeeIsProportionalIff(l: Ledger, amount: u64)
    ensures var fee, bps := ServiceFee(l, amount), l.pool.withdrawalFeeBps;
            var part: int := fee - l.token.serviceFee;
            fee < U64_MAX ==>
              (10_000 * part <= amount * bps < 10_000 * (part + 1) <==> amount * bps < 10_000 * TWO64)
    ensures l.pool.withdrawalFeeBps <= 10_000 ==> amount * l.pool.withdrawalFeeBps < 10_000 * TWO64
  {
    var product := amount * l.pool.withdrawalFeeBps;
    var whole := product / 10_000;
    assert 10_000 * whole <= product < 10_000 * (whole + 1);
    assert whole % TWO64 == whole <==> whole < TWO64;
    if l.pool.withdrawalFeeBps <= 10_000 {
      ScaledBelow(amount, l.pool.withdrawalFeeBps);
    }
  }

  lemma ScaledBelow(amount: u64, bps: u16)
    requires bps <= 10_000
    ensures amount * bps < 10_000 * TWO64
  {
    AtMostTimes(amount, bps, 10_000);
  }

  lemma AtMostTimes(k: nat, x: int, y: int)
    requires x <= y
    ensures k * x <= k * y
  {
    assert k * y - k * x == k * (y - x);
  }

  lemma RequestSucceedsIff(l: Ledger, ix: RequestIx)
    ensures var fee := ServiceFee(l, ix.amount);
            RequestStep(l, ix).Ok? <==>
            && 1 <= |ix.script| <= 34 && !l.pool.paused && ix.rootAccepted
            && 10_000 <= ix.amount && (fee > 0 ==> fee + 546 < ix.amount)
            && ix.amount <= l.pool.totalShielded && ix.amount <= l.token.totalShielded
            && ix.nullifier !in l.nullifiers && Key(ix.user, ix.nonce) !in l.requests
            && l.token.accumulatedFees + fee < TWO64
    ensures RequestStep(l, ix).Ok? ==>
              var o := RequestStep(l, ix).value;
              && o.event == Opened(Key(ix.user, ix.nonce), ix.amount, ServiceFee(l, ix.amount))
              && o.ledger.nullifiers == l.nullifiers + {ix.nullifier} && o.ledger.utxos == l.utxos
  {
    hide ServiceFee;
  }

  /** On every reachable state a marking needs the authority, at most 20 distinct unspent records and a pending request. */
  lemma MarkSucceedsIff(l: Ledger, ix: MarkIx)
    requires Inv(l)
    ensures MarkStep(l, ix).Ok? <==>
            && ix.signer == l.pool.authority && |ix.utxos| <= 20 && Distinct(ix.utxos) && AllAre(l.utxos, ix.utxos, false)
            && ix.key in l.requests && l.requests[ix.key].status == Pending
    ensures MarkStep(l, ix).Ok? ==>
              var o := MarkStep(l, ix).value;
              && o.event == Marked(ix.key, ix.slot) && ReservesListed(l.utxos, ix.utxos, o.ledger.utxos)
              && o.ledger.requests[ix.key].totalInput
                 == (if ix.utxos == [] then ix.legacyTotal as int else ListedTotal(l.utxos, ix.utxos))
  {
    hide Reserve, RemoveUtxos, UtxoInv, Distinct, AllAre, ReservesListed, ListedTotal;
    ReserveSucceedsIff(l.pool, l.utxos, ix.utxos);
  }

  lemma CancelSucceedsIff(l: Ledger, ix: CancelIx)
    ensures CancelStep(l, ix).Ok? <==>
            && ix.key in l.requests
            && var r := l.requests[ix.key];
            && ix.user == r.requester
            && (r.status == Pending || (r.status == Processing && ix.slot >= r.processingSlot + 216_000))
            && ix.commitmentComputed && l.leafCount < 65_536 && l.pool.totalShielded + r.amount < TWO64
    ensures CancelStep(l, ix).Ok? ==>
              var o := CancelStep(l, ix).value;
              && o.event == Cancelled(ix.key, l.requests[ix.key].amount, ix.slot)
              && o.ledger.utxos == l.utxos && o.ledger.requests == l.requests - {ix.key}
  {
  }

  // ---- Completions -------------------------------------------------------------------------------------------

  /** The sum of the outputs without a bound. */
  function TrueSum(outs: seq<Output>): nat {
    if outs == [] then 0 else TrueSum(outs[..|outs| - 1]) + outs[|outs| - 1].value
  }

  lemma {:induction false} SumIsCapped(outs: seq<Output>)
    ensures SumOutputs(outs) == Min(TrueSum(outs), U64_MAX)
  {
    if outs != [] {
      SumIsCapped(outs[..|outs| - 1]);
    }
  }

  /** Output `v` is the first that pays the script, at least the given value. */
  predicate IsFirst(outs: seq<Output>, script: bytes, least: int, v: nat) {
    && v < |outs| && outs[v].script == script && outs[v].value >= least
    && forall j | 0 <= j < v :: outs[j].script != script || outs[j].value < least
  }

  lemma FirstIsUnique(outs: seq<Output>, script: bytes, least: int, v: nat, w: nat)
    requires IsFirst(outs, script, least, v) && IsFirst(outs, script, least, w)
    ensures v == w
  {
  }

  lemma FirstPaymentIsFirst(outs: seq<Output>, script: bytes, min: u64)
    ensures var i := FirstPayment(outs, script, min);
            && (i < |outs| ==> IsFirst(outs, script, min, i))
            && (i == |outs| ==> forall v: nat :: !IsFirst(outs, script, min, v))
  {
    var i := FirstPayment(outs, script, min);
    if i < |outs| {
      assert Pays(outs[i], script, min);
      forall j | 0 <= j < i ensures outs[j].script != script || outs[j].value < min {
        assert !Pays(outs[j], script, min);
      }
    } else {
      forall v: nat ensures !IsFirst(outs, script, min, v) {
        if v < |outs| {
          assert !Pays(outs[v], script, min);
        }
      }
    }
  }

  /** The change output, if change is tracked and there is one. */
  predicate IsChange(ix: CompleteIx, outs: seq<Output>, v: nat) {
    ix.poolScript != [] && ix.changeAccountGiven && IsFirst(outs, ix.poolScript, 0, v)
  }

  lemma ChangeIs(l: Ledger, ix: CompleteIx, outs: seq<Output>)
    ensures Change(l, ix, outs).Some? ==> IsChange(ix, outs, Change(l, ix, outs).value)
    ensures Change(l, ix, outs).None? ==> forall v: nat :: !IsChange(ix, outs, v)
  {
    hide FirstPayment, IsFirst;
    FirstPaymentIsFirst(outs, ix.poolScript, 0);
  }

  /** What a completion does to the records: the change output `v` is added unspent, the listed ones are closed. */
  ghost predicate RecordsChange(l: Ledger, m: Ledger, ix: CompleteIx, outs: seq<Output>, v: nat) {
    var id := UtxoId(ix.txid, v);
    && v < |outs|
    && id !in l.utxos && id in m.utxos && m.utxos[id] == Utxo(outs[v].value, false)
    && m.pool.btcHeld == l.pool.btcHeld + outs[v].value && m.pool.utxoCount == l.pool.utxoCount + 1
    && forall i <- m.utxos :: i == id || i in l.utxos
  }

  ghost predicate RecordsNothing(l: Ledger, m: Ledger) {
    && m.pool.btcHeld == l.pool.btcHeld && m.pool.utxoCount == l.pool.utxoCount
    && forall i <- m.utxos :: i in l.utxos
  }

  /**
   Every completion: if a pool script and a change account are given and some output has that script, the first such
   output is recorded as unspent and counted; otherwise nothing is recorded. The listed records are closed and all
   others are kept.
   */
  lemma CompletionRecordsChange(l: Ledger, ix: CompleteIx)
    requires CompleteStep(l, ix).Ok?
    ensures ix.outputs.Some?
    ensures var m, outs := CompleteStep(l, ix).value.ledger, ix.outputs.value;
            && (forall v: nat | IsChange(ix, outs, v) :: RecordsChange(l, m, ix, outs, v))
            && ((forall v: nat :: !IsChange(ix, outs, v)) ==> RecordsNothing(l, m))
            && (forall id <- l.utxos ::
                  if id in ix.consumed then l.utxos[id].reserved && id !in m.utxos
                  else id in m.utxos && m.utxos[id] == l.utxos[id])
  {
    hide CheckPayment, Consume, IsFirst, FirstPayment;
    var m, outs := CompleteStep(l, ix).value.ledger, ix.outputs.value;
    var change := Change(l, ix, outs);
    ChangeIs(l, ix, outs);
    var grown := if change.Some? then
                   l.utxos[UtxoId(ix.txid, change.value) := Utxo(outs[change.value].value, false)] else l.utxos;
    assert Consume(grown, ix.consumed).Ok? && Consume(grown, ix.consumed).value == m.utxos;
    ConsumeSucceedsIff(grown, ix.consumed);
    ListedAreReserved(grown, ix.consumed);
    forall v: nat | IsChange(ix, outs, v)
      ensures RecordsChange(l, m, ix, outs, v)
    {
      FirstIsUnique(outs, ix.poolScript, 0, v, change.value);
    }
  }

  lemma ListedAreReserved(utxos: map<UtxoId, Utxo>, ids: seq<UtxoId>)
    requires AllAre(utxos, ids, true)
    ensures forall id <- utxos :: id in ids ==> utxos[id].reserved
  {
  }

  /** The Bitcoin side of a completion that the handler accepts, for an open request. */
  predicate Proven(l: Ledger, ix: CompleteIx, r: Request) {
    && ix.signer == l.pool.authority && !l.pool.paused && ix.burnSucceeds
    && (ix.poolScript == [] || ix.configScript == [] || ix.poolScript == ix.configScript)
    && ix.txid !in l.receipts && ix.verifiedTxid == ix.txid && ix.txHash == ix.txid && ix.blockHeight + 5 <= ix.tip
    && r.status != Failed && 0 < r.totalInput && r.amount <= 100_000_000
    && ix.outputs.Some? && r.totalInput <= TrueSum(ix.outputs.value) + 50_000
  }

  /** The payment: the first output to the requester's script of at least the amount less service fee and 50000. */
  predicate IsPayment(r: Request, outs: seq<Output>, v: nat) {
    IsFirst(outs, r.script, r.amount - r.serviceFee - 50_000, v)
  }

  lemma LeastIsZero(outs: seq<Output>, script: bytes, least: int, min: u64, v: nat)
    requires min == if least < 0 then 0 else least
    ensures IsFirst(outs, script, least, v) <==> IsFirst(outs, script, min, v)
  {
  }

  lemma PaymentSucceedsIff(l: Ledger, ix: CompleteIx)
    ensures CheckPayment(l, ix).Ok? <==>
            && ix.key in l.requests && Proven(l, ix, l.requests[ix.key])
            && exists v: nat :: IsPayment(l.requests[ix.key], ix.outputs.value, v)
    ensures CheckPayment(l, ix).Ok? ==>
              var r, outs, p := l.requests[ix.key], ix.outputs.value, CheckPayment(l, ix).value;
              && (forall v: nat | IsPayment(r, outs, v) :: v < |outs| && p.received == outs[v].value)
              && p.minerFee == Max(0, r.totalInput - TrueSum(outs))
  {
    hide FirstPayment, SumOutputs, TrueSum, IsFirst;
    if ix.key in l.requests && ix.outputs.Some? {
      var r, outs := l.requests[ix.key], ix.outputs.value;
      var i := FirstPayment(outs, r.script, MinPayment(r));
      SumIsCapped(outs);
      FirstPaymentIsFirst(outs, r.script, MinPayment(r));
      forall v: nat ensures IsPayment(r, outs, v) <==> IsFirst(outs, r.script, MinPayment(r), v) {
        LeastIsZero(outs, r.script, r.amount - r.serviceFee - 50_000, MinPayment(r), v);
      }
      if i < |outs| {
        assert IsPayment(r, outs, i);
        forall v: nat | IsPayment(r, outs, v) ensures v == i {
          FirstIsUnique(outs, r.script, r.amount - r.serviceFee - 50_000, v, i);
        }
      }
    }
  }

  /** There is room for the records and the counters of a completion. */
  ghost predicate HasRoom(l: Ledger, ix: CompleteIx, r: Request, outs: seq<Output>, received: int, minerFee: int) {
    && |ix.consumed| <= 20 && Distinct(ix.consumed) && AllAre(l.utxos, ix.consumed, true)
    && l.pool.totalBurned + Min(received + minerFee, U64_MAX) < TWO64
    && l.pool.feePool + Max(0, r.serviceFee - minerFee) < TWO64
    && forall v: nat | IsChange(ix, outs, v) ::
         UtxoId(ix.txid, v) !in l.utxos && l.pool.btcHeld + outs[v].value < TWO64 && l.pool.utxoCount < 65_535
  }

  lemma AllAreAdded(utxos: map<UtxoId, Utxo>, id: UtxoId, amount: u64, ids: seq<UtxoId>)
    requires id !in utxos
    ensures AllAre(utxos[id := Utxo(amount, false)], ids, true) <==> AllAre(utxos, ids, true)
  {
  }

  /** A completion succeeds exactly when the payment is proven, was made, and there is room. */
  lemma CompleteSucceedsIff(l: Ledger, ix: CompleteIx)
    ensures CompleteStep(l, ix).Ok? <==>
            && ix.key in l.requests && Proven(l, ix, l.requests[ix.key])
            && exists v: nat :: Completable(l, ix, l.requests[ix.key], ix.outputs.value, v)
  {
    hide CheckPayment, Consume, IsPayment, Distinct, AllAre, IsFirst, FirstPayment, HasRoom, SettleUtxos, SettlePool, Change;
    PaymentSucceedsIff(l, ix);
    if CheckPayment(l, ix).Ok? {
      var r, outs, p := l.requests[ix.key], ix.outputs.value, CheckPayment(l, ix).value;
      RoomIff(l, ix, p);
      var v: nat :| IsPayment(r, outs, v);
      InRange(r, outs, v);
      assert Completable(l, ix, r, outs, v) <==> HasRoom(l, ix, r, outs, p.received, p.minerFee);
    }
  }

  /** Output `v` is the payment and there is room to settle it. */
  ghost predicate Completable(l: Ledger, ix: CompleteIx, r: Request, outs: seq<Output>, v: nat) {
    && v < |outs| && IsPayment(r, outs, v)
    && HasRoom(l, ix, r, outs, outs[v].value, Max(0, r.totalInput - TrueSum(outs)))
  }

  lemma InRange(r: Request, outs: seq<Output>, v: nat)
    requires IsPayment(r, outs, v)
    ensures v < |outs|
  {
  }

  lemma RoomIff(l: Ledger, ix: CompleteIx, p: Payment)
    requires ix.key in l.requests && ix.outputs.Some?
    ensures var r, outs := l.requests[ix.key], ix.outputs.value;
            var change := Change(l, ix, outs);
            HasRoom(l, ix, r, outs, p.received, p.minerFee) <==>
            && SettleUtxos(l, ix, outs).Ok?
            && SettlePool(l, r, p, if change.Some? then Some(outs[change.value].value) else None).Some?
  {
    hide Consume, Distinct, AllAre, IsFirst, FirstPayment;
    var r, outs := l.requests[ix.key], ix.outputs.value;
    var change := Change(l, ix, outs);
    ChangeIs(l, ix, outs);
    ConsumeSucceedsIff(l.utxos, ix.consumed);
    if change.Some? {
      var id, value := UtxoId(ix.txid, change.value), outs[change.value].value;
      forall v: nat | IsChange(ix, outs, v) ensures v == change.value {
        FirstIsUnique(outs, ix.poolScript, 0, v, change.value);
      }
      if id !in l.utxos {
        AllAreAdded(l.utxos, id, value, ix.consumed);
        ConsumeSucceedsIff(l.utxos[id := Utxo(value, false)], ix.consumed);
      }
    }
  }

  // ---- Refusals ----------------------------------------------------------------------------------------------

  /** A condition that the reported error stands for, and that the instruction fails. */
  ghost predicate Explains(l: Ledger, ix: Instruction, e: Error) {
    match ix
    case DoDeposit(d) => ExplainsDeposit(l, d, e)
    case DoRequest(r) => ExplainsRequest(l, r, e)
    case DoMark(m) => ExplainsMark(l, m, e)
    case DoCancel(c) => ExplainsCancel(l, c, e)
    case DoComplete(c) => ExplainsComplete(l, c, e)
  }

  predicate ExplainsDeposit(l: Ledger, ix: Deposit, e: Error) {
    match e
    case PoolPaused => l.pool.paused
    case TreeFull => l.leafCount >= 65_536
    case AlreadyInitialized => ix.utxo in l.utxos
    case Arithmetic =>
      || ix.fee > ix.amount || l.pool.btcHeld + ix.amount >= TWO64 || l.pool.utxoCount == 65_535
      || l.pool.totalMinted + ix.amount - ix.fee >= TWO64 || l.pool.totalShielded + ix.amount - ix.fee >= TWO64
      || l.token.totalShielded + ix.amount - ix.fee >= TWO64 || l.token.accumulatedFees + ix.fee >= TWO64
    case _ => false
  }

  predicate ExplainsRequest(l: Ledger, ix: RequestIx, e: Error) {
    var fee := ServiceFee(l, ix.amount);
    match e
    case InvalidBtcAddress => ix.script == [] || |ix.script| > 34
    case PoolPaused => l.pool.paused
    case AmountTooSmall => ix.amount < 10_000 || (fee > 0 && ix.amount <= fee + 546)
    case InsufficientFunds => ix.amount > l.pool.totalShielded
    case InvalidRoot => !ix.rootAccepted
    case NullifierAlreadyUsed => ix.nullifier in l.nullifiers
    case AlreadyInitialized => Key(ix.user, ix.nonce) in l.requests
    case Arithmetic => fee + 546 >= TWO64 || ix.amount > l.token.totalShielded || l.token.accumulatedFees + fee >= TWO64
    case _ => false
  }

  ghost predicate ExplainsMark(l: Ledger, ix: MarkIx, e: Error) {
    match e
    case Unauthorized => ix.signer != l.pool.authority
    case InvalidInstruction => |ix.utxos| > 20
    case InvalidUtxo => exists i :: 0 <= i < |ix.utxos| && ix.utxos[i] !in l.utxos
    case UtxoNotUnspent => !Distinct(ix.utxos) || !AllAre(l.utxos, ix.utxos, false)
    case InvalidAccount => ix.key !in l.requests
    case InvalidRedemptionState => ix.key in l.requests && l.requests[ix.key].status != Pending
    case _ => false
  }

  predicate ExplainsCancel(l: Ledger, ix: CancelIx, e: Error) {
    if ix.key !in l.requests then e == InvalidAccount else
      var r := l.requests[ix.key];
      match e
      case Unauthorized => ix.user != r.requester
      case CancelNotAllowed => r.status == Failed || (r.status == Processing && ix.slot < r.processingSlot + 216_000)
      case HashFailed => !ix.commitmentComputed
      case TreeFull => l.leafCount >= 65_536
      case Arithmetic => l.pool.totalShielded + r.amount >= TWO64
      case _ => false
  }

  ghost predicate ExplainsComplete(l: Ledger, ix: CompleteIx, e: Error) {
    match e
    case Unauthorized => ix.signer != l.pool.authority
    case PoolScriptMismatch => ix.poolScript != [] && ix.configScript != [] && ix.poolScript != ix.configScript
    case DuplicateCompletion => ix.txid in l.receipts
    case InvalidAccount => ix.key !in l.requests
    case SpvFailed => ix.verifiedTxid != ix.txid || ix.txHash != ix.txid || ix.outputs.None?
    case InsufficientConfirmations => ix.tip < ix.blockHeight + 5
    case PoolPaused => l.pool.paused
    case TokenFailure => !ix.burnSucceeds
    case InvalidInstruction => |ix.consumed| > 20
    case InvalidUtxo => !Distinct(ix.consumed) || !AllAre(l.utxos, ix.consumed, true)
    case _ => ix.key in l.requests && ExplainsSettlement(l, ix, l.requests[ix.key], e)
  }

  ghost predicate ExplainsSettlement(l: Ledger, ix: CompleteIx, r: Request, e: Error) {
    match e
    case InvalidRedemptionState => r.status == Failed
    case AmountTooSmall => r.totalInput == 0
    case AmountExceedsLimit => r.amount > 100_000_000
    case OutputMismatch =>
      && ix.outputs.Some?
      && ((forall v: nat :: !IsPayment(r, ix.outputs.value, v)) || r.totalInput > TrueSum(ix.outputs.value) + 50_000)
    case AlreadyInitialized =>
      && ix.outputs.Some?
      && exists v: nat :: IsChange(ix, ix.outputs.value, v) && UtxoId(ix.txid, v) in l.utxos
    case Arithmetic => ix.outputs.Some? && exists v: nat :: Overflows(l, ix, r, ix.outputs.value, v)
    case _ => false
  }

  /** Output `v` is the payment, and a counter has no room for it or for the change. */
  ghost predicate Overflows(l: Ledger, ix: CompleteIx, r: Request, outs: seq<Output>, v: nat) {
    && v < |outs| && IsPayment(r, outs, v)
    && var minerFee := Max(0, r.totalInput - TrueSum(outs));
    && (|| l.pool.totalBurned + Min(outs[v].value + minerFee, U64_MAX) >= TWO64
        || l.pool.feePool + Max(0, r.serviceFee - minerFee) >= TWO64
        || exists w: nat :: NoRoomForChange(l, ix, outs, w))
  }

  ghost predicate NoRoomForChange(l: Ledger, ix: CompleteIx, outs: seq<Output>, w: nat) {
    w < |outs| && IsChange(ix, outs, w) && (l.pool.btcHeld + outs[w].value >= TWO64 || l.pool.utxoCount == 65_535)
  }

  lemma {:induction false} ReserveErrors(pool: Pool, utxos: map<UtxoId, Utxo>, ids: seq<UtxoId>)
    requires UtxoInv(pool, utxos) && Reserve(utxos, ids).Err?
    ensures Reserve(utxos, ids).error == InvalidUtxo || Reserve(utxos, ids).error == UtxoNotUnspent
    ensures Reserve(utxos, ids).error == InvalidUtxo ==> exists i :: 0 <= i < |ids| && ids[i] !in utxos
  {
    hide UtxoInv;
    var shorter, last := ids[..|ids| - 1], ids[|ids| - 1];
    ReserveSucceedsIff(pool, utxos, shorter);
    if Reserve(utxos, shorter).Err? {
      ReserveErrors(pool, utxos, shorter);
      if Reserve(utxos, shorter).error == InvalidUtxo {
        var i :| 0 <= i < |shorter| && shorter[i] !in utxos;
        assert ids[i] !in utxos;
      }
    } else {
      LastReserves(pool, utxos, shorter, last);
    }
  }

  lemma {:induction false} ConsumeErrors(utxos: map<UtxoId, Utxo>, ids: seq<UtxoId>)
    requires Consume(utxos, ids).Err?
    ensures Consume(utxos, ids).error == InvalidUtxo
  {
    if Consume(utxos, ids[..|ids| - 1]).Err? {
      ConsumeErrors(utxos, ids[..|ids| - 1]);
    }
  }

  lemma MarkErrors(l: Ledger, ix: MarkIx)
    requires Inv(l) && MarkStep(l, ix).Err?
    ensures ExplainsMark(l, ix, MarkStep(l, ix).error)
  {
    hide Reserve, RemoveUtxos, UtxoInv, Distinct, AllAre, ReservesListed, ListedTotal;
    ReserveSucceedsIff(l.pool, l.utxos, ix.utxos);
    if Reserve(l.utxos, ix.utxos).Err? {
      ReserveErrors(l.pool, l.utxos, ix.utxos);
    }
  }

  lemma PaymentErrors(l: Ledger, ix: CompleteIx)
    requires CheckPayment(l, ix).Err?
    ensures ExplainsComplete(l, ix, CheckPayment(l, ix).error)
  {
    hide FirstPayment, SumOutputs, TrueSum, IsFirst, Distinct, AllAre, Overflows, IsChange;
    if ix.key in l.requests && ix.outputs.Some? {
      var r, outs := l.requests[ix.key], ix.outputs.value;
      SumIsCapped(outs);
      FirstPaymentIsFirst(outs, r.script, MinPayment(r));
      forall v: nat ensures IsPayment(r, outs, v) <==> IsFirst(outs, r.script, MinPayment(r), v) {
        LeastIsZero(outs, r.script, r.amount - r.serviceFee - 50_000, MinPayment(r), v);
      }
    }
  }

  lemma RecordErrors(l: Ledger, ix: CompleteIx, outs: seq<Output>)
    requires SettleUtxos(l, ix, outs).Err?
    ensures var e := SettleUtxos(l, ix, outs).error;
            match e
            case AlreadyInitialized => exists v: nat :: IsChange(ix, outs, v) && UtxoId(ix.txid, v) in l.utxos
            case InvalidInstruction => |ix.consumed| > 20
            case InvalidUtxo => !Distinct(ix.consumed) || !AllAre(l.utxos, ix.consumed, true)
            case _ => false
  {
    hide Consume, Distinct, AllAre, IsFirst, FirstPayment;
    var change := Change(l, ix, outs);
    ChangeIs(l, ix, outs);
    var grown := if change.Some? then
                   l.utxos[UtxoId(ix.txid, change.value) := Utxo(outs[change.value].value, false)] else l.utxos;
    if Consume(grown, ix.consumed).Err? {
      ConsumeErrors(grown, ix.consumed);
      ConsumeSucceedsIff(grown, ix.consumed);
    }
    if change.Some? && UtxoId(ix.txid, change.value) !in l.utxos {
      AllAreAdded(l.utxos, UtxoId(ix.txid, change.value), outs[change.value].value, ix.consumed);
    }
  }

  lemma CounterErrors(l: Ledger, ix: CompleteIx, r: Request, outs: seq<Output>, v: nat, p: Payment)
    requires v < |outs| && IsPayment(r, outs, v)
    requires p.received == outs[v].value && p.minerFee == Max(0, r.totalInput - TrueSum(outs))
    requires var change := Change(l, ix, outs);
             SettlePool(l, r, p, if change.Some? then Some(outs[change.value].value) else None).None?
    ensures Overflows(l, ix, r, outs, v)
  {
    hide IsFirst, FirstPayment, TrueSum;
    ChangeIs(l, ix, outs);
    var change := Change(l, ix, outs);
    if change.Some? && (l.pool.btcHeld + outs[change.value].value >= TWO64 || l.pool.utxoCount == 65_535) {
      assert NoRoomForChange(l, ix, outs, change.value);
    }
  }

  lemma CompleteErrors(l: Ledger, ix: CompleteIx)
    requires CompleteStep(l, ix).Err?
    ensures ExplainsComplete(l, ix, CompleteStep(l, ix).error)
  {
    hide CheckPayment, SettleUtxos, SettlePool, Change, IsPayment, IsChange, Overflows, TrueSum, Distinct, AllAre, Proven;
    if CheckPayment(l, ix).Err? {
      PaymentErrors(l, ix);
    } else {
      var r, outs, p := l.requests[ix.key], ix.outputs.value, CheckPayment(l, ix).value;
      PaymentSucceedsIff(l, ix);
      if SettleUtxos(l, ix, outs).Err? {
        RecordErrors(l, ix, outs);
      } else {
        var v: nat :| IsPayment(r, outs, v);
        InRange(r, outs, v);
        CounterErrors(l, ix, r, outs, v, p);
      }
    }
  }

  /** Every refusal, on every reachable state, names a condition that really fails. */
  lemma ErrorsAreExplained(l: Ledger, ix: Instruction)
    requires Inv(l) && Step(l, ix).Err?
    ensures Explains(l, ix, Step(l, ix).error)
  {
    hide Inv, MarkStep, CompleteStep, ServiceFee, ExplainsMark, ExplainsComplete;
    match ix
    case DoMark(m) => MarkErrors(l, m);
    case DoComplete(c) => CompleteErrors(l, c);
    case DoDeposit(_) =>
    case DoRequest(_) =>
    case DoCancel(_) =>
  }

  // ---- Requests other than the one named, and the terms of a request -----------------------------------------

  predicate SameTerms(r: Request, s: Request) {
    r.requester == s.requester && r.amount == s.amount && r.serviceFee == s.serviceFee && r.script == s.script
  }

  /**
   The terms of a request never change while it is open. Only a request instruction opens one, with its own terms; only
   the marking, cancellation or completion of a key touches it.
   */
  lemma StepKeepsTerms(l: Ledger, ix: Instruction, k: Key)
    requires Step(l, ix).Ok?
    ensures var m := Step(l, ix).value.ledger;
            && (k in l.requests && k in m.requests ==>
                  && SameTerms(l.requests[k], m.requests[k])
                  && (m.requests[k] == l.requests[k] || (ix.DoMark? && ix.mark.key == k)))
            && (k in l.requests && k !in m.requests <==>
                  (ix.DoCancel? && ix.cancel.key == k) || (ix.DoComplete? && ix.complete.key == k))
            && (k !in l.requests && k in m.requests ==>
                  && ix.DoRequest? && Key(ix.request.user, ix.request.nonce) == k
                  && m.requests[k] == Request(ix.request.user, ix.request.amount, ServiceFee(l, ix.request.amount),
                                              ix.request.script, Pending, 0, 0))
  {
    hide CheckPayment, SettleUtxos, SettlePool, Change, Reserve, RemoveUtxos, MayCancel, ServiceFee;
  }

  // ---- Where the events of a run come from -------------------------------------------------------------------

  /** Every event of a run was emitted by an instruction that succeeded after the events before it. */
  lemma {:induction false} EventComesFrom(start: Ledger, ixs: seq<Instruction>, i: nat) returns (n: nat)
    requires i < |Run(start, ixs).events|
    ensures n < |ixs| && |Run(start, ixs[..n]).events| == i
    ensures var step := Step(Run(start, ixs[..n]).ledger, ixs[n]);
            step.Ok? && step.value.event == Run(start, ixs).events[i]
    decreases |ixs|
  {
    hide Step;
    var earlier := ixs[..|ixs| - 1];
    if i < |Run(start, earlier).events| {
      n := EventComesFrom(start, earlier, i);
      assert earlier[..n] == ixs[..n];
    } else {
      n := |ixs| - 1;
    }
  }

  /** The instruction of an event, and who signed it. */
  ghost predicate SignedBy(e: Event, ix: Instruction, authority: Pubkey) {
    match e
    case Deposited(_, _, _) => ix.DoDeposit?
    case Opened(k, amount, _) => ix.DoRequest? && ix.request.user == k.user && ix.request.amount == amount
    case Marked(k, _) => ix.DoMark? && ix.mark.key == k && ix.mark.signer == authority
    case Cancelled(k, _, _) => ix.DoCancel? && ix.cancel.key == k && ix.cancel.user == k.user
    case Completed(k, _, _, txid, _, _) =>
      ix.DoComplete? && ix.complete.key == k && ix.complete.signer == authority && ix.complete.txid == txid
  }

  lemma StepIsSigned(l: Ledger, ix: Instruction)
    requires Inv(l) && Step(l, ix).Ok?
    ensures SignedBy(Step(l, ix).value.event, ix, l.pool.authority)
  {
    hide SettleUtxos, SettlePool, Change, Reserve, RemoveUtxos, MayCancel, ServiceFee, FirstPayment, UtxoInv;
    if ix.DoCancel? {
      assert RequestInv(ix.cancel.key, l.requests[ix.cancel.key]);
    }
  }

  /**
   In every run a request is opened and cancelled only by instructions its own user signed, and marked and completed
   only by instructions the pool's authority signed.
   */
  lemma EventsAreSigned(start: Ledger, ixs: seq<Instruction>, i: nat) returns (n: nat)
    requires Inv(start) && i < |Run(start, ixs).events|
    ensures n < |ixs| && SignedBy(Run(start, ixs).events[i], ixs[n], start.pool.authority)
    ensures |Run(start, ixs[..n]).events| == i
  {
    hide Step, Inv, SignedBy;
    n := EventComesFrom(start, ixs, i);
    var before := Run(start, ixs[..n]).ledger;
    RunKeepsInv(start, ixs[..n]);
    RunConserves(start, ixs[..n]);
    StepIsSigned(before, ixs[n]);
  }

  /** Instruction `n` of the run is a request that goes through. */
  predicate Requests(start: Ledger, ixs: seq<Instruction>, n: nat)
    requires n < |ixs|
  {
    ixs[n].DoRequest? && Step(Run(start, ixs[..n]).ledger, ixs[n]).Ok?
  }

  lemma StepKeepsNullifiers(l: Ledger, ix: Instruction)
    requires Step(l, ix).Ok?
    ensures l.nullifiers <= Step(l, ix).value.ledger.nullifiers
    ensures ix.DoRequest? ==>
              ix.request.nullifier !in l.nullifiers && ix.request.nullifier in Step(l, ix).value.ledger.nullifiers
  {
    hide CheckPayment, SettleUtxos, SettlePool, Change, Reserve, RemoveUtxos, MayCancel, ServiceFee;
  }

  lemma {:induction false} NullifierStays(start: Ledger, ixs: seq<Instruction>, m: nat)
    requires m < |ixs| && Requests(start, ixs, m)
    ensures ixs[m].request.nullifier in Run(start, ixs).ledger.nullifiers
    decreases |ixs|
  {
    hide Step;
    var earlier, last := ixs[..|ixs| - 1], ixs[|ixs| - 1];
    var before := Run(start, earlier).ledger;
    if Step(before, last).Ok? {
      StepKeepsNullifiers(before, last);
    }
    if m < |earlier| {
      assert earlier[..m] == ixs[..m];
      NullifierStays(start, earlier, m);
    }
  }

  /** No note is redeemed twice: the requests that go through in a run have different nullifiers. */
  lemma RequestsUseDistinctNullifiers(start: Ledger, ixs: seq<Instruction>, m: nat, n: nat)
    requires m < n < |ixs| && Requests(start, ixs, m) && Requests(start, ixs, n)
    ensures ixs[m].request.nullifier != ixs[n].request.nullifier
  {
    hide Step, Run;
    var before := ixs[..n];
    assert before[..m] == ixs[..m];
    NullifierStays(start, before, m);
    StepKeepsNullifiers(Run(start, before).ledger, ixs[n]);
  }
}

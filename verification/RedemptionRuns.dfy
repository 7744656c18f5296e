/** What holds over every run of deposits, requests, markings, cancellations and completions. */
module RedemptionRuns {
  import opened Common
  import opened MapTotals
  import opened RedemptionSpec

  // ---- Totals over the account maps --------------------------------------------------------------------------

  ghost function Amounts(requests: map<Key, Request>): map<Key, int> {
    map k | k in requests :: requests[k].amount as int
  }

  /** Sum of the amounts of all open requests. */
  ghost function OpenTotal(requests: map<Key, Request>): int {
    Total(Amounts(requests))
  }

  lemma OpenAdds(requests: map<Key, Request>, k: Key, r: Request)
    ensures OpenTotal(requests[k := r]) ==
            OpenTotal(requests) + r.amount - (if k in requests then requests[k].amount as int else 0)
  {
    TotalUpdate(Amounts(requests), k, r.amount);
    assert Amounts(requests[k := r]) == Amounts(requests)[k := r.amount as int];
  }

  lemma OpenRemoves(requests: map<Key, Request>, k: Key)
    requires k in requests
    ensures OpenTotal(requests - {k}) == OpenTotal(requests) - requests[k].amount
  {
    TotalSplit(Amounts(requests), k);
    assert Amounts(requests - {k}) == Amounts(requests) - {k};
  }

  ghost function UnspentAmount(u: Utxo): int {
    if u.reserved then 0 else u.amount
  }

  ghost function UnspentOne(u: Utxo): int {
    if u.reserved then 0 else 1
  }

  ghost function Weights(utxos: map<UtxoId, Utxo>, w: Utxo -> int): map<UtxoId, int> {
    map i | i in utxos :: w(utxos[i])
  }

  ghost function UnspentTotal(utxos: map<UtxoId, Utxo>): int {
    Total(Weights(utxos, UnspentAmount))
  }

  ghost function UnspentCount(utxos: map<UtxoId, Utxo>): int {
    Total(Weights(utxos, UnspentOne))
  }

  lemma WeightUpdate(utxos: map<UtxoId, Utxo>, id: UtxoId, u: Utxo, w: Utxo -> int)
    ensures Total(Weights(utxos[id := u], w)) ==
            Total(Weights(utxos, w)) + w(u) - (if id in utxos then w(utxos[id]) else 0)
  {
    TotalUpdate(Weights(utxos, w), id, w(u));
    assert Weights(utxos[id := u], w) == Weights(utxos, w)[id := w(u)];
  }

  lemma UnspentUpdate(utxos: map<UtxoId, Utxo>, id: UtxoId, u: Utxo)
    ensures UnspentTotal(utxos[id := u]) ==
            UnspentTotal(utxos) + UnspentAmount(u) - (if id in utxos then UnspentAmount(utxos[id]) else 0)
    ensures UnspentCount(utxos[id := u]) ==
            UnspentCount(utxos) + UnspentOne(u) - (if id in utxos then UnspentOne(utxos[id]) else 0)
  {
    WeightUpdate(utxos, id, u, UnspentAmount);
    WeightUpdate(utxos, id, u, UnspentOne);
  }

  lemma WeightRemove(utxos: map<UtxoId, Utxo>, id: UtxoId, w: Utxo -> int)
    requires id in utxos && w(utxos[id]) == 0
    ensures Total(Weights(utxos - {id}, w)) == Total(Weights(utxos, w))
  {
    TotalSplit(Weights(utxos, w), id);
    assert Weights(utxos - {id}, w) == Weights(utxos, w) - {id};
  }

  /** Closing a reserved record does not touch the unspent ones. */
  lemma UnspentRemove(utxos: map<UtxoId, Utxo>, id: UtxoId)
    requires id in utxos && utxos[id].reserved
    ensures UnspentTotal(utxos - {id}) == UnspentTotal(utxos) && UnspentCount(utxos - {id}) == UnspentCount(utxos)
  {
    WeightRemove(utxos, id, UnspentAmount);
    WeightRemove(utxos, id, UnspentOne);
  }

  // ---- Invariant ---------------------------------------------------------------------------------------------

  /** A request waits with nothing recorded for it, or is being processed; the Failed status is never assigned. */
  predicate RequestInv(k: Key, r: Request) {
    && r.requester == k.user
    && r.status != Failed
    && (r.status == Pending ==> r.totalInput == 0 && r.processingSlot == 0)
  }

  /** The pool's Bitcoin counters are the sum and the number of the unspent UTXO records. */
  ghost predicate UtxoInv(pool: Pool, utxos: map<UtxoId, Utxo>) {
    pool.btcHeld == UnspentTotal(utxos) && pool.utxoCount == UnspentCount(utxos)
  }

  ghost predicate Inv(l: Ledger) {
    UtxoInv(l.pool, l.utxos) && (forall k <- l.requests :: RequestInv(k, l.requests[k]))
  }

  /** The pool's counter is the number of open requests. */
  predicate Counted(l: Ledger) {
    l.pool.pending == |l.requests|
  }

  lemma {:induction false} ReserveKeeps(pool: Pool, utxos: map<UtxoId, Utxo>, ids: seq<UtxoId>)
    requires UtxoInv(pool, utxos) && Reserve(utxos, ids).Ok?
    requires RemoveUtxos(pool, Reserve(utxos, ids).value.amounts).Some?
    ensures var r, after := Reserve(utxos, ids).value, RemoveUtxos(pool, Reserve(utxos, ids).value.amounts).value;
            && UtxoInv(after, r.utxos) && r.total == pool.btcHeld - after.btcHeld
            && after == pool.(btcHeld := after.btcHeld, utxoCount := after.utxoCount)
  {
    if ids != [] {
      var shorter := ids[..|ids| - 1];
      var r, last := Reserve(utxos, shorter).value, ids[|ids| - 1];
      var amounts := Reserve(utxos, ids).value.amounts;
      assert amounts[..|amounts| - 1] == r.amounts;
      ReserveKeeps(pool, utxos, shorter);
      UnspentUpdate(r.utxos, last, Utxo(r.utxos[last].amount, true));
    }
  }

  lemma {:induction false} ConsumeKeeps(utxos: map<UtxoId, Utxo>, ids: seq<UtxoId>)
    requires Consume(utxos, ids).Ok?
    ensures UnspentTotal(Consume(utxos, ids).value) == UnspentTotal(utxos)
    ensures UnspentCount(Consume(utxos, ids).value) == UnspentCount(utxos)
  {
    if ids != [] {
      ConsumeKeeps(utxos, ids[..|ids| - 1]);
      UnspentRemove(Consume(utxos, ids[..|ids| - 1]).value, ids[|ids| - 1]);
    }
  }

  lemma RequestKeepsInv(l: Ledger, ix: RequestIx)
    requires Inv(l) && RequestStep(l, ix).Ok?
    ensures Inv(RequestStep(l, ix).value.ledger)
  {
    hide UtxoInv, ServiceFee;
    SameCounters(l.pool, RequestStep(l, ix).value.ledger.pool, l.utxos);
  }

  lemma DepositKeepsInv(l: Ledger, ix: Deposit)
    requires Inv(l) && DepositStep(l, ix).Ok?
    ensures Inv(DepositStep(l, ix).value.ledger)
  {
    UnspentUpdate(l.utxos, ix.utxo, Utxo(ix.amount, false));
  }

  lemma MarkKeepsInv(l: Ledger, ix: MarkIx)
    requires Inv(l) && MarkStep(l, ix).Ok?
    ensures Inv(MarkStep(l, ix).value.ledger)
  {
    hide UtxoInv, Reserve, RemoveUtxos;
    ReserveKeeps(l.pool, l.utxos, ix.utxos);
  }

  lemma ClosingCounts(requests: map<Key, Request>, k: Key)
    requires k in requests
    ensures |requests - {k}| == |requests| - 1
  {
    assert (requests - {k}).Keys == requests.Keys - {k};
    assert |(requests - {k}).Keys| == |requests - {k}|;
  }

  lemma CancelKeepsInv(l: Ledger, ix: CancelIx)
    requires Inv(l) && CancelStep(l, ix).Ok?
    ensures Inv(CancelStep(l, ix).value.ledger)
  {
    hide UtxoInv;
    SameCounters(l.pool, CancelStep(l, ix).value.ledger.pool, l.utxos);
  }

  lemma SameCounters(a: Pool, b: Pool, utxos: map<UtxoId, Utxo>)
    requires UtxoInv(a, utxos) && b.btcHeld == a.btcHeld && b.utxoCount == a.utxoCount
    ensures UtxoInv(b, utxos)
  {
  }

  lemma CompleteKeepsUtxos(l: Ledger, ix: CompleteIx)
    requires UtxoInv(l.pool, l.utxos) && CompleteStep(l, ix).Ok?
    ensures var after := CompleteStep(l, ix).value.ledger; UtxoInv(after.pool, after.utxos)
  {
    hide CheckPayment, Consume;
    var outs := ix.outputs.value;
    var change := Change(l, ix, outs);
    if change.Some? {
      var id, u := UtxoId(ix.txid, change.value), Utxo(outs[change.value].value, false);
      UnspentUpdate(l.utxos, id, u);
      ConsumeKeeps(l.utxos[id := u], ix.consumed);
    } else {
      ConsumeKeeps(l.utxos, ix.consumed);
    }
  }

  lemma CompleteKeepsInv(l: Ledger, ix: CompleteIx)
    requires Inv(l) && CompleteStep(l, ix).Ok?
    ensures Inv(CompleteStep(l, ix).value.ledger)
  {
    hide UtxoInv, SettleUtxos;
    CompleteKeepsUtxos(l, ix);
  }

  lemma StepKeepsInv(l: Ledger, ix: Instruction)
    requires Inv(l) && Step(l, ix).Ok?
    ensures Inv(Step(l, ix).value.ledger)
  {
    hide Inv, DepositStep, RequestStep, MarkStep, CancelStep, CompleteStep;
    match ix
    case DoDeposit(d) => DepositKeepsInv(l, d);
    case DoRequest(r) => RequestKeepsInv(l, r);
    case DoMark(m) => MarkKeepsInv(l, m);
    case DoCancel(c) => CancelKeepsInv(l, c);
    case DoComplete(c) => CompleteKeepsInv(l, c);
  }

  /** The invariant holds after every run. */
  lemma {:induction false} RunKeepsInv(start: Ledger, ixs: seq<Instruction>)
    requires Inv(start)
    ensures Inv(Run(start, ixs).ledger)
  {
    hide Inv, Step;
    if ixs != [] {
      var earlier, last := ixs[..|ixs| - 1], ixs[|ixs| - 1];
      RunKeepsInv(start, earlier);
      if Step(Run(start, earlier).ledger, last).Ok? {
        StepKeepsInv(Run(start, earlier).ledger, last);
      }
    }
  }

  // ---- The counter of open requests --------------------------------------------------------------------------

  lemma OpeningCounts(requests: map<Key, Request>, k: Key, r: Request)
    ensures |requests[k := r]| == |requests| + (if k in requests then 0 else 1)
  {
    assert requests[k := r].Keys == requests.Keys + {k};
    assert |requests[k := r].Keys| == |requests[k := r]|;
  }

  lemma RequestCounts(l: Ledger, ix: RequestIx)
    requires Counted(l) && RequestStep(l, ix).Ok?
    ensures Counted(RequestStep(l, ix).value.ledger) <==> |l.requests| < U64_MAX
  {
    hide ServiceFee;
    var key := Key(ix.user, ix.nonce);
    OpeningCounts(l.requests, key, Request(ix.user, ix.amount, ServiceFee(l, ix.amount), ix.script, Pending, 0, 0));
  }

  lemma MarkCounts(l: Ledger, ix: MarkIx)
    requires Counted(l) && MarkStep(l, ix).Ok?
    ensures Counted(MarkStep(l, ix).value.ledger)
  {
    hide Reserve, RemoveUtxos;
    RemovingUtxosTouchesOnlyCounters(l.pool, Reserve(l.utxos, ix.utxos).value.amounts);
    OpeningCounts(l.requests, ix.key, MarkStep(l, ix).value.ledger.requests[ix.key]);
  }

  lemma CancelCounts(l: Ledger, ix: CancelIx)
    requires Counted(l) && CancelStep(l, ix).Ok?
    ensures Counted(CancelStep(l, ix).value.ledger)
  {
    ClosingCounts(l.requests, ix.key);
  }

  lemma CompleteCounts(l: Ledger, ix: CompleteIx)
    requires Counted(l) && CompleteStep(l, ix).Ok?
    ensures Counted(CompleteStep(l, ix).value.ledger)
  {
    hide CheckPayment, SettleUtxos, Change;
    ClosingCounts(l.requests, ix.key);
  }

  /** One instruction keeps the count exact, unless it opens a request when the saturating counter is already full. */
  lemma StepCountsIff(l: Ledger, ix: Instruction)
    requires Counted(l) && Step(l, ix).Ok?
    ensures Counted(Step(l, ix).value.ledger) <==> !(ix.DoRequest? && |l.requests| == U64_MAX)
  {
    hide RequestStep, MarkStep, CancelStep, CompleteStep;
    match ix
    case DoDeposit(d) =>
    case DoRequest(r) => RequestCounts(l, r);
    case DoMark(m) => MarkCounts(l, m);
    case DoCancel(c) => CancelCounts(l, c);
    case DoComplete(c) => CompleteCounts(l, c);
  }

  /** Over a whole run the count is exact as long as fewer than 2^64 requests are open at any time. */
  lemma {:induction false} RunCounts(start: Ledger, ixs: seq<Instruction>)
    requires Counted(start)
    requires forall n | 0 <= n <= |ixs| :: |Run(start, ixs[..n]).ledger.requests| < TWO64
    ensures Counted(Run(start, ixs).ledger)
  {
    hide Step;
    if ixs != [] {
      var earlier, last := ixs[..|ixs| - 1], ixs[|ixs| - 1];
      forall n | 0 <= n <= |earlier|
        ensures |Run(start, earlier[..n]).ledger.requests| < TWO64
      {
        assert earlier[..n] == ixs[..n];
      }
      RunCounts(start, earlier);
      var before := Run(start, earlier).ledger;
      if Step(before, last).Ok? {
        StepCountsIff(before, last);
        if last.DoRequest? {
          assert ixs[..|ixs|] == ixs;
          StepOpensOne(before, last);
        }
      }
    }
  }

  lemma StepOpensOne(l: Ledger, ix: Instruction)
    requires ix.DoRequest? && Step(l, ix).Ok?
    ensures |Step(l, ix).value.ledger.requests| == |l.requests| + 1
  {
    hide ServiceFee;
    var r := ix.request;
    OpeningCounts(l.requests, Key(r.user, r.nonce),
                  Request(r.user, r.amount, ServiceFee(l, r.amount), r.script, Pending, 0, 0));
  }

  // ---- Conservation ------------------------------------------------------------------------------------------

  function Sum(events: seq<Event>, f: Event -> int): int {
    if events == [] then 0 else Sum(events[..|events| - 1], f) + f(events[|events| - 1])
  }

  function ShieldedBy(e: Event): int {
    if e.Deposited? then e.shielded else 0
  }

  function SettledBy(e: Event): int {
    if e.Completed? then e.amount else 0
  }

  function BurnedBy(e: Event): int {
    if e.Completed? then SaturatingAdd(e.received, e.minerFee) else 0
  }

  function RevenueBy(e: Event): int {
    if e.Completed? then SaturatingSub(e.serviceFee, e.minerFee) else 0
  }

  function FeesBy(e: Event): int {
    if e.Deposited? then e.amount - e.shielded else if e.Opened? then e.serviceFee else 0
  }

  function ReleasedBy(e: Event): int {
    if e.Cancelled? then e.amount else 0
  }

  function LeavesBy(e: Event): int {
    if e.Deposited? || e.Cancelled? then 1 else 0
  }

  function OpenedBy(e: Event): int {
    if e.Opened? then 1 else 0
  }

  function CompletedBy(e: Event): int {
    if e.Completed? then 1 else 0
  }

  /** Shielded balance plus everything locked in open requests. */
  ghost function Locked(l: Ledger): int {
    l.pool.totalShielded + OpenTotal(l.requests)
  }

  /** Authority, pause and fee settings, which no modelled instruction changes. */
  predicate SameSettings(l: Ledger, m: Ledger) {
    && m.pool.authority == l.pool.authority && m.pool.paused == l.pool.paused
    && m.pool.withdrawalFeeBps == l.pool.withdrawalFeeBps && m.token.serviceFee == l.token.serviceFee
  }

  /** How one instruction moves every counter, read off its event. */
  ghost predicate MovesBy(l: Ledger, o: Outcome) {
    var m, e := o.ledger, o.event;
    && Locked(m) == Locked(l) + ShieldedBy(e) - SettledBy(e)
    && SameSettings(l, m)
    && m.pool.totalMinted == l.pool.totalMinted + ShieldedBy(e)
    && m.token.accumulatedFees == l.token.accumulatedFees + FeesBy(e)
    && m.pool.totalBurned == l.pool.totalBurned + BurnedBy(e)
    && m.pool.feePool == l.pool.feePool + RevenueBy(e)
    && m.leafCount == l.leafCount + LeavesBy(e)
    && m.pool.totalShielded - m.token.totalShielded
       == l.pool.totalShielded - l.token.totalShielded + ReleasedBy(e)
    && |m.nullifiers| == |l.nullifiers| + OpenedBy(e)
    && |m.receipts| == |l.receipts| + CompletedBy(e)
    && l.receipts <= m.receipts
  }

  lemma {:induction false} RemovingUtxosTouchesOnlyCounters(pool: Pool, amounts: seq<u64>)
    requires RemoveUtxos(pool, amounts).Some?
    ensures var after := RemoveUtxos(pool, amounts).value;
            after == pool.(btcHeld := after.btcHeld, utxoCount := after.utxoCount)
  {
    if amounts != [] {
      RemovingUtxosTouchesOnlyCounters(pool, amounts[..|amounts| - 1]);
    }
  }

  lemma RequestMoves(l: Ledger, ix: RequestIx)
    requires RequestStep(l, ix).Ok?
    ensures MovesBy(l, RequestStep(l, ix).value)
  {
    hide OpenTotal, ServiceFee;
    var key := Key(ix.user, ix.nonce);
    OpenAdds(l.requests, key, Request(ix.user, ix.amount, ServiceFee(l, ix.amount), ix.script, Pending, 0, 0));
  }

  lemma MarkMoves(l: Ledger, ix: MarkIx)
    requires MarkStep(l, ix).Ok?
    ensures MovesBy(l, MarkStep(l, ix).value)
  {
    hide OpenTotal, Reserve, RemoveUtxos;
    RemovingUtxosTouchesOnlyCounters(l.pool, Reserve(l.utxos, ix.utxos).value.amounts);
    OpenAdds(l.requests, ix.key, MarkStep(l, ix).value.ledger.requests[ix.key]);
  }

  lemma CompleteMoves(l: Ledger, ix: CompleteIx)
    requires CompleteStep(l, ix).Ok?
    ensures MovesBy(l, CompleteStep(l, ix).value)
  {
    hide OpenTotal, CheckPayment, SettleUtxos, Change;
    OpenRemoves(l.requests, ix.key);
  }

  lemma CancelMoves(l: Ledger, ix: CancelIx)
    requires CancelStep(l, ix).Ok?
    ensures MovesBy(l, CancelStep(l, ix).value)
  {
    hide OpenTotal, MayCancel;
    OpenRemoves(l.requests, ix.key);
  }

  lemma DepositMoves(l: Ledger, ix: Deposit)
    requires DepositStep(l, ix).Ok?
    ensures MovesBy(l, DepositStep(l, ix).value)
  {
    hide OpenTotal;
  }

  lemma StepMoves(l: Ledger, ix: Instruction)
    requires Step(l, ix).Ok?
    ensures MovesBy(l, Step(l, ix).value)
  {
    hide MovesBy, DepositStep, RequestStep, MarkStep, CancelStep, CompleteStep;
    match ix
    case DoDeposit(d) => DepositMoves(l, d);
    case DoRequest(r) => RequestMoves(l, r);
    case DoMark(m) => MarkMoves(l, m);
    case DoCancel(c) => CancelMoves(l, c);
    case DoComplete(c) => CompleteMoves(l, c);
  }

  /**
   Conservation over every run. Shielded plus locked value changes only by deposits and completions; the burned total,
   the fee pool, the tree, the nullifiers and the receipts grow by exactly what the events say. The pool and token
   counters of shielded value drift apart by exactly the cancelled amounts, which only the pool gets back.
   */
  lemma {:induction false} RunConserves(start: Ledger, ixs: seq<Instruction>)
    ensures var h := Run(start, ixs); var m, es := h.ledger, h.events;
            && Locked(m) == Locked(start) + Sum(es, ShieldedBy) - Sum(es, SettledBy)
            && SameSettings(start, m)
            && m.pool.totalMinted == start.pool.totalMinted + Sum(es, ShieldedBy)
            && m.token.accumulatedFees == start.token.accumulatedFees + Sum(es, FeesBy)
            && m.pool.totalBurned == start.pool.totalBurned + Sum(es, BurnedBy)
            && m.pool.feePool == start.pool.feePool + Sum(es, RevenueBy)
            && m.leafCount == start.leafCount + Sum(es, LeavesBy)
            && m.pool.totalShielded - m.token.totalShielded
               == start.pool.totalShielded - start.token.totalShielded + Sum(es, ReleasedBy)
            && |m.nullifiers| == |start.nullifiers| + Sum(es, OpenedBy)
            && |m.receipts| == |start.receipts| + Sum(es, CompletedBy)
  {
    hide Step, Locked, ShieldedBy, SettledBy, FeesBy, BurnedBy, RevenueBy, LeavesBy, ReleasedBy, OpenedBy, CompletedBy;
    if ixs != [] {
      var earlier, last := ixs[..|ixs| - 1], ixs[|ixs| - 1];
      RunConserves(start, earlier);
      var before := Run(start, earlier);
      if Step(before.ledger, last).Ok? {
        StepMoves(before.ledger, last);
        var es := Run(start, ixs).events;
        assert es[..|es| - 1] == before.events;
      }
    }
  }

  // ---- When completions conserve -----------------------------------------------------------------------------

  /** Shielded, locked and burned value; with `net`, also the protocol's revenue. */
  ghost function Worth(net: bool, l: Ledger): int {
    Locked(l) + l.pool.totalBurned + (if net then l.pool.feePool else 0)
  }

  /**
   A property of the request and the Bitcoin transaction: the payment and the miner fee make up the amount; with `net`,
   the larger of miner fee and locked service fee takes the place of the miner fee.
   */
  predicate PaysInFull(net: bool, l: Ledger, ix: CompleteIx) {
    && ix.key in l.requests && ix.outputs.Some?
    && var r, outs := l.requests[ix.key], ix.outputs.value;
       var i := FirstPayment(outs, r.script, MinPayment(r));
       && i < |outs|
       && outs[i].value + (if net then Max(r.serviceFee, MinerFee(r, outs)) else MinerFee(r, outs)) == r.amount
  }

  /** What the completion's event reports is determined by the request and the Bitcoin transaction. */
  lemma EventOfCompletion(l: Ledger, ix: CompleteIx)
    requires CompleteStep(l, ix).Ok?
    ensures ix.key in l.requests && ix.outputs.Some?
    ensures var r, outs := l.requests[ix.key], ix.outputs.value;
            var i := FirstPayment(outs, r.script, MinPayment(r));
            && i < |outs|
            && CompleteStep(l, ix).value.event
               == Completed(ix.key, r.amount, r.serviceFee, ix.txid, outs[i].value, MinerFee(r, outs))
  {
    hide SettleUtxos, SettlePool, Change, MinPayment, MinerFee, FirstPayment;
  }

  lemma AmountIsSmall(l: Ledger, ix: CompleteIx)
    requires CompleteStep(l, ix).Ok?
    ensures ix.key in l.requests && l.requests[ix.key].amount <= MAX_REDEMPTION_AMOUNT_SATS
  {
    hide SettleUtxos, SettlePool, Change, MinPayment, MinerFee, FirstPayment;
  }

  /** An instruction changes the worth by what it shields, unless it is a completion that does not pay in full. */
  lemma StepConservesIff(net: bool, l: Ledger, ix: Instruction)
    requires Step(l, ix).Ok?
    ensures Worth(net, Step(l, ix).value.ledger) == Worth(net, l) + ShieldedBy(Step(l, ix).value.event)
            <==> (ix.DoComplete? ==> PaysInFull(net, l, ix.complete))
  {
    hide Locked, CompleteStep, DepositStep, RequestStep, MarkStep, CancelStep, MinPayment, MinerFee, FirstPayment;
    StepMoves(l, ix);
    EventKind(l, ix);
    if ix.DoComplete? {
      EventOfCompletion(l, ix.complete);
      AmountIsSmall(l, ix.complete);
    }
  }

  lemma EventKind(l: Ledger, ix: Instruction)
    requires Step(l, ix).Ok?
    ensures Step(l, ix).value.event.Completed? <==> ix.DoComplete?
  {
    hide Reserve, RemoveUtxos, CheckPayment, SettleUtxos, SettlePool, Change, MayCancel, ServiceFee;
  }

  /** The worth after the run is the worth before it and what was shielded meanwhile. */
  ghost predicate Balanced(net: bool, start: Ledger, ixs: seq<Instruction>) {
    var h := Run(start, ixs);
    Worth(net, h.ledger) == Worth(net, start) + Sum(h.events, ShieldedBy)
  }

  /** Instruction `n` of the run is not a completion that goes through without paying in full. */
  predicate InFullAt(net: bool, start: Ledger, ixs: seq<Instruction>, n: nat)
    requires n < |ixs|
  {
    var l := Run(start, ixs[..n]).ledger;
    ixs[n].DoComplete? && Step(l, ixs[n]).Ok? ==> PaysInFull(net, l, ixs[n].complete)
  }

  lemma LastStepBalances(net: bool, start: Ledger, ixs: seq<Instruction>)
    requires ixs != [] && Balanced(net, start, ixs[..|ixs| - 1])
    ensures Balanced(net, start, ixs) <==> InFullAt(net, start, ixs, |ixs| - 1)
  {
    hide Step, Worth, ShieldedBy, PaysInFull;
    var before, last := Run(start, ixs[..|ixs| - 1]), ixs[|ixs| - 1];
    if Step(before.ledger, last).Ok? {
      StepConservesIff(net, before.ledger, last);
      var es := Run(start, ixs).events;
      assert es[..|es| - 1] == before.events;
    }
  }

  /**
   Conservation over a whole run, exactly: every prefix is balanced if and only if every completion that goes through
   pays in full. Without `net` this is the law the lifecycle test checks on one completion.
   */
  lemma {:induction false} RunBalancesIff(net: bool, start: Ledger, ixs: seq<Instruction>)
    ensures (forall n | 0 <= n <= |ixs| :: Balanced(net, start, ixs[..n]))
            <==> (forall n | 0 <= n < |ixs| :: InFullAt(net, start, ixs, n))
    decreases |ixs|
  {
    hide Balanced, InFullAt;
    if ixs == [] {
      assert ixs[..0] == [];
      EmptyRunBalances(net, start);
    } else {
      var m := |ixs| - 1;
      var earlier := ixs[..m];
      RunBalancesIff(net, start, earlier);
      forall n | 0 <= n <= m ensures earlier[..n] == ixs[..n] {
      }
      forall n | 0 <= n < m ensures InFullAt(net, start, earlier, n) <==> InFullAt(net, start, ixs, n) {
        SamePrefix(net, start, ixs, n);
      }
      assert ixs[..|ixs|] == ixs && earlier[..m] == earlier;
      if Balanced(net, start, earlier) {
        LastStepBalances(net, start, ixs);
      }
    }
  }

  lemma EmptyRunBalances(net: bool, start: Ledger)
    ensures Balanced(net, start, [])
  {
  }

  lemma SamePrefix(net: bool, start: Ledger, ixs: seq<Instruction>, n: nat)
    requires n < |ixs| - 1
    ensures InFullAt(net, start, ixs[..|ixs| - 1], n) <==> InFullAt(net, start, ixs, n)
  {
    assert ixs[..|ixs| - 1][..n] == ixs[..n];
  }
}

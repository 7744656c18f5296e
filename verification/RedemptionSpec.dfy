/**
 The redemption instructions of the on-chain program as transitions of the accounts they touch
 (contracts/programs/utxopia/src/instructions). A failed instruction leaves every account as it was, because the
 runtime reverts the transaction.
 */
module RedemptionSpec {
  import opened Common

  const TWO16: nat := 0x1_0000
  const TWO64: nat := 0x1_0000_0000_0000_0000

  type u16 = n: int | 0 <= n < TWO16
  type u32 = n: int | 0 <= n < TWO32
  type u64 = n: int | 0 <= n < TWO64

  const U64_MAX: u64 := TWO64 - 1
  const MIN_WITHDRAWAL_SATS: u64 := 10_000
  const DUST_SATS: u64 := 546
  const MAX_FEE_SATS: u64 := 50_000
  const MAX_REDEMPTION_AMOUNT_SATS: u64 := 100_000_000
  const REQUIRED_CONFIRMATIONS: nat := 6
  const REDEMPTION_TIMEOUT_SLOTS: u64 := 216_000
  const MAX_UTXOS: nat := 20
  const MAX_BTC_SCRIPT_LEN: nat := 34
  const MAX_LEAVES: nat := 65536

  type Pubkey = nat
  type Txid = nat

  datatype Key = Key(user: Pubkey, nonce: u64)

  datatype UtxoId = UtxoId(txid: Txid, vout: nat)

  datatype Status = Pending | Processing | Failed

  datatype Request = Request(requester: Pubkey, amount: u64, serviceFee: u64, script: bytes,
                             status: Status, processingSlot: u32, totalInput: u64)

  datatype Utxo = Utxo(amount: u64, reserved: bool)

  datatype Pool = Pool(authority: Pubkey, paused: bool, withdrawalFeeBps: u16, totalMinted: u64, totalShielded: u64,
                       totalBurned: u64, pending: u64, feePool: u64, btcHeld: u64, utxoCount: u16)

  datatype Token = Token(serviceFee: u64, totalShielded: u64, accumulatedFees: u64)

  /** Every account the instructions read or write. `leafCount` is the commitment tree's next index. */
  datatype Ledger = Ledger(pool: Pool, token: Token, requests: map<Key, Request>, utxos: map<UtxoId, Utxo>,
                           receipts: set<Txid>, nullifiers: set<nat>, leafCount: nat)

  datatype Error =
    | PoolPaused | Unauthorized | AmountTooSmall | InsufficientFunds | InvalidBtcAddress | InvalidRoot
    | NullifierAlreadyUsed | AlreadyInitialized | InvalidInstruction | InvalidUtxo | UtxoNotUnspent | Arithmetic
    | InvalidAccount | InvalidRedemptionState | CancelNotAllowed | HashFailed | TreeFull | PoolScriptMismatch
    | DuplicateCompletion | SpvFailed | InsufficientConfirmations | OutputMismatch | AmountExceedsLimit | TokenFailure

  /** What an instruction did, for the history of a run. */
  datatype Event =
    | Deposited(utxo: UtxoId, amount: u64, shielded: u64)
    | Opened(key: Key, amount: u64, serviceFee: u64)
    | Marked(key: Key, slot: u64)
    | Cancelled(key: Key, amount: u64, slot: u64)
    | Completed(key: Key, amount: u64, serviceFee: u64, txid: Txid, received: u64, minerFee: u64)

  datatype Outcome = Outcome(ledger: Ledger, event: Event)

  type StepResult = Result<Outcome, Error>

  // ---- 64-bit arithmetic -------------------------------------------------------------------------------------

  function SaturatingAdd(a: u64, b: u64): u64 {
    if a + b < TWO64 then a + b else U64_MAX
  }

  function SaturatingSub(a: u64, b: u64): u64 {
    if b <= a then a - b else 0
  }

  // ---- complete_deposit: bookkeeping only --------------------------------------------------------------------

  datatype Deposit = Deposit(utxo: UtxoId, amount: u64, fee: u64)

  function AddUtxo(pool: Pool, amount: u64): Option<Pool> {
    if pool.btcHeld + amount < TWO64 && pool.utxoCount + 1 < TWO16
    then Some(pool.(btcHeld := pool.btcHeld + amount, utxoCount := pool.utxoCount + 1)) else None
  }

  function RemoveUtxo(pool: Pool, amount: u64): Option<Pool> {
    if amount <= pool.btcHeld && 1 <= pool.utxoCount
    then Some(pool.(btcHeld := pool.btcHeld - amount, utxoCount := pool.utxoCount - 1)) else None
  }

  function DepositStep(l: Ledger, ix: Deposit): StepResult {
    if l.pool.paused then Err(PoolPaused)
    else if ix.fee > ix.amount then Err(Arithmetic)
    else if l.leafCount >= MAX_LEAVES then Err(TreeFull)
    else if ix.utxo in l.utxos then Err(AlreadyInitialized)
    else
      var shielded := ix.amount - ix.fee;
      var withUtxo := AddUtxo(l.pool, ix.amount);
      if || withUtxo.None? || l.pool.totalMinted + shielded >= TWO64 || l.pool.totalShielded + shielded >= TWO64
         || l.token.totalShielded + shielded >= TWO64 || l.token.accumulatedFees + ix.fee >= TWO64
      then Err(Arithmetic)
      else
        Ok(Outcome(
             l.(pool := withUtxo.value.(totalMinted := l.pool.totalMinted + shielded,
                                        totalShielded := l.pool.totalShielded + shielded),
                token := l.token.(totalShielded := l.token.totalShielded + shielded,
                                  accumulatedFees := l.token.accumulatedFees + ix.fee),
                utxos := l.utxos[ix.utxo := Utxo(ix.amount, false)],
                leafCount := l.leafCount + 1),
             Deposited(ix.utxo, ix.amount, shielded)))
  }

  // ---- request_redemption ------------------------------------------------------------------------------------

  datatype RequestIx = RequestIx(user: Pubkey, nonce: u64, amount: u64, script: bytes, nullifier: nat, rootAccepted: bool)

  /** The percentage part is computed in 128 bits and cut to 64; the sum is capped. */
  function ServiceFee(l: Ledger, amount: u64): u64 {
    var pct: u64 := (amount * l.pool.withdrawalFeeBps / 10_000) % TWO64;
    SaturatingAdd(pct, l.token.serviceFee)
  }

  function RequestStep(l: Ledger, ix: RequestIx): StepResult {
    var fee := ServiceFee(l, ix.amount);
    var key := Key(ix.user, ix.nonce);
    if |ix.script| > MAX_BTC_SCRIPT_LEN then Err(InvalidBtcAddress)
    else if l.pool.paused then Err(PoolPaused)
    else if ix.amount < MIN_WITHDRAWAL_SATS then Err(AmountTooSmall)
    else if fee > 0 && fee + DUST_SATS >= TWO64 then Err(Arithmetic)
    else if fee > 0 && ix.amount <= fee + DUST_SATS then Err(AmountTooSmall)
    else if ix.amount > l.pool.totalShielded then Err(InsufficientFunds)
    else if ix.script == [] then Err(InvalidBtcAddress)
    else if !ix.rootAccepted then Err(InvalidRoot)
    else if ix.nullifier in l.nullifiers then Err(NullifierAlreadyUsed)
    else if key in l.requests then Err(AlreadyInitialized)
    else if l.token.totalShielded < ix.amount || l.token.accumulatedFees + fee >= TWO64 then Err(Arithmetic)
    else
      Ok(Outcome(
           l.(pool := l.pool.(totalShielded := l.pool.totalShielded - ix.amount,
                              pending := SaturatingAdd(l.pool.pending, 1)),
              token := l.token.(totalShielded := l.token.totalShielded - ix.amount,
                                accumulatedFees := l.token.accumulatedFees + fee),
              requests := l.requests[key := Request(ix.user, ix.amount, fee, ix.script, Pending, 0, 0)],
              nullifiers := l.nullifiers + {ix.nullifier}),
           Opened(key, ix.amount, fee)))
  }

  // ---- mark_processing ---------------------------------------------------------------------------------------

  /** With no UTXO listed the total comes from the instruction data (0 if absent). */
  datatype MarkIx = MarkIx(signer: Pubkey, key: Key, utxos: seq<UtxoId>, legacyTotal: u64, slot: u64)

  datatype Reservation = Reservation(utxos: map<UtxoId, Utxo>, amounts: seq<u64>, total: u64)

  function ReserveOne(r: Reservation, id: UtxoId): Result<Reservation, Error> {
    if id !in r.utxos then Err(InvalidUtxo)
    else if r.utxos[id].reserved then Err(UtxoNotUnspent)
    else
      var amount := r.utxos[id].amount;
      if r.total + amount >= TWO64 then Err(Arithmetic)
      else Ok(Reservation(r.utxos[id := Utxo(amount, true)], r.amounts + [amount], r.total + amount))
  }

  /** The listed UTXOs reserved one after the other; listing one twice fails on its second turn. */
  function Reserve(utxos: map<UtxoId, Utxo>, ids: seq<UtxoId>): (r: Result<Reservation, Error>)
    ensures r.Ok? ==> |r.value.amounts| == |ids|
  {
    if ids == [] then Ok(Reservation(utxos, [], 0)) else
    match Reserve(utxos, ids[..|ids| - 1])
    case Err(e) => Err(e)
    case Ok(r) => ReserveOne(r, ids[|ids| - 1])
  }

  function RemoveUtxos(pool: Pool, amounts: seq<u64>): Option<Pool> {
    if amounts == [] then Some(pool) else
      var before := RemoveUtxos(pool, amounts[..|amounts| - 1]);
      if before.None? then None else RemoveUtxo(before.value, amounts[|amounts| - 1])
  }

  function MarkStep(l: Ledger, ix: MarkIx): StepResult {
    if ix.signer != l.pool.authority then Err(Unauthorized)
    else if |ix.utxos| > MAX_UTXOS then Err(InvalidInstruction)
    else
      match Reserve(l.utxos, ix.utxos)
      case Err(e) => Err(e)
      case Ok(r) =>
        var pool := RemoveUtxos(l.pool, r.amounts);
        if pool.None? then Err(Arithmetic)
        else if ix.key !in l.requests then Err(InvalidAccount)
        else if l.requests[ix.key].status != Pending then Err(InvalidRedemptionState)
        else
          var total := if ix.utxos == [] then ix.legacyTotal else r.total;
          var marked := l.requests[ix.key].(status := Processing, processingSlot := ix.slot % TWO32,
                                            totalInput := total);
          Ok(Outcome(l.(pool := pool.value, utxos := r.utxos, requests := l.requests[ix.key := marked]),
                     Marked(ix.key, ix.slot)))
  }

  // ---- cancel_redemption -------------------------------------------------------------------------------------

  datatype CancelIx = CancelIx(user: Pubkey, key: Key, slot: u64, commitmentComputed: bool)

  predicate MayCancel(r: Request, slot: u64) {
    match r.status
    case Pending => true
    case Processing => slot >= SaturatingAdd(r.processingSlot, REDEMPTION_TIMEOUT_SLOTS)
    case Failed => false
  }

  function CancelStep(l: Ledger, ix: CancelIx): StepResult {
    if ix.key !in l.requests then Err(InvalidAccount)
    else
      var r := l.requests[ix.key];
      if ix.user != r.requester then Err(Unauthorized)
      else if !MayCancel(r, ix.slot) then Err(CancelNotAllowed)
      else if !ix.commitmentComputed then Err(HashFailed)
      else if l.leafCount >= MAX_LEAVES then Err(TreeFull)
      else if l.pool.totalShielded + r.amount >= TWO64 then Err(Arithmetic)
      else
        Ok(Outcome(
             l.(pool := l.pool.(totalShielded := l.pool.totalShielded + r.amount,
                                pending := SaturatingSub(l.pool.pending, 1)),
                requests := l.requests - {ix.key},
                leafCount := l.leafCount + 1),
             Cancelled(ix.key, r.amount, ix.slot)))
  }

  // ---- complete_redemption -----------------------------------------------------------------------------------

  datatype Output = Output(value: u64, script: bytes)

  /**
   The Bitcoin side as the handler reads it: the verified transaction's id and height, the light client's tip, the
   hash of the buffered transaction and its parsed outputs (None if it does not parse).
   */
  datatype CompleteIx = CompleteIx(
    signer: Pubkey, key: Key, txid: Txid, poolScript: bytes, configScript: bytes, verifiedTxid: Txid,
    blockHeight: nat, tip: nat, txHash: Txid, outputs: Option<seq<Output>>, burnSucceeds: bool,
    changeAccountGiven: bool, consumed: seq<UtxoId>)

  function Confirmations(blockHeight: nat, tip: nat): nat {
    if blockHeight > tip then 0 else tip - blockHeight + 1
  }

  predicate Pays(o: Output, script: bytes, min: u64) {
    o.script == script && o.value >= min
  }

  /** Index of the first output that pays the script at least `min`, or the number of outputs. */
  function FirstPayment(outs: seq<Output>, script: bytes, min: u64): (i: nat)
    ensures i <= |outs|
    ensures forall j | 0 <= j < i :: !Pays(outs[j], script, min)
    ensures i < |outs| ==> Pays(outs[i], script, min)
  {
    if outs == [] || Pays(outs[0], script, min) then 0 else
      var rest := FirstPayment(outs[1..], script, min);
      assert forall j | 0 < j < 1 + rest :: outs[j] == outs[1..][j - 1];
      1 + rest
  }

  function SumOutputs(outs: seq<Output>): u64 {
    if outs == [] then 0 else SaturatingAdd(SumOutputs(outs[..|outs| - 1]), outs[|outs| - 1].value)
  }

  /** The least payment accepted: the amount less the locked fee, less the fee tolerance. */
  function MinPayment(r: Request): u64 {
    SaturatingSub(SaturatingSub(r.amount, r.serviceFee), MAX_FEE_SATS)
  }

  function MinerFee(r: Request, outs: seq<Output>): u64 {
    SaturatingSub(r.totalInput, SumOutputs(outs))
  }

  /** The new UTXO for the change output, if change tracking is requested and such an output exists. */
  function Change(l: Ledger, ix: CompleteIx, outs: seq<Output>): (c: Option<nat>)
    ensures c.Some? ==> c.value < |outs|
  {
    var i := FirstPayment(outs, ix.poolScript, 0);
    if ix.poolScript != [] && ix.changeAccountGiven && i < |outs| then Some(i) else None
  }

  function Consume(utxos: map<UtxoId, Utxo>, ids: seq<UtxoId>): Result<map<UtxoId, Utxo>, Error> {
    if ids == [] then Ok(utxos) else
    match Consume(utxos, ids[..|ids| - 1])
    case Err(e) => Err(e)
    case Ok(m) =>
      var id := ids[|ids| - 1];
      if id !in m || !m[id].reserved then Err(InvalidUtxo) else Ok(m - {id})
  }

  /** The checks up to the burn; the result is the payment received and the miner fee. */
  datatype Payment = Payment(received: u64, minerFee: u64)

  function CheckPayment(l: Ledger, ix: CompleteIx): (r: Result<Payment, Error>)
    ensures r.Ok? ==> ix.key in l.requests && ix.outputs.Some? && ix.txid !in l.receipts
  {
    if ix.signer != l.pool.authority then Err(Unauthorized)
    else if ix.poolScript != [] && ix.configScript != [] && ix.poolScript != ix.configScript then Err(PoolScriptMismatch)
    else if ix.txid in l.receipts then Err(DuplicateCompletion)
    else if ix.key !in l.requests then Err(InvalidAccount)
    else
      var r := l.requests[ix.key];
      if r.status == Failed then Err(InvalidRedemptionState)
      else if ix.verifiedTxid != ix.txid then Err(SpvFailed)
      else if Confirmations(ix.blockHeight, ix.tip) < REQUIRED_CONFIRMATIONS then Err(InsufficientConfirmations)
      else if ix.txHash != ix.txid || ix.outputs.None? then Err(SpvFailed)
      else
        var outs := ix.outputs.value;
        var i := FirstPayment(outs, r.script, MinPayment(r));
        if i == |outs| then Err(OutputMismatch)
        else if r.totalInput == 0 then Err(AmountTooSmall)
        else if MinerFee(r, outs) > MAX_FEE_SATS then Err(OutputMismatch)
        else if l.pool.paused then Err(PoolPaused)
        else if r.amount > MAX_REDEMPTION_AMOUNT_SATS then Err(AmountExceedsLimit)
        else if !ix.burnSucceeds then Err(TokenFailure)
        else Ok(Payment(outs[i].value, MinerFee(r, outs)))
  }

  /** The UTXO records after the change output is recorded and the spent ones are closed. */
  function SettleUtxos(l: Ledger, ix: CompleteIx, outs: seq<Output>): Result<map<UtxoId, Utxo>, Error> {
    var change := Change(l, ix, outs);
    if change.Some? && UtxoId(ix.txid, change.value) in l.utxos then Err(AlreadyInitialized)
    else if |ix.consumed| > MAX_UTXOS then Err(InvalidInstruction)
    else
      var withChange := if change.Some? then
                          l.utxos[UtxoId(ix.txid, change.value) := Utxo(outs[change.value].value, false)]
                        else l.utxos;
      Consume(withChange, ix.consumed)
  }

  function Burned(p: Payment): u64 {
    SaturatingAdd(p.received, p.minerFee)
  }

  function Revenue(r: Request, p: Payment): u64 {
    SaturatingSub(r.serviceFee, p.minerFee)
  }

  function SettlePool(l: Ledger, r: Request, p: Payment, change: Option<u64>): Option<Pool> {
    var pool := l.pool;
    if pool.totalBurned + Burned(p) >= TWO64 || pool.feePool + Revenue(r, p) >= TWO64 then None
    else
      var paid := pool.(totalBurned := pool.totalBurned + Burned(p), feePool := pool.feePool + Revenue(r, p),
                        pending := SaturatingSub(pool.pending, 1));
      if change.Some? then AddUtxo(paid, change.value) else Some(paid)
  }

  function CompleteStep(l: Ledger, ix: CompleteIx): StepResult {
    match CheckPayment(l, ix)
    case Err(e) => Err(e)
    case Ok(p) =>
      var r, outs := l.requests[ix.key], ix.outputs.value;
      match SettleUtxos(l, ix, outs)
      case Err(e) => Err(e)
      case Ok(utxos) =>
        var change := Change(l, ix, outs);
        var pool := SettlePool(l, r, p, if change.Some? then Some(outs[change.value].value) else None);
        if pool.None? then Err(Arithmetic)
        else
          Ok(Outcome(l.(pool := pool.value, utxos := utxos, requests := l.requests - {ix.key},
                        receipts := l.receipts + {ix.txid}),
                     Completed(ix.key, r.amount, r.serviceFee, ix.txid, p.received, p.minerFee)))
  }

  // ---- Runs --------------------------------------------------------------------------------------------------

  datatype Instruction =
    | DoDeposit(deposit: Deposit)
    | DoRequest(request: RequestIx)
    | DoMark(mark: MarkIx)
    | DoCancel(cancel: CancelIx)
    | DoComplete(complete: CompleteIx)

  function Step(l: Ledger, ix: Instruction): StepResult {
    match ix
    case DoDeposit(d) => DepositStep(l, d)
    case DoRequest(r) => RequestStep(l, r)
    case DoMark(m) => MarkStep(l, m)
    case DoCancel(c) => CancelStep(l, c)
    case DoComplete(c) => CompleteStep(l, c)
  }

  datatype History = History(ledger: Ledger, events: seq<Event>)

  /** A run: failed instructions change nothing and leave no event. */
  function Run(start: Ledger, ixs: seq<Instruction>): History {
    if ixs == [] then History(start, []) else
      var before := Run(start, ixs[..|ixs| - 1]);
      match Step(before.ledger, ixs[|ixs| - 1])
      case Err(_) => before
      case Ok(o) => History(o.ledger, before.events + [o.event])
  }
}

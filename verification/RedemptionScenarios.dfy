/** Two runs from fresh accounts: one that does not pay in full, and one that strands a reservation. */
module RedemptionScenarios {
  import opened Common
  import opened RedemptionSpec
  import opened RedemptionRuns
  import opened RedemptionBacking

  const AUTHORITY: Pubkey := 9
  const KEY: Key := Key(7, 1)
  const COIN: UtxoId := UtxoId(1, 0)
  const SCRIPT: bytes := [1, 2, 3]
  const POOL_SCRIPT: bytes := [8]

  function FreshPool(): Pool {
    Pool(AUTHORITY, false, 0, 0, 0, 0, 0, 0, 0, 0)
  }

  /** Fresh accounts with a service fee of 1000. */
  function Fresh(): Ledger {
    Ledger(FreshPool(), Token(1_000, 0, 0), map[], map[], {}, {}, 0)
  }

  function Depositing(): Instruction {
    DoDeposit(Deposit(COIN, 200_000, 0))
  }

  function AfterDeposit(): Ledger {
    Ledger(FreshPool().(totalMinted := 200_000, totalShielded := 200_000, btcHeld := 200_000, utxoCount := 1),
           Token(1_000, 200_000, 0), map[], map[COIN := Utxo(200_000, false)], {}, {}, 1)
  }

  function Requesting(): Instruction {
    DoRequest(RequestIx(7, 1, 100_000, SCRIPT, 5, true))
  }

  function AfterRequest(): Ledger {
    AfterDeposit().(pool := AfterDeposit().pool.(totalShielded := 100_000, pending := 1),
                 token := Token(1_000, 100_000, 1_000),
                 requests := map[KEY := Request(7, 100_000, 1_000, SCRIPT, Pending, 0, 0)], nullifiers := {5})
  }

  function Marking(): Instruction {
    DoMark(MarkIx(AUTHORITY, KEY, [COIN], 0, 50))
  }

  function AfterMarking(): Ledger {
    AfterRequest().(pool := AfterRequest().pool.(btcHeld := 0, utxoCount := 0),
                 requests := map[KEY := Request(7, 100_000, 1_000, SCRIPT, Processing, 50, 200_000)],
                 utxos := map[COIN := Utxo(200_000, true)])
  }

  /** 99000 paid, 100500 change, 500 for the miner. */
  function Outputs(): seq<Output> {
    [Output(99_000, SCRIPT), Output(100_500, POOL_SCRIPT)]
  }

  function Completion(): CompleteIx {
    CompleteIx(AUTHORITY, KEY, 4, POOL_SCRIPT, [], 4, 1, 6, 4, Some(Outputs()), true, true, [COIN])
  }

  function Cancelling(): Instruction {
    DoCancel(CancelIx(7, KEY, 216_050, true))
  }

  lemma DepositGoesThrough()
    ensures Step(Fresh(), Depositing()).Ok? && Step(Fresh(), Depositing()).value.ledger == AfterDeposit()
    ensures Step(Fresh(), Depositing()).value.event.Deposited? && Step(Fresh(), Depositing()).value.event.shielded == 200_000
  {
  }

  lemma RequestGoesThrough()
    ensures Step(AfterDeposit(), Requesting()).Ok? && Step(AfterDeposit(), Requesting()).value.ledger == AfterRequest()
    ensures Step(AfterDeposit(), Requesting()).value.event.Opened?
  {
    assert ServiceFee(AfterDeposit(), 100_000) == 1_000;
  }

  lemma ReservationGoesThrough()
    ensures Reserve(AfterRequest().utxos, [COIN]) == Ok(Reservation(map[COIN := Utxo(200_000, true)], [200_000], 200_000))
    ensures RemoveUtxos(AfterRequest().pool, [200_000]) == Some(AfterRequest().pool.(btcHeld := 0, utxoCount := 0))
  {
    var utxos, pool := AfterRequest().utxos, AfterRequest().pool;
    var ids, amounts: seq<u64> := [COIN], [200_000];
    assert ids[..0] == [] && amounts[..0] == [];
    assert Reserve(utxos, ids) == ReserveOne(Reservation(utxos, [], 0), COIN);
    assert RemoveUtxos(pool, amounts) == RemoveUtxo(pool, 200_000);
    assert utxos[COIN := Utxo(200_000, true)] == map[COIN := Utxo(200_000, true)];
    var none: seq<u64> := [];
    assert none + amounts == amounts;
  }

  lemma MarkGoesThrough()
    ensures Step(AfterRequest(), Marking()).Ok? && Step(AfterRequest(), Marking()).value.ledger == AfterMarking()
    ensures Step(AfterRequest(), Marking()).value.event.Marked?
  {
    hide Reserve, RemoveUtxos;
    ReservationGoesThrough();
  }

  lemma PaymentIsAccepted()
    ensures FirstPayment(Outputs(), SCRIPT, 49_000) == 0 && FirstPayment(Outputs(), POOL_SCRIPT, 0) == 1
    ensures SumOutputs(Outputs()) == 199_500
    ensures CheckPayment(AfterMarking(), Completion()) == Ok(Payment(99_000, 500))
  {
    var outs := Outputs();
    assert Pays(outs[0], SCRIPT, 49_000) && !Pays(outs[0], POOL_SCRIPT, 0) && Pays(outs[1], POOL_SCRIPT, 0);
    assert outs[..1][..0] == [] && outs[..1] == [Output(99_000, SCRIPT)];
    assert SumOutputs(outs[..1]) == 99_000;
    assert MinPayment(AfterMarking().requests[KEY]) == 49_000;
    FirstOf(outs, POOL_SCRIPT);
  }

  lemma FirstOf(outs: seq<Output>, script: bytes)
    requires |outs| == 2 && !Pays(outs[0], script, 0) && Pays(outs[1], script, 0)
    ensures FirstPayment(outs, script, 0) == 1
  {
  }

  lemma CompletionGoesThrough()
    ensures CompleteStep(AfterMarking(), Completion()).Ok?
    ensures CompleteStep(AfterMarking(), Completion()).value.event == Completed(KEY, 100_000, 1_000, 4, 99_000, 500)
    ensures var m := CompleteStep(AfterMarking(), Completion()).value.ledger;
            m.pool.totalBurned == 99_500 && m.pool.totalShielded == 100_000 && m.pool.feePool == 500 && m.requests == map[]
  {
    hide CheckPayment, FirstPayment;
    PaymentIsAccepted();
    var utxos := AfterMarking().utxos[UtxoId(4, 1) := Utxo(100_500, false)];
    var ids := [COIN];
    assert ids[..0] == [] && Consume(utxos, ids[..0]) == Ok(utxos);
    assert Consume(utxos, ids).Ok?;
  }

  function PaidRun(): seq<Instruction> {
    [Depositing(), Requesting(), Marking(), DoComplete(Completion())]
  }

  function CancelledRun(): seq<Instruction> {
    [Depositing(), Requesting(), Marking(), Cancelling()]
  }

  lemma RunOneMore(start: Ledger, ixs: seq<Instruction>, last: Instruction)
    requires Step(Run(start, ixs).ledger, last).Ok?
    ensures var o := Step(Run(start, ixs).ledger, last).value;
            Run(start, ixs + [last]) == History(o.ledger, Run(start, ixs).events + [o.event])
  {
    assert (ixs + [last])[..|ixs|] == ixs;
  }

  /** The first three instructions of both runs. */
  lemma RunToMarking()
    ensures var h := Run(Fresh(), [Depositing(), Requesting(), Marking()]);
            && h.ledger == AfterMarking() && |h.events| == 3 && h.events[0].Deposited? && h.events[0].shielded == 200_000
            && h.events[1].Opened? && h.events[2].Marked?
  {
    hide Step;
    DepositGoesThrough();
    RequestGoesThrough();
    MarkGoesThrough();
    RunOneMore(Fresh(), [], Depositing());
    RunOneMore(Fresh(), [Depositing()], Requesting());
    RunOneMore(Fresh(), [Depositing(), Requesting()], Marking());
    assert [] + [Depositing()] == [Depositing()];
    assert [Depositing()] + [Requesting()] == [Depositing(), Requesting()];
    assert [Depositing(), Requesting()] + [Marking()] == [Depositing(), Requesting(), Marking()];
  }

  lemma PaidRunEnds()
    ensures var h, last := Run(Fresh(), PaidRun()), CompleteStep(AfterMarking(), Completion());
            && |h.events| == 4 && h.events[0].Deposited? && h.events[0].shielded == 200_000
            && h.events[1].Opened? && h.events[2].Marked?
            && h.events[3] == Completed(KEY, 100_000, 1_000, 4, 99_000, 500)
            && last.Ok? && h.ledger == last.value.ledger
  {
    hide CompleteStep, Marking, Requesting, Depositing, AfterMarking, Completion, Fresh, Run;
    RunToMarking();
    CompletionGoesThrough();
    var three := [Depositing(), Requesting(), Marking()];
    assert three + [DoComplete(Completion())] == PaidRun();
    RunOneMore(Fresh(), three, DoComplete(Completion()));
  }

  lemma WorthOfSettled(net: bool, l: Ledger)
    requires l.requests == map[]
    ensures Worth(net, l) == l.pool.totalShielded + l.pool.totalBurned + (if net then l.pool.feePool else 0)
  {
    hide OpenTotal;
    NothingOpen();
  }

  /**
   A run from fresh accounts that burns less than was redeemed: of 100000, 99000 are paid and 500 go to the miner. The
   remaining 500 of the service fee are revenue, so the run is balanced only when revenue is counted.
   */
  lemma ServiceFeeBurnsLess()
    ensures var h := Run(Fresh(), PaidRun());
            |h.events| == 4 && h.events[3] == Completed(KEY, 100_000, 1_000, 4, 99_000, 500)
            && h.ledger.pool.totalBurned == 99_500 && h.ledger.requests == map[]
    ensures !Balanced(false, Fresh(), PaidRun()) && Balanced(true, Fresh(), PaidRun())
  {
    hide Run, Worth, Sum, CompleteStep, PaidRun, AfterMarking, Completion;
    PaidRunEnds();
    CompletionGoesThrough();
    var h := Run(Fresh(), PaidRun());
    ShieldedOnce(h.events);
    WorthOfSettled(false, Fresh());
    WorthOfSettled(true, Fresh());
    WorthOfSettled(false, h.ledger);
    WorthOfSettled(true, h.ledger);
  }

  lemma NothingOpen()
    ensures OpenTotal(map[]) == 0 && InputTotal(map[]) == 0
  {
    assert Amounts(map[]) == map[] && Inputs(map[]) == map[];
  }

  lemma ShieldedOnce(es: seq<Event>)
    requires |es| == 4 && es[0].Deposited? && es[0].shielded == 200_000
    requires es[1].Opened? && es[2].Marked? && es[3].Completed?
    ensures Sum(es, ShieldedBy) == 200_000
  {
    var a, b, c := es[..1], es[..2], es[..3];
    assert c[..2] == b && b[..1] == a && a[..0] == [];
    assert Sum(a, ShieldedBy) == Sum(a[..0], ShieldedBy) + 200_000;
    assert Sum(b, ShieldedBy) == Sum(a, ShieldedBy);
    assert Sum(c, ShieldedBy) == Sum(b, ShieldedBy);
  }

  /** A run from fresh accounts that cancels after the timeout: no request is left, and 200000 stay reserved. */
  lemma CancellationStrandsReservation()
    ensures var l := Run(Fresh(), CancelledRun()).ledger;
            && l.requests == map[] && l.utxos == map[COIN := Utxo(200_000, true)] && l.pool.totalShielded == 200_000
            && l.pool.btcHeld == 0 && !Backed(l)
  {
    hide ReservedTotal, InputTotal, Step, Marking, Requesting, Depositing, Cancelling, Fresh, Run;
    RunToMarking();
    var three := [Depositing(), Requesting(), Marking()];
    assert three + [Cancelling()] == CancelledRun();
    CancelGoesThrough();
    RunOneMore(Fresh(), three, Cancelling());
    NothingOpen();
    OneReserved();
  }

  lemma CancelGoesThrough()
    ensures Step(AfterMarking(), Cancelling()).Ok?
    ensures var m := Step(AfterMarking(), Cancelling()).value.ledger;
            m.requests == map[] && m.utxos == AfterMarking().utxos && m.pool.totalShielded == 200_000 && m.pool.btcHeld == 0
  {
  }

  lemma OneReserved()
    ensures ReservedTotal(map[COIN := Utxo(200_000, true)]) == 200_000
  {
    var none: map<UtxoId, Utxo> := map[];
    WeightUpdate(none, COIN, Utxo(200_000, true), ReservedAmount);
    assert Weights(none, ReservedAmount) == map[];
    assert none[COIN := Utxo(200_000, true)] == map[COIN := Utxo(200_000, true)];
  }
}

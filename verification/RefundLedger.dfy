/** The rows of one payment and its refunds, and the transactions that write them
    (refund-payment.action.ts, release-refund-reservation.ts, local-refund-actions.ts). */
module RefundLedger {
  import opened Wrappers
  import opened Unicode
  import P = PaymentStates

  datatype RefundStatus = Pending | Succeeded | Failed | Canceled

  datatype RefundRow = RefundRow(amount: int, status: RefundStatus)

  datatype PaymentRow = PaymentRow(amount: int, refundedAmount: int, status: P.PaymentStatus)

  /** A refund's id is its position: rows are only ever appended. */
  datatype Ledger = Ledger(payment: PaymentRow, refunds: seq<RefundRow>)

  /** What a caller records of a local refund, with what the payment's fixed columns say of it:
      whether a provider holds the payment, and whether a given amount is in its currency. */
  datatype LocalRefund = LocalRefund(
    want: Option<int>, sameCurrency: bool, providerBacked: bool, confirmed: bool, reference: Option<Text>)

  datatype RefundError =
    | PaymentNotFound | ConfirmationRequired | ReferenceRequired | NotRefundable | CurrencyMismatch | ExceedsRemaining
    | InvalidTransition | ReservationConflict | ReleaseConflict

  datatype Plan = Plan(amount: int, next: PaymentRow)

  // ---------------------------------------------------------------- plans: what a transaction writes

  function Remaining(row: PaymentRow): int {
    row.amount - row.refundedAmount
  }

  function Requested(row: PaymentRow, want: Option<int>): int {
    if want.Some? then want.value else Remaining(row)
  }

  function PlanWith(row: PaymentRow, amount: int, full: bool): Result<Plan, RefundError> {
    var event := if full then P.Refund else P.PartiallyRefund;
    match P.NextStatus(row.status, event)
    case None => Failure(InvalidTransition)
    case Some(status) => Success(Plan(amount, PaymentRow(row.amount, row.refundedAmount + amount, status)))
  }

  /** `tryReserve`, up to the compare-and-swap. */
  function PlanReserve(row: PaymentRow, want: Option<int>): Result<Plan, RefundError> {
    var requested := Requested(row, want);
    if Remaining(row) <= 0 || requested > Remaining(row) then Failure(ExceedsRemaining)
    else PlanWith(row, requested, row.refundedAmount + requested >= row.amount)
  }

  predicate Referenced(input: LocalRefund) {
    input.reference.Some? && Trim(input.reference.value) != []
  }

  /** `tryPersist`, up to the compare-and-swap. */
  function PlanRecord(row: PaymentRow, input: LocalRefund): Result<Plan, RefundError> {
    var amount := Requested(row, input.want);
    if input.providerBacked && !input.confirmed then Failure(ConfirmationRequired)
    else if input.providerBacked && !Referenced(input) then Failure(ReferenceRequired)
    else if !P.Refundable(row.status) then Failure(NotRefundable)
    else if input.want.Some? && !input.sameCurrency then Failure(CurrencyMismatch)
    else if amount <= 0 || amount > Remaining(row) then Failure(ExceedsRemaining)
    else PlanWith(row, amount, row.refundedAmount + amount == row.amount)
  }

  /** The row that `releaseRefundReservation` writes back. */
  function PlanRelease(row: PaymentRow, requested: int): PaymentRow {
    var difference := row.refundedAmount - requested;
    var refunded := if difference < 0 then 0 else difference;
    PaymentRow(row.amount, refunded, if refunded <= 0 then P.Succeeded else P.PartiallyRefunded)
  }

  /** `updateRefundedAmountIfUnchanged` compares the refunded amount and nothing else. */
  predicate Unchanged(l: Ledger, seen: PaymentRow) {
    l.payment.refundedAmount == seen.refundedAmount
  }

  function Write(l: Ledger, next: PaymentRow): Ledger {
    l.(payment := l.payment.(refundedAmount := next.refundedAmount, status := next.status))
  }

  function Append(l: Ledger, refund: RefundRow): Ledger {
    l.(refunds := l.refunds + [refund])
  }

  function Mark(l: Ledger, id: nat, status: RefundStatus): Ledger {
    if id < |l.refunds| then l.(refunds := l.refunds[id := l.refunds[id].(status := status)]) else l
  }

  // ---------------------------------------------------------------- atomic transactions

  datatype Tx =
    | Reserve(want: Option<int>)
    | Record(input: LocalRefund)
    | Release(id: nat, outcome: RefundStatus)
    | Finalize(id: nat, outcome: RefundStatus)

  /** What a transaction decides from the payment row it reads. */
  function PlanOf(row: PaymentRow, refunds: seq<RefundRow>, tx: Tx): Result<Plan, RefundError> {
    match tx
    case Reserve(want) => PlanReserve(row, want)
    case Record(input) => PlanRecord(row, input)
    case Release(id, _) =>
      var amount := if id < |refunds| then refunds[id].amount else 0;
      Success(Plan(amount, PlanRelease(row, amount)))
    case Finalize(_, _) => Success(Plan(0, row))
  }

  /** What it then writes: the payment row, and the refund row with it. */
  function Commit(l: Ledger, tx: Tx, plan: Plan): Ledger {
    match tx
    case Reserve(_) => Append(Write(l, plan.next), RefundRow(plan.amount, Pending))
    case Record(_) => Append(Write(l, plan.next), RefundRow(plan.amount, Succeeded))
    case Release(id, outcome) => Mark(Write(l, plan.next), id, outcome)
    case Finalize(id, outcome) => Mark(l, id, outcome)
  }

  /** A transaction as one indivisible read and write; a refused one changes nothing. */
  function Apply(l: Ledger, tx: Tx): Ledger {
    match PlanOf(l.payment, l.refunds, tx)
    case Failure(_) => l
    case Success(plan) => Commit(l, tx, plan)
  }

  /** What callers keep to: positive explicit amounts, and only a pending refund is released or finalised. */
  predicate Allowed(l: Ledger, tx: Tx) {
    match tx
    case Reserve(want) => want.Some? ==> want.value > 0
    case Record(_) => true
    case Release(id, outcome) =>
      id < |l.refunds| && l.refunds[id].status == Pending && (outcome == Failed || outcome == Canceled)
    case Finalize(id, outcome) =>
      id < |l.refunds| && l.refunds[id].status == Pending && (outcome == Pending || outcome == Succeeded)
  }

  function ApplyAll(l: Ledger, txs: seq<Tx>): Ledger {
    if txs == [] then l else Apply(ApplyAll(l, txs[..|txs| - 1]), txs[|txs| - 1])
  }

  predicate AllowedAll(l: Ledger, txs: seq<Tx>) {
    txs == [] ||
    (AllowedAll(l, txs[..|txs| - 1]) && Allowed(ApplyAll(l, txs[..|txs| - 1]), txs[|txs| - 1]))
  }

  // ---------------------------------------------------------------- the ledger equation

  predicate Active(refund: RefundRow) {
    refund.status == Pending || refund.status == Succeeded
  }

  function Weight(refund: RefundRow): int {
    if Active(refund) then refund.amount else 0
  }

  /** The total of the pending and succeeded refunds. */
  function ActiveTotal(refunds: seq<RefundRow>): int {
    if refunds == [] then 0 else ActiveTotal(refunds[..|refunds| - 1]) + Weight(refunds[|refunds| - 1])
  }

  function StatusFor(amount: int, refunded: int): P.PaymentStatus {
    if refunded == 0 then P.Succeeded
    else if refunded < amount then P.PartiallyRefunded
    else P.Refunded
  }

  /** The only payment row a set of refunds admits. */
  function PaymentFor(amount: int, refunds: seq<RefundRow>): PaymentRow {
    PaymentRow(amount, ActiveTotal(refunds), StatusFor(amount, ActiveTotal(refunds)))
  }

  ghost predicate Coherent(row: PaymentRow) {
    0 <= row.refundedAmount <= row.amount && row.status == StatusFor(row.amount, row.refundedAmount)
  }

  ghost predicate Consistent(l: Ledger) {
    && Coherent(l.payment)
    && l.payment == PaymentFor(l.payment.amount, l.refunds)
    && forall i | 0 <= i < |l.refunds| :: l.refunds[i].amount > 0
  }

  function Opened(amount: nat): (l: Ledger)
    ensures Consistent(l)
  {
    Ledger(PaymentRow(amount, 0, P.Succeeded), [])
  }

  lemma ActiveTotalAppend(refunds: seq<RefundRow>, refund: RefundRow)
    ensures ActiveTotal(refunds + [refund]) == ActiveTotal(refunds) + Weight(refund)
  {
    assert (refunds + [refund])[..|refunds|] == refunds;
  }

  lemma {:induction false} ActiveTotalUpdate(refunds: seq<RefundRow>, id: nat, refund: RefundRow)
    requires id < |refunds|
    ensures ActiveTotal(refunds[id := refund]) == ActiveTotal(refunds) - Weight(refunds[id]) + Weight(refund)
  {
    var n := |refunds| - 1;
    if id == n {
      assert refunds[id := refund][..n] == refunds[..n];
    } else {
      assert refunds[id := refund][..n] == refunds[..n][id := refund];
      ActiveTotalUpdate(refunds[..n], id, refund);
    }
  }

  /** No single refund exceeds the total, so a release never goes below zero. */
  lemma {:induction false} ActiveTotalBounds(refunds: seq<RefundRow>, id: nat)
    requires id < |refunds| && Active(refunds[id])
    requires forall i | 0 <= i < |refunds| :: refunds[i].amount > 0
    ensures 0 < refunds[id].amount <= ActiveTotal(refunds)
  {
    var n := |refunds| - 1;
    if id < n {
      ActiveTotalBounds(refunds[..n], id);
    } else {
      ActiveTotalNonnegative(refunds[..n]);
    }
  }

  lemma {:induction false} ActiveTotalNonnegative(refunds: seq<RefundRow>)
    requires forall i | 0 <= i < |refunds| :: refunds[i].amount > 0
    ensures ActiveTotal(refunds) >= 0
  {
    if refunds != [] {
      ActiveTotalNonnegative(refunds[..|refunds| - 1]);
    }
  }

  /** A plan made from a coherent row stays within the amount and carries the status of its new total. */
  lemma ReservePlanIsCoherent(row: PaymentRow, want: Option<int>)
    requires Coherent(row)
    ensures PlanReserve(row, want).Success? && (want.Some? ==> want.value > 0) ==>
              PlanOk(row, PlanReserve(row, want).value)
  {
  }

  lemma RecordPlanIsCoherent(row: PaymentRow, input: LocalRefund)
    requires Coherent(row)
    ensures PlanRecord(row, input).Success? ==> PlanOk(row, PlanRecord(row, input).value)
  {
  }

  ghost predicate PlanOk(row: PaymentRow, plan: Plan) {
    var total := row.refundedAmount + plan.amount;
    0 < plan.amount && plan.next == PaymentRow(row.amount, total, StatusFor(row.amount, total)) && total <= row.amount
  }

  /** A reservation takes what was asked for, or all that remains, and is refused exactly where there is too little. */
  lemma ReservePlanMeans(row: PaymentRow, want: Option<int>)
    ensures var r := PlanReserve(row, want);
            && (r.Success? ==>
                  && r.value.amount == (if want.Some? then want.value else row.amount - row.refundedAmount)
                  && r.value.next.refundedAmount == (if want.Some? then row.refundedAmount + want.value else row.amount)
                  && r.value.next.amount == row.amount && P.Refundable(row.status)
                  && r.value.next.status == if r.value.next.refundedAmount >= row.amount then P.Refunded
                                            else P.PartiallyRefunded)
            && (r == Failure(ExceedsRemaining) <==>
                  row.amount <= row.refundedAmount || (want.Some? && want.value > row.amount - row.refundedAmount))
            && (r == Failure(InvalidTransition) <==> r != Failure(ExceedsRemaining) && !P.Refundable(row.status))
            && (r.Failure? ==> r.error == ExceedsRemaining || r.error == InvalidTransition)
  {
  }

  /** What keeps a local refund from being recorded before its amount is looked at. */
  function Obstacle(row: PaymentRow, input: LocalRefund): Option<RefundError> {
    if input.providerBacked && !input.confirmed then Some(ConfirmationRequired)
    else if input.providerBacked && (input.reference.None? || Blank(input.reference.value)) then Some(ReferenceRequired)
    else if row.status != P.Succeeded && row.status != P.PartiallyRefunded then Some(NotRefundable)
    else if input.want.Some? && !input.sameCurrency then Some(CurrencyMismatch)
    else None
  }

  /** A local refund records what was asked for, or all that remains, and is refused exactly where something stands in
      the way, or the amount is not positive or too large. */
  lemma RecordPlanMeans(row: PaymentRow, input: LocalRefund)
    ensures var r := PlanRecord(row, input);
            var amount := if input.want.Some? then input.want.value else row.amount - row.refundedAmount;
            && (r.Success? ==>
                  && r.value.amount == amount && r.value.next.amount == row.amount
                  && r.value.next.refundedAmount == row.refundedAmount + amount
                  && r.value.next.status == if row.refundedAmount + amount == row.amount then P.Refunded
                                            else P.PartiallyRefunded)
            && (r.Success? <==> Obstacle(row, input).None? && 0 < amount <= row.amount - row.refundedAmount)
            && (r.Failure? ==>
                  r.error == if Obstacle(row, input).Some? then Obstacle(row, input).value else ExceedsRemaining)
  {
    if input.reference.Some? {
      TrimEmptyIffBlank(input.reference.value);
    }
  }

  /** Reserving or recording a refund of a planned amount keeps the ledger equation. */
  lemma AppendKeepsConsistent(l: Ledger, plan: Plan, status: RefundStatus)
    requires Consistent(l) && PlanOk(l.payment, plan) && (status == Pending || status == Succeeded)
    ensures Consistent(Append(Write(l, plan.next), RefundRow(plan.amount, status)))
  {
    ActiveTotalAppend(l.refunds, RefundRow(plan.amount, status));
  }

  /** So does giving a pending refund's amount back. */
  lemma ReleaseKeepsConsistent(l: Ledger, id: nat, outcome: RefundStatus)
    requires Consistent(l) && Allowed(l, Release(id, outcome))
    ensures l.payment.refundedAmount >= l.refunds[id].amount
    ensures Consistent(Apply(l, Release(id, outcome)))
  {
    ActiveTotalBounds(l.refunds, id);
    ActiveTotalUpdate(l.refunds, id, l.refunds[id].(status := outcome));
  }

  /** Every allowed transaction keeps the ledger equation. */
  lemma ApplyKeepsConsistent(l: Ledger, tx: Tx)
    requires Consistent(l) && Allowed(l, tx)
    ensures Consistent(Apply(l, tx))
    ensures Apply(l, tx).payment.amount == l.payment.amount
  {
    match tx
    case Reserve(want) =>
      ReservePlanIsCoherent(l.payment, want);
      if PlanReserve(l.payment, want).Success? {
        AppendKeepsConsistent(l, PlanReserve(l.payment, want).value, Pending);
      }
    case Record(input) =>
      RecordPlanIsCoherent(l.payment, input);
      if PlanRecord(l.payment, input).Success? {
        AppendKeepsConsistent(l, PlanRecord(l.payment, input).value, Succeeded);
      }
    case Release(id, outcome) => ReleaseKeepsConsistent(l, id, outcome);
    case Finalize(id, outcome) =>
      ActiveTotalUpdate(l.refunds, id, l.refunds[id].(status := outcome));
  }

  lemma {:induction false} ApplyAllKeepsConsistent(l: Ledger, txs: seq<Tx>)
    requires Consistent(l) && AllowedAll(l, txs)
    ensures Consistent(ApplyAll(l, txs))
    ensures ApplyAll(l, txs).payment.amount == l.payment.amount
  {
    if txs != [] {
      ApplyAllKeepsConsistent(l, txs[..|txs| - 1]);
      ApplyKeepsConsistent(ApplyAll(l, txs[..|txs| - 1]), txs[|txs| - 1]);
    }
  }

  /** A released refund leaves the payment row that the other refunds alone determine:
      the row there would be had it never been reserved. */
  lemma ReleaseForgets(l: Ledger, id: nat, outcome: RefundStatus)
    requires Consistent(l) && Allowed(l, Release(id, outcome))
    ensures Apply(l, Release(id, outcome)).payment
         == PaymentFor(l.payment.amount, l.refunds[..id] + l.refunds[id + 1..])
  {
    ApplyKeepsConsistent(l, Release(id, outcome));
    ActiveTotalUpdate(l.refunds, id, l.refunds[id].(status := outcome));
    ActiveTotalSplit(l.refunds, id);
  }

  lemma {:induction false} ActiveTotalSplit(refunds: seq<RefundRow>, id: nat)
    requires id < |refunds|
    ensures ActiveTotal(refunds) == ActiveTotal(refunds[..id] + refunds[id + 1..]) + Weight(refunds[id])
  {
    var n := |refunds| - 1;
    var others := refunds[..id] + refunds[id + 1..];
    if id == n {
      assert others == refunds[..n];
    } else {
      ActiveTotalSplit(refunds[..n], id);
      assert others[..n - 1] == refunds[..n][..id] + refunds[..n][id + 1..];
    }
  }
}

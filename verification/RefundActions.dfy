/** The retry loops of refund-payment.action.ts, release-refund-reservation.ts and
    local-refund-actions.ts over the stored rows, with other calls' transactions committed between
    each read and its compare-and-swap. */
module RefundActions {
  import opened Wrappers
  import opened RefundLedger
  import opened Unicode

  const MAX_ATTEMPTS: nat := 3

  /** One pass through a loop body: refused, beaten by another writer, or committed. */
  datatype Attempt = Rejected(error: RefundError) | Lost | Won(plan: Plan)

  function AttemptOn(l: Ledger, tx: Tx, others: seq<Tx>): (Attempt, Ledger) {
    match PlanOf(l.payment, l.refunds, tx)
    case Failure(e) => (Rejected(e), l)
    case Success(plan) =>
      var l' := ApplyAll(l, others);
      if Unchanged(l', l.payment) then (Won(plan), Commit(l', tx, plan)) else (Lost, l')
  }

  /** Passes until one is not lost; `windows` holds what the others commit during each. */
  function Retry(l: Ledger, tx: Tx, windows: seq<seq<Tx>>): (Attempt, Ledger)
    decreases |windows|
  {
    if windows == [] then (Lost, l)
    else
      var (a, l') := AttemptOn(l, tx, windows[0]);
      if a.Lost? then Retry(l', tx, windows[1..]) else (a, l')
  }

  /** On a payment that is not there the first pass is refused. */
  function RetryUnless(missing: bool, l: Ledger, tx: Tx, windows: seq<seq<Tx>>): (Attempt, Ledger) {
    if missing then (Rejected(PaymentNotFound), l) else Retry(l, tx, windows)
  }

  /** What the loop over reservations returns: the id of the new pending refund, or the error. */
  predicate NamesReserved(a: Attempt, l: Ledger, r: Result<nat, RefundError>) {
    match a
    case Rejected(e) => r == Failure(e)
    case Lost => r == Failure(ReservationConflict)
    case Won(plan) =>
      r == Success(|l.refunds| - 1) && |l.refunds| > 0 && l.refunds[|l.refunds| - 1] == RefundRow(plan.amount, Pending)
  }

  /** The stored rows of one payment. If the payment is `missing`, `payment` stands for nothing. */
  class RefundStore {
    const missing: bool
    var payment: PaymentRow
    var refunds: seq<RefundRow>

    function Rows(): Ledger
      reads this
    {
      Ledger(payment, refunds)
    }

    constructor (amount: nat, missing: bool)
      ensures Rows() == Opened(amount) && this.missing == missing
    {
      this.missing := missing;
      payment := PaymentRow(amount, 0, P.Succeeded);
      refunds := [];
    }

    method UpdateRefundedAmountIfUnchanged(expected: int, next: PaymentRow) returns (updated: bool)
      modifies this`payment
      ensures updated <==> old(payment).refundedAmount == expected
      ensures Rows() == if updated then Write(old(Rows()), next) else old(Rows())
    {
      updated := payment.refundedAmount == expected;
      if updated {
        payment := payment.(refundedAmount := next.refundedAmount, status := next.status);
      }
    }

    method CreateRefund(refund: RefundRow) returns (id: nat)
      modifies this`refunds
      ensures id == old(|refunds|)
      ensures Rows() == Append(old(Rows()), refund)
    {
      id := |refunds|;
      refunds := refunds + [refund];
    }

    method UpdateRefund(id: nat, status: RefundStatus)
      modifies this`refunds
      ensures Rows() == Mark(old(Rows()), id, status)
    {
      if id < |refunds| {
        refunds := refunds[id := refunds[id].(status := status)];
      }
    }

    /** Transactions committed by other calls. */
    method Others(txs: seq<Tx>)
      modifies this
      ensures Rows() == ApplyAll(old(Rows()), txs)
    {
      var i := 0;
      while i < |txs|
        invariant 0 <= i <= |txs|
        invariant Rows() == ApplyAll(old(Rows()), txs[..i])
      {
        var next := Apply(Rows(), txs[i]);
        assert txs[..i + 1][..i] == txs[..i];
        payment, refunds := next.payment, next.refunds;
        i := i + 1;
      }
      assert txs[..i] == txs;
    }

    /** The status a refund of `amount` leads to, by way of the state machine. */
    method NextRow(row: PaymentRow, amount: int, full: bool) returns (r: Result<Plan, RefundError>)
      ensures r == PlanWith(row, amount, full)
    {
      var machine := new P.PaymentStateMachine(row.status);
      var moved := machine.To(if full then P.Refund else P.PartiallyRefund);
      r := if moved then Success(Plan(amount, PaymentRow(row.amount, row.refundedAmount + amount, machine.state)))
           else Failure(InvalidTransition);
    }

    method TryReserve(want: Option<int>, others: seq<Tx>) returns (r: Attempt, id: nat)
      modifies this
      ensures (r, Rows()) == if missing then (Rejected(PaymentNotFound), old(Rows()))
                             else AttemptOn(old(Rows()), Tx.Reserve(want), others)
      ensures r.Won? ==> Rows().refunds == ApplyAll(old(Rows()), others).refunds + [RefundRow(r.plan.amount, Pending)]
      ensures r.Won? ==> id == |Rows().refunds| - 1
      ensures r.Won? ==>
                && r.plan.amount == (if want.Some? then want.value else old(payment.amount - payment.refundedAmount))
                && payment.refundedAmount == old(payment.refundedAmount) + r.plan.amount
      ensures r == Rejected(ExceedsRemaining) <==>
                !missing && (old(payment.amount <= payment.refundedAmount)
                             || (want.Some? && want.value > old(payment.amount - payment.refundedAmount)))
    {
      id := 0;
      if missing {
        return Rejected(PaymentNotFound), id;
      }
      ReservePlanMeans(payment, want);
      var row := payment;
      var remaining := row.amount - row.refundedAmount;
      var requested := if want.Some? then want.value else remaining;
      if remaining <= 0 || requested > remaining {
        return Rejected(ExceedsRemaining), id;
      }
      var next := NextRow(row, requested, row.refundedAmount + requested >= row.amount);
      if next.Failure? {
        return Rejected(next.error), id;
      }
      Others(others);
      var reserved := UpdateRefundedAmountIfUnchanged(row.refundedAmount, next.value.next);
      if !reserved {
        return Lost, id;
      }
      id := CreateRefund(RefundRow(requested, Pending));
      r := Won(next.value);
    }

    method Reserve(want: Option<int>, windows: seq<seq<Tx>>) returns (r: Result<nat, RefundError>)
      requires |windows| == 3
      modifies this
      ensures var (a, l) := RetryUnless(missing, old(Rows()), Tx.Reserve(want), windows);
              Rows() == l && NamesReserved(a, l, r)
      ensures r.Success? && want.Some? ==> r.value < |refunds| && refunds[r.value] == RefundRow(want.value, Pending)
    {
      ghost var before := Rows();
      var attempt := 0;
      while attempt < MAX_ATTEMPTS
        invariant attempt <= MAX_ATTEMPTS
        invariant RetryUnless(missing, old(Rows()), Tx.Reserve(want), windows)
               == RetryUnless(missing, Rows(), Tx.Reserve(want), windows[attempt..])
        invariant missing ==> attempt == 0
      {
        var a, id := TryReserve(want, windows[attempt]);
        if a.Rejected? {
          return Failure(a.error);
        }
        if a.Won? {
          if want.Some? {
            RetryTakesWhatWasAsked(before, Tx.Reserve(want), windows);
          }
          return Success(id);
        }
        assert windows[attempt..][1..] == windows[attempt + 1..];
        attempt := attempt + 1;
      }
      r := Failure(ReservationConflict);
    }

    method TryRecord(input: LocalRefund, others: seq<Tx>) returns (r: Attempt)
      modifies this
      ensures (r, Rows()) == if missing then (Rejected(PaymentNotFound), old(Rows()))
                             else AttemptOn(old(Rows()), Record(input), others)
      ensures r.Won? ==>
                && r.plan.amount == (if input.want.Some? then input.want.value
                                     else old(payment.amount - payment.refundedAmount))
                && payment.refundedAmount == old(payment.refundedAmount) + r.plan.amount
    {
      if missing {
        return Rejected(PaymentNotFound);
      }
      RecordPlanMeans(payment, input);
      var row := payment;
      if input.providerBacked {
        if !input.confirmed {
          return Rejected(ConfirmationRequired);
        }
        if input.reference.None? || Trim(input.reference.value) == [] {
          return Rejected(ReferenceRequired);
        }
      }
      if row.status != P.Succeeded && row.status != P.PartiallyRefunded {
        return Rejected(NotRefundable);
      }
      if input.want.Some? && !input.sameCurrency {
        return Rejected(CurrencyMismatch);
      }
      var remaining := row.amount - row.refundedAmount;
      var amount := if input.want.Some? then input.want.value else remaining;
      if amount <= 0 || amount > remaining {
        return Rejected(ExceedsRemaining);
      }
      // in a refundable status the state machine always moves
      var next := NextRow(row, amount, row.refundedAmount + amount == row.amount);
      assert next.Success?;
      Others(others);
      var updated := UpdateRefundedAmountIfUnchanged(row.refundedAmount, next.value.next);
      if !updated {
        return Lost;
      }
      var id := CreateRefund(RefundRow(amount, Succeeded));
      r := Won(next.value);
    }

    method Persist(input: LocalRefund, windows: seq<seq<Tx>>) returns (r: Result<int, RefundError>)
      requires |windows| == 3
      modifies this
      ensures var (a, l) := RetryUnless(missing, old(Rows()), Record(input), windows);
              && Rows() == l
              && r == (match a
                       case Rejected(e) => Failure(e)
                       case Lost => Failure(ReservationConflict)
                       case Won(plan) => Success(plan.amount))
      ensures r.Success? && input.want.Some? ==> r.value == input.want.value
    {
      if input.want.Some? {
        RetryTakesWhatWasAsked(Rows(), Record(input), windows);
      }
      var attempt := 0;
      while attempt < MAX_ATTEMPTS
        invariant attempt <= MAX_ATTEMPTS
        invariant RetryUnless(missing, old(Rows()), Record(input), windows)
               == RetryUnless(missing, Rows(), Record(input), windows[attempt..])
        invariant missing ==> attempt == 0
      {
        var a := TryRecord(input, windows[attempt]);
        if a.Rejected? {
          return Failure(a.error);
        }
        if a.Won? {
          return Success(a.plan.amount);
        }
        assert windows[attempt..][1..] == windows[attempt + 1..];
        attempt := attempt + 1;
      }
      r := Failure(ReservationConflict);
    }

    /** Gives the amount back, or after three lost swaps leaves the refund pending for reconciliation.
        If the payment is not there, only the refund is marked. */
    method ReleaseReservation(id: nat, requested: int, outcome: RefundStatus, windows: seq<seq<Tx>>)
      returns (r: Result<(), RefundError>)
      requires |windows| == 3
      requires id < |refunds| && refunds[id].amount == requested
      requires forall w | w in windows :: LeavesAlone(id, w)
      modifies this
      ensures var (a, l) := Retry(old(Rows()), Release(id, outcome), windows);
              if missing then r == Success(()) && Rows() == Mark(old(Rows()), id, outcome)
              else if a.Won? then r == Success(()) && Rows() == l
              else a.Lost? && r == Failure(ReleaseConflict) && Rows() == Mark(l, id, Pending)
    {
      var attempt := 0;
      while attempt < MAX_ATTEMPTS
        invariant attempt <= MAX_ATTEMPTS
        invariant id < |refunds| && refunds[id].amount == requested
        invariant Retry(old(Rows()), Release(id, outcome), windows)
            == Retry(Rows(), Release(id, outcome), windows[attempt..])
        invariant missing ==> attempt == 0 && Rows() == old(Rows())
      {
        if missing {
          UpdateRefund(id, outcome);
          return Success(());
        }
        var row := payment;
        var difference := row.refundedAmount - requested;
        var refundedAmount := if difference > 0 then difference else 0;
        var status := if refundedAmount <= 0 then P.Succeeded else P.PartiallyRefunded;
        OthersLeaveAlone(Rows(), id, windows[attempt]);
        Others(windows[attempt]);
        var next := PaymentRow(row.amount, refundedAmount, status);
        var reverted := UpdateRefundedAmountIfUnchanged(row.refundedAmount, next);
        if reverted {
          UpdateRefund(id, outcome);
          return Success(());
        }
        assert windows[attempt..][1..] == windows[attempt + 1..];
        attempt := attempt + 1;
      }
      UpdateRefund(id, Pending);
      r := Failure(ReleaseConflict);
    }
  }

  // ---------------------------------------------------------------- what the loops achieve

  /** The amount that a caller names, if it names one. */
  function Named(tx: Tx): Option<int> {
    match tx
    case Reserve(want) => want
    case Record(input) => input.want
    case _ => None
  }

  /** Whichever attempt succeeds, it takes the amount that the caller named. */
  lemma {:induction false} RetryTakesWhatWasAsked(l: Ledger, tx: Tx, windows: seq<seq<Tx>>)
    requires Named(tx).Some?
    ensures var a := Retry(l, tx, windows).0; a.Won? ==> a.plan.amount == Named(tx).value
    decreases |windows|
  {
    if windows != [] {
      if tx.Reserve? {
        ReservePlanMeans(l.payment, tx.want);
      } else {
        RecordPlanMeans(l.payment, tx.input);
      }
      RetryTakesWhatWasAsked(AttemptOn(l, tx, windows[0]).1, tx, windows[1..]);
    }
  }

  /** Other calls release and finalise only the refunds they own. */
  ghost predicate LeavesAlone(id: nat, txs: seq<Tx>) {
    forall tx | tx in txs :: tx.Release? || tx.Finalize? ==> tx.id != id
  }

  lemma {:induction false} OthersLeaveAlone(l: Ledger, id: nat, txs: seq<Tx>)
    requires id < |l.refunds| && LeavesAlone(id, txs)
    ensures var l' := ApplyAll(l, txs); id < |l'.refunds| && l'.refunds[id] == l.refunds[id]
  {
    if txs != [] {
      OthersLeaveAlone(l, id, txs[..|txs| - 1]);
      assert txs[|txs| - 1] in txs;
    }
  }

  /** The rows once the first `k` windows have passed. */
  function After(l: Ledger, windows: seq<seq<Tx>>, k: nat): Ledger
    requires k <= |windows|
    decreases k
  {
    if k == 0 then l else After(ApplyAll(l, windows[0]), windows[1..], k - 1)
  }

  /** The others' windows, each allowed where it happens; none touches the refund being released. */
  ghost predicate Environment(l: Ledger, tx: Tx, windows: seq<seq<Tx>>)
    decreases |windows|
  {
    windows == [] ||
    (&& AllowedAll(l, windows[0])
     && (tx.Release? ==> tx.id < |l.refunds| && LeavesAlone(tx.id, windows[0]))
     && Environment(ApplyAll(l, windows[0]), tx, windows[1..]))
  }

  ghost predicate Refused(l: Ledger, tx: Tx, error: RefundError) {
    PlanOf(l.payment, l.refunds, tx) == Failure(error)
  }

  /** From `l` the transaction is planned as `plan` and leads to `l'`, read and written at once. */
  ghost predicate Committed(l: Ledger, tx: Tx, plan: Plan, l': Ledger) {
    PlanOf(l.payment, l.refunds, tx) == Success(plan) && l' == Apply(l, tx)
  }

  ghost predicate AttemptOutcome(l: Ledger, tx: Tx, others: seq<Tx>, a: Attempt, l': Ledger) {
    var now := ApplyAll(l, others);
    && (a.Rejected? ==> l' == l && Refused(l, tx, a.error))
    && (a.Lost? ==> l' == now && now.payment.refundedAmount != l.payment.refundedAmount)
    && (a.Won? ==> now.payment.refundedAmount == l.payment.refundedAmount && Committed(now, tx, a.plan, l'))
  }

  /** The same refunded amount means the same row, so a plan made before the others came still holds after. */
  lemma PlanStillHolds(l: Ledger, tx: Tx, l': Ledger)
    requires Consistent(l) && Consistent(l') && l'.payment.amount == l.payment.amount && Unchanged(l', l.payment)
    requires tx.Release? ==> tx.id < |l.refunds| && tx.id < |l'.refunds| && l'.refunds[tx.id] == l.refunds[tx.id]
    ensures PlanOf(l'.payment, l'.refunds, tx) == PlanOf(l.payment, l.refunds, tx)
  {
    assert l'.payment == l.payment;
  }

  /** A pass that is not lost acts exactly as one atomic transaction at the moment of its swap. */
  lemma AttemptIsAtomic(l: Ledger, tx: Tx, others: seq<Tx>)
    requires Consistent(l) && AllowedAll(l, others)
    requires tx.Release? ==> tx.id < |l.refunds| && LeavesAlone(tx.id, others)
    requires !tx.Finalize?
    ensures var (a, l') := AttemptOn(l, tx, others); AttemptOutcome(l, tx, others, a, l')
    ensures Consistent(ApplyAll(l, others))
  {
    ApplyAllKeepsConsistent(l, others);
    if tx.Release? {
      OthersLeaveAlone(l, tx.id, others);
    }
    if Unchanged(ApplyAll(l, others), l.payment) {
      PlanStillHolds(l, tx, ApplyAll(l, others));
    }
  }

  /** Window `i` leaves the refunded amount different from what it found. */
  ghost predicate Moves(l: Ledger, windows: seq<seq<Tx>>, i: nat)
    requires i < |windows|
  {
    After(l, windows, i).payment.refundedAmount != After(l, windows, i + 1).payment.refundedAmount
  }

  /** The first `n` windows were lost: each moved the refunded amount. */
  ghost predicate AllMove(l: Ledger, windows: seq<seq<Tx>>, n: nat)
    requires n <= |windows|
  {
    forall i: nat | i < n :: Moves(l, windows, i)
  }

  /** How a loop over `windows` that ends after `k` of them went. */
  ghost predicate Outcome(l: Ledger, tx: Tx, windows: seq<seq<Tx>>, a: Attempt, l': Ledger, k: nat) {
    && k <= |windows|
    && (a.Lost? ==> k == |windows| && l' == After(l, windows, k) && AllMove(l, windows, k))
    && (a.Won? ==> k > 0 && AllMove(l, windows, k - 1) && !Moves(l, windows, k - 1)
                   && Committed(After(l, windows, k), tx, a.plan, l'))
    && (a.Rejected? ==>
          k < |windows| && l' == After(l, windows, k) && AllMove(l, windows, k) && Refused(l', tx, a.error))
  }

  /** The loop reports a conflict exactly after losing every window, each of which moved the refunded amount.
      Otherwise it lost the windows before, and then either committed once, atomically, at the end of a window that
      left the amount alone, or was refused on the rows as they were. */
  lemma {:induction false} RetryMeans(l: Ledger, tx: Tx, windows: seq<seq<Tx>>)
    requires Consistent(l) && Environment(l, tx, windows) && !tx.Finalize?
    ensures exists k: nat :: Outcome(l, tx, windows, Retry(l, tx, windows).0, Retry(l, tx, windows).1, k)
    decreases |windows|
  {
    if windows == [] {
      assert Retry(l, tx, windows) == (Lost, l) && After(l, windows, 0) == l;
      assert Outcome(l, tx, windows, Lost, l, 0);
    } else {
      var next := ApplyAll(l, windows[0]);
      var first := FirstAttempt(l, tx, windows);
      if first.0.Lost? {
        RetryMeans(next, tx, windows[1..]);
        var rest := Retry(next, tx, windows[1..]);
        var k: nat :| Outcome(next, tx, windows[1..], rest.0, rest.1, k);
        OutcomeShift(l, tx, windows, rest.0, rest.1, k);
      } else {
        var k := OutcomeNow(l, tx, windows, first.0, first.1);
      }
    }
  }

  lemma FirstAttempt(l: Ledger, tx: Tx, windows: seq<seq<Tx>>) returns (first: (Attempt, Ledger))
    requires windows != [] && Consistent(l) && Environment(l, tx, windows) && !tx.Finalize?
    ensures AttemptOutcome(l, tx, windows[0], first.0, first.1)
    ensures Retry(l, tx, windows) == if first.0.Lost? then Retry(ApplyAll(l, windows[0]), tx, windows[1..]) else first
    ensures Consistent(ApplyAll(l, windows[0])) && Environment(ApplyAll(l, windows[0]), tx, windows[1..])
  {
    AttemptIsAtomic(l, tx, windows[0]);
    first := AttemptOn(l, tx, windows[0]);
  }

  lemma OutcomeNow(l: Ledger, tx: Tx, windows: seq<seq<Tx>>, a: Attempt, l': Ledger) returns (k: nat)
    requires windows != [] && !a.Lost? && AttemptOutcome(l, tx, windows[0], a, l')
    ensures Outcome(l, tx, windows, a, l', k)
  {
    k := if a.Won? then 1 else 0;
    assert After(l, windows, 0) == l;
    assert After(l, windows, 1) == After(ApplyAll(l, windows[0]), windows[1..], 0);
  }

  lemma OutcomeShift(l: Ledger, tx: Tx, windows: seq<seq<Tx>>, a: Attempt, l': Ledger, k: nat)
    requires windows != [] && ApplyAll(l, windows[0]).payment.refundedAmount != l.payment.refundedAmount
    requires Outcome(ApplyAll(l, windows[0]), tx, windows[1..], a, l', k)
    ensures Outcome(l, tx, windows, a, l', k + 1)
  {
    var next := ApplyAll(l, windows[0]);
    assert After(l, windows, k + 1) == After(next, windows[1..], k);
    forall i: nat | i < |windows|
      ensures Moves(l, windows, i) <==> i == 0 || Moves(next, windows[1..], i - 1)
    {
      assert After(l, windows, i + 1) == After(next, windows[1..], i);
      if i > 0 {
        assert After(l, windows, i) == After(next, windows[1..], i - 1);
      }
    }
    assert forall n: nat | n < |windows| && AllMove(next, windows[1..], n) :: AllMove(l, windows, n + 1);
  }

  /** Whatever the other calls commit meanwhile, a loop leaves a ledger on which the equation still holds. */
  lemma {:induction false} RetryKeepsConsistent(l: Ledger, tx: Tx, windows: seq<seq<Tx>>)
    requires Consistent(l) && Environment(l, tx, windows) && Allowed(l, tx) && !tx.Finalize?
    ensures Consistent(Retry(l, tx, windows).1)
    decreases |windows|
  {
    if windows != [] {
      var next := ApplyAll(l, windows[0]);
      var first := FirstAttempt(l, tx, windows);
      StillAllowed(l, tx, windows[0]);
      if first.0.Lost? {
        RetryKeepsConsistent(next, tx, windows[1..]);
      } else if first.0.Won? {
        ApplyKeepsConsistent(next, tx);
      }
    }
  }

  lemma StillAllowed(l: Ledger, tx: Tx, others: seq<Tx>)
    requires Allowed(l, tx) && !tx.Finalize? && (tx.Release? ==> LeavesAlone(tx.id, others))
    ensures Allowed(ApplyAll(l, others), tx)
  {
    if tx.Release? {
      OthersLeaveAlone(l, tx.id, others);
    }
  }
}

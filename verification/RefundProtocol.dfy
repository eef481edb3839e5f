/** Provider refunds and local refunds racing on one payment, one database access or provider
    call per step: the read and the compare-and-swap of a transaction are separate steps. */
module RefundProtocol {
  import opened Wrappers
  import opened RefundLedger

  const MAX_RESERVATION_ATTEMPTS: nat := 3
  const MAX_RELEASE_ATTEMPTS: nat := 3

  /** Where one call stands. `row` is the payment row the call last read. */
  datatype Process =
    // RefundPaymentAction
    | CheckPayment(want: Option<int>)
    | CheckPending(want: Option<int>, row: PaymentRow)
    | ReadToReserve(want: Option<int>, attempt: nat)
    | SwapToReserve(want: Option<int>, attempt: nat, row: PaymentRow)
    | CallProvider(id: nat, requested: int)
    | AwaitProvider(id: nat, requested: int)
    | KeepPending(id: nat, requested: int)
    | FinalizeRefund(id: nat, requested: int, outcome: RefundStatus)
    // releaseRefundReservation
    | ReadToRelease(id: nat, requested: int, outcome: RefundStatus, attempt: nat)
    | SwapToRelease(id: nat, requested: int, outcome: RefundStatus, attempt: nat, row: PaymentRow)
    | GiveUp(id: nat, requested: int)
    // LocalRefundActions
    | ReadToRecord(input: LocalRefund, attempt: nat)
    | SwapToRecord(input: LocalRefund, attempt: nat, row: PaymentRow)
    | Done

  /** The provider throws, or answers an amount, a currency and a status (None: an unknown one). */
  datatype Answer = Threw | Answered(amount: int, sameCurrency: bool, status: Option<RefundStatus>)

  /** What the provider knows of each refund row. */
  datatype Ask = NotAsked | InFlight | Refused | Standing

  datatype State = State(ledger: Ledger, processes: seq<Process>, asked: seq<Ask>)

  datatype Event = StartRefund(want: Option<int>) | StartRecord(input: LocalRefund) | Advance(pid: nat, answer: Answer)

  function Goto(s: State, pid: nat, p: Process): State
    requires pid < |s.processes|
  {
    s.(processes := s.processes[pid := p])
  }

  function SetAsk(s: State, id: nat, ask: Ask): State {
    if id < |s.asked| then s.(asked := s.asked[id := ask]) else s
  }

  function RetryReserve(want: Option<int>, attempt: nat): Process {
    if attempt + 1 < MAX_RESERVATION_ATTEMPTS then ReadToReserve(want, attempt + 1) else Done
  }

  function RetryRecord(input: LocalRefund, attempt: nat): Process {
    if attempt + 1 < MAX_RESERVATION_ATTEMPTS then ReadToRecord(input, attempt + 1) else Done
  }

  function RetryRelease(id: nat, requested: int, outcome: RefundStatus, attempt: nat): Process {
    if attempt + 1 < MAX_RELEASE_ATTEMPTS then ReadToRelease(id, requested, outcome, attempt + 1)
    else GiveUp(id, requested)
  }

  /** `handle`: the checks made before anything is reserved. */
  function CheckStep(s: State, pid: nat): State
    requires pid < |s.processes| && (s.processes[pid].CheckPayment? || s.processes[pid].CheckPending?)
  {
    match s.processes[pid]
    case CheckPayment(want) =>
      if (want.Some? && want.value <= 0) || !P.Refundable(s.ledger.payment.status) then Goto(s, pid, Done)
      else Goto(s, pid, CheckPending(want, s.ledger.payment))
    case CheckPending(want, row) =>
      if (exists r :: r in s.ledger.refunds && r.status == Pending)
         || Remaining(row) <= 0 || Requested(row, want) > Remaining(row)
      then Goto(s, pid, Done)
      else Goto(s, pid, ReadToReserve(want, 0))
  }

  /** `reserve` and `tryReserve`. */
  function ReserveStep(s: State, pid: nat): State
    requires pid < |s.processes| && (s.processes[pid].ReadToReserve? || s.processes[pid].SwapToReserve?)
  {
    match s.processes[pid]
    case ReadToReserve(want, attempt) =>
      if PlanReserve(s.ledger.payment, want).Failure? then Goto(s, pid, Done)
      else Goto(s, pid, SwapToReserve(want, attempt, s.ledger.payment))
    case SwapToReserve(want, attempt, row) =>
      match PlanReserve(row, want)
      case Failure(_) => Goto(s, pid, Done)
      case Success(plan) =>
        if !Unchanged(s.ledger, row) then Goto(s, pid, RetryReserve(want, attempt))
        else
          State(Append(Write(s.ledger, plan.next), RefundRow(plan.amount, Pending)),
                s.processes[pid := CallProvider(|s.ledger.refunds|, plan.amount)],
                s.asked + [NotAsked])
  }

  /** `settle`, from the provider call on. */
  function SettleStep(s: State, pid: nat, answer: Answer): State
    requires pid < |s.processes|
    requires var p := s.processes[pid];
             p.CallProvider? || p.AwaitProvider? || p.KeepPending? || p.FinalizeRefund?
  {
    match s.processes[pid]
    case CallProvider(id, requested) => SetAsk(Goto(s, pid, AwaitProvider(id, requested)), id, InFlight)
    case AwaitProvider(id, requested) =>
      if answer.Threw? then SetAsk(Goto(s, pid, ReadToRelease(id, requested, Failed, 0)), id, Refused)
      else if answer.amount != requested || !answer.sameCurrency then
        SetAsk(Goto(s, pid, KeepPending(id, requested)), id, Standing)
      else (match answer.status
            case None => SetAsk(Goto(s, pid, Done), id, Standing)
            case Some(outcome) =>
              if outcome == Failed || outcome == Canceled
              then SetAsk(Goto(s, pid, ReadToRelease(id, requested, outcome, 0)), id, Refused)
              else SetAsk(Goto(s, pid, FinalizeRefund(id, requested, outcome)), id, Standing))
    case KeepPending(id, requested) => Goto(s.(ledger := Mark(s.ledger, id, Pending)), pid, Done)
    case FinalizeRefund(id, requested, outcome) => Goto(s.(ledger := Mark(s.ledger, id, outcome)), pid, Done)
  }

  /** `releaseRefundReservation`. */
  function ReleaseStep(s: State, pid: nat): State
    requires pid < |s.processes|
    requires var p := s.processes[pid]; p.ReadToRelease? || p.SwapToRelease? || p.GiveUp?
  {
    match s.processes[pid]
    case ReadToRelease(id, requested, outcome, attempt) =>
      Goto(s, pid, SwapToRelease(id, requested, outcome, attempt, s.ledger.payment))
    case SwapToRelease(id, requested, outcome, attempt, row) =>
      if !Unchanged(s.ledger, row) then Goto(s, pid, RetryRelease(id, requested, outcome, attempt))
      else Goto(s.(ledger := Mark(Write(s.ledger, PlanRelease(row, requested)), id, outcome)), pid, Done)
    case GiveUp(id, requested) => Goto(s.(ledger := Mark(s.ledger, id, Pending)), pid, Done)
  }

  /** `persist` and `tryPersist`. */
  function RecordStep(s: State, pid: nat): State
    requires pid < |s.processes| && (s.processes[pid].ReadToRecord? || s.processes[pid].SwapToRecord?)
  {
    match s.processes[pid]
    case ReadToRecord(input, attempt) =>
      if PlanRecord(s.ledger.payment, input).Failure? then Goto(s, pid, Done)
      else Goto(s, pid, SwapToRecord(input, attempt, s.ledger.payment))
    case SwapToRecord(input, attempt, row) =>
      match PlanRecord(row, input)
      case Failure(_) => Goto(s, pid, Done)
      case Success(plan) =>
        if !Unchanged(s.ledger, row) then Goto(s, pid, RetryRecord(input, attempt))
        else
          State(Append(Write(s.ledger, plan.next), RefundRow(plan.amount, Succeeded)),
                s.processes[pid := Done],
                s.asked + [NotAsked])
  }

  function Step(s: State, pid: nat, answer: Answer): State
    requires pid < |s.processes|
  {
    match s.processes[pid]
    case CheckPayment(_) => CheckStep(s, pid)
    case CheckPending(_, _) => CheckStep(s, pid)
    case ReadToReserve(_, _) => ReserveStep(s, pid)
    case SwapToReserve(_, _, _) => ReserveStep(s, pid)
    case CallProvider(_, _) => SettleStep(s, pid, answer)
    case AwaitProvider(_, _) => SettleStep(s, pid, answer)
    case KeepPending(_, _) => SettleStep(s, pid, answer)
    case FinalizeRefund(_, _, _) => SettleStep(s, pid, answer)
    case ReadToRelease(_, _, _, _) => ReleaseStep(s, pid)
    case SwapToRelease(_, _, _, _, _) => ReleaseStep(s, pid)
    case GiveUp(_, _) => ReleaseStep(s, pid)
    case ReadToRecord(_, _) => RecordStep(s, pid)
    case SwapToRecord(_, _, _) => RecordStep(s, pid)
    case Done => s
  }

  function React(s: State, e: Event): State {
    match e
    case StartRefund(want) => s.(processes := s.processes + [CheckPayment(want)])
    case StartRecord(input) => s.(processes := s.processes + [ReadToRecord(input, 0)])
    case Advance(pid, answer) => if pid < |s.processes| then Step(s, pid, answer) else s
  }

  /** The state after any schedule of calls, steps and provider answers. A crashed call is one never advanced again. */
  function Run(s: State, schedule: seq<Event>): State {
    if schedule == [] then s else React(Run(s, schedule[..|schedule| - 1]), schedule[|schedule| - 1])
  }

  function Init(amount: nat): State {
    State(Opened(amount), [], [])
  }

  // ---------------------------------------------------------------- the invariant

  /** The refund row a call owns, with the amount it reserved and what the provider knows of it. */
  function Held(p: Process): Option<(nat, int, Ask)> {
    match p
    case CallProvider(id, requested) => Some((id, requested, NotAsked))
    case AwaitProvider(id, requested) => Some((id, requested, InFlight))
    case KeepPending(id, requested) => Some((id, requested, Standing))
    case FinalizeRefund(id, requested, _) => Some((id, requested, Standing))
    case ReadToRelease(id, requested, _, _) => Some((id, requested, Refused))
    case SwapToRelease(id, requested, _, _, _) => Some((id, requested, Refused))
    case GiveUp(id, requested) => Some((id, requested, Refused))
    case _ => None
  }

  ghost predicate Owns(p: Process, id: nat) {
    Held(p).Some? && Held(p).value.0 == id
  }

  /** A row read earlier was coherent when read; amounts asked for are positive. */
  ghost predicate LocalOk(amount: int, p: Process) {
    match p
    case CheckPending(want, row) => want.Some? ==> want.value > 0
    case ReadToReserve(want, _) => want.Some? ==> want.value > 0
    case SwapToReserve(want, _, row) => (want.Some? ==> want.value > 0) && Coherent(row) && row.amount == amount
    case FinalizeRefund(_, _, outcome) => outcome == Pending || outcome == Succeeded
    case ReadToRelease(_, _, outcome, _) => outcome == Failed || outcome == Canceled
    case SwapToRelease(_, requested, outcome, _, row) =>
      (outcome == Failed || outcome == Canceled) && Coherent(row) && row.amount == amount
          && row.refundedAmount >= requested
    case SwapToRecord(_, _, row) => Coherent(row) && row.amount == amount
    case _ => true
  }

  ghost predicate ProcessOk(s: State, p: Process) {
    && LocalOk(s.ledger.payment.amount, p)
    && (Held(p).Some? ==>
          var (id, requested, ask) := Held(p).value;
          id < |s.ledger.refunds| && id < |s.asked| && s.ledger.refunds[id] == RefundRow(requested, Pending)
              && s.asked[id] == ask)
  }

  ghost predicate AskBacked(s: State, i: nat)
    requires i < |s.ledger.refunds| && i < |s.asked|
  {
    s.asked[i] == InFlight || s.asked[i] == Standing ==> Active(s.ledger.refunds[i])
  }

  ghost predicate Inv(s: State) {
    && Consistent(s.ledger)
    && |s.asked| == |s.ledger.refunds|
    && (forall i | 0 <= i < |s.asked| :: AskBacked(s, i))
    && (forall p | 0 <= p < |s.processes| :: ProcessOk(s, s.processes[p]))
    && (forall p, q, id | 0 <= p < q < |s.processes| && Owns(s.processes[p], id) :: !Owns(s.processes[q], id))
  }

  /** A step that touches only what its process owns, or a new row, keeps the invariant. */
  lemma StepFrame(s: State, s': State, pid: nat, p: Process)
    requires Inv(s) && pid < |s.processes|
    requires s'.processes == s.processes[pid := p]
    requires Consistent(s'.ledger) && s'.ledger.payment.amount == s.ledger.payment.amount
    requires |s'.asked| == |s'.ledger.refunds| >= |s.ledger.refunds|
    requires forall i | 0 <= i < |s.ledger.refunds| && !Owns(s.processes[pid], i) ::
               s'.ledger.refunds[i] == s.ledger.refunds[i] && s'.asked[i] == s.asked[i]
    requires forall i | 0 <= i < |s'.asked| && (i >= |s.asked| || Owns(s.processes[pid], i)) :: AskBacked(s', i)
    requires ProcessOk(s', p)
    requires forall id: nat | Owns(p, id) :: Owns(s.processes[pid], id) || id >= |s.ledger.refunds|
    ensures Inv(s')
  {
    forall i | 0 <= i < |s'.asked| ensures AskBacked(s', i) {
      if i < |s.asked| && !Owns(s.processes[pid], i) {
        assert AskBacked(s, i);
      }
    }
    forall q | 0 <= q < |s'.processes| ensures ProcessOk(s', s'.processes[q]) {
      if q != pid {
        var other := s.processes[q];
        assert ProcessOk(s, other);
        if Held(other).Some? {
          assert Owns(other, Held(other).value.0);
        }
      }
    }
    forall q, r, id | 0 <= q < r < |s'.processes| && Owns(s'.processes[q], id) ensures !Owns(s'.processes[r], id) {
      assert ProcessOk(s', s'.processes[q]);
      if q != pid {
        assert ProcessOk(s, s.processes[q]);
      }
      if r != pid {
        assert ProcessOk(s, s.processes[r]);
      }
    }
  }

  lemma GotoKeepsInv(s: State, pid: nat, p: Process)
    requires Inv(s) && pid < |s.processes|
    requires LocalOk(s.ledger.payment.amount, p) && (Held(p).None? || Held(p) == Held(s.processes[pid]))
    ensures Inv(Goto(s, pid, p))
  {
    assert ProcessOk(s, s.processes[pid]);
    forall i | 0 <= i < |s.asked| ensures AskBacked(Goto(s, pid, p), i) {
      assert AskBacked(s, i);
    }
    StepFrame(s, Goto(s, pid, p), pid, p);
  }

  lemma CheckStepKeepsInv(s: State, pid: nat)
    requires Inv(s) && pid < |s.processes| && (s.processes[pid].CheckPayment? || s.processes[pid].CheckPending?)
    ensures Inv(CheckStep(s, pid))
  {
    assert ProcessOk(s, s.processes[pid]);
    GotoKeepsInv(s, pid, CheckStep(s, pid).processes[pid]);
  }

  /** A new refund row, owned by its process if it is a reservation. */
  lemma AppendStepKeepsInv(s: State, pid: nat, plan: Plan, status: RefundStatus, p: Process)
    requires Inv(s) && pid < |s.processes| && Held(s.processes[pid]).None?
    requires PlanOk(s.ledger.payment, plan)
    requires || (status == Pending && p == CallProvider(|s.ledger.refunds|, plan.amount))
             || (status == Succeeded && p == Done)
    ensures Inv(State(Append(Write(s.ledger, plan.next), RefundRow(plan.amount, status)),
                      s.processes[pid := p], s.asked + [NotAsked]))
  {
    AppendKeepsConsistent(s.ledger, plan, status);
    StepFrame(s, State(Append(Write(s.ledger, plan.next), RefundRow(plan.amount, status)),
                       s.processes[pid := p], s.asked + [NotAsked]), pid, p);
  }

  lemma ReserveStepKeepsInv(s: State, pid: nat)
    requires Inv(s) && pid < |s.processes| && (s.processes[pid].ReadToReserve? || s.processes[pid].SwapToReserve?)
    ensures Inv(ReserveStep(s, pid))
  {
    var p := s.processes[pid];
    assert ProcessOk(s, p);
    if p.SwapToReserve? && PlanReserve(p.row, p.want).Success? && Unchanged(s.ledger, p.row) {
      ReservePlanIsCoherent(p.row, p.want);
      var plan := PlanReserve(p.row, p.want).value;
      AppendStepKeepsInv(s, pid, plan, Pending, CallProvider(|s.ledger.refunds|, plan.amount));
    } else {
      GotoKeepsInv(s, pid, ReserveStep(s, pid).processes[pid]);
    }
  }

  lemma RecordStepKeepsInv(s: State, pid: nat)
    requires Inv(s) && pid < |s.processes| && (s.processes[pid].ReadToRecord? || s.processes[pid].SwapToRecord?)
    ensures Inv(RecordStep(s, pid))
  {
    var p := s.processes[pid];
    assert ProcessOk(s, p);
    if p.SwapToRecord? && PlanRecord(p.row, p.input).Success? && Unchanged(s.ledger, p.row) {
      RecordPlanIsCoherent(p.row, p.input);
      AppendStepKeepsInv(s, pid, PlanRecord(p.row, p.input).value, Succeeded, Done);
    } else {
      GotoKeepsInv(s, pid, RecordStep(s, pid).processes[pid]);
    }
  }

  /** Writing the row its process owns, and letting go of it. */
  lemma MarkStepKeepsInv(s: State, pid: nat, tx: Tx)
    requires Inv(s) && pid < |s.processes| && (tx.Release? || tx.Finalize?)
    requires Owns(s.processes[pid], tx.id)
    requires tx.Release? ==>
               Held(s.processes[pid]).value.2 == Refused && (tx.outcome == Failed || tx.outcome == Canceled)
    requires tx.Finalize? ==> tx.outcome == Pending || tx.outcome == Succeeded
    ensures Inv(Goto(s.(ledger := Apply(s.ledger, tx)), pid, Done))
  {
    assert ProcessOk(s, s.processes[pid]);
    ApplyKeepsConsistent(s.ledger, tx);
    StepFrame(s, Goto(s.(ledger := Apply(s.ledger, tx)), pid, Done), pid, Done);
  }

  lemma SettleStepKeepsInv(s: State, pid: nat, answer: Answer)
    requires Inv(s) && pid < |s.processes|
    requires var p := s.processes[pid];
             p.CallProvider? || p.AwaitProvider? || p.KeepPending? || p.FinalizeRefund?
    ensures Inv(SettleStep(s, pid, answer))
  {
    var p := s.processes[pid];
    assert ProcessOk(s, p);
    if p.KeepPending? {
      MarkStepKeepsInv(s, pid, Finalize(p.id, Pending));
    } else if p.FinalizeRefund? {
      MarkStepKeepsInv(s, pid, Finalize(p.id, p.outcome));
    } else {
      var s' := SettleStep(s, pid, answer);
      StepFrame(s, s', pid, s'.processes[pid]);
    }
  }

  lemma ReleaseStepKeepsInv(s: State, pid: nat)
    requires Inv(s) && pid < |s.processes|
    requires var p := s.processes[pid]; p.ReadToRelease? || p.SwapToRelease? || p.GiveUp?
    ensures Inv(ReleaseStep(s, pid))
  {
    var p := s.processes[pid];
    assert ProcessOk(s, p);
    if p.ReadToRelease? {
      ActiveTotalBounds(s.ledger.refunds, p.id);
      GotoKeepsInv(s, pid, SwapToRelease(p.id, p.requested, p.outcome, p.attempt, s.ledger.payment));
    } else if p.GiveUp? {
      MarkStepKeepsInv(s, pid, Finalize(p.id, Pending));
    } else if Unchanged(s.ledger, p.row) {
      MarkStepKeepsInv(s, pid, Release(p.id, p.outcome));
    } else {
      GotoKeepsInv(s, pid, RetryRelease(p.id, p.requested, p.outcome, p.attempt));
    }
  }

  lemma StartKeepsInv(s: State, p: Process)
    requires Inv(s) && Held(p).None? && LocalOk(s.ledger.payment.amount, p)
    ensures Inv(s.(processes := s.processes + [p]))
  {
    var s' := s.(processes := s.processes + [p]);
    forall i | 0 <= i < |s'.asked| ensures AskBacked(s', i) {
      assert AskBacked(s, i);
    }
    forall q | 0 <= q < |s'.processes| ensures ProcessOk(s', s'.processes[q]) {
      assert q < |s.processes| ==> ProcessOk(s, s.processes[q]);
    }
  }

  lemma StepKeepsInv(s: State, pid: nat, answer: Answer)
    requires Inv(s) && pid < |s.processes|
    ensures Inv(Step(s, pid, answer))
  {
    match s.processes[pid]
    case CheckPayment(_) => CheckStepKeepsInv(s, pid);
    case CheckPending(_, _) => CheckStepKeepsInv(s, pid);
    case ReadToReserve(_, _) => ReserveStepKeepsInv(s, pid);
    case SwapToReserve(_, _, _) => ReserveStepKeepsInv(s, pid);
    case CallProvider(_, _) => SettleStepKeepsInv(s, pid, answer);
    case AwaitProvider(_, _) => SettleStepKeepsInv(s, pid, answer);
    case KeepPending(_, _) => SettleStepKeepsInv(s, pid, answer);
    case FinalizeRefund(_, _, _) => SettleStepKeepsInv(s, pid, answer);
    case ReadToRelease(_, _, _, _) => ReleaseStepKeepsInv(s, pid);
    case SwapToRelease(_, _, _, _, _) => ReleaseStepKeepsInv(s, pid);
    case GiveUp(_, _) => ReleaseStepKeepsInv(s, pid);
    case ReadToRecord(_, _) => RecordStepKeepsInv(s, pid);
    case SwapToRecord(_, _, _) => RecordStepKeepsInv(s, pid);
    case Done =>
  }

  // ---------------------------------------------------------------- safety over every run

  lemma ReactKeepsInv(s: State, e: Event)
    requires Inv(s)
    ensures Inv(React(s, e))
  {
    match e
    case StartRefund(want) => StartKeepsInv(s, CheckPayment(want));
    case StartRecord(input) => StartKeepsInv(s, ReadToRecord(input, 0));
    case Advance(pid, answer) =>
      if pid < |s.processes| {
        StepKeepsInv(s, pid, answer);
      }
  }

  lemma ReactKeepsAmount(s: State, e: Event)
    ensures React(s, e).ledger.payment.amount == s.ledger.payment.amount
  {
  }

  lemma {:induction false} RunKeepsInv(s: State, schedule: seq<Event>)
    requires Inv(s)
    ensures Inv(Run(s, schedule))
    ensures Run(s, schedule).ledger.payment.amount == s.ledger.payment.amount
  {
    if schedule != [] {
      var n := |schedule| - 1;
      RunKeepsInv(s, schedule[..n]);
      ReactKeepsInv(Run(s, schedule[..n]), schedule[n]);
      ReactKeepsAmount(Run(s, schedule[..n]), schedule[n]);
    }
  }

  /** In every interleaving the refunded amount is the total of the pending and succeeded refunds,
      stays within the payment amount, and determines the payment status. */
  lemma RefundsNeverExceedPayment(amount: nat, schedule: seq<Event>)
    ensures var l := Run(Init(amount), schedule).ledger;
            && l.payment.amount == amount
            && l.payment.refundedAmount == ActiveTotal(l.refunds)
            && 0 <= l.payment.refundedAmount <= amount
            && (l.payment.status == P.Succeeded <==> l.payment.refundedAmount == 0)
            && (l.payment.status == P.PartiallyRefunded <==> 0 < l.payment.refundedAmount < amount)
            && (l.payment.status == P.Refunded <==> 0 < amount == l.payment.refundedAmount)
  {
    RunKeepsInv(Init(amount), schedule);
  }

  /** The amounts asked of the provider and not refused by it (no throw, no failed or canceled answer). */
  function StandingTotal(refunds: seq<RefundRow>, asked: seq<Ask>): int
    requires |refunds| == |asked|
  {
    var n := |refunds| - 1;
    if n < 0 then 0
    else StandingTotal(refunds[..n], asked[..n])
         + if asked[n] == InFlight || asked[n] == Standing then refunds[n].amount else 0
  }

  lemma {:induction false} StandingWithinActive(refunds: seq<RefundRow>, asked: seq<Ask>)
    requires |refunds| == |asked|
    requires forall i | 0 <= i < |refunds| :: refunds[i].amount > 0
    requires forall i | 0 <= i < |refunds| :: asked[i] == InFlight || asked[i] == Standing ==> Active(refunds[i])
    ensures StandingTotal(refunds, asked) <= ActiveTotal(refunds)
  {
    if refunds != [] {
      StandingWithinActive(refunds[..|refunds| - 1], asked[..|asked| - 1]);
    }
  }

  /** The provider is never left holding more than the payment. */
  lemma ProviderNeverOverAsked(amount: nat, schedule: seq<Event>)
    ensures var s := Run(Init(amount), schedule);
            |s.ledger.refunds| == |s.asked| && StandingTotal(s.ledger.refunds, s.asked) <= amount
  {
    var s := Run(Init(amount), schedule);
    RunKeepsInv(Init(amount), schedule);
    forall i | 0 <= i < |s.asked| && (s.asked[i] == InFlight || s.asked[i] == Standing)
      ensures Active(s.ledger.refunds[i])
    {
      assert AskBacked(s, i);
    }
    StandingWithinActive(s.ledger.refunds, s.asked);
  }

  /** Whenever a release has read the payment, the amount it takes back is there:
      the clamp at zero in `releaseRefundReservation` never changes the result. */
  lemma ClampNeverBites(amount: nat, schedule: seq<Event>, pid: nat)
    requires pid < |Run(Init(amount), schedule).processes|
    requires Run(Init(amount), schedule).processes[pid].SwapToRelease?
    ensures var p := Run(Init(amount), schedule).processes[pid];
            PlanRelease(p.row, p.requested).refundedAmount == p.row.refundedAmount - p.requested
  {
    RunKeepsInv(Init(amount), schedule);
    assert ProcessOk(Run(Init(amount), schedule), Run(Init(amount), schedule).processes[pid]);
  }

  /** The successful compare-and-swap of a release leaves the row that the other refunds alone determine. */
  lemma ReleasedAsIfNeverReserved(amount: nat, schedule: seq<Event>, pid: nat, answer: Answer)
    requires pid < |Run(Init(amount), schedule).processes|
    requires var s := Run(Init(amount), schedule);
             s.processes[pid].SwapToRelease? && Unchanged(s.ledger, s.processes[pid].row)
    ensures var s := Run(Init(amount), schedule);
            var id, refunds := s.processes[pid].id, s.ledger.refunds;
            && id < |refunds|
            && Step(s, pid, answer).ledger.payment == PaymentFor(amount, refunds[..id] + refunds[id + 1..])
  {
    var s := Run(Init(amount), schedule);
    RunKeepsInv(Init(amount), schedule);
    assert ProcessOk(s, s.processes[pid]);
    ReleaseForgets(s.ledger, s.processes[pid].id, s.processes[pid].outcome);
  }

  /** A bound on the steps a call still takes: at most three reservations and three releases are tried. */
  function StepsLeft(p: Process): nat {
    match p
    case CheckPayment(_) => 19
    case CheckPending(_, _) => 18
    case ReadToReserve(_, attempt) => 11 + 2 * Left(attempt)
    case SwapToReserve(_, attempt, _) => 10 + 2 * Left(attempt)
    case CallProvider(_, _) => 9
    case AwaitProvider(_, _) => 8
    case ReadToRelease(_, _, _, attempt) => 3 + 2 * Left(attempt)
    case SwapToRelease(_, _, _, attempt, _) => 2 + 2 * Left(attempt)
    case ReadToRecord(_, attempt) => 2 + 2 * Left(attempt)
    case SwapToRecord(_, attempt, _) => 1 + 2 * Left(attempt)
    case KeepPending(_, _) => 1
    case FinalizeRefund(_, _, _) => 1
    case GiveUp(_, _) => 1
    case Done => 0
  }

  function Left(attempt: nat): nat {
    if attempt < 2 then 2 - attempt else 0
  }

  /** Every call comes to an end, whatever the others do. */
  lemma CallsTerminate(s: State, pid: nat, answer: Answer)
    requires pid < |s.processes| && s.processes[pid] != Done
    ensures Step(s, pid, answer).processes[pid] != s.processes[pid]
    ensures StepsLeft(Step(s, pid, answer).processes[pid]) < StepsLeft(s.processes[pid])
  {
  }

  // ---------------------------------------------------------------- split steps refine atomic transactions

  /** The atomic transaction a step amounts to, if it writes the ledger at all. */
  function TxOf(s: State, e: Event): seq<Tx> {
    if !e.Advance? || e.pid >= |s.processes| then []
    else match s.processes[e.pid]
      case SwapToReserve(want, _, row) => if Unchanged(s.ledger, row) then [Reserve(want)] else []
      case SwapToRecord(input, _, row) => if Unchanged(s.ledger, row) then [Record(input)] else []
      case SwapToRelease(id, _, outcome, _, row) => if Unchanged(s.ledger, row) then [Release(id, outcome)] else []
      case GiveUp(id, _) => [Finalize(id, Pending)]
      case KeepPending(id, _) => [Finalize(id, Pending)]
      case FinalizeRefund(id, _, outcome) => [Finalize(id, outcome)]
      case _ => []
  }

  function RunTxs(s: State, schedule: seq<Event>): seq<Tx> {
    if schedule == [] then []
    else var prefix := schedule[..|schedule| - 1];
         RunTxs(s, prefix) + TxOf(Run(s, prefix), schedule[|schedule| - 1])
  }

  /** A refunded amount that went away and came back is harmless: it brings the status back with it,
      so a compare-and-swap that succeeds writes what a fresh read would have led to. */
  lemma SwapIsAtomic(s: State, e: Event)
    requires Inv(s)
    ensures React(s, e).ledger == ApplyAll(s.ledger, TxOf(s, e))
    ensures AllowedAll(s.ledger, TxOf(s, e))
  {
    if e.Advance? && e.pid < |s.processes| {
      var p := s.processes[e.pid];
      assert ProcessOk(s, p);
      if TxOf(s, e) != [] {
        var tx := TxOf(s, e)[0];
        assert TxOf(s, e) == [tx] && [tx][..0] == [];
        assert ApplyAll(s.ledger, []) == s.ledger && AllowedAll(s.ledger, []);
      }
    }
  }

  lemma {:induction false} ApplyAllAppend(l: Ledger, txs: seq<Tx>, more: seq<Tx>)
    requires |more| <= 1
    ensures ApplyAll(l, txs + more) == ApplyAll(ApplyAll(l, txs), more)
    ensures AllowedAll(l, txs) && AllowedAll(ApplyAll(l, txs), more) ==> AllowedAll(l, txs + more)
  {
    if more == [] {
      assert txs + more == txs;
    } else {
      assert (txs + more)[..|txs|] == txs && more[..0] == [];
    }
  }

  ghost predicate Refines(s: State, schedule: seq<Event>) {
    && Run(s, schedule).ledger == ApplyAll(s.ledger, RunTxs(s, schedule))
    && AllowedAll(s.ledger, RunTxs(s, schedule))
  }

  lemma EmptyRefines(s: State)
    ensures Refines(s, [])
  {
  }

  lemma StepRefines(s: State, prefix: seq<Event>, e: Event)
    requires Inv(s) && Refines(s, prefix)
    ensures Refines(s, prefix + [e])
  {
    var middle := Run(s, prefix);
    var txs, more := RunTxs(s, prefix), TxOf(middle, e);
    RunKeepsInv(s, prefix);
    SwapIsAtomic(middle, e);
    ApplyAllAppend(s.ledger, txs, more);
    var all := prefix + [e];
    assert all[..|all| - 1] == prefix && all[|all| - 1] == e;
    assert RunTxs(s, all) == txs + more && Run(s, all) == React(middle, e);
  }

  /** Every run of the split-step protocol leaves the ledger where a run of atomic, allowed transactions leaves it. */
  lemma {:induction false} ProtocolRefinesTransactions(s: State, schedule: seq<Event>)
    requires Inv(s)
    ensures Refines(s, schedule)
  {
    if schedule == [] {
      EmptyRefines(s);
    } else {
      var n := |schedule| - 1;
      ProtocolRefinesTransactions(s, schedule[..n]);
      StepRefines(s, schedule[..n], schedule[n]);
      assert schedule[..n] + [schedule[n]] == schedule;
    }
  }
}

/** The payment state machine (src/domain/states/payment-state-machine.ts). */
module PaymentStates {
  import opened Wrappers
  import opened Transitions

  datatype PaymentStatus =
    | Pending | Processing | Authorized | Succeeded | Failed | Canceled | Refunded | PartiallyRefunded

  datatype PaymentEvent =
    | Process | Authorize | Capture | Void | Succeed | Fail | Cancel | Refund | PartiallyRefund

  const MAP: TransitionMap<PaymentStatus, PaymentEvent> := map[
    Pending := [Arc(Process, Processing), Arc(Authorize, Authorized), Arc(Succeed, Succeeded),
                Arc(Fail, Failed), Arc(Cancel, Canceled)],
    Processing := [Arc(Authorize, Authorized), Arc(Succeed, Succeeded), Arc(Fail, Failed), Arc(Cancel, Canceled)],
    Authorized := [Arc(Capture, Succeeded), Arc(Void, Canceled), Arc(Fail, Failed)],
    Failed := [Arc(Process, Processing), Arc(Authorize, Authorized), Arc(Succeed, Succeeded)],
    Succeeded := [Arc(Refund, Refunded), Arc(PartiallyRefund, PartiallyRefunded)],
    PartiallyRefunded := [Arc(Refund, Refunded), Arc(PartiallyRefund, PartiallyRefunded)]
  ]

  predicate Refundable(status: PaymentStatus) {
    status == Succeeded || status == PartiallyRefunded
  }

  /** The status that each event names, */
  function Target(event: PaymentEvent): PaymentStatus {
    match event
    case Process => Processing
    case Authorize => Authorized
    case Capture => Succeeded
    case Void => Canceled
    case Succeed => Succeeded
    case Fail => Failed
    case Cancel => Canceled
    case Refund => Refunded
    case PartiallyRefund => PartiallyRefunded
  }

  /** and the statuses in which it can happen. */
  function Sources(event: PaymentEvent): set<PaymentStatus> {
    match event
    case Process => {Pending, Failed}
    case Authorize => {Pending, Processing, Failed}
    case Capture => {Authorized}
    case Void => {Authorized}
    case Succeed => {Pending, Processing, Failed}
    case Fail => {Pending, Processing, Authorized}
    case Cancel => {Pending, Processing}
    case Refund => {Succeeded, PartiallyRefunded}
    case PartiallyRefund => {Succeeded, PartiallyRefunded}
  }

  /** What the arcs out of a status say of an event. */
  ghost predicate ArcsSay(from: PaymentStatus, event: PaymentEvent) {
    ApplyTransition(MAP, from, event) == if from in Sources(event) then Some(Target(event)) else None
  }

  lemma EarlyArcs(from: PaymentStatus, event: PaymentEvent)
    requires from == Pending || from == Processing
    ensures ArcsSay(from, event)
  {
    LookupOf(Arcs(MAP, from), event);
  }

  lemma LateArcs(from: PaymentStatus, event: PaymentEvent)
    requires !(from == Pending || from == Processing)
    ensures ArcsSay(from, event)
  {
    LookupOf(Arcs(MAP, from), event);
  }

  lemma EventLeadsToTarget(from: PaymentStatus, event: PaymentEvent)
    ensures ApplyTransition(MAP, from, event) == if from in Sources(event) then Some(Target(event)) else None
  {
    if from == Pending || from == Processing {
      EarlyArcs(from, event);
    } else {
      LateArcs(from, event);
    }
  }

  /** The two refund events exist exactly in the refundable states. */
  function NextStatus(status: PaymentStatus, event: PaymentEvent): (r: Option<PaymentStatus>)
    ensures event == Refund ==> r == if Refundable(status) then Some(Refunded) else None
    ensures event == PartiallyRefund ==> r == if Refundable(status) then Some(PartiallyRefunded) else None
  {
    EventLeadsToTarget(status, event);
    ApplyTransition(MAP, status, event)
  }

  class PaymentStateMachine {
    var state: PaymentStatus

    constructor (state: PaymentStatus)
      ensures this.state == state
    {
      this.state := state;
    }

    /** `to`: moves, or fails where the program throws and leaves the state alone. */
    method To(event: PaymentEvent) returns (moved: bool)
      modifies this
      ensures moved <==> NextStatus(old(state), event).Some?
      ensures moved <==> old(state) in Sources(event)
      ensures state == if moved then Target(event) else old(state)
    {
      EventLeadsToTarget(state, event);
      var next := NextStatus(state, event);
      moved := next.Some?;
      if moved {
        state := next.value;
      }
    }
  }
}

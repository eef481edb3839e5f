/** The subscription price migration state machine
    (src/domain/states/subscription-price-migration-state-machine.ts). */
module MigrationStates {
  import opened Wrappers
  import opened Transitions

  datatype MigrationStatus =
    | Previewed | Scheduled | Executing | PendingRenewal | Applied | Failed | ReconciliationRequired | Cancelled

  datatype MigrationEvent =
    | Schedule | Start | Apply | ConfirmPendingRenewal | Fail | RequireReconciliation
    | ResolveApplied | ResolvePendingRenewal | ResolveNotApplied | Settle | Retry | Cancel

  const MAP: TransitionMap<MigrationStatus, MigrationEvent> := map[
    Previewed := [Arc(Schedule, Scheduled), Arc(Start, Executing), Arc(Cancel, Cancelled)],
    Scheduled := [Arc(Start, Executing), Arc(Cancel, Cancelled)],
    Executing := [Arc(Apply, Applied), Arc(ConfirmPendingRenewal, PendingRenewal), Arc(Fail, Failed),
                  Arc(RequireReconciliation, ReconciliationRequired)],
    PendingRenewal := [Arc(Settle, Applied)],
    Applied := [],
    Failed := [Arc(Retry, Executing), Arc(Cancel, Cancelled)],
    ReconciliationRequired := [Arc(ResolveApplied, Applied), Arc(ResolvePendingRenewal, PendingRenewal),
                               Arc(ResolveNotApplied, Failed)],
    Cancelled := []
  ]

  /** `canTransitionSubscriptionPriceMigrationStatus`: some event leads from one status to the other. */
  predicate CanTransitionStatus(from: MigrationStatus, to: MigrationStatus) {
    exists a | a in Arcs(MAP, from) :: a.target == to
  }

  lemma MapWellFormed()
    ensures WellFormed(MAP)
  {
  }

  /** A status change that `canTransition…Status` allows is a move of the machine. */
  lemma TransitionHasEvent(from: MigrationStatus, to: MigrationStatus) returns (event: MigrationEvent)
    requires CanTransitionStatus(from, to)
    ensures ApplyTransition(MAP, from, event) == Some(to)
  {
    MapWellFormed();
    event := EventInto(MAP, from, to);
  }

  lemma EventInto(m: TransitionMap<MigrationStatus, MigrationEvent>, from: MigrationStatus, to: MigrationStatus)
    returns (event: MigrationEvent)
    requires WellFormed(m) && exists a | a in Arcs(m, from) :: a.target == to
    ensures ApplyTransition(m, from, event) == Some(to)
  {
    var a :| a in Arcs(m, from) && a.target == to;
    LookupExact(Arcs(m, from), a.event, to);
    event := a.event;
  }

  /** The status that each event names, */
  function Target(event: MigrationEvent): MigrationStatus {
    match event
    case Schedule => Scheduled
    case Start => Executing
    case Apply => Applied
    case ConfirmPendingRenewal => PendingRenewal
    case Fail => Failed
    case RequireReconciliation => ReconciliationRequired
    case ResolveApplied => Applied
    case ResolvePendingRenewal => PendingRenewal
    case ResolveNotApplied => Failed
    case Settle => Applied
    case Retry => Executing
    case Cancel => Cancelled
  }

  /** and the statuses in which it can happen. */
  function Sources(event: MigrationEvent): set<MigrationStatus> {
    match event
    case Schedule => {Previewed}
    case Start => {Previewed, Scheduled}
    case Apply => {Executing}
    case ConfirmPendingRenewal => {Executing}
    case Fail => {Executing}
    case RequireReconciliation => {Executing}
    case ResolveApplied => {ReconciliationRequired}
    case ResolvePendingRenewal => {ReconciliationRequired}
    case ResolveNotApplied => {ReconciliationRequired}
    case Settle => {PendingRenewal}
    case Retry => {Failed}
    case Cancel => {Previewed, Scheduled, Failed}
  }

  /** What the arcs out of a status say of an event. */
  ghost predicate ArcsSay(from: MigrationStatus, event: MigrationEvent) {
    ApplyTransition(MAP, from, event) == if from in Sources(event) then Some(Target(event)) else None
  }

  lemma EarlyArcs(from: MigrationStatus, event: MigrationEvent)
    requires from == Previewed || from == Executing
    ensures ArcsSay(from, event)
  {
    LookupOf(Arcs(MAP, from), event);
  }

  lemma LateArcs(from: MigrationStatus, event: MigrationEvent)
    requires !(from == Previewed || from == Executing)
    ensures ArcsSay(from, event)
  {
    LookupOf(Arcs(MAP, from), event);
  }

  lemma EventLeadsToTarget(from: MigrationStatus, event: MigrationEvent)
    ensures ApplyTransition(MAP, from, event) == if from in Sources(event) then Some(Target(event)) else None
  {
    if from == Previewed || from == Executing {
      EarlyArcs(from, event);
    } else {
      LateArcs(from, event);
    }
  }

  class MigrationStateMachine {
    var state: MigrationStatus

    constructor (state: MigrationStatus)
      ensures this.state == state
    {
      this.state := state;
    }

    /** `to`: moves, or fails where the program throws and leaves the state alone. */
    method To(event: MigrationEvent) returns (moved: bool)
      modifies this
      ensures moved <==> CanTransition(MAP, old(state), event)
      ensures moved <==> old(state) in Sources(event)
      ensures state == if moved then Target(event) else old(state)
    {
      EventLeadsToTarget(state, event);
      var next := ApplyTransition(MAP, state, event);
      moved := next.Some?;
      if moved {
        state := next.value;
      }
    }
  }
}

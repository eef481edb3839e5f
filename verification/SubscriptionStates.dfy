/** The subscription state machine and status reconciliation (src/domain/states/subscription-state-machine.ts). */
module SubscriptionStates {
  import opened Wrappers
  import opened Transitions
  import opened PathOrder
  import opened ShortestPath

  datatype SubscriptionStatus =
    | Incomplete | IncompleteExpired | Trialing | Active | PastDue | Canceled | Unpaid | Paused

  datatype SubscriptionEvent =
    | StartTrial | Activate | MarkPastDue | MarkUnpaid | Pause | Resume | Cancel | Expire

  const MAP: TransitionMap<SubscriptionStatus, SubscriptionEvent> := map[
    Incomplete := [Arc(StartTrial, Trialing), Arc(Activate, Active), Arc(Expire, IncompleteExpired),
                   Arc(Cancel, Canceled)],
    Trialing := [Arc(Activate, Active), Arc(MarkPastDue, PastDue), Arc(MarkUnpaid, Unpaid), Arc(Pause, Paused),
                 Arc(Cancel, Canceled)],
    Active := [Arc(MarkPastDue, PastDue), Arc(MarkUnpaid, Unpaid), Arc(Pause, Paused), Arc(Cancel, Canceled)],
    PastDue := [Arc(Activate, Active), Arc(MarkUnpaid, Unpaid), Arc(Cancel, Canceled)],
    Unpaid := [Arc(Activate, Active), Arc(Cancel, Canceled)],
    Paused := [Arc(Resume, Active), Arc(Cancel, Canceled)],
    Canceled := []
  ]

  /** The status that each event names, */
  function Target(event: SubscriptionEvent): SubscriptionStatus {
    match event
    case StartTrial => Trialing
    case Activate => Active
    case MarkPastDue => PastDue
    case MarkUnpaid => Unpaid
    case Pause => Paused
    case Resume => Active
    case Cancel => Canceled
    case Expire => IncompleteExpired
  }

  /** and the statuses in which it can happen. */
  function Sources(event: SubscriptionEvent): set<SubscriptionStatus> {
    match event
    case StartTrial => {Incomplete}
    case Activate => {Incomplete, Trialing, PastDue, Unpaid}
    case MarkPastDue => {Trialing, Active}
    case MarkUnpaid => {Trialing, Active, PastDue}
    case Pause => {Trialing, Active}
    case Resume => {Paused}
    case Cancel => {Incomplete, Trialing, Active, PastDue, Unpaid, Paused}
    case Expire => {Incomplete}
  }

  /** What the arcs out of a status say of an event. */
  ghost predicate ArcsSay(from: SubscriptionStatus, event: SubscriptionEvent) {
    ApplyTransition(MAP, from, event) == if from in Sources(event) then Some(Target(event)) else None
  }

  lemma EarlyArcs(from: SubscriptionStatus, event: SubscriptionEvent)
    requires from == Incomplete || from == Trialing || from == Active
    ensures ArcsSay(from, event)
  {
    LookupOf(Arcs(MAP, from), event);
  }

  lemma LateArcs(from: SubscriptionStatus, event: SubscriptionEvent)
    requires from != Incomplete && from != Trialing && from != Active
    ensures ArcsSay(from, event)
  {
    LookupOf(Arcs(MAP, from), event);
  }

  lemma EventLeadsToTarget(from: SubscriptionStatus, event: SubscriptionEvent)
    ensures ApplyTransition(MAP, from, event) == if from in Sources(event) then Some(Target(event)) else None
  {
    if from == Incomplete || from == Trialing || from == Active {
      EarlyArcs(from, event);
    } else {
      LateArcs(from, event);
    }
  }

  class SubscriptionStateMachine {
    var state: SubscriptionStatus

    constructor (state: SubscriptionStatus)
      ensures this.state == state
    {
      this.state := state;
    }

    /** `to`: moves, or fails where the program throws and leaves the state alone. */
    method To(event: SubscriptionEvent) returns (moved: bool)
      modifies this
      ensures moved <==> CanTransition(MAP, old(state), event)
      ensures moved <==> old(state) in Sources(event)
      ensures state == if moved then Target(event) else old(state)
    {
      EventLeadsToTarget(state, event);
      var next := ApplyTransition(MAP, state, event);
      moved := next.Some?;
      if moved {
        state := next.value;
      }
    }
  }

  datatype Reconciliation = Reconciliation(status: SubscriptionStatus, applied: bool, events: seq<SubscriptionEvent>)

  lemma MapWellFormed()
    ensures WellFormed(MAP)
  {
  }

  ghost predicate Reconciles(m: TransitionMap<SubscriptionStatus, SubscriptionEvent>, current: SubscriptionStatus,
                             target: SubscriptionStatus, r: Reconciliation)
  {
    && (r.applied <==> !Unreachable(m, current, target))
    && (r.applied ==> r.status == target)
    && (r.applied ==> Shortest(m, current, target, r.events) && Least(m, current, target, r.events))
    && (!r.applied ==> r.status == current && r.events == [])
  }

  /** Which statuses can become which: any but the two final ones can become active, past due, unpaid, paused or
      canceled; a trial, or expiry, comes only out of incomplete. */
  predicate CanBecome(from: SubscriptionStatus, to: SubscriptionStatus) {
    || from == to
    || (from != Canceled && from != IncompleteExpired
        && (to == Active || to == PastDue || to == Unpaid || to == Paused || to == Canceled))
    || (from == Incomplete && (to == Trialing || to == IncompleteExpired))
  }

  lemma {:induction false} ReplayCanBecome(from: SubscriptionStatus, events: seq<SubscriptionEvent>)
    ensures Replay(MAP, from, events).Some? ==> CanBecome(from, Replay(MAP, from, events).value)
  {
    if events != [] {
      var n := |events| - 1;
      ReplayCanBecome(from, events[..n]);
      if Replay(MAP, from, events[..n]).Some? {
        EventLeadsToTarget(Replay(MAP, from, events[..n]).value, events[n]);
      }
    }
  }

  lemma OneEvent(from: SubscriptionStatus, event: SubscriptionEvent)
    requires from in Sources(event)
    ensures Replay(MAP, from, [event]) == Some(Target(event))
  {
    EventLeadsToTarget(from, event);
    assert [event][..0] == [] && Replay(MAP, from, []) == Some(from);
  }

  lemma TwoEvents(from: SubscriptionStatus, first: SubscriptionEvent, second: SubscriptionEvent)
    requires from in Sources(first) && Target(first) in Sources(second)
    ensures Replay(MAP, from, [first, second]) == Some(Target(second))
  {
    OneEvent(from, first);
    EventLeadsToTarget(Target(first), second);
    assert [first, second][..1] == [first];
  }

  /** The one event that can lead straight to a status, */
  function EventTo(from: SubscriptionStatus, to: SubscriptionStatus): SubscriptionEvent {
    match to
    case Trialing => StartTrial
    case Active => if from == Paused then Resume else Activate
    case PastDue => MarkPastDue
    case Unpaid => MarkUnpaid
    case Paused => Pause
    case IncompleteExpired => Expire
    case _ => Cancel
  }

  /** the first event out of a status that does not lead everywhere straight, */
  function FirstEvent(from: SubscriptionStatus): SubscriptionEvent {
    match from
    case Incomplete => StartTrial
    case Paused => Resume
    case _ => Activate
  }

  /** and the events from one status to another: none, one, or two by way of a trial or of active. */
  function Events(from: SubscriptionStatus, to: SubscriptionStatus): seq<SubscriptionEvent> {
    if from == to then []
    else if from in Sources(EventTo(from, to)) then [EventTo(from, to)]
    else [FirstEvent(from), EventTo(from, to)]
  }

  lemma EventsLead(from: SubscriptionStatus, to: SubscriptionStatus)
    requires CanBecome(from, to)
    ensures Replay(MAP, from, Events(from, to)) == Some(to)
  {
    if from != to {
      var event := EventTo(from, to);
      if from in Sources(event) {
        OneEvent(from, event);
      } else {
        TwoEvents(from, FirstEvent(from), event);
      }
    }
  }

  lemma ReachableIff(from: SubscriptionStatus, to: SubscriptionStatus)
    ensures !Unreachable(MAP, from, to) <==> CanBecome(from, to)
  {
    if !Unreachable(MAP, from, to) {
      var events :| Replay(MAP, from, events) == Some(to);
      ReplayCanBecome(from, events);
    }
    if CanBecome(from, to) {
      EventsLead(from, to);
    }
  }

  /** One event from `from` to `to` is the one that the table names. */
  lemma LastEvent(from: SubscriptionStatus, events: seq<SubscriptionEvent>, mid: SubscriptionStatus,
                  to: SubscriptionStatus)
    requires events != [] && Replay(MAP, from, events) == Some(to)
    requires Replay(MAP, from, events[..|events| - 1]) == Some(mid)
    ensures events[|events| - 1] == EventTo(mid, to) && mid in Sources(EventTo(mid, to))
  {
    EventLeadsToTarget(mid, events[|events| - 1]);
  }

  lemma FirstEventComesFirst(from: SubscriptionStatus, to: SubscriptionStatus)
    requires CanBecome(from, to) && from != to && from !in Sources(EventTo(from, to))
    ensures Position(Arcs(MAP, from), FirstEvent(from)) == 0
  {
  }

  /** The first of the shortest lists of events is the one in the table. */
  lemma EventsAreThose(from: SubscriptionStatus, to: SubscriptionStatus, events: seq<SubscriptionEvent>)
    requires Shortest(MAP, from, to, events) && Least(MAP, from, to, events)
    ensures CanBecome(from, to) && events == Events(from, to)
  {
    ReplayCanBecome(from, events);
    EventsLead(from, to);
    var table := Events(from, to);
    assert |events| <= |table|;
    if |events| == 1 {
      assert events[..0] == [];
      LastEvent(from, events, from, to);
    } else if |events| == 2 {
      TwoAreThose(from, to, events);
    }
  }

  lemma TwoAreThose(from: SubscriptionStatus, to: SubscriptionStatus, events: seq<SubscriptionEvent>)
    requires CanBecome(from, to) && Least(MAP, from, to, events) && Replay(MAP, from, events) == Some(to)
    requires |events| == 2 == |Events(from, to)| && Replay(MAP, from, Events(from, to)) == Some(to)
    ensures events == Events(from, to)
  {
    var table := Events(from, to);
    if events != table {
      FirstEventComesFirst(from, to);
      var n: nat :| PartAt(MAP, from, events, table, n);
      assert n == 1 && events[..1] == table[..1];
      var mid := Replay(MAP, from, table[..1]).value;
      LastEvent(from, table, mid, to);
      LastEvent(from, events, mid, to);
    }
  }

  /** The target is reported, with the first of the shortest lists of events, exactly when it can be reached. */
  method ReconcileSubscriptionStatus(current: SubscriptionStatus, target: SubscriptionStatus)
    returns (r: Reconciliation)
    ensures Reconciles(MAP, current, target, r)
    ensures r.applied <==> CanBecome(current, target)
    ensures r.status == if CanBecome(current, target) then target else current
    ensures r.events == if CanBecome(current, target) then Events(current, target) else []
  {
    MapWellFormed();
    ReachableIff(current, target);
    r := ReconcileOver(MAP, current, target);
    if r.applied {
      EventsAreThose(current, target, r.events);
    }
  }

  method ReconcileOver(m: TransitionMap<SubscriptionStatus, SubscriptionEvent>, current: SubscriptionStatus,
                       target: SubscriptionStatus) returns (r: Reconciliation)
    requires WellFormed(m)
    ensures Reconciles(m, current, target, r)
  {
    var events := ShortestEventPath(m, current, target);
    if events == None {
      return Reconciliation(current, false, []);
    }
    r := Reconciliation(target, true, events.value);
  }

  /** Canceled and expired subscriptions never move again. */
  lemma {:induction false} TerminalNeverMoves(from: SubscriptionStatus, events: seq<SubscriptionEvent>)
    requires from == Canceled || from == IncompleteExpired
    ensures Replay(MAP, from, events) == if events == [] then Some(from) else None
  {
    if events != [] {
      TerminalNeverMoves(from, events[..|events| - 1]);
    }
  }
}

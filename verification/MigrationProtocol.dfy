/** Compare-and-swap and reconciliation of one stored price migration
    (subscription-price-migration-cas.ts and the repository contract). */
module MigrationProtocol {
  import opened Wrappers
  import opened Transitions
  import opened MigrationStates

  datatype FailureCode = ProviderNotApplied | ProviderOutcomeUnknown | ProviderIdentityMismatch | ProjectionFailed

  function FailureMessage(code: FailureCode): string {
    match code
    case ProviderNotApplied => "Provider did not apply the subscription migration"
    case ProviderOutcomeUnknown => "Provider outcome is unknown and requires reconciliation"
    case ProviderIdentityMismatch => "Provider subscription identity mismatch requires reconciliation"
    case ProjectionFailed => "Canonical projection failed after provider success"
  }

  /** A failure code with its own message, or with another, or none. */
  datatype FailureNote = FailureNote(code: Option<FailureCode>, message: Option<string>)

  const NO_FAILURE := FailureNote(None, None)

  predicate Canonical(f: FailureNote) {
    f.code.Some? && f.message == Some(FailureMessage(f.code.value))
  }

  datatype Swap = Swap(
    expectedStatus: MigrationStatus, expectedToken: Option<string>,
    nextStatus: MigrationStatus, token: Option<string>, failure: FailureNote)

  predicate NonEmpty(token: Option<string>) {
    token.Some? && token.value != ""
  }

  /** `isValidSubscriptionPriceMigrationCas` */
  predicate IsValidSwap(input: Swap) {
    var next := input.nextStatus;
    if input.expectedStatus == ReconciliationRequired then false
    else if input.failure != NO_FAILURE && !Canonical(input.failure) then false
    else if (next == Failed || next == ReconciliationRequired) && !Canonical(input.failure) then false
    else if next in {Scheduled, Executing, PendingRenewal, Applied} && input.failure != NO_FAILURE then false
    else if !CanTransitionStatus(input.expectedStatus, next) then false
    else if next == Scheduled then
      input.expectedStatus == Previewed && input.expectedToken == None && input.token == None
    else if next == Executing then input.expectedToken == None && NonEmpty(input.token)
    else if next == Cancelled then input.expectedToken == None && input.token == None
    else if next == Failed then NonEmpty(input.expectedToken) && input.token == None
    else NonEmpty(input.expectedToken) && input.token == input.expectedToken
  }

  /** The four shapes of a reconciliation input; each expected status is executing or reconciliation_required. */
  datatype Resolution =
    | ObserveExecuting(expectedToken: string, token: string, evidence: string)
    | ObserveAgain(expectedToken: string, token: string, evidence: string)
    | FoundApplied(fromExecuting: bool, expectedToken: string, pendingRenewal: bool, token: string)
    | FoundNotApplied(fromExecuting: bool, expectedToken: string)

  datatype Row = Row(status: MigrationStatus, token: Option<string>, failure: FailureNote, observation: Option<string>)

  datatype Event = CompareAndSwap(swap: Swap) | Resolve(resolution: Resolution)

  const CREATED := Row(Previewed, None, NO_FAILURE, None)

  // ---------------------------------------------------------------- steps

  predicate SwapAccepted(row: Row, input: Swap) {
    IsValidSwap(input) && row.status == input.expectedStatus && row.token == input.expectedToken
  }

  function ExpectedStatus(r: Resolution): MigrationStatus {
    match r
    case ObserveExecuting(_, _, _) => Executing
    case ObserveAgain(_, _, _) => ReconciliationRequired
    case FoundApplied(fromExecuting, _, _, _) => if fromExecuting then Executing else ReconciliationRequired
    case FoundNotApplied(fromExecuting, _) => if fromExecuting then Executing else ReconciliationRequired
  }

  predicate ResolutionAccepted(row: Row, r: Resolution) {
    && row.status == ExpectedStatus(r) && row.token == Some(r.expectedToken)
    && (r.ObserveExecuting? || r.ObserveAgain? ==> r.token == r.expectedToken && row.observation == None)
  }

  function Resolved(row: Row, r: Resolution): Row {
    match r
    case ObserveExecuting(_, token, evidence) =>
      Row(ReconciliationRequired, Some(token),
          FailureNote(Some(ProviderOutcomeUnknown), Some(FailureMessage(ProviderOutcomeUnknown))), Some(evidence))
    case ObserveAgain(_, _, evidence) => row.(observation := Some(evidence))
    case FoundApplied(_, _, pendingRenewal, token) =>
      row.(status := if pendingRenewal then PendingRenewal else Applied, token := Some(token), failure := NO_FAILURE)
    case FoundNotApplied(_, _) =>
      row.(status := Failed, token := None,
           failure := FailureNote(Some(ProviderNotApplied), Some(FailureMessage(ProviderNotApplied))))
  }

  predicate Accepted(row: Row, e: Event) {
    match e
    case CompareAndSwap(swap) => SwapAccepted(row, swap)
    case Resolve(r) => ResolutionAccepted(row, r)
  }

  /** One atomic update of the row; a rejected one changes nothing. */
  function Step(row: Row, e: Event): Row {
    if !Accepted(row, e) then row
    else match e
      case CompareAndSwap(swap) => row.(status := swap.nextStatus, token := swap.token, failure := swap.failure)
      case Resolve(r) => Resolved(row, r)
  }

  function Run(row: Row, events: seq<Event>): Row {
    if events == [] then row else Step(Run(row, events[..|events| - 1]), events[|events| - 1])
  }

  // ---------------------------------------------------------------- simulation by the state machine

  lemma Edges(from: MigrationStatus, to: MigrationStatus)
    ensures CanTransitionStatus(from, to) <==>
              || (from == Previewed && (to == Scheduled || to == Executing || to == Cancelled))
              || (from == Scheduled && (to == Executing || to == Cancelled))
              || (from == Executing
                  && (to == Applied || to == PendingRenewal || to == Failed || to == ReconciliationRequired))
              || (from == PendingRenewal && to == Applied)
              || (from == Failed && (to == Executing || to == Cancelled))
              || (from == ReconciliationRequired && (to == Applied || to == PendingRenewal || to == Failed))
  {
  }

  /** The shapes of a compare-and-swap that the repository contract declares, one line each:
      schedule, start, cancel, retain ownership, fail, settle. */
  predicate ContractShape(input: Swap) {
    var from, next, held := input.expectedStatus, input.nextStatus, input.expectedToken;
    || (from == Previewed && held == None && next == Scheduled && input.token == None)
    || (from in {Previewed, Scheduled, Failed} && held == None && next == Executing && input.token.Some?)
    || (from in {Previewed, Scheduled, Failed} && held == None && next == Cancelled && input.token == None)
    || (from == Executing && held.Some? && next in {Applied, PendingRenewal, ReconciliationRequired}
        && input.token == held)
    || (from == Executing && held.Some? && next == Failed && input.token == None)
    || (from == PendingRenewal && held.Some? && next == Applied && input.token.Some?)
  }

  /** What the check adds to the declared shapes: tokens are not empty, settling keeps the token,
      and a failure is recorded exactly where it belongs. */
  lemma ValidSwapsRefineTheContract(input: Swap)
    ensures IsValidSwap(input) <==>
              && ContractShape(input)
              && input.token != Some("") && input.expectedToken != Some("")
              && (input.expectedStatus == PendingRenewal ==> input.token == input.expectedToken)
              && (match input.nextStatus
                  case Failed => Canonical(input.failure)
                  case ReconciliationRequired => Canonical(input.failure)
                  case Cancelled => input.failure == NO_FAILURE || Canonical(input.failure)
                  case _ => input.failure == NO_FAILURE)
  {
    Edges(input.expectedStatus, input.nextStatus);
  }

  predicate Stutters(row: Row, e: Event) {
    !Accepted(row, e) || (e.Resolve? && e.resolution.ObserveAgain?)
  }

  /** An accepted step is a move of the state machine, unless it observes an unknown outcome once more. */
  lemma StepIsMove(row: Row, e: Event)
    ensures Stutters(row, e) ==> Step(row, e).status == row.status
    ensures !Stutters(row, e) ==> CanTransitionStatus(row.status, Step(row, e).status)
  {
    Edges(row.status, Step(row, e).status);
  }

  /** How many steps of a run really move. */
  function Moves(row: Row, events: seq<Event>): nat {
    if events == [] then 0
    else
      var n := |events| - 1;
      Moves(row, events[..n]) + if Stutters(Run(row, events[..n]), events[n]) then 0 else 1
  }

  /** Every run of compare-and-swaps and resolutions is a run of the state machine, one event per moving step. */
  lemma {:induction false} RunIsSimulated(row: Row, events: seq<Event>) returns (machine: seq<MigrationEvent>)
    ensures Replay(MAP, row.status, machine) == Some(Run(row, events).status)
    ensures |machine| == Moves(row, events)
  {
    if events == [] {
      machine := [];
    } else {
      var prefix, e := events[..|events| - 1], events[|events| - 1];
      machine := RunIsSimulated(row, prefix);
      StepIsMove(Run(row, prefix), e);
      if !Stutters(Run(row, prefix), e) {
        var event := TransitionHasEvent(Run(row, prefix).status, Step(Run(row, prefix), e).status);
        ReplayAppend(MAP, row.status, machine, event);
        machine := machine + [event];
      }
    }
  }

  lemma ReplayAppend(m: TransitionMap<MigrationStatus, MigrationEvent>, from: MigrationStatus,
                     machine: seq<MigrationEvent>, event: MigrationEvent)
    requires Replay(m, from, machine).Some?
    ensures Replay(m, from, machine + [event]) == ApplyTransition(m, Replay(m, from, machine).value, event)
  {
    assert (machine + [event])[..|machine|] == machine;
  }

  /** Applied and cancelled are never left, and a compare-and-swap never leaves reconciliation_required. */
  lemma TerminalStatuses(row: Row, e: Event)
    ensures row.status == Applied || row.status == Cancelled ==> Step(row, e) == row
    ensures row.status == ReconciliationRequired && e.CompareAndSwap? ==> Step(row, e) == row
  {
    if e.CompareAndSwap? {
      Edges(row.status, e.swap.nextStatus);
    }
  }

  // ---------------------------------------------------------------- token and failure discipline

  predicate Idle(status: MigrationStatus) {
    status == Previewed || status == Scheduled || status == Failed || status == Cancelled
  }

  /** The discipline of tokens. It is also what `assertExecutionOwnership` demands of every row that is read. */
  predicate TokenOk(row: Row) {
    if Idle(row.status) then row.token == None else NonEmpty(row.token)
  }

  ghost predicate FailureOk(row: Row) {
    && (row.status == Failed || row.status == ReconciliationRequired ==> Canonical(row.failure))
    && (row.status in {Scheduled, Executing, PendingRenewal, Applied} ==> row.failure == NO_FAILURE)
  }

  /** A resolution as applied carries its token on: the contract's type leaves the field free. */
  predicate KeepsToken(e: Event) {
    e.Resolve? && e.resolution.FoundApplied? ==> e.resolution.token == e.resolution.expectedToken
  }

  lemma StepKeepsFailureOk(row: Row, e: Event)
    requires FailureOk(row)
    ensures FailureOk(Step(row, e))
  {
  }

  /** The token discipline survives a step exactly when the step is not a resolution as applied with an empty token.
      That one writes a row which then cannot be read back. */
  lemma StepKeepsTokenOkIff(row: Row, e: Event)
    requires TokenOk(row)
    ensures TokenOk(Step(row, e)) <==>
              !(Accepted(row, e) && e.Resolve? && e.resolution.FoundApplied? && e.resolution.token == "")
  {
    if e.CompareAndSwap? {
      Edges(row.status, e.swap.nextStatus);
    }
  }

  /** A call reads the row back after it wrote it, and throws if the row breaks the discipline.
      Inside a transaction the write is then undone. */
  function StepInTransaction(row: Row, e: Event): Row {
    if TokenOk(Step(row, e)) then Step(row, e) else row
  }

  /** So in a transaction the discipline always survives; the only writes undone are those of an empty token. */
  lemma TransactionKeepsTokenOk(row: Row, e: Event)
    requires TokenOk(row)
    ensures TokenOk(StepInTransaction(row, e))
    ensures StepInTransaction(row, e) != Step(row, e) <==>
              Accepted(row, e) && e.Resolve? && e.resolution.FoundApplied? && e.resolution.token == ""
  {
    StepKeepsTokenOkIff(row, e);
  }

  /** While an attempt lasts its token changes exactly when a resolution as applied brings another one. */
  lemma StepKeepsTokenIff(row: Row, e: Event)
    requires TokenOk(row) && !Idle(row.status) && !Idle(Step(row, e).status)
    ensures Step(row, e).token == row.token <==> !Accepted(row, e) || KeepsToken(e)
  {
    if e.CompareAndSwap? {
      Edges(row.status, e.swap.nextStatus);
    }
  }

  const OUTCOME_UNKNOWN :=
    FailureNote(Some(ProviderOutcomeUnknown), Some("Provider outcome is unknown and requires reconciliation"))

  const NOT_APPLIED :=
    FailureNote(Some(ProviderNotApplied), Some("Provider did not apply the subscription migration"))

  /** A resolution is accepted exactly under the token of the row, while it executes or awaits reconciliation as the
      input expects; an unknown outcome moreover only once, with the token passed on. */
  lemma ResolutionAcceptedIff(row: Row, r: Resolution)
    ensures ResolutionAccepted(row, r) <==>
              && row.token == Some(r.expectedToken)
              && (match r
                  case ObserveExecuting(expected, token, _) =>
                    row.status == Executing && token == expected && row.observation == None
                  case ObserveAgain(expected, token, _) =>
                    row.status == ReconciliationRequired && token == expected && row.observation == None
                  case FoundApplied(fromExecuting, _, _, _) =>
                    row.status == (if fromExecuting then Executing else ReconciliationRequired)
                  case FoundNotApplied(fromExecuting, _) =>
                    row.status == (if fromExecuting then Executing else ReconciliationRequired))
  {
  }

  /** What an accepted compare-and-swap stores: the status, token and failure it names, and nothing else. */
  lemma SwapStores(row: Row, swap: Swap)
    ensures IsValidSwap(swap) && row.status == swap.expectedStatus && row.token == swap.expectedToken ==>
              Step(row, CompareAndSwap(swap)) == Row(swap.nextStatus, swap.token, swap.failure, row.observation)
    ensures !(IsValidSwap(swap) && row.status == swap.expectedStatus && row.token == swap.expectedToken) ==>
              Step(row, CompareAndSwap(swap)) == row
  {
  }

  /** What an accepted resolution stores. A first unknown outcome stores that code, a not-applied one the code that says
      so, an applied one none; another unknown outcome leaves the code alone. */
  lemma ResolutionStores(row: Row, r: Resolution)
    requires ResolutionAccepted(row, r)
    ensures var after := Step(row, Resolve(r));
            match r
            case ObserveExecuting(_, token, evidence) =>
              after == Row(ReconciliationRequired, Some(token), OUTCOME_UNKNOWN, Some(evidence))
            case ObserveAgain(_, _, evidence) => after == Row(row.status, row.token, row.failure, Some(evidence))
            case FoundApplied(_, _, pendingRenewal, token) =>
              after == Row(if pendingRenewal then PendingRenewal else Applied, Some(token), NO_FAILURE, row.observation)
            case FoundNotApplied(_, _) => after == Row(Failed, None, NOT_APPLIED, row.observation)
  {
  }

  /** So a resolution never leaves a failed row with the unknown outcome, and always one that newly awaits
      reconciliation with it. */
  lemma ResolutionsFailAsNotApplied(row: Row, r: Resolution)
    requires ResolutionAccepted(row, r)
    ensures Step(row, Resolve(r)).status == Failed ==>
              Step(row, Resolve(r)).failure == NOT_APPLIED && NOT_APPLIED != OUTCOME_UNKNOWN
    ensures Step(row, Resolve(r)).status == ReconciliationRequired && row.status != ReconciliationRequired ==>
              Step(row, Resolve(r)).failure == OUTCOME_UNKNOWN
  {
    ResolutionStores(row, r);
  }

  /** An unknown outcome is observed at most once in the life of a row: no later step, not even a new attempt, makes
      room for another. */
  lemma ObservationStays(row: Row, e: Event)
    requires row.observation.Some?
    ensures Step(row, e).observation == row.observation
    ensures e.Resolve? && (e.resolution.ObserveExecuting? || e.resolution.ObserveAgain?) ==> !Accepted(row, e)
  {
  }

  function StartAttempt(from: MigrationStatus, token: string): Event {
    CompareAndSwap(Swap(from, None, Executing, Some(token), NO_FAILURE))
  }

  /** The contract's types alone do not keep the token: whichever owner executes, and whichever other token is given,
      an accepted input puts it in the owner's place, in a row that reads back. */
  lemma ResolutionCanReplaceToken(owner: string, other: string, pendingRenewal: bool)
    requires owner != "" && other != "" && owner != other
    ensures var executing := Step(CREATED, StartAttempt(Previewed, owner));
            var after := Step(executing, Resolve(FoundApplied(true, owner, pendingRenewal, other)));
            && executing.token == Some(owner) && TokenOk(executing)
            && after.token == Some(other) && TokenOk(after)
  {
    Edges(Previewed, Executing);
  }

  // ---------------------------------------------------------------- ownership over runs

  /** The token of the attempt that a step starts, if it starts one. */
  function Started(row: Row, e: Event): seq<string> {
    if e.CompareAndSwap? && e.swap.nextStatus == Executing && Accepted(row, e) && e.swap.token.Some?
    then [e.swap.token.value]
    else []
  }

  /** A point of a run: the row, and the tokens of the attempts started by then, in order. */
  datatype Point = Point(row: Row, attempts: seq<string>)

  const BEGINNING := Point(CREATED, [])

  function Next(p: Point, e: Event): Point {
    Point(Step(p.row, e), p.attempts + Started(p.row, e))
  }

  /** The points before, between and after the calls of a run. */
  ghost predicate IsTrace(events: seq<Event>, points: seq<Point>) {
    && |points| == |events| + 1 && points[0] == BEGINNING
    && forall k | 0 <= k < |events| :: points[k + 1] == Next(points[k], events[k])
  }

  /** Every run has a trace, and its rows are those of the run. */
  lemma {:induction false} TraceOf(events: seq<Event>) returns (points: seq<Point>)
    ensures IsTrace(events, points) && points[|events|].row == Run(CREATED, events)
  {
    if events == [] {
      points := [BEGINNING];
    } else {
      var n := |events| - 1;
      points := TraceOf(events[..n]);
      assert forall k | 0 <= k < n :: events[..n][k] == events[k];
      points := points + [Next(points[n], events[n])];
    }
  }

  ghost predicate LastIs(attempts: seq<string>, token: Option<string>) {
    attempts != [] && token == Some(attempts[|attempts| - 1])
  }

  /** The row holds the token of the attempt started last, or none. */
  ghost predicate Owned(p: Point) {
    p.row.token.Some? ==> LastIs(p.attempts, p.row.token)
  }

  /** Whatever the resolutions bring: an attempt that executes, or awaits reconciliation, is the one started last. */
  ghost predicate Claimed(p: Point) {
    && (p.row.status == Executing || p.row.status == ReconciliationRequired ==>
          LastIs(p.attempts, p.row.token) && NonEmpty(p.row.token))
    && (p.row.status == PendingRenewal || p.row.status == Applied ==> p.row.token.Some?)
    && (Idle(p.row.status) ==> p.row.token == None)
    && (forall t | t in p.attempts :: t != "")
  }

  lemma SwapKeepsClaimed(p: Point, swap: Swap)
    requires Claimed(p) && SwapAccepted(p.row, swap)
    ensures Claimed(Next(p, CompareAndSwap(swap)))
  {
    Edges(p.row.status, swap.nextStatus);
  }

  lemma ResolutionKeepsClaimed(p: Point, r: Resolution)
    requires Claimed(p) && ResolutionAccepted(p.row, r)
    ensures Claimed(Next(p, Resolve(r)))
  {
    assert p.attempts + [] == p.attempts;
  }

  lemma StepKeepsClaimed(p: Point, e: Event)
    requires Claimed(p)
    ensures Claimed(Next(p, e))
  {
    if !Accepted(p.row, e) {
      assert p.attempts + [] == p.attempts;
    } else if e.CompareAndSwap? {
      SwapKeepsClaimed(p, e.swap);
    } else {
      ResolutionKeepsClaimed(p, e.resolution);
    }
  }

  /** Over every run, without condition: failures are recorded where they belong, and from its start until it is
      resolved an attempt keeps its token. */
  lemma {:induction false} RunKeepsClaimed(events: seq<Event>, points: seq<Point>, k: nat)
    requires IsTrace(events, points) && k <= |events|
    ensures FailureOk(points[k].row) && Claimed(points[k])
  {
    if k > 0 {
      RunKeepsClaimed(events, points, k - 1);
      StepKeepsFailureOk(points[k - 1].row, events[k - 1]);
      StepKeepsClaimed(points[k - 1], events[k - 1]);
    }
  }

  /** Token ownership: tokens where they belong, and each that of the attempt started last. */
  ghost predicate TokensOk(p: Point) {
    TokenOk(p.row) && Owned(p)
  }

  /** An accepted resolution as applied passes its token on. */
  predicate PassesTokenOn(row: Row, e: Event) {
    Accepted(row, e) ==> KeepsToken(e)
  }

  lemma StepKeepsTokensIff(p: Point, e: Event)
    requires TokensOk(p)
    ensures TokensOk(Next(p, e)) <==> PassesTokenOn(p.row, e)
  {
    StepKeepsTokenOkIff(p.row, e);
    if e.CompareAndSwap? {
      Edges(p.row.status, e.swap.nextStatus);
    }
  }

  /** Token ownership holds all through a run exactly when its accepted resolutions as applied pass the token on. */
  lemma RunKeepsDisciplineIff(events: seq<Event>, points: seq<Point>)
    requires IsTrace(events, points)
    ensures (forall k | 0 <= k <= |events| :: TokensOk(points[k])) <==>
            (forall k | 0 <= k < |events| :: PassesTokenOn(points[k].row, events[k]))
  {
    if forall k | 0 <= k < |events| :: PassesTokenOn(points[k].row, events[k]) {
      DisciplineUpTo(events, points, |events|);
    } else {
      var k :| 0 <= k < |events| && !PassesTokenOn(points[k].row, events[k]);
      if TokensOk(points[k]) {
        StepKeepsTokensIff(points[k], events[k]);
        assert !TokensOk(points[k + 1]);
      }
    }
  }

  lemma {:induction false} DisciplineUpTo(events: seq<Event>, points: seq<Point>, n: nat)
    requires IsTrace(events, points) && n <= |events|
    requires forall k | 0 <= k < n :: PassesTokenOn(points[k].row, events[k])
    ensures forall k | 0 <= k <= n :: TokensOk(points[k])
  {
    if n > 0 {
      DisciplineUpTo(events, points, n - 1);
      StepKeepsTokensIff(points[n - 1], events[n - 1]);
    }
  }

  // ---------------------------------------------------------------- workers of earlier attempts

  /** A worker's claim to hold the attempt of `token`. */
  predicate ClaimsAttempt(e: Event, token: string) {
    match e
    case CompareAndSwap(swap) => swap.expectedToken == Some(token)
    case Resolve(r) => r.expectedToken == token
  }

  /** A token of an attempt before the last. */
  ghost predicate Stale(attempts: seq<string>, token: string) {
    exists i | 0 <= i < |attempts| - 1 :: attempts[i] == token
  }

  /** No worker of an earlier attempt can change the row, whatever it tries. */
  ghost predicate StaleWorkersRejected(p: Point) {
    forall e, token | Stale(p.attempts, token) && ClaimsAttempt(e, token) :: Step(p.row, e) == p.row
  }

  lemma ForeignClaimRejected(row: Row, e: Event, token: string)
    requires ClaimsAttempt(e, token) && row.token != Some(token)
    ensures Step(row, e) == row
  {
  }

  lemma LastIsNotStale(attempts: seq<string>, token: Option<string>)
    requires Distinct(attempts) && LastIs(attempts, token)
    ensures !Stale(attempts, token.value)
  {
  }

  /** The call with which the worker of `token` settles a row that holds it. */
  function SettleAs(token: string): Event {
    CompareAndSwap(Swap(PendingRenewal, Some(token), Applied, Some(token), NO_FAILURE))
  }

  ghost predicate AwaitsStaleWorker(p: Point) {
    p.row.status == PendingRenewal && p.row.token.Some? && Stale(p.attempts, p.row.token.value)
  }

  /** With distinct tokens, an earlier worker can act exactly on a row that awaits renewal under its token. */
  lemma StaleWorkersRejectedIff(p: Point)
    requires Claimed(p) && Distinct(p.attempts)
    ensures StaleWorkersRejected(p) <==> !AwaitsStaleWorker(p)
  {
    if AwaitsStaleWorker(p) {
      var token := p.row.token.value;
      Edges(PendingRenewal, Applied);
      assert token in p.attempts;
      assert ClaimsAttempt(SettleAs(token), token) && Step(p.row, SettleAs(token)).status == Applied;
    } else {
      forall e, token | Stale(p.attempts, token) && ClaimsAttempt(e, token)
        ensures Step(p.row, e) == p.row
      {
        StaleWorkerRejected(p, e, token);
      }
    }
  }

  lemma StaleWorkerRejected(p: Point, e: Event, token: string)
    requires Claimed(p) && Distinct(p.attempts) && !AwaitsStaleWorker(p)
    requires Stale(p.attempts, token) && ClaimsAttempt(e, token)
    ensures Step(p.row, e) == p.row
  {
    if p.row.status == Applied {
      TerminalStatuses(p.row, e);
    } else {
      ForeignClaimRejected(p.row, e, token);
    }
  }

  /** A resolution as applied, pending renewal, that brings the token of an earlier attempt. */
  ghost predicate RevivesStaleToken(p: Point, e: Event) {
    && Accepted(p.row, e) && e.Resolve? && e.resolution.FoundApplied? && e.resolution.pendingRenewal
    && Stale(p.attempts, e.resolution.token)
  }

  lemma StepAwaitsIff(p: Point, e: Event)
    requires Claimed(p) && Distinct(p.attempts) && !AwaitsStaleWorker(p)
    ensures AwaitsStaleWorker(Next(p, e)) <==> RevivesStaleToken(p, e)
  {
    if e.CompareAndSwap? {
      Edges(p.row.status, e.swap.nextStatus);
      if Accepted(p.row, e) && e.swap.nextStatus == PendingRenewal {
        LastIsNotStale(p.attempts, e.swap.token);
      }
    }
    if Started(p.row, e) == [] {
      assert p.attempts + Started(p.row, e) == p.attempts;
    }
  }

  /** Attempts are only added. */
  lemma {:induction false} AttemptsGrow(events: seq<Event>, points: seq<Point>, k: nat, n: nat)
    requires IsTrace(events, points) && k <= n <= |events|
    ensures points[k].attempts <= points[n].attempts
  {
    if k < n {
      AttemptsGrow(events, points, k, n - 1);
    }
  }

  lemma DistinctPrefix(a: seq<string>, b: seq<string>)
    requires a <= b && Distinct(b)
    ensures Distinct(a)
  {
  }

  lemma {:induction false} NoneAwaitsUpTo(events: seq<Event>, points: seq<Point>, n: nat)
    requires IsTrace(events, points) && n <= |events|
    requires forall k | 0 <= k <= |events| :: Claimed(points[k]) && Distinct(points[k].attempts)
    requires forall k | 0 <= k < n :: !RevivesStaleToken(points[k], events[k])
    ensures forall k | 0 <= k <= n :: !AwaitsStaleWorker(points[k])
  {
    if n > 0 {
      NoneAwaitsUpTo(events, points, n - 1);
      StepAwaitsIff(points[n - 1], events[n - 1]);
    }
  }

  lemma FreshAllThrough(events: seq<Event>, points: seq<Point>)
    requires IsTrace(events, points) && Distinct(points[|events|].attempts)
    ensures forall k | 0 <= k <= |events| :: Claimed(points[k]) && Distinct(points[k].attempts)
  {
    forall k | 0 <= k <= |events|
      ensures Claimed(points[k]) && Distinct(points[k].attempts)
    {
      RunKeepsClaimed(events, points, k);
      AttemptsGrow(events, points, k, |events|);
      DistinctPrefix(points[k].attempts, points[|events|].attempts);
    }
  }

  lemma NoRevivalNoStaleWorker(events: seq<Event>, points: seq<Point>, k: nat)
    requires IsTrace(events, points) && Distinct(points[|events|].attempts) && k <= |events|
    requires forall j | 0 <= j < |events| :: !RevivesStaleToken(points[j], events[j])
    ensures StaleWorkersRejected(points[k])
  {
    FreshAllThrough(events, points);
    NoneAwaitsUpTo(events, points, k);
    StaleWorkersRejectedIff(points[k]);
  }

  lemma RevivalLetsStaleWorkerIn(events: seq<Event>, points: seq<Point>, k: nat)
    requires IsTrace(events, points) && Distinct(points[|events|].attempts) && k < |events|
    requires RevivesStaleToken(points[k], events[k])
    ensures !StaleWorkersRejected(points[k + 1])
  {
    FreshAllThrough(events, points);
    RevivalAdmitsStaleWorker(points[k], events[k]);
    assert points[k + 1] == Next(points[k], events[k]);
  }

  /** When every attempt has a token of its own: workers of earlier attempts are rejected all through a run exactly
      when no accepted resolution as applied, pending renewal, brings the token of an earlier attempt. */
  lemma RunRejectsStaleWorkersIff(events: seq<Event>, points: seq<Point>)
    requires IsTrace(events, points) && Distinct(points[|events|].attempts)
    ensures (forall k | 0 <= k <= |events| :: StaleWorkersRejected(points[k])) <==>
            (forall k | 0 <= k < |events| :: !RevivesStaleToken(points[k], events[k]))
  {
    if k :| 0 <= k < |events| && RevivesStaleToken(points[k], events[k]) {
      RevivalLetsStaleWorkerIn(events, points, k);
    } else {
      forall k | 0 <= k <= |events|
        ensures StaleWorkersRejected(points[k])
      {
        NoRevivalNoStaleWorker(events, points, k);
      }
    }
  }

  lemma RevivalAdmitsStaleWorker(p: Point, e: Event)
    requires Claimed(p) && Distinct(p.attempts) && RevivesStaleToken(p, e)
    ensures !StaleWorkersRejected(Next(p, e))
  {
    StepKeepsClaimed(p, e);
    StepAwaitsIff(p, e);
    assert Next(p, e).attempts == p.attempts;
    StaleWorkersRejectedIff(Next(p, e));
  }

  /** In particular a run whose accepted resolutions pass the token on rejects them. */
  lemma PassingTokensOnRejectsStaleWorkers(events: seq<Event>, points: seq<Point>)
    requires IsTrace(events, points) && Distinct(points[|events|].attempts)
    requires forall k | 0 <= k < |events| :: PassesTokenOn(points[k].row, events[k])
    ensures forall k | 0 <= k <= |events| :: StaleWorkersRejected(points[k])
  {
    FreshAllThrough(events, points);
    forall k | 0 <= k < |events|
      ensures !RevivesStaleToken(points[k], events[k])
    {
      PassingRevivesNothing(points[k], events[k]);
    }
    RunRejectsStaleWorkersIff(events, points);
  }

  lemma PassingRevivesNothing(p: Point, e: Event)
    requires Claimed(p) && Distinct(p.attempts) && PassesTokenOn(p.row, e)
    ensures !RevivesStaleToken(p, e)
  {
    if RevivesStaleToken(p, e) {
      LastIsNotStale(p.attempts, p.row.token);
    }
  }

  function FailAttempt(token: string): Event {
    CompareAndSwap(Swap(Executing, Some(token), Failed, None,
                        FailureNote(Some(ProviderNotApplied), Some(FailureMessage(ProviderNotApplied)))))
  }

  lemma StartsAttempt(p: Point, token: string)
    requires CanTransitionStatus(p.row.status, Executing) && p.row.token == None && token != ""
    ensures Next(p, StartAttempt(p.row.status, token))
         == Point(Row(Executing, Some(token), NO_FAILURE, p.row.observation), p.attempts + [token])
  {
    Edges(p.row.status, Executing);
  }

  lemma FailsAttempt(p: Point, token: string)
    requires p.row.status == Executing && p.row.token == Some(token) && token != ""
    ensures var q := Next(p, FailAttempt(token));
            && q.row.status == Failed && q.row.token == None && q.row.observation == p.row.observation
            && q.attempts == p.attempts
  {
    Edges(Executing, Failed);
  }

  lemma FirstThreeCalls(a: string, b: string)
    requires a != "" && b != ""
    ensures var first := Next(BEGINNING, StartAttempt(Previewed, a));
            var second := Next(first, FailAttempt(a));
            Next(second, StartAttempt(Failed, b)) == Point(Row(Executing, Some(b), NO_FAILURE, None), [a, b])
  {
    Edges(Previewed, Executing);
    Edges(Failed, Executing);
    StartsAttempt(BEGINNING, a);
    var first := Next(BEGINNING, StartAttempt(Previewed, a));
    FailsAttempt(first, a);
    StartsAttempt(Next(first, FailAttempt(a)), b);
  }

  /** Without that condition the worker of a failed attempt can complete the one that followed it. */
  lemma StaleWorkerCanComplete(a: string, b: string) returns (events: seq<Event>, points: seq<Point>)
    requires a != "" && b != "" && a != b
    ensures events == [StartAttempt(Previewed, a), FailAttempt(a), StartAttempt(Failed, b),
                       Resolve(FoundApplied(true, b, true, a))]
    ensures IsTrace(events, points) && points[4].attempts == [a, b] && points[4].row.status == PendingRenewal
    ensures ClaimsAttempt(SettleAs(a), a) && Step(points[4].row, SettleAs(a)).status == Applied
  {
    Edges(PendingRenewal, Applied);
    FirstThreeCalls(a, b);
    events := [StartAttempt(Previewed, a), FailAttempt(a), StartAttempt(Failed, b),
               Resolve(FoundApplied(true, b, true, a))];
    var first := Next(BEGINNING, events[0]);
    var second := Next(first, events[1]);
    var third := Next(second, events[2]);
    points := [BEGINNING, first, second, third, Next(third, events[3])];
  }
}

/** The retry loops inside the protocol: run step by step among the steps of other calls, each loop does what
    `RefundActions.Retry` says of it. */
module RefundRefinement {
  import opened Wrappers
  import opened RefundLedger
  import opened RefundProtocol
  import A = RefundActions

  /** The transaction that a call is about to attempt, if it is at the start of an attempt. */
  function Wanted(p: Process): Option<Tx> {
    match p
    case ReadToReserve(want, _) => Some(Tx.Reserve(want))
    case ReadToRecord(input, _) => Some(Record(input))
    case ReadToRelease(id, _, outcome, _) => Some(Release(id, outcome))
    case _ => None
  }

  function Tries(p: Process): nat
    requires Wanted(p).Some?
  {
    p.attempt
  }

  /** Where a lost attempt leaves a call. */
  function NextTry(p: Process): Process
    requires Wanted(p).Some?
  {
    match p
    case ReadToReserve(want, attempt) => RetryReserve(want, attempt)
    case ReadToRecord(input, attempt) => RetryRecord(input, attempt)
    case ReadToRelease(id, requested, outcome, attempt) => RetryRelease(id, requested, outcome, attempt)
  }

  /** Calls and steps of others. */
  predicate Apart(pid: nat, window: seq<Event>) {
    forall e | e in window :: e.Advance? ==> e.pid != pid
  }

  // ---------------------------------------------------------------- others leave a call where it is

  lemma StepTouchesOne(s: State, pid: nat, answer: Answer)
    requires pid < |s.processes|
    ensures |Step(s, pid, answer).processes| == |s.processes|
    ensures forall q | 0 <= q < |s.processes| && q != pid :: Step(s, pid, answer).processes[q] == s.processes[q]
  {
  }

  lemma {:induction false} OthersLeaveProcess(s: State, pid: nat, window: seq<Event>)
    requires pid < |s.processes| && Apart(pid, window)
    ensures pid < |Run(s, window).processes| && Run(s, window).processes[pid] == s.processes[pid]
  {
    if window != [] {
      var n := |window| - 1;
      var e := window[n];
      OthersLeaveProcess(s, pid, window[..n]);
      var before := Run(s, window[..n]);
      assert e in window;
      if e.Advance? && e.pid < |before.processes| {
        StepTouchesOne(before, e.pid, e.answer);
      }
    }
  }

  // ---------------------------------------------------------------- one attempt

  function Tick(s: State, pid: nat): State {
    React(s, Advance(pid, Threw))
  }

  /** The read of an attempt, the others' window, and the swap; a refused attempt ends with its read. */
  function Pass(s: State, pid: nat, window: seq<Event>): State {
    var read := Tick(s, pid);
    if pid < |read.processes| && read.processes[pid] == Done then read else Tick(Run(read, window), pid)
  }

  /** What the others commit meanwhile. */
  function PassTxs(s: State, pid: nat, window: seq<Event>): seq<Tx> {
    RunTxs(Tick(s, pid), window)
  }

  /** Where an attempt that went as `a` leaves a call. */
  predicate Ended(p: Process, a: A.Attempt, q: Process)
    requires Wanted(p).Some?
  {
    match a
    case Rejected(_) => q == Done
    case Lost => q == NextTry(p)
    case Won(plan) => if p.ReadToReserve? then q.CallProvider? && q.requested == plan.amount else q == Done
  }

  /** A call that has read, and swaps on what it read. */
  function Swapping(p: Process, row: PaymentRow): Process
    requires Wanted(p).Some?
  {
    match p
    case ReadToReserve(want, attempt) => SwapToReserve(want, attempt, row)
    case ReadToRecord(input, attempt) => SwapToRecord(input, attempt, row)
    case ReadToRelease(id, requested, outcome, attempt) => SwapToRelease(id, requested, outcome, attempt, row)
  }

  lemma ReadTick(s: State, pid: nat)
    requires Inv(s) && pid < |s.processes| && Wanted(s.processes[pid]).Some?
    ensures var p := s.processes[pid];
            var refused := PlanOf(s.ledger.payment, s.ledger.refunds, Wanted(p).value).Failure?;
            Tick(s, pid) == Goto(s, pid, if refused then Done else Swapping(p, s.ledger.payment))
  {
  }

  lemma SwapTick(s: State, pid: nat, p: Process, first: Ledger)
    requires Inv(s) && pid < |s.processes| && Wanted(p).Some? && s.processes[pid] == Swapping(p, first.payment)
    requires p.ReadToRelease? ==> p.id < |first.refunds| && first.refunds[p.id].amount == p.requested
    requires PlanOf(first.payment, first.refunds, Wanted(p).value).Success?
    ensures var tx := Wanted(p).value;
            var plan := PlanOf(first.payment, first.refunds, tx).value;
            var won := Unchanged(s.ledger, first.payment);
            && pid < |Tick(s, pid).processes|
            && Tick(s, pid).ledger == (if won then Commit(s.ledger, tx, plan) else s.ledger)
            && Ended(p, if won then A.Won(plan) else A.Lost, Tick(s, pid).processes[pid])
  {
  }

  /** An attempt among the steps of others does what `AttemptOn` says. */
  lemma PassIsAttempt(s: State, pid: nat, window: seq<Event>)
    requires Inv(s) && pid < |s.processes| && Wanted(s.processes[pid]).Some? && Apart(pid, window)
    ensures var p := s.processes[pid];
            var (a, l) := A.AttemptOn(s.ledger, Wanted(p).value, PassTxs(s, pid, window));
            var after := Pass(s, pid, window);
            after.ledger == l && pid < |after.processes| && Ended(p, a, after.processes[pid]) && Inv(after)
  {
    var p := s.processes[pid];
    var read := Tick(s, pid);
    ReactKeepsInv(s, Advance(pid, Threw));
    ReadTick(s, pid);
    if PlanOf(s.ledger.payment, s.ledger.refunds, Wanted(p).value).Success? {
      var swap := Run(read, window);
      OthersLeaveProcess(read, pid, window);
      RunKeepsInv(read, window);
      ProtocolRefinesTransactions(read, window);
      assert ProcessOk(s, p);
      SwapTick(swap, pid, p, s.ledger);
      ReactKeepsInv(swap, Advance(pid, Threw));
    }
  }

  // ---------------------------------------------------------------- the loop

  /** Attempts, with a window of others' events in each, until the call is past its loop. */
  function Loop(s: State, pid: nat, windows: seq<seq<Event>>): State
    decreases |windows|
  {
    if windows == [] || pid >= |s.processes| || Wanted(s.processes[pid]).None? then s
    else Loop(Pass(s, pid, windows[0]), pid, windows[1..])
  }

  function LoopTxs(s: State, pid: nat, windows: seq<seq<Event>>): seq<seq<Tx>>
    decreases |windows|
  {
    if windows == [] || pid >= |s.processes| || Wanted(s.processes[pid]).None? then []
    else [PassTxs(s, pid, windows[0])] + LoopTxs(Pass(s, pid, windows[0]), pid, windows[1..])
  }

  /** Where a loop that went as `a` leaves a call: a reservation goes on to the provider, a lost release gives up. */
  predicate LoopEnded(p: Process, a: A.Attempt, q: Process)
    requires Wanted(p).Some?
  {
    match a
    case Rejected(_) => q == Done
    case Lost => if p.ReadToRelease? then q == GiveUp(p.id, p.requested) else q == Done
    case Won(plan) => if p.ReadToReserve? then q.CallProvider? && q.requested == plan.amount else q == Done
  }

  lemma NextTryMeans(p: Process)
    requires Wanted(p).Some?
    ensures Tries(p) + 1 < 3 ==> Wanted(NextTry(p)) == Wanted(p) && Tries(NextTry(p)) == Tries(p) + 1
    ensures Tries(p) + 1 < 3 ==> forall a, q :: LoopEnded(NextTry(p), a, q) ==> LoopEnded(p, a, q)
    ensures Tries(p) + 1 == 3 ==> LoopEnded(p, A.Lost, NextTry(p))
  {
  }

  /** An attempt that is not lost ends the loop. */
  lemma LoopStops(s: State, pid: nat, windows: seq<seq<Event>>, p: Process, a: A.Attempt)
    requires pid < |s.processes| && Wanted(p).Some? && Ended(p, a, s.processes[pid]) && !a.Lost?
    ensures Loop(s, pid, windows) == s && LoopEnded(p, a, s.processes[pid])
  {
  }

  lemma RetryOnce(l: Ledger, tx: Tx, first: seq<Tx>, rest: seq<seq<Tx>>)
    ensures var (a, l') := A.AttemptOn(l, tx, first);
            A.Retry(l, tx, [first] + rest) == if a.Lost? then A.Retry(l', tx, rest) else (a, l')
  {
    assert ([first] + rest)[1..] == rest;
  }

  /** Run step by step among the steps of others, a loop does what `Retry` says of its transaction. */
  lemma {:induction false} LoopIsRetry(s: State, pid: nat, windows: seq<seq<Event>>)
    requires Inv(s) && pid < |s.processes| && Wanted(s.processes[pid]).Some?
    requires windows != [] && Tries(s.processes[pid]) + |windows| == 3
    requires forall w | w in windows :: Apart(pid, w)
    ensures var (a, l) := A.Retry(s.ledger, Wanted(s.processes[pid]).value, LoopTxs(s, pid, windows));
            var after := Loop(s, pid, windows);
            && after.ledger == l && pid < |after.processes| && LoopEnded(s.processes[pid], a, after.processes[pid])
            && (a.Lost? ==> |LoopTxs(s, pid, windows)| == |windows|)
    decreases |windows|
  {
    var p := s.processes[pid];
    var after := Pass(s, pid, windows[0]);
    assert windows[0] in windows;
    PassIsAttempt(s, pid, windows[0]);
    RetryOnce(s.ledger, Wanted(p).value, PassTxs(s, pid, windows[0]), LoopTxs(after, pid, windows[1..]));
    var a := A.AttemptOn(s.ledger, Wanted(p).value, PassTxs(s, pid, windows[0])).0;
    if !a.Lost? {
      LoopStops(after, pid, windows[1..], p, a);
    } else {
      NextTryMeans(p);
      if |windows| > 1 {
        LoopIsRetry(after, pid, windows[1..]);
      }
    }
  }
}

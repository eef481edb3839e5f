/** What became of each call of the refund protocol: the amount it was started with, the answer it received from the
    provider, and the refund row it left behind, over every schedule. */
module RefundHistory {
  import opened Wrappers
  import opened RefundLedger
  import opened RefundProtocol

  datatype Receipt = Receipt(id: nat, requested: int, answer: Answer)

  /** Of one call: how it was started, what the provider answered, how many releases it lost, whether it gave up. */
  datatype Past = Past(start: Event, receipt: Option<Receipt>, lost: nat, gaveUp: bool)

  /** The past of every call, and for every refund row the call that made it. */
  datatype History = History(pasts: seq<Past>, makers: seq<nat>)

  // ---------------------------------------------------------------- recording a run

  function RememberCall(s: State, p: Process, past: Past, answer: Answer): Past {
    match p
    case AwaitProvider(id, requested) => past.(receipt := Some(Receipt(id, requested, answer)))
    case SwapToRelease(_, _, _, _, row) => if Unchanged(s.ledger, row) then past else past.(lost := past.lost + 1)
    case GiveUp(_, _) => past.(gaveUp := true)
    case _ => past
  }

  function Remember(s: State, h: History, e: Event): History {
    match e
    case StartRefund(_) => h.(pasts := h.pasts + [Past(e, None, 0, false)])
    case StartRecord(_) => h.(pasts := h.pasts + [Past(e, None, 0, false)])
    case Advance(pid, answer) =>
      if pid >= |s.processes| || pid >= |h.pasts| then h
      else
        History(h.pasts[pid := RememberCall(s, s.processes[pid], h.pasts[pid], answer)],
                h.makers + if |React(s, e).ledger.refunds| > |s.ledger.refunds| then [pid] else [])
  }

  function HistoryOf(amount: nat, schedule: seq<Event>): History {
    if schedule == [] then History([], [])
    else
      var n := |schedule| - 1;
      Remember(Run(Init(amount), schedule[..n]), HistoryOf(amount, schedule[..n]), schedule[n])
  }

  // ---------------------------------------------------------------- what an answer calls for

  predicate Matches(x: Answer, requested: int) {
    x.Answered? && x.amount == requested && x.sameCurrency
  }

  /** The status that an answer leads to if the release of a refused refund succeeds. */
  function Due(x: Answer, requested: int): RefundStatus {
    if x.Threw? then Failed
    else if Matches(x, requested) && x.status.Some? then x.status.value
    else Pending
  }

  predicate Refusing(x: Answer, requested: int) {
    Due(x, requested) == Failed || Due(x, requested) == Canceled
  }

  predicate NamedBy(start: Event, amount: int) {
    match start
    case StartRefund(want) => want.Some? ==> amount == want.value
    case StartRecord(input) => input.want.Some? ==> amount == input.want.value
    case Advance(_, _) => false
  }

  // ---------------------------------------------------------------- the invariant

  ghost predicate Unowned(s: State, id: nat) {
    forall q | 0 <= q < |s.processes| :: !Owns(s.processes[q], id)
  }

  /** The row that a call with receipt left behind. */
  ghost predicate Settled(s: State, past: Past)
    requires past.receipt.Some?
  {
    var Receipt(id, requested, x) := past.receipt.value;
    && id < |s.ledger.refunds| && id < |s.asked| && Unowned(s, id)
    && s.ledger.refunds[id] == RefundRow(requested, if past.gaveUp then Pending else Due(x, requested))
    && s.asked[id] == (if Refusing(x, requested) then Refused else Standing)
    && (past.gaveUp <==> past.lost == 3) && (past.gaveUp ==> Refusing(x, requested))
    && NamedBy(past.start, requested)
  }

  /** Received, and nothing lost yet. */
  ghost predicate Received(past: Past, id: nat, requested: int) {
    past.receipt.Some? && past.receipt.value.id == id && past.receipt.value.requested == requested && !past.gaveUp
    && past.start.StartRefund? && NamedBy(past.start, requested)
  }

  ghost predicate PastOk(s: State, p: Process, past: Past) {
    match p
    case CheckPayment(want) => past == Past(StartRefund(want), None, 0, false)
    case CheckPending(want, _) => past == Past(StartRefund(want), None, 0, false)
    case ReadToReserve(want, _) => past == Past(StartRefund(want), None, 0, false)
    case SwapToReserve(want, _, _) => past == Past(StartRefund(want), None, 0, false)
    case CallProvider(_, requested) =>
      past == Past(past.start, None, 0, false) && past.start.StartRefund? && NamedBy(past.start, requested)
    case AwaitProvider(_, requested) =>
      past == Past(past.start, None, 0, false) && past.start.StartRefund? && NamedBy(past.start, requested)
    case KeepPending(id, requested) =>
      Received(past, id, requested) && past.lost == 0 && Due(past.receipt.value.answer, requested) == Pending
    case FinalizeRefund(id, requested, outcome) =>
      Received(past, id, requested) && past.lost == 0 && Due(past.receipt.value.answer, requested) == outcome
    case ReadToRelease(id, requested, outcome, attempt) =>
      Received(past, id, requested) && past.lost == attempt < 3 && Due(past.receipt.value.answer, requested) == outcome
    case SwapToRelease(id, requested, outcome, attempt, _) =>
      Received(past, id, requested) && past.lost == attempt < 3 && Due(past.receipt.value.answer, requested) == outcome
    case GiveUp(id, requested) =>
      Received(past, id, requested) && past.lost == 3 && Refusing(past.receipt.value.answer, requested)
    case ReadToRecord(input, _) => past == Past(StartRecord(input), None, 0, false)
    case SwapToRecord(input, _, _) => past == Past(StartRecord(input), None, 0, false)
    case Done => past.receipt.Some? ==> Settled(s, past)
  }

  ghost predicate RowOk(s: State, h: History, id: nat)
    requires id < |s.ledger.refunds| && id < |h.makers|
  {
    h.makers[id] < |h.pasts| && NamedBy(h.pasts[h.makers[id]].start, s.ledger.refunds[id].amount)
  }

  /** A call works on the row it made. */
  ghost predicate OwnRow(p: Process, h: History, pid: nat)
    requires pid < |h.pasts|
  {
    && (Held(p).Some? ==> Held(p).value.0 < |h.makers| && h.makers[Held(p).value.0] == pid)
    && (h.pasts[pid].receipt.Some? ==>
          h.pasts[pid].receipt.value.id < |h.makers| && h.makers[h.pasts[pid].receipt.value.id] == pid)
  }

  ghost predicate HistoryOk(s: State, h: History) {
    && |h.pasts| == |s.processes| && |h.makers| == |s.ledger.refunds|
    && (forall pid | 0 <= pid < |s.processes| :: PastOk(s, s.processes[pid], h.pasts[pid]))
    && (forall pid | 0 <= pid < |s.processes| :: OwnRow(s.processes[pid], h, pid))
    && (forall id | 0 <= id < |s.ledger.refunds| :: RowOk(s, h, id))
  }

  // ---------------------------------------------------------------- frames

  /** A step leaves the rows alone that its call does not own, and appends at most one. */
  ghost predicate Framed(s: State, pid: nat, s': State)
    requires pid < |s.processes|
  {
    && |s'.processes| == |s.processes| && |s'.asked| == |s'.ledger.refunds|
    && |s.ledger.refunds| <= |s'.ledger.refunds| <= |s.ledger.refunds| + 1
    && (forall q | 0 <= q < |s.processes| && q != pid :: s'.processes[q] == s.processes[q])
    && (forall i | 0 <= i < |s.ledger.refunds| :: s'.ledger.refunds[i].amount == s.ledger.refunds[i].amount)
    && (forall i | 0 <= i < |s.ledger.refunds| && i < |s.asked| && !Owns(s.processes[pid], i) ::
          s'.ledger.refunds[i] == s.ledger.refunds[i] && s'.asked[i] == s.asked[i])
    && (forall id: nat | Owns(s'.processes[pid], id) ::
          Owns(s.processes[pid], id) || id == |s.ledger.refunds| < |s'.ledger.refunds|)
  }

  lemma CheckingStepIsFramed(s: State, pid: nat)
    requires Inv(s) && pid < |s.processes| && (s.processes[pid].CheckPayment? || s.processes[pid].CheckPending?)
    ensures Framed(s, pid, CheckStep(s, pid))
  {
  }

  lemma ReservingStepIsFramed(s: State, pid: nat)
    requires Inv(s) && pid < |s.processes| && (s.processes[pid].ReadToReserve? || s.processes[pid].SwapToReserve?)
    ensures Framed(s, pid, ReserveStep(s, pid))
  {
  }

  lemma RecordingStepIsFramed(s: State, pid: nat)
    requires Inv(s) && pid < |s.processes| && (s.processes[pid].ReadToRecord? || s.processes[pid].SwapToRecord?)
    ensures Framed(s, pid, RecordStep(s, pid))
  {
    var p := s.processes[pid];
    if p.SwapToRecord? && PlanRecord(p.row, p.input).Success? && Unchanged(s.ledger, p.row) {
      var plan := PlanRecord(p.row, p.input).value;
      var l := Append(Write(s.ledger, plan.next), RefundRow(plan.amount, Succeeded));
      var s' := State(l, s.processes[pid := Done], s.asked + [NotAsked]);
      RecordedIsFramed(s, pid, s', RefundRow(plan.amount, Succeeded));
    } else {
      GotoIsFramed(s, pid, RecordStep(s, pid).processes[pid]);
    }
  }

  lemma RecordedIsFramed(s: State, pid: nat, s': State, row: RefundRow)
    requires Inv(s) && pid < |s.processes|
    requires s'.processes == s.processes[pid := Done] && s'.asked == s.asked + [NotAsked]
    requires s'.ledger.refunds == s.ledger.refunds + [row]
    ensures Framed(s, pid, s')
  {
  }

  lemma GotoIsFramed(s: State, pid: nat, p: Process)
    requires Inv(s) && pid < |s.processes| && Held(p).None?
    ensures Framed(s, pid, Goto(s, pid, p))
  {
  }

  lemma SettlingStepIsFramed(s: State, pid: nat, answer: Answer)
    requires Inv(s) && pid < |s.processes|
    requires var p := s.processes[pid];
             p.CallProvider? || p.AwaitProvider? || p.KeepPending? || p.FinalizeRefund?
    ensures Framed(s, pid, Step(s, pid, answer))
  {
    assert ProcessOk(s, s.processes[pid]) && Owns(s.processes[pid], s.processes[pid].id);
  }

  lemma ReleasingStepIsFramed(s: State, pid: nat, answer: Answer)
    requires Inv(s) && pid < |s.processes|
    requires var p := s.processes[pid]; p.ReadToRelease? || p.SwapToRelease? || p.GiveUp?
    ensures Framed(s, pid, Step(s, pid, answer))
  {
    assert ProcessOk(s, s.processes[pid]) && Owns(s.processes[pid], s.processes[pid].id);
  }

  lemma StepIsFramed(s: State, pid: nat, answer: Answer)
    requires Inv(s) && pid < |s.processes|
    ensures Framed(s, pid, Step(s, pid, answer))
  {
    var p := s.processes[pid];
    if p.CallProvider? || p.AwaitProvider? || p.KeepPending? || p.FinalizeRefund? {
      SettlingStepIsFramed(s, pid, answer);
    } else if p.ReadToRelease? || p.SwapToRelease? || p.GiveUp? {
      ReleasingStepIsFramed(s, pid, answer);
    } else if p.CheckPayment? || p.CheckPending? {
      CheckingStepIsFramed(s, pid);
    } else if p.ReadToReserve? || p.SwapToReserve? {
      ReservingStepIsFramed(s, pid);
    } else if p.ReadToRecord? || p.SwapToRecord? {
      RecordingStepIsFramed(s, pid);
    }
  }

  lemma OthersStayOk(s: State, pid: nat, s': State, q: nat, past: Past)
    requires Inv(s) && pid < |s.processes| && Framed(s, pid, s') && q < |s.processes| && q != pid
    requires PastOk(s, s.processes[q], past)
    ensures PastOk(s', s'.processes[q], past)
  {
    if s.processes[q].Done? && past.receipt.Some? {
      var id := past.receipt.value.id;
      forall r | 0 <= r < |s'.processes|
        ensures !Owns(s'.processes[r], id)
      {
        assert !Owns(s.processes[r], id);
      }
    }
  }

  // ---------------------------------------------------------------- the call that steps

  lemma EarlyStepOk(s: State, pid: nat, answer: Answer, past: Past)
    requires Inv(s) && pid < |s.processes| && PastOk(s, s.processes[pid], past)
    requires var p := s.processes[pid];
             || p.CheckPayment? || p.CheckPending? || p.ReadToReserve? || p.SwapToReserve? || p.CallProvider?
             || p.ReadToRecord? || p.SwapToRecord? || p.Done?
    ensures var s' := Step(s, pid, answer);
            PastOk(s', s'.processes[pid], RememberCall(s, s.processes[pid], past, answer))
  {
    var p := s.processes[pid];
    if p.SwapToReserve? {
      ReservePlanMeans(p.row, p.want);
    }
  }

  /** Nobody else owns what a call owns. */
  lemma LettingGo(s: State, pid: nat, s': State, id: nat)
    requires Inv(s) && pid < |s.processes| && Owns(s.processes[pid], id)
    requires s'.processes == s.processes[pid := Done]
    ensures Unowned(s', id)
  {
  }

  lemma AwaitStepOk(s: State, pid: nat, answer: Answer, past: Past)
    requires Inv(s) && pid < |s.processes| && PastOk(s, s.processes[pid], past) && s.processes[pid].AwaitProvider?
    ensures var s' := Step(s, pid, answer);
            PastOk(s', s'.processes[pid], RememberCall(s, s.processes[pid], past, answer))
  {
    var p := s.processes[pid];
    assert ProcessOk(s, p) && Owns(p, p.id);
    var s' := Step(s, pid, answer);
    if s'.processes[pid].Done? {
      LettingGo(s, pid, s', p.id);
    }
  }

  lemma MarkStepOk(s: State, pid: nat, answer: Answer, past: Past)
    requires Inv(s) && pid < |s.processes| && PastOk(s, s.processes[pid], past)
    requires s.processes[pid].KeepPending? || s.processes[pid].FinalizeRefund? || s.processes[pid].GiveUp?
    ensures var s' := Step(s, pid, answer);
            PastOk(s', s'.processes[pid], RememberCall(s, s.processes[pid], past, answer))
  {
    var p := s.processes[pid];
    assert ProcessOk(s, p) && Owns(p, p.id);
    LettingGo(s, pid, Step(s, pid, answer), p.id);
  }

  lemma ReleaseStepOk(s: State, pid: nat, answer: Answer, past: Past)
    requires Inv(s) && pid < |s.processes| && PastOk(s, s.processes[pid], past)
    requires s.processes[pid].ReadToRelease? || s.processes[pid].SwapToRelease?
    ensures var s' := Step(s, pid, answer);
            PastOk(s', s'.processes[pid], RememberCall(s, s.processes[pid], past, answer))
  {
    var p := s.processes[pid];
    assert ProcessOk(s, p) && Owns(p, p.id);
    var s' := Step(s, pid, answer);
    if s'.processes[pid].Done? {
      LettingGo(s, pid, s', p.id);
    }
  }

  lemma OwnStepOk(s: State, pid: nat, answer: Answer, past: Past)
    requires Inv(s) && pid < |s.processes| && PastOk(s, s.processes[pid], past)
    ensures var s' := Step(s, pid, answer);
            PastOk(s', s'.processes[pid], RememberCall(s, s.processes[pid], past, answer))
  {
    var p := s.processes[pid];
    if p.AwaitProvider? {
      AwaitStepOk(s, pid, answer, past);
    } else if p.KeepPending? || p.FinalizeRefund? || p.GiveUp? {
      MarkStepOk(s, pid, answer, past);
    } else if p.ReadToRelease? || p.SwapToRelease? {
      ReleaseStepOk(s, pid, answer, past);
    } else {
      EarlyStepOk(s, pid, answer, past);
    }
  }

  /** A row that a step appends has the amount its call was started with. */
  lemma NewRowIsNamed(s: State, pid: nat, answer: Answer, past: Past)
    requires Inv(s) && pid < |s.processes| && PastOk(s, s.processes[pid], past)
    requires |Step(s, pid, answer).ledger.refunds| > |s.ledger.refunds|
    ensures NamedBy(past.start, Step(s, pid, answer).ledger.refunds[|s.ledger.refunds|].amount)
  {
    var p := s.processes[pid];
    if p.SwapToReserve? {
      ReservePlanMeans(p.row, p.want);
    } else if p.SwapToRecord? {
      RecordPlanMeans(p.row, p.input);
    }
  }

  lemma OwnRowKept(s: State, h: History, pid: nat, answer: Answer)
    requires Inv(s) && HistoryOk(s, h) && pid < |s.processes|
    ensures var s', h' := Step(s, pid, answer), Remember(s, h, Advance(pid, answer));
            pid < |s'.processes| && OwnRow(s'.processes[pid], h', pid)
  {
    assert OwnRow(s.processes[pid], h, pid);
    StepIsFramed(s, pid, answer);
    var p' := Step(s, pid, answer).processes[pid];
    if Held(p').Some? {
      assert Owns(p', Held(p').value.0);
    }
  }

  // ---------------------------------------------------------------- over runs

  lemma PastsStayOk(s: State, h: History, pid: nat, answer: Answer, q: nat)
    requires Inv(s) && HistoryOk(s, h) && pid < |s.processes| && q < |s.processes|
    ensures var s', h' := Step(s, pid, answer), Remember(s, h, Advance(pid, answer));
            q < |s'.processes| && PastOk(s', s'.processes[q], h'.pasts[q]) && OwnRow(s'.processes[q], h', q)
  {
    StepIsFramed(s, pid, answer);
    if q == pid {
      OwnStepOk(s, pid, answer, h.pasts[pid]);
      OwnRowKept(s, h, pid, answer);
    } else {
      OthersStayOk(s, pid, Step(s, pid, answer), q, h.pasts[q]);
      assert OwnRow(s.processes[q], h, q);
    }
  }

  lemma RowsStayOk(s: State, h: History, pid: nat, answer: Answer, id: nat)
    requires Inv(s) && HistoryOk(s, h) && pid < |s.processes| && id < |Step(s, pid, answer).ledger.refunds|
    ensures var h' := Remember(s, h, Advance(pid, answer));
            |h'.makers| == |Step(s, pid, answer).ledger.refunds| && RowOk(Step(s, pid, answer), h', id)
  {
    StepIsFramed(s, pid, answer);
    if id < |s.ledger.refunds| {
      assert RowOk(s, h, id);
    } else {
      NewRowIsNamed(s, pid, answer, h.pasts[pid]);
    }
  }

  lemma AdvanceKeepsHistory(s: State, h: History, pid: nat, answer: Answer)
    requires Inv(s) && HistoryOk(s, h) && pid < |s.processes|
    ensures HistoryOk(Step(s, pid, answer), Remember(s, h, Advance(pid, answer)))
  {
    var s', h' := Step(s, pid, answer), Remember(s, h, Advance(pid, answer));
    StepIsFramed(s, pid, answer);
    forall q | 0 <= q < |s'.processes|
      ensures PastOk(s', s'.processes[q], h'.pasts[q]) && OwnRow(s'.processes[q], h', q)
    {
      PastsStayOk(s, h, pid, answer, q);
    }
    forall id | 0 <= id < |s'.ledger.refunds|
      ensures RowOk(s', h', id)
    {
      RowsStayOk(s, h, pid, answer, id);
    }
  }

  lemma StartKeepsHistory(s: State, h: History, e: Event)
    requires Inv(s) && HistoryOk(s, h) && !e.Advance?
    ensures HistoryOk(React(s, e), Remember(s, h, e))
  {
    var s', h' := React(s, e), Remember(s, h, e);
    forall q | 0 <= q < |s'.processes|
      ensures PastOk(s', s'.processes[q], h'.pasts[q])
    {
      if q < |s.processes| && s.processes[q].Done? && h.pasts[q].receipt.Some? {
        assert Unowned(s', h.pasts[q].receipt.value.id);
      }
    }
    forall id | 0 <= id < |s'.ledger.refunds|
      ensures RowOk(s', h', id)
    {
      assert RowOk(s, h, id);
    }
  }

  lemma {:induction false} RunKeepsHistory(amount: nat, schedule: seq<Event>)
    ensures HistoryOk(Run(Init(amount), schedule), HistoryOf(amount, schedule))
  {
    if schedule != [] {
      var n := |schedule| - 1;
      var s, h, e := Run(Init(amount), schedule[..n]), HistoryOf(amount, schedule[..n]), schedule[n];
      RunKeepsHistory(amount, schedule[..n]);
      RunKeepsInv(Init(amount), schedule[..n]);
      if !e.Advance? {
        StartKeepsHistory(s, h, e);
      } else if e.pid < |s.processes| {
        AdvanceKeepsHistory(s, h, e.pid, e.answer);
      }
    }
  }

  /** Over every schedule, each refund row has the amount that the call which made it was started with. */
  lemma RowsAreAsAskedFor(amount: nat, schedule: seq<Event>, id: nat)
    requires id < |Run(Init(amount), schedule).ledger.refunds|
    ensures var h := HistoryOf(amount, schedule);
            && id < |h.makers| && h.makers[id] < |h.pasts|
            && NamedBy(h.pasts[h.makers[id]].start, Run(Init(amount), schedule).ledger.refunds[id].amount)
  {
    RunKeepsHistory(amount, schedule);
    assert RowOk(Run(Init(amount), schedule), HistoryOf(amount, schedule), id);
  }

  /** Over every schedule, the answer decides the refund: a call that received `x` for the amount `requested`, and is
      done, has left its row
      - succeeded exactly if `x` matches in amount and currency and says so,
      - failed only if the provider threw or says so in a matching answer, canceled only if it says so in one,
      - pending exactly if `x` does not match or says neither, or a refused refund could not be released:
        three releases were lost. */
  lemma AnswerDecides(amount: nat, schedule: seq<Event>, pid: nat)
    requires var s, h := Run(Init(amount), schedule), HistoryOf(amount, schedule);
             && pid < |s.processes| && s.processes[pid] == Done
             && pid < |h.pasts| && h.pasts[pid].receipt.Some?
    ensures var s, past := Run(Init(amount), schedule), HistoryOf(amount, schedule).pasts[pid];
            var Receipt(id, requested, x) := past.receipt.value;
            && id < |s.ledger.refunds| && s.ledger.refunds[id].amount == requested && NamedBy(past.start, requested)
            && id < |HistoryOf(amount, schedule).makers| && HistoryOf(amount, schedule).makers[id] == pid
            && id < |s.asked| && (s.asked[id] == Refused <==> Refusing(x, requested))
            && var status := s.ledger.refunds[id].status;
               var gaveUp := past.lost == 3;
               && (status == Succeeded <==> Matches(x, requested) && x.status == Some(Succeeded))
               && (status == Failed <==>
                     !gaveUp && (x.Threw? || (Matches(x, requested) && x.status == Some(Failed))))
               && (status == Canceled <==> !gaveUp && Matches(x, requested) && x.status == Some(Canceled))
               && (gaveUp ==> x.Threw? || (Matches(x, requested) && x.status in {Some(Failed), Some(Canceled)}))
  {
    RunKeepsHistory(amount, schedule);
    var s, past := Run(Init(amount), schedule), HistoryOf(amount, schedule).pasts[pid];
    assert PastOk(s, s.processes[pid], past) && OwnRow(s.processes[pid], HistoryOf(amount, schedule), pid);
  }

  // ---------------------------------------------------------------- a call alone

  function Iterate<T>(f: T -> T, x: T, n: nat): T
    decreases n
  {
    if n == 0 then x else Iterate(f, f(x), n - 1)
  }

  lemma {:induction false} IterateOn<T>(f: T -> T, x: T, m: nat, n: nat)
    ensures Iterate(f, x, m + n) == Iterate(f, Iterate(f, x, m), n)
    decreases m
  {
    if m > 0 {
      IterateOn(f, f(x), m - 1, n);
    }
  }

  lemma {:induction false} FixedPoint<T>(f: T -> T, x: T, n: nat)
    requires f(x) == x
    ensures Iterate(f, x, n) == x
    decreases n
  {
    if n > 0 {
      FixedPoint(f, x, n - 1);
    }
  }

  /** `n` steps of one call. */
  function Ticks(s: State, pid: nat, n: nat): State {
    Iterate(Tick(pid), s, n)
  }

  function Tick(pid: nat): State -> State {
    (s: State) => React(s, Advance(pid, Threw))
  }

  /** What `handle` asks for before anything is reserved. */
  predicate Eligible(l: Ledger, want: Option<int>) {
    && (want.Some? ==> 0 < want.value <= l.payment.amount - l.payment.refundedAmount)
    && l.payment.refundedAmount < l.payment.amount
    && l.payment.status in {P.Succeeded, P.PartiallyRefunded}
    && forall r | r in l.refunds :: r.status != Pending
  }

  lemma CheckedAlone(s: State, pid: nat, want: Option<int>)
    requires pid < |s.processes| && s.processes[pid] == CheckPayment(want)
    ensures Ticks(s, pid, 2) == Goto(s, pid, if Eligible(s.ledger, want) then ReadToReserve(want, 0) else Done)
  {
    var first := React(s, Advance(pid, Threw));
    if !first.processes[pid].Done? {
      assert first == Goto(s, pid, CheckPending(want, s.ledger.payment));
    }
    assert Ticks(s, pid, 2) == Ticks(first, pid, 1) == Ticks(React(first, Advance(pid, Threw)), pid, 0);
  }

  /** What is asked for: the amount named, or all that remains. */
  function AskedFor(l: Ledger, want: Option<int>): int {
    if want.Some? then want.value else l.payment.amount - l.payment.refundedAmount
  }

  lemma ReservedAlone(s: State, pid: nat, want: Option<int>)
    requires pid < |s.processes| && s.processes[pid] == ReadToReserve(want, 0) && Eligible(s.ledger, want)
    ensures var requested := AskedFor(s.ledger, want);
            var after := Ticks(s, pid, 2);
            && after.processes == s.processes[pid := CallProvider(|s.ledger.refunds|, requested)]
            && after.ledger.refunds == s.ledger.refunds + [RefundRow(requested, Pending)]
            && after.ledger.payment.refundedAmount == s.ledger.payment.refundedAmount + requested
            && after.asked == s.asked + [NotAsked]
  {
    ReservePlanMeans(s.ledger.payment, want);
    var first := React(s, Advance(pid, Threw));
    assert first == Goto(s, pid, SwapToReserve(want, 0, s.ledger.payment));
    assert Ticks(s, pid, 2) == Ticks(first, pid, 1) == Ticks(React(first, Advance(pid, Threw)), pid, 0);
  }

  lemma AskedAlone(s: State, pid: nat, asked: seq<Ask>)
    requires pid < |s.processes| && s.processes[pid].CallProvider? && s.processes[pid].id == |asked|
    requires s.asked == asked + [NotAsked]
    ensures var p := s.processes[pid];
            Ticks(s, pid, 1) ==
              State(s.ledger, s.processes[pid := AwaitProvider(p.id, p.requested)], asked + [InFlight])
  {
    assert Ticks(s, pid, 1) == Ticks(React(s, Advance(pid, Threw)), pid, 0);
    assert (asked + [NotAsked])[|asked| := InFlight] == asked + [InFlight];
  }

  lemma FromReadToAwait(s: State, pid: nat, want: Option<int>)
    requires pid < |s.processes| && s.processes[pid] == ReadToReserve(want, 0) && Eligible(s.ledger, want)
    requires |s.asked| == |s.ledger.refunds|
    ensures var requested := AskedFor(s.ledger, want);
            var after := Ticks(s, pid, 3);
            && after.processes == s.processes[pid := AwaitProvider(|s.ledger.refunds|, requested)]
            && after.ledger.refunds == s.ledger.refunds + [RefundRow(requested, Pending)]
            && after.ledger.payment.refundedAmount == s.ledger.payment.refundedAmount + requested
            && after.asked == s.asked + [InFlight]
  {
    IterateOn(Tick(pid), s, 2, 1);
    ReservedAlone(s, pid, want);
    AskedAlone(Ticks(s, pid, 2), pid, s.asked);
  }

  /** A call that runs alone asks the provider for the amount it was started with, or else for all that remains, if the
      payment is refundable for it and has no pending refund. */
  lemma EligibleCallReachesProvider(s: State, want: Option<int>)
    requires |s.asked| == |s.ledger.refunds| && Eligible(s.ledger, want)
    ensures var pid, requested := |s.processes|, AskedFor(s.ledger, want);
            var after := Ticks(React(s, StartRefund(want)), pid, 5);
            && after.processes == s.processes + [AwaitProvider(|s.ledger.refunds|, requested)]
            && after.ledger.refunds == s.ledger.refunds + [RefundRow(requested, Pending)]
            && after.ledger.payment.refundedAmount == s.ledger.payment.refundedAmount + requested
            && after.asked == s.asked + [InFlight]
  {
    var pid := |s.processes|;
    var start := React(s, StartRefund(want));
    IterateOn(Tick(pid), start, 2, 3);
    CheckedAlone(start, pid, want);
    var checked := Ticks(start, pid, 2);
    FromReadToAwait(checked, pid, want);
    assert checked.processes == s.processes + [ReadToReserve(want, 0)];
  }

  /** Otherwise it stops without asking, and changes nothing. */
  lemma IneligibleCallStops(s: State, want: Option<int>)
    requires !Eligible(s.ledger, want)
    ensures var after := Ticks(React(s, StartRefund(want)), |s.processes|, 5);
            after == State(s.ledger, s.processes + [Done], s.asked)
  {
    var pid := |s.processes|;
    var start := React(s, StartRefund(want));
    IterateOn(Tick(pid), start, 2, 3);
    CheckedAlone(start, pid, want);
    FixedPoint(Tick(pid), Ticks(start, pid, 2), 3);
  }
}

/** The fixed-window limiter on mutation requests (src/presentation/shared/subscription-migration-boundary.ts). */
module RateLimiter {
  import opened Wrappers

  datatype Window = Window(count: nat, resetsAt: int)

  datatype Limits = Limits(max: nat, windowMs: nat)

  datatype Request = Request(at: int, key: string)

  const DEFAULT_LIMITS := Limits(100, 60_000)
  const PRUNE_ABOVE := 1_024

  /** A configured value counts only if it is a positive integer; None stands for anything else. */
  function PositiveInteger(value: Option<int>, fallback: nat): (r: nat)
    requires fallback > 0
    ensures value.Some? && value.value > 0 ==> r == value.value
    ensures value.None? || value.value <= 0 ==> r == fallback
  {
    if value.Some? && value.value > 0 then value.value else fallback
  }

  // ---------------------------------------------------------------- one request, as a function of the windows

  predicate Open(windows: map<string, Window>, now: int, key: string) {
    key in windows && windows[key].resetsAt > now
  }

  predicate Accepts(limits: Limits, windows: map<string, Window>, r: Request) {
    Open(windows, r.at, r.key) ==> windows[r.key].count < limits.max
  }

  function Pruned(windows: map<string, Window>, now: int): map<string, Window> {
    if |windows| <= PRUNE_ABOVE then windows
    else map k | k in windows && windows[k].resetsAt > now :: windows[k]
  }

  function Served(limits: Limits, pruning: bool, windows: map<string, Window>, r: Request): map<string, Window> {
    if !Open(windows, r.at, r.key) then
      var renewed := windows[r.key := Window(1, r.at + limits.windowMs)];
      if pruning then Pruned(renewed, r.at) else renewed
    else if windows[r.key].count >= limits.max then windows
    else windows[r.key := windows[r.key].(count := windows[r.key].count + 1)]
  }

  class MutationBoundary {
    var windows: map<string, Window>
    const limits: Limits

    constructor (max: Option<int>, windowMs: Option<int>)
      ensures windows == map[]
      ensures limits.max == PositiveInteger(max, 100) && limits.windowMs == PositiveInteger(windowMs, 60_000)
    {
      windows := map[];
      limits := Limits(PositiveInteger(max, DEFAULT_LIMITS.max), PositiveInteger(windowMs, DEFAULT_LIMITS.windowMs));
    }

    /** Serves the request at time `now`, or rejects it where the program throws. */
    method Consume(now: int, key: string) returns (accepted: bool)
      modifies this
      ensures accepted <==> Accepts(limits, old(windows), Request(now, key))
      ensures windows == Served(limits, true, old(windows), Request(now, key))
    {
      if key !in windows || windows[key].resetsAt <= now {
        windows := windows[key := Window(1, now + limits.windowMs)];
        Prune(now);
        return true;
      }
      var current := windows[key];
      if current.count >= limits.max {
        return false;
      }
      windows := windows[key := current.(count := current.count + 1)];
      return true;
    }

    method Prune(now: int)
      modifies this
      ensures windows == Pruned(old(windows), now)
    {
      if |windows| <= PRUNE_ABOVE {
        return;
      }
      var rest := windows.Keys;
      while rest != {}
        invariant rest <= old(windows).Keys
        invariant windows.Keys == set k | k in old(windows) && (k in rest || old(windows)[k].resetsAt > now)
        invariant forall k | k in windows :: windows[k] == old(windows)[k]
        decreases |rest|
      {
        var key :| key in rest;
        rest := rest - {key};
        if windows[key].resetsAt <= now {
          windows := windows - {key};
        }
      }
    }
  }

  // ---------------------------------------------------------------- whole runs

  predicate NonDecreasing(rs: seq<Request>) {
    forall i, j | 0 <= i < j < |rs| :: rs[i].at <= rs[j].at
  }

  function After(limits: Limits, pruning: bool, rs: seq<Request>): map<string, Window> {
    if rs == [] then map[]
    else Served(limits, pruning, After(limits, pruning, rs[..|rs| - 1]), rs[|rs| - 1])
  }

  /** The decision on each request of a run. */
  function Decisions(limits: Limits, pruning: bool, rs: seq<Request>): (ds: seq<bool>)
    ensures |ds| == |rs|
  {
    if rs == [] then []
    else
      var before := After(limits, pruning, rs[..|rs| - 1]);
      Decisions(limits, pruning, rs[..|rs| - 1]) + [Accepts(limits, before, rs[|rs| - 1])]
  }

  // ---------------------------------------------------------------- pruning changes no decision

  /** Pruning has dropped nothing but windows closed by `now`. */
  ghost predicate SameOpen(pruned: map<string, Window>, full: map<string, Window>, now: int) {
    && (forall k | k in pruned :: k in full && pruned[k] == full[k])
    && (forall k | k in full && full[k].resetsAt > now :: k in pruned)
  }

  lemma ServedKeepsSameOpen(limits: Limits, pruned: map<string, Window>, full: map<string, Window>, last: int,
                            r: Request)
    requires SameOpen(pruned, full, last) && last <= r.at
    ensures Accepts(limits, pruned, r) <==> Accepts(limits, full, r)
    ensures SameOpen(Served(limits, true, pruned, r), Served(limits, false, full, r), r.at)
  {
    assert Open(pruned, r.at, r.key) <==> Open(full, r.at, r.key);
  }

  lemma {:induction false} RunKeepsSameOpen(limits: Limits, rs: seq<Request>, now: int)
    requires NonDecreasing(rs) && (rs != [] ==> rs[|rs| - 1].at <= now)
    ensures SameOpen(After(limits, true, rs), After(limits, false, rs), now)
    ensures Decisions(limits, true, rs) == Decisions(limits, false, rs)
  {
    if rs != [] {
      var prefix, r := rs[..|rs| - 1], rs[|rs| - 1];
      RunKeepsSameOpen(limits, prefix, r.at);
      ServedKeepsSameOpen(limits, After(limits, true, prefix), After(limits, false, prefix), r.at, r);
    }
  }

  /** The limiter decides as one that never forgets a window. */
  lemma PruningIsInvisible(limits: Limits, rs: seq<Request>)
    requires NonDecreasing(rs)
    ensures Decisions(limits, true, rs) == Decisions(limits, false, rs)
  {
    if rs != [] {
      RunKeepsSameOpen(limits, rs, rs[|rs| - 1].at);
    }
  }

  /** The limiter does forget: once it opens a window it holds at most 1024 windows, or open ones only;
      and it forgets nothing while it holds no more than that. */
  lemma ForgetsAbove1024(limits: Limits, windows: map<string, Window>, r: Request)
    requires limits.windowMs >= 1 && !Open(windows, r.at, r.key)
    ensures var served := Served(limits, true, windows, r);
            && (|served| <= 1024 || forall k | k in served :: served[k].resetsAt > r.at)
            && (|windows| < 1024 ==> served == windows[r.key := Window(1, r.at + limits.windowMs)])
  {
    var renewed := windows[r.key := Window(1, r.at + limits.windowMs)];
    assert renewed.Keys == windows.Keys + {r.key};
    assert |renewed| == |renewed.Keys| && |windows| == |windows.Keys|;
  }

  // ---------------------------------------------------------------- the bound

  /** The accepted requests for `key` at or after `from` and before `to`. */
  function AcceptedIn(rs: seq<Request>, ds: seq<bool>, key: string, from: int, to: int): nat
    requires |ds| == |rs|
  {
    if rs == [] then 0
    else
      var n := |rs| - 1;
      AcceptedIn(rs[..n], ds[..n], key, from, to)
      + if ds[n] && rs[n].key == key && from <= rs[n].at < to then 1 else 0
  }

  /** What the current window of `key` tells about the requests accepted in the interval from `a`:
      a window opened before `a` spent its first request outside; one opened inside closed such a window. */
  ghost predicate Bounded(limits: Limits, windows: map<string, Window>, key: string, a: int, last: int, accepted: nat) {
    && (last < a ==> accepted == 0)
    && (key !in windows ==> accepted == 0)
    && (key in windows ==>
          var w := windows[key];
          var start := w.resetsAt - limits.windowMs;
          && start <= last && 1 <= w.count <= limits.max
          && (start < a ==> accepted <= w.count - 1)
          && (a <= start < a + limits.windowMs ==> accepted <= limits.max - 1 + w.count)
          && accepted <= 2 * limits.max - 1)
  }

  lemma ServedKeepsBounded(limits: Limits, windows: map<string, Window>, key: string, a: int, last: int, accepted: nat,
                           r: Request)
    requires limits.max >= 1 && limits.windowMs >= 1
    requires Bounded(limits, windows, key, a, last, accepted) && last <= r.at
    ensures var one := if Accepts(limits, windows, r) && r.key == key && a <= r.at < a + limits.windowMs then 1 else 0;
            Bounded(limits, Served(limits, false, windows, r), key, a, r.at, accepted + one)
  {
  }

  lemma {:induction false} RunKeepsBounded(limits: Limits, rs: seq<Request>, key: string, a: int)
    requires limits.max >= 1 && limits.windowMs >= 1 && NonDecreasing(rs)
    ensures var accepted := AcceptedIn(rs, Decisions(limits, false, rs), key, a, a + limits.windowMs);
            Bounded(limits, After(limits, false, rs), key, a, if rs == [] then a - 1 else rs[|rs| - 1].at, accepted)
  {
    if rs != [] {
      var n := |rs| - 1;
      var prefix := rs[..n];
      RunKeepsBounded(limits, prefix, key, a);
      var ds := Decisions(limits, false, rs);
      assert ds[..n] == Decisions(limits, false, prefix);
      var accepted := AcceptedIn(prefix, ds[..n], key, a, a + limits.windowMs);
      var windows := After(limits, false, prefix);
      if prefix == [] {
        assert Bounded(limits, windows, key, a, rs[n].at, accepted);
        ServedKeepsBounded(limits, windows, key, a, rs[n].at, accepted, rs[n]);
      } else {
        ServedKeepsBounded(limits, windows, key, a, prefix[n - 1].at, accepted, rs[n]);
      }
    }
  }

  /** In any half-open interval as long as a window, a key has at most 2·max - 1 requests accepted. */
  lemma AtMostTwiceMax(limits: Limits, rs: seq<Request>, key: string, a: int)
    requires limits.max >= 1 && limits.windowMs >= 1 && NonDecreasing(rs)
    ensures AcceptedIn(rs, Decisions(limits, true, rs), key, a, a + limits.windowMs) <= 2 * limits.max - 1
  {
    PruningIsInvisible(limits, rs);
    RunKeepsBounded(limits, rs, key, a);
  }

  // ---------------------------------------------------------------- no request is rejected too early

  /** The count of a window is of requests accepted since it opened. */
  ghost predicate Earned(limits: Limits, windows: map<string, Window>, key: string, rs: seq<Request>, ds: seq<bool>,
                         to: int)
    requires |ds| == |rs|
  {
    key in windows ==> AcceptedIn(rs, ds, key, windows[key].resetsAt - limits.windowMs, to) >= windows[key].count
  }

  lemma ServedKeepsEarned(limits: Limits, windows: map<string, Window>, key: string, rs: seq<Request>, ds: seq<bool>,
                          to: int, r: Request)
    requires |ds| == |rs| && NonDecreasing(rs + [r]) && r.at < to
    requires Earned(limits, windows, key, rs, ds, to)
    requires forall k | k in windows :: windows[k].resetsAt - limits.windowMs <= r.at
    ensures Earned(limits, Served(limits, false, windows, r), key, rs + [r], ds + [Accepts(limits, windows, r)], to)
  {
    var rs', ds' := rs + [r], ds + [Accepts(limits, windows, r)];
    assert rs'[..|rs|] == rs && ds'[..|rs|] == ds;
  }

  lemma {:induction false} RunKeepsEarned(limits: Limits, rs: seq<Request>, key: string, to: int)
    requires NonDecreasing(rs) && (rs != [] ==> rs[|rs| - 1].at < to)
    ensures Earned(limits, After(limits, false, rs), key, rs, Decisions(limits, false, rs), to)
    ensures rs != [] ==> forall k | k in After(limits, false, rs) ::
              After(limits, false, rs)[k].resetsAt - limits.windowMs <= rs[|rs| - 1].at
  {
    if rs != [] {
      var prefix, r := rs[..|rs| - 1], rs[|rs| - 1];
      RunKeepsEarned(limits, prefix, key, to);
      assert rs == prefix + [r];
      ServedKeepsEarned(limits, After(limits, false, prefix), key, prefix, Decisions(limits, false, prefix), to, r);
    }
  }

  lemma {:induction false} LongerIntervalHoldsMore(rs: seq<Request>, ds: seq<bool>, key: string, from: int,
                                                   from': int, to: int)
    requires |ds| == |rs| && from <= from'
    ensures AcceptedIn(rs, ds, key, from', to) <= AcceptedIn(rs, ds, key, from, to)
  {
    if rs != [] {
      LongerIntervalHoldsMore(rs[..|rs| - 1], ds[..|rs| - 1], key, from, from', to);
    }
  }

  lemma PrefixNonDecreasing(rs: seq<Request>, r: Request)
    requires NonDecreasing(rs + [r])
    ensures NonDecreasing(rs) && (rs != [] ==> rs[|rs| - 1].at <= r.at)
  {
    var all := rs + [r];
    assert forall i | 0 <= i < |rs| :: rs[i] == all[i];
    assert all[|rs|] == r;
  }

  lemma FullWindow(limits: Limits, windows: map<string, Window>, rs: seq<Request>, ds: seq<bool>, r: Request)
    requires |ds| == |rs| && Earned(limits, windows, r.key, rs, ds, r.at + 1)
    requires !Accepts(limits, windows, r)
    ensures AcceptedIn(rs, ds, r.key, r.at - limits.windowMs + 1, r.at + 1) >= limits.max
  {
    LongerIntervalHoldsMore(rs, ds, r.key, r.at - limits.windowMs + 1,
                            windows[r.key].resetsAt - limits.windowMs, r.at + 1);
  }

  /** A request is rejected only if `max` others of its key were accepted within the windowMs up to it. */
  lemma RejectedOnlyWhenFull(limits: Limits, rs: seq<Request>, r: Request)
    requires NonDecreasing(rs + [r])
    requires !Accepts(limits, After(limits, true, rs), r)
    ensures AcceptedIn(rs, Decisions(limits, true, rs), r.key, r.at - limits.windowMs + 1, r.at + 1) >= limits.max
  {
    PrefixNonDecreasing(rs, r);
    RunKeepsSameOpen(limits, rs, r.at);
    ServedKeepsSameOpen(limits, After(limits, true, rs), After(limits, false, rs), r.at, r);
    RunKeepsEarned(limits, rs, r.key, r.at + 1);
    FullWindow(limits, After(limits, false, rs), rs, Decisions(limits, false, rs), r);
  }
}

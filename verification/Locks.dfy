/** The in-memory lock with expiry and owner tokens (src/infrastructure/locks/memory-lock-driver.ts).
    Clock readings and random tokens are parameters. */
module Locks {
  import opened Wrappers

  datatype Held = Held(token: string, expiresAt: int)

  /** One call. An acquire reads the clock to judge the present holder, and again to set its own expiry. */
  datatype Call =
    | Acquire(key: string, ttlMs: int, checkedAt: int, setAt: int, token: string)
    | Release(key: string, token: string)

  // ---------------------------------------------------------------- one call, as a function of the entries

  predicate Free(held: map<string, Held>, key: string, now: int) {
    key in held ==> held[key].expiresAt <= now
  }

  function Step(held: map<string, Held>, c: Call): map<string, Held> {
    match c
    case Acquire(key, ttlMs, checkedAt, setAt, token) =>
      if Free(held, key, checkedAt) then held[key := Held(token, setAt + ttlMs)] else held
    case Release(key, token) =>
      if key in held && held[key].token == token then held - {key} else held
  }

  function After(held: map<string, Held>, calls: seq<Call>): map<string, Held> {
    if calls == [] then held else Step(After(held, calls[..|calls| - 1]), calls[|calls| - 1])
  }

  class MemoryLockDriver {
    var held: map<string, Held>

    constructor ()
      ensures held == map[]
    {
      held := map[];
    }

    method Acquire(key: string, ttlMs: int, checkedAt: int, setAt: int, token: string) returns (acquired: bool)
      modifies this
      ensures acquired <==> Free(old(held), key, checkedAt)
      ensures held == Step(old(held), Call.Acquire(key, ttlMs, checkedAt, setAt, token))
    {
      if key in held && held[key].expiresAt > checkedAt {
        return false;
      }
      held := held[key := Held(token, setAt + ttlMs)];
      return true;
    }

    method Release(key: string, token: string)
      modifies this
      ensures held == Step(old(held), Call.Release(key, token))
    {
      if key in held && held[key].token == token {
        held := held - {key};
      }
    }

    /** The calls of other holders while this one works. */
    method Interleave(calls: seq<Call>)
      modifies this
      ensures held == After(old(held), calls)
    {
      for i := 0 to |calls|
        invariant held == After(old(held), calls[..i])
      {
        assert calls[..i + 1][..i] == calls[..i];
        match calls[i]
        case Acquire(key, ttlMs, checkedAt, setAt, token) => var _ := Acquire(key, ttlMs, checkedAt, setAt, token);
        case Release(key, token) => Release(key, token);
      }
      assert calls[..|calls|] == calls;
    }

    /** `work` is its result, or its error, and what others do to the locks meanwhile. */
    method WithLock<T, E>(lock: Call, work: Result<T, E>, others: seq<Call>) returns (r: Option<Result<T, E>>)
      requires lock.Acquire?
      requires forall k | k in held :: held[k].token != lock.token
      requires forall c | c in others :: c.token != lock.token
      modifies this
      ensures r == if Free(old(held), lock.key, lock.checkedAt) then Some(work) else None
      ensures r.None? ==> held == old(held)
      ensures r.Some? ==> held == Step(After(Step(old(held), lock), others), Call.Release(lock.key, lock.token))
      ensures forall k | k in held :: held[k].token != lock.token
    {
      var acquired := Acquire(lock.key, lock.ttlMs, lock.checkedAt, lock.setAt, lock.token);
      if !acquired {
        return None;
      }
      Interleave(others);
      OthersLeaveTokenInPlace(Step(old(held), lock), others, lock.key, lock.token);
      Release(lock.key, lock.token);
      return Some(work);
    }
  }

  /** Whatever others do, a token stays under its own key, if anywhere. */
  lemma {:induction false} OthersLeaveTokenInPlace(held: map<string, Held>, others: seq<Call>, key: string,
                                                   token: string)
    requires forall k | k in held && held[k].token == token :: k == key
    requires forall c | c in others :: c.token != token
    ensures forall k | k in After(held, others) && After(held, others)[k].token == token :: k == key
  {
    if others != [] {
      OthersLeaveTokenInPlace(held, others[..|others| - 1], key, token);
      assert others[|others| - 1] in others;
    }
  }

  // ---------------------------------------------------------------- whole runs, from no locks

  function HeldAfter(calls: seq<Call>): map<string, Held> {
    After(map[], calls)
  }

  predicate Acquired(calls: seq<Call>, i: nat) {
    i < |calls| && calls[i].Acquire? && Free(HeldAfter(calls[..i]), calls[i].key, calls[i].checkedAt)
  }

  function Expiry(c: Call): int
    requires c.Acquire?
  {
    c.setAt + c.ttlMs
  }

  /** Call `i` is not undone by its own release before call `n`. */
  predicate Unreleased(calls: seq<Call>, i: nat, n: nat)
    requires i < n <= |calls|
  {
    forall m | i < m < n :: calls[m] != Release(calls[i].key, calls[i].token)
  }

  /** The lock taken by call `i` is still its holder's at time `now`. */
  predicate Live(calls: seq<Call>, i: nat, now: int) {
    Acquired(calls, i) && Unreleased(calls, i, |calls|) && now < Expiry(calls[i])
  }

  /** The clock never goes back, within a call or between two. */
  predicate ClockRuns(calls: seq<Call>) {
    && (forall i | 0 <= i < |calls| && calls[i].Acquire? :: calls[i].checkedAt <= calls[i].setAt)
    && (forall i, j | 0 <= i < j < |calls| && calls[i].Acquire? && calls[j].Acquire? ::
          calls[i].setAt <= calls[j].checkedAt)
  }

  predicate UniqueTokens(calls: seq<Call>) {
    forall i, j | 0 <= i < j < |calls| && calls[i].Acquire? && calls[j].Acquire? :: calls[i].token != calls[j].token
  }

  /** A lock stays its holder's until released by that holder or expired, whatever the others call. */
  lemma {:induction false} LockIsKept(calls: seq<Call>, i: nat, n: nat)
    requires i < n <= |calls| && Acquired(calls, i) && Unreleased(calls, i, n)
    requires forall m | i < m < n && calls[m].Acquire? && calls[m].key == calls[i].key ::
               calls[m].checkedAt < Expiry(calls[i])
    ensures var held := HeldAfter(calls[..n]);
            calls[i].key in held && held[calls[i].key] == Held(calls[i].token, Expiry(calls[i]))
  {
    assert calls[..n][..n - 1] == calls[..n - 1];
    if n > i + 1 {
      LockIsKept(calls, i, n - 1);
    }
  }

  /** Two locks on one key follow each other: the later is taken after the release or the expiry of the earlier. */
  lemma HoldersFollowEachOther(calls: seq<Call>, i: nat, j: nat)
    requires ClockRuns(calls)
    requires i < j && Acquired(calls, i) && Acquired(calls, j) && calls[i].key == calls[j].key
    ensures !Unreleased(calls, i, j) || Expiry(calls[i]) <= calls[j].checkedAt
  {
    if Unreleased(calls, i, j) && calls[j].checkedAt < Expiry(calls[i]) {
      LockIsKept(calls, i, j);
    }
  }

  /** At any time from the latest clock reading on, a key has at most one live holder. */
  lemma OneLiveHolder(calls: seq<Call>, i: nat, j: nat, now: int)
    requires ClockRuns(calls) && forall m | 0 <= m < |calls| && calls[m].Acquire? :: calls[m].setAt <= now
    requires Live(calls, i, now) && Live(calls, j, now) && calls[i].key == calls[j].key
    ensures i == j
  {
    if i < j {
      HoldersFollowEachOther(calls, i, j);
    } else if j < i {
      HoldersFollowEachOther(calls, j, i);
    }
  }

  /** An earlier holder's release, coming late, does not end the lock of a later one. */
  lemma StaleReleaseIsHarmless(calls: seq<Call>, i: nat, j: nat, now: int)
    requires UniqueTokens(calls)
    requires i != j && Acquired(calls, i) && Live(calls, j, now) && calls[i].key == calls[j].key
    ensures Live(calls + [Release(calls[i].key, calls[i].token)], j, now)
  {
    var longer := calls + [Release(calls[i].key, calls[i].token)];
    assert longer[..j] == calls[..j];
    assert calls[i].token != calls[j].token;
  }

  /** Every entry is the lock of some call whose holder has not released it. */
  lemma {:induction false} EntryHasHolder(calls: seq<Call>, key: string) returns (i: nat)
    requires key in HeldAfter(calls)
    ensures Acquired(calls, i) && Unreleased(calls, i, |calls|) && calls[i].key == key
    ensures HeldAfter(calls)[key] == Held(calls[i].token, Expiry(calls[i]))
  {
    var n := |calls| - 1;
    if Acquired(calls, n) && calls[n].key == key {
      i := n;
    } else {
      i := EntryHasHolder(calls[..n], key);
      assert calls[..n][..i] == calls[..i];
      assert forall m | i < m < n :: calls[m] == calls[..n][m];
    }
  }

  /** An acquire is refused exactly when the key has a live holder. */
  lemma RefusedIffHeld(calls: seq<Call>, key: string, now: int)
    requires ClockRuns(calls) && forall m | 0 <= m < |calls| && calls[m].Acquire? :: calls[m].setAt <= now
    ensures !Free(HeldAfter(calls), key, now) <==> exists i: nat :: Live(calls, i, now) && calls[i].key == key
  {
    if !Free(HeldAfter(calls), key, now) {
      var i := EntryHasHolder(calls, key);
      assert Live(calls, i, now);
    }
    if i: nat :| Live(calls, i, now) && calls[i].key == key {
      LockIsKept(calls, i, |calls|);
      assert calls[..|calls|] == calls;
    }
  }
}

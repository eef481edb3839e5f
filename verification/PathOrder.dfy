/** The order in which a search prefers paths: by the first event where they differ, in the order of the arcs. */
module PathOrder {
  import opened Wrappers
  import opened Transitions

  /** Where an event stands among arcs. */
  function Position<S(==), E(==)>(arcs: seq<Arc<S, E>>, event: E): (n: nat)
    ensures n <= |arcs|
  {
    if arcs == [] || arcs[0].event == event then 0 else 1 + Position(arcs[1..], event)
  }

  lemma {:induction false} PositionOfArc<S, E>(arcs: seq<Arc<S, E>>, i: nat)
    requires DistinctEvents(arcs) && i < |arcs|
    ensures Position(arcs, arcs[i].event) == i
  {
    if i > 0 {
      PositionOfArc(arcs[1..], i - 1);
    }
  }

  /** `p` and `q` part at event `n`, where `p` takes the earlier arc. */
  ghost predicate PartAt<S(!new), E(!new)>(m: TransitionMap<S, E>, from: S, p: seq<E>, q: seq<E>, n: nat) {
    && n < |p| && n < |q| && p[..n] == q[..n]
    && match Replay(m, from, p[..n])
       case None => false
       case Some(s) => Position(Arcs(m, s), p[n]) < Position(Arcs(m, s), q[n])
  }

  ghost predicate Earlier<S(!new), E(!new)>(m: TransitionMap<S, E>, from: S, p: seq<E>, q: seq<E>) {
    exists n: nat :: PartAt(m, from, p, q, n)
  }

  /** No path of the same length to `to` comes before `path`. */
  ghost predicate Least<S(!new), E(!new)>(m: TransitionMap<S, E>, from: S, to: S, path: seq<E>) {
    forall q | Replay(m, from, q) == Some(to) && |q| == |path| :: q == path || Earlier(m, from, path, q)
  }

  lemma EarlierTransitive<S(!new), E(!new)>(m: TransitionMap<S, E>, from: S, p: seq<E>, q: seq<E>, r: seq<E>)
    requires Earlier(m, from, p, q) && Earlier(m, from, q, r)
    ensures Earlier(m, from, p, r)
  {
    var i: nat :| PartAt(m, from, p, q, i);
    var j: nat :| PartAt(m, from, q, r, j);
    var n := if i < j then i else j;
    assert p[..n] == p[..i][..n] == q[..i][..n] == q[..n];
    assert r[..n] == r[..j][..n] == q[..j][..n] == q[..n];
    if i < j {
      assert q[i] == q[..j][i] == r[..j][i] == r[i];
    } else if j < i {
      assert p[j] == p[..i][j] == q[..i][j] == q[j];
    }
    assert PartAt(m, from, p, r, n);
  }

  lemma EarlierExtends<S(!new), E(!new)>(m: TransitionMap<S, E>, from: S, p: seq<E>, q: seq<E>, e: E, f: E)
    requires Earlier(m, from, p, q)
    ensures Earlier(m, from, p + [e], q + [f])
  {
    var n: nat :| PartAt(m, from, p, q, n);
    assert (p + [e])[..n] == p[..n] && (q + [f])[..n] == q[..n];
    assert PartAt(m, from, p + [e], q + [f], n);
  }

  lemma EarlierByLast<S(!new), E(!new)>(m: TransitionMap<S, E>, from: S, p: seq<E>, s: S, e: E, f: E)
    requires Replay(m, from, p) == Some(s) && Position(Arcs(m, s), e) < Position(Arcs(m, s), f)
    ensures Earlier(m, from, p + [e], p + [f])
  {
    assert (p + [e])[..|p|] == p && (p + [f])[..|p|] == p;
    assert PartAt(m, from, p + [e], p + [f], |p|);
  }
}

/** Generic transition maps (src/domain/states/transition.ts).
    The entries of one state keep the order in which the program enumerates them. */
module Transitions {
  import opened Wrappers

  datatype Arc<S, E> = Arc(event: E, target: S)

  type TransitionMap<S(==), E(==)> = map<S, seq<Arc<S, E>>>

  /** An object literal has each event at most once per state. */
  predicate WellFormed<S(==), E(==)>(m: TransitionMap<S, E>) {
    forall s | s in m :: DistinctEvents(m[s])
  }

  predicate DistinctEvents<S(==), E(==)>(arcs: seq<Arc<S, E>>) {
    forall i, j | 0 <= i < j < |arcs| :: arcs[i].event != arcs[j].event
  }

  function Arcs<S(==), E(==)>(m: TransitionMap<S, E>, s: S): seq<Arc<S, E>> {
    if s in m then m[s] else []
  }

  function Lookup<S(==), E(==)>(arcs: seq<Arc<S, E>>, event: E): (r: Option<S>)
    ensures r.Some? ==> Arc(event, r.value) in arcs
    ensures r.None? ==> forall a | a in arcs :: a.event != event
  {
    if arcs == [] then None
    else if arcs[0].event == event then Some(arcs[0].target)
    else Lookup(arcs[1..], event)
  }

  /** `applyTransition`: the next state, or None where the program throws. */
  function ApplyTransition<S(==), E(==)>(m: TransitionMap<S, E>, from: S, event: E): Option<S> {
    Lookup(Arcs(m, from), event)
  }

  predicate CanTransition<S(==), E(==)>(m: TransitionMap<S, E>, from: S, event: E) {
    ApplyTransition(m, from, event).Some?
  }

  /** With distinct events, the arcs of a state are exactly what `applyTransition` returns. */
  lemma {:induction false} LookupExact<S, E>(arcs: seq<Arc<S, E>>, event: E, target: S)
    requires DistinctEvents(arcs)
    ensures Lookup(arcs, event) == Some(target) <==> Arc(event, target) in arcs
  {
    if arcs != [] {
      LookupExact(arcs[1..], event, target);
      assert arcs == [arcs[0]] + arcs[1..];
      assert forall a :: a in arcs <==> a == arcs[0] || a in arcs[1..];
    }
  }

  /** Looking up an event among arcs with distinct events. */
  lemma LookupOf<S(!new), E(!new)>(arcs: seq<Arc<S, E>>, event: E)
    requires DistinctEvents(arcs)
    ensures forall i | 0 <= i < |arcs| :: arcs[i].event == event ==> Lookup(arcs, event) == Some(arcs[i].target)
    ensures (forall i | 0 <= i < |arcs| :: arcs[i].event != event) ==> Lookup(arcs, event) == None
  {
    forall i | 0 <= i < |arcs| && arcs[i].event == event
      ensures Lookup(arcs, event) == Some(arcs[i].target)
    {
      assert Arc(event, arcs[i].target) in arcs;
      LookupExact(arcs, event, arcs[i].target);
    }
  }

  /** `applyTransition` along a list of events. */
  function Replay<S(==), E(==)>(m: TransitionMap<S, E>, from: S, events: seq<E>): Option<S> {
    if events == [] then Some(from)
    else match Replay(m, from, events[..|events| - 1])
      case None => None
      case Some(s) => ApplyTransition(m, s, events[|events| - 1])
  }

  lemma {:induction false} ReplayCons<S(!new), E(!new)>(m: TransitionMap<S, E>, s: S, event: E, events: seq<E>)
    requires ApplyTransition(m, s, event).Some?
    ensures Replay(m, s, [event] + events) == Replay(m, ApplyTransition(m, s, event).value, events)
  {
    if events == [] {
      assert ([event] + events)[..0] == [] && [event] + events == [event];
      assert Replay(m, s, []) == Some(s);
    } else {
      var n := |events| - 1;
      assert ([event] + events)[..n + 1] == [event] + events[..n];
      ReplayCons(m, s, event, events[..n]);
    }
  }
}

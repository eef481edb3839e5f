/** Breadth-first search over any finite transition map
    (`shortestEventPath` and `reconstructPath` of src/domain/states/subscription-state-machine.ts). */
module ShortestPath {
  import opened Wrappers
  import opened Transitions
  import opened PathOrder

  datatype PathStep<S, E> = PathStep(status: S, event: E)

  /** Every state the search can see. */
  ghost function States<S(!new), E(!new)>(m: TransitionMap<S, E>, from: S): set<S> {
    {from} + set s, a | s in m && a in m[s] :: a.target
  }

  // ---------------------------------------------------------------- what the search knows

  /** Each visited state has its distance, and a predecessor one step closer. */
  ghost predicate Ranked<S, E>(m: TransitionMap<S, E>, from: S, visited: set<S>,
                                      predecessor: map<S, PathStep<S, E>>, dist: map<S, nat>)
  {
    && from in visited && dist.Keys == visited && dist[from] == 0 && predecessor.Keys == visited - {from}
    && forall s | s in predecessor ::
         var step := predecessor[s];
         step.status in visited && dist[s] == dist[step.status] + 1
         && ApplyTransition(m, step.status, step.event) == Some(s)
  }

  /** All successors of a visited state outside `open` are visited, at most one step further. */
  ghost predicate ClosedExcept<S(!new), E(!new)>(m: TransitionMap<S, E>, visited: set<S>, dist: map<S, nat>,
                                                 open: set<S>)
    requires dist.Keys == visited
  {
    forall s, a | s in visited && s !in open && a in Arcs(m, s) :: a.target in visited && dist[a.target] <= dist[s] + 1
  }

  /** Nothing is further than `low + 1`, and the queue holds nothing nearer than `low`, in order of distance. */
  ghost predicate Layered<S(!new)>(queue: seq<S>, dist: map<S, nat>, low: nat) {
    && (forall s | s in dist :: dist[s] <= low + 1)
    && (forall i | 0 <= i < |queue| :: queue[i] in dist && low <= dist[queue[i]])
    && (forall i, j | 0 <= i < j < |queue| :: dist[queue[i]] <= dist[queue[j]])
  }

  /** A path of any length either ends where the search already has it, or leads through the open states. */
  lemma {:induction false} PathsCrossOpen<S(!new), E(!new)>(m: TransitionMap<S, E>, from: S, visited: set<S>,
                                                predecessor: map<S, PathStep<S, E>>, dist: map<S, nat>,
                                                open: set<S>, events: seq<E>)
    requires Ranked(m, from, visited, predecessor, dist) && ClosedExcept(m, visited, dist, open)
    requires Replay(m, from, events).Some?
    ensures var t := Replay(m, from, events).value;
            || (t in visited && dist[t] <= |events|)
            || (exists s :: s in open && s in visited && dist[s] < |events|)
  {
    if events != [] {
      PathsCrossOpen(m, from, visited, predecessor, dist, open, events[..|events| - 1]);
      var s := Replay(m, from, events[..|events| - 1]).value;
      var event, t := events[|events| - 1], Replay(m, from, events).value;
      assert Arc(event, t) in Arcs(m, s);
    }
  }

  // ---------------------------------------------------------------- the search

  ghost predicate Shortest<S(!new), E(!new)>(m: TransitionMap<S, E>, from: S, to: S, path: seq<E>) {
    Replay(m, from, path) == Some(to) && forall events | Replay(m, from, events) == Some(to) :: |path| <= |events|
  }

  ghost predicate Unreachable<S(!new), E(!new)>(m: TransitionMap<S, E>, from: S, to: S) {
    forall events :: Replay(m, from, events) != Some(to)
  }

  ghost predicate Searching<S(!new), E(!new)>(m: TransitionMap<S, E>, from: S, to: S, visited: set<S>,
                                              predecessor: map<S, PathStep<S, E>>, dist: map<S, nat>, queue: seq<S>)
  {
    && Ranked(m, from, visited, predecessor, dist) && to !in visited && visited <= States(m, from)
    && (|queue| > 0 ==> queue[0] in dist && Layered(queue, dist, dist[queue[0]]))
    && ClosedExcept(m, visited, dist, set s | s in queue)
  }

  /** The first `i` arcs of `node`, which has left the queue, have been looked at. */
  ghost predicate Scanning<S(!new), E(!new)>(m: TransitionMap<S, E>, from: S, to: S, visited: set<S>,
                                             predecessor: map<S, PathStep<S, E>>, dist: map<S, nat>, queue: seq<S>,
                                             node: S, i: nat)
  {
    && Ranked(m, from, visited, predecessor, dist) && to !in visited && visited <= States(m, from)
    && node in visited && i <= |Arcs(m, node)|
    && Layered(queue, dist, dist[node])
    && ClosedExcept(m, visited, dist, (set s | s in queue) + {node})
    && forall k | 0 <= k < i :: Arcs(m, node)[k].target in visited
  }

  lemma PopKeeps<S(!new), E(!new)>(m: TransitionMap<S, E>, from: S, to: S, visited: set<S>,
                                   predecessor: map<S, PathStep<S, E>>, dist: map<S, nat>, queue: seq<S>)
    requires |queue| > 0 && Searching(m, from, to, visited, predecessor, dist, queue)
    ensures Scanning(m, from, to, visited, predecessor, dist, queue[1..], queue[0], 0)
  {
    HeadAndTail(queue);
  }

  lemma HeadAndTail<S(!new)>(queue: seq<S>)
    requires queue != []
    ensures queue == [queue[0]] + queue[1..]
    ensures (set s | s in queue) == (set s | s in queue[1..]) + {queue[0]}
  {
  }

  lemma DoneKeeps<S(!new), E(!new)>(m: TransitionMap<S, E>, from: S, to: S, visited: set<S>,
                                    predecessor: map<S, PathStep<S, E>>, dist: map<S, nat>, queue: seq<S>, node: S)
    requires Scanning(m, from, to, visited, predecessor, dist, queue, node, |Arcs(m, node)|)
    ensures Searching(m, from, to, visited, predecessor, dist, queue)
  {
  }

  lemma DiscoverKeepsRanked<S(!new), E(!new)>(m: TransitionMap<S, E>, from: S, visited: set<S>,
                                              predecessor: map<S, PathStep<S, E>>, dist: map<S, nat>, node: S, i: nat)
    requires WellFormed(m) && Ranked(m, from, visited, predecessor, dist)
    requires node in visited && i < |Arcs(m, node)| && Arcs(m, node)[i].target !in visited
    ensures var next := Arcs(m, node)[i].target;
            && next in States(m, from)
            && Ranked(m, from, visited + {next}, predecessor[next := PathStep(node, Arcs(m, node)[i].event)],
                      dist[next := dist[node] + 1])
  {
    var arc := Arcs(m, node)[i];
    LookupExact(Arcs(m, node), arc.event, arc.target);
  }

  lemma PushKeeps<S(!new), E(!new)>(m: TransitionMap<S, E>, from: S, to: S, visited: set<S>,
                                    predecessor: map<S, PathStep<S, E>>, dist: map<S, nat>, queue: seq<S>,
                                    node: S, i: nat)
    requires WellFormed(m) && Scanning(m, from, to, visited, predecessor, dist, queue, node, i) && i < |Arcs(m, node)|
    requires Arcs(m, node)[i].target !in visited
    ensures var next := Arcs(m, node)[i].target;
            var predecessor', dist' := predecessor[next := PathStep(node, Arcs(m, node)[i].event)],
                dist[next := dist[node] + 1];
            && Ranked(m, from, visited + {next}, predecessor', dist') && next in States(m, from)
            && (next != to ==>
                  Scanning(m, from, to, visited + {next}, predecessor', dist', queue + [next], node, i + 1))
  {
    var next := Arcs(m, node)[i].target;
    DiscoverKeepsRanked(m, from, visited, predecessor, dist, node, i);
    PushKeepsClosed(m, visited, dist, queue, node, next);
    PushKeepsLayered(queue, dist, dist[node], next);
  }

  lemma SkipKeeps<S(!new), E(!new)>(m: TransitionMap<S, E>, from: S, to: S, visited: set<S>,
                                    predecessor: map<S, PathStep<S, E>>, dist: map<S, nat>, queue: seq<S>,
                                    node: S, i: nat)
    requires Scanning(m, from, to, visited, predecessor, dist, queue, node, i) && i < |Arcs(m, node)|
    requires Arcs(m, node)[i].target in visited
    ensures Scanning(m, from, to, visited, predecessor, dist, queue, node, i + 1)
  {
  }

  lemma PushKeepsLayered<S(!new)>(queue: seq<S>, dist: map<S, nat>, low: nat, next: S)
    requires Layered(queue, dist, low) && next !in dist
    ensures Layered(queue + [next], dist[next := low + 1], low)
  {
  }

  lemma PushKeepsClosed<S(!new), E(!new)>(m: TransitionMap<S, E>, visited: set<S>, dist: map<S, nat>, queue: seq<S>,
                                          node: S, next: S)
    requires dist.Keys == visited && node in visited && next !in visited
    requires ClosedExcept(m, visited, dist, (set s | s in queue) + {node})
    ensures ClosedExcept(m, visited + {next}, dist[next := dist[node] + 1], (set s | s in queue + [next]) + {node})
  {
    assert (set s | s in queue + [next]) == (set s | s in queue) + {next};
  }

  /** A target first met from the least distant open state is met along a shortest path. */
  lemma FirstMetIsNearest<S(!new), E(!new)>(m: TransitionMap<S, E>, from: S, visited: set<S>,
                            predecessor: map<S, PathStep<S, E>>,
                                dist: map<S, nat>, open: set<S>, to: S, low: nat)
    requires Ranked(m, from, visited, predecessor, dist) && ClosedExcept(m, visited, dist, open)
    requires to !in visited
    requires forall s | s in open :: s in dist && low <= dist[s]
    ensures forall events | Replay(m, from, events) == Some(to) :: low + 1 <= |events| && open != {}
  {
    forall events | Replay(m, from, events) == Some(to) ensures low + 1 <= |events| && open != {} {
      PathsCrossOpen(m, from, visited, predecessor, dist, open, events);
    }
  }

  lemma MetIsShortest<S(!new), E(!new)>(m: TransitionMap<S, E>, from: S, to: S, visited: set<S>,
                                        predecessor: map<S, PathStep<S, E>>, dist: map<S, nat>, queue: seq<S>,
                                        node: S, i: nat, path: seq<E>)
    requires Scanning(m, from, to, visited, predecessor, dist, queue, node, i)
    requires Replay(m, from, path) == Some(to) && |path| == dist[node] + 1
    ensures Shortest(m, from, to, path)
  {
    FirstMetIsNearest(m, from, visited, predecessor, dist, (set s | s in queue) + {node}, to, dist[node]);
  }

  lemma EmptyIsUnreachable<S(!new), E(!new)>(m: TransitionMap<S, E>, from: S, to: S, visited: set<S>,
                                             predecessor: map<S, PathStep<S, E>>, dist: map<S, nat>)
    requires Searching(m, from, to, visited, predecessor, dist, [])
    ensures Unreachable(m, from, to)
  {
    FirstMetIsNearest(m, from, visited, predecessor, dist, {}, to, 0);
  }

  // ---------------------------------------------------------------- the order of discovery

  /** The ways that the predecessors spell; */
  ghost predicate Linked<S(!new), E(!new)>(from: S, predecessor: map<S, PathStep<S, E>>, way: map<S, seq<E>>) {
    && from in way && way[from] == []
    && forall s | s in predecessor ::
         s in way && predecessor[s].status in way && way[s] == way[predecessor[s].status] + [predecessor[s].event]
  }

  /** each leads to its state and is as long as its distance; */
  ghost predicate Leading<S(!new), E(!new)>(m: TransitionMap<S, E>, from: S, dist: map<S, nat>, way: map<S, seq<E>>) {
    && way.Keys == dist.Keys
    && forall s | s in way :: |way[s]| == dist[s] && Replay(m, from, way[s]) == Some(s)
  }

  /** and none of the same length comes before it. */
  ghost predicate AllLeast<S(!new), E(!new)>(m: TransitionMap<S, E>, from: S, way: map<S, seq<E>>) {
    forall s | s in way :: Least(m, from, s, way[s])
  }

  ghost predicate Ways<S(!new), E(!new)>(m: TransitionMap<S, E>, from: S, visited: set<S>,
                                         predecessor: map<S, PathStep<S, E>>, dist: map<S, nat>, way: map<S, seq<E>>)
  {
    && way.Keys == visited && Linked(from, predecessor, way) && Leading(m, from, dist, way) && AllLeast(m, from, way)
  }

  /** Open states of one distance stand in the order of their ways; */
  ghost predicate InWayOrder<S(!new), E(!new)>(m: TransitionMap<S, E>, from: S, way: map<S, seq<E>>, open: seq<S>) {
    && (forall s | s in open :: s in way)
    && forall i, j | 0 <= i < j < |open| && |way[open[i]]| == |way[open[j]]| ::
         Earlier(m, from, way[open[i]], way[open[j]])
  }

  /** and one a step further was met from a state that stood before. */
  ghost predicate MetBefore<S(!new), E(!new)>(m: TransitionMap<S, E>, from: S, way: map<S, seq<E>>, open: seq<S>) {
    && (forall s | s in open :: s in way)
    && forall x, u | x in open && u in open && |way[x]| == |way[u]| + 1 ::
         Earlier(m, from, way[x][..|way[u]|], way[u])
  }

  /** The same of the state being scanned, up to its arc `i`. */
  ghost predicate MetByArc<S(!new), E(!new)>(m: TransitionMap<S, E>, from: S, way: map<S, seq<E>>, x: S, node: S,
                                             i: nat)
    requires x in way && node in way
  {
    |way[x]| == |way[node]| + 1 ==>
      var n := |way[node]|;
      || Earlier(m, from, way[x][..n], way[node])
      || (way[x][..n] == way[node] && Position(Arcs(m, node), way[x][n]) < i)
  }

  ghost predicate Ordered<S(!new), E(!new)>(m: TransitionMap<S, E>, from: S, visited: set<S>,
                                            predecessor: map<S, PathStep<S, E>>, dist: map<S, nat>,
                                            way: map<S, seq<E>>, queue: seq<S>)
  {
    && Ways(m, from, visited, predecessor, dist, way)
    && InWayOrder(m, from, way, queue) && MetBefore(m, from, way, queue)
  }

  ghost predicate OrderedScan<S(!new), E(!new)>(m: TransitionMap<S, E>, from: S, visited: set<S>,
                                                predecessor: map<S, PathStep<S, E>>, dist: map<S, nat>,
                                                way: map<S, seq<E>>, queue: seq<S>, node: S, i: nat)
  {
    && Ways(m, from, visited, predecessor, dist, way) && node in visited
    && InWayOrder(m, from, way, [node] + queue) && MetBefore(m, from, way, queue)
    && forall x | x in queue :: MetByArc(m, from, way, x, node, i)
  }

  lemma PopKeepsOrder<S(!new), E(!new)>(m: TransitionMap<S, E>, from: S, visited: set<S>,
                                        predecessor: map<S, PathStep<S, E>>, dist: map<S, nat>,
                                        way: map<S, seq<E>>, queue: seq<S>)
    requires |queue| > 0 && Ordered(m, from, visited, predecessor, dist, way, queue)
    ensures OrderedScan(m, from, visited, predecessor, dist, way, queue[1..], queue[0], 0)
  {
    assert queue == [queue[0]] + queue[1..];
    NothingMetYet(m, from, way, queue);
  }

  lemma NothingMetYet<S(!new), E(!new)>(m: TransitionMap<S, E>, from: S, way: map<S, seq<E>>, queue: seq<S>)
    requires |queue| > 0 && MetBefore(m, from, way, queue)
    ensures queue[0] in way && MetBefore(m, from, way, queue[1..])
    ensures forall x | x in queue[1..] :: x in way && MetByArc(m, from, way, x, queue[0], 0)
  {
    assert queue[0] in queue && forall x | x in queue[1..] :: x in queue;
  }

  lemma ScanEndsInOrder<S(!new), E(!new)>(m: TransitionMap<S, E>, from: S, visited: set<S>,
                                          predecessor: map<S, PathStep<S, E>>, dist: map<S, nat>,
                                          way: map<S, seq<E>>, queue: seq<S>, node: S, i: nat)
    requires OrderedScan(m, from, visited, predecessor, dist, way, queue, node, i)
    ensures Ordered(m, from, visited, predecessor, dist, way, queue)
  {
    TailInOrder(m, from, way, node, queue);
  }

  lemma TailInOrder<S(!new), E(!new)>(m: TransitionMap<S, E>, from: S, way: map<S, seq<E>>, node: S, queue: seq<S>)
    requires InWayOrder(m, from, way, [node] + queue)
    ensures InWayOrder(m, from, way, queue)
  {
    var all := [node] + queue;
    assert forall s | s in queue :: s in all;
    forall a, b | 0 <= a < b < |queue| && |way[queue[a]]| == |way[queue[b]]|
      ensures Earlier(m, from, way[queue[a]], way[queue[b]])
    {
      assert all[a + 1] == queue[a] && all[b + 1] == queue[b];
    }
  }

  /** Any way to a state first met from `node` by its arc `i`, of the length of that meeting, comes no earlier. */
  lemma MetIsLeast<S(!new), E(!new)>(m: TransitionMap<S, E>, from: S, to: S, visited: set<S>,
                                     predecessor: map<S, PathStep<S, E>>, dist: map<S, nat>, way: map<S, seq<E>>,
                                     queue: seq<S>, node: S, i: nat)
    requires WellFormed(m) && Scanning(m, from, to, visited, predecessor, dist, queue, node, i)
    requires OrderedScan(m, from, visited, predecessor, dist, way, queue, node, i)
    requires i < |Arcs(m, node)| && Arcs(m, node)[i].target !in visited
    ensures Least(m, from, Arcs(m, node)[i].target, way[node] + [Arcs(m, node)[i].event])
  {
    var next, path := Arcs(m, node)[i].target, way[node] + [Arcs(m, node)[i].event];
    forall q | Replay(m, from, q) == Some(next) && |q| == |path|
      ensures q == path || Earlier(m, from, path, q)
    {
      OneRivalIsLater(m, from, to, visited, predecessor, dist, way, queue, node, i, q);
    }
  }

  /** The last state before `next` on such a way is open, at the distance of `node`. */
  lemma RivalComesFromOpen<S(!new), E(!new)>(m: TransitionMap<S, E>, from: S, to: S, visited: set<S>,
                                             predecessor: map<S, PathStep<S, E>>, dist: map<S, nat>, queue: seq<S>,
                                             node: S, i: nat, next: S, q: seq<E>) returns (u: S)
    requires Scanning(m, from, to, visited, predecessor, dist, queue, node, i) && next !in visited
    requires Replay(m, from, q) == Some(next) && |q| == dist[node] + 1
    ensures Replay(m, from, q[..|q| - 1]) == Some(u) && u in visited && dist[u] == dist[node]
    ensures u == node || u in queue
    ensures Arc(q[|q| - 1], next) in Arcs(m, u)
  {
    var n := |q| - 1;
    u := Replay(m, from, q[..n]).value;
    var open := (set s | s in queue) + {node};
    PathsCrossOpen(m, from, visited, predecessor, dist, open, q[..n]);
    assert Arc(q[n], next) in Arcs(m, u);
  }

  lemma OneRivalIsLater<S(!new), E(!new)>(m: TransitionMap<S, E>, from: S, to: S, visited: set<S>,
                                          predecessor: map<S, PathStep<S, E>>, dist: map<S, nat>, way: map<S, seq<E>>,
                                          queue: seq<S>, node: S, i: nat, q: seq<E>)
    requires WellFormed(m) && Scanning(m, from, to, visited, predecessor, dist, queue, node, i)
    requires OrderedScan(m, from, visited, predecessor, dist, way, queue, node, i)
    requires i < |Arcs(m, node)| && Arcs(m, node)[i].target !in visited
    requires Replay(m, from, q) == Some(Arcs(m, node)[i].target) && |q| == |way[node]| + 1
    ensures var path := way[node] + [Arcs(m, node)[i].event]; q == path || Earlier(m, from, path, q)
  {
    var arc, n := Arcs(m, node)[i], |q| - 1;
    var u := RivalComesFromOpen(m, from, to, visited, predecessor, dist, queue, node, i, arc.target, q);
    if u == node && q[..n] == way[node] {
      RivalByArc(m, from, way[node], node, i, q);
    } else {
      RivalByPrefix(m, from, way, queue, node, u, arc.event, q);
    }
  }

  lemma RivalByPrefix<S(!new), E(!new)>(m: TransitionMap<S, E>, from: S, way: map<S, seq<E>>, queue: seq<S>,
                                        node: S, u: S, e: E, q: seq<E>)
    requires InWayOrder(m, from, way, [node] + queue) && (u == node || u in queue) && u in way && node in way
    requires |q| == |way[u]| + 1 == |way[node]| + 1 && Replay(m, from, q[..|q| - 1]) == Some(u)
    requires Least(m, from, u, way[u]) && (u != node || q[..|q| - 1] != way[node])
    ensures Earlier(m, from, way[node] + [e], q)
  {
    var n := |q| - 1;
    RivalPrefixIsLater(m, from, way, queue, node, u, q[..n]);
    EarlierExtends(m, from, way[node], q[..n], e, q[n]);
    CutLast(q);
  }

  /** Among the arcs of one state to one target, the first comes first. */
  lemma RivalByArc<S(!new), E(!new)>(m: TransitionMap<S, E>, from: S, p: seq<E>, node: S, i: nat, q: seq<E>)
    requires WellFormed(m) && Replay(m, from, p) == Some(node) && |q| == |p| + 1 && q[..|p|] == p
    requires i < |Arcs(m, node)| && Arc(q[|p|], Arcs(m, node)[i].target) in Arcs(m, node)
    requires forall k | 0 <= k < i :: Arcs(m, node)[k].target != Arcs(m, node)[i].target
    ensures q == p + [Arcs(m, node)[i].event] || Earlier(m, from, p + [Arcs(m, node)[i].event], q)
  {
    var arcs, n := Arcs(m, node), |p|;
    assert q == p + [q[n]];
    var k :| 0 <= k < |arcs| && arcs[k] == Arc(q[n], arcs[i].target);
    PositionOfArc(arcs, k);
    PositionOfArc(arcs, i);
    if k != i {
      EarlierByLast(m, from, p, node, arcs[i].event, q[n]);
    }
  }

  lemma RivalPrefixIsLater<S(!new), E(!new)>(m: TransitionMap<S, E>, from: S, way: map<S, seq<E>>, queue: seq<S>,
                                             node: S, u: S, q: seq<E>)
    requires InWayOrder(m, from, way, [node] + queue) && (u == node || u in queue) && u in way && node in way
    requires |way[u]| == |way[node]| == |q| && Replay(m, from, q) == Some(u) && Least(m, from, u, way[u])
    requires u != node || q != way[node]
    ensures Earlier(m, from, way[node], q)
  {
    if u != node {
      var k :| 0 <= k < |queue| && queue[k] == u;
      assert ([node] + queue)[0] == node && ([node] + queue)[k + 1] == u;
      if q != way[u] {
        EarlierTransitive(m, from, way[node], way[u], q);
      }
    }
  }

  lemma PushKeepsOrder<S(!new), E(!new)>(m: TransitionMap<S, E>, from: S, to: S, visited: set<S>,
                                         predecessor: map<S, PathStep<S, E>>, dist: map<S, nat>, way: map<S, seq<E>>,
                                         queue: seq<S>, node: S, i: nat)
    requires WellFormed(m) && Scanning(m, from, to, visited, predecessor, dist, queue, node, i)
    requires OrderedScan(m, from, visited, predecessor, dist, way, queue, node, i)
    requires i < |Arcs(m, node)| && Arcs(m, node)[i].target !in visited
    ensures var arc := Arcs(m, node)[i];
            var next := arc.target;
            var way' := way[next := way[node] + [arc.event]];
            OrderedScan(m, from, visited + {next}, predecessor[next := PathStep(node, arc.event)],
                        dist[next := dist[node] + 1], way', queue + [next], node, i + 1)
  {
    MetIsLeast(m, from, to, visited, predecessor, dist, way, queue, node, i);
    NewWay(m, from, visited, predecessor, dist, way, node, i);
    PushKeepsWayOrder(m, from, way, queue, node, i);
    PushKeepsMetBefore(m, from, way, queue, node, i);
  }

  lemma SkipKeepsOrder<S(!new), E(!new)>(m: TransitionMap<S, E>, from: S, visited: set<S>,
                                         predecessor: map<S, PathStep<S, E>>, dist: map<S, nat>, way: map<S, seq<E>>,
                                         queue: seq<S>, node: S, i: nat)
    requires OrderedScan(m, from, visited, predecessor, dist, way, queue, node, i)
    ensures OrderedScan(m, from, visited, predecessor, dist, way, queue, node, i + 1)
  {
  }

  lemma NewWay<S(!new), E(!new)>(m: TransitionMap<S, E>, from: S, visited: set<S>,
                                 predecessor: map<S, PathStep<S, E>>, dist: map<S, nat>, way: map<S, seq<E>>,
                                 node: S, i: nat)
    requires WellFormed(m) && Ways(m, from, visited, predecessor, dist, way) && node in visited
    requires i < |Arcs(m, node)| && Arcs(m, node)[i].target !in visited
    requires Least(m, from, Arcs(m, node)[i].target, way[node] + [Arcs(m, node)[i].event])
    ensures var arc := Arcs(m, node)[i];
            Ways(m, from, visited + {arc.target}, predecessor[arc.target := PathStep(node, arc.event)],
                 dist[arc.target := dist[node] + 1], way[arc.target := way[node] + [arc.event]])
  {
    var arc := Arcs(m, node)[i];
    LookupExact(Arcs(m, node), arc.event, arc.target);
    LinkOne(from, predecessor, way, node, arc);
    LeadOne(m, from, dist, way, node, arc);
    LeastOne(m, from, way, arc.target, way[node] + [arc.event]);
  }

  lemma LeastOne<S(!new), E(!new)>(m: TransitionMap<S, E>, from: S, way: map<S, seq<E>>, next: S, path: seq<E>)
    requires AllLeast(m, from, way) && Least(m, from, next, path)
    ensures AllLeast(m, from, way[next := path])
  {
  }

  lemma LinkOne<S(!new), E(!new)>(from: S, predecessor: map<S, PathStep<S, E>>, way: map<S, seq<E>>, node: S,
                                  arc: Arc<S, E>)
    requires Linked(from, predecessor, way) && node in way && arc.target !in way
    ensures Linked(from, predecessor[arc.target := PathStep(node, arc.event)],
                   way[arc.target := way[node] + [arc.event]])
  {
  }

  lemma LeadOne<S(!new), E(!new)>(m: TransitionMap<S, E>, from: S, dist: map<S, nat>, way: map<S, seq<E>>, node: S,
                                  arc: Arc<S, E>)
    requires Leading(m, from, dist, way) && node in way && arc.target !in way
    requires ApplyTransition(m, node, arc.event) == Some(arc.target)
    ensures Leading(m, from, dist[arc.target := dist[node] + 1], way[arc.target := way[node] + [arc.event]])
  {
    assert (way[node] + [arc.event])[..|way[node]|] == way[node];
  }

  lemma PushKeepsWayOrder<S(!new), E(!new)>(m: TransitionMap<S, E>, from: S, way: map<S, seq<E>>, queue: seq<S>,
                                            node: S, i: nat)
    requires WellFormed(m) && InWayOrder(m, from, way, [node] + queue) && node in way
    requires Replay(m, from, way[node]) == Some(node)
    requires (forall x | x in queue :: x in way) && forall x | x in queue :: MetByArc(m, from, way, x, node, i)
    requires i < |Arcs(m, node)| && Arcs(m, node)[i].target !in way
    ensures var arc := Arcs(m, node)[i];
            InWayOrder(m, from, way[arc.target := way[node] + [arc.event]], [node] + (queue + [arc.target]))
  {
    var arc := Arcs(m, node)[i];
    var way', all := way[arc.target := way[node] + [arc.event]], [node] + (queue + [arc.target]);
    assert forall k | 0 <= k <= |queue| :: all[k] == ([node] + queue)[k] && all[k] in [node] + queue;
    forall a, b | 0 <= a < b < |all| && |way'[all[a]]| == |way'[all[b]]|
      ensures Earlier(m, from, way'[all[a]], way'[all[b]])
    {
      if b == |all| - 1 {
        assert a > 0 && all[a] in queue;
        MetComesBefore(m, from, way, all[a], node, i);
      }
    }
  }

  lemma MetComesBefore<S(!new), E(!new)>(m: TransitionMap<S, E>, from: S, way: map<S, seq<E>>, x: S, node: S, i: nat)
    requires WellFormed(m) && x in way && node in way && MetByArc(m, from, way, x, node, i)
    requires |way[x]| == |way[node]| + 1 && Replay(m, from, way[node]) == Some(node) && i < |Arcs(m, node)|
    ensures Earlier(m, from, way[x], way[node] + [Arcs(m, node)[i].event])
  {
    PositionOfArc(Arcs(m, node), i);
    EarlierByPrefixOrLast(m, from, way[x], way[node], node, Arcs(m, node)[i].event);
  }

  lemma EarlierByPrefixOrLast<S(!new), E(!new)>(m: TransitionMap<S, E>, from: S, q: seq<E>, p: seq<E>, s: S, e: E)
    requires |q| == |p| + 1 && Replay(m, from, p) == Some(s)
    requires || Earlier(m, from, q[..|p|], p)
             || (q[..|p|] == p && Position(Arcs(m, s), q[|p|]) < Position(Arcs(m, s), e))
    ensures Earlier(m, from, q, p + [e])
  {
    var n := |p|;
    assert q == q[..n] + [q[n]];
    if Earlier(m, from, q[..n], p) {
      EarlierExtends(m, from, q[..n], p, q[n], e);
    } else {
      EarlierByLast(m, from, p, s, q[n], e);
    }
  }

  lemma PushKeepsMetBefore<S(!new), E(!new)>(m: TransitionMap<S, E>, from: S, way: map<S, seq<E>>, queue: seq<S>,
                                             node: S, i: nat)
    requires WellFormed(m) && InWayOrder(m, from, way, [node] + queue) && MetBefore(m, from, way, queue) && node in way
    requires forall x | x in queue :: MetByArc(m, from, way, x, node, i)
    requires forall x | x in queue :: |way[x]| <= |way[node]| + 1
    requires i < |Arcs(m, node)| && Arcs(m, node)[i].target !in way
    ensures var arc := Arcs(m, node)[i];
            var way' := way[arc.target := way[node] + [arc.event]];
            && MetBefore(m, from, way', queue + [arc.target])
            && forall x | x in queue + [arc.target] :: MetByArc(m, from, way', x, node, i + 1)
  {
    var arc := Arcs(m, node)[i];
    var way', longer := way[arc.target := way[node] + [arc.event]], queue + [arc.target];
    PositionOfArc(Arcs(m, node), i);
    assert way'[arc.target][..|way[node]|] == way[node];
    assert forall x | x in longer :: x in queue || x == arc.target;
    forall x, u | x in longer && u in longer && |way'[x]| == |way'[u]| + 1
      ensures Earlier(m, from, way'[x][..|way'[u]|], way'[u])
    {
      if x == arc.target {
        var k :| 0 <= k < |queue| && queue[k] == u;
        assert ([node] + queue)[0] == node && ([node] + queue)[k + 1] == u;
      }
    }
  }

  lemma CutLast<E>(q: seq<E>)
    requires q != []
    ensures q == q[..|q| - 1] + [q[|q| - 1]]
  {
  }

  lemma Regroup<E>(a: seq<E>, e: E, b: seq<E>)
    ensures a + ([e] + b) == (a + [e]) + b
  {
  }

  /** The lookup of the predecessor is always defined: the branch that returns an empty path is dead. */
  method ReconstructPath<S(!new, ==), E(!new, ==)>(
    m: TransitionMap<S, E>, predecessor: map<S, PathStep<S, E>>, from: S, to: S,
    ghost visited: set<S>, ghost dist: map<S, nat>, ghost way: map<S, seq<E>>)
    returns (path: seq<E>)
    requires Ranked(m, from, visited, predecessor, dist) && to in visited
    requires way.Keys == visited && Linked(from, predecessor, way)
    ensures Replay(m, from, path) == Some(to) && |path| == dist[to] && path == way[to]
  {
    path := [];
    var cursor := to;
    assert Replay(m, to, path) == Some(to);
    while cursor != from
      invariant cursor in visited
      invariant Replay(m, cursor, path) == Some(to)
      invariant |path| + dist[cursor] == dist[to] && way[cursor] + path == way[to]
      decreases dist[cursor]
    {
      var step := predecessor[cursor];
      ReplayCons(m, step.status, step.event, path);
      Regroup(way[step.status], step.event, path);
      path := [step.event] + path;
      cursor := step.status;
    }
  }

  /** The inner loop: looks at every arc out of `node`, and stops with a path if one leads to the target. */
  method VisitSuccessors<S(!new, ==), E(!new, ==)>(
    m: TransitionMap<S, E>, from: S, to: S, node: S,
    visited0: set<S>, predecessor0: map<S, PathStep<S, E>>, ghost dist0: map<S, nat>, ghost way0: map<S, seq<E>>,
    queue0: seq<S>)
    returns (found: Option<seq<E>>, visited: set<S>, predecessor: map<S, PathStep<S, E>>,
             ghost dist: map<S, nat>, ghost way: map<S, seq<E>>, queue: seq<S>)
    requires WellFormed(m) && Scanning(m, from, to, visited0, predecessor0, dist0, queue0, node, 0)
    requires OrderedScan(m, from, visited0, predecessor0, dist0, way0, queue0, node, 0)
    ensures found.Some? ==> Shortest(m, from, to, found.value) && Least(m, from, to, found.value)
    ensures found.None? ==> Searching(m, from, to, visited, predecessor, dist, queue)
    ensures found.None? ==> Ordered(m, from, visited, predecessor, dist, way, queue)
    ensures found.None? ==> (visited == visited0 && queue == queue0) || (visited0 < visited <= States(m, from))
  {
    found, visited, predecessor, dist, way, queue := None, visited0, predecessor0, dist0, way0, queue0;
    var transitions := Arcs(m, node);
    var i := 0;
    while i < |transitions|
      invariant i <= |transitions|
      invariant Scanning(m, from, to, visited, predecessor, dist, queue, node, i)
      invariant OrderedScan(m, from, visited, predecessor, dist, way, queue, node, i)
      invariant (visited == visited0 && queue == queue0) || visited0 < visited
    {
      var event, next := transitions[i].event, transitions[i].target;
      if next !in visited {
        PushKeeps(m, from, to, visited, predecessor, dist, queue, node, i);
        MetIsLeast(m, from, to, visited, predecessor, dist, way, queue, node, i);
        PushKeepsOrder(m, from, to, visited, predecessor, dist, way, queue, node, i);
        way := way[next := way[node] + [event]];
        ghost var scanned, known, ranks := visited, predecessor, dist;
        visited := visited + {next};
        predecessor := predecessor[next := PathStep(node, event)];
        dist := dist[next := dist[node] + 1];
        if next == to {
          var path := ReconstructPath(m, predecessor, from, to, visited, dist, way);
          MetIsShortest(m, from, to, scanned, known, ranks, queue, node, i, path);
          found := Some(path);
          return;
        }
        queue := queue + [next];
      } else {
        SkipKeeps(m, from, to, visited, predecessor, dist, queue, node, i);
        SkipKeepsOrder(m, from, visited, predecessor, dist, way, queue, node, i);
      }
      i := i + 1;
    }
    DoneKeeps(m, from, to, visited, predecessor, dist, queue, node);
    ScanEndsInOrder(m, from, visited, predecessor, dist, way, queue, node, i);
  }

  method ShortestEventPath<S(!new, ==), E(!new, ==)>(m: TransitionMap<S, E>, from: S, to: S) returns (r: Option<seq<E>>)
    requires WellFormed(m)
    ensures r.None? <==> Unreachable(m, from, to)
    ensures r.Some? ==> Shortest(m, from, to, r.value) && Least(m, from, to, r.value)
  {
    if from == to {
      assert Replay(m, from, []) == Some(to);
      return Some([]);
    }
    var visited, queue, predecessor := {from}, [from], map[];
    ghost var dist: map<S, nat>, way: map<S, seq<E>> := map[from := 0], map[from := []];
    while |queue| > 0
      invariant Searching(m, from, to, visited, predecessor, dist, queue)
      invariant Ordered(m, from, visited, predecessor, dist, way, queue)
      decreases States(m, from) - visited, |queue|
    {
      PopKeeps(m, from, to, visited, predecessor, dist, queue);
      PopKeepsOrder(m, from, visited, predecessor, dist, way, queue);
      var node := queue[0];
      r, visited, predecessor, dist, way, queue :=
        VisitSuccessors(m, from, to, node, visited, predecessor, dist, way, queue[1..]);
      if r.Some? {
        return;
      }
    }
    EmptyIsUnreachable(m, from, to, visited, predecessor, dist);
    r := None;
  }
}

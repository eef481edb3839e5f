/** Redaction of log contexts (src/support/logger/console-logger.ts) over any graph of objects, cycles included.
    `sensitive` stands for the test on sensitive keys. */
module Redaction {

  type Ref = nat

  /** What a variable holds: an array or object by reference, or anything else. */
  datatype Value = Primitive(text: string) | Reference(ref: Ref)

  datatype Slot = Slot(key: string, value: Value)

  /** An array, whose keys are its indices, or a keyed object. */
  datatype Node = Node(keyed: bool, slots: seq<Slot>)

  type Heap = map<Ref, Node>

  /** What is logged. A copied node remembers which one it copies. */
  datatype Copy =
    | Atom(value: Value)
    | Redacted
    | Circular
    | NodeCopy(of: Ref, keyed: bool, slots: seq<CopySlot>)

  datatype CopySlot = CopySlot(key: string, value: Copy)

  predicate Points(heap: Heap, v: Value) {
    v.Reference? ==> v.ref in heap
  }

  predicate AllPoint(heap: Heap, slots: seq<Slot>) {
    forall s | s in slots :: Points(heap, s.value)
  }

  predicate Closed(heap: Heap) {
    forall r | r in heap :: AllPoint(heap, heap[r].slots)
  }

  // ---------------------------------------------------------------- the traversal as a function

  /** The copy of a value, and the nodes seen by then. */
  function RedactValue(sensitive: string -> bool, heap: Heap, v: Value, seen: set<Ref>): (r: (Copy, set<Ref>))
    requires Closed(heap) && Points(heap, v)
    ensures seen <= r.1 <= seen + heap.Keys
    decreases heap.Keys - seen, 0
  {
    if v.Primitive? then (Atom(v), seen)
    else if v.ref in seen then (Circular, seen)
    else
      var node := heap[v.ref];
      var inner := RedactSlots(sensitive, heap, node.keyed, node.slots, seen + {v.ref});
      (NodeCopy(v.ref, node.keyed, inner.0), inner.1)
  }

  function RedactSlot(sensitive: string -> bool, heap: Heap, keyed: bool, slot: Slot, seen: set<Ref>)
    : (r: (Copy, set<Ref>))
    requires Closed(heap) && Points(heap, slot.value)
    ensures seen <= r.1 <= seen + heap.Keys
    decreases heap.Keys - seen, 1
  {
    if keyed && sensitive(slot.key) then (Redacted, seen) else RedactValue(sensitive, heap, slot.value, seen)
  }

  function RedactSlots(sensitive: string -> bool, heap: Heap, keyed: bool, slots: seq<Slot>, seen: set<Ref>)
    : (r: (seq<CopySlot>, set<Ref>))
    requires Closed(heap) && AllPoint(heap, slots)
    ensures seen <= r.1 <= seen + heap.Keys
    decreases heap.Keys - seen, 2 + |slots|
  {
    if slots == [] then ([], seen)
    else
      var first := RedactSlot(sensitive, heap, keyed, slots[0], seen);
      var rest := RedactSlots(sensitive, heap, keyed, slots[1..], first.1);
      ([CopySlot(slots[0].key, first.0)] + rest.0, rest.1)
  }

  /** `redactContext`: the context itself does not count as seen. */
  function RedactContext(sensitive: string -> bool, heap: Heap, root: Ref): Copy
    requires Closed(heap) && root in heap && heap[root].keyed
  {
    NodeCopy(root, true, RedactSlots(sensitive, heap, true, heap[root].slots, {}).0)
  }

  // ---------------------------------------------------------------- the traversal as the program runs it

  lemma SlotsFromHere(sensitive: string -> bool, heap: Heap, keyed: bool, slots: seq<Slot>, i: nat, seen: set<Ref>)
    requires i < |slots| && Closed(heap) && AllPoint(heap, slots[i..])
    ensures Points(heap, slots[i].value) && AllPoint(heap, slots[i + 1..])
    ensures var first := RedactSlot(sensitive, heap, keyed, slots[i], seen);
            var rest := RedactSlots(sensitive, heap, keyed, slots[i + 1..], first.1);
            && RedactSlots(sensitive, heap, keyed, slots[i..], seen)
               == ([CopySlot(slots[i].key, first.0)] + rest.0, rest.1)
            && forall done :: done + ([CopySlot(slots[i].key, first.0)] + rest.0)
                              == (done + [CopySlot(slots[i].key, first.0)]) + rest.0
  {
    assert slots[i] in slots[i..];
    assert slots[i..][1..] == slots[i + 1..];
    assert forall s | s in slots[i + 1..] :: s in slots[i..];
  }

  class Redactor {
    var seen: set<Ref>

    constructor ()
      ensures seen == {}
    {
      seen := {};
    }

    /** `redactValue` */
    method Value(sensitive: string -> bool, heap: Heap, v: Value) returns (copy: Copy)
      requires Closed(heap) && Points(heap, v)
      modifies this
      ensures (copy, seen) == RedactValue(sensitive, heap, v, old(seen))
      decreases heap.Keys - seen, 0
    {
      if v.Primitive? {
        return Atom(v);
      }
      if v.ref in seen {
        return Circular;
      }
      seen := seen + {v.ref};
      var node := heap[v.ref];
      var slots := Slots(sensitive, heap, node.keyed, node.slots);
      copy := NodeCopy(v.ref, node.keyed, slots);
    }

    /** The loop over the elements of an array, or over the entries of an object. */
    method Slots(sensitive: string -> bool, heap: Heap, keyed: bool, slots: seq<Slot>) returns (result: seq<CopySlot>)
      requires Closed(heap) && AllPoint(heap, slots)
      modifies this
      ensures (result, seen) == RedactSlots(sensitive, heap, keyed, slots, old(seen))
      decreases heap.Keys - seen, 1
    {
      result := [];
      ghost var all := RedactSlots(sensitive, heap, keyed, slots, seen);
      assert slots[0..] == slots && [] + all.0 == all.0;
      for i := 0 to |slots|
        invariant old(seen) <= seen <= old(seen) + heap.Keys
        invariant AllPoint(heap, slots[i..])
        invariant var rest := RedactSlots(sensitive, heap, keyed, slots[i..], seen); all == (result + rest.0, rest.1)
      {
        SlotsFromHere(sensitive, heap, keyed, slots, i, seen);
        var copy := Redacted;
        if !(keyed && sensitive(slots[i].key)) {
          copy := Value(sensitive, heap, slots[i].value);
        }
        result := result + [CopySlot(slots[i].key, copy)];
      }
      assert slots[|slots|..] == [] && result + [] == result;
    }

    /** `redactContext` */
    method Context(sensitive: string -> bool, heap: Heap, root: Ref) returns (copy: Copy)
      requires Closed(heap) && root in heap && heap[root].keyed
      modifies this
      ensures copy == RedactContext(sensitive, heap, root)
    {
      seen := {};
      var slots := Slots(sensitive, heap, true, heap[root].slots);
      copy := NodeCopy(root, true, slots);
    }
  }

  // ---------------------------------------------------------------- each node is expanded once

  /** The nodes copied, with how often. */
  function Origins(c: Copy): multiset<Ref> {
    if c.NodeCopy? then multiset{c.of} + SlotOrigins(c.slots) else multiset{}
  }

  function SlotOrigins(slots: seq<CopySlot>): multiset<Ref> {
    if slots == [] then multiset{} else Origins(slots[0].value) + SlotOrigins(slots[1..])
  }

  lemma NewlySeenAdds(a: set<Ref>, b: set<Ref>, c: set<Ref>)
    requires a <= b <= c
    ensures multiset(c - a) == multiset(b - a) + multiset(c - b)
  {
    forall r
      ensures multiset(c - a)[r] == (multiset(b - a) + multiset(c - b))[r]
    {
    }
  }

  /** The nodes copied are exactly those newly seen, each once. */
  lemma {:induction false} ValueExpandsOnce(sensitive: string -> bool, heap: Heap, v: Value, seen: set<Ref>)
    requires Closed(heap) && Points(heap, v)
    ensures var r := RedactValue(sensitive, heap, v, seen); Origins(r.0) == multiset(r.1 - seen)
    decreases heap.Keys - seen, 0
  {
    if v.Reference? && v.ref !in seen {
      var node := heap[v.ref];
      SlotsExpandOnce(sensitive, heap, node.keyed, node.slots, seen + {v.ref});
      NewlySeenAdds(seen, seen + {v.ref}, RedactValue(sensitive, heap, v, seen).1);
      assert (seen + {v.ref}) - seen == {v.ref};
    }
  }

  lemma {:induction false} SlotsExpandOnce(sensitive: string -> bool, heap: Heap, keyed: bool, slots: seq<Slot>,
                                           seen: set<Ref>)
    requires Closed(heap) && AllPoint(heap, slots)
    ensures var r := RedactSlots(sensitive, heap, keyed, slots, seen); SlotOrigins(r.0) == multiset(r.1 - seen)
    decreases heap.Keys - seen, 2 + |slots|
  {
    if slots != [] {
      var first := RedactSlot(sensitive, heap, keyed, slots[0], seen);
      if !(keyed && sensitive(slots[0].key)) {
        ValueExpandsOnce(sensitive, heap, slots[0].value, seen);
      }
      SlotsExpandOnce(sensitive, heap, keyed, slots[1..], first.1);
      var rest := RedactSlots(sensitive, heap, keyed, slots[1..], first.1);
      NewlySeenAdds(seen, first.1, rest.1);
      var all := [CopySlot(slots[0].key, first.0)] + rest.0;
      assert all[1..] == rest.0;
    }
  }

  /** For example, a context that holds itself is expanded twice before the cycle is cut. */
  lemma SelfContainedContext(sensitive: string -> bool)
    requires !sensitive("self")
    ensures var heap: Heap := map[0 := Node(true, [Slot("self", Reference(0))])];
            Closed(heap)
            && RedactContext(sensitive, heap, 0)
               == NodeCopy(0, true, [CopySlot("self", NodeCopy(0, true, [CopySlot("self", Circular)]))])
  {
    var slots := [Slot("self", Reference(0))];
    var heap: Heap := map[0 := Node(true, slots)];
    assert Closed(heap);
    assert slots[0..] == slots && slots[1..] == [];
    var none: set<Ref> := {};
    assert none + {0} == {0};
    SlotsFromHere(sensitive, heap, true, slots, 0, {0});
    assert RedactSlot(sensitive, heap, true, slots[0], {0}) == (Circular, {0});
    var marks := [CopySlot("self", Circular)];
    assert marks + [] == marks && heap[0] == Node(true, slots);
    assert RedactSlots(sensitive, heap, true, slots, none + {0}) == (marks, {0});
    SlotsFromHere(sensitive, heap, true, slots, 0, none);
    assert RedactValue(sensitive, heap, Reference(0), none) == (NodeCopy(0, true, [CopySlot("self", Circular)]), {0});
  }

  // ---------------------------------------------------------------- what the copy says

  /** The copy tells of the value what it is, in the order of the traversal: primitives as they are; a node not copied
      before with all its keys in order; a mark for a node copied before; and redacted exactly the slots with a
      sensitive key. `seen` holds the nodes copied before. */
  ghost predicate Faithful(sensitive: string -> bool, heap: Heap, v: Value, c: Copy, seen: set<Ref>)
    decreases c
  {
    match c
    case Atom(x) => v.Primitive? && x == v
    case Redacted => false
    case Circular => v.Reference? && v.ref in seen
    case NodeCopy(of, keyed, slots) =>
      && v == Reference(of) && of in heap && of !in seen && heap[of].keyed == keyed
      && FaithfulSlots(sensitive, heap, keyed, heap[of].slots, slots, seen + {of})
  }

  ghost predicate FaithfulSlots(sensitive: string -> bool, heap: Heap, keyed: bool, slots: seq<Slot>,
                                copies: seq<CopySlot>, seen: set<Ref>)
    decreases copies
  {
    if slots == [] || copies == [] then slots == [] && copies == []
    else
      && copies[0].key == slots[0].key
      && (if keyed && sensitive(slots[0].key) then copies[0].value == Redacted
          else Faithful(sensitive, heap, slots[0].value, copies[0].value, seen))
      && FaithfulSlots(sensitive, heap, keyed, slots[1..], copies[1..], seen + Copied(copies[0].value))
  }

  /** The nodes that a copy expands. */
  function Copied(c: Copy): set<Ref> {
    set r | r in Origins(c)
  }

  lemma SlotSeesCopied(sensitive: string -> bool, heap: Heap, keyed: bool, slot: Slot, seen: set<Ref>)
    requires Closed(heap) && Points(heap, slot.value)
    ensures var r := RedactSlot(sensitive, heap, keyed, slot, seen); r.1 == seen + Copied(r.0)
  {
    if !(keyed && sensitive(slot.key)) {
      ValueExpandsOnce(sensitive, heap, slot.value, seen);
    }
  }

  lemma {:induction false} ValueIsFaithful(sensitive: string -> bool, heap: Heap, v: Value, seen: set<Ref>)
    requires Closed(heap) && Points(heap, v)
    ensures Faithful(sensitive, heap, v, RedactValue(sensitive, heap, v, seen).0, seen)
    decreases heap.Keys - seen, 0
  {
    if v.Reference? && v.ref !in seen {
      SlotsAreFaithful(sensitive, heap, heap[v.ref].keyed, heap[v.ref].slots, seen + {v.ref});
    }
  }

  lemma {:induction false} SlotsAreFaithful(sensitive: string -> bool, heap: Heap, keyed: bool, slots: seq<Slot>,
                                            seen: set<Ref>)
    requires Closed(heap) && AllPoint(heap, slots)
    ensures FaithfulSlots(sensitive, heap, keyed, slots, RedactSlots(sensitive, heap, keyed, slots, seen).0, seen)
    decreases heap.Keys - seen, 2 + |slots|
  {
    if slots != [] {
      var first := RedactSlot(sensitive, heap, keyed, slots[0], seen);
      var rest := RedactSlots(sensitive, heap, keyed, slots[1..], first.1);
      if !(keyed && sensitive(slots[0].key)) {
        ValueIsFaithful(sensitive, heap, slots[0].value, seen);
      }
      SlotSeesCopied(sensitive, heap, keyed, slots[0], seen);
      SlotsAreFaithful(sensitive, heap, keyed, slots[1..], first.1);
      assert ([CopySlot(slots[0].key, first.0)] + rest.0)[1..] == rest.0;
    }
  }

  /** Only one copy is faithful. */
  lemma {:induction false} FaithfulIsUnique(sensitive: string -> bool, heap: Heap, v: Value, c: Copy, d: Copy,
                                            seen: set<Ref>)
    requires Faithful(sensitive, heap, v, c, seen) && Faithful(sensitive, heap, v, d, seen)
    ensures c == d
    decreases c
  {
    if c.NodeCopy? {
      FaithfulSlotsAreUnique(sensitive, heap, c.keyed, heap[c.of].slots, c.slots, d.slots, seen + {c.of});
    }
  }

  lemma {:induction false} FaithfulSlotsAreUnique(sensitive: string -> bool, heap: Heap, keyed: bool, slots: seq<Slot>,
                                                  cs: seq<CopySlot>, ds: seq<CopySlot>, seen: set<Ref>)
    requires FaithfulSlots(sensitive, heap, keyed, slots, cs, seen)
    requires FaithfulSlots(sensitive, heap, keyed, slots, ds, seen)
    ensures cs == ds
    decreases cs
  {
    if slots != [] {
      if !(keyed && sensitive(slots[0].key)) {
        FaithfulIsUnique(sensitive, heap, slots[0].value, cs[0].value, ds[0].value, seen);
      }
      FaithfulSlotsAreUnique(sensitive, heap, keyed, slots[1..], cs[1..], ds[1..], seen + Copied(cs[0].value));
      assert cs == [cs[0]] + cs[1..] && ds == [ds[0]] + ds[1..];
    }
  }

  /** No value under a sensitive key, at any depth. */
  ghost predicate Clean(sensitive: string -> bool, c: Copy)
    decreases c
  {
    c.NodeCopy? ==>
      forall i | 0 <= i < |c.slots| ::
        && (c.keyed && sensitive(c.slots[i].key) ==> c.slots[i].value == Redacted)
        && Clean(sensitive, c.slots[i].value)
  }

  lemma {:induction false} FaithfulIsClean(sensitive: string -> bool, heap: Heap, v: Value, c: Copy, seen: set<Ref>)
    requires Faithful(sensitive, heap, v, c, seen)
    ensures Clean(sensitive, c)
    decreases c
  {
    if c.NodeCopy? {
      FaithfulSlotsAreClean(sensitive, heap, c.keyed, heap[c.of].slots, c.slots, seen + {c.of});
    }
  }

  lemma {:induction false} FaithfulSlotsAreClean(sensitive: string -> bool, heap: Heap, keyed: bool, slots: seq<Slot>,
                                                 copies: seq<CopySlot>, seen: set<Ref>)
    requires FaithfulSlots(sensitive, heap, keyed, slots, copies, seen)
    ensures forall i | 0 <= i < |copies| ::
              && (keyed && sensitive(copies[i].key) ==> copies[i].value == Redacted)
              && Clean(sensitive, copies[i].value)
    decreases copies
  {
    if copies != [] {
      if !(keyed && sensitive(slots[0].key)) {
        FaithfulIsClean(sensitive, heap, slots[0].value, copies[0].value, seen);
      }
      FaithfulSlotsAreClean(sensitive, heap, keyed, slots[1..], copies[1..], seen + Copied(copies[0].value));
      assert forall i | 1 <= i < |copies| :: copies[i] == copies[1..][i - 1];
    }
  }

  /** Whatever the graph, the slots of the logged context tell what those of the given one hold, and show nothing
      sensitive. */
  lemma ContextIsCleanAndFaithful(sensitive: string -> bool, heap: Heap, root: Ref)
    requires Closed(heap) && root in heap && heap[root].keyed
    ensures var copy := RedactContext(sensitive, heap, root);
            copy.NodeCopy? && copy.of == root && copy.keyed && Clean(sensitive, copy)
            && FaithfulSlots(sensitive, heap, true, heap[root].slots, copy.slots, {})
  {
    SlotsAreFaithful(sensitive, heap, true, heap[root].slots, {});
    FaithfulSlotsAreClean(sensitive, heap, true, heap[root].slots, RedactContext(sensitive, heap, root).slots, {});
  }

  /** And no other context does. */
  lemma ContextIsUnique(sensitive: string -> bool, heap: Heap, root: Ref, slots: seq<CopySlot>)
    requires Closed(heap) && root in heap && heap[root].keyed
    requires FaithfulSlots(sensitive, heap, true, heap[root].slots, slots, {})
    ensures RedactContext(sensitive, heap, root) == NodeCopy(root, true, slots)
  {
    ContextIsCleanAndFaithful(sensitive, heap, root);
    var copy := RedactContext(sensitive, heap, root);
    FaithfulSlotsAreUnique(sensitive, heap, true, heap[root].slots, slots, copy.slots, {});
  }

  // ---------------------------------------------------------------- nothing is lost

  /** What a slot that is not hidden refers to has been seen. */
  ghost predicate Read(sensitive: string -> bool, keyed: bool, slots: seq<Slot>, seen: set<Ref>) {
    forall s | s in slots :: (keyed && sensitive(s.key)) || (s.value.Reference? ==> s.value.ref in seen)
  }

  lemma {:induction false} ValueReadsOn(sensitive: string -> bool, heap: Heap, v: Value, seen: set<Ref>)
    requires Closed(heap) && Points(heap, v)
    ensures var r := RedactValue(sensitive, heap, v, seen);
            && (v.Reference? ==> v.ref in r.1)
            && forall x | x in r.1 - seen :: Read(sensitive, heap[x].keyed, heap[x].slots, r.1)
    decreases heap.Keys - seen, 0
  {
    if v.Reference? && v.ref !in seen {
      SlotsReadOn(sensitive, heap, heap[v.ref].keyed, heap[v.ref].slots, seen + {v.ref});
    }
  }

  lemma {:induction false} SlotsReadOn(sensitive: string -> bool, heap: Heap, keyed: bool, slots: seq<Slot>,
                                       seen: set<Ref>)
    requires Closed(heap) && AllPoint(heap, slots)
    ensures var r := RedactSlots(sensitive, heap, keyed, slots, seen);
            && Read(sensitive, keyed, slots, r.1)
            && forall x | x in r.1 - seen :: Read(sensitive, heap[x].keyed, heap[x].slots, r.1)
    decreases heap.Keys - seen, 2 + |slots|
  {
    if slots != [] {
      var first := RedactSlot(sensitive, heap, keyed, slots[0], seen);
      if !(keyed && sensitive(slots[0].key)) {
        ValueReadsOn(sensitive, heap, slots[0].value, seen);
      }
      SlotsReadOn(sensitive, heap, keyed, slots[1..], first.1);
      assert forall s | s in slots :: s == slots[0] || s in slots[1..];
    }
  }

  ghost predicate Shows(sensitive: string -> bool, keyed: bool, slots: seq<Slot>, to: Ref) {
    exists s | s in slots :: !(keyed && sensitive(s.key)) && s.value == Reference(to)
  }

  /** `to` is in a slot of `from` that is not hidden. */
  ghost predicate Leads(sensitive: string -> bool, heap: Heap, from: Ref, to: Ref) {
    from in heap && Shows(sensitive, heap[from].keyed, heap[from].slots, to)
  }

  /** A path of at least one node, each leading to the next. */
  ghost predicate IsPath(sensitive: string -> bool, heap: Heap, path: seq<Ref>) {
    path != [] && forall i | 0 < i < |path| :: Leads(sensitive, heap, path[i - 1], path[i])
  }

  ghost predicate Reaches(sensitive: string -> bool, heap: Heap, from: Ref, to: Ref) {
    exists path :: IsPath(sensitive, heap, path) && path[0] == from && path[|path| - 1] == to
  }

  /** In one step or more. */
  ghost predicate LeadsOn(sensitive: string -> bool, heap: Heap, from: Ref, to: Ref) {
    exists path :: IsPath(sensitive, heap, path) && |path| >= 2 && path[0] == from && path[|path| - 1] == to
  }

  lemma PathExtends(sensitive: string -> bool, heap: Heap, from: Ref, via: Ref, to: Ref)
    requires Leads(sensitive, heap, from, via) && Reaches(sensitive, heap, via, to)
    ensures LeadsOn(sensitive, heap, from, to) && Reaches(sensitive, heap, from, to)
  {
    var path :| IsPath(sensitive, heap, path) && path[0] == via && path[|path| - 1] == to;
    var longer := [from] + path;
    forall i | 0 < i < |longer|
      ensures Leads(sensitive, heap, longer[i - 1], longer[i])
    {
      if i > 1 {
        assert Leads(sensitive, heap, path[i - 2], path[i - 1]);
      }
    }
    assert IsPath(sensitive, heap, longer);
  }

  lemma ReachesItself(sensitive: string -> bool, heap: Heap, r: Ref)
    ensures Reaches(sensitive, heap, r, r)
  {
    assert IsPath(sensitive, heap, [r]);
  }

  /** Every node newly seen is reached from the value. */
  lemma {:induction false} ValueReachesSeen(sensitive: string -> bool, heap: Heap, v: Value, seen: set<Ref>, x: Ref)
    requires Closed(heap) && Points(heap, v) && x in RedactValue(sensitive, heap, v, seen).1 - seen
    ensures v.Reference? && Reaches(sensitive, heap, v.ref, x)
    decreases heap.Keys - seen, 0
  {
    if x == v.ref {
      ReachesItself(sensitive, heap, x);
    } else {
      var via := SlotsReachSeen(sensitive, heap, heap[v.ref].keyed, heap[v.ref].slots, seen + {v.ref}, x);
      PathExtends(sensitive, heap, v.ref, via, x);
    }
  }

  lemma {:induction false} SlotsReachSeen(sensitive: string -> bool, heap: Heap, keyed: bool, slots: seq<Slot>,
                                          seen: set<Ref>, x: Ref) returns (via: Ref)
    requires Closed(heap) && AllPoint(heap, slots) && x in RedactSlots(sensitive, heap, keyed, slots, seen).1 - seen
    ensures Shows(sensitive, keyed, slots, via) && Reaches(sensitive, heap, via, x)
    decreases heap.Keys - seen, 2 + |slots|
  {
    var first := RedactSlot(sensitive, heap, keyed, slots[0], seen);
    if x in first.1 {
      ValueReachesSeen(sensitive, heap, slots[0].value, seen, x);
      via := slots[0].value.ref;
      assert slots[0] in slots;
    } else {
      via := SlotsReachSeen(sensitive, heap, keyed, slots[1..], first.1, x);
      assert forall s | s in slots[1..] :: s in slots;
    }
  }

  /** Every node that a context leads to, however indirectly, is seen. */
  lemma {:induction false} ContextSeesAll(sensitive: string -> bool, heap: Heap, path: seq<Ref>)
    requires Closed(heap) && IsPath(sensitive, heap, path) && |path| >= 2 && path[0] in heap
    ensures path[|path| - 1] in RedactSlots(sensitive, heap, heap[path[0]].keyed, heap[path[0]].slots, {}).1
  {
    var root, n := path[0], |path| - 1;
    assert Leads(sensitive, heap, path[0], path[1]) && Leads(sensitive, heap, path[n - 1], path[n]);
    SlotsReadOn(sensitive, heap, heap[root].keyed, heap[root].slots, {});
    if n > 1 {
      ContextSeesAll(sensitive, heap, path[..n]);
    }
  }

  lemma SeenIffLedTo(sensitive: string -> bool, heap: Heap, root: Ref, x: Ref)
    requires Closed(heap) && root in heap && heap[root].keyed
    ensures x in RedactSlots(sensitive, heap, true, heap[root].slots, {}).1 <==> LeadsOn(sensitive, heap, root, x)
  {
    if x in RedactSlots(sensitive, heap, true, heap[root].slots, {}).1 {
      var via := SlotsReachSeen(sensitive, heap, true, heap[root].slots, {}, x);
      PathExtends(sensitive, heap, root, via, x);
    }
    if LeadsOn(sensitive, heap, root, x) {
      var path :| IsPath(sensitive, heap, path) && |path| >= 2 && path[0] == root && path[|path| - 1] == x;
      ContextSeesAll(sensitive, heap, path);
    }
  }

  /** How often a context expands each node: the nodes it leads to once, whatever the sharing, and itself once more. */
  lemma ContextExpandsExactly(sensitive: string -> bool, heap: Heap, root: Ref, x: Ref)
    requires Closed(heap) && root in heap && heap[root].keyed
    ensures Origins(RedactContext(sensitive, heap, root))[x]
         == (if x == root then 1 else 0) + (if LeadsOn(sensitive, heap, root, x) then 1 else 0)
  {
    SeenIffLedTo(sensitive, heap, root, x);
    SlotsExpandOnce(sensitive, heap, true, heap[root].slots, {});
  }

  /** Whatever a context leads to is copied. */
  lemma ContextCopiesAll(sensitive: string -> bool, heap: Heap, path: seq<Ref>)
    requires Closed(heap) && IsPath(sensitive, heap, path) && path[0] in heap && heap[path[0]].keyed
    ensures path[|path| - 1] in Origins(RedactContext(sensitive, heap, path[0]))
  {
    ContextExpandsExactly(sensitive, heap, path[0], path[|path| - 1]);
    assert |path| >= 2 ==> LeadsOn(sensitive, heap, path[0], path[|path| - 1]);
  }

  /** The context leads back to itself. */
  ghost predicate Cyclic(sensitive: string -> bool, heap: Heap, root: Ref) {
    LeadsOn(sensitive, heap, root, root)
  }

  /** So every node is expanded at most once, except that a context leading back to itself is expanded twice. */
  lemma ExpandedTwiceIffCyclic(sensitive: string -> bool, heap: Heap, root: Ref)
    requires Closed(heap) && root in heap && heap[root].keyed
    ensures forall x :: Origins(RedactContext(sensitive, heap, root))[x]
                        <= if x == root && Cyclic(sensitive, heap, root) then 2 else 1
    ensures Origins(RedactContext(sensitive, heap, root))[root] == if Cyclic(sensitive, heap, root) then 2 else 1
  {
    forall x
      ensures Origins(RedactContext(sensitive, heap, root))[x]
              <= if x == root && Cyclic(sensitive, heap, root) then 2 else 1
    {
      ContextExpandsExactly(sensitive, heap, root, x);
    }
    ContextExpandsExactly(sensitive, heap, root, root);
  }

  // ---------------------------------------------------------------- trees

  /** The graph below a value, written out in full. */
  ghost predicate Unfolds(heap: Heap, v: Value, t: Copy)
    decreases t
  {
    match t
    case Atom(x) => v.Primitive? && x == v
    case Redacted => false
    case Circular => false
    case NodeCopy(of, keyed, slots) =>
      v == Reference(of) && of in heap && heap[of].keyed == keyed && UnfoldSlots(heap, heap[of].slots, slots)
  }

  ghost predicate UnfoldSlots(heap: Heap, slots: seq<Slot>, ts: seq<CopySlot>)
    decreases ts
  {
    |ts| == |slots| &&
    forall i | 0 <= i < |slots| :: ts[i].key == slots[i].key && Unfolds(heap, slots[i].value, ts[i].value)
  }

  /** The same tree with its sensitive slots redacted. */
  function Mask(sensitive: string -> bool, t: Copy): Copy
    decreases t
  {
    if t.NodeCopy? then NodeCopy(t.of, t.keyed, MaskSlots(sensitive, t.keyed, t.slots)) else t
  }

  function MaskSlots(sensitive: string -> bool, keyed: bool, ts: seq<CopySlot>): seq<CopySlot>
    decreases ts
  {
    if ts == [] then []
    else [CopySlot(ts[0].key, if keyed && sensitive(ts[0].key) then Redacted else Mask(sensitive, ts[0].value))]
         + MaskSlots(sensitive, keyed, ts[1..])
  }

  /** No node is shared, and none has been seen. */
  ghost predicate Apart(origins: multiset<Ref>, seen: set<Ref>) {
    forall r :: origins[r] <= if r in seen then 0 else 1
  }

  lemma ApartFirst(first: multiset<Ref>, rest: multiset<Ref>, seen: set<Ref>)
    requires Apart(first + rest, seen)
    ensures Apart(first, seen)
  {
    assert forall r :: first[r] <= (first + rest)[r];
  }

  lemma ApartRest(first: multiset<Ref>, rest: multiset<Ref>, seen: set<Ref>, seen': set<Ref>)
    requires Apart(first + rest, seen) && forall x | x in seen' - seen :: x in first
    ensures Apart(rest, seen')
  {
    forall r
      ensures rest[r] <= if r in seen' then 0 else 1
    {
      assert (first + rest)[r] == first[r] + rest[r];
    }
  }

  /** On a tree, redaction changes nothing but the sensitive slots. */
  lemma {:induction false} TreeIsMasked(sensitive: string -> bool, heap: Heap, v: Value, t: Copy, seen: set<Ref>)
    requires Closed(heap) && Points(heap, v) && Unfolds(heap, v, t) && Apart(Origins(t), seen)
    ensures var r := RedactValue(sensitive, heap, v, seen);
            r.0 == Mask(sensitive, t) && forall x | x in r.1 - seen :: x in Origins(t)
    decreases t
  {
    if t.NodeCopy? {
      assert Origins(t)[t.of] >= 1;
      SlotsAreMasked(sensitive, heap, t.keyed, heap[t.of].slots, t.slots, seen + {t.of});
    }
  }

  lemma {:induction false} SlotsAreMasked(sensitive: string -> bool, heap: Heap, keyed: bool, slots: seq<Slot>,
                                          ts: seq<CopySlot>, seen: set<Ref>)
    requires Closed(heap) && AllPoint(heap, slots) && UnfoldSlots(heap, slots, ts) && Apart(SlotOrigins(ts), seen)
    ensures var r := RedactSlots(sensitive, heap, keyed, slots, seen);
            r.0 == MaskSlots(sensitive, keyed, ts) && forall x | x in r.1 - seen :: x in SlotOrigins(ts)
    decreases ts
  {
    if slots != [] {
      var first := RedactSlot(sensitive, heap, keyed, slots[0], seen);
      ApartFirst(Origins(ts[0].value), SlotOrigins(ts[1..]), seen);
      if !(keyed && sensitive(slots[0].key)) {
        TreeIsMasked(sensitive, heap, slots[0].value, ts[0].value, seen);
      }
      ApartRest(Origins(ts[0].value), SlotOrigins(ts[1..]), seen, first.1);
      SlotsAreMasked(sensitive, heap, keyed, slots[1..], ts[1..], first.1);
    }
  }

  lemma ContextTreeIsMasked(sensitive: string -> bool, heap: Heap, root: Ref, t: Copy)
    requires Closed(heap) && root in heap && heap[root].keyed
    requires Unfolds(heap, Reference(root), t) && Apart(Origins(t), {})
    ensures RedactContext(sensitive, heap, root) == Mask(sensitive, t)
  {
    assert Apart(SlotOrigins(t.slots), {});
    SlotsAreMasked(sensitive, heap, true, heap[root].slots, t.slots, {});
  }
}

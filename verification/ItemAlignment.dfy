/** Do two lists of subscription items agree? `assertAligned` of
    src/domain/internal/subscription-price-migration-execution-evidence.ts and `sameSubscriptionItems` of
    src/application/actions/subscriptions/apply-subscription-change.action.ts. */
module ItemAlignment {
  import opened Wrappers

  datatype CanonicalItem = CanonicalItem(id: string, quantity: int)

  datatype Item = Item(itemId: string, providerItemId: string, priceId: string, quantity: int)

  /** What alignment compares of an item. */
  datatype Line = Line(id: string, quantity: int)

  // ---------------------------------------------------------------- lists without repetition

  /** Pigeonhole: distinct elements, all taken from a list of the same length, are a permutation of it. */
  lemma {:induction false} Pigeonhole<T(!new)>(all: seq<T>, taken: seq<T>)
    requires |all| == |taken| && Distinct(taken) && forall x | x in taken :: x in all
    ensures multiset(all) == multiset(taken)
  {
    if taken != [] {
      var x := taken[0];
      assert x in taken;
      var i :| 0 <= i < |all| && all[i] == x;
      var rest := all[..i] + all[i + 1..];
      forall y | y in taken[1..]
        ensures y in rest
      {
        assert y in taken;
        var k :| 0 <= k < |all| && all[k] == y;
        assert y == rest[if k < i then k else k - 1];
      }
      Pigeonhole(rest, taken[1..]);
      assert all == all[..i] + [x] + all[i + 1..] && taken == [x] + taken[1..];
    }
  }

  lemma {:induction false} DistinctIffNoMultiples<T(!new)>(xs: seq<T>)
    ensures Distinct(xs) <==> forall x :: multiset(xs)[x] <= 1
  {
    if xs != [] {
      var n := |xs| - 1;
      DistinctIffNoMultiples(xs[..n]);
      assert xs == xs[..n] + [xs[n]];
      if Distinct(xs) {
        assert multiset(xs[..n])[xs[n]] == 0;
      } else if Distinct(xs[..n]) {
        var i :| 0 <= i < n && xs[i] == xs[n];
        assert xs[..n][i] == xs[n];
        assert multiset(xs)[xs[n]] >= 2;
      } else {
        var x :| multiset(xs[..n])[x] > 1;
        assert multiset(xs)[x] > 1;
      }
    }
  }

  lemma PermutationKeepsDistinct<T(!new)>(xs: seq<T>, ys: seq<T>)
    requires multiset(xs) == multiset(ys) && Distinct(xs)
    ensures Distinct(ys)
  {
    DistinctIffNoMultiples(xs);
    DistinctIffNoMultiples(ys);
  }

  lemma PermutationKeepsMembers<T>(xs: seq<T>, ys: seq<T>, y: T)
    requires multiset(xs) == multiset(ys) && y in ys
    ensures y in xs
  {
    assert y in multiset(ys);
  }

  // ---------------------------------------------------------------- maps by id

  function Ids<T>(id: T -> string, xs: seq<T>): (r: seq<string>)
    ensures |r| == |xs| && forall i | 0 <= i < |xs| :: r[i] == id(xs[i])
  {
    seq(|xs|, i requires 0 <= i < |xs| => id(xs[i]))
  }

  /** `new Map(xs.map((x) => [x.id, x]))`: of two elements with one id the later wins. */
  function ById<T>(id: T -> string, xs: seq<T>): map<string, T> {
    if xs == [] then map[]
    else ById(id, xs[..|xs| - 1])[id(xs[|xs| - 1]) := xs[|xs| - 1]]
  }

  lemma {:induction false} ByIdHolds<T(!new)>(id: T -> string, xs: seq<T>)
    ensures forall k | k in ById(id, xs) :: ById(id, xs)[k] in xs && id(ById(id, xs)[k]) == k
    ensures forall x | x in xs :: id(x) in ById(id, xs)
  {
    if xs != [] {
      var n := |xs| - 1;
      ByIdHolds(id, xs[..n]);
      assert xs == xs[..n] + [xs[n]];
    }
  }

  lemma MapGrows<T>(m: map<string, T>, k: string, v: T)
    ensures |m[k := v]| == if k in m then |m| else |m| + 1
  {
    assert m[k := v].Keys == m.Keys + {k};
    assert |m[k := v]| == |m[k := v].Keys| && |m| == |m.Keys|;
  }

  lemma DistinctAppend(ids: seq<string>, k: string)
    ensures Distinct(ids + [k]) <==> Distinct(ids) && k !in ids
  {
    var longer := ids + [k];
    assert longer[|ids|] == k;
    if Distinct(longer) {
      assert forall i | 0 <= i < |ids| :: longer[i] == ids[i];
    }
  }

  lemma DistinctIdsAppend<T(!new)>(id: T -> string, xs: seq<T>, i: nat)
    requires i < |xs|
    ensures Distinct(Ids(id, xs[..i + 1])) <==> Distinct(Ids(id, xs[..i])) && id(xs[i]) !in Ids(id, xs[..i])
  {
    assert Ids(id, xs[..i + 1]) == Ids(id, xs[..i]) + [id(xs[i])];
    DistinctAppend(Ids(id, xs[..i]), id(xs[i]));
  }

  lemma ByIdAppend<T(!new)>(id: T -> string, xs: seq<T>, i: nat)
    requires i < |xs|
    ensures Distinct(Ids(id, xs[..i + 1])) <==> Distinct(Ids(id, xs[..i])) && id(xs[i]) !in ById(id, xs[..i])
  {
    ByIdKeys(id, xs[..i], id(xs[i]));
    DistinctIdsAppend(id, xs, i);
  }

  lemma ByIdKeys<T(!new)>(id: T -> string, xs: seq<T>, k: string)
    ensures k in ById(id, xs) <==> k in Ids(id, xs)
  {
    ByIdHolds(id, xs);
    if k in ById(id, xs) {
      var i :| 0 <= i < |xs| && xs[i] == ById(id, xs)[k];
      assert Ids(id, xs)[i] == k;
    }
    if k in Ids(id, xs) {
      var i :| 0 <= i < |xs| && Ids(id, xs)[i] == k;
      assert xs[i] in xs;
    }
  }

  /** The map is as large as the list exactly when no id repeats. */
  lemma {:induction false} ByIdSize<T(!new)>(id: T -> string, xs: seq<T>)
    ensures |ById(id, xs)| <= |xs|
    ensures |ById(id, xs)| == |xs| <==> Distinct(Ids(id, xs))
  {
    if xs != [] {
      var n := |xs| - 1;
      var k := id(xs[n]);
      ByIdSize(id, xs[..n]);
      MapGrows(ById(id, xs[..n]), k, xs[n]);
      ByIdAppend(id, xs, n);
      assert xs[..n + 1] == xs;
    }
  }

  /** With distinct ids the map finds every element. */
  lemma ByIdFinds<T(!new)>(id: T -> string, xs: seq<T>, x: T)
    requires Distinct(Ids(id, xs)) && x in xs
    ensures id(x) in ById(id, xs) && ById(id, xs)[id(x)] == x
  {
    ByIdHolds(id, xs);
    var i :| 0 <= i < |xs| && xs[i] == x;
    var found := ById(id, xs)[id(x)];
    var j :| 0 <= j < |xs| && xs[j] == found;
    assert Ids(id, xs)[i] == Ids(id, xs)[j];
  }

  // ---------------------------------------------------------------- assertAligned

  function CanonicalLine(c: CanonicalItem): Line {
    Line(c.id, c.quantity)
  }

  function ItemLine(p: Item): Line {
    Line(p.itemId, p.quantity)
  }

  function CanonicalLines(canonical: seq<CanonicalItem>): (r: seq<Line>)
    ensures |r| == |canonical| && forall i | 0 <= i < |r| :: r[i] == CanonicalLine(canonical[i])
  {
    seq(|canonical|, i requires 0 <= i < |canonical| => CanonicalLine(canonical[i]))
  }

  function ItemLines(provider: seq<Item>): (r: seq<Line>)
    ensures |r| == |provider| && forall i | 0 <= i < |r| :: r[i] == ItemLine(provider[i])
  {
    seq(|provider|, i requires 0 <= i < |provider| => ItemLine(provider[i]))
  }

  const CANONICAL_ID := (c: CanonicalItem) => c.id
  const ITEM_ID := (p: Item) => p.itemId

  /** The same ids with the same quantities, none of them twice. */
  ghost predicate Aligned(canonical: seq<CanonicalItem>, provider: seq<Item>) {
    Distinct(Ids(CANONICAL_ID, canonical)) && multiset(CanonicalLines(canonical)) == multiset(ItemLines(provider))
  }

  /** What the loop has checked of an item. */
  predicate Matches(byId: map<string, CanonicalItem>, p: Item) {
    p.itemId in byId && byId[p.itemId].quantity == p.quantity
  }

  function IdSet(provider: seq<Item>): set<string> {
    if provider == [] then {}
    else IdSet(provider[..|provider| - 1]) + {provider[|provider| - 1].itemId}
  }

  /** Every item is new and matches. */
  predicate Passes(byId: map<string, CanonicalItem>, provider: seq<Item>) {
    provider == []
    || var n := |provider| - 1;
       Passes(byId, provider[..n]) && provider[n].itemId !in IdSet(provider[..n]) && Matches(byId, provider[n])
  }

  lemma {:induction false} PassesPrefix(byId: map<string, CanonicalItem>, provider: seq<Item>, i: nat)
    requires i <= |provider| && Passes(byId, provider)
    ensures Passes(byId, provider[..i])
  {
    if i == |provider| {
      assert provider[..i] == provider;
    } else {
      PassesPrefix(byId, provider[..|provider| - 1], i);
      assert provider[..|provider| - 1][..i] == provider[..i];
    }
  }

  lemma {:induction false} IdSetIsIds(provider: seq<Item>, k: string)
    ensures k in IdSet(provider) <==> k in Ids(ITEM_ID, provider)
  {
    if provider != [] {
      var n := |provider| - 1;
      IdSetIsIds(provider[..n], k);
      assert Ids(ITEM_ID, provider) == Ids(ITEM_ID, provider[..n]) + [provider[n].itemId];
    }
  }

  lemma {:induction false} PassesMeans(byId: map<string, CanonicalItem>, provider: seq<Item>)
    ensures Passes(byId, provider) <==>
              Distinct(Ids(ITEM_ID, provider)) && forall j | 0 <= j < |provider| :: Matches(byId, provider[j])
  {
    if provider != [] {
      var n := |provider| - 1;
      PassesMeans(byId, provider[..n]);
      IdSetIsIds(provider[..n], provider[n].itemId);
      DistinctIdsAppend(ITEM_ID, provider, n);
      assert provider[..n + 1] == provider;
    }
  }

  /** `assertAligned`; false where the program throws. */
  method AssertAligned(canonical: seq<CanonicalItem>, provider: seq<Item>) returns (ok: bool)
    ensures ok <==> Aligned(canonical, provider)
  {
    AlignedIffChecked(canonical, provider);
    if |canonical| != |provider| {
      return false;
    }
    var canonicalById := ById(CANONICAL_ID, canonical);
    if |canonicalById| != |canonical| {
      return false;
    }
    var providerIds: set<string> := {};
    for i := 0 to |provider|
      invariant providerIds == IdSet(provider[..i])
      invariant Passes(canonicalById, provider[..i])
    {
      var item := provider[i];
      assert provider[..i + 1][..i] == provider[..i];
      if item.itemId in providerIds || item.itemId !in canonicalById
         || canonicalById[item.itemId].quantity != item.quantity
      {
        if Passes(canonicalById, provider) {
          PassesPrefix(canonicalById, provider, i + 1);
        }
        return false;
      }
      providerIds := providerIds + {item.itemId};
    }
    assert provider[..|provider|] == provider;
    return true;
  }

  predicate Checked(canonical: seq<CanonicalItem>, provider: seq<Item>) {
    && |canonical| == |provider| && |ById(CANONICAL_ID, canonical)| == |canonical|
    && Passes(ById(CANONICAL_ID, canonical), provider)
  }

  lemma MatchesIffLineThere(canonical: seq<CanonicalItem>, p: Item)
    requires Distinct(Ids(CANONICAL_ID, canonical))
    ensures Matches(ById(CANONICAL_ID, canonical), p) <==> ItemLine(p) in CanonicalLines(canonical)
  {
    var lines := CanonicalLines(canonical);
    ByIdHolds(CANONICAL_ID, canonical);
    if Matches(ById(CANONICAL_ID, canonical), p) {
      var c := ById(CANONICAL_ID, canonical)[p.itemId];
      var i :| 0 <= i < |canonical| && canonical[i] == c;
      assert lines[i] == ItemLine(p);
    }
    if ItemLine(p) in lines {
      var i :| 0 <= i < |lines| && lines[i] == ItemLine(p);
      ByIdFinds(CANONICAL_ID, canonical, canonical[i]);
    }
  }

  lemma LinesDistinct(ids: seq<string>, lines: seq<Line>)
    requires |ids| == |lines| && Distinct(ids) && forall i | 0 <= i < |ids| :: lines[i].id == ids[i]
    ensures Distinct(lines)
  {
  }

  /** The checks pass exactly on aligned lists: by pigeonhole no canonical item is left out. */
  lemma AlignedIffChecked(canonical: seq<CanonicalItem>, provider: seq<Item>)
    ensures Aligned(canonical, provider) <==> Checked(canonical, provider)
  {
    var all, taken := CanonicalLines(canonical), ItemLines(provider);
    ByIdSize(CANONICAL_ID, canonical);
    PassesMeans(ById(CANONICAL_ID, canonical), provider);
    if Checked(canonical, provider) {
      LinesDistinct(Ids(ITEM_ID, provider), taken);
      forall x | x in taken
        ensures x in all
      {
        var j :| 0 <= j < |taken| && taken[j] == x;
        MatchesIffLineThere(canonical, provider[j]);
      }
      Pigeonhole(all, taken);
    }
    if Aligned(canonical, provider) {
      assert |multiset(all)| == |multiset(taken)|;
      forall j | 0 <= j < |provider|
        ensures Matches(ById(CANONICAL_ID, canonical), provider[j])
      {
        PermutationKeepsMembers(all, taken, taken[j]);
        MatchesIffLineThere(canonical, provider[j]);
      }
      LinesDistinct(Ids(CANONICAL_ID, canonical), all);
      PermutationKeepsDistinct(all, taken);
      forall i, j | 0 <= i < j < |provider|
        ensures provider[i].itemId != provider[j].itemId
      {
        assert Matches(ById(CANONICAL_ID, canonical), provider[i])
            && Matches(ById(CANONICAL_ID, canonical), provider[j]);
        assert taken[i] != taken[j];
      }
    }
  }

  // ---------------------------------------------------------------- sameSubscriptionItems

  predicate SameSubscriptionItems(current: seq<Item>, preview: seq<Item>) {
    && |current| == |preview|
    && var currentById := ById(ITEM_ID, current);
       forall p | p in preview ::
         && p.itemId in currentById && currentById[p.itemId].providerItemId == p.providerItemId
         && currentById[p.itemId].priceId == p.priceId && currentById[p.itemId].quantity == p.quantity
  }

  lemma SameMembers(current: seq<Item>, preview: seq<Item>, p: Item)
    requires SameSubscriptionItems(current, preview) && p in preview
    ensures p in current
  {
    ByIdHolds(ITEM_ID, current);
    assert ById(ITEM_ID, current)[p.itemId] == p;
  }

  lemma DistinctIdsDistinctItems(items: seq<Item>)
    requires Distinct(Ids(ITEM_ID, items))
    ensures Distinct(items)
  {
    assert forall i, j | 0 <= i < j < |items| :: Ids(ITEM_ID, items)[i] != Ids(ITEM_ID, items)[j];
  }

  /** If no id repeats in the preview, the comparison holds exactly of permutations.
      Nothing is asked of the current items. */
  lemma SameIffPermutation(current: seq<Item>, preview: seq<Item>)
    requires Distinct(Ids(ITEM_ID, preview))
    ensures SameSubscriptionItems(current, preview) <==> multiset(current) == multiset(preview)
  {
    if SameSubscriptionItems(current, preview) {
      DistinctIdsDistinctItems(preview);
      forall p | p in preview
        ensures p in current
      {
        SameMembers(current, preview, p);
      }
      Pigeonhole(current, preview);
    }
    if multiset(current) == multiset(preview) {
      assert |multiset(current)| == |multiset(preview)|;
      PermutationKeepsDistinctIds(preview, current);
      forall p | p in preview
        ensures p.itemId in ById(ITEM_ID, current) && ById(ITEM_ID, current)[p.itemId] == p
      {
        PermutationKeepsMembers(current, preview, p);
        ByIdFinds(ITEM_ID, current, p);
      }
    }
  }

  lemma PermutationKeepsDistinctIds(xs: seq<Item>, ys: seq<Item>)
    requires multiset(xs) == multiset(ys) && Distinct(Ids(ITEM_ID, xs))
    ensures Distinct(Ids(ITEM_ID, ys))
  {
    DistinctIdsDistinctItems(xs);
    PermutationKeepsDistinct(xs, ys);
    forall i, j | 0 <= i < j < |ys|
      ensures ys[i].itemId != ys[j].itemId
    {
      PermutationKeepsMembers(xs, ys, ys[i]);
      PermutationKeepsMembers(xs, ys, ys[j]);
      var k :| 0 <= k < |xs| && xs[k] == ys[i];
      var l :| 0 <= l < |xs| && xs[l] == ys[j];
      assert k != l;
      assert Ids(ITEM_ID, xs)[k] != Ids(ITEM_ID, xs)[l];
    }
  }

  /** With distinct current items only, lists that compare as the same are permutations
      exactly when no id repeats in the preview. */
  lemma SameNeedsDistinctPreview(current: seq<Item>, preview: seq<Item>)
    requires Distinct(Ids(ITEM_ID, current)) && SameSubscriptionItems(current, preview)
    ensures multiset(current) == multiset(preview) <==> Distinct(Ids(ITEM_ID, preview))
  {
    if multiset(current) == multiset(preview) {
      PermutationKeepsDistinctIds(current, preview);
    } else if Distinct(Ids(ITEM_ID, preview)) {
      SameIffPermutation(current, preview);
    }
  }

  /** A preview that lists one item twice compares as the same as two items. */
  lemma RepeatedPreviewItem(a: Item, b: Item)
    requires a.itemId != b.itemId
    ensures SameSubscriptionItems([a, b], [a, a]) && multiset([a, b]) != multiset([a, a])
  {
    assert Ids(ITEM_ID, [a, b]) == [a.itemId, b.itemId];
    assert a in [a, b];
    ByIdFinds(ITEM_ID, [a, b], a);
    assert b in multiset([a, b]) && b !in multiset([a, a]);
  }
}

/** `Money.allocate` (src/domain/value-objects/money.ts): shares in proportion, remainder handed out unit by unit. */
module Allocation {
  import opened Wrappers
  import opened Doubles
  import opened Money

  function Sum(xs: seq<int>): int {
    SumTo(xs, |xs|)
  }

  /** How many of the first `k` ratios are positive. */
  function Rank(ratios: seq<int>, k: nat): (r: nat)
    requires k <= |ratios|
    ensures r <= k
  {
    if k == 0 then 0 else Rank(ratios, k - 1) + if ratios[k - 1] > 0 then 1 else 0
  }

  ghost predicate Ratios(ratios: seq<int>) {
    (forall i | 0 <= i < |ratios| :: ratios[i] >= 0) && Sum(ratios) > 0
  }

  /** The proportional shares, cut off towards zero. */
  function Floors(amount: int, ratios: seq<int>, total: int): (r: seq<int>)
    requires total > 0
    ensures |r| == |ratios| && forall i | 0 <= i < |r| :: r[i] == TruncatedQuotient(amount * ratios[i], total)
  {
    seq(|ratios|, i requires 0 <= i < |ratios| => TruncatedQuotient(amount * ratios[i], total))
  }

  function Remainder(amount: int, ratios: seq<int>): int
    requires Sum(ratios) > 0
  {
    amount - Sum(Floors(amount, ratios, Sum(ratios)))
  }

  /** The share of index `i`: one unit more than the cut-off share for the first |remainder| positive ratios. */
  function Share(amount: int, ratios: seq<int>, i: nat): int
    requires Sum(ratios) > 0 && i < |ratios|
  {
    TruncatedQuotient(amount * ratios[i], Sum(ratios))
    + if ratios[i] > 0 && Rank(ratios, i) < Abs(Remainder(amount, ratios)) then Sign(amount) else 0
  }

  function Shares(amount: int, ratios: seq<int>): (r: seq<int>)
    requires Sum(ratios) > 0
    ensures |r| == |ratios| && forall i | 0 <= i < |r| :: r[i] == Share(amount, ratios, i)
  {
    seq(|ratios|, i requires 0 <= i < |ratios| => Share(amount, ratios, i))
  }

  // ---------------------------------------------------------------- the remainder is small

  lemma DivMod(x: nat, t: nat)
    requires t > 0
    ensures x == x / t * t + x % t && 0 <= x % t < t
  {
  }

  /** One more ratio `r` loses what its division leaves over. */
  lemma LossStep(a: nat, t: int, f: int, r: nat, total: int)
    requires total > 0
    ensures a * r >= 0
    ensures a * (t + r) - (f + a * r / total) * total == (a * t - f * total) + a * r % total
    ensures 0 <= a * r % total < total && (r == 0 ==> a * r % total == 0)
  {
    MulNonneg(a, r);
    DivMod(a * r, total);
    Distribute(a, t, r);
    DistributeRight(f, a * r / total, total);
  }

  /** After `k` indices the cut-offs have lost less than one unit per positive ratio. */
  lemma {:induction false} LossBounded(a: nat, ratios: seq<int>, total: int, k: nat)
    requires total > 0 && k <= |ratios| && forall i | 0 <= i < |ratios| :: ratios[i] >= 0
    ensures 0 <= a * SumTo(ratios, k) - SumTo(Floors(a, ratios, total), k) * total <= Rank(ratios, k) * (total - 1)
  {
    if k > 0 {
      var r, rank := ratios[k - 1], Rank(ratios, k - 1);
      LossBounded(a, ratios, total, k - 1);
      LossStep(a, SumTo(ratios, k - 1), SumTo(Floors(a, ratios, total), k - 1), r, total);
      DistributeRight(rank, 1, total - 1);
    }
  }

  lemma Distribute(a: int, b: int, c: int)
    ensures a * (b + c) == a * b + a * c
  {
  }

  lemma DistributeRight(a: int, b: int, c: int)
    ensures (a + b) * c == a * c + b * c
  {
  }

  lemma NegMul(a: int, b: int)
    ensures (-a) * b == -(a * b)
  {
  }

  lemma QuotientNegates(x: int, t: int)
    requires t > 0
    ensures TruncatedQuotient(-x, t) == -TruncatedQuotient(x, t)
  {
    if x == 0 {
      ZeroQuotient(t);
    }
  }

  lemma ZeroQuotient(t: int)
    requires t > 0
    ensures 0 / t == 0
  {
  }

  /** The cut-off shares of a negated amount are the negated cut-off shares. */
  lemma FloorNegates(amount: int, ratios: seq<int>, total: int, i: nat)
    requires total > 0 && i < |ratios|
    ensures Floors(-amount, ratios, total)[i] == -Floors(amount, ratios, total)[i]
  {
    NegMul(amount, ratios[i]);
    QuotientNegates(amount * ratios[i], total);
  }

  lemma {:induction false} FloorsNegate(amount: int, ratios: seq<int>, total: int, k: nat)
    requires total > 0 && k <= |ratios|
    ensures SumTo(Floors(-amount, ratios, total), k) == -SumTo(Floors(amount, ratios, total), k)
  {
    if k > 0 {
      FloorsNegate(amount, ratios, total, k - 1);
      FloorNegates(amount, ratios, total, k - 1);
    }
  }

  lemma RemainderNegate(amount: int, ratios: seq<int>)
    requires Sum(ratios) > 0
    ensures Remainder(-amount, ratios) == -Remainder(amount, ratios)
  {
    FloorsNegate(amount, ratios, Sum(ratios), |ratios|);
  }

  lemma RemainderSmallNonneg(a: nat, ratios: seq<int>)
    requires Ratios(ratios)
    ensures 0 <= Remainder(a, ratios) < Rank(ratios, |ratios|)
  {
    var total, p := Sum(ratios), Rank(ratios, |ratios|);
    LossBounded(a, ratios, total, |ratios|);
    var r := Remainder(a, ratios);
    assert r * total == a * total - Sum(Floors(a, ratios, total)) * total by {
      DistributeRight(r, Sum(Floors(a, ratios, total)), total);
    }
    SomePositive(ratios, |ratios|);
    if r < 0 {
      MulMonotone(r, -1, total);
    }
    if r >= p {
      MulMonotone(p, r, total);
      Distribute(p, total - 1, 1);
    }
  }

  lemma {:induction false} SomePositive(ratios: seq<int>, k: nat)
    requires k <= |ratios| && SumTo(ratios, k) > 0
    ensures Rank(ratios, k) > 0
  {
    if ratios[k - 1] <= 0 {
      SomePositive(ratios, k - 1);
    }
  }

  /** The remainder has the sign of the amount and is below the number of positive ratios:
      the cursor that hands it out never wraps around. */
  lemma RemainderSmall(amount: int, ratios: seq<int>)
    requires Ratios(ratios)
    ensures Abs(Remainder(amount, ratios)) < Rank(ratios, |ratios|)
    ensures Remainder(amount, ratios) == Sign(amount) * Abs(Remainder(amount, ratios))
  {
    RemainderSmallNonneg(Abs(amount), ratios);
    RemainderNegate(amount, ratios);
    if amount == 0 {
      assert Remainder(0, ratios) == -Remainder(0, ratios) == 0;
    }
  }

  // ---------------------------------------------------------------- properties of the shares

  function Min(a: int, b: int): int {
    if a < b then a else b
  }

  lemma {:induction false} SharesSum(amount: int, ratios: seq<int>, k: nat)
    requires Sum(ratios) > 0 && k <= |ratios|
    ensures SumTo(Shares(amount, ratios), k) == SumTo(Floors(amount, ratios, Sum(ratios)), k)
              + Sign(amount) * Min(Rank(ratios, k), Abs(Remainder(amount, ratios)))
  {
    if k > 0 {
      SharesSum(amount, ratios, k - 1);
    }
  }

  /** No unit is lost or made. */
  lemma AllocateConserves(amount: int, ratios: seq<int>)
    requires Ratios(ratios)
    ensures Sum(Shares(amount, ratios)) == amount
  {
    SharesSum(amount, ratios, |ratios|);
    RemainderSmall(amount, ratios);
  }

  /** A zero ratio gets nothing, and every share is within one unit of the exact proportion. */
  lemma ShareIsFair(amount: int, ratios: seq<int>, i: nat)
    requires Ratios(ratios) && i < |ratios|
    ensures ratios[i] == 0 ==> Share(amount, ratios, i) == 0
    ensures Abs(Share(amount, ratios, i) * Sum(ratios) - amount * ratios[i]) <= Sum(ratios)
  {
    var total, x := Sum(ratios), amount * ratios[i];
    var floor := TruncatedQuotient(x, total);
    AbsMul(amount, ratios[i]);
    DivMod(Abs(x), total);
    assert floor * total == if x < 0 then -(Abs(x) / total * total) else Abs(x) / total * total;
    if ratios[i] > 0 {
      DistributeRight(floor, Sign(amount), total);
      SignOfProduct(amount, ratios[i]);
      assert amount > 0 ==> 0 <= x - floor * total < total;
      assert amount < 0 ==> 0 <= floor * total - x < total;
    }
  }

  lemma SignOfProduct(amount: int, ratio: int)
    requires ratio > 0
    ensures Sign(amount * ratio) == Sign(amount)
  {
    if amount > 0 {
      MulMonotone(1, amount, ratio);
    } else if amount < 0 {
      MulMonotone(amount, -1, ratio);
    }
  }

  /** Index `i` gets one unit more than its cut-off share. */
  predicate GetsExtra(amount: int, ratios: seq<int>, i: nat)
    requires Sum(ratios) > 0 && i < |ratios|
  {
    Abs(Share(amount, ratios, i)) * Sum(ratios) > Abs(amount) * ratios[i]
  }

  /** `s` is the least number of units above x / total, or else the greatest that is not. */
  predicate Brackets(s: int, total: int, x: int, extra: bool) {
    if extra then (s - 1) * total <= x < s * total else s * total <= x < (s + 1) * total
  }

  /** A share has the sign of the amount. Without an extra unit it is the largest number of units within the exact
      proportion, with one the smallest number beyond it; and extra units go to the first positive ratios. */
  lemma FirstPositivesGetExtra(amount: int, ratios: seq<int>, i: nat)
    requires Ratios(ratios) && i < |ratios| && ratios[i] > 0
    ensures Share(amount, ratios, i) == Sign(amount) * Abs(Share(amount, ratios, i))
    ensures Brackets(Abs(Share(amount, ratios, i)), Sum(ratios), Abs(amount) * ratios[i],
                     GetsExtra(amount, ratios, i))
    ensures GetsExtra(amount, ratios, i) ==> forall j | 0 <= j < i && ratios[j] > 0 :: GetsExtra(amount, ratios, j)
  {
    ExtraIffEarly(amount, ratios, i);
    forall j | 0 <= j < i && ratios[j] > 0
      ensures GetsExtra(amount, ratios, i) ==> GetsExtra(amount, ratios, j)
    {
      ExtraIffEarly(amount, ratios, j);
      RankMonotone(ratios, j, i);
    }
  }

  lemma ExtraIffEarly(amount: int, ratios: seq<int>, i: nat)
    requires Ratios(ratios) && i < |ratios| && ratios[i] > 0
    ensures Share(amount, ratios, i) == Sign(amount) * Abs(Share(amount, ratios, i))
    ensures GetsExtra(amount, ratios, i) <==> Rank(ratios, i) < Abs(Remainder(amount, ratios))
    ensures Brackets(Abs(Share(amount, ratios, i)), Sum(ratios), Abs(amount) * ratios[i],
                     GetsExtra(amount, ratios, i))
  {
    ShareOfMagnitude(amount, ratios, i);
    var a := Abs(amount);
    var x := a * ratios[i];
    MulNonneg(a, ratios[i]);
    assert Sign(a) == 1 || (a == 0 && Remainder(a, ratios) == 0);
    OneMoreOrNot(x, Sum(ratios), Share(a, ratios, i), Rank(ratios, i) < Abs(Remainder(amount, ratios)));
  }

  /** One unit more than the quotient is beyond the proportion, the quotient is not. */
  lemma OneMoreOrNot(x: nat, total: nat, s: int, extra: bool)
    requires total > 0 && s == x / total + if extra then 1 else 0
    ensures s * total > x <==> extra
    ensures Brackets(s, total, x, extra)
  {
    DivMod(x, total);
    DistributeRight(x / total, 1, total);
  }

  /** A share is that of the magnitude of the amount, with the sign of the amount. */
  lemma ShareOfMagnitude(amount: int, ratios: seq<int>, i: nat)
    requires Ratios(ratios) && i < |ratios| && ratios[i] > 0
    ensures Share(Abs(amount), ratios, i) == Abs(Share(amount, ratios, i))
    ensures Share(amount, ratios, i) == Sign(amount) * Abs(Share(amount, ratios, i))
    ensures Remainder(Abs(amount), ratios) == Abs(Remainder(amount, ratios))
    ensures amount == 0 ==> Remainder(amount, ratios) == 0
  {
    var a, total := Abs(amount), Sum(ratios);
    MulNonneg(a, ratios[i]);
    QuotientNonneg(a * ratios[i], total);
    RemainderSmall(amount, ratios);
    RemainderSmallNonneg(a, ratios);
    RemainderNegate(amount, ratios);
    ShareNegates(amount, ratios, i);
    if amount == 0 {
      ZeroQuotient(total);
    }
  }

  /** Negating the amount negates every share. */
  lemma ShareNegates(amount: int, ratios: seq<int>, i: nat)
    requires Sum(ratios) > 0 && i < |ratios|
    ensures Share(-amount, ratios, i) == -Share(amount, ratios, i)
  {
    FloorNegates(amount, ratios, Sum(ratios), i);
    RemainderNegate(amount, ratios);
  }

  lemma {:induction false} ElementWithinSum(xs: seq<int>, i: nat, k: nat)
    requires i < k <= |xs| && forall j | 0 <= j < |xs| :: xs[j] >= 0
    ensures 0 <= xs[i] <= SumTo(xs, k)
  {
    if i == k - 1 {
      SumNonneg(xs, k - 1);
    } else {
      ElementWithinSum(xs, i, k - 1);
    }
  }

  lemma {:induction false} SumNonneg(xs: seq<int>, k: nat)
    requires k <= |xs| && forall j | 0 <= j < |xs| :: xs[j] >= 0
    ensures SumTo(xs, k) >= 0
  {
    if k > 0 {
      SumNonneg(xs, k - 1);
    }
  }

  /** No share is larger than the amount, so building the parts never fails. */
  lemma ShareBounded(amount: int, ratios: seq<int>, i: nat)
    requires Ratios(ratios) && i < |ratios|
    ensures Abs(Share(amount, ratios, i)) <= Abs(amount)
  {
    var a := Abs(amount);
    AllocateConserves(a, ratios);
    forall j | 0 <= j < |ratios| ensures Shares(a, ratios)[j] >= 0 {
      MulNonneg(a, ratios[j]);
      DivMod(a * ratios[j], Sum(ratios));
      QuotientNonneg(a * ratios[j], Sum(ratios));
    }
    ElementWithinSum(Shares(a, ratios), i, |ratios|);
    ShareNegates(amount, ratios, i);
  }

  lemma QuotientNonneg(x: nat, t: nat)
    requires t > 0
    ensures x / t >= 0
  {
  }

  // ---------------------------------------------------------------- the method

  lemma {:induction false} RankMonotone(ratios: seq<int>, i: nat, k: nat)
    requires i <= k <= |ratios|
    ensures Rank(ratios, i) <= Rank(ratios, k)
  {
    if i < k {
      RankMonotone(ratios, i, k - 1);
    }
  }

  /** Two positive ratios never have the same rank. */
  lemma RankInjective(ratios: seq<int>, i: nat, j: nat)
    requires i < |ratios| && j < |ratios| && ratios[i] > 0 && ratios[j] > 0 && Rank(ratios, i) == Rank(ratios, j)
    ensures i == j
  {
    var low, high := if i < j then i else j, if i < j then j else i;
    if low < high {
      RankMonotone(ratios, low + 1, high);
    }
  }

  ghost predicate Eligible(ratios: seq<int>, eligible: seq<nat>, k: nat)
    requires k <= |ratios|
  {
    && |eligible| == Rank(ratios, k)
    && forall c | 0 <= c < |eligible| ::
         eligible[c] < k && ratios[eligible[c]] > 0 && Rank(ratios, eligible[c]) == c
  }

  /** The cut-off shares, with one unit `step` on each of the first `cursor` positive ratios. */
  ghost predicate HandedOut(ratios: seq<int>, floors: seq<int>, shares: seq<int>, step: int, cursor: nat)
    requires |floors| == |ratios|
  {
    |shares| == |ratios| &&
    forall i | 0 <= i < |ratios| ::
      shares[i] == floors[i] + if ratios[i] > 0 && Rank(ratios, i) < cursor then step else 0
  }

  method Positions(ratios: seq<int>) returns (eligible: seq<nat>)
    ensures Eligible(ratios, eligible, |ratios|)
  {
    eligible := [];
    for index := 0 to |ratios|
      invariant Eligible(ratios, eligible, index)
    {
      if ratios[index] > 0 {
        eligible := eligible + [index];
      }
    }
  }

  /** The cut-off shares in doubles. A product is safe as rounded exactly if it is safe. */
  method CutOffShares(fl: Arithmetic, amount: int, ratios: seq<int>, total: int)
    returns (r: Result<seq<int>, MoneyError>)
    requires Ieee(fl) && total > 0 && Sum(ratios) > 0 && SameScale(total, Sum(ratios))
    ensures r.Success? <==> forall i | 0 <= i < |ratios| :: Safe(amount * ratios[i])
    ensures r.Success? ==> r.value == Floors(amount, ratios, Sum(ratios))
    ensures r.Failure? ==> r.error == UnsafeInteger
  {
    var shares := [];
    for i := 0 to |ratios|
      invariant |shares| == i
      invariant forall j | 0 <= j < i ::
                  Safe(amount * ratios[j]) && shares[j] == TruncatedQuotient(amount * ratios[j], Sum(ratios))
    {
      if !Safe(amount * ratios[i]) {
        return Failure(UnsafeInteger);
      }
      CutOffIsExact(fl, amount * ratios[i], total, Sum(ratios));
      shares := shares + [Trunc(fl.quotient(amount * ratios[i], total))];
    }
    assert shares == Floors(amount, ratios, Sum(ratios));
    r := Success(shares);
  }

  lemma CutOffIsExact(fl: Arithmetic, x: int, total: int, exact: int)
    requires Ieee(fl) && Safe(x) && total > 0 && exact > 0 && SameScale(total, exact)
    ensures Trunc(fl.quotient(x, total)) == TruncatedQuotient(x, exact)
  {
    QuotientTruncates(fl, x, total);
    SameQuotient(x, total, exact);
  }

  method SumOf(fl: Arithmetic, xs: seq<int>) returns (sum: int)
    ensures sum == RoundedSumTo(fl, xs, |xs|)
  {
    sum := 0;
    for i := 0 to |xs|
      invariant sum == RoundedSumTo(fl, xs, i)
    {
      sum := fl.round(sum + xs[i]);
    }
  }

  /** The cut-off shares add up without leaving the amount, so doubles add them up exactly. */
  lemma FloorsAddUpExactly(fl: Arithmetic, amount: int, ratios: seq<int>)
    requires Ieee(fl) && Safe(amount) && Ratios(ratios)
    ensures var floors := Floors(amount, ratios, Sum(ratios)); RoundedSumTo(fl, floors, |floors|) == Sum(floors)
  {
    var floors := Floors(amount, ratios, Sum(ratios));
    forall j: nat | j <= |floors|
      ensures Safe(SumTo(floors, j))
    {
      FloorsWithinAmount(amount, ratios, j);
    }
    RoundedSumIsExact(fl, floors, |floors|);
  }

  lemma FloorsWithinAmount(amount: int, ratios: seq<int>, k: nat)
    requires Ratios(ratios) && k <= |ratios|
    ensures Abs(SumTo(Floors(amount, ratios, Sum(ratios)), k)) <= Abs(amount)
  {
    var a := Abs(amount);
    var floors := Floors(a, ratios, Sum(ratios));
    forall i | 0 <= i < |ratios|
      ensures floors[i] >= 0
    {
      MulNonneg(a, ratios[i]);
      QuotientNonneg(a * ratios[i], Sum(ratios));
    }
    SumGrows(floors, k, |floors|);
    SumNonneg(floors, k);
    RemainderSmall(a, ratios);
    if amount < 0 {
      FloorsNegate(a, ratios, Sum(ratios), k);
    }
  }

  lemma {:induction false} SumGrows(xs: seq<int>, k: nat, n: nat)
    requires k <= n <= |xs| && forall i | 0 <= i < |xs| :: xs[i] >= 0
    ensures SumTo(xs, k) <= SumTo(xs, n)
  {
    if k < n {
      SumGrows(xs, k, n - 1);
    }
  }

  lemma SmallMod(a: nat, b: nat)
    requires a < b
    ensures a % b == a
  {
  }

  lemma AllHandedOut(amount: int, ratios: seq<int>, shares: seq<int>, step: int)
    requires Safe(amount) && Ratios(ratios) && (Remainder(amount, ratios) != 0 ==> step == Sign(amount))
    requires HandedOut(ratios, Floors(amount, ratios, Sum(ratios)), shares, step, Abs(Remainder(amount, ratios)))
    ensures shares == Shares(amount, ratios) && forall i | 0 <= i < |ratios| :: Safe(shares[i])
  {
    forall i | 0 <= i < |ratios| ensures shares[i] == Share(amount, ratios, i) && Safe(shares[i]) {
      ShareBounded(amount, ratios, i);
    }
  }

  /** The loop of `allocate` over the remainder. The cursor never wraps around. */
  method HandOutRemainder(amount: int, ratios: seq<int>, floors: seq<int>, eligible: seq<nat>, remainder0: int)
    returns (shares: seq<int>)
    requires Safe(amount) && Ratios(ratios) && floors == Floors(amount, ratios, Sum(ratios))
    requires Eligible(ratios, eligible, |ratios|) && remainder0 == Remainder(amount, ratios)
    ensures shares == Shares(amount, ratios) && forall i | 0 <= i < |ratios| :: Safe(shares[i])
  {
    shares := floors;
    var remainder := remainder0;
    RemainderSmall(amount, ratios);
    var step := if remainder >= 0 then 1 else -1;
    var cursor := 0;
    while remainder != 0
      invariant 0 <= cursor <= Abs(Remainder(amount, ratios))
      invariant remainder == Remainder(amount, ratios) - step * cursor
      invariant HandedOut(ratios, floors, shares, step, cursor)
      decreases Abs(remainder)
    {
      assert cursor < |eligible|;
      SmallMod(cursor, |eligible|);
      var target := eligible[cursor % |eligible|];
      HandOut(ratios, floors, shares, step, cursor, target);
      shares := shares[target := shares[target] + step];
      remainder := remainder - step;
      cursor := cursor + 1;
    }
    AllHandedOut(amount, ratios, shares, step);
  }

  /** `allocate` */
  method Allocate(fl: Arithmetic, amount: int, ratios: seq<int>) returns (r: Result<seq<int>, MoneyError>)
    requires Ieee(fl) && Safe(amount)
    ensures r.Success? <==> Ratios(ratios) && forall i | 0 <= i < |ratios| :: Safe(amount * ratios[i])
    ensures r.Success? ==> r.value == Shares(amount, ratios) && forall i | 0 <= i < |ratios| :: Safe(r.value[i])
    ensures r == Failure(NoRatios) <==> ratios == []
    ensures r == Failure(NegativeRatio) <==> exists i :: 0 <= i < |ratios| && ratios[i] < 0
    ensures r == Failure(ZeroTotal) <==>
              ratios != [] && Sum(ratios) == 0 && forall i | 0 <= i < |ratios| :: ratios[i] >= 0
    ensures r == Failure(UnsafeInteger) <==>
              Ratios(ratios) && exists i :: 0 <= i < |ratios| && !Safe(amount * ratios[i])
  {
    if |ratios| == 0 {
      return Failure(NoRatios);
    }
    if exists i :: 0 <= i < |ratios| && ratios[i] < 0 {
      return Failure(NegativeRatio);
    }
    var total := SumOf(fl, ratios);
    RoundedTotal(fl, ratios, |ratios|);
    if total <= 0 {
      return Failure(ZeroTotal);
    }
    var cut := CutOffShares(fl, amount, ratios, total);
    if cut.Failure? {
      return Failure(cut.error);
    }
    var eligible := Positions(ratios);
    var given := SumOf(fl, cut.value);
    FloorsAddUpExactly(fl, amount, ratios);
    var shares := HandOutRemainder(amount, ratios, cut.value, eligible, amount - given);
    r := Success(shares);
  }

  lemma HandOut(ratios: seq<int>, floors: seq<int>, shares: seq<int>, step: int, cursor: nat, target: nat)
    requires |floors| == |ratios| && HandedOut(ratios, floors, shares, step, cursor)
    requires target < |ratios| && ratios[target] > 0 && Rank(ratios, target) == cursor
    ensures HandedOut(ratios, floors, shares[target := shares[target] + step], step, cursor + 1)
  {
    forall i | 0 <= i < |ratios| && ratios[i] > 0 && Rank(ratios, i) == cursor ensures i == target {
      RankInjective(ratios, i, target);
    }
  }
}

/** Integers in IEEE 754 doubles, as JavaScript numbers hold them, rounded to nearest. */
module Doubles {

  /** Number.MAX_SAFE_INTEGER, 2^53 - 1: doubles hold every integer up to here, and 2^53. */
  const MAX_SAFE: int := 0x1F_FFFF_FFFF_FFFF

  predicate Safe(n: int) {
    -MAX_SAFE <= n <= MAX_SAFE
  }

  function Abs(n: int): nat {
    if n < 0 then -n else n
  }

  function Sign(n: int): int {
    if n < 0 then -1 else if n > 0 then 1 else 0
  }

  /** `Math.trunc(x / t)` in integers. */
  function TruncatedQuotient(x: int, t: int): int
    requires t > 0
  {
    if x < 0 then -((-x) / t) else x / t
  }

  /** An arithmetic: the double that an integer sum rounds to, and the double that a quotient rounds to. */
  datatype Arithmetic = Arithmetic(round: int -> int, quotient: (int, int) -> real)

  predicate Reaches(n: int, r: real) {
    n as real <= r
  }

  /** What rounding to nearest promises of the double `y` for x / t:
      a relative error of at most 2^-53, and never across an integer that a double holds. */
  ghost predicate RoundedQuotient(x: int, t: int, y: real)
    requires t > 0
  {
    var exact := x as real / t as real;
    && y - exact <= exact / 9007199254740992.0
    && forall n | 0 <= n <= MAX_SAFE && Reaches(n, exact) :: Reaches(n, y)
  }

  /** Rounding is the identity up to 2^53, keeps the order, and treats both signs alike. */
  ghost predicate Ieee(fl: Arithmetic) {
    && (forall n | -MAX_SAFE - 1 <= n <= MAX_SAFE + 1 :: fl.round(n) == n)
    && (forall m, n | m <= n :: fl.round(m) <= fl.round(n))
    && (forall x, t | 0 <= x <= MAX_SAFE && t > 0 :: RoundedQuotient(x, t, fl.quotient(x, t)))
    && (forall x, t | t > 0 :: fl.quotient(-x, t) == -fl.quotient(x, t))
  }

  const EXACT := Arithmetic(n => n, (x: int, t: int) => if t == 0 then 0.0 else x as real / t as real)

  /** Exact arithmetic rounds well, so the promises can be kept. */
  lemma ExactIsIeee()
    ensures Ieee(EXACT)
  {
    forall x, t | 0 <= x <= MAX_SAFE && t > 0
      ensures RoundedQuotient(x, t, EXACT.quotient(x, t))
    {
      QuotientReaches(0.0, x as real, t as real);
    }
    forall x, t | t > 0
      ensures EXACT.quotient(-x, t) == -EXACT.quotient(x, t)
    {
      QuotientOfNegative(x as real, t as real);
    }
  }

  lemma QuotientOfNegative(x: real, t: real)
    requires t > 0.0
    ensures (-x) / t == -(x / t)
  {
  }

  lemma QuotientBelow(x: real, t: real, q: real)
    requires t > 0.0 && x < 9007199254740992.0 && x <= q * t + (t - 1.0)
    ensures x / t + x / t / 9007199254740992.0 < q + 1.0
  {
    var e := x / t;
    assert e * t == x;
    assert e / 9007199254740992.0 * t == x / 9007199254740992.0 < 1.0;
    assert (e + e / 9007199254740992.0) * t == x + x / 9007199254740992.0;
    assert (q + 1.0) * t == q * t + t;
    if e + e / 9007199254740992.0 >= q + 1.0 {
      RealMulMonotone(q + 1.0, e + e / 9007199254740992.0, t);
      assert false;
    }
  }

  lemma RealMulMonotone(a: real, b: real, t: real)
    requires a <= b && t > 0.0
    ensures a * t <= b * t
  {
  }

  lemma RealMulStrict(a: real, b: real, t: real)
    requires a < b && t > 0.0
    ensures a * t < b * t
  {
  }

  lemma QuotientReaches(q: real, x: real, t: real)
    requires t > 0.0 && q * t <= x
    ensures q <= x / t
  {
    if x / t < q {
      RealMulStrict(x / t, q, t);
    }
  }

  lemma MulNonneg(a: int, b: int)
    requires a >= 0 && b >= 0
    ensures a * b >= 0
  {
  }

  lemma MulMonotone(a: int, b: int, c: int)
    requires a <= b && c >= 0
    ensures a * c <= b * c
  {
    MulNonneg(b - a, c);
    assert (b - a) * c == b * c - a * c;
  }

  lemma QuotientAtMost(x: nat, t: nat)
    requires t > 0
    ensures x / t <= x
  {
    var q, m := x / t, x % t;
    assert x == q * t + m;
    MulMonotone(1, t, q);
    assert 1 * q == q && t * q == q * t;
  }

  lemma FloorOfQuotient(x: int, t: int, y: real)
    requires 0 <= x <= MAX_SAFE && t > 0 && RoundedQuotient(x, t, y)
    ensures y >= 0.0 && y.Floor == x / t
  {
    var q, m := x / t, x % t;
    assert x == q * t + m;
    QuotientAtMost(x, t);
    var xr, tr, qr := x as real, t as real, q as real;
    assert (q * t) as real == qr * tr;
    QuotientReaches(qr, xr, tr);
    QuotientReaches(0.0, xr, tr);
    QuotientBelow(xr, tr, qr);
    assert Reaches(q, xr / tr) && Reaches(0, xr / tr);
  }

  /** `Math.trunc` */
  function Trunc(r: real): int {
    if r < 0.0 then -((-r).Floor) else r.Floor
  }

  /** Truncating the rounded quotient of a safe integer gives the integer quotient. */
  lemma QuotientTruncates(fl: Arithmetic, x: int, t: int)
    requires Ieee(fl) && Safe(x) && t > 0
    ensures Trunc(fl.quotient(x, t)) == TruncatedQuotient(x, t)
  {
    var a: int := Abs(x);
    FloorOfQuotient(a, t, fl.quotient(a, t));
    if x < 0 {
      assert fl.quotient(-a, t) == -fl.quotient(a, t);
    }
  }

  // ---------------------------------------------------------------- sums

  function SumTo(xs: seq<int>, k: nat): int
    requires k <= |xs|
  {
    if k == 0 then 0 else SumTo(xs, k - 1) + xs[k - 1]
  }

  /** The sum as doubles add it up, rounding every time. */
  function RoundedSumTo(fl: Arithmetic, xs: seq<int>, k: nat): int
    requires k <= |xs|
  {
    if k == 0 then 0 else fl.round(RoundedSumTo(fl, xs, k - 1) + xs[k - 1])
  }

  /** The same number, or both beyond the safe range. */
  predicate SameScale(a: int, b: int) {
    a == b || (a > MAX_SAFE && b > MAX_SAFE)
  }

  /** A rounded total of non-negative integers is exact, or it and the exact total are unsafe. */
  lemma {:induction false} RoundedTotal(fl: Arithmetic, xs: seq<int>, k: nat)
    requires Ieee(fl) && k <= |xs| && forall i | 0 <= i < |xs| :: xs[i] >= 0
    ensures SumTo(xs, k) >= 0 && SameScale(RoundedSumTo(fl, xs, k), SumTo(xs, k))
  {
    if k > 0 {
      RoundedTotal(fl, xs, k - 1);
      var s := RoundedSumTo(fl, xs, k - 1) + xs[k - 1];
      if s > MAX_SAFE {
        assert fl.round(MAX_SAFE + 1) <= fl.round(s);
      }
    }
  }

  /** Where no partial sum leaves the safe range, rounding does nothing. */
  lemma {:induction false} RoundedSumIsExact(fl: Arithmetic, xs: seq<int>, k: nat)
    requires Ieee(fl) && k <= |xs| && forall j: nat | j <= k :: Safe(SumTo(xs, j))
    ensures RoundedSumTo(fl, xs, k) == SumTo(xs, k)
  {
    if k > 0 {
      RoundedSumIsExact(fl, xs, k - 1);
      assert Safe(SumTo(xs, k));
    }
  }

  /** A safe integer divided by an unsafe total is cut off to zero, whatever the total exactly is. */
  lemma SameQuotient(x: int, t: int, u: int)
    requires Safe(x) && t > 0 && u > 0 && SameScale(t, u)
    ensures TruncatedQuotient(x, t) == TruncatedQuotient(x, u)
  {
    if t != u {
      CutOffToZero(Abs(x), t);
      CutOffToZero(Abs(x), u);
    }
  }

  lemma CutOffToZero(a: nat, t: nat)
    requires a < t
    ensures a / t == 0
  {
  }
}

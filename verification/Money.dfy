/** Money in integer minor units (src/domain/value-objects/money.ts and minor-units.ts). */
module Money {
  import opened Wrappers
  import opened Doubles

  datatype MoneyError =
    | UnsafeInteger | DivisionByZero | NoRatios | NegativeRatio | ZeroTotal | CurrencyMismatch

  // ---------------------------------------------------------------- division

  /** `divideMinor`, in the arithmetic `fl`. Beside the quotient its operations are exact: nothing is larger than
      twice the amount. */
  function DivideMinor(fl: Arithmetic, amount: int, divisor: int): Result<int, MoneyError> {
    if divisor == 0 then Failure(DivisionByZero)
    else
      var sign := Sign(amount) * Sign(divisor);
      var a, d := Abs(amount), Abs(divisor);
      var quotient := Trunc(fl.quotient(a, d));
      var remainder := a - quotient * d;
      var rounded := if remainder * 2 >= d then quotient + 1 else quotient;
      Success(sign * rounded)
  }

  /** `divideMinorBig` */
  function DivideMinorBig(amount: int, divisor: int): Result<int, MoneyError> {
    if divisor == 0 then Failure(DivisionByZero)
    else
      var sign := (if amount < 0 then -1 else 1) * (if divisor < 0 then -1 else 1);
      var a := if amount < 0 then -amount else amount;
      var d := if divisor < 0 then -divisor else divisor;
      var quotient := a / d;
      var remainder := a - quotient * d;
      var rounded := if remainder * 2 >= d then quotient + 1 else quotient;
      var signed := sign * rounded;
      if signed > MAX_SAFE || signed < -MAX_SAFE then Failure(UnsafeInteger) else Success(signed)
  }

  /** `r` is an integer nearest to n / d; when two are equally near, the one further from zero. */
  ghost predicate NearestAway(n: int, d: int, r: int)
    requires d != 0
  {
    2 * Abs(n - r * d) <= Abs(d) && (2 * Abs(n - r * d) == Abs(d) ==> Abs(r * d) > Abs(n))
  }

  // products are kept apart from the linear reasoning about them

  lemma AbsMul(k: int, d: int)
    ensures Abs(k * d) == Abs(k) * Abs(d)
  {
  }

  lemma MultiplesApart(r: int, s: int, d: int)
    requires d != 0
    ensures r != s ==> Abs(r * d - s * d) >= Abs(d)
  {
    assert r * d - s * d == (r - s) * d;
    AbsMul(r - s, d);
    if r != s {
      MulMonotone(1, Abs(r - s), Abs(d));
    }
  }

  lemma NearestUnique(n: int, d: nat, p: int, q: int)
    requires d > 0 && (p != q ==> Abs(p - q) >= d) && (p != 0 ==> Abs(p) >= d)
    requires 2 * Abs(n - p) <= d && (2 * Abs(n - p) == d ==> Abs(p) > Abs(n))
    requires 2 * Abs(n - q) <= d && (2 * Abs(n - q) == d ==> Abs(q) > Abs(n))
    ensures p == q
  {
  }

  lemma NearestAwayUnique(n: int, d: int, r: int, s: int)
    requires d != 0 && NearestAway(n, d, r) && NearestAway(n, d, s)
    ensures r == s
  {
    MultiplesApart(r, s, d);
    MultiplesApart(r, 0, d);
    NearestUnique(n, Abs(d), r * d, s * d);
  }

  function HalfUp(a: nat, d: nat): nat
    requires d > 0
  {
    if (a % d) * 2 >= d then a / d + 1 else a / d
  }

  lemma HalfUpIsNearest(a: nat, d: nat)
    requires d > 0
    ensures NearestAway(a, d, HalfUp(a, d))
  {
    var q, m := a / d, a % d;
    assert a == q * d + m;
    assert (q + 1) * d == q * d + d;
  }

  lemma NearestAwayFlip(n: int, d: int, r: int)
    requires d != 0 && NearestAway(n, d, r)
    ensures NearestAway(-n, d, -r) && NearestAway(n, -d, -r) && NearestAway(-n, -d, r)
  {
    assert (-r) * d == -(r * d) && (-r) * (-d) == r * d && r * (-d) == -(r * d);
  }

  function SignedBy(amount: int, divisor: int, r: nat): int {
    if (amount < 0) == (divisor < 0) then r else 0 - r
  }

  lemma ModIsRemainder(a: nat, d: nat)
    requires d > 0
    ensures a - a / d * d == a % d
  {
  }

  /** The rounded division: half up by magnitude, with the sign of the quotient. */
  function Rounded(amount: int, divisor: int): int
    requires divisor != 0
  {
    SignedBy(amount, divisor, HalfUp(Abs(amount), Abs(divisor)))
  }

  lemma DivideMinorValue(fl: Arithmetic, amount: int, divisor: int)
    requires Ieee(fl) && Safe(amount) && divisor != 0
    ensures DivideMinor(fl, amount, divisor) == Success(Rounded(amount, divisor))
  {
    QuotientTruncates(fl, Abs(amount), Abs(divisor));
    ModIsRemainder(Abs(amount), Abs(divisor));
    if amount == 0 {
      ZeroRounds(Abs(divisor));
    }
  }

  lemma DivideMinorBigValue(amount: int, divisor: int)
    requires divisor != 0
    ensures var r := Rounded(amount, divisor);
            DivideMinorBig(amount, divisor) == if Safe(r) then Success(r) else Failure(UnsafeInteger)
  {
    ModIsRemainder(Abs(amount), Abs(divisor));
  }

  lemma ZeroRounds(d: nat)
    requires d > 0
    ensures HalfUp(0, d) == 0
  {
  }

  lemma RoundedIsNearest(amount: int, divisor: int)
    requires divisor != 0
    ensures NearestAway(amount, divisor, Rounded(amount, divisor))
  {
    HalfUpIsNearest(Abs(amount), Abs(divisor));
    NearestAwayFlip(Abs(amount), Abs(divisor), HalfUp(Abs(amount), Abs(divisor)));
  }

  /** `divideMinor` rounds to the nearest integer, halves away from zero. */
  lemma DivideMinorNearest(fl: Arithmetic, amount: int, divisor: int)
    requires Ieee(fl) && Safe(amount) && divisor != 0
    ensures DivideMinor(fl, amount, divisor).Success?
    ensures NearestAway(amount, divisor, DivideMinor(fl, amount, divisor).value)
  {
    DivideMinorValue(fl, amount, divisor);
    RoundedIsNearest(amount, divisor);
  }

  /** It is odd in each argument. */
  lemma DivideMinorOdd(fl: Arithmetic, amount: int, divisor: int)
    requires Ieee(fl) && Safe(amount) && divisor != 0
    ensures DivideMinor(fl, amount, divisor).Success?
    ensures DivideMinor(fl, -amount, divisor) == Success(-DivideMinor(fl, amount, divisor).value)
    ensures DivideMinor(fl, amount, -divisor) == Success(-DivideMinor(fl, amount, divisor).value)
  {
    DivideMinorNearest(fl, amount, divisor);
    DivideMinorNearest(fl, -amount, divisor);
    DivideMinorNearest(fl, amount, -divisor);
    var r := DivideMinor(fl, amount, divisor).value;
    NearestAwayFlip(amount, divisor, r);
    NearestAwayUnique(-amount, divisor, DivideMinor(fl, -amount, divisor).value, -r);
    NearestAwayUnique(amount, -divisor, DivideMinor(fl, amount, -divisor).value, -r);
  }

  lemma HalfUpBounded(a: nat, d: nat)
    requires d > 0
    ensures HalfUp(a, d) <= a
  {
    var q, m := a / d, a % d;
    assert a == q * d + m;
    if d >= 2 {
      MulMonotone(2, d, q);
      assert d * q == q * d;
    } else {
      assert q * 1 == q;
    }
  }

  /** Its result is never larger than the amount, so `divide` cannot leave the safe range. */
  lemma DivideMinorBounded(fl: Arithmetic, amount: int, divisor: int)
    requires Ieee(fl) && Safe(amount) && divisor != 0
    ensures DivideMinor(fl, amount, divisor).Success?
    ensures Abs(DivideMinor(fl, amount, divisor).value) <= Abs(amount) && Safe(DivideMinor(fl, amount, divisor).value)
  {
    DivideMinorValue(fl, amount, divisor);
    HalfUpBounded(Abs(amount), Abs(divisor));
  }

  /** The number and the bigint form agree on every safe amount. */
  lemma DivideFormsAgree(fl: Arithmetic, amount: int, divisor: int)
    requires Ieee(fl) && Safe(amount)
    ensures DivideMinorBig(amount, divisor) == DivideMinor(fl, amount, divisor)
  {
    if divisor != 0 {
      DivideMinorBounded(fl, amount, divisor);
      DivideMinorValue(fl, amount, divisor);
      DivideMinorBigValue(amount, divisor);
    }
  }

  function Percentage(amount: int, basisPoints: int): Result<int, MoneyError> {
    DivideMinorBig(amount * basisPoints, 10_000)
  }

  /** `percentage` is the nearest integer to the exact share, and fails exactly when that is not safe. */
  lemma PercentageNearest(amount: int, basisPoints: int, r: int)
    requires NearestAway(amount * basisPoints, 10_000, r)
    ensures Percentage(amount, basisPoints) == if Safe(r) then Success(r) else Failure(UnsafeInteger)
  {
    RoundedIsNearest(amount * basisPoints, 10_000);
    DivideMinorBigValue(amount * basisPoints, 10_000);
    NearestAwayUnique(amount * basisPoints, 10_000, r, Rounded(amount * basisPoints, 10_000));
  }

  /** One hundred per cent is the whole. */
  lemma PercentageIdentity(amount: int)
    requires Safe(amount)
    ensures Percentage(amount, 10_000) == Success(amount)
  {
    PercentageNearest(amount, 10_000, amount);
  }
}

/** Arithmetic shared by every schedule of the mortgage calculator: whole
    powers, the monthly rate derived from an annual percentage, the annuity
    factor, the after-tax ("netto") monthly cost and a balance that drops by a
    fixed step every month. Amounts are exact reals. */
module Amortization {

  /** Number of iterations of `for (month = 1; month <= loanTerm * 12; month++)`. */
  function Months(loanTerm: int): nat
  {
    if loanTerm > 0 then loanTerm * 12 else 0
  }

  /** x raised to the whole power k, as Math.pow computes it for whole exponents. */
  function Pow(x: real, k: nat): real
  {
    if k == 0 then 1.0 else x * Pow(x, k - 1)
  }

  lemma {:induction false} PowOfOne(k: nat)
    ensures Pow(1.0, k) == 1.0
  {
    if k > 0 {
      PowOfOne(k - 1);
    }
  }

  lemma {:induction false} PowAtLeastOne(x: real, k: nat)
    requires x >= 1.0
    ensures Pow(x, k) >= 1.0
  {
    if k > 0 {
      PowAtLeastOne(x, k - 1);
      assert x * Pow(x, k - 1) >= 1.0 * Pow(x, k - 1);
    }
  }

  lemma {:induction false} PowExceedsOne(x: real, k: nat)
    requires x > 1.0 && k >= 1
    ensures Pow(x, k) > 1.0
  {
    PowAtLeastOne(x, k - 1);
    assert x * Pow(x, k - 1) > 1.0 * Pow(x, k - 1);
  }

  function Abs(x: real): real
  {
    if x < 0.0 then -x else x
  }

  /** Interest rate per month for an annual percentage: the source's `rate / 100 / 12`. */
  function MonthlyRate(annualPercent: real): (r: real)
    ensures r * 1200.0 == annualPercent
    ensures annualPercent >= 0.0 ==> r >= 0.0
  {
    annualPercent / 100.0 / 12.0
  }

  /** The annuity formula r / (1 - (1 + r)^-n) has a value exactly when
      (1 + r)^n is not 1: then the denominator vanishes. When (1 + r)^n is 0,
      (1 + r)^-n is Infinity and the formula is r / -Infinity, which is 0. */
  predicate AnnuityDefined(r: real, n: int)
  {
    n > 0 && Pow(1.0 + r, n) != 1.0
  }

  /** Interest that a balance accrues in one month at monthly rate r. */
  function Interest(balance: real, r: real): (i: real)
    ensures balance >= 0.0 && r >= 0.0 ==> i >= 0.0
  {
    balance * r
  }

  /** A lower balance accrues no more interest at a rate that is not negative. */
  lemma InterestMonotone(low: real, high: real, r: real)
    requires low <= high && r >= 0.0
    ensures Interest(low, r) <= Interest(high, r)
  {
    assert high * r - low * r == (high - low) * r;
  }

  lemma {:induction false} PowNonNegative(x: real, k: nat)
    requires x >= 0.0
    ensures Pow(x, k) >= 0.0
  {
    if k > 0 {
      PowNonNegative(x, k - 1);
      NonNegativeProduct(x, Pow(x, k - 1));
    }
  }

  /** An amount carried k months with the monthly factor q. */
  function Discount(amount: real, q: real, k: nat): real
  {
    amount * Pow(q, k)
  }

  /** The equal share of an amount paid in each of `months` months. */
  function Portion(amount: real, months: int): (p: real)
    requires months > 0
    ensures p * (months as real) == amount
    ensures amount >= 0.0 ==> p >= 0.0
    ensures amount > 0.0 ==> p > 0.0
  {
    amount / (months as real)
  }

  /** The payment per unit of principal that retires a loan in n months at monthly rate r. */
  function AnnuityFactor(r: real, n: int): (f: real)
    requires AnnuityDefined(r, n)
    ensures f * (Pow(1.0 + r, n) - 1.0) == r * Pow(1.0 + r, n)
  {
    var x := Pow(1.0 + r, n);
    if x == 0.0 then 0.0
    else
      assert 1.0 - 1.0 / x == (x - 1.0) / x;
      r / (1.0 - 1.0 / x)
  }

  /** The fixed annuity payment that retires `loanAmount` in n months at monthly
      rate r: n payments whose value grown to month n matches the loan grown to month n. */
  function AnnuityPayment(loanAmount: real, r: real, n: int): (payment: real)
    requires AnnuityDefined(r, n)
    ensures payment * (Pow(1.0 + r, n) - 1.0) == loanAmount * (r * Pow(1.0 + r, n))
  {
    ScaleEquation(loanAmount, AnnuityFactor(r, n), Pow(1.0 + r, n) - 1.0, r * Pow(1.0 + r, n));
    loanAmount * AnnuityFactor(r, n)
  }

  lemma ScaleEquation(k: real, a: real, b: real, c: real)
    requires a * b == c
    ensures (k * a) * b == k * c
  {
  }

  /** A zero rate makes the denominator 1 - (1 + r)^-n vanish. */
  lemma AnnuityNeedsNonZeroRate(r: real, n: int)
    requires AnnuityDefined(r, n)
    ensures r != 0.0
  {
    if r == 0.0 {
      PowOfOne(n);
    }
  }

  /** Every positive rate and positive number of months gives a defined annuity,
      and its factor is larger than the rate alone. */
  lemma PositiveRateAnnuity(r: real, n: int)
    requires r > 0.0 && n > 0
    ensures AnnuityDefined(r, n)
    ensures AnnuityFactor(r, n) > r
  {
    PowExceedsOne(1.0 + r, n);
    var x := Pow(1.0 + r, n);
    var f := AnnuityFactor(r, n);
    assert f * (x - 1.0) == r * x;
    assert r * x > r * (x - 1.0);
  }

  /** For two or more months at a positive rate the annuity factor stays below 1 + r,
      so a payment of balance * factor leaves part of the balance standing. */
  lemma AnnuityFactorBelowGrowth(r: real, n: int)
    requires r > 0.0 && n >= 2
    ensures AnnuityDefined(r, n)
    ensures AnnuityFactor(r, n) < 1.0 + r
  {
    PositiveRateAnnuity(r, n);
    PowExceedsOne(1.0 + r, n - 1);
    GrowthArithmetic(r, Pow(1.0 + r, n - 1), Pow(1.0 + r, n), AnnuityFactor(r, n));
  }

  lemma GrowthArithmetic(r: real, y: real, x: real, f: real)
    requires r > 0.0 && y > 1.0 && x == (1.0 + r) * y && f * (x - 1.0) == r * x
    ensures f < 1.0 + r
  {
    var gap := x - 1.0 - r;
    assert gap == (1.0 + r) * (y - 1.0);
    PositiveProduct(1.0 + r, y - 1.0);
    var shortfall, excess := 1.0 + r - f, x - 1.0;
    assert shortfall * excess == gap;
    PositiveFactor(shortfall, excess);
  }

  lemma PositiveProduct(a: real, b: real)
    requires a > 0.0 && b > 0.0
    ensures a * b > 0.0
  {
  }

  lemma NonNegativeProduct(a: real, b: real)
    requires a >= 0.0 && b >= 0.0
    ensures a * b >= 0.0
  {
  }

  lemma PositiveFactor(a: real, b: real)
    requires a * b > 0.0 && b > 0.0
    ensures a > 0.0
  {
  }

  /** A left fold that adds up a column of amounts, as `reduce((acc, cur) => acc + cur, 0)` does. */
  function Sum(xs: seq<real>): real
  {
    if |xs| == 0 then 0.0 else Sum(xs[..|xs| - 1]) + xs[|xs| - 1]
  }

  lemma Distribute(k: real, s: real, t: real, c: real)
    requires s == t + c
    ensures k * s == k * t + k * c
  {
  }

  lemma ZeroProduct(r: real, b: real)
    requires r != 0.0 && r * b == 0.0
    ensures b == 0.0
  {
  }

  /** Amounts that are, one by one, an amount plus k times another add up the same way. */
  lemma {:induction false} SumCombination(zs: seq<real>, xs: seq<real>, ys: seq<real>, k: real)
    requires |zs| == |xs| == |ys|
    requires forall i :: 0 <= i < |zs| ==> zs[i] == xs[i] + k * ys[i]
    ensures Sum(zs) == Sum(xs) + k * Sum(ys)
  {
    if |zs| > 0 {
      var n := |zs| - 1;
      SumCombination(zs[..n], xs[..n], ys[..n], k);
      Distribute(k, Sum(ys), Sum(ys[..n]), ys[n]);
    }
  }

  /** Amounts that are, one by one, an amount minus another add up to the difference of the sums. */
  lemma {:induction false} SumDifference(zs: seq<real>, xs: seq<real>, ys: seq<real>)
    requires |zs| == |xs| == |ys|
    requires forall i :: 0 <= i < |zs| ==> zs[i] == xs[i] - ys[i]
    ensures Sum(zs) == Sum(xs) - Sum(ys)
  {
    if |zs| > 0 {
      var n := |zs| - 1;
      SumDifference(zs[..n], xs[..n], ys[..n]);
    }
  }

  /** Amounts that each take a balance one month further add up to the drop of that balance. */
  lemma {:induction false} SumTelescopes(xs: seq<real>, balance: nat -> real)
    requires forall i :: 0 <= i < |xs| ==> xs[i] == balance(i) - balance(i + 1)
    ensures Sum(xs) == balance(0) - balance(|xs|)
  {
    if |xs| > 0 {
      SumTelescopes(xs[..|xs| - 1], balance);
    }
  }

  /** After-tax monthly cost: the principal plus the interest less the tax
      relief on it, a fixed 36.97%, i.e. principal + 0.6303 * interest. */
  function Netto(principal: real, interest: real): (c: real)
    ensures interest >= 0.0 ==> principal <= c <= principal + interest
    ensures interest > 0.0 ==> principal < c < principal + interest
  {
    principal + 0.6303 * interest
  }

  /** A balance that starts at `start` and drops by `step` every month, after k months. */
  function LinearBalance(start: real, step: real, k: nat): real
  {
    if k == 0 then start else LinearBalance(start, step, k - 1) - step
  }

  lemma {:induction false} LinearBalanceClosedForm(start: real, step: real, k: nat)
    ensures LinearBalance(start, step, k) == start - (k as real) * step
  {
    if k > 0 {
      LinearBalanceClosedForm(start, step, k - 1);
    }
  }

  /** A balance that drops by a non-negative step never grows back. */
  lemma {:induction false} LinearBalanceMonotone(start: real, step: real, i: nat, j: nat)
    requires step >= 0.0 && i <= j
    ensures LinearBalance(start, step, j) <= LinearBalance(start, step, i)
  {
    if i < j {
      LinearBalanceMonotone(start, step, i, j - 1);
    }
  }

  /** The number of months a loop over months k + 1 .. n runs when it stops at the
      first month, from the k-th on, whose balance has dropped to zero or below:
      every balance before it is positive, and it is n or a month whose balance is not. */
  function LinearRun(start: real, step: real, n: nat, k: nat): (m: nat)
    requires k <= n
    decreases n - k
    ensures k <= m <= n
    ensures forall j :: k <= j < m ==> LinearBalance(start, step, j) > 0.0
    ensures m < n ==> LinearBalance(start, step, m) <= 0.0
  {
    if k == n then n
    else if LinearBalance(start, step, k) <= 0.0 then k
    else LinearRun(start, step, n, k + 1)
  }

  /** A month count with the two properties of the loop's exit is the run length. */
  lemma LinearRunIsFirstStop(start: real, step: real, n: nat, k: nat, m: nat)
    requires k <= m <= n
    requires forall j :: k <= j < m ==> LinearBalance(start, step, j) > 0.0
    requires m < n ==> LinearBalance(start, step, m) <= 0.0
    ensures LinearRun(start, step, n, k) == m
  {
  }

  /** The principal repaid each month of a linear loan with an extra repayment:
      the equal portion loanAmount / (loanTerm * 12) plus the extra amount. */
  function Installment(loanAmount: real, loanTerm: int, extra: real): real
    requires loanTerm > 0
  {
    Portion(loanAmount, loanTerm * 12) + extra
  }

  /** Two balances from the same start drift apart by the difference of their steps each month. */
  lemma {:induction false} LinearBalanceGap(start: real, step: real, extra: real, k: nat)
    ensures LinearBalance(start, step, k) - LinearBalance(start, step + extra, k) == (k as real) * extra
  {
    if k > 0 {
      LinearBalanceGap(start, step, extra, k - 1);
    }
  }
}

/** calculateInterestBenefit of mortgageUtils.js: the interest saved on a linear
    loan by repaying an extra amount every month, over the months until the
    loan with the extra repayment is repaid. */
module MortgageUtils {
  import opened Amortization

  /** Interest paid over the first m months on a balance that starts at `start`
      and drops by `step` every month. */
  function InterestPaid(start: real, step: real, r: real, m: nat): real
  {
    if m == 0 then 0.0 else InterestPaid(start, step, r, m - 1) + Interest(LinearBalance(start, step, m - 1), r)
  }

  /** The number of months the loop runs: none for a term of no months;
      otherwise it stops after the first month whose balance with the extra
      repayment has dropped to zero or below, and after the last month at the latest. */
  function BenefitMonths(loanAmount: real, loanTerm: int, extra: real): (m: nat)
    ensures m <= Months(loanTerm)
    ensures loanTerm > 0 ==> 1 <= m
    ensures loanTerm > 0 ==> forall k :: 1 <= k < m ==> LinearBalance(loanAmount, Installment(loanAmount, loanTerm, extra), k) > 0.0
    ensures loanTerm > 0 && m < Months(loanTerm) ==> LinearBalance(loanAmount, Installment(loanAmount, loanTerm, extra), m) <= 0.0
  {
    if loanTerm <= 0 then 0 else LinearRun(loanAmount, Installment(loanAmount, loanTerm, extra), loanTerm * 12, 1)
  }

  /** Interest paid without the extra repayment less the interest paid with it, over the months the loop runs. */
  function InterestBenefit(loanAmount: real, interestRate: real, loanTerm: int, extra: real): real
  {
    if loanTerm <= 0 then 0.0
    else
      var m := BenefitMonths(loanAmount, loanTerm, extra);
      InterestPaid(loanAmount, Portion(loanAmount, loanTerm * 12), MonthlyRate(interestRate), m)
        - InterestPaid(loanAmount, Installment(loanAmount, loanTerm, extra), MonthlyRate(interestRate), m)
  }

  method CalculateInterestBenefit(loanAmount: real, interestRate: real, loanTerm: int, extraRepayment: real)
    returns (benefit: real)
    ensures benefit == InterestBenefit(loanAmount, interestRate, loanTerm, extraRepayment)
  {
    var monthlyInterestRate := MonthlyRate(interestRate);
    var remainingLoanAmountWithExtra := loanAmount;
    var remainingLoanAmountWithoutExtra := loanAmount;
    var totalInterestWithExtra := 0.0;
    var totalInterestWithoutExtra := 0.0;
    ghost var monthsRun := 0;
    var month := 1;
    while month <= loanTerm * 12
      invariant 1 <= month <= Months(loanTerm) + 1
      invariant monthsRun == month - 1
      invariant loanTerm > 0 ==>
        remainingLoanAmountWithExtra == LinearBalance(loanAmount, Installment(loanAmount, loanTerm, extraRepayment), month - 1)
      invariant loanTerm > 0 ==>
        remainingLoanAmountWithoutExtra == LinearBalance(loanAmount, Portion(loanAmount, loanTerm * 12), month - 1)
      invariant loanTerm > 0 ==>
        totalInterestWithExtra
          == InterestPaid(loanAmount, Installment(loanAmount, loanTerm, extraRepayment), monthlyInterestRate, month - 1)
      invariant loanTerm > 0 ==>
        totalInterestWithoutExtra
          == InterestPaid(loanAmount, Portion(loanAmount, loanTerm * 12), monthlyInterestRate, month - 1)
      invariant loanTerm <= 0 ==> totalInterestWithExtra == 0.0 && totalInterestWithoutExtra == 0.0
      invariant loanTerm > 0 ==> forall k :: 1 <= k < month ==>
        LinearBalance(loanAmount, Installment(loanAmount, loanTerm, extraRepayment), k) > 0.0
    {
      var interestWithExtra := Interest(remainingLoanAmountWithExtra, monthlyInterestRate);
      var interestWithoutExtra := Interest(remainingLoanAmountWithoutExtra, monthlyInterestRate);
      totalInterestWithExtra := totalInterestWithExtra + interestWithExtra;
      totalInterestWithoutExtra := totalInterestWithoutExtra + interestWithoutExtra;
      remainingLoanAmountWithExtra := remainingLoanAmountWithExtra - Installment(loanAmount, loanTerm, extraRepayment);
      remainingLoanAmountWithoutExtra := remainingLoanAmountWithoutExtra - Portion(loanAmount, loanTerm * 12);
      monthsRun := month;
      if remainingLoanAmountWithExtra <= 0.0 {
        break;
      }
      month := month + 1;
    }
    if loanTerm > 0 {
      LinearRunIsFirstStop(loanAmount, Installment(loanAmount, loanTerm, extraRepayment), loanTerm * 12, 1, monthsRun);
    }
    benefit := totalInterestWithoutExtra - totalInterestWithExtra;
  }

  /** 0 + 1 + ... + (m - 1). */
  function Triangle(m: nat): nat
  {
    if m == 0 then 0 else Triangle(m - 1) + (m - 1)
  }

  /** 0 + 1 + ... + (m - 1) is m * (m - 1) / 2. */
  lemma {:induction false} TriangleClosedForm(m: nat)
    ensures 2 * Triangle(m) == m * (m - 1)
  {
    if m > 0 {
      TriangleClosedForm(m - 1);
    }
  }

  /** `saved` is r * extra * (0 + 1 + ... + (m - 1)). */
  predicate SavesTriangle(saved: real, r: real, extra: real, m: nat)
  {
    saved == r * extra * (Triangle(m) as real)
  }

  lemma GapStep(before: real, after: real, x: real, y: real, r: real, extra: real, k: nat)
    requires SavesTriangle(before, r, extra, k)
    requires x - y == (k as real) * extra
    requires after == before + (Interest(x, r) - Interest(y, r))
    ensures SavesTriangle(after, r, extra, k + 1)
  {
    assert x * r - y * r == (x - y) * r;
    Distribute(r * extra, Triangle(k + 1) as real, Triangle(k) as real, k as real);
  }

  /** Over m months, a balance with the extra repayment accrues
      r * extra * (0 + 1 + ... + (m - 1)) less interest than one without. */
  lemma {:induction false} InterestGap(start: real, step: real, extra: real, r: real, m: nat)
    ensures SavesTriangle(InterestPaid(start, step, r, m) - InterestPaid(start, step + extra, r, m), r, extra, m)
  {
    if m > 0 {
      InterestGap(start, step, extra, r, m - 1);
      LinearBalanceGap(start, step, extra, m - 1);
      GapStep(InterestPaid(start, step, r, m - 1) - InterestPaid(start, step + extra, r, m - 1),
              InterestPaid(start, step, r, m) - InterestPaid(start, step + extra, r, m),
              LinearBalance(start, step, m - 1), LinearBalance(start, step + extra, m - 1), r, extra, m - 1);
    }
  }

  /** The benefit is the monthly rate times the extra repayment times
      0 + 1 + ... + (m - 1), for the m months the loop runs: the first month
      saves nothing, and every later month saves the interest on the extra
      amounts repaid before it. */
  lemma BenefitClosedForm(loanAmount: real, interestRate: real, loanTerm: int, extra: real)
    ensures SavesTriangle(InterestBenefit(loanAmount, interestRate, loanTerm, extra), MonthlyRate(interestRate), extra,
                          BenefitMonths(loanAmount, loanTerm, extra))
  {
    if loanTerm > 0 {
      InterestGap(loanAmount, Portion(loanAmount, loanTerm * 12), extra, MonthlyRate(interestRate),
                  BenefitMonths(loanAmount, loanTerm, extra));
    }
  }

  /** No extra repayment saves nothing; a non-negative extra repayment at a
      non-negative rate never costs interest, and a positive one at a positive
      rate saves some as soon as the loop runs two months. */
  lemma BenefitSign(loanAmount: real, interestRate: real, loanTerm: int, extra: real)
    ensures extra == 0.0 ==> InterestBenefit(loanAmount, interestRate, loanTerm, extra) == 0.0
    ensures extra >= 0.0 && interestRate >= 0.0 ==> InterestBenefit(loanAmount, interestRate, loanTerm, extra) >= 0.0
    ensures extra > 0.0 && interestRate > 0.0 && BenefitMonths(loanAmount, loanTerm, extra) >= 2 ==>
      InterestBenefit(loanAmount, interestRate, loanTerm, extra) > 0.0
  {
    BenefitClosedForm(loanAmount, interestRate, loanTerm, extra);
    SavingSign(InterestBenefit(loanAmount, interestRate, loanTerm, extra), MonthlyRate(interestRate), extra,
               BenefitMonths(loanAmount, loanTerm, extra));
  }

  lemma SavingSign(saved: real, r: real, extra: real, m: nat)
    requires SavesTriangle(saved, r, extra, m)
    ensures extra == 0.0 ==> saved == 0.0
    ensures r >= 0.0 && extra >= 0.0 ==> saved >= 0.0
    ensures r > 0.0 && extra > 0.0 && m >= 2 ==> saved > 0.0
  {
    var t := Triangle(m) as real;
    if m >= 2 {
      assert Triangle(m) == Triangle(m - 1) + (m - 1);
    }
    if r >= 0.0 && extra >= 0.0 {
      NonNegativeProduct(r, extra);
      NonNegativeProduct(r * extra, t);
    }
    if r > 0.0 && extra > 0.0 && m >= 2 {
      PositiveProduct(r, extra);
      PositiveProduct(r * extra, t);
    }
  }
}

/** The calculator of OUd.js: annuity and linear schedules with an extra
    repayment every month, each stopping early once the loan is repaid, the
    selected schedule paired month by month with the other one up to the
    shorter of the two, and the totals of the paid amounts and differences. */
module OUd {
  import opened Amortization

  datatype MortgageType = Annuity | Linear

  /** One month as a generator emits it. */
  datatype Payment = Payment(month: int, principal: real, interest: real, total: real)

  /** One month of the submitted result, `{ ...payment, difference }`. */
  datatype Row = Row(payment: Payment, difference: real)

  /** A form field after parseFloat or parseInt: a number, or NaN when it does not parse. */
  datatype Parsed<T> = Number(value: T) | NaN

  // ---------------------------------------------------------------------------
  // Annuity: every month the payment is recomputed from the balance left, with
  // the factor of the full term, and the extra repayment comes on top.

  /** Balance after k months: each month pays balance * factor + extra, of which the interest is not principal. */
  function AnnuityBalance(loanAmount: real, r: real, n: int, extra: real, k: nat): real
    requires AnnuityDefined(r, n)
  {
    if k == 0 then loanAmount
    else
      var b := AnnuityBalance(loanAmount, r, n, extra, k - 1);
      b - (AnnuityPayment(b, r, n) + extra - Interest(b, r))
  }

  /** The number of months the annuity loop runs from month k + 1 on: every
      balance before it is positive, and it is n or a month whose balance is not. */
  function AnnuityRun(loanAmount: real, r: real, n: nat, extra: real, k: nat): (m: nat)
    requires AnnuityDefined(r, n) && k <= n
    decreases n - k
    ensures k <= m <= n
    ensures forall j :: k <= j < m ==> AnnuityBalance(loanAmount, r, n, extra, j) > 0.0
    ensures m < n ==> AnnuityBalance(loanAmount, r, n, extra, m) <= 0.0
  {
    if k == n then n
    else if AnnuityBalance(loanAmount, r, n, extra, k) <= 0.0 then k
    else AnnuityRun(loanAmount, r, n, extra, k + 1)
  }

  /** The record of a month: the principal part is shown as 0 when the interest exceeds the payment. */
  function AnnuityRecord(loanAmount: real, r: real, n: int, extra: real, month: nat): Payment
    requires AnnuityDefined(r, n) && month >= 1
  {
    var b := AnnuityBalance(loanAmount, r, n, extra, month - 1);
    var total := AnnuityPayment(b, r, n) + extra;
    var interest := Interest(b, r);
    var principal := total - interest;
    Payment(month, if principal < 0.0 then 0.0 else principal, interest, total)
  }

  /** The annuity schedule: no month at all for a loan that is not positive or a
      term of no months; otherwise the months before the balance first drops to
      zero or below, each started with a positive balance, and all n months if
      that never happens within the term. */
  function AnnuitySchedule(loanAmount: real, interestRate: real, loanTerm: int, extra: real): (s: seq<Payment>)
    requires loanTerm > 0 && loanAmount > 0.0 ==> AnnuityDefined(MonthlyRate(interestRate), loanTerm * 12)
    ensures |s| <= Months(loanTerm)
    ensures |s| == 0 <==> loanTerm <= 0 || loanAmount <= 0.0
    ensures forall i :: 0 <= i < |s| ==> s[i].month == i + 1
    ensures |s| > 0 ==> forall i :: 0 <= i < |s| ==>
      AnnuityBalance(loanAmount, MonthlyRate(interestRate), loanTerm * 12, extra, i) > 0.0
    ensures 0 < |s| < Months(loanTerm) ==>
      AnnuityBalance(loanAmount, MonthlyRate(interestRate), loanTerm * 12, extra, |s|) <= 0.0
    ensures forall i :: 0 <= i < |s| ==> s[i].principal >= 0.0 && s[i].principal >= s[i].total - s[i].interest
    ensures interestRate >= 0.0 ==> forall i :: 0 <= i < |s| ==> s[i].interest >= 0.0
  {
    if loanTerm <= 0 || loanAmount <= 0.0 then []
    else
      var r, n := MonthlyRate(interestRate), loanTerm * 12;
      seq(AnnuityRun(loanAmount, r, n, extra, 0), i requires 0 <= i < AnnuityRun(loanAmount, r, n, extra, 0) =>
        AnnuityRecord(loanAmount, r, n, extra, i + 1))
  }

  /** Month i + 1 pays the annuity payment recomputed from the balance left after
      i months plus the extra repayment, and the interest on that balance; it
      records the rest of the payment as principal, or 0 when the interest exceeds
      the payment, while the balance drops by that rest even when it is negative. */
  lemma AnnuityMonth(loanAmount: real, interestRate: real, loanTerm: int, extra: real, i: nat)
    requires loanTerm > 0 && loanAmount > 0.0 ==> AnnuityDefined(MonthlyRate(interestRate), loanTerm * 12)
    requires i < |AnnuitySchedule(loanAmount, interestRate, loanTerm, extra)|
    ensures AnnuityDefined(MonthlyRate(interestRate), loanTerm * 12)
    ensures var r, n := MonthlyRate(interestRate), loanTerm * 12;
            var b := AnnuityBalance(loanAmount, r, n, extra, i);
            var p := AnnuitySchedule(loanAmount, interestRate, loanTerm, extra)[i];
      p.total == AnnuityPayment(b, r, n) + extra && p.interest == Interest(b, r)
      && p.principal == (if p.total - p.interest < 0.0 then 0.0 else p.total - p.interest)
      && b - AnnuityBalance(loanAmount, r, n, extra, i + 1) == p.total - p.interest
  {
    var r, n := MonthlyRate(interestRate), loanTerm * 12;
    assert AnnuitySchedule(loanAmount, interestRate, loanTerm, extra)[i] == AnnuityRecord(loanAmount, r, n, extra, i + 1);
  }

  method CalculateAnnuityMortgage(loanAmount: real, interestRate: real, loanTerm: int, extraRepayment: real)
    returns (paymentDetails: seq<Payment>)
    requires loanTerm > 0 && loanAmount > 0.0 ==> AnnuityDefined(MonthlyRate(interestRate), loanTerm * 12)
    ensures paymentDetails == AnnuitySchedule(loanAmount, interestRate, loanTerm, extraRepayment)
  {
    var monthlyInterestRate := MonthlyRate(interestRate);
    var totalPayments := loanTerm * 12;
    var remainingLoanAmount := loanAmount;
    paymentDetails := [];
    var month := 1;
    while month <= totalPayments
      invariant 1 <= month <= Months(loanTerm) + 1
      invariant |paymentDetails| == month - 1
      invariant month > 1 ==> loanAmount > 0.0
      invariant month == 1 ==> remainingLoanAmount == loanAmount
      invariant totalPayments > 0 && loanAmount > 0.0 ==>
        remainingLoanAmount == AnnuityBalance(loanAmount, monthlyInterestRate, totalPayments, extraRepayment, month - 1)
      invariant totalPayments > 0 && loanAmount > 0.0 ==> forall j :: 0 <= j < month - 1 ==>
        AnnuityBalance(loanAmount, monthlyInterestRate, totalPayments, extraRepayment, j) > 0.0
      invariant totalPayments > 0 && loanAmount > 0.0 ==> forall i :: 0 <= i < month - 1 ==>
        paymentDetails[i] == AnnuityRecord(loanAmount, monthlyInterestRate, totalPayments, extraRepayment, i + 1)
    {
      if remainingLoanAmount <= 0.0 {
        break;
      }
      var monthlyPayment := AnnuityPayment(remainingLoanAmount, monthlyInterestRate, totalPayments);
      var totalMonthlyPayment := monthlyPayment + extraRepayment;
      var interestPayment := Interest(remainingLoanAmount, monthlyInterestRate);
      var principalPayment := totalMonthlyPayment - interestPayment;
      remainingLoanAmount := remainingLoanAmount - principalPayment;
      paymentDetails := paymentDetails
        + [Payment(month, if principalPayment < 0.0 then 0.0 else principalPayment, interestPayment, totalMonthlyPayment)];
      month := month + 1;
    }
    if totalPayments > 0 && loanAmount > 0.0 {
      AnnuityRunIsFirstStop(loanAmount, monthlyInterestRate, totalPayments, extraRepayment, |paymentDetails|);
    }
  }

  /** A month count with the two properties of the loop's exit is the run length. */
  lemma AnnuityRunIsFirstStop(loanAmount: real, r: real, n: nat, extra: real, m: nat)
    requires AnnuityDefined(r, n) && m <= n
    requires forall j :: 0 <= j < m ==> AnnuityBalance(loanAmount, r, n, extra, j) > 0.0
    requires m < n ==> AnnuityBalance(loanAmount, r, n, extra, m) <= 0.0
    ensures AnnuityRun(loanAmount, r, n, extra, 0) == m
  {
  }

  /** next == balance * g - extra: one month of the annuity balance with growth g = 1 + r - factor. */
  predicate Carries(next: real, balance: real, g: real, extra: real)
  {
    next == balance * g - extra
  }

  /** One annuity month multiplies the balance by 1 + r - factor and takes off the extra repayment. */
  lemma AnnuityBalanceStep(loanAmount: real, r: real, n: int, extra: real, k: nat)
    requires AnnuityDefined(r, n)
    ensures Carries(AnnuityBalance(loanAmount, r, n, extra, k + 1), AnnuityBalance(loanAmount, r, n, extra, k),
                    1.0 + r - AnnuityFactor(r, n), extra)
  {
    var b := AnnuityBalance(loanAmount, r, n, extra, k);
    assert AnnuityBalance(loanAmount, r, n, extra, k + 1) == b - (b * AnnuityFactor(r, n) + extra - b * r);
  }

  lemma ShrinkStep(next: real, b: real, g: real)
    requires b > 0.0 && g > 0.0 && Carries(next, b, g, 0.0)
    ensures next > 0.0
  {
    PositiveProduct(b, g);
  }

  /** Without extra repayment, at a positive rate and over two months or more,
      the balance never reaches zero: each month's payment is recomputed from
      the balance left with the full-term factor, so it retires only part of it. */
  lemma {:induction false} AnnuityBalanceStaysPositive(loanAmount: real, r: real, n: int, k: nat)
    requires loanAmount > 0.0 && r > 0.0 && n >= 2
    ensures AnnuityDefined(r, n)
    ensures AnnuityBalance(loanAmount, r, n, 0.0, k) > 0.0
  {
    AnnuityFactorBelowGrowth(r, n);
    if k > 0 {
      AnnuityBalanceStaysPositive(loanAmount, r, n, k - 1);
      AnnuityBalanceStep(loanAmount, r, n, 0.0, k - 1);
      ShrinkStep(AnnuityBalance(loanAmount, r, n, 0.0, k), AnnuityBalance(loanAmount, r, n, 0.0, k - 1),
                 1.0 + r - AnnuityFactor(r, n));
    }
  }

  /** Hence, without extra repayment, the annuity schedule runs the whole term
      and still leaves a positive balance after its last month. */
  lemma AnnuityRunsFullTermWithoutExtra(loanAmount: real, interestRate: real, loanTerm: int)
    requires loanAmount > 0.0 && interestRate > 0.0 && loanTerm > 0
    ensures AnnuityDefined(MonthlyRate(interestRate), loanTerm * 12)
    ensures |AnnuitySchedule(loanAmount, interestRate, loanTerm, 0.0)| == Months(loanTerm)
    ensures AnnuityBalance(loanAmount, MonthlyRate(interestRate), loanTerm * 12, 0.0, loanTerm * 12) > 0.0
  {
    var r, n := MonthlyRate(interestRate), loanTerm * 12;
    AnnuityBalanceStaysPositive(loanAmount, r, n, n);
    var s := AnnuitySchedule(loanAmount, interestRate, loanTerm, 0.0);
    if |s| < n {
      AnnuityBalanceStaysPositive(loanAmount, r, n, |s|);
    }
  }

  lemma ScaleMonotone(low: real, high: real, g: real)
    requires low <= high && g >= 0.0
    ensures low * g <= high * g
  {
    var d := high - low;
    NonNegativeProduct(d, g);
    assert high * g == low * g + d * g;
  }

  lemma ExtraStep(b: real, b0: real, g: real, extra: real, c: real, c0: real)
    requires b <= b0 && g >= 0.0 && extra >= 0.0
    requires Carries(c, b, g, extra) && Carries(c0, b0, g, 0.0)
    ensures c <= c0
  {
    ScaleMonotone(b, b0, g);
    assert c0 == b0 * g;
  }

  /** A non-negative extra repayment never leaves a higher annuity balance than none. */
  lemma {:induction false} ExtraRepaymentLowersAnnuityBalance(loanAmount: real, r: real, n: int, extra: real, k: nat)
    requires r > 0.0 && n >= 2 && extra >= 0.0
    ensures AnnuityDefined(r, n)
    ensures AnnuityBalance(loanAmount, r, n, extra, k) <= AnnuityBalance(loanAmount, r, n, 0.0, k)
  {
    AnnuityFactorBelowGrowth(r, n);
    if k > 0 {
      ExtraRepaymentLowersAnnuityBalance(loanAmount, r, n, extra, k - 1);
      ExtraMonth(loanAmount, r, n, extra, k - 1);
    }
  }

  lemma ExtraMonth(loanAmount: real, r: real, n: int, extra: real, k: nat)
    requires AnnuityDefined(r, n) && AnnuityFactor(r, n) < 1.0 + r && extra >= 0.0
    requires AnnuityBalance(loanAmount, r, n, extra, k) <= AnnuityBalance(loanAmount, r, n, 0.0, k)
    ensures AnnuityBalance(loanAmount, r, n, extra, k + 1) <= AnnuityBalance(loanAmount, r, n, 0.0, k + 1)
  {
    AnnuityBalanceStep(loanAmount, r, n, extra, k);
    AnnuityBalanceStep(loanAmount, r, n, 0.0, k);
    ExtraStep(AnnuityBalance(loanAmount, r, n, extra, k), AnnuityBalance(loanAmount, r, n, 0.0, k),
              1.0 + r - AnnuityFactor(r, n), extra,
              AnnuityBalance(loanAmount, r, n, extra, k + 1), AnnuityBalance(loanAmount, r, n, 0.0, k + 1));
  }

  // ---------------------------------------------------------------------------
  // Linear: a fixed principal portion loanAmount / n plus the extra repayment.

  function LinearRecord(loanAmount: real, interestRate: real, loanTerm: int, extra: real, month: int): Payment
    requires 1 <= month <= Months(loanTerm)
  {
    var portion := Portion(loanAmount, loanTerm * 12);
    var interest := Interest(LinearBalance(loanAmount, Installment(loanAmount, loanTerm, extra), month - 1), MonthlyRate(interestRate));
    Payment(month, portion + extra, interest, portion + interest + extra)
  }

  /** The linear schedule: no month for a loan that is not positive or a term of
      no months; otherwise the months before the balance first drops to zero or
      below, each repaying the portion and the extra repayment on top of its interest. */
  function LinearSchedule(loanAmount: real, interestRate: real, loanTerm: int, extra: real): (s: seq<Payment>)
    ensures |s| <= Months(loanTerm)
    ensures |s| == 0 <==> loanTerm <= 0 || loanAmount <= 0.0
    ensures forall i :: 0 <= i < |s| ==> s[i].month == i + 1
    ensures forall i :: 0 <= i < |s| ==> s[i].total == s[i].principal + s[i].interest
    ensures |s| > 0 ==> forall i :: 0 <= i < |s| ==> s[i].principal == Installment(loanAmount, loanTerm, extra)
    ensures |s| > 0 ==> forall i :: 0 <= i < |s| ==>
      LinearBalance(loanAmount, Installment(loanAmount, loanTerm, extra), i) > 0.0
    ensures 0 < |s| < Months(loanTerm) ==>
      LinearBalance(loanAmount, Installment(loanAmount, loanTerm, extra), |s|) <= 0.0
    ensures interestRate >= 0.0 ==> forall i :: 0 <= i < |s| ==> s[i].interest >= 0.0
  {
    if loanTerm <= 0 || loanAmount <= 0.0 then []
    else
      var n := loanTerm * 12;
      var m := LinearRun(loanAmount, Installment(loanAmount, loanTerm, extra), n, 0);
      seq(m, i requires 0 <= i < m => LinearRecord(loanAmount, interestRate, loanTerm, extra, i + 1))
  }

  method CalculateLinearMortgage(loanAmount: real, interestRate: real, loanTerm: int, extraRepayment: real)
    returns (paymentDetails: seq<Payment>)
    ensures paymentDetails == LinearSchedule(loanAmount, interestRate, loanTerm, extraRepayment)
  {
    var remainingLoanAmount := loanAmount;
    paymentDetails := [];
    var month := 1;
    while month <= loanTerm * 12
      invariant 1 <= month <= Months(loanTerm) + 1
      invariant |paymentDetails| == month - 1
      invariant month > 1 ==> loanAmount > 0.0
      invariant loanTerm > 0 ==>
        remainingLoanAmount == LinearBalance(loanAmount, Installment(loanAmount, loanTerm, extraRepayment), month - 1)
      invariant loanTerm > 0 ==> forall j :: 0 <= j < month - 1 ==>
        LinearBalance(loanAmount, Installment(loanAmount, loanTerm, extraRepayment), j) > 0.0
      invariant forall i :: 0 <= i < month - 1 ==>
        paymentDetails[i] == LinearRecord(loanAmount, interestRate, loanTerm, extraRepayment, i + 1)
    {
      if remainingLoanAmount <= 0.0 {
        break;
      }
      var monthlyPrincipalRepayment := Portion(loanAmount, loanTerm * 12);
      var interestPayment := Interest(remainingLoanAmount, MonthlyRate(interestRate));
      var totalMonthlyPayment := monthlyPrincipalRepayment + interestPayment + extraRepayment;
      remainingLoanAmount := remainingLoanAmount - (monthlyPrincipalRepayment + extraRepayment);
      paymentDetails := paymentDetails
        + [Payment(month, monthlyPrincipalRepayment + extraRepayment, interestPayment, totalMonthlyPayment)];
      month := month + 1;
    }
    if loanTerm > 0 && loanAmount > 0.0 {
      LinearRunIsFirstStop(loanAmount, Installment(loanAmount, loanTerm, extraRepayment), loanTerm * 12, 0, |paymentDetails|);
    }
  }

  /** Month i + 1 pays the interest on the loan less i portions with the extra repayment. */
  lemma LinearMonth(loanAmount: real, interestRate: real, loanTerm: int, extra: real, i: nat)
    requires i < |LinearSchedule(loanAmount, interestRate, loanTerm, extra)|
    ensures LinearSchedule(loanAmount, interestRate, loanTerm, extra)[i].interest
      == Interest(loanAmount - (i as real) * Installment(loanAmount, loanTerm, extra), MonthlyRate(interestRate))
  {
    assert LinearSchedule(loanAmount, interestRate, loanTerm, extra)[i] == LinearRecord(loanAmount, interestRate, loanTerm, extra, i + 1);
    LinearBalanceClosedForm(loanAmount, Installment(loanAmount, loanTerm, extra), i);
  }

  /** A positive loan with an extra repayment that is not negative strictly
      shrinks every month: it drops by the positive portion plus the extra repayment. */
  lemma LinearBalanceFalls(loanAmount: real, loanTerm: int, extra: real, k: nat)
    requires loanAmount > 0.0 && loanTerm > 0 && extra >= 0.0
    ensures LinearBalance(loanAmount, Installment(loanAmount, loanTerm, extra), k + 1)
          < LinearBalance(loanAmount, Installment(loanAmount, loanTerm, extra), k)
  {
  }

  /** Without extra repayment the linear balance stays positive until the last
      month, so the schedule runs the whole term. */
  lemma LinearRunsFullTermWithoutExtra(loanAmount: real, interestRate: real, loanTerm: int)
    requires loanAmount > 0.0 && loanTerm > 0
    ensures |LinearSchedule(loanAmount, interestRate, loanTerm, 0.0)| == Months(loanTerm)
  {
    var n := loanTerm * 12;
    var s := LinearSchedule(loanAmount, interestRate, loanTerm, 0.0);
    if |s| < n {
      LinearBalanceClosedForm(loanAmount, Installment(loanAmount, loanTerm, 0.0), |s|);
    }
  }

  /** With a loan, a rate and an extra repayment that are not negative, the
      linear interest never grows from one month to a later one. */
  lemma LinearInterestDeclines(loanAmount: real, interestRate: real, loanTerm: int, extra: real, i: nat, j: nat)
    requires i <= j < |LinearSchedule(loanAmount, interestRate, loanTerm, extra)|
    requires interestRate >= 0.0 && extra >= 0.0
    ensures LinearSchedule(loanAmount, interestRate, loanTerm, extra)[j].interest
      <= LinearSchedule(loanAmount, interestRate, loanTerm, extra)[i].interest
  {
    var s := LinearSchedule(loanAmount, interestRate, loanTerm, extra);
    var step := Installment(loanAmount, loanTerm, extra);
    assert s[i] == LinearRecord(loanAmount, interestRate, loanTerm, extra, i + 1);
    assert s[j] == LinearRecord(loanAmount, interestRate, loanTerm, extra, j + 1);
    LinearBalanceMonotone(loanAmount, step, i, j);
    InterestMonotone(LinearBalance(loanAmount, step, j), LinearBalance(loanAmount, step, i), MonthlyRate(interestRate));
  }

  // ---------------------------------------------------------------------------
  // Submit: pair the selected schedule with the other one up to the shorter length.

  function Min(a: int, b: int): int
  {
    if a <= b then a else b
  }

  /** The total payments of a schedule, month by month. */
  function TotalsOf(s: seq<Payment>): (ts: seq<real>)
    ensures |ts| == |s|
    ensures forall i :: 0 <= i < |s| ==> ts[i] == s[i].total
  {
    seq(|s|, i requires 0 <= i < |s| => s[i].total)
  }

  /** The first min(|own|, |other|) payments of `own`, each with the difference
      between its total and the other schedule's total of the same month. */
  function Pair(own: seq<Payment>, other: seq<real>): (rows: seq<Row>)
    ensures |rows| == Min(|own|, |other|)
    ensures forall i :: 0 <= i < |rows| ==> rows[i].payment == own[i]
    ensures forall i :: 0 <= i < |rows| ==> rows[i].difference + other[i] == own[i].total
  {
    seq(Min(|own|, |other|), i requires 0 <= i < Min(|own|, |other|) =>
      Row(own[i], own[i].total - other[i]))
  }

  /** Pairing the schedules the other way round gives the same months with opposite differences. */
  lemma PairAntisymmetric(a: seq<Payment>, b: seq<Payment>)
    ensures |Pair(a, TotalsOf(b))| == |Pair(b, TotalsOf(a))|
    ensures forall i :: 0 <= i < |Pair(a, TotalsOf(b))| ==>
      Pair(a, TotalsOf(b))[i].difference == -Pair(b, TotalsOf(a))[i].difference
  {
  }

  /** The submit handler can compute the result: the annuity formula has a value
      whenever the annuity loop runs, except at a zero rate with the linear scheme
      selected, where only the annuity totals are read. */
  predicate Computable(loanAmount: real, interestRate: real, loanTerm: int, mortgageType: MortgageType)
  {
    loanTerm > 0 && loanAmount > 0.0 ==>
      AnnuityDefined(MonthlyRate(interestRate), loanTerm * 12) || (mortgageType == Linear && interestRate == 0.0)
  }

  /** The annuity totals as the submit handler reads them, `totalPayment || 0`.
      At a zero rate the payment is 0 / 0, NaN: the balance is NaN after the first
      month, `NaN <= 0` never stops the loop, all n months are recorded, and
      `NaN || 0` reads each of their totals as 0. */
  function AnnuityTotals(loanAmount: real, interestRate: real, loanTerm: int, extra: real): seq<real>
    requires Computable(loanAmount, interestRate, loanTerm, Linear)
  {
    if loanTerm > 0 && loanAmount > 0.0 && interestRate == 0.0 then seq(loanTerm * 12, i => 0.0)
    else TotalsOf(AnnuitySchedule(loanAmount, interestRate, loanTerm, extra))
  }

  function SubmitResult(loanAmount: real, interestRate: real, loanTerm: int, extra: real, mortgageType: MortgageType): seq<Row>
    requires Computable(loanAmount, interestRate, loanTerm, mortgageType)
  {
    var linear := LinearSchedule(loanAmount, interestRate, loanTerm, extra);
    if mortgageType == Annuity then Pair(AnnuitySchedule(loanAmount, interestRate, loanTerm, extra), TotalsOf(linear))
    else Pair(linear, AnnuityTotals(loanAmount, interestRate, loanTerm, extra))
  }

  /** A submit with an input that does not parse keeps the result shown before;
      otherwise the result is the selected schedule paired with the other one. */
  method HandleSubmit(previous: seq<Row>, loanAmount: Parsed<real>, interestRate: Parsed<real>, loanTerm: Parsed<int>,
                      extraRepayment: Parsed<real>, mortgageType: MortgageType)
    returns (calculationResult: seq<Row>)
    requires loanAmount.Number? && interestRate.Number? && loanTerm.Number? && extraRepayment.Number? ==>
      Computable(loanAmount.value, interestRate.value, loanTerm.value, mortgageType)
    ensures loanAmount.NaN? || interestRate.NaN? || loanTerm.NaN? || extraRepayment.NaN? ==> calculationResult == previous
    ensures loanAmount.Number? && interestRate.Number? && loanTerm.Number? && extraRepayment.Number? ==>
      calculationResult == SubmitResult(loanAmount.value, interestRate.value, loanTerm.value, extraRepayment.value, mortgageType)
  {
    if loanAmount.NaN? || interestRate.NaN? || loanTerm.NaN? || extraRepayment.NaN? {
      return previous;
    }
    var linearResult := CalculateLinearMortgage(loanAmount.value, interestRate.value, loanTerm.value, extraRepayment.value);
    if mortgageType == Annuity {
      var annuityResult := CalculateAnnuityMortgage(loanAmount.value, interestRate.value, loanTerm.value, extraRepayment.value);
      calculationResult := Pair(annuityResult, TotalsOf(linearResult));
    } else if loanTerm.value > 0 && loanAmount.value > 0.0 && interestRate.value == 0.0 {
      // Every annuity total is NaN, which `|| 0` reads as 0.
      calculationResult := Pair(linearResult, seq(loanTerm.value * 12, i => 0.0));
    } else {
      var annuityResult := CalculateAnnuityMortgage(loanAmount.value, interestRate.value, loanTerm.value, extraRepayment.value);
      calculationResult := Pair(linearResult, TotalsOf(annuityResult));
    }
  }

  /** At a zero rate with the linear scheme selected, the result is the whole
      linear schedule, each month's difference being its own total. */
  lemma ZeroRateLinearSubmit(loanAmount: real, loanTerm: int, extra: real)
    requires loanAmount > 0.0 && loanTerm > 0
    ensures var rows := SubmitResult(loanAmount, 0.0, loanTerm, extra, Linear);
            var linear := LinearSchedule(loanAmount, 0.0, loanTerm, extra);
      |rows| == |linear|
      && forall i :: 0 <= i < |rows| ==> rows[i].payment == linear[i] && rows[i].difference == linear[i].total
  {
  }

  /** Without extra repayment, at a positive rate, both schedules run the whole
      term, so pairing them drops no month. */
  lemma SubmitKeepsFullTermWithoutExtra(loanAmount: real, interestRate: real, loanTerm: int, mortgageType: MortgageType)
    requires loanAmount > 0.0 && interestRate > 0.0 && loanTerm > 0
    ensures AnnuityDefined(MonthlyRate(interestRate), loanTerm * 12)
    ensures |SubmitResult(loanAmount, interestRate, loanTerm, 0.0, mortgageType)| == Months(loanTerm)
  {
    AnnuityRunsFullTermWithoutExtra(loanAmount, interestRate, loanTerm);
    LinearRunsFullTermWithoutExtra(loanAmount, interestRate, loanTerm);
  }

  // ---------------------------------------------------------------------------
  // Totals under the table.

  function Totals(rows: seq<Row>): (xs: seq<real>)
    ensures |xs| == |rows|
  {
    seq(|rows|, i requires 0 <= i < |rows| => rows[i].payment.total)
  }

  function Differences(rows: seq<Row>): (xs: seq<real>)
    ensures |xs| == |rows|
  {
    seq(|rows|, i requires 0 <= i < |rows| => rows[i].difference)
  }

  /** totalPayments: the sum of the total payments of the rows. */
  function TotalPayments(rows: seq<Row>): real
  {
    Sum(Totals(rows))
  }

  /** totalDifference: the sum of the differences of the rows. */
  function TotalDifference(rows: seq<Row>): real
  {
    Sum(Differences(rows))
  }

  /** Both totals fold from 0, adding the rows top to bottom. */
  lemma TotalsAppend(rows: seq<Row>, row: Row)
    ensures TotalPayments([]) == 0.0 && TotalDifference([]) == 0.0
    ensures TotalPayments(rows + [row]) == TotalPayments(rows) + row.payment.total
    ensures TotalDifference(rows + [row]) == TotalDifference(rows) + row.difference
  {
    assert Totals(rows + [row])[..|rows|] == Totals(rows);
    assert Differences(rows + [row])[..|rows|] == Differences(rows);
  }

  /** The total difference is what the selected schedule pays over the shared
      months less what the other schedule pays over the same months. */
  lemma TotalDifferenceIsTotalsGap(own: seq<Payment>, other: seq<Payment>)
    ensures TotalDifference(Pair(own, TotalsOf(other)))
         == TotalPayments(Pair(own, TotalsOf(other))) - TotalPayments(Pair(other, TotalsOf(own)))
  {
    var rows, mirror := Pair(own, TotalsOf(other)), Pair(other, TotalsOf(own));
    SumDifference(Differences(rows), Totals(rows), Totals(mirror));
  }
}

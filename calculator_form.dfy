/** The calculator form of CalculatorForm.js: an annuity and a linear schedule
    over the full term, each month's after-tax cost, the month-by-month
    difference against the other scheme with its discounted time value, and
    the totals row. The monthly discount factor q stands for
    (1 + discountFactor / 100)^(1/12). */
module CalculatorForm {
  import opened Amortization

  datatype MortgageType = Annuity | Linear

  /** One month as a generator emits it. */
  datatype Payment = Payment(month: int, principal: real, interest: real, total: real, netto: real, timeValue: real)

  /** One month of the submitted result, `{ ...payment, difference, timeValue }`:
      its own timeValue replaces the payment's. */
  datatype Row = Row(payment: Payment, difference: real, timeValue: real)

  /** Present value of a monthly difference, discounted over the months left, with the sign inverted. */
  function TimeValue(difference: real, loanTerm: int, month: int, q: real): (tv: real)
    requires month <= loanTerm * 12 + 1
    ensures q >= 0.0 && difference >= 0.0 ==> tv <= 0.0
    ensures q >= 0.0 && difference <= 0.0 ==> tv >= 0.0
  {
    DiscountSign(difference, q, loanTerm * 12 - month + 1);
    -Discount(difference, q, loanTerm * 12 - month + 1)
  }

  lemma DiscountSign(amount: real, q: real, k: nat)
    ensures q >= 0.0 && amount >= 0.0 ==> Discount(amount, q, k) >= 0.0
    ensures q >= 0.0 && amount <= 0.0 ==> Discount(amount, q, k) <= 0.0
  {
    if q >= 0.0 {
      PowNonNegative(q, k);
      if amount >= 0.0 {
        NonNegativeProduct(amount, Pow(q, k));
      } else {
        NonNegativeProduct(-amount, Pow(q, k));
      }
    }
  }

  /** With q >= 1 the time value has the opposite sign of the difference and at least its size. */
  lemma TimeValueBounds(difference: real, loanTerm: int, month: int, q: real)
    requires month <= loanTerm * 12 + 1 && q >= 1.0
    ensures difference >= 0.0 ==> TimeValue(difference, loanTerm, month, q) <= -difference
    ensures difference <= 0.0 ==> TimeValue(difference, loanTerm, month, q) >= -difference
  {
    var p := Pow(q, loanTerm * 12 - month + 1);
    PowAtLeastOne(q, loanTerm * 12 - month + 1);
    assert difference >= 0.0 ==> difference * p >= difference * 1.0;
    assert difference <= 0.0 ==> difference * p <= difference * 1.0;
  }

  /** For a fixed difference and q > 1, the discounted value shrinks in size as
      the month approaches the end of the term. */
  lemma TimeValueShrinksTowardEnd(difference: real, loanTerm: int, month: int, q: real)
    requires q > 1.0 && difference != 0.0 && 1 <= month < loanTerm * 12
    ensures Abs(TimeValue(difference, loanTerm, month + 1, q)) < Abs(TimeValue(difference, loanTerm, month, q))
  {
    var k := loanTerm * 12 - month;
    PowAtLeastOne(q, k);
    assert Pow(q, k + 1) == q * Pow(q, k);
    assert Pow(q, k + 1) > Pow(q, k);
    if difference > 0.0 {
      assert difference * Pow(q, k + 1) > difference * Pow(q, k);
    } else {
      assert difference * Pow(q, k + 1) < difference * Pow(q, k);
    }
  }

  // ---------------------------------------------------------------------------
  // Annuity: a fixed payment computed once from the original loan amount.

  /** Balance after k months when each month pays `payment` and interest accrues on the balance. */
  function AnnuityBalance(loanAmount: real, r: real, payment: real, k: nat): real
  {
    if k == 0 then loanAmount
    else
      var b := AnnuityBalance(loanAmount, r, payment, k - 1);
      b - (payment - Interest(b, r))
  }

  /** r * balance = r * L * x - payment * (x - 1), where x is (1 + r)^k after k months. */
  predicate MatchesClosedForm(loanAmount: real, r: real, payment: real, balance: real, x: real)
  {
    r * balance == r * loanAmount * x - payment * (x - 1.0)
  }

  /** r * balance_k = r * L * (1 + r)^k - payment * ((1 + r)^k - 1). */
  lemma {:induction false} AnnuityBalanceClosedForm(loanAmount: real, r: real, payment: real, k: nat)
    ensures MatchesClosedForm(loanAmount, r, payment, AnnuityBalance(loanAmount, r, payment, k), Pow(1.0 + r, k))
  {
    if k > 0 {
      AnnuityBalanceClosedForm(loanAmount, r, payment, k - 1);
      ClosedFormStep(r, loanAmount, payment, AnnuityBalance(loanAmount, r, payment, k - 1), Pow(1.0 + r, k - 1),
                     AnnuityBalance(loanAmount, r, payment, k), Pow(1.0 + r, k));
    }
  }

  lemma ClosedFormStep(r: real, loanAmount: real, payment: real, b: real, x: real, b': real, x': real)
    requires MatchesClosedForm(loanAmount, r, payment, b, x)
    requires b' == b - (payment - Interest(b, r)) && x' == (1.0 + r) * x
    ensures MatchesClosedForm(loanAmount, r, payment, b', x')
  {
    assert r * b' == (r * b) * (1.0 + r) - r * payment;
  }

  /** With the annuity payment, the balance after the last month is exactly zero. */
  lemma AnnuityPaysOff(loanAmount: real, r: real, n: int)
    requires AnnuityDefined(r, n)
    ensures AnnuityBalance(loanAmount, r, AnnuityPayment(loanAmount, r, n), n) == 0.0
  {
    AnnuityBalanceClosedForm(loanAmount, r, AnnuityPayment(loanAmount, r, n), n);
    AnnuityNeedsNonZeroRate(r, n);
    PaidOffArithmetic(r, loanAmount, Pow(1.0 + r, n), AnnuityFactor(r, n), AnnuityPayment(loanAmount, r, n),
                      AnnuityBalance(loanAmount, r, AnnuityPayment(loanAmount, r, n), n));
  }

  lemma PaidOffArithmetic(r: real, loanAmount: real, x: real, f: real, payment: real, b: real)
    requires r != 0.0 && f * (x - 1.0) == r * x && payment == loanAmount * f
    requires MatchesClosedForm(loanAmount, r, payment, b, x)
    ensures b == 0.0
  {
    assert payment * (x - 1.0) == loanAmount * (f * (x - 1.0));
    assert r * b == 0.0;
    ZeroProduct(r, b);
  }

  /** At a positive rate a loan that is not negative never grows from one month
      to the next, and a positive one strictly shrinks: the fixed payment exceeds
      the interest of month k + 1 by (1 + r)^k * L * (factor - r). */
  lemma AnnuityBalanceFalls(loanAmount: real, r: real, n: int, k: nat)
    requires r > 0.0 && n > 0 && loanAmount >= 0.0
    ensures AnnuityDefined(r, n)
    ensures AnnuityBalance(loanAmount, r, AnnuityPayment(loanAmount, r, n), k + 1)
         <= AnnuityBalance(loanAmount, r, AnnuityPayment(loanAmount, r, n), k)
    ensures loanAmount > 0.0 ==>
      AnnuityBalance(loanAmount, r, AnnuityPayment(loanAmount, r, n), k + 1)
      < AnnuityBalance(loanAmount, r, AnnuityPayment(loanAmount, r, n), k)
  {
    PositiveRateAnnuity(r, n);
    AnnuityBalanceClosedForm(loanAmount, r, AnnuityPayment(loanAmount, r, n), k);
    PowAtLeastOne(1.0 + r, k);
    PaymentCoversInterest(r, loanAmount, AnnuityFactor(r, n), AnnuityPayment(loanAmount, r, n),
                          AnnuityBalance(loanAmount, r, AnnuityPayment(loanAmount, r, n), k), Pow(1.0 + r, k));
  }

  lemma PaymentCoversInterest(r: real, loanAmount: real, f: real, payment: real, b: real, x: real)
    requires r > 0.0 && loanAmount >= 0.0 && f > r && payment == loanAmount * f && x >= 1.0
    requires MatchesClosedForm(loanAmount, r, payment, b, x)
    ensures payment - Interest(b, r) >= 0.0
    ensures loanAmount > 0.0 ==> payment - Interest(b, r) > 0.0
  {
    var surplus := loanAmount * (f - r);
    assert payment - Interest(b, r) == x * surplus by {
      assert payment - r * b == payment * x - r * loanAmount * x;
    }
    NonNegativeProduct(loanAmount, f - r);
    NonNegativeProduct(x, surplus);
    if loanAmount > 0.0 {
      PositiveProduct(loanAmount, f - r);
      PositiveProduct(x, surplus);
    }
  }

  function AnnuityRecord(loanAmount: real, interestRate: real, loanTerm: int, q: real, month: int): Payment
    requires 1 <= month <= Months(loanTerm)
    requires AnnuityDefined(MonthlyRate(interestRate), loanTerm * 12)
  {
    var r := MonthlyRate(interestRate);
    var n := loanTerm * 12;
    var payment := AnnuityPayment(loanAmount, r, n);
    var interest := Interest(AnnuityBalance(loanAmount, r, payment, month - 1), r);
    var principal := payment - interest;
    var netto := Netto(principal, interest);
    Payment(month, principal, interest, payment, netto, Discount(netto, q, n - month + 1))
  }

  /** The annuity schedule: one record per month 1..n; the total payment is the
      same every month, split into the interest on the balance at the start of
      the month and the principal that makes up the rest. */
  function AnnuitySchedule(loanAmount: real, interestRate: real, loanTerm: int, q: real): (s: seq<Payment>)
    requires loanTerm > 0 ==> AnnuityDefined(MonthlyRate(interestRate), loanTerm * 12)
    ensures |s| == Months(loanTerm)
    ensures forall i :: 0 <= i < |s| ==> s[i].month == i + 1
    ensures |s| > 0 ==> forall i :: 0 <= i < |s| ==>
      s[i].total == AnnuityPayment(loanAmount, MonthlyRate(interestRate), loanTerm * 12)
    ensures forall i :: 0 <= i < |s| ==> s[i].principal + s[i].interest == s[i].total
    ensures forall i :: 0 <= i < |s| ==>
      s[i].interest == Interest(AnnuityBalance(loanAmount, MonthlyRate(interestRate), s[i].total, i), MonthlyRate(interestRate))
    ensures forall i :: 0 <= i < |s| ==> s[i].netto == Netto(s[i].principal, s[i].interest)
  {
    seq(Months(loanTerm), i requires 0 <= i < Months(loanTerm) => AnnuityRecord(loanAmount, interestRate, loanTerm, q, i + 1))
  }

  method CalculateAnnuityMortgage(loanAmount: real, interestRate: real, loanTerm: int, q: real)
    returns (paymentDetails: seq<Payment>)
    requires loanTerm > 0 ==> AnnuityDefined(MonthlyRate(interestRate), loanTerm * 12)
    ensures paymentDetails == AnnuitySchedule(loanAmount, interestRate, loanTerm, q)
  {
    var monthlyInterestRate := MonthlyRate(interestRate);
    var totalPayments := loanTerm * 12;
    var remainingLoanAmount := loanAmount;
    paymentDetails := [];
    var month := 1;
    while month <= totalPayments
      invariant 1 <= month <= Months(loanTerm) + 1
      invariant |paymentDetails| == month - 1
      invariant forall i :: 0 <= i < month - 1 ==>
        paymentDetails[i] == AnnuityRecord(loanAmount, interestRate, loanTerm, q, i + 1)
      invariant totalPayments > 0 ==>
        remainingLoanAmount == AnnuityBalance(loanAmount, monthlyInterestRate,
                                              AnnuityPayment(loanAmount, monthlyInterestRate, totalPayments), month - 1)
    {
      var interestPayment := Interest(remainingLoanAmount, monthlyInterestRate);
      var monthlyPayment := AnnuityPayment(loanAmount, monthlyInterestRate, totalPayments);
      var principalPayment := monthlyPayment - interestPayment;
      remainingLoanAmount := remainingLoanAmount - principalPayment;
      var nettoMonthly := Netto(principalPayment, interestPayment);
      var timeValue := Discount(nettoMonthly, q, totalPayments - month + 1);
      paymentDetails := paymentDetails
        + [Payment(month, principalPayment, interestPayment, monthlyPayment, nettoMonthly, timeValue)];
      month := month + 1;
    }
  }

  // ---------------------------------------------------------------------------
  // Linear: a fixed principal portion loanAmount / n every month.

  function LinearRecord(loanAmount: real, interestRate: real, loanTerm: int, q: real, month: int): Payment
    requires 1 <= month <= Months(loanTerm)
  {
    var n := loanTerm * 12;
    var principal := Portion(loanAmount, n);
    var interest := Interest(LinearBalance(loanAmount, principal, month - 1), MonthlyRate(interestRate));
    var netto := Netto(principal, interest);
    Payment(month, principal, interest, principal + interest, netto, Discount(netto, q, n - month + 1))
  }

  /** The linear schedule: one record per month 1..n, each repaying the same
      principal portion, plus the interest on the balance at the start of the month. */
  function LinearSchedule(loanAmount: real, interestRate: real, loanTerm: int, q: real): (s: seq<Payment>)
    ensures |s| == Months(loanTerm)
    ensures forall i :: 0 <= i < |s| ==> s[i].month == i + 1
    ensures forall i :: 0 <= i < |s| ==> s[i].principal == Portion(loanAmount, loanTerm * 12)
    ensures forall i :: 0 <= i < |s| ==> s[i].total == s[i].principal + s[i].interest
    ensures forall i :: 0 <= i < |s| ==> s[i].netto == Netto(s[i].principal, s[i].interest)
  {
    seq(Months(loanTerm), i requires 0 <= i < Months(loanTerm) => LinearRecord(loanAmount, interestRate, loanTerm, q, i + 1))
  }

  /** The interest of linear month i + 1 is charged on the balance after i principal portions. */
  lemma LinearInterestOnBalance(loanAmount: real, interestRate: real, loanTerm: int, q: real, i: nat)
    requires i < Months(loanTerm)
    ensures LinearSchedule(loanAmount, interestRate, loanTerm, q)[i].interest
         == Interest(LinearBalance(loanAmount, Portion(loanAmount, loanTerm * 12), i), MonthlyRate(interestRate))
  {
    assert LinearSchedule(loanAmount, interestRate, loanTerm, q)[i] == LinearRecord(loanAmount, interestRate, loanTerm, q, i + 1);
  }

  /** Month i + 1 pays the interest on the loan less i equal principal portions. */
  lemma LinearInterest(loanAmount: real, interestRate: real, loanTerm: int, q: real, i: nat)
    requires i < Months(loanTerm)
    ensures LinearSchedule(loanAmount, interestRate, loanTerm, q)[i].interest
      == Interest(loanAmount - (i as real) * Portion(loanAmount, loanTerm * 12), MonthlyRate(interestRate))
  {
    LinearInterestOnBalance(loanAmount, interestRate, loanTerm, q, i);
    LinearBalanceClosedForm(loanAmount, Portion(loanAmount, loanTerm * 12), i);
  }

  /** With a loan and a rate that are not negative, the linear interest never grows from one month to a later one. */
  lemma LinearInterestDeclines(loanAmount: real, interestRate: real, loanTerm: int, q: real, i: nat, j: nat)
    requires i <= j < Months(loanTerm)
    requires loanAmount >= 0.0 && interestRate >= 0.0
    ensures LinearSchedule(loanAmount, interestRate, loanTerm, q)[j].interest
      <= LinearSchedule(loanAmount, interestRate, loanTerm, q)[i].interest
  {
    LinearInterestOnBalance(loanAmount, interestRate, loanTerm, q, i);
    LinearInterestOnBalance(loanAmount, interestRate, loanTerm, q, j);
    LinearBalanceMonotone(loanAmount, Portion(loanAmount, loanTerm * 12), i, j);
    InterestMonotone(LinearBalance(loanAmount, Portion(loanAmount, loanTerm * 12), j),
                     LinearBalance(loanAmount, Portion(loanAmount, loanTerm * 12), i), MonthlyRate(interestRate));
  }

  /** The linear balance after the last month is exactly zero. */
  lemma LinearPaysOff(loanAmount: real, loanTerm: int)
    requires loanTerm > 0
    ensures LinearBalance(loanAmount, Portion(loanAmount, loanTerm * 12), loanTerm * 12) == 0.0
  {
    LinearBalanceClosedForm(loanAmount, Portion(loanAmount, loanTerm * 12), loanTerm * 12);
  }

  method CalculateLinearMortgage(loanAmount: real, interestRate: real, loanTerm: int, q: real)
    returns (paymentDetails: seq<Payment>)
    ensures paymentDetails == LinearSchedule(loanAmount, interestRate, loanTerm, q)
  {
    var remainingLoanAmount := loanAmount;
    paymentDetails := [];
    var month := 1;
    while month <= loanTerm * 12
      invariant 1 <= month <= Months(loanTerm) + 1
      invariant |paymentDetails| == month - 1
      invariant forall i :: 0 <= i < month - 1 ==>
        paymentDetails[i] == LinearRecord(loanAmount, interestRate, loanTerm, q, i + 1)
      invariant loanTerm > 0 ==>
        remainingLoanAmount == LinearBalance(loanAmount, Portion(loanAmount, loanTerm * 12), month - 1)
    {
      var interestPayment := Interest(remainingLoanAmount, MonthlyRate(interestRate));
      var monthlyPrincipalRepayment := Portion(loanAmount, loanTerm * 12);
      var totalPayment := monthlyPrincipalRepayment + interestPayment;
      var nettoMonthly := Netto(monthlyPrincipalRepayment, interestPayment);
      var timeValue := Discount(nettoMonthly, q, loanTerm * 12 - month + 1);
      remainingLoanAmount := remainingLoanAmount - monthlyPrincipalRepayment;
      paymentDetails := paymentDetails
        + [Payment(month, monthlyPrincipalRepayment, interestPayment, totalPayment, nettoMonthly, timeValue)];
      month := month + 1;
    }
  }

  // ---------------------------------------------------------------------------
  // Submit: pair the selected schedule with the other one, month by month.

  /** `{ ...payment, difference, timeValue }` for one payment and the other scheme's netto amount. */
  function WithDifference(payment: Payment, counterpart: real, loanTerm: int, q: real): (row: Row)
    requires payment.month <= loanTerm * 12 + 1
    ensures row.payment == payment
    ensures row.difference + counterpart == payment.netto
    ensures row.timeValue == TimeValue(row.difference, loanTerm, payment.month, q)
  {
    var difference := payment.netto - counterpart;
    Row(payment, difference, TimeValue(difference, loanTerm, payment.month, q))
  }

  /** Each payment of `own` paired with the netto amount of `other` at the same
      index, or with 0 when `other` has no such index. */
  function Compare(own: seq<Payment>, other: seq<Payment>, loanTerm: int, q: real): (rows: seq<Row>)
    requires forall i :: 0 <= i < |own| ==> own[i].month <= loanTerm * 12 + 1
    ensures |rows| == |own|
    ensures forall i :: 0 <= i < |rows| ==> rows[i].payment == own[i]
    ensures forall i :: 0 <= i < |rows| ==>
      rows[i].difference + (if i < |other| then other[i].netto else 0.0) == own[i].netto
    ensures forall i :: 0 <= i < |rows| ==>
      rows[i].timeValue == TimeValue(rows[i].difference, loanTerm, own[i].month, q)
  {
    seq(|own|, i requires 0 <= i < |own| =>
      WithDifference(own[i], if i < |other| then other[i].netto else 0.0, loanTerm, q))
  }

  /** What handleSubmit stores: the selected schedule compared with the other one. */
  function SubmitResult(loanAmount: real, interestRate: real, loanTerm: int, q: real, mortgageType: MortgageType): seq<Row>
    requires loanTerm > 0 ==> AnnuityDefined(MonthlyRate(interestRate), loanTerm * 12)
  {
    var annuity := AnnuitySchedule(loanAmount, interestRate, loanTerm, q);
    var linear := LinearSchedule(loanAmount, interestRate, loanTerm, q);
    if mortgageType == Annuity then Compare(annuity, linear, loanTerm, q)
    else Compare(linear, annuity, loanTerm, q)
  }

  method HandleSubmit(loanAmount: real, interestRate: real, loanTerm: int, q: real, mortgageType: MortgageType)
    returns (result: seq<Row>)
    requires loanTerm > 0 ==> AnnuityDefined(MonthlyRate(interestRate), loanTerm * 12)
    ensures result == SubmitResult(loanAmount, interestRate, loanTerm, q, mortgageType)
    ensures |result| == Months(loanTerm)
    ensures forall i :: 0 <= i < |result| ==> result[i].payment.month == i + 1
    ensures loanTerm > 0 ==> ColumnTotal(result, PrincipalColumn) == loanAmount
  {
    var annuityResult := CalculateAnnuityMortgage(loanAmount, interestRate, loanTerm, q);
    var linearResult := CalculateLinearMortgage(loanAmount, interestRate, loanTerm, q);
    result := if mortgageType == Annuity then Compare(annuityResult, linearResult, loanTerm, q)
              else Compare(linearResult, annuityResult, loanTerm, q);
    if loanTerm > 0 {
      SubmitPrincipalTotal(loanAmount, interestRate, loanTerm, q, mortgageType);
    }
  }

  // ---------------------------------------------------------------------------
  // The totals row.

  datatype Column = PrincipalColumn | InterestColumn | TotalColumn | NettoColumn | DifferenceColumn | TimeValueColumn

  function Cell(row: Row, c: Column): real
  {
    match c
    case PrincipalColumn => row.payment.principal
    case InterestColumn => row.payment.interest
    case TotalColumn => row.payment.total
    case NettoColumn => row.payment.netto
    case DifferenceColumn => row.difference
    case TimeValueColumn => row.timeValue
  }

  /** The amounts of one column, top to bottom. */
  function ColumnValues(rows: seq<Row>, c: Column): (xs: seq<real>)
    ensures |xs| == |rows|
  {
    seq(|rows|, i requires 0 <= i < |rows| => Cell(rows[i], c))
  }

  /** `rows.reduce((acc, cur) => acc + cur[c], 0)`: the totals row entry of column c. */
  function ColumnTotal(rows: seq<Row>, c: Column): real
  {
    Sum(ColumnValues(rows, c))
  }

  /** The fold starts at 0 and adds the rows' cells top to bottom. */
  lemma ColumnTotalAppend(rows: seq<Row>, row: Row, c: Column)
    ensures ColumnTotal([], c) == 0.0
    ensures ColumnTotal(rows + [row], c) == ColumnTotal(rows, c) + Cell(row, c)
  {
    assert ColumnValues(rows + [row], c)[..|rows|] == ColumnValues(rows, c);
  }

  /** Each annuity principal payment is the drop of the balance over its month. */
  lemma AnnuityPrincipalIsBalanceDrop(loanAmount: real, interestRate: real, loanTerm: int, q: real, i: nat)
    requires loanTerm > 0 && AnnuityDefined(MonthlyRate(interestRate), loanTerm * 12) && i < Months(loanTerm)
    ensures var r := MonthlyRate(interestRate);
            var payment := AnnuityPayment(loanAmount, r, loanTerm * 12);
      AnnuitySchedule(loanAmount, interestRate, loanTerm, q)[i].principal
      == AnnuityBalance(loanAmount, r, payment, i) - AnnuityBalance(loanAmount, r, payment, i + 1)
  {
    assert AnnuitySchedule(loanAmount, interestRate, loanTerm, q)[i] == AnnuityRecord(loanAmount, interestRate, loanTerm, q, i + 1);
  }

  /** Each linear principal payment is the drop of the balance over its month. */
  lemma LinearPrincipalIsBalanceDrop(loanAmount: real, interestRate: real, loanTerm: int, q: real, i: nat)
    requires i < Months(loanTerm)
    ensures var step := Portion(loanAmount, loanTerm * 12);
      LinearSchedule(loanAmount, interestRate, loanTerm, q)[i].principal
      == LinearBalance(loanAmount, step, i) - LinearBalance(loanAmount, step, i + 1)
  {
    assert LinearSchedule(loanAmount, interestRate, loanTerm, q)[i] == LinearRecord(loanAmount, interestRate, loanTerm, q, i + 1);
  }

  /** Whichever scheme is selected, the principal column totals the loan amount. */
  lemma SubmitPrincipalTotal(loanAmount: real, interestRate: real, loanTerm: int, q: real, mortgageType: MortgageType)
    requires loanTerm > 0 && AnnuityDefined(MonthlyRate(interestRate), loanTerm * 12)
    ensures ColumnTotal(SubmitResult(loanAmount, interestRate, loanTerm, q, mortgageType), PrincipalColumn) == loanAmount
  {
    var rows := SubmitResult(loanAmount, interestRate, loanTerm, q, mortgageType);
    var xs := ColumnValues(rows, PrincipalColumn);
    var r := MonthlyRate(interestRate);
    var n := loanTerm * 12;
    if mortgageType == Annuity {
      var own := AnnuitySchedule(loanAmount, interestRate, loanTerm, q);
      var payment := AnnuityPayment(loanAmount, r, n);
      var balance := (k: nat) => AnnuityBalance(loanAmount, r, payment, k);
      forall i | 0 <= i < |xs|
        ensures xs[i] == balance(i) - balance(i + 1)
      {
        assert xs[i] == own[i].principal;
        AnnuityPrincipalIsBalanceDrop(loanAmount, interestRate, loanTerm, q, i);
      }
      SumTelescopes(xs, balance);
      AnnuityPaysOff(loanAmount, r, n);
    } else {
      var own := LinearSchedule(loanAmount, interestRate, loanTerm, q);
      var step := Portion(loanAmount, n);
      var balance := (k: nat) => LinearBalance(loanAmount, step, k);
      forall i | 0 <= i < |xs|
        ensures xs[i] == balance(i) - balance(i + 1)
      {
        assert xs[i] == own[i].principal;
        LinearPrincipalIsBalanceDrop(loanAmount, interestRate, loanTerm, q, i);
      }
      SumTelescopes(xs, balance);
      LinearPaysOff(loanAmount, loanTerm);
    }
  }

  /** When every payment's total is its principal plus its interest and its
      netto amount the principal plus 0.6303 times the interest, the totals row
      of the compared rows keeps both relations. */
  lemma CompareColumnTotals(own: seq<Payment>, other: seq<Payment>, loanTerm: int, q: real)
    requires forall i :: 0 <= i < |own| ==> own[i].month <= loanTerm * 12 + 1
    requires forall i :: 0 <= i < |own| ==>
      own[i].total == own[i].principal + own[i].interest && own[i].netto == Netto(own[i].principal, own[i].interest)
    ensures var rows := Compare(own, other, loanTerm, q);
      ColumnTotal(rows, TotalColumn) == ColumnTotal(rows, PrincipalColumn) + ColumnTotal(rows, InterestColumn)
      && ColumnTotal(rows, NettoColumn) == ColumnTotal(rows, PrincipalColumn) + 0.6303 * ColumnTotal(rows, InterestColumn)
  {
    CompareTotalColumn(own, other, loanTerm, q);
    CompareNettoColumn(own, other, loanTerm, q);
  }

  lemma CompareTotalColumn(own: seq<Payment>, other: seq<Payment>, loanTerm: int, q: real)
    requires forall i :: 0 <= i < |own| ==> own[i].month <= loanTerm * 12 + 1
    requires forall i :: 0 <= i < |own| ==> own[i].total == own[i].principal + own[i].interest
    ensures var rows := Compare(own, other, loanTerm, q);
      ColumnTotal(rows, TotalColumn) == ColumnTotal(rows, PrincipalColumn) + ColumnTotal(rows, InterestColumn)
  {
    var rows := Compare(own, other, loanTerm, q);
    var zs, ps, xs := ColumnValues(rows, TotalColumn), ColumnValues(rows, PrincipalColumn), ColumnValues(rows, InterestColumn);
    forall i | 0 <= i < |rows|
      ensures zs[i] == ps[i] + 1.0 * xs[i]
    {
      assert rows[i].payment == own[i];
    }
    SumCombination(zs, ps, xs, 1.0);
  }

  lemma CompareNettoColumn(own: seq<Payment>, other: seq<Payment>, loanTerm: int, q: real)
    requires forall i :: 0 <= i < |own| ==> own[i].month <= loanTerm * 12 + 1
    requires forall i :: 0 <= i < |own| ==> own[i].netto == Netto(own[i].principal, own[i].interest)
    ensures var rows := Compare(own, other, loanTerm, q);
      ColumnTotal(rows, NettoColumn) == ColumnTotal(rows, PrincipalColumn) + 0.6303 * ColumnTotal(rows, InterestColumn)
  {
    var rows := Compare(own, other, loanTerm, q);
    var zs, ps, xs := ColumnValues(rows, NettoColumn), ColumnValues(rows, PrincipalColumn), ColumnValues(rows, InterestColumn);
    forall i | 0 <= i < |rows|
      ensures zs[i] == ps[i] + 0.6303 * xs[i]
    {
      assert rows[i].payment == own[i];
    }
    SumCombination(zs, ps, xs, 0.6303);
  }

  /** In the submitted result the total column totals the principal and interest
      columns, and the netto column the principal plus 0.6303 times the interest. */
  lemma SubmitColumnTotals(loanAmount: real, interestRate: real, loanTerm: int, q: real, mortgageType: MortgageType)
    requires loanTerm > 0 ==> AnnuityDefined(MonthlyRate(interestRate), loanTerm * 12)
    ensures var rows := SubmitResult(loanAmount, interestRate, loanTerm, q, mortgageType);
      ColumnTotal(rows, TotalColumn) == ColumnTotal(rows, PrincipalColumn) + ColumnTotal(rows, InterestColumn)
      && ColumnTotal(rows, NettoColumn) == ColumnTotal(rows, PrincipalColumn) + 0.6303 * ColumnTotal(rows, InterestColumn)
  {
    var annuity := AnnuitySchedule(loanAmount, interestRate, loanTerm, q);
    var linear := LinearSchedule(loanAmount, interestRate, loanTerm, q);
    if mortgageType == Annuity {
      CompareColumnTotals(annuity, linear, loanTerm, q);
    } else {
      CompareColumnTotals(linear, annuity, loanTerm, q);
    }
  }

  /** Selecting the other scheme negates every difference and every time value,
      and the difference column totals the selected scheme's netto total minus the other's. */
  lemma SubmitDifferenceAntisymmetric(loanAmount: real, interestRate: real, loanTerm: int, q: real)
    requires loanTerm > 0 ==> AnnuityDefined(MonthlyRate(interestRate), loanTerm * 12)
    ensures var a := SubmitResult(loanAmount, interestRate, loanTerm, q, Annuity);
            var l := SubmitResult(loanAmount, interestRate, loanTerm, q, Linear);
      |a| == |l|
      && (forall i :: 0 <= i < |a| ==> a[i].difference == -l[i].difference && a[i].timeValue == -l[i].timeValue)
      && ColumnTotal(a, DifferenceColumn) == ColumnTotal(a, NettoColumn) - ColumnTotal(l, NettoColumn)
  {
    var annuity := AnnuitySchedule(loanAmount, interestRate, loanTerm, q);
    var linear := LinearSchedule(loanAmount, interestRate, loanTerm, q);
    CompareAntisymmetric(annuity, linear, loanTerm, q);
    CompareDifferenceTotal(annuity, linear, loanTerm, q);
  }

  /** Two schedules of equal length whose months agree, compared either way round. */
  lemma CompareAntisymmetric(a: seq<Payment>, b: seq<Payment>, loanTerm: int, q: real)
    requires |a| == |b|
    requires forall i :: 0 <= i < |a| ==> a[i].month == b[i].month <= loanTerm * 12 + 1
    ensures forall i :: 0 <= i < |a| ==>
      Compare(a, b, loanTerm, q)[i].difference == -Compare(b, a, loanTerm, q)[i].difference
      && Compare(a, b, loanTerm, q)[i].timeValue == -Compare(b, a, loanTerm, q)[i].timeValue
  {
    var ab, ba := Compare(a, b, loanTerm, q), Compare(b, a, loanTerm, q);
    forall i | 0 <= i < |a|
      ensures ab[i].difference == -ba[i].difference && ab[i].timeValue == -ba[i].timeValue
    {
      assert ab[i].difference == -ba[i].difference;
      NegatedDiscount(ab[i].difference, q, loanTerm * 12 - a[i].month + 1);
    }
  }

  lemma NegatedDiscount(d: real, q: real, k: nat)
    ensures Discount(-d, q, k) == -Discount(d, q, k)
  {
  }

  /** The difference column of a comparison totals the own netto column minus the other's. */
  lemma CompareDifferenceTotal(a: seq<Payment>, b: seq<Payment>, loanTerm: int, q: real)
    requires |a| == |b|
    requires forall i :: 0 <= i < |a| ==> a[i].month == b[i].month <= loanTerm * 12 + 1
    ensures ColumnTotal(Compare(a, b, loanTerm, q), DifferenceColumn)
         == ColumnTotal(Compare(a, b, loanTerm, q), NettoColumn) - ColumnTotal(Compare(b, a, loanTerm, q), NettoColumn)
  {
    var ab, ba := Compare(a, b, loanTerm, q), Compare(b, a, loanTerm, q);
    var ds, xs, ys := ColumnValues(ab, DifferenceColumn), ColumnValues(ab, NettoColumn), ColumnValues(ba, NettoColumn);
    forall i | 0 <= i < |ds|
      ensures ds[i] == xs[i] - ys[i]
    {
      assert ab[i].payment == a[i] && ba[i].payment == b[i];
    }
    SumDifference(ds, xs, ys);
  }
}

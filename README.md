# Mortgage calculator amortization, in Dafny

This project models the arithmetic of a browser mortgage calculator. The model
covers two versions of its form and one helper:

- **The calculator form** (`CalculatorForm.js`). It produces an annuity schedule
  (a fixed monthly payment computed once from the loan) and a linear schedule (a
  fixed principal portion every month). Each month records principal, interest,
  total and the after-tax ("netto") cost `principal + 0.6303 * interest`. On
  submit, the selected schedule is paired month by month with the other one. Each
  row gets the netto difference and that difference's discounted time value. A
  totals row sums every column.
- **The older form** (`OUd.js`). Its schedules add a monthly extra repayment and
  stop early once the balance reaches zero or below. The annuity payment is
  recomputed every month from the balance left, and the recorded principal is
  clamped at 0. A submit with any input that does not parse computes nothing and
  keeps the result shown before. Otherwise it pairs the two schedules up to the
  shorter length and totals the payments and differences.
- **The interest benefit** (`calculateInterestBenefit` in `mortgageUtils.js`). It
  runs a linear balance with and without the extra repayment side by side and
  returns the interest saved.

Amounts are exact reals. Whole powers `(1 + r)^k` are a recursive function. The
monthly discount factor `(1 + discountFactor / 100)^(1/12)` is a fractional
power, so it is a parameter `q`.

Files:
- `amortization.dfy` holds the shared arithmetic (module `Amortization`).
- `calculator_form.dfy` models `CalculatorForm.js`.
- `oud.dfy` models `OUd.js`.
- `mortgage_utils.dfy` models `mortgageUtils.js`.

Each generator loop is a method. Its `ensures` equates the result with a schedule
function, and lemmas prove what that schedule promises: its length, month
numbering, balance recurrences and totals.

Behaviour worth knowing, as the code has it:
- **Invalid input.** No error is raised. `CalculatorForm.js` computes with
  whatever it parsed. `OUd.js` keeps the previous result when an input is NaN, and
  its schedules are empty for a loan or term that is not positive.
- **The principal clamp.** In `OUd.js` only the recorded principal is clamped at 0;
  the balance drops by the unclamped amount.
- **Unequal schedule lengths.** `CalculatorForm.js` pairs against 0 past the end
  of the other schedule. `OUd.js` truncates to the shorter schedule.
- **A zero rate.** The annuity payment is 0 / 0, NaN. `OUd.js` reads the NaN
  totals as 0 (`|| 0`), so with the linear scheme selected it stores the linear
  schedule with each month's own total as the difference.
- **No extra repayment in `OUd.js`.** The annuity payment is recomputed each month
  from the balance left but with the full-term factor, so at a positive rate the
  loan is never repaid within the term (`OUd.AnnuityRunsFullTermWithoutExtra`).

## Model

| member | source | states |
|---|---|---|
| Amortization.MonthlyRate | CalculatorForm.js:19 | the monthly rate is the annual percentage divided by 1200, and is not negative for a non-negative percentage |
| Amortization.Interest | CalculatorForm.js:25 | a month's interest on a non-negative balance at a non-negative rate is not negative |
| Amortization.Portion | CalculatorForm.js:47 | the linear principal portion times the number of months is the loan amount; it has the loan's sign |
| Amortization.AnnuityFactor | CalculatorForm.js:26 | the factor r / (1 - (1+r)^-n) satisfies f * ((1+r)^n - 1) = r * (1+r)^n |
| Amortization.AnnuityNeedsNonZeroRate | CalculatorForm.js:26 | the annuity formula has a value only for a non-zero monthly rate |
| Amortization.PositiveRateAnnuity | CalculatorForm.js:26 | every positive rate and positive number of months gives a defined annuity whose factor exceeds the rate |
| Amortization.AnnuityFactorBelowGrowth | OUd.js:21 | for two or more months at a positive rate the factor is below 1 + r |
| Amortization.AnnuityPayment | CalculatorForm.js:26 | the payment p = L * factor satisfies p * ((1+r)^n - 1) = L * r * (1+r)^n, the annuity equation |
| Amortization.Netto | CalculatorForm.js:29 | the netto cost lies between the principal and principal plus interest, strictly when interest is positive |
| Amortization.LinearBalanceClosedForm | CalculatorForm.js:55 | after k months of fixed decrements the balance is start - k * step |
| Amortization.LinearBalanceMonotone | CalculatorForm.js:55 | a balance that drops by a non-negative step never grows back |
| Amortization.LinearRun | OUd.js:44-45 | the run length of a break-on-non-positive-balance loop: at most n, every earlier balance positive, the balance at the stop not positive |
| Amortization.LinearBalanceGap | mortgageUtils.js:16-19 | after k months the balance without the extra repayment exceeds the one with it by k * extra |
| CalculatorForm.TimeValue | CalculatorForm.js:12-15 | the discounted difference with its sign inverted: never the sign of the difference for a factor q >= 0 |
| CalculatorForm.TimeValueBounds | CalculatorForm.js:12-15 | with q >= 1 the time value has the opposite sign of the difference and at least its size |
| CalculatorForm.TimeValueShrinksTowardEnd | CalculatorForm.js:12-15 | with q > 1 and a non-zero difference the time value shrinks in size as the month approaches the end of the term |
| CalculatorForm.AnnuityBalance | CalculatorForm.js:25-28 | the remainingLoanAmount recurrence: each month the balance drops by the fixed payment less the interest on it; its properties are the lemmas below |
| CalculatorForm.AnnuityBalanceFalls | CalculatorForm.js:25-28 | at a positive rate the balance of a non-negative loan never grows, and that of a positive loan strictly shrinks, month by month |
| CalculatorForm.AnnuityBalanceClosedForm | CalculatorForm.js:25-28 | r * balance_k = r * L * (1+r)^k - payment * ((1+r)^k - 1) |
| CalculatorForm.AnnuityPaysOff | CalculatorForm.js:26-28 | with the annuity payment the balance after the last month is exactly 0 |
| CalculatorForm.AnnuitySchedule | CalculatorForm.js:18-39 | loanTerm * 12 records, months 1..n, the same total every month, principal + interest = total, interest on the start-of-month balance, netto = principal + 0.6303 * interest |
| CalculatorForm.CalculateAnnuityMortgage | CalculatorForm.js:18-39 | the loop emits exactly the annuity schedule |
| CalculatorForm.LinearSchedule | CalculatorForm.js:41-61 | loanTerm * 12 records, months 1..n, principal loanAmount / n, total = principal + interest, netto = principal + 0.6303 * interest |
| CalculatorForm.CalculateLinearMortgage | CalculatorForm.js:41-61 | the loop emits exactly the linear schedule |
| CalculatorForm.LinearInterestOnBalance | CalculatorForm.js:46-55 | the interest of month i + 1 is charged on the balance after i principal portions |
| CalculatorForm.LinearInterest | CalculatorForm.js:46-47 | the interest of month i + 1 is (loanAmount - i * portion) * r |
| CalculatorForm.LinearInterestDeclines | CalculatorForm.js:46-55 | for a non-negative loan and rate, linear interest never grows from one month to a later one |
| CalculatorForm.LinearPaysOff | CalculatorForm.js:47-55 | the linear balance after the last month is exactly 0 |
| CalculatorForm.WithDifference | CalculatorForm.js:75-77 | the row keeps the payment, its difference plus the counterpart's netto is the payment's netto, and its time value is that of the difference |
| CalculatorForm.Compare | CalculatorForm.js:73-83 | one row per payment of the selected schedule; difference = own netto minus the other's netto at that index, or minus 0 past its end; the time value of that difference |
| CalculatorForm.HandleSubmit | CalculatorForm.js:63-86 | stores the comparison of the selected schedule, loanTerm * 12 rows numbered 1..n, whose principal column totals the loan amount |
| CalculatorForm.ColumnTotal | CalculatorForm.js:148-153 | the reduce fold of one column of the result |
| CalculatorForm.ColumnTotalAppend | CalculatorForm.js:148-153 | the fold starts at 0 and adds each row's cell, top to bottom |
| CalculatorForm.AnnuityPrincipalIsBalanceDrop | CalculatorForm.js:27-28 | each annuity principal is the drop of the balance over its month |
| CalculatorForm.LinearPrincipalIsBalanceDrop | CalculatorForm.js:55-57 | each linear principal is the drop of the balance over its month |
| CalculatorForm.SubmitPrincipalTotal | CalculatorForm.js:148 | for either scheme the principal total is exactly the loan amount |
| CalculatorForm.CompareColumnTotals | CalculatorForm.js:148-151 | in a comparison the total column sums principal plus interest and the netto column principal plus 0.6303 * interest |
| CalculatorForm.SubmitColumnTotals | CalculatorForm.js:148-151 | the totals row of the submitted result keeps total = principal + interest and netto = principal + 0.6303 * interest |
| CalculatorForm.CompareAntisymmetric | CalculatorForm.js:75-81 | comparing two equally long schedules the other way round negates every difference and time value |
| CalculatorForm.CompareDifferenceTotal | CalculatorForm.js:151-152 | the difference total is the own netto total minus the other's |
| CalculatorForm.SubmitDifferenceAntisymmetric | CalculatorForm.js:73-83 | selecting the other scheme negates every difference and time value; the difference total is the netto totals' gap |
| OUd.AnnuityRun | OUd.js:18-19 | the annuity loop's run length: at most n, every month started with a positive balance, the balance at an early stop not positive |
| OUd.AnnuitySchedule | OUd.js:12-37 | no record for a non-positive loan or term; otherwise months 1..m, every month started with a positive balance, an early stop only at a non-positive balance, principal clamped at 0 but never below total - interest, interest not negative for a non-negative rate |
| OUd.AnnuityBalance | OUd.js:21-26 | the remainingLoanAmount recurrence: each month the balance drops by the payment recomputed from it plus the extra repayment, less the interest on it; its properties are the lemmas below |
| OUd.AnnuityMonth | OUd.js:21-30 | month i + 1 pays the annuity payment recomputed from the balance left plus the extra repayment, and the interest on that balance; its principal is total - interest clamped at 0, while the balance drops by the unclamped total - interest |
| OUd.CalculateAnnuityMortgage | OUd.js:12-37 | the loop with its early break emits exactly the annuity schedule |
| OUd.AnnuityBalanceStep | OUd.js:21-26 | one month multiplies the balance by 1 + r - factor and takes off the extra repayment |
| OUd.AnnuityBalanceStaysPositive | OUd.js:21-26 | without extra repayment, at a positive rate and for two months or more, the balance never reaches 0 |
| OUd.AnnuityRunsFullTermWithoutExtra | OUd.js:18-26 | without extra repayment the annuity schedule runs the whole term and leaves a positive balance |
| OUd.ExtraRepaymentLowersAnnuityBalance | OUd.js:21-26 | a non-negative extra repayment never leaves a higher annuity balance than none |
| OUd.LinearSchedule | OUd.js:39-61 | no record for a non-positive loan or term; otherwise months 1..m, principal = portion + extra, total = principal + interest, every month started with a positive balance, early stop only at a non-positive balance, interest not negative for a non-negative rate |
| OUd.LinearMonth | OUd.js:47-50 | month i + 1 pays interest on the loan less i portions with the extra repayment |
| OUd.CalculateLinearMortgage | OUd.js:39-61 | the loop with its early break emits exactly the linear schedule |
| OUd.LinearBalanceFalls | OUd.js:50 | with a positive loan and an extra repayment that is not negative the balance strictly shrinks every month |
| OUd.LinearRunsFullTermWithoutExtra | OUd.js:44-50 | without extra repayment the linear schedule of a positive loan runs the whole term |
| OUd.LinearInterestDeclines | OUd.js:47-50 | with non-negative rate and extra repayment, linear interest never grows from one month to a later one |
| OUd.Pair | OUd.js:79-88 | min(own, other) rows, each the own payment with difference = own total - other total |
| OUd.PairAntisymmetric | OUd.js:79-88 | pairing the other way round gives as many rows with opposite differences |
| OUd.HandleSubmit | OUd.js:63-91 | any NaN input keeps the previous result; otherwise the selected schedule paired with the other, whose NaN annuity totals at a zero rate read as 0 |
| OUd.ZeroRateLinearSubmit | OUd.js:76-88 | at a zero rate with the linear scheme selected, the result is the whole linear schedule with each month's own total as its difference |
| OUd.SubmitKeepsFullTermWithoutExtra | OUd.js:76-79 | without extra repayment at a positive rate the paired result has loanTerm * 12 rows |
| OUd.TotalPayments | OUd.js:93 | the reduce fold of the rows' total payments |
| OUd.TotalDifference | OUd.js:94 | the reduce fold of the rows' differences |
| OUd.TotalsAppend | OUd.js:93-94 | both folds start at 0 and add each row, top to bottom |
| OUd.TotalDifferenceIsTotalsGap | OUd.js:93-94 | the total difference is the selected schedule's total payments less the other's over the same months |
| MortgageUtils.BenefitMonths | mortgageUtils.js:8-21 | the loop runs at most loanTerm * 12 months, at least one for a positive term, and stops right after the first month whose with-extra balance is not positive |
| MortgageUtils.CalculateInterestBenefit | mortgageUtils.js:1-25 | the loop returns the interest without extra less the interest with extra over the months it runs |
| MortgageUtils.InterestGap | mortgageUtils.js:9-19 | over m months the with-extra balance accrues r * extra * (0 + 1 + ... + (m-1)) less interest |
| MortgageUtils.BenefitClosedForm | mortgageUtils.js:8-24 | the benefit is r * extra * (0 + 1 + ... + (m-1)) for the m months the loop runs |
| MortgageUtils.BenefitSign | mortgageUtils.js:24 | no extra repayment gives 0; non-negative extra and rate give >= 0; positive extra and rate over two months or more give > 0 |

## Left out

- Floating point: IEEE-754 rounding, NaN and Infinity are not modelled; amounts are exact reals. The one NaN the model follows is the zero-rate annuity total that `OUd.js` reads as 0.
- Display: `toFixed(2)` rounding, the React state, the JSX table and event handling are UI, not logic.
- Parsing: `parseFloat` / `parseInt` of the form fields. `OUd.js` inputs are given as a number or NaN (`Parsed`); `parseFloat(extraRepayment || 0)` reads an empty field as 0. The `console.error` message is output only.
- The monthly discount factor `Math.pow(1 + discountFactor / 100, 1 / 12)` is a parameter `q`. A discount field that does not parse gives NaN time values, which are not modelled.
- `CalculatorForm.js`'s linear generator ignores its fourth argument and reads the form's discount factor. The model passes that factor as `q` to both generators and to the time value, which is the same value.
- The identical arms of the time-value conditional in both `CalculatorForm.js` generators are one expression. The time value a generator stores is replaced in `handleSubmit` by the one of the difference.
- CalculatorForm.AnnuitySchedule: requires that (1 + r)^n is not 1 for a positive term, that is a rate that is not 0 (nor the monthly rate -2 over an even number of months). Otherwise the denominator 1 - (1 + r)^-n is 0 and every annuity amount is NaN or Infinity. Every positive rate meets it (`Amortization.PositiveRateAnnuity`). When (1 + r)^n is 0 the source's factor r / -Infinity is 0, and so is the model's.
- CalculatorForm.HandleSubmit: requires the same, because the netto differences against NaN annuity amounts are NaN whichever scheme is selected.
- OUd.AnnuitySchedule: requires the same for a positive loan and term, the only case in which `OUd.js` evaluates the formula.
- OUd.HandleSubmit: requires the same only when all four inputs parse (a NaN in any of them, the extra repayment included, keeps the previous result and needs nothing) and the loan and term are positive, except at a zero rate with the linear scheme selected, which is modelled. With the annuity scheme selected at a zero rate the stored amounts are NaN. The monthly rate -2 over an even number of months gives Infinity and then NaN amounts.
- CalculatorForm.TimeValue: requires month <= loanTerm * 12 + 1, so that the exponent is a whole number of months. The source only calls it with months 1..n.
- `OUd.js`'s table reads a `remainingBalance` field its records never set. This is a display defect.
- `OUd.js`'s linear generator divides by `loanTerm * 12` before the loop. The model divides inside, where the term is positive. For a term of 0 or less no month runs in either case.
- MortgageUtils.CalculateInterestBenefit: the term is a whole number of years, as both forms parse it. A fractional term would change both the number of iterations and the portion `loanAmount / (loanTerm * 12)`.
- `mortgageUtils.js` is not called by either form, so no lemma relates it to the `OUd.js` linear schedule.
- HomePage.js and index.js only compose and mount the components and are not part of this model.

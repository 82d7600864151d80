# Cashophy loan calculator, modelled in Dafny

Cashophy is a browser loan calculator. Its arithmetic lives in `calculator.js`, which this
project models over exact reals:

- the monthly payment of an annuity ("fixed") loan and of a declining-balance ("reducing") loan;
- the total interest of each, including the month-by-month loop of the reducing total;
- the loan summary (`calculateLoan`): rounded currency figures, percentages of the principal, and
  the payment range of a reducing loan;
- the debt ratio of a salary and its four status bands;
- the borrowing capacity a salary leaves under a deduction limit;
- the month-by-month payment schedule of either loan type;
- the savings of a lump-sum early payment on an annuity loan.

Modules:

- `Numeric` holds `Math.pow`, `Math.round` and `Math.max`, plus arithmetic lemmas.
- `Wrappers` holds `Option`.
- `Amortization` holds payments, balances, total interest and the loan summary.
- `Schedule` holds `generatePaymentSchedule`.
- `Affordability` holds the debt ratio and the borrowing capacity.
- `EarlyPayment` holds `calculateEarlyPaymentSavings`.

The three loops of the source are methods proved against specification functions:

- `TotalInterestReducing`;
- `GeneratePaymentSchedule`, with its per-type loops;
- `CalculateEarlyPaymentSavings`.

Everything else is a function. The facts the calculator relies on are proved as lemmas about
those functions, among them:

- the annuity balance reaches zero exactly at the end of the term;
- the schedule's unrounded principal amounts add up to the loan, and its unrounded interest
  amounts to the total interest before rounding; the rounded amounts the rows show stay within
  half a unit a row of those totals;
- the maximum loan of the borrowing capacity and the annuity payment are inverses, in both directions;
- the new term after an early payment is the least month count that retires the new balance.

The interest type is the string the page passes. `"reducing"` selects the declining-balance loan;
anything else selects the annuity (`InterestTypeOf`).

## Model

| member | source | states |
|---|---|---|
| `Numeric.Pow` | calculator.js:23-24 | `Math.pow(1 + r, n)` for whole `n`: positive for a positive base, at least 1 for a base of at least 1, above 1 when the base and the exponent both exceed their neutral values |
| `Numeric.PowMonotone` | calculator.js:23-24 | for a base of at least 1 the power never shrinks as the exponent grows, and grows strictly for a base above 1 |
| `Numeric.Round` | calculator.js:126-128 | `Math.round`: the result is within half a unit of the argument (halves go up) and is non-negative for a non-negative argument |
| `Numeric.Max` | calculator.js:262 | `Math.max`: the result is one of the arguments and at least both |
| `Amortization.InterestTypeOf` | calculator.js:110 | the loan is declining-balance exactly when the type string is `"reducing"`, otherwise annuity |
| `Amortization.MonthlyRate` | calculator.js:22 | the monthly rate times 1200 is the annual percentage |
| `Amortization.Growth` | calculator.js:23-24 | `Math.pow(1 + monthlyRate, k)`; `Pow` ensures it exceeds 1 at a positive rate over a positive term, and `PowMonotone` that it never shrinks as `k` grows, which the balance bounds and round trips rely on |
| `Amortization.AnnuityPayment` | calculator.js:23-24 | the annuity formula `P r g / (g - 1)`; `AnnuityAboveInterest` proves it exceeds the first month's interest, and `PresentValueRoundTrip` and `PaymentRoundTrip` that the present value inverts it |
| `Amortization.FixedMonthlyPayment` | calculator.js:17-27 | `P / n` at a zero rate, otherwise `P r g / (g - 1)`; its partners prove that it retires the loan in exactly `n` months (`AnnuityRetiresLoan`), exceeds the first month's interest (`FixedPaymentExceedsInterest`) and is inverted by the maximum loan (`MaxLoanRoundTrip`, `MaxLoanOfPayment`) |
| `Amortization.FixedPaymentZeroRate` | calculator.js:18-20 | at a zero rate the annuity payment times the months is the principal |
| `Amortization.FixedBalanceClosedForm` | calculator.js:269-272 | the balance after `k` annuity months satisfies `B_k r == payment - (1 + r)^k (payment - P r)` |
| `Amortization.FixedBalanceZeroRate` | calculator.js:269-272 | at a zero rate each month retires exactly one payment |
| `Amortization.AnnuityStep` | calculator.js:270-272 | one annuity month: the balance less the payment's part beyond the interest; `BalanceStep` and `StepMonotone` state its properties |
| `Amortization.FixedBalance` | calculator.js:269-272 | the balance after `k` annuity months; `FixedBalanceClosedForm` proves its closed form and `FixedBalanceCompose` that stretches of months compose |
| `Amortization.AnnuityBalance` | calculator.js:266-272 | the balance of the source's annuity schedule after `k` months; `AnnuityBalanceBounds` keeps it within `[0, P]` and `AnnuityRetiresLoan` brings it to 0 at the end |
| `Amortization.AnnuityBalanceZeroRate` | calculator.js:17-27 | at a zero rate the balance after `k` months is `P (n - k) / n` |
| `Amortization.AnnuityBalancePositiveRate` | calculator.js:17-27 | at a positive rate the balance after `k` months is the unpaid share `P (g - g_k) / (g - 1)` |
| `Amortization.AnnuityRetiresLoan` | calculator.js:17-27 | the annuity payment retires the loan exactly after the term's months |
| `Amortization.AnnuityBalanceBounds` | calculator.js:17-27 | within the term the balance stays within `[0, P]`, and is positive before the last month of a positive loan |
| `Amortization.FixedPaymentExceedsInterest` | calculator.js:17-27 | the annuity payment exceeds the first month's interest on a positive loan |
| `Amortization.FixedInterestPaid` | calculator.js:269-272 | the unrounded interest of the first `k` annuity months; `FixedInterestPaidBalance` proves it is the payments less the principal retired |
| `Amortization.FixedInterestPaidBalance` | calculator.js:269-272 | interest paid over `k` months is the payments made less the principal retired |
| `Amortization.AnnuityInterestNonNegative` | calculator.js:269-272 | the annuity's accumulated interest is never negative within the term |
| `Amortization.TotalInterestFixed` | calculator.js:66-69 | `payment * months - principal`; `TotalInterestFixedIsScheduleInterest` proves it is the schedule's summed interest and non-negative |
| `Amortization.TotalInterestFixedIsScheduleInterest` | calculator.js:66-69 | `payment * months - principal` equals the sum of the schedule's interest, before rounding, and is non-negative |
| `Amortization.ReducingBalance` | calculator.js:84-89 | the declining balance after `k` months; `ReducingBalanceClosedForm` proves it is `P - k * share` |
| `Amortization.ReducingBalanceClosedForm` | calculator.js:84-90 | after `k` months the declining balance is `P - k * share` |
| `Amortization.ReducingPaymentAt` | calculator.js:253-254 | the payment of reducing month `m`, the share plus interest on the balance before it; `ReducingPaymentsBracket` places it between the last and first payments, `ReducingPaymentsFall` proves it never rises and `ReducingRowPayments` that the row shows it rounded |
| `Amortization.PaymentRange` | calculator.js:49 | a first and last payment with their midpoint as the average; `ReducingPaymentsBracket` proves the average lies between them |
| `Amortization.ReducingMonthlyPayment` | calculator.js:38-56 | the first, last and average payment of a declining-balance loan; `ReducingPaymentsBracket` proves they are the schedule's month 1 and month n and their midpoint |
| `Amortization.ReducingPaymentsBracket` | calculator.js:38-56 | the first and last payment are the schedule's month 1 and month n; the average is their midpoint and lies between them |
| `Amortization.ReducingPaymentsFall` | calculator.js:252-255 | a reducing loan's payment never rises from one month to the next |
| `Amortization.ReducingInterestPaid` | calculator.js:86-90 | the interest the reducing loop accumulates over `k` months; `ReducingInterestSeries` proves it is an arithmetic series |
| `Amortization.ReducingInterestSeries` | calculator.js:84-92 | the interest over `k` months is the arithmetic series `r (k P - share k (k - 1) / 2)` |
| `Amortization.ReducingTotalInterest` | calculator.js:79-93 | the interest of the month-by-month walk of the declining balance; `ReducingTotalInterestClosedForm` proves it is `r P (n + 1) / 2`, and `TotalInterestReducing` that the loop computes it |
| `Amortization.ReducingTotalInterestClosedForm` | calculator.js:79-93 | the looped total equals `r P (n + 1) / 2`, is zero at a zero rate and is non-negative |
| `Amortization.TotalInterestReducing` | calculator.js:79-93 | the loop returns the walked total interest; with no months it returns 0 |
| `Amortization.Totals` | calculator.js:107-120 | the payment, total interest and total amount of either type; `TotalsAgree` proves they add up |
| `Amortization.WithInterest` | calculator.js:120 | the total amount is the principal plus the total interest; `TotalsAgree` relies on it |
| `Amortization.TotalsAgree` | calculator.js:110-120 | for both types, the reported payment over the term adds up to the total amount, which is principal plus interest; the interest is non-negative and zero at a zero rate |
| `Amortization.FixedInterestFacts` | calculator.js:116-117 | the annuity's total interest is non-negative and zero at a zero rate |
| `Amortization.ReducingAverageCoversTotal` | calculator.js:111-113 | the average payment paid every month adds up to principal plus the looped interest |
| `Amortization.PercentagesAddUp` | calculator.js:122-123 | the payment percentage times the months is 100 plus the interest percentage |
| `Amortization.CalculateLoan` | calculator.js:104-135 | the months are `Math.round(years * 12)`; a payment range appears exactly for the reducing type; payment percentage times months is 100 plus the interest percentage; the interest share is non-negative and zero at a zero rate |
| `Amortization.LoanOverMonths` | calculator.js:107-134 | the same for a whole number of months |
| `Amortization.PaymentDetails` | calculator.js:108-114 | the payment range is present exactly for a reducing loan |
| `Amortization.SummaryOf` | calculator.js:122-134 | the summary record, currency figures rounded and percentages of the principal unrounded; `SummaryOfAddsUp` proves its percentages add up |
| `Amortization.SummaryOfAddsUp` | calculator.js:120-134 | the summary's percentages add up as its totals do and keep the months, type and range |
| `Schedule.BalanceAfter` | calculator.js:244-285 | the unrounded balance after month `m` of either type; `BalanceBounds` keeps it within `[0, P]` and brings it to 0 at the end |
| `Schedule.InterestAt` | calculator.js:253 | the interest of month `m`, the rate on the balance before it; `InterestColumnSoFar` sums it |
| `Schedule.PrincipalAt` | calculator.js:249-271 | the principal retired in month `m`; `PrincipalColumnSoFar` sums it and `BalanceStep` ties it to the balance |
| `Schedule.PaymentAt` | calculator.js:254 | the payment of month `m`; `BalanceStep` proves it is its principal plus its interest |
| `Schedule.BalanceStep` | calculator.js:253-255 | each month's payment is its principal part plus its interest, and the balance falls by the principal part |
| `Schedule.ReducingRow` | calculator.js:257-263 | the row of a declining-balance month; `ReducingRowPayments` proves it pays the rounded share plus that month's interest |
| `Schedule.FixedRow` | calculator.js:274-280 | the row of an annuity month; `FixedRowPayment` proves it shows the rounded annuity payment |
| `Schedule.ScheduleRow` | calculator.js:252-281 | the row of month `m` of either type; `ScheduleRowAmounts` proves it holds that month's rounded amounts and clamped balance |
| `Schedule.ScheduleRowAmounts` | calculator.js:257-263 | each row holds the rounded principal, interest and payment of its month, and `max(0, round(balance))` |
| `Schedule.Rows` | calculator.js:244-285 | the first `k` rows; `RowsIndex` proves row `i` is month `i + 1` and `GeneratePaymentSchedule` returns it for the whole term |
| `Schedule.RowsIndex` | calculator.js:252-264 | the rows of `k` months are `k` rows, row `i` being month `i + 1` |
| `Schedule.ReducingStep` | calculator.js:252-264 | one month of the reducing loop appends that month's row and lowers the balance by one share |
| `Schedule.FixedStep` | calculator.js:269-281 | one month of the annuity loop appends that month's row and lowers the balance by the principal part |
| `Schedule.GeneratePaymentSchedule` | calculator.js:244-285 | one row per month, numbered from 1, each the row of its month, so the table is `Rows` of the whole term; no rows for fewer than one month |
| `Schedule.ReducingSchedule` | calculator.js:248-264 | the reducing loop builds the rows of every month |
| `Schedule.FixedSchedule` | calculator.js:265-282 | the annuity loop builds the rows of every month |
| `Schedule.ScheduleBalances` | calculator.js:262 | each row shows the exact balance rounded, and that balance stays within `[0, P]`; the last row shows 0 |
| `Schedule.BalanceBounds` | calculator.js:255 | the balance stays within `[0, P]` during the term and is exactly 0 at its end, for both types |
| `Schedule.PrincipalColumnSoFar` | calculator.js:259 | the unrounded principal amounts over `k` months add up to the principal retired so far |
| `Schedule.InterestColumnSoFar` | calculator.js:260 | the unrounded interest amounts over `k` months add up to the interest the summary routines accumulate, for each type |
| `Schedule.ColumnsTotal` | calculator.js:244-285 | the unrounded principal amounts sum to the loan and the unrounded interest amounts to the summary's total interest before rounding |
| `Schedule.ShownColumnsSoFar` | calculator.js:257-280 | over `k` rows the rounded principal and interest amounts the rows show are each within `k / 2` of the unrounded sums |
| `Schedule.ShownColumnsTotal` | calculator.js:244-285 | over the whole table the shown principal column is within `months / 2` of the loan, and the shown interest column within `months / 2` of the total interest before rounding (1000 over 3 months at 0% shows 333 three times) |
| `Schedule.ReducingRowPayments` | calculator.js:258-261 | a reducing row pays the rounded share plus that month's interest; month 1 and month n are the summary's first and last payments |
| `Schedule.FixedRowPayment` | calculator.js:276-278 | every annuity row shows the rounded annuity payment |
| `Affordability.Percent` | calculator.js:147-149 | a part as a percentage of a whole; `PercentScales` and `PercentsOfWhole` state what it means |
| `Affordability.PercentsOfWhole` | calculator.js:147-149 | the commitments' and the net salary's percentages add up to 100 |
| `Affordability.PercentScales` | calculator.js:147 | a percentage times the whole is the part times 100 |
| `Affordability.DebtStatusOf` | calculator.js:153-165 | the status of a ratio; `DebtStatusBands` proves each status covers exactly its band and `DebtStatusMonotone` that a larger ratio is never safer |
| `Affordability.DebtStatusBands` | calculator.js:153-165 | each status covers exactly its band: up to 25, 25 to 33, 33 to 40, above 40 |
| `Affordability.DebtStatusMonotone` | calculator.js:153-165 | a larger ratio never gives a safer status |
| `Affordability.CalculateDebtRatio` | calculator.js:145-175 | the ratio times the salary is the commitments times 100; ratio and net percentage add to 100; the rounded commitments plus the rounded net salary are within one unit of the salary; the status is the band of the ratio |
| `Affordability.DebtRatioMonotone` | calculator.js:145-175 | for a positive salary a larger payment never gives a safer status |
| `Affordability.RatioOrder` | calculator.js:147 | shares of ordered parts of the same positive whole are ordered |
| `Affordability.MaxMonthlyPayment` | calculator.js:189 | the room the limit leaves; `LimitShare` proves the room plus the commitments is the limit's share of the salary |
| `Affordability.MaxLoanAmount` | calculator.js:202-210 | `payment * n` at a zero rate, otherwise the present value; `MaxLoanRoundTrip` and `MaxLoanOfPayment` prove it is the inverse of the annuity payment and `MaxLoanNonNegative` that it is never negative for a non-negative payment |
| `Affordability.CapacityStatusOf` | calculator.js:214-224 | the capacity status of a ratio: up to 25 excellent, up to 33 good, above limited; `CapacityUnderDefaultLimit` proves a limit of at most 33% is never limited |
| `Affordability.CalculateBorrowingCapacity` | calculator.js:187-233 | cannot-borrow exactly when the limit leaves no room, with all figures 0; otherwise the payment is the rounded room, the loan the rounded principal that payment retires over the term, the ratio the room's share of the salary and the status its band |
| `Affordability.MaxLoanRoundTrip` | calculator.js:205-210 | the annuity payment of the maximum loan is exactly the payment it was computed from, at a zero and a positive rate |
| `Affordability.PresentValue` | calculator.js:208-209 | the annuity formula solved for the principal; `PresentValueRoundTrip` and `PaymentRoundTrip` prove it inverts the annuity payment |
| `Affordability.CannotBorrowWithoutRoom` | calculator.js:191-199 | with no room left the result is all zeros and cannot-borrow even for a zero salary and a fractional month count, as the source answers before it divides |
| `Affordability.PresentValueRoundTrip` | calculator.js:208-209 | the annuity payment of the present value of a payment is that payment |
| `Affordability.MaxLoanOfPayment` | calculator.js:205-210 | the maximum loan that a loan's own annuity payment allows, over the same months at the same rate, is that loan, at a zero and a positive rate |
| `Affordability.PaymentRoundTrip` | calculator.js:208-209 | the present value of a loan's annuity payment is the loan |
| `Affordability.MaxLoanNonNegative` | calculator.js:205-210 | a non-negative payment never gives a negative maximum loan |
| `Affordability.LimitShare` | calculator.js:189 | the room plus the other commitments, as a percentage of the salary, is the limit |
| `Affordability.CapacityMeetsLimit` | calculator.js:189 | the debt ratio of paying exactly the room is the limit `maxDebtRatio` |
| `Affordability.LimitRatio` | calculator.js:189 | a ratio whose share of the salary is the room plus the other commitments equals the limit |
| `Affordability.RatioWithinDefault` | calculator.js:212 | under a limit of at most 33% with no negative commitments, the share of the salary the room takes is at most 33% |
| `Affordability.CapacityUnderDefaultLimit` | calculator.js:187-233 | under a limit of at most 33% with non-negative commitments, the status is never limited and the loan is never negative |
| `EarlyPayment.FixedBalanceCompose` | calculator.js:303-307 | `j` months then `k` more of the replay are `j + k` months |
| `EarlyPayment.FixedBalanceShift` | calculator.js:303-307 | `k + 1` months from a balance are `k` months from the balance a month later |
| `EarlyPayment.FixedBalanceMonotone` | calculator.js:303-307 | at a non-negative rate a smaller starting balance stays smaller every month |
| `EarlyPayment.StepMonotone` | calculator.js:304-306 | one month keeps the order of two balances |
| `EarlyPayment.RetireStep` | calculator.js:328-329 | a payment that beats the interest by a margin lowers the balance by at least that margin and keeps beating it |
| `EarlyPayment.MonthsToRetire` | calculator.js:328-329 | the result is the least month count after which the balance is zero or below |
| `EarlyPayment.StillOwed` | calculator.js:328-329 | a positive balance that still needs `m` months after the first needs `m + 1` |
| `EarlyPayment.NewTerm` | calculator.js:328-329 | a new term exists exactly when the payment beats the interest on the new balance |
| `EarlyPayment.NewTermSolvesLog` | calculator.js:328-329 | at a positive rate the new term is the least `n` with `(1 + r)^n (payment - B r) >= payment`, the ceiling of the logarithm quotient |
| `EarlyPayment.RetiredIffPowerBound` | calculator.js:328-329 | at a positive rate the balance is gone after `k` months exactly when that power bound holds |
| `EarlyPayment.ClosedFormSign` | calculator.js:328-329 | with a positive rate, `x r == payment - g d` gives `x <= 0` exactly when `g d >= payment` |
| `EarlyPayment.NewTermZeroRate` | calculator.js:328-329 | at a zero rate the new term is the ceiling of the new balance over the payment |
| `EarlyPayment.ZeroRateTermIs` | calculator.js:328-329 | at a zero rate any `n` with `(n - 1) payment < B <= n payment` is the new term |
| `EarlyPayment.NewTermAsWritten` | calculator.js:328-329 | `Math.ceil` of the logarithm quotient as written: at a positive rate a term exists exactly when the payment beats the interest on the new balance, and it is the least `n` with `(1 + r)^n (payment - B r) >= payment`; at a zero rate there is none (NaN) |
| `EarlyPayment.CalculateEarlyPaymentSavings` | calculator.js:297-344 | the replay loop leaves the annuity balance after the months paid, and the result is `EarlyPaymentSavings` for it; at a positive rate that is the source's result (`AsWrittenAgreesAtPositiveRate`), while at a zero rate with a balance left it uses the corrected term where the source gives NaN (see Findings) |
| `EarlyPayment.Outcome` | calculator.js:309-343 | the savings from a balance and a term; `PayoffSavesEverything` and `DroppedPayments` prove the payoff branch saves the whole term and interest and the other branch saves the dropped payments less the lump sum |
| `EarlyPayment.EarlyPaymentSavings` | calculator.js:297-344 | the savings with the corrected new term; `SavingsDefined` proves they exist for a positive loan with a bounded time saved, and `SavingsArePaymentsDropped` what the interest saved is |
| `EarlyPayment.EarlyPaymentSavingsAsWritten` | calculator.js:297-344 | the savings with the term as written; `AsWrittenAgreesAtPositiveRate` proves it equals `EarlyPaymentSavings` at a positive rate and `AsWrittenUndefinedAtZeroRate` that it is NaN at a zero rate with a balance left |
| `EarlyPayment.BalanceAfterPaid` | calculator.js:302-307 | the balance the replay loop leaves; `BalanceAfterPaidBounds` keeps it within `[0, P]` and `CalculateEarlyPaymentSavings` computes it by the loop |
| `EarlyPayment.InterestWithout` | calculator.js:310-312 | the interest still due without the lump sum, the remaining payments less the balance; `PayoffSavesEverything` reports it |
| `EarlyPayment.InterestSaved` | calculator.js:333-335 | the interest without the lump sum less the interest with it; `DroppedPayments` proves it is the payments dropped less the lump sum |
| `EarlyPayment.BalanceAfterPaidBounds` | calculator.js:302-307 | within the term the replayed balance lies within `[0, P]`, and is 0 after the whole term |
| `EarlyPayment.RemainingMonthsRetire` | calculator.js:310-312 | the remaining months of payments retire the replayed balance exactly |
| `EarlyPayment.SavingsDefined` | calculator.js:297-344 | for a positive loan, months paid within the term and a non-negative lump sum, the savings exist; the time saved is between 0 and the remaining months; interest saved equals total savings; the balance shown is non-negative |
| `EarlyPayment.SavingsArePaymentsDropped` | calculator.js:330-335 | when a balance remains, the interest saved is the payments of the saved months less the lump sum |
| `EarlyPayment.DroppedPayments` | calculator.js:330-335 | the same on the outcome of a found term |
| `EarlyPayment.PayoffSavesEverything` | calculator.js:317-325 | a lump sum that clears the balance saves the whole remaining term and all remaining interest, with total savings equal to the interest saved, and shows no payment and no balance |
| `EarlyPayment.AsWrittenAgreesAtPositiveRate` | calculator.js:328-329 | at a positive rate the result as written and the modelled result are equal |
| `EarlyPayment.AsWrittenUndefinedAtZeroRate` | calculator.js:328-329 | at a zero rate the result as written is NaN whenever part of the balance remains |
| `EarlyPayment.ZeroRateExample` | calculator.js:297-344 | 12000 over 12 months at 0% with 1000 paid early: NaN as written, one month saved with no interest as modelled |
| `EarlyPayment.OneMonthSaved` | calculator.js:330-343 | with 11 months left of 12, the outcome shows one month saved, a payment of 1000, a balance of 11000 and no interest saved |

## Left out

- Floating point: the model works over exact reals. IEEE rounding drift is not modelled, so `Math.round` of a value a float would land just below a half may differ.
- Advisory messages: the `message` strings of the debt ratio and borrowing capacity results are not modelled. Each one follows from the status alone.
- Page code and exports: `main.js` and the `module.exports` block are outside the model.
- Logarithm: `Math.log` is not modelled as a real function. The new term is characterised by the inequality its ceiling solves (`NewTermSolvesLog`).
- Non-finite results: NaN and Infinity become `None` in the early-payment result. The source returns some fields as NaN or Infinity when the payment does not beat the interest on the new balance.
- CalculateBorrowingCapacity: when the limit leaves room for a payment, requires a non-zero salary, `years >= 0` and `years * 12` a whole month count. The source passes a fractional month count to `Math.pow`, and `Pow` is defined for whole exponents only; it divides by the salary and returns an Infinity or NaN ratio for 0. When no room is left the model, like the source, answers cannot-borrow for every salary and term (`CannotBorrowWithoutRoom`).
- CalculateDebtRatio: requires a non-zero salary. The source divides by the salary and returns Infinity or NaN percentages for 0.
- CalculateLoan: requires a positive principal and at least one month. The source divides by the principal for the percentages, giving NaN or Infinity for a zero principal, and with no months it divides by zero in the payment. A negative principal or a negative month count gives the source finite figures (a principal of -1000 at 0% over 1 year, say), which the model does not cover.
- FixedMonthlyPayment: requires at least one month and a non-negative rate. With no months the source divides by zero. Negative annual rates are outside the whole model, because the balance bounds and closed forms need `r >= 0`.
- GeneratePaymentSchedule: requires a non-negative rate. With fewer than one month both the source and the model return an empty schedule.
- CalculateEarlyPaymentSavings: `paidMonths` is a whole number. A fractional count would make the source's replay loop run `ceil(paidMonths)` times.
- CalculateLoan: the summary's `interestType` field holds the classified type (`InterestTypeOf`), not the caller's string. The source returns the string as given, so `'REDUCING'` comes back as `'REDUCING'` while it selects the annuity.
- Default arguments: `otherCommitments = 0`, `maxDebtRatio = 33` and `interestType = 'fixed'` are explicit parameters. `CapacityUnderDefaultLimit` covers limits up to the default 33%.

## Findings

| source | as written | input that shows it | evidently intended | confidence | as-written member | corrected member |
|---|---|---|---|---|---|---|
| calculator.js:328-329 | the new term is `ceil(log(pmt / (pmt - B r)) / log(1 + r))`, which is `log(1) / log(1) = 0 / 0 = NaN` at a zero rate, so time saved and interest saved are NaN | principal 12000, rate 0%, 12 months, 0 months paid, 1000 paid early | the term the same payment needs for the new balance, `ceil(11000 / 1000) = 11`: one month saved, no interest either way | not executed | `EarlyPayment.NewTermAsWritten`, `EarlyPayment.EarlyPaymentSavingsAsWritten`, `EarlyPayment.AsWrittenUndefinedAtZeroRate`, `EarlyPayment.ZeroRateExample` | `EarlyPayment.NewTerm`, `EarlyPayment.NewTermZeroRate`, `EarlyPayment.ZeroRateTermIs`, `EarlyPayment.EarlyPaymentSavings`, `EarlyPayment.CalculateEarlyPaymentSavings`, `EarlyPayment.SavingsDefined` |

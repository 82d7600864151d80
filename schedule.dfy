/** The month-by-month repayment table of generatePaymentSchedule, for both interest types. */
module Schedule {
  import opened Numeric
  import opened Amortization

  /** One row of the table; currency amounts are rounded to whole units. */
  datatype ScheduleEntry = ScheduleEntry(
    month: int,
    principalPayment: int,
    interestPayment: int,
    totalPayment: int,
    remainingBalance: int)

  /** Balance left after month `m` of a loan of `months` months, before rounding. */
  function BalanceAfter(principal: real, annualRate: real, months: int, interestType: InterestType, m: nat): real
    requires months >= 1 && annualRate >= 0.0
  {
    match interestType
    case Fixed => AnnuityBalance(principal, annualRate, months, m)
    case Reducing => ReducingBalance(principal, principal / months as real, m)
  }

  /** Interest charged in month `m` (from 1): the monthly rate on the balance left before it. */
  function InterestAt(principal: real, annualRate: real, months: int, interestType: InterestType, m: nat): real
    requires months >= 1 && annualRate >= 0.0 && m >= 1
  {
    BalanceAfter(principal, annualRate, months, interestType, m - 1) * MonthlyRate(annualRate)
  }

  /** Principal retired in month `m`: the rest of the annuity payment, or the constant share. */
  function PrincipalAt(principal: real, annualRate: real, months: int, interestType: InterestType, m: nat): real
    requires months >= 1 && annualRate >= 0.0 && m >= 1
  {
    match interestType
    case Fixed => FixedMonthlyPayment(principal, annualRate, months) - InterestAt(principal, annualRate, months, interestType, m)
    case Reducing => principal / months as real
  }

  /** Row `m` of a reducing table whose balance before that month is `balance`: the constant
      share, interest at rate `r` on the balance, their sum, and the balance after. */
  function ReducingRow(m: int, balance: real, r: real, share: real): ScheduleEntry
  {
    ScheduleEntry(m, Round(share), Round(balance * r), Round(share + balance * r), Max(0, Round(balance - share)))
  }

  /** Row `m` of an annuity table whose balance before that month is `balance`: the part of the
      payment left after interest, the interest, the payment, and the balance after. */
  function FixedRow(m: int, balance: real, r: real, payment: real): ScheduleEntry
  {
    ScheduleEntry(m, Round(payment - balance * r), Round(balance * r), Round(payment),
                  Max(0, Round(balance - (payment - balance * r))))
  }

  /** Row `m` (from 1) of the table; every amount is rounded and the balance is floored at zero. */
  function ScheduleRow(principal: real, annualRate: real, months: int, interestType: InterestType, m: nat): ScheduleEntry
    requires months >= 1 && annualRate >= 0.0 && 1 <= m
  {
    match interestType
    case Fixed =>
      FixedRow(m, BalanceAfter(principal, annualRate, months, Fixed, m - 1), MonthlyRate(annualRate),
               FixedMonthlyPayment(principal, annualRate, months))
    case Reducing =>
      ReducingRow(m, BalanceAfter(principal, annualRate, months, Reducing, m - 1), MonthlyRate(annualRate),
                  principal / months as real)
  }

  /** Payment due in month `m`: the annuity payment, or the share plus that month's interest. */
  function PaymentAt(principal: real, annualRate: real, months: int, interestType: InterestType, m: nat): real
    requires months >= 1 && annualRate >= 0.0 && m >= 1
  {
    match interestType
    case Fixed => FixedMonthlyPayment(principal, annualRate, months)
    case Reducing => ReducingPaymentAt(principal, annualRate, months, m)
  }

  /** Each month's payment splits into its principal and its interest, and the principal part
      is what the balance drops by. */
  lemma BalanceStep(principal: real, annualRate: real, months: int, interestType: InterestType, m: nat)
    requires months >= 1 && annualRate >= 0.0 && m >= 1
    ensures PaymentAt(principal, annualRate, months, interestType, m)
         == PrincipalAt(principal, annualRate, months, interestType, m)
            + InterestAt(principal, annualRate, months, interestType, m)
    ensures BalanceAfter(principal, annualRate, months, interestType, m)
         == BalanceAfter(principal, annualRate, months, interestType, m - 1)
            - PrincipalAt(principal, annualRate, months, interestType, m)
  {
  }

  /** Each row shows the rounded principal, interest and payment of its month, and the rounded
      balance after it, floored at zero. */
  lemma ScheduleRowAmounts(principal: real, annualRate: real, months: int, interestType: InterestType, m: nat)
    requires months >= 1 && annualRate >= 0.0 && 1 <= m
    ensures ScheduleRow(principal, annualRate, months, interestType, m)
         == ScheduleEntry(
              m,
              Round(PrincipalAt(principal, annualRate, months, interestType, m)),
              Round(InterestAt(principal, annualRate, months, interestType, m)),
              Round(PaymentAt(principal, annualRate, months, interestType, m)),
              Max(0, Round(BalanceAfter(principal, annualRate, months, interestType, m))))
  {
    match interestType
    case Fixed => FixedRowAmounts(principal, annualRate, months, m);
    case Reducing => ReducingRowAmounts(principal, annualRate, months, m);
  }

  /** ScheduleRowAmounts for an annuity row. */
  lemma FixedRowAmounts(principal: real, annualRate: real, months: int, m: nat)
    requires months >= 1 && annualRate >= 0.0 && 1 <= m
    ensures ScheduleRow(principal, annualRate, months, Fixed, m)
         == ScheduleEntry(
              m,
              Round(PrincipalAt(principal, annualRate, months, Fixed, m)),
              Round(InterestAt(principal, annualRate, months, Fixed, m)),
              Round(PaymentAt(principal, annualRate, months, Fixed, m)),
              Max(0, Round(BalanceAfter(principal, annualRate, months, Fixed, m))))
  {
    assert BalanceAfter(principal, annualRate, months, Fixed, m)
        == AnnuityStep(BalanceAfter(principal, annualRate, months, Fixed, m - 1), MonthlyRate(annualRate),
                       FixedMonthlyPayment(principal, annualRate, months));
    FixedRowOf(m, BalanceAfter(principal, annualRate, months, Fixed, m - 1), MonthlyRate(annualRate),
               FixedMonthlyPayment(principal, annualRate, months),
               InterestAt(principal, annualRate, months, Fixed, m), PrincipalAt(principal, annualRate, months, Fixed, m));
  }

  /** ScheduleRowAmounts for a reducing row. */
  lemma ReducingRowAmounts(principal: real, annualRate: real, months: int, m: nat)
    requires months >= 1 && annualRate >= 0.0 && 1 <= m
    ensures ScheduleRow(principal, annualRate, months, Reducing, m)
         == ScheduleEntry(
              m,
              Round(PrincipalAt(principal, annualRate, months, Reducing, m)),
              Round(InterestAt(principal, annualRate, months, Reducing, m)),
              Round(PaymentAt(principal, annualRate, months, Reducing, m)),
              Max(0, Round(BalanceAfter(principal, annualRate, months, Reducing, m))))
  {
    ReducingRowOf(m, BalanceAfter(principal, annualRate, months, Reducing, m - 1), MonthlyRate(annualRate),
                  principal / months as real,
                  InterestAt(principal, annualRate, months, Reducing, m), PaymentAt(principal, annualRate, months, Reducing, m));
  }

  /** The first `k` rows of the table, in order. */
  function Rows(principal: real, annualRate: real, months: int, interestType: InterestType, k: nat): seq<ScheduleEntry>
    requires months >= 1 && annualRate >= 0.0
  {
    if k == 0 then []
    else Rows(principal, annualRate, months, interestType, k - 1) + [ScheduleRow(principal, annualRate, months, interestType, k)]
  }

  /** Row `i` (from 0) of the first `k` rows is the table's row for month `i + 1`. */
  lemma {:induction false} RowsIndex(principal: real, annualRate: real, months: int, interestType: InterestType, k: nat)
    requires months >= 1 && annualRate >= 0.0
    ensures |Rows(principal, annualRate, months, interestType, k)| == k
    ensures forall i :: 0 <= i < k ==>
      Rows(principal, annualRate, months, interestType, k)[i] == ScheduleRow(principal, annualRate, months, interestType, i + 1)
  {
    if k > 0 {
      RowsIndex(principal, annualRate, months, interestType, k - 1);
    }
  }

  /** One more month of the reducing table at monthly rate `r` and principal share `share`, in
      the loop's own terms: the balance drops by the share and the row shows the interest on
      the balance before the month. */
  lemma ReducingStep(principal: real, annualRate: real, months: int, i: nat,
                     before: real, r: real, share: real, interest: real, total: real)
    requires months >= 1 && annualRate >= 0.0 && i >= 1
    requires r == MonthlyRate(annualRate) && share == principal / months as real
    requires before == BalanceAfter(principal, annualRate, months, Reducing, i - 1)
    requires interest == before * r && total == share + interest
    ensures BalanceAfter(principal, annualRate, months, Reducing, i) == before - share
    ensures Rows(principal, annualRate, months, Reducing, i)
         == Rows(principal, annualRate, months, Reducing, i - 1)
            + [ScheduleEntry(i, Round(share), Round(interest), Round(total), Max(0, Round(before - share)))]
  {
    BalanceStep(principal, annualRate, months, Reducing, i);
    assert ScheduleRow(principal, annualRate, months, Reducing, i) == ReducingRow(i, before, r, share);
    ReducingRowOf(i, before, r, share, interest, total);
  }

  /** A reducing row built from the loop's computed interest and total is the specified row. */
  lemma ReducingRowOf(i: int, before: real, r: real, share: real, interest: real, total: real)
    requires interest == before * r && total == share + interest
    ensures ReducingRow(i, before, r, share)
         == ScheduleEntry(i, Round(share), Round(interest), Round(total), Max(0, Round(before - share)))
  {
  }

  /** One more month of the annuity table at monthly rate `r` and payment `payment`, in the
      loop's own terms: interest on the balance before the month, the rest of the payment
      retires principal. */
  lemma FixedStep(principal: real, annualRate: real, months: int, i: nat,
                  before: real, r: real, payment: real, interest: real, principalPart: real)
    requires months >= 1 && annualRate >= 0.0 && i >= 1
    requires r == MonthlyRate(annualRate) && payment == FixedMonthlyPayment(principal, annualRate, months)
    requires before == BalanceAfter(principal, annualRate, months, Fixed, i - 1)
    requires interest == before * r && principalPart == payment - interest
    ensures BalanceAfter(principal, annualRate, months, Fixed, i) == before - principalPart
    ensures Rows(principal, annualRate, months, Fixed, i)
         == Rows(principal, annualRate, months, Fixed, i - 1)
            + [ScheduleEntry(i, Round(principalPart), Round(interest), Round(payment), Max(0, Round(before - principalPart)))]
  {
    assert BalanceAfter(principal, annualRate, months, Fixed, i) == AnnuityStep(before, r, payment);
    assert ScheduleRow(principal, annualRate, months, Fixed, i) == FixedRow(i, before, r, payment);
    FixedRowOf(i, before, r, payment, interest, principalPart);
  }

  /** An annuity row built from the loop's computed interest and principal is the specified row. */
  lemma FixedRowOf(i: int, before: real, r: real, payment: real, interest: real, principalPart: real)
    requires interest == before * r && principalPart == payment - interest
    ensures AnnuityStep(before, r, payment) == before - principalPart
    ensures FixedRow(i, before, r, payment)
         == ScheduleEntry(i, Round(principalPart), Round(interest), Round(payment), Max(0, Round(before - principalPart)))
  {
  }

  /** generatePaymentSchedule: one row per month. A term below one month gives an empty table,
      as the source's loops never run. */
  method GeneratePaymentSchedule(principal: real, annualRate: real, months: int, interestType: InterestType)
    returns (schedule: seq<ScheduleEntry>)
    requires annualRate >= 0.0
    ensures |schedule| == if months < 1 then 0 else months
    ensures forall i :: 0 <= i < |schedule| ==> schedule[i].month == i + 1
    ensures forall i :: 0 <= i < |schedule| ==>
      months >= 1 && schedule[i] == ScheduleRow(principal, annualRate, months, interestType, i + 1)
    ensures months >= 1 ==> schedule == Rows(principal, annualRate, months, interestType, months)
  {
    if months < 1 {
      return [];
    }
    if interestType == Reducing {
      schedule := ReducingSchedule(principal, annualRate, months);
    } else {
      schedule := FixedSchedule(principal, annualRate, months);
    }
    RowsIndex(principal, annualRate, months, interestType, months);
  }

  /** The reducing branch: the balance falls by the same share each month and interest is
      charged on what is left. */
  method ReducingSchedule(principal: real, annualRate: real, months: int) returns (schedule: seq<ScheduleEntry>)
    requires annualRate >= 0.0 && months >= 1
    ensures schedule == Rows(principal, annualRate, months, Reducing, months)
  {
    schedule := [];
    var monthlyRate := MonthlyRate(annualRate);
    var monthlyPrincipal := principal / months as real;
    var remainingBalance := principal;
    var i := 1;
    while i <= months
      invariant 1 <= i <= months + 1
      invariant remainingBalance == BalanceAfter(principal, annualRate, months, Reducing, i - 1)
      invariant schedule == Rows(principal, annualRate, months, Reducing, i - 1)
    {
      var interestPayment := remainingBalance * monthlyRate;
      var totalPayment := monthlyPrincipal + interestPayment;
      ReducingStep(principal, annualRate, months, i, remainingBalance, monthlyRate, monthlyPrincipal, interestPayment, totalPayment);
      remainingBalance := remainingBalance - monthlyPrincipal;
      var row := ScheduleEntry(i, Round(monthlyPrincipal), Round(interestPayment),
                               Round(totalPayment), Max(0, Round(remainingBalance)));
      schedule := schedule + [row];
      i := i + 1;
    }
  }

  /** The annuity branch: each month the fixed payment first covers the interest on the balance
      and the rest retires principal. */
  method FixedSchedule(principal: real, annualRate: real, months: int) returns (schedule: seq<ScheduleEntry>)
    requires annualRate >= 0.0 && months >= 1
    ensures schedule == Rows(principal, annualRate, months, Fixed, months)
  {
    schedule := [];
    var monthlyRate := MonthlyRate(annualRate);
    var monthlyPayment := FixedMonthlyPayment(principal, annualRate, months);
    var remainingBalance := principal;
    var i := 1;
    while i <= months
      invariant 1 <= i <= months + 1
      invariant remainingBalance == BalanceAfter(principal, annualRate, months, Fixed, i - 1)
      invariant schedule == Rows(principal, annualRate, months, Fixed, i - 1)
    {
      var interestPayment := remainingBalance * monthlyRate;
      var principalPayment := monthlyPayment - interestPayment;
      FixedStep(principal, annualRate, months, i, remainingBalance, monthlyRate, monthlyPayment, interestPayment, principalPayment);
      remainingBalance := remainingBalance - principalPayment;
      var row := ScheduleEntry(i, Round(principalPayment), Round(interestPayment),
                               Round(monthlyPayment), Max(0, Round(remainingBalance)));
      schedule := schedule + [row];
      i := i + 1;
    }
  }

  /** Over exact arithmetic the balance of a non-negative loan never drops below zero, so the
      clamp to zero never changes a row: every row shows the rounded true balance, which lies
      between zero and the principal, and the last row shows zero. */
  lemma ScheduleBalances(principal: real, annualRate: real, months: int, interestType: InterestType, m: nat)
    requires months >= 1 && annualRate >= 0.0 && principal >= 0.0 && 1 <= m <= months
    ensures 0.0 <= BalanceAfter(principal, annualRate, months, interestType, m) <= principal
    ensures ScheduleRow(principal, annualRate, months, interestType, m).remainingBalance
         == Round(BalanceAfter(principal, annualRate, months, interestType, m))
    ensures m == months ==> ScheduleRow(principal, annualRate, months, interestType, m).remainingBalance == 0
  {
    ScheduleRowAmounts(principal, annualRate, months, interestType, m);
    BalanceBounds(principal, annualRate, months, interestType, m);
  }

  /** The unrounded balance stays between zero and the principal and reaches zero in the last month. */
  lemma BalanceBounds(principal: real, annualRate: real, months: int, interestType: InterestType, m: nat)
    requires months >= 1 && annualRate >= 0.0 && principal >= 0.0 && m <= months
    ensures 0.0 <= BalanceAfter(principal, annualRate, months, interestType, m) <= principal
    ensures m == months ==> BalanceAfter(principal, annualRate, months, interestType, m) == 0.0
  {
    match interestType
    case Fixed =>
      AnnuityBalanceBounds(principal, annualRate, months, m);
      if m == months {
        AnnuityRetiresLoan(principal, annualRate, months);
      }
    case Reducing =>
      var n := months as real;
      var share := principal / n;
      ReducingBalanceClosedForm(principal, share, m);
      assert share * n == principal;
      assert 0.0 <= share;
      assert m as real * share <= n * share by {
        assert (n - m as real) * share >= 0.0;
      }
  }

  /** The rows' unrounded principal amounts and interest amounts, summed over the first `k` months. */
  function PrincipalColumn(principal: real, annualRate: real, months: int, interestType: InterestType, k: nat): real
    requires months >= 1 && annualRate >= 0.0
  {
    if k == 0 then 0.0
    else PrincipalColumn(principal, annualRate, months, interestType, k - 1)
         + PrincipalAt(principal, annualRate, months, interestType, k)
  }

  /** See PrincipalColumn. */
  function InterestColumn(principal: real, annualRate: real, months: int, interestType: InterestType, k: nat): real
    requires months >= 1 && annualRate >= 0.0
  {
    if k == 0 then 0.0
    else InterestColumn(principal, annualRate, months, interestType, k - 1)
         + InterestAt(principal, annualRate, months, interestType, k)
  }

  /** Principal retired over the first `k` months is what the balance has dropped by. */
  lemma {:induction false} PrincipalColumnSoFar(principal: real, annualRate: real, months: int, interestType: InterestType, k: nat)
    requires months >= 1 && annualRate >= 0.0
    ensures PrincipalColumn(principal, annualRate, months, interestType, k)
         == principal - BalanceAfter(principal, annualRate, months, interestType, k)
  {
    if k > 0 {
      PrincipalColumnSoFar(principal, annualRate, months, interestType, k - 1);
      BalanceStep(principal, annualRate, months, interestType, k);
    }
  }

  /** Interest charged over the first `k` months is the month-by-month interest the summary
      routines accumulate, for either interest type. */
  lemma {:induction false} InterestColumnSoFar(principal: real, annualRate: real, months: int, interestType: InterestType, k: nat)
    requires months >= 1 && annualRate >= 0.0
    ensures interestType == Fixed ==>
      InterestColumn(principal, annualRate, months, interestType, k)
        == FixedInterestPaid(principal, MonthlyRate(annualRate), FixedMonthlyPayment(principal, annualRate, months), k)
    ensures interestType == Reducing ==>
      InterestColumn(principal, annualRate, months, interestType, k)
        == ReducingInterestPaid(principal, MonthlyRate(annualRate), principal / months as real, k)
  {
    if k > 0 {
      InterestColumnSoFar(principal, annualRate, months, interestType, k - 1);
    }
  }

  /** Over the whole table the principal column adds up to the principal and the interest column
      to the summary's total interest, for both interest types. */
  lemma ColumnsTotal(principal: real, annualRate: real, months: int, interestType: InterestType)
    requires months >= 1 && annualRate >= 0.0
    ensures PrincipalColumn(principal, annualRate, months, interestType, months) == principal
    ensures InterestColumn(principal, annualRate, months, interestType, months)
         == Totals(principal, annualRate, months, interestType).totalInterest
  {
    PrincipalColumnSoFar(principal, annualRate, months, interestType, months);
    InterestColumnSoFar(principal, annualRate, months, interestType, months);
    match interestType
    case Fixed =>
      AnnuityRetiresLoan(principal, annualRate, months);
      TotalInterestFixedIsScheduleInterest(principal, annualRate, months);
    case Reducing =>
      var n := months as real;
      ReducingBalanceClosedForm(principal, principal / n, months);
      assert n * (principal / n) == principal;
  }

  /** Every reducing row retires the same principal share and shows the payment the summary
      brackets: the first row pays the summary's first payment and the last row its last. */
  lemma ReducingRowPayments(principal: real, annualRate: real, months: int, m: nat)
    requires months >= 1 && annualRate >= 0.0 && 1 <= m <= months
    ensures ScheduleRow(principal, annualRate, months, Reducing, m).principalPayment == Round(principal / months as real)
    ensures ScheduleRow(principal, annualRate, months, Reducing, m).totalPayment
         == Round(ReducingPaymentAt(principal, annualRate, months, m))
    ensures m == 1 ==> ReducingPaymentAt(principal, annualRate, months, m)
                       == ReducingMonthlyPayment(principal, annualRate, months).firstPayment
    ensures m == months ==> ReducingPaymentAt(principal, annualRate, months, m)
                            == ReducingMonthlyPayment(principal, annualRate, months).lastPayment
  {
    ScheduleRowAmounts(principal, annualRate, months, Reducing, m);
    ReducingPaymentsBracket(principal, annualRate, months);
  }

  /** Every annuity row shows the same total payment, the summary's monthly payment. */
  lemma FixedRowPayment(principal: real, annualRate: real, months: int, m: nat)
    requires months >= 1 && annualRate >= 0.0 && 1 <= m <= months
    ensures ScheduleRow(principal, annualRate, months, Fixed, m).totalPayment
         == Round(FixedMonthlyPayment(principal, annualRate, months))
  {
    ScheduleRowAmounts(principal, annualRate, months, Fixed, m);
  }

  /** The principal amounts a table shows, added up. */
  function ShownPrincipal(rows: seq<ScheduleEntry>): int
  {
    if |rows| == 0 then 0 else ShownPrincipal(rows[..|rows| - 1]) + rows[|rows| - 1].principalPayment
  }

  /** The interest amounts a table shows, added up. */
  function ShownInterest(rows: seq<ScheduleEntry>): int
  {
    if |rows| == 0 then 0 else ShownInterest(rows[..|rows| - 1]) + rows[|rows| - 1].interestPayment
  }

  /** The table shows each amount rounded, so the columns it shows drift from the exact ones:
      over `k` rows by at most half a unit a row. */
  lemma {:induction false} ShownColumnsSoFar(principal: real, annualRate: real, months: int, interestType: InterestType, k: nat)
    requires months >= 1 && annualRate >= 0.0
    ensures var rows := Rows(principal, annualRate, months, interestType, k);
      PrincipalColumn(principal, annualRate, months, interestType, k) - 0.5 * k as real
        <= ShownPrincipal(rows) as real
        <= PrincipalColumn(principal, annualRate, months, interestType, k) + 0.5 * k as real
      && InterestColumn(principal, annualRate, months, interestType, k) - 0.5 * k as real
        <= ShownInterest(rows) as real
        <= InterestColumn(principal, annualRate, months, interestType, k) + 0.5 * k as real
  {
    if k > 0 {
      ShownColumnsSoFar(principal, annualRate, months, interestType, k - 1);
      var rows := Rows(principal, annualRate, months, interestType, k);
      RowsIndex(principal, annualRate, months, interestType, k);
      assert rows[..k - 1] == Rows(principal, annualRate, months, interestType, k - 1);
      ScheduleRowAmounts(principal, annualRate, months, interestType, k);
      var row := ScheduleRow(principal, annualRate, months, interestType, k);
      DriftStep(ShownPrincipal(rows[..k - 1]) as real, row.principalPayment as real,
                PrincipalColumn(principal, annualRate, months, interestType, k - 1),
                PrincipalAt(principal, annualRate, months, interestType, k), (k - 1) as real);
      DriftStep(ShownInterest(rows[..k - 1]) as real, row.interestPayment as real,
                InterestColumn(principal, annualRate, months, interestType, k - 1),
                InterestAt(principal, annualRate, months, interestType, k), (k - 1) as real);
    }
  }

  /** A running total within `k / 2` of its exact value, plus an amount rounded to the nearest
      unit, is within `(k + 1) / 2` of the exact total. */
  lemma DriftStep(shown: real, rounded: real, exact: real, amount: real, k: real)
    requires exact - 0.5 * k <= shown <= exact + 0.5 * k
    requires amount - 0.5 < rounded <= amount + 0.5
    ensures (exact + amount) - 0.5 * (k + 1.0) <= shown + rounded <= (exact + amount) + 0.5 * (k + 1.0)
  {
  }

  /** Over the whole table the shown principal column is within `months / 2` of the loan, and
      the shown interest column within `months / 2` of the summary's total interest before
      rounding: 1000 over 3 months at 0% shows 333 three times, 999 in all. */
  lemma ShownColumnsTotal(principal: real, annualRate: real, months: int, interestType: InterestType)
    requires months >= 1 && annualRate >= 0.0
    ensures var rows := Rows(principal, annualRate, months, interestType, months);
      principal - 0.5 * months as real <= ShownPrincipal(rows) as real <= principal + 0.5 * months as real
      && Totals(principal, annualRate, months, interestType).totalInterest - 0.5 * months as real
        <= ShownInterest(rows) as real
        <= Totals(principal, annualRate, months, interestType).totalInterest + 0.5 * months as real
  {
    ShownColumnsSoFar(principal, annualRate, months, interestType, months);
    ColumnsTotal(principal, annualRate, months, interestType);
  }
}

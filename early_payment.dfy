/** What a lump-sum early payment saves on a fixed-payment loan (calculateEarlyPaymentSavings):
    the balance left after the months already paid, the interest still due without the lump
    sum, and the shorter term the same payment needs once the lump sum is paid. */
module EarlyPayment {
  import opened Wrappers
  import opened Numeric
  import opened Amortization

  // ---------------------------------------------------------------------------
  // The balance over several stretches of months
  // ---------------------------------------------------------------------------

  /** Running an annuity for `j` months and then `k` more is running it for `j + k` months. */
  lemma {:induction false} FixedBalanceCompose(b: real, r: real, payment: real, j: nat, k: nat)
    ensures FixedBalance(FixedBalance(b, r, payment, j), r, payment, k) == FixedBalance(b, r, payment, j + k)
  {
    if k > 0 {
      FixedBalanceCompose(b, r, payment, j, k - 1);
    }
  }

  /** The first month can be taken off the front: `k + 1` months from `b` are `k` months from
      the balance one month later. */
  lemma FixedBalanceShift(b: real, r: real, payment: real, k: nat)
    ensures FixedBalance(b, r, payment, k + 1) == FixedBalance(AnnuityStep(b, r, payment), r, payment, k)
  {
    FixedBalanceCompose(b, r, payment, 1, k);
  }

  /** With a non-negative rate a smaller starting balance stays smaller month after month. */
  lemma {:induction false} FixedBalanceMonotone(b1: real, b2: real, r: real, payment: real, k: nat)
    requires r >= 0.0 && b1 <= b2
    ensures FixedBalance(b1, r, payment, k) <= FixedBalance(b2, r, payment, k)
  {
    if k > 0 {
      FixedBalanceMonotone(b1, b2, r, payment, k - 1);
      StepMonotone(FixedBalance(b1, r, payment, k - 1), FixedBalance(b2, r, payment, k - 1), r, payment);
    }
  }

  /** One month of an annuity keeps the order of two balances. */
  lemma StepMonotone(x1: real, x2: real, r: real, payment: real)
    requires r >= 0.0 && x1 <= x2
    ensures AnnuityStep(x1, r, payment) <= AnnuityStep(x2, r, payment)
  {
    assert (x2 - x1) * r >= 0.0;
  }

  // ---------------------------------------------------------------------------
  // The new term
  // ---------------------------------------------------------------------------

  /** One month of a payment that beats the interest by at least `margin` lowers the balance by
      at least `margin`, keeps the payment ahead of the interest by `margin`, and lowers the
      number of whole margins in the balance. */
  lemma RetireStep(balance: real, r: real, payment: real, margin: real)
    requires r >= 0.0 && margin > 0.0 && payment - balance * r >= margin && balance > 0.0
    ensures AnnuityStep(balance, r, payment) <= balance - margin
    ensures payment - AnnuityStep(balance, r, payment) * r >= margin
    ensures (balance / margin).Floor >= 0
    ensures AnnuityStep(balance, r, payment) > 0.0
        ==> (AnnuityStep(balance, r, payment) / margin).Floor < (balance / margin).Floor
  {
    var next := AnnuityStep(balance, r, payment);
    assert next <= balance - margin;
    assert (balance - next) * r >= 0.0;
    var x, y := balance / margin, next / margin;
    assert x * margin == balance && y * margin == next;
    assert (x - 1.0) * margin == x * margin - margin;
    CancelOrder(y, x - 1.0, margin);
    NonNegativeFraction(balance, margin);
  }

  /** The number of months the payment takes to bring `balance` to zero or below: the least
      `n` with `FixedBalance(balance, r, payment, n) <= 0`. Each month the payment beats the
      interest by at least `margin`, which bounds the recursion. */
  function MonthsToRetire(balance: real, r: real, payment: real, margin: real): (n: nat)
    requires r >= 0.0 && margin > 0.0 && payment - balance * r >= margin
    ensures FixedBalance(balance, r, payment, n) <= 0.0
    ensures forall k: nat :: k < n ==> FixedBalance(balance, r, payment, k) > 0.0
    decreases if balance <= 0.0 then 0 else (balance / margin).Floor + 1
  {
    if balance <= 0.0 then 0
    else
      RetireStep(balance, r, payment, margin);
      var m := MonthsToRetire(AnnuityStep(balance, r, payment), r, payment, margin);
      FixedBalanceShift(balance, r, payment, m);
      StillOwed(balance, r, payment, m);
      m + 1
  }

  /** A positive balance that takes `m` more months after the first stays owed for `m + 1`. */
  lemma StillOwed(balance: real, r: real, payment: real, m: nat)
    requires balance > 0.0
    requires forall k: nat :: k < m ==> FixedBalance(AnnuityStep(balance, r, payment), r, payment, k) > 0.0
    ensures forall k: nat :: k < m + 1 ==> FixedBalance(balance, r, payment, k) > 0.0
  {
    forall k: nat | k < m + 1
      ensures FixedBalance(balance, r, payment, k) > 0.0
    {
      if k > 0 {
        FixedBalanceShift(balance, r, payment, k - 1);
      }
    }
  }

  /** The term the same payment needs for `newBalance`, the source's
      `Math.ceil(Math.log(payment / (payment - newBalance * r)) / Math.log(1 + r))` read as the
      least whole month count it stands for. None when the payment does not beat the interest
      on the new balance, where the logarithm has no finite value. */
  function NewTerm(newBalance: real, r: real, payment: real): (t: Option<nat>)
    requires r >= 0.0
    ensures t.Some? <==> payment - newBalance * r > 0.0
  {
    if payment - newBalance * r <= 0.0 then None
    else Some(MonthsToRetire(newBalance, r, payment, payment - newBalance * r))
  }

  /** `(1 + r)^k * (payment - b * r) >= payment`: after `k` months the growth has lifted the
      payment's excess over the interest on `b` to the whole payment, which is
      `k >= log(payment / (payment - b * r)) / log(1 + r)`. */
  predicate LogBoundMet(b: real, r: real, payment: real, k: nat)
  {
    Pow(1.0 + r, k) * (payment - b * r) >= payment
  }

  /** At a positive rate the new term is the logarithm's ceiling: the least `n` that meets the
      bound `(1 + r)^n * (payment - newBalance * r) >= payment`. */
  lemma NewTermSolvesLog(newBalance: real, r: real, payment: real)
    requires r > 0.0 && payment - newBalance * r > 0.0
    ensures LogBoundMet(newBalance, r, payment, NewTerm(newBalance, r, payment).value)
    ensures forall k: nat :: k < NewTerm(newBalance, r, payment).value ==> !LogBoundMet(newBalance, r, payment, k)
  {
    var n := NewTerm(newBalance, r, payment).value;
    RetiredIffPowerBound(newBalance, r, payment, n);
    forall k: nat | k < n
      ensures !LogBoundMet(newBalance, r, payment, k)
    {
      RetiredIffPowerBound(newBalance, r, payment, k);
    }
  }

  /** At a positive rate, the balance is gone after `k` months exactly when the bound is met. */
  lemma RetiredIffPowerBound(b: real, r: real, payment: real, k: nat)
    requires r > 0.0
    ensures FixedBalance(b, r, payment, k) <= 0.0 <==> LogBoundMet(b, r, payment, k)
  {
    FixedBalanceClosedForm(b, r, payment, k);
    ClosedFormSign(FixedBalance(b, r, payment, k), r, payment, Pow(1.0 + r, k), payment - b * r);
  }

  /** With a positive rate `r` and `x * r == payment - g * d`, `x` is at most zero exactly when
      `g * d` reaches the payment. */
  lemma ClosedFormSign(x: real, r: real, payment: real, g: real, d: real)
    requires r > 0.0 && x * r == payment - g * d
    ensures x <= 0.0 <==> g * d >= payment
  {
    if x <= 0.0 {
      assert x * r <= 0.0;
    } else {
      assert x * r > 0.0;
    }
  }

  /** At a zero rate the new term is the ceiling of the balance over the payment:
      `n * payment - payment < newBalance <= n * payment`. */
  lemma NewTermZeroRate(newBalance: real, payment: real)
    requires newBalance > 0.0 && payment > 0.0
    ensures var n := NewTerm(newBalance, 0.0, payment).value;
      n >= 1 && n as real * payment - payment < newBalance <= n as real * payment
  {
    var n := NewTerm(newBalance, 0.0, payment).value;
    FixedBalanceZeroRate(newBalance, payment, n);
    assert n != 0;
    FixedBalanceZeroRate(newBalance, payment, n - 1);
  }

  /** At a zero rate the ceiling bounds pin the new term down: any `n` with
      `n * payment - payment < newBalance <= n * payment` is the term. */
  lemma ZeroRateTermIs(newBalance: real, payment: real, n: nat)
    requires newBalance > 0.0 && payment > 0.0
    requires n as real * payment - payment < newBalance <= n as real * payment
    ensures NewTerm(newBalance, 0.0, payment) == Some(n)
  {
    NewTermZeroRate(newBalance, payment);
    var m := NewTerm(newBalance, 0.0, payment).value;
    CeilingBelow(m as real, n as real, newBalance, payment);
    CeilingBelow(n as real, m as real, newBalance, payment);
  }

  /** A count one payment short of `b` is less than one above any count whose payments reach `b`. */
  lemma CeilingBelow(x: real, y: real, b: real, p: real)
    requires p > 0.0 && x * p - p < b && b <= y * p
    ensures x - 1.0 < y
  {
    assert (x - 1.0) * p == x * p - p;
    StrictCancelOrder(x - 1.0, y, p);
  }

  /** The term as the source computes it, `Math.ceil` of the logarithm quotient: at a positive
      rate, the least `n` meeting the bound, found exactly when the payment beats the interest;
      at a zero rate the quotient is `log(1) / log(1)`, which is NaN. */
  function NewTermAsWritten(newBalance: real, r: real, payment: real): (t: Option<nat>)
    requires r >= 0.0
    ensures r == 0.0 ==> t.None?
    ensures r > 0.0 ==> (t.Some? <==> payment - newBalance * r > 0.0)
    ensures r > 0.0 && t.Some? ==> LogBoundMet(newBalance, r, payment, t.value)
    ensures r > 0.0 && t.Some? ==> forall k: nat :: k < t.value ==> !LogBoundMet(newBalance, r, payment, k)
  {
    if r == 0.0 then None
    else if payment - newBalance * r <= 0.0 then NewTerm(newBalance, r, payment)
    else
      NewTermSolvesLog(newBalance, r, payment);
      NewTerm(newBalance, r, payment)
  }

  // ---------------------------------------------------------------------------
  // The savings
  // ---------------------------------------------------------------------------

  /** The result of calculateEarlyPaymentSavings. */
  datatype Savings = Savings(
    interestSaved: int,
    timeSaved: int,
    newMonthlyPayment: int,
    newBalance: int,
    totalSavings: int)

  /** How many months the replay loop runs: `paidMonths` when positive, otherwise none. */
  function PaidCount(paidMonths: int): (c: nat)
    ensures paidMonths >= 0 ==> c == paidMonths
  {
    if paidMonths <= 0 then 0 else paidMonths
  }

  /** The balance the replay loop leaves after the months already paid. */
  function BalanceAfterPaid(principal: real, annualRate: real, months: int, paidMonths: int): real
    requires months >= 1 && annualRate >= 0.0
  {
    AnnuityBalance(principal, annualRate, months, PaidCount(paidMonths))
  }

  /** Interest still due without the lump sum: the remaining payments less the balance. */
  function InterestWithout(payment: real, balance: real, remainingMonths: int): real
  {
    payment * remainingMonths as real - balance
  }

  /** Interest saved when the lump sum shortens the term to `newMonths`. */
  function InterestSaved(payment: real, balance: real, remainingMonths: int, earlyPayment: real, newMonths: nat): real
  {
    InterestWithout(payment, balance, remainingMonths) - (payment * newMonths as real - (balance - earlyPayment))
  }

  /** The savings from the balance and the term found for the new balance. A lump sum that
      clears the balance saves the whole remaining interest and term; otherwise the term
      decides, and None stands for the source's non-finite results. */
  function Outcome(payment: real, balance: real, remainingMonths: int, earlyPayment: real,
                   term: Option<nat>): Option<Savings>
  {
    if balance - earlyPayment <= 0.0 then
      Some(Savings(Round(InterestWithout(payment, balance, remainingMonths)), remainingMonths, 0, 0,
                   Round(InterestWithout(payment, balance, remainingMonths))))
    else if term.None? then None
    else
      Some(Savings(Round(InterestSaved(payment, balance, remainingMonths, earlyPayment, term.value)),
                   remainingMonths - term.value,
                   Round(payment),
                   Round(balance - earlyPayment),
                   Round(InterestSaved(payment, balance, remainingMonths, earlyPayment, term.value))))
  }

  /** calculateEarlyPaymentSavings with the new term solved as the least month count. */
  function EarlyPaymentSavings(principal: real, annualRate: real, months: int, paidMonths: int,
                               earlyPayment: real): Option<Savings>
    requires months >= 1 && annualRate >= 0.0
  {
    Outcome(FixedMonthlyPayment(principal, annualRate, months),
            BalanceAfterPaid(principal, annualRate, months, paidMonths),
            months - paidMonths, earlyPayment,
            NewTerm(BalanceAfterPaid(principal, annualRate, months, paidMonths) - earlyPayment,
                    MonthlyRate(annualRate), FixedMonthlyPayment(principal, annualRate, months)))
  }

  /** calculateEarlyPaymentSavings as written, with the logarithm quotient that is NaN at a
      zero rate. */
  function EarlyPaymentSavingsAsWritten(principal: real, annualRate: real, months: int, paidMonths: int,
                                        earlyPayment: real): Option<Savings>
    requires months >= 1 && annualRate >= 0.0
  {
    Outcome(FixedMonthlyPayment(principal, annualRate, months),
            BalanceAfterPaid(principal, annualRate, months, paidMonths),
            months - paidMonths, earlyPayment,
            NewTermAsWritten(BalanceAfterPaid(principal, annualRate, months, paidMonths) - earlyPayment,
                             MonthlyRate(annualRate), FixedMonthlyPayment(principal, annualRate, months)))
  }

  /** calculateEarlyPaymentSavings: replays the months already paid, then compares the
      remaining interest with and without the lump sum. */
  method CalculateEarlyPaymentSavings(principal: real, annualRate: real, months: int, paidMonths: int,
                                      earlyPaymentAmount: real) returns (result: Option<Savings>)
    requires months >= 1 && annualRate >= 0.0
    ensures result == EarlyPaymentSavings(principal, annualRate, months, paidMonths, earlyPaymentAmount)
  {
    var monthlyPayment := FixedMonthlyPayment(principal, annualRate, months);
    var monthlyRate := MonthlyRate(annualRate);
    var remainingBalance := principal;
    var i := 0;
    while i < paidMonths
      invariant 0 <= i <= PaidCount(paidMonths)
      invariant remainingBalance == FixedBalance(principal, monthlyRate, monthlyPayment, i)
    {
      var interest := remainingBalance * monthlyRate;
      var principalPaid := monthlyPayment - interest;
      remainingBalance := remainingBalance - principalPaid;
      i := i + 1;
    }
    var remainingMonths := months - paidMonths;
    var newBalance := remainingBalance - earlyPaymentAmount;
    assert remainingBalance == BalanceAfterPaid(principal, annualRate, months, paidMonths);
    var term := NewTerm(newBalance, monthlyRate, monthlyPayment);
    result := Outcome(monthlyPayment, remainingBalance, remainingMonths, earlyPaymentAmount, term);
  }

  // ---------------------------------------------------------------------------
  // Properties
  // ---------------------------------------------------------------------------

  /** Within the term the replayed balance lies between zero and the principal, and after the
      whole term it is zero. */
  lemma BalanceAfterPaidBounds(principal: real, annualRate: real, months: int, paidMonths: int)
    requires months >= 1 && annualRate >= 0.0 && principal >= 0.0 && paidMonths <= months
    ensures 0.0 <= BalanceAfterPaid(principal, annualRate, months, paidMonths) <= principal
    ensures paidMonths == months ==> BalanceAfterPaid(principal, annualRate, months, paidMonths) == 0.0
  {
    AnnuityBalanceBounds(principal, annualRate, months, PaidCount(paidMonths));
    if paidMonths == months {
      AnnuityRetiresLoan(principal, annualRate, months);
    }
  }

  /** Paying the remaining months from the replayed balance retires the loan exactly. */
  lemma RemainingMonthsRetire(principal: real, annualRate: real, months: int, paidMonths: int)
    requires months >= 1 && annualRate >= 0.0 && 0 <= paidMonths <= months
    ensures FixedBalance(BalanceAfterPaid(principal, annualRate, months, paidMonths), MonthlyRate(annualRate),
                         FixedMonthlyPayment(principal, annualRate, months), months - paidMonths) == 0.0
  {
    FixedBalanceCompose(principal, MonthlyRate(annualRate), FixedMonthlyPayment(principal, annualRate, months),
                        paidMonths, months - paidMonths);
    AnnuityRetiresLoan(principal, annualRate, months);
  }

  /** For a positive loan, a non-negative lump sum and months paid within the term, the savings
      are always defined. The time saved lies between zero and the remaining months, the
      interest saved and the total savings agree, and the reported balance is never negative. */
  lemma SavingsDefined(principal: real, annualRate: real, months: int, paidMonths: int, earlyPayment: real)
    requires months >= 1 && annualRate >= 0.0 && principal > 0.0
    requires 0 <= paidMonths <= months && earlyPayment >= 0.0
    ensures EarlyPaymentSavings(principal, annualRate, months, paidMonths, earlyPayment).Some?
    ensures var s := EarlyPaymentSavings(principal, annualRate, months, paidMonths, earlyPayment).value;
      0 <= s.timeSaved <= months - paidMonths && s.interestSaved == s.totalSavings && s.newBalance >= 0
  {
    var payment := FixedMonthlyPayment(principal, annualRate, months);
    var r := MonthlyRate(annualRate);
    var balance := BalanceAfterPaid(principal, annualRate, months, paidMonths);
    var newBalance := balance - earlyPayment;
    BalanceAfterPaidBounds(principal, annualRate, months, paidMonths);
    if newBalance > 0.0 {
      FixedPaymentExceedsInterest(principal, annualRate, months);
      ExcessKept(payment, principal, newBalance, r);
      var n := NewTerm(newBalance, r, payment).value;
      RemainingMonthsRetire(principal, annualRate, months, paidMonths);
      FixedBalanceMonotone(newBalance, balance, r, payment, months - paidMonths);
      assert n <= months - paidMonths;
      assert n != 0;
    }
  }

  /** The interest saved is the payments no longer made less the lump sum:
      `payment * timeSaved - earlyPayment`, before rounding. */
  lemma SavingsArePaymentsDropped(principal: real, annualRate: real, months: int, paidMonths: int,
                                  earlyPayment: real)
    requires months >= 1 && annualRate >= 0.0
    requires BalanceAfterPaid(principal, annualRate, months, paidMonths) - earlyPayment > 0.0
    requires EarlyPaymentSavings(principal, annualRate, months, paidMonths, earlyPayment).Some?
    ensures var s := EarlyPaymentSavings(principal, annualRate, months, paidMonths, earlyPayment).value;
      s.interestSaved == Round(PaymentsDropped(FixedMonthlyPayment(principal, annualRate, months), s.timeSaved, earlyPayment))
  {
    var payment := FixedMonthlyPayment(principal, annualRate, months);
    var balance := BalanceAfterPaid(principal, annualRate, months, paidMonths);
    var term := NewTerm(balance - earlyPayment, MonthlyRate(annualRate), payment);
    assert EarlyPaymentSavings(principal, annualRate, months, paidMonths, earlyPayment)
        == Outcome(payment, balance, months - paidMonths, earlyPayment, term);
    DroppedPayments(payment, balance, months - paidMonths, earlyPayment, term);
  }

  /** The payments of `timeSaved` months no longer made, less the lump sum. */
  function PaymentsDropped(payment: real, timeSaved: int, earlyPayment: real): real
  {
    payment * timeSaved as real - earlyPayment
  }

  /** The arithmetic behind SavingsArePaymentsDropped, on the outcome for a found term. */
  lemma DroppedPayments(payment: real, balance: real, remainingMonths: int, earlyPayment: real, term: Option<nat>)
    requires balance - earlyPayment > 0.0 && term.Some?
    ensures var s := Outcome(payment, balance, remainingMonths, earlyPayment, term).value;
      s.timeSaved == remainingMonths - term.value
      && s.interestSaved == Round(PaymentsDropped(payment, s.timeSaved, earlyPayment))
  {
    var n := term.value;
    Distribute(payment, remainingMonths as real, n as real);
    assert InterestSaved(payment, balance, remainingMonths, earlyPayment, n)
        == PaymentsDropped(payment, remainingMonths - n, earlyPayment);
  }

  /** `p * (m - n) == p * m - p * n`. */
  lemma Distribute(p: real, m: real, n: real)
    ensures p * (m - n) == p * m - p * n
  {
  }

  /** A payment that beats the interest on `principal` beats it on any smaller balance, by at
      least as much, at a non-negative rate. */
  lemma ExcessKept(payment: real, principal: real, b: real, r: real)
    requires r >= 0.0 && b <= principal
    ensures payment - b * r >= payment - principal * r
  {
    assert (principal - b) * r >= 0.0;
  }

  /** A lump sum that clears the balance saves the whole remaining term and all the interest
      still due, and leaves nothing to pay. */
  lemma PayoffSavesEverything(principal: real, annualRate: real, months: int, paidMonths: int,
                              earlyPayment: real)
    requires months >= 1 && annualRate >= 0.0
    requires BalanceAfterPaid(principal, annualRate, months, paidMonths) <= earlyPayment
    ensures var s := EarlyPaymentSavings(principal, annualRate, months, paidMonths, earlyPayment);
      s.Some? && s.value.timeSaved == months - paidMonths
      && s.value.newBalance == 0 && s.value.newMonthlyPayment == 0
      && s.value.totalSavings == s.value.interestSaved
      && s.value.interestSaved == Round(FixedMonthlyPayment(principal, annualRate, months) * (months - paidMonths) as real
                                        - BalanceAfterPaid(principal, annualRate, months, paidMonths))
  {
  }

  /** At a positive rate the source's logarithm solve and the least month count agree, so the
      result as written is the result modelled. */
  lemma AsWrittenAgreesAtPositiveRate(principal: real, annualRate: real, months: int, paidMonths: int,
                                      earlyPayment: real)
    requires months >= 1 && annualRate > 0.0
    ensures EarlyPaymentSavingsAsWritten(principal, annualRate, months, paidMonths, earlyPayment)
         == EarlyPaymentSavings(principal, annualRate, months, paidMonths, earlyPayment)
  {
  }

  /** At a zero rate the source as written has no finite result whenever the lump sum leaves
      part of the balance: 12000 over 12 months at 0% with 1000 paid early gives NaN, where
      the same payment of 1000 needs 11 more months and saves one. */
  lemma AsWrittenUndefinedAtZeroRate(principal: real, months: int, paidMonths: int, earlyPayment: real)
    requires months >= 1
    requires BalanceAfterPaid(principal, 0.0, months, paidMonths) - earlyPayment > 0.0
    ensures EarlyPaymentSavingsAsWritten(principal, 0.0, months, paidMonths, earlyPayment) == None
  {
  }

  /** The concrete case: a zero-rate loan of 12000 over 12 months, nothing paid yet and 1000
      paid early. As written the result is NaN; modelled, 11 months remain and one is saved,
      with no interest either way. */
  lemma ZeroRateExample()
    ensures EarlyPaymentSavingsAsWritten(12000.0, 0.0, 12, 0, 1000.0) == None
    ensures EarlyPaymentSavings(12000.0, 0.0, 12, 0, 1000.0) == Some(Savings(0, 1, 1000, 11000, 0))
  {
    var payment := FixedMonthlyPayment(12000.0, 0.0, 12);
    var balance := BalanceAfterPaid(12000.0, 0.0, 12, 0);
    assert payment == 1000.0;
    assert balance == 12000.0;
    assert MonthlyRate(0.0) == 0.0;
    assert balance - 1000.0 == 11000.0;
    ZeroRateTermIs(11000.0, 1000.0, 11);
    OneMonthSaved();
  }


  /** The outcome of the zero-rate example once its term of 11 months is known. */
  lemma OneMonthSaved()
    ensures Outcome(1000.0, 12000.0, 12, 1000.0, Some(11)) == Some(Savings(0, 1, 1000, 11000, 0))
  {
    assert InterestSaved(1000.0, 12000.0, 12, 1000.0, 11) == 0.0;
  }
}

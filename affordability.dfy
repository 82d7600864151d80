/** How much of a salary the loan payments take (calculateDebtRatio) and how large a loan a
    salary can carry (calculateBorrowingCapacity). */
module Affordability {
  import opened Numeric
  import opened Amortization

  /** `part` as a percentage of `whole`, computed as `(part / whole) * 100`. */
  function Percent(part: real, whole: real): real
    requires whole != 0.0
  {
    part / whole * 100.0
  }

  /** Shares of the same whole add up: the percentages of `a` and of `whole - a` make 100. */
  lemma PercentsOfWhole(a: real, whole: real)
    requires whole != 0.0
    ensures Percent(a, whole) + Percent(whole - a, whole) == 100.0
  {
    AddFraction(a, whole - a, whole);
    assert whole / whole == 1.0;
  }

  /** Percent recovers its part: `Percent(part, whole) * whole == part * 100`. */
  lemma PercentScales(part: real, whole: real)
    requires whole != 0.0
    ensures Percent(part, whole) * whole == part * 100.0
  {
    var q := part / whole;
    assert q * whole == part;
  }

  // ---------------------------------------------------------------------------
  // Debt ratio
  // ---------------------------------------------------------------------------

  /** How heavy the deductions from the salary are. */
  datatype DebtStatus = Safe | Acceptable | Warning | Danger

  /** Rank of a status, from the safest (0) to the most dangerous (3). */
  function Severity(s: DebtStatus): nat
  {
    match s
    case Safe => 0
    case Acceptable => 1
    case Warning => 2
    case Danger => 3
  }

  /** The threshold chain: up to 25% is safe, up to 33% acceptable, up to 40% a warning, above
      that dangerous. */
  function DebtStatusOf(debtRatio: real): DebtStatus
  {
    if debtRatio <= 25.0 then Safe
    else if debtRatio <= 33.0 then Acceptable
    else if debtRatio <= 40.0 then Warning
    else Danger
  }

  /** Each status covers exactly its band of ratios. */
  lemma DebtStatusBands(debtRatio: real)
    ensures DebtStatusOf(debtRatio) == Safe <==> debtRatio <= 25.0
    ensures DebtStatusOf(debtRatio) == Acceptable <==> 25.0 < debtRatio <= 33.0
    ensures DebtStatusOf(debtRatio) == Warning <==> 33.0 < debtRatio <= 40.0
    ensures DebtStatusOf(debtRatio) == Danger <==> 40.0 < debtRatio
  {
  }

  /** A larger ratio never yields a safer status. */
  lemma DebtStatusMonotone(x: real, y: real)
    requires x <= y
    ensures Severity(DebtStatusOf(x)) <= Severity(DebtStatusOf(y))
  {
  }

  /** The result of calculateDebtRatio, without its advisory message. */
  datatype DebtRatioResult = DebtRatioResult(
    totalCommitments: int,
    debtRatio: real,
    netSalary: int,
    netSalaryPercentage: real,
    status: DebtStatus)

  /** calculateDebtRatio: the loan payment and the other commitments as a share of the salary,
      what is left of the salary, and the status of the ratio. */
  function CalculateDebtRatio(salary: real, monthlyPayment: real, otherCommitments: real): (d: DebtRatioResult)
    requires salary != 0.0
    ensures d.debtRatio * salary == (monthlyPayment + otherCommitments) * 100.0
    ensures d.debtRatio + d.netSalaryPercentage == 100.0
    ensures salary - 1.0 < (d.totalCommitments + d.netSalary) as real <= salary + 1.0
    ensures d.status == DebtStatusOf(d.debtRatio)
  {
    PercentsOfWhole(monthlyPayment + otherCommitments, salary);
    PercentScales(monthlyPayment + otherCommitments, salary);
    DebtRatioResult(
      Round(monthlyPayment + otherCommitments),
      Percent(monthlyPayment + otherCommitments, salary),
      Round(salary - (monthlyPayment + otherCommitments)),
      Percent(salary - (monthlyPayment + otherCommitments), salary),
      DebtStatusOf(Percent(monthlyPayment + otherCommitments, salary)))
  }

  /** For a positive salary, a larger loan payment never makes the status safer. */
  lemma DebtRatioMonotone(salary: real, payment: real, largerPayment: real, otherCommitments: real)
    requires salary > 0.0 && payment <= largerPayment
    ensures Severity(CalculateDebtRatio(salary, payment, otherCommitments).status)
         <= Severity(CalculateDebtRatio(salary, largerPayment, otherCommitments).status)
  {
    var dx := CalculateDebtRatio(salary, payment, otherCommitments);
    var dy := CalculateDebtRatio(salary, largerPayment, otherCommitments);
    assert dx.debtRatio * salary == (payment + otherCommitments) * 100.0;
    assert dy.debtRatio * salary == (largerPayment + otherCommitments) * 100.0;
    RatioOrder(dx.debtRatio, payment + otherCommitments, dy.debtRatio, largerPayment + otherCommitments, salary);
    DebtStatusMonotone(dx.debtRatio, dy.debtRatio);
  }

  /** Ratios of ordered parts of the same positive whole are ordered. */
  lemma RatioOrder(x: real, a: real, y: real, b: real, whole: real)
    requires whole > 0.0 && x * whole == a * 100.0 && y * whole == b * 100.0 && a <= b
    ensures x <= y
  {
    CancelOrder(x, y, whole);
  }

  // ---------------------------------------------------------------------------
  // Borrowing capacity
  // ---------------------------------------------------------------------------

  /** How much room the salary leaves for a new loan. */
  datatype CapacityStatus = CannotBorrow | Excellent | Good | Limited

  /** The result of calculateBorrowingCapacity, without its advisory message. */
  datatype BorrowingCapacity = BorrowingCapacity(
    maxLoanAmount: int,
    monthlyPayment: int,
    debtRatio: real,
    status: CapacityStatus)

  /** The part of the salary the deduction limit leaves for a new payment. */
  function MaxMonthlyPayment(salary: real, maxDebtRatio: real, otherCommitments: real): real
  {
    salary * (maxDebtRatio / 100.0) - otherCommitments
  }

  /** The principal whose annuity payment over `months` months is `payment`: `payment * n` at a
      zero rate, otherwise the annuity formula solved for the principal,
      `payment * ((1 + r)^n - 1) / (r * (1 + r)^n)`. */
  function MaxLoanAmount(payment: real, annualRate: real, months: nat): real
    requires annualRate >= 0.0
  {
    if MonthlyRate(annualRate) == 0.0 then payment * months as real
    else PresentValue(payment, MonthlyRate(annualRate), Growth(annualRate, months))
  }

  /** Present value of `payment` a month at monthly rate `r` when the term's growth is `g`. */
  function PresentValue(payment: real, r: real, g: real): real
    requires r * g != 0.0
  {
    payment * (g - 1.0) / (r * g)
  }

  /** The capacity status of the ratio the new payment takes: up to 25% excellent, up to 33% good,
      above that limited. */
  function CapacityStatusOf(debtRatio: real): CapacityStatus
  {
    if debtRatio <= 25.0 then Excellent
    else if debtRatio <= 33.0 then Good
    else Limited
  }

  /** calculateBorrowingCapacity over a term of `years` years, `years * 12` of them months.
      When the limit leaves no room the result is all zeros; otherwise the payment is the
      room left and the loan is the principal that payment retires over the term. */
  function CalculateBorrowingCapacity(salary: real, annualRate: real, years: real,
                                      otherCommitments: real, maxDebtRatio: real): (c: BorrowingCapacity)
    requires annualRate >= 0.0
    requires MaxMonthlyPayment(salary, maxDebtRatio, otherCommitments) > 0.0 ==>
      salary != 0.0 && years >= 0.0 && (years * 12.0).Floor as real == years * 12.0
    ensures c.status == CannotBorrow <==> MaxMonthlyPayment(salary, maxDebtRatio, otherCommitments) <= 0.0
    ensures c.status == CannotBorrow ==> c.maxLoanAmount == 0 && c.monthlyPayment == 0 && c.debtRatio == 0.0
    ensures c.status != CannotBorrow ==>
      c.monthlyPayment == Round(MaxMonthlyPayment(salary, maxDebtRatio, otherCommitments))
      && c.maxLoanAmount == Round(MaxLoanAmount(MaxMonthlyPayment(salary, maxDebtRatio, otherCommitments),
                                                annualRate, (years * 12.0).Floor))
      && c.debtRatio * salary == MaxMonthlyPayment(salary, maxDebtRatio, otherCommitments) * 100.0
      && c.status == CapacityStatusOf(c.debtRatio)
  {
    if MaxMonthlyPayment(salary, maxDebtRatio, otherCommitments) <= 0.0 then
      BorrowingCapacity(0, 0, 0.0, CannotBorrow)
    else
      PercentScales(MaxMonthlyPayment(salary, maxDebtRatio, otherCommitments), salary);
      BorrowingCapacity(
        Round(MaxLoanAmount(MaxMonthlyPayment(salary, maxDebtRatio, otherCommitments), annualRate, (years * 12.0).Floor)),
        Round(MaxMonthlyPayment(salary, maxDebtRatio, otherCommitments)),
        Percent(MaxMonthlyPayment(salary, maxDebtRatio, otherCommitments), salary),
        CapacityStatusOf(Percent(MaxMonthlyPayment(salary, maxDebtRatio, otherCommitments), salary)))
  }

  /** With no room left the source answers before it divides by the salary or raises to a
      power: no salary and 500 of commitments cannot borrow, over any term. */
  lemma CannotBorrowWithoutRoom()
    ensures CalculateBorrowingCapacity(0.0, 5.0, 0.1, 500.0, 33.0) == BorrowingCapacity(0, 0, 0.0, CannotBorrow)
  {
  }

  /** The loan amount is the exact inverse of the annuity payment: a loan of MaxLoanAmount
      taken over the same months at the same rate costs exactly `payment` a month, at a zero
      and at a positive rate alike. */
  lemma MaxLoanRoundTrip(payment: real, annualRate: real, months: int)
    requires months >= 1 && annualRate >= 0.0
    ensures FixedMonthlyPayment(MaxLoanAmount(payment, annualRate, months), annualRate, months) == payment
  {
    if annualRate != 0.0 {
      var r := MonthlyRate(annualRate);
      var g := Growth(annualRate, months);
      assert g > 1.0;
      PresentValueRoundTrip(payment, r, g);
    }
  }

  /** The converse round trip: the largest loan a loan's own annuity payment allows, over the
      same months at the same rate, is that loan. */
  lemma MaxLoanOfPayment(principal: real, annualRate: real, months: int)
    requires months >= 1 && annualRate >= 0.0
    ensures MaxLoanAmount(FixedMonthlyPayment(principal, annualRate, months), annualRate, months) == principal
  {
    if annualRate == 0.0 {
      FixedPaymentZeroRate(principal, months);
    } else {
      var r := MonthlyRate(annualRate);
      var g := Growth(annualRate, months);
      assert g > 1.0;
      PaymentRoundTrip(principal, r, g);
    }
  }

  /** The present value of a loan's annuity payment is the loan. */
  lemma PaymentRoundTrip(principal: real, r: real, g: real)
    requires r > 0.0 && g > 1.0
    ensures PresentValue(AnnuityPayment(principal, r, g), r, g) == principal
  {
    var p := AnnuityPayment(principal, r, g);
    assert p * (g - 1.0) == principal * (r * g);
    var loan := PresentValue(p, r, g);
    assert loan * (r * g) == p * (g - 1.0);
    Cancel(loan, principal, r * g);
  }

  /** The present value and the annuity payment undo each other. */
  lemma PresentValueRoundTrip(payment: real, r: real, g: real)
    requires r > 0.0 && g > 1.0
    ensures AnnuityPayment(PresentValue(payment, r, g), r, g) == payment
  {
    var loan := PresentValue(payment, r, g);
    assert loan * (r * g) == payment * (g - 1.0);
    var p := AnnuityPayment(loan, r, g);
    assert p * (g - 1.0) == loan * (r * g);
    Cancel(p, payment, g - 1.0);
  }

  /** A payment that the room allows never reaches a loan of negative size. */
  lemma MaxLoanNonNegative(payment: real, annualRate: real, months: nat)
    requires annualRate >= 0.0 && payment >= 0.0
    ensures MaxLoanAmount(payment, annualRate, months) >= 0.0
  {
    if MonthlyRate(annualRate) != 0.0 {
      var r := MonthlyRate(annualRate);
      var g := Growth(annualRate, months);
      assert g >= 1.0;
      assert payment * (g - 1.0) >= 0.0;
      NonNegativeFraction(payment * (g - 1.0), r * g);
    }
  }

  /** The room plus the other commitments, as a percentage times the salary, is the limit
      times the salary. */
  lemma LimitShare(salary: real, maxDebtRatio: real, otherCommitments: real)
    ensures (MaxMonthlyPayment(salary, maxDebtRatio, otherCommitments) + otherCommitments) * 100.0
         == maxDebtRatio * salary
  {
    var q := maxDebtRatio / 100.0;
    assert q * 100.0 == maxDebtRatio;
    assert salary * q * 100.0 == salary * (q * 100.0);
  }

  /** Paying the room the limit leaves, on top of the other commitments, takes exactly the
      limit: the debt ratio calculateDebtRatio reports for that payment is `maxDebtRatio`. */
  lemma CapacityMeetsLimit(salary: real, otherCommitments: real, maxDebtRatio: real)
    requires salary != 0.0
    ensures CalculateDebtRatio(salary, MaxMonthlyPayment(salary, maxDebtRatio, otherCommitments),
                               otherCommitments).debtRatio == maxDebtRatio
  {
    var d := CalculateDebtRatio(salary, MaxMonthlyPayment(salary, maxDebtRatio, otherCommitments), otherCommitments);
    LimitRatio(d.debtRatio, salary, maxDebtRatio, otherCommitments);
  }

  /** A ratio whose share of the salary is the room plus the other commitments is the limit. */
  lemma LimitRatio(ratio: real, salary: real, maxDebtRatio: real, otherCommitments: real)
    requires salary != 0.0
    requires ratio * salary == (MaxMonthlyPayment(salary, maxDebtRatio, otherCommitments) + otherCommitments) * 100.0
    ensures ratio == maxDebtRatio
  {
    LimitShare(salary, maxDebtRatio, otherCommitments);
    Cancel(ratio, maxDebtRatio, salary);
  }

  /** Under a limit of at most 33% and with no negative commitments, a borrower who can borrow
      is never limited, and the loan on offer is never negative. */
  lemma CapacityUnderDefaultLimit(salary: real, annualRate: real, years: real,
                                  otherCommitments: real, maxDebtRatio: real)
    requires salary > 0.0 && annualRate >= 0.0 && years >= 0.0
    requires (years * 12.0).Floor as real == years * 12.0
    requires otherCommitments >= 0.0 && maxDebtRatio <= 33.0
    ensures CalculateBorrowingCapacity(salary, annualRate, years, otherCommitments, maxDebtRatio).status != Limited
    ensures CalculateBorrowingCapacity(salary, annualRate, years, otherCommitments, maxDebtRatio).maxLoanAmount >= 0
  {
    var room := MaxMonthlyPayment(salary, maxDebtRatio, otherCommitments);
    var c := CalculateBorrowingCapacity(salary, annualRate, years, otherCommitments, maxDebtRatio);
    if room > 0.0 {
      RatioWithinDefault(salary, maxDebtRatio, otherCommitments, c.debtRatio);
      MaxLoanNonNegative(room, annualRate, (years * 12.0).Floor);
    }
  }

  /** The share of the salary that the room takes is at most 33% under a limit of at most 33%
      with no negative commitments. */
  lemma RatioWithinDefault(salary: real, maxDebtRatio: real, otherCommitments: real, ratio: real)
    requires salary > 0.0 && otherCommitments >= 0.0 && maxDebtRatio <= 33.0
    requires ratio * salary == MaxMonthlyPayment(salary, maxDebtRatio, otherCommitments) * 100.0
    ensures ratio <= 33.0
  {
    LimitShare(salary, maxDebtRatio, otherCommitments);
    RatioOrder(ratio, MaxMonthlyPayment(salary, maxDebtRatio, otherCommitments), 33.0, 33.0 * salary / 100.0, salary);
  }
}

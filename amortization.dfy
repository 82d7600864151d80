/** Monthly payments, balances and loan totals for the two interest conventions of
    calculator.js: the annuity (`fixed`) and the declining balance (`reducing`). */
module Amortization {
  import opened Numeric
  import opened Wrappers

  /** How interest accrues: an annuity with a constant total payment, or a constant
      principal share with interest on the declining balance. */
  datatype InterestType = Fixed | Reducing

  /** The loan routines compare the type name with 'reducing' only; any other name,
      including the default 'fixed', selects the annuity. */
  function InterestTypeOf(name: string): (t: InterestType)
    ensures t == Reducing <==> name == "reducing"
  {
    if name == "reducing" then Reducing else Fixed
  }

  /** The monthly rate as a fraction, from an annual percentage. */
  function MonthlyRate(annualRate: real): (r: real)
    ensures r * 1200.0 == annualRate
  {
    annualRate / 100.0 / 12.0
  }

  // ---------------------------------------------------------------------------
  // Annuity
  // ---------------------------------------------------------------------------

  /** The constant payment that retires `principal` in `months` months:
      `P * r * (1 + r)^n / ((1 + r)^n - 1)`, or `P / n` at a zero rate. */
  function FixedMonthlyPayment(principal: real, annualRate: real, months: int): real
    requires months >= 1 && annualRate >= 0.0
  {
    if annualRate == 0.0 then principal / months as real
    else AnnuityPayment(principal, MonthlyRate(annualRate), Growth(annualRate, months))
  }

  /** How much one unit grows in `k` months at the monthly rate: `(1 + r)^k`. */
  function Growth(annualRate: real, k: nat): real
  {
    Pow(1.0 + MonthlyRate(annualRate), k)
  }

  /** The share of `principal` still owed when growth `gk` of the term's growth `g` has elapsed. */
  function UnpaidShare(principal: real, g: real, gk: real): real
    requires g != 1.0
  {
    principal * (g - gk) / (g - 1.0)
  }

  /** The annuity formula for monthly rate `r` and growth `g = (1 + r)^n` over the term. */
  function AnnuityPayment(principal: real, r: real, g: real): real
    requires g != 1.0
  {
    principal * (r * g) / (g - 1.0)
  }

  /** At a zero rate the annuity payment is the principal shared equally over the months. */
  lemma FixedPaymentZeroRate(principal: real, months: int)
    requires months >= 1
    ensures FixedMonthlyPayment(principal, 0.0, months) * months as real == principal
  {
  }

  /** Balance of an annuity after `k` months: each month charges `balance * r` of
      interest and the rest of `payment` retires principal. */
  function FixedBalance(principal: real, r: real, payment: real, k: nat): real
  {
    if k == 0 then principal
    else AnnuityStep(FixedBalance(principal, r, payment, k - 1), r, payment)
  }

  /** One month of an annuity: `payment - balance * r` of the payment retires principal. */
  function AnnuityStep(balance: real, r: real, payment: real): real
  {
    balance - (payment - balance * r)
  }

  /** The balance of the source's annuity schedule after `k` months. */
  function AnnuityBalance(principal: real, annualRate: real, months: int, k: nat): real
    requires months >= 1 && annualRate >= 0.0
  {
    FixedBalance(principal, MonthlyRate(annualRate), FixedMonthlyPayment(principal, annualRate, months), k)
  }

  /** One month of the annuity keeps `b * r == payment - g * (payment - principal * r)`
      with `g` multiplied by `1 + r`. */
  lemma ClosedFormStep(b: real, r: real, payment: real, g: real, d: real)
    requires b * r == payment - g * d
    ensures AnnuityStep(b, r, payment) * r == payment - ((1.0 + r) * g) * d
  {
    calc {
      AnnuityStep(b, r, payment) * r;
      (b - (payment - b * r)) * r;
      (1.0 + r) * (b * r) - payment * r;
      (1.0 + r) * (payment - g * d) - payment * r;
      payment - ((1.0 + r) * g) * d;
    }
  }

  /** Closed form of the annuity balance: `B_k * r == payment - (1 + r)^k * (payment - P * r)`. */
  lemma {:induction false} FixedBalanceClosedForm(principal: real, r: real, payment: real, k: nat)
    ensures FixedBalance(principal, r, payment, k) * r
         == payment - Pow(1.0 + r, k) * (payment - principal * r)
  {
    if k > 0 {
      var b, g := FixedBalance(principal, r, payment, k - 1), Pow(1.0 + r, k - 1);
      FixedBalanceClosedForm(principal, r, payment, k - 1);
      ClosedFormStep(b, r, payment, g, payment - principal * r);
      assert FixedBalance(principal, r, payment, k) == AnnuityStep(b, r, payment);
      assert Pow(1.0 + r, k) == (1.0 + r) * g;
    }
  }

  /** Without interest each month retires exactly one payment. */
  lemma {:induction false} FixedBalanceZeroRate(principal: real, payment: real, k: nat)
    ensures FixedBalance(principal, 0.0, payment, k) == principal - k as real * payment
  {
    if k > 0 {
      FixedBalanceZeroRate(principal, payment, k - 1);
    }
  }

  /** Solving the closed form for the balance when the payment is the annuity payment
      for growth `g = (1 + r)^n`: `B_k == P * (g - g_k) / (g - 1)`. */
  lemma AnnuityBalanceSolve(principal: real, r: real, g: real, gk: real, payment: real, b: real)
    requires r > 0.0 && g > 1.0
    requires payment == AnnuityPayment(principal, r, g)
    requires b * r == payment - gk * (payment - principal * r)
    ensures b == UnpaidShare(principal, g, gk)
  {
    var d := g - 1.0;
    assert payment * d == principal * r * g;
    assert (payment - principal * r) * d == principal * r;
    assert b * r * d == payment * d - gk * ((payment - principal * r) * d);
    assert b * r * d == r * (principal * (g - gk));
    assert b * d == principal * (g - gk);
  }

  /** At a zero rate the balance after `k` of `n` months is the unpaid share of the principal. */
  lemma ZeroRateShare(principal: real, n: real, k: real)
    requires n > 0.0
    ensures principal - k * (principal / n) == principal * (n - k) / n
  {
    ScaleFraction(principal, k, n);
    ScaleFraction(principal, n - k, n);
    assert (n - k) * (principal / n) == (n - k) * principal / n;
    assert n * (principal / n) == principal;
  }

  /** At a zero rate the annuity schedule's balance after `k` months is the unpaid share of the principal. */
  lemma AnnuityBalanceZeroRate(principal: real, months: int, k: nat)
    requires months >= 1
    ensures AnnuityBalance(principal, 0.0, months, k) == principal * (months - k) as real / months as real
  {
    var payment := FixedMonthlyPayment(principal, 0.0, months);
    assert MonthlyRate(0.0) == 0.0;
    FixedBalanceZeroRate(principal, payment, k);
    ZeroRateShare(principal, months as real, k as real);
  }

  /** At a positive rate the annuity schedule's balance after `k` months is the unpaid share
      `P * (g - g_k) / (g - 1)`, with `g_k` the growth over `k` months and `g` over the term. */
  lemma AnnuityBalancePositiveRate(principal: real, annualRate: real, months: int, k: nat)
    requires months >= 1 && annualRate > 0.0
    ensures Growth(annualRate, months) > 1.0
    ensures AnnuityBalance(principal, annualRate, months, k)
         == UnpaidShare(principal, Growth(annualRate, months), Growth(annualRate, k))
  {
    var r := MonthlyRate(annualRate);
    var payment := FixedMonthlyPayment(principal, annualRate, months);
    FixedBalanceClosedForm(principal, r, payment, k);
    AnnuityBalanceSolve(principal, r, Growth(annualRate, months), Growth(annualRate, k), payment,
                        FixedBalance(principal, r, payment, k));
  }

  /** After all its months the annuity schedule has retired the loan exactly. */
  lemma AnnuityRetiresLoan(principal: real, annualRate: real, months: int)
    requires months >= 1 && annualRate >= 0.0
    ensures AnnuityBalance(principal, annualRate, months, months) == 0.0
  {
    if annualRate == 0.0 {
      AnnuityBalanceZeroRate(principal, months, months);
    } else {
      AnnuityBalancePositiveRate(principal, annualRate, months, months);
      var g := Growth(annualRate, months);
      assert principal * (g - g) == 0.0;
      NonNegativeFraction(0.0, g - 1.0);
    }
  }

  /** `P * (g - gk) / (g - 1)` lies between 0 and `P` when `1 <= gk <= g`, and is positive when `gk < g`. */
  lemma ShareBounds(principal: real, g: real, gk: real)
    requires principal >= 0.0 && 1.0 <= gk <= g && g > 1.0
    ensures 0.0 <= UnpaidShare(principal, g, gk) <= principal
    ensures principal > 0.0 && gk < g ==> UnpaidShare(principal, g, gk) > 0.0
  {
    var s := (g - gk) / (g - 1.0);
    FractionBounds(g - gk, g - 1.0);
    ScaleFraction(g - gk, principal, g - 1.0);
    ScaleBounded(principal, s);
    assert principal * s == principal * (g - gk) / (g - 1.0);
  }

  /** A non-negative loan's annuity balance never leaves `[0, principal]` during its term,
      and stays positive until the last month. */
  lemma AnnuityBalanceBounds(principal: real, annualRate: real, months: int, k: nat)
    requires months >= 1 && annualRate >= 0.0 && principal >= 0.0 && k <= months
    ensures 0.0 <= AnnuityBalance(principal, annualRate, months, k) <= principal
    ensures principal > 0.0 && k < months ==> AnnuityBalance(principal, annualRate, months, k) > 0.0
  {
    if annualRate == 0.0 {
      AnnuityBalanceZeroRate(principal, months, k);
      var n, left := months as real, (months - k) as real;
      FractionBounds(left, n);
      ScaleFraction(left, principal, n);
      ScaleBounded(principal, left / n);
    } else {
      AnnuityBalancePositiveRate(principal, annualRate, months, k);
      PowMonotone(1.0 + MonthlyRate(annualRate), k, months);
      ShareBounds(principal, Growth(annualRate, months), Growth(annualRate, k));
    }
  }

  /** The annuity payment for growth `g` exceeds the interest on the principal. */
  lemma AnnuityAboveInterest(principal: real, r: real, g: real)
    requires principal > 0.0 && r > 0.0 && g > 1.0
    ensures AnnuityPayment(principal, r, g) > principal * r
  {
    var d := g - 1.0;
    var q := principal * (r * g) / d;
    assert q * d == principal * r * g;
    assert principal * r * g == principal * r * d + principal * r;
    assert (q - principal * r) * d == principal * r;
    assert principal * r > 0.0;
  }

  /** The annuity payment exceeds the interest on the whole principal. */
  lemma FixedPaymentExceedsInterest(principal: real, annualRate: real, months: int)
    requires months >= 1 && annualRate >= 0.0 && principal > 0.0
    ensures FixedMonthlyPayment(principal, annualRate, months) > principal * MonthlyRate(annualRate)
  {
    if annualRate > 0.0 {
      var r := MonthlyRate(annualRate);
      AnnuityAboveInterest(principal, r, Growth(annualRate, months));
    } else {
      assert principal / months as real > 0.0;
    }
  }

  /** Total interest of an annuity: everything paid beyond the principal. */
  function TotalInterestFixed(monthlyPayment: real, months: int, principal: real): real
  {
    monthlyPayment * months as real - principal
  }

  /** Interest charged over the first `k` months of an annuity, before rounding: the sum of
      the interest column of its schedule. */
  function FixedInterestPaid(principal: real, r: real, payment: real, k: nat): real
  {
    if k == 0 then 0.0
    else FixedInterestPaid(principal, r, payment, k - 1) + FixedBalance(principal, r, payment, k - 1) * r
  }

  /** Every month's payment is interest plus retired principal, so after `k` months the
      interest paid is the payments less the principal retired. */
  lemma {:induction false} FixedInterestPaidBalance(principal: real, r: real, payment: real, k: nat)
    ensures FixedInterestPaid(principal, r, payment, k)
         == k as real * payment - (principal - FixedBalance(principal, r, payment, k))
  {
    if k > 0 {
      FixedInterestPaidBalance(principal, r, payment, k - 1);
    }
  }

  /** The interest charged month by month on a non-negative annuity loan never decreases the total. */
  lemma {:induction false} AnnuityInterestNonNegative(principal: real, annualRate: real, months: int, k: nat)
    requires months >= 1 && annualRate >= 0.0 && principal >= 0.0 && k <= months
    ensures FixedInterestPaid(principal, MonthlyRate(annualRate), FixedMonthlyPayment(principal, annualRate, months), k) >= 0.0
  {
    if k > 0 {
      AnnuityInterestNonNegative(principal, annualRate, months, k - 1);
      AnnuityBalanceBounds(principal, annualRate, months, k - 1);
      var b := AnnuityBalance(principal, annualRate, months, k - 1);
      assert b * MonthlyRate(annualRate) >= 0.0;
    }
  }

  /** `payment * months - principal` is exactly the interest column of the annuity schedule,
      summed before rounding; it is never negative for a non-negative loan. */
  lemma TotalInterestFixedIsScheduleInterest(principal: real, annualRate: real, months: int)
    requires months >= 1 && annualRate >= 0.0
    ensures var payment := FixedMonthlyPayment(principal, annualRate, months);
      TotalInterestFixed(payment, months, principal)
        == FixedInterestPaid(principal, MonthlyRate(annualRate), payment, months)
    ensures principal >= 0.0 ==>
      TotalInterestFixed(FixedMonthlyPayment(principal, annualRate, months), months, principal) >= 0.0
  {
    var payment := FixedMonthlyPayment(principal, annualRate, months);
    FixedInterestPaidBalance(principal, MonthlyRate(annualRate), payment, months);
    AnnuityRetiresLoan(principal, annualRate, months);
    if principal >= 0.0 {
      AnnuityInterestNonNegative(principal, annualRate, months, months);
    }
  }

  // ---------------------------------------------------------------------------
  // Declining balance
  // ---------------------------------------------------------------------------

  /** First, last and mean monthly payment of a declining-balance loan. */
  datatype ReducingPayments = ReducingPayments(firstPayment: real, lastPayment: real, averagePayment: real)

  /** Balance of a declining-balance loan after `k` months, each retiring `monthlyPrincipal`. */
  function ReducingBalance(principal: real, monthlyPrincipal: real, k: nat): real
  {
    if k == 0 then principal else ReducingBalance(principal, monthlyPrincipal, k - 1) - monthlyPrincipal
  }

  /** The balance declines linearly: `k` months take off `k` shares. */
  lemma {:induction false} ReducingBalanceClosedForm(principal: real, monthlyPrincipal: real, k: nat)
    ensures ReducingBalance(principal, monthlyPrincipal, k) == principal - k as real * monthlyPrincipal
  {
    if k > 0 {
      ReducingBalanceClosedForm(principal, monthlyPrincipal, k - 1);
    }
  }

  /** Payment due in month `m` (from 1) of a declining-balance loan: the principal share
      plus interest on the balance left before that month. */
  function ReducingPaymentAt(principal: real, annualRate: real, months: int, m: nat): real
    requires months >= 1 && m >= 1
  {
    principal / months as real
      + ReducingBalance(principal, principal / months as real, m - 1) * MonthlyRate(annualRate)
  }

  /** First payment is the share plus interest on the principal, last payment the share
      plus interest on one share; the average is their midpoint. */
  function ReducingMonthlyPayment(principal: real, annualRate: real, months: int): ReducingPayments
    requires months >= 1
  {
    PaymentRange(principal / months as real + principal * MonthlyRate(annualRate),
                 principal / months as real + principal / months as real * MonthlyRate(annualRate))
  }

  /** A first and a last payment with their midpoint. */
  function PaymentRange(firstPayment: real, lastPayment: real): ReducingPayments
  {
    ReducingPayments(firstPayment, lastPayment, (firstPayment + lastPayment) / 2.0)
  }

  /** The summary's first and last payments are the first and last months of the schedule;
      for a non-negative loan at a non-negative rate the payments fall month by month, so
      first >= average >= last. */
  lemma ReducingPaymentsBracket(principal: real, annualRate: real, months: int)
    requires months >= 1
    ensures var p := ReducingMonthlyPayment(principal, annualRate, months);
      p.firstPayment == ReducingPaymentAt(principal, annualRate, months, 1)
      && p.lastPayment == ReducingPaymentAt(principal, annualRate, months, months)
      && p.averagePayment * 2.0 == p.firstPayment + p.lastPayment
    ensures principal >= 0.0 && annualRate >= 0.0 ==>
      var p := ReducingMonthlyPayment(principal, annualRate, months);
      p.firstPayment >= p.averagePayment >= p.lastPayment
  {
    var monthlyPrincipal := principal / months as real;
    ReducingBalanceClosedForm(principal, monthlyPrincipal, months - 1);
    assert ReducingBalance(principal, monthlyPrincipal, months - 1) == monthlyPrincipal by {
      assert (months - 1) as real * monthlyPrincipal == principal - monthlyPrincipal;
    }
    if principal >= 0.0 && annualRate >= 0.0 {
      assert monthlyPrincipal <= principal;
      assert monthlyPrincipal * MonthlyRate(annualRate) <= principal * MonthlyRate(annualRate);
    }
  }

  /** Payments of a declining-balance loan never rise from one month to the next. */
  lemma ReducingPaymentsFall(principal: real, annualRate: real, months: int, m: nat)
    requires months >= 1 && 1 <= m
    requires principal >= 0.0 && annualRate >= 0.0
    ensures ReducingPaymentAt(principal, annualRate, months, m + 1)
         <= ReducingPaymentAt(principal, annualRate, months, m)
  {
    var monthlyPrincipal := principal / months as real;
    var r := MonthlyRate(annualRate);
    assert ReducingBalance(principal, monthlyPrincipal, m) * r
        == ReducingBalance(principal, monthlyPrincipal, m - 1) * r - monthlyPrincipal * r;
  }

  /** Interest charged over the first `k` months of a declining-balance loan. */
  function ReducingInterestPaid(principal: real, r: real, monthlyPrincipal: real, k: nat): real
  {
    if k == 0 then 0.0
    else ReducingInterestPaid(principal, r, monthlyPrincipal, k - 1)
         + ReducingBalance(principal, monthlyPrincipal, k - 1) * r
  }

  /** Total interest of a declining-balance loan: interest walked over every month's balance.
      With no months the loop never runs and the total is zero. */
  function ReducingTotalInterest(principal: real, annualRate: real, months: int): real
  {
    if months < 1 then 0.0
    else ReducingInterestPaid(principal, MonthlyRate(annualRate), principal / months as real, months)
  }

  /** The interest on a linearly declining balance is an arithmetic series. */
  lemma {:induction false} ReducingInterestSeries(principal: real, r: real, monthlyPrincipal: real, k: nat)
    ensures ReducingInterestPaid(principal, r, monthlyPrincipal, k)
         == r * (k as real * principal - monthlyPrincipal * (k as real * (k as real - 1.0) / 2.0))
  {
    if k > 0 {
      ReducingInterestSeries(principal, r, monthlyPrincipal, k - 1);
      ReducingBalanceClosedForm(principal, monthlyPrincipal, k - 1);
      var j := (k - 1) as real;
      assert (j + 1.0) * j / 2.0 == j * (j - 1.0) / 2.0 + j;
      calc {
        ReducingInterestPaid(principal, r, monthlyPrincipal, k);
        r * (j * principal - monthlyPrincipal * (j * (j - 1.0) / 2.0))
          + (principal - j * monthlyPrincipal) * r;
        r * ((j + 1.0) * principal - monthlyPrincipal * (j * (j - 1.0) / 2.0 + j));
        r * ((j + 1.0) * principal - monthlyPrincipal * ((j + 1.0) * j / 2.0));
      }
    }
  }

  /** The walked total equals the closed form `r * P * (n + 1) / 2`; it vanishes at a zero
      rate and is never negative for a non-negative loan at a non-negative rate. */
  lemma ReducingTotalInterestClosedForm(principal: real, annualRate: real, months: int)
    requires months >= 1
    ensures ReducingTotalInterest(principal, annualRate, months)
         == MonthlyRate(annualRate) * principal * (months + 1) as real / 2.0
    ensures annualRate == 0.0 ==> ReducingTotalInterest(principal, annualRate, months) == 0.0
    ensures principal >= 0.0 && annualRate >= 0.0 ==> ReducingTotalInterest(principal, annualRate, months) >= 0.0
  {
    var n := months as real;
    var mp := principal / n;
    var r := MonthlyRate(annualRate);
    ReducingInterestSeries(principal, r, mp, months);
    assert mp * (n * (n - 1.0) / 2.0) == principal * (n - 1.0) / 2.0;
    assert n * principal - principal * (n - 1.0) / 2.0 == principal * (n + 1.0) / 2.0;
    if principal >= 0.0 && annualRate >= 0.0 {
      assert r * principal >= 0.0;
    }
  }

  /** The loop of calculateTotalInterestReducing: interest accumulates on the balance,
      which drops by one principal share per month. */
  method TotalInterestReducing(principal: real, annualRate: real, months: int) returns (totalInterest: real)
    ensures totalInterest == ReducingTotalInterest(principal, annualRate, months)
  {
    var monthlyRate := MonthlyRate(annualRate);
    // With no months the share is never used; the source's division by zero never reaches the result.
    var monthlyPrincipal := if months >= 1 then principal / months as real else 0.0;
    totalInterest := 0.0;
    var remainingBalance := principal;
    var i := 0;
    while i < months
      invariant 0 <= i <= (if months < 0 then 0 else months)
      invariant remainingBalance == ReducingBalance(principal, monthlyPrincipal, i)
      invariant totalInterest == ReducingInterestPaid(principal, monthlyRate, monthlyPrincipal, i)
    {
      var interestForMonth := remainingBalance * monthlyRate;
      totalInterest := totalInterest + interestForMonth;
      remainingBalance := remainingBalance - monthlyPrincipal;
      i := i + 1;
    }
  }

  // ---------------------------------------------------------------------------
  // Loan summary
  // ---------------------------------------------------------------------------

  /** The summary's figures before rounding. */
  datatype LoanTotals = LoanTotals(monthlyPayment: real, totalInterest: real, totalAmount: real)

  /** Monthly payment, total interest and total amount of a loan of `months` months, by interest type. */
  function Totals(principal: real, annualRate: real, months: int, interestType: InterestType): LoanTotals
    requires months >= 1 && annualRate >= 0.0
  {
    match interestType
    case Reducing =>
      WithInterest(principal, ReducingMonthlyPayment(principal, annualRate, months).averagePayment,
                   ReducingTotalInterest(principal, annualRate, months))
    case Fixed =>
      WithInterest(principal, FixedMonthlyPayment(principal, annualRate, months),
                   TotalInterestFixed(FixedMonthlyPayment(principal, annualRate, months), months, principal))
  }

  /** A payment and a total interest, with the total amount `principal + totalInterest`. */
  function WithInterest(principal: real, monthlyPayment: real, totalInterest: real): LoanTotals
  {
    LoanTotals(monthlyPayment, totalInterest, principal + totalInterest)
  }

  /** For either interest type the reported monthly payment, paid every month, adds up to the
      total amount; the interest is never negative and vanishes at a zero rate. */
  lemma TotalsAgree(principal: real, annualRate: real, months: int, interestType: InterestType)
    requires months >= 1 && annualRate >= 0.0 && principal >= 0.0
    ensures var t := Totals(principal, annualRate, months, interestType);
      t.totalAmount == principal + t.totalInterest
      && t.totalAmount == t.monthlyPayment * months as real
      && t.totalInterest >= 0.0
      && (annualRate == 0.0 ==> t.totalInterest == 0.0)
  {
    match interestType
    case Reducing =>
      ReducingTotalInterestClosedForm(principal, annualRate, months);
      ReducingAverageCoversTotal(principal, annualRate, months);
    case Fixed =>
      FixedInterestFacts(principal, annualRate, months);
  }

  /** The annuity's total interest is never negative for a non-negative loan and vanishes at a zero rate. */
  lemma FixedInterestFacts(principal: real, annualRate: real, months: int)
    requires months >= 1 && annualRate >= 0.0 && principal >= 0.0
    ensures TotalInterestFixed(FixedMonthlyPayment(principal, annualRate, months), months, principal) >= 0.0
    ensures annualRate == 0.0 ==>
      TotalInterestFixed(FixedMonthlyPayment(principal, annualRate, months), months, principal) == 0.0
  {
    TotalInterestFixedIsScheduleInterest(principal, annualRate, months);
    if annualRate == 0.0 {
      FixedPaymentZeroRate(principal, months);
    }
  }

  /** Although a declining-balance loan's payments vary, paying their average every month
      adds up to exactly the principal plus the walked total interest. */
  lemma ReducingAverageCoversTotal(principal: real, annualRate: real, months: int)
    requires months >= 1
    ensures ReducingMonthlyPayment(principal, annualRate, months).averagePayment * months as real
         == principal + ReducingTotalInterest(principal, annualRate, months)
  {
    ReducingTotalInterestClosedForm(principal, annualRate, months);
    var n := months as real;
    var r := MonthlyRate(annualRate);
    var mp := principal / n;
    assert mp * n == principal;
    AverageTimesTerm(principal, r, mp, n);
  }

  /** `(mp + (P r + mp r) / 2) * n == P + r P (n + 1) / 2` when `mp * n == P`. */
  lemma AverageTimesTerm(principal: real, r: real, mp: real, n: real)
    requires mp * n == principal
    ensures ((mp + principal * r) + (mp + mp * r)) / 2.0 * n == principal + r * principal * (n + 1.0) / 2.0
  {
    calc {
      ((mp + principal * r) + (mp + mp * r)) / 2.0 * n;
      mp * n + (principal * r * n + (mp * n) * r) / 2.0;
      principal + (principal * r * n + principal * r) / 2.0;
      principal + r * principal * (n + 1.0) / 2.0;
    }
  }

  /** What calculateLoan returns: rounded currency figures, unrounded percentages, the
      month count, the interest type and, for a declining-balance loan, its payment range. */
  datatype LoanSummary = LoanSummary(
    monthlyPayment: int,
    totalInterest: int,
    totalAmount: int,
    interestPercentage: real,
    monthlyPaymentPercentage: real,
    months: int,
    interestType: InterestType,
    paymentDetails: Option<ReducingPayments>)

  /** Percentages of a total split as principal plus interest, in the summary's terms. */
  lemma PercentagesAddUp(principal: real, payment: real, n: real, interest: real)
    requires principal > 0.0 && payment * n == principal + interest
    ensures payment / principal * 100.0 * n == 100.0 + interest / principal * 100.0
  {
    ScaleFraction(payment, n, principal);
    assert n * payment == principal + interest;
    AddFraction(principal, interest, principal);
    assert principal / principal == 1.0;
    assert n * (payment / principal) == 1.0 + interest / principal;
  }

  /** A loan over `years` years, rounded to whole months. Paying the monthly-payment share of
      the principal every month adds up to the principal plus the interest share, for both
      interest types; the interest share is never negative and is zero at a zero rate. */
  function CalculateLoan(principal: real, annualRate: real, years: real, interestType: InterestType): (s: LoanSummary)
    requires principal > 0.0 && annualRate >= 0.0 && Round(years * 12.0) >= 1
    ensures s.months == Round(years * 12.0) && s.interestType == interestType
    ensures s.paymentDetails.Some? <==> interestType == Reducing
    ensures s.monthlyPaymentPercentage * s.months as real == 100.0 + s.interestPercentage
    ensures s.interestPercentage >= 0.0
    ensures annualRate == 0.0 ==> s.interestPercentage == 0.0 && s.totalInterest == 0
  {
    LoanOverMonths(principal, annualRate, Round(years * 12.0), interestType)
  }

  /** The summary of a loan of a whole number of months. */
  function LoanOverMonths(principal: real, annualRate: real, months: int, interestType: InterestType): (s: LoanSummary)
    requires principal > 0.0 && annualRate >= 0.0 && months >= 1
    ensures s.months == months && s.interestType == interestType
    ensures s.paymentDetails.Some? <==> interestType == Reducing
    ensures s.monthlyPaymentPercentage * months as real == 100.0 + s.interestPercentage
    ensures s.interestPercentage >= 0.0
    ensures annualRate == 0.0 ==> s.interestPercentage == 0.0 && s.totalInterest == 0
  {
    var t := Totals(principal, annualRate, months, interestType);
    var details := PaymentDetails(principal, annualRate, months, interestType);
    TotalsAgree(principal, annualRate, months, interestType);
    SummaryOfAddsUp(principal, months, interestType, t, details);
    SummaryOf(principal, months, interestType, t, details)
  }

  /** The payment range a declining-balance summary carries besides its average payment. */
  function PaymentDetails(principal: real, annualRate: real, months: int, interestType: InterestType): (d: Option<ReducingPayments>)
    requires months >= 1
    ensures d.Some? <==> interestType == Reducing
  {
    if interestType == Reducing then Some(ReducingMonthlyPayment(principal, annualRate, months)) else None
  }

  /** Totals whose payment over the term adds up to principal plus interest give percentages
      that add up the same way. */
  lemma SummaryOfAddsUp(principal: real, months: int, interestType: InterestType, t: LoanTotals,
                        paymentDetails: Option<ReducingPayments>)
    requires principal > 0.0 && months >= 1
    requires t.monthlyPayment * months as real == principal + t.totalInterest && t.totalInterest >= 0.0
    ensures var s := SummaryOf(principal, months, interestType, t, paymentDetails);
      s.months == months && s.interestType == interestType && s.paymentDetails == paymentDetails
      && s.monthlyPaymentPercentage * months as real == 100.0 + s.interestPercentage
      && s.interestPercentage >= 0.0
      && (t.totalInterest == 0.0 ==> s.interestPercentage == 0.0 && s.totalInterest == 0)
  {
    PercentagesAddUp(principal, t.monthlyPayment, months as real, t.totalInterest);
    NonNegativeFraction(t.totalInterest, principal);
  }

  /** The summary record: currency figures rounded, percentages of the principal unrounded. */
  function SummaryOf(principal: real, months: int, interestType: InterestType, t: LoanTotals,
                     paymentDetails: Option<ReducingPayments>): LoanSummary
    requires principal != 0.0
  {
    LoanSummary(Round(t.monthlyPayment), Round(t.totalInterest), Round(t.totalAmount),
                t.totalInterest / principal * 100.0, t.monthlyPayment / principal * 100.0,
                months, interestType, paymentDetails)
  }
}

/**
 * The loan engine of src/lib/finance.ts: the amortizing-loan payment, total
 * interest, the month-by-month payoff simulation with an extra payment, and the
 * composite calculation that rounds every amount to cents.
 *
 * Amounts and rates are `real`s (an idealised double). The loan term is a whole
 * number of months, so that `(1 + r)^n` has a whole exponent.
 */
module Finance {
  import opened Optional
  import opened Numbers

  /** The simulation gives up after 600 months (50 years). */
  const MaxSimulatedMonths: nat := 600

  /** A balance of at most 0.01 counts as paid off. */
  const PaidOffBalance: real := 0.01

  /** The monthly fraction of an annual percentage rate: `annualRate / 100 / 12`. */
  function MonthlyRate(annualRate: real): (r: real)
    ensures r == 0.0 <==> annualRate == 0.0
    ensures r > 0.0 <==> annualRate > 0.0
  {
    annualRate / 100.0 / 12.0
  }

  /** `calculateMonthlyPayment(principal, annualRate, termMonths / 12)`:
      the level payment that amortizes `principal` over `termMonths` months,
      `P * r * (1+r)^n / ((1+r)^n - 1)`. A non-positive principal or term
      gives 0; a zero rate gives the plain quotient. When `(1+r)^n` is exactly 1
      with a non-zero rate the division is by zero and the result is -Infinity. */
  function MonthlyPayment(principal: real, annualRate: real, termMonths: int): (p: Extended)
    ensures principal <= 0.0 || termMonths <= 0 ==> p == Finite(0.0)
    ensures principal > 0.0 && termMonths > 0 && annualRate == 0.0 ==>
              p == Finite(principal / termMonths as real)
    ensures p != PosInf
    ensures p == NegInf ==> principal > 0.0 && termMonths > 0 && annualRate != 0.0
  {
    if principal <= 0.0 || termMonths <= 0 then Finite(0.0)
    // termYears * 12 is the month count again
    else if annualRate == 0.0 then Finite(principal / termMonths as real)
    else
      var r := MonthlyRate(annualRate);
      var growth := Pow(1.0 + r, termMonths);
      if growth - 1.0 == 0.0 then NegInf
      else Finite(principal * (r * growth / (growth - 1.0)))
  }

  /** The scheduled balance after `k` level payments `p`: each month interest at
      rate `r` accrues and the payment is taken off, with no clipping at zero. */
  function ScheduledBalance(principal: real, r: real, p: real, k: nat): real
  {
    if k == 0 then principal else ScheduledBalance(principal, r, p, k - 1) * (1.0 + r) - p
  }

  /** `calculateTotalInterest`: what the payments over the term add up to beyond
      the principal, never negative. */
  function TotalInterest(monthlyPayment: real, termYears: real, principal: real): (i: real)
    ensures i >= 0.0
    ensures i >= monthlyPayment * termYears * 12.0 - principal
    ensures i == 0.0 || i == monthlyPayment * termYears * 12.0 - principal
  {
    Max(0.0, monthlyPayment * termYears * 12.0 - principal)
  }

  /** One simulated month: interest accrues on `balance`, and the total payment
      less that interest, but never more than the balance, is paid off. */
  function Step(balance: real, r: real, total: real): real
  {
    var interest := balance * r;
    var principalPart := Min(total - interest, balance);
    balance - principalPart
  }

  /** The simulated balance after `k` months. */
  function BalanceAfter(principal: real, r: real, total: real, k: nat): real
  {
    if k == 0 then principal else Step(BalanceAfter(principal, r, total, k - 1), r, total)
  }

  /** The simulation loop, entered at month `months` with the balance so far:
      it runs while the balance is above 0.01 and fewer than 600 months have passed. */
  function Simulate(principal: real, r: real, total: real, balance: real, months: nat): (m: nat)
    requires months <= MaxSimulatedMonths
    requires balance == BalanceAfter(principal, r, total, months)
    ensures months <= m <= MaxSimulatedMonths
    ensures m == MaxSimulatedMonths || BalanceAfter(principal, r, total, m) <= PaidOffBalance
    ensures forall j :: months <= j < m ==> BalanceAfter(principal, r, total, j) > PaidOffBalance
    decreases MaxSimulatedMonths - months
  {
    if balance > PaidOffBalance && months < MaxSimulatedMonths then
      Simulate(principal, r, total, Step(balance, r, total), months + 1)
    else
      months
  }

  /** The month count at which the simulated balance first drops to 0.01 or below,
      or 600 if it never does within 600 months. */
  predicate IsPayoffMonth(principal: real, r: real, total: real, m: nat)
  {
    && m <= MaxSimulatedMonths
    && (m == MaxSimulatedMonths || BalanceAfter(principal, r, total, m) <= PaidOffBalance)
    && forall j :: 0 <= j < m ==> BalanceAfter(principal, r, total, j) > PaidOffBalance
  }

  /** `calculatePayoffTimeWithExtra`: the months needed to pay off `principal`
      paying `regularPayment + extraPayment` a month. Infinity when that total
      does not exceed the first month's interest. */
  function PayoffTimeWithExtra(principal: real, annualRate: real, regularPayment: real,
                               extraPayment: real): (t: Extended)
    ensures principal <= 0.0 || regularPayment <= 0.0 ==> t == Finite(0.0)
    ensures principal > 0.0 && regularPayment > 0.0 && annualRate == 0.0 ==>
              t == if regularPayment + extraPayment == 0.0 then PosInf
                   else Finite(principal / (regularPayment + extraPayment))
    ensures principal > 0.0 && regularPayment > 0.0 && annualRate != 0.0 ==>
              (t == PosInf <==> regularPayment + extraPayment <= principal * MonthlyRate(annualRate))
    ensures principal > 0.0 && regularPayment > 0.0 && annualRate != 0.0 && t.Finite? ==>
              var m := t.value.Floor;
              && m as real == t.value
              && 0 <= m
              && IsPayoffMonth(principal, MonthlyRate(annualRate), regularPayment + extraPayment, m)
    ensures t != NegInf
  {
    if principal <= 0.0 || regularPayment <= 0.0 then Finite(0.0)
    else if annualRate == 0.0 then
      var total := regularPayment + extraPayment;
      // principal / +0 is +Infinity
      if total == 0.0 then PosInf else Finite(principal / total)
    else
      var r := MonthlyRate(annualRate);
      var total := regularPayment + extraPayment;
      if total <= principal * r then PosInf
      else Finite(Simulate(principal, r, total, principal, 0) as real)
  }

  /** The input of `calculateLoan`, with the term in months as `calculateLoan`
      reads it; an absent extra payment means 0. */
  datatype LoanCalculation = LoanCalculation(
    loanAmount: real,
    annualInterestRate: real,
    loanTermMonths: int,
    extraMonthlyPayment: Option<real>)

  /** The result of `calculateLoan`; `payoffTimeSavings` is absent or present. */
  datatype LoanResult = LoanResult(
    monthlyPayment: Extended,
    totalInterest: real,
    totalPaid: Extended,
    payoffTimeMonths: int,
    payoffTimeSavings: Option<Extended>)

  /** The payoff time `calculateLoan` computes when there is an extra payment,
      from the unrounded monthly payment. A payment of -Infinity takes the
      `regularPayment <= 0` exit. */
  function PayoffForLoan(params: LoanCalculation): Extended
  {
    var extra := params.extraMonthlyPayment.GetOr(0.0);
    match MonthlyPayment(params.loanAmount, params.annualInterestRate, params.loanTermMonths)
    case Finite(p) => PayoffTimeWithExtra(params.loanAmount, params.annualInterestRate, p, extra)
    case _ => Finite(0.0)
  }

  /** The unrounded total interest of `calculateLoan`: `calculateTotalInterest`
      with the term in years, which is the month count over 12. */
  function LoanInterest(payment: Extended, months: int, amount: real): (i: real)
    requires payment != PosInf
    ensures payment.Finite? ==> i == Max(0.0, payment.value * months as real - amount)
    ensures payment == NegInf && months > 0 ==> i == 0.0
  {
    match payment
    case Finite(p) =>
      var termYears := months as real / 12.0;
      assert p * termYears * 12.0 == p * months as real;
      TotalInterest(p, termYears, amount)
    // -Infinity times a positive term, less the principal, is -Infinity; max(0, -Infinity) is 0
    case _ => 0.0
  }

  /** The months `calculateLoan` reports as saved, before rounding; absent when
      there is no extra payment or the difference is zero (JavaScript truthiness). */
  function LoanSavings(params: LoanCalculation): (s: Option<Extended>)
    ensures var extra := params.extraMonthlyPayment.GetOr(0.0);
            s.None? <==> extra <= 0.0 || PayoffForLoan(params) == Finite(params.loanTermMonths as real)
    ensures s.Some? ==>
              match PayoffForLoan(params)
              case Finite(v) => s.value == Finite(params.loanTermMonths as real - v)
              case _ => s.value == NegInf
  {
    if params.extraMonthlyPayment.GetOr(0.0) > 0.0 then
      var diff := Minus(params.loanTermMonths as real, PayoffForLoan(params));
      if diff == Finite(0.0) then None else Some(diff)
    else None
  }

  /** The unrounded total paid of `calculateLoan`: the payment times the term;
      -Infinity times a positive term stays -Infinity. */
  function LoanTotalPaid(payment: Extended, months: int): (t: Extended)
    requires payment != PosInf
    ensures payment.Finite? ==> t == Finite(payment.value * months as real)
    ensures payment == NegInf && months > 0 ==> t == NegInf
  {
    if payment.Finite? then Finite(payment.value * months as real) else NegInf
  }

  /** `calculateLoan`: the payment, total interest and total paid rounded to
      cents, the term passed through, and the saved months rounded when present. */
  function CalculateLoan(params: LoanCalculation): (res: LoanResult)
    ensures res.payoffTimeMonths == params.loanTermMonths
    ensures var p := MonthlyPayment(params.loanAmount, params.annualInterestRate, params.loanTermMonths);
            && RoundsToExt(res.monthlyPayment, p)
            && RoundsToExt(res.totalPaid, LoanTotalPaid(p, params.loanTermMonths))
            && RoundsTo(res.totalInterest, LoanInterest(p, params.loanTermMonths, params.loanAmount))
    ensures res.payoffTimeSavings.None? <==> LoanSavings(params).None?
    ensures res.payoffTimeSavings.Some? ==>
              RoundsToExt(res.payoffTimeSavings.value, LoanSavings(params).value)
  {
    var payment := MonthlyPayment(params.loanAmount, params.annualInterestRate, params.loanTermMonths);
    Rounded(payment, params.loanTermMonths, params.loanAmount, LoanSavings(params))
  }

  /** The result of `calculateLoan` for an unrounded payment, term, principal and
      months saved: every amount rounded to cents. */
  function Rounded(payment: Extended, months: int, amount: real, savings: Option<Extended>): (res: LoanResult)
    requires payment != PosInf
    ensures res.payoffTimeMonths == months
    ensures RoundsToExt(res.monthlyPayment, payment)
    ensures RoundsToExt(res.totalPaid, LoanTotalPaid(payment, months))
    ensures RoundsTo(res.totalInterest, LoanInterest(payment, months, amount))
    ensures res.payoffTimeSavings.None? <==> savings.None?
    ensures res.payoffTimeSavings.Some? ==> RoundsToExt(res.payoffTimeSavings.value, savings.value)
  {
    LoanResult(
      Round2Ext(payment),
      Round2(LoanInterest(payment, months, amount)),
      Round2Ext(LoanTotalPaid(payment, months)),
      months,
      if savings.Some? then Some(Round2Ext(savings.value)) else None)
  }
}
